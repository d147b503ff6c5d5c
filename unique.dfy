/**
 * The two list operations of the row loop, independent of what a row is:
 * keeping the results of a partial function in order (`FilterMap`), and
 * keeping each element whose signature no earlier kept element has
 * (`Dedup`).
 */
module Unique {
  import opened Wrappers
  import opened Seqs

  /** The values of `f` on the elements where it has one, in order. */
  function FilterMap<A, B>(f: A -> Option<B>, xs: seq<A>): (r: seq<B>)
    ensures |r| <= |xs|
    decreases |xs|
  {
    if |xs| == 0 then []
    else
      var init := FilterMap(f, xs[..|xs| - 1]);
      match f(xs[|xs| - 1])
      case None => init
      case Some(y) => init + [y]
  }

  /** Every value kept is the value of `f` on some element. */
  lemma {:induction false} FilterMapValues<A, B>(f: A -> Option<B>, xs: seq<A>)
    ensures forall y | y in FilterMap(f, xs) :: exists x | x in xs :: f(x) == Some(y)
    decreases |xs|
  {
    if |xs| > 0 {
      var init := xs[..|xs| - 1];
      FilterMapValues(f, init);
      assert forall x | x in init :: x in xs;
    }
  }

  /** Every value of `f` on an element is kept. */
  lemma {:induction false} FilterMapKeeps<A, B>(f: A -> Option<B>, xs: seq<A>, x: A)
    requires x in xs && f(x).Some?
    ensures f(x).value in FilterMap(f, xs)
    decreases |xs|
  {
    var init := xs[..|xs| - 1];
    if x != xs[|xs| - 1] {
      assert x in init by {
        var k :| 0 <= k < |xs| && xs[k] == x;
        assert init[k] == x;
      }
      FilterMapKeeps(f, init, x);
    }
  }

  /** One more element: its value, if any, goes to the end. */
  lemma FilterMapSnoc<A, B>(f: A -> Option<B>, xs: seq<A>, x: A)
    ensures FilterMap(f, xs + [x]) == FilterMap(f, xs) + (if f(x).Some? then [f(x).value] else [])
  {
    assert (xs + [x])[..|xs|] == xs;
  }

  /** The signatures of a list. */
  function Sigs<T(==), S(==)>(sig: T -> S, rs: seq<T>): set<S> {
    set r | r in rs :: sig(r)
  }

  /** Each element whose signature none of the elements kept before it
      has. */
  function Dedup<T(==), S(==)>(sig: T -> S, rs: seq<T>): seq<T>
    decreases |rs|
  {
    if |rs| == 0 then []
    else
      var kept := Dedup(sig, rs[..|rs| - 1]);
      var x := rs[|rs| - 1];
      if sig(x) in Sigs(sig, kept) then kept else kept + [x]
  }

  /** One more element is kept exactly when its signature is new. */
  lemma DedupSnoc<T, S>(sig: T -> S, rs: seq<T>, x: T)
    ensures Dedup(sig, rs + [x])
         == if sig(x) in Sigs(sig, Dedup(sig, rs)) then Dedup(sig, rs) else Dedup(sig, rs) + [x]
  {
    assert (rs + [x])[..|rs|] == rs;
  }

  /** No two elements have the same signature. */
  predicate Distinct<T(==), S(==)>(sig: T -> S, rs: seq<T>) {
    forall i, j | 0 <= i < j < |rs| :: sig(rs[i]) != sig(rs[j])
  }

  lemma {:induction false} DedupDistinct<T, S>(sig: T -> S, rs: seq<T>)
    ensures Distinct(sig, Dedup(sig, rs))
    decreases |rs|
  {
    if |rs| > 0 {
      var kept := Dedup(sig, rs[..|rs| - 1]);
      DedupDistinct(sig, rs[..|rs| - 1]);
      var x := rs[|rs| - 1];
      if sig(x) !in Sigs(sig, kept) {
        var d := kept + [x];
        forall i, j | 0 <= i < j < |d| ensures sig(d[i]) != sig(d[j]) {
          if j == |kept| {
            assert d[i] in kept;
          }
        }
      }
    }
  }

  /** The kept elements are an in-order subsequence of the input. */
  lemma {:induction false} DedupSubsequence<T, S>(sig: T -> S, rs: seq<T>)
    ensures IsSubsequence(Dedup(sig, rs), rs)
    decreases |rs|
  {
    if |rs| > 0 {
      var init := rs[..|rs| - 1];
      var x := rs[|rs| - 1];
      DedupSubsequence(sig, init);
      assert rs == init + [x];
      if sig(x) in Sigs(sig, Dedup(sig, init)) {
        SubsequenceExtend(Dedup(sig, init), init, x);
      } else {
        SubsequenceSnoc(Dedup(sig, init), init, x);
      }
    }
  }

  /** Every kept element is an input element. */
  lemma {:induction false} DedupElements<T, S>(sig: T -> S, rs: seq<T>)
    ensures forall x | x in Dedup(sig, rs) :: x in rs
    decreases |rs|
  {
    if |rs| > 0 {
      DedupElements(sig, rs[..|rs| - 1]);
      assert forall x | x in rs[..|rs| - 1] :: x in rs;
    }
  }

  /** Every input element's signature is among those of the kept ones. */
  lemma {:induction false} DedupCovers<T, S>(sig: T -> S, rs: seq<T>)
    ensures forall x | x in rs :: sig(x) in Sigs(sig, Dedup(sig, rs))
    decreases |rs|
  {
    if |rs| > 0 {
      var init := rs[..|rs| - 1];
      DedupCovers(sig, init);
      assert rs == init + [rs[|rs| - 1]];
    }
  }

  /** When the signature tells the elements apart, every input element is
      kept: an element is left out only when an equal one was kept before
      it. */
  lemma DedupKeepsEvery<T, S>(sig: T -> S, rs: seq<T>)
    requires forall x, y | x in rs && y in rs && sig(x) == sig(y) :: x == y
    ensures forall x | x in rs :: x in Dedup(sig, rs)
  {
    DedupCovers(sig, rs);
    DedupElements(sig, rs);
    forall x | x in rs ensures x in Dedup(sig, rs) {
      var y :| y in Dedup(sig, rs) && sig(y) == sig(x);
    }
  }

  /** Of a distinct list, the front is distinct and the last element's
      signature is not among the front's. */
  lemma DistinctSplit<T, S>(sig: T -> S, rs: seq<T>)
    requires |rs| > 0 && Distinct(sig, rs)
    ensures Distinct(sig, rs[..|rs| - 1])
    ensures sig(rs[|rs| - 1]) !in Sigs(sig, rs[..|rs| - 1])
  {
    var init := rs[..|rs| - 1];
    forall i | 0 <= i < |init| ensures sig(init[i]) != sig(rs[|rs| - 1]) {
      assert init[i] == rs[i];
    }
  }

  /** Elements that are already distinct are all kept, so `Dedup` is
      idempotent. */
  lemma {:induction false} DedupOfDistinct<T, S>(sig: T -> S, rs: seq<T>)
    requires Distinct(sig, rs)
    ensures Dedup(sig, rs) == rs
    decreases |rs|
  {
    if |rs| > 0 {
      var init := rs[..|rs| - 1];
      DistinctSplit(sig, rs);
      DedupOfDistinct(sig, init);
      assert rs == init + [rs[|rs| - 1]];
    }
  }

  lemma DedupIdempotent<T, S>(sig: T -> S, rs: seq<T>)
    ensures Dedup(sig, Dedup(sig, rs)) == Dedup(sig, rs)
  {
    DedupDistinct(sig, rs);
    DedupOfDistinct(sig, Dedup(sig, rs));
  }

  lemma SigsSnoc<T, S>(sig: T -> S, rs: seq<T>, x: T)
    ensures Sigs(sig, rs + [x]) == Sigs(sig, rs) + {sig(x)}
  {
    assert forall r | r in rs + [x] :: r in rs || r == x;
  }

  /** An element given twice with a value is kept once. */
  lemma RepeatedOnce<A, B, S>(f: A -> Option<B>, sig: B -> S, x: A)
    requires f(x).Some?
    ensures Dedup(sig, FilterMap(f, [x, x])) == [f(x).value]
  {
    var y := f(x).value;
    assert [x, x][..1] == [x] && [x][..0] == [];
    assert FilterMap(f, [x]) == [y];
    assert FilterMap(f, [x, x]) == [y, y];
    assert [y, y][..1] == [y] && [y][..0] == [];
    assert Dedup(sig, [y]) == [y];
    assert sig(y) in Sigs(sig, [y]);
  }

  /** One more input: what is kept grows by its value exactly when it has
      one whose signature is new. */
  lemma AccumulateStep<A, B, S>(f: A -> Option<B>, sig: B -> S, xs: seq<A>, i: nat)
    requires i < |xs|
    ensures var kept := Dedup(sig, FilterMap(f, xs[..i]));
            Dedup(sig, FilterMap(f, xs[..i + 1]))
              == if f(xs[i]).Some? && sig(f(xs[i]).value) !in Sigs(sig, kept)
                 then kept + [f(xs[i]).value] else kept
  {
    assert xs[..i + 1] == xs[..i] + [xs[i]];
    FilterMapSnoc(f, xs[..i], xs[i]);
    if f(xs[i]).Some? {
      DedupSnoc(sig, FilterMap(f, xs[..i]), f(xs[i]).value);
    }
  }

  /** A signature that identifies its element. */
  ghost predicate Identifies<B(!new), S>(sig: B -> S) {
    forall u, v | sig(u) == sig(v) :: u == v
  }

  /** With a signature that identifies its element, an element with a value
      is skipped exactly when an earlier element had the same value. */
  lemma AccumulateSkipsOnlyRepeats<A, B(!new), S>(f: A -> Option<B>, sig: B -> S, xs: seq<A>, i: nat)
    requires i < |xs| && f(xs[i]).Some?
    requires Identifies(sig)
    ensures Dedup(sig, FilterMap(f, xs[..i + 1])) == Dedup(sig, FilterMap(f, xs[..i]))
        <==> exists j | 0 <= j < i :: f(xs[j]) == f(xs[i])
  {
    var y := f(xs[i]).value;
    var p := xs[..i];
    var kept := Dedup(sig, FilterMap(f, p));
    AccumulateStep(f, sig, xs, i);
    if sig(y) in Sigs(sig, kept) {
      var j := SeenSignatureIsEarlier(f, sig, p, y);
      assert xs[j] == p[j];
    } else {
      assert |kept + [y]| != |kept|;
      forall j | 0 <= j < i ensures f(xs[j]) != f(xs[i]) {
        if f(xs[j]) == f(xs[i]) {
          assert p[j] == xs[j];
          EarlierIsSeen(f, sig, p, j);
        }
      }
    }
  }

  /** A signature among the kept ones belongs to the value of an element. */
  lemma SeenSignatureIsEarlier<A, B(!new), S>(f: A -> Option<B>, sig: B -> S, p: seq<A>, y: B) returns (j: nat)
    requires Identifies(sig)
    requires sig(y) in Sigs(sig, Dedup(sig, FilterMap(f, p)))
    ensures j < |p| && f(p[j]) == Some(y)
  {
    var kept := Dedup(sig, FilterMap(f, p));
    var w :| w in kept && sig(w) == sig(y);
    DedupElements(sig, FilterMap(f, p));
    FilterMapValues(f, p);
    var x :| x in p && f(x) == Some(w);
    j :| 0 <= j < |p| && p[j] == x;
  }

  /** The value of every element has its signature among the kept ones. */
  lemma EarlierIsSeen<A, B, S>(f: A -> Option<B>, sig: B -> S, p: seq<A>, j: nat)
    requires j < |p| && f(p[j]).Some?
    ensures sig(f(p[j]).value) in Sigs(sig, Dedup(sig, FilterMap(f, p)))
  {
    FilterMapKeeps(f, p, p[j]);
    DedupCovers(sig, FilterMap(f, p));
  }
}
