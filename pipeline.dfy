/**
 * The loop of `handler` over the rows of one file (index.py, lines
 * 59-148): every row is normalised, rejected rows are skipped, and a row
 * whose signature was already seen is skipped too. Also the name of the
 * output object (line 150).
 */
module Pipeline {
  import opened Wrappers
  import opened Seqs
  import opened Records
  import opened Unique

  /** The cleaned rows of the accepted input rows, in input order. */
  function Accepted(rows: seq<RawRecord>): seq<CleanRecord> {
    FilterMap(Normalize, rows)
  }

  /** Every accepted row satisfies the record invariant, and so its
      signature identifies it. */
  lemma AcceptedValid(rows: seq<RawRecord>)
    ensures forall r | r in Accepted(rows) :: Valid(r)
  {
    FilterMapValues(Normalize, rows);
    forall r | r in Accepted(rows) ensures Valid(r) {
      var x :| x in rows && Normalize(x) == Some(r);
    }
  }

  /** The rows the loop writes out: the accepted rows, each one skipped
      when a row with its signature was written before. */
  function Output(rows: seq<RawRecord>): seq<CleanRecord> {
    Dedup(Signature, Accepted(rows))
  }

  /** No two rows of the output have the same signature, */
  lemma OutputDistinct(rows: seq<RawRecord>)
    ensures Distinct(Signature, Output(rows))
  {
    DedupDistinct(Signature, Accepted(rows));
  }

  /** the output is an in-order subsequence of the accepted rows, */
  lemma OutputSubsequence(rows: seq<RawRecord>)
    ensures IsSubsequence(Output(rows), Accepted(rows))
  {
    DedupSubsequence(Signature, Accepted(rows));
  }

  /** every output row is an accepted row and satisfies the record
      invariant, */
  lemma OutputValid(rows: seq<RawRecord>)
    ensures forall r | r in Output(rows) :: r in Accepted(rows) && Valid(r)
  {
    AcceptedValid(rows);
    DedupElements(Signature, Accepted(rows));
  }

  /** and every accepted row is in the output (`OutputSkipsOnlyRepeats`
      says when a row adds nothing). */
  lemma OutputKeepsAccepted(rows: seq<RawRecord>)
    ensures forall r | r in Accepted(rows) :: r in Output(rows)
  {
    var a := Accepted(rows);
    AcceptedValid(rows);
    forall x, y | x in a && y in a && Signature(x) == Signature(y) ensures x == y {
      SignatureInjective(x, y);
    }
    DedupKeepsEvery(Signature, a);
  }

  /** Running the cleaned rows through the dedup step again changes
      nothing. */
  lemma OutputIdempotent(rows: seq<RawRecord>)
    ensures Dedup(Signature, Output(rows)) == Output(rows)
  {
    DedupIdempotent(Signature, Accepted(rows));
  }

  /** A row that repeats an earlier row of the file adds nothing to the
      output. */
  lemma OutputRepeatedRow(rows: seq<RawRecord>, raw: RawRecord)
    requires raw in rows
    ensures Output(rows + [raw]) == Output(rows)
  {
    FilterMapSnoc(Normalize, rows, raw);
    if Normalize(raw).Some? {
      var r := Normalize(raw).value;
      FilterMapKeeps(Normalize, rows, raw);
      DedupCovers(Signature, Accepted(rows));
      DedupSnoc(Signature, Accepted(rows), r);
    }
  }

  /** Of a row given twice, only the first is written out. */
  lemma OutputDuplicate(raw: RawRecord)
    requires Normalize(raw).Some?
    ensures Output([raw, raw]) == [Normalize(raw).value]
  {
    RepeatedOnce(Normalize, Signature, raw);
  }

  // ---------------------------------------------------------------------
  // The loop

  /** Lines 59-148: the loop over the rows, `clean_rows` and `seen_rows`
      built row by row with `Normalize` and `Signature`. */
  method CleanRows(rows: seq<RawRecord>) returns (clean: seq<CleanRecord>)
    ensures clean == Output(rows)
  {
    clean := [];
    var seen: set<Dict> := {};
    var i := 0;
    while i < |rows|
      invariant 0 <= i <= |rows|
      invariant clean == Output(rows[..i])
      invariant seen == Sigs(Signature, clean)
    {
      OutputStep(rows, i);
      var row := Normalize(rows[i]);
      if row.Some? {
        var key := Signature(row.value);
        if key !in seen {
          SigsSnoc(Signature, clean, row.value);
          seen := seen + {key};
          clean := clean + [row.value];
        }
      }
      i := i + 1;
    }
    assert rows[..i] == rows;
  }

  /** One more row: it is written out when it is accepted and its
      signature is new. */
  lemma OutputStep(rows: seq<RawRecord>, i: nat)
    requires i < |rows|
    ensures Output(rows[..i + 1])
         == if Normalize(rows[i]).Some? && Signature(Normalize(rows[i]).value) !in Sigs(Signature, Output(rows[..i]))
            then Output(rows[..i]) + [Normalize(rows[i]).value] else Output(rows[..i])
  {
    AccumulateStep(Normalize, Signature, rows, i);
  }

  /** An accepted row is skipped exactly when an earlier row of the file
      was cleaned to the same row (and otherwise written out next, by
      `OutputStep`). */
  lemma OutputSkipsOnlyRepeats(rows: seq<RawRecord>, i: nat)
    requires i < |rows| && Normalize(rows[i]).Some?
    ensures Output(rows[..i + 1]) == Output(rows[..i])
        <==> exists j | 0 <= j < i :: Normalize(rows[j]) == Normalize(rows[i])
  {
    SignatureIdentifies();
    AccumulateSkipsOnlyRepeats(Normalize, Signature, rows, i);
  }

  lemma SignatureIdentifies()
    ensures Identifies(Signature)
  {
    forall u, v | Signature(u) == Signature(v) ensures u == v {
      SignatureInjective(u, v);
    }
  }

  // ---------------------------------------------------------------------
  // The output key

  /** The position of the last '.', if there is one. */
  function LastDot(s: string): (r: Option<nat>)
    ensures r.Some? ==> r.value < |s| && s[r.value] == '.'
    ensures r.Some? ==> forall j | r.value < j < |s| :: s[j] != '.'
    ensures r.None? <==> forall j | 0 <= j < |s| :: s[j] != '.'
    decreases |s|
  {
    if |s| == 0 then None
    else if s[|s| - 1] == '.' then Some(|s| - 1)
    else LastDot(s[..|s| - 1])
  }

  /** `object_key.rsplit('.', 1)[0] + '.json'` (line 150): everything from
      the last '.' on is replaced by ".json"; a key without a '.' keeps all
      of it. */
  function OutputKey(objectKey: string): (k: string)
    ensures |k| >= 5 && k[|k| - 5..] == ".json"
    ensures LastDot(objectKey).None? ==> k == objectKey + ".json"
    ensures LastDot(objectKey).Some? ==> k == objectKey[..LastDot(objectKey).value] + ".json"
  {
    match LastDot(objectKey)
    case None => objectKey + ".json"
    case Some(i) => objectKey[..i] + ".json"
  }

  /** The extension after the last '.' is what gets replaced. */
  lemma OutputKeyReplacesExtension(stem: string, ext: string)
    requires forall j | 0 <= j < |ext| :: ext[j] != '.'
    ensures OutputKey(stem + "." + ext) == stem + ".json"
  {
    var s := stem + "." + ext;
    assert s[|stem|] == '.';
    assert forall j | |stem| < j < |s| :: s[j] == ext[j - |stem| - 1];
    var i := LastDot(s).value;
    assert i == |stem|;
    assert s[..i] == stem;
  }

  /** Deriving the output key of an output key changes nothing. */
  lemma OutputKeyIdempotent(objectKey: string)
    ensures OutputKey(OutputKey(objectKey)) == OutputKey(objectKey)
  {
    var k := OutputKey(objectKey);
    var stem := k[..|k| - 5];
    assert k == stem + "." + "json";
    OutputKeyReplacesExtension(stem, "json");
  }

  /** A '.' in a folder name counts when the file name has none. */
  lemma OutputKeyOfDottedFolder()
    ensures OutputKey("data.v2/sales") == "data.json"
  {
    OutputKeyReplacesExtension("data", "v2/sales");
    assert "data" + "." + "v2/sales" == "data.v2/sales";
  }
}
