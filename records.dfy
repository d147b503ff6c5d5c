/**
 * One CSV row through the rules of the row loop of `handler` (index.py,
 * lines 72-141): the rows that are dropped, and what an accepted row
 * looks like.
 *
 * A raw row is what `csv.DictReader` yields: a map from column name to
 * text. The cleaned row is a typed record; `Signature` turns it back into
 * the dictionary Python holds at the end of the loop body, with typed
 * values, and that dictionary is what the deduplication compares.
 */
module Records {
  import opened Wrappers
  import opened Seqs
  import opened Text
  import opened Numbers
  import opened Dates

  type RawRecord = map<string, string>

  /** `row.get(key, '')`. */
  function Get(raw: RawRecord, key: string): (v: string)
    ensures key in raw ==> v == raw[key]
    ensures key !in raw ==> v == ""
  {
    if key in raw then raw[key] else ""
  }

  function Abs(x: real): (a: real)
    ensures a >= 0.0 && (a == x || a == -x)
  {
    if x < 0.0 then -x else x
  }

  // ---------------------------------------------------------------------
  // The cleaned row

  /** The values a cleaned row holds: strings, `int`, `float` (an exact
      real here), `bool` and `None`. */
  datatype Value = VStr(s: string) | VInt(i: int) | VReal(x: real) | VBool(b: bool) | VNull

  /** An accepted row. Each column the rules rewrite has a typed field;
      every other column of the input is kept in `others` as it was.
      `state` is `None` when the row has no STATE column at all. */
  datatype CleanRecord = CleanRecord(
    quantity: nat,
    price: real,
    status: string,
    orderDate: string,
    sales: real,
    msrp: Option<real>,
    msrpIssue: bool,
    productCode: string,
    orderNumber: string,
    orderLineNumber: string,
    productLine: string,
    country: string,
    city: string,
    territory: string,
    postalCode: Option<string>,
    state: Option<string>,
    phone: Option<string>,
    contactLastName: string,
    contactFirstName: string,
    dealSize: string,
    numericCode: Option<string>,
    others: map<string, string>)

  /** The columns the rules read and rewrite, and the one they add. */
  const TouchedKeys: set<string> := {
    "QUANTITYORDERED", "PRICEEACH", "STATUS", "ORDERDATE", "SALES", "MSRP",
    "MSRP_ISSUE", "PRODUCTCODE", "ORDERNUMBER", "ORDERLINENUMBER",
    "PRODUCTLINE", "COUNTRY", "CITY", "TERRITORY", "POSTALCODE", "STATE",
    "PHONE", "CONTACTLASTNAME", "CONTACTFIRSTNAME", "DEALSIZE", "NUMERICCODE"
  }

  /** The same columns as a type of their own. */
  datatype Column =
    | QuantityOrdered | PriceEach | Status | OrderDate | Sales | Msrp | MsrpIssue
    | ProductCode | OrderNumber | OrderLineNumber | ProductLine | Country | City
    | Territory | PostalCode | State | Phone | ContactLastName | ContactFirstName
    | DealSize | NumericCode

  /** The header text of a column. */
  function ColumnName(c: Column): (name: string)
    ensures name in TouchedKeys
  {
    match c
    case QuantityOrdered => "QUANTITYORDERED"
    case PriceEach => "PRICEEACH"
    case Status => "STATUS"
    case OrderDate => "ORDERDATE"
    case Sales => "SALES"
    case Msrp => "MSRP"
    case MsrpIssue => "MSRP_ISSUE"
    case ProductCode => "PRODUCTCODE"
    case OrderNumber => "ORDERNUMBER"
    case OrderLineNumber => "ORDERLINENUMBER"
    case ProductLine => "PRODUCTLINE"
    case Country => "COUNTRY"
    case City => "CITY"
    case Territory => "TERRITORY"
    case PostalCode => "POSTALCODE"
    case State => "STATE"
    case Phone => "PHONE"
    case ContactLastName => "CONTACTLASTNAME"
    case ContactFirstName => "CONTACTFIRSTNAME"
    case DealSize => "DEALSIZE"
    case NumericCode => "NUMERICCODE"
  }

  /** The dictionary Python holds at the end of the loop body, in two
      parts: the rewritten columns with their typed values, and the
      untouched columns as text. */
  datatype Dict = Dict(typed: map<Column, Value>, plain: map<string, string>)

  /** The rewritten columns of a cleaned row. STATE is there only when the
      row has it. */
  function Typed(r: CleanRecord): (f: map<Column, Value>)
    ensures QuantityOrdered in f && f[QuantityOrdered] == VInt(r.quantity)
    ensures State in f <==> r.state.Some?
  {
    var typed := map[
      QuantityOrdered := VInt(r.quantity),
      PriceEach := VReal(r.price),
      Status := VStr(r.status),
      OrderDate := VStr(r.orderDate),
      Sales := VReal(r.sales),
      Msrp := (if r.msrp.Some? then VReal(r.msrp.value) else VNull),
      MsrpIssue := VBool(r.msrpIssue),
      ProductCode := VStr(r.productCode),
      OrderNumber := VStr(r.orderNumber),
      OrderLineNumber := VStr(r.orderLineNumber),
      ProductLine := VStr(r.productLine),
      Country := VStr(r.country),
      City := VStr(r.city),
      Territory := VStr(r.territory),
      PostalCode := (if r.postalCode.Some? then VStr(r.postalCode.value) else VNull),
      Phone := (if r.phone.Some? then VStr(r.phone.value) else VNull),
      ContactLastName := VStr(r.contactLastName),
      ContactFirstName := VStr(r.contactFirstName),
      DealSize := VStr(r.dealSize),
      NumericCode := (if r.numericCode.Some? then VStr(r.numericCode.value) else VNull)
    ];
    if r.state.Some? then typed[State := VStr(r.state.value)] else typed
  }

  /** What the dedup step compares: `json.dumps(row, sort_keys=True)`
      stands for the dictionary itself. */
  function Signature(r: CleanRecord): Dict {
    Dict(Typed(r), r.others)
  }

  /** `others` holds only the columns the rules do not touch. */
  predicate WellFormed(r: CleanRecord) {
    r.others.Keys !! TouchedKeys
  }

  // ---------------------------------------------------------------------
  // The field rules, in the order of the loop body

  /** The two outcomes of the quantity check as written, and the third:
      `int(qty)` raising for a string that `isdigit` accepts but that is
      not a decimal numeral (a superscript digit), which ends the whole
      batch in the handler's `except`. */
  datatype QuantityOutcome = Drop | Qty(n: nat) | Abort

  /** Lines 74-77 as written, on the QUANTITYORDERED text: strip, drop an
      empty value, exactly "0" or one that is not `isdigit`, then `int`. */
  function QuantityRuleAsWritten(text: string): (r: QuantityOutcome)
    ensures r.Drop? <==> var q := Strip(text); q == "" || q == "0" || !IsDigitString(q)
    ensures r.Qty? <==> !r.Drop? && AllDecimal(Strip(text))
    ensures r.Qty? ==> r.n == DigitsValue(Strip(text))
    ensures r.Abort? <==> !r.Drop? && !AllDecimal(Strip(text))
  {
    var q := Strip(text);
    if q == "" || q == "0" || !IsDigitString(q) then Drop
    else if AllDecimal(q) then Qty(DigitsValue(q))
    else Abort
  }

  /** Lines 74-77 as intended: the quantity is a decimal numeral with a
      positive value; anything else drops the row. */
  function QuantityRule(text: string): (r: Option<nat>)
    ensures r.Some? <==> var q := Strip(text); |q| > 0 && AllDecimal(q) && DigitsValue(q) > 0
    ensures r.Some? ==> r.value > 0 && r.value == DigitsValue(Strip(text))
  {
    var q := Strip(text);
    if |q| > 0 && AllDecimal(q) && DigitsValue(q) > 0 then Some(DigitsValue(q)) else None
  }

  /** Lines 79-82: PRICEEACH must be a numeral and not negative. */
  function PriceRule(text: string): (r: Option<real>)
    ensures r.Some? <==> var p := Strip(text); ParseDecimal(p).Some? && ParseDecimal(p).value >= 0.0
    ensures r.Some? ==> r.value >= 0.0 && Some(r.value) == ParseDecimal(Strip(text))
  {
    match ParseDecimal(Strip(text))
    case None => None
    case Some(v) => if v < 0.0 then None else Some(v)
  }

  /** No lower-case ASCII letter. */
  predicate NoLower(s: string) {
    forall i | 0 <= i < |s| :: !('a' <= s[i] <= 'z')
  }

  /** Lines 84-85: STATUS stripped and upper-cased, the known typo
      corrected, an empty value defaulted. */
  function StatusRule(text: string): (r: string)
    ensures r != "" && r != "DLEIVERED" && NoLower(r)
  {
    FixStatus(Upper(Strip(text)))
  }

  /** The typo correction and the default of line 85, on the upper-cased
      value. */
  function FixStatus(s: string): (r: string)
    ensures r != "" && r != "DLEIVERED"
    ensures NoLower(s) ==> NoLower(r)
    ensures s == "DLEIVERED" ==> r == "DELIVERED"
    ensures s == "" ==> r == "UNKNOWN"
    ensures s != "" && s != "DLEIVERED" ==> r == s
  {
    if s == "DLEIVERED" then "DELIVERED" else if s == "" then "UNKNOWN" else s
  }

  /** Lines 96-97: the stated figure is kept when it is within 0.1 of
      quantity times price, and replaced by that product rounded to cents
      otherwise. Either way the result is within 0.1 of the product. */
  function SalesRule(stated: real, computed: real): (r: real)
    ensures Abs(r - computed) <= 0.1
    ensures Abs(stated - computed) <= 0.1 ==> r == stated
    ensures Abs(stated - computed) > 0.1 ==> r == Round2(computed)
  {
    if Abs(stated - computed) > 0.1 then Round2(computed) else stated
  }

  /** `row['QUANTITYORDERED'] * row['PRICEEACH']` (line 96). */
  function LineTotal(qty: nat, price: real): real {
    qty as real * price
  }

  /** Lines 99-106: MSRP when its text is a numeral, and whether the price
      is above it; no MSRP and no issue otherwise. */
  function MsrpRule(text: string, price: real): (r: (Option<real>, bool))
    ensures r.0 == ParseDecimal(Strip(text))
    ensures r.1 <==> r.0.Some? && price > r.0.value
  {
    var m := ParseDecimal(Strip(text));
    (m, m.Some? && price > m.value)
  }

  /** `s[:n]`: at most the first `n` characters. */
  function Prefix(s: string, n: nat): (r: string)
    ensures r <= s
    ensures |r| == if |s| <= n then |s| else n
  {
    if |s| <= n then s else s[..n]
  }

  /** The CITY of a row that has none. */
  const DefaultCity: string := "SIN CIUDAD"

  lemma DefaultCityIsStripped()
    ensures DefaultCity != "" && IsStripped(DefaultCity)
  {
    assert DefaultCity[0] == 'S' && DefaultCity[|DefaultCity| - 1] == 'D';
  }

  /** Lines 120-121: CITY stripped, or "SIN CIUDAD" when nothing is left. */
  function CityRule(text: string): (r: string)
    ensures r != "" && IsStripped(r)
    ensures Strip(text) != "" ==> r == Strip(text)
    ensures Strip(text) == "" ==> r == DefaultCity
  {
    var c := Strip(text);
    if c != "" then c else DefaultCityIsStripped(); DefaultCity
  }

  /** The territory of each listed country (lines 62-70). */
  const TerritoryTable: map<string, string> := map[
    "USA" := "NA", "France" := "EMEA", "Australia" := "APAC", "Japan" := "APAC",
    "Germany" := "EMEA", "UK" := "EMEA", "Spain" := "EMEA"]

  /** `territory_map.get(country, '')`. */
  function TerritoryOf(country: string): (t: string)
    ensures t in {"NA", "EMEA", "APAC", ""}
    ensures t == "" <==> country !in TerritoryTable
  {
    if country in TerritoryTable then TerritoryTable[country] else ""
  }

  /** Lines 123-124: a missing or empty TERRITORY is looked up from the
      sanitised country; any other value stays. */
  function TerritoryRule(text: string, country: string): (r: string)
    ensures text != "" ==> r == text
    ensures text == "" ==> r == TerritoryOf(country)
  {
    if text == "" then TerritoryOf(country) else text
  }

  /** Lines 126-128: POSTALCODE is kept, unstripped, only when it has a
      decimal digit; otherwise it becomes None, also when it was absent. */
  function PostalRule(text: string): (r: Option<string>)
    ensures r.Some? <==> HasDecimal(text)
    ensures r.Some? ==> r.value == text
  {
    if text == "" || !HasDecimal(text) then None else Some(text)
  }

  /** Lines 130-131: a USA row with a missing or empty STATE gets
      "UNKNOWN"; otherwise STATE stays as it is, absent included. */
  function StateRule(raw: RawRecord, country: string): (r: Option<string>)
    ensures country == "USA" && Get(raw, "STATE") == "" ==> r == Some("UNKNOWN")
    ensures !(country == "USA" && Get(raw, "STATE") == "") ==>
              r == if "STATE" in raw then Some(raw["STATE"]) else None
  {
    if country == "USA" && Get(raw, "STATE") == "" then Some("UNKNOWN")
    else if "STATE" in raw then Some(raw["STATE"])
    else None
  }

  /** Lines 140-141: NUMERICCODE stripped, kept only when it is all
      digits. */
  function NumericCodeRule(text: string): (r: Option<string>)
    ensures r.Some? <==> IsDigitString(Strip(text))
    ensures r.Some? ==> r.value == Strip(text)
  {
    var c := Strip(text);
    if IsValidNumericCode(c) then Some(c) else None
  }

  // ---------------------------------------------------------------------
  // The whole row

  predicate Sanitized(s: string) {
    (forall i | 0 <= i < |s| :: IsWordOrSpace(s[i])) && IsStripped(s)
  }

  /** The figures of an accepted row. */
  predicate ValidFigures(r: CleanRecord) {
    && r.quantity > 0
    && r.price >= 0.0
    && Abs(r.sales - LineTotal(r.quantity, r.price)) <= 0.1
    && (r.msrpIssue <==> r.msrp.Some? && r.price > r.msrp.value)
  }

  /** The codes and identifiers of an accepted row. */
  predicate ValidCodes(r: CleanRecord) {
    && r.status != "" && r.status != "DLEIVERED" && NoLower(r.status)
    && IsIsoDate(r.orderDate)
    && |r.productCode| <= 15 && |r.productLine| <= 60
    && IsDigitString(r.orderNumber) && IsDigitString(r.orderLineNumber)
    && (r.numericCode.Some? ==> IsDigitString(r.numericCode.value) && IsStripped(r.numericCode.value))
  }

  /** The address and contact columns of an accepted row. */
  predicate ValidContact(r: CleanRecord) {
    && Sanitized(r.country) && r.city != "" && IsStripped(r.city)
    && (r.postalCode.Some? ==> HasDecimal(r.postalCode.value))
    && (r.country == "USA" ==> r.state.Some? && r.state.value != "")
    && (r.phone.Some? ==> |r.phone.value| >= 7 && AllDecimal(r.phone.value))
    && Sanitized(r.contactLastName) && Sanitized(r.contactFirstName) && Sanitized(r.dealSize)
  }

  /** What every accepted row satisfies. */
  predicate Valid(r: CleanRecord) {
    ValidFigures(r) && ValidCodes(r) && ValidContact(r) && WellFormed(r)
  }

  /** The columns of the input that no rule touches. */
  function Untouched(raw: RawRecord): (m: map<string, string>)
    ensures m.Keys !! TouchedKeys
    ensures forall k | k in raw && k !in TouchedKeys :: k in m && m[k] == raw[k]
    ensures m.Keys <= raw.Keys
  {
    map k | k in raw && k !in TouchedKeys :: raw[k]
  }

  /** Why a row is dropped: one of the six gates fails. */
  predicate Rejected(raw: RawRecord) {
    || QuantityRule(Get(raw, "QUANTITYORDERED")).None?
    || PriceRule(Get(raw, "PRICEEACH")).None?
    || ParseDate(Get(raw, "ORDERDATE")).None?
    || ParseDecimal(Strip(Get(raw, "SALES"))).None?
    || !IsDigitString(Get(raw, "ORDERNUMBER"))
    || !IsDigitString(Get(raw, "ORDERLINENUMBER"))
  }

  /** The cleaned row of a row whose gates gave quantity `qty`, price
      `price` and order date `date`, and whose SALES came out as `sales`:
      each other column rewritten by its rule, the untouched ones kept. */
  function Clean(raw: RawRecord, qty: nat, price: real, date: string, sales: real): CleanRecord {
    var country := SanitizeText(Get(raw, "COUNTRY"));
    var msrp := MsrpRule(Get(raw, "MSRP"), price);
    CleanRecord(
      quantity := qty,
      price := price,
      status := StatusRule(Get(raw, "STATUS")),
      orderDate := date,
      sales := sales,
      msrp := msrp.0,
      msrpIssue := msrp.1,
      productCode := Prefix(Get(raw, "PRODUCTCODE"), 15),
      orderNumber := Get(raw, "ORDERNUMBER"),
      orderLineNumber := Get(raw, "ORDERLINENUMBER"),
      productLine := Prefix(Get(raw, "PRODUCTLINE"), 60),
      country := country,
      city := CityRule(Get(raw, "CITY")),
      territory := TerritoryRule(Get(raw, "TERRITORY"), country),
      postalCode := PostalRule(Get(raw, "POSTALCODE")),
      state := StateRule(raw, country),
      phone := SanitizePhone(Get(raw, "PHONE")),
      contactLastName := SanitizeText(Get(raw, "CONTACTLASTNAME")),
      contactFirstName := SanitizeText(Get(raw, "CONTACTFIRSTNAME")),
      dealSize := SanitizeText(Get(raw, "DEALSIZE")),
      numericCode := NumericCodeRule(Get(raw, "NUMERICCODE")),
      others := Untouched(raw))
  }

  lemma CleanFiguresValid(raw: RawRecord, qty: nat, price: real, date: string, sales: real)
    requires qty > 0 && price >= 0.0 && Abs(sales - LineTotal(qty, price)) <= 0.1
    ensures ValidFigures(Clean(raw, qty, price, date, sales))
  {
    CleanFigures(raw, qty, price, date, sales);
    FiguresValid(Clean(raw, qty, price, date, sales), qty, price, sales, MsrpRule(Get(raw, "MSRP"), price));
  }

  lemma FiguresValid(r: CleanRecord, qty: nat, price: real, sales: real, msrp: (Option<real>, bool))
    requires r.quantity == qty && r.price == price && r.sales == sales
    requires r.msrp == msrp.0 && r.msrpIssue == msrp.1
    requires qty > 0 && price >= 0.0 && Abs(sales - LineTotal(qty, price)) <= 0.1
    requires msrp.1 <==> msrp.0.Some? && price > msrp.0.value
    ensures ValidFigures(r)
  {
  }

  /** The figures `Clean` puts in the row. */
  lemma CleanFigures(raw: RawRecord, qty: nat, price: real, date: string, sales: real)
    ensures var r := Clean(raw, qty, price, date, sales);
      r.quantity == qty && r.price == price && r.sales == sales
      && r.msrp == MsrpRule(Get(raw, "MSRP"), price).0 && r.msrpIssue == MsrpRule(Get(raw, "MSRP"), price).1
  {
  }

  lemma CleanCodesValid(raw: RawRecord, qty: nat, price: real, date: string, sales: real)
    requires IsIsoDate(date)
    requires IsDigitString(Get(raw, "ORDERNUMBER")) && IsDigitString(Get(raw, "ORDERLINENUMBER"))
    ensures ValidCodes(Clean(raw, qty, price, date, sales))
  {
  }

  lemma CleanContactValid(raw: RawRecord, qty: nat, price: real, date: string, sales: real)
    ensures ValidContact(Clean(raw, qty, price, date, sales))
  {
    CleanContact(raw, qty, price, date, sales);
    ContactValid(Clean(raw, qty, price, date, sales), raw);
  }

  /** The address and contact columns `Clean` puts in the row. */
  lemma CleanContact(raw: RawRecord, qty: nat, price: real, date: string, sales: real)
    ensures var r := Clean(raw, qty, price, date, sales);
      && r.country == SanitizeText(Get(raw, "COUNTRY")) && r.city == CityRule(Get(raw, "CITY"))
      && r.postalCode == PostalRule(Get(raw, "POSTALCODE")) && r.state == StateRule(raw, r.country)
      && r.phone == SanitizePhone(Get(raw, "PHONE"))
      && r.contactLastName == SanitizeText(Get(raw, "CONTACTLASTNAME"))
      && r.contactFirstName == SanitizeText(Get(raw, "CONTACTFIRSTNAME"))
      && r.dealSize == SanitizeText(Get(raw, "DEALSIZE"))
  {
  }

  lemma ContactValid(r: CleanRecord, raw: RawRecord)
    requires r.country == SanitizeText(Get(raw, "COUNTRY")) && r.city == CityRule(Get(raw, "CITY"))
    requires r.postalCode == PostalRule(Get(raw, "POSTALCODE")) && r.state == StateRule(raw, r.country)
    requires r.phone == SanitizePhone(Get(raw, "PHONE"))
    requires r.contactLastName == SanitizeText(Get(raw, "CONTACTLASTNAME"))
    requires r.contactFirstName == SanitizeText(Get(raw, "CONTACTFIRSTNAME"))
    requires r.dealSize == SanitizeText(Get(raw, "DEALSIZE"))
    ensures ValidContact(r)
  {
  }

  lemma CleanWellFormed(raw: RawRecord, qty: nat, price: real, date: string, sales: real)
    ensures WellFormed(Clean(raw, qty, price, date, sales))
  {
  }

  /** The row cleaned from gate values that passed is valid. */
  lemma CleanValid(raw: RawRecord, qty: nat, price: real, date: string, stated: real)
    requires qty > 0 && price >= 0.0 && IsIsoDate(date)
    requires IsDigitString(Get(raw, "ORDERNUMBER")) && IsDigitString(Get(raw, "ORDERLINENUMBER"))
    ensures Valid(Clean(raw, qty, price, date, SalesRule(stated, LineTotal(qty, price))))
  {
    var sales := SalesRule(stated, LineTotal(qty, price));
    CleanFiguresValid(raw, qty, price, date, sales);
    CleanCodesValid(raw, qty, price, date, sales);
    CleanContactValid(raw, qty, price, date, sales);
    CleanWellFormed(raw, qty, price, date, sales);
  }

  /** The loop body of lines 74-141 on one row: None when the row is
      dropped, the cleaned row otherwise. */
  function Normalize(raw: RawRecord): (r: Option<CleanRecord>)
    ensures r.None? <==> Rejected(raw)
    ensures r.Some? ==> Valid(r.value)
  {
    if Rejected(raw) then None
    else
      var qty := QuantityRule(Get(raw, "QUANTITYORDERED")).value;
      var price := PriceRule(Get(raw, "PRICEEACH")).value;
      var date := ParseDate(Get(raw, "ORDERDATE")).value;
      var stated := ParseDecimal(Strip(Get(raw, "SALES"))).value;
      var sales := SalesRule(stated, LineTotal(qty, price));
      CleanValid(raw, qty, price, date, stated);
      Some(Clean(raw, qty, price, date, sales))
  }

  /** A row that passes the six gates is cleaned with the values they
      give, its SALES decided by the sales rule. */
  lemma NormalizeAccepts(raw: RawRecord, qty: nat, price: real, date: string, stated: real)
    requires QuantityRule(Get(raw, "QUANTITYORDERED")) == Some(qty)
    requires PriceRule(Get(raw, "PRICEEACH")) == Some(price)
    requires ParseDate(Get(raw, "ORDERDATE")) == Some(date)
    requires ParseDecimal(Strip(Get(raw, "SALES"))) == Some(stated)
    requires IsDigitString(Get(raw, "ORDERNUMBER")) && IsDigitString(Get(raw, "ORDERLINENUMBER"))
    ensures Normalize(raw) == Some(Clean(raw, qty, price, date, SalesRule(stated, LineTotal(qty, price))))
  {
  }

  // ---------------------------------------------------------------------
  // The quantity rule as written and as intended

  /** "00" passes the check of line 75, which only refuses "0" itself, and
      the row goes on with a quantity of 0. */
  lemma QuantityZeroAccepted()
    ensures QuantityRuleAsWritten("00") == Qty(0)
    ensures QuantityRule("00").None?
  {
    StripStripped("00");
    assert "00"[..1] == "0";
    assert DigitsValue("00") == 0;
  }

  /** More generally, every stripped text of two or more zeros is kept as
      written with quantity 0, and dropped by the intended rule. */
  lemma QuantityZerosAccepted(text: string)
    requires |Strip(text)| >= 2
    requires forall i | 0 <= i < |Strip(text)| :: Strip(text)[i] == '0'
    ensures QuantityRuleAsWritten(text) == Qty(0)
    ensures QuantityRule(text).None?
  {
    var q := Strip(text);
    assert q != "0" by { assert |q| != |"0"|; }
    DigitsValueZero(q);
  }

  /** A superscript two passes `isdigit` (line 75), and `int` then raises
      (line 77), which stops the whole file. */
  lemma QuantitySuperscriptAborts()
    ensures QuantityRuleAsWritten("\U{B2}") == Abort
    ensures QuantityRule("\U{B2}").None?
  {
    StripStripped("\U{B2}");
    assert !IsDecimal("\U{B2}"[0]);
  }

  /** Where the check as written lets a quantity through with a positive
      value, the intended rule takes the same value, and it takes no
      other: the two differ only on zero quantities and on the strings
      that make `int` raise. */
  lemma QuantityRulesAgree(text: string)
    ensures QuantityRule(text).Some? <==> QuantityRuleAsWritten(text).Qty? && QuantityRuleAsWritten(text).n > 0
    ensures QuantityRule(text).Some? ==> QuantityRule(text).value == QuantityRuleAsWritten(text).n
  {
    var q := Strip(text);
    var w := QuantityRuleAsWritten(text);
    if |q| > 0 && AllDecimal(q) && DigitsValue(q) > 0 {
      assert IsDigitString(q);
      DigitsValueZero(q);
      assert q != "0";
      assert w == Qty(DigitsValue(q));
    } else if w.Qty? {
      assert w.n == DigitsValue(q) && |q| > 0;
    }
  }

  // ---------------------------------------------------------------------
  // Properties of single rules

  /** The three outcomes of lines 84-85. */
  lemma StatusRuleCases(text: string)
    ensures var s := Upper(Strip(text));
      && (s == "DLEIVERED" ==> StatusRule(text) == "DELIVERED")
      && (s == "" ==> StatusRule(text) == "UNKNOWN")
      && (s != "DLEIVERED" && s != "" ==> StatusRule(text) == s)
  {
  }

  /** The STATUS of a cleaned row has no blanks at its ends and is its own
      upper case. */
  lemma StatusIsClean(text: string)
    ensures Strip(StatusRule(text)) == StatusRule(text)
    ensures Upper(StatusRule(text)) == StatusRule(text)
  {
    var t := Strip(text);
    var s := Upper(t);
    if s == "DLEIVERED" || s == "" {
      DefaultStatusIsClean(StatusRule(text));
    } else {
      UpperStripped(t);
      UpperIdempotent(t);
      StripStripped(s);
    }
  }

  lemma DefaultStatusIsClean(r: string)
    requires r == "DELIVERED" || r == "UNKNOWN"
    ensures Strip(r) == r && Upper(r) == r
  {
    UpperOfCapitals(r);
    StripStripped(r);
  }

  /** The STATUS a row ends with is a fixed point of the rule: cleaning a
      row whose STATUS is already clean leaves it unchanged. */
  lemma StatusRuleFixedPoint(text: string)
    ensures StatusRule(StatusRule(text)) == StatusRule(text)
  {
    StatusIsClean(text);
  }

  /** Keeping the stated figure or replacing it, a second pass of the sales
      rule changes nothing. */
  lemma SalesRuleIdempotent(stated: real, computed: real)
    ensures SalesRule(SalesRule(stated, computed), computed) == SalesRule(stated, computed)
  {
  }

  /** Truncating twice is truncating once. */
  lemma PrefixIdempotent(s: string, n: nat)
    ensures Prefix(Prefix(s, n), n) == Prefix(s, n)
  {
  }

  /** A cleaned CITY goes through the rule unchanged. */
  lemma CityRuleIdempotent(text: string)
    ensures CityRule(CityRule(text)) == CityRule(text)
  {
    StripStripped(CityRule(text));
  }

  /** A NUMERICCODE that was kept is kept again, unchanged. */
  lemma NumericCodeRuleIdempotent(text: string)
    requires NumericCodeRule(text).Some?
    ensures NumericCodeRule(NumericCodeRule(text).value) == NumericCodeRule(text)
  {
    StripIdempotent(text);
  }

  /** The countries of the table and their territories. */
  lemma TerritoryTableValues()
    ensures TerritoryOf("USA") == "NA"
    ensures TerritoryOf("France") == "EMEA" && TerritoryOf("Germany") == "EMEA"
    ensures TerritoryOf("UK") == "EMEA" && TerritoryOf("Spain") == "EMEA"
    ensures TerritoryOf("Australia") == "APAC" && TerritoryOf("Japan") == "APAC"
    ensures TerritoryOf("Mexico") == ""
  {
  }

  // ---------------------------------------------------------------------
  // Properties of the whole row

  /** The columns whose values decide whether a row is kept. */
  const GateKeys: set<string> := {
    "QUANTITYORDERED", "PRICEEACH", "ORDERDATE", "SALES", "ORDERNUMBER", "ORDERLINENUMBER"
  }

  /** Only the six gate columns decide whether a row is kept: STATUS, MSRP
      and every other column are rewritten, never a reason to drop. */
  lemma AcceptanceDependsOnGates(raw1: RawRecord, raw2: RawRecord)
    requires forall g | g in GateKeys :: Get(raw1, g) == Get(raw2, g)
    ensures Normalize(raw1).Some? <==> Normalize(raw2).Some?
  {
    GatesDecideRejected(raw1, raw2);
  }

  lemma GatesDecideRejected(raw1: RawRecord, raw2: RawRecord)
    requires forall g | g in GateKeys :: Get(raw1, g) == Get(raw2, g)
    ensures Rejected(raw1) <==> Rejected(raw2)
  {
    assert "QUANTITYORDERED" in GateKeys && "PRICEEACH" in GateKeys && "ORDERDATE" in GateKeys;
    assert "SALES" in GateKeys && "ORDERNUMBER" in GateKeys && "ORDERLINENUMBER" in GateKeys;
  }

  /** What an accepted row keeps of its input: the quantity and the order
      numbers as given, prefixes of the product code and line, the
      territory unless it was empty, and every untouched column. */
  lemma NormalizeKeeps(raw: RawRecord)
    requires Normalize(raw).Some?
    ensures var r := Normalize(raw).value;
      && r.quantity == DigitsValue(Strip(Get(raw, "QUANTITYORDERED")))
      && r.orderNumber == raw["ORDERNUMBER"] && r.orderLineNumber == raw["ORDERLINENUMBER"]
      && r.productCode <= Get(raw, "PRODUCTCODE") && |r.productCode| == Min(|Get(raw, "PRODUCTCODE")|, 15)
      && r.productLine <= Get(raw, "PRODUCTLINE") && |r.productLine| == Min(|Get(raw, "PRODUCTLINE")|, 60)
      && (Get(raw, "TERRITORY") != "" ==> r.territory == raw["TERRITORY"])
      && (Get(raw, "TERRITORY") == "" ==> r.territory == TerritoryOf(r.country))
      && (forall k | k in raw && k !in TouchedKeys :: k in Signature(r).plain && Signature(r).plain[k] == raw[k])
  {
    assert Get(raw, "ORDERNUMBER") != "" && Get(raw, "ORDERLINENUMBER") != "";
  }

  function Min(a: nat, b: nat): nat {
    if a <= b then a else b
  }

  // ---------------------------------------------------------------------
  // The signature

  /** In a well-formed row no untouched column has the name of a rewritten
      one, so the two parts of the dictionary name its keys one to one. */
  lemma PlainNamesDistinct(r: CleanRecord, k: string, c: Column)
    requires WellFormed(r) && k in Signature(r).plain
    ensures k != ColumnName(c)
  {
  }

  /** Each rewritten column reads back the field it came from: the
      figures, */
  lemma FieldsOfFigures(r: CleanRecord)
    ensures Typed(r)[PriceEach] == VReal(r.price) && Typed(r)[Sales] == VReal(r.sales)
    ensures Typed(r)[Msrp] == (if r.msrp.Some? then VReal(r.msrp.value) else VNull)
    ensures Typed(r)[MsrpIssue] == VBool(r.msrpIssue)
  {
  }

  /** the status and date, */
  lemma FieldsOfStatus(r: CleanRecord)
    ensures Typed(r)[Status] == VStr(r.status) && Typed(r)[OrderDate] == VStr(r.orderDate)
    ensures Typed(r)[NumericCode] == (if r.numericCode.Some? then VStr(r.numericCode.value) else VNull)
  {
  }

  /** the product and order codes, */
  lemma FieldsOfCodes(r: CleanRecord)
    ensures Typed(r)[ProductCode] == VStr(r.productCode)
    ensures Typed(r)[ProductLine] == VStr(r.productLine)
    ensures Typed(r)[OrderNumber] == VStr(r.orderNumber)
    ensures Typed(r)[OrderLineNumber] == VStr(r.orderLineNumber)
  {
  }

  /** the place, */
  lemma FieldsOfPlace(r: CleanRecord)
    ensures Typed(r)[Country] == VStr(r.country) && Typed(r)[City] == VStr(r.city)
    ensures Typed(r)[Territory] == VStr(r.territory)
    ensures Typed(r)[PostalCode] == (if r.postalCode.Some? then VStr(r.postalCode.value) else VNull)
  {
  }

  /** the state, */
  lemma FieldsOfState(r: CleanRecord)
    ensures r.state.Some? ==> Typed(r)[State] == VStr(r.state.value)
  {
  }

  /** and the contact. */
  lemma FieldsOfContact(r: CleanRecord)
    ensures Typed(r)[Phone] == (if r.phone.Some? then VStr(r.phone.value) else VNull)
    ensures Typed(r)[ContactLastName] == VStr(r.contactLastName)
    ensures Typed(r)[ContactFirstName] == VStr(r.contactFirstName)
    ensures Typed(r)[DealSize] == VStr(r.dealSize)
  {
  }

  /** Equal signatures agree on every rewritten column: the figures, */
  lemma SameTypedFigures(r1: CleanRecord, r2: CleanRecord)
    requires Typed(r1) == Typed(r2)
    ensures r1.quantity == r2.quantity && r1.price == r2.price && r1.sales == r2.sales
    ensures r1.msrp == r2.msrp && r1.msrpIssue == r2.msrpIssue
  {
    FieldsOfFigures(r1); FieldsOfFigures(r2);
  }

  /** the codes, */
  lemma SameTypedCodes(r1: CleanRecord, r2: CleanRecord)
    requires Typed(r1) == Typed(r2)
    ensures r1.status == r2.status && r1.orderDate == r2.orderDate && r1.numericCode == r2.numericCode
    ensures r1.productCode == r2.productCode && r1.productLine == r2.productLine
    ensures r1.orderNumber == r2.orderNumber && r1.orderLineNumber == r2.orderLineNumber
  {
    FieldsOfStatus(r1); FieldsOfStatus(r2);
    FieldsOfCodes(r1); FieldsOfCodes(r2);
  }

  /** and the place and contact. */
  lemma SameTypedContact(r1: CleanRecord, r2: CleanRecord)
    requires Typed(r1) == Typed(r2)
    ensures r1.country == r2.country && r1.city == r2.city && r1.territory == r2.territory
    ensures r1.postalCode == r2.postalCode && r1.state == r2.state
    ensures r1.phone == r2.phone && r1.contactLastName == r2.contactLastName
    ensures r1.contactFirstName == r2.contactFirstName && r1.dealSize == r2.dealSize
  {
    FieldsOfPlace(r1); FieldsOfPlace(r2);
    FieldsOfState(r1); FieldsOfState(r2);
    FieldsOfContact(r1); FieldsOfContact(r2);
  }

  /** Two rows with the same signature are the same row, so comparing
      signatures is comparing rows. */
  lemma SignatureInjective(r1: CleanRecord, r2: CleanRecord)
    requires Signature(r1) == Signature(r2)
    ensures r1 == r2
  {
    SameTypedFigures(r1, r2);
    SameTypedCodes(r1, r2);
    SameTypedContact(r1, r2);
  }
}
