/**
 * Worked rows through the model: one complete row and the variants of it
 * that exercise the sales recomputation and the quantity and date gates.
 */
module Scenarios {
  import opened Wrappers
  import opened Seqs
  import opened Text
  import opened Numbers
  import opened Dates
  import opened DateFacts
  import opened Records
  import opened Unique
  import opened Pipeline

  /** A USA row with a misspelt status and no city. */
  function RowA(sales: string): RawRecord {
    map[
      "QUANTITYORDERED" := "2", "PRICEEACH" := "10.00", "SALES" := sales,
      "ORDERDATE" := "2024-01-05", "ORDERNUMBER" := "100", "ORDERLINENUMBER" := "1",
      "STATUS" := "dleivered", "COUNTRY" := "USA", "CITY" := ""]
  }

  /** The columns of row A that the rules read. */
  lemma RowAColumns(sales: string)
    ensures Get(RowA(sales), "QUANTITYORDERED") == "2"
    ensures Get(RowA(sales), "PRICEEACH") == "10.00"
    ensures Get(RowA(sales), "SALES") == sales
    ensures Get(RowA(sales), "ORDERDATE") == "2024-01-05"
    ensures Get(RowA(sales), "ORDERNUMBER") == "100"
    ensures Get(RowA(sales), "ORDERLINENUMBER") == "1"
  {
  }

  lemma RowAText(sales: string)
    ensures Get(RowA(sales), "STATUS") == "dleivered"
    ensures Get(RowA(sales), "COUNTRY") == "USA"
    ensures Get(RowA(sales), "CITY") == ""
    ensures Get(RowA(sales), "TERRITORY") == ""
    ensures Get(RowA(sales), "STATE") == ""
  {
  }

  lemma QuantityTwo()
    ensures QuantityRule("2") == Some(2)
  {
    StripStripped("2");
  }

  lemma PriceTen()
    ensures PriceRule("10.00") == Some(10.0)
  {
    assert "10"[..1] == "1" && "1"[..0] == "";
    assert DigitsValue("10") == 10;
    assert "10.00" == "10" + "." + "00";
    WholeSales("10", 10);
  }

  lemma DateOfRowA()
    ensures ParseDate("2024-01-05") == Some("2024-01-05")
  {
    assert IsoDate(2024, 1, 5) == "2024-01-05";
    ParseIsoDate(2024, 1, 5);
  }

  /** A stated sales figure of a whole number of units. */
  lemma WholeSales(t: string, n: nat)
    requires |t| > 0 && AllDecimal(t) && DigitsValue(t) == n
    ensures ParseDecimal(Strip(t + "." + "00")) == Some(n as real)
  {
    var s := t + "." + "00";
    assert IsDecimal(s[0]) && s[|s| - 1] == '0';
    StripStripped(s);
    ZeroFraction(t, "00");
  }

  /** The misspelt status is corrected. */
  lemma StatusMisspelt()
    ensures StatusRule("dleivered") == "DELIVERED"
  {
    StripStripped("dleivered");
    UpperMisspelt();
  }

  lemma UpperMisspelt()
    ensures Upper("dleivered") == "DLEIVERED"
  {
    UpperOfSmall("dleivered");
  }

  lemma CountryUsa()
    ensures SanitizeText("USA") == "USA"
  {
    FilterOfAll(IsWordOrSpace, "USA");
    StripStripped("USA");
  }

  lemma OrderNumbers()
    ensures IsDigitString("100") && IsDigitString("1")
  {
    assert IsDecimal("100"[0]) && IsDecimal("100"[1]) && IsDecimal("100"[2]) && IsDecimal("1"[0]);
  }

  /** Row A passes the six gates. */
  lemma RowAGates(sales: string, t: string, n: nat)
    requires |t| > 0 && AllDecimal(t) && DigitsValue(t) == n && sales == t + "." + "00"
    ensures Normalize(RowA(sales)) == Some(Clean(RowA(sales), 2, 10.0, "2024-01-05", SalesRule(n as real, 20.0)))
  {
    RowAColumns(sales);
    QuantityTwo();
    PriceTen();
    DateOfRowA();
    WholeSales(t, n);
    OrderNumbers();
    NormalizeAccepts(RowA(sales), 2, 10.0, "2024-01-05", n as real);
    assert LineTotal(2, 10.0) == 20.0;
  }

  /** and its place columns get their defaults. */
  lemma RowAPlace(sales: string)
    ensures CityRule(Get(RowA(sales), "CITY")) == "SIN CIUDAD"
    ensures TerritoryRule(Get(RowA(sales), "TERRITORY"), "USA") == "NA"
    ensures StateRule(RowA(sales), "USA") == Some("UNKNOWN")
  {
    RowAText(sales);
  }

  /** Row A is accepted, with its status corrected, the default city, the
      territory of the USA and the default state. */
  lemma RowAAccepted(sales: string, t: string, n: nat)
    requires |t| > 0 && AllDecimal(t) && DigitsValue(t) == n && sales == t + "." + "00"
    ensures Normalize(RowA(sales)).Some?
    ensures var r := Normalize(RowA(sales)).value;
      && r.quantity == 2 && r.price == 10.0 && r.orderDate == "2024-01-05"
      && r.status == "DELIVERED" && r.city == "SIN CIUDAD"
      && r.territory == "NA" && r.state == Some("UNKNOWN")
      && r.sales == SalesRule(n as real, 20.0)
  {
    RowAGates(sales, t, n);
    RowAText(sales);
    StatusMisspelt();
    CountryUsa();
    RowAPlace(sales);
  }

  /** The stated figure agrees with quantity times price and is kept. */
  lemma ScenarioKeptSales()
    ensures Normalize(RowA("20.00")).Some?
    ensures Normalize(RowA("20.00")).value.sales == 20.0
  {
    assert "20.00" == "20" + "." + "00";
    assert "20"[..1] == "2" && "2"[..0] == "";
    assert DigitsValue("20") == 20;
    RowAAccepted("20.00", "20", 20);
  }

  /** A stated figure far from quantity times price is replaced by it. */
  lemma ScenarioRecomputedSales()
    ensures Normalize(RowA("999.00")).Some?
    ensures Normalize(RowA("999.00")).value.sales == 20.0
  {
    assert "999.00" == "999" + "." + "00";
    assert "999"[..2] == "99" && "99"[..1] == "9" && "9"[..0] == "";
    assert DigitsValue("999") == 999;
    RowAAccepted("999.00", "999", 999);
    assert IsCents(20.0);
    Round2OfCents(20.0);
  }

  /** A quantity of "0" drops the row. */
  lemma ScenarioZeroQuantity()
    ensures Normalize(RowA("20.00")["QUANTITYORDERED" := "0"]).None?
  {
    var raw := RowA("20.00")["QUANTITYORDERED" := "0"];
    assert Get(raw, "QUANTITYORDERED") == "0";
    QuantityZero();
  }

  lemma QuantityZero()
    ensures QuantityRule("0").None?
  {
    StripStripped("0");
    assert "0"[..0] == "";
  }

  /** A day the calendar does not have drops the row. */
  lemma ScenarioFebruary31()
    ensures Normalize(RowA("20.00")["ORDERDATE" := "31/02/2024"]).None?
  {
    var raw := RowA("20.00")["ORDERDATE" := "31/02/2024"];
    assert Get(raw, "ORDERDATE") == "31/02/2024";
    ParseFebruary31();
  }
}
