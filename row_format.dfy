/** `convertCorpInfoToRow`: a normalised record becomes the display cells of
    one table row. */
module RowFormat {
  import opened Wrappers
  import opened CorpInfos

  /** The markup shown in the `official` column of an official company. */
  const OfficialIcon: string :=
    "<img src=\"https://github.com/ejn-jimmy/node-backend-in-korea/assets/142366502/e5e8cf74-3c26-4705-b56c-97fb3c6e11bf\" width=\"20\" height=\"20\"/>"

  /** A cell value: a string, or the boolean `false` that
      `corpInfo.official && "<img …/>"` yields for a non-official company. */
  datatype Cell = Text(text: string) | False

  datatype Row = Row(
    name: string,
    link: string,
    army: string,
    official: Cell,
    remoteWork: string,
    frameworks: string,
    nodeProjectRate: string,
    nodeDeveloperRate: string)

  // ---------------------------------------------------------------------------
  // Decimal text of an integer (the template literal `${v}`) and its inverse

  function DigitChar(d: nat): (c: char)
    requires d < 10
    ensures '0' <= c <= '9' && c as int - '0' as int == d
  {
    "0123456789"[d]
  }

  /** The value of a digit character; 0 for any other character. */
  function DigitValue(c: char): nat
  {
    if '0' <= c <= '9' then (c as int - '0' as int) as nat else 0
  }

  predicate IsDigits(s: string)
  {
    forall i :: 0 <= i < |s| ==> '0' <= s[i] <= '9'
  }

  /** Canonical decimal text: at least one digit, no leading zero. */
  function NatToString(n: nat): (s: string)
    ensures |s| >= 1 && IsDigits(s)
    ensures s[0] == '0' <==> n == 0
    ensures n < 10 <==> |s| == 1
  {
    if n < 10 then [DigitChar(n)] else NatToString(n / 10) + [DigitChar(n % 10)]
  }

  /** The number a run of digits denotes. */
  function ParseNat(s: string): nat
  {
    if |s| == 0 then 0 else ParseNat(s[..|s| - 1]) * 10 + DigitValue(s[|s| - 1])
  }

  lemma {:induction false} ParseNatToString(n: nat)
    ensures ParseNat(NatToString(n)) == n
  {
    if n >= 10 {
      var s := NatToString(n);
      assert s[..|s| - 1] == NatToString(n / 10);
      ParseNatToString(n / 10);
    }
  }

  /** `${v}` for an integer: a minus sign before the digits of a negative one. */
  function IntToString(v: int): (s: string)
    ensures |s| >= 1
    ensures v >= 0 ==> IsDigits(s)
    ensures v < 0 ==> s[0] == '-' && IsDigits(s[1..])
  {
    if v < 0 then "-" + NatToString(-v) else NatToString(v)
  }

  function ParseInt(s: string): int
  {
    if |s| > 0 && s[0] == '-' then -(ParseNat(s[1..]) as int) else ParseNat(s)
  }

  lemma ParseIntToString(v: int)
    ensures ParseInt(IntToString(v)) == v
  {
    var s := IntToString(v);
    if v < 0 {
      var d := NatToString(-v);
      assert s == "-" + d && s[1..] == d;
      ParseNatToString(-v);
    } else {
      var d := NatToString(v);
      assert s == d && d[0] != '-';
      ParseNatToString(v);
    }
  }

  // ---------------------------------------------------------------------------
  // The row

  /** A rate cell: empty for 0, otherwise the number followed by `%`. */
  function RateCell(v: int): (s: string)
    ensures s == "" <==> v == 0
    ensures v != 0 ==> s[|s| - 1] == '%' && s[..|s| - 1] == IntToString(v)
  {
    if v == 0 then "" else IntToString(v) + "%"
  }

  /** Reads a rate cell back: the empty cell is 0. */
  function ParseRateCell(s: string): int
  {
    if |s| == 0 then 0 else ParseInt(s[..|s| - 1])
  }

  /** A rate cell determines its rate. */
  lemma RateCellRoundTrip(v: int)
    ensures ParseRateCell(RateCell(v)) == v
  {
    if v != 0 {
      ParseIntToString(v);
    }
  }

  function ConvertCorpInfoToRow(c: CorpInfo): (r: Row)
    ensures r.name == c.name && r.link == c.link
    ensures r.army == c.army && r.frameworks == c.frameworks
    ensures r.official == (if c.official then Text(OfficialIcon) else False)
    ensures r.remoteWork == (if c.remoteWork then "O" else "X")
    ensures r.nodeProjectRate == RateCell(c.nodeProjectRate)
    ensures r.nodeDeveloperRate == RateCell(c.nodeDeveloperRate)
  {
    Row(
      c.name, c.link, c.army,
      if c.official then Text(OfficialIcon) else False,
      if c.remoteWork then "O" else "X",
      c.frameworks,
      RateCell(c.nodeProjectRate),
      RateCell(c.nodeDeveloperRate))
  }

  /** Reads a row back into the record it shows. */
  function RowToCorpInfo(r: Row): CorpInfo
  {
    CorpInfo(
      r.name, r.link, r.army, r.official.Text?, r.remoteWork == "O", r.frameworks,
      ParseRateCell(r.nodeProjectRate), ParseRateCell(r.nodeDeveloperRate))
  }

  /** No information is lost by formatting: the row determines the record. */
  lemma RowRoundTrip(c: CorpInfo)
    ensures RowToCorpInfo(ConvertCorpInfoToRow(c)) == c
  {
    RateCellRoundTrip(c.nodeProjectRate);
    RateCellRoundTrip(c.nodeDeveloperRate);
  }

  /** `corpInfos.map(convertCorpInfoToRow)`: None when some entry is
      `undefined`, where reading its fields throws a TypeError. */
  function ConvertAll(entries: seq<Option<CorpInfo>>): (r: Option<seq<Row>>)
    ensures r.Some? <==> forall i :: 0 <= i < |entries| ==> entries[i].Some?
    ensures r.Some? ==> |r.value| == |entries|
    ensures r.Some? ==> forall i :: 0 <= i < |entries| ==>
      r.value[i] == ConvertCorpInfoToRow(entries[i].value)
    decreases |entries|
  {
    if |entries| == 0 then Some([])
    else
      match entries[0]
      case None => None
      case Some(c) =>
        match ConvertAll(entries[1..])
        case None => None
        case Some(rows) => Some([ConvertCorpInfoToRow(c)] + rows)
  }

  /** The single row of the sample record: icon, name, "90%", "80%",
      frameworks, link, "O", army. */
  lemma SampleRow()
    ensures ConvertCorpInfoToRow(CorpInfo("Acme", "http://x", "E", true, true, "Express", 80, 90))
      == Row("Acme", "http://x", "E", Text(OfficialIcon), "O", "Express", "80%", "90%")
  {
    assert NatToString(8) == "8" && NatToString(9) == "9" && NatToString(0) == "0";
    assert NatToString(80) == "80";
    assert NatToString(90) == "90";
  }
}
