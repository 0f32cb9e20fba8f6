/**
 The text Fini writes to standard output for each report line: integers in
 plain decimal, as `operator<<` prints an unsigned or non-negative integer,
 and a parser that reads a rendered line back.
 */
module Format {
  import opened Report

  datatype Option<T> = None | Some(value: T)

  predicate IsDigit(c: char)
  {
    '0' <= c <= '9'
  }

  predicate AllDigits(s: string)
  {
    forall i :: 0 <= i < |s| ==> IsDigit(s[i])
  }

  function DigitChar(d: nat): (c: char)
    requires d < 10
    ensures IsDigit(c) && c as int - '0' as int == d
  {
    (d + '0' as int) as char
  }

  /** The decimal spelling of n, without leading zeros. */
  function Decimal(n: nat): (s: string)
    ensures |s| >= 1 && AllDigits(s)
    ensures s[0] == '0' ==> n == 0 && s == "0"
  {
    if n < 10 then [DigitChar(n)] else Decimal(n / 10) + [DigitChar(n % 10)]
  }

  /** The value of a string of decimal digits. */
  function ParseDecimal(s: string): nat
    requires AllDigits(s)
  {
    if s == [] then 0 else ParseDecimal(s[..|s| - 1]) * 10 + (s[|s| - 1] as int - '0' as int)
  }

  /** Reading back the decimal spelling of n gives n. */
  lemma {:induction false} DecimalRoundTrip(n: nat)
    ensures ParseDecimal(Decimal(n)) == n
  {
    var s := Decimal(n);
    if n >= 10 {
      DecimalRoundTrip(n / 10);
      assert s[..|s| - 1] == Decimal(n / 10);
    } else {
      assert s[..0] == [];
    }
  }

  /** The longest prefix of s made of digits. */
  function LeadingDigits(s: string): (d: string)
    ensures |d| <= |s| && d == s[..|d|] && AllDigits(d)
    ensures |d| < |s| ==> !IsDigit(s[|d|])
  {
    if s == [] || !IsDigit(s[0]) then [] else [s[0]] + LeadingDigits(s[1..])
  }

  /** A digit string followed by a non-digit (or by nothing) is read off whole. */
  lemma {:induction false} LeadingDigitsOf(d: string, rest: string)
    requires AllDigits(d)
    requires rest == [] || !IsDigit(rest[0])
    ensures LeadingDigits(d + rest) == d
  {
    if d != [] {
      assert (d + rest)[1..] == d[1..] + rest;
      LeadingDigitsOf(d[1..], rest);
    } else {
      assert d + rest == rest;
    }
  }

  /** One line as written by `cout << ... << endl`, without the newline. */
  function Render(line: Line): (s: string)
    ensures line.PageHeader? ==> |s| > 6 && s[..6] == "Page: "
    ensures line.ThreadCount? ==> |s| > 2 && s[..2] == "\tT"
    ensures line.Summary? ==> |s| > 16 && s[..13] == "total pages: " && s[|s| - 3..] == " KB"
  {
    match line
    case PageHeader(page) => "Page: " + Decimal(page)
    case ThreadCount(thread, count) => "\tT" + Decimal(thread) + ": " + Decimal(count)
    case Summary(pages, kb) => "total pages: " + Decimal(pages) + " memory usage: " + Decimal(kb) + " KB"
  }

  /** The whole output of Fini, one string per line. */
  function RenderAll(lines: seq<Line>): (out: seq<string>)
    ensures |out| == |lines|
    ensures forall i :: 0 <= i < |lines| ==> out[i] == Render(lines[i])
  {
    if lines == [] then [] else [Render(lines[0])] + RenderAll(lines[1..])
  }

  /** Reads a leading decimal number: its value and the text after it. */
  function ReadNumber(s: string): Option<(nat, string)>
  {
    var d := LeadingDigits(s);
    if d == [] then None else Some((ParseDecimal(d), s[|d|..]))
  }

  lemma ReadNumberOf(n: nat, rest: string)
    requires rest == [] || !IsDigit(rest[0])
    ensures ReadNumber(Decimal(n) + rest) == Some((n, rest))
  {
    LeadingDigitsOf(Decimal(n), rest);
    DecimalRoundTrip(n);
    assert (Decimal(n) + rest)[|Decimal(n)|..] == rest;
  }

  /** Whether s begins with p, and what follows. */
  function StripPrefix(p: string, s: string): Option<string>
  {
    if |p| <= |s| && s[..|p|] == p then Some(s[|p|..]) else None
  }

  lemma StripPrefixOf(p: string, s: string)
    ensures StripPrefix(p, p + s) == Some(s)
  {
    assert (p + s)[..|p|] == p;
    assert (p + s)[|p|..] == s;
  }

  /** The rest of a header line after "Page: ". */
  function ParseHeader(r: string): Option<Line>
  {
    match ReadNumber(r)
    case Some((page, tail)) => if tail == "" then Some(PageHeader(page)) else None
    case None => None
  }

  /** The rest of a counter line after "\tT". */
  function ParseCount(r: string): Option<Line>
  {
    match ReadNumber(r)
    case None => None
    case Some((thread, r1)) =>
      match StripPrefix(": ", r1)
      case None => None
      case Some(r2) =>
        match ReadNumber(r2)
        case None => None
        case Some((count, tail)) => if tail == "" then Some(ThreadCount(thread, count)) else None
  }

  /** The rest of the summary line after "total pages: ". */
  function ParseSummary(r: string): Option<Line>
  {
    match ReadNumber(r)
    case None => None
    case Some((pages, r1)) =>
      match StripPrefix(" memory usage: ", r1)
      case None => None
      case Some(r2) =>
        match ReadNumber(r2)
        case None => None
        case Some((kb, tail)) => if tail == " KB" then Some(Summary(pages, kb)) else None
  }

  /** Recognises one rendered line; the three line kinds start differently. */
  function ParseLine(s: string): Option<Line>
  {
    match StripPrefix("Page: ", s)
    case Some(r) => ParseHeader(r)
    case None =>
      match StripPrefix("\tT", s)
      case Some(r) => ParseCount(r)
      case None =>
        match StripPrefix("total pages: ", s)
        case Some(r) => ParseSummary(r)
        case None => None
  }

  lemma HeaderRoundTrip(page: nat)
    ensures ParseLine(Render(PageHeader(page))) == Some(PageHeader(page))
  {
    StripPrefixOf("Page: ", Decimal(page));
    ReadNumberOf(page, "");
    assert Decimal(page) + "" == Decimal(page);
  }

  lemma CountBody(thread: nat, count: nat)
    ensures ParseCount(Decimal(thread) + (": " + Decimal(count))) == Some(ThreadCount(thread, count))
  {
    ReadNumberOf(thread, ": " + Decimal(count));
    StripPrefixOf(": ", Decimal(count));
    ReadNumberOf(count, "");
    assert Decimal(count) + "" == Decimal(count);
  }

  lemma CountRoundTrip(thread: nat, count: nat)
    ensures ParseLine(Render(ThreadCount(thread, count))) == Some(ThreadCount(thread, count))
  {
    var r := Decimal(thread) + (": " + Decimal(count));
    var s := Render(ThreadCount(thread, count));
    assert s == "\tT" + r;
    assert StripPrefix("Page: ", s) == None by {
      assert s[0] == '\t';
    }
    StripPrefixOf("\tT", r);
    CountBody(thread, count);
  }

  lemma SummaryBody(pages: nat, kb: nat)
    ensures ParseSummary(Decimal(pages) + (" memory usage: " + (Decimal(kb) + " KB"))) == Some(Summary(pages, kb))
  {
    ReadNumberOf(pages, " memory usage: " + (Decimal(kb) + " KB"));
    StripPrefixOf(" memory usage: ", Decimal(kb) + " KB");
    ReadNumberOf(kb, " KB");
  }

  lemma SummaryRoundTrip(pages: nat, kb: nat)
    ensures ParseLine(Render(Summary(pages, kb))) == Some(Summary(pages, kb))
  {
    var r := Decimal(pages) + (" memory usage: " + (Decimal(kb) + " KB"));
    var s := Render(Summary(pages, kb));
    assert s == "total pages: " + r;
    assert StripPrefix("Page: ", s) == None && StripPrefix("\tT", s) == None by {
      assert s[0] == 't';
    }
    StripPrefixOf("total pages: ", r);
    SummaryBody(pages, kb);
  }

  /** Every rendered line reads back as the line it came from. */
  lemma RenderRoundTrip(line: Line)
    ensures ParseLine(Render(line)) == Some(line)
  {
    match line
    case PageHeader(page) => HeaderRoundTrip(page);
    case ThreadCount(thread, count) => CountRoundTrip(thread, count);
    case Summary(pages, kb) => SummaryRoundTrip(pages, kb);
  }
}
