/**
 * The input validators of the command layer and the "HH:MM" time parser.
 * Character classes are plain ASCII, as the C library's isdigit, isalpha and
 * isspace behave in the "C" locale.
 */
module Validation {
  import opened Wrappers

  predicate IsDigit(c: char) { '0' <= c <= '9' }
  predicate IsUpper(c: char) { 'A' <= c <= 'Z' }
  predicate IsAlpha(c: char) { IsUpper(c) || 'a' <= c <= 'z' }
  predicate IsSpace(c: char) {
    c == ' ' || c == '\t' || c == '\n' || c == '\U{000B}' || c == '\U{000C}' || c == '\r'
  }

  function DigitValue(c: char): (d: nat)
    requires IsDigit(c)
    ensures d <= 9
  {
    c as int - '0' as int
  }

  function DigitChar(d: nat): (c: char)
    requires d <= 9
    ensures IsDigit(c) && DigitValue(c) == d
  {
    ('0' as int + d) as char
  }

  // ---------------------------------------------------------------------
  // std::stoi, restricted to what can happen on a short string: leading
  // white space is skipped, one optional sign is read, then the longest run
  // of digits. Without a digit stoi throws; that is None here.
  // ---------------------------------------------------------------------

  function DropSpace(s: string): (t: string)
    ensures |t| <= |s|
  {
    if |s| > 0 && IsSpace(s[0]) then DropSpace(s[1..]) else s
  }

  /** The length of the run of digits that starts s. */
  function DigitRun(s: string): (n: nat)
    ensures n <= |s|
    ensures forall i :: 0 <= i < n ==> IsDigit(s[i])
  {
    if |s| > 0 && IsDigit(s[0]) then 1 + DigitRun(s[1..]) else 0
  }

  /** The decimal value of a string of digits. */
  function DecimalValue(s: string): nat
    requires forall i :: 0 <= i < |s| ==> IsDigit(s[i])
  {
    if s == [] then 0 else 10 * DecimalValue(s[..|s| - 1]) + DigitValue(s[|s| - 1])
  }

  function Stoi(s: string): (r: Option<int>)
    ensures r.None? <==>
      (var t := DropSpace(s);
       var u := if |t| > 0 && (t[0] == '+' || t[0] == '-') then t[1..] else t;
       DigitRun(u) == 0)
  {
    var t := DropSpace(s);
    var negative := |t| > 0 && t[0] == '-';
    var u := if |t| > 0 && (t[0] == '+' || t[0] == '-') then t[1..] else t;
    var n := DigitRun(u);
    if n == 0 then None
    else
      var v: int := DecimalValue(u[..n]);
      Some(if negative then -v else v)
  }

  /** Two digits are read as their two-digit decimal value. */
  lemma StoiTwoDigits(s: string)
    requires |s| == 2 && IsDigit(s[0]) && IsDigit(s[1])
    ensures Stoi(s) == Some(10 * DigitValue(s[0]) + DigitValue(s[1]))
  {
    assert DropSpace(s) == s;
    assert s[1..][1..] == [];
    assert DigitRun(s[1..]) == 1;
    assert DigitRun(s) == 2;
    assert s[..2] == s;
    assert s[..1][..0] == [];
    assert DecimalValue(s[..1]) == DigitValue(s[0]);
  }

  // ---------------------------------------------------------------------
  // parseTime
  // ---------------------------------------------------------------------

  /**
   * "HH:MM" to minutes since midnight: -1 unless the text has five
   * characters with ':' in the middle; otherwise both halves go through
   * stoi, and None stands for the exception stoi throws on a half without
   * digits, which the source does not catch.
   */
  function ParseTime(t: string): (r: Option<int>)
    ensures (|t| != 5 || t[2] != ':') ==> r == Some(-1)
    ensures |t| == 5 && t[2] == ':' && IsDigit(t[0]) && IsDigit(t[1]) && IsDigit(t[3]) && IsDigit(t[4]) ==>
      r == Some((10 * DigitValue(t[0]) + DigitValue(t[1])) * 60 + 10 * DigitValue(t[3]) + DigitValue(t[4]))
  {
    if |t| != 5 || t[2] != ':' then Some(-1)
    else
      var hh := Stoi(t[0..2]);
      var mm := Stoi(t[3..5]);
      ClockTwoDigitFields(t);
      if hh.None? || mm.None? then None else Some(hh.value * 60 + mm.value)
  }

  lemma ClockTwoDigitFields(t: string)
    requires |t| == 5
    ensures IsDigit(t[0]) && IsDigit(t[1]) ==> Stoi(t[0..2]) == Some(10 * DigitValue(t[0]) + DigitValue(t[1]))
    ensures IsDigit(t[3]) && IsDigit(t[4]) ==> Stoi(t[3..5]) == Some(10 * DigitValue(t[3]) + DigitValue(t[4]))
  {
    if IsDigit(t[0]) && IsDigit(t[1]) { StoiTwoDigits(t[0..2]); }
    if IsDigit(t[3]) && IsDigit(t[4]) { StoiTwoDigits(t[3..5]); }
  }

  /** The clock text of a time of day, zero-padded: the inverse of ParseTime. */
  function FormatTime(m: nat): (t: string)
    requires m < 1440
    ensures |t| == 5 && t[2] == ':'
  {
    var h, mi := m / 60, m % 60;
    [DigitChar(h / 10), DigitChar(h % 10), ':', DigitChar(mi / 10), DigitChar(mi % 10)]
  }

  /** Every minute of the day survives formatting and parsing. */
  lemma ParseFormatRoundTrip(m: nat)
    requires m < 1440
    ensures ParseTime(FormatTime(m)) == Some(m)
  {
    var t := FormatTime(m);
    var h, mi := m / 60, m % 60;
    assert 10 * DigitValue(t[0]) + DigitValue(t[1]) == h;
    assert 10 * DigitValue(t[3]) + DigitValue(t[4]) == mi;
  }

  /** A well-formed clock time "HH:MM" with HH < 24 and MM < 60 is a minute of the day. */
  lemma ParseTimeInDay(t: string)
    requires |t| == 5 && t[2] == ':' && IsDigit(t[0]) && IsDigit(t[1]) && IsDigit(t[3]) && IsDigit(t[4])
    requires 10 * DigitValue(t[0]) + DigitValue(t[1]) < 24 && 10 * DigitValue(t[3]) + DigitValue(t[4]) < 60
    ensures ParseTime(t).Some? && 0 <= ParseTime(t).value < 1440
    ensures FormatTime(ParseTime(t).value) == t
  {
    var m := ParseTime(t).value;
    var d0, d1, d3, d4 := DigitValue(t[0]), DigitValue(t[1]), DigitValue(t[3]), DigitValue(t[4]);
    var h, mi := 10 * d0 + d1, 10 * d3 + d4;
    assert m == h * 60 + mi;
    DivModSixty(h, mi);
    TensAndUnits(d0, d1);
    TensAndUnits(d3, d4);
    DigitCharOfValue(t[0]);
    DigitCharOfValue(t[1]);
    DigitCharOfValue(t[3]);
    DigitCharOfValue(t[4]);
  }

  lemma TensAndUnits(a: nat, b: nat)
    requires a <= 9 && b <= 9
    ensures (10 * a + b) / 10 == a && (10 * a + b) % 10 == b
  {
  }

  lemma DigitCharOfValue(c: char)
    requires IsDigit(c)
    ensures DigitChar(DigitValue(c)) == c
  {
  }

  lemma DivModSixty(h: nat, mi: nat)
    requires mi < 60
    ensures (h * 60 + mi) / 60 == h && (h * 60 + mi) % 60 == mi
  {
  }

  /**
   * The -1 that signals a malformed time can also be a parsed value: stoi
   * accepts a sign, so "00:-1" is read as 0 * 60 + (-1).
   */
  lemma ParseTimeMinusOneIsAmbiguous()
    ensures ParseTime("00:-1") == Some(-1)
  {
    var t := "00:-1";
    StoiTwoDigits(t[0..2]);
    var u := t[3..5];
    assert DropSpace(u) == u;
    assert u[1..] == "1";
    assert DigitRun(u[1..][1..]) == 0;
    assert DigitRun(u[1..]) == 1;
    assert u[1..][..1] == "1";
    assert DecimalValue(u[1..][..1][..0]) == 0;
    assert Stoi(u) == Some(-1);
  }

  // ---------------------------------------------------------------------
  // The validator lambdas of the command layer
  // ---------------------------------------------------------------------

  /** A UFID is exactly eight decimal digits. */
  predicate IsValidUfid(id: string) {
    |id| == 8 && forall i :: 0 <= i < |id| ==> IsDigit(id[i])
  }

  /** A name is non-empty and made of letters and spaces. */
  predicate IsValidName(name: string) {
    |name| > 0 && forall i :: 0 <= i < |name| ==> IsAlpha(name[i]) || name[i] == ' '
  }

  /** A class code is three upper-case letters followed by four digits. */
  predicate IsValidClassCode(code: string) {
    |code| == 7 &&
    (forall i :: 0 <= i < 3 ==> IsUpper(code[i])) &&
    (forall i :: 3 <= i < 7 ==> IsDigit(code[i]))
  }

  // A small reference matcher for the anchored patterns the source writes as
  // regular expressions: a sequence of character classes, each repeated a
  // fixed number of times, matched against the whole string.

  datatype CharClass = UpperClass | DigitClass

  predicate InClass(k: CharClass, c: char) {
    match k
    case UpperClass => IsUpper(c)
    case DigitClass => IsDigit(c)
  }

  datatype Piece = Repeat(cls: CharClass, count: nat)

  predicate MatchesAll(pattern: seq<Piece>, s: string)
    decreases |pattern|
  {
    if pattern == [] then s == []
    else
      var p := pattern[0];
      p.count <= |s| &&
      (forall i :: 0 <= i < p.count ==> InClass(p.cls, s[i])) &&
      MatchesAll(pattern[1..], s[p.count..])
  }

  /** The pattern ^[A-Z]{3}[0-9]{4}$. */
  const ClassCodePattern: seq<Piece> := [Repeat(UpperClass, 3), Repeat(DigitClass, 4)]

  /** The hand-written class-code check accepts exactly what the regular expression matches. */
  lemma ClassCodeMatchesPattern(code: string)
    ensures IsValidClassCode(code) <==> MatchesAll(ClassCodePattern, code)
  {
    var p := ClassCodePattern;
    assert p[1..] == [Repeat(DigitClass, 4)];
    assert p[1..][1..] == [];
    if |code| >= 3 {
      var rest := code[3..];
      assert forall i :: 0 <= i < |rest| ==> rest[i] == code[i + 3];
    }
  }
}
