/**
 * The timestamp step of the row shaping:
 *   datetime.strptime(v, '%Y-%m-%d %H:%M:%S.%f000000').strftime('%Y-%m-%d %H:%M:%S')
 * Parsing follows CPython's `_strptime`: the format is compiled to a regular
 * expression, matched with `re.match` (anchored only at the start), text left
 * over after the match is an error, and the fields are then checked by the
 * `date` and `datetime` constructors.
 */
module Timestamp {
  import opened Results
  import opened Matcher

  /** The format the handler parses with. */
  const InputFormat: string := "%Y-%m-%d %H:%M:%S.%f000000"

  const Digit: Class := Range('0', '9')

  function Lit(c: char): Token { Alts([[Range(c, c)]]) }

  // The regular expressions `_strptime` substitutes for the directives.
  const YearToken: Token := Alts([[Digit, Digit, Digit, Digit]])                          // \d\d\d\d
  const MonthToken: Token :=                                                             // 1[0-2]|0[1-9]|[1-9]
    Alts([[Range('1', '1'), Range('0', '2')], [Range('0', '0'), Range('1', '9')], [Range('1', '9')]])
  const DayToken: Token :=                                                               // 3[01]|[12]\d|0[1-9]|[1-9]| [1-9]
    Alts([[Range('3', '3'), Range('0', '1')], [Range('1', '2'), Digit], [Range('0', '0'), Range('1', '9')],
          [Range('1', '9')], [Range(' ', ' '), Range('1', '9')]])
  const HourToken: Token :=                                                              // 2[0-3]|[0-1]\d|\d
    Alts([[Range('2', '2'), Range('0', '3')], [Range('0', '1'), Digit], [Digit]])
  const MinuteToken: Token := Alts([[Range('0', '5'), Digit], [Digit]])                  // [0-5]\d|\d
  const SecondToken: Token :=                                                            // 6[0-1]|[0-5]\d|\d
    Alts([[Range('6', '6'), Range('0', '1')], [Range('0', '5'), Digit], [Digit]])
  const FractionToken: Token := Upto(Digit, 6)                                           // [0-9]{1,6}

  /** `%Y-%m-%d %H:%M:%S.`: the blank becomes `\s+`, the other characters stand for themselves. */
  const HeadPattern: seq<Token> :=
    [YearToken, Lit('-'), MonthToken, Lit('-'), DayToken, Plus(Space),
     HourToken, Lit(':'), MinuteToken, Lit(':'), SecondToken, Lit('.')]

  /** The whole format: the head, `%f`, then the literal text `000000`. */
  const TimePattern: seq<Token> := HeadPattern + [FractionToken] + Literal("000000")

  datatype DateTime = DateTime(year: nat, month: nat, day: nat, hour: nat, minute: nat, second: nat, microsecond: nat)

  /** The ValueErrors the parse can raise. */
  datatype TimeError =
    | Mismatch(data: string)      // the pattern does not match
    | Unconverted(rest: string)   // the pattern matches a proper prefix only
    | YearOutOfRange              // year 0000
    | DayOutOfRange               // a day the month does not have
    | SecondOutOfRange            // second 60 or 61

  predicate IsDigit(c: char) { '0' <= c <= '9' }

  function DigitValue(c: char): nat { if IsDigit(c) then c as int - '0' as int else 0 }

  /**
   * `int()` of a captured field. The only character a field can hold besides
   * digits is the blank in front of a one-digit `%d`, which adds nothing.
   */
  function Decimal(s: string): nat {
    if s == [] then 0 else Decimal(s[..|s| - 1]) * 10 + DigitValue(s[|s| - 1])
  }

  /** `%f` is padded on the right with zeros to microseconds. */
  function Microseconds(f: string): nat {
    Decimal(f + seq(if |f| < 6 then 6 - |f| else 0, _ => '0'))
  }

  predicate IsLeap(y: nat) { y % 4 == 0 && (y % 100 != 0 || y % 400 == 0) }

  function DaysInMonth(y: nat, m: nat): nat {
    if m == 2 then (if IsLeap(y) then 29 else 28)
    else if m in {4, 6, 9, 11} then 30
    else 31
  }

  /** `s[a..b]`; on a path through the format every field's bounds fit, so the empty fallback is never taken there. */
  function Slice(s: string, a: nat, b: nat): string {
    if a <= b <= |s| then s[a..b] else []
  }

  /** The fields of a match, read from the end positions of its tokens. */
  function Fields(s: string, e: seq<nat>): DateTime
    requires |e| == 19
  {
    DateTime(Decimal(Slice(s, 0, e[0])), Decimal(Slice(s, e[1], e[2])), Decimal(Slice(s, e[3], e[4])),
             Decimal(Slice(s, e[5], e[6])), Decimal(Slice(s, e[7], e[8])), Decimal(Slice(s, e[9], e[10])),
             Microseconds(Slice(s, e[11], e[12])))
  }

  /** The checks of the `date` and `datetime` constructors, in the order they are made. */
  function Validate(t: DateTime): Result<DateTime, TimeError> {
    if t.year == 0 then Err(YearOutOfRange)
    else if t.day > DaysInMonth(t.year, t.month) then Err(DayOutOfRange)
    else if t.second > 59 then Err(SecondOutOfRange)
    else Ok(t)
  }

  /** `datetime.strptime(s, InputFormat)`. */
  function Strptime(s: string): Result<DateTime, TimeError> {
    match Match(TimePattern, s, 0)
    case None => Err(Mismatch(s))
    case Some(e) =>
      MatchSound(TimePattern, s, 0);
      PathBounds(TimePattern, s, 0, e);
      if e[18] < |s| then Err(Unconverted(s[e[18]..])) else Validate(Fields(s, e))
  }

  function DigitChar(d: nat): char
    requires d < 10
  {
    ('0' as int + d) as char
  }

  function Pad2(n: nat): string { [DigitChar(n / 10 % 10), DigitChar(n % 10)] }

  function Pad4(n: nat): string { Pad2(n / 100) + Pad2(n % 100) }

  /** `.strftime('%Y-%m-%d %H:%M:%S')`. */
  function Strftime(t: DateTime): string {
    Pad4(t.year) + "-" + Pad2(t.month) + "-" + Pad2(t.day) + " " +
    Pad2(t.hour) + ":" + Pad2(t.minute) + ":" + Pad2(t.second)
  }

  /** The value the handler stores under `Time`. */
  function Reformat(s: string): Result<string, TimeError> {
    match Strptime(s)
    case Ok(t) => Ok(Strftime(t))
    case Err(e) => Err(e)
  }

  // ---------------------------------------------------------------------------
  // Error messages: str() of the ValueError

  function HexDigit(d: nat): char
    requires d < 16
  {
    if d < 10 then DigitChar(d) else ('a' as int + d - 10) as char
  }

  function EscapeChar(c: char, quote: char): string {
    if c == quote || c == '\\' then ['\\', c]
    else if c == '\t' then "\\t"
    else if c == '\n' then "\\n"
    else if c == '\r' then "\\r"
    else if c as int < 32 || c as int == 127 then ['\\', 'x', HexDigit(c as int / 16), HexDigit(c as int % 16)]
    else [c]
  }

  function Escape(s: string, quote: char): string {
    if s == [] then [] else EscapeChar(s[0], quote) + Escape(s[1..], quote)
  }

  /** Python's `repr` of a string: single quotes unless the text holds a single quote and no double quote. */
  function Repr(s: string): string {
    var quote := if '\'' in s && '"' !in s then '"' else '\'';
    [quote] + Escape(s, quote) + [quote]
  }

  function Message(e: TimeError): string {
    match e
    case Mismatch(data) => "time data " + Repr(data) + " does not match format " + Repr(InputFormat)
    case Unconverted(rest) => "unconverted data remains: " + rest
    case YearOutOfRange => "year 0 is out of range"
    case DayOutOfRange => "day is out of range for month"
    case SecondOutOfRange => "second must be in 0..59"
  }

  /** Printable text without quotes or backslashes is quoted as it is. */
  lemma {:induction false} ReprPlain(s: string)
    requires forall i :: 0 <= i < |s| ==> 32 <= s[i] as int < 127 && s[i] != '\'' && s[i] != '\\'
    ensures Repr(s) == "'" + s + "'"
  {
    EscapePlain(s, '\'');
  }

  lemma {:induction false} EscapePlain(s: string, quote: char)
    requires forall i :: 0 <= i < |s| ==> 32 <= s[i] as int < 127 && s[i] != quote && s[i] != '\\'
    ensures Escape(s, quote) == s
  {
    if s != [] {
      EscapePlain(s[1..], quote);
      assert s == [s[0]] + s[1..];
    }
  }

  // ---------------------------------------------------------------------------
  // Canonical stamps

  /**
   * `YYYY-MM-DD HH:MM:SS` zero-padded, every field two digits (the year four)
   * and within what its directive's pattern accepts.
   */
  predicate CanonicalHead(h: string) {
    |h| == 19 && HeadShape(h)
  }

  /** The first 19 characters of s form a canonical head. */
  predicate HeadShape(h: string)
    requires |h| >= 19
  {
    (forall j :: 0 <= j < 4 ==> IsDigit(h[j])) && h[4] == '-' &&
    ((h[5] == '0' && '1' <= h[6] <= '9') || (h[5] == '1' && '0' <= h[6] <= '2')) && h[7] == '-' &&
    ((h[8] == '0' && '1' <= h[9] <= '9') || ('1' <= h[8] <= '2' && IsDigit(h[9])) || (h[8] == '3' && '0' <= h[9] <= '1')) &&
    h[10] == ' ' &&
    (('0' <= h[11] <= '1' && IsDigit(h[12])) || (h[11] == '2' && '0' <= h[12] <= '3')) && h[13] == ':' &&
    '0' <= h[14] <= '5' && IsDigit(h[15]) && h[16] == ':' &&
    (('0' <= h[17] <= '5' && IsDigit(h[18])) || (h[17] == '6' && '0' <= h[18] <= '1'))
  }

  /**
   * What the `date` and `datetime` constructors make of the fields of a
   * canonical head, in the order they check them.
   */
  function CalendarCheck(h: string): Result<string, TimeError>
    requires |h| == 19
  {
    var year := Decimal(h[..4]);
    if year == 0 then Err(YearOutOfRange)
    else if Decimal(h[8..10]) > DaysInMonth(year, Decimal(h[5..7])) then Err(DayOutOfRange)
    else if Decimal(h[17..19]) > 59 then Err(SecondOutOfRange)
    else Ok(h)
  }

  /** What may follow the `.`: one to six digits of `%f`, then the literal `000000`, then nothing. */
  predicate FractionOk(t: string) {
    7 <= |t| <= 12 && (forall j :: 0 <= j < |t| ==> IsDigit(t[j])) && t[|t| - 6..] == "000000"
  }

  const HeadEnds: seq<nat> := [4, 5, 7, 8, 10, 11, 13, 14, 16, 17, 19, 20]

  function HeadStart(i: nat): nat
    requires i <= 12
  {
    if i == 0 then 0 else HeadEnds[i - 1]
  }

  lemma AltHit2(alt: seq<Class>, s: string, p: nat)
    requires |alt| == 2 && p + 2 <= |s| && In(alt[0], s[p]) && In(alt[1], s[p + 1])
    ensures AltMatches(alt, s, p)
  {
    forall j | 0 <= j < 2 ensures In(alt[j], s[p + j]) {
      if j == 0 { assert s[p + j] == s[p]; }
    }
  }

  lemma AltMiss(alt: seq<Class>, s: string, p: nat)
    requires |alt| > 0 && p < |s| && !In(alt[0], s[p])
    ensures !AltMatches(alt, s, p)
  {
    assert s[p + 0] == s[p];
  }

  /**
   * The first candidate of a group whose alternatives before j fail on their
   * first character, and whose alternative j is two characters wide and matches.
   */
  lemma FirstWide(alts: seq<seq<Class>>, s: string, p: nat, j: nat)
    requires j < |alts| && |alts[j]| == 2 && p + 2 <= |s| && In(alts[j][0], s[p]) && In(alts[j][1], s[p + 1])
    requires forall i :: 0 <= i < j ==> |alts[i]| > 0 && !In(alts[i][0], s[p])
    ensures |Candidates(Alts(alts), s, p)| > 0 && Candidates(Alts(alts), s, p)[0] == p + 2
  {
    AltHit2(alts[j], s, p);
    forall i | 0 <= i < j ensures !AltMatches(alts[i], s, p) {
      AltMiss(alts[i], s, p);
    }
    AltEndsFirst(alts, s, p, j);
  }

  lemma YearFirst(s: string)
    requires |s| >= 4 && forall j :: 0 <= j < 4 ==> IsDigit(s[j])
    ensures |Candidates(YearToken, s, 0)| > 0 && Candidates(YearToken, s, 0)[0] == 4
  {
    var alt := [Digit, Digit, Digit, Digit];
    forall j | 0 <= j < 4 ensures In(alt[j], s[0 + j]) {}
    assert AltMatches(alt, s, 0);
    AltEndsFirst(YearToken.alts, s, 0, 0);
  }

  lemma BlankFirst(s: string)
    requires |s| > 11 && s[10] == ' ' && IsDigit(s[11])
    ensures Candidates(Plus(Space), s, 10) == [11]
  {
    assert Run(Space, s, 11) == 0;
    assert Run(Space, s, 10) == 1;
    assert Down(11, 11) == [11];
  }

  /** On a canonical head, the first alternative each token tries is the right one. */
  lemma HeadFirst(s: string, i: nat)
    requires |s| >= 20 && HeadShape(s) && s[19] == '.' && i < 12
    ensures |Candidates(HeadPattern[i], s, HeadStart(i))| > 0
    ensures Candidates(HeadPattern[i], s, HeadStart(i))[0] == HeadStart(i + 1)
  {
    if i == 0 {
      YearFirst(s);
    } else if i == 1 {
      LitCandidates('-', s, 4);
    } else if i == 2 {
      MonthFirst(s);
    } else if i == 3 {
      LitCandidates('-', s, 7);
    } else if i == 4 {
      DayFirst(s);
    } else if i == 5 {
      BlankFirst(s);
    } else if i == 6 {
      HourFirst(s);
    } else if i == 7 {
      LitCandidates(':', s, 13);
    } else if i == 8 {
      FirstWide(MinuteToken.alts, s, 14, 0);
    } else if i == 9 {
      LitCandidates(':', s, 16);
    } else if i == 10 {
      SecondFirst(s);
    } else {
      LitCandidates('.', s, 19);
    }
  }

  lemma MonthFirst(s: string)
    requires |s| >= 7 && ((s[5] == '0' && '1' <= s[6] <= '9') || (s[5] == '1' && '0' <= s[6] <= '2'))
    ensures |Candidates(MonthToken, s, 5)| > 0 && Candidates(MonthToken, s, 5)[0] == 7
  {
    FirstWide(MonthToken.alts, s, 5, if s[5] == '1' then 0 else 1);
  }

  lemma DayFirst(s: string)
    requires |s| >= 10
    requires (s[8] == '0' && '1' <= s[9] <= '9') || ('1' <= s[8] <= '2' && IsDigit(s[9])) || (s[8] == '3' && '0' <= s[9] <= '1')
    ensures |Candidates(DayToken, s, 8)| > 0 && Candidates(DayToken, s, 8)[0] == 10
  {
    FirstWide(DayToken.alts, s, 8, if s[8] == '3' then 0 else if s[8] == '0' then 2 else 1);
  }

  lemma HourFirst(s: string)
    requires |s| >= 13 && (('0' <= s[11] <= '1' && IsDigit(s[12])) || (s[11] == '2' && '0' <= s[12] <= '3'))
    ensures |Candidates(HourToken, s, 11)| > 0 && Candidates(HourToken, s, 11)[0] == 13
  {
    FirstWide(HourToken.alts, s, 11, if s[11] == '2' then 0 else 1);
  }

  lemma SecondFirst(s: string)
    requires |s| >= 19 && (('0' <= s[17] <= '5' && IsDigit(s[18])) || (s[17] == '6' && '0' <= s[18] <= '1'))
    ensures |Candidates(SecondToken, s, 17)| > 0 && Candidates(SecondToken, s, 17)[0] == 19
  {
    FirstWide(SecondToken.alts, s, 17, if s[17] == '6' then 0 else 1);
  }

  lemma PatternParts()
    ensures |TimePattern| == 19
    ensures TimePattern[..12] == HeadPattern
    ensures TimePattern[12..] == [FractionToken] + Literal("000000")
  {
    LiteralLength("000000");
  }

  /** Where `%f` and the literal zeros end when the text after the `.` is t. */
  function TailEnds(t: string): seq<nat> {
    var q := 20 + |t| - 6;
    [q] + Steps(q, 6)
  }

  /** `%f` can take up to six digits when six are there. */
  lemma FractionCandidates(s: string, p: nat)
    requires p + 6 <= |s| && forall q :: p <= q < p + 6 ==> IsDigit(s[q])
    ensures Candidates(FractionToken, s, p) == Down(p + 6, p + 1)
  {
    RunCovers(Digit, s, p, 6);
  }

  /** `%f` backtracks from six digits down to the width that leaves exactly six zeros. */
  lemma TailMatchAt(s: string, p: nat)
    requires p + 7 <= |s| <= p + 12 && (forall q :: p <= q < |s| ==> IsDigit(s[q])) && s[|s| - 6..] == "000000"
    ensures Match([FractionToken] + Literal("000000"), s, p) == Some([|s| - 6] + Steps(|s| - 6, 6))
  {
    var zeros := Literal("000000");
    var q := |s| - 6;
    FractionCandidates(s, p);
    forall d | q < d <= p + 6 ensures Match(zeros, s, d).None? {
      ZerosPast(s, d);
    }
    ZerosAt(s, q);
    FirstMatchDown(zeros, s, p + 6, p + 1, q, Steps(q, 6));
    MatchStep([FractionToken] + zeros, s, p);
    assert ([FractionToken] + zeros)[1..] == zeros;
  }

  lemma ZerosAt(s: string, q: nat)
    requires q + 6 == |s| && s[q..] == "000000"
    ensures Match(Literal("000000"), s, q) == Some(Steps(q, 6))
  {
    LiteralMatch("000000", s, q);
  }

  lemma ZerosPast(s: string, d: nat)
    requires |s| - 6 < d <= |s|
    ensures Match(Literal("000000"), s, d).None?
  {
    LiteralMatch("000000", s, d);
  }

  lemma TailMatch(h: string, t: string)
    requires |h| == 19 && FractionOk(t)
    ensures Match(TimePattern[12..], h + "." + t, 20) == Some(TailEnds(t))
  {
    var s := h + "." + t;
    forall q | 20 <= q < |s| ensures IsDigit(s[q]) {
      assert s[q] == t[q - 20];
    }
    assert s[|s| - 6..] == t[|t| - 6..];
    TailMatchAt(s, 20);
    PatternParts();
  }

  /** The format from token i on is token i of the head, then the format from i + 1. */
  lemma PatternStep(pat: seq<Token>, i: nat)
    requires |pat| >= 12 && pat[..12] == HeadPattern && i < 12
    ensures pat[i..] != [] && pat[i..][0] == HeadPattern[i] && pat[i..][1..] == pat[i + 1..]
  {
    assert pat[i] == pat[..12][i];
  }

  lemma ConsSplit(a: seq<nat>, b: seq<nat>, i: nat)
    requires i < |a|
    ensures a[i..] + b == [a[i]] + (a[i + 1..] + b)
  {
    assert a[i..] == [a[i]] + a[i + 1..];
  }

  /** A canonical head keeps its shape when the fraction is appended. */
  lemma StampShape(h: string, t: string)
    requires CanonicalHead(h)
    ensures |h + "." + t| >= 20 && HeadShape(h + "." + t) && (h + "." + t)[19] == '.'
  {
    var s := h + "." + t;
    forall j | 0 <= j < 19 ensures s[j] == h[j] {}
  }

  /**
   * Matching a pattern that starts with the head, from token i on: each head
   * token takes its first candidate. Stated for any pattern with that head.
   */
  lemma {:induction false} HeadMatchFrom(s: string, pat: seq<Token>, tail: seq<nat>, i: nat)
    requires |s| >= 20 && HeadShape(s) && s[19] == '.' && i <= 12
    requires |pat| >= 12 && pat[..12] == HeadPattern && Match(pat[12..], s, 20) == Some(tail)
    ensures Match(pat[i..], s, HeadStart(i)) == Some(HeadEnds[i..] + tail)
    decreases 12 - i
  {
    if i == 12 {
      assert HeadStart(12) == 20;
      assert HeadEnds[12..] + tail == tail;
    } else {
      HeadMatchFrom(s, pat, tail, i + 1);
      HeadMatchStep(s, pat, tail, i);
    }
  }

  /** Token i of the head takes its first candidate, and the rest of the format matches from there. */
  lemma HeadMatchStep(s: string, pat: seq<Token>, tail: seq<nat>, i: nat)
    requires |s| >= 20 && HeadShape(s) && s[19] == '.' && i < 12
    requires |pat| >= 12 && pat[..12] == HeadPattern
    requires Match(pat[i + 1..], s, HeadStart(i + 1)) == Some(HeadEnds[i + 1..] + tail)
    ensures Match(pat[i..], s, HeadStart(i)) == Some(HeadEnds[i..] + tail)
  {
    HeadFirst(s, i);
    PatternStep(pat, i);
    ConsSplit(HeadEnds, tail, i);
    MatchFirstCandidate(pat[i..], s, HeadStart(i), HeadStart(i + 1), HeadEnds[i + 1..] + tail);
  }

  lemma DecimalSnoc(s: string, c: char)
    ensures Decimal(s + [c]) == Decimal(s) * 10 + DigitValue(c)
  {
    assert (s + [c])[..|s|] == s;
  }

  lemma DivMod10(a: nat, b: nat)
    requires b < 10
    ensures (a * 10 + b) / 10 == a && (a * 10 + b) % 10 == b
  {
  }

  lemma DivMod100(a: nat, b: nat)
    requires b < 100
    ensures (a * 100 + b) / 100 == a && (a * 100 + b) % 100 == b
  {
  }

  lemma Decimal2(a: string)
    requires |a| == 2
    ensures Decimal(a) == DigitValue(a[0]) * 10 + DigitValue(a[1])
  {
    DecimalSnoc([], a[0]);
    DecimalSnoc([a[0]], a[1]);
    assert a == [a[0]] + [a[1]];
  }

  lemma DigitCharValue(c: char)
    requires IsDigit(c)
    ensures DigitChar(DigitValue(c)) == c
  {
  }

  lemma Pad2Digits(a: string)
    requires |a| == 2 && IsDigit(a[0]) && IsDigit(a[1])
    ensures Pad2(Decimal(a)) == a
  {
    Decimal2(a);
    var x, y := DigitValue(a[0]), DigitValue(a[1]);
    DivMod10(x, y);
    DivMod10(0, x);
    DigitCharValue(a[0]);
    DigitCharValue(a[1]);
  }

  lemma Decimal4(a: string)
    requires |a| == 4
    ensures Decimal(a) == Decimal(a[..2]) * 100 + Decimal(a[2..])
  {
    Decimal2(a[2..]);
    DecimalSnoc(a[..3], a[3]);
    DecimalSnoc(a[..2], a[2]);
    assert a[..3] == a[..2] + [a[2]];
    assert a == a[..3] + [a[3]];
  }

  lemma Pad4Digits(a: string)
    requires |a| == 4 && forall j :: 0 <= j < 4 ==> IsDigit(a[j])
    ensures Pad4(Decimal(a)) == a
  {
    var hi, lo := a[..2], a[2..];
    assert a == hi + lo;
    Decimal2(hi);
    Decimal2(lo);
    Decimal4(a);
    DivMod100(Decimal(hi), Decimal(lo));
    Pad2Digits(hi);
    Pad2Digits(lo);
  }

  /** Printing the fields read from a canonical head gives the head back. */
  lemma PrintHead(h: string, us: nat)
    requires CanonicalHead(h)
    ensures Strftime(DateTime(Decimal(h[..4]), Decimal(h[5..7]), Decimal(h[8..10]), Decimal(h[11..13]),
                              Decimal(h[14..16]), Decimal(h[17..19]), us)) == h
  {
    Pad4Digits(h[..4]);
    Pad2Digits(h[5..7]);
    Pad2Digits(h[8..10]);
    Pad2Digits(h[11..13]);
    Pad2Digits(h[14..16]);
    Pad2Digits(h[17..19]);
    assert h == h[..4] + "-" + h[5..7] + "-" + h[8..10] + " " + h[11..13] + ":" + h[14..16] + ":" + h[17..19];
  }

  /** The end positions of the match on a canonical stamp with a well-formed fraction. */
  lemma CanonicalMatch(h: string, t: string)
    requires CanonicalHead(h) && FractionOk(t)
    ensures Match(TimePattern, h + "." + t, 0) == Some(HeadEnds + TailEnds(t))
    ensures |HeadEnds + TailEnds(t)| == 19 && (HeadEnds + TailEnds(t))[18] == |h + "." + t|
  {
    StampShape(h, t);
    TailMatch(h, t);
    PatternParts();
    HeadMatchFrom(h + "." + t, TimePattern, TailEnds(t), 0);
    assert TimePattern[0..] == TimePattern && HeadEnds[0..] == HeadEnds;
    StepsAt(20 + |t| - 6, 6);
  }

  /** The fields of a canonical head. */
  function HeadFields(h: string, us: nat): DateTime
    requires |h| == 19
  {
    DateTime(Decimal(h[..4]), Decimal(h[5..7]), Decimal(h[8..10]), Decimal(h[11..13]),
             Decimal(h[14..16]), Decimal(h[17..19]), us)
  }

  /** The fields of a match whose head ends where a canonical head's tokens end. */
  lemma FieldsAtHeadEnds(s: string, e: seq<nat>)
    requires |e| == 19 && e[..12] == HeadEnds && 20 <= e[12] <= |s|
    ensures Fields(s, e) == HeadFields(s[..19], Microseconds(s[20..e[12]]))
  {
    assert e[0] == 4 && e[1] == 5 && e[2] == 7 && e[3] == 8 && e[4] == 10 && e[5] == 11;
    assert e[6] == 13 && e[7] == 14 && e[8] == 16 && e[9] == 17 && e[10] == 19 && e[11] == 20;
    var h := s[..19];
    assert s[..4] == h[..4] && s[5..7] == h[5..7] && s[8..10] == h[8..10];
    assert s[11..13] == h[11..13] && s[14..16] == h[14..16] && s[17..19] == h[17..19];
  }

  /**
   * A canonical stamp followed by `.` and a well-formed fraction is reformatted
   * to its first 19 characters, or fails exactly as the calendar check says;
   * the fraction is dropped either way.
   */
  lemma ReformatCanonical(h: string, t: string)
    requires CanonicalHead(h) && FractionOk(t)
    ensures Reformat(h + "." + t) == CalendarCheck(h)
  {
    var s := h + "." + t;
    CanonicalMatch(h, t);
    var e := HeadEnds + TailEnds(t);
    StrptimeOf(s, e);
    assert e[..12] == HeadEnds;
    assert s[..19] == h;
    FieldsAtHeadEnds(s, e);
    CheckHead(h, Microseconds(s[20..e[12]]));
  }

  /** The parse of an input the whole format matches up to its end. */
  lemma StrptimeOf(s: string, e: seq<nat>)
    requires Match(TimePattern, s, 0) == Some(e) && |e| == 19 && e[18] == |s|
    ensures Strptime(s) == Validate(Fields(s, e))
  {
  }

  /** Checking and printing the fields of a canonical head is the calendar check. */
  lemma CheckHead(h: string, us: nat)
    requires CanonicalHead(h)
    ensures (match Validate(HeadFields(h, us)) case Ok(d) => Ok(Strftime(d)) case Err(e) => Err(e)) == CalendarCheck(h)
  {
    PrintHead(h, us);
  }

  // ---------------------------------------------------------------------------
  // What an accepted stamp looks like

  lemma AltWidth(alts: seq<seq<Class>>, s: string, p: nat, c: nat, w: nat)
    requires c in AltEnds(alts, s, p) && forall j :: 0 <= j < |alts| ==> |alts[j]| <= w
    ensures c <= p + w
  {
    AltEndsMember(alts, s, p, c);
  }

  /** The two parts of a path through `%f000000`. */
  lemma TailSplit(s: string, q: nat, e: seq<nat>)
    requires Path([FractionToken] + Literal("000000"), s, q, e)
    ensures |e| == 7 && e[0] in Candidates(FractionToken, s, q) && Path(Literal("000000"), s, e[0], e[1..])
  {
    LiteralLength("000000");
    var pat := [FractionToken] + Literal("000000");
    assert pat != [] && pat[0] == FractionToken && pat[1..] == Literal("000000");
  }

  lemma FractionParts(t: string, k: nat)
    requires 1 <= k <= 6 && |t| == k + 6 && (forall j :: 0 <= j < k ==> IsDigit(t[j])) && t[k..] == "000000"
    ensures FractionOk(t)
  {
    forall j | k <= j < |t| ensures IsDigit(t[j]) {
      assert t[j] == t[k..][j - k];
    }
  }

  /** After `%f` comes the literal `000000`, and the match must reach the end of the input. */
  lemma TailFacts(s: string, q: nat, e: seq<nat>)
    requires Path([FractionToken] + Literal("000000"), s, q, e) && e[|e| - 1] == |s|
    ensures q <= |s| && FractionOk(s[q..])
  {
    TailSplit(s, q, e);
    var c := e[0];
    CandidateFacts(FractionToken, s, q, c);
    LiteralPath("000000", s, c, e[1..]);
    StepsAt(c, 6);
    assert e[6] == e[1..][5];
    FractionFromRun(s, q, c);
  }

  lemma FractionFromRun(s: string, q: nat, c: nat)
    requires q < c <= q + 6 && c + 6 == |s|
    requires (forall x :: q <= x < c ==> In(Digit, s[x])) && s[c..c + 6] == "000000"
    ensures FractionOk(s[q..])
  {
    var t := s[q..];
    forall j | 0 <= j < c - q ensures IsDigit(t[j]) {
      assert In(Digit, s[q + j]);
    }
    assert t[c - q..] == s[c..c + 6];
    FractionParts(t, c - q);
  }

  /** Token i of the head of a path through the whole format. */
  lemma HeadTokenAt(s: string, e: seq<nat>, i: nat)
    requires Path(TimePattern, s, 0, e) && i < 12
    ensures |e| == 19 && e[i] in Candidates(HeadPattern[i], s, Start(0, e, i))
    ensures Start(0, e, i) <= e[i] <= |s|
  {
    PatternParts();
    PathAt(TimePattern, s, 0, e, i);
    assert TimePattern[i] == TimePattern[..12][i];
  }

  /** A literal character of the head is there and takes one position. */
  lemma HeadLit(s: string, e: seq<nat>, i: nat, c: char)
    requires Path(TimePattern, s, 0, e) && i < 12 && HeadPattern[i] == Lit(c)
    ensures |e| == 19 && Start(0, e, i) < |s| && s[Start(0, e, i)] == c && e[i] == Start(0, e, i) + 1
  {
    HeadTokenAt(s, e, i);
    LitCandidates(c, s, Start(0, e, i));
  }

  /** Every alternative of an Alts token is at most w wide. */
  predicate Narrow(t: Token, w: nat) {
    t.Alts? && forall j :: 0 <= j < |t.alts| ==> |t.alts[j]| <= w
  }

  lemma NarrowCandidate(t: Token, w: nat, s: string, p: nat, c: nat)
    requires Narrow(t, w) && c in Candidates(t, s, p)
    ensures c <= p + w
  {
    AltWidth(t.alts, s, p, c, w);
  }

  /** `%Y` takes at most four positions, the other numeric directives at most two. */
  lemma HeadWidths()
    ensures Narrow(HeadPattern[0], 4) && Narrow(HeadPattern[2], 2) && Narrow(HeadPattern[4], 2)
    ensures Narrow(HeadPattern[6], 2) && Narrow(HeadPattern[8], 2) && Narrow(HeadPattern[10], 2)
  {
  }

  /** A directive of a path takes no more positions than its widest alternative. */
  lemma HeadWidth(s: string, e: seq<nat>, i: nat, w: nat)
    requires Path(TimePattern, s, 0, e) && i < 12 && Narrow(HeadPattern[i], w)
    ensures |e| == 19 && Start(0, e, i) <= e[i] <= Start(0, e, i) + w
  {
    HeadTokenAt(s, e, i);
    NarrowCandidate(HeadPattern[i], w, s, Start(0, e, i), e[i]);
  }

  /** Through the date: the widths alone put the blank at 10 at the latest. */
  lemma DateForced(s: string, e: seq<nat>)
    requires Path(TimePattern, s, 0, e)
    ensures |e| == 19 && e[4] <= 10
  {
    HeadWidths();
    HeadWidth(s, e, 0, 4);
    HeadLit(s, e, 1, '-');
    HeadWidth(s, e, 2, 2);
    HeadLit(s, e, 3, '-');
    HeadWidth(s, e, 4, 2);
  }

  /** The blank is a run of white space. */
  lemma BlankForced(s: string, e: seq<nat>)
    requires Path(TimePattern, s, 0, e)
    ensures |e| == 19 && e[4] < e[5] <= |s| && e[5] <= e[4] + Run(Space, s, e[4])
    ensures forall q :: e[4] <= q < e[5] ==> IsSpace(s[q])
  {
    HeadTokenAt(s, e, 5);
    assert HeadPattern[5] == Plus(Space);
    PlusCandidate(Space, s, e[4], e[5]);
  }

  /** Through the time: at most eight positions after the blank, ending on the `.`. */
  lemma TimeForced(s: string, e: seq<nat>)
    requires Path(TimePattern, s, 0, e)
    ensures |e| == 19 && e[5] <= e[10] <= e[5] + 8 && e[10] < |s| && s[e[10]] == '.' && e[11] == e[10] + 1
  {
    HeadWidths();
    HeadWidth(s, e, 6, 2);
    HeadLit(s, e, 7, ':');
    HeadWidth(s, e, 8, 2);
    HeadLit(s, e, 9, ':');
    HeadWidth(s, e, 10, 2);
    HeadLit(s, e, 11, '.');
  }

  /** The characters of a canonical head the blank and the `.` are told apart by. */
  lemma CanonicalChars(h: string)
    requires |h| >= 19 && HeadShape(h)
    ensures forall k :: 0 <= k < 10 ==> !IsSpace(h[k])
    ensures h[10] == ' ' && IsDigit(h[11])
    ensures forall k :: 11 <= k < 19 ==> h[k] != '.'
  {
  }

  /** On a canonical head, every path puts the `.` at position 19. */
  lemma HeadForced(s: string, e: seq<nat>)
    requires |s| >= 20 && HeadShape(s) && s[19] == '.' && Path(TimePattern, s, 0, e)
    ensures |e| == 19 && e[11] == 20
  {
    CanonicalChars(s);
    DateForced(s, e);
    BlankForced(s, e);
    assert IsSpace(s[e[4]]);
    BlankFirst(s);
    DownMember(11, 11, e[5]);
    TimeForced(s, e);
  }

  /** An accepted input is matched by the format up to its very end. */
  lemma AcceptedMatch(s: string)
    requires Reformat(s).Ok?
    ensures Match(TimePattern, s, 0).Some?
    ensures Path(TimePattern, s, 0, Match(TimePattern, s, 0).value)
    ensures |Match(TimePattern, s, 0).value| == 19 && Match(TimePattern, s, 0).value[18] == |s|
  {
    var e := Match(TimePattern, s, 0).value;
    MatchSound(TimePattern, s, 0);
    PathBounds(TimePattern, s, 0, e);
    PatternParts();
  }

  /**
   * A canonical head followed by `.` is accepted only when what follows is
   * one to six digits and then exactly six zeros.
   */
  lemma ReformatNeedsFraction(h: string, t: string)
    requires CanonicalHead(h)
    ensures Reformat(h + "." + t).Ok? ==> FractionOk(t)
  {
    var s := h + "." + t;
    if Reformat(s).Ok? {
      AcceptedMatch(s);
      StampShape(h, t);
      assert s[20..] == t;
      CanonicalTail(s, Match(TimePattern, s, 0).value);
    }
  }

  /** The fraction of a path through the whole input from a given start of the fraction. */
  lemma FractionOfPath(s: string, e: seq<nat>)
    requires Path(TimePattern, s, 0, e) && |e| == 19 && e[18] == |s|
    ensures e[11] <= |s| && FractionOk(s[e[11]..])
  {
    TailPath(s, e);
    assert e[12..][6] == e[18];
    TailFacts(s, e[11], e[12..]);
  }

  /** The last seven end positions of a path are a path through `%f000000`. */
  lemma TailPath(s: string, e: seq<nat>)
    requires Path(TimePattern, s, 0, e) && |e| == 19
    ensures Path([FractionToken] + Literal("000000"), s, e[11], e[12..])
  {
    PatternParts();
    PathSuffix(TimePattern, s, 0, e, 12);
  }

  lemma CanonicalTail(s: string, e: seq<nat>)
    requires |s| >= 20 && HeadShape(s) && s[19] == '.'
    requires Path(TimePattern, s, 0, e) && |e| == 19 && e[18] == |s|
    ensures FractionOk(s[20..])
  {
    HeadForced(s, e);
    FractionOfPath(s, e);
  }

  /** The fraction of an accepted input follows a `.`. */
  lemma AcceptedTail(s: string, e: seq<nat>)
    requires Path(TimePattern, s, 0, e) && |e| == 19 && e[18] == |s|
    ensures exists i :: 0 <= i < |s| && s[i] == '.' && FractionOk(s[i + 1..])
  {
    TimeForced(s, e);
    FractionOfPath(s, e);
  }

  lemma StrftimeShape(d: DateTime)
    ensures |Strftime(d)| == 19 && '.' !in Strftime(d)
  {
  }

  /**
   * Whatever is accepted contains a `.` followed by a well-formed fraction and
   * nothing else, and the stored text is 19 characters with no fractional part.
   */
  lemma ReformatShape(s: string)
    requires Reformat(s).Ok?
    ensures |Reformat(s).value| == 19 && '.' !in Reformat(s).value
    ensures exists i :: 0 <= i < |s| && s[i] == '.' && FractionOk(s[i + 1..])
  {
    AcceptedMatch(s);
    AcceptedTail(s, Match(TimePattern, s, 0).value);
    StrftimeShape(Strptime(s).value);
  }

  /** Nothing but `0` can end an accepted input: nothing may follow the literal zeros. */
  lemma ReformatRejectsTrailing(s: string, c: char)
    ensures Reformat(s + [c]).Ok? ==> c == '0'
  {
    if Reformat(s + [c]).Ok? {
      ReformatShape(s + [c]);
      var i :| 0 <= i < |s + [c]| && (s + [c])[i] == '.' && FractionOk((s + [c])[i + 1..]);
      var u := (s + [c])[i + 1..];
      assert u[|u| - 1] == c;
      assert u[|u| - 6..][5] == u[|u| - 1];
    }
  }

  /** `.123000000` is accepted: `%f` takes `123` and the six zeros follow. */
  lemma AcceptsMillisecondStamp(h: string)
    requires CanonicalHead(h)
    ensures Reformat(h + ".123000000") == CalendarCheck(h)
  {
    assert h + ".123000000" == h + "." + "123000000";
    ReformatCanonical(h, "123000000");
  }

  /** `.123456000` is rejected: no width of `%f` leaves six zeros at the end. */
  /** Six significant digits are accepted when six more zeros follow them: `%f` takes `123456`, the literal the rest. */
  lemma AcceptsTwelveDigitFraction(h: string)
    requires CanonicalHead(h)
    ensures Reformat(h + ".123456000000") == CalendarCheck(h)
  {
    assert h + ".123456000000" == h + "." + "123456000000";
    ReformatCanonical(h, "123456000000");
  }

  lemma RejectsMicrosecondStamp(h: string)
    requires CanonicalHead(h)
    ensures Reformat(h + ".123456000").Err?
  {
    assert h + ".123456000" == h + "." + "123456000";
    ReformatNeedsFraction(h, "123456000");
    assert "123456000"[3..] == "456000";
  }

  /** 2024 is a leap year, but February never has 30 days. */
  lemma ThirtiethOfFebruary()
    ensures CanonicalHead("2024-02-30 10:00:00")
    ensures CalendarCheck("2024-02-30 10:00:00") == Err(DayOutOfRange)
  {
    var h := "2024-02-30 10:00:00";
    Decimal4(h[..4]);
    Decimal2(h[..4][..2]);
    Decimal2(h[..4][2..]);
    Decimal2(h[5..7]);
    Decimal2(h[8..10]);
  }

  /** 30 February fails the day check even though the text has the right shape. */
  lemma RejectsThirtiethOfFebruary(h: string)
    requires h == "2024-02-30 10:00:00"
    ensures Reformat(h + ".123000000") == Err(DayOutOfRange)
  {
    ThirtiethOfFebruary();
    AcceptsMillisecondStamp(h);
  }
}
