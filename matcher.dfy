/**
 * The fragment of Python's regular-expression engine that `datetime.strptime`
 * relies on: CPython's `_strptime` compiles a format string into a sequence of
 * groups of alternatives (`1[0-2]|0[1-9]|[1-9]` for `%m`), greedy repetitions
 * (`\s+` for a blank, `[0-9]{1,6}` for `%f`) and literal characters, and then
 * calls `re.match`, which anchors the match at the start of the input but not
 * at its end and returns the first successful path in backtracking order.
 */
module Matcher {
  import opened Results

  /** A single-character class. */
  datatype Class = Range(lo: char, hi: char) | Space

  /** The characters Python's `\s` accepts in a `str` pattern. */
  predicate IsSpace(c: char) {
    var n := c as int;
    (9 <= n <= 13) || (28 <= n <= 32) || n == 0x85 || n == 0xA0 || n == 0x1680
    || (0x2000 <= n <= 0x200A) || n == 0x2028 || n == 0x2029 || n == 0x202F
    || n == 0x205F || n == 0x3000
  }

  predicate In(k: Class, c: char) {
    match k
    case Range(lo, hi) => lo <= c <= hi
    case Space => IsSpace(c)
  }

  /** One element of a compiled pattern. */
  datatype Token =
    | Alts(alts: seq<seq<Class>>)       // alternatives of fixed width, tried left to right
    | Plus(k: Class)                     // k+, greedy
    | Upto(k: Class, hi: nat)            // k{1,hi}, greedy

  /** Alternative `alt` matches the characters of `s` starting at `p`. */
  predicate AltMatches(alt: seq<Class>, s: string, p: nat) {
    p + |alt| <= |s| && forall j :: 0 <= j < |alt| ==> In(alt[j], s[p + j])
  }

  /** End positions of the alternatives that match at `p`, in the order they are tried. */
  function AltEnds(alts: seq<seq<Class>>, s: string, p: nat): seq<nat> {
    if alts == [] then []
    else (if AltMatches(alts[0], s, p) then [p + |alts[0]|] else []) + AltEnds(alts[1..], s, p)
  }

  /** Length of the longest run of characters of class `k` starting at `p`. */
  function Run(k: Class, s: string, p: nat): nat
    decreases |s| - p
  {
    if p < |s| && In(k, s[p]) then 1 + Run(k, s, p + 1) else 0
  }

  /** The positions hi, hi - 1, ..., lo: the order in which a greedy repetition backtracks. */
  function Down(hi: nat, lo: nat): seq<nat> {
    if hi < lo then [] else seq(hi - lo + 1, j requires 0 <= j <= hi - lo => hi - j)
  }

  function Min(a: nat, b: nat): nat { if a <= b then a else b }

  /** The end positions a token can reach from `p`, in backtracking order. */
  function Candidates(t: Token, s: string, p: nat): seq<nat> {
    match t
    case Alts(alts) => AltEnds(alts, s, p)
    case Plus(k) => Down(p + Run(k, s, p), p + 1)
    case Upto(k, hi) => Down(p + Min(hi, Run(k, s, p)), p + 1)
  }

  /**
   * `ends` is a way of matching `pat` against `s` from `p`: `ends[i]` is where
   * token i stops, and each token stops at one of its candidates.
   */
  ghost predicate Path(pat: seq<Token>, s: string, p: nat, ends: seq<nat>)
    decreases |pat|
  {
    |ends| == |pat| &&
    (pat != [] ==> ends[0] in Candidates(pat[0], s, p) && Path(pat[1..], s, ends[0], ends[1..]))
  }

  /** Where token i of a path starts. */
  function Start(p: nat, ends: seq<nat>, i: nat): nat
    requires i <= |ends|
  {
    if i == 0 then p else ends[i - 1]
  }

  /**
   * The match `re.match` finds: the first path in backtracking order, as the
   * end position of every token, or None when no path exists.
   */
  function Match(pat: seq<Token>, s: string, p: nat): Option<seq<nat>>
    decreases |pat|, 0
  {
    if pat == [] then Some([]) else FirstMatch(pat[1..], s, Candidates(pat[0], s, p))
  }

  /** Tries the candidates in order and keeps the first from which `rest` matches. */
  function FirstMatch(rest: seq<Token>, s: string, cands: seq<nat>): Option<seq<nat>>
    decreases |rest|, 1, |cands|
  {
    if cands == [] then None
    else match Match(rest, s, cands[0])
      case Some(e) => Some([cands[0]] + e)
      case None => FirstMatch(rest, s, cands[1..])
  }

  // ---------------------------------------------------------------------------
  // Facts about candidates

  lemma DownMember(hi: nat, lo: nat, c: nat)
    ensures c in Down(hi, lo) <==> lo <= c <= hi
  {
    if lo <= c <= hi {
      assert Down(hi, lo)[hi - c] == c;
    }
  }

  lemma {:induction false} RunFacts(k: Class, s: string, p: nat)
    ensures p + Run(k, s, p) <= |s| || Run(k, s, p) == 0
    ensures forall q :: p <= q < p + Run(k, s, p) ==> q < |s| && In(k, s[q])
    ensures p + Run(k, s, p) < |s| ==> !In(k, s[p + Run(k, s, p)])
    decreases |s| - p
  {
    if p < |s| && In(k, s[p]) {
      RunFacts(k, s, p + 1);
    }
  }

  lemma {:induction false} AltEndsMember(alts: seq<seq<Class>>, s: string, p: nat, c: nat)
    requires c in AltEnds(alts, s, p)
    ensures exists j :: 0 <= j < |alts| && AltMatches(alts[j], s, p) && c == p + |alts[j]|
  {
    if !(AltMatches(alts[0], s, p) && c == p + |alts[0]|) {
      AltEndsMember(alts[1..], s, p, c);
      var j :| 0 <= j < |alts[1..]| && AltMatches(alts[1..][j], s, p) && c == p + |alts[1..][j]|;
      assert alts[1..][j] == alts[j + 1];
    }
  }

  lemma {:induction false} RunCovers(k: Class, s: string, p: nat, n: nat)
    requires p + n <= |s| && forall q :: p <= q < p + n ==> In(k, s[q])
    ensures Run(k, s, p) >= n
    decreases n
  {
    if n > 0 {
      RunCovers(k, s, p + 1, n - 1);
    }
  }

  /** A candidate of a greedy repetition holding at most `top` characters. */
  lemma RepeatCandidate(k: Class, s: string, p: nat, top: nat, c: nat)
    requires top <= Run(k, s, p) && c in Down(p + top, p + 1)
    ensures p < c <= p + top && c <= |s|
    ensures forall q :: p <= q < c ==> In(k, s[q])
  {
    var run := Run(k, s, p);
    DownMember(p + top, p + 1, c);
    assert p + 1 <= c <= p + top;
    RunFacts(k, s, p);
    assert p + run <= |s|;
    forall q | p <= q < c ensures In(k, s[q]) {
      assert p <= q < p + run;
    }
  }

  /** Every candidate lies between the start and the end of the input, and consumes what the token accepts. */
  lemma PlusCandidate(k: Class, s: string, p: nat, c: nat)
    requires c in Candidates(Plus(k), s, p)
    ensures p < c <= p + Run(k, s, p) && c <= |s|
    ensures forall q :: p <= q < c ==> In(k, s[q])
  {
    RepeatCandidate(k, s, p, Run(k, s, p), c);
  }

  lemma CandidateFacts(t: Token, s: string, p: nat, c: nat)
    requires c in Candidates(t, s, p)
    ensures p <= c <= |s|
    ensures t.Alts? ==> exists j :: 0 <= j < |t.alts| && AltMatches(t.alts[j], s, p) && c == p + |t.alts[j]|
    ensures t.Plus? ==> p < c <= p + Run(t.k, s, p)
    ensures t.Upto? ==> p < c <= p + Min(t.hi, Run(t.k, s, p))
    ensures !t.Alts? ==> forall q :: p <= q < c ==> In(t.k, s[q])
  {
    match t
    case Alts(alts) =>
      AltEndsMember(alts, s, p, c);
    case Plus(k) =>
      RepeatCandidate(k, s, p, Run(k, s, p), c);
    case Upto(k, hi) =>
      RepeatCandidate(k, s, p, Min(hi, Run(k, s, p)), c);
  }

  /** The first candidate of a group of alternatives is the end of the first alternative that matches. */
  lemma {:induction false} AltEndsFirst(alts: seq<seq<Class>>, s: string, p: nat, j: nat)
    requires j < |alts| && AltMatches(alts[j], s, p)
    requires forall i :: 0 <= i < j ==> !AltMatches(alts[i], s, p)
    ensures |AltEnds(alts, s, p)| > 0 && AltEnds(alts, s, p)[0] == p + |alts[j]|
  {
    if j > 0 {
      forall i | 0 <= i < j - 1 ensures !AltMatches(alts[1..][i], s, p) {
        assert alts[1..][i] == alts[i + 1];
      }
      AltEndsFirst(alts[1..], s, p, j - 1);
    }
  }

  // ---------------------------------------------------------------------------
  // Paths

  /** Every token of a path starts where the previous one stopped. */
  lemma {:induction false} PathToken(pat: seq<Token>, s: string, p: nat, ends: seq<nat>, i: nat)
    requires Path(pat, s, p, ends) && i < |pat|
    ensures |ends| == |pat| && ends[i] in Candidates(pat[i], s, Start(p, ends, i))
    decreases i
  {
    if i == 0 {
      PathStep(pat, s, p, ends);
    } else {
      PathTail(pat, s, p, ends);
      PathToken(pat[1..], s, ends[0], ends[1..], i - 1);
      ShiftAt(pat, ends, p, i);
    }
  }

  lemma PathTail(pat: seq<Token>, s: string, p: nat, ends: seq<nat>)
    requires Path(pat, s, p, ends) && pat != []
    ensures |ends| == |pat| && Path(pat[1..], s, ends[0], ends[1..])
  {
  }

  /** Index i of a pattern and its ends is index i - 1 of their tails. */
  lemma ShiftAt(pat: seq<Token>, ends: seq<nat>, p: nat, i: nat)
    requires 0 < i < |pat| == |ends|
    ensures pat[1..][i - 1] == pat[i] && ends[1..][i - 1] == ends[i]
    ensures Start(ends[0], ends[1..], i - 1) == Start(p, ends, i)
  {
  }

  /** Every token of a path starts where the previous one stopped and stops within the input. */
  lemma PathAt(pat: seq<Token>, s: string, p: nat, ends: seq<nat>, i: nat)
    requires Path(pat, s, p, ends) && i < |pat|
    ensures ends[i] in Candidates(pat[i], s, Start(p, ends, i))
    ensures Start(p, ends, i) <= ends[i] <= |s|
  {
    PathToken(pat, s, p, ends, i);
    CandidateFacts(pat[i], s, Start(p, ends, i), ends[i]);
  }

  /** The end positions of a path never decrease and stay within the input. */
  lemma PathBounds(pat: seq<Token>, s: string, p: nat, ends: seq<nat>)
    requires Path(pat, s, p, ends)
    ensures |ends| == |pat|
    ensures forall i :: 0 <= i < |ends| ==> Start(p, ends, i) <= ends[i] <= |s|
  {
    forall i | 0 <= i < |ends| ensures Start(p, ends, i) <= ends[i] <= |s| {
      PathAt(pat, s, p, ends, i);
    }
  }

  /** What remains of a path after its first i tokens is a path through the rest of the pattern. */
  lemma {:induction false} PathSuffix(pat: seq<Token>, s: string, p: nat, ends: seq<nat>, i: nat)
    requires Path(pat, s, p, ends) && i <= |pat|
    ensures Path(pat[i..], s, Start(p, ends, i), ends[i..])
    decreases i
  {
    if i == 0 {
      assert pat[0..] == pat && ends[0..] == ends;
    } else {
      PathSuffix(pat[1..], s, ends[0], ends[1..], i - 1);
      assert pat[1..][i - 1..] == pat[i..];
      assert ends[1..][i - 1..] == ends[i..];
      assert Start(ends[0], ends[1..], i - 1) == Start(p, ends, i);
    }
  }

  // ---------------------------------------------------------------------------
  // Match is sound and complete, and finds the first path

  /** What the search returns is a path. */
  lemma {:induction false} MatchSound(pat: seq<Token>, s: string, p: nat)
    ensures Match(pat, s, p).Some? ==> Path(pat, s, p, Match(pat, s, p).value)
    decreases |pat|, 0
  {
    if pat != [] {
      FirstMatchSound(pat[1..], s, Candidates(pat[0], s, p));
    }
  }

  lemma {:induction false} FirstMatchSound(rest: seq<Token>, s: string, cands: seq<nat>)
    ensures var r := FirstMatch(rest, s, cands);
      r.Some? ==> |r.value| > 0 && r.value[0] in cands && Path(rest, s, r.value[0], r.value[1..])
    decreases |rest|, 1, |cands|
  {
    if cands != [] {
      MatchSound(rest, s, cands[0]);
      if Match(rest, s, cands[0]).None? {
        FirstMatchSound(rest, s, cands[1..]);
      } else {
        var e := Match(rest, s, cands[0]).value;
        assert ([cands[0]] + e)[1..] == e;
      }
    }
  }

  /** When some path exists, the backtracking search finds one. */
  lemma {:induction false} MatchComplete(pat: seq<Token>, s: string, p: nat, ends: seq<nat>)
    requires Path(pat, s, p, ends)
    ensures Match(pat, s, p).Some?
    decreases |pat|
  {
    if pat != [] {
      MatchComplete(pat[1..], s, ends[0], ends[1..]);
      FirstMatchComplete(pat[1..], s, Candidates(pat[0], s, p), ends[0]);
    }
  }

  lemma {:induction false} FirstMatchComplete(rest: seq<Token>, s: string, cands: seq<nat>, c: nat)
    requires c in cands && Match(rest, s, c).Some?
    ensures FirstMatch(rest, s, cands).Some?
    decreases |cands|
  {
    if cands[0] != c && Match(rest, s, cands[0]).None? {
      FirstMatchComplete(rest, s, cands[1..], c);
    }
  }

  /** If the first candidate of the first token leads to a match, that is the match found. */
  lemma MatchFirstCandidate(pat: seq<Token>, s: string, p: nat, c: nat, e: seq<nat>)
    requires pat != [] && |Candidates(pat[0], s, p)| > 0 && Candidates(pat[0], s, p)[0] == c
    requires Match(pat[1..], s, c) == Some(e)
    ensures Match(pat, s, p) == Some([c] + e)
  {
  }

  /** A candidate from which the rest does not match is skipped. */
  lemma FirstMatchSkip(rest: seq<Token>, s: string, cands: seq<nat>)
    requires cands != [] && Match(rest, s, cands[0]).None?
    ensures FirstMatch(rest, s, cands) == FirstMatch(rest, s, cands[1..])
  {
  }

  /** A candidate from which the rest matches is taken. */
  lemma FirstMatchTake(rest: seq<Token>, s: string, cands: seq<nat>, e: seq<nat>)
    requires cands != [] && Match(rest, s, cands[0]) == Some(e)
    ensures FirstMatch(rest, s, cands) == Some([cands[0]] + e)
  {
  }

  /** The search takes the first candidate from which the rest matches. */
  lemma {:induction false} FirstMatchAt(rest: seq<Token>, s: string, cands: seq<nat>, n: nat, e: seq<nat>)
    requires n < |cands| && Match(rest, s, cands[n]) == Some(e)
    requires forall j :: 0 <= j < n ==> Match(rest, s, cands[j]).None?
    ensures FirstMatch(rest, s, cands) == Some([cands[n]] + e)
  {
    if n == 0 {
      FirstMatchTake(rest, s, cands, e);
    } else {
      FirstMatchSkip(rest, s, cands);
      var tail := cands[1..];
      forall j | 0 <= j < n - 1 ensures Match(rest, s, tail[j]).None? {
        assert tail[j] == cands[j + 1];
      }
      FirstMatchAt(rest, s, tail, n - 1, e);
    }
  }

  lemma DownAt(hi: nat, lo: nat)
    requires lo <= hi
    ensures |Down(hi, lo)| == hi - lo + 1
    ensures forall j :: 0 <= j <= hi - lo ==> Down(hi, lo)[j] == hi - j
  {
  }

  /** Backtracking from `hi`, position `c` is tried after every position above it. */
  lemma DownSkip(hi: nat, lo: nat, c: nat)
    requires lo <= c <= hi
    ensures hi - c < |Down(hi, lo)| && Down(hi, lo)[hi - c] == c
    ensures forall j :: 0 <= j < hi - c ==> c < Down(hi, lo)[j] <= hi
  {
    DownAt(hi, lo);
  }

  /**
   * A greedy repetition that backtracks from `hi` downwards settles on the
   * first end position `c` from which the rest of the pattern matches.
   */
  lemma FirstMatchDown(rest: seq<Token>, s: string, hi: nat, lo: nat, c: nat, e: seq<nat>)
    requires lo <= c <= hi
    requires forall d :: c < d <= hi ==> Match(rest, s, d).None?
    requires Match(rest, s, c) == Some(e)
    ensures FirstMatch(rest, s, Down(hi, lo)) == Some([c] + e)
  {
    var cands := Down(hi, lo);
    DownSkip(hi, lo, c);
    var n := hi - c;
    assert cands[n] == c;
    assert forall j :: 0 <= j < n ==> Match(rest, s, cands[j]).None?;
    FirstMatchAt(rest, s, cands, n, e);
  }

  // ---------------------------------------------------------------------------
  // Literal text

  /** The tokens a run of ordinary characters in a format compiles to. */
  function Literal(w: string): seq<Token> {
    if w == [] then [] else [Alts([[Range(w[0], w[0])]])] + Literal(w[1..])
  }

  /** The end positions of the characters of a literal matched at `p`. */
  function Steps(p: nat, n: nat): seq<nat>
    decreases n
  {
    if n == 0 then [] else [p + 1] + Steps(p + 1, n - 1)
  }

  /** The token of one literal character reaches exactly the next position when that character is there. */
  lemma LitCandidates(c: char, s: string, p: nat)
    ensures Candidates(Alts([[Range(c, c)]]), s, p) == if p < |s| && s[p] == c then [p + 1] else []
  {
    var alt := [Range(c, c)];
    if p < |s| && s[p] == c {
      forall j | 0 <= j < |alt| ensures In(alt[j], s[p + j]) {
        assert j == 0;
      }
      assert AltMatches(alt, s, p);
    } else if p < |s| {
      assert !In(alt[0], s[p + 0]);
      assert !AltMatches(alt, s, p);
    } else {
      assert !AltMatches(alt, s, p);
    }
    var alts: seq<seq<Class>> := [alt];
    assert AltEnds(alts[1..], s, p) == [];
  }

  lemma {:induction false} LiteralLength(w: string)
    ensures |Literal(w)| == |w|
  {
    if w != [] { LiteralLength(w[1..]); }
  }

  lemma {:induction false} StepsAt(p: nat, n: nat)
    ensures |Steps(p, n)| == n
    ensures forall i :: 0 <= i < n ==> Steps(p, n)[i] == p + i + 1
    decreases n
  {
    if n > 0 { StepsAt(p + 1, n - 1); }
  }

  lemma MatchStep(pat: seq<Token>, s: string, p: nat)
    requires pat != []
    ensures Match(pat, s, p) == FirstMatch(pat[1..], s, Candidates(pat[0], s, p))
  {
  }

  lemma PathStep(pat: seq<Token>, s: string, p: nat, ends: seq<nat>)
    requires pat != []
    ensures Path(pat, s, p, ends) <==>
      |ends| == |pat| && ends[0] in Candidates(pat[0], s, p) && Path(pat[1..], s, ends[0], ends[1..])
  {
  }

  lemma LiteralStep(w: string)
    requires w != []
    ensures Literal(w) != [] && Literal(w)[0] == Alts([[Range(w[0], w[0])]]) && Literal(w)[1..] == Literal(w[1..])
  {
  }

  lemma StepsStep(p: nat, n: nat)
    requires n > 0
    ensures Steps(p, n) == [p + 1] + Steps(p + 1, n - 1)
  {
  }

  /** Text is at `p` when its first character is there and the rest follows. */
  lemma TextStep(w: string, s: string, p: nat)
    requires w != [] && p < |s|
    ensures (p + |w| <= |s| && s[p..p + |w|] == w) <==>
      (s[p] == w[0] && p + 1 + |w[1..]| <= |s| && s[p + 1..p + 1 + |w[1..]|] == w[1..])
  {
    if p + |w| <= |s| {
      assert s[p..p + |w|] == [s[p]] + s[p + 1..p + 1 + |w[1..]|];
      assert w == [w[0]] + w[1..];
    }
  }

  /** A literal matches exactly when the input holds that text at `p`. */
  lemma {:induction false} LiteralMatch(w: string, s: string, p: nat)
    requires p <= |s|
    ensures Match(Literal(w), s, p) ==
      if p + |w| <= |s| && s[p..p + |w|] == w then Some(Steps(p, |w|)) else None
    decreases |w|
  {
    if w == [] {
      assert s[p..p] == w;
    } else if p < |s| && s[p] == w[0] {
      LiteralMatchHit(w, s, p);
    } else {
      LiteralStep(w);
      MatchStep(Literal(w), s, p);
      LitCandidates(w[0], s, p);
      if p < |s| {
        TextStep(w, s, p);
      }
    }
  }

  lemma {:induction false} LiteralMatchHit(w: string, s: string, p: nat)
    requires w != [] && p < |s| && s[p] == w[0]
    ensures Match(Literal(w), s, p) ==
      if p + |w| <= |s| && s[p..p + |w|] == w then Some(Steps(p, |w|)) else None
    decreases |w|, 0
  {
    LiteralStep(w);
    var tail := Literal(w[1..]);
    MatchStep(Literal(w), s, p);
    LitCandidates(w[0], s, p);
    LiteralMatch(w[1..], s, p + 1);
    TextStep(w, s, p);
    StepsStep(p, |w|);
    var cands := [p + 1];
    if Match(tail, s, p + 1).Some? {
      FirstMatchTake(tail, s, cands, Match(tail, s, p + 1).value);
    } else {
      FirstMatchSkip(tail, s, cands);
      assert cands[1..] == [];
    }
  }

  /** A path whose first token is a literal character starts with that character. */
  lemma LitPathHead(pat: seq<Token>, c: char, s: string, p: nat, ends: seq<nat>)
    requires pat != [] && pat[0] == Alts([[Range(c, c)]]) && Path(pat, s, p, ends)
    ensures p < |s| && s[p] == c && |ends| == |pat| && ends[0] == p + 1 && Path(pat[1..], s, p + 1, ends[1..])
  {
    PathStep(pat, s, p, ends);
    LitCandidates(c, s, p);
  }

  /** A path through a literal consumes exactly that text. */
  lemma {:induction false} LiteralPath(w: string, s: string, p: nat, ends: seq<nat>)
    requires p <= |s| && Path(Literal(w), s, p, ends)
    ensures p + |w| <= |s| && s[p..p + |w|] == w && ends == Steps(p, |w|)
    decreases |w|
  {
    if w == [] {
      assert s[p..p] == w;
    } else {
      LiteralStep(w);
      LitPathHead(Literal(w), w[0], s, p, ends);
      LiteralPath(w[1..], s, p + 1, ends[1..]);
      TextStep(w, s, p);
      StepsStep(p, |w|);
      assert ends == [ends[0]] + ends[1..];
    }
  }
}
