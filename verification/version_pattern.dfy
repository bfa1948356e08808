/**
 The version patterns both the bump script and the package setup search for,

     version\s*=\s*["']([0-9]+\.[0-9]+\.[0-9]+)["']
     __version__\s*=\s*["']([0-9]+\.[0-9]+\.[0-9]+)["']

 and the rewriting pattern `(version\s*=\s*["'])[0-9]+\.[0-9]+\.[0-9]+(["'])` with its
 replacement `\g<1>NEW\g<2>`.

 Each pattern is a deterministic automaton here. Every quantifier in the patterns is
 followed by a character its own class excludes (whitespace then '=', whitespace then a
 quote, digits then '.', digits then a quote), so the regex engine never backtracks into a
 quantifier, and a match at a given position is exactly the one the automaton finds.
 */
module VersionPattern {
  import opened Wrappers
  import opened Text

  const VersionKeyword: string := "version"
  const DunderKeyword: string := "__version__"

  predicate IsQuote(c: char) {
    c == '"' || c == '\''
  }

  /** Where the automaton stands. The prefix `<word>\s*=\s*["']` runs through `Keyword`,
      `BeforeEquals` and `AfterEquals`; the number `[0-9]+\.[0-9]+\.[0-9]+["']` through
      `Number`, whose `part` counts the dots read and `hasDigit` whether the current part
      has a digit yet. */
  datatype State =
    | Keyword(word: string, matched: nat)
    | BeforeEquals
    | AfterEquals
    | Number(part: nat, hasDigit: bool)

  datatype Move = Next(state: State) | Accept | Reject

  function Step(st: State, c: char): Move {
    match st
    case Keyword(w, k) =>
      if k < |w| && c == w[k] then
        (if k + 1 == |w| then Next(BeforeEquals) else Next(Keyword(w, k + 1)))
      else Reject
    case BeforeEquals =>
      if IsSpace(c) then Next(BeforeEquals) else if c == '=' then Next(AfterEquals) else Reject
    case AfterEquals =>
      if IsSpace(c) then Next(AfterEquals) else if IsQuote(c) then Accept else Reject
    case Number(p, d) =>
      if IsDigit(c) then Next(Number(p, true))
      else if c == '.' && d && p < 2 then Next(Number(p + 1, false))
      else if IsQuote(c) && d && p == 2 then Accept
      else Reject
  }

  /** The length of the prefix of `s` on whose last character `st` accepts, if any. */
  function Run(st: State, s: string): (r: Option<nat>)
    ensures r.Some? ==> 0 < r.value <= |s|
    decreases |s|
  {
    if |s| == 0 then None
    else
      match Step(st, s[0])
      case Accept => Some(1)
      case Reject => None
      case Next(st') =>
        match Run(st', s[1..])
        case None => None
        case Some(n) => Some(n + 1)
  }

  /** The state reached after reading all of `s`, none of it accepting or rejecting. */
  function Walk(st: State, s: string): Option<State>
    decreases |s|
  {
    if |s| == 0 then Some(st)
    else
      match Step(st, s[0])
      case Next(st') => Walk(st', s[1..])
      case _ => None
  }

  /** Text that `[0-9]+\.[0-9]+\.[0-9]+` matches in full. */
  predicate IsVersionText(v: string) {
    Walk(Number(0, false), v) == Some(Number(2, true))
  }

  /** A match: `s[..open]` is group 1 (keyword, '=', whitespace, opening quote),
      `s[open..end - 1]` the dotted number, `s[end - 1]` the closing quote (group 2). */
  datatype Span = Span(open: nat, end: nat)

  /** The match of the pattern for keyword `word` that starts at the first character of `s`. */
  function MatchAt(word: string, s: string): (r: Option<Span>)
    ensures r.Some? ==> 0 < r.value.open < r.value.end <= |s|
  {
    match Run(Keyword(word, 0), s)
    case None => None
    case Some(p) =>
      match Run(Number(0, false), s[p..])
      case None => None
      case Some(n) => Some(Span(p, p + n))
  }

  /** The number of a match is version text and the match ends on a quote. */
  lemma MatchShape(word: string, s: string)
    requires MatchAt(word, s).Some?
    ensures var m := MatchAt(word, s).value;
            IsVersionText(s[m.open..m.end - 1]) && IsQuote(s[m.end - 1])
  {
    var m := MatchAt(word, s).value;
    var x := s[m.open..];
    RunNumberShape(0, false, x);
    assert x[..m.end - m.open - 1] == s[m.open..m.end - 1];
  }

  /** Reading a number from `Number(p, d)` up to acceptance: the number part is walked to
      the end of its third part and acceptance happens on a quote. */
  lemma {:induction false} RunNumberShape(p: nat, d: bool, x: string)
    requires Run(Number(p, d), x).Some?
    ensures var n := Run(Number(p, d), x).value;
            IsQuote(x[n - 1]) && Walk(Number(p, d), x[..n - 1]) == Some(Number(2, true))
    decreases |x|
  {
    var n := Run(Number(p, d), x).value;
    match Step(Number(p, d), x[0])
    case Accept =>
      assert x[..0] == "";
    case Next(st') =>
      var x' := x[1..];
      RunNumberShape(st'.part, st'.hasDigit, x');
      assert x[..n - 1][1..] == x'[..n - 2];
  }

  /** No match of the pattern for `word` starts before position `i` of `s`. */
  predicate NoMatchBefore(word: string, s: string, i: nat)
    requires i <= |s|
  {
    forall j :: 0 <= j < i ==> MatchAt(word, s[j..]).None?
  }

  /** Group 1 of the match `m` at the start of `s`: the dotted number. */
  function MatchNumber(s: string, m: Span): string
    requires m.open < m.end <= |s|
  {
    s[m.open..m.end - 1]
  }

  // ---------------------------------------------------------------------------
  // The pattern as text: what the automaton accepts, stated without it.

  /** `\s*=\s*`: one '=' with nothing but whitespace around it. */
  predicate IsAssignment(t: string) {
    exists k :: 0 <= k < |t| && t[k] == '=' && AllSpace(t[..k]) && AllSpace(t[k + 1..])
  }

  /** Group 1 of the pattern for `word`: `word\s*=\s*["']`. */
  predicate IsOpening(word: string, g: string) {
    |g| > |word| && g[..|word|] == word && IsAssignment(g[|word|..|g| - 1]) && IsQuote(g[|g| - 1])
  }

  /** `m` spans a match of the pattern for `word` at the start of `s`: group 1, then
      `[0-9]+\.[0-9]+\.[0-9]+`, then a closing quote. */
  predicate IsMatchOf(word: string, s: string, m: Span) {
    && 0 < m.open < m.end <= |s|
    && IsOpening(word, s[..m.open])
    && IsVersionText(s[m.open..m.end - 1])
    && IsQuote(s[m.end - 1])
  }

  /** The automaton matches exactly the pattern: `MatchAt` finds `m` precisely when `m`
      spans group 1, a version number and a closing quote. */
  lemma MatchAtSpec(word: string, s: string, m: Span)
    requires |word| > 0
    ensures MatchAt(word, s) == Some(m) <==> IsMatchOf(word, s, m)
  {
    if 0 < m.open < m.end <= |s| {
      OpeningRun(word, s, m.open);
      NumberRun(s[m.open..], m.end - m.open);
      assert s[m.open..][..m.end - m.open - 1] == s[m.open..m.end - 1];
      assert s[m.open..][m.end - m.open - 1] == s[m.end - 1];
    }
  }

  /** The keyword part of the automaton accepts on the `p`-th character exactly when
      `s[..p]` is group 1. */
  lemma OpeningRun(word: string, s: string, p: nat)
    requires |word| > 0 && 0 < p <= |s|
    ensures Run(Keyword(word, 0), s) == Some(p) <==> IsOpening(word, s[..p])
  {
    var t := s[..p - 1];
    RunAccepts(Keyword(word, 0), s, p);
    if Walk(Keyword(word, 0), t).Some? {
      NotNumberWalk(Keyword(word, 0), t);
      KeywordAccepts(Walk(Keyword(word, 0), t).value, s[p - 1]);
    }
    KeywordWalk(word, 0, t);
    if |t| >= |word| {
      BeforeEqualsWalk(t[|word|..]);
    }
    OpeningOfSlice(word, s, p);
  }

  /** Outside the number part, the automaton accepts only on the opening quote. */
  lemma KeywordAccepts(st: State, c: char)
    requires !st.Number?
    ensures Step(st, c).Accept? <==> st == AfterEquals && IsQuote(c)
  {
  }

  /** Group 1 as the text before its opening quote and the quote itself. */
  lemma OpeningOfSlice(word: string, s: string, p: nat)
    requires 0 < p <= |s|
    ensures var t := s[..p - 1];
            IsOpening(word, s[..p]) <==>
              |t| >= |word| && t[..|word|] == word && IsAssignment(t[|word|..]) && IsQuote(s[p - 1])
  {
    var t := s[..p - 1];
    assert s[..p][p - 1] == s[p - 1];
    if |t| >= |word| {
      assert s[..p][..|word|] == t[..|word|];
      assert s[..p][|word|..p - 1] == t[|word|..];
    }
  }

  /** The number part of the automaton accepts on the `n`-th character exactly when
      `x[..n - 1]` is version text and `x[n - 1]` a quote. */
  lemma NumberRun(x: string, n: nat)
    requires 0 < n <= |x|
    ensures Run(Number(0, false), x) == Some(n) <==> IsVersionText(x[..n - 1]) && IsQuote(x[n - 1])
  {
    RunAccepts(Number(0, false), x, n);
    if Walk(Number(0, false), x[..n - 1]).Some? {
      NumberWalk(0, false, x[..n - 1]);
    }
  }

  /** `Run` accepts on the `n`-th character exactly when the automaton walks the first
      `n - 1` characters and accepts on the next. */
  lemma {:induction false} RunAccepts(st: State, s: string, n: nat)
    requires 0 < n <= |s|
    ensures Run(st, s) == Some(n) <==>
              Walk(st, s[..n - 1]).Some? && Step(Walk(st, s[..n - 1]).value, s[n - 1]).Accept?
    decreases |s|
  {
    if n == 1 {
      assert s[..0] == "";
    } else {
      assert s[..n - 1][0] == s[0];
      match Step(st, s[0])
      case Next(st') =>
        RunAccepts(st', s[1..], n - 1);
        assert s[..n - 1][1..] == s[1..][..n - 2];
      case _ =>
    }
  }

  /** The keyword part of the automaton never reaches the number part. */
  lemma {:induction false} NotNumberWalk(st: State, t: string)
    requires !st.Number? && Walk(st, t).Some?
    ensures !Walk(st, t).value.Number?
    decreases |t|
  {
    if |t| > 0 {
      NotNumberWalk(Step(st, t[0]).state, t[1..]);
    }
  }

  /** The number part of the automaton stays in the number part. */
  lemma {:induction false} NumberWalk(p: nat, d: bool, t: string)
    requires Walk(Number(p, d), t).Some?
    ensures Walk(Number(p, d), t).value.Number?
    decreases |t|
  {
    if |t| > 0 {
      var st := Step(Number(p, d), t[0]).state;
      NumberWalk(st.part, st.hasDigit, t[1..]);
    }
  }

  /** From the `i`-th keyword character, the automaton reaches the opening quote's state
      exactly when the rest of the keyword follows and then `\s*=\s*`. */
  lemma {:induction false} KeywordWalk(w: string, i: nat, t: string)
    requires i < |w|
    ensures Walk(Keyword(w, i), t) == Some(AfterEquals) <==>
              |t| >= |w| - i && t[..|w| - i] == w[i..] && Walk(BeforeEquals, t[|w| - i..]) == Some(AfterEquals)
    decreases |t|
  {
    if |t| > 0 {
      var k := |w| - i;
      if |t| >= k {
        SplitHead(t, k);
        SplitHead(w[i..], k);
        assert w[i..][1..] == w[i + 1..];
        ConsEq(t[0], t[1..][..k - 1], w[i], w[i + 1..]);
      }
      if t[0] == w[i] && i + 1 < |w| {
        KeywordWalk(w, i + 1, t[1..]);
      }
    }
  }

  /** A non-empty prefix and its rest, seen from the first character. */
  lemma SplitHead(t: string, k: nat)
    requires 0 < k <= |t|
    ensures t[..k] == [t[0]] + t[1..][..k - 1]
    ensures t[k..] == t[1..][k - 1..]
  {
  }

  lemma ConsEq(a: char, x: string, b: char, y: string)
    ensures [a] + x == [b] + y <==> a == b && x == y
  {
    if [a] + x == [b] + y {
      assert ([a] + x)[0] == a && ([b] + y)[0] == b;
      assert ([a] + x)[1..] == x && ([b] + y)[1..] == y;
    }
  }

  /** After the keyword, the automaton reaches the opening quote's state exactly on
      `\s*=\s*`. */
  lemma {:induction false} BeforeEqualsWalk(t: string)
    ensures Walk(BeforeEquals, t) == Some(AfterEquals) <==> IsAssignment(t)
    decreases |t|
  {
    if |t| > 0 {
      forall k | 0 < k <= |t|
        ensures t[..k][0] == t[0]
      {
      }
      if IsSpace(t[0]) {
        BeforeEqualsWalk(t[1..]);
        if IsAssignment(t[1..]) {
          var k :| 0 <= k < |t[1..]| && t[1..][k] == '=' && AllSpace(t[1..][..k]) && AllSpace(t[1..][k + 1..]);
          assert t[..k + 1] == [t[0]] + t[1..][..k];
          assert t[k + 2..] == t[1..][k + 1..];
          assert t[k + 1] == '=' && AllSpace(t[..k + 1]) && AllSpace(t[k + 2..]);
        }
        if IsAssignment(t) {
          var k :| 0 <= k < |t| && t[k] == '=' && AllSpace(t[..k]) && AllSpace(t[k + 1..]);
          assert t[1..][..k - 1] == t[1..k];
          assert t[1..][k..] == t[k + 1..];
          assert t[1..][k - 1] == '=' && AllSpace(t[1..][..k - 1]) && AllSpace(t[1..][k..]);
        }
      } else if t[0] == '=' {
        AfterEqualsWalk(t[1..]);
        assert t[..0] == "";
      } else {
        assert forall k :: 0 <= k < |t| && t[k] == '=' ==> !AllSpace(t[..k]);
      }
    }
  }

  /** After the '=', the automaton stays before the opening quote exactly on whitespace. */
  lemma {:induction false} AfterEqualsWalk(t: string)
    ensures Walk(AfterEquals, t) == Some(AfterEquals) <==> AllSpace(t)
    decreases |t|
  {
    if |t| > 0 && IsSpace(t[0]) {
      AfterEqualsWalk(t[1..]);
      assert forall i :: 0 <= i < |t[1..]| ==> t[1..][i] == t[i + 1];
    }
  }

  /** `re.search(pattern, s).group(1)`: the number of the leftmost match, if any
      (`SearchLeftmost` states which match that is). */
  function Search(word: string, s: string): (r: Option<string>)
    ensures r.Some? ==> IsVersionText(r.value)
    decreases |s|
  {
    if |s| == 0 then None
    else
      match MatchAt(word, s)
      case Some(m) =>
        MatchShape(word, s);
        Some(s[m.open..m.end - 1])
      case None => Search(word, s[1..])
  }

  /** What `re.search` promises: nothing exactly when no position of `s` starts a match,
      and otherwise the number of the match at the leftmost position that does. */
  lemma {:induction false} SearchLeftmost(word: string, s: string)
    ensures Search(word, s).None? <==> NoMatchBefore(word, s, |s|)
    ensures Search(word, s).Some? ==>
              exists i :: 0 <= i < |s| && NoMatchBefore(word, s, i) && MatchAt(word, s[i..]).Some?
                          && Search(word, s).value == MatchNumber(s[i..], MatchAt(word, s[i..]).value)
    decreases |s|
  {
    if |s| > 0 {
      assert s[0..] == s;
      if MatchAt(word, s).None? {
        SearchLeftmost(word, s[1..]);
        ShiftNoMatch(word, s);
        if Search(word, s).Some? {
          var i :| 0 <= i < |s[1..]| && NoMatchBefore(word, s[1..], i) && MatchAt(word, s[1..][i..]).Some?
                   && Search(word, s[1..]).value == MatchNumber(s[1..][i..], MatchAt(word, s[1..][i..]).value);
          assert s[1..][i..] == s[i + 1..];
        }
      }
    }
  }

  /** With no match at its first position, `s` has no match before `i + 1` exactly when
      `s[1..]` has none before `i`. */
  lemma ShiftNoMatch(word: string, s: string)
    requires |s| > 0 && MatchAt(word, s).None?
    ensures forall i :: 0 <= i < |s| ==> (NoMatchBefore(word, s, i + 1) <==> NoMatchBefore(word, s[1..], i))
  {
    assert s[0..] == s;
    forall i | 0 <= i < |s|
      ensures NoMatchBefore(word, s, i + 1) <==> NoMatchBefore(word, s[1..], i)
    {
      if NoMatchBefore(word, s, i + 1) {
        forall j | 0 <= j < i
          ensures MatchAt(word, s[1..][j..]).None?
        {
          assert s[1..][j..] == s[j + 1..];
        }
      }
      if NoMatchBefore(word, s[1..], i) {
        forall j | 0 < j < i + 1
          ensures MatchAt(word, s[j..]).None?
        {
          assert s[j..] == s[1..][j - 1..];
        }
      }
    }
  }

  /** The lookup both scripts perform on a file's text: the first `version = "X.Y.Z"`,
      else the first `__version__ = "X.Y.Z"`. */
  function FindVersion(content: string): (r: Option<string>)
    ensures r.Some? ==> IsVersionText(r.value)
    ensures Search(VersionKeyword, content).Some? ==> r == Search(VersionKeyword, content)
    ensures Search(VersionKeyword, content).None? ==> r == Search(DunderKeyword, content)
  {
    match Search(VersionKeyword, content)
    case Some(v) => Some(v)
    case None => Search(DunderKeyword, content)
  }

  // ---------------------------------------------------------------------------
  // re.sub(r'(version\s*=\s*["\'])[0-9]+\.[0-9]+\.[0-9]+(["\'])', '\g<1>NEW\g<2>', s)

  /** `re.sub` with the rewriting pattern: every match, scanning left to right without
      overlap, has its number replaced by `v`. */
  function Rewrite(s: string, v: string): string
    decreases |s|
  {
    if |s| == 0 then ""
    else
      match MatchAt(VersionKeyword, s)
      case Some(m) => s[..m.open] + v + [s[m.end - 1]] + Rewrite(s[m.end..], v)
      case None => [s[0]] + Rewrite(s[1..], v)
  }

  /** A text as the rewriting pattern sees it: characters outside any match, and matches. */
  datatype Piece = Plain(c: char) | Field(prefix: string, number: string, close: char)

  function Scan(s: string): (ps: seq<Piece>)
    decreases |s|
  {
    if |s| == 0 then []
    else
      match MatchAt(VersionKeyword, s)
      case Some(m) => [Field(s[..m.open], s[m.open..m.end - 1], s[m.end - 1])] + Scan(s[m.end..])
      case None => [Plain(s[0])] + Scan(s[1..])
  }

  function PieceText(p: Piece): string {
    match p
    case Plain(c) => [c]
    case Field(pre, num, q) => pre + num + [q]
  }

  function Render(ps: seq<Piece>): string {
    if |ps| == 0 then "" else PieceText(ps[0]) + Render(ps[1..])
  }

  function SetNumber(p: Piece, v: string): Piece {
    match p
    case Plain(_) => p
    case Field(pre, _, q) => Field(pre, v, q)
  }

  function WithNumber(ps: seq<Piece>, v: string): seq<Piece> {
    if |ps| == 0 then [] else [SetNumber(ps[0], v)] + WithNumber(ps[1..], v)
  }

  /** Every match in `ps` already carries the number `v`. */
  predicate AllNumbersAre(ps: seq<Piece>, v: string) {
    forall i :: 0 <= i < |ps| && ps[i].Field? ==> ps[i].number == v
  }

  function FirstNumber(ps: seq<Piece>): Option<string> {
    if |ps| == 0 then None
    else if ps[0].Field? then Some(ps[0].number)
    else FirstNumber(ps[1..])
  }

  /** Scanning loses nothing: the pieces spell the text back. */
  lemma {:induction false} RenderScan(s: string)
    ensures Render(Scan(s)) == s
    decreases |s|
  {
    if |s| > 0 {
      match MatchAt(VersionKeyword, s)
      case Some(m) =>
        RenderScan(s[m.end..]);
        ScanAtMatch(s, m);
        SplitAtMatch(s, m);
      case None =>
        RenderScan(s[1..]);
        RenderScanPlain(s);
    }
  }

  lemma RenderScanPlain(s: string)
    requires |s| > 0 && MatchAt(VersionKeyword, s).None?
    requires Render(Scan(s[1..])) == s[1..]
    ensures Render(Scan(s)) == s
  {
    var ps := Scan(s);
    assert ps == [Plain(s[0])] + Scan(s[1..]);
    assert ps[1..] == Scan(s[1..]);
    assert s == [s[0]] + s[1..];
  }

  lemma SplitAtMatch(s: string, m: Span)
    requires 0 < m.open < m.end <= |s|
    ensures s == s[..m.open] + s[m.open..m.end - 1] + [s[m.end - 1]] + s[m.end..]
  {
    assert s[..m.end] == s[..m.open] + s[m.open..m.end - 1] + [s[m.end - 1]];
    assert s == s[..m.end] + s[m.end..];
  }

  /** `re.sub` changes only the numbers: it renders the scanned pieces with every number
      replaced by `v`, the group-1 prefix, the closing quote and all text between matches
      as they were. */
  lemma {:induction false} RewriteIsFieldSubstitution(s: string, v: string)
    ensures Rewrite(s, v) == Render(WithNumber(Scan(s), v))
    decreases |s|
  {
    if |s| > 0 {
      var ps := Scan(s);
      match MatchAt(VersionKeyword, s)
      case Some(m) =>
        assert ps[1..] == Scan(s[m.end..]);
        RewriteIsFieldSubstitution(s[m.end..], v);
      case None =>
        assert ps[1..] == Scan(s[1..]);
        RewriteIsFieldSubstitution(s[1..], v);
    }
  }

  /** `re.search` with the first pattern finds the first match the scan sees. */
  lemma {:induction false} SearchIsFirstField(s: string)
    ensures Search(VersionKeyword, s) == FirstNumber(Scan(s))
    decreases |s|
  {
    if |s| > 0 {
      var ps := Scan(s);
      match MatchAt(VersionKeyword, s)
      case Some(m) =>
      case None =>
        assert ps[1..] == Scan(s[1..]);
        SearchIsFirstField(s[1..]);
    }
  }

  // ---------------------------------------------------------------------------
  // Re-scanning a rewritten text

  /** `x` and `y` agree up to and including the first 'v' (or the end of both). */
  predicate SameUntilV(x: string, y: string)
    decreases |x|
  {
    if |x| == 0 then |y| == 0
    else if x[0] == 'v' then |y| > 0 && y[0] == 'v'
    else |y| > 0 && y[0] == x[0] && SameUntilV(x[1..], y[1..])
  }

  /** States past the first character of `version`: none of them can read a 'v'. */
  predicate PastFirstLetter(st: State) {
    match st
    case Keyword(w, k) => w == VersionKeyword && 1 <= k
    case _ => true
  }

  lemma PastFirstLetterRejectsV(st: State)
    requires PastFirstLetter(st)
    ensures Step(st, 'v') == Reject
  {
    if st.Keyword? && st.matched < |VersionKeyword| {
      assert VersionKeyword[1..] == "ersion";
      assert VersionKeyword[st.matched] in VersionKeyword[1..];
    }
  }

  /** A run past the first letter cannot tell apart texts that agree up to their first 'v'. */
  lemma {:induction false} RunStable(st: State, x: string, y: string)
    requires PastFirstLetter(st) && SameUntilV(x, y)
    ensures Run(st, x) == Run(st, y)
    ensures Run(st, x).Some? ==> SameUntilV(x[Run(st, x).value..], y[Run(st, x).value..])
    decreases |x|
  {
    if |x| > 0 {
      if x[0] == 'v' {
        PastFirstLetterRejectsV(st);
      } else {
        match Step(st, x[0])
        case Accept =>
        case Reject =>
        case Next(st') =>
          RunStable(st', x[1..], y[1..]);
          if Run(st, x).Some? {
            var n := Run(st, x).value;
            assert x[n..] == x[1..][n - 1..];
            assert y[n..] == y[1..][n - 1..];
          }
      }
    }
  }

  /** The match that starts at a 'v', computed from the text after that 'v'. */
  function MatchAfterV(x: string): Option<Span> {
    ThenNumber(Run(Keyword(VersionKeyword, 1), x), x)
  }

  lemma MatchAtV(x: string)
    ensures MatchAt(VersionKeyword, ['v'] + x) == MatchAfterV(x)
  {
    var vx := ['v'] + x;
    assert vx[0] == 'v' && vx[1..] == x;
    assert Step(Keyword(VersionKeyword, 0), 'v') == Next(Keyword(VersionKeyword, 1));
    match Run(Keyword(VersionKeyword, 1), x)
    case None =>
    case Some(q) =>
      assert Run(Keyword(VersionKeyword, 0), vx) == Some(q + 1);
      assert vx[q + 1..] == x[q..];
  }

  /** Whether a match starts at a 'v' depends only on what follows, up to the next 'v'. */
  lemma MatchStable(x: string, y: string)
    requires SameUntilV(x, y)
    ensures MatchAt(VersionKeyword, ['v'] + x) == MatchAt(VersionKeyword, ['v'] + y)
  {
    MatchAtV(x);
    MatchAtV(y);
    MatchAfterVStable(x, y);
  }

  lemma MatchAfterVStable(x: string, y: string)
    requires SameUntilV(x, y)
    ensures MatchAfterV(x) == MatchAfterV(y)
  {
    var k := Keyword(VersionKeyword, 1);
    RunThenNumberStable(k, x, y);
  }

  /** The second half of a match: the number run that follows a prefix run of `q` characters. */
  function ThenNumber(prefix: Option<nat>, x: string): Option<Span>
    requires prefix.Some? ==> prefix.value <= |x|
  {
    match prefix
    case None => None
    case Some(q) =>
      match Run(Number(0, false), x[q..])
      case None => None
      case Some(n) => Some(Span(q + 1, q + 1 + n))
  }

  lemma RunThenNumberStable(st: State, x: string, y: string)
    requires PastFirstLetter(st) && SameUntilV(x, y)
    ensures ThenNumber(Run(st, x), x) == ThenNumber(Run(st, y), y)
  {
    RunStable(st, x, y);
    if Run(st, x).Some? {
      var q := Run(st, x).value;
      RunStable(Number(0, false), x[q..], y[q..]);
    }
  }

  /** Rewriting never touches the text before the first 'v', nor removes that 'v'. */
  lemma {:induction false} RewriteSameUntilV(x: string, v: string)
    ensures SameUntilV(x, Rewrite(x, v))
    decreases |x|
  {
    if |x| > 0 {
      if x[0] != 'v' {
        assert MatchAt(VersionKeyword, x).None?;
        RewriteSameUntilV(x[1..], v);
        assert Rewrite(x, v)[1..] == Rewrite(x[1..], v);
      }
    }
  }

  /** Reading all of `x` without deciding, then carrying on with `y`. */
  lemma {:induction false} WalkThenRun(st: State, x: string, y: string)
    requires Walk(st, x).Some?
    ensures Run(st, x + y) == (match Run(Walk(st, x).value, y)
                               case None => None
                               case Some(n) => Some(n + |x|))
    decreases |x|
  {
    if |x| > 0 {
      assert (x + y)[0] == x[0] && (x + y)[1..] == x[1..] + y;
      WalkThenRun(Step(st, x[0]).state, x[1..], y);
    } else {
      assert x + y == y;
    }
  }

  /** A run that accepted after `n` characters ignores whatever follows them. */
  lemma {:induction false} RunPrefix(st: State, x: string, y: string)
    requires Run(st, x).Some?
    ensures Run(st, x[..Run(st, x).value] + y) == Run(st, x)
    decreases |x|
  {
    var n := Run(st, x).value;
    var z := x[..n] + y;
    assert z[0] == x[0];
    match Step(st, x[0])
    case Accept =>
    case Next(st') =>
      RunPrefix(st', x[1..], y);
      assert z[1..] == x[1..][..n - 1] + y;
  }

  /** Replacing the number of a match by version text leaves a match with the same group-1
      prefix and closing quote, whatever follows it. */
  lemma MatchAfterReplace(s: string, v: string, t: string)
    requires MatchAt(VersionKeyword, s).Some? && IsVersionText(v)
    ensures var m := MatchAt(VersionKeyword, s).value;
            MatchAt(VersionKeyword, s[..m.open] + v + [s[m.end - 1]] + t)
            == Some(Span(m.open, m.open + |v| + 1))
  {
    var m := MatchAt(VersionKeyword, s).value;
    MatchShape(VersionKeyword, s);
    var q := s[m.end - 1];
    var u := s[..m.open] + v + [q] + t;
    assert u == s[..m.open] + (v + [q] + t);
    RunPrefix(Keyword(VersionKeyword, 0), s, v + [q] + t);
    assert Run(Keyword(VersionKeyword, 0), u) == Some(m.open);
    assert u[m.open..] == v + ([q] + t);
    WalkThenRun(Number(0, false), v, [q] + t);
    assert ([q] + t)[0] == q;
    assert Run(Number(2, true), [q] + t) == Some(1);
  }

  /** The scan of a rewritten text sees the same pieces with the new number, provided the
      new number is itself version text. */
  lemma {:induction false} ScanRewrite(s: string, v: string)
    requires IsVersionText(v)
    ensures Scan(Rewrite(s, v)) == WithNumber(Scan(s), v)
    decreases |s|
  {
    if |s| > 0 {
      match MatchAt(VersionKeyword, s)
      case Some(m) =>
        ScanRewrite(s[m.end..], v);
        ScanRewriteAtMatch(s, v);
      case None =>
        ScanRewrite(s[1..], v);
        ScanRewriteAtPlain(s, v);
    }
  }

  lemma ScanAtMatch(u: string, m: Span)
    requires MatchAt(VersionKeyword, u) == Some(m)
    ensures Scan(u) == [Field(u[..m.open], u[m.open..m.end - 1], u[m.end - 1])] + Scan(u[m.end..])
  {
  }

  lemma ScanRewriteAtMatch(s: string, v: string)
    requires IsVersionText(v) && MatchAt(VersionKeyword, s).Some?
    requires var m := MatchAt(VersionKeyword, s).value;
             Scan(Rewrite(s[m.end..], v)) == WithNumber(Scan(s[m.end..]), v)
    ensures Scan(Rewrite(s, v)) == WithNumber(Scan(s), v)
  {
    var m := MatchAt(VersionKeyword, s).value;
    var q := s[m.end - 1];
    var t := Rewrite(s[m.end..], v);
    RewriteAtMatch(s, v);
    ScanOfReplaced(s, v, t);
    WithNumberAtMatch(s, v);
  }

  lemma RewriteAtMatch(s: string, v: string)
    requires MatchAt(VersionKeyword, s).Some?
    ensures var m := MatchAt(VersionKeyword, s).value;
            Rewrite(s, v) == s[..m.open] + v + [s[m.end - 1]] + Rewrite(s[m.end..], v)
  {
  }

  lemma ScanOfReplaced(s: string, v: string, t: string)
    requires IsVersionText(v) && MatchAt(VersionKeyword, s).Some?
    ensures var m := MatchAt(VersionKeyword, s).value;
            Scan(s[..m.open] + v + [s[m.end - 1]] + t) == [Field(s[..m.open], v, s[m.end - 1])] + Scan(t)
  {
    var m := MatchAt(VersionKeyword, s).value;
    MatchAfterReplace(s, v, t);
    ScanSplit(s[..m.open] + v + [s[m.end - 1]] + t, s[..m.open], v, s[m.end - 1], t);
  }

  lemma ScanSplit(u: string, pre: string, num: string, q: char, rest: string)
    requires u == pre + num + [q] + rest
    requires MatchAt(VersionKeyword, u) == Some(Span(|pre|, |pre| + |num| + 1))
    ensures Scan(u) == [Field(pre, num, q)] + Scan(rest)
  {
    var e := |pre| + |num| + 1;
    ScanAtMatch(u, Span(|pre|, e));
    assert u[..|pre|] == pre;
    assert u[|pre|..e - 1] == num;
    assert u[e - 1] == q;
    assert u[e..] == rest;
  }

  lemma WithNumberAtMatch(s: string, v: string)
    requires MatchAt(VersionKeyword, s).Some?
    ensures var m := MatchAt(VersionKeyword, s).value;
            WithNumber(Scan(s), v) == [Field(s[..m.open], v, s[m.end - 1])] + WithNumber(Scan(s[m.end..]), v)
  {
    var m := MatchAt(VersionKeyword, s).value;
    ScanAtMatch(s, m);
    var ps := Scan(s);
    assert ps[1..] == Scan(s[m.end..]);
  }

  lemma ScanRewriteAtPlain(s: string, v: string)
    requires IsVersionText(v) && |s| > 0 && MatchAt(VersionKeyword, s).None?
    requires Scan(Rewrite(s[1..], v)) == WithNumber(Scan(s[1..]), v)
    ensures Scan(Rewrite(s, v)) == WithNumber(Scan(s), v)
  {
    var t := Rewrite(s[1..], v);
    var u := [s[0]] + t;
    assert Rewrite(s, v) == u;
    assert u[0] == s[0] && u[1..] == t;
    if s[0] == 'v' {
      RewriteSameUntilV(s[1..], v);
      assert s == ['v'] + s[1..];
      MatchStable(s[1..], t);
    }
    assert MatchAt(VersionKeyword, u).None?;
    assert Scan(u) == [Plain(s[0])] + Scan(t);
    var ps := Scan(s);
    assert ps[1..] == Scan(s[1..]);
  }

  lemma {:induction false} WithNumberTwice(ps: seq<Piece>, v: string)
    ensures WithNumber(WithNumber(ps, v), v) == WithNumber(ps, v)
  {
    if |ps| > 0 {
      WithNumberTwice(ps[1..], v);
    }
  }

  lemma {:induction false} WithNumberKeeps(ps: seq<Piece>, v: string)
    ensures WithNumber(ps, v) == ps <==> AllNumbersAre(ps, v)
  {
    if |ps| > 0 {
      WithNumberKeeps(ps[1..], v);
      assert forall i :: 1 <= i < |ps| ==> ps[i] == ps[1..][i - 1];
      if WithNumber(ps, v) == ps {
        assert WithNumber(ps, v)[1..] == WithNumber(ps[1..], v);
      }
    }
  }

  lemma {:induction false} FirstNumberWith(ps: seq<Piece>, v: string)
    ensures FirstNumber(WithNumber(ps, v)) == (if FirstNumber(ps).Some? then Some(v) else None)
    ensures FirstNumber(ps).None? ==> AllNumbersAre(ps, v)
  {
    if |ps| > 0 {
      FirstNumberWith(ps[1..], v);
      assert forall i :: 1 <= i < |ps| ==> ps[i] == ps[1..][i - 1];
    }
  }

  /** Rewriting twice with the same version is rewriting once. */
  lemma RewriteIdempotent(s: string, v: string)
    requires IsVersionText(v)
    ensures Rewrite(Rewrite(s, v), v) == Rewrite(s, v)
  {
    RewriteIsFieldSubstitution(s, v);
    RewriteIsFieldSubstitution(Rewrite(s, v), v);
    ScanRewrite(s, v);
    WithNumberTwice(Scan(s), v);
  }

  /** A rewrite changes the text exactly when some match carries a number other than `v`. */
  lemma RewriteChangesIff(s: string, v: string)
    requires IsVersionText(v)
    ensures Rewrite(s, v) == s <==> AllNumbersAre(Scan(s), v)
    ensures Rewrite(s, v) == s <==> EveryMatchIs(s, v)
  {
    EveryMatchIff(s, v);
    RewriteIsFieldSubstitution(s, v);
    RenderScan(s);
    WithNumberKeeps(Scan(s), v);
    ScanRewrite(s, v);
  }

  /** After a rewrite the first pattern finds the new version wherever it found one before,
      and the text is untouched where it found none. */
  lemma SearchAfterRewrite(s: string, v: string)
    requires IsVersionText(v)
    ensures Search(VersionKeyword, Rewrite(s, v))
            == (if Search(VersionKeyword, s).Some? then Some(v) else None)
    ensures Search(VersionKeyword, s).None? ==> Rewrite(s, v) == s
  {
    SearchIsFirstField(s);
    SearchIsFirstField(Rewrite(s, v));
    ScanRewrite(s, v);
    FirstNumberWith(Scan(s), v);
    RewriteChangesIff(s, v);
  }

  /** The lookup both scripts perform reads back the new version after a rewrite, unless
      the text had no `version = ...` match, in which case nothing changed. */
  lemma FindVersionAfterRewrite(s: string, v: string)
    requires IsVersionText(v)
    ensures FindVersion(Rewrite(s, v))
            == (if Search(VersionKeyword, s).Some? then Some(v) else FindVersion(s))
  {
    SearchAfterRewrite(s, v);
  }

  // ---------------------------------------------------------------------------
  // Every match, at every position

  /** The number of the match of the first pattern that starts at position `i` of `s`,
      or `None` where no match starts. */
  function MatchNumberAt(s: string, i: nat): Option<string>
    requires i <= |s|
  {
    match MatchAt(VersionKeyword, s[i..])
    case None => None
    case Some(m) => Some(MatchNumber(s[i..], m))
  }

  /** Wherever in `s` the first pattern matches, the match's number is `v`. */
  predicate EveryMatchIs(s: string, v: string) {
    forall i :: 0 <= i < |s| && MatchNumberAt(s, i).Some? ==> MatchNumberAt(s, i).value == v
  }

  /** The number of the field of `ps` that starts at offset `i` of `Render(ps)`, if one does. */
  function FieldNumberAt(ps: seq<Piece>, i: nat): Option<string> {
    if |ps| == 0 then None
    else if i == 0 then (if ps[0].Field? then Some(ps[0].number) else None)
    else if i < |PieceText(ps[0])| then None
    else FieldNumberAt(ps[1..], i - |PieceText(ps[0])|)
  }

  /** A match starts with the keyword's first letter. */
  lemma MatchStartsWithV(s: string)
    requires MatchAt(VersionKeyword, s).Some?
    ensures s[0] == 'v'
  {
    assert Step(Keyword(VersionKeyword, 0), s[0]).Next?;
  }

  /** A run from a state past the first letter reads no 'v' before it accepts. */
  lemma {:induction false} RunHasNoV(st: State, x: string, j: nat)
    requires PastFirstLetter(st) && Run(st, x).Some? && j < Run(st, x).value
    ensures x[j] != 'v'
    decreases |x|
  {
    PastFirstLetterRejectsV(st);
    if j > 0 {
      var st' := Step(st, x[0]).state;
      assert PastFirstLetter(st');
      RunHasNoV(st', x[1..], j - 1);
    }
  }

  /** Past its first letter, a match holds no 'v'. */
  lemma NoVInMatch(s: string, m: Span, j: nat)
    requires MatchAt(VersionKeyword, s) == Some(m) && 0 < j < m.end
    ensures s[j] != 'v'
  {
    MatchStartsWithV(s);
    assert Step(Keyword(VersionKeyword, 0), s[0]) == Next(Keyword(VersionKeyword, 1));
    if j < m.open {
      RunHasNoV(Keyword(VersionKeyword, 1), s[1..], j - 1);
    } else {
      RunHasNoV(Number(0, false), s[m.open..], j - m.open);
    }
  }

  /** Matches never overlap: no match starts inside another. */
  lemma NoMatchInside(s: string, m: Span, i: nat)
    requires MatchAt(VersionKeyword, s) == Some(m) && 0 < i < m.end
    ensures MatchAt(VersionKeyword, s[i..]).None?
  {
    NoVInMatch(s, m, i);
    if MatchAt(VersionKeyword, s[i..]).Some? {
      MatchStartsWithV(s[i..]);
    }
  }

  /** The scan finds every match of the first pattern and nothing else: a field starts at
      position `i` exactly when a match starts there, and it carries that match's number. */
  lemma {:induction false} ScanFieldsAreMatches(s: string, i: nat)
    requires i < |s|
    ensures FieldNumberAt(Scan(s), i) == MatchNumberAt(s, i)
    decreases |s|
  {
    var ps := Scan(s);
    if i == 0 {
      assert s[0..] == s;
    } else {
      match MatchAt(VersionKeyword, s)
      case Some(m) =>
        ScanAtMatch(s, m);
        assert |PieceText(ps[0])| == m.end;
        if i < m.end {
          NoMatchInside(s, m, i);
        } else {
          assert ps[1..] == Scan(s[m.end..]);
          ScanFieldsAreMatches(s[m.end..], i - m.end);
          assert s[m.end..][i - m.end..] == s[i..];
        }
      case None =>
        assert ps[1..] == Scan(s[1..]);
        ScanFieldsAreMatches(s[1..], i - 1);
        assert s[1..][i - 1..] == s[i..];
    }
  }

  lemma {:induction false} FieldNumberAtAll(ps: seq<Piece>, i: nat, v: string)
    requires AllNumbersAre(ps, v) && FieldNumberAt(ps, i).Some?
    ensures FieldNumberAt(ps, i).value == v
  {
    if i > 0 && i >= |PieceText(ps[0])| {
      assert forall k :: 1 <= k < |ps| ==> ps[1..][k - 1] == ps[k];
      FieldNumberAtAll(ps[1..], i - |PieceText(ps[0])|, v);
    }
  }

  lemma {:induction false} EveryMatchScan(s: string, v: string)
    requires EveryMatchIs(s, v)
    ensures AllNumbersAre(Scan(s), v)
    decreases |s|
  {
    if |s| > 0 {
      var ps := Scan(s);
      assert s[0..] == s;
      var n := match MatchAt(VersionKeyword, s) case Some(m) => m.end case None => 1;
      if ps[0].Field? {
        assert MatchNumberAt(s, 0) == Some(ps[0].number);
      }
      assert ps[1..] == Scan(s[n..]);
      EveryMatchShift(s, n, v);
      EveryMatchScan(s[n..], v);
      assert forall k :: 1 <= k < |ps| ==> ps[k] == ps[1..][k - 1];
    }
  }

  lemma EveryMatchShift(s: string, n: nat, v: string)
    requires n <= |s| && EveryMatchIs(s, v)
    ensures EveryMatchIs(s[n..], v)
  {
    forall j | 0 <= j < |s[n..]| && MatchNumberAt(s[n..], j).Some?
      ensures MatchNumberAt(s[n..], j).value == v
    {
      assert s[n..][j..] == s[n + j..];
      assert MatchNumberAt(s[n..], j) == MatchNumberAt(s, n + j);
    }
  }

  /** The scan's numbers are all `v` exactly when every match of the first pattern, at any
      position of `s`, carries `v`. */
  lemma EveryMatchIff(s: string, v: string)
    ensures AllNumbersAre(Scan(s), v) <==> EveryMatchIs(s, v)
  {
    if AllNumbersAre(Scan(s), v) {
      forall i | 0 <= i < |s| && MatchNumberAt(s, i).Some?
        ensures MatchNumberAt(s, i).value == v
      {
        ScanFieldsAreMatches(s, i);
        FieldNumberAtAll(Scan(s), i, v);
      }
    }
    if EveryMatchIs(s, v) {
      EveryMatchScan(s, v);
    }
  }

  /** `re.sub` leaves no match behind: wherever the first pattern matches the rewritten
      text, the match carries the new version. */
  lemma NoStaleMatch(s: string, v: string)
    requires IsVersionText(v)
    ensures EveryMatchIs(Rewrite(s, v), v)
  {
    ScanRewrite(s, v);
    WithNumberTwice(Scan(s), v);
    WithNumberKeeps(WithNumber(Scan(s), v), v);
    EveryMatchIff(Rewrite(s, v), v);
  }
}
