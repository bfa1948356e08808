/**
 The string operations the scripts rely on: whitespace, `str.strip`, iteration of a text
 file line by line, `str.split` on one separator, the `in` substring test and ASCII
 `str.lower`.
 */
module Text {

  /** The ASCII characters Python's `str.strip()` and the regex `\s` treat as whitespace:
      space, tab, line feed, vertical tab, form feed, carriage return, and the four
      separators U+001C to U+001F. */
  predicate IsSpace(c: char) {
    c == ' ' || c == '\t' || c == '\n' || c == '\r' || c == '\U{0B}' || c == '\U{0C}'
    || '\U{1C}' <= c <= '\U{1F}'
  }

  predicate IsDigit(c: char) {
    '0' <= c <= '9'
  }

  predicate AllDigits(s: string) {
    forall i :: 0 <= i < |s| ==> IsDigit(s[i])
  }

  /** A non-empty run of ASCII digits: what `[0-9]+` matches. */
  predicate IsNumeral(s: string) {
    |s| > 0 && AllDigits(s)
  }

  predicate AllSpace(s: string) {
    forall i :: 0 <= i < |s| ==> IsSpace(s[i])
  }

  // ---------------------------------------------------------------------------
  // str.strip

  /** How many whitespace characters open `s`. */
  function LeadingSpace(s: string): (n: nat)
    ensures n <= |s|
    ensures forall k :: 0 <= k < n ==> IsSpace(s[k])
    ensures n < |s| ==> !IsSpace(s[n])
  {
    if |s| > 0 && IsSpace(s[0]) then 1 + LeadingSpace(s[1..]) else 0
  }

  /** How many whitespace characters close `s`. */
  function TrailingSpace(s: string): (n: nat)
    ensures n <= |s|
    ensures forall k :: |s| - n <= k < |s| ==> IsSpace(s[k])
    ensures n < |s| ==> !IsSpace(s[|s| - n - 1])
  {
    if |s| > 0 && IsSpace(s[|s| - 1]) then 1 + TrailingSpace(s[..|s| - 1]) else 0
  }

  /** `s.strip()`: the slice of `s` left once whitespace is removed from both ends. */
  function Strip(s: string): (r: string)
    ensures LeadingSpace(s) + |r| <= |s|
    ensures r == s[LeadingSpace(s)..LeadingSpace(s) + |r|]
    ensures forall k :: 0 <= k < LeadingSpace(s) ==> IsSpace(s[k])
    ensures forall k :: LeadingSpace(s) + |r| <= k < |s| ==> IsSpace(s[k])
    ensures |r| > 0 ==> !IsSpace(r[0]) && !IsSpace(r[|r| - 1])
    ensures |r| == 0 <==> AllSpace(s)
  {
    var i := LeadingSpace(s);
    var j := |s| - TrailingSpace(s[i..]);
    assert forall k :: j <= k < |s| ==> s[k] == s[i..][k - i];
    s[i..j]
  }

  // ---------------------------------------------------------------------------
  // Iterating over a text file: each line keeps its terminating '\n'.

  predicate StartsWith(s: string, prefix: string) {
    |prefix| <= |s| && s[..|prefix|] == prefix
  }

  function Concat(lines: seq<string>): string {
    if |lines| == 0 then "" else lines[0] + Concat(lines[1..])
  }

  /** A well-formed line of a file: non-empty, with '\n' at most as its last character. */
  predicate IsLine(l: string) {
    |l| > 0 && forall i :: 0 <= i < |l| - 1 ==> l[i] != '\n'
  }

  /** The position of the first `c` in `s`, or `|s|` when there is none. */
  function IndexOf(s: string, c: char): (i: nat)
    ensures i <= |s|
  {
    IndexOfFrom(s, c, 0)
  }

  /** The position of the first `c` in `s` at or after `j`, or `|s|`. */
  function IndexOfFrom(s: string, c: char, j: nat): (i: nat)
    requires j <= |s|
    ensures j <= i <= |s|
    decreases |s| - j
  {
    if j == |s| || s[j] == c then j else IndexOfFrom(s, c, j + 1)
  }

  /** No `c` occurs before `IndexOf(s, c)`, and one occurs there unless it is `|s|`. */
  lemma IndexOfSpec(s: string, c: char)
    ensures forall k :: 0 <= k < IndexOf(s, c) ==> s[k] != c
    ensures IndexOf(s, c) < |s| ==> s[IndexOf(s, c)] == c
  {
    IndexOfFromSpec(s, c, 0);
  }

  lemma {:induction false} IndexOfFromSpec(s: string, c: char, j: nat)
    requires j <= |s|
    ensures forall k :: j <= k < IndexOfFrom(s, c, j) ==> s[k] != c
    ensures IndexOfFrom(s, c, j) < |s| ==> s[IndexOfFrom(s, c, j)] == c
    decreases |s| - j
  {
    if j < |s| && s[j] != c {
      IndexOfFromSpec(s, c, j + 1);
    }
  }

  /** The lines `for line in file` yields for the content `s`. */
  function Lines(s: string): seq<string>
    decreases |s|
  {
    if |s| == 0 then []
    else
      var i := IndexOf(s, '\n');
      if i < |s| then [s[..i + 1]] + Lines(s[i + 1..]) else [s]
  }

  /** The lines spell the content back; each is a line of the file, and all but the last
      end in '\n'. */
  lemma LinesSpec(s: string)
    ensures Concat(Lines(s)) == s
    ensures forall k :: 0 <= k < |Lines(s)| ==> IsLine(Lines(s)[k])
    ensures forall k :: 0 <= k < |Lines(s)| - 1 ==> |Lines(s)[k]| > 0 && Lines(s)[k][|Lines(s)[k]| - 1] == '\n'
    ensures |s| == 0 <==> |Lines(s)| == 0
  {
    LinesConcat(s);
    LinesWellFormed(s);
    LinesTerminated(s);
  }

  /** How `Lines` takes the first line off a non-empty text. */
  lemma LinesHead(s: string)
    requires |s| > 0
    ensures var i := IndexOf(s, '\n');
            && (i < |s| ==> Lines(s) == [s[..i + 1]] + Lines(s[i + 1..]))
            && (i == |s| ==> Lines(s) == [s])
  {
  }

  /** What `Lines` takes off first is a line. */
  lemma HeadIsLine(s: string)
    requires |s| > 0
    ensures var i := IndexOf(s, '\n');
            IsLine(if i < |s| then s[..i + 1] else s)
  {
    IndexOfSpec(s, '\n');
  }

  lemma {:induction false} LinesConcat(s: string)
    ensures Concat(Lines(s)) == s
    decreases |s|
  {
    if |s| > 0 {
      LinesHead(s);
      var i := IndexOf(s, '\n');
      if i < |s| {
        var x, rest := s[..i + 1], s[i + 1..];
        assert s == x + rest;
        LinesConcat(rest);
        var r := [x] + Lines(rest);
        assert r[0] == x && r[1..] == Lines(rest);
      }
    }
  }

  lemma {:induction false} LinesWellFormed(s: string)
    ensures forall k :: 0 <= k < |Lines(s)| ==> IsLine(Lines(s)[k])
    decreases |s|
  {
    if |s| > 0 {
      LinesHead(s);
      HeadIsLine(s);
      var i := IndexOf(s, '\n');
      if i < |s| {
        var rest := s[i + 1..];
        LinesWellFormed(rest);
        LinesTail(s[..i + 1], Lines(rest));
      }
    }
  }

  lemma {:induction false} LinesTerminated(s: string)
    ensures forall k :: 0 <= k < |Lines(s)| - 1 ==> |Lines(s)[k]| > 0 && Lines(s)[k][|Lines(s)[k]| - 1] == '\n'
    decreases |s|
  {
    if |s| > 0 {
      LinesHead(s);
      var i := IndexOf(s, '\n');
      if i < |s| {
        var rest := s[i + 1..];
        IndexOfSpec(s, '\n');
        assert s[..i + 1][i] == '\n';
        LinesTerminated(rest);
        LinesTail(s[..i + 1], Lines(rest));
      }
    }
  }

  /** The elements after the head of `[x] + rest` are those of `rest`. */
  lemma LinesTail(x: string, rest: seq<string>)
    ensures forall k :: 1 <= k < |[x] + rest| ==> ([x] + rest)[k] == rest[k - 1]
  {
  }

  lemma {:induction false} ConcatAppend(a: seq<string>, b: seq<string>)
    ensures Concat(a + b) == Concat(a) + Concat(b)
  {
    if |a| == 0 {
      assert a + b == b;
    } else {
      assert (a + b)[1..] == a[1..] + b;
      ConcatAppend(a[1..], b);
    }
  }

  /** A text that is empty or ends in '\n' contributes its own lines, unchanged, in front
      of the lines of whatever follows it. */
  lemma {:induction false} LinesAppend(a: string, b: string)
    requires |a| == 0 || a[|a| - 1] == '\n'
    ensures Lines(a + b) == Lines(a) + Lines(b)
    decreases |a|
  {
    if |a| == 0 {
      assert a + b == b;
    } else {
      FirstLine(a);
      var i := IndexOf(a, '\n');
      var x, y := a[..i + 1], a[i + 1..];
      assert a + b == x + (y + b);
      LinesCons(x, y);
      LinesCons(x, y + b);
      LinesAppend(y, b);
      calc {
        Lines(a + b);
        Lines(x + (y + b));
        [x] + Lines(y + b);
        [x] + (Lines(y) + Lines(b));
        ([x] + Lines(y)) + Lines(b);
        Lines(x + y) + Lines(b);
      }
    }
  }

  /** A text ending in '\n' splits after its first '\n' into a first line and a rest that
      is empty or again ends in '\n'. */
  lemma FirstLine(a: string)
    requires |a| > 0 && a[|a| - 1] == '\n'
    ensures IndexOf(a, '\n') < |a|
    ensures var i := IndexOf(a, '\n');
            && a == a[..i + 1] + a[i + 1..]
            && IndexOf(a[..i + 1], '\n') == i
            && (|a[i + 1..]| == 0 || a[i + 1..][|a[i + 1..]| - 1] == '\n')
  {
    var i := IndexOf(a, '\n');
    IndexOfSpec(a, '\n');
    var x := a[..i + 1];
    assert forall k :: 0 <= k < |x| ==> x[k] == a[k];
    IndexOfUnique(x, '\n', i);
  }

  /** A line ending in '\n' is the first line of whatever it starts. */
  lemma LinesCons(x: string, z: string)
    requires |x| > 0 && IndexOf(x, '\n') == |x| - 1
    ensures Lines(x + z) == [x] + Lines(z)
  {
    IndexOfAppend(x, z, '\n');
    assert (x + z)[..|x|] == x;
    assert (x + z)[|x|..] == z;
  }

  /** The first position of `c` is the one its description singles out. */
  lemma IndexOfUnique(s: string, c: char, i: nat)
    requires i <= |s| && (forall k :: 0 <= k < i ==> s[k] != c) && (i < |s| ==> s[i] == c)
    ensures IndexOf(s, c) == i
  {
    IndexOfSpec(s, c);
  }

  lemma IndexOfAppend(a: string, b: string, c: char)
    requires IndexOf(a, c) < |a|
    ensures IndexOf(a + b, c) == IndexOf(a, c)
  {
    var i := IndexOf(a, c);
    IndexOfSpec(a, c);
    assert forall k :: 0 <= k < i ==> (a + b)[k] == a[k];
    IndexOfUnique(a + b, c, i);
  }

  // ---------------------------------------------------------------------------
  // str.split with a one-character separator

  function Join(parts: seq<string>, sep: char): string
    requires |parts| > 0
  {
    if |parts| == 1 then parts[0] else parts[0] + [sep] + Join(parts[1..], sep)
  }

  /** `s.split(sep)`: the maximal separator-free pieces, including empty ones. */
  function Split(s: string, sep: char): (r: seq<string>)
    ensures |r| > 0
    ensures forall k :: 0 <= k < |r| ==> sep !in r[k]
    ensures Join(r, sep) == s
  {
    if |s| == 0 then [""]
    else
      var rest := Split(s[1..], sep);
      if s[0] == sep then [""] + rest
      else
        assert [s[0]] + Join(rest, sep) == s;
        [[s[0]] + rest[0]] + rest[1..]
  }

  /** Splitting distributes over a separator that follows a separator-free piece. */
  lemma {:induction false} SplitAfterPiece(a: string, sep: char, b: string)
    requires sep !in a
    ensures Split(a + [sep] + b, sep) == [a] + Split(b, sep)
  {
    if |a| == 0 {
      assert a + [sep] + b == [sep] + b;
      assert ([sep] + b)[1..] == b;
    } else {
      assert (a + [sep] + b)[1..] == a[1..] + [sep] + b;
      SplitAfterPiece(a[1..], sep, b);
      assert [a[0]] + a[1..] == a;
    }
  }

  /** A separator-free text is a single piece. */
  lemma {:induction false} SplitWhole(a: string, sep: char)
    requires sep !in a
    ensures Split(a, sep) == [a]
  {
    if |a| > 0 {
      SplitWhole(a[1..], sep);
      assert [a[0]] + a[1..] == a;
    }
  }

  // ---------------------------------------------------------------------------
  // `sub in s` and ASCII `str.lower`

  predicate OccursAt(s: string, sub: string, i: nat) {
    i + |sub| <= |s| && s[i..i + |sub|] == sub
  }

  /** `sub in s`, computed by trying each start position from the left. */
  function Contains(s: string, sub: string): (r: bool)
    ensures r <==> exists i: nat :: OccursAt(s, sub, i)
    decreases |s|
  {
    if StartsWith(s, sub) then
      assert OccursAt(s, sub, 0);
      true
    else if |s| == 0 then
      assert forall i: nat :: !OccursAt(s, sub, i);
      false
    else
      var r := Contains(s[1..], sub);
      assert forall i: nat :: OccursAt(s[1..], sub, i) <==> OccursAt(s, sub, i + 1);
      assert r ==> exists i: nat :: OccursAt(s, sub, i);
      assert (exists i: nat :: OccursAt(s, sub, i)) ==> r by {
        if exists i: nat :: OccursAt(s, sub, i) {
          var i: nat :| OccursAt(s, sub, i);
          assert i != 0;
          assert OccursAt(s[1..], sub, i - 1);
        }
      }
      r
  }

  function LowerChar(c: char): (r: char)
    ensures 'A' <= c <= 'Z' ==> 'a' <= r <= 'z'
    ensures !('A' <= c <= 'Z') ==> r == c
  {
    if 'A' <= c <= 'Z' then (c as int - 'A' as int + 'a' as int) as char else c
  }

  /** `s.lower()` restricted to ASCII letters: every character is lowered in place. */
  function Lower(s: string): (r: string)
    ensures |r| == |s|
    ensures forall i :: 0 <= i < |s| ==> r[i] == LowerChar(s[i])
  {
    if |s| == 0 then "" else [LowerChar(s[0])] + Lower(s[1..])
  }
}
