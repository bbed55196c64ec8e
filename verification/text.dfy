/** The string operations of Rust's standard library that the task store
    relies on, over `string` (a sequence of Unicode scalar values). */
module Text {
  import opened Results

  /** Rust's `char::is_whitespace`: the Unicode White_Space property. */
  predicate IsWhitespace(c: char) {
    var n := c as int;
    || (0x09 <= n <= 0x0D)
    || n == 0x20 || n == 0x85 || n == 0xA0 || n == 0x1680
    || (0x2000 <= n <= 0x200A)
    || n == 0x2028 || n == 0x2029 || n == 0x202F || n == 0x205F || n == 0x3000
  }

  /** `s.trim().is_empty()`: trimming removes whitespace from both ends, so
      nothing is left exactly when every character is whitespace. */
  predicate IsBlank(s: string) {
    forall i :: 0 <= i < |s| ==> IsWhitespace(s[i])
  }

  /** `pat` occurs in `s` starting at index `i`. */
  predicate OccursAt(s: string, pat: string, i: nat) {
    i + |pat| <= |s| && s[i..i + |pat|] == pat
  }

  ghost predicate Contains(s: string, pat: string) {
    exists i: nat :: OccursAt(s, pat, i)
  }

  lemma OccursShift(s: string, pat: string, j: nat)
    requires |s| > 0
    ensures OccursAt(s, pat, j + 1) <==> OccursAt(s[1..], pat, j)
  {
  }

  /** The leftmost occurrence of `pat` in `s`, the one `str::split` cuts at. */
  function FindFirst(s: string, pat: string): (r: Option<nat>)
    ensures r.Some? ==> OccursAt(s, pat, r.value)
    ensures r.Some? ==> forall j: nat :: j < r.value ==> !OccursAt(s, pat, j)
    ensures r.None? <==> !Contains(s, pat)
    decreases |s|
  {
    if |s| < |pat| then
      None
    else if s[..|pat|] == pat then
      Some(0)
    else
      var tail := FindFirst(s[1..], pat);
      assert forall j: nat :: OccursAt(s, pat, j + 1) <==> OccursAt(s[1..], pat, j) by {
        forall j: nat ensures OccursAt(s, pat, j + 1) <==> OccursAt(s[1..], pat, j) {
          OccursShift(s, pat, j);
        }
      }
      match tail
      case None =>
        assert forall j: nat :: !OccursAt(s, pat, j) by {
          forall j: nat ensures !OccursAt(s, pat, j) {
            if j > 0 {
              assert !OccursAt(s[1..], pat, j - 1);
            }
          }
        }
        None
      case Some(j) =>
        assert forall k: nat :: k < j + 1 ==> !OccursAt(s, pat, k) by {
          forall k: nat | k < j + 1 ensures !OccursAt(s, pat, k) {
            if k > 0 {
              assert !OccursAt(s[1..], pat, k - 1);
            }
          }
        }
        Some(j + 1)
  }

  /** The text before the leftmost occurrence does not contain the pattern. */
  lemma PrefixBeforeFirst(s: string, pat: string, i: nat)
    requires |pat| > 0
    requires OccursAt(s, pat, i)
    requires forall j: nat :: j < i ==> !OccursAt(s, pat, j)
    ensures !Contains(s[..i], pat)
  {
    forall j: nat ensures !OccursAt(s[..i], pat, j) {
      assert |s[..i]| == i;
      if j + |pat| <= i {
        assert s[..i][j..j + |pat|] == s[j..j + |pat|];
        assert !OccursAt(s, pat, j);
      }
    }
  }

  lemma NoCharInPrefix(s: string, n: nat, c: char)
    requires n <= |s|
    ensures c !in s ==> c !in s[..n]
  {
  }

  // ---------------------------------------------------------------------
  // Lines, as `BufRead::lines` yields them.
  // ---------------------------------------------------------------------

  /** The length of the first line of `s`: the index of the first line feed,
      or `|s|` when there is none. */
  function LineLength(s: string): (n: nat)
    ensures n <= |s|
    ensures forall i :: 0 <= i < n ==> s[i] != '\n'
    ensures n < |s| ==> s[n] == '\n'
  {
    if s == [] || s[0] == '\n' then 0 else 1 + LineLength(s[1..])
  }

  predicate EndsWithCR(l: string) {
    |l| > 0 && l[|l| - 1] == '\r'
  }

  function StripCR(l: string): string {
    if EndsWithCR(l) then l[..|l| - 1] else l
  }

  /** `BufRead::lines`: the text split at each line feed, the line feed
      dropped and, for a terminated line, one carriage return before it
      dropped too. A final line feed does not start an empty last line, and
      an unterminated last line keeps its carriage return. */
  function Lines(s: string): (ls: seq<string>)
    ensures forall i :: 0 <= i < |ls| ==> '\n' !in ls[i]
    ensures s == [] <==> ls == []
    decreases |s|
  {
    if s == [] then
      []
    else
      var n := LineLength(s);
      if n == |s| then
        assert forall k :: 0 <= k < |s| ==> s[k] != '\n';
        [s]
      else
        assert forall k :: 0 <= k < |StripCR(s[..n])| ==> StripCR(s[..n])[k] == s[k];
        [StripCR(s[..n])] + Lines(s[n + 1..])
  }

  /** A line that survives being written and read back: no line feed inside
      it and no carriage return at its end. */
  predicate IsPlainLine(l: string) {
    '\n' !in l && !EndsWithCR(l)
  }

  /** Each line followed by a line feed, as `writeln!` writes them. */
  function JoinTerminated(ls: seq<string>): string {
    if ls == [] then "" else ls[0] + "\n" + JoinTerminated(ls[1..])
  }

  lemma {:induction false} LineLengthOfTerminated(l: string, rest: string)
    requires '\n' !in l
    ensures LineLength(l + "\n" + rest) == |l|
    decreases |l|
  {
    if l == [] {
      assert (l + "\n" + rest)[0] == '\n';
    } else {
      assert (l + "\n" + rest)[1..] == l[1..] + "\n" + rest;
      LineLengthOfTerminated(l[1..], rest);
    }
  }

  lemma LinesOfTerminated(l: string, rest: string)
    requires IsPlainLine(l)
    ensures Lines(l + "\n" + rest) == [l] + Lines(rest)
  {
    var s := l + "\n" + rest;
    LineLengthOfTerminated(l, rest);
    assert s[..|l|] == l;
    assert s[|l| + 1..] == rest;
  }

  /** A line ended by CR LF, as a hand-edited file may have it, is read
      without both: the carriage return goes with the line feed. */
  lemma LinesOfCRLF(l: string, rest: string)
    requires '\n' !in l
    ensures Lines(l + "\r\n" + rest) == [l] + Lines(rest)
  {
    var s := l + "\r\n" + rest;
    assert s == (l + "\r") + "\n" + rest;
    LineLengthOfTerminated(l + "\r", rest);
    assert s[..|l| + 1] == l + "\r";
    assert s[|l| + 2..] == rest;
  }

  /** A last line without a line feed is read as it stands, a trailing
      carriage return included. */
  lemma LinesOfUnterminated(l: string)
    requires l != [] && '\n' !in l
    ensures Lines(l) == [l]
  {
    assert LineLength(l) == |l|;
  }

  /** Reading back what `JoinTerminated` wrote gives the same lines. */
  lemma {:induction false} LinesOfJoined(ls: seq<string>)
    requires forall i :: 0 <= i < |ls| ==> IsPlainLine(ls[i])
    ensures Lines(JoinTerminated(ls)) == ls
  {
    if ls != [] {
      LinesOfTerminated(ls[0], JoinTerminated(ls[1..]));
      LinesOfJoined(ls[1..]);
      assert ls == [ls[0]] + ls[1..];
    }
  }

  // ---------------------------------------------------------------------
  // Whitespace-separated tokens, as `str::split_whitespace` yields them.
  // ---------------------------------------------------------------------

  /** A non-empty run of non-whitespace characters. */
  predicate IsToken(t: string) {
    |t| > 0 && forall i :: 0 <= i < |t| ==> !IsWhitespace(t[i])
  }

  /** The length of the leading run of non-whitespace characters. */
  function WordLength(s: string): (n: nat)
    ensures n <= |s|
    ensures forall i :: 0 <= i < n ==> !IsWhitespace(s[i])
    ensures n < |s| ==> IsWhitespace(s[n])
  {
    if s == [] || IsWhitespace(s[0]) then 0 else 1 + WordLength(s[1..])
  }

  /** `str::split_whitespace`: the maximal runs of non-whitespace, in order. */
  function SplitWhitespace(s: string): (ts: seq<string>)
    ensures forall i :: 0 <= i < |ts| ==> IsToken(ts[i])
    ensures ts == [] <==> IsBlank(s)
    decreases |s|
  {
    if s == [] then
      []
    else if IsWhitespace(s[0]) then
      assert IsBlank(s) <==> IsBlank(s[1..]) by {
        assert forall i :: 0 < i < |s| ==> s[i] == s[1..][i - 1];
      }
      SplitWhitespace(s[1..])
    else
      var n := WordLength(s);
      [s[..n]] + SplitWhitespace(s[n..])
  }

  /** `slice.join(sep)`. */
  function Join(ts: seq<string>, sep: string): string {
    if ts == [] then ""
    else if |ts| == 1 then ts[0]
    else ts[0] + (sep + Join(ts[1..], sep))
  }

  lemma {:induction false} SplitWhitespaceOfToken(t: string, rest: string)
    requires IsToken(t)
    requires rest == [] || IsWhitespace(rest[0])
    ensures SplitWhitespace(t + rest) == [t] + SplitWhitespace(rest)
  {
    var s := t + rest;
    assert forall i :: 0 <= i < |t| ==> s[i] == t[i];
    assert rest != [] ==> s[|t|] == rest[0];
    var n := WordLength(s);
    assert n == |t|;
    assert s[..n] == t;
    assert s[n..] == rest;
  }

  lemma SplitWhitespaceAfterSpace(t: string, rest: string)
    requires IsToken(t)
    ensures SplitWhitespace(t + (" " + rest)) == [t] + SplitWhitespace(rest)
  {
    var spaced := " " + rest;
    assert spaced[0] == ' ' && spaced[1..] == rest;
    SplitWhitespaceOfToken(t, spaced);
  }

  /** Splitting single-space-joined tokens gives the tokens back. */
  lemma {:induction false} SplitJoin(ts: seq<string>)
    requires forall i :: 0 <= i < |ts| ==> IsToken(ts[i])
    ensures SplitWhitespace(Join(ts, " ")) == ts
  {
    if |ts| == 1 {
      SplitWhitespaceOfToken(ts[0], "");
      assert ts[0] + "" == ts[0];
    } else if |ts| > 1 {
      SplitWhitespaceAfterSpace(ts[0], Join(ts[1..], " "));
      SplitJoin(ts[1..]);
      assert ts == [ts[0]] + ts[1..];
    }
  }

  // ---------------------------------------------------------------------
  // Case mapping.
  // ---------------------------------------------------------------------

  function LowerChar(c: char): char {
    if 'A' <= c <= 'Z' then (c as int + 32) as char else c
  }

  /** `str::to_lowercase`, restricted to the ASCII letters. */
  function ToLower(s: string): (r: string)
    ensures |r| == |s|
    ensures forall i :: 0 <= i < |s| ==> r[i] == LowerChar(s[i])
  {
    if s == [] then [] else [LowerChar(s[0])] + ToLower(s[1..])
  }

  /** Lower-casing a token gives a token. */
  lemma ToLowerToken(t: string)
    requires IsToken(t)
    ensures IsToken(ToLower(t))
  {
  }
}
