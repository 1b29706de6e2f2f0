/** The functions of Go's `strings` package that the logging generator relies
    on, over strings as sequences of Unicode code points. */
module GoStrings {

  /** Go's unicode.IsSpace: the Latin-1 spaces plus the other Unicode White_Space code points. */
  predicate IsSpace(c: char) {
    var n := c as int;
    (9 <= n <= 13) || n == 0x20 || n == 0x85 || n == 0xA0 || n == 0x1680
    || (0x2000 <= n <= 0x200A) || n == 0x2028 || n == 0x2029 || n == 0x202F
    || n == 0x205F || n == 0x3000
  }

  /** strings.HasPrefix */
  predicate HasPrefix(s: string, prefix: string) {
    |prefix| <= |s| && s[..|prefix|] == prefix
  }

  /** `pattern` occurs in `s` starting at index `k`. */
  predicate OccursAt(s: string, pattern: string, k: int) {
    0 <= k && k + |pattern| <= |s| && s[k..k + |pattern|] == pattern
  }

  /** `s` has no occurrence of `pattern`. */
  predicate NoOccurrence(s: string, pattern: string) {
    forall k | 0 <= k <= |s| :: !OccursAt(s, pattern, k)
  }

  /** `r` occurs in `s` at `i`, and everything before and after it is white space. */
  predicate TrimmedAt(s: string, r: string, i: int) {
    && OccursAt(s, r, i)
    && (forall k :: 0 <= k < i ==> IsSpace(s[k]))
    && (forall k :: i + |r| <= k < |s| ==> IsSpace(s[k]))
  }

  /** Trimming white space from the input less a leading space character. */
  lemma TrimmedAtTail(s: string, r: string, i: int)
    requires s != [] && IsSpace(s[0]) && TrimmedAt(s[1..], r, i)
    ensures TrimmedAt(s, r, i + 1)
  {
    assert s[i + 1..i + 1 + |r|] == s[1..][i..i + |r|];
    assert forall k :: 0 < k < |s| ==> s[k] == s[1..][k - 1];
  }

  /** Trimming white space from the input less a trailing space character. */
  lemma TrimmedAtInit(s: string, r: string, i: int)
    requires s != [] && IsSpace(s[|s| - 1]) && TrimmedAt(s[..|s| - 1], r, i)
    ensures TrimmedAt(s, r, i)
  {
    assert s[i..i + |r|] == s[..|s| - 1][i..i + |r|];
    assert forall k :: 0 <= k < |s| - 1 ==> s[k] == s[..|s| - 1][k];
  }

  /** strings.TrimSpace: the text between the leading and the trailing white
      space, found by dropping white space from the front, then from the back. */
  function TrimSpace(s: string): (r: string)
    ensures exists i :: TrimmedAt(s, r, i)
    ensures r == [] <==> forall k :: 0 <= k < |s| ==> IsSpace(s[k])
    ensures r == [] || (!IsSpace(r[0]) && !IsSpace(r[|r| - 1]))
    decreases |s|
  {
    if s == [] then
      assert TrimmedAt(s, s, 0);
      s
    else if IsSpace(s[0]) then
      var r := TrimSpace(s[1..]);
      assert exists j :: TrimmedAt(s, r, j) by {
        var i :| TrimmedAt(s[1..], r, i);
        TrimmedAtTail(s, r, i);
      }
      assert forall k :: 0 < k < |s| ==> s[k] == s[1..][k - 1];
      r
    else if IsSpace(s[|s| - 1]) then
      var r := TrimSpace(s[..|s| - 1]);
      assert exists j :: TrimmedAt(s, r, j) by {
        var i :| TrimmedAt(s[..|s| - 1], r, i);
        TrimmedAtInit(s, r, i);
      }
      assert r != [] by { assert s[..|s| - 1][0] == s[0]; }
      r
    else
      assert TrimmedAt(s, s, 0);
      s
  }

  /** A character of a substring is a character of the whole. */
  lemma OccursChars(s: string, r: string, i: int, c: char)
    requires OccursAt(s, r, i) && c in r
    ensures c in s
  {
    var k :| 0 <= k < |r| && r[k] == c;
    assert s[i..i + |r|][k] == s[i + k];
  }

  lemma TrimSpaceIdempotent(s: string)
    ensures TrimSpace(TrimSpace(s)) == TrimSpace(s)
  {
  }

  /** strings.TrimPrefix */
  function TrimPrefix(s: string, prefix: string): (r: string)
    ensures HasPrefix(s, prefix) ==> prefix + r == s
    ensures !HasPrefix(s, prefix) ==> r == s
  {
    if HasPrefix(s, prefix) then
      assert s == s[..|prefix|] + s[|prefix|..];
      s[|prefix|..]
    else s
  }

  /** strings.Join with a one-character separator. */
  function Join(parts: seq<string>, sep: char): string
    requires |parts| >= 1
  {
    if |parts| == 1 then parts[0] else parts[0] + [sep] + Join(parts[1..], sep)
  }

  /** strings.Split with a one-character separator: the pieces between the
      separators, at least one (the empty string splits into one empty piece). */
  function Split(s: string, sep: char): (r: seq<string>)
    ensures |r| >= 1
    ensures forall i :: 0 <= i < |r| ==> sep !in r[i]
    ensures Join(r, sep) == s
    ensures HasPrefix(s, r[0]) && (|r[0]| == |s| || s[|r[0]|] == sep)
  {
    if s == [] then [[]]
    else
      var rest := Split(s[1..], sep);
      if s[0] == sep then
        assert Join([[]] + rest, sep) == [] + [sep] + Join(rest, sep);
        [[]] + rest
      else
        var r := [[s[0]] + rest[0]] + rest[1..];
        assert r[1..] == rest[1..];
        assert Join(r, sep) == [s[0]] + Join(rest, sep);
        r
  }

  /** Splitting one piece followed by the separator. */
  lemma {:induction false} SplitPieceThenSep(x: string, y: string, sep: char)
    requires sep !in x
    ensures Split(x + [sep] + y, sep) == [x] + Split(y, sep)
    decreases |x|
  {
    if x == [] {
      assert x + [sep] + y == [sep] + y;
      assert ([sep] + y)[1..] == y;
    } else {
      var s := x + [sep] + y;
      assert s[1..] == x[1..] + [sep] + y;
      SplitPieceThenSep(x[1..], y, sep);
      assert [x[0]] + x[1..] == x;
    }
  }

  lemma {:induction false} SplitPiece(x: string, sep: char)
    requires sep !in x
    ensures Split(x, sep) == [x]
    decreases |x|
  {
    if x != [] {
      SplitPiece(x[1..], sep);
      assert [x[0]] + x[1..] == x;
    }
  }

  /** Split undoes Join when no piece contains the separator. */
  lemma {:induction false} SplitJoin(parts: seq<string>, sep: char)
    requires |parts| >= 1
    requires forall i :: 0 <= i < |parts| ==> sep !in parts[i]
    ensures Split(Join(parts, sep), sep) == parts
    decreases |parts|
  {
    if |parts| == 1 {
      SplitPiece(parts[0], sep);
    } else {
      SplitJoin(parts[1..], sep);
      SplitPieceThenSep(parts[0], Join(parts[1..], sep), sep);
      assert [parts[0]] + parts[1..] == parts;
    }
  }

  /** strings.Split(line, " ")[0]: the text before the first space. */
  function FirstField(line: string): (key: string)
    ensures HasPrefix(line, key) && ' ' !in key
    ensures |key| == |line| || line[|key|] == ' '
  {
    Split(line, ' ')[0]
  }

  /** strings.ReplaceAll for a non-empty pattern: every occurrence, scanned
      left to right without overlap, is replaced. */
  function ReplaceAll(s: string, pattern: string, replacement: string): (r: string)
    requires pattern != []
    ensures replacement == [] ==> |r| <= |s|
    decreases |s|
  {
    if |s| < |pattern| then s
    else if s[..|pattern|] == pattern then
      replacement + ReplaceAll(s[|pattern|..], pattern, replacement)
    else
      [s[0]] + ReplaceAll(s[1..], pattern, replacement)
  }

  /** A string without the pattern comes back unchanged. */
  lemma {:induction false} ReplaceAllWithoutOccurrence(s: string, pattern: string, replacement: string)
    requires pattern != [] && NoOccurrence(s, pattern)
    ensures ReplaceAll(s, pattern, replacement) == s
    decreases |s|
  {
    if |s| >= |pattern| {
      assert !OccursAt(s, pattern, 0);
      forall k | 0 <= k <= |s[1..]| ensures !OccursAt(s[1..], pattern, k) {
        if OccursAt(s[1..], pattern, k) {
          assert s[k + 1..k + 1 + |pattern|] == s[1..][k..k + |pattern|];
          assert OccursAt(s, pattern, k + 1);
        }
      }
      ReplaceAllWithoutOccurrence(s[1..], pattern, replacement);
      assert [s[0]] + s[1..] == s;
    }
  }

  /** The pattern alone becomes the replacement. */
  lemma ReplaceAllOfPattern(pattern: string, replacement: string)
    requires pattern != []
    ensures ReplaceAll(pattern, pattern, replacement) == replacement
  {
    assert pattern[|pattern|..] == [];
  }

  /** No occurrence of `pattern` in `x + y` starts in `x` and ends in `y`. */
  predicate NoStraddle(x: string, y: string, pattern: string) {
    forall k :: 0 <= k < |x| < k + |pattern| ==> !OccursAt(x + y, pattern, k)
  }

  /** At an occurrence, ReplaceAll emits the replacement and skips the pattern. */
  lemma ReplaceAllAtMatch(s: string, pattern: string, replacement: string)
    requires pattern != [] && OccursAt(s, pattern, 0)
    ensures ReplaceAll(s, pattern, replacement)
         == replacement + ReplaceAll(s[|pattern|..], pattern, replacement)
  {
  }

  /** Elsewhere, ReplaceAll keeps the first character and goes on after it. */
  lemma ReplaceAllSkipOne(s: string, pattern: string, replacement: string)
    requires pattern != [] && s != [] && !OccursAt(s, pattern, 0)
    ensures ReplaceAll(s, pattern, replacement) == [s[0]] + ReplaceAll(s[1..], pattern, replacement)
  {
    if |s| < |pattern| {
      assert ReplaceAll(s[1..], pattern, replacement) == s[1..];
    }
  }

  lemma NoStraddleAfterMatch(x: string, y: string, pattern: string)
    requires pattern != [] && |pattern| <= |x| && NoStraddle(x, y, pattern)
    ensures NoStraddle(x[|pattern|..], y, pattern)
  {
    var p, x' := pattern, x[|pattern|..];
    assert (x + y)[|p|..] == x' + y;
    forall k | 0 <= k < |x'| < k + |p| ensures !OccursAt(x' + y, p, k) {
      if OccursAt(x' + y, p, k) {
        assert (x' + y)[k..k + |p|] == (x + y)[k + |p|..k + |p| + |p|];
        assert OccursAt(x + y, p, k + |p|);
      }
    }
  }

  lemma NoStraddleAfterOne(x: string, y: string, pattern: string)
    requires pattern != [] && x != [] && NoStraddle(x, y, pattern)
    ensures NoStraddle(x[1..], y, pattern)
  {
    var p, x' := pattern, x[1..];
    assert (x + y)[1..] == x' + y;
    forall k | 0 <= k < |x'| < k + |p| ensures !OccursAt(x' + y, p, k) {
      if OccursAt(x' + y, p, k) {
        assert (x' + y)[k..k + |p|] == (x + y)[k + 1..k + 1 + |p|];
        assert OccursAt(x + y, p, k + 1);
      }
    }
  }

  lemma ConcatAfterMatch(x: string, y: string, p: string, q: string)
    requires p != [] && OccursAt(x, p, 0)
    requires ReplaceAll(x[|p|..] + y, p, q) == ReplaceAll(x[|p|..], p, q) + ReplaceAll(y, p, q)
    ensures ReplaceAll(x + y, p, q) == ReplaceAll(x, p, q) + ReplaceAll(y, p, q)
  {
    var a, b := ReplaceAll(x[|p|..], p, q), ReplaceAll(y, p, q);
    assert OccursAt(x + y, p, 0) by { assert (x + y)[..|p|] == x[..|p|]; }
    calc {
      ReplaceAll(x + y, p, q);
    == { ReplaceAllAtMatch(x + y, p, q); }
      q + ReplaceAll((x + y)[|p|..], p, q);
    == { assert (x + y)[|p|..] == x[|p|..] + y; }
      q + (a + b);
    ==
      (q + a) + b;
    == { ReplaceAllAtMatch(x, p, q); }
      ReplaceAll(x, p, q) + b;
    }
  }

  lemma ConcatAfterSkip(x: string, y: string, p: string, q: string)
    requires p != [] && x != [] && !OccursAt(x, p, 0) && !OccursAt(x + y, p, 0)
    requires ReplaceAll(x[1..] + y, p, q) == ReplaceAll(x[1..], p, q) + ReplaceAll(y, p, q)
    ensures ReplaceAll(x + y, p, q) == ReplaceAll(x, p, q) + ReplaceAll(y, p, q)
  {
    var a, b := ReplaceAll(x[1..], p, q), ReplaceAll(y, p, q);
    calc {
      ReplaceAll(x + y, p, q);
    == { ReplaceAllSkipOne(x + y, p, q); }
      [(x + y)[0]] + ReplaceAll((x + y)[1..], p, q);
    == { assert (x + y)[1..] == x[1..] + y; }
      [x[0]] + (a + b);
    ==
      ([x[0]] + a) + b;
    == { ReplaceAllSkipOne(x, p, q); }
      ReplaceAll(x, p, q) + b;
    }
  }

  /** Replacing in two parts that no occurrence straddles is replacing in each. */
  lemma {:induction false} ReplaceAllConcat(x: string, y: string, pattern: string, replacement: string)
    requires pattern != [] && NoStraddle(x, y, pattern)
    ensures ReplaceAll(x + y, pattern, replacement)
         == ReplaceAll(x, pattern, replacement) + ReplaceAll(y, pattern, replacement)
    decreases |x|
  {
    var p, q := pattern, replacement;
    if x == [] {
      assert x + y == y;
    } else if OccursAt(x, p, 0) {
      NoStraddleAfterMatch(x, y, p);
      ReplaceAllConcat(x[|p|..], y, p, q);
      ConcatAfterMatch(x, y, p, q);
    } else {
      assert !OccursAt(x + y, p, 0) by {
        if |x| >= |p| {
          assert (x + y)[..|p|] == x[..|p|];
        }
      }
      NoStraddleAfterOne(x, y, p);
      ReplaceAllConcat(x[1..], y, p, q);
      ConcatAfterSkip(x, y, p, q);
    }
  }

  /** Text without the first character of the pattern holds no occurrence of it. */
  lemma NoOccurrenceWithoutFirst(s: string, pattern: string)
    requires pattern != [] && pattern[0] !in s
    ensures NoOccurrence(s, pattern)
  {
    forall k | 0 <= k <= |s| ensures !OccursAt(s, pattern, k) {
      assert k + |pattern| <= |s| ==> s[k..k + |pattern|][0] == s[k];
    }
  }

  /** A one-character pattern replaced by text without that character is gone. */
  lemma {:induction false} ReplaceCharRemovesIt(s: string, c: char, replacement: string)
    requires c !in replacement
    ensures c !in ReplaceAll(s, [c], replacement)
    decreases |s|
  {
    if |s| >= 1 {
      ReplaceCharRemovesIt(s[1..], c, replacement);
    }
  }

  /** ReplaceAll keeps a first character that cannot start the pattern. */
  lemma ReplaceAllKeepsHead(s: string, pattern: string, replacement: string)
    requires pattern != [] && s != [] && s[0] != pattern[0]
    ensures var r := ReplaceAll(s, pattern, replacement); r != [] && r[0] == s[0]
  {
  }

  /** Putting a character in front of text without "//" makes no "//"
      unless both the character and the text's first one are slashes. */
  lemma NoDoubleSlashCons(c: char, t: string)
    requires NoOccurrence(t, "//")
    requires c != '/' || t == [] || t[0] != '/'
    ensures NoOccurrence([c] + t, "//")
  {
    forall k ensures !OccursAt([c] + t, "//", k) {
      if k == 0 && |t| >= 1 {
        assert ([c] + t)[0..2] == [c, t[0]];
      } else if k > 0 && OccursAt([c] + t, "//", k) {
        assert ([c] + t)[k..k + 2] == t[k - 1..k + 1];
        assert OccursAt(t, "//", k - 1);
      }
    }
  }

  /** Removing every "//" leaves no "//": runs of slashes shrink to at most one. */
  lemma {:induction false} RemoveDoubleSlash(s: string)
    ensures NoOccurrence(ReplaceAll(s, "//", ""), "//")
    decreases |s|
  {
    var r := ReplaceAll(s, "//", "");
    if |s| < 2 {
      assert r == s;
    } else if s[..2] == "//" {
      RemoveDoubleSlash(s[2..]);
      assert r == ReplaceAll(s[2..], "//", "");
    } else {
      var rest := ReplaceAll(s[1..], "//", "");
      RemoveDoubleSlash(s[1..]);
      assert r == [s[0]] + rest;
      if s[0] == '/' {
        assert s[1] != '/' by { assert s[..2] == [s[0], s[1]]; }
        ReplaceAllKeepsHead(s[1..], "//", "");
      }
      NoDoubleSlashCons(s[0], rest);
    }
  }

  /** unicode.ToUpper restricted to ASCII letters. */
  function UpperChar(c: char): char {
    if 'a' <= c <= 'z' then (c as int - 32) as char else c
  }

  /** unicode.ToLower restricted to ASCII letters. */
  function LowerChar(c: char): char {
    if 'A' <= c <= 'Z' then (c as int + 32) as char else c
  }

  /** strings.ToUpper on ASCII letters. */
  function ToUpper(s: string): (r: string)
    ensures |r| == |s| && forall i :: 0 <= i < |s| ==> r[i] == UpperChar(s[i])
  {
    if s == [] then [] else [UpperChar(s[0])] + ToUpper(s[1..])
  }

  /** strings.ToLower on ASCII letters. */
  function ToLower(s: string): (r: string)
    ensures |r| == |s| && forall i :: 0 <= i < |s| ==> r[i] == LowerChar(s[i])
  {
    if s == [] then [] else [LowerChar(s[0])] + ToLower(s[1..])
  }

  predicate NoAsciiLower(s: string) {
    forall i :: 0 <= i < |s| ==> !('a' <= s[i] <= 'z')
  }

  predicate NoAsciiUpper(s: string) {
    forall i :: 0 <= i < |s| ==> !('A' <= s[i] <= 'Z')
  }

  lemma {:induction false} ToUpperHasNoLower(s: string)
    ensures NoAsciiLower(ToUpper(s))
  {
    if s != [] {
      ToUpperHasNoLower(s[1..]);
      var r := ToUpper(s);
      assert r[1..] == ToUpper(s[1..]);
    }
  }

  lemma {:induction false} ToLowerHasNoUpper(s: string)
    ensures NoAsciiUpper(ToLower(s))
  {
    if s != [] {
      ToLowerHasNoUpper(s[1..]);
      var r := ToLower(s);
      assert r[1..] == ToLower(s[1..]);
    }
  }

  /** Lower-casing forgets an earlier upper-casing. */
  lemma {:induction false} LowerOfUpper(s: string)
    ensures ToLower(ToUpper(s)) == ToLower(s)
  {
    if s != [] {
      LowerOfUpper(s[1..]);
      assert ToUpper(s)[1..] == ToUpper(s[1..]);
    }
  }

  /** Upper-casing twice is upper-casing once. */
  lemma {:induction false} ToUpperIdempotent(s: string)
    ensures ToUpper(ToUpper(s)) == ToUpper(s)
  {
    if s != [] {
      ToUpperIdempotent(s[1..]);
      assert ToUpper(s)[1..] == ToUpper(s[1..]);
    }
  }
}
