/** The JavaScript string built-ins the page relies on, over `string`
    (a sequence of Unicode scalar values): `trim`, `toLowerCase`,
    `split` with a one-character separator, and counting. */
module Strings {

  /** The code points that `String.prototype.trim` strips and that the
      regular-expression class `\s` matches: the WhiteSpace and
      LineTerminator productions of ECMAScript. */
  predicate IsWhitespace(c: char) {
    var n := c as int;
    n == 0x09 || n == 0x0A || n == 0x0B || n == 0x0C || n == 0x0D ||
    n == 0x20 || n == 0xA0 || n == 0x1680 || (0x2000 <= n <= 0x200A) ||
    n == 0x2028 || n == 0x2029 || n == 0x202F || n == 0x205F ||
    n == 0x3000 || n == 0xFEFF
  }

  predicate NoWhitespace(s: string) {
    forall i :: 0 <= i < |s| ==> !IsWhitespace(s[i])
  }

  predicate AllWhitespace(s: string) {
    forall i :: 0 <= i < |s| ==> IsWhitespace(s[i])
  }

  /** Leading whitespace removed: the result is a suffix of `s`, what was
      dropped is all whitespace, and the result does not start with any. */
  function TrimStart(s: string): (r: string)
    ensures |r| <= |s| && r == s[|s| - |r|..]
    ensures forall k :: 0 <= k < |s| - |r| ==> IsWhitespace(s[k])
    ensures r != [] ==> !IsWhitespace(r[0])
    decreases |s|
  {
    if s != [] && IsWhitespace(s[0]) then
      TrimStart(s[1..])
    else s
  }

  /** Trailing whitespace removed: the result is a prefix of `s`, what was
      dropped is all whitespace, and the result does not end with any. */
  function TrimEnd(s: string): (r: string)
    ensures |r| <= |s| && r == s[..|r|]
    ensures forall k :: |r| <= k < |s| ==> IsWhitespace(s[k])
    ensures r != [] ==> !IsWhitespace(r[|r| - 1])
    decreases |s|
  {
    if s != [] && IsWhitespace(s[|s| - 1]) then
      TrimEnd(s[..|s| - 1])
    else s
  }

  /** `s.trim()`: the contiguous slice of `s` left once the whitespace at
      both ends is cut off; it neither starts nor ends with whitespace and is
      empty exactly when `s` is all whitespace. */
  function Trim(s: string): (r: string)
    ensures |r| <= |s| && forall i :: 0 <= i < |r| ==> r[i] in s
    ensures r != [] ==> !IsWhitespace(r[0]) && !IsWhitespace(r[|r| - 1])
    ensures r == [] <==> AllWhitespace(s)
    ensures exists a :: (0 <= a <= |s| - |r| && r == s[a..a + |r|] &&
      AllWhitespace(s[..a]) && AllWhitespace(s[a + |r|..]))
  {
    var t := TrimStart(s);
    var r := TrimEnd(t);
    TrimCutsEnds(s, t, r);
    r
  }

  /** Cutting a whitespace prefix off `s` (leaving `t`) and then a
      whitespace suffix off `t` (leaving `r`) leaves `r` at offset
      `|s| - |t|` of `s`, with only whitespace before and after it. */
  lemma TrimCutsEnds(s: string, t: string, r: string)
    requires |t| <= |s| && t == s[|s| - |t|..]
    requires forall k :: 0 <= k < |s| - |t| ==> IsWhitespace(s[k])
    requires t != [] ==> !IsWhitespace(t[0])
    requires |r| <= |t| && r == t[..|r|]
    requires forall k :: |r| <= k < |t| ==> IsWhitespace(t[k])
    ensures var a := |s| - |t|;
      && a + |r| <= |s| && r == s[a..a + |r|]
      && AllWhitespace(s[..a]) && AllWhitespace(s[a + |r|..])
    ensures forall i :: 0 <= i < |r| ==> r[i] in s
    ensures r == [] <==> AllWhitespace(s)
  {
    var a := |s| - |t|;
    assert t == s[a..];
    assert r == t[..|r|];
    var head := s[..a];
    forall k | 0 <= k < |head| ensures IsWhitespace(head[k]) {
      assert head[k] == s[k];
    }
    var tail := s[a + |r|..];
    forall k | 0 <= k < |tail| ensures IsWhitespace(tail[k]) {
      assert tail[k] == t[|r| + k];
    }
    forall i | 0 <= i < |r| ensures r[i] in s {
      assert r[i] == s[a + i];
    }
    if r == [] {
      assert t == [];
      forall k | 0 <= k < |s| ensures IsWhitespace(s[k]) {
        assert s[k] == head[k];
      }
    } else {
      assert r[0] == t[0] == s[a];
    }
  }

  /** A string that neither starts nor ends with whitespace is its own trim. */
  lemma TrimLeavesClean(s: string)
    requires s != [] ==> !IsWhitespace(s[0]) && !IsWhitespace(s[|s| - 1])
    ensures Trim(s) == s
  {
  }

  /** `toLowerCase` on one character, restricted to ASCII letters. */
  function LowerChar(c: char): (r: char)
    ensures 'A' <= c <= 'Z' ==> 'a' <= r <= 'z'
  {
    if 'A' <= c <= 'Z' then (c as int + 32) as char else c
  }

  /** `s.toLowerCase()`, character by character (ASCII letters only). */
  function ToLower(s: string): (r: string)
    ensures |r| == |s|
    ensures forall i :: 0 <= i < |s| ==> r[i] == LowerChar(s[i])
  {
    seq(|s|, i requires 0 <= i < |s| => LowerChar(s[i]))
  }

  /** Lower-casing never creates or destroys a character that is not a
      letter: punctuation stays where it was. */
  lemma LowerCharKeeps(c: char, x: char)
    requires !('a' <= x <= 'z') && !('A' <= x <= 'Z')
    ensures LowerChar(c) == x <==> c == x
  {
  }

  lemma LowerCharKeepsWhitespace(c: char)
    ensures IsWhitespace(LowerChar(c)) <==> IsWhitespace(c)
  {
  }

  /** Lower-casing commutes with slicing. */
  lemma ToLowerSlice(s: string, a: nat, b: nat)
    requires a <= b <= |s|
    ensures ToLower(s)[a..b] == ToLower(s[a..b])
  {
    var lo, part := ToLower(s), s[a..b];
    var y := ToLower(part);
    forall i | 0 <= i < b - a ensures lo[a + i] == y[i] {
      assert part[i] == s[a + i];
    }
    assert lo[a..b] == y;
  }

  /** Lower-casing cannot introduce a character that is not a letter. */
  lemma ToLowerKeepsAbsent(s: string, x: char)
    requires !('a' <= x <= 'z') && !('A' <= x <= 'Z') && x !in s
    ensures x !in ToLower(s)
  {
    forall i | 0 <= i < |s| ensures ToLower(s)[i] != x {
      LowerCharKeeps(s[i], x);
    }
  }

  /** A string without upper-case letters is its own lower-case form. */
  lemma ToLowerLeavesLower(s: string)
    requires forall i :: 0 <= i < |s| ==> !('A' <= s[i] <= 'Z')
    ensures ToLower(s) == s
  {
  }

  /** Lower-casing twice is lower-casing once. */
  lemma ToLowerIdempotent(s: string)
    ensures ToLower(ToLower(s)) == ToLower(s)
  {
  }

  /** The number of occurrences of `c` in `s`. */
  function Count(s: string, c: char): nat
    decreases |s|
  {
    if s == [] then 0 else (if s[0] == c then 1 else 0) + Count(s[1..], c)
  }

  lemma {:induction false} CountConcat(a: string, b: string, c: char)
    ensures Count(a + b, c) == Count(a, c) + Count(b, c)
    decreases |a|
  {
    if a == [] {
      assert a + b == b;
    } else {
      assert (a + b)[1..] == a[1..] + b;
      CountConcat(a[1..], b, c);
    }
  }

  lemma {:induction false} CountZero(s: string, c: char)
    ensures Count(s, c) == 0 <==> c !in s
    decreases |s|
  {
    if s != [] {
      CountZero(s[1..], c);
      assert s == [s[0]] + s[1..];
    }
  }

  /** `s.indexOf(c)`, with `|s|` in place of -1 for "absent": the first
      position holding `c`, and no `c` before it. */
  function FirstIndex(s: string, c: char): (k: nat)
    ensures k <= |s|
    ensures k < |s| ==> s[k] == c
    ensures c !in s[..k]
    decreases |s|
  {
    if s == [] then 0
    else if s[0] == c then 0
    else
      var k := 1 + FirstIndex(s[1..], c);
      assert s[..k] == [s[0]] + s[1..][..k - 1];
      k
  }

  /** `s.split(sep)` for a one-character separator: at least one part. */
  function Split(s: string, sep: char): (parts: seq<string>)
    ensures |parts| >= 1
    decreases |s|
  {
    var k := FirstIndex(s, sep);
    if k == |s| then [s] else [s[..k]] + Split(s[k + 1..], sep)
  }

  /** `parts.join(sep)`, the inverse of `Split`. */
  function Join(parts: seq<string>, sep: char): string
    requires |parts| >= 1
    decreases |parts|
  {
    if |parts| == 1 then parts[0] else parts[0] + [sep] + Join(parts[1..], sep)
  }

  function Last(parts: seq<string>): string
    requires |parts| >= 1
  {
    parts[|parts| - 1]
  }

  /** Joining the parts back with the separator gives the original string. */
  lemma {:induction false} SplitThenJoin(s: string, sep: char)
    ensures Join(Split(s, sep), sep) == s
    decreases |s|
  {
    var k := FirstIndex(s, sep);
    if k < |s| {
      var rest := Split(s[k + 1..], sep);
      var parts := [s[..k]] + rest;
      assert Split(s, sep) == parts;
      assert parts[0] == s[..k] && parts[1..] == rest;
      calc {
        Join(parts, sep);
        s[..k] + [sep] + Join(rest, sep);
        { SplitThenJoin(s[k + 1..], sep); }
        s[..k] + [sep] + s[k + 1..];
        { assert s == s[..k] + [sep] + s[k + 1..]; }
        s;
      }
    }
  }

  /** No part contains the separator, and there is one part more than
      there are separators. */
  lemma {:induction false} SplitParts(s: string, sep: char)
    ensures forall i :: 0 <= i < |Split(s, sep)| ==> sep !in Split(s, sep)[i]
    ensures |Split(s, sep)| == Count(s, sep) + 1
    decreases |s|
  {
    var k := FirstIndex(s, sep);
    if k == |s| {
      assert s[..k] == s;
      CountZero(s, sep);
    } else {
      SplitParts(s[k + 1..], sep);
      assert s == s[..k] + ([sep] + s[k + 1..]);
      CountConcat(s[..k], [sep] + s[k + 1..], sep);
      CountConcat([sep], s[k + 1..], sep);
      CountZero(s[..k], sep);
    }
  }

  /** Splitting a join of separator-free parts gives the parts back. */
  lemma {:induction false} JoinThenSplit(parts: seq<string>, sep: char)
    requires |parts| >= 1
    requires forall i :: 0 <= i < |parts| ==> sep !in parts[i]
    ensures Split(Join(parts, sep), sep) == parts
    decreases |parts|
  {
    var s := Join(parts, sep);
    var p := parts[0];
    if |parts| == 1 {
      assert FirstIndex(s, sep) == |s|;
    } else {
      var rest := Join(parts[1..], sep);
      assert s == p + [sep] + rest;
      assert s[|p|] == sep && s[..|p|] == p;
      assert FirstIndex(s, sep) == |p|;
      assert s[|p| + 1..] == rest;
      JoinThenSplit(parts[1..], sep);
    }
  }

  /** The last part is the text after the last separator. */
  lemma {:induction false} SplitLastAfter(s: string, sep: char, k: nat)
    requires k < |s| && s[k] == sep && sep !in s[k + 1..]
    ensures Last(Split(s, sep)) == s[k + 1..]
    decreases |s|
  {
    var f := FirstIndex(s, sep);
    assert f <= k;
    var t := s[f + 1..];
    if f == k {
      assert FirstIndex(t, sep) == |t|;
    } else {
      assert t[k - f - 1] == sep && t[k - f..] == s[k + 1..];
      SplitLastAfter(t, sep, k - f - 1);
    }
  }

  /** Without a separator, the last (and only) part is the whole string. */
  lemma SplitWithoutSeparator(s: string, sep: char)
    requires sep !in s
    ensures Split(s, sep) == [s]
  {
  }
}
