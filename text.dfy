/** The Python string operations the editor's label logic is written with. */
module Text {

  /** `str.isspace` for one character: the Unicode white-space set Python strips by default. */
  predicate IsSpace(c: char)
  {
    c == ' ' || ('\t' <= c <= '\r') || ('\U{1C}' <= c <= '\U{1F}')
    || c == '\U{85}' || c == '\U{A0}' || c == '\U{1680}'
    || ('\U{2000}' <= c <= '\U{200A}') || c == '\U{2028}' || c == '\U{2029}'
    || c == '\U{202F}' || c == '\U{205F}' || c == '\U{3000}'
  }

  /** `s.find(c)`: the first index holding `c`, or -1. */
  function Find(s: string, c: char): (i: int)
    ensures -1 <= i < |s|
    ensures i == -1 <==> c !in s
    ensures 0 <= i ==> s[i] == c && c !in s[..i]
  {
    if |s| == 0 then -1
    else if s[0] == c then 0
    else
      var j := Find(s[1..], c);
      assert s[1..][..(if j < 0 then 0 else j)] == s[1..(if j < 0 then 1 else j + 1)];
      if j < 0 then -1 else j + 1
  }

  /** `s.rfind(c)`: the last index holding `c`, or -1. */
  function RFind(s: string, c: char): (i: int)
    ensures -1 <= i < |s|
    ensures i == -1 <==> c !in s
    ensures 0 <= i ==> s[i] == c && c !in s[i + 1..]
  {
    if |s| == 0 then -1
    else if s[|s| - 1] == c then |s| - 1
    else
      var j := RFind(s[..|s| - 1], c);
      if j < 0 then
        assert s == s[..|s| - 1] + [s[|s| - 1]];
        -1
      else
        assert s[j + 1..] == s[..|s| - 1][j + 1..] + [s[|s| - 1]];
        j
  }

  predicate StartsWith(s: string, prefix: string)
  {
    |prefix| <= |s| && s[..|prefix|] == prefix
  }

  predicate EndsWith(s: string, suffix: string)
  {
    |suffix| <= |s| && s[|s| - |suffix|..] == suffix
  }

  /** `sub in s` for strings: some position of `s` starts a copy of `sub`. */
  predicate Contains(s: string, sub: string)
    decreases |s|
  {
    StartsWith(s, sub) || (|s| > 0 && Contains(s[1..], sub))
  }

  /** `sub` occurs in `s` starting at index `i`. */
  predicate OccursAt(s: string, sub: string, i: int)
  {
    0 <= i <= |s| - |sub| && s[i..i + |sub|] == sub
  }

  /** `Contains` means there is a position where `sub` occurs, and back. */
  lemma {:induction false} ContainsAt(s: string, sub: string)
    ensures Contains(s, sub) <==> exists i :: OccursAt(s, sub, i)
    decreases |s|
  {
    if StartsWith(s, sub) {
      assert OccursAt(s, sub, 0);
    } else if |s| > 0 {
      ContainsAt(s[1..], sub);
      if Contains(s[1..], sub) {
        var i :| OccursAt(s[1..], sub, i);
        assert s[1..][i..i + |sub|] == s[i + 1..i + 1 + |sub|];
        assert OccursAt(s, sub, i + 1);
      }
      if i :| OccursAt(s, sub, i) {
        assert i != 0;
        assert s[1..][i - 1..i - 1 + |sub|] == s[i..i + |sub|];
        assert OccursAt(s[1..], sub, i - 1);
      }
    }
  }

  /** A text contains each piece it is made of. */
  lemma ContainsMiddle(a: string, b: string, c: string)
    ensures Contains(a + b + c, b)
  {
    assert (a + b + c)[|a|..|a| + |b|] == b;
    assert OccursAt(a + b + c, b, |a|);
    ContainsAt(a + b + c, b);
  }

  /** The elements of `parts` with `sep` between consecutive ones: `sep.join(parts)`. */
  function Join(parts: seq<string>, sep: string): string
  {
    if |parts| == 0 then ""
    else if |parts| == 1 then parts[0]
    else parts[0] + sep + Join(parts[1..], sep)
  }

  /**
   * `s.split(c)` for a one-character separator: the `c`-free pieces between
   * the separators, read off character by character.
   */
  function Split(s: string, c: char): (parts: seq<string>)
    ensures |parts| > 0
    decreases |s|
  {
    if s == [] then [""]
    else
      var rest := Split(s[1..], c);
      if s[0] == c then [""] + rest else [[s[0]] + rest[0]] + rest[1..]
  }

  /** Text in front that holds no separator joins the first piece. */
  lemma {:induction false} SplitPrefix(w: string, x: string, c: char)
    requires c !in w
    ensures Split(w + x, c) == [w + Split(x, c)[0]] + Split(x, c)[1..]
    decreases |w|
  {
    if w != [] {
      var tail := Split(x, c);
      assert (w + x)[1..] == w[1..] + x;
      assert (w + x)[0] == w[0];
      var rest := Split(w[1..] + x, c);
      assert Split(w + x, c) == [[w[0]] + rest[0]] + rest[1..];
      SplitPrefix(w[1..], x, c);
      assert rest == [w[1..] + tail[0]] + tail[1..];
      assert [w[0]] + (w[1..] + tail[0]) == w + tail[0];
    } else {
      var tail := Split(x, c);
      assert w + x == x;
      assert "" + tail[0] == tail[0];
      assert tail == [tail[0]] + tail[1..];
    }
  }

  /** The pieces hold no separator and join back to the text. */
  lemma {:induction false} SplitJoinsBack(s: string, c: char)
    ensures forall k :: 0 <= k < |Split(s, c)| ==> c !in Split(s, c)[k]
    ensures Join(Split(s, c), [c]) == s
    decreases |s|
  {
    if s != [] {
      var rest := Split(s[1..], c);
      SplitJoinsBack(s[1..], c);
      if s[0] == c {
        assert Join([""] + rest, [c]) == "" + [c] + Join(rest, [c]);
      } else if |rest| == 1 {
        assert Split(s, c) == [[s[0]] + rest[0]];
      } else {
        var parts := Split(s, c);
        assert parts[1..] == rest[1..];
        assert Join(rest, [c]) == rest[0] + [c] + Join(rest[1..], [c]);
      }
    }
  }

  /** Splitting on a separator that no piece contains undoes `Join`. */
  lemma {:induction false} SplitJoin(parts: seq<string>, c: char)
    requires |parts| > 0
    requires forall k :: 0 <= k < |parts| ==> c !in parts[k]
    ensures Split(Join(parts, [c]), c) == parts
    decreases |parts|
  {
    if |parts| > 1 {
      var rest := Join(parts[1..], [c]);
      SplitJoin(parts[1..], c);
      assert Join(parts, [c]) == parts[0] + ([c] + rest);
      SplitPrefix(parts[0], [c] + rest, c);
      assert ([c] + rest)[1..] == rest;
      assert Split([c] + rest, c) == [""] + parts[1..];
      assert parts[0] + "" == parts[0];
      assert parts == [parts[0]] + parts[1..];
    } else {
      SplitPrefix(parts[0], "", c);
      assert parts[0] + "" == parts[0];
    }
  }

  /** The first occurrence of `c` after a `c`-free prefix is right behind it. */
  lemma FindAfterPrefix(p: string, c: char, rest: string)
    requires c !in p
    ensures Find(p + ([c] + rest), c) == |p|
  {
    var s := p + ([c] + rest);
    assert s[|p|] == c;
    assert s[..|p|] == p;
  }

  /** `s.split(c, 1)[0]`: everything before the first `c`, or all of `s`. */
  function Before(s: string, c: char): (r: string)
    ensures c !in r
    ensures StartsWith(s, r)
    ensures c in s ==> |r| < |s| && s[|r|] == c
    ensures c !in s ==> r == s
  {
    var i := Find(s, c);
    if i < 0 then s else s[..i]
  }

  /** `s.split(c, 1)[1]` when `c` occurs: everything after its first occurrence. */
  function After(s: string, c: char): (r: string)
    requires c in s
    ensures s == Before(s, c) + [c] + r
  {
    s[Find(s, c) + 1..]
  }

  /** `s.lstrip()`. */
  function StripLeft(s: string): string
  {
    if |s| > 0 && IsSpace(s[0]) then StripLeft(s[1..]) else s
  }

  /** `s.rstrip()`. */
  function StripRight(s: string): string
  {
    if |s| > 0 && IsSpace(s[|s| - 1]) then StripRight(s[..|s| - 1]) else s
  }

  /** `s.strip()`. */
  function Strip(s: string): string
  {
    StripRight(StripLeft(s))
  }

  /** No white space at either end. */
  predicate Trimmed(s: string)
  {
    |s| > 0 ==> !IsSpace(s[0]) && !IsSpace(s[|s| - 1])
  }

  /** `lstrip` drops leading white space and nothing else. */
  lemma {:induction false} StripLeftDrops(s: string)
    ensures |StripLeft(s)| <= |s| && StripLeft(s) == s[|s| - |StripLeft(s)|..]
    ensures forall k :: 0 <= k < |s| - |StripLeft(s)| ==> IsSpace(s[k])
    ensures |StripLeft(s)| > 0 ==> !IsSpace(StripLeft(s)[0])
  {
    if |s| > 0 && IsSpace(s[0]) {
      var t := s[1..];
      StripLeftDrops(t);
      var l := StripLeft(t);
      assert StripLeft(s) == l;
      assert t[|t| - |l|..] == s[|s| - |l|..];
      forall k | 1 <= k < |s| - |l|
        ensures IsSpace(s[k])
      {
        assert s[k] == t[k - 1];
      }
    }
  }

  /** `rstrip` drops trailing white space and nothing else. */
  lemma {:induction false} StripRightDrops(s: string)
    ensures |StripRight(s)| <= |s| && StripRight(s) == s[..|StripRight(s)|]
    ensures forall k :: |StripRight(s)| <= k < |s| ==> IsSpace(s[k])
    ensures |StripRight(s)| > 0 ==> !IsSpace(StripRight(s)[|StripRight(s)| - 1])
  {
    if |s| > 0 && IsSpace(s[|s| - 1]) {
      StripRightDrops(s[..|s| - 1]);
    }
  }

  /** What `strip` returns is a piece of the input with white space removed from both ends only. */
  lemma StripSlice(s: string)
    ensures exists i, j :: (0 <= i <= j <= |s| && Strip(s) == s[i..j]
      && (forall k :: 0 <= k < i ==> IsSpace(s[k]))
      && (forall k :: j <= k < |s| ==> IsSpace(s[k])))
    ensures Trimmed(Strip(s))
  {
    var l := StripLeft(s);
    StripLeftDrops(s);
    var r := StripRight(l);
    StripRightDrops(l);
    var i := |s| - |l|;
    var j := i + |r|;
    assert r == s[i..j];
    if |r| > 0 {
      assert r[0] == l[0];
    }
  }

  /** A string with no white space at either end is its own strip. */
  lemma StripTrimmed(s: string)
    requires Trimmed(s)
    ensures Strip(s) == s
  {
  }

  /** Stripping twice is stripping once. */
  lemma StripIdempotent(s: string)
    ensures Strip(Strip(s)) == Strip(s)
  {
    StripSlice(s);
    StripTrimmed(Strip(s));
  }

  /** White space added at the front is stripped away again. */
  lemma {:induction false} StripLeadingSpace(w: string, s: string)
    requires forall k :: 0 <= k < |w| ==> IsSpace(w[k])
    requires Trimmed(s)
    ensures Strip(w + s) == s
    decreases |w|
  {
    if |w| > 0 {
      assert (w + s)[1..] == w[1..] + s;
      StripLeadingSpace(w[1..], s);
    } else {
      assert w + s == s;
    }
  }

  /** `c * n`. */
  function Repeat(c: char, n: nat): (r: string)
    ensures |r| == n
    ensures forall k :: 0 <= k < n ==> r[k] == c
  {
    if n == 0 then "" else Repeat(c, n - 1) + [c]
  }

  lemma RepeatCount(c: char, n: nat)
    ensures multiset(Repeat(c, n))[c] == n
  {
    if n > 0 {
      RepeatCount(c, n - 1);
    }
  }
}
