/**
 * The string operations of Python's `str` that the modelled code relies on:
 * `isspace`/`strip`, ASCII case mapping, `startswith`, `in`, `find` and `join`.
 */
module Text {
  import opened Wrappers

  /**
   * Python's `str.isspace()` for one code point; the regular-expression class
   * `\s` on `str` patterns uses the same set.
   */
  predicate IsSpace(c: char) {
    c == ' ' || ('\t' <= c <= '\r') || ('\U{1C}' <= c <= '\U{1F}') ||
    c == '\U{85}' || c == '\U{A0}' || c == '\U{1680}' ||
    ('\U{2000}' <= c <= '\U{200A}') || c == '\U{2028}' || c == '\U{2029}' ||
    c == '\U{202F}' || c == '\U{205F}' || c == '\U{3000}'
  }

  ghost predicate AllSpace(s: string) {
    forall k :: 0 <= k < |s| ==> IsSpace(s[k])
  }

  /** `s.lstrip()` */
  function StripStart(s: string): (r: string)
    ensures |r| <= |s| && r == s[|s| - |r|..]
    ensures forall k :: 0 <= k < |s| - |r| ==> IsSpace(s[k])
    ensures r != [] ==> !IsSpace(r[0])
  {
    if s != [] && IsSpace(s[0]) then
      var r := StripStart(s[1..]);
      assert s[1..][|s| - 1 - |r|..] == s[|s| - |r|..];
      r
    else s
  }

  /** `s.rstrip()` */
  function StripEnd(s: string): (r: string)
    ensures |r| <= |s| && r == s[..|r|]
    ensures forall k :: |r| <= k < |s| ==> IsSpace(s[k])
    ensures r != [] ==> !IsSpace(r[|r| - 1])
  {
    if s != [] && IsSpace(s[|s| - 1]) then StripEnd(s[..|s| - 1]) else s
  }

  /** `r` is `s` with the whitespace `s[..i]` and `s[i + |r|..]` cut off. */
  ghost predicate StrippedAt(s: string, r: string, i: int) {
    0 <= i && i + |r| <= |s| && s[i..i + |r|] == r &&
    AllSpace(s[..i]) && AllSpace(s[i + |r|..])
  }

  /** No whitespace at either end. */
  predicate Trimmed(t: string) {
    t != [] ==> !IsSpace(t[0]) && !IsSpace(t[|t| - 1])
  }

  /** `s.strip()`: whitespace removed from both ends, and only from the ends. */
  function Strip(s: string): (r: string)
    ensures exists i :: StrippedAt(s, r, i)
    ensures r != [] ==> !IsSpace(r[0]) && !IsSpace(r[|r| - 1])
  {
    var t := StripStart(s);
    var r := StripEnd(t);
    StripParts(s, t, r);
    r
  }

  /** Cutting whitespace off the front and then off the back leaves `r` inside `s`, whitespace around it. */
  lemma StripParts(s: string, t: string, r: string)
    requires |t| <= |s| && t == s[|s| - |t|..] && forall k :: 0 <= k < |s| - |t| ==> IsSpace(s[k])
    requires |r| <= |t| && r == t[..|r|] && forall k :: |r| <= k < |t| ==> IsSpace(t[k])
    ensures StrippedAt(s, r, |s| - |t|)
  {
    var i := |s| - |t|;
    assert s[i..i + |r|] == t[..|r|];
    assert forall k :: 0 <= k < i ==> s[..i][k] == s[k];
    var post := s[i + |r|..];
    assert forall k :: 0 <= k < |post| ==> post[k] == t[|r| + k];
  }

  lemma {:induction false} StripStartPadded(pre: string, rest: string)
    requires AllSpace(pre)
    requires rest == [] || !IsSpace(rest[0])
    ensures StripStart(pre + rest) == rest
  {
    if pre != [] {
      assert (pre + rest)[1..] == pre[1..] + rest;
      StripStartPadded(pre[1..], rest);
    } else {
      assert pre + rest == rest;
    }
  }

  lemma {:induction false} StripEndPadded(rest: string, post: string)
    requires AllSpace(post)
    requires rest == [] || !IsSpace(rest[|rest| - 1])
    ensures StripEnd(rest + post) == rest
  {
    if post != [] {
      var p := post[..|post| - 1];
      assert (rest + post)[..|rest + post| - 1] == rest + p;
      StripEndPadded(rest, p);
    } else {
      assert rest + post == rest;
    }
  }

  /** Surrounding whitespace is exactly what `strip` removes. */
  lemma StripPadded(pre: string, core: string, post: string)
    requires AllSpace(pre) && AllSpace(post)
    requires core != [] ==> !IsSpace(core[0]) && !IsSpace(core[|core| - 1])
    ensures Strip(pre + core + post) == core
  {
    if core == [] {
      assert pre + core + post == pre + post;
      assert AllSpace(pre + post);
      StripStartPadded(pre + post, []);
      assert pre + post + [] == pre + post;
    } else {
      assert pre + core + post == pre + (core + post);
      StripStartPadded(pre, core + post);
      StripEndPadded(core, post);
    }
  }

  /** Text without whitespace at its ends is its own `strip`. */
  lemma StripUnpadded(s: string)
    requires s != [] && !IsSpace(s[0]) && !IsSpace(s[|s| - 1])
    ensures Strip(s) == s
  {
    StripPadded("", s, "");
    assert "" + s + "" == s;
  }

  /** A leading whitespace character is all `strip` removes from it and text without outer whitespace. */
  lemma StripLeadingSpace(c: char, s: string)
    requires IsSpace(c) && s != [] && !IsSpace(s[0]) && !IsSpace(s[|s| - 1])
    ensures Strip([c] + s) == s
  {
    assert AllSpace([c]);
    StripPadded([c], s, "");
    assert [c] + s + "" == [c] + s;
  }

  lemma SplitThree(s: string, i: int, j: int)
    requires 0 <= i <= j <= |s|
    ensures s == s[..i] + s[i..j] + s[j..]
  {
  }

  /** What `strip` keeps of `s` is kept when whitespace is appended. */
  lemma StrippedSnoc(s: string, r: string, i: int, c: char)
    requires StrippedAt(s, r, i) && IsSpace(c)
    ensures StrippedAt(s + [c], r, i)
  {
    var x := s + [c];
    assert x[i..i + |r|] == s[i..i + |r|];
    assert x[..i] == s[..i];
    assert x[i + |r|..] == s[i + |r|..] + [c];
  }

  /** Whitespace around a core without outer whitespace is exactly what `strip` removes. */
  lemma StrippedIsStrip(x: string, r: string, i: int)
    requires StrippedAt(x, r, i)
    requires r != [] ==> !IsSpace(r[0]) && !IsSpace(r[|r| - 1])
    ensures Strip(x) == r
  {
    SplitThree(x, i, i + |r|);
    StripPadded(x[..i], r, x[i + |r|..]);
  }

  /** A trailing whitespace character makes no difference to `strip`. */
  lemma StripTrailingSpace(s: string, c: char)
    requires IsSpace(c)
    ensures Strip(s + [c]) == Strip(s)
  {
    var r := Strip(s);
    var i :| StrippedAt(s, r, i);
    StrippedSnoc(s, r, i, c);
    StrippedIsStrip(s + [c], r, i);
  }

  /** The same, for a suffix of `s` that ends in whitespace. */
  lemma StripFinalSpace(s: string, a: nat)
    requires a < |s| && IsSpace(s[|s| - 1])
    ensures Strip(s[a..|s| - 1]) == Strip(s[a..])
  {
    var t := s[a..|s| - 1];
    assert s[a..] == t + [s[|s| - 1]];
    StripTrailingSpace(t, s[|s| - 1]);
  }

  /** ASCII case mapping; see the README for why this is exact where it is used. */
  function LowerChar(c: char): char {
    if 'A' <= c <= 'Z' then (c as int + 32) as char else c
  }

  function UpperChar(c: char): char {
    if 'a' <= c <= 'z' then (c as int - 32) as char else c
  }

  /** `s.lower()` */
  function Lower(s: string): (r: string)
    ensures |r| == |s| && forall k :: 0 <= k < |s| ==> r[k] == LowerChar(s[k])
  {
    seq(|s|, k requires 0 <= k < |s| => LowerChar(s[k]))
  }

  /** `s.upper()` */
  function Upper(s: string): (r: string)
    ensures |r| == |s| && forall k :: 0 <= k < |s| ==> r[k] == UpperChar(s[k])
  {
    seq(|s|, k requires 0 <= k < |s| => UpperChar(s[k]))
  }

  /** Every character is ASCII, where Python's case mapping and this one agree. */
  predicate IsAscii(s: string) {
    forall k :: 0 <= k < |s| ==> s[k] < 128 as char
  }

  /** Lower-casing forgets an upper-casing done before it. */
  lemma LowerOfUpper(s: string)
    ensures Lower(Upper(s)) == Lower(s)
  {
  }

  /** `t` occurs in `s` starting at index `i`. */
  predicate OccursAt(s: string, t: string, i: int) {
    0 <= i && i + |t| <= |s| && s[i..i + |t|] == t
  }

  /** `s.startswith(p)` */
  predicate StartsWith(s: string, p: string) {
    OccursAt(s, p, 0)
  }

  /** `s.find(t, from)`: the first occurrence of `t` at or after `from`. */
  function Find(s: string, t: string, from: nat): (r: Option<nat>)
    ensures r.Some? ==> from <= r.value && OccursAt(s, t, r.value)
    ensures r.Some? ==> forall j :: from <= j < r.value ==> !OccursAt(s, t, j)
    ensures r.None? ==> forall j :: from <= j ==> !OccursAt(s, t, j)
    decreases |s| - from
  {
    if from + |t| > |s| then None
    else if OccursAt(s, t, from) then Some(from)
    else Find(s, t, from + 1)
  }

  /** `t in s` */
  predicate Contains(s: string, t: string)
    ensures Contains(s, t) <==> exists i :: OccursAt(s, t, i)
  {
    Find(s, t, 0).Some?
  }

  /** `sep.join(parts)` */
  function Join(sep: string, parts: seq<string>): string {
    if |parts| == 0 then ""
    else if |parts| == 1 then parts[0]
    else parts[0] + sep + Join(sep, parts[1..])
  }

  /** Appending a part appends the separator and the part. */
  lemma {:induction false} JoinSnoc(sep: string, parts: seq<string>, x: string)
    ensures Join(sep, parts + [x]) == if parts == [] then x else Join(sep, parts) + sep + x
  {
    if |parts| == 1 {
      assert (parts + [x])[1..] == [x];
    } else if |parts| > 1 {
      assert (parts + [x])[1..] == parts[1..] + [x];
      JoinSnoc(sep, parts[1..], x);
    }
  }

  /** Where `parts[k]` starts in `Join(sep, parts)`. */
  function JoinOffset(sep: string, parts: seq<string>, k: nat): nat
    requires k < |parts|
  {
    if k == 0 then 0 else |parts[0]| + |sep| + JoinOffset(sep, parts[1..], k - 1)
  }

  /** An occurrence stays an occurrence behind a prefix. */
  lemma OccursBehind(head: string, rest: string, t: string, o: int)
    requires OccursAt(rest, t, o)
    ensures OccursAt(head + rest, t, |head| + o)
  {
    assert (head + rest)[|head| + o..|head| + o + |t|] == rest[o..o + |t|];
  }

  /**
   * The joined text is the parts in their order with the separator between
   * neighbours, and nothing else.
   */
  lemma {:induction false} JoinParts(sep: string, parts: seq<string>, k: nat)
    requires k < |parts|
    ensures OccursAt(Join(sep, parts), parts[k], JoinOffset(sep, parts, k))
    ensures k + 1 < |parts| ==> OccursAt(Join(sep, parts), sep, JoinOffset(sep, parts, k) + |parts[k]|)
    ensures k + 1 == |parts| ==> |Join(sep, parts)| == JoinOffset(sep, parts, k) + |parts[k]|
  {
    if |parts| > 1 {
      var rest := Join(sep, parts[1..]);
      var head := parts[0] + sep;
      assert Join(sep, parts) == head + rest;
      if k > 0 {
        JoinParts(sep, parts[1..], k - 1);
        var o := JoinOffset(sep, parts[1..], k - 1);
        assert parts[1..][k - 1] == parts[k];
        OccursBehind(head, rest, parts[k], o);
        if k + 1 < |parts| {
          OccursBehind(head, rest, sep, o + |parts[k]|);
        }
      } else {
        assert (head + rest)[..|parts[0]|] == parts[0];
        assert (head + rest)[|parts[0]|..|parts[0]| + |sep|] == sep;
      }
    }
  }
}
