/** The string operations of the job: Python's `str.strip()` and `', '.join(...)`,
    with the splitting that undoes the join. */
module Text {

  /** The characters Python's `str.isspace()` accepts; `str.strip()` without an
      argument removes exactly these from both ends. */
  predicate IsSpace(c: char) {
    || c == ' '
    || '\t' <= c <= '\r'
    || '\U{1C}' <= c <= '\U{1F}'
    || c == '\U{85}' || c == '\U{A0}' || c == '\U{1680}'
    || '\U{2000}' <= c <= '\U{200A}'
    || c == '\U{2028}' || c == '\U{2029}' || c == '\U{202F}' || c == '\U{205F}' || c == '\U{3000}'
  }

  predicate AllSpace(s: string) {
    forall i :: 0 <= i < |s| ==> IsSpace(s[i])
  }

  /** `s` with its leading whitespace removed. */
  function TrimStart(s: string): (r: string)
    ensures |r| <= |s| && r == s[|s| - |r|..]
    ensures AllSpace(s[..|s| - |r|])
    ensures |r| > 0 ==> !IsSpace(r[0])
    decreases |s|
  {
    if |s| > 0 && IsSpace(s[0]) then TrimStart(s[1..]) else s
  }

  /** `s` with its trailing whitespace removed. */
  function TrimEnd(s: string): (r: string)
    ensures |r| <= |s| && r == s[..|r|]
    ensures AllSpace(s[|r|..])
    ensures |r| > 0 ==> !IsSpace(r[|r| - 1])
    decreases |s|
  {
    if |s| > 0 && IsSpace(s[|s| - 1]) then
      var init := s[..|s| - 1];
      var r := TrimEnd(init);
      assert init[..|r|] == s[..|r|];
      assert s[|r|..] == init[|r|..] + [s[|s| - 1]];
      r
    else s
  }

  /** Python's `s.strip()`: the part of `s` left once the whitespace at both ends
      is cut away. It is empty exactly when `s` is all whitespace, and otherwise
      neither starts nor ends with whitespace. */
  function Strip(s: string): (r: string)
    ensures exists i, j :: 0 <= i <= j <= |s| && r == s[i..j] && AllSpace(s[..i]) && AllSpace(s[j..])
    ensures |r| == 0 <==> AllSpace(s)
    ensures |r| > 0 ==> !IsSpace(r[0]) && !IsSpace(r[|r| - 1])
  {
    var t := TrimStart(s);
    var r := TrimEnd(t);
    StripEmptyIffSpace(s, t, r);
    StripInfix(s, t, r);
    assert |r| > 0 ==> r[0] == t[0];
    r
  }

  /** Trimming the start and then the end leaves a slice of `s` with only
      whitespace cut off on either side. */
  lemma StripInfix(s: string, t: string, r: string)
    requires |t| <= |s| && t == s[|s| - |t|..] && AllSpace(s[..|s| - |t|])
    requires |r| <= |t| && r == t[..|r|] && AllSpace(t[|r|..])
    ensures exists i, j :: 0 <= i <= j <= |s| && r == s[i..j] && AllSpace(s[..i]) && AllSpace(s[j..])
  {
    var i := |s| - |t|;
    var j := i + |r|;
    SliceOfSuffix(s, i, |r|);
    assert r == s[i..j];
    assert AllSpace(s[j..]);
  }

  /** Slicing a suffix is slicing the whole. */
  lemma SliceOfSuffix<T>(s: seq<T>, i: nat, n: nat)
    requires i + n <= |s|
    ensures s[i..][..n] == s[i..i + n] && s[i..][n..] == s[i + n..]
  {
  }

  lemma StripEmptyIffSpace(s: string, t: string, r: string)
    requires t == TrimStart(s) && r == TrimEnd(t)
    ensures |r| == 0 <==> AllSpace(s)
  {
    if |r| == 0 {
      assert AllSpace(t) by {
        assert t[|r|..] == t;
      }
      assert |t| == 0;
      forall i | 0 <= i < |s|
        ensures IsSpace(s[i])
      {
        assert s[i] == s[..|s| - |t|][i];
      }
    }

  }

  /** Stripping is idempotent: a stripped string has nothing left to strip. */
  lemma StripIdempotent(s: string)
    ensures Strip(Strip(s)) == Strip(s)
  {
    StripUnchanged(Strip(s));
  }

  /** A string without whitespace at either end is its own strip. */
  lemma StripUnchanged(s: string)
    requires |s| == 0 || (!IsSpace(s[0]) && !IsSpace(s[|s| - 1]))
    ensures Strip(s) == s
  {
  }

  /** Whitespace around `s` does not change what `strip()` leaves. */
  lemma StripSurrounded(pre: string, s: string, post: string)
    requires AllSpace(pre) && AllSpace(post)
    ensures Strip(pre + s + post) == Strip(s)
  {
    var x := pre + s + post;
    assert x == pre + (s + post);
    TrimStartSpacePrefix(pre, s + post);
    if AllSpace(s) {
      StripSpaceThenSpace(s, post);
    } else {
      StripTextThenSpace(s, post);
    }
  }

  /** Whitespace followed by whitespace strips to nothing, as whitespace does. */
  lemma StripSpaceThenSpace(s: string, post: string)
    requires AllSpace(s) && AllSpace(post)
    ensures TrimEnd(TrimStart(s + post)) == Strip(s)
  {
    assert AllSpace(s + post);
    TrimStartAllSpace(s + post);
    TrimStartAllSpace(s);
  }

  /** Trailing whitespace after text that is not all whitespace is cut by the
      end trim. */
  lemma StripTextThenSpace(s: string, post: string)
    requires !AllSpace(s) && AllSpace(post)
    ensures TrimEnd(TrimStart(s + post)) == Strip(s)
  {
    TrimStartSpaceSuffix(s, post);
    TrimEndSpaceSuffix(TrimStart(s), post);
  }

  lemma TrimStartAllSpace(s: string)
    requires AllSpace(s)
    ensures TrimStart(s) == []
  {
  }

  lemma {:induction false} TrimStartSpacePrefix(pre: string, s: string)
    requires AllSpace(pre)
    ensures TrimStart(pre + s) == TrimStart(s)
    decreases |pre|
  {
    if |pre| > 0 {
      assert (pre + s)[1..] == pre[1..] + s;
      TrimStartSpacePrefix(pre[1..], s);
    } else {
      assert pre + s == s;
    }
  }

  lemma {:induction false} TrimStartSpaceSuffix(s: string, post: string)
    requires !AllSpace(s)
    ensures TrimStart(s + post) == TrimStart(s) + post
    decreases |s|
  {
    assert |s| > 0;
    if IsSpace(s[0]) {
      assert (s + post)[1..] == s[1..] + post;
      TrimStartSpaceSuffix(s[1..], post);
    }
  }

  lemma {:induction false} TrimEndSpaceSuffix(s: string, post: string)
    requires AllSpace(post)
    ensures TrimEnd(s + post) == TrimEnd(s)
    decreases |post|
  {
    if |post| > 0 {
      var t := s + post;
      assert t[..|t| - 1] == s + post[..|post| - 1];
      TrimEndSpaceSuffix(s, post[..|post| - 1]);
    } else {
      assert s + post == s;
    }
  }

  /** Python's `sep.join(parts)`: the parts in order with one separator between
      neighbours, so it begins with the first part and ends with the last. */
  function Join(parts: seq<string>, sep: string): (r: string)
    ensures |r| == TotalLength(parts) + (if |parts| == 0 then 0 else (|parts| - 1) * |sep|)
    ensures |parts| > 0 ==> r[..|parts[0]|] == parts[0]
    ensures |parts| > 0 ==> |parts[|parts| - 1]| <= |r| && r[|r| - |parts[|parts| - 1]|..] == parts[|parts| - 1]
    decreases |parts|
  {
    if |parts| == 0 then ""
    else if |parts| == 1 then parts[0]
    else
      var rest := Join(parts[1..], sep);
      var last := parts[|parts| - 1];
      assert parts[1..][|parts| - 2] == last;
      assert (|parts| - 1) * |sep| == |sep| + (|parts| - 2) * |sep|;
      var r := parts[0] + sep + rest;
      assert r[|r| - |last|..] == rest[|rest| - |last|..];
      r
  }

  /** The summed length of the parts. */
  function TotalLength(parts: seq<string>): nat
    decreases |parts|
  {
    if |parts| == 0 then 0 else |parts[0]| + TotalLength(parts[1..])
  }

  /** Position of the first occurrence of `sep` in `s`, or `|s|` when there is none. */
  function FindSep(s: string, sep: string): (i: nat)
    requires |sep| > 0
    ensures i <= |s|
    ensures i < |s| ==> i + |sep| <= |s| && s[i..i + |sep|] == sep
    decreases |s|
  {
    if |s| < |sep| then |s|
    else if s[..|sep|] == sep then 0
    else 1 + FindSep(s[1..], sep)
  }

  /** Python's `s.split(sep)`. */
  function Split(s: string, sep: string): (parts: seq<string>)
    requires |sep| > 0
    ensures |parts| >= 1
    decreases |s|
  {
    var i := FindSep(s, sep);
    if i == |s| then [s] else [s[..i]] + Split(s[i + |sep|..], sep)
  }

  lemma {:induction false} FindSepAbsent(s: string, sep: string)
    requires |sep| > 0 && sep[0] !in s
    ensures FindSep(s, sep) == |s|
    decreases |s|
  {
    if |s| >= |sep| {
      assert s[..|sep|][0] == s[0];
      FindSepAbsent(s[1..], sep);
    }
  }

  lemma {:induction false} FindSepAfter(p: string, sep: string, rest: string)
    requires |sep| > 0 && sep[0] !in p
    ensures FindSep(p + sep + rest, sep) == |p|
    decreases |p|
  {
    var s := p + sep + rest;
    if |p| == 0 {
      assert s[..|sep|] == sep;
    } else {
      assert s[..|sep|][0] == p[0];
      assert s[1..] == p[1..] + sep + rest;
      FindSepAfter(p[1..], sep, rest);
    }
  }

  /** Splitting undoes joining, as long as no part contains the separator's first
      character (so no separator can start inside a part). */
  lemma {:induction false} SplitJoin(parts: seq<string>, sep: string)
    requires |sep| > 0 && |parts| > 0
    requires forall i :: 0 <= i < |parts| ==> sep[0] !in parts[i]
    ensures Split(Join(parts, sep), sep) == parts
    decreases |parts|
  {
    if |parts| == 1 {
      assert Join(parts, sep) == parts[0];
      FindSepAbsent(parts[0], sep);
    } else {
      var tail := parts[1..];
      var rest := Join(tail, sep);
      assert Join(parts, sep) == parts[0] + sep + rest;
      SplitAfterFirst(parts[0], sep, rest);
      forall j | 0 <= j < |tail|
        ensures sep[0] !in tail[j]
      {
        assert tail[j] == parts[j + 1];
      }
      SplitJoin(tail, sep);
      assert parts == [parts[0]] + tail;
    }
  }

  /** A separator after a part free of its first character is where the split cuts. */
  lemma SplitAfterFirst(p: string, sep: string, rest: string)
    requires |sep| > 0 && sep[0] !in p
    ensures Split(p + sep + rest, sep) == [p] + Split(rest, sep)
  {
    var s := p + sep + rest;
    var i := |p|;
    FindSepAfter(p, sep, rest);
    assert s[..i] == p;
    assert s[i + |sep|..] == rest;
  }
}
