/**
 * The Python string primitives the bot relies on: str.isspace(), str.strip()
 * with no argument, and str.split(sep) with a one-character separator.
 */
module Text {

  /** Python's str.isspace() on one character (Unicode White_Space as CPython defines it). */
  predicate IsSpace(c: char)
  {
    || c == ' '
    || '\t' <= c <= '\r'
    || '\U{1C}' <= c <= '\U{1F}'
    || c == '\U{85}' || c == '\U{A0}' || c == '\U{1680}'
    || '\U{2000}' <= c <= '\U{200A}'
    || c == '\U{2028}' || c == '\U{2029}' || c == '\U{202F}' || c == '\U{205F}' || c == '\U{3000}'
  }

  predicate AllSpace(s: string)
  {
    forall i :: 0 <= i < |s| ==> IsSpace(s[i])
  }

  /** Drops leading white space (the left half of str.strip()). */
  function TrimStart(s: string): string
  {
    if s != [] && IsSpace(s[0]) then TrimStart(s[1..]) else s
  }

  /** Drops trailing white space (the right half of str.strip()). */
  function TrimEnd(s: string): string
  {
    if s != [] && IsSpace(s[|s| - 1]) then TrimEnd(s[..|s| - 1]) else s
  }

  /** Python's s.strip(). */
  function Strip(s: string): string
  {
    TrimEnd(TrimStart(s))
  }

  /** TrimStart returns the suffix that starts at the first non-space. */
  lemma {:induction false} TrimStartSpec(s: string)
    ensures |TrimStart(s)| <= |s| && TrimStart(s) == s[|s| - |TrimStart(s)|..]
    ensures AllSpace(s[..|s| - |TrimStart(s)|])
    ensures TrimStart(s) == [] || !IsSpace(TrimStart(s)[0])
  {
    if s != [] && IsSpace(s[0]) {
      TrimStartSpec(s[1..]);
      var k := |s[1..]| - |TrimStart(s[1..])|;
      assert s[..k + 1] == [s[0]] + s[1..][..k];
    }
  }

  /** TrimEnd returns the prefix that ends at the last non-space. */
  lemma {:induction false} TrimEndSpec(s: string)
    ensures |TrimEnd(s)| <= |s| && TrimEnd(s) == s[..|TrimEnd(s)|]
    ensures AllSpace(s[|TrimEnd(s)|..])
    ensures TrimEnd(s) == [] || !IsSpace(TrimEnd(s)[|TrimEnd(s)| - 1])
  {
    if s != [] && IsSpace(s[|s| - 1]) {
      var t := s[..|s| - 1];
      TrimEndSpec(t);
      var k := |TrimEnd(t)|;
      assert s[k..] == t[k..] + [s[|s| - 1]];
    }
  }

  /** What strip() returns: the slice between the white space at both ends. */
  lemma StripBounds(s: string) returns (lo: nat, hi: nat)
    ensures lo <= hi <= |s| && Strip(s) == s[lo..hi]
    ensures AllSpace(s[..lo]) && AllSpace(s[hi..])
    ensures Strip(s) == [] || (!IsSpace(Strip(s)[0]) && !IsSpace(Strip(s)[|Strip(s)| - 1]))
  {
    var t := TrimStart(s);
    TrimStartSpec(s);
    TrimEndSpec(t);
    lo := |s| - |t|;
    hi := lo + |TrimEnd(t)|;
    assert s[hi..] == t[|TrimEnd(t)|..];
  }

  lemma {:induction false} TrimStartUnique(s: string, k: nat)
    requires k <= |s| && AllSpace(s[..k])
    requires k == |s| || !IsSpace(s[k])
    ensures TrimStart(s) == s[k..]
  {
    if k > 0 {
      assert s[..k][0] == s[0];
      assert s[1..][..k - 1] == s[..k][1..];
      TrimStartUnique(s[1..], k - 1);
    }
  }

  lemma {:induction false} TrimEndUnique(s: string, k: nat)
    requires k <= |s| && AllSpace(s[k..])
    requires k == 0 || !IsSpace(s[k - 1])
    ensures TrimEnd(s) == s[..k]
  {
    if k < |s| {
      assert s[k..][|s| - 1 - k] == s[|s| - 1];
      assert s[..|s| - 1][k..] == s[k..][..|s| - 1 - k];
      TrimEndUnique(s[..|s| - 1], k);
    }
  }

  lemma AllSpaceConcat(a: string, b: string)
    requires AllSpace(a) && AllSpace(b)
    ensures AllSpace(a + b)
  {
  }

  lemma StripAllSpace(s: string)
    requires AllSpace(s)
    ensures Strip(s) == []
  {
    assert s[..|s|] == s;
    TrimStartUnique(s, |s|);
  }

  /** strip() is characterised by its bounds: any slice with white space around it and none at its ends is the result. */
  lemma StripUnique(s: string, lo: nat, hi: nat)
    requires lo <= hi <= |s| && AllSpace(s[..lo]) && AllSpace(s[hi..])
    requires lo == hi || (!IsSpace(s[lo]) && !IsSpace(s[hi - 1]))
    ensures Strip(s) == s[lo..hi]
  {
    if lo == hi {
      assert s == s[..lo] + s[hi..];
      AllSpaceConcat(s[..lo], s[hi..]);
      StripAllSpace(s);
    } else {
      TrimStartUnique(s, lo);
      StripTail(s[lo..], hi - lo);
    }
  }

  /** A string with no white space at either end is its own strip(). */
  lemma StripTrimmed(s: string)
    requires s == [] || (!IsSpace(s[0]) && !IsSpace(s[|s| - 1]))
    ensures Strip(s) == s
  {
    assert s[..0] == [] && s[|s|..] == [] && s[0..|s|] == s;
    StripUnique(s, 0, |s|);
  }

  lemma StripTail(t: string, k: nat)
    requires 0 < k <= |t| && AllSpace(t[k..]) && !IsSpace(t[k - 1])
    ensures TrimEnd(t) == t[..k]
  {
    TrimEndUnique(t, k);
  }

  /** strip() returns the empty string exactly on all-white-space input. */
  lemma StripEmpty(s: string)
    ensures Strip(s) == [] <==> AllSpace(s)
  {
    var lo, hi := StripBounds(s);
    if Strip(s) == [] {
      assert s == s[..lo] + s[hi..];
      AllSpaceConcat(s[..lo], s[hi..]);
    }
    if AllSpace(s) {
      assert s[..|s|] == s;
      StripUnique(s, |s|, |s|);
    }
  }

  lemma {:induction false} TrimStartSkipsSpace(p: string, y: string)
    requires AllSpace(p)
    ensures TrimStart(p + y) == TrimStart(y)
  {
    if p != [] {
      assert (p + y)[0] == p[0];
      assert (p + y)[1..] == p[1..] + y;
      TrimStartSkipsSpace(p[1..], y);
    } else {
      assert p + y == y;
    }
  }

  lemma {:induction false} TrimEndSkipsSpace(y: string, q: string)
    requires AllSpace(q)
    ensures TrimEnd(y + q) == TrimEnd(y)
  {
    if q != [] {
      var n := |y + q|;
      assert (y + q)[n - 1] == q[|q| - 1];
      assert (y + q)[..n - 1] == y + q[..|q| - 1];
      TrimEndSkipsSpace(y, q[..|q| - 1]);
    } else {
      assert y + q == y;
    }
  }

  lemma {:induction false} TrimStartKeepsTail(x: string, q: string)
    requires !AllSpace(x)
    ensures TrimStart(x + q) == TrimStart(x) + q
  {
    assert x != [];
    assert (x + q)[0] == x[0];
    if IsSpace(x[0]) {
      assert (x + q)[1..] == x[1..] + q;
      TrimStartKeepsTail(x[1..], q);
    }
  }

  /** White space around a string does not change what strip() returns. */
  lemma StripPadded(p: string, x: string, q: string)
    requires AllSpace(p) && AllSpace(q)
    ensures Strip(p + x + q) == Strip(x)
  {
    assert p + x + q == p + (x + q);
    TrimStartSkipsSpace(p, x + q);
    if AllSpace(x) {
      AllSpaceConcat(x, q);
      StripAllSpace(x + q);
      StripAllSpace(x);
    } else {
      TrimStartKeepsTail(x, q);
      TrimEndSkipsSpace(TrimStart(x), q);
    }
  }

  lemma StripAfterSpace(p: string, x: string)
    requires AllSpace(p)
    ensures Strip(p + x) == Strip(x)
  {
    assert p + x + "" == p + x;
    StripPadded(p, x, "");
  }

  lemma StripBeforeSpace(x: string, q: string)
    requires AllSpace(q)
    ensures Strip(x + q) == Strip(x)
  {
    assert "" + x + q == x + q;
    StripPadded("", x, q);
  }

  function CountChar(s: string, c: char): nat
  {
    if s == [] then 0 else (if s[0] == c then 1 else 0) + CountChar(s[1..], c)
  }

  lemma {:induction false} CountCharMember(s: string, c: char)
    ensures CountChar(s, c) > 0 <==> c in s
  {
    if s != [] {
      CountCharMember(s[1..], c);
      assert s == [s[0]] + s[1..];
    }
  }

  lemma {:induction false} CountCharConcat(a: string, b: string, c: char)
    ensures CountChar(a + b, c) == CountChar(a, c) + CountChar(b, c)
  {
    if a != [] {
      CountCharConcat(a[1..], b, c);
      assert (a + b)[0] == a[0];
      assert (a + b)[1..] == a[1..] + b;
    } else {
      assert a + b == b;
    }
  }

  /** Joins pieces with a separator between each pair: the inverse of Split. */
  function Join(parts: seq<string>, sep: char): string
  {
    if parts == [] then "" else if |parts| == 1 then parts[0] else parts[0] + [sep] + Join(parts[1..], sep)
  }

  /** Python's s.split(sep): the maximal separator-free pieces, one more than there are separators. */
  function Split(s: string, sep: char): (r: seq<string>)
    ensures |r| == CountChar(s, sep) + 1
    ensures forall i :: 0 <= i < |r| ==> sep !in r[i]
    ensures Join(r, sep) == s
  {
    if s == [] then [""]
    else
      var rest := Split(s[1..], sep);
      if s[0] == sep then
        [""] + rest
      else
        assert s == [s[0]] + s[1..];
        [[s[0]] + rest[0]] + rest[1..]
  }

  /** Splitting what Join produced gives the pieces back. */
  lemma {:induction false} SplitJoin(parts: seq<string>, sep: char)
    requires parts != []
    requires forall i :: 0 <= i < |parts| ==> sep !in parts[i]
    ensures Split(Join(parts, sep), sep) == parts
  {
    if |parts| == 1 {
      SplitNoSeparator(parts[0], sep);
    } else {
      SplitJoin(parts[1..], sep);
      SplitPrefix(parts[0], Join(parts[1..], sep), sep);
    }
  }

  lemma {:induction false} SplitNoSeparator(s: string, sep: char)
    requires sep !in s
    ensures Split(s, sep) == [s]
  {
    if s != [] {
      SplitNoSeparator(s[1..], sep);
    }
  }

  lemma {:induction false} SplitPrefix(a: string, b: string, sep: char)
    requires sep !in a
    ensures Split(a + [sep] + b, sep) == [a] + Split(b, sep)
  {
    if a != [] {
      assert (a + [sep] + b)[1..] == a[1..] + [sep] + b;
      SplitPrefix(a[1..], b, sep);
      assert [a[0]] + a[1..] == a;
    } else {
      assert a + [sep] + b == [sep] + b;
    }
  }
}
