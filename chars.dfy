/**
 * Character classes and trimming as the JavaScript code uses them. Regular-expression `\s`
 * and `String.prototype.trim` are modelled by the fixed ASCII whitespace set below.
 */
module Chars {

  /** Space, tab, line feed, vertical tab, form feed and carriage return. */
  predicate IsWhitespace(c: char) {
    c == ' ' || c == '\t' || c == '\n' || c == '\U{0B}' || c == '\U{0C}' || c == '\r'
  }

  /** `[0-9]`, which is also `\d` without the unicode flag. */
  predicate IsDigit(c: char) {
    '0' <= c <= '9'
  }

  /** `[A-Za-z0-9]`. */
  predicate IsAlnum(c: char) {
    'A' <= c <= 'Z' || 'a' <= c <= 'z' || IsDigit(c)
  }

  /** True when the string is empty or holds only whitespace. */
  predicate IsBlank(s: string) {
    forall i :: 0 <= i < |s| ==> IsWhitespace(s[i])
  }

  /** `s` without its leading whitespace: the longest suffix of `s` that starts with a non-whitespace character. */
  function TrimStart(s: string): (r: string)
    ensures |r| <= |s|
    ensures r == [] || !IsWhitespace(r[0])
    ensures forall i :: 0 <= i < |s| - |r| ==> IsWhitespace(s[i])
  {
    if s != [] && IsWhitespace(s[0]) then TrimStart(s[1..]) else s
  }

  /** `s` without its trailing whitespace: the longest prefix of `s` that ends with a non-whitespace character. */
  function TrimEnd(s: string): (r: string)
    ensures |r| <= |s|
    ensures r == [] || !IsWhitespace(r[|r| - 1])
    ensures forall i :: |r| <= i < |s| ==> IsWhitespace(s[i])
  {
    if s != [] && IsWhitespace(s[|s| - 1]) then TrimEnd(s[..|s| - 1]) else s
  }

  /** `TrimStart(s)` is the suffix of `s` that starts where the leading whitespace ends. */
  lemma {:induction false} TrimStartIsSuffix(s: string)
    ensures TrimStart(s) == s[|s| - |TrimStart(s)|..]
  {
    if s != [] && IsWhitespace(s[0]) {
      TrimStartIsSuffix(s[1..]);
      assert s[1..][|s| - 1 - |TrimStart(s)|..] == s[|s| - |TrimStart(s)|..];
    }
  }

  /** `TrimEnd(s)` is the prefix of `s` that ends where the trailing whitespace starts. */
  lemma {:induction false} TrimEndIsPrefix(s: string)
    ensures TrimEnd(s) == s[..|TrimEnd(s)|]
  {
    if s != [] && IsWhitespace(s[|s| - 1]) {
      TrimEndIsPrefix(s[..|s| - 1]);
      assert s[..|s| - 1][..|TrimEnd(s)|] == s[..|TrimEnd(s)|];
    }
  }

  /** Leading whitespace removal empties exactly the blank strings. */
  lemma TrimStartEmpty(s: string)
    ensures TrimStart(s) == [] <==> IsBlank(s)
  {
    var t := TrimStart(s);
    if t != [] {
      TrimStartIsSuffix(s);
      assert s[|s| - |t|] == t[0];
    }
  }

  /** `String.prototype.trim`. */
  function Trim(s: string): (r: string)
    ensures |r| <= |s|
    ensures r == [] || (!IsWhitespace(r[0]) && !IsWhitespace(r[|r| - 1]))
    ensures r == [] <==> IsBlank(s)
  {
    var t := TrimStart(s);
    TrimStartEmpty(s);
    TrimEndIsPrefix(t);
    assert t != [] ==> TrimEnd(t) != [] by {
      if t != [] {
        assert !IsWhitespace(t[0]);
      }
    }
    TrimEnd(t)
  }

  /** The trimmed string is a contiguous slice of `s`: it starts at `TrimOffset(s)`. */
  function TrimOffset(s: string): (k: nat)
    ensures k + |Trim(s)| <= |s| && Trim(s) == s[k..k + |Trim(s)|]
  {
    TrimStartIsSuffix(s);
    TrimEndIsPrefix(TrimStart(s));
    |s| - |TrimStart(s)|
  }

  /** What `TrimStart` drops is blank. */
  lemma TrimStartDropsBlank(s: string)
    ensures IsBlank(s[..|s| - |TrimStart(s)|])
  {
    var k := |s| - |TrimStart(s)|;
    forall i | 0 <= i < k ensures IsWhitespace(s[..k][i]) {
      assert s[..k][i] == s[i];
    }
  }

  /** What `TrimEnd` drops is blank. */
  lemma TrimEndDropsBlank(s: string)
    ensures IsBlank(s[|TrimEnd(s)|..])
  {
    var k := |TrimEnd(s)|;
    forall i | 0 <= i < |s| - k ensures IsWhitespace(s[k..][i]) {
      assert s[k..][i] == s[k + i];
    }
  }

  lemma SplitThree(s: string, a: nat, b: nat)
    requires a <= b <= |s|
    ensures s == s[..a] + s[a..b] + s[b..]
  {
    assert s[..a] + s[a..b] == s[..b];
    assert s[..b] + s[b..] == s;
  }

  /** `s` is its trimmed slice surrounded by the blank text that trimming removed. */
  lemma TrimSplit(s: string)
    ensures var k := TrimOffset(s); var t := Trim(s);
      s == s[..k] + t + s[k + |t|..] && IsBlank(s[..k]) && IsBlank(s[k + |t|..])
  {
    var k := TrimOffset(s);
    var t := Trim(s);
    SplitThree(s, k, k + |t|);
    TrimStartDropsBlank(s);
    var u := TrimStart(s);
    assert IsBlank(s[k + |t|..]) by {
      TrimStartIsSuffix(s);
      assert s[k + |t|..] == u[|t|..];
      TrimEndDropsBlank(u);
    }
  }

  /** Leading whitespace removal stops at a non-whitespace character, so what follows it is kept. */
  lemma {:induction false} TrimStartAppend(a: string, b: string)
    requires b != [] && !IsWhitespace(b[0])
    ensures TrimStart(a + b) == TrimStart(a) + b
  {
    if a != [] && IsWhitespace(a[0]) {
      assert (a + b)[1..] == a[1..] + b;
      TrimStartAppend(a[1..], b);
    }
  }

  /** Leading whitespace removal stays inside `a` when `a` is not blank, so `b` is kept whole. */
  lemma {:induction false} TrimStartNonBlankAppend(a: string, b: string)
    requires !IsBlank(a)
    ensures TrimStart(a + b) == TrimStart(a) + b
  {
    if IsWhitespace(a[0]) {
      assert (a + b)[1..] == a[1..] + b;
      assert !IsBlank(a[1..]) by {
        var i :| 0 <= i < |a| && !IsWhitespace(a[i]);
        assert a[1..][i - 1] == a[i];
      }
      TrimStartNonBlankAppend(a[1..], b);
    }
  }

  /** A string that ends in a non-whitespace character still does so without its leading whitespace. */
  lemma TrimStartKeepsEnd(s: string)
    requires s != [] && !IsWhitespace(s[|s| - 1])
    ensures !IsBlank(s)
    ensures TrimStart(s) != [] && !IsWhitespace(TrimStart(s)[|TrimStart(s)| - 1])
  {
    TrimStartEmpty(s);
    TrimStartIsSuffix(s);
    var t := TrimStart(s);
    assert t[|t| - 1] == s[|s| - 1];
  }

  /** A string with whitespace at neither end is its own trim. */
  lemma TrimFixpoint(s: string)
    requires s == [] || (!IsWhitespace(s[0]) && !IsWhitespace(s[|s| - 1]))
    ensures Trim(s) == s
  {
  }
}
