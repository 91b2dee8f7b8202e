/** The few Python string operations the application relies on:
    `str.strip()`, `str.lower()` and the substring test `w in s`. */
module Text {

  /** Python's `str.isspace()` for a single character: the ASCII controls
      TAB..CR and FS..US, the space, and the Unicode separators. */
  predicate IsSpace(c: char) {
    var n := c as int;
    if n <= 0x20 then 0x09 <= n <= 0x0D || 0x1C <= n
    else if n < 0x1680 then n == 0x85 || n == 0xA0
    else n == 0x1680 || 0x2000 <= n <= 0x200A || n == 0x2028 || n == 0x2029
         || n == 0x202F || n == 0x205F || n == 0x3000
  }

  predicate AllSpace(s: string) {
    forall i :: 0 <= i < |s| ==> IsSpace(s[i])
  }

  /** `s` neither starts nor ends with whitespace. */
  predicate IsStripped(s: string) {
    s != [] ==> !IsSpace(s[0]) && !IsSpace(s[|s| - 1])
  }

  /** `str.lstrip()`: drops the leading whitespace. */
  function TrimStart(s: string): string {
    if s != [] && IsSpace(s[0]) then TrimStart(s[1..]) else s
  }

  /** `str.rstrip()`: drops the trailing whitespace. */
  function TrimEnd(s: string): string {
    if s != [] && IsSpace(s[|s| - 1]) then TrimEnd(s[..|s| - 1]) else s
  }

  /** `str.strip()`. */
  function Strip(s: string): string {
    TrimEnd(TrimStart(s))
  }

  /** `lstrip` removes a run of whitespace from the front and stops at the
      first other character. */
  lemma {:induction false} TrimStartSpec(s: string)
    ensures |TrimStart(s)| <= |s| && TrimStart(s) == s[|s| - |TrimStart(s)|..]
    ensures AllSpace(s[..|s| - |TrimStart(s)|])
    ensures TrimStart(s) != [] ==> !IsSpace(TrimStart(s)[0])
  {
    if s != [] && IsSpace(s[0]) {
      TrimStartSpec(s[1..]);
      var r := TrimStart(s);
      assert s[..|s| - |r|] == [s[0]] + s[1..][..|s| - 1 - |r|];
    }
  }

  /** `rstrip` removes a run of whitespace from the back and stops at the
      last other character. */
  lemma {:induction false} TrimEndSpec(s: string)
    ensures |TrimEnd(s)| <= |s| && TrimEnd(s) == s[..|TrimEnd(s)|]
    ensures AllSpace(s[|TrimEnd(s)|..])
    ensures TrimEnd(s) != [] ==> !IsSpace(TrimEnd(s)[|TrimEnd(s)| - 1])
  {
    if s != [] && IsSpace(s[|s| - 1]) {
      var t := s[..|s| - 1];
      TrimEndSpec(t);
      var r := TrimEnd(s);
      assert s[|r|..] == t[|r|..] + [s[|s| - 1]];
    }
  }

  /** The result of `strip` is empty exactly when `s` is all whitespace,
      and otherwise neither starts nor ends with whitespace. */
  lemma StripSpec(s: string)
    ensures IsStripped(Strip(s))
    ensures |Strip(s)| <= |s|
    ensures Strip(s) == [] <==> AllSpace(s)
    ensures exists a, b :: 0 <= a <= b <= |s| && Strip(s) == s[a..b] && AllSpace(s[..a]) && AllSpace(s[b..])
  {
    var t := TrimStart(s);
    var r := TrimEnd(t);
    TrimStartSpec(s);
    TrimEndSpec(t);
    var a := |s| - |t|;
    assert r == s[a..a + |r|];
    assert t[|r|..] == s[a + |r|..];
    assert r != [] ==> r[0] == t[0];
    assert t != [] ==> t[0] == s[|s| - |t|];
    assert t == [] ==> s[..|s| - |t|] == s;
  }

  /** Stripping changes nothing once there is nothing to strip, so
      stripping twice is stripping once. */
  lemma StripFixes(s: string)
    requires IsStripped(s)
    ensures Strip(s) == s
  {
    assert TrimStart(s) == s;
    assert TrimEnd(s) == s;
  }

  lemma StripIdempotent(s: string)
    ensures Strip(Strip(s)) == Strip(s)
  {
    StripSpec(s);
    StripFixes(Strip(s));
  }

  /** ASCII case folding, the part of `str.lower()` the messages use. */
  function LowerChar(c: char): char {
    if 'A' <= c <= 'Z' then (c as int + 32) as char else c
  }

  function Lower(s: string): (r: string)
    ensures |r| == |s|
    ensures forall i :: 0 <= i < |s| ==> r[i] == LowerChar(s[i])
  {
    if s == [] then [] else [LowerChar(s[0])] + Lower(s[1..])
  }

  /** Lower-casing twice is lower-casing once. */
  lemma LowerIdempotent(s: string)
    ensures Lower(Lower(s)) == Lower(s)
  {
    var l := Lower(s);
    forall i | 0 <= i < |l| ensures Lower(l)[i] == l[i] {
      assert l[i] == LowerChar(s[i]);
    }
  }

  lemma {:induction false} LowerConcat(a: string, b: string)
    ensures Lower(a + b) == Lower(a) + Lower(b)
  {
    if a != [] {
      assert (a + b)[1..] == a[1..] + b;
      LowerConcat(a[1..], b);
    } else {
      assert a + b == b;
    }
  }

  /** Python's `w in s` on strings. */
  predicate Contains(s: string, w: string) {
    exists i | 0 <= i <= |s| - |w| :: MatchAt(s, w, i)
  }

  /** `w` occurs in `s` starting at index `i`. */
  predicate MatchAt(s: string, w: string, i: int) {
    0 <= i <= |s| - |w| && s[i..i + |w|] == w
  }

  /** A match of `w` inside `p + e` cannot start in `p` when `p` holds no
      match and its last character does not occur in `w`; so `p + e`
      contains `w` exactly when `e` does. */
  lemma ContainsAfterPrefix(p: string, e: string, w: string)
    requires w != [] && p != []
    requires !Contains(p, w)
    requires forall j :: 0 <= j < |w| ==> w[j] != p[|p| - 1]
    ensures Contains(p + e, w) <==> Contains(e, w)
  {
    var s := p + e;
    if Contains(e, w) {
      var i :| 0 <= i <= |e| - |w| && MatchAt(e, w, i);
      assert s[|p| + i..|p| + i + |w|] == w;
      assert MatchAt(s, w, |p| + i);
    }
    forall i | 0 <= i < |p| ensures !MatchAt(s, w, i) {
      if i + |w| <= |p| {
        assert !MatchAt(p, w, i);
        assert s[i..i + |w|] == p[i..i + |w|];
      } else if i <= |s| - |w| {
        assert s[i..i + |w|][|p| - 1 - i] == p[|p| - 1];
      }
    }
    if Contains(s, w) {
      var i :| 0 <= i <= |s| - |w| && MatchAt(s, w, i);
      assert e[i - |p|..i - |p| + |w|] == w;
      assert MatchAt(e, w, i - |p|);
    }
  }

  /** `w` cannot occur in `s` when one of its characters never does. */
  lemma NoMatchWithoutChar(s: string, w: string, k: nat)
    requires k < |w|
    requires forall i :: 0 <= i < |s| ==> s[i] != w[k]
    ensures !Contains(s, w)
  {
    forall i | 0 <= i <= |s| - |w| ensures !MatchAt(s, w, i) {
      assert s[i..i + |w|][k] == s[i + k];
    }
  }
}
