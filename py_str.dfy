/** The parts of Python's `str` the project services rely on: `strip()`,
    the ordering of text values, and `str()` of an integer. */
module PyStr {

  /** The characters `str.isspace()` accepts and `str.strip()` removes. */
  predicate IsSpace(c: char)
  {
    || c == ' ' || c == '\t' || c == '\n' || c == '\r'
    || c == '\U{0B}' || c == '\U{0C}'
    || ('\U{1C}' <= c <= '\U{1F}')
    || c == '\U{85}' || c == '\U{A0}' || c == '\U{1680}'
    || ('\U{2000}' <= c <= '\U{200A}')
    || c == '\U{2028}' || c == '\U{2029}' || c == '\U{202F}' || c == '\U{205F}' || c == '\U{3000}'
  }

  predicate AllSpace(s: string)
  {
    s == [] || (IsSpace(s[0]) && AllSpace(s[1..]))
  }

  lemma {:induction false} AllSpaceConcat(a: string, b: string)
    ensures AllSpace(a + b) <==> AllSpace(a) && AllSpace(b)
  {
    if a == [] {
      assert a + b == b;
    } else {
      assert (a + b)[1..] == a[1..] + b;
      AllSpaceConcat(a[1..], b);
    }
  }

  lemma {:induction false} AllSpaceAt(s: string, j: nat)
    requires AllSpace(s) && j < |s|
    ensures IsSpace(s[j])
  {
    assert IsSpace(s[0]) && AllSpace(s[1..]);
    if j > 0 {
      AllSpaceAt(s[1..], j - 1);
      assert s[1..][j - 1] == s[j];
    }
  }

  /** `s.lstrip()`: the longest suffix of `s` that does not start with whitespace. */
  function StripLeft(s: string): (r: string)
    ensures |r| <= |s| && r == s[|s| - |r|..]
    ensures AllSpace(s[..|s| - |r|])
    ensures r == [] || !IsSpace(r[0])
  {
    if s != [] && IsSpace(s[0]) then
      var r := StripLeft(s[1..]);
      var cut := s[..|s| - |r|];
      assert cut[0] == s[0] && cut[1..] == s[1..][..|s| - 1 - |r|];
      r
    else
      assert s[..0] == [];
      s
  }

  /** `s.rstrip()`: the longest prefix of `s` that does not end with whitespace. */
  function StripRight(s: string): (r: string)
    ensures |r| <= |s| && r == s[..|r|]
    ensures AllSpace(s[|r|..])
    ensures r == [] || !IsSpace(r[|r| - 1])
  {
    if s != [] && IsSpace(s[|s| - 1]) then
      var init := s[..|s| - 1];
      var r := StripRight(init);
      assert s[|r|..] == init[|r|..] + [s[|s| - 1]];
      assert AllSpace([s[|s| - 1]]);
      AllSpaceConcat(init[|r|..], [s[|s| - 1]]);
      r
    else
      assert s[|s|..] == [];
      s
  }

  /** `r` is `s` with some whitespace cut from each end. */
  ghost predicate IsMiddle(s: string, r: string)
  {
    exists i :: 0 <= i <= |s| - |r| && r == s[i..i + |r|] && AllSpace(s[..i]) && AllSpace(s[i + |r|..])
  }

  /** `s.strip()`: `s` without its leading and trailing whitespace. The
      result is the middle of `s`; it neither starts nor ends with
      whitespace, and it is empty exactly when `s` is all whitespace. */
  function Strip(s: string): (r: string)
    ensures IsMiddle(s, r)
    ensures r == [] || (!IsSpace(r[0]) && !IsSpace(r[|r| - 1]))
    ensures r == [] <==> AllSpace(s)
  {
    StripIsMiddle(s);
    StripEnds(s);
    StripEmptyIff(s);
    StripRight(StripLeft(s))
  }

  /** Stripping both sides leaves the middle of `s`. */
  lemma StripIsMiddle(s: string)
    ensures IsMiddle(s, StripRight(StripLeft(s)))
  {
    var left := StripLeft(s);
    MiddleWitness(s, left, StripRight(left), |s| - |left|);
  }

  /** Stripping both sides leaves no whitespace at either end. */
  lemma StripEnds(s: string)
    ensures var r := StripRight(StripLeft(s));
      r == [] || (!IsSpace(r[0]) && !IsSpace(r[|r| - 1]))
  {
    var left := StripLeft(s);
    var r := StripRight(left);
    if r != [] {
      assert r[0] == left[0];
    }
  }

  /** Stripping both sides leaves nothing exactly when `s` is all whitespace. */
  lemma StripEmptyIff(s: string)
    ensures StripRight(StripLeft(s)) == [] <==> AllSpace(s)
  {
    var left := StripLeft(s);
    var i := |s| - |left|;
    if StripRight(left) == [] {
      EmptyMiddle(s, left, i);
    } else {
      NonEmptyMiddle(s, left, i);
    }
  }

  lemma MiddleWitness(s: string, left: string, r: string, i: nat)
    requires i <= |s| && left == s[i..] && AllSpace(s[..i])
    requires |r| <= |left| && r == left[..|r|] && AllSpace(left[|r|..])
    ensures IsMiddle(s, r)
  {
    assert s[i + |r|..] == left[|r|..];
    assert r == s[i..i + |r|];
  }

  lemma EmptyMiddle(s: string, left: string, i: nat)
    requires i <= |s| && left == s[i..] && AllSpace(s[..i]) && AllSpace(left)
    ensures AllSpace(s)
  {
    assert s == s[..i] + left;
    AllSpaceConcat(s[..i], left);
  }

  lemma NonEmptyMiddle(s: string, left: string, i: nat)
    requires i <= |s| && left == s[i..] && left != [] && !IsSpace(left[0])
    ensures !AllSpace(s)
  {
    assert s[i] == left[0];
    if AllSpace(s) {
      AllSpaceAt(s, i);
    }
  }

  /** Stripping twice is stripping once. */
  lemma StripIdempotent(s: string)
    ensures Strip(Strip(s)) == Strip(s)
  {
    var r := Strip(s);
    assert StripLeft(r) == r;
    assert StripRight(r) == r;
  }

  /** Text ordering by code point: Python's `<=` on `str`, and SQLite's
      BINARY collation on UTF-8 text, which orders the same way. */
  predicate LexLe(a: string, b: string)
  {
    if a == [] then true
    else if b == [] then false
    else if a[0] != b[0] then a[0] < b[0]
    else LexLe(a[1..], b[1..])
  }

  lemma {:induction false} LexLeTotal(a: string, b: string)
    ensures LexLe(a, b) || LexLe(b, a)
  {
    if a != [] && b != [] && a[0] == b[0] {
      LexLeTotal(a[1..], b[1..]);
    }
  }

  lemma {:induction false} LexLeTransitive(a: string, b: string, c: string)
    requires LexLe(a, b) && LexLe(b, c)
    ensures LexLe(a, c)
  {
    if a != [] && b != [] && c != [] && a[0] == b[0] == c[0] {
      LexLeTransitive(a[1..], b[1..], c[1..]);
    }
  }

  function DigitChar(d: nat): char
    requires d < 10
  {
    "0123456789"[d]
  }

  function NatToStr(n: nat): string
  {
    if n < 10 then [DigitChar(n)] else NatToStr(n / 10) + [DigitChar(n % 10)]
  }

  /** `str(i)` for an integer. */
  function IntToStr(i: int): string
  {
    if i < 0 then "-" + NatToStr(-i) else NatToStr(i)
  }
}
