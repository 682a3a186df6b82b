/** The two string operations the redemption endpoint applies to a submitted
    code before looking it up: Python's `str.strip()` (no arguments) and
    `str.upper()`. */
module Text {

  /** The characters for which Python's `str.isspace()` holds; these are what
      `strip()` without arguments removes. */
  predicate IsSpace(c: char)
  {
    c == ' ' || ('\t' <= c <= '\r') || ('\U{1c}' <= c <= '\U{1f}') ||
    c == '\U{85}' || c == '\U{a0}' || c == '\U{1680}' ||
    ('\U{2000}' <= c <= '\U{200a}') || c == '\U{2028}' || c == '\U{2029}' ||
    c == '\U{202f}' || c == '\U{205f}' || c == '\U{3000}'
  }

  predicate IsLower(c: char)
  {
    'a' <= c <= 'z'
  }

  predicate AllSpace(s: string)
  {
    forall i | 0 <= i < |s| :: IsSpace(s[i])
  }

  /** Neither end of `s` is whitespace. */
  predicate IsStripped(s: string)
  {
    s == [] || (!IsSpace(s[0]) && !IsSpace(s[|s| - 1]))
  }

  /** The form every code takes after the redemption endpoint's
      normalisation: trimmed and without a lower-case letter. */
  predicate IsNormal(s: string)
  {
    IsStripped(s) && forall i | 0 <= i < |s| :: !IsLower(s[i])
  }

  /** Drops the leading whitespace: what is left is a suffix of `s`, the part
      dropped is all whitespace, and what is left does not start with it. */
  function TrimStart(s: string): (r: string)
    ensures |r| <= |s| && r == s[|s| - |r|..]
    ensures AllSpace(s[..|s| - |r|])
    ensures r == [] || !IsSpace(r[0])
  {
    if s != [] && IsSpace(s[0]) then
      var r := TrimStart(s[1..]);
      assert s[..|s| - |r|] == [s[0]] + s[1..][..|s| - 1 - |r|];
      r
    else s
  }

  /** Drops the trailing whitespace: what is left is a prefix of `s`, the part
      dropped is all whitespace, and what is left does not end with it. */
  function TrimEnd(s: string): (r: string)
    ensures |r| <= |s| && r == s[..|r|]
    ensures AllSpace(s[|r|..])
    ensures r == [] || !IsSpace(r[|r| - 1])
  {
    if s != [] && IsSpace(s[|s| - 1]) then
      var r := TrimEnd(s[..|s| - 1]);
      assert s[|r|..] == s[..|s| - 1][|r|..] + [s[|s| - 1]];
      r
    else s
  }

  /** Python's `s.strip()`. */
  function Strip(s: string): (r: string)
    ensures IsStripped(r)
    ensures |r| <= |s|
  {
    var t := TrimStart(s);
    var r := TrimEnd(t);
    assert r == [] || r[0] == t[0];
    r
  }

  /** Python's `c.upper()` on one character, for the ASCII letters. */
  function UpperChar(c: char): (u: char)
    ensures !IsLower(u)
    ensures IsSpace(u) <==> IsSpace(c)
    ensures !IsLower(c) ==> u == c
    ensures IsLower(c) ==> u as int - 'A' as int == c as int - 'a' as int
  {
    if IsLower(c) then (c as int - 32) as char else c
  }

  /** Python's `s.upper()`, character by character. */
  function Upper(s: string): (r: string)
    ensures |r| == |s|
    ensures forall i | 0 <= i < |r| :: !IsLower(r[i])
    ensures forall i | 0 <= i < |r| :: IsSpace(r[i]) <==> IsSpace(s[i])
    ensures forall i | 0 <= i < |s| :: !IsLower(s[i]) ==> r[i] == s[i]
    ensures forall i | 0 <= i < |s| :: IsLower(s[i]) ==> r[i] as int - 'A' as int == s[i] as int - 'a' as int
  {
    seq(|s|, i requires 0 <= i < |s| => UpperChar(s[i]))
  }

  /** The normalisation applied to a submitted code: `code.strip().upper()`. */
  function Normalize(s: string): (r: string)
    ensures IsNormal(r)
    ensures |r| <= |s|
  {
    Upper(Strip(s))
  }

  lemma {:induction false} TrimStartOfNonSpace(s: string)
    requires s == [] || !IsSpace(s[0])
    ensures TrimStart(s) == s
  {
  }

  lemma {:induction false} TrimEndOfNonSpace(s: string)
    requires s == [] || !IsSpace(s[|s| - 1])
    ensures TrimEnd(s) == s
  {
  }

  /** A string that is already trimmed is left alone by `strip()`. */
  lemma StripOfStripped(s: string)
    requires IsStripped(s)
    ensures Strip(s) == s
  {
    TrimStartOfNonSpace(s);
    TrimEndOfNonSpace(s);
  }

  lemma {:induction false} TrimStartPadding(u: string, s: string)
    requires AllSpace(u)
    ensures TrimStart(u + s) == TrimStart(s)
    decreases |u|
  {
    if u != [] {
      assert (u + s)[1..] == u[1..] + s;
      TrimStartPadding(u[1..], s);
    } else {
      assert u + s == s;
    }
  }

  lemma {:induction false} TrimEndPadding(s: string, v: string)
    requires AllSpace(v)
    ensures TrimEnd(s + v) == TrimEnd(s)
    decreases |v|
  {
    if v != [] {
      assert (s + v)[..|s + v| - 1] == s + v[..|v| - 1];
      TrimEndPadding(s, v[..|v| - 1]);
    } else {
      assert s + v == s;
    }
  }

  lemma {:induction false} TrimStartAppend(s: string, v: string)
    requires TrimStart(s) != []
    ensures TrimStart(s + v) == TrimStart(s) + v
    decreases |s|
  {
    if IsSpace(s[0]) {
      assert TrimStart(s) == TrimStart(s[1..]);
      assert (s + v)[0] == s[0] && (s + v)[1..] == s[1..] + v;
      TrimStartAppend(s[1..], v);
    } else {
      assert (s + v)[0] == s[0];
    }
  }

  /** Whitespace around a string does not change what `strip()` yields. */
  lemma StripPadding(u: string, s: string, v: string)
    requires AllSpace(u) && AllSpace(v)
    ensures Strip(u + s + v) == Strip(s)
  {
    assert u + s + v == u + (s + v);
    TrimStartPadding(u, s + v);
    var t := TrimStart(s);
    if t == [] {
      assert s[..|s|] == s;
      assert AllSpace(s + v);
      TrimStartPadding(s + v, []);
      assert s + v + [] == s + v;
    } else {
      TrimStartAppend(s, v);
      TrimEndPadding(t, v);
    }
  }

  lemma UpperOfNoLower(s: string)
    requires forall i | 0 <= i < |s| :: !IsLower(s[i])
    ensures Upper(s) == s
  {
  }

  /** A code is a fixed point of the normalisation exactly when it is normal. */
  lemma NormalizeFixedIff(s: string)
    ensures Normalize(s) == s <==> IsNormal(s)
  {
    if IsNormal(s) {
      StripOfStripped(s);
      UpperOfNoLower(s);
    }
  }

  /** Normalising twice is normalising once. */
  lemma NormalizeIdempotent(s: string)
    ensures Normalize(Normalize(s)) == Normalize(s)
  {
    NormalizeFixedIff(Normalize(s));
  }

  /** The same character, or the two cases of one ASCII letter. */
  predicate SameLetter(a: char, b: char)
  {
    a == b || (IsLower(a) && b as int == a as int - 32) || (IsLower(b) && a as int == b as int - 32)
  }

  /** Two strings that differ at most in the case of ASCII letters. */
  predicate SameUpToCase(s: string, t: string)
  {
    |s| == |t| && forall i | 0 <= i < |s| :: SameLetter(s[i], t[i])
  }

  /** `upper()` does not see the case of its input. */
  lemma UpperIgnoresCase(s: string, t: string)
    requires SameUpToCase(s, t)
    ensures Upper(s) == Upper(t)
  {
    forall i | 0 <= i < |s| ensures Upper(s)[i] == Upper(t)[i] {
      assert SameLetter(s[i], t[i]);
    }
  }

  lemma {:induction false} TrimStartUpper(s: string)
    ensures TrimStart(Upper(s)) == Upper(TrimStart(s))
    decreases |s|
  {
    if s != [] {
      var u := Upper(s);
      var tail := s[1..];
      assert u[1..] == Upper(tail);
      if IsSpace(s[0]) {
        assert TrimStart(u) == TrimStart(Upper(tail));
        assert TrimStart(s) == TrimStart(tail);
        TrimStartUpper(tail);
      } else {
        assert TrimStart(u) == u;
        assert TrimStart(s) == s;
      }
    }
  }

  lemma {:induction false} TrimEndUpper(s: string)
    ensures TrimEnd(Upper(s)) == Upper(TrimEnd(s))
    decreases |s|
  {
    if s != [] {
      var u := Upper(s);
      var init := s[..|s| - 1];
      assert u[..|u| - 1] == Upper(init);
      if IsSpace(s[|s| - 1]) {
        assert TrimEnd(u) == TrimEnd(Upper(init));
        assert TrimEnd(s) == TrimEnd(init);
        TrimEndUpper(init);
      } else {
        assert TrimEnd(u) == u;
        assert TrimEnd(s) == s;
      }
    }
  }

  /** Trimming and upper-casing can be done in either order. */
  lemma StripUpper(s: string)
    ensures Strip(Upper(s)) == Upper(Strip(s))
  {
    TrimStartUpper(s);
    TrimEndUpper(TrimStart(s));
  }

  /** The letter case of the submitted code does not matter: two spellings
      that differ only in the case of ASCII letters normalise alike. */
  lemma NormalizeIgnoresCase(s: string, t: string)
    requires SameUpToCase(s, t)
    ensures Normalize(s) == Normalize(t)
  {
    StripUpper(s);
    StripUpper(t);
    UpperIgnoresCase(s, t);
  }

  // The example lemmas below take their string literals as parameters
  // (`requires code == "..."`): stating a property of a literal directly
  // makes the verifier unfold the recursive string functions on it eagerly,
  // which is far slower than reasoning about a variable equal to it.

  lemma UpperExample(code: string)
    requires code == "stabab12"
    ensures Upper(code) == "STABAB12"
  {
    var r := Upper(code);
    assert r[0] == 'S' && r[1] == 'T' && r[2] == 'A' && r[3] == 'B';
    assert r[4] == 'A' && r[5] == 'B' && r[6] == '1' && r[7] == '2';
  }

  lemma StripExample(u: string, code: string, v: string)
    requires u == "  " && code == "stabab12" && v == " "
    ensures Strip(u + code + v) == code
  {
    assert AllSpace(u) && AllSpace(v);
    StripPadding(u, code, v);
    assert !IsSpace(code[0]) && !IsSpace(code[|code| - 1]);
    StripOfStripped(code);
  }

  /** Surrounding whitespace and letter case of the submitted code do not
      matter: "  stabab12 " (two blanks, the code in lower case, one blank)
      normalises to "STABAB12". */
  lemma NormalizeExample(u: string, code: string, v: string)
    requires u == "  " && code == "stabab12" && v == " "
    ensures Normalize(u + code + v) == "STABAB12"
  {
    StripExample(u, code, v);
    UpperExample(code);
  }

  /** "STABAB12" is already in normal form. */
  lemma NormalExample(key: string)
    requires key == "STABAB12"
    ensures Normalize(key) == key
  {
    assert !IsSpace(key[0]) && !IsSpace(key[|key| - 1]);
    assert forall k | 0 <= k < |key| :: !IsLower(key[k]);
    NormalizeFixedIff(key);
  }
}
