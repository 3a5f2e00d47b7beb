/** String operations the dashboard applies to its text columns: Python's
    `str.isspace`, `str.strip`, `str.lower`, `str.upper` and the substring test
    `k in s`. Case mapping covers the Latin-1 range (U+0000 to U+00FF), which holds
    every accented letter of the French facility and region names; characters
    above it are left unchanged. */
module Text {

  /** Python's `str.isspace` for one character. */
  predicate IsSpace(c: char) {
    var n := c as int;
    (9 <= n <= 13) || (28 <= n <= 32) || n == 0x85 || n == 0xA0 || n == 0x1680
    || (0x2000 <= n <= 0x200A) || n == 0x2028 || n == 0x2029 || n == 0x202F
    || n == 0x205F || n == 0x3000
  }

  predicate AllSpace(s: string) {
    forall i :: 0 <= i < |s| ==> IsSpace(s[i])
  }

  /** Neither the first nor the last character is whitespace. */
  predicate NoEdgeSpace(s: string) {
    s == [] || (!IsSpace(s[0]) && !IsSpace(s[|s| - 1]))
  }

  // ---------------------------------------------------------------- strip

  /** `s.lstrip()`: the suffix left after dropping the leading whitespace. */
  function TrimStart(s: string): (r: string)
    ensures |r| <= |s| && r == s[|s| - |r|..]
    ensures AllSpace(s[..|s| - |r|])
    ensures r == [] || !IsSpace(r[0])
  {
    if s != [] && IsSpace(s[0]) then TrimStart(s[1..]) else s
  }

  /** `s.rstrip()`: the prefix left after dropping the trailing whitespace. */
  function TrimEnd(s: string): (r: string)
    ensures |r| <= |s| && r == s[..|r|]
    ensures AllSpace(s[|r|..])
    ensures r == [] || !IsSpace(r[|r| - 1])
  {
    if s != [] && IsSpace(s[|s| - 1]) then TrimEnd(s[..|s| - 1]) else s
  }

  /** `r` sits in `s` at offset `i`, with only whitespace before and after it. */
  predicate StrippedAt(s: string, r: string, i: int) {
    0 <= i && i + |r| <= |s| && s[i..i + |r|] == r
    && AllSpace(s[..i]) && AllSpace(s[i + |r|..])
  }

  /** `s.strip()`: the maximal infix of `s` with no whitespace at either end. */
  function Strip(s: string): (r: string)
    ensures NoEdgeSpace(r)
    ensures exists i :: StrippedAt(s, r, i)
  {
    var t := TrimStart(s);
    var r := TrimEnd(t);
    assert r == [] || r[0] == t[0];
    var i := |s| - |t|;
    assert s[i..i + |r|] == r by {
      assert s[i..][..|r|] == s[i..i + |r|];
    }
    assert s[i + |r|..] == t[|r|..];
    assert StrippedAt(s, r, i);
    r
  }

  /** Stripping a string that has no whitespace at its ends changes nothing. */
  lemma {:induction false} StripFixed(s: string)
    requires NoEdgeSpace(s)
    ensures Strip(s) == s
  {
  }

  // ---------------------------------------------------------------- lower

  /** Python's `str.lower` on one Latin-1 character (A-Z and À-Þ except ×). */
  function LowerChar(c: char): char {
    var n := c as int;
    if (65 <= n <= 90) || (0xC0 <= n <= 0xDE && n != 0xD7) then (n + 32) as char else c
  }

  /** `s.lower()`: a character-by-character map. */
  function Lower(s: string): (r: string)
    ensures |r| == |s|
  {
    seq(|s|, i requires 0 <= i < |s| => LowerChar(s[i]))
  }

  /** Lower-casing commutes with taking a slice. */
  lemma LowerSlice(s: string, i: int, j: int)
    requires 0 <= i <= j <= |s|
    ensures Lower(s)[i..j] == Lower(s[i..j])
  {
  }

  /** Lower-casing twice is lower-casing once. */
  lemma LowerIdempotent(s: string)
    ensures Lower(Lower(s)) == Lower(s)
  {
  }

  // ---------------------------------------------------------------- upper

  /** Python's `str.upper` on one Latin-1 character; `ß` becomes two characters. */
  function UpperChar(c: char): (r: string)
    ensures 1 <= |r| <= 2
  {
    var n := c as int;
    if (97 <= n <= 122) || (0xE0 <= n <= 0xFE && n != 0xF7) then [(n - 32) as char]
    else if n == 0xFF then [0x178 as char]  // ÿ -> Ÿ
    else if n == 0xB5 then [0x39C as char]  // µ -> Greek capital mu
    else if n == 0xDF then "SS"             // ß -> SS
    else [c]
  }

  /** `s.upper()`. */
  function Upper(s: string): (r: string)
    ensures |s| <= |r| <= 2 * |s|
  {
    if s == [] then [] else UpperChar(s[0]) + Upper(s[1..])
  }

  lemma {:induction false} UpperAppend(a: string, b: string)
    ensures Upper(a + b) == Upper(a) + Upper(b)
  {
    if a != [] {
      assert (a + b)[0] == a[0] && (a + b)[1..] == a[1..] + b;
      UpperAppend(a[1..], b);
      calc {
        Upper(a + b);
        UpperChar(a[0]) + Upper(a[1..] + b);
        UpperChar(a[0]) + (Upper(a[1..]) + Upper(b));
        (UpperChar(a[0]) + Upper(a[1..])) + Upper(b);
      }
    } else {
      assert a + b == b;
    }
  }

  /** Every character `UpperChar` produces is its own upper case, and is
      whitespace exactly when the input is. */
  lemma UpperCharFixed(c: char)
    ensures forall d :: d in UpperChar(c) ==> UpperChar(d) == [d] && IsSpace(d) == IsSpace(c)
  {
  }

  lemma {:induction false} UpperFixed(s: string)
    requires forall d :: d in s ==> UpperChar(d) == [d]
    ensures Upper(s) == s
  {
    if s != [] {
      assert s[0] in s;
      UpperFixed(s[1..]);
    }
  }

  /** Upper-casing twice is upper-casing once. */
  lemma {:induction false} UpperIdempotent(s: string)
    ensures Upper(Upper(s)) == Upper(s)
  {
    if s != [] {
      UpperAppend(UpperChar(s[0]), Upper(s[1..]));
      UpperCharFixed(s[0]);
      UpperFixed(UpperChar(s[0]));
      UpperIdempotent(s[1..]);
    }
  }

  predicate NoAsciiLower(s: string) {
    forall i :: 0 <= i < |s| ==> !('a' <= s[i] <= 'z')
  }

  /** The result of `upper()` holds no ASCII lower-case letter. */
  lemma {:induction false} UpperNoAsciiLower(s: string)
    ensures NoAsciiLower(Upper(s))
  {
    if s != [] {
      UpperNoAsciiLower(s[1..]);
    }
  }

  /** Upper-casing keeps a string free of whitespace at both ends. */
  lemma {:induction false} UpperNoEdgeSpace(s: string)
    requires NoEdgeSpace(s)
    ensures NoEdgeSpace(Upper(s))
  {
    if s != [] {
      var n := |s|;
      UpperCharFixed(s[0]);
      assert Upper(s)[0] == UpperChar(s[0])[0];
      assert UpperChar(s[0])[0] in UpperChar(s[0]);
      UpperAppend(s[..n - 1], [s[n - 1]]);
      assert s[..n - 1] + [s[n - 1]] == s;
      assert Upper([s[n - 1]]) == UpperChar(s[n - 1]);
      var u := UpperChar(s[n - 1]);
      UpperCharFixed(s[n - 1]);
      assert u[|u| - 1] in u;
    }
  }

  // ---------------------------------------------------------------- normalise

  /** The region clean-up of `load_data`: `s.strip().upper()`. */
  function Normalize(s: string): (r: string)
    ensures NoEdgeSpace(r) && NoAsciiLower(r)
  {
    UpperNoEdgeSpace(Strip(s));
    UpperNoAsciiLower(Strip(s));
    Upper(Strip(s))
  }

  /** Normalising twice equals normalising once. */
  lemma NormalizeIdempotent(s: string)
    ensures Normalize(Normalize(s)) == Normalize(s)
  {
    var u := Normalize(s);
    StripFixed(u);
    UpperIdempotent(Strip(s));
  }

  // ---------------------------------------------------------------- substring

  /** `k` occurs in `s` starting at index `i`. */
  predicate OccursAt(s: string, k: string, i: int) {
    0 <= i && i + |k| <= |s| && s[i..i + |k|] == k
  }

  /** Python's `k in s`. */
  predicate Contains(s: string, k: string)
    decreases |s|
  {
    |k| <= |s| && (s[..|k|] == k || Contains(s[1..], k))
  }

  /** A text without the first character of `k` does not contain `k`. */
  lemma {:induction false} AbsentFirstChar(s: string, k: string)
    requires |k| > 0 && forall i :: 0 <= i < |s| ==> s[i] != k[0]
    ensures !Contains(s, k)
    decreases |s|
  {
    if |k| <= |s| {
      assert s[..|k|][0] != k[0];
      AbsentFirstChar(s[1..], k);
    }
  }

  /** `Contains` holds exactly when `k` occurs somewhere in `s`. */
  lemma {:induction false} ContainsIff(s: string, k: string)
    ensures Contains(s, k) <==> exists i :: OccursAt(s, k, i)
    decreases |s|
  {
    if Contains(s, k) {
      if s[..|k|] == k {
        assert OccursAt(s, k, 0);
      } else {
        ContainsIff(s[1..], k);
        var i :| OccursAt(s[1..], k, i);
        assert s[1..][i..i + |k|] == s[i + 1..i + 1 + |k|];
        assert OccursAt(s, k, i + 1);
      }
    }
    if exists i :: OccursAt(s, k, i) {
      var i :| OccursAt(s, k, i);
      if i == 0 {
        assert s[..|k|] == s[0..|k|];
      } else {
        assert s[1..][i - 1..i - 1 + |k|] == s[i..i + |k|];
        assert OccursAt(s[1..], k, i - 1);
        ContainsIff(s[1..], k);
      }
    }
  }

  /** A substring found in `s` is found, lower-cased, in `s.lower()`. */
  lemma ContainsLower(s: string, k: string)
    requires Contains(s, k)
    ensures Contains(Lower(s), Lower(k))
  {
    ContainsIff(s, k);
    var i :| OccursAt(s, k, i);
    LowerSlice(s, i, i + |k|);
    assert OccursAt(Lower(s), Lower(k), i);
    ContainsIff(Lower(s), Lower(k));
  }
}
