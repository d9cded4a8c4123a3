/** The Python string primitives the extractors are built from, with the
    exact semantics the scrapers rely on: `str.strip()`, `str.replace`,
    the `in` substring test, `str.lower()`, the `\d+` digit run of
    `re.findall`, and `','.join`. */
module Text {

  /* ---------------------------------------------------------------- whitespace */

  /** The characters Python's `str.isspace()` accepts, which are exactly the
      characters `str.strip()` removes. */
  predicate IsSpace(c: char) {
    || c == ' '
    || '\U{0009}' <= c <= '\U{000D}'
    || '\U{001C}' <= c <= '\U{001F}'
    || c == '\U{0085}' || c == '\U{00A0}' || c == '\U{1680}'
    || '\U{2000}' <= c <= '\U{200A}'
    || c == '\U{2028}' || c == '\U{2029}' || c == '\U{202F}'
    || c == '\U{205F}' || c == '\U{3000}'
  }

  predicate AllSpace(s: string) {
    forall k :: 0 <= k < |s| ==> IsSpace(s[k])
  }

  /** Neither end of `s` is whitespace. */
  predicate IsStripped(s: string) {
    |s| == 0 || (!IsSpace(s[0]) && !IsSpace(s[|s| - 1]))
  }

  function TrimLeft(s: string): (r: string)
    ensures |r| <= |s| && r == s[|s| - |r|..]
    ensures AllSpace(s[..|s| - |r|])
    ensures |r| == 0 || !IsSpace(r[0])
  {
    if |s| > 0 && IsSpace(s[0]) then
      var r := TrimLeft(s[1..]);
      assert AllSpace(s[..|s| - |r|]) by {
        forall k | 0 < k < |s| - |r| ensures IsSpace(s[k]) {
          assert s[k] == s[1..][..|s| - 1 - |r|][k - 1];
        }
      }
      r
    else
      s
  }

  function TrimRight(s: string): (r: string)
    ensures |r| <= |s| && r == s[..|r|]
    ensures AllSpace(s[|r|..])
    ensures |r| == 0 || !IsSpace(r[|r| - 1])
  {
    if |s| > 0 && IsSpace(s[|s| - 1]) then
      var r := TrimRight(s[..|s| - 1]);
      assert AllSpace(s[|r|..]) by {
        forall k | |r| <= k < |s| - 1 ensures IsSpace(s[k]) {
          assert s[k] == s[..|s| - 1][|r|..][k - |r|];
        }
      }
      r
    else
      s
  }

  /** `r` is `s` with only whitespace removed from its two ends: `i`
      characters at the front and `|s| - j` at the back. */
  predicate Trims(s: string, r: string, i: int, j: int) {
    0 <= i <= j <= |s| && r == s[i..j] && AllSpace(s[..i]) && AllSpace(s[j..])
  }

  /** Python's `s.strip()`: the slice of `s` left after removing the
      whitespace at both ends. The clauses pin the result down
      uniquely. */
  function Strip(s: string): (r: string)
    ensures IsStripped(r)
    ensures exists i, j :: Trims(s, r, i, j)
    ensures forall c :: c in r ==> c in s
  {
    var l := TrimLeft(s);
    var r := TrimRight(l);
    TrimBoth(s, l, r);
    r
  }

  /** Trimming the front and then the back leaves a middle slice. */
  lemma TrimBoth(s: string, l: string, r: string)
    requires |l| <= |s| && l == s[|s| - |l|..] && AllSpace(s[..|s| - |l|])
    requires |r| <= |l| && r == l[..|r|] && AllSpace(l[|r|..])
    ensures Trims(s, r, |s| - |l|, |s| - |l| + |r|)
  {
    var i := |s| - |l|;
    var j := i + |r|;
    assert r == s[i..j];
    assert s[j..] == l[|r|..];
  }

  /** Stripping text that is already stripped changes nothing. */
  lemma {:induction false} StripStripped(s: string)
    requires IsStripped(s)
    ensures Strip(s) == s
  {
    if |s| > 0 {
      assert TrimLeft(s) == s;
      assert TrimRight(s) == s;
    }
  }

  lemma StripIdempotent(s: string)
    ensures Strip(Strip(s)) == Strip(s)
  {
    StripStripped(Strip(s));
  }

  /* ---------------------------------------------------------------- substrings */

  predicate StartsWith(s: string, p: string) {
    |p| <= |s| && s[..|p|] == p
  }

  /** `p` occurs in `s` at index `i`. */
  predicate OccursAt(s: string, p: string, i: int) {
    0 <= i && i + |p| <= |s| && s[i..i + |p|] == p
  }

  /** Python's `p in s`. */
  predicate Contains(s: string, p: string)
    decreases |s|
  {
    StartsWith(s, p) || (|s| > 0 && Contains(s[1..], p))
  }

  /** The recursive substring test agrees with the positional one. */
  lemma {:induction false} ContainsIff(s: string, p: string)
    ensures Contains(s, p) <==> exists i :: OccursAt(s, p, i)
    decreases |s|
  {
    if Contains(s, p) {
      if StartsWith(s, p) {
        assert OccursAt(s, p, 0);
      } else {
        ContainsIff(s[1..], p);
        var i :| OccursAt(s[1..], p, i);
        assert s[1..][i..i + |p|] == s[i + 1..i + 1 + |p|];
        assert OccursAt(s, p, i + 1);
      }
    }
    if exists i :: OccursAt(s, p, i) {
      var i :| OccursAt(s, p, i);
      if i == 0 {
        assert StartsWith(s, p);
      } else {
        assert s[1..][i - 1..i - 1 + |p|] == s[i..i + |p|];
        assert OccursAt(s[1..], p, i - 1);
        ContainsIff(s[1..], p);
      }
    }
  }

  /** A substring of a substring is a substring. */
  lemma ContainsTransitive(s: string, t: string, u: string)
    requires Contains(s, t) && Contains(t, u)
    ensures Contains(s, u)
  {
    ContainsIff(s, t);
    ContainsIff(t, u);
    var i :| OccursAt(s, t, i);
    var j :| OccursAt(t, u, j);
    forall k | 0 <= k < |u| ensures s[i + j + k] == u[k] {
      assert u[k] == t[j..j + |u|][k] == t[j + k];
      assert t[j + k] == s[i..i + |t|][j + k] == s[i + j + k];
    }
    assert s[i + j..i + j + |u|] == u;
    assert OccursAt(s, u, i + j);
    ContainsIff(s, u);
  }

  /** A character absent from `s` rules out every pattern that holds it. */
  lemma ContainsChar(s: string, p: string, c: char)
    requires Contains(s, p) && c in p
    ensures c in s
  {
    ContainsIff(s, p);
    var i :| OccursAt(s, p, i);
    var k :| 0 <= k < |p| && p[k] == c;
    assert s[i + k] == p[k];
  }

  /** `Contains(s, p)` for any of the `keywords`: Python's
      `'a' in s or 'b' in s or ...`. */
  predicate ContainsAny(s: string, keywords: seq<string>) {
    exists k :: 0 <= k < |keywords| && Contains(s, keywords[k])
  }

  /* ---------------------------------------------------------------- replace */

  /** Python's `s.replace(pat, rep)`: every non-overlapping occurrence of
      `pat`, scanning left to right, becomes `rep`. An empty `pat` inserts
      `rep` before every character and at the end, as Python does. */
  function ReplaceAll(s: string, pat: string, rep: string): string
    decreases |s|
  {
    if |pat| == 0 then
      if |s| == 0 then rep else rep + [s[0]] + ReplaceAll(s[1..], pat, rep)
    else if StartsWith(s, pat) then rep + ReplaceAll(s[|pat|..], pat, rep)
    else if |s| == 0 then []
    else [s[0]] + ReplaceAll(s[1..], pat, rep)
  }

  /** Replacing a pattern by itself is the identity. */
  lemma {:induction false} ReplaceBySelf(s: string, p: string)
    ensures ReplaceAll(s, p, p) == s
    decreases |s|
  {
    if |p| == 0 {
      if |s| > 0 {
        ReplaceBySelf(s[1..], p);
        assert s == [s[0]] + s[1..];
      }
    } else if StartsWith(s, p) {
      ReplaceBySelf(s[|p|..], p);
      assert s == s[..|p|] + s[|p|..];
    } else if |s| > 0 {
      ReplaceBySelf(s[1..], p);
      assert s == [s[0]] + s[1..];
    }
  }

  /** A pattern holding a character that `s` lacks never matches, so the
      replacement leaves `s` unchanged. */
  lemma {:induction false} ReplaceAbsent(s: string, pat: string, rep: string, c: char)
    requires c in pat && c !in s
    ensures ReplaceAll(s, pat, rep) == s
    decreases |s|
  {
    if StartsWith(s, pat) {
      assert false;
    } else if |s| > 0 {
      ReplaceAbsent(s[1..], pat, rep, c);
      assert s == [s[0]] + s[1..];
    }
  }

  /** A single pattern character behind a different first character, in
      front of text free of it, is replaced exactly once. */
  lemma ReplaceAfterChar(x: char, d: char, c: string, rep: string)
    requires x != d && d !in c
    ensures ReplaceAll([x, d] + c, [d], rep) == [x] + rep + c
  {
    var p := [d];
    var u := p + c;
    var t := [x, d] + c;
    ReplaceAbsent(c, p, rep, d);
    assert StartsWith(u, p) && u[|p|..] == c;
    assert ReplaceAll(u, p, rep) == rep + ReplaceAll(c, p, rep);
    assert !StartsWith(t, p) by {
      assert t[0] == x;
    }
    assert t[1..] == u;
    assert ReplaceAll(t, p, rep) == [x] + ReplaceAll(u, p, rep);
  }

  /** A non-empty text replaced as a whole becomes the replacement. */
  lemma ReplaceWhole(p: string, rep: string)
    requires p != []
    ensures ReplaceAll(p, p, rep) == rep
  {
    assert StartsWith(p, p);
    assert p[|p|..] == [];
    assert ReplaceAll([], p, rep) == [];
  }

  /** Replacing a single character by text that does not hold it removes
      every occurrence of that character. */
  lemma {:induction false} ReplaceCharRemoves(s: string, c: char, rep: string)
    requires c !in rep
    ensures c !in ReplaceAll(s, [c], rep)
    decreases |s|
  {
    if StartsWith(s, [c]) {
      ReplaceCharRemoves(s[1..], c, rep);
    } else if |s| > 0 {
      ReplaceCharRemoves(s[1..], c, rep);
      assert s[0] != c by { assert s[..1] == [s[0]]; }
    }
  }

  /* ---------------------------------------------------------------- case */

  /** Python's `str.lower()` on ASCII and Latin-1 capitals (which covers the
      Spanish letters the keyword tests meet); other characters unchanged. */
  function LowerChar(c: char): char {
    if 'A' <= c <= 'Z' || ('\U{00C0}' <= c <= '\U{00DE}' && c != '\U{00D7}') then
      (c as int + 32) as char
    else c
  }

  function Lower(s: string): (r: string)
    ensures |r| == |s|
    ensures forall k :: 0 <= k < |s| ==> r[k] == LowerChar(s[k])
  {
    seq(|s|, k requires 0 <= k < |s| => LowerChar(s[k]))
  }

  /* ---------------------------------------------------------------- digits */

  /** ASCII digits; Python's `\d` also takes other Unicode digits, which the
      pages this model reads do not carry. */
  predicate IsDigit(c: char) {
    '0' <= c <= '9'
  }

  predicate AllDigits(s: string) {
    forall k :: 0 <= k < |s| ==> IsDigit(s[k])
  }

  predicate NoDigits(s: string) {
    forall k :: 0 <= k < |s| ==> !IsDigit(s[k])
  }

  /** The longest all-digit prefix of `s`. */
  function LeadingDigits(s: string): (r: string)
    ensures AllDigits(r)
    ensures |r| <= |s| && r == s[..|r|]
    ensures |r| == |s| || !IsDigit(s[|r|])
  {
    if |s| > 0 && IsDigit(s[0]) then [s[0]] + LeadingDigits(s[1..]) else []
  }

  /** `r` is the run of digits starting at index `i` of `s`, preceded only
      by non-digits and followed by a non-digit or the end. */
  predicate FirstRunAt(s: string, r: string, i: int) {
    && 0 <= i && i + |r| <= |s|
    && NoDigits(s[..i])
    && s[i..i + |r|] == r
    && (i + |r| == |s| || !IsDigit(s[i + |r|]))
  }

  lemma FirstRunShift(s: string, r: string, i: int)
    requires |s| > 0 && !IsDigit(s[0]) && FirstRunAt(s[1..], r, i)
    ensures FirstRunAt(s, r, i + 1)
  {
    assert s[..i + 1] == [s[0]] + s[1..][..i];
    assert s[i + 1..i + 1 + |r|] == s[1..][i..i + |r|];
  }

  /** `(re.findall(r'\d+', s) or [''])[0]`: the first maximal run of digits
      in `s`, or the empty string when `s` has no digit. */
  function FirstDigitRun(s: string): (r: string)
    ensures AllDigits(r)
    ensures r == [] <==> NoDigits(s)
    ensures r != [] ==> exists i :: FirstRunAt(s, r, i)
  {
    if |s| == 0 then []
    else if IsDigit(s[0]) then
      var r := LeadingDigits(s);
      assert FirstRunAt(s, r, 0);
      r
    else
      var r := FirstDigitRun(s[1..]);
      assert r != [] ==> exists i :: FirstRunAt(s, r, i) by {
        if r != [] {
          var i :| FirstRunAt(s[1..], r, i);
          FirstRunShift(s, r, i);
        }
      }
      assert NoDigits(s[1..]) ==> NoDigits(s) by {
        assert forall k :: 1 <= k < |s| ==> s[k] == s[1..][k - 1];
      }
      r
  }

  lemma SliceDigits(s: string, a: int, b: int)
    requires 0 <= a <= b <= |s|
    ensures AllDigits(s[a..b]) ==> forall k :: a <= k < b ==> IsDigit(s[k])
    ensures NoDigits(s[a..b]) ==> forall k :: a <= k < b ==> !IsDigit(s[k])
  {
    assert forall k :: a <= k < b ==> s[a..b][k - a] == s[k];
  }

  /** A non-empty run of digits preceded only by non-digits is the first run
      there is: two such runs coincide. */
  lemma FirstRunUnique(s: string, r: string, i: int, r2: string, i2: int)
    requires AllDigits(r) && r != [] && FirstRunAt(s, r, i)
    requires AllDigits(r2) && r2 != [] && FirstRunAt(s, r2, i2)
    ensures r == r2 && i == i2
  {
    SliceDigits(s, 0, i);
    SliceDigits(s, 0, i2);
    SliceDigits(s, i, i + |r|);
    SliceDigits(s, i2, i2 + |r2|);
    assert IsDigit(s[i]) && IsDigit(s[i2]);
    assert i == i2;
    assert |r| == |r2|;
  }

  /** Hence a run found by hand is what `re.findall(r'\d+', s)[0]` returns. */
  lemma FirstDigitRunIs(s: string, r: string, i: int)
    requires AllDigits(r) && r != [] && FirstRunAt(s, r, i)
    ensures FirstDigitRun(s) == r
  {
    SliceDigits(s, i, i + |r|);
    assert IsDigit(s[i]);
    var f := FirstDigitRun(s);
    assert f != [];
    var j :| FirstRunAt(s, f, j);
    FirstRunUnique(s, r, i, f, j);
  }

  function DigitValue(c: char): nat
    requires IsDigit(c)
  {
    c as int - '0' as int
  }

  function DigitChar(n: nat): (c: char)
    requires n < 10
    ensures IsDigit(c) && DigitValue(c) == n
  {
    ('0' as int + n) as char
  }

  /** The number an all-digit string denotes, as Python's `int()` reads it. */
  function DigitsValue(s: string): nat
    requires AllDigits(s)
  {
    if |s| == 0 then 0 else 10 * DigitsValue(s[..|s| - 1]) + DigitValue(s[|s| - 1])
  }

  /** The decimal spelling of `n` without leading zeros. */
  function Decimal(n: nat): (r: string)
    ensures AllDigits(r) && 1 <= |r|
    ensures DigitsValue(r) == n
  {
    if n < 10 then [DigitChar(n)]
    else
      var r := Decimal(n / 10) + [DigitChar(n % 10)];
      assert r[..|r| - 1] == Decimal(n / 10);
      r
  }

  function Zeros(k: nat): (r: string)
    ensures |r| == k && AllDigits(r)
  {
    if k == 0 then [] else "0" + Zeros(k - 1)
  }

  /** Leading zeros do not change the value of a digit string. */
  lemma {:induction false} ZerosValue(k: nat, s: string)
    requires AllDigits(s)
    ensures AllDigits(Zeros(k) + s) && DigitsValue(Zeros(k) + s) == DigitsValue(s)
    decreases |s|
  {
    var z := Zeros(k) + s;
    assert AllDigits(z) by {
      forall i | 0 <= i < |z| ensures IsDigit(z[i]) {
        if i < k { assert z[i] == Zeros(k)[i]; } else { assert z[i] == s[i - k]; }
      }
    }
    if |s| == 0 {
      assert z == Zeros(k);
      ZerosAllZero(k);
    } else {
      assert z[..|z| - 1] == Zeros(k) + s[..|s| - 1];
      ZerosValue(k, s[..|s| - 1]);
    }
  }

  lemma {:induction false} ZerosAllZero(k: nat)
    ensures DigitsValue(Zeros(k)) == 0
  {
    if k > 0 {
      assert Zeros(k)[..k - 1] == Zeros(k - 1) by {
        ZerosShift(k - 1);
      }
      ZerosAllZero(k - 1);
    }
  }

  lemma {:induction false} ZerosShift(k: nat)
    ensures Zeros(k + 1) == Zeros(k) + "0"
  {
    if k > 0 {
      ZerosShift(k - 1);
    }
  }

  /** `n` written with at least `width` digits, zero-padded on the left, as
      `strftime` writes `%m`, `%d` and `%Y`. */
  function ZeroPad(n: nat, width: nat): (r: string)
    ensures AllDigits(r) && DigitsValue(r) == n
    ensures |r| == if |Decimal(n)| < width then width else |Decimal(n)|
  {
    var d := Decimal(n);
    var z := if |d| < width then Zeros(width - |d|) else [];
    ZerosValue(|z|, d);
    z + d
  }

  /** A non-empty digit run between digit-free text and text that does not
      continue it is the first run. */
  lemma RunBetween(p: string, d: string, q: string)
    requires NoDigits(p) && AllDigits(d) && d != []
    requires q == [] || !IsDigit(q[0])
    ensures FirstDigitRun(p + d + q) == d
  {
    var s := p + d + q;
    assert s[..|p|] == p;
    assert s[|p|..|p| + |d|] == d;
    assert q != [] ==> s[|p| + |d|] == q[0];
    FirstDigitRunIs(s, d, |p|);
  }

  /* ---------------------------------------------------------------- join / split */

  /** Python's `sep.join(xs)`. */
  function Join(xs: seq<string>, sep: char): string {
    if |xs| == 0 then ""
    else if |xs| == 1 then xs[0]
    else xs[0] + [sep] + Join(xs[1..], sep)
  }

  /** Python's `s.split(sep)`; always at least one piece. */
  function Split(s: string, sep: char): (r: seq<string>)
    ensures |r| >= 1
  {
    if |s| == 0 then [""]
    else if s[0] == sep then [""] + Split(s[1..], sep)
    else
      var t := Split(s[1..], sep);
      [[s[0]] + t[0]] + t[1..]
  }

  lemma {:induction false} SplitNoSep(s: string, sep: char)
    requires sep !in s
    ensures Split(s, sep) == [s]
  {
    if |s| > 0 {
      SplitNoSep(s[1..], sep);
      assert [s[0]] + s[1..] == s;
    }
  }

  lemma {:induction false} SplitAtSep(a: string, b: string, sep: char)
    requires sep !in a
    ensures Split(a + [sep] + b, sep) == [a] + Split(b, sep)
  {
    if |a| == 0 {
      assert a + [sep] + b == [sep] + b;
      assert ([sep] + b)[1..] == b;
    } else {
      var s := a + [sep] + b;
      assert s[1..] == a[1..] + [sep] + b;
      SplitAtSep(a[1..], b, sep);
      assert [a[0]] + a[1..] == a;
    }
  }

  /** Joining a non-empty list whose items do not hold the separator can be
      undone by splitting. */
  lemma {:induction false} SplitJoin(xs: seq<string>, sep: char)
    requires |xs| >= 1
    requires forall k :: 0 <= k < |xs| ==> sep !in xs[k]
    ensures Split(Join(xs, sep), sep) == xs
  {
    if |xs| == 1 {
      SplitNoSep(xs[0], sep);
    } else {
      SplitJoin(xs[1..], sep);
      SplitAtSep(xs[0], Join(xs[1..], sep), sep);
      assert [xs[0]] + xs[1..] == xs;
    }
  }
}
