/** `extract_salary`: the minimum salary is the first run of digits in the
    text of the element after the salary label, once the thousands
    separators are deleted. The two scrapers delete different separators. */
module Salary {
  import opened Wrappers
  import opened Text

  /** `s` with every `c` deleted: an independent statement of what
      `s.replace(c, '')` does. */
  function Without(s: string, c: char): (r: string)
    ensures |r| <= |s|
  {
    if |s| == 0 then []
    else (if s[0] == c then [] else [s[0]]) + Without(s[1..], c)
  }

  /** Exactly `c` is gone: every other character is kept. */
  lemma {:induction false} WithoutMembers(s: string, c: char, x: char)
    ensures x in Without(s, c) <==> x in s && x != c
    decreases |s|
  {
    if |s| > 0 {
      WithoutMembers(s[1..], c, x);
      assert x in s <==> x == s[0] || x in s[1..];
    }
  }

  /** Python's `s.replace(c, '')` deletes exactly the occurrences of `c`. */
  lemma {:induction false} ReplaceByNothing(s: string, c: char)
    ensures ReplaceAll(s, [c], "") == Without(s, c)
    decreases |s|
  {
    if |s| > 0 {
      ReplaceByNothing(s[1..], c);
      if s[0] == c {
        assert StartsWith(s, [c]) by { assert s[..1] == [c]; }
      } else {
        assert !StartsWith(s, [c]) by { assert s[..1][0] == s[0]; }
      }
    }
  }

  lemma {:induction false} WithoutAppend(a: string, b: string, c: char)
    ensures Without(a + b, c) == Without(a, c) + Without(b, c)
    decreases |a|
  {
    if |a| > 0 {
      WithoutAppend(a[1..], b, c);
      assert (a + b)[1..] == a[1..] + b;
      assert (a + b)[0] == a[0];
    } else {
      assert a + b == b;
    }
  }

  lemma {:induction false} WithoutAbsent(s: string, c: char)
    requires c !in s
    ensures Without(s, c) == s
    decreases |s|
  {
    if |s| > 0 {
      WithoutAbsent(s[1..], c);
      assert s == [s[0]] + s[1..];
    }
  }

  /** Deleting a non-digit keeps a digit-free text digit-free, and a text
      with a digit still holding one. */
  lemma DigitsSurvive(s: string, c: char)
    requires !IsDigit(c)
    ensures NoDigits(Without(s, c)) <==> NoDigits(s)
  {
    var w := Without(s, c);
    if !NoDigits(s) {
      var k :| 0 <= k < |s| && IsDigit(s[k]);
      WithoutMembers(s, c, s[k]);
    }
    if !NoDigits(w) {
      var k :| 0 <= k < |w| && IsDigit(w[k]);
      WithoutMembers(s, c, w[k]);
    }
  }

  /** The salary text with its separators deleted, as each scraper does it:
      both delete ','; the two-page scraper also deletes '.'. */
  function Unseparated(text: string, dropDots: bool): (r: string)
    ensures NoDigits(r) <==> NoDigits(text)
  {
    var w := ReplaceAll(text, ",", "");
    ReplaceByNothing(text, ',');
    DigitsSurvive(text, ',');
    if dropDots then
      ReplaceByNothing(w, '.');
      DigitsSurvive(w, '.');
      ReplaceAll(w, ".", "")
    else w
  }

  /** `extract_salary` of the two-page scraper (`dropDots`) or of the
      first-page scraper, given the text of the salary section (`None` when
      there is no label, parent or section). The result is the first whole
      run of digits of the unseparated text, and empty exactly when there is
      no section or its text holds no digit. */
  function MinimumSalary(section: Option<string>, dropDots: bool): (r: string)
    ensures AllDigits(r)
    ensures r == "" <==> section.None? || NoDigits(section.value)
    ensures r != "" ==> exists i :: FirstRunAt(Unseparated(section.value, dropDots), r, i)
  {
    match section
    case None => ""
    case Some(t) => FirstDigitRun(Unseparated(t, dropDots))
  }

  function SalaryTwoPage(section: Option<string>): string {
    MinimumSalary(section, true)
  }

  function SalaryFirstPage(section: Option<string>): string {
    MinimumSalary(section, false)
  }

  /** Deleting a character that a digit string lacks only acts on the
      text around it. */
  lemma WithoutAround(pre: string, a: string, sep: string, b: string, post: string, c: char)
    requires c !in a && c !in b
    ensures Without(pre + a + sep + b + post, c)
         == Without(pre, c) + a + Without(sep, c) + b + Without(post, c)
  {
    WithoutAppend(pre + a + sep + b, post, c);
    WithoutAppend(pre + a + sep, b, c);
    WithoutAppend(pre + a, sep, c);
    WithoutAppend(pre, a, c);
    WithoutAbsent(a, c);
    WithoutAbsent(b, c);
  }

  /** Deleting a character other than the first keeps the first in front. */
  lemma WithoutKeepsHead(s: string, c: char)
    requires s == [] || s[0] != c
    ensures Without(s, c) == [] || (s != [] && Without(s, c)[0] == s[0])
  {
  }

  /** What each scraper's deletions leave of a grouped amount. */
  lemma UnseparatedGrouped(pre: string, a: string, sep: char, b: string, post: string)
    requires AllDigits(a) && AllDigits(b)
    requires sep == ',' || sep == '.'
    ensures var p1, q1 := Without(pre, ','), Without(post, ',');
      && Unseparated(pre + a + [sep] + b + post, false) == p1 + a + Without([sep], ',') + b + q1
      && Unseparated(pre + a + [sep] + b + post, true) == Without(p1, '.') + a + b + Without(q1, '.')
  {
    var t := pre + a + [sep] + b + post;
    DigitsHaveNoSeparators(a);
    DigitsHaveNoSeparators(b);
    var p1, s1, q1 := Without(pre, ','), Without([sep], ','), Without(post, ',');
    var w := p1 + a + s1 + b + q1;
    CommasDeleted(t, pre, a, [sep], b, post);
    DotsDeleted(w, p1, a, s1, b, q1);
  }

  lemma CommasDeleted(t: string, pre: string, a: string, sep: string, b: string, post: string)
    requires t == pre + a + sep + b + post && ',' !in a && ',' !in b
    ensures ReplaceAll(t, ",", "") == Without(pre, ',') + a + Without(sep, ',') + b + Without(post, ',')
  {
    ReplaceByNothing(t, ',');
    WithoutAround(pre, a, sep, b, post, ',');
  }

  lemma DotsDeleted(w: string, p1: string, a: string, s1: string, b: string, q1: string)
    requires w == p1 + a + s1 + b + q1 && '.' !in a && '.' !in b
    requires s1 == [] || s1 == "."
    ensures ReplaceAll(w, ".", "") == Without(p1, '.') + a + b + Without(q1, '.')
  {
    ReplaceByNothing(w, '.');
    WithoutAround(p1, a, s1, b, q1, '.');
    var x := Without(s1, '.');
    assert x == [];
    assert Without(p1, '.') + a + x + b + Without(q1, '.') == Without(p1, '.') + a + b + Without(q1, '.');
  }

  /** A grouped amount `a<sep>b` with a thousands separator, after any text
      without digits and before text that does not continue the number: the
      two-page scraper reads `a` and `b` glued together whichever separator
      is used; the first-page scraper does so for ',' but stops at a '.'. */
  lemma GroupedAmount(pre: string, a: string, sep: char, b: string, post: string)
    requires NoDigits(pre)
    requires AllDigits(a) && a != [] && AllDigits(b)
    requires sep == ',' || sep == '.'
    requires post == [] || (!IsDigit(post[0]) && post[0] != ',' && post[0] != '.')
    ensures SalaryTwoPage(Some(pre + a + [sep] + b + post)) == a + b
    ensures sep == ',' ==> SalaryFirstPage(Some(pre + a + [sep] + b + post)) == a + b
    ensures sep == '.' ==> SalaryFirstPage(Some(pre + a + [sep] + b + post)) == a
  {
    var t := pre + a + [sep] + b + post;
    UnseparatedGrouped(pre, a, sep, b, post);
    var p1, q1 := Without(pre, ','), Without(post, ',');
    var p2, q2 := Without(p1, '.'), Without(q1, '.');
    WithoutKeepsHead(post, ',');
    WithoutKeepsHead(q1, '.');
    DigitsSurvive(pre, ',');
    DigitsSurvive(p1, '.');
    Glue(p2, a, [], b, q2);
    RunBetween(p2, a + b, q2);
    if sep == ',' {
      assert Without([sep], ',') == [];
      Glue(p1, a, [], b, q1);
      RunBetween(p1, a + b, q1);
    } else {
      assert Without([sep], ',') == [sep];
      Glue(p1, a, [sep], b, q1);
      RunBetween(p1, a, [sep] + b + q1);
    }
  }

  lemma Glue(p: string, a: string, s: string, b: string, q: string)
    ensures p + a + s + b + q == p + a + (s + b + q)
    ensures s == [] ==> p + a + s + b + q == p + (a + b) + q
    ensures p + a + b + q == p + (a + b) + q
  {
  }

  lemma DigitsHaveNoSeparators(s: string)
    requires AllDigits(s)
    ensures ',' !in s && '.' !in s
  {
  }

  /** Text without separators reads the same in both scrapers. */
  lemma VersionsAgreeWithoutSeparators(section: Option<string>)
    requires section.Some? ==> '.' !in section.value
    ensures SalaryTwoPage(section) == SalaryFirstPage(section)
  {
    if section.Some? {
      var w := ReplaceAll(section.value, ",", "");
      ReplaceByNothing(section.value, ',');
      ReplaceByNothing(w, '.');
      WithoutMembers(section.value, ',', '.');
      WithoutAbsent(w, '.');
    }
  }

  /** The example the two-page scraper documents: both scrapers read
      "350,000 (Moneda Local)" as 350000. */
  lemma MonedaLocalExample(t: string)
    requires t == "350,000 (Moneda Local)"
    ensures SalaryTwoPage(Some(t)) == "350000"
    ensures SalaryFirstPage(Some(t)) == "350000"
  {
    var a, b, post := "350", "000", " (Moneda Local)";
    MonedaLocalPieces(t);
    GroupedAmount("", a, ',', b, post);
  }

  lemma MonedaLocalPieces(t: string)
    requires t == "350,000 (Moneda Local)"
    ensures t == "" + "350" + [','] + "000" + " (Moneda Local)"
  {
    var a, b, post := "350", "000", " (Moneda Local)";
    assert |t| == 22;
    assert t[..3] == a by {
      assert t[0] == '3' && t[1] == '5' && t[2] == '0';
    }
    assert t[3] == ',';
    assert t[4..7] == b by {
      assert t[4] == '0' && t[5] == '0' && t[6] == '0';
    }
    assert t[7..] == post by {
      assert forall k :: 7 <= k < 22 ==> t[k] == post[k - 7];
    }
    assert t == t[..3] + [t[3]] + t[4..7] + t[7..];
    assert t == "" + a + [','] + b + post;
  }

  /** The same amount written with a dot: the scrapers disagree. */
  lemma DottedAmountExample(t: string)
    requires t == "350.000"
    ensures SalaryTwoPage(Some(t)) == "350000"
    ensures SalaryFirstPage(Some(t)) == "350"
  {
    assert t == "" + "350" + ['.'] + "000" + "";
    GroupedAmount("", "350", '.', "000", "");
  }
}
