/** `clean_text`: best-effort repair of Spanish words whose accented letter
    was decoded as U+FFFD, followed by `strip()`. The two scrapers carry two
    different versions. */
module CleanText {
  import opened Text

  /** U+FFFD, the replacement character a mis-decoded accent turns into. */
  const Replacement: char := '\U{FFFD}'

  /** The generic repair: a lone replacement character becomes 'ó'. */
  const GenericFix: string := "ó"

  /** Apply each (wrong, right) substitution in order, each over the whole
      text, as a loop of `text = text.replace(wrong, right)` does. */
  function ApplyFixes(s: string, fixes: seq<(string, string)>): string
    decreases |fixes|
  {
    if |fixes| == 0 then s else ApplyFixes(ReplaceAll(s, fixes[0].0, fixes[0].1), fixes[1..])
  }

  /** A substitution that cannot change text free of U+FFFD: its key holds
      U+FFFD, or it maps a word to itself. */
  predicate Inert(fix: (string, string)) {
    Replacement in fix.0 || fix.0 == fix.1
  }

  lemma {:induction false} ApplyInertFixes(s: string, fixes: seq<(string, string)>)
    requires Replacement !in s
    requires forall k :: 0 <= k < |fixes| ==> Inert(fixes[k])
    ensures ApplyFixes(s, fixes) == s
    decreases |fixes|
  {
    if |fixes| > 0 {
      if Replacement in fixes[0].0 {
        ReplaceAbsent(s, fixes[0].0, fixes[0].1, Replacement);
      } else {
        ReplaceBySelf(s, fixes[0].0);
      }
      ApplyInertFixes(s, fixes[1..]);
    }
  }

  /** When the last substitution replaces U+FFFD itself by text free of it,
      no U+FFFD survives the whole table. */
  lemma {:induction false} ApplyFixesEndingInGeneric(s: string, fixes: seq<(string, string)>)
    requires |fixes| > 0 && fixes[|fixes| - 1].0 == [Replacement]
    requires Replacement !in fixes[|fixes| - 1].1
    ensures Replacement !in ApplyFixes(s, fixes)
    decreases |fixes|
  {
    if |fixes| == 1 {
      ReplaceCharRemoves(s, Replacement, fixes[0].1);
    } else {
      ApplyFixesEndingInGeneric(ReplaceAll(s, fixes[0].0, fixes[0].1), fixes[1..]);
    }
  }

  /** `key` holds a character that `s` lacks, so it never occurs in `s`. */
  predicate Foreign(key: string, s: string) {
    exists k :: 0 <= k < |key| && key[k] !in s
  }

  /** A text that is exactly the key of entry `i` comes out as that entry's
      value, provided every earlier key is foreign to the text and every
      later key is foreign to the value. */
  lemma {:induction false} ApplyFixesHit(s: string, fixes: seq<(string, string)>, i: int)
    requires 0 <= i < |fixes| && s == fixes[i].0 && s != []
    requires forall j :: 0 <= j < i ==> Foreign(fixes[j].0, s)
    requires forall j :: i < j < |fixes| ==> Foreign(fixes[j].0, fixes[i].1)
    ensures ApplyFixes(s, fixes) == fixes[i].1
    decreases |fixes|
  {
    if i == 0 {
      ReplaceWhole(s, fixes[0].1);
      ApplyForeignFixes(fixes[0].1, fixes[1..]);
    } else {
      var k :| 0 <= k < |fixes[0].0| && fixes[0].0[k] !in s;
      ReplaceAbsent(s, fixes[0].0, fixes[0].1, fixes[0].0[k]);
      ApplyFixesHit(s, fixes[1..], i - 1);
    }
  }

  /** Keys foreign to a text leave it unchanged. */
  lemma {:induction false} ApplyForeignFixes(s: string, fixes: seq<(string, string)>)
    requires forall j :: 0 <= j < |fixes| ==> Foreign(fixes[j].0, s)
    ensures ApplyFixes(s, fixes) == s
    decreases |fixes|
  {
    if |fixes| > 0 {
      var k :| 0 <= k < |fixes[0].0| && fixes[0].0[k] !in s;
      ReplaceAbsent(s, fixes[0].0, fixes[0].1, fixes[0].0[k]);
      ApplyForeignFixes(s, fixes[1..]);
    }
  }

  /* ------------------------------------------------------------ two-page scraper */

  /** The repair table of the two-page scraper, in the dict's insertion
      order: known words first, the generic repair last. */
  const TwoPageFixes: seq<(string, string)> := [
    ("Descripci\U{FFFD}n", "Descripción"),
    ("importaci\U{FFFD}n", "importación"),
    ("exportaci\U{FFFD}n", "exportación"),
    ("actuaci\U{FFFD}n", "actuación"),
    ("operaci\U{FFFD}n", "operación"),
    ("Corporaci\U{FFFD}n", "Corporación"),
    ("revisi\U{FFFD}n", "revisión"),
    ("t\U{FFFD}cnicos", "técnicos"),
    ("t\U{FFFD}cnicas", "técnicas"),
    ("t\U{FFFD}cnica", "técnica"),
    ("tem\U{FFFD}tica", "temática"),
    ("Acad\U{FFFD}mico", "Académico"),
    ("asesor\U{FFFD}a", "asesoría"),
    ("estad\U{FFFD}sticas", "estadísticas"),
    ("Tibás", "Tibás"),
    ("as\U{FFFD}", "así"),
    ("Elaboraci\U{FFFD}n", "Elaboración"),
    ([Replacement], GenericFix)
  ]

  /** Every entry of the two-page table is inert on clean text: all keys but
      one hold U+FFFD, and that one ('Tibás') maps to itself. */
  lemma TwoPageFixesInert()
    ensures forall k :: 0 <= k < |TwoPageFixes| ==> Inert(TwoPageFixes[k])
  {
  }

  /** `clean_text` of the two-page scraper: empty stays empty; otherwise the
      table is applied and the result stripped. */
  function CleanTwoPage(text: string): (r: string)
    ensures text == "" ==> r == ""
    ensures Replacement !in r
    ensures IsStripped(r)
    ensures Replacement !in text ==> r == Strip(text)
  {
    if text == "" then ""
    else
      var fixed := ApplyFixes(text, TwoPageFixes);
      ApplyFixesEndingInGeneric(text, TwoPageFixes);
      assert Replacement !in text ==> fixed == text by {
        if Replacement !in text {
          TwoPageFixesInert();
          ApplyInertFixes(text, TwoPageFixes);
        }
      }
      Strip(fixed)
  }

  /** The word table at work: 't\U{FFFD}cnicos' is repaired to 'técnicos'
      before the generic rule could turn it into 'tócnicos'. */
  lemma TwoPageRepairsTecnicos(t: string)
    requires t == "t\U{FFFD}cnicos"
    ensures CleanTwoPage(t) == "técnicos"
  {
    TwoPageTableRepairsTecnicos(t);
    TecnicosStripped(ApplyFixes(t, TwoPageFixes));
  }

  lemma TwoPageTableRepairsTecnicos(s: string)
    requires s == "t\U{FFFD}cnicos"
    ensures ApplyFixes(s, TwoPageFixes) == "técnicos"
  {
    var fixes := TwoPageFixes;
    assert s == fixes[7].0;
    forall j | 0 <= j < 7 ensures Foreign(fixes[j].0, s) {
      var k := if j == 1 || j == 4 then 1 else 0;
      assert fixes[j].0[k] !in s;
    }
    forall j | 7 < j < |fixes| ensures Foreign(fixes[j].0, fixes[7].1) {
      if j == 14 {
        assert fixes[j].0[0] !in fixes[7].1;
      } else {
        assert Replacement in fixes[j].0;
        var k :| 0 <= k < |fixes[j].0| && fixes[j].0[k] == Replacement;
        assert fixes[j].0[k] !in fixes[7].1;
      }
    }
    ApplyFixesHit(s, fixes, 7);
  }

  lemma TecnicosStripped(w: string)
    requires w == "técnicos"
    ensures Strip(w) == w
  {
    assert w[0] == 't' && w[|w| - 1] == 's';
    StripStripped(w);
  }

  /** Cleaning twice is cleaning once. */
  lemma CleanTwoPageIdempotent(text: string)
    ensures CleanTwoPage(CleanTwoPage(text)) == CleanTwoPage(text)
  {
    StripStripped(CleanTwoPage(text));
  }

  /* ---------------------------------------------------------- first-page scraper */

  /** The word table of the first-page scraper, in statement order. */
  const FirstPageWordFixes: seq<(string, string)> := [
    ("descripci\U{FFFD}n", "descripción"),
    ("Descripci\U{FFFD}n", "Descripción"),
    ("importaci\U{FFFD}n", "importación"),
    ("exportaci\U{FFFD}n", "exportación"),
    ("actuaci\U{FFFD}n", "actuación"),
    ("operaci\U{FFFD}n", "operación"),
    ("Corporaci\U{FFFD}n", "Corporación"),
    ("revisi\U{FFFD}n", "revisión"),
    ("Elaboraci\U{FFFD}n", "Elaboración"),
    ("t\U{FFFD}cnico", "técnico"),
    ("tem\U{FFFD}tica", "temática"),
    ("Acad\U{FFFD}mico", "Académico"),
    ("asesor\U{FFFD}a", "asesoría"),
    ("estad\U{FFFD}stica", "estadística"),
    ("\U{FFFD}rea", "Área"),
    ("Ubicaci\U{FFFD}n", "Ubicación"),
    ("as\U{FFFD}", "así"),
    ("G\U{FFFD}nero", "Género")
  ]

  function FirstPageWordRepair(text: string): string {
    ApplyFixes(text, FirstPageWordFixes)
  }

  /** `clean_text` of the first-page scraper: the generic repair runs first,
      and the word table only runs if U+FFFD is still present. */
  function CleanFirstPage(text: string): (r: string)
    ensures text == "" ==> r == ""
    ensures Replacement !in r
    ensures IsStripped(r)
  {
    if text == "" then ""
    else
      var generic := ReplaceAll(text, [Replacement], GenericFix);
      ReplaceCharRemoves(text, Replacement, GenericFix);
      assert Replacement !in generic;
      var fixed := if Replacement in generic then FirstPageWordRepair(generic) else generic;
      Strip(fixed)
  }

  /** The word table of the first-page scraper is dead code: the generic
      repair has already removed every U+FFFD when the guard is tested, so
      the result is the generic repair followed by `strip()`. */
  lemma FirstPageWordFixesUnreachable(text: string)
    requires text != ""
    ensures CleanFirstPage(text) == Strip(ReplaceAll(text, [Replacement], GenericFix))
  {
    ReplaceCharRemoves(text, Replacement, GenericFix);
  }

  lemma CleanFirstPageIdempotent(text: string)
    ensures CleanFirstPage(CleanFirstPage(text)) == CleanFirstPage(text)
  {
    var once := CleanFirstPage(text);
    if once != "" {
      FirstPageWordFixesUnreachable(once);
      ReplaceAbsent(once, [Replacement], GenericFix, Replacement);
      StripStripped(once);
    }
  }

  /** On text free of U+FFFD both versions only strip, so they agree. */
  lemma CleanVersionsAgreeOnCleanText(text: string)
    requires Replacement !in text
    ensures CleanFirstPage(text) == CleanTwoPage(text) == Strip(text)
  {
    if text != "" {
      FirstPageWordFixesUnreachable(text);
      ReplaceAbsent(text, [Replacement], GenericFix, Replacement);
    }
  }

  lemma GenericRepairOfTecnicos(t: string)
    requires t == "t\U{FFFD}cnicos"
    ensures ReplaceAll(t, [Replacement], GenericFix) == "tócnicos"
  {
    var c := "cnicos";
    assert t == ['t', Replacement] + c;
    ReplaceAfterChar('t', Replacement, c, GenericFix);
    assert ['t'] + GenericFix + c == "tócnicos";
  }

  lemma StripOfTecnicos(w: string)
    requires w == "tócnicos"
    ensures Strip(w) == w
  {
    assert w[0] == 't' && w[|w| - 1] == 's';
    StripStripped(w);
  }

  /** On a mis-decoded 'é' the first-page generic repair writes 'ó':
      "t\U{FFFD}cnicos" becomes "tócnicos", although its word table lists
      the right repair ('técnico'). */
  lemma FirstPageMisrepairsTecnicos(t: string)
    requires t == "t\U{FFFD}cnicos"
    ensures CleanFirstPage(t) == "tócnicos"
  {
    FirstPageWordFixesUnreachable(t);
    GenericRepairOfTecnicos(t);
    StripOfTecnicos(ReplaceAll(t, [Replacement], GenericFix));
  }
}
