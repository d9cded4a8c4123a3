/** The keyword classifiers of a detail page: employment type, gender
    requirement and salary period. Each one lower-cases the text the page
    shows next to its label and returns the label of the first rule one of
    whose keywords occurs in it, or a default when there is no label or no
    rule fires. */
module Classifiers {
  import opened Wrappers
  import opened Text

  datatype JobType = FullTime | PartTime
  datatype Gender = Male | Female | AnyGender
  datatype SalaryPeriod = Monthly | Annual | Hourly | Weekly

  /** The Spanish labels written into a record. */
  function JobTypeLabel(t: JobType): string {
    match t
    case FullTime => "Tiempo Completo"
    case PartTime => "Tiempo Parcial"
  }

  function GenderLabel(g: Gender): string {
    match g
    case Male => "Masculino"
    case Female => "Femenino"
    case AnyGender => "Indistinto"
  }

  function SalaryPeriodLabel(p: SalaryPeriod): string {
    match p
    case Monthly => "Mensual"
    case Annual => "Anual"
    case Hourly => "Por Hora"
    case Weekly => "Semanal"
  }

  /* ------------------------------------------------------------ first match */

  /** Rule `k` is the one an `if / elif` chain takes: one of its keywords
      occurs in `text`, and none of an earlier rule's does. */
  predicate FirstRule<V>(text: string, rules: seq<(seq<string>, V)>, k: int) {
    && 0 <= k < |rules|
    && ContainsAny(text, rules[k].0)
    && forall j :: 0 <= j < k ==> !ContainsAny(text, rules[j].0)
  }

  /** No rule fires: the chain falls through to its default. */
  predicate NoRule<V>(text: string, rules: seq<(seq<string>, V)>) {
    forall j :: 0 <= j < |rules| ==> !ContainsAny(text, rules[j].0)
  }

  /** The `if / elif` chain, one rule at a time. */
  function Classify<V>(text: string, rules: seq<(seq<string>, V)>, default: V): V
    decreases |rules|
  {
    if |rules| == 0 then default
    else if ContainsAny(text, rules[0].0) then rules[0].1
    else Classify(text, rules[1..], default)
  }

  /** The chain returns the value of the first rule that fires, and the
      default exactly when none does. */
  lemma {:induction false} ClassifyFirstRule<V>(text: string, rules: seq<(seq<string>, V)>, default: V)
    ensures forall k :: FirstRule(text, rules, k) ==> Classify(text, rules, default) == rules[k].1
    ensures NoRule(text, rules) ==> Classify(text, rules, default) == default
    ensures NoRule(text, rules) || exists k :: FirstRule(text, rules, k)
    decreases |rules|
  {
    if |rules| > 0 {
      if ContainsAny(text, rules[0].0) {
        assert FirstRule(text, rules, 0);
        assert forall k :: FirstRule(text, rules, k) ==> k == 0;
      } else {
        var tail := rules[1..];
        ClassifyFirstRule(text, tail, default);
        forall k | FirstRule(text, rules, k) ensures Classify(text, rules, default) == rules[k].1 {
          assert k != 0;
          assert FirstRule(text, tail, k - 1) by {
            forall j | 0 <= j < k - 1 ensures !ContainsAny(text, tail[j].0) {
              assert tail[j] == rules[j + 1];
            }
          }
        }
        if NoRule(text, tail) {
          forall j | 0 <= j < |rules| ensures !ContainsAny(text, rules[j].0) {
            if j > 0 {
              assert rules[j] == tail[j - 1];
            }
          }
        } else {
          var k :| FirstRule(text, tail, k);
          assert FirstRule(text, rules, k + 1) by {
            forall j | 0 <= j < k + 1 ensures !ContainsAny(text, rules[j].0) {
              if j > 0 {
                assert rules[j] == tail[j - 1];
              }
            }
          }
        }
      }
    }
  }

  /** A keyword that is itself a substring of `text` makes any rule listing
      it fire. */
  lemma KeywordFires(text: string, keywords: seq<string>, k: int)
    requires 0 <= k < |keywords| && Contains(text, keywords[k])
    ensures ContainsAny(text, keywords)
  {
  }

  /** A one-keyword rule fires exactly when its keyword occurs. */
  lemma SingleKeyword(text: string, w: string)
    ensures ContainsAny(text, [w]) <==> Contains(text, w)
  {
    if Contains(text, w) {
      KeywordFires(text, [w], 0);
    }
  }

  /* --------------------------------------------------------- two-page scraper */

  const FullTimeWords: seq<string> := ["completo", "full"]
  const PartTimeWords: seq<string> := ["parcial", "medio", "part"]
  const TwoPageTypeRules: seq<(seq<string>, JobType)> := [(FullTimeWords, FullTime), (PartTimeWords, PartTime)]

  /** `extract_type` of the two-page scraper, given the text of the node
      that matched the employment-type pattern (`None` when none did).
      Stripping that text cannot change which keywords it contains. */
  function TypeTwoPage(node: Option<string>): (r: JobType)
    ensures node.None? ==> r == FullTime
    ensures node.Some? && r == PartTime ==>
      ContainsAny(Lower(node.value), PartTimeWords) && !ContainsAny(Lower(node.value), FullTimeWords)
    ensures node.Some? && ContainsAny(Lower(node.value), PartTimeWords) && !ContainsAny(Lower(node.value), FullTimeWords) ==>
      r == PartTime
  {
    match node
    case None => FullTime
    case Some(t) =>
      ClassifyFirstRule(Lower(t), TwoPageTypeRules, FullTime);
      assert ContainsAny(Lower(t), FullTimeWords) ==> FirstRule(Lower(t), TwoPageTypeRules, 0);
      assert !ContainsAny(Lower(t), FullTimeWords) && ContainsAny(Lower(t), PartTimeWords) ==>
        FirstRule(Lower(t), TwoPageTypeRules, 1);
      Classify(Lower(t), TwoPageTypeRules, FullTime)
  }

  const MaleWords: seq<string> := ["masculino", "hombre", "male"]
  const FemaleWords: seq<string> := ["femenino", "mujer", "female"]
  const EitherWords: seq<string> := ["indistinto", "ambos", "both"]
  const TwoPageGenderRules: seq<(seq<string>, Gender)> :=
    [(MaleWords, Male), (FemaleWords, Female), (EitherWords, AnyGender)]

  /** `extract_gender` of the two-page scraper, given the text of the value
      node after the gender label (`None` when there is no label, parent or
      value node). */
  function GenderTwoPage(value: Option<string>): (r: Gender)
    ensures value.None? ==> r == AnyGender
    ensures value.Some? ==> (r == Male <==> ContainsAny(Lower(value.value), MaleWords))
    ensures value.Some? ==> (r == Female <==>
      !ContainsAny(Lower(value.value), MaleWords) && ContainsAny(Lower(value.value), FemaleWords))
  {
    match value
    case None => AnyGender
    case Some(t) =>
      var s := Lower(t);
      ClassifyFirstRule(s, TwoPageGenderRules, AnyGender);
      assert ContainsAny(s, MaleWords) ==> FirstRule(s, TwoPageGenderRules, 0);
      assert !ContainsAny(s, MaleWords) && ContainsAny(s, FemaleWords) ==> FirstRule(s, TwoPageGenderRules, 1);
      Classify(s, TwoPageGenderRules, AnyGender)
  }

  lemma MaleInFemale()
    ensures Contains("female", "male")
  {
    assert OccursAt("female", "male", 2);
    ContainsIff("female", "male");
  }

  /** 'female' contains 'male', so the two-page scraper reads a value that
      says "Female" as Masculino: its 'female' keyword can never fire. */
  lemma FemaleReadsAsMale(t: string)
    requires Contains(Lower(t), "female")
    ensures GenderTwoPage(Some(t)) == Male
  {
    MaleInFemale();
    ContainsTransitive(Lower(t), "female", "male");
    KeywordFires(Lower(t), MaleWords, 2);
  }

  /** Hence Femenino is only ever given for 'femenino' or 'mujer'. */
  lemma FemaleOnlyFromSpanishWords(t: string)
    requires GenderTwoPage(Some(t)) == Female
    ensures ContainsAny(Lower(t), ["femenino", "mujer"])
  {
    var s := Lower(t);
    if !Contains(s, "femenino") && !Contains(s, "mujer") {
      var k :| 0 <= k < |FemaleWords| && Contains(s, FemaleWords[k]);
      FemaleReadsAsMale(t);
      assert false;
    }
    if Contains(s, "femenino") {
      KeywordFires(s, ["femenino", "mujer"], 0);
    } else {
      KeywordFires(s, ["femenino", "mujer"], 1);
    }
  }

  const MonthlyWords: seq<string> := ["mensual", "monthly", "mes"]
  const AnnualWords: seq<string> := ["anual", "yearly", "año"]
  const HourlyWords: seq<string> := ["hora", "hourly"]
  const WeeklyWords: seq<string> := ["semanal", "weekly", "semana"]
  const TwoPagePeriodRules: seq<(seq<string>, SalaryPeriod)> :=
    [(MonthlyWords, Monthly), (AnnualWords, Annual), (HourlyWords, Hourly), (WeeklyWords, Weekly)]

  /** `extract_salary_type` of the two-page scraper, given the text of the
      element around the salary label. */
  function PeriodTwoPage(section: Option<string>): (r: SalaryPeriod)
    ensures section.None? ==> r == Monthly
    ensures section.Some? && r != Monthly ==>
      FirstRule(Lower(section.value), TwoPagePeriodRules, PeriodIndex(r))
    ensures section.Some? ==>
      forall k :: FirstRule(Lower(section.value), TwoPagePeriodRules, k) ==> r == TwoPagePeriodRules[k].1
  {
    match section
    case None => Monthly
    case Some(t) =>
      ClassifyFirstRule(Lower(t), TwoPagePeriodRules, Monthly);
      Classify(Lower(t), TwoPagePeriodRules, Monthly)
  }

  /** The position of a period's rule in the two-page chain. */
  function PeriodIndex(p: SalaryPeriod): (k: nat)
    ensures k < |TwoPagePeriodRules| && TwoPagePeriodRules[k].1 == p
  {
    match p
    case Monthly => 0
    case Annual => 1
    case Hourly => 2
    case Weekly => 3
  }

  lemma MesInSemestral()
    ensures Contains("semestral", "mes")
  {
    assert OccursAt("semestral", "mes", 2);
    ContainsIff("semestral", "mes");
  }

  /** The short keyword 'mes' is also a substring of other words: a salary
      paid "semestral" (every six months) is read as Mensual. */
  lemma SemestralReadsAsMonthly(t: string)
    requires Contains(Lower(t), "semestral")
    ensures PeriodTwoPage(Some(t)) == Monthly
  {
    MesInSemestral();
    ContainsTransitive(Lower(t), "semestral", "mes");
    KeywordFires(Lower(t), MonthlyWords, 2);
    assert FirstRule(Lower(t), TwoPagePeriodRules, 0);
  }

  /* ------------------------------------------------------- first-page scraper */

  const FirstPageTypeRules: seq<(seq<string>, JobType)> := [(["completo"], FullTime), (["parcial"], PartTime)]

  /** `extract_type` of the first-page scraper: only the Spanish words. */
  function TypeFirstPage(node: Option<string>): (r: JobType)
    ensures node.None? ==> r == FullTime
    ensures node.Some? ==> (r == PartTime <==>
      !Contains(Lower(node.value), "completo") && Contains(Lower(node.value), "parcial"))
  {
    match node
    case None => FullTime
    case Some(t) =>
      var s := Lower(t);
      ClassifyFirstRule(s, FirstPageTypeRules, FullTime);
      SingleKeyword(s, "completo");
      SingleKeyword(s, "parcial");
      assert Contains(s, "completo") ==> FirstRule(s, FirstPageTypeRules, 0);
      assert !Contains(s, "completo") && Contains(s, "parcial") ==> FirstRule(s, FirstPageTypeRules, 1);
      Classify(s, FirstPageTypeRules, FullTime)
  }

  const FirstPageGenderRules: seq<(seq<string>, Gender)> := [(["masculino"], Male), (["femenino"], Female)]

  /** `extract_gender` of the first-page scraper: only the Spanish words,
      and no 'Indistinto' rule (it is the default anyway). */
  function GenderFirstPage(value: Option<string>): (r: Gender)
    ensures value.None? ==> r == AnyGender
    ensures value.Some? ==> (r == Male <==> Contains(Lower(value.value), "masculino"))
    ensures value.Some? ==> (r == Female <==>
      !Contains(Lower(value.value), "masculino") && Contains(Lower(value.value), "femenino"))
  {
    match value
    case None => AnyGender
    case Some(t) =>
      var s := Lower(t);
      ClassifyFirstRule(s, FirstPageGenderRules, AnyGender);
      SingleKeyword(s, "masculino");
      SingleKeyword(s, "femenino");
      assert Contains(s, "masculino") ==> FirstRule(s, FirstPageGenderRules, 0);
      assert !Contains(s, "masculino") && Contains(s, "femenino") ==> FirstRule(s, FirstPageGenderRules, 1);
      Classify(s, FirstPageGenderRules, AnyGender)
  }

  const FirstPagePeriodRules: seq<(seq<string>, SalaryPeriod)> := [(["mensual"], Monthly), (["anual"], Annual)]

  /** `extract_salary_type` of the first-page scraper: only Mensual or Anual
      can come out. */
  function PeriodFirstPage(section: Option<string>): (r: SalaryPeriod)
    ensures r == Monthly || r == Annual
    ensures section.Some? ==> (r == Annual <==>
      !Contains(Lower(section.value), "mensual") && Contains(Lower(section.value), "anual"))
    ensures section.None? ==> r == Monthly
  {
    match section
    case None => Monthly
    case Some(t) =>
      var s := Lower(t);
      ClassifyFirstRule(s, FirstPagePeriodRules, Monthly);
      SingleKeyword(s, "mensual");
      SingleKeyword(s, "anual");
      assert Contains(s, "mensual") ==> FirstRule(s, FirstPagePeriodRules, 0);
      assert !Contains(s, "mensual") && Contains(s, "anual") ==> FirstRule(s, FirstPagePeriodRules, 1);
      Classify(s, FirstPagePeriodRules, Monthly)
  }

  /* --------------------------------------------------- the two versions agree */

  /** The two-page rules extend the first-page ones: on the same value text,
      a Masculino from the first-page scraper is a Masculino from the
      two-page scraper, and a Femenino there is Femenino or Masculino here. */
  lemma GenderVersionsAgree(value: Option<string>)
    ensures GenderFirstPage(value) == Male ==> GenderTwoPage(value) == Male
    ensures GenderFirstPage(value) == Female ==> GenderTwoPage(value) in {Male, Female}
  {
    if value.Some? {
      var s := Lower(value.value);
      if Contains(s, "masculino") {
        KeywordFires(s, MaleWords, 0);
      }
      if Contains(s, "femenino") {
        KeywordFires(s, FemaleWords, 0);
      }
    }
  }

  /** Likewise for the employment type: Tiempo Completo there is Tiempo
      Completo here. */
  lemma TypeVersionsAgree(node: Option<string>)
    ensures TypeFirstPage(node) == FullTime && node.Some? && Contains(Lower(node.value), "completo") ==>
      TypeTwoPage(node) == FullTime
    ensures TypeFirstPage(node) == PartTime ==> TypeTwoPage(node) == PartTime || ContainsAny(Lower(node.value), FullTimeWords)
  {
    if node.Some? {
      var s := Lower(node.value);
      if Contains(s, "completo") {
        KeywordFires(s, FullTimeWords, 0);
      }
      if Contains(s, "parcial") {
        KeywordFires(s, PartTimeWords, 0);
      }
    }
  }
}
