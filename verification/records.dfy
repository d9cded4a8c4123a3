/** `get_job_details`: one flat record per detail page. The HTML parser's
    part of each extractor (which element holds the label, which holds the
    value) is outside the model: a detail page is given by the texts and
    attributes those lookups found, `None` where a lookup found nothing.
    What the extractors do with what was found is modelled here and in the
    modules this one imports. */
module Records {
  import opened Wrappers
  import opened Text
  import opened CleanText
  import opened Dates
  import opened Classifiers
  import opened Salary
  import opened Photos
  import opened Lists

  const DefaultLocation: string := "Costa Rica"
  const JobTag: string := "Costa Rica"
  const ApplyType: string := "external"

  /** The fallback location is itself a clean text. */
  lemma DefaultLocationClean()
    ensures Replacement !in DefaultLocation && IsStripped(DefaultLocation)
  {
    assert DefaultLocation[0] == 'C' && DefaultLocation[|DefaultLocation| - 1] == 'a';
    assert forall k :: 0 <= k < |DefaultLocation| ==> DefaultLocation[k] < '\U{0080}';
  }

  /** What the location lookups of the two-page scraper found, in the order
      it tries them: the element after the 'Ubicación del Puesto' label, the
      label's later siblings, an element with a location class, the elements
      after location icons, and a text shaped like "X, Y, Costa Rica". The
      first-page scraper only tries the first. */
  datatype LocationSources = LocationSources(
    valueText: Option<string>,
    siblingTexts: seq<string>,
    classText: Option<string>,
    iconTexts: seq<string>,
    patternText: Option<string>)

  datatype DetailPage = DetailPage(
    featuredImageSrc: Option<string>,
    title: Option<string>,
    featured: bool,
    urgent: bool,
    description: Option<string>,
    category: Option<string>,
    typeNode: Option<string>,
    genderValue: Option<string>,
    email: string,
    salaryTypeSection: Option<string>,
    salarySection: Option<string>,
    experience: Option<string>,
    careerLevel: Option<string>,
    qualification: Option<string>,
    videoSrc: Option<string>,
    imageSrcs: seq<string>,
    deadlineValue: Option<string>,
    location: LocationSources)

  /** The 26 fields of a job record, in the order the scrapers write them. */
  datatype JobRecord = JobRecord(
    featuredImage: string,
    title: string,
    featured: int,
    filled: int,
    urgent: int,
    description: string,
    category: string,
    jobType: string,
    tag: string,
    expiryDate: string,
    gender: string,
    applyType: string,
    applyUrl: string,
    applyEmail: string,
    salaryType: string,
    salary: string,
    maxSalary: string,
    experience: string,
    careerLevel: string,
    qualification: string,
    videoUrl: string,
    photos: string,
    applicationDeadline: string,
    address: string,
    location: string,
    mapLocation: string)

  /* ------------------------------------------------------------- location */

  /** A candidate location text the scraper accepts: longer than `minLen`
      characters, and holding a comma when `needsComma`. */
  predicate Acceptable(t: string, minLen: nat, needsComma: bool) {
    |t| > minLen && (needsComma ==> ',' in t)
  }

  /** The first acceptable text of a list, as a `for` loop that returns on
      the first hit does. */
  function FirstAcceptable(texts: seq<string>, minLen: nat, needsComma: bool): (r: Option<string>)
    ensures r.Some? ==> r.value in texts && Acceptable(r.value, minLen, needsComma)
    ensures r.None? ==> forall k :: 0 <= k < |texts| ==> !Acceptable(texts[k], minLen, needsComma)
    ensures |texts| > 0 && Acceptable(texts[0], minLen, needsComma) ==> r == Some(texts[0])
  {
    if |texts| == 0 then None
    else if Acceptable(texts[0], minLen, needsComma) then Some(texts[0])
    else
      var r := FirstAcceptable(texts[1..], minLen, needsComma);
      assert forall k :: 1 <= k < |texts| ==> texts[k] == texts[1..][k - 1];
      r
  }

  function AsList(t: Option<string>): seq<string> {
    match t
    case None => []
    case Some(s) => [s]
  }

  /** No lookup of the two-page scraper produced a usable location. */
  predicate NoLocationFound(src: LocationSources) {
    && FirstAcceptable(AsList(src.valueText), 3, false).None?
    && FirstAcceptable(src.siblingTexts, 5, true).None?
    && FirstAcceptable(AsList(src.classText), 0, false).None?
    && FirstAcceptable(src.iconTexts, 3, false).None?
    && src.patternText.None?
  }

  /** `extract_location` of the two-page scraper: the cleaned text of the
      first lookup that found something usable, else "Costa Rica". The
      value is clean in every case: stripped and free of U+FFFD. */
  function LocationTwoPage(src: LocationSources): (r: string)
    ensures Replacement !in r && IsStripped(r)
    ensures NoLocationFound(src) ==> r == DefaultLocation
    ensures src.valueText.Some? && |src.valueText.value| > 3 ==> r == CleanTwoPage(src.valueText.value)
  {
    DefaultLocationClean();
    match FirstAcceptable(AsList(src.valueText), 3, false)
    case Some(t) => CleanTwoPage(t)
    case None =>
      match FirstAcceptable(src.siblingTexts, 5, true)
      case Some(t) => CleanTwoPage(t)
      case None =>
        match FirstAcceptable(AsList(src.classText), 0, false)
        case Some(t) => CleanTwoPage(t)
        case None =>
          match FirstAcceptable(src.iconTexts, 3, false)
          case Some(t) => CleanTwoPage(t)
          case None =>
            match src.patternText
            case Some(t) => CleanTwoPage(Strip(t))
            case None => DefaultLocation
  }

  /** `extract_location` of the first-page scraper: only the value after
      the label, when longer than three characters. */
  function LocationFirstPage(valueText: Option<string>): (r: string)
    ensures Replacement !in r && IsStripped(r)
    ensures valueText.Some? && |valueText.value| > 3 ==> r == CleanFirstPage(valueText.value)
    ensures (valueText.None? || |valueText.value| <= 3) ==> r == DefaultLocation
  {
    DefaultLocationClean();
    if valueText.Some? && |valueText.value| > 3 then CleanFirstPage(valueText.value) else DefaultLocation
  }

  /** When the labelled value is usable and free of U+FFFD, both scrapers
      store it stripped; when there is no usable value and nothing else to
      try, both store "Costa Rica". */
  lemma LocationVersionsAgree(src: LocationSources)
    ensures src.valueText.Some? && |src.valueText.value| > 3 && Replacement !in src.valueText.value ==>
      LocationTwoPage(src) == LocationFirstPage(src.valueText) == Strip(src.valueText.value)
    ensures NoLocationFound(src) ==> LocationTwoPage(src) == LocationFirstPage(src.valueText) == DefaultLocation
  {
    if src.valueText.Some? && |src.valueText.value| > 3 && Replacement !in src.valueText.value {
      CleanVersionsAgreeOnCleanText(src.valueText.value);
    }
  }

  /* --------------------------------------------------------------- fields */

  /** A text field: the cleaned text that was found, or ''. */
  function TextTwoPage(found: Option<string>): (r: string)
    ensures Replacement !in r && IsStripped(r)
    ensures found.None? ==> r == ""
  {
    match found
    case None => ""
    case Some(t) => CleanTwoPage(t)
  }

  function TextFirstPage(found: Option<string>): (r: string)
    ensures Replacement !in r && IsStripped(r)
    ensures found.None? ==> r == ""
  {
    match found
    case None => ""
    case Some(t) => CleanFirstPage(t)
  }

  /** `1 if badge else 0`. */
  function Flag(b: bool): int {
    if b then 1 else 0
  }

  /** A link attribute resolved against the base URL, or ''. */
  function Resolved(src: Option<string>, join: string -> string): string {
    match src
    case None => ""
    case Some(s) => join(s)
  }

  /** What every record promises, whichever scraper built it: the three
      location fields agree, the constant fields hold their constants, the
      maximum salary repeats the minimum, the classifier fields hold one of
      their labels, the salary is all digits, the dates are ISO dates of
      today + 90 days or of a real calendar day, and the cleaned text fields
      carry no U+FFFD. */
  ghost predicate WellFormed(r: JobRecord, url: string, today: Date)
    requires Valid(today)
  {
    && r.address == r.location == r.mapLocation
    && r.filled == 0
    && r.tag == JobTag
    && r.applyType == ApplyType
    && r.applyUrl == url
    && r.maxSalary == r.salary
    && AllDigits(r.salary)
    && r.featured in {0, 1}
    && r.urgent in {0, 1}
    && (exists t :: r.jobType == JobTypeLabel(t))
    && (exists g :: r.gender == GenderLabel(g))
    && (exists p :: r.salaryType == SalaryPeriodLabel(p))
    && r.expiryDate == FormatIso(ExpiryDate(today))
    && (exists d :: Valid(d) && r.applicationDeadline == FormatIso(d))
    && Replacement !in r.title
    && Replacement !in r.description
    && Replacement !in r.location
  }

  /** `get_job_details` of the two-page scraper, for a page that was
      fetched and parsed. */
  function AssembleTwoPage(url: string, page: DetailPage, today: Date, join: string -> string): (r: JobRecord)
    requires Valid(today)
    ensures WellFormed(r, url, today)
  {
    var loc := LocationTwoPage(page.location);
    var salary := SalaryTwoPage(page.salarySection);
    var deadline := DeadlineDate(page.deadlineValue, today);
    JobRecord(
      Resolved(page.featuredImageSrc, join),
      TextTwoPage(page.title),
      Flag(page.featured),
      0,
      Flag(page.urgent),
      TextTwoPage(page.description),
      TextTwoPage(page.category),
      JobTypeLabel(TypeTwoPage(page.typeNode)),
      JobTag,
      FormatIso(ExpiryDate(today)),
      GenderLabel(GenderTwoPage(page.genderValue)),
      ApplyType,
      url,
      page.email,
      SalaryPeriodLabel(PeriodTwoPage(page.salaryTypeSection)),
      salary,
      salary,
      TextTwoPage(page.experience),
      TextTwoPage(page.careerLevel),
      TextTwoPage(page.qualification),
      page.videoSrc.GetOr(""),
      Join(PhotoUrlsTwoPage(page.imageSrcs, join), ','),
      FormatIso(deadline),
      loc, loc, loc)
  }

  /** `get_job_details` of the first-page scraper. */
  function AssembleFirstPage(url: string, page: DetailPage, today: Date, join: string -> string): (r: JobRecord)
    requires Valid(today)
    ensures WellFormed(r, url, today)
    ensures r.salaryType in {"Mensual", "Anual"}
  {
    var loc := LocationFirstPage(page.location.valueText);
    var salary := SalaryFirstPage(page.salarySection);
    var deadline := DeadlineDate(page.deadlineValue, today);
    JobRecord(
      Resolved(page.featuredImageSrc, join),
      TextFirstPage(page.title),
      Flag(page.featured),
      0,
      Flag(page.urgent),
      TextFirstPage(page.description),
      TextFirstPage(page.category),
      JobTypeLabel(TypeFirstPage(page.typeNode)),
      JobTag,
      FormatIso(ExpiryDate(today)),
      GenderLabel(GenderFirstPage(page.genderValue)),
      ApplyType,
      url,
      page.email,
      SalaryPeriodLabel(PeriodFirstPage(page.salaryTypeSection)),
      salary,
      salary,
      TextFirstPage(page.experience),
      TextFirstPage(page.careerLevel),
      TextFirstPage(page.qualification),
      page.videoSrc.GetOr(""),
      Join(PhotoUrlsFirstPage(page.imageSrcs, join), ','),
      FormatIso(deadline),
      loc, loc, loc)
  }

  /** A page on which every lookup came back empty. */
  function BlankPage(): DetailPage {
    DetailPage(None, None, false, false, None, None, None, None, "", None, None, None, None, None, None, [],
               None, LocationSources(None, [], None, [], None))
  }

  /** What a blank page yields: every default the extractors fall back on. */
  lemma BlankPageDefaults(url: string, today: Date, join: string -> string)
    requires Valid(today)
    ensures var r := AssembleTwoPage(url, BlankPage(), today, join);
      && r.title == "" && r.featuredImage == "" && r.photos == ""
      && r.description == "" && r.category == "" && r.experience == ""
      && r.careerLevel == "" && r.qualification == "" && r.videoUrl == ""
      && r.jobType == "Tiempo Completo"
      && r.gender == "Indistinto"
      && r.salaryType == "Mensual"
      && r.salary == ""
      && r.applicationDeadline == r.expiryDate
      && r.location == "Costa Rica"
      && r.featured == 0 && r.urgent == 0
  {
    var r := AssembleTwoPage(url, BlankPage(), today, join);
    assert Filter([], KeptTwoPage) == [];
    assert PhotoUrlsTwoPage([], join) == [];
  }
}
