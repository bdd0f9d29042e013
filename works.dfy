/**
 * The decoded ORCID "works" document and its normalization into flat
 * publication records, as done by `display_orcid_publications`
 * (orcid-publications.php, lines 81-103).
 */
module Works {
  import opened Wrappers

  // ---------------------------------------------------------------------
  // The decoded JSON, one datatype per object shape that the code touches.
  // A field that is absent or JSON `null` is `None`.
  // ---------------------------------------------------------------------

  /** An object `{"value": ...}`. */
  datatype Value = Value(value: Option<string>)

  /** The `title` object of a work summary: `{"title": {"value": ...}}`. */
  datatype TitleInfo = TitleInfo(title: Option<Value>)

  /** The `publication-date` object of a work summary: `{"year": {"value": ...}}`. */
  datatype PublicationDate = PublicationDate(year: Option<Value>)

  /** One entry of `external-ids.external-id`. */
  datatype ExternalId = ExternalId(idType: Option<string>, idValue: Option<string>)

  /** The `external-ids` object: `{"external-id": [...]}`. */
  datatype ExternalIds = ExternalIds(externalId: Option<seq<ExternalId>>)

  /** One `work-summary` object. */
  datatype WorkSummary = WorkSummary(
    title: Option<TitleInfo>,
    publicationDate: Option<PublicationDate>,
    workType: Option<string>,
    externalIds: Option<ExternalIds>)

  /** One element of the top-level `group` array; a missing `work-summary` is the empty list. */
  datatype Group = Group(workSummary: seq<WorkSummary>)

  /** The decoded response object; `group` is `None` when it is absent or null. */
  datatype WorksDocument = WorksDocument(group: Option<seq<Group>>)

  /** The flat record the plugin caches and renders. */
  datatype Publication = Publication(title: string, year: string, workType: string, url: string)

  const DoiType := "doi"
  const DoiPrefix := "https://doi.org/"

  /** PHP's `empty()` applied to a string: true for "" and for "0". */
  predicate PhpEmpty(s: string) {
    s == "" || s == "0"
  }

  // ---------------------------------------------------------------------
  // Field extraction (the `??` chains of lines 85-90)
  // ---------------------------------------------------------------------

  /**
   * The first work summary of a group.  When the
   * list is empty PHP yields null, on which every `??` chain gives '' and
   * `isset` gives false -- exactly the behaviour of a summary with no fields.
   */
  function FirstSummary(g: Group): WorkSummary {
    if |g.workSummary| > 0 then g.workSummary[0] else WorkSummary(None, None, None, None)
  }

  /** The text of an optional `{"value": ...}` object, or "" when any level is missing. */
  function ValueText(v: Option<Value>): string {
    match v
    case Some(Value(Some(s))) => s
    case _ => ""
  }

  /** The nested title text, or "" when any level is missing. */
  function TitleText(ws: WorkSummary): string {
    match ws.title
    case Some(t) => ValueText(t.title)
    case None => ""
  }

  /** The nested publication year, or "" when any level is missing. */
  function YearText(ws: WorkSummary): string {
    match ws.publicationDate
    case Some(d) => ValueText(d.year)
    case None => ""
  }

  /** The external-id list when both levels are present and non-null (PHP's `isset`), else `None`. */
  function ExternalIdList(ws: WorkSummary): Option<seq<ExternalId>> {
    match ws.externalIds
    case Some(e) => e.externalId
    case None => None
  }

  /**
   * The record of lines 85-90, before the DOI search fills in `url`: each
   * `??` chain gives the nested value when every level is present, else "".
   */
  function BaseRecord(ws: WorkSummary): (p: Publication)
    ensures p.title ==
      if ws.title.Some? && ws.title.value.title.Some? && ws.title.value.title.value.value.Some?
      then ws.title.value.title.value.value.value else ""
    ensures p.year ==
      if ws.publicationDate.Some? && ws.publicationDate.value.year.Some? && ws.publicationDate.value.year.value.value.Some?
      then ws.publicationDate.value.year.value.value.value else ""
    ensures p.workType == if ws.workType.Some? then ws.workType.value else ""
    ensures p.url == ""
  {
    Publication(TitleText(ws), YearText(ws), ws.workType.GetOr(""), "")
  }

  // ---------------------------------------------------------------------
  // DOI selection (lines 93-100)
  // ---------------------------------------------------------------------

  /** The id's type is exactly "doi": a strict, case-sensitive comparison. */
  predicate IsDoi(x: ExternalId) {
    x.idType == Some(DoiType)
  }

  /** The DOI resolver prefix followed by the id's value; a missing value concatenates as "". */
  function DoiLink(x: ExternalId): string {
    DoiPrefix + x.idValue.GetOr("")
  }

  /** The link of the first DOI in `ids`, or "" when there is none. */
  function DoiUrl(ids: seq<ExternalId>): string {
    if ids == [] then ""
    else if IsDoi(ids[0]) then DoiLink(ids[0])
    else DoiUrl(ids[1..])
  }

  /** The url of a work summary: the first DOI when the id list is set, otherwise "". */
  function SummaryUrl(ws: WorkSummary): string {
    match ExternalIdList(ws)
    case Some(ids) => DoiUrl(ids)
    case None => ""
  }

  /** The record one group entry normalizes to. */
  function NormalizeWork(g: Group): Publication {
    var ws := FirstSummary(g);
    BaseRecord(ws).(url := SummaryUrl(ws))
  }

  /** The records a whole `group` array normalizes to, one per entry. */
  function NormalizeAll(groups: seq<Group>): seq<Publication> {
    seq(|groups|, i requires 0 <= i < |groups| => NormalizeWork(groups[i]))
  }

  /** Without a DOI in the list the url stays empty, and with one it never is. */
  lemma {:induction false} DoiUrlEmptyIffNoDoi(ids: seq<ExternalId>)
    ensures DoiUrl(ids) == "" <==> forall i | 0 <= i < |ids| :: !IsDoi(ids[i])
  {
    if ids != [] {
      DoiUrlEmptyIffNoDoi(ids[1..]);
      if !IsDoi(ids[0]) {
        assert forall i | 1 <= i < |ids| :: ids[i] == ids[1..][i - 1];
      } else {
        assert DoiUrl(ids)[..|DoiPrefix|] == DoiPrefix;
      }
    }
  }

  /** The link comes from the first DOI: non-DOI entries before it and everything after it are ignored. */
  lemma {:induction false} DoiUrlPicksFirstDoi(ids: seq<ExternalId>, k: nat)
    requires k < |ids| && IsDoi(ids[k])
    requires forall j | 0 <= j < k :: !IsDoi(ids[j])
    ensures DoiUrl(ids) == DoiLink(ids[k])
  {
    if k > 0 {
      assert !IsDoi(ids[0]);
      DoiUrlPicksFirstDoi(ids[1..], k - 1);
    }
  }

  /** Searching a concatenation: the second part only matters when the first holds no DOI. */
  lemma {:induction false} DoiUrlAppend(a: seq<ExternalId>, b: seq<ExternalId>)
    ensures DoiUrl(a + b) == if DoiUrl(a) != "" then DoiUrl(a) else DoiUrl(b)
  {
    if a == [] {
      assert a + b == b;
    } else {
      assert (a + b)[1..] == a[1..] + b;
      DoiUrlAppend(a[1..], b);
    }
  }

  /**
   * The linear search of lines 94-99: scan the list in order and stop at
   * the first entry whose type is exactly "doi".
   */
  method FindDoiUrl(ids: seq<ExternalId>) returns (url: string)
    ensures url == DoiUrl(ids)
    ensures url == "" <==> forall j | 0 <= j < |ids| :: !IsDoi(ids[j])
    ensures url != "" ==> exists k | 0 <= k < |ids| ::
      IsDoi(ids[k]) && (forall j | 0 <= j < k :: !IsDoi(ids[j])) && url == DoiLink(ids[k])
  {
    url := "";
    var i := 0;
    while i < |ids|
      invariant 0 <= i <= |ids|
      invariant url == ""
      invariant forall j | 0 <= j < i :: !IsDoi(ids[j])
      invariant DoiUrl(ids) == DoiUrl(ids[i..])
    {
      if IsDoi(ids[i]) {
        url := DoiLink(ids[i]);
        assert url[..|DoiPrefix|] == DoiPrefix;
        break;
      }
      assert ids[i..][1..] == ids[i + 1..];
      i := i + 1;
    }
  }

  /**
   * The loop of lines 81-103: one record per group entry, appended in
   * order, with the url taken from the DOI search when the id list is set.
   */
  method NormalizeGroups(groups: seq<Group>) returns (publications: seq<Publication>)
    ensures |publications| == |groups|
    ensures forall i | 0 <= i < |groups| :: publications[i] == NormalizeWork(groups[i])
  {
    publications := [];
    for i := 0 to |groups|
      invariant |publications| == i
      invariant forall j | 0 <= j < i :: publications[j] == NormalizeWork(groups[j])
    {
      var ws := FirstSummary(groups[i]);
      var pub := BaseRecord(ws);
      var ids := ExternalIdList(ws);
      if ids.Some? {
        var url := FindDoiUrl(ids.value);
        pub := pub.(url := url);
      }
      publications := publications + [pub];
    }
  }

  /**
   * What each normalized record holds: title, year and type are the nested
   * values when every level is present and "" otherwise, and the url is
   * "" unless the id list is set and holds a DOI.
   */
  lemma NormalizedFields(g: Group)
    ensures var ws, p := FirstSummary(g), NormalizeWork(g);
      && (ws.title.Some? && ws.title.value.title.Some? && ws.title.value.title.value.value.Some?
          ==> p.title == ws.title.value.title.value.value.value)
      && (!(ws.title.Some? && ws.title.value.title.Some? && ws.title.value.title.value.value.Some?)
          ==> p.title == "")
      && (ws.publicationDate.Some? && ws.publicationDate.value.year.Some? && ws.publicationDate.value.year.value.value.Some?
          ==> p.year == ws.publicationDate.value.year.value.value.value)
      && (!(ws.publicationDate.Some? && ws.publicationDate.value.year.Some? && ws.publicationDate.value.year.value.value.Some?)
          ==> p.year == "")
      && p.workType == (if ws.workType.Some? then ws.workType.value else "")
      && (ws.externalIds.None? || ws.externalIds.value.externalId.None? ==> p.url == "")
      && (ws.externalIds.Some? && ws.externalIds.value.externalId.Some?
          ==> p.url == DoiUrl(ws.externalIds.value.externalId.value))
  {
  }

  /** A group without any work summary normalizes to a record whose four fields are all "". */
  lemma EmptyGroupRecord(g: Group)
    requires g.workSummary == []
    ensures NormalizeWork(g) == Publication("", "", "", "")
  {
  }

  /** Only the first work summary of a group is read; any further ones are ignored. */
  lemma OnlyFirstSummaryRead(g: Group, more: seq<WorkSummary>)
    requires |g.workSummary| > 0
    ensures NormalizeWork(Group(g.workSummary + more)) == NormalizeWork(g)
  {
    assert (g.workSummary + more)[0] == g.workSummary[0];
  }
}
