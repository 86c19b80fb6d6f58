/** Page metadata per event and per template, and the resolution of the eight
    `{{…}}` markers of a page template. */
module Metadata {
  import opened Wrappers
  import opened Text
  import opened Config

  datatype EventMeta = EventMeta(title: string, description: string, keywords: string, name: string)

  datatype TemplateMeta = TemplateMeta(name: string, description: string)

  // Each string is its own constant, and long ones are written as concatenations
  // of shorter literals, so that the solver can inspect them one at a time.

  const BirthdayTitle: string := "С днём рождения!"
  const BirthdayDescription: string := "Персональное поздравление " + "с днём рождения"
  const BirthdayKeywords: string := "день рождения, поздравление, " + "праздник, торжество, именинник"
  const BirthdayName: string := "День рождения"
  const BirthdayMeta: EventMeta := EventMeta(BirthdayTitle, BirthdayDescription, BirthdayKeywords, BirthdayName)

  const AnniversaryTitle: string := "С юбилеем!"
  const AnniversaryDescription: string := "Торжественное поздравление с юбилеем"
  const AnniversaryKeywords: string := "юбилей, поздравление, " + "годовщина, торжество, праздник"
  const AnniversaryName: string := "Юбилей"
  const AnniversaryMeta: EventMeta := EventMeta(AnniversaryTitle, AnniversaryDescription, AnniversaryKeywords, AnniversaryName)

  const WeddingTitle: string := "С днём свадьбы!"
  const WeddingDescription: string := "Романтичное поздравление со свадьбой"
  const WeddingKeywords: string := "свадьба, поздравление, " + "бракосочетание, любовь, семья"
  const WeddingName: string := "Свадьба"
  const WeddingMeta: EventMeta := EventMeta(WeddingTitle, WeddingDescription, WeddingKeywords, WeddingName)

  const BirthTitle: string := "С рождением малыша!"
  const BirthDescription: string := "Трогательное поздравление " + "с рождением ребёнка"
  const BirthKeywords: string := "рождение, малыш, ребёнок, " + "поздравление, семья, радость"
  const BirthName: string := "Рождение ребёнка"
  const BirthMeta: EventMeta := EventMeta(BirthTitle, BirthDescription, BirthKeywords, BirthName)

  const ValentineTitle: string := "С Днём влюблённых!"
  const ValentineDescription: string := "Романтическое поздравление " + "с Днём святого Валентина"
  const ValentineKeywords: string := "день влюблённых, валентинка, " + "любовь, романтика, 14 февраля"
  const ValentineName: string := "День святого Валентина"
  const ValentineMeta: EventMeta := EventMeta(ValentineTitle, ValentineDescription, ValentineKeywords, ValentineName)

  const EventMetadata: map<string, EventMeta> := map[
    "birthday" := BirthdayMeta,
    "anniversary" := AnniversaryMeta,
    "wedding" := WeddingMeta,
    "birth" := BirthMeta,
    "valentine" := ValentineMeta
  ]

  const IndexFirstName: string := "Яркий и веселый"
  const IndexTwoName: string := "Современный темный"
  const IndexThreeName: string := "Элегантный золотой"
  const IndexValentineName: string := "Романтический"

  const IndexFirstMeta: TemplateMeta := TemplateMeta(IndexFirstName, "Цветной шаблон с конфетти и анимациями")
  const IndexTwoMeta: TemplateMeta := TemplateMeta(IndexTwoName, "Стильный темный шаблон с эффектами стекла")
  const IndexThreeMeta: TemplateMeta := TemplateMeta(IndexThreeName, "Изысканный шаблон в золотых тонах")
  const IndexValentineMeta: TemplateMeta :=
    TemplateMeta(IndexValentineName, "Романтический шаблон с сердечками для Дня влюблённых")

  const TemplateMetadata: map<string, TemplateMeta> := map[
    "indexFirst" := IndexFirstMeta,
    "indexTwo" := IndexTwoMeta,
    "indexThree" := IndexThreeMeta,
    "indexValentine" := IndexValentineMeta
  ]

  /** The metadata tables have an entry for exactly the catalog ids, so the
      fallbacks below fire only for ids outside the catalogs. */
  lemma MetadataCoversCatalogs()
    ensures forall id :: id in EventMetadata <==> id in Ids(AvailableEvents)
    ensures forall id :: id in TemplateMetadata <==> id in Ids(AvailableTemplates)
  {
    EventCatalogIds();
    TemplateCatalogIds();
  }

  /** Metadata of an event; ids outside the event catalog get the birthday entry. */
  function GetEventMetadata(eventId: string): (m: EventMeta)
    ensures InCatalog(AvailableEvents, eventId) ==> m == EventMetadata[eventId]
    ensures !InCatalog(AvailableEvents, eventId) ==> m == EventMetadata[DefaultEventId]
  {
    MetadataCoversCatalogs();
    if eventId in EventMetadata then EventMetadata[eventId] else EventMetadata[DefaultEventId]
  }

  /** Metadata of a template; ids outside the template catalog get the entry of
      the first template. */
  function GetTemplateMetadata(templateId: string): (m: TemplateMeta)
    ensures InCatalog(AvailableTemplates, templateId) ==> m == TemplateMetadata[templateId]
    ensures !InCatalog(AvailableTemplates, templateId) ==> m == TemplateMetadata[DefaultTemplateId]
  {
    MetadataCoversCatalogs();
    if templateId in TemplateMetadata then TemplateMetadata[templateId] else TemplateMetadata[DefaultTemplateId]
  }

  // ---------------------------------------------------------------------------
  // Markers

  const EventTitleMarker: string := "{{EVENT_TITLE}}"
  const EventDescriptionMarker: string := "{{EVENT_DESCRIPTION}}"
  const EventKeywordsMarker: string := "{{EVENT_KEYWORDS}}"
  const EventNameMarker: string := "{{EVENT_NAME}}"
  const TemplateNameMarker: string := "{{TEMPLATE_NAME}}"
  const PageUrlMarker: string := "{{PAGE_URL}}"
  const CreationDateMarker: string := "{{CREATION_DATE}}"
  const ModificationDateMarker: string := "{{MODIFICATION_DATE}}"

  /** The markers, in the order in which they are replaced. */
  const Markers: seq<string> := [
    EventTitleMarker, EventDescriptionMarker, EventKeywordsMarker, EventNameMarker,
    TemplateNameMarker, PageUrlMarker, CreationDateMarker, ModificationDateMarker
  ]

  /** A character that can appear in a marker. */
  predicate MarkerChar(c: char) {
    c == '{' || c == '}' || c == '_' || ('A' <= c <= 'Z')
  }

  /** `{{`, then a name without braces, then `}}`. */
  predicate MarkerShaped(m: string) {
    && |m| >= 5
    && m[0] == '{' && m[1] == '{'
    && m[|m| - 2] == '}' && m[|m| - 1] == '}'
    && forall k :: 2 <= k < |m| - 2 ==> m[k] != '{' && m[k] != '}'
  }

  /** Every marker is shaped `{{NAME}}`. */
  lemma MarkersShaped()
    ensures forall m :: m in Markers ==> MarkerShaped(m)
  {
    assert MarkerShaped(EventTitleMarker) && MarkerShaped(EventDescriptionMarker);
    assert MarkerShaped(EventKeywordsMarker) && MarkerShaped(EventNameMarker);
    EventlessMarkersShaped();
  }

  lemma EventlessMarkersShaped()
    ensures MarkerShaped(TemplateNameMarker) && MarkerShaped(PageUrlMarker)
    ensures MarkerShaped(CreationDateMarker) && MarkerShaped(ModificationDateMarker)
  {
  }

  /** Every marker is made of marker characters. */
  lemma MarkersAlphabet()
    ensures forall m, k :: m in Markers && 0 <= k < |m| ==> MarkerChar(m[k])
  {
  }

  /** There are eight markers and no two are equal. */
  lemma MarkersDistinct()
    ensures |Markers| == 8
    ensures forall i, j :: 0 <= i < j < |Markers| ==> Markers[i] != Markers[j]
  {
  }

  /** An occurrence of a marker that starts inside an occurrence of another
      marker starts at the same index and is the same marker. */
  lemma MarkerNotInside(s: string, m: string, p: string, i: int, j: int)
    requires MarkerShaped(m) && MarkerShaped(p)
    requires OccursAt(s, m, i) && OccursAt(s, p, j) && i <= j < i + |m|
    ensures i == j && m == p
  {
    assert m[j - i] == s[j] == p[0];
    assert m[j - i + 1] == s[j + 1] == p[1];
    var k := if |m| < |p| then |m| else |p|;
    assert m[k - 2] == s[i + k - 2] == p[k - 2];
    assert m == s[i..i + |m|] && p == s[i..i + |p|];
  }

  /** Occurrences of two different markers never overlap. */
  lemma MarkerOccurrencesDisjoint(s: string, m: string, p: string, i: int, j: int)
    requires MarkerShaped(m) && MarkerShaped(p) && m != p
    requires OccursAt(s, m, i) && OccursAt(s, p, j)
    ensures j + |p| <= i || i + |m| <= j
  {
    if i <= j < i + |m| {
      MarkerNotInside(s, m, p, i, j);
    } else if j <= i < j + |p| {
      MarkerNotInside(s, p, m, j, i);
    }
  }

  /** A replacement value that can never complete a marker: it is non-empty,
      has no `{`, and does not begin with a marker character. */
  predicate SafeValue(v: string) {
    |v| > 0 && '{' !in v && !MarkerChar(v[0])
  }

  /** Why a value must be non-empty: replacing `{{PAGE_URL}}` by the empty
      string joins the text around it into `{{EVENT_TITLE}}`, although no
      value involved contains `{{`. */
  lemma EmptyValueSplicesMarker()
    ensures ReplaceAll("{" + PageUrlMarker + EventTitleMarker[1..], PageUrlMarker, "") == EventTitleMarker
  {
    var rest := EventTitleMarker[1..];
    var s := "{" + PageUrlMarker + rest;
    assert !StartsWith(s, PageUrlMarker) by {
      assert s[2] == '{' && PageUrlMarker[2] == 'P';
      assert s[..|PageUrlMarker|][2] == s[2];
    }
    assert s[1..] == PageUrlMarker + rest;
    assert s[1..][..|PageUrlMarker|] == PageUrlMarker;
    assert s[1..][|PageUrlMarker|..] == rest;
    NotContainsMissingChar(rest, PageUrlMarker, 'P');
    ReplaceAllNoOccurrence(rest, PageUrlMarker, "");
    assert [s[0]] + rest == EventTitleMarker;
  }

  /** A value that cannot complete the pattern `m`, in the sense of
      `Text.ReplaceAllRemovesAll`. */
  predicate Compatible(v: string, m: string) {
    |m| > 0 && |v| > 0 && m[0] !in v && v[0] !in m
  }

  lemma SafeValueCompatible(v: string)
    requires SafeValue(v)
    ensures forall m :: m in Markers ==> Compatible(v, m)
  {
    MarkersShaped();
    MarkersAlphabet();
  }

  /** All four strings of an event entry are safe replacement values. */
  predicate SafeEventMeta(e: EventMeta) {
    SafeValue(e.title) && SafeValue(e.description) && SafeValue(e.keywords) && SafeValue(e.name)
  }

  // One lemma per string keeps each literal check small.

  lemma BirthdayTitleSafe() ensures SafeValue(BirthdayTitle) {}
  lemma BirthdayDescriptionSafe() ensures SafeValue(BirthdayDescription) {}
  lemma BirthdayKeywordsSafe() ensures SafeValue(BirthdayKeywords) {}
  lemma BirthdayNameSafe() ensures SafeValue(BirthdayName) {}

  lemma AnniversaryTitleSafe() ensures SafeValue(AnniversaryTitle) {}
  lemma AnniversaryDescriptionSafe() ensures SafeValue(AnniversaryDescription) {}
  lemma AnniversaryKeywordsSafe() ensures SafeValue(AnniversaryKeywords) {}
  lemma AnniversaryNameSafe() ensures SafeValue(AnniversaryName) {}

  lemma WeddingTitleSafe() ensures SafeValue(WeddingTitle) {}
  lemma WeddingDescriptionSafe() ensures SafeValue(WeddingDescription) {}
  lemma WeddingKeywordsSafe() ensures SafeValue(WeddingKeywords) {}
  lemma WeddingNameSafe() ensures SafeValue(WeddingName) {}

  lemma BirthTitleSafe() ensures SafeValue(BirthTitle) {}
  lemma BirthDescriptionSafe() ensures SafeValue(BirthDescription) {}
  lemma BirthKeywordsSafe() ensures SafeValue(BirthKeywords) {}
  lemma BirthNameSafe() ensures SafeValue(BirthName) {}

  lemma ValentineTitleSafe() ensures SafeValue(ValentineTitle) {}
  lemma ValentineDescriptionSafe() ensures SafeValue(ValentineDescription) {}
  lemma ValentineKeywordsSafe() ensures SafeValue(ValentineKeywords) {}
  lemma ValentineNameSafe() ensures SafeValue(ValentineName) {}

  lemma IndexFirstNameSafe() ensures SafeValue(IndexFirstName) {}
  lemma IndexTwoNameSafe() ensures SafeValue(IndexTwoName) {}
  lemma IndexThreeNameSafe() ensures SafeValue(IndexThreeName) {}
  lemma IndexValentineNameSafe() ensures SafeValue(IndexValentineName) {}

  lemma EventMetadataEntrySafe(id: string)
    requires id in EventMetadata
    ensures SafeEventMeta(EventMetadata[id])
  {
    if id == "birthday" {
      BirthdayTitleSafe(); BirthdayDescriptionSafe(); BirthdayKeywordsSafe(); BirthdayNameSafe();
    } else if id == "anniversary" {
      AnniversaryTitleSafe(); AnniversaryDescriptionSafe(); AnniversaryKeywordsSafe(); AnniversaryNameSafe();
    } else if id == "wedding" {
      WeddingTitleSafe(); WeddingDescriptionSafe(); WeddingKeywordsSafe(); WeddingNameSafe();
    } else if id == "birth" {
      BirthTitleSafe(); BirthDescriptionSafe(); BirthKeywordsSafe(); BirthNameSafe();
    } else {
      ValentineTitleSafe(); ValentineDescriptionSafe(); ValentineKeywordsSafe(); ValentineNameSafe();
    }
  }

  /** Whatever the id, the event metadata used for resolution is safe. */
  lemma EventMetadataSafe(eventId: string)
    ensures SafeEventMeta(GetEventMetadata(eventId))
  {
    if eventId in EventMetadata {
      EventMetadataEntrySafe(eventId);
    } else {
      EventMetadataEntrySafe(DefaultEventId);
    }
  }

  /** Whatever the id, the template name used for resolution is safe. */
  lemma TemplateMetadataSafe(templateId: string)
    ensures SafeValue(GetTemplateMetadata(templateId).name)
  {
    IndexFirstNameSafe(); IndexTwoNameSafe(); IndexThreeNameSafe(); IndexValentineNameSafe();
  }

  // ---------------------------------------------------------------------------
  // Resolution

  /** One marker and the value that replaces it. */
  datatype Substitution = Substitution(marker: string, value: string)

  predicate NonEmptyMarkers(subs: seq<Substitution>) {
    forall k :: 0 <= k < |subs| ==> |subs[k].marker| > 0
  }

  /** Apply a list of substitutions left to right, each to the result of the
      previous one: the chain `s.replace(…).replace(…)…`. */
  function ApplyAll(s: string, subs: seq<Substitution>): string
    requires NonEmptyMarkers(subs)
    decreases |subs|
  {
    if |subs| == 0 then s
    else ApplyAll(ReplaceAll(s, subs[0].marker, subs[0].value), subs[1..])
  }

  /** The eight substitutions of a page, in the order of `Markers`. */
  function Substitutions(e: EventMeta, t: TemplateMeta, pageUrl: string,
                         creationDate: string, modificationDate: string): (subs: seq<Substitution>)
    ensures NonEmptyMarkers(subs)
    ensures |subs| == |Markers| && forall k :: 0 <= k < |subs| ==> subs[k].marker == Markers[k]
  {
    [ Substitution(EventTitleMarker, e.title),
      Substitution(EventDescriptionMarker, e.description),
      Substitution(EventKeywordsMarker, e.keywords),
      Substitution(EventNameMarker, e.name),
      Substitution(TemplateNameMarker, t.name),
      Substitution(PageUrlMarker, pageUrl),
      Substitution(CreationDateMarker, creationDate),
      Substitution(ModificationDateMarker, modificationDate) ]
  }

  /** Resolve the eight markers of `html`, one global literal replacement after
      the other. An omitted page URL or date replaces its marker by the empty
      string. */
  function ReplaceMetadataMarkers(html: string, eventId: string, templateId: string,
                                  pageUrl: Option<string>, creationDate: Option<string>,
                                  modificationDate: Option<string>): string
  {
    ApplyAll(html, Substitutions(GetEventMetadata(eventId), GetTemplateMetadata(templateId),
                                 pageUrl.GetOr(""), creationDate.GetOr(""), modificationDate.GetOr("")))
  }

  /** A text containing none of the markers passes through unchanged. */
  lemma {:induction false} ApplyAllNoMarkers(s: string, subs: seq<Substitution>)
    requires NonEmptyMarkers(subs)
    requires forall k :: 0 <= k < |subs| ==> !Contains(s, subs[k].marker)
    ensures ApplyAll(s, subs) == s
    decreases |subs|
  {
    if |subs| > 0 {
      ReplaceAllNoOccurrence(s, subs[0].marker, subs[0].value);
      ApplyAllNoMarkers(s, subs[1..]);
    }
  }

  /** A pattern absent from the text stays absent through all substitutions
      whose values cannot complete it. */
  lemma {:induction false} ApplyAllKeepsAbsent(s: string, subs: seq<Substitution>, m: string)
    requires NonEmptyMarkers(subs)
    requires forall k :: 0 <= k < |subs| ==> Compatible(subs[k].value, m)
    requires !Contains(s, m)
    ensures !Contains(ApplyAll(s, subs), m)
    decreases |subs|
  {
    if |subs| > 0 {
      ReplaceAllKeepsAbsent(s, subs[0].marker, subs[0].value, m);
      ApplyAllKeepsAbsent(ReplaceAll(s, subs[0].marker, subs[0].value), subs[1..], m);
    }
  }

  /** When no value can complete any of the markers, none of them is left. */
  lemma {:induction false} ApplyAllRemovesAll(s: string, subs: seq<Substitution>)
    requires NonEmptyMarkers(subs)
    requires forall k, k' :: 0 <= k < |subs| && 0 <= k' < |subs| ==> Compatible(subs[k].value, subs[k'].marker)
    ensures forall k :: 0 <= k < |subs| ==> !Contains(ApplyAll(s, subs), subs[k].marker)
    decreases |subs|
  {
    if |subs| > 0 {
      var s1 := ReplaceAll(s, subs[0].marker, subs[0].value);
      ReplaceAllRemovesAll(s, subs[0].marker, subs[0].value);
      assert forall k :: 0 <= k < |subs[1..]| ==> Compatible(subs[1..][k].value, subs[0].marker);
      ApplyAllKeepsAbsent(s1, subs[1..], subs[0].marker);
      ApplyAllRemovesAll(s1, subs[1..]);
      forall k | 1 <= k < |subs|
        ensures !Contains(ApplyAll(s, subs), subs[k].marker)
      {
        assert subs[k] == subs[1..][k - 1];
      }
    }
  }

  /** The values that resolution inserts are all safe when the page URL and
      both dates are given and safe. */
  predicate SafeArguments(pageUrl: Option<string>, creationDate: Option<string>, modificationDate: Option<string>) {
    && pageUrl.Some? && SafeValue(pageUrl.value)
    && creationDate.Some? && SafeValue(creationDate.value)
    && modificationDate.Some? && SafeValue(modificationDate.value)
  }

  /** The substitutions of a page with safe arguments. */
  function PageSubstitutions(eventId: string, templateId: string, pageUrl: Option<string>,
                             creationDate: Option<string>, modificationDate: Option<string>): seq<Substitution>
  {
    Substitutions(GetEventMetadata(eventId), GetTemplateMetadata(templateId),
                  pageUrl.GetOr(""), creationDate.GetOr(""), modificationDate.GetOr(""))
  }

  /** An omitted page address or date is the empty string: its marker is
      replaced by nothing. */
  lemma OmittedArgumentsDeleted(html: string, eventId: string, templateId: string)
    ensures var subs := PageSubstitutions(eventId, templateId, None, None, None);
      && subs[5] == Substitution(PageUrlMarker, "")
      && subs[6] == Substitution(CreationDateMarker, "")
      && subs[7] == Substitution(ModificationDateMarker, "")
    ensures ReplaceMetadataMarkers(html, eventId, templateId, None, None, None)
         == ReplaceMetadataMarkers(html, eventId, templateId, Some(""), Some(""), Some(""))
  {
  }

  /** Every value of the substitution list is safe. */
  predicate SafeValues(subs: seq<Substitution>) {
    forall k :: 0 <= k < |subs| ==> SafeValue(subs[k].value)
  }

  lemma SafeSubstitutions(e: EventMeta, t: TemplateMeta, pageUrl: string, creationDate: string, modificationDate: string)
    requires SafeEventMeta(e) && SafeValue(t.name)
    requires SafeValue(pageUrl) && SafeValue(creationDate) && SafeValue(modificationDate)
    ensures SafeValues(Substitutions(e, t, pageUrl, creationDate, modificationDate))
  {
  }

  lemma SubstitutionsCompatible(eventId: string, templateId: string, pageUrl: Option<string>,
                                creationDate: Option<string>, modificationDate: Option<string>)
    requires SafeArguments(pageUrl, creationDate, modificationDate)
    ensures var subs := PageSubstitutions(eventId, templateId, pageUrl, creationDate, modificationDate);
      forall k, k' :: 0 <= k < |subs| && 0 <= k' < |subs| ==> Compatible(subs[k].value, subs[k'].marker)
  {
    var subs := PageSubstitutions(eventId, templateId, pageUrl, creationDate, modificationDate);
    EventMetadataSafe(eventId);
    TemplateMetadataSafe(templateId);
    SafeSubstitutions(GetEventMetadata(eventId), GetTemplateMetadata(templateId),
                      pageUrl.value, creationDate.value, modificationDate.value);
    forall k | 0 <= k < |subs|
      ensures forall m :: m in Markers ==> Compatible(subs[k].value, m)
    {
      SafeValueCompatible(subs[k].value);
    }
  }

  /** With safe arguments, no marker survives resolution. */
  lemma ResolveRemovesAllMarkers(html: string, eventId: string, templateId: string,
                                 pageUrl: Option<string>, creationDate: Option<string>, modificationDate: Option<string>)
    requires SafeArguments(pageUrl, creationDate, modificationDate)
    ensures forall m :: m in Markers ==>
      !Contains(ReplaceMetadataMarkers(html, eventId, templateId, pageUrl, creationDate, modificationDate), m)
  {
    var subs := PageSubstitutions(eventId, templateId, pageUrl, creationDate, modificationDate);
    SubstitutionsCompatible(eventId, templateId, pageUrl, creationDate, modificationDate);
    ApplyAllRemovesAll(html, subs);
    forall m | m in Markers
      ensures !Contains(ApplyAll(html, subs), m)
    {
      var k :| 0 <= k < |Markers| && Markers[k] == m;
      assert subs[k].marker == m;
    }
  }

  // ---------------------------------------------------------------------------
  // Which value replaces which marker

  /** None of the eight markers occurs in `s`. */
  predicate MarkerFree(s: string) {
    forall m :: m in Markers ==> !Contains(s, m)
  }

  /** A marker between two marker-free texts: no other marker occurs in the
      whole. */
  lemma OtherMarkerAbsent(pre: string, mk: string, post: string, m: string)
    requires mk in Markers && m in Markers && mk != m
    requires !Contains(pre, m) && !Contains(post, m)
    ensures !Contains(pre + mk + post, m)
  {
    var s := pre + mk + post;
    MarkersShaped();
    assert OccursAt(s, mk, |pre|) by {
      assert s[|pre|..|pre| + |mk|] == mk;
    }
    forall i | 0 <= i <= |s| - |m| && OccursAt(s, m, i)
      ensures false
    {
      OccursInThree(pre, mk, post, m, i);
      if i < |pre| + |mk| && |pre| < i + |m| {
        MarkerOccurrencesDisjoint(s, mk, m, |pre|, i);
      }
    }
  }

  /** A marker between two texts without it is replaced exactly once. */
  lemma {:induction false} ReplaceInContext(pre: string, m: string, post: string, v: string)
    requires MarkerShaped(m) && !Contains(pre, m) && !Contains(post, m)
    ensures ReplaceAll(pre + m + post, m, v) == pre + v + post
    decreases |pre|
  {
    var s := pre + m + post;
    if |pre| == 0 {
      assert s == m + post;
      assert s[..|m|] == m && s[|m|..] == post;
      ReplaceAllNoOccurrence(post, m, v);
    } else {
      MarkerNotAtFront(pre, m, post);
      NotContainsTail(pre, m, 1);
      assert s[1..] == pre[1..] + m + post;
      ReplaceInContext(pre[1..], m, post, v);
      assert pre + v + post == [pre[0]] + (pre[1..] + v + post);
    }
  }

  /** A marker that `pre` lacks is not matched at the front of `pre + m + post`. */
  lemma MarkerNotAtFront(pre: string, m: string, post: string)
    requires MarkerShaped(m) && |pre| > 0 && !Contains(pre, m)
    ensures !StartsWith(pre + m + post, m)
  {
    var s := pre + m + post;
    if |m| <= |pre| {
      assert !OccursAt(pre, m, 0);
      assert s[..|m|] == pre[0..|m|];
    } else {
      assert s[|pre|..|pre| + |m|] == m;
      assert s[|pre|] == m[0] && s[|pre| + 1] == m[1];
      if |pre| == 1 {
        assert s[..|m|][2] == s[2] != m[2];
      } else {
        assert s[..|m|][|pre|] == s[|pre|] != m[|pre|];
      }
    }
  }

  /** A safe value between two texts without a marker creates none. */
  lemma SafeValueInContext(pre: string, v: string, post: string, m: string)
    requires SafeValue(v) && MarkerShaped(m) && forall k :: 0 <= k < |m| ==> MarkerChar(m[k])
    requires !Contains(pre, m) && !Contains(post, m)
    ensures !Contains(pre + v + post, m)
  {
    var s := pre + v + post;
    forall i | 0 <= i <= |s| - |m|
      ensures !OccursAt(s, m, i)
    {
      if i + |m| <= |pre| {
        assert !OccursAt(pre, m, i);
        assert s[i..i + |m|] == pre[i..i + |m|];
      } else if i >= |pre| + |v| {
        assert !OccursAt(post, m, i - |pre| - |v|);
        assert s[i..i + |m|] == post[i - |pre| - |v|..i - |pre| - |v| + |m|];
      } else if i >= |pre| {
        assert s[i..i + |m|][0] == s[i] == v[i - |pre|];
        assert v[i - |pre|] in v;
      } else {
        assert s[i..i + |m|][|pre| - i] == s[|pre|] == v[0];
      }
    }
  }

  /** The chain of replacements applied to one marker between marker-free
      texts: only that marker's own replacement has an effect. */
  lemma {:induction false} ApplyAllInContext(pre: string, post: string, subs: seq<Substitution>, k: nat)
    requires NonEmptyMarkers(subs) && k < |subs|
    requires forall j :: 0 <= j < |subs| ==> subs[j].marker in Markers
    requires forall i, j :: 0 <= i < j < |subs| ==> subs[i].marker != subs[j].marker
    requires SafeValue(subs[k].value)
    requires MarkerFree(pre) && MarkerFree(post)
    ensures ApplyAll(pre + subs[k].marker + post, subs) == pre + subs[k].value + post
    decreases k
  {
    var s := pre + subs[k].marker + post;
    var m0 := subs[0].marker;
    if k == 0 {
      MarkersShaped();
      MarkersAlphabet();
      ReplaceInContext(pre, m0, post, subs[0].value);
      var t := pre + subs[0].value + post;
      forall j | 0 <= j < |subs[1..]|
        ensures !Contains(t, subs[1..][j].marker)
      {
        SafeValueInContext(pre, subs[0].value, post, subs[1..][j].marker);
      }
      ApplyAllNoMarkers(t, subs[1..]);
    } else {
      OtherMarkerAbsent(pre, subs[k].marker, post, m0);
      ReplaceAllNoOccurrence(s, m0, subs[0].value);
      assert subs[1..][k - 1] == subs[k];
      ApplyAllInContext(pre, post, subs[1..], k - 1);
    }
  }

  /** With safe arguments, the k-th marker between two marker-free texts is
      replaced by the k-th value of the list and nothing else changes. */
  lemma ResolveInContext(pre: string, post: string, k: nat, eventId: string, templateId: string,
                         pageUrl: Option<string>, creationDate: Option<string>, modificationDate: Option<string>)
    requires k < |Markers| && MarkerFree(pre) && MarkerFree(post)
    requires SafeArguments(pageUrl, creationDate, modificationDate)
    ensures ReplaceMetadataMarkers(pre + Markers[k] + post, eventId, templateId, pageUrl, creationDate, modificationDate)
         == pre + PageSubstitutions(eventId, templateId, pageUrl, creationDate, modificationDate)[k].value + post
  {
    var subs := PageSubstitutions(eventId, templateId, pageUrl, creationDate, modificationDate);
    EventMetadataSafe(eventId);
    TemplateMetadataSafe(templateId);
    SafeSubstitutions(GetEventMetadata(eventId), GetTemplateMetadata(templateId),
                      pageUrl.value, creationDate.value, modificationDate.value);
    MarkersDistinct();
    ApplyAllInContext(pre, post, subs, k);
  }

  /** Each marker between marker-free texts becomes its own value: the event's
      title, description, keywords and name, the template's name, the page
      address, the creation date and the modification date. */
  lemma ResolveMarkerValues(pre: string, post: string, eventId: string, templateId: string,
                            pageUrl: Option<string>, creationDate: Option<string>, modificationDate: Option<string>)
    requires MarkerFree(pre) && MarkerFree(post)
    requires SafeArguments(pageUrl, creationDate, modificationDate)
    ensures ReplaceMetadataMarkers(pre + EventTitleMarker + post, eventId, templateId, pageUrl, creationDate, modificationDate)
         == pre + GetEventMetadata(eventId).title + post
    ensures ReplaceMetadataMarkers(pre + EventDescriptionMarker + post, eventId, templateId, pageUrl, creationDate, modificationDate)
         == pre + GetEventMetadata(eventId).description + post
    ensures ReplaceMetadataMarkers(pre + EventKeywordsMarker + post, eventId, templateId, pageUrl, creationDate, modificationDate)
         == pre + GetEventMetadata(eventId).keywords + post
    ensures ReplaceMetadataMarkers(pre + EventNameMarker + post, eventId, templateId, pageUrl, creationDate, modificationDate)
         == pre + GetEventMetadata(eventId).name + post
    ensures ReplaceMetadataMarkers(pre + TemplateNameMarker + post, eventId, templateId, pageUrl, creationDate, modificationDate)
         == pre + GetTemplateMetadata(templateId).name + post
    ensures ReplaceMetadataMarkers(pre + PageUrlMarker + post, eventId, templateId, pageUrl, creationDate, modificationDate)
         == pre + pageUrl.value + post
    ensures ReplaceMetadataMarkers(pre + CreationDateMarker + post, eventId, templateId, pageUrl, creationDate, modificationDate)
         == pre + creationDate.value + post
    ensures ReplaceMetadataMarkers(pre + ModificationDateMarker + post, eventId, templateId, pageUrl, creationDate, modificationDate)
         == pre + modificationDate.value + post
  {
    ResolveInContext(pre, post, 0, eventId, templateId, pageUrl, creationDate, modificationDate);
    ResolveInContext(pre, post, 1, eventId, templateId, pageUrl, creationDate, modificationDate);
    ResolveInContext(pre, post, 2, eventId, templateId, pageUrl, creationDate, modificationDate);
    ResolveInContext(pre, post, 3, eventId, templateId, pageUrl, creationDate, modificationDate);
    ResolveInContext(pre, post, 4, eventId, templateId, pageUrl, creationDate, modificationDate);
    ResolveInContext(pre, post, 5, eventId, templateId, pageUrl, creationDate, modificationDate);
    ResolveInContext(pre, post, 6, eventId, templateId, pageUrl, creationDate, modificationDate);
    ResolveInContext(pre, post, 7, eventId, templateId, pageUrl, creationDate, modificationDate);
  }

  /** A document without markers is returned unchanged. */
  lemma ResolveWithoutMarkers(html: string, eventId: string, templateId: string,
                              pageUrl: Option<string>, creationDate: Option<string>, modificationDate: Option<string>)
    requires forall m :: m in Markers ==> !Contains(html, m)
    ensures ReplaceMetadataMarkers(html, eventId, templateId, pageUrl, creationDate, modificationDate) == html
  {
    var subs := PageSubstitutions(eventId, templateId, pageUrl, creationDate, modificationDate);
    ApplyAllNoMarkers(html, subs);
  }

  /** With safe arguments, resolving a resolved document changes nothing. */
  lemma ResolveIdempotent(html: string, eventId: string, templateId: string,
                          pageUrl: Option<string>, creationDate: Option<string>, modificationDate: Option<string>)
    requires SafeArguments(pageUrl, creationDate, modificationDate)
    ensures var once := ReplaceMetadataMarkers(html, eventId, templateId, pageUrl, creationDate, modificationDate);
      ReplaceMetadataMarkers(once, eventId, templateId, pageUrl, creationDate, modificationDate) == once
  {
    var once := ReplaceMetadataMarkers(html, eventId, templateId, pageUrl, creationDate, modificationDate);
    ResolveRemovesAllMarkers(html, eventId, templateId, pageUrl, creationDate, modificationDate);
    ResolveWithoutMarkers(once, eventId, templateId, pageUrl, creationDate, modificationDate);
  }

  /** An event id outside the catalog resolves exactly like `birthday`. */
  lemma ResolveUnknownEvent(html: string, eventId: string, templateId: string,
                            pageUrl: Option<string>, creationDate: Option<string>, modificationDate: Option<string>)
    requires !InCatalog(AvailableEvents, eventId)
    ensures ReplaceMetadataMarkers(html, eventId, templateId, pageUrl, creationDate, modificationDate)
         == ReplaceMetadataMarkers(html, DefaultEventId, templateId, pageUrl, creationDate, modificationDate)
  {
    EventCatalogIds();
    assert InCatalog(AvailableEvents, DefaultEventId);
  }

  /** A template id outside the catalog resolves exactly like `indexFirst`. */
  lemma ResolveUnknownTemplate(html: string, eventId: string, templateId: string,
                               pageUrl: Option<string>, creationDate: Option<string>, modificationDate: Option<string>)
    requires !InCatalog(AvailableTemplates, templateId)
    ensures ReplaceMetadataMarkers(html, eventId, templateId, pageUrl, creationDate, modificationDate)
         == ReplaceMetadataMarkers(html, eventId, DefaultTemplateId, pageUrl, creationDate, modificationDate)
  {
    TemplateCatalogIds();
    assert InCatalog(AvailableTemplates, DefaultTemplateId);
  }
}
