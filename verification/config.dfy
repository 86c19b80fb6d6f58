/** Static configuration of the bot: upload size limits, the template and event
    catalogs, the greeting shown for each event, and the environment settings
    that must be present at start-up. */
module Config {
  import opened Wrappers

  /** Largest accepted photo, in bytes (500 KiB). */
  const PhotoSizeLimit: nat := 500 * 1024

  /** Largest accepted audio or voice clip, in bytes (1 MiB). */
  const AudioSizeLimit: nat := 1024 * 1024

  lemma LimitValues()
    ensures PhotoSizeLimit == 512000 && AudioSizeLimit == 1048576
  {
  }

  /** One selectable item of a catalog, as offered on the chat keyboard. */
  datatype CatalogEntry = CatalogEntry(id: string, name: string, description: string)

  const AvailableTemplates: seq<CatalogEntry> := [
    CatalogEntry("indexFirst", "🎨 Яркий и веселый", "Цветной шаблон с конфетти и анимациями"),
    CatalogEntry("indexTwo", "🌙 Современный темный", "Стильный темный шаблон с эффектами стекла"),
    CatalogEntry("indexThree", "✨ Элегантный золотой", "Изысканный шаблон в золотых тонах"),
    CatalogEntry("indexValentine", "💕 Романтический", "Романтический шаблон с сердечками для Дня влюблённых")
  ]

  const AvailableEvents: seq<CatalogEntry> := [
    CatalogEntry("birthday", "🎂 День рождения", "Поздравление с днем рождения"),
    CatalogEntry("anniversary", "🏆 Юбилей", "Поздравление с юбилеем"),
    CatalogEntry("wedding", "💒 Свадьба", "Поздравление со свадьбой"),
    CatalogEntry("birth", "👶 Рождение ребенка", "Поздравление с рождением ребенка"),
    CatalogEntry("valentine", "💕 День влюблённых", "Поздравление с Днём святого Валентина")
  ]

  /** The greeting written into a page's message block, per event id. */
  const EventTexts: map<string, string> := map[
    "birthday" := BirthdayText,
    "anniversary" := AnniversaryText,
    "wedding" := WeddingText,
    "birth" := BirthText,
    "valentine" := ValentineText
  ]

  const BirthdayText: string := "С днём рождения!"
  const AnniversaryText: string := "С юбилеем!"
  const WeddingText: string := "С днём свадьбы!"
  const BirthText: string := "С рождением малыша!"
  const ValentineText: string := "С Днём влюблённых!"

  /** Id used when a user never chose a template. */
  const DefaultTemplateId: string := "indexFirst"

  /** Id used when a user never chose an event, and fallback for unknown ids. */
  const DefaultEventId: string := "birthday"

  /** The ids of a catalog, in catalog order. */
  function Ids(catalog: seq<CatalogEntry>): seq<string> {
    seq(|catalog|, i requires 0 <= i < |catalog| => catalog[i].id)
  }

  /** No id appears twice. */
  predicate Distinct(ids: seq<string>) {
    forall i, j :: 0 <= i < j < |ids| ==> ids[i] != ids[j]
  }

  /** The first catalog entry whose id is `id`, as `Array.prototype.find` returns it. */
  function Find(catalog: seq<CatalogEntry>, id: string): (r: Option<CatalogEntry>)
    ensures r.Some? <==> id in Ids(catalog)
    ensures r.Some? ==> r.value in catalog && r.value.id == id
  {
    if |catalog| == 0 then None
    else
      assert Ids(catalog) == [catalog[0].id] + Ids(catalog[1..]);
      if catalog[0].id == id then Some(catalog[0])
      else Find(catalog[1..], id)
  }

  /** `id` names an entry of `catalog`. */
  predicate InCatalog(catalog: seq<CatalogEntry>, id: string) {
    Find(catalog, id).Some?
  }

  /** Every entry of a catalog is found by its id. */
  lemma EntryInCatalog(catalog: seq<CatalogEntry>, i: nat)
    requires i < |catalog|
    ensures InCatalog(catalog, catalog[i].id)
  {
    assert Ids(catalog)[i] == catalog[i].id;
  }

  lemma TemplateCatalogIds()
    ensures Ids(AvailableTemplates) == ["indexFirst", "indexTwo", "indexThree", "indexValentine"]
    ensures Distinct(Ids(AvailableTemplates))
    ensures DefaultTemplateId == AvailableTemplates[0].id
  {
  }

  lemma EventCatalogIds()
    ensures Ids(AvailableEvents) == ["birthday", "anniversary", "wedding", "birth", "valentine"]
    ensures Distinct(Ids(AvailableEvents))
    ensures DefaultEventId == AvailableEvents[0].id
  {
  }

  /** Every event of the catalog has a greeting, and nothing else has one; in
      particular the fallback key is present. */
  lemma EventTextsCoverCatalog()
    ensures forall id :: id in EventTexts <==> id in Ids(AvailableEvents)
    ensures DefaultEventId in EventTexts
  {
    EventCatalogIds();
  }

  /** The properties every JavaScript object inherits from `Object.prototype`.
      Indexing a table with one of these names finds the inherited value
      rather than falling back; the lookups of this model do not follow that
      and treat them as any other unknown id. */
  const InheritedNames: set<string> := {
    "constructor", "__proto__", "__defineGetter__", "__defineSetter__", "__lookupGetter__",
    "__lookupSetter__", "hasOwnProperty", "isPrototypeOf", "propertyIsEnumerable",
    "toLocaleString", "toString", "valueOf"
  }

  /** No catalog id is an inherited property name. */
  lemma CatalogIdsNotInherited(id: string)
    requires InCatalog(AvailableEvents, id) || InCatalog(AvailableTemplates, id)
    ensures id !in InheritedNames
  {
    EventCatalogIds();
    TemplateCatalogIds();
    var ids := ["birthday", "anniversary", "wedding", "birth", "valentine",
                "indexFirst", "indexTwo", "indexThree", "indexValentine"];
    assert id in ids;
    IdsNotInherited(ids);
  }

  lemma IdsNotInherited(ids: seq<string>)
    requires ids == ["birthday", "anniversary", "wedding", "birth", "valentine",
                     "indexFirst", "indexTwo", "indexThree", "indexValentine"]
    ensures forall x :: x in ids ==> x !in InheritedNames
  {
  }

  /** The greeting for an event, falling back to the birthday greeting for an
      id without one. */
  function EventText(eventId: string): (t: string)
    ensures InCatalog(AvailableEvents, eventId) ==> t == EventTexts[eventId]
    ensures !InCatalog(AvailableEvents, eventId) ==> t == EventTexts[DefaultEventId]
  {
    EventTextsCoverCatalog();
    if eventId in EventTexts && EventTexts[eventId] != "" then EventTexts[eventId]
    else EventTexts[DefaultEventId]
  }

  // ---------------------------------------------------------------------------
  // Start-up settings

  /** The environment values the bot needs, once all are known to be present. */
  datatype Settings = Settings(botToken: string, userPageUrl: string, pagesDir: string, mainPageUrl: string)

  datatype SettingsError = MissingBotToken | MissingUserPageUrl | MissingPagesDir

  /** An environment variable that is set to a non-empty value (a JavaScript
      truthy string). */
  predicate Defined(v: Option<string>) {
    v.Some? && v.value != ""
  }

  /** Read the settings, failing on the first required variable that is unset
      or empty, in the order bot token, user page URL, pages directory. */
  function LoadSettings(botToken: Option<string>, userPageUrl: Option<string>,
                        pagesDir: Option<string>, mainPageUrl: Option<string>): (r: Result<Settings, SettingsError>)
    ensures r.Ok? <==> Defined(botToken) && Defined(userPageUrl) && Defined(pagesDir)
    ensures !Defined(botToken) ==> r == Err(MissingBotToken)
    ensures Defined(botToken) && !Defined(userPageUrl) ==> r == Err(MissingUserPageUrl)
    ensures Defined(botToken) && Defined(userPageUrl) && !Defined(pagesDir) ==> r == Err(MissingPagesDir)
    ensures r.Ok? ==> r.value.userPageUrl != "" && r.value.pagesDir != "" && r.value.botToken != ""
    ensures r.Ok? ==> r.value.botToken == botToken.value && r.value.userPageUrl == userPageUrl.value
                      && r.value.pagesDir == pagesDir.value
    ensures r.Ok? ==> r.value.mainPageUrl == (if Defined(mainPageUrl) then mainPageUrl.value else "")
  {
    if !Defined(botToken) then Err(MissingBotToken)
    else if !Defined(userPageUrl) then Err(MissingUserPageUrl)
    else if !Defined(pagesDir) then Err(MissingPagesDir)
    else Ok(Settings(botToken.value, userPageUrl.value, pagesDir.value,
                     if Defined(mainPageUrl) then mainPageUrl.value else ""))
  }
}
