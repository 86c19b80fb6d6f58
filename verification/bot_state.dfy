/** What the bot keeps per user: the files of the user's page directory, the
    visibility flag of its client configuration, and the two in-memory
    preference stores. */
module BotState {
  import opened Wrappers
  import opened Config
  import opened Helpers

  /** The page directory of one user. `image` and `audio` hold the Telegram file
      id of the stored `img.jpg` and `audio.mp3` (the bytes are not modelled); `page`
      is the content of `index.html`; `showOnMainPage` is the flag of the
      client configuration. */
  datatype UserFiles = UserFiles(
    dirExists: bool,
    image: Option<string>,
    audio: Option<string>,
    page: Option<string>,
    showOnMainPage: bool)

  /** A user the bot has never seen: no directory, hidden from the main page. */
  const NoFiles: UserFiles := UserFiles(false, None, None, None, false)

  /** All users' directories and the preference stores `userTemplates` and
      `userEvents`, keyed by username. */
  datatype State = State(
    users: map<string, UserFiles>,
    userTemplates: map<string, string>,
    userEvents: map<string, string>)

  /** The state at start-up: nothing on disk, both preference stores empty. */
  const Initial: State := State(map[], map[], map[])

  /** The fixed inputs of page generation: the `htmlTemplates` directory and the
      configured base address of pages. */
  datatype Env = Env(templates: map<string, string>, userPageUrl: string)

  function Files(st: State, username: string): (f: UserFiles)
    ensures username !in st.users ==> f == NoFiles
  {
    if username in st.users then st.users[username] else NoFiles
  }

  /** `checkUserFiles`: both the photo and the audio are stored. */
  predicate CheckUserFiles(f: UserFiles) {
    f.image.Some? && f.audio.Some?
  }

  /** Nothing is stored in a directory that does not exist. */
  predicate FilesWf(f: UserFiles) {
    (f.image.Some? || f.audio.Some? || f.page.Some?) ==> f.dirExists
  }

  /** Every directory is consistent and every stored preference names a
      catalog entry (the callbacks only store validated ids). */
  predicate Wf(st: State) {
    && (forall u :: u in st.users ==> FilesWf(st.users[u]))
    && (forall u :: u in st.userTemplates ==> InCatalog(AvailableTemplates, st.userTemplates[u]))
    && (forall u :: u in st.userEvents ==> InCatalog(AvailableEvents, st.userEvents[u]))
  }

  lemma InitialWf()
    ensures Wf(Initial)
    ensures forall u :: Files(Initial, u) == NoFiles
    ensures Initial.userTemplates == map[] && Initial.userEvents == map[]
  {
  }

  /** `store.get(username) || fallback`: the stored id, or the fallback when
      nothing (or the empty string) is stored. */
  function Preference(store: map<string, string>, username: string, fallback: string): (id: string)
    ensures username in store && store[username] != "" ==> id == store[username]
    ensures (username !in store || store[username] == "") ==> id == fallback
  {
    if username in store && store[username] != "" then store[username] else fallback
  }

  /** In a consistent state the template and event ids the handlers look up are
      catalog ids, so never an inherited property name. */
  lemma PreferencesInCatalog(st: State, username: string)
    requires Wf(st)
    ensures var t := Preference(st.userTemplates, username, DefaultTemplateId);
      InCatalog(AvailableTemplates, t) && t !in InheritedNames
    ensures var e := Preference(st.userEvents, username, DefaultEventId);
      InCatalog(AvailableEvents, e) && e !in InheritedNames
  {
    TemplateCatalogIds();
    EventCatalogIds();
    assert InCatalog(AvailableTemplates, DefaultTemplateId);
    assert InCatalog(AvailableEvents, DefaultEventId);
    CatalogIdsNotInherited(Preference(st.userTemplates, username, DefaultTemplateId));
    CatalogIdsNotInherited(Preference(st.userEvents, username, DefaultEventId));
  }

  /** `selected ? CATALOG.find(e => e.id === selected) : null`: the catalog
      entry of the stored id, if one is stored and found. */
  function StoredEntry(catalog: seq<CatalogEntry>, store: map<string, string>, username: string): (r: Option<CatalogEntry>)
    ensures r.Some? <==> username in store && store[username] != "" && InCatalog(catalog, store[username])
    ensures r.Some? ==> r.value in catalog && r.value.id == store[username]
  {
    if username in store && store[username] != "" then Find(catalog, store[username]) else None
  }

  /** Write the generated page of a user into the directory; `None` when
      `copyHtmlTemplate` throws, in which case nothing is written. */
  function Regenerate(env: Env, f: UserFiles, username: string, templateId: string, eventId: string,
                      now: string): (r: Option<UserFiles>)
    ensures r.Some? ==> r.value == f.(page := r.value.page) && r.value.page.Some?
    ensures r.Some? <==> CopyHtmlTemplate(env.templates, env.userPageUrl, templateId, eventId, Some(username), now).Some?
    ensures r.Some? ==> r.value.page == CopyHtmlTemplate(env.templates, env.userPageUrl, templateId, eventId, Some(username), now)
  {
    match CopyHtmlTemplate(env.templates, env.userPageUrl, templateId, eventId, Some(username), now)
    case None => None
    case Some(html) => Some(f.(page := Some(html)))
  }

  /** Replace one user's directory. */
  function SetFiles(st: State, username: string, f: UserFiles): (st': State)
    ensures Files(st', username) == f
    ensures forall v :: v != username ==> Files(st', v) == Files(st, v)
    ensures st'.userTemplates == st.userTemplates && st'.userEvents == st.userEvents
  {
    st.(users := st.users[username := f])
  }

  /** A user's view of the state: directory and both preferences. */
  predicate SameUser(st: State, st': State, username: string) {
    && Files(st', username) == Files(st, username)
    && (username in st'.userTemplates <==> username in st.userTemplates)
    && (username in st.userTemplates ==> st'.userTemplates[username] == st.userTemplates[username])
    && (username in st'.userEvents <==> username in st.userEvents)
    && (username in st.userEvents ==> st'.userEvents[username] == st.userEvents[username])
  }

  // ---------------------------------------------------------------------------
  // Replies

  /** What a step of the bot tells a user, one value per distinct message the
      bot sends; the wording itself is not modelled. */
  datatype Reply =
    | UsernameRequired
    | PhotoTooLarge(limit: SizeText)
    | PhotoSaved
    | AskForAudio
    | PhotoFailed
    | AudioTooLarge(limit: SizeText)
    | AudioSaved
    | AskForPhoto
    | AudioFailed
    | PageLink(url: string)
    | VisibilityAnswer(shown: bool)
    | EventNotFound
    | EventChosen(chosenEvent: CatalogEntry, pageUpdated: bool)
    | TemplateNotFound
    | TemplateChosen(chosenTemplate: CatalogEntry, pageUpdated: bool)
    | Welcome(event: Option<CatalogEntry>, template: Option<CatalogEntry>, hasFiles: bool)
    | HelpText
    | Keyboard(buttons: seq<Button>)
    | StatusReport(status: Status)
    | VisibilityMenu(shown: bool, buttons: seq<Button>)
    | NothingToDelete
    | Deleted

  /** An inline keyboard button: its label and its callback data. */
  datatype Button = Button(text: string, data: string)

  /** The missing steps `/status` lists. */
  datatype TodoItem = TodoEvent | TodoTemplate | TodoPhoto | TodoAudio

  /** The content of a `/status` report. */
  datatype Status = Status(
    event: Option<CatalogEntry>,
    template: Option<CatalogEntry>,
    hasPhoto: bool,
    hasAudio: bool,
    ready: bool,
    todo: seq<TodoItem>)

  /** The state after a step and the replies it sent, in order. */
  datatype Outcome = Outcome(st: State, replies: seq<Reply>)
}
