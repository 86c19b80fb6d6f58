/** The slash commands: `/start`, `/help`, `/event`, `/template`, `/status`,
    `/visibility` and `/delete`. */
module Commands {
  import opened Wrappers
  import opened Text
  import opened Config
  import opened Helpers
  import opened BotState
  import opened Callbacks

  datatype Command = Start | Help | EventMenu | TemplateMenu | StatusCommand | VisibilityCommand | Delete

  /** A command as the bot receives it, with the sender's username. */
  datatype CommandMessage = CommandMessage(username: Option<string>, command: Command)

  /** One button per catalog entry, in catalog order, labelled with the entry's
      name and carrying `prefix + id` as callback data. */
  function CatalogButtons(catalog: seq<CatalogEntry>, prefix: string): (bs: seq<Button>)
    ensures |bs| == |catalog|
    ensures forall i :: 0 <= i < |catalog| ==> bs[i] == Button(catalog[i].name, prefix + catalog[i].id)
  {
    if |catalog| == 0 then [] else [Button(catalog[0].name, prefix + catalog[0].id)] + CatalogButtons(catalog[1..], prefix)
  }

  function EventKeyboard(): seq<Button> {
    CatalogButtons(AvailableEvents, EventPrefix)
  }

  function TemplateKeyboard(): seq<Button> {
    CatalogButtons(AvailableTemplates, TemplatePrefix)
  }

  /** The two buttons of `/visibility`. */
  const VisibilityButtons: seq<Button> := [Button("✅ Показывать", VisibilityYes), Button("❌ Скрыть", VisibilityNo)]

  /** The position of each step in the `/status` to-do list. */
  function TodoRank(t: TodoItem): nat {
    match t
    case TodoEvent => 0
    case TodoTemplate => 1
    case TodoPhoto => 2
    case TodoAudio => 3
  }

  /** The steps still missing before a page is ready, in the order `/status`
      lists them; nothing is listed once the photo and the audio exist. */
  function Missing(hasEvent: bool, hasTemplate: bool, hasPhoto: bool, hasAudio: bool): (todo: seq<TodoItem>)
    ensures hasPhoto && hasAudio ==> todo == []
    ensures !(hasPhoto && hasAudio) ==>
      && (TodoEvent in todo <==> !hasEvent)
      && (TodoTemplate in todo <==> !hasTemplate)
      && (TodoPhoto in todo <==> !hasPhoto)
      && (TodoAudio in todo <==> !hasAudio)
    ensures forall i, j :: 0 <= i < j < |todo| ==> todo[i] != todo[j]
    ensures forall i, j :: 0 <= i < j < |todo| ==> TodoRank(todo[i]) < TodoRank(todo[j])
  {
    if hasPhoto && hasAudio then []
    else
      (if hasEvent then [] else [TodoEvent])
      + (if hasTemplate then [] else [TodoTemplate])
      + (if hasPhoto then [] else [TodoPhoto])
      + (if hasAudio then [] else [TodoAudio])
  }

  /** The `/status` report of a user: the stored choices found in their
      catalogs, which assets exist, whether the page is ready and what is
      missing. */
  function StatusOf(st: State, username: string): (s: Status)
    ensures s.ready <==> CheckUserFiles(Files(st, username))
    ensures s.hasPhoto <==> Files(st, username).image.Some?
    ensures s.hasAudio <==> Files(st, username).audio.Some?
    ensures s.event == StoredEntry(AvailableEvents, st.userEvents, username)
    ensures s.template == StoredEntry(AvailableTemplates, st.userTemplates, username)
    ensures s.todo == Missing(s.event.Some?, s.template.Some?, s.hasPhoto, s.hasAudio)
  {
    var f := Files(st, username);
    var event := StoredEntry(AvailableEvents, st.userEvents, username);
    var template := StoredEntry(AvailableTemplates, st.userTemplates, username);
    Status(event, template, f.image.Some?, f.audio.Some?, CheckUserFiles(f),
           Missing(event.Some?, template.Some?, f.image.Some?, f.audio.Some?))
  }

  /** `/delete`: without a directory there is nothing to delete. Otherwise the
      photo and the audio are removed, `index.html` is replaced by the neutral
      page (kept when `default.html` is missing), and both preferences are
      forgotten. */
  function OnDelete(env: Env, st: State, username: string): (r: Outcome)
  {
    var f := Files(st, username);
    if !f.dirExists then Outcome(st, [NothingToDelete])
    else
      var page := match CopyDefaultTemplate(env.templates, env.userPageUrl, Some(username))
                  case Some(html) => Some(html)
                  case None => f.page;
      var f' := f.(image := None, audio := None, page := page);
      Outcome(State(st.users[username := f'], st.userTemplates - {username}, st.userEvents - {username}), [Deleted])
  }

  /** The command handlers. All but `/help` first require a username. */
  function OnCommand(env: Env, st: State, msg: CommandMessage): (r: Outcome)
    ensures msg.command != Delete ==> r.st == st
  {
    if msg.command == Help then Outcome(st, [HelpText])
    else if !HasUsername(msg.username) then Outcome(st, [UsernameRequired])
    else
      var u := msg.username.value;
      var f := Files(st, u);
      match msg.command
      case Start =>
        Outcome(st, [Welcome(StoredEntry(AvailableEvents, st.userEvents, u),
                             StoredEntry(AvailableTemplates, st.userTemplates, u),
                             f.dirExists && CheckUserFiles(f))])
      case EventMenu => Outcome(st, [Keyboard(EventKeyboard())])
      case TemplateMenu => Outcome(st, [Keyboard(TemplateKeyboard())])
      case StatusCommand => Outcome(st, [StatusReport(StatusOf(st, u))])
      case VisibilityCommand => Outcome(st, [VisibilityMenu(f.showOnMainPage, VisibilityButtons)])
      case Delete => OnDelete(env, st, u)
  }

  // ---------------------------------------------------------------------------
  // Properties

  /** Every command except `/help` answers a user without a username with the
      username request and changes nothing. */
  lemma CommandNeedsUsername(env: Env, st: State, msg: CommandMessage)
    requires msg.command != Help && !HasUsername(msg.username)
    ensures OnCommand(env, st, msg) == Outcome(st, [UsernameRequired])
  {
  }

  /** Pressing the i-th button of the `/event` keyboard stores the i-th event
      of the catalog. */
  lemma EventButtonSelects(env: Env, st: State, u: string, i: nat, now: string)
    requires u != "" && i < |AvailableEvents|
    ensures var b := EventKeyboard()[i];
      var r := OnCallback(env, st, Callback(true, Some(u), Some(b.data)), now);
      r.st.userEvents == st.userEvents[u := AvailableEvents[i].id]
  {
    var id := AvailableEvents[i].id;
    var data := EventKeyboard()[i].data;
    assert data == EventPrefix + id;
    assert data[..|EventPrefix|] == EventPrefix && data[|EventPrefix|..] == id;
    EventCallbackRouted(env, st, Callback(true, Some(u), Some(data)), now);
    EntryInCatalog(AvailableEvents, i);
    EventChoiceEffect(env, st, u, id, now);
  }

  /** Pressing the i-th button of the `/template` keyboard stores the i-th
      template of the catalog. */
  lemma TemplateButtonSelects(env: Env, st: State, u: string, i: nat, now: string)
    requires u != "" && i < |AvailableTemplates|
    ensures var b := TemplateKeyboard()[i];
      var r := OnCallback(env, st, Callback(true, Some(u), Some(b.data)), now);
      r.st.userTemplates == st.userTemplates[u := AvailableTemplates[i].id]
  {
    var id := AvailableTemplates[i].id;
    var data := TemplateKeyboard()[i].data;
    assert data == TemplatePrefix + id;
    assert data[..|TemplatePrefix|] == TemplatePrefix && data[|TemplatePrefix|..] == id;
    assert !StartsWith(data, EventPrefix) by { assert data[0] == 't'; }
    TemplateCallbackRouted(env, st, Callback(true, Some(u), Some(data)), now);
    EntryInCatalog(AvailableTemplates, i);
    TemplateChoiceEffect(env, st, u, id, now);
  }

  /** The two `/visibility` buttons are read back as "show" and "hide". */
  lemma VisibilityButtonsRoundTrip()
    ensures ParseCallback(VisibilityButtons[0].data) == SetVisibility(true)
    ensures ParseCallback(VisibilityButtons[1].data) == SetVisibility(false)
  {
  }

  /** In a consistent state `/start` reports existing files exactly when
      `/status` reports the page as ready. */
  lemma StartAgreesWithStatus(env: Env, st: State, u: string)
    requires Wf(st) && u != ""
    ensures OnCommand(env, st, CommandMessage(Some(u), Start)).replies[0].hasFiles
            <==> StatusOf(st, u).ready
  {
    if u in st.users {
      assert FilesWf(st.users[u]);
    }
  }

  /** `/delete` without a directory answers that there is nothing to delete. */
  lemma DeleteWithoutDirectory(env: Env, st: State, u: string)
    requires !Files(st, u).dirExists
    ensures OnDelete(env, st, u) == Outcome(st, [NothingToDelete])
  {
  }

  /** After `/delete` the user starts over: both choices are forgotten,
      `/status` lists every step as missing, the directory and its visibility
      flag remain, `index.html` is the neutral page when `default.html` exists
      and is left alone otherwise, and no other user is touched. */
  lemma DeleteResets(env: Env, st: State, u: string, v: string)
    requires Files(st, u).dirExists && v != u
    ensures var r := OnDelete(env, st, u);
      var f := Files(st, u);
      var f' := Files(r.st, u);
      && r.replies == [Deleted]
      && u !in r.st.userTemplates && u !in r.st.userEvents
      && StatusOf(r.st, u).todo == [TodoEvent, TodoTemplate, TodoPhoto, TodoAudio]
      && f'.dirExists && f'.showOnMainPage == f.showOnMainPage
      && f'.page == (if NeutralTemplateId in env.templates
                     then CopyDefaultTemplate(env.templates, env.userPageUrl, Some(u)) else f.page)
      && SameUser(st, r.st, v)
  {
  }

  /** A command changes nothing of any user but its sender. */
  lemma CommandFrame(env: Env, st: State, msg: CommandMessage, v: string)
    requires msg.command == Help || !HasUsername(msg.username) || msg.username.value != v
    ensures SameUser(st, OnCommand(env, st, msg).st, v)
  {
    if msg.command == Delete && HasUsername(msg.username) {
      var u := msg.username.value;
      if Files(st, u).dirExists {
        DeleteResets(env, st, u, v);
      }
    }
  }

  /** `/delete` keeps the state consistent. */
  lemma DeleteKeepsWf(env: Env, st: State, u: string)
    requires Wf(st)
    ensures Wf(OnDelete(env, st, u).st)
  {
    var r := OnDelete(env, st, u);
    if Files(st, u).dirExists {
      assert FilesWf(Files(r.st, u));
      forall w | w in r.st.users ensures FilesWf(r.st.users[w]) {
        if w != u { assert r.st.users[w] == st.users[w]; }
      }
    }
  }

  /** Deleting twice leaves the state deleting once left. */
  lemma DeleteIdempotent(env: Env, st: State, u: string)
    ensures var once := OnDelete(env, st, u).st;
      OnDelete(env, once, u).st == once
  {
    var once := OnDelete(env, st, u).st;
    if Files(st, u).dirExists {
      assert Files(once, u).dirExists;
      assert once.users[u := Files(OnDelete(env, once, u).st, u)] == once.users;
    }
  }
}
