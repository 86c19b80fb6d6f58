/** The bot as a whole: every update is a message, a callback query or a
    command, dispatched to its handlers against one shared state. */
module Router {
  import opened Wrappers
  import opened Config
  import opened Helpers
  import opened BotState
  import opened Messages
  import opened Callbacks
  import opened Commands

  datatype Event =
    | MessageEvent(msg: Message)
    | CallbackEvent(cb: Callback)
    | CommandEvent(cmd: CommandMessage)

  /** The user an update acts for, when its handler gets past its guard. */
  function Actor(ev: Event): (a: Option<string>)
    ensures a.Some? ==> a.value != ""
  {
    match ev
    case MessageEvent(m) => if HasUsername(m.username) then m.username else None
    case CallbackEvent(cb) => if Complete(cb) then cb.username else None
    case CommandEvent(c) => if HasUsername(c.username) then c.username else None
  }

  /** The text of a command seen as an ordinary message: no photo, no audio. */
  function CommandText(c: CommandMessage): (m: Message)
    ensures m.username == c.username && m.photo.None? && AudioData(m).None?
  {
    Message(c.username, None, None, None)
  }

  /** Handle one update received at time `now`. A command is a text message
      too: the `message` handler runs first, and since it creates the sender's
      directory before its first `await`, the command handler already sees
      that directory. */
  function Step(env: Env, st: State, ev: Event, now: string): Outcome {
    match ev
    case MessageEvent(m) => OnMessage(env, st, m, now)
    case CallbackEvent(cb) => OnCallback(env, st, cb, now)
    case CommandEvent(c) =>
      var m := OnMessage(env, st, CommandText(c), now);
      var r := OnCommand(env, m.st, c);
      Outcome(r.st, m.replies + r.replies)
  }

  // ---------------------------------------------------------------------------
  // Properties

  /** An update without an actor leaves the state as it is. */
  lemma NoActorNoChange(env: Env, st: State, ev: Event, now: string)
    requires Actor(ev).None?
    ensures Step(env, st, ev, now).st == st
  {
    match ev
    case MessageEvent(m) => MessageFrame(env, st, m, now);
    case CallbackEvent(cb) => IncompleteCallbackIgnored(env, st, cb, now);
    case CommandEvent(c) =>
      TextMessage(env, st, CommandText(c), now);
      if c.command != Help {
        CommandNeedsUsername(env, st, c);
      }
  }

  /** An update changes nothing of any user but its actor. */
  lemma StepFrame(env: Env, st: State, ev: Event, now: string, v: string)
    requires Actor(ev) != Some(v)
    ensures SameUser(st, Step(env, st, ev, now).st, v)
  {
    match ev
    case MessageEvent(m) => MessageFrame(env, st, m, now);
    case CallbackEvent(cb) => CallbackFrame(env, st, cb, now, v);
    case CommandEvent(c) =>
      TextMessage(env, st, CommandText(c), now);
      MessageFrame(env, st, CommandText(c), now);
      var m := OnMessage(env, st, CommandText(c), now);
      CommandFrame(env, m.st, c, v);
  }

  lemma MessageKeepsWf(env: Env, st: State, m: Message, now: string)
    requires Wf(st)
    ensures Wf(OnMessage(env, st, m, now).st)
  {
    var r := OnMessage(env, st, m, now);
    MessageFrame(env, st, m, now);
    forall w | w in r.st.users ensures FilesWf(r.st.users[w]) {
      assert Files(r.st, w) == r.st.users[w];
      if !HasUsername(m.username) || w != m.username.value {
        assert FilesWf(Files(st, w));
      }
    }
  }

  lemma EventChoiceKeepsWf(env: Env, st: State, u: string, id: string, now: string)
    requires Wf(st)
    ensures Wf(ChooseEvent(env, st, u, id, now).st)
  {
    var r := ChooseEvent(env, st, u, id, now);
    if InCatalog(AvailableEvents, id) {
      assert FilesWf(Files(st, u));
      EventChoiceEffect(env, st, u, id, now);
      assert FilesWf(Files(r.st, u));
      forall w | w in r.st.users ensures FilesWf(r.st.users[w]) {
        assert Files(r.st, w) == r.st.users[w];
        if w != u {
          EventChoiceFrame(env, st, u, id, now, w);
          assert FilesWf(Files(st, w));
        }
      }
    } else {
      UnknownEventIgnored(env, st, u, id, now);
    }
  }

  lemma TemplateChoiceKeepsWf(env: Env, st: State, u: string, id: string, now: string)
    requires Wf(st)
    ensures Wf(ChooseTemplate(env, st, u, id, now).st)
  {
    var r := ChooseTemplate(env, st, u, id, now);
    if InCatalog(AvailableTemplates, id) {
      assert FilesWf(Files(st, u));
      TemplateChoiceEffect(env, st, u, id, now);
      assert FilesWf(Files(r.st, u));
      forall w | w in r.st.users ensures FilesWf(r.st.users[w]) {
        assert Files(r.st, w) == r.st.users[w];
        if w != u {
          TemplateChoiceFrame(env, st, u, id, now, w);
          assert FilesWf(Files(st, w));
        }
      }
    } else {
      UnknownTemplateIgnored(env, st, u, id, now);
    }
  }

  lemma VisibilityKeepsWf(st: State, u: string, show: bool)
    requires Wf(st)
    ensures Wf(SetFiles(st, u, Files(st, u).(showOnMainPage := show)))
  {
    var st' := SetFiles(st, u, Files(st, u).(showOnMainPage := show));
    assert FilesWf(Files(st, u));
    forall w | w in st'.users ensures FilesWf(st'.users[w]) {
      assert Files(st', w) == st'.users[w];
      if w != u {
        assert FilesWf(Files(st, w));
      }
    }
  }

  lemma CallbackKeepsWf(env: Env, st: State, cb: Callback, now: string)
    requires Wf(st)
    ensures Wf(OnCallback(env, st, cb, now).st)
  {
    if Complete(cb) {
      var u := cb.username.value;
      match ParseCallback(cb.data.value)
      case SetVisibility(show) => VisibilityKeepsWf(st, u, show);
      case SelectEvent(id) => EventChoiceKeepsWf(env, st, u, id, now);
      case SelectTemplate(id) => TemplateChoiceKeepsWf(env, st, u, id, now);
      case Ignore =>
    }
  }

  /** Every update keeps the state consistent: nothing is stored outside an
      existing directory and only catalog ids are remembered as choices. */
  lemma StepKeepsWf(env: Env, st: State, ev: Event, now: string)
    requires Wf(st)
    ensures Wf(Step(env, st, ev, now).st)
  {
    match ev
    case MessageEvent(m) => MessageKeepsWf(env, st, m, now);
    case CallbackEvent(cb) => CallbackKeepsWf(env, st, cb, now);
    case CommandEvent(c) => CommandKeepsWf(env, st, c, now);
  }

  lemma CommandKeepsWf(env: Env, st: State, c: CommandMessage, now: string)
    requires Wf(st)
    ensures Wf(Step(env, st, CommandEvent(c), now).st)
  {
    var m := OnMessage(env, st, CommandText(c), now);
    MessageKeepsWf(env, st, CommandText(c), now);
    if c.command == Delete && HasUsername(c.username) {
      DeleteKeepsWf(env, m.st, c.username.value);
    }
  }

  /** A command from a user without a username first gets the instructions of
      the message handler, then the command's own answer, and changes nothing. */
  lemma CommandWithoutUsername(env: Env, st: State, c: CommandMessage, now: string)
    requires !HasUsername(c.username)
    ensures Step(env, st, CommandEvent(c), now) == Outcome(st, [UsernameRequired] + OnCommand(env, st, c).replies)
  {
    TextMessage(env, st, CommandText(c), now);
  }

  /** `/delete` always finds the directory, which the message handler has just
      created: the answer is never "nothing to delete", the assets and both
      choices are removed, and the directory remains. */
  lemma DeleteFindsDirectory(env: Env, st: State, u: string, now: string)
    requires u != ""
    ensures var r := Step(env, st, CommandEvent(CommandMessage(Some(u), Delete)), now);
      && r.replies == [Deleted]
      && Files(r.st, u).dirExists
      && Files(r.st, u).image.None? && Files(r.st, u).audio.None?
      && u !in r.st.userTemplates && u !in r.st.userEvents
  {
    var c := CommandMessage(Some(u), Delete);
    TextMessage(env, st, CommandText(c), now);
  }

  /** A new user who sends an acceptable photo and then an acceptable audio,
      without choosing anything, gets the default template rendered with the
      default event, a link to the page, and a ready `/status`. */
  lemma PhotoThenAudio(env: Env, u: string, photo: Media, audio: Media, t1: string, t2: string)
    requires u != "" && DefaultTemplateId in env.templates
    requires !TooLarge(photo.size, PhotoSizeLimit) && photo.fetched
    requires !TooLarge(audio.size, AudioSizeLimit) && audio.fetched
    ensures var first := Step(env, Initial, MessageEvent(Message(Some(u), Some([photo]), None, None)), t1);
      var second := Step(env, first.st, MessageEvent(Message(Some(u), None, Some(audio), None)), t2);
      var url := PageUrl(env.userPageUrl, Some(u));
      && first.replies == [PhotoSaved, AskForAudio]
      && second.replies == [AudioSaved, PageLink(url)]
      && Files(second.st, u) == UserFiles(true, Some(photo.fileId), Some(audio.fileId),
           Some(RenderPage(env.templates[DefaultTemplateId], DefaultTemplateId, DefaultEventId, url, t2)), false)
      && StatusOf(second.st, u).ready
  {
    var m1 := Message(Some(u), Some([photo]), None, None);
    var m2 := Message(Some(u), None, Some(audio), None);
    PhotoRegeneratesIffAudio(env, Initial, m1, t1);
    var first := OnMessage(env, Initial, m1, t1);
    assert first.st.userTemplates == map[] && first.st.userEvents == map[];
    AudioRegeneratesIffPhoto(env, first.st, m2, t2);
  }
}
