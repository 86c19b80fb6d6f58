/** The handler of inline-keyboard callbacks: visibility consent, event choice
    and template choice. */
module Callbacks {
  import opened Wrappers
  import opened Text
  import opened Config
  import opened Helpers
  import opened BotState

  /** The parts of a callback query the handler looks at: whether the query
      carries a chat id, the sender's username and the callback data. */
  datatype Callback = Callback(chatPresent: bool, username: Option<string>, data: Option<string>)

  const VisibilityYes: string := "visibility_yes"
  const VisibilityNo: string := "visibility_no"
  const EventPrefix: string := "event_"
  const TemplatePrefix: string := "template_"

  /** What a callback data string asks for, in the order the handler tests:
      the two visibility answers, then the `event_` prefix, then the
      `template_` prefix. */
  datatype Action = Ignore | SetVisibility(show: bool) | SelectEvent(eventId: string) | SelectTemplate(templateId: string)

  /** Route a callback data string. Removing the first occurrence of the prefix
      from a string that starts with it leaves the rest of the string. */
  function ParseCallback(data: string): (a: Action)
    ensures a.SetVisibility? <==> data in {VisibilityYes, VisibilityNo}
    ensures a.SetVisibility? ==> (a.show <==> data == VisibilityYes)
    ensures a.SelectEvent? ==> data == EventPrefix + a.eventId
    ensures a.SelectTemplate? ==> data == TemplatePrefix + a.templateId
    ensures a.Ignore? ==> !StartsWith(data, EventPrefix) && !StartsWith(data, TemplatePrefix)
  {
    if data == VisibilityYes || data == VisibilityNo then SetVisibility(data == VisibilityYes)
    else if StartsWith(data, EventPrefix) then SelectEvent(data[|EventPrefix|..])
    else if StartsWith(data, TemplatePrefix) then SelectTemplate(data[|TemplatePrefix|..])
    else Ignore
  }

  /** Every `event_<id>` and `template_<id>` string is routed back to its id. */
  lemma ParseCallbackRoundTrip(id: string)
    ensures ParseCallback(EventPrefix + id) == SelectEvent(id)
    ensures ParseCallback(TemplatePrefix + id) == SelectTemplate(id)
  {
    var e := EventPrefix + id;
    var t := TemplatePrefix + id;
    assert e[0] == 'e' && t[0] == 't';
    assert e[..|EventPrefix|] == EventPrefix && e[|EventPrefix|..] == id;
    assert t[..|TemplatePrefix|] == TemplatePrefix && t[|TemplatePrefix|..] == id;
    assert !StartsWith(t, EventPrefix) by { assert t[..|EventPrefix|][0] == 't'; }
  }

  /** A callback is handled only with a chat id, a username and data. */
  predicate Complete(cb: Callback) {
    cb.chatPresent && HasUsername(cb.username) && cb.data.Some? && cb.data.value != ""
  }

  /** Store an event choice and regenerate the page when both assets exist.
      A throw of the page generator is not caught: the choice stays stored and
      no answer is sent. */
  function ChooseEvent(env: Env, st: State, username: string, eventId: string, now: string): (r: Outcome)
    ensures r.st.userTemplates == st.userTemplates
  {
    match Find(AvailableEvents, eventId)
    case None => Outcome(st, [EventNotFound])
    case Some(entry) =>
      var st1 := st.(userEvents := st.userEvents[username := eventId]);
      var f := Files(st, username);
      if CheckUserFiles(f) then
        match Regenerate(env, f, username, Preference(st.userTemplates, username, DefaultTemplateId), eventId, now)
        case None => Outcome(st1, [])
        case Some(f') => Outcome(SetFiles(st1, username, f'), [EventChosen(entry, true)])
      else Outcome(st1, [EventChosen(entry, false)])
  }

  /** Store a template choice and regenerate the page when both assets exist,
      with the same uncaught throw as an event choice. */
  function ChooseTemplate(env: Env, st: State, username: string, templateId: string, now: string): (r: Outcome)
    ensures r.st.userEvents == st.userEvents
  {
    match Find(AvailableTemplates, templateId)
    case None => Outcome(st, [TemplateNotFound])
    case Some(entry) =>
      var st1 := st.(userTemplates := st.userTemplates[username := templateId]);
      var f := Files(st, username);
      if CheckUserFiles(f) then
        match Regenerate(env, f, username, templateId, Preference(st.userEvents, username, DefaultEventId), now)
        case None => Outcome(st1, [])
        case Some(f') => Outcome(SetFiles(st1, username, f'), [TemplateChosen(entry, true)])
      else Outcome(st1, [TemplateChosen(entry, false)])
  }

  /** The `callback_query` handler. */
  function OnCallback(env: Env, st: State, cb: Callback, now: string): (r: Outcome)
  {
    if !Complete(cb) then Outcome(st, [])
    else
      var u := cb.username.value;
      match ParseCallback(cb.data.value)
      case SetVisibility(show) =>
        Outcome(SetFiles(st, u, Files(st, u).(showOnMainPage := show)), [VisibilityAnswer(show)])
      case SelectEvent(eventId) => ChooseEvent(env, st, u, eventId, now)
      case SelectTemplate(templateId) => ChooseTemplate(env, st, u, templateId, now)
      case Ignore => Outcome(st, [])
  }

  // ---------------------------------------------------------------------------
  // Properties

  /** A callback without chat id, username or data has no effect. */
  lemma IncompleteCallbackIgnored(env: Env, st: State, cb: Callback, now: string)
    requires !Complete(cb)
    ensures OnCallback(env, st, cb, now) == Outcome(st, [])
  {
  }

  /** An event choice changes at most the chooser's directory and preferences. */
  lemma EventChoiceFrame(env: Env, st: State, username: string, id: string, now: string, v: string)
    requires v != username
    ensures SameUser(st, ChooseEvent(env, st, username, id, now).st, v)
  {
    var st1 := st.(userEvents := st.userEvents[username := id]);
    assert SameUser(st, st1, v);
    var f := Files(st, username);
    var templateId := Preference(st.userTemplates, username, DefaultTemplateId);
    var g := Regenerate(env, f, username, templateId, id, now);
    assert g.Some? ==> SameUser(st, SetFiles(st1, username, g.value), v);
  }

  /** A template choice changes at most the chooser's directory and preferences. */
  lemma TemplateChoiceFrame(env: Env, st: State, username: string, id: string, now: string, v: string)
    requires v != username
    ensures SameUser(st, ChooseTemplate(env, st, username, id, now).st, v)
  {
    var st1 := st.(userTemplates := st.userTemplates[username := id]);
    assert SameUser(st, st1, v);
    var f := Files(st, username);
    var eventId := Preference(st.userEvents, username, DefaultEventId);
    var g := Regenerate(env, f, username, id, eventId, now);
    assert g.Some? ==> SameUser(st, SetFiles(st1, username, g.value), v);
  }

  /** A callback changes at most its sender's directory and preferences. */
  lemma CallbackFrame(env: Env, st: State, cb: Callback, now: string, v: string)
    requires !Complete(cb) || v != cb.username.value
    ensures SameUser(st, OnCallback(env, st, cb, now).st, v)
  {
    if Complete(cb) {
      match ParseCallback(cb.data.value)
      case SelectEvent(id) => EventChoiceFrame(env, st, cb.username.value, id, now, v);
      case SelectTemplate(id) => TemplateChoiceFrame(env, st, cb.username.value, id, now, v);
      case _ =>
    }
  }

  /** `visibility_yes` and `visibility_no` assign the flag, and nothing else. */
  lemma VisibilityAssigns(env: Env, st: State, cb: Callback, now: string)
    requires Complete(cb) && cb.data.value in {VisibilityYes, VisibilityNo}
    ensures var u := cb.username.value;
      var r := OnCallback(env, st, cb, now);
      && Files(r.st, u) == Files(st, u).(showOnMainPage := cb.data.value == VisibilityYes)
      && r.st.userTemplates == st.userTemplates && r.st.userEvents == st.userEvents
      && r.replies == [VisibilityAnswer(cb.data.value == VisibilityYes)]
  {
  }

  /** Repeating a visibility answer changes nothing more. */
  lemma VisibilityIdempotent(env: Env, st: State, cb: Callback, now: string, later: string)
    requires Complete(cb) && cb.data.value in {VisibilityYes, VisibilityNo}
    ensures var once := OnCallback(env, st, cb, now).st;
      OnCallback(env, once, cb, later).st == once
  {
    var u := cb.username.value;
    var once := OnCallback(env, st, cb, now).st;
    VisibilityAssigns(env, st, cb, now);
    VisibilityAssigns(env, once, cb, later);
    assert once.users[u := Files(once, u)] == once.users;
  }

  /** Choosing an id outside the event catalog changes nothing. */
  lemma UnknownEventIgnored(env: Env, st: State, u: string, id: string, now: string)
    requires !InCatalog(AvailableEvents, id)
    ensures ChooseEvent(env, st, u, id, now) == Outcome(st, [EventNotFound])
  {
  }

  /** Choosing a catalog event stores it, leaves the template choice alone,
      and regenerates the page with the stored or default template exactly
      when both assets exist. */
  lemma EventChoiceEffect(env: Env, st: State, u: string, id: string, now: string)
    requires InCatalog(AvailableEvents, id)
    ensures var r := ChooseEvent(env, st, u, id, now);
      var f := Files(st, u);
      var page := CopyHtmlTemplate(env.templates, env.userPageUrl,
                                   Preference(st.userTemplates, u, DefaultTemplateId), id, Some(u), now);
      && r.st.userEvents == st.userEvents[u := id]
      && r.st.userTemplates == st.userTemplates
      && Files(r.st, u) == f.(page := Files(r.st, u).page)
      && (CheckUserFiles(f) && page.Some? ==> Files(r.st, u).page == page)
      && (!CheckUserFiles(f) || page.None? ==> Files(r.st, u).page == f.page)
  {
  }

  /** An `event_<id>` callback that is not a visibility answer makes the
      choice of `<id>`. */
  lemma EventCallbackRouted(env: Env, st: State, cb: Callback, now: string)
    requires Complete(cb) && StartsWith(cb.data.value, EventPrefix)
    ensures OnCallback(env, st, cb, now) == ChooseEvent(env, st, cb.username.value, cb.data.value[|EventPrefix|..], now)
  {
    assert cb.data.value[0] == 'e';
  }

  /** Choosing an id outside the template catalog changes nothing. */
  lemma UnknownTemplateIgnored(env: Env, st: State, u: string, id: string, now: string)
    requires !InCatalog(AvailableTemplates, id)
    ensures ChooseTemplate(env, st, u, id, now) == Outcome(st, [TemplateNotFound])
  {
  }

  /** Choosing a catalog template stores it, leaves the event choice alone,
      and regenerates the page with the stored or default event exactly when
      both assets exist. */
  lemma TemplateChoiceEffect(env: Env, st: State, u: string, id: string, now: string)
    requires InCatalog(AvailableTemplates, id)
    ensures var r := ChooseTemplate(env, st, u, id, now);
      var f := Files(st, u);
      var page := CopyHtmlTemplate(env.templates, env.userPageUrl,
                                   id, Preference(st.userEvents, u, DefaultEventId), Some(u), now);
      && r.st.userTemplates == st.userTemplates[u := id]
      && r.st.userEvents == st.userEvents
      && Files(r.st, u) == f.(page := Files(r.st, u).page)
      && (CheckUserFiles(f) && page.Some? ==> Files(r.st, u).page == page)
      && (!CheckUserFiles(f) || page.None? ==> Files(r.st, u).page == f.page)
  {
  }

  /** A `template_<id>` callback makes the choice of `<id>`. */
  lemma TemplateCallbackRouted(env: Env, st: State, cb: Callback, now: string)
    requires Complete(cb) && StartsWith(cb.data.value, TemplatePrefix)
    ensures OnCallback(env, st, cb, now) == ChooseTemplate(env, st, cb.username.value, cb.data.value[|TemplatePrefix|..], now)
  {
    assert cb.data.value[0] == 't';
    assert !StartsWith(cb.data.value, EventPrefix) by { assert cb.data.value[..|EventPrefix|][0] == 't'; }
  }

  /** Data that is neither a visibility answer nor prefixed has no effect. */
  lemma UnrecognisedDataIgnored(env: Env, st: State, cb: Callback, now: string)
    requires Complete(cb) && cb.data.value !in {VisibilityYes, VisibilityNo}
    requires !StartsWith(cb.data.value, EventPrefix) && !StartsWith(cb.data.value, TemplatePrefix)
    ensures OnCallback(env, st, cb, now) == Outcome(st, [])
  {
  }
}
