/** The handler of ordinary messages: photo and audio uploads. */
module Messages {
  import opened Wrappers
  import opened Config
  import opened Helpers
  import opened BotState

  /** A photo size, an audio file or a voice note as Telegram describes it.
      `size` is the optional `file_size`; `fetched` says whether looking the
      file up, downloading it and writing it all succeed. */
  datatype Media = Media(fileId: string, size: Option<nat>, fetched: bool)

  /** The parts of a message the handler looks at. `photo` is the array of
      sizes of a photo, smallest first. */
  datatype Message = Message(
    username: Option<string>,
    photo: Option<seq<Media>>,
    audio: Option<Media>,
    voice: Option<Media>)

  /** `file_size > limit`; an absent size is never too large. */
  predicate TooLarge(size: Option<nat>, limit: nat) {
    size.Some? && size.value > limit
  }

  /** `msg.audio || msg.voice`. */
  function AudioData(msg: Message): (a: Option<Media>)
    ensures msg.audio.Some? ==> a == msg.audio
    ensures msg.audio.None? ==> a == msg.voice
  {
    if msg.audio.Some? then msg.audio else msg.voice
  }

  /** The result of one upload part of the handler: the user's directory
      afterwards, the replies, and whether the handler returned. */
  datatype Stage = Stage(files: UserFiles, replies: seq<Reply>, stop: bool)

  /** After an asset was written: regenerate the page when both assets are
      there, with the stored template and event or the defaults; otherwise ask
      for the other asset. A throw of the page generator is caught and reported
      as a failed upload. */
  function AfterUpload(env: Env, st: State, username: string, f: UserFiles, now: string,
                       saved: Reply, askOther: Reply, failed: Reply): (s: Stage)
    ensures !s.stop && s.files == f.(page := s.files.page)
    ensures !CheckUserFiles(f) ==> s == Stage(f, [saved, askOther], false)
  {
    if CheckUserFiles(f) then
      var templateId := Preference(st.userTemplates, username, DefaultTemplateId);
      var eventId := Preference(st.userEvents, username, DefaultEventId);
      match Regenerate(env, f, username, templateId, eventId, now)
      case Some(f') => Stage(f', [saved, PageLink(PageUrl(env.userPageUrl, Some(username)))], false)
      case None => Stage(f, [saved, failed], false)
    else Stage(f, [saved, askOther], false)
  }

  /** The photo part: take the last (largest) size, reject it when too large
      (the handler returns), otherwise store it as `img.jpg`. An empty array
      makes the size lookup throw, which is caught. */
  function PhotoStage(env: Env, st: State, username: string, f: UserFiles, photos: seq<Media>, now: string): (s: Stage)
    ensures s.stop <==> |photos| > 0 && TooLarge(photos[|photos| - 1].size, PhotoSizeLimit)
    ensures s.stop ==> s == Stage(f, [PhotoTooLarge(FormatFileSize(PhotoSizeLimit))], true)
    ensures s.files.audio == f.audio && s.files.dirExists == f.dirExists
    ensures s.files.showOnMainPage == f.showOnMainPage
  {
    if |photos| == 0 then Stage(f, [PhotoFailed], false)
    else
      var p := photos[|photos| - 1];
      if TooLarge(p.size, PhotoSizeLimit) then Stage(f, [PhotoTooLarge(FormatFileSize(PhotoSizeLimit))], true)
      else if !p.fetched then Stage(f, [PhotoFailed], false)
      else AfterUpload(env, st, username, f.(image := Some(p.fileId)), now, PhotoSaved, AskForAudio, PhotoFailed)
  }

  /** The audio part, for `msg.audio || msg.voice`: reject it when too large
      (the handler returns), otherwise store it as `audio.mp3`. */
  function AudioStage(env: Env, st: State, username: string, f: UserFiles, a: Media, now: string): (s: Stage)
    ensures s.stop <==> TooLarge(a.size, AudioSizeLimit)
    ensures s.stop ==> s == Stage(f, [AudioTooLarge(FormatFileSize(AudioSizeLimit))], true)
    ensures s.files.image == f.image && s.files.dirExists == f.dirExists
    ensures s.files.showOnMainPage == f.showOnMainPage
  {
    if TooLarge(a.size, AudioSizeLimit) then Stage(f, [AudioTooLarge(FormatFileSize(AudioSizeLimit))], true)
    else if !a.fetched then Stage(f, [AudioFailed], false)
    else AfterUpload(env, st, username, f.(audio := Some(a.fileId)), now, AudioSaved, AskForPhoto, AudioFailed)
  }

  /** The `message` handler. Without a username only the instructions are sent.
      Otherwise the user's directory is created, then the photo part and the
      audio part run in this order; a rejected photo ends the handler. */
  function OnMessage(env: Env, st: State, msg: Message, now: string): (r: Outcome)
    ensures r.st.userTemplates == st.userTemplates && r.st.userEvents == st.userEvents
  {
    if !HasUsername(msg.username) then Outcome(st, [UsernameRequired])
    else
      var u := msg.username.value;
      var f0 := Files(st, u).(dirExists := true);
      var s1 := if msg.photo.Some? then PhotoStage(env, st, u, f0, msg.photo.value, now) else Stage(f0, [], false);
      if s1.stop then Outcome(SetFiles(st, u, s1.files), s1.replies)
      else
        var s2 := if AudioData(msg).Some? then AudioStage(env, st, u, s1.files, AudioData(msg).value, now)
                  else Stage(s1.files, [], false);
        Outcome(SetFiles(st, u, s2.files), s1.replies + s2.replies)
  }

  // ---------------------------------------------------------------------------
  // Properties

  /** Without a username nothing changes and only the instructions are sent.
      With one, the handler touches only that user's directory, which exists
      afterwards, and never the visibility flag. */
  lemma MessageFrame(env: Env, st: State, msg: Message, now: string)
    ensures var r := OnMessage(env, st, msg, now);
      && (!HasUsername(msg.username) ==> r == Outcome(st, [UsernameRequired]))
      && (forall v :: (!HasUsername(msg.username) || v != msg.username.value) ==> Files(r.st, v) == Files(st, v))
      && (HasUsername(msg.username) ==>
            && Files(r.st, msg.username.value).dirExists
            && Files(r.st, msg.username.value).showOnMainPage == Files(st, msg.username.value).showOnMainPage)
  {
  }

  /** A message with neither photo nor audio, such as the text of a command,
      only gets the instructions when there is no username, and otherwise only
      creates the sender's directory, silently. */
  lemma TextMessage(env: Env, st: State, msg: Message, now: string)
    requires msg.photo.None? && AudioData(msg).None?
    ensures var r := OnMessage(env, st, msg, now);
      && (!HasUsername(msg.username) ==> r == Outcome(st, [UsernameRequired]))
      && (HasUsername(msg.username) ==>
            var u := msg.username.value;
            r == Outcome(SetFiles(st, u, Files(st, u).(dirExists := true)), []))
  {
  }

  /** Uploads are accepted up to and including the limit. */
  lemma UploadLimitsInclusive()
    ensures !TooLarge(Some(PhotoSizeLimit), PhotoSizeLimit) && TooLarge(Some(PhotoSizeLimit + 1), PhotoSizeLimit)
    ensures !TooLarge(Some(AudioSizeLimit), AudioSizeLimit) && TooLarge(Some(AudioSizeLimit + 1), AudioSizeLimit)
    ensures !TooLarge(None, PhotoSizeLimit) && !TooLarge(None, AudioSizeLimit)
  {
  }

  /** A photo whose largest size is over the limit is refused: only the
      directory is created, and the audio of the same message is ignored. */
  lemma OversizedPhotoRejected(env: Env, st: State, msg: Message, now: string)
    requires HasUsername(msg.username) && msg.photo.Some? && |msg.photo.value| > 0
    requires TooLarge(msg.photo.value[|msg.photo.value| - 1].size, PhotoSizeLimit)
    ensures var u := msg.username.value;
      var r := OnMessage(env, st, msg, now);
      && Files(r.st, u) == Files(st, u).(dirExists := true)
      && r.replies == [PhotoTooLarge(FormatFileSize(PhotoSizeLimit))]
  {
  }

  /** An accepted photo is stored as the last element of the array, whatever
      the audio part of the message does afterwards. */
  lemma StoredPhotoIsLast(env: Env, st: State, msg: Message, now: string)
    requires HasUsername(msg.username) && msg.photo.Some? && |msg.photo.value| > 0
    requires var p := msg.photo.value[|msg.photo.value| - 1]; !TooLarge(p.size, PhotoSizeLimit) && p.fetched
    ensures Files(OnMessage(env, st, msg, now).st, msg.username.value).image
         == Some(msg.photo.value[|msg.photo.value| - 1].fileId)
  {
  }

  /** After a photo alone, the page is regenerated with the stored or default
      template and event exactly when the audio is already there. */
  lemma PhotoRegeneratesIffAudio(env: Env, st: State, msg: Message, now: string)
    requires HasUsername(msg.username) && msg.photo.Some? && |msg.photo.value| > 0 && AudioData(msg).None?
    requires var p := msg.photo.value[|msg.photo.value| - 1]; !TooLarge(p.size, PhotoSizeLimit) && p.fetched
    ensures var u := msg.username.value;
      var r := OnMessage(env, st, msg, now);
      var f := Files(st, u);
      var f' := Files(r.st, u);
      var page := CopyHtmlTemplate(env.templates, env.userPageUrl, Preference(st.userTemplates, u, DefaultTemplateId),
                                   Preference(st.userEvents, u, DefaultEventId), Some(u), now);
      && f' == f.(dirExists := true, image := Some(msg.photo.value[|msg.photo.value| - 1].fileId), page := f'.page)
      && (f.audio.None? ==> f'.page == f.page && r.replies == [PhotoSaved, AskForAudio])
      && (f.audio.Some? && page.Some? ==>
            f'.page == page && r.replies == [PhotoSaved, PageLink(PageUrl(env.userPageUrl, Some(u)))])
      && (f.audio.Some? && page.None? ==> f'.page == f.page && r.replies == [PhotoSaved, PhotoFailed])
  {
  }

  /** Audio over the limit is refused and the stored audio stays. The last
      reply is the audio refusal, unless an oversized photo in the same message
      was refused first and the audio never looked at. Without a photo only the
      directory is created. */
  lemma OversizedAudioRejected(env: Env, st: State, msg: Message, now: string)
    requires HasUsername(msg.username) && AudioData(msg).Some? && TooLarge(AudioData(msg).value.size, AudioSizeLimit)
    ensures var u := msg.username.value;
      var r := OnMessage(env, st, msg, now);
      && Files(r.st, u).audio == Files(st, u).audio
      && |r.replies| > 0
      && r.replies[|r.replies| - 1]
         == (if msg.photo.Some? && |msg.photo.value| > 0
                && TooLarge(msg.photo.value[|msg.photo.value| - 1].size, PhotoSizeLimit)
             then PhotoTooLarge(FormatFileSize(PhotoSizeLimit))
             else AudioTooLarge(FormatFileSize(AudioSizeLimit)))
      && (msg.photo.None? ==>
            Files(r.st, u) == Files(st, u).(dirExists := true)
            && r.replies == [AudioTooLarge(FormatFileSize(AudioSizeLimit))])
  {
  }

  /** After audio alone, `msg.audio` is stored in preference to `msg.voice`, and
      the page is regenerated exactly when the photo is already there. */
  lemma AudioRegeneratesIffPhoto(env: Env, st: State, msg: Message, now: string)
    requires HasUsername(msg.username) && msg.photo.None? && AudioData(msg).Some?
    requires var a := AudioData(msg).value; !TooLarge(a.size, AudioSizeLimit) && a.fetched
    ensures var u := msg.username.value;
      var r := OnMessage(env, st, msg, now);
      var f := Files(st, u);
      var f' := Files(r.st, u);
      var stored := if msg.audio.Some? then msg.audio.value.fileId else msg.voice.value.fileId;
      var page := CopyHtmlTemplate(env.templates, env.userPageUrl, Preference(st.userTemplates, u, DefaultTemplateId),
                                   Preference(st.userEvents, u, DefaultEventId), Some(u), now);
      && f' == f.(dirExists := true, audio := Some(stored), page := f'.page)
      && (f.image.None? ==> f'.page == f.page && r.replies == [AudioSaved, AskForPhoto])
      && (f.image.Some? && page.Some? ==>
            f'.page == page && r.replies == [AudioSaved, PageLink(PageUrl(env.userPageUrl, Some(u)))])
      && (f.image.Some? && page.None? ==> f'.page == f.page && r.replies == [AudioSaved, AudioFailed])
  {
  }
}
