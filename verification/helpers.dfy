/** Page generation: the rewrite of the message block, the generated page, the
    neutral page written on deletion, the asset check and the unit choice of
    the human-readable file size. */
module Helpers {
  import opened Wrappers
  import opened Text
  import opened Config
  import opened Metadata

  // ---------------------------------------------------------------------------
  // The message block

  const MessageOpen: string := "<div class=\"message\">"
  const MessageClose: string := "</div>"

  /** The characters that `.` in a JavaScript regular expression does not match. */
  predicate IsLineTerminator(c: char) {
    c == '\n' || c == '\r' || c == ' ' || c == ' '
  }

  /** No line terminator in `s[from..to]`. */
  predicate SingleLine(s: string, from: int, to: int)
    requires 0 <= from <= to <= |s|
  {
    forall i :: from <= i < to ==> !IsLineTerminator(s[i])
  }

  /** The lazy `.*?<\/div>` part of the message pattern, tried at index `k`: the
      first index at or after `k` where `</div>` starts, provided no line
      terminator comes before it. */
  function FindClose(s: string, k: nat): (r: Option<nat>)
    requires k <= |s|
    ensures r.Some? ==> k <= r.value && OccursAt(s, MessageClose, r.value) && SingleLine(s, k, r.value)
    ensures r.Some? ==> forall j :: k <= j < r.value ==> !OccursAt(s, MessageClose, j)
    ensures r.None? ==> forall j :: k <= j && OccursAt(s, MessageClose, j) ==> !SingleLine(s, k, j)
    decreases |s| - k
  {
    if OccursAt(s, MessageClose, k) then Some(k)
    else if k == |s| || IsLineTerminator(s[k]) then None
    else FindClose(s, k + 1)
  }

  /** `s` starts with a message block that the pattern matches: the opening
      tag, then a single-line run ending at the first `</div>`. */
  predicate SpanAtStart(s: string) {
    StartsWith(s, MessageOpen) && FindClose(s, |MessageOpen|).Some?
  }

  /** The length of the span matched at the start of `s`: up to and including
      the first `</div>` on the line. */
  function SpanLength(s: string): (n: nat)
    requires SpanAtStart(s)
    ensures |MessageOpen| + |MessageClose| <= n <= |s|
    ensures OccursAt(s, MessageClose, n - |MessageClose|)
  {
    FindClose(s, |MessageOpen|).value + |MessageClose|
  }

  /** The block that replaces every matched span. */
  function MessageBlock(greeting: string): string {
    MessageOpen + greeting + MessageClose
  }

  /** `s.replace(/<div class="message">.*?<\/div>/g, block)`: scan left to right;
      where a span matches, emit the new block and continue after the span;
      otherwise copy one character and try again at the next index. */
  function RewriteMessages(s: string, greeting: string): string
    decreases |s|
  {
    if SpanAtStart(s) then
      MessageBlock(greeting) + RewriteMessages(s[SpanLength(s)..], greeting)
    else if |s| == 0 then ""
    else [s[0]] + RewriteMessages(s[1..], greeting)
  }

  /** A document without any matching span is returned unchanged. */
  lemma {:induction false} RewriteWithoutSpan(s: string, greeting: string)
    requires forall i :: 0 <= i <= |s| ==> !SpanAtStart(s[i..])
    ensures RewriteMessages(s, greeting) == s
    decreases |s|
  {
    assert s[0..] == s;
    if |s| > 0 {
      forall i | 0 <= i <= |s[1..]|
        ensures !SpanAtStart(s[1..][i..])
      {
        assert s[1..][i..] == s[i + 1..];
      }
      RewriteWithoutSpan(s[1..], greeting);
      assert s == [s[0]] + s[1..];
    }
  }

  /** A document with a matching span somewhere contains the new block. */
  lemma {:induction false} RewriteProducesBlock(s: string, greeting: string, i: nat)
    requires i <= |s| && SpanAtStart(s[i..])
    ensures Contains(RewriteMessages(s, greeting), MessageBlock(greeting))
    decreases |s|
  {
    var r := RewriteMessages(s, greeting);
    var block := MessageBlock(greeting);
    if SpanAtStart(s) {
      assert r == block + RewriteMessages(s[SpanLength(s)..], greeting);
      assert r[0..|block|] == block;
      assert OccursAt(r, block, 0);
    } else {
      assert i > 0 by { assert s[0..] == s; }
      assert s[1..][i - 1..] == s[i..];
      RewriteProducesBlock(s[1..], greeting, i - 1);
      var j :| OccursAt(RewriteMessages(s[1..], greeting), block, j);
      OccursAtExtend([s[0]], RewriteMessages(s[1..], greeting), block, j);
    }
  }

  /** No span matched before index `i` runs past it. */
  predicate Reached(s: string, i: nat)
    requires i <= |s|
  {
    forall j :: 0 <= j < i && SpanAtStart(s[j..]) ==> j + SpanLength(s[j..]) <= i
  }

  lemma ReachedShift(s: string, i: nat, k: nat)
    requires k <= i <= |s| && Reached(s, i)
    ensures Reached(s[k..], i - k)
  {
    forall j | 0 <= j < i - k && SpanAtStart(s[k..][j..])
      ensures j + SpanLength(s[k..][j..]) <= i - k
    {
      assert s[k..][j..] == s[k + j..];
    }
  }

  /** The scan reaches every index `i` that no earlier span covers: what the
      rewrite produces from `s[i..]` is the tail of the whole result. */
  lemma {:induction false} RewriteReaches(s: string, greeting: string, i: nat) returns (w: string)
    requires i <= |s| && Reached(s, i)
    ensures RewriteMessages(s, greeting) == w + RewriteMessages(s[i..], greeting)
    decreases i
  {
    if i == 0 {
      w := "";
      assert s[0..] == s;
    } else if SpanAtStart(s) {
      assert s[0..] == s;
      var n := SpanLength(s);
      ReachedShift(s, i, n);
      var w' := RewriteReaches(s[n..], greeting, i - n);
      assert s[n..][i - n..] == s[i..];
      w := MessageBlock(greeting) + w';
    } else {
      ReachedShift(s, i, 1);
      var w' := RewriteReaches(s[1..], greeting, i - 1);
      assert s[1..][i - 1..] == s[i..];
      w := [s[0]] + w';
    }
  }

  /** Every span the scan reaches is replaced by the block, and the scan goes
      on after the span: all spans are rewritten, not only the first. */
  lemma RewriteReplacesSpan(s: string, greeting: string, i: nat) returns (w: string)
    requires i <= |s| && SpanAtStart(s[i..]) && Reached(s, i)
    ensures i + SpanLength(s[i..]) <= |s|
    ensures RewriteMessages(s, greeting)
         == w + MessageBlock(greeting) + RewriteMessages(s[i + SpanLength(s[i..])..], greeting)
  {
    w := RewriteReaches(s, greeting, i);
    var n := SpanLength(s[i..]);
    assert s[i..][n..] == s[i + n..];
  }

  /** If the rewritten text starts with `w`, and neither the opening tag nor the
      greeting block can start any suffix of `w`, the text already started with
      `w`. */
  lemma {:induction false} StartsWithAfterRewrite(u: string, greeting: string, w: string)
    requires MessageOpen[0] !in w
    ensures StartsWith(RewriteMessages(u, greeting), w) ==> StartsWith(u, w)
    decreases |u|
  {
    var r := RewriteMessages(u, greeting);
    if StartsWith(r, w) && |w| > 0 && !SpanAtStart(u) && |u| > 0 {
      var w' := w[1..];
      assert w == [w[0]] + w';
      assert r == [u[0]] + RewriteMessages(u[1..], greeting);
      assert r[..|w|] == [r[0]] + RewriteMessages(u[1..], greeting)[..|w'|];
      StartsWithAfterRewrite(u[1..], greeting, w');
      assert u[..|w|] == [u[0]] + u[1..][..|w'|];
    }
  }

  /** The rewrite does not create an occurrence of a pattern that the text did
      not contain, when the new block cannot start or take part in one. */
  lemma {:induction false} RewriteKeepsAbsent(s: string, greeting: string, m: string)
    requires |m| > 0 && m[0] !in MessageBlock(greeting) && MessageOpen[0] !in m
    requires !Contains(s, m)
    ensures !Contains(RewriteMessages(s, greeting), m)
    decreases |s|
  {
    if SpanAtStart(s) {
      var n := SpanLength(s);
      NotContainsTail(s, m, n);
      RewriteKeepsAbsent(s[n..], greeting, m);
      NotContainsAfterPrefix(MessageBlock(greeting), RewriteMessages(s[n..], greeting), m);
    } else if |s| > 0 {
      NotContainsTail(s, m, 1);
      RewriteKeepsAbsent(s[1..], greeting, m);
      StartsWithAfterRewrite(s, greeting, m);
      assert !OccursAt(s, m, 0);
      NotContainsAfterChar(s[0], RewriteMessages(s[1..], greeting), m);
    }
  }

  // ---------------------------------------------------------------------------
  // Page addresses

  /** A username as JavaScript tests it: present and non-empty. */
  predicate HasUsername(username: Option<string>) {
    username.Some? && username.value != ""
  }

  /** The public address of a user's page: the configured base, a slash and the
      username; the empty string when there is no username. */
  function PageUrl(userPageUrl: string, username: Option<string>): (u: string)
    ensures !HasUsername(username) ==> u == ""
    ensures HasUsername(username) ==>
      && |u| == |userPageUrl| + 1 + |username.value|
      && u[..|userPageUrl|] == userPageUrl
      && u[|userPageUrl|] == '/'
      && u[|userPageUrl| + 1..] == username.value
  {
    if HasUsername(username) then userPageUrl + "/" + username.value else ""
  }

  /** Different users get different addresses. */
  lemma PageUrlInjective(userPageUrl: string, a: Option<string>, b: Option<string>)
    requires HasUsername(a) && HasUsername(b)
    ensures PageUrl(userPageUrl, a) == PageUrl(userPageUrl, b) <==> a == b
  {
    var ua := PageUrl(userPageUrl, a);
    var ub := PageUrl(userPageUrl, b);
    if ua == ub {
      assert a.value == ua[|userPageUrl| + 1..] == ub[|userPageUrl| + 1..] == b.value;
    }
  }

  /** The address is a safe replacement value when the base is one and the
      username has no `{`. */
  lemma PageUrlSafe(userPageUrl: string, username: Option<string>)
    requires SafeValue(userPageUrl) && HasUsername(username) && '{' !in username.value
    ensures SafeValue(PageUrl(userPageUrl, username))
  {
    var u := PageUrl(userPageUrl, username);
    assert u == userPageUrl + "/" + username.value;
    assert u[0] == userPageUrl[0];
  }

  // ---------------------------------------------------------------------------
  // The generated page

  /** A template with its markers resolved (both dates set to `now`) and every
      matched message span replaced by the greeting of the event. */
  function RenderPage(html: string, templateId: string, eventId: string, pageUrl: string, now: string): string {
    var resolved := ReplaceMetadataMarkers(html, eventId, templateId, Some(pageUrl), Some(now), Some(now));
    RewriteMessages(resolved, EventText(eventId))
  }

  /** The new content of `index.html` written by `copyHtmlTemplate`. The
      templates directory is the map from template id to file content. `None`
      means the call throws before writing: neither the requested template nor
      `indexFirst.html` exists. */
  function CopyHtmlTemplate(templates: map<string, string>, userPageUrl: string, templateId: string,
                            eventId: string, username: Option<string>, now: string): (r: Option<string>)
    ensures r.None? <==> templateId !in templates && DefaultTemplateId !in templates
    ensures templateId !in templates && r.Some? ==> r.value == templates[DefaultTemplateId]
    ensures templateId in templates ==>
      r == Some(RenderPage(templates[templateId], templateId, eventId, PageUrl(userPageUrl, username), now))
  {
    if templateId !in templates then
      if DefaultTemplateId in templates then Some(templates[DefaultTemplateId]) else None
    else
      Some(RenderPage(templates[templateId], templateId, eventId, PageUrl(userPageUrl, username), now))
  }

  /** Every greeting is free of `{`. */
  lemma EventTextBraceFree(eventId: string)
    ensures '{' !in EventText(eventId)
  {
    if eventId == "anniversary" {
      assert '{' !in AnniversaryText;
    } else if eventId == "wedding" {
      assert '{' !in WeddingText;
    } else if eventId == "birth" {
      assert '{' !in BirthText;
    } else if eventId == "valentine" {
      assert '{' !in ValentineText;
    } else {
      assert '{' !in BirthdayText;
    }
  }

  /** The message block around a greeting holds no `{`, and no marker holds the
      `<` that opens it. */
  lemma MessageBlockApart(eventId: string)
    ensures '{' !in MessageBlock(EventText(eventId))
    ensures forall m :: m in Markers ==> MessageOpen[0] !in m
  {
    EventTextBraceFree(eventId);
    assert '{' !in MessageOpen && '{' !in MessageClose;
    MarkersAlphabet();
  }

  /** An event id outside the catalog renders exactly like `birthday`. */
  lemma RenderUnknownEvent(html: string, templateId: string, eventId: string, pageUrl: string, now: string)
    requires !InCatalog(AvailableEvents, eventId)
    ensures RenderPage(html, templateId, eventId, pageUrl, now) == RenderPage(html, templateId, DefaultEventId, pageUrl, now)
  {
    ResolveUnknownEvent(html, eventId, templateId, Some(pageUrl), Some(now), Some(now));
    EventCatalogIds();
    assert InCatalog(AvailableEvents, DefaultEventId);
  }

  /** `copyHtmlTemplate` with an unknown event id writes the `birthday` page. */
  lemma CopyUnknownEvent(templates: map<string, string>, userPageUrl: string, templateId: string,
                         eventId: string, username: Option<string>, now: string)
    requires !InCatalog(AvailableEvents, eventId)
    ensures CopyHtmlTemplate(templates, userPageUrl, templateId, eventId, username, now)
         == CopyHtmlTemplate(templates, userPageUrl, templateId, DefaultEventId, username, now)
  {
    if templateId in templates {
      RenderUnknownEvent(templates[templateId], templateId, eventId, PageUrl(userPageUrl, username), now);
    }
  }

  /** With a safe page address and timestamp, the rendered page holds none of
      the eight markers. */
  lemma RenderRemovesMarkers(html: string, templateId: string, eventId: string, pageUrl: string, now: string)
    requires SafeValue(pageUrl) && SafeValue(now)
    ensures forall m :: m in Markers ==> !Contains(RenderPage(html, templateId, eventId, pageUrl, now), m)
  {
    var resolved := ReplaceMetadataMarkers(html, eventId, templateId, Some(pageUrl), Some(now), Some(now));
    ResolveRemovesAllMarkers(html, eventId, templateId, Some(pageUrl), Some(now), Some(now));
    MessageBlockApart(eventId);
    MarkersShaped();
    forall m | m in Markers
      ensures !Contains(RewriteMessages(resolved, EventText(eventId)), m)
    {
      RewriteKeepsAbsent(resolved, EventText(eventId), m);
    }
  }

  /** A page generated for a user with a username leaves no marker behind when
      the base address and the timestamp are safe and the username has no `{`. */
  lemma CopyRemovesMarkers(templates: map<string, string>, userPageUrl: string, templateId: string,
                           eventId: string, username: Option<string>, now: string)
    requires templateId in templates
    requires SafeValue(userPageUrl) && HasUsername(username) && '{' !in username.value && SafeValue(now)
    ensures var r := CopyHtmlTemplate(templates, userPageUrl, templateId, eventId, username, now);
      r.Some? && forall m :: m in Markers ==> !Contains(r.value, m)
  {
    PageUrlSafe(userPageUrl, username);
    RenderRemovesMarkers(templates[templateId], templateId, eventId, PageUrl(userPageUrl, username), now);
  }

  /** Without a message span the page is the template with its markers resolved. */
  lemma RenderWithoutSpan(html: string, templateId: string, eventId: string, pageUrl: string, now: string)
    requires var resolved := ReplaceMetadataMarkers(html, eventId, templateId, Some(pageUrl), Some(now), Some(now));
      forall i :: 0 <= i <= |resolved| ==> !SpanAtStart(resolved[i..])
    ensures RenderPage(html, templateId, eventId, pageUrl, now)
         == ReplaceMetadataMarkers(html, eventId, templateId, Some(pageUrl), Some(now), Some(now))
  {
    var resolved := ReplaceMetadataMarkers(html, eventId, templateId, Some(pageUrl), Some(now), Some(now));
    RewriteWithoutSpan(resolved, EventText(eventId));
  }

  /** With a message span, the page carries the greeting of the event. */
  lemma RenderHasGreeting(html: string, templateId: string, eventId: string, pageUrl: string, now: string, i: nat)
    requires var resolved := ReplaceMetadataMarkers(html, eventId, templateId, Some(pageUrl), Some(now), Some(now));
      i <= |resolved| && SpanAtStart(resolved[i..])
    ensures Contains(RenderPage(html, templateId, eventId, pageUrl, now), MessageBlock(EventText(eventId)))
  {
    var resolved := ReplaceMetadataMarkers(html, eventId, templateId, Some(pageUrl), Some(now), Some(now));
    RewriteProducesBlock(resolved, EventText(eventId), i);
  }

  // ---------------------------------------------------------------------------
  // The neutral page

  /** Name of the template written when a page is deleted. */
  const NeutralTemplateId: string := "default"

  /** The new content of `index.html` written by `copyDefaultTemplate`: only the
      page address is substituted. `None` means `default.html` is missing and
      nothing is written, so the previous page stays. */
  function CopyDefaultTemplate(templates: map<string, string>, userPageUrl: string, username: Option<string>): (r: Option<string>)
    ensures r.Some? <==> NeutralTemplateId in templates
  {
    if NeutralTemplateId in templates then
      Some(ReplaceAll(templates[NeutralTemplateId], PageUrlMarker, PageUrl(userPageUrl, username)))
    else None
  }

  /** Every other marker of `default.html` is still in the written page. */
  lemma DefaultKeepsOtherMarkers(templates: map<string, string>, userPageUrl: string, username: Option<string>, m: string)
    requires NeutralTemplateId in templates
    requires m in Markers && m != PageUrlMarker && Contains(templates[NeutralTemplateId], m)
    ensures Contains(CopyDefaultTemplate(templates, userPageUrl, username).value, m)
  {
    var d := templates[NeutralTemplateId];
    MarkersShaped();
    var i :| 0 <= i <= |d| - |m| && OccursAt(d, m, i);
    forall j | OccursAt(d, PageUrlMarker, j)
      ensures j + |PageUrlMarker| <= i || i + |m| <= j
    {
      MarkerOccurrencesDisjoint(d, m, PageUrlMarker, i, j);
    }
    ReplaceAllKeepsOccurrence(d, PageUrlMarker, PageUrl(userPageUrl, username), m, i);
  }

  /** With a safe address the written page holds exactly the markers of
      `default.html` other than the page address. */
  lemma DefaultSubstitutesOnlyPageUrl(templates: map<string, string>, userPageUrl: string, username: Option<string>)
    requires NeutralTemplateId in templates
    requires SafeValue(PageUrl(userPageUrl, username))
    ensures var r := CopyDefaultTemplate(templates, userPageUrl, username).value;
      && !Contains(r, PageUrlMarker)
      && forall m :: m in Markers && m != PageUrlMarker ==> (Contains(r, m) <==> Contains(templates[NeutralTemplateId], m))
  {
    var d := templates[NeutralTemplateId];
    var u := PageUrl(userPageUrl, username);
    SafeValueCompatible(u);
    ReplaceAllRemovesAll(d, PageUrlMarker, u);
    forall m | m in Markers && m != PageUrlMarker
      ensures Contains(ReplaceAll(d, PageUrlMarker, u), m) <==> Contains(d, m)
    {
      if Contains(d, m) {
        DefaultKeepsOtherMarkers(templates, userPageUrl, username, m);
      } else {
        ReplaceAllKeepsAbsent(d, PageUrlMarker, u, m);
      }
    }
  }

  // ---------------------------------------------------------------------------
  // File sizes

  /** The unit `formatFileSize` chooses. */
  datatype SizeUnit = B | KB | MB

  function UnitRank(u: SizeUnit): nat {
    match u
    case B => 0
    case KB => 1
    case MB => 2
  }

  /** The text of a size: exact digits for bytes, or a rounded amount of a
      larger unit (the one-decimal amount itself is not modelled). */
  datatype SizeText = Exact(text: string) | Rounded(unit: SizeUnit)

  function FileSizeUnit(bytes: nat): (u: SizeUnit) {
    if bytes < 1024 then B
    else if bytes < 1024 * 1024 then KB
    else MB
  }

  /** A larger size never gets a smaller unit, and each unit covers one
      contiguous range: bytes below 1024, kilobytes below 1048576. */
  lemma FileSizeUnitMonotone(a: nat, b: nat)
    requires a <= b
    ensures UnitRank(FileSizeUnit(a)) <= UnitRank(FileSizeUnit(b))
    ensures FileSizeUnit(b) == B ==> FileSizeUnit(a) == B
    ensures FileSizeUnit(a) == MB ==> FileSizeUnit(b) == MB
  {
  }

  /** The unit boundaries sit at 1024 and 1048576 bytes, and the two upload
      limits are reported in kilobytes and megabytes. */
  lemma LimitUnits()
    ensures FileSizeUnit(1023) == B && FileSizeUnit(1024) == KB
    ensures FileSizeUnit(1048575) == KB && FileSizeUnit(1048576) == MB
    ensures FileSizeUnit(PhotoSizeLimit) == KB && FileSizeUnit(PhotoSizeLimit - 1) == KB
    ensures FileSizeUnit(AudioSizeLimit) == MB && FileSizeUnit(AudioSizeLimit - 1) == KB
  {
  }

  predicate IsDigit(c: char) {
    '0' <= c <= '9'
  }

  function DigitChar(d: nat): (c: char)
    requires d < 10
    ensures IsDigit(c)
  {
    "0123456789"[d]
  }

  function DigitValue(c: char): (d: nat)
    requires IsDigit(c)
    ensures d < 10 && DigitChar(d) == c
  {
    (c as int - '0' as int) as nat
  }

  /** The decimal text of a number, as JavaScript writes an integer. */
  function Decimal(n: nat): (s: string)
    ensures |s| > 0 && forall k :: 0 <= k < |s| ==> IsDigit(s[k])
    ensures s[0] == '0' ==> n == 0
  {
    if n < 10 then [DigitChar(n)] else Decimal(n / 10) + [DigitChar(n % 10)]
  }

  /** The number a text of digits denotes. */
  function ParseDecimal(s: string): nat
    requires forall k :: 0 <= k < |s| ==> IsDigit(s[k])
  {
    if |s| == 0 then 0 else ParseDecimal(s[..|s| - 1]) * 10 + DigitValue(s[|s| - 1])
  }

  lemma {:induction false} DecimalRoundTrip(n: nat)
    ensures ParseDecimal(Decimal(n)) == n
  {
    var s := Decimal(n);
    if n >= 10 {
      DecimalRoundTrip(n / 10);
      assert s[..|s| - 1] == Decimal(n / 10);
    }
  }

  /** `formatFileSize`: the exact byte count below 1024, otherwise a rounded
      amount of kilobytes or megabytes. */
  function FormatFileSize(bytes: nat): (r: SizeText)
    ensures r.Exact? <==> FileSizeUnit(bytes) == B
    ensures r.Rounded? ==> r.unit == FileSizeUnit(bytes)
  {
    if bytes < 1024 then Exact(Decimal(bytes) + " B")
    else Rounded(FileSizeUnit(bytes))
  }

  /** The exact text is the decimal count followed by ` B`, and reading the
      digits back gives the count. */
  lemma FormatBytesRoundTrip(bytes: nat)
    requires bytes < 1024
    ensures var t := FormatFileSize(bytes).text;
      && |t| >= 3 && t[|t| - 2..] == " B"
      && (forall k :: 0 <= k < |t| - 2 ==> IsDigit(t[k]))
      && ParseDecimal(t[..|t| - 2]) == bytes
  {
    var t := FormatFileSize(bytes).text;
    assert t[..|t| - 2] == Decimal(bytes);
    DecimalRoundTrip(bytes);
  }
}
