/**
 * What a WebSocket connection asks of the server before any audio is
 * involved: the role chosen by the `role` query parameter, and the frames a
 * `sender` connection pushes, normalised into broadcast messages.
 */
module Connections {
  import opened Options
  import opened Text
  import opened Protocol
  import opened Broadcast
  import opened SeqFacts

  datatype Role = Viewer | Sender | AudioSender

  /** The query-parameter spelling of each role. */
  function RoleName(r: Role): string {
    match r
    case Viewer => "viewer"
    case Sender => "sender"
    case AudioSender => "audio_sender"
  }

  const RoleError: string := "role must be viewer, sender, or audio_sender"

  /** The role name after `.strip().lower()`; a missing parameter reads as "viewer". */
  function RequestedRole(query: Option<string>): (name: string)
    ensures NoUpper(name)
  {
    Lower(Strip(query.GetOr("viewer")))
  }

  /** The role a normalised name stands for, if any. */
  function RoleNamed(name: string): Option<Role> {
    if name == "viewer" then Some(Viewer)
    else if name == "sender" then Some(Sender)
    else if name == "audio_sender" then Some(AudioSender)
    else None
  }

  /** `RoleNamed` inverts `RoleName`, and finds nothing for any other name. */
  lemma RoleNamedIff(name: string, r: Role)
    ensures RoleNamed(name) == Some(r) <==> name == RoleName(r)
  {
  }

  /**
   * The role check at the top of `ws_handler`: anything but the three role
   * names is refused with a 400 reply carrying `RoleError`.
   */
  function SelectRole(query: Option<string>): (r: Result<Role, string>)
    ensures r.Err? ==> r.error == RoleError
  {
    match RoleNamed(RequestedRole(query))
    case Some(role) => Ok(role)
    case None => Err(RoleError)
  }

  /** A role is selected exactly when the normalised parameter is its name. */
  lemma SelectRoleIff(query: Option<string>, r: Role)
    ensures SelectRole(query) == Ok(r) <==> RequestedRole(query) == RoleName(r)
  {
    RoleNamedIff(RequestedRole(query), r);
  }

  /** The request is refused exactly when the normalised parameter names no role. */
  lemma SelectRoleRefuses(query: Option<string>)
    ensures SelectRole(query).Err? <==> forall r: Role :: RequestedRole(query) != RoleName(r)
  {
    var name := RequestedRole(query);
    if SelectRole(query).Err? {
      forall r: Role ensures name != RoleName(r) {
        RoleNamedIff(name, r);
      }
    } else {
      RoleNamedIff(name, SelectRole(query).value);
    }
  }

  /** Without a `role` parameter the connection is a viewer. */
  lemma DefaultRoleIsViewer()
    ensures SelectRole(None) == Ok(Viewer)
  {
    SelectRoleByName(Viewer);
  }

  /** Every role name, sent as is, selects its role. */
  lemma SelectRoleByName(r: Role)
    ensures SelectRole(Some(RoleName(r))) == Ok(r)
  {
    var n := RoleName(r);
    assert RequestedRole(Some(n)) == n by {
      StripUnpadded(n);
      LowerUnchanged(n);
    }
    RoleNamedIff(n, r);
  }

  /**
   * The role check ignores case: a parameter selects a role exactly when,
   * once stripped, it spells that role's name with letters in any case.
   */
  lemma SelectRoleIgnoresCase(q: string, r: Role)
    ensures SelectRole(Some(q)) == Ok(r) <==> CaseVariant(RoleName(r), Strip(q))
  {
    RoleNameLower(r);
    SelectRoleIff(Some(q), r);
    LowerIff(RoleName(r), Strip(q));
  }

  lemma RoleNameLower(r: Role)
    ensures NoUpper(RoleName(r))
  {
    match r
    case Viewer =>
    case Sender =>
    case AudioSender =>
  }

  /** Any spelling of a role name, in any case and with whitespace around it, selects that role. */
  lemma SelectRolePadded(before: string, t: string, after: string, r: Role)
    requires Blank(before) && Blank(after) && CaseVariant(RoleName(r), t)
    ensures SelectRole(Some(before + t + after)) == Ok(r)
  {
    assert !IsSpace(t[0]) && !IsSpace(t[|t| - 1]);
    StripPadded(before, t, after);
    SelectRoleIgnoresCase(before + t + after, r);
  }

  /**
   * A text frame of a `sender` connection: not JSON at all; JSON on which the
   * handler raises before it can answer (a value that is not an object, so
   * `data.get` fails, or an object whose `type` is an array or an object,
   * which the set test rejects as unhashable); or an object whose `type` is a
   * string, number, boolean or null and whose `type`, `text`, `time` and
   * `lang` members are given as the strings `str()` makes of them (`None`
   * when the member is absent).
   */
  datatype SenderFrame =
    | NotJson
    | Raises
    | Fields(kind: Option<string>, text: Option<string>, time: Option<string>, lang: Option<string>)

  /**
   * What the server does with one frame: reply with an error, ignore it,
   * broadcast a message, or raise, which sends nothing and ends the loop.
   */
  datatype SenderAction = Reply(error: string) | Ignore | Publish(msg: Msg) | Abort

  const InvalidJsonError: string := "invalid json"
  const TypeError: string := "type must be final or interim"

  /** `type` is compared as given, without stripping or lower-casing. */
  function KindOf(kind: Option<string>): Option<Kind> {
    if kind == Some("final") then Some(Final)
    else if kind == Some("interim") then Some(Interim)
    else None
  }

  /** `lang`, stripped and lower-cased; anything but "ko" and "en" becomes Korean. */
  function LangOf(lang: Option<string>): (l: Lang)
    ensures l == En ==> lang.Some?
  {
    if Lower(Strip(lang.GetOr("ko"))) == "en" then En else Ko
  }

  /**
   * The sender branch of `ws_handler` for one frame, up to the broadcast:
   * the type is checked first, then blank text is dropped, a blank time is
   * replaced by `clock`, and a non-Korean `final` line gets the translation
   * `translate` returns for its text.
   */
  function NormaliseSender(f: SenderFrame, clock: string, translate: string -> Option<string>): (a: SenderAction)
    ensures a == Reply(InvalidJsonError) <==> f.NotJson?
    ensures a.Abort? <==> f.Raises?
    ensures a.Publish? <==> f.Fields? && KindOf(f.kind).Some? && !Blank(f.text.GetOr(""))
  {
    match f
    case NotJson => Reply(InvalidJsonError)
    case Raises => Abort
    case Fields(kind, text, time, lang) =>
      StripEmptyIffBlank(text.GetOr(""));
      var k := KindOf(kind);
      var t := Strip(text.GetOr(""));
      var when := Strip(time.GetOr(""));
      if k.None? then Reply(TypeError)
      else if t == "" then Ignore
      else
        var m := Msg(k.value, t, if when == "" then clock else when, LangOf(lang), None);
        Publish(if WantsTranslation(m) then Enrich(m, translate(t)) else m)
  }

  /** A `type` other than "final" or "interim" is answered with the error reply, whatever else the frame holds. */
  lemma SenderRejectsType(f: SenderFrame, clock: string, translate: string -> Option<string>)
    requires f.Fields?
    ensures NormaliseSender(f, clock, translate) == Reply(TypeError)
        <==> f.kind != Some("final") && f.kind != Some("interim")
  {
  }

  /** A valid frame is silently dropped exactly when its text is all whitespace. */
  lemma SenderDropsBlank(f: SenderFrame, clock: string, translate: string -> Option<string>)
    requires f.Fields? && (f.kind == Some("final") || f.kind == Some("interim"))
    ensures NormaliseSender(f, clock, translate) == Ignore <==> Blank(f.text.GetOr(""))
  {
    StripEmptyIffBlank(f.text.GetOr(""));
  }

  /**
   * What a broadcast line holds: the declared type, the stripped text (never
   * empty), the stripped time or the clock when there was none, and English
   * only when the stripped, lower-cased language is "en".
   */
  lemma SenderPublishes(f: SenderFrame, clock: string, translate: string -> Option<string>)
    requires NormaliseSender(f, clock, translate).Publish?
    ensures var m := NormaliseSender(f, clock, translate).msg;
      && f.Fields?
      && Some(m.kind) == KindOf(f.kind)
      && m.text == Strip(f.text.GetOr("")) && m.text != ""
      && (Strip(f.time.GetOr("")) == "" ==> m.time == clock)
      && (Strip(f.time.GetOr("")) != "" ==> m.time == Strip(f.time.GetOr("")))
      && (m.lang == En <==> Lower(Strip(f.lang.GetOr("ko"))) == "en")
  {
  }

  /**
   * Translation is asked for only for `final` lines in English, and what is
   * attached is the service's non-empty answer for the line's text.
   */
  lemma SenderTranslatesOnlyEnglishFinals(f: SenderFrame, clock: string, translate: string -> Option<string>)
    requires NormaliseSender(f, clock, translate).Publish?
    ensures var m := NormaliseSender(f, clock, translate).msg;
      && (m.translated.Some? ==> m.kind == Final && m.lang == En && m.translated == translate(m.text))
      && (m.kind == Final && m.lang == En && translate(m.text).Some? && translate(m.text).value != ""
          ==> m.translated == translate(m.text))
  {
  }

  /** A missing `lang` means Korean, and so does any value other than "ko" or "en". */
  lemma LangDefaultsToKorean(lang: Option<string>)
    requires lang.Some? ==> Lower(Strip(lang.value)) != "en"
    ensures LangOf(lang) == Ko
  {
  }

  /** A line is English exactly when its stripped `lang` spells "en" in any case. */
  lemma LangOfIgnoresCase(lang: string)
    ensures LangOf(Some(lang)) == En <==> CaseVariant("en", Strip(lang))
  {
    LowerIff("en", Strip(lang));
  }

  /** "en", "EN", "En" or "eN", with whitespace around it, makes a line English. */
  lemma LangPadded(before: string, t: string, after: string)
    requires Blank(before) && Blank(after) && CaseVariant("en", t)
    ensures LangOf(Some(before + t + after)) == En
  {
    StripPadded(before, t, after);
    LangOfIgnoresCase(before + t + after);
  }

  /** Interim lines from a sender reach the viewers but never the replay buffer. */
  lemma SenderInterimNotRetained(f: SenderFrame, clock: string, translate: string -> Option<string>, lines: seq<Msg>)
    requires f.Fields? && f.kind == Some("interim")
    requires NormaliseSender(f, clock, translate).Publish?
    ensures Retain(lines, NormaliseSender(f, clock, translate).msg) == lines
  {
    InterimNotRetained(lines, NormaliseSender(f, clock, translate).msg);
  }

  /** A WebSocket message on a `sender` connection. */
  datatype WsMessage = Text(frame: SenderFrame) | Binary | Close

  /** A message after which the loop handles nothing: a close, or a frame the handler raises on. */
  predicate EndsSession(m: WsMessage) {
    m.Close? || (m.Text? && m.frame.Raises?)
  }

  /** How many messages the connection handles: those before the first one that ends the loop. */
  function Handled(ms: seq<WsMessage>): (n: nat)
    ensures n <= |ms| && (n < |ms| ==> EndsSession(ms[n]))
    ensures forall k :: 0 <= k < n ==> !EndsSession(ms[k])
  {
    if ms == [] || EndsSession(ms[0]) then 0 else 1 + Handled(ms[1..])
  }

  /** The action for the message at position `k`, read when the clock shows `clocks(k)`. */
  function ActionAt(ms: seq<WsMessage>, k: nat, clocks: nat -> string, translate: string -> Option<string>): SenderAction
    requires k < |ms|
  {
    if ms[k].Text? then NormaliseSender(ms[k].frame, clocks(k), translate) else Ignore
  }

  /** The error replies sent for the messages of `ms`, in order. */
  function Replies(ms: seq<WsMessage>, clocks: nat -> string, translate: string -> Option<string>): seq<string> {
    if ms == [] then []
    else
      var a := ActionAt(ms, |ms| - 1, clocks, translate);
      Replies(ms[..|ms| - 1], clocks, translate) + if a.Reply? then [a.error] else []
  }

  /** The lines broadcast for the messages of `ms`, in order. */
  function Published(ms: seq<WsMessage>, clocks: nat -> string, translate: string -> Option<string>): seq<Msg> {
    if ms == [] then []
    else
      var a := ActionAt(ms, |ms| - 1, clocks, translate);
      Published(ms[..|ms| - 1], clocks, translate) + if a.Publish? then [a.msg] else []
  }

  /** Handling message `i` extends the replies and broadcasts of the earlier messages by its own. */
  lemma SessionStep(ms: seq<WsMessage>, i: nat, clocks: nat -> string, translate: string -> Option<string>)
    requires i < |ms|
    ensures var a := ActionAt(ms, i, clocks, translate);
      && Replies(ms[..i + 1], clocks, translate) == Replies(ms[..i], clocks, translate) + (if a.Reply? then [a.error] else [])
      && Published(ms[..i + 1], clocks, translate) == Published(ms[..i], clocks, translate) + (if a.Publish? then [a.msg] else [])
  {
    assert ms[..i + 1][..i] == ms[..i];
    assert ActionAt(ms[..i + 1], i, clocks, translate) == ActionAt(ms, i, clocks, translate);
  }

  /**
   * Carries out one action on the hub: only `Publish` reaches it, as one
   * `broadcast` during which the sends to `failed` fail.
   */
  method Perform(hub: Hub, a: SenderAction, failed: set<ViewerId>) returns (sent: seq<Msg>)
    requires hub.Valid()
    modifies hub
    ensures sent == if a.Publish? then [a.msg] else []
    ensures hub.Valid() && hub.history == old(hub.history) + sent
    ensures hub.viewers == old(hub.viewers) - if a.Publish? then failed else {}
  {
    sent := [];
    if a.Publish? {
      var _ := hub.Broadcast(a.msg, failed);
      sent := [a.msg];
    }
  }

  /**
   * The `async for msg in ws_resp` loop of a `sender` connection: every text
   * frame is normalised and answered or broadcast, binary frames are
   * ignored, and a close ends the loop. A frame the handler raises on ends
   * it too, with nothing sent for that frame, and `aborted` reports it. `FailedAt(failures, n)` are the
   * viewers whose send of the `n`-th broadcast line fails.
   */
  method SenderSession(hub: Hub, ms: seq<WsMessage>, clocks: nat -> string, translate: string -> Option<string>,
                       failures: seq<set<ViewerId>>)
    returns (replies: seq<string>, published: seq<Msg>, aborted: bool)
    requires hub.Valid()
    modifies hub
    ensures replies == Replies(ms[..Handled(ms)], clocks, translate)
    ensures published == Published(ms[..Handled(ms)], clocks, translate)
    ensures aborted <==> Handled(ms) < |ms| && !ms[Handled(ms)].Close?
    ensures hub.Valid() && hub.history == old(hub.history) + published
    ensures hub.viewers == old(hub.viewers) - Dropped(failures, 0, |published|)
  {
    replies, published, aborted := [], [], false;
    var i := 0;
    while i < |ms|
      invariant i <= Handled(ms)
      invariant replies == Replies(ms[..i], clocks, translate)
      invariant published == Published(ms[..i], clocks, translate)
      invariant hub.Valid() && hub.history == old(hub.history) + published
      invariant hub.viewers == old(hub.viewers) - Dropped(failures, 0, |published|)
      decreases |ms| - i
    {
      if ms[i].Close? {
        break;
      }
      var a := ActionAt(ms, i, clocks, translate);
      if a.Abort? {
        aborted := true;
        break;
      }
      SessionStep(ms, i, clocks, translate);
      var sent := Perform(hub, a, FailedAt(failures, |published|));
      DroppedNext(old(hub.viewers), failures, 0, |published|);
      AppendAssoc(old(hub.history), published, sent);
      replies := replies + if a.Reply? then [a.error] else [];
      published := published + sent;
      i := i + 1;
    }
  }

  /** A line as a sender may broadcast it: non-blank text, translated only when English and `final`. */
  predicate WellFormed(m: Msg) {
    m.text != "" && (m.translated.Some? ==> m.kind == Final && m.lang == En)
  }

  lemma SenderWellFormed(f: SenderFrame, clock: string, translate: string -> Option<string>)
    requires NormaliseSender(f, clock, translate).Publish?
    ensures WellFormed(NormaliseSender(f, clock, translate).msg)
  {
    SenderPublishes(f, clock, translate);
    SenderTranslatesOnlyEnglishFinals(f, clock, translate);
  }

  /** Every line a sender session broadcasts is well formed. */
  lemma {:induction false} PublishedWellFormed(ms: seq<WsMessage>, clocks: nat -> string, translate: string -> Option<string>)
    ensures forall m <- Published(ms, clocks, translate) :: WellFormed(m)
  {
    if ms != [] {
      var init := ms[..|ms| - 1];
      PublishedWellFormed(init, clocks, translate);
      var a := ActionAt(ms, |ms| - 1, clocks, translate);
      if a.Publish? {
        assert Published(ms, clocks, translate) == Published(init, clocks, translate) + [a.msg];
        SenderWellFormed(ms[|ms| - 1].frame, clocks(|ms| - 1), translate);
      }
    }
  }
}
