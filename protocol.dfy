/**
 * The messages the hub fans out to viewers: `{type, text, time, lang,
 * translated?}`. Status lines are ordinary `final` messages in Korean.
 */
module Protocol {
  import opened Options

  /** The two language tags the server ever emits. */
  datatype Lang = Ko | En

  /** `type`: only `final` messages are kept for replay. */
  datatype Kind = Final | Interim

  datatype Msg = Msg(kind: Kind, text: string, time: string, lang: Lang, translated: Option<string>)

  const StatusHeaderFailed: string := "❌ 오디오 스트림 읽기 실패"
  const StatusCompleted: string := "✅ 인식 완료!"

  /** `send_status(text)`: a `final` message in Korean stamped with the wall-clock time. */
  function StatusMsg(text: string, clock: string): (m: Msg)
    ensures m.kind == Final && m.lang == Ko && m.text == text && m.time == clock && m.translated == None
  {
    Msg(Final, text, clock, Ko, None)
  }

  /** Translation into Korean is requested for non-Korean final lines only. */
  predicate WantsTranslation(m: Msg) {
    m.lang != Ko && m.kind == Final
  }

  /**
   * Attaches the outcome of `translate_to_korean`: a failed call (`None`) or
   * an empty answer leaves the message without a `translated` field.
   */
  function Enrich(m: Msg, translation: Option<string>): (r: Msg)
    requires m.translated == None
    ensures r.kind == m.kind && r.text == m.text && r.time == m.time && r.lang == m.lang
    ensures r.translated.Some? <==> translation.Some? && translation.value != ""
    ensures r.translated.Some? ==> r.translated == translation
  {
    match translation
    case Some(t) => if t != "" then m.(translated := Some(t)) else m
    case None => m
  }
}
