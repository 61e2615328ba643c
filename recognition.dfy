/**
 * `recognition_loop` from the moment the decoder runs: skip the 44-byte
 * header, cut ten-second windows, wrap each in a WAV container, transcribe
 * it, and broadcast one `final` line per kept segment, stamped with the
 * session time at which it was spoken.
 */
module Recognition {
  import opened Options
  import opened Wav
  import opened Protocol
  import opened Transcript
  import opened Windowing
  import opened Broadcast
  import opened SeqFacts

  /**
   * The collaborators the loop calls: the speech recogniser on the bytes of a
   * WAV file, and the translation service on a line of text (`None` when the
   * call fails).
   */
  datatype Env = Env(transcribe: seq<byte> -> RawTranscript, translate: string -> Option<string>)

  /** How the loop ended: no header, the stream ran out, or the flag was cleared. */
  datatype Outcome = HeaderReadFailed | Completed | Stopped

  /**
   * The line broadcast for one segment of a window that starts `elapsed`
   * bytes into the stream, with the translation attached when it is not Korean.
   */
  function SegmentMessage(seg: Segment, elapsed: nat, translate: string -> Option<string>): (m: Msg)
    ensures m.kind == Final && m.text == seg.text && m.lang == seg.lang
    ensures m.time == Label(AbsoluteSeconds(elapsed, seg.startMs))
    ensures m.translated.Some? ==> seg.lang == En && m.translated == translate(seg.text)
    ensures seg.lang == En && translate(seg.text).Some? && translate(seg.text).value != "" ==> m.translated == translate(seg.text)
    ensures m.translated.Some? ==> m.translated.value != ""
  {
    var m := Msg(Final, seg.text, Label(AbsoluteSeconds(elapsed, seg.startMs)), seg.lang, None);
    if WantsTranslation(m) then Enrich(m, translate(seg.text)) else m
  }

  /** The lines for a window's kept segments, in segment order. */
  function SegmentMessages(segs: seq<Segment>, elapsed: nat, translate: string -> Option<string>): seq<Msg>
  {
    if segs == [] then []
    else SegmentMessages(segs[..|segs| - 1], elapsed, translate) + [SegmentMessage(segs[|segs| - 1], elapsed, translate)]
  }

  /** The `k`-th line of a window is the line of its `k`-th kept segment. */
  lemma {:induction false} SegmentMessagesAt(segs: seq<Segment>, elapsed: nat, translate: string -> Option<string>, k: nat)
    requires k < |segs|
    ensures var ms := SegmentMessages(segs, elapsed, translate);
      |ms| == |segs| && ms[k] == SegmentMessage(segs[k], elapsed, translate)
  {
    var init := segs[..|segs| - 1];
    SegmentMessagesLength(init, elapsed, translate);
    if k < |init| {
      SegmentMessagesAt(init, elapsed, translate, k);
      assert segs[k] == init[k];
    }
  }

  /** One line per kept segment. */
  lemma {:induction false} SegmentMessagesLength(segs: seq<Segment>, elapsed: nat, translate: string -> Option<string>)
    ensures |SegmentMessages(segs, elapsed, translate)| == |segs|
  {
    if segs != [] {
      SegmentMessagesLength(segs[..|segs| - 1], elapsed, translate);
    }
  }

  /** The lines broadcast for one window read `elapsed` bytes after the header. */
  function WindowMessages(w: seq<byte>, elapsed: nat, env: Env): seq<Msg>
    requires |w| <= ChunkBytes
  {
    SegmentMessages(TranscribeChunk(env.transcribe(WavFile(w, SampleRate).value)), elapsed, env.translate)
  }

  /**
   * One window's lines as a function value, the form in which the loop below
   * carries them. Windows longer than `ChunkBytes` are never read.
   */
  function Publisher(env: Env): (seq<byte>, nat) -> seq<Msg> {
    (w: seq<byte>, elapsed: nat) => if |w| <= ChunkBytes then WindowMessages(w, elapsed, env) else []
  }

  /** `window` gives the lines of window `w` read `elapsed` bytes after the header. */
  ghost predicate PublishesAt(window: (seq<byte>, nat) -> seq<Msg>, env: Env, w: seq<byte>, elapsed: nat) {
    |w| <= ChunkBytes ==> window(w, elapsed) == WindowMessages(w, elapsed, env)
  }

  ghost predicate Publishes(window: (seq<byte>, nat) -> seq<Msg>, env: Env) {
    forall w, elapsed {:trigger PublishesAt(window, env, w, elapsed)} :: PublishesAt(window, env, w, elapsed)
  }

  lemma PublisherPublishes(env: Env)
    ensures Publishes(Publisher(env), env)
  {
    forall w, elapsed ensures PublishesAt(Publisher(env), env, w, elapsed) {
    }
  }

  /** The lines broadcast for a run of windows, in window order. */
  function LoopMessages(ws: seq<seq<byte>>, window: (seq<byte>, nat) -> seq<Msg>): seq<Msg> {
    if ws == [] then []
    else
      var init := ws[..|ws| - 1];
      LoopMessages(init, window) + window(ws[|ws| - 1], |Concat(init)|)
  }

  /** One more window adds its lines after those of the earlier windows. */
  lemma LoopMessagesSnoc(ws: seq<seq<byte>>, w: seq<byte>, elapsed: nat, window: (seq<byte>, nat) -> seq<Msg>)
    requires elapsed == |Concat(ws)|
    ensures LoopMessages(ws + [w], window) == LoopMessages(ws, window) + window(w, elapsed)
  {
    TakeAppended(ws, w);
  }

  /**
   * The session's lines grow window by window: the lines of one more window,
   * stamped with the bytes read before it, follow those of the earlier ones.
   */
  lemma LoopMessagesPerWindow(ws: seq<seq<byte>>, w: seq<byte>, env: Env)
    requires |w| <= ChunkBytes
    ensures LoopMessages(ws + [w], Publisher(env))
         == LoopMessages(ws, Publisher(env)) + WindowMessages(w, |Concat(ws)|, env)
  {
    LoopMessagesSnoc(ws, w, |Concat(ws)|, Publisher(env));
  }

  /**
   * One iteration's work on a window read `elapsed` bytes after the header:
   * `write_wav`, `transcribe_chunk`, then one broadcast per kept segment.
   * `base` is the number of lines the loop has broadcast before this window.
   */
  method PublishWindow(hub: Hub, raw: seq<byte>, elapsed: nat, env: Env, failures: seq<set<ViewerId>>, base: nat,
                       ghost window: (seq<byte>, nat) -> seq<Msg>)
    returns (sent: seq<Msg>)
    requires hub.Valid() && |raw| <= ChunkBytes && Publishes(window, env)
    modifies hub
    ensures sent == window(raw, elapsed)
    ensures hub.Valid() && hub.history == old(hub.history) + sent
    ensures hub.viewers == old(hub.viewers) - Dropped(failures, base, base + |sent|)
  {
    var wav, ok := WriteWav(raw, SampleRate);
    assert ok;  // no WAV field overflows for a window of at most 320000 bytes
    var results := TranscribeChunk(env.transcribe(wav));
    sent := SegmentMessages(results, elapsed, env.translate);
    hub.BroadcastEach(sent, failures, base);
    assert PublishesAt(window, env, raw, elapsed);
  }

  /**
   * The `while is_running` loop of `recognition_loop`, entered after the
   * header has been read: the stream from byte 44 on is cut into windows and
   * each window's lines are broadcast. `running(i)` is the `i`-th observation
   * of `is_running`; `FailedAt(failures, n)` are the viewers whose send of
   * the `n`-th line of the session fails.
   */
  method StreamWindows(hub: Hub, stream: seq<byte>, running: nat -> bool, env: Env,
                       failures: seq<set<ViewerId>>, ghost window: (seq<byte>, nat) -> seq<Msg>)
    returns (windows: seq<seq<byte>>, published: seq<Msg>)
    requires HeaderBytes <= |stream| && hub.Valid() && Publishes(window, env)
    modifies hub
    ensures windows == Windows(stream, HeaderBytes, running, 0)
    ensures forall k :: 0 <= k < |windows| ==> |windows[k]| <= ChunkBytes
    ensures published == LoopMessages(windows, window)
    ensures hub.Valid() && hub.history == old(hub.history) + published
    ensures hub.viewers == old(hub.viewers) - Dropped(failures, 0, |published|)
  {
    windows, published := [], [];
    ReadSoFarStart(stream, running);
    var pos := HeaderBytes;
    var elapsed: nat := 0;
    var i := 0;
    while running(i)
      invariant ReadSoFar(stream, pos, windows, running)
      invariant i == |windows| && elapsed == pos - HeaderBytes
      invariant published == LoopMessages(windows, window)
      invariant hub.Valid() && hub.history == old(hub.history) + published
      invariant hub.viewers == old(hub.viewers) - Dropped(failures, 0, |published|)
      decreases |stream| - pos
    {
      var raw := stream[pos..pos + Min(ChunkBytes, |stream| - pos)];
      if |raw| < MinBytes {
        break;
      }
      ReadSoFarStep(stream, pos, windows, running, raw);
      LoopMessagesSnoc(windows, raw, elapsed, window);
      var sent := PublishWindow(hub, raw, elapsed, env, failures, |published|, window);
      AppendAssoc(old(hub.history), published, sent);
      DroppedThen(old(hub.viewers), failures, 0, |published|, |published| + |sent|);
      published := published + sent;
      windows := windows + [raw];
      pos := pos + |raw|;
      elapsed := elapsed + |raw|;
      i := i + 1;
    }
    ReadSoFarEnd(stream, pos, windows, running);
  }

  /**
   * `recognition_loop` from the header read on. `stream` is everything the
   * decoder writes; the flag is observed once before each read and once more
   * after the loop, which decides between the completion status and silence.
   */
  method RecognitionLoop(hub: Hub, stream: seq<byte>, running: nat -> bool, env: Env, clock: string,
                         failures: seq<set<ViewerId>>)
    returns (outcome: Outcome, windows: seq<seq<byte>>, published: seq<Msg>)
    requires hub.Valid()
    modifies hub
    ensures hub.Valid() && hub.history == old(hub.history) + published
    ensures hub.viewers == old(hub.viewers) - Dropped(failures, 0, |published|)
    ensures |stream| < HeaderBytes ==>
      outcome == HeaderReadFailed && windows == [] && published == [StatusMsg(StatusHeaderFailed, clock)]
    ensures |stream| >= HeaderBytes ==>
      && windows == Windows(stream, HeaderBytes, running, 0)
      && (forall k :: 0 <= k < |windows| ==> |windows[k]| <= ChunkBytes)
      && outcome == (if running(|windows| + 1) then Completed else Stopped)
      && published == LoopMessages(windows, Publisher(env)) + if outcome == Completed then [StatusMsg(StatusCompleted, clock)] else []
  {
    var header := stream[..Min(HeaderBytes, |stream|)];
    if |header| < HeaderBytes {
      var status := StatusMsg(StatusHeaderFailed, clock);
      var _ := hub.Broadcast(status, FailedAt(failures, 0));
      DroppedNext(old(hub.viewers), failures, 0, 0);
      return HeaderReadFailed, [], [status];
    }

    PublisherPublishes(env);
    windows, published := StreamWindows(hub, stream, running, env, failures, Publisher(env));
    if running(|windows| + 1) {
      var status := StatusMsg(StatusCompleted, clock);
      var _ := hub.Broadcast(status, FailedAt(failures, |published|));
      DroppedNext(old(hub.viewers), failures, 0, |published|);
      AppendAssoc(old(hub.history), published, [status]);
      published := published + [status];
      outcome := Completed;
    } else {
      outcome := Stopped;
    }
  }
}
