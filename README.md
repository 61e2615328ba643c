# livetts core, modelled in Dafny

`server.py` is a live-captioning server. It pulls an audio stream (through
yt-dlp and ffmpeg) or accepts one from the browser. It cuts the PCM into
ten-second windows, wraps each window in a WAV container and hands it to
Whisper. It labels every recognised segment with its `mm:ss` position in the
session, optionally attaches a Korean translation, and fans the resulting
lines out to every connected viewer over WebSockets. A bounded replay buffer
of the last 500 `final` lines lets late joiners catch up.

This project models the sequential logic inside that plumbing and proves
what it promises:

- `wav.dfy` (module `Wav`): `write_wav`. It writes the 44-byte RIFF/WAVE
  header with little-endian fields, then the PCM unchanged. The file holds a
  readable prefix when a field overflows.
- `windowing.dfy` (module `Windowing`): the windows `recognition_loop`
  reads after the 44-byte header. A spec function of the stream and of the
  successive observations of `is_running` gives them. It also proves the
  window count, the window sizes, the prefix property and the elapsed-time
  facts.
- `transcript.dfy` (module `Transcript`): the `transcribe_chunk` filter,
  the detected-language mapping, the absolute time of a segment and its
  `mm:ss` label.
- `hub.dfy` (module `Broadcast`): the class `Hub`, which holds
  `recent_lines` and `viewers`. It covers `broadcast` (buffer update and
  fan-out), viewer join with replay, and viewer leave. `Hub.Valid()` is the
  invariant that the buffer is always the last 500 `final` messages ever
  broadcast, in arrival order.
- `recognition.dfy` (module `Recognition`): `recognition_loop` itself, as
  an imperative loop over the byte stream that broadcasts into a `Hub`.
- `connections.dfy` (module `Connections`): the role check of `ws_handler`,
  the `sender` frame normaliser, and the `sender` receive loop.
- `stream_info.dfy` (module `StreamInfo`): the audio-URL fallback of
  `get_stream_info`.
- `summary.dfy` (module `Summary`): the prompt text
  `generate_summary_with_ollama` builds from caption lines.
- `text.dfy`, `protocol.dfy`, `options.dfy`, `seqfacts.dfy`: the models of
  Python's `str.strip()`, `str.lower()`, `'\n'.join`, `str.split` and
  `{:02d}`; the message shape `{type, text, time, lang, translated?}`;
  `Option`/`Result`; small sequence facts.

External collaborators are parameters:

- the speech recogniser is a function from WAV bytes to segments and a
  detected language;
- the translation service is a function from text to an optional answer;
- the wall clock is a string, or one string per message;
- the viewers whose sends fail are one set per broadcast, listed in
  broadcast order; every send succeeds once the list runs out;
- `is_running` is the sequence of its observations.

Points where the code's behaviour is easy to misread:

- Status lines are not a separate message kind. `send_status` broadcasts a
  `final` message in Korean (server.py:154-158), so status lines enter the
  replay buffer like any other final line.
- A failing recogniser call is not recovered per window. The exception
  leaves the loop and ends the session with an error status
  (server.py:250-251).
- When the loop ends because `is_running` was cleared (without
  cancellation), no status line is sent (server.py:245-246). The model's
  `Stopped` outcome broadcasts nothing.

## Model

| member | source | states |
|---|---|---|
| Wav.LE16Value | server.py:108 | decoding the two bytes `struct.pack('<H', x)` writes gives back `x` |
| Wav.LE32Value | server.py:106 | decoding the four bytes `struct.pack('<I', x)` writes gives back `x` |
| Wav.LEConcat | server.py:108 | the little-endian value of a concatenation is the first part plus 256^len times the second |
| Wav.WavFile | server.py:102-111 | a file exists exactly when every field fits its format; it is 44 + \|pcm\| bytes long and ends with the PCM unchanged |
| Wav.WavFileLayout | server.py:105-110 | field by field the header is "RIFF", 36+\|pcm\|, "WAVEfmt ", 16, 1, 1, sr, 2·sr, 2, 16, "data", \|pcm\| |
| Wav.WavRoundTrip | server.py:102-111 | reading the container back yields the sample rate and the PCM bytes |
| Wav.WavFileInjective | server.py:102-111 | different inputs never give the same file |
| Wav.WriteWav | server.py:102-111 | the sequential writes produce the container exactly when every field fits, and otherwise the prefix written before `struct.pack` raised |
| Windowing.Windows | server.py:221-224 | the windows the read loop takes; its properties are the lemmas WindowsShape (sizes, prefix of the stream), WindowCount and StopsWhenCleared |
| Windowing.WindowsShape | server.py:218-224 | every window holds 3200..320000 bytes, all but the last hold 320000, and together they are a prefix of the stream after the header, in order |
| Windowing.WindowCount | server.py:221-224 | with `is_running` never cleared there are ⌊n/320000⌋ windows, plus one when n mod 320000 ≥ 3200 |
| Windowing.StopsWhenCleared | server.py:221 | once the flag is seen cleared at check i+k, at most k windows are read |
| Windowing.ConcatFullChunks | server.py:243 | k full windows are k·320000 bytes |
| Windowing.ElapsedBeforeWindow | server.py:243 | `elapsed` before window k is exactly 10·k seconds (k·320000 bytes) |
| Windowing.ElapsedMonotone | server.py:243 | `elapsed` never decreases from one window to the next |
| Windowing.TwentyFiveSeconds | server.py:212-224 | 25 s of PCM after the header give three windows of 320000, 320000 and 160000 bytes |
| Windowing.ConcatAppend | server.py:243 | the bytes consumed after one more window are the earlier bytes followed by that window |
| Windowing.ReadSoFarStart | server.py:212-219 | right after the header, nothing is read and every window is still to come |
| Windowing.ReadSoFarStep | server.py:222-224 | one full-enough read advances the cursor by the window and keeps the remaining windows those of the stream |
| Windowing.ReadSoFarEnd | server.py:221-224 | when the loop exits, the windows read are exactly the windows of the stream |
| Transcript.DetectedLang | server.py:58 | the tag is Korean exactly when the detected language is "ko" |
| Transcript.KeepsIffStripped | server.py:56-57 | a segment is kept exactly when its stripped text is non-empty |
| Transcript.TranscribeChunk | server.py:46-60 | no more results than segments, each with non-empty text and the detected language; KeepSegmentsSpec gives each result |
| Transcript.KeepSegments | server.py:55-59 | no more results than segments, each with non-empty text and the window's language |
| Transcript.KeptIndicesSpec | server.py:55-59 | the kept positions are in range, strictly increasing, and are exactly the positions with non-blank text |
| Transcript.KeepSegmentsSpec | server.py:54-60 | the k-th result is the stripped k-th kept segment, with its times and the window's language |
| Transcript.TranscribeChunkLanguage | server.py:58 | every result is tagged Korean exactly when the recogniser detected "ko" |
| Transcript.Label | server.py:231 | a label has at least five characters and a colon third from the end |
| Transcript.LabelParts | server.py:231 | a label is the zero-padded minutes, ":", and the two-digit seconds |
| Transcript.LabelRoundTrip | server.py:230-231 | parsing a label gives back the whole seconds it was made from |
| Transcript.AbsoluteSeconds | server.py:230 | `t` of the label, in whole seconds; AbsoluteSecondsFloor and AbsoluteSecondsMonotone state its properties |
| Transcript.AbsoluteSecondsFloor | server.py:230 | the whole seconds of `elapsed + start`: t·32000 ≤ elapsed bytes + 32·start ms < (t+1)·32000 |
| Transcript.AbsoluteSecondsMonotone | server.py:230 | a later point in the stream never gets an earlier absolute time |
| Transcript.LabelExample | server.py:230-231 | a segment 5 s into a window that starts at 100 s is labelled "01:45" |
| Transcript.LabelHundredMinutes | server.py:231 | 6000 s are labelled "100:00": minutes from 100 on take three digits |
| Text.LeadingBlanks | server.py:56 | counts the leading whitespace: all counted characters are whitespace and the next is not |
| Text.TrailingBlanks | server.py:56 | counts the trailing whitespace: all counted characters are whitespace and the one before is not |
| Text.Strip | server.py:56 | `strip()` is never longer than its input; StripIsInfix, StripEnds and StripEmptyIffBlank characterise it |
| Text.StripIsInfix | server.py:56 | `strip()` returns the infix between leading and trailing whitespace runs, and neither of its ends is whitespace |
| Text.StripSlice | server.py:56 | the stripped text is the slice after the leading whitespace, followed only by whitespace |
| Text.StripEnds | server.py:56 | the stripped text neither starts nor ends with whitespace |
| Text.StripEmptyIffBlank | server.py:56-57 | the stripped text is empty exactly when the text is all whitespace |
| Text.StripIdempotent | server.py:452 | stripping twice is stripping once |
| Text.StripKeepsAbsent | server.py:314 | a character absent from a text is absent from its stripped form |
| Text.StripUnpadded | server.py:379 | a text with no whitespace at either end strips to itself |
| Text.LowerChar | server.py:379 | the lowered character is never upper case and is a case variant of the original: the character itself, its capital (A-Z) or, for 'k', the Kelvin sign |
| Text.Lower | server.py:379 | `lower()` leaves no upper-case letter, and the original is a case variant of the result, character by character |
| Text.LowerIff | server.py:379 | a text without upper-case letters is the lower case of `s` exactly when `s` is a case variant of it |
| Text.LowerIgnoresCase | server.py:379 | two case variants of the same lower-case text lower to the same text |
| Text.LowerUnchanged | server.py:379 | a text without upper-case letters lowers to itself |
| Text.StripPadded | server.py:379 | whitespace around a text whose ends are not whitespace is exactly what `strip()` removes |
| Text.Split | server.py:314 | the code never splits: `str.split('\n')` is the inverse used to state the join's round trip, and gives at least one piece |
| Text.IndexOf | server.py:314 | helper of that inverse: the position found holds the separator and nothing before it does |
| Text.IndexOfFirst | server.py:314 | helper of that inverse: the first position holding the separator is the one found |
| Text.SplitJoin | server.py:314 | splitting a newline join of newline-free pieces gives the pieces back |
| Text.DigitChar | server.py:231 | a digit renders as a character from '0' to '9' |
| Text.Decimal | server.py:231 | a rendering has at least one digit, one for values below 10 and at most two below 100, and starts with '0' only for zero |
| Text.Pad2 | server.py:231 | `{:02d}` gives at least two characters, exactly two below 100, and a leading '0' exactly for values below 10 (no padding from 10 on) |
| Text.DecimalCanonical | server.py:231 | a non-empty digit string without a leading zero (other than "0" itself) is the rendering of its value: the rendering is the only such string |
| Text.DecimalRoundTrip | server.py:231 | a rendering is all digits and reads back as the value |
| Text.Pad2RoundTrip | server.py:231 | a zero-padded rendering is all digits and reads back as the value |
| Protocol.StatusMsg | server.py:154-158 | a status line is a `final` Korean message with the given text, stamped with the wall-clock time, and no translation |
| Protocol.Enrich | server.py:237-240 | a translation is attached exactly when the service answered with non-empty text; nothing else changes |
| Broadcast.FinalsShape | server.py:142-143 | only `final` messages are candidates for the buffer |
| Broadcast.LastNShape | server.py:144-145 | the kept window is the suffix of length min(500, count) |
| Broadcast.LastNAppend | server.py:143-145 | appending to the last n and dropping the oldest above n gives the last n of the longer sequence |
| Broadcast.Retain | server.py:142-145 | one buffer update; its properties are the lemmas RetainKeepsLastFinals, InterimNotRetained and StatusRetained |
| Broadcast.RetainKeepsLastFinals | server.py:141-145 | one `broadcast` turns the last 500 finals of a history into the last 500 finals of the extended history |
| Broadcast.InterimNotRetained | server.py:142 | a non-`final` message leaves the buffer unchanged |
| Broadcast.StatusRetained | server.py:142-145 | a status line always enters the buffer, as its newest entry |
| Broadcast.FinalsOfFinals | server.py:142 | a history of finals is kept whole |
| Broadcast.RecentFinals | server.py:142-145 | the buffer never exceeds 500 entries, all of them `final` |
| Broadcast.RecentIsLastFinals | server.py:141-145 | the buffer left by successive broadcasts is the last 500 finals ever broadcast, in arrival order |
| Broadcast.EvictsOldest | server.py:144-145 | after 501 final broadcasts the buffer holds messages 2..501 |
| Broadcast.Hub.BufferShape | server.py:142-145 | a valid hub's buffer is at most 500 entries, all `final` |
| Broadcast.Hub.constructor | server.py:26-30 | the server starts with no viewer and an empty buffer |
| Broadcast.Hub.Broadcast | server.py:139-151 | the buffer becomes the retained update, the invariant is kept, failed viewers are dropped, everyone else present receives the message, and nobody is added |
| Broadcast.DroppedIff | server.py:147-151 | a viewer is dropped over a run of broadcasts exactly when its send failed in one of them |
| Broadcast.DroppedThen | server.py:147-151 | dropping the failures of two consecutive runs of broadcasts is dropping those of the whole run |
| Broadcast.Hub.FanOut | server.py:147-151 | every viewer present at the start is tried exactly once, a failure does not stop the rest, and exactly the failed ones are removed |
| Broadcast.Hub.Join | server.py:386-393 | the viewer is added, then sent a prefix of the buffer in order; the replay stops exactly at the first failing send, and nothing is sent twice |
| Broadcast.Hub.BroadcastEach | server.py:139-151 | broadcasting lines one after another appends them all to the history in order, keeps the invariant, and removes exactly the viewers that failed in one of those broadcasts |
| Broadcast.Hub.Leave | server.py:481-482 | the viewer is discarded; buffer and history are unchanged |
| Recognition.SegmentMessage | server.py:229-240 | a segment becomes a `final` line with its text, language and `mm:ss` label of elapsed+start; a non-Korean segment whose translation is non-empty carries that translation, and no other line is translated or gets an empty one |
| Recognition.SegmentMessagesAt | server.py:229-241 | one line per segment, the k-th from the k-th segment |
| Recognition.SegmentMessagesLength | server.py:229 | one line per kept segment |
| Recognition.PublisherPublishes | server.py:226-241 | the publisher used by the loop gives each window's lines |
| Recognition.LoopMessagesSnoc | server.py:221-243 | one more window appends its lines, stamped with the bytes consumed before it |
| Recognition.LoopMessagesPerWindow | server.py:221-243 | the lines of a run of windows are each window's lines in window order |
| Recognition.PublishWindow | server.py:226-241 | one iteration broadcasts exactly the lines of its window, in segment order, keeping the hub invariant, and removes exactly the viewers whose sends failed in those broadcasts |
| Recognition.StreamWindows | server.py:221-243 | the loop reads exactly the stream's windows, broadcasts their lines in order, and removes exactly the viewers whose sends failed |
| Recognition.RecognitionLoop | server.py:212-246 | a short header sends only the failure status; otherwise the windows are those of the stream, their lines are broadcast in order, and "completed" follows only when the flag is still set; the viewers left are those whose sends never failed |
| Connections.RequestedRole | server.py:379 | the normalised role name has no upper-case letter; SelectRoleIff and SelectRoleIgnoresCase say what it selects |
| Connections.RoleNamedIff | server.py:380 | a normalised name selects a role exactly when it is that role's name |
| Connections.SelectRole | server.py:379-381 | a refusal always carries the fixed error text |
| Connections.SelectRoleIff | server.py:379-380 | a role is selected exactly when the stripped, lower-cased parameter is its name |
| Connections.SelectRoleRefuses | server.py:380-381 | the request is refused exactly when the parameter names no role |
| Connections.DefaultRoleIsViewer | server.py:379 | without a role parameter the connection is a viewer |
| Connections.SelectRoleIgnoresCase | server.py:379-380 | a parameter selects a role exactly when, stripped, it is a case variant of the role's name |
| Connections.SelectRolePadded | server.py:379-380 | any case variant of a role name, with whitespace around it, selects that role |
| Connections.SelectRoleByName | server.py:379-380 | each role name selects its role |
| Connections.NormaliseSender | server.py:445-476 | the "invalid json" reply exactly for a frame that is not JSON; an abort exactly for a frame that raises; a broadcast exactly for a frame of type "final"/"interim" with non-blank text |
| Connections.SenderRejectsType | server.py:451-458 | in a frame that does not raise, a `type` other than "final"/"interim" gets the error reply and nothing is broadcast |
| Connections.SenderDropsBlank | server.py:452-460 | a valid frame is dropped silently exactly when its text is blank |
| Connections.SenderPublishes | server.py:451-476 | a broadcast line has the declared type, the stripped non-empty text, the stripped time or the clock, and English exactly when the stripped, lowered language is "en" |
| Connections.SenderTranslatesOnlyEnglishFinals | server.py:473-476 | only English `final` lines get a translation, and each gets the service's non-empty answer |
| Connections.LangOf | server.py:454-464 | English only when a language was given; LangOfIgnoresCase and LangDefaultsToKorean give both directions |
| Connections.LangOfIgnoresCase | server.py:454-464 | a language is English exactly when, stripped, it is a case variant of "en" |
| Connections.LangPadded | server.py:454-464 | "en" in any case, with whitespace around it, makes a line English |
| Connections.LangDefaultsToKorean | server.py:454-464 | a missing or unknown language becomes Korean |
| Connections.SenderInterimNotRetained | server.py:451-477 | an interim line from a sender never enters the replay buffer |
| Connections.Handled | server.py:443-479 | the loop handles the messages before the first close, error or raising frame, and stops at it |
| Connections.SessionStep | server.py:443-477 | handling one more message adds its reply and its broadcast line, if any |
| Connections.Perform | server.py:477 | only a publish action reaches the hub, as one broadcast, and only it removes viewers: exactly those whose sends failed |
| Connections.SenderSession | server.py:442-479 | the receive loop replies and broadcasts exactly as the per-frame rules say, in order; it stops at the first close or at a frame that raises, and reports the latter as an abort; the viewers left are those whose sends never failed |
| Connections.SenderWellFormed | server.py:451-477 | a sender's line has non-blank text and is translated only when English and `final` |
| Connections.PublishedWellFormed | server.py:443-477 | every line a sender session broadcasts is well formed |
| StreamInfo.LastAudio | server.py:71-72 | the index found is the last format with audio; none is found only when no format has audio |
| StreamInfo.AudioUrl | server.py:69-74 | a URL chosen is the top-level one or that of some listed format; the lemmas below say which |
| StreamInfo.TopLevelUrlWins | server.py:69-70 | a non-empty top-level URL is used as it is |
| StreamInfo.FallbackPicksLastAudio | server.py:70-74 | otherwise the last format with audio decides: its URL, or a KeyError when it has none |
| StreamInfo.NoAudioKeepsTopLevel | server.py:69-74 | with no audio format the (missing or empty) top-level URL is returned |
| StreamInfo.MissingUrlKeyOnlyOnFallback | server.py:70-73 | the KeyError arises only on the fallback path, from a format with audio but no URL |
| Summary.SummaryText | server.py:314-316 | the prompt text is non-empty, and a refusal carries the fixed error text |
| Summary.StrippedLines | server.py:314 | the lines the join keeps; its properties are the lemmas StrippedLinesShape (no more than given, non-empty, unpadded) and StrippedLinesSpec (each kept line) |
| Summary.StrippedLinesShape | server.py:314 | the kept lines are non-empty, unpadded, and no more than the input lines |
| Summary.StrippedLinesEmptyIff | server.py:314 | no line is kept exactly when every input line is blank |
| Summary.NonBlankIndicesSpec | server.py:314 | the positions listed are in range, increasing, and exactly those of the non-blank lines |
| Summary.StrippedLinesSpec | server.py:314 | the k-th kept line is the k-th non-blank line, stripped |
| Summary.StrippedLinesAvoid | server.py:314 | a character absent from every input line is absent from the kept lines |
| Summary.JoinEmptyIff | server.py:314-315 | a newline join of non-empty lines is empty only when there are none |
| Summary.SummaryRefusedIffAllBlank | server.py:314-316 | the summary is refused exactly when every line is blank |
| Summary.SummaryTextSplits | server.py:314 | with no newline in the input, splitting the prompt text at newlines gives back the kept lines |

## Left out

- External processes are not modelled. The ffmpeg decoder is the finished byte stream it writes, the ffmpeg conversion of pushed audio is left out, and yt-dlp's `extract_info` is the `Info` value it returns.
- The Whisper model is not modelled. Its output for one file is an arbitrary function of the file's bytes.
- The Ollama HTTP calls are not modelled. Translation is an arbitrary function from text to an optional answer, failures included as `None`. It is deterministic: the same text gets the same answer throughout one run. The summary model stops at the prompt text, and the prompt template, the POST and its response checks are left out.
- Concurrency is not modelled: `api_start`/`api_stop`, task cancellation, the `CancelledError` status, `run_in_executor`, and producers interleaving on the hub. `is_running` is the sequence of its observations by the loop.
- The status lines before the header read (server.py:196-206) are not modelled. They depend only on yt-dlp's answer.
- The generic exception status (server.py:250-251) is not modelled. It is reached when `get_stream_info` raises inside the `try` (server.py:198), for instance the `KeyError` that StreamInfo.AudioUrl models as `MissingUrlKey`, which the handler reports as the status "❌ 오류: 'url'". The model does not chain `get_stream_info` into RecognitionLoop, which starts after the header read. Within the loop nothing in the model raises: the recogniser and the translation service are total functions, and `write_wav` cannot overflow a field for a window of at most 320000 bytes (PublishWindow proves the write succeeds).
- The `audio_sender` role (server.py:395-436) is left out. It repeats the recogniser → translation → broadcast path with a wall-clock label and needs the ffmpeg conversion.
- Floats are not modelled. Segment start times are whole milliseconds, and `elapsed` is a byte count. `int(t // 60)` and `int(t % 60)` are computed on whole seconds, which is exact for non-negative times.
- JSON is not modelled. A sender frame is "not JSON", a frame whose handling raises, or the `str()` forms of its `type`/`text`/`time`/`lang` members; `type` is compared without `str()`, as the code does. A frame raises when the JSON value is not an object (`data.get` fails at server.py:451) or when `type` is an array or object (the set test at server.py:456 fails): the exception leaves the receive loop with no reply. Which JSON values raise is not derived from the JSON text, and the `ts` field is left out.
- Broadcast buffer: `broadcast` stores the JSON text of a message. The model stores the message itself, and JSON encoding is injective.
- Text.Lower: covers only the characters whose lower case is an ASCII letter (A-Z and the Kelvin sign). Every other character is kept, which is all that matters for comparing with "viewer", "sender", "audio_sender", "ko" and "en"; the case-variant lemmas speak only of those comparisons.
- Text.IsSpace: is `str.isspace()` over the characters Python treats as whitespace; no other Unicode normalisation is modelled.
- Recognition.Publisher: returns no lines for a window longer than 320000 bytes. Such a window cannot occur, because `read(chunk_bytes)` never returns more than that.
- Recognition.RecognitionLoop: the header's contents are not checked, as in the code. The viewers whose sends fail are given per broadcast, by the number of lines broadcast before; which viewers receive each line is stated by Broadcast.Hub.Broadcast, not by the loop.
- Wav.WriteWav: an exception leaves the file with the pieces written so far. The model returns that prefix and a flag; the `open` and the temp path are left out.
- StreamInfo.AudioUrl: a format's `url` key holding JSON null is not told apart from a missing key. A present URL is used as it is.
- Connections.Handled: an `ERROR` message ends the loop like `CLOSE`, so both are the `Close` message. What the `finally` block and the handler do after an abort is left out.
