/**
 * The windows `recognition_loop` cuts from the decoder's PCM stream, as a
 * function of the bytes after the 44-byte header and of the successive
 * observations of the running flag.
 */
module Windowing {
  import opened Wav

  /** `chunk_bytes`: ten seconds of 16 kHz, 16-bit, mono PCM. */
  const ChunkBytes: nat := 16000 * 2 * 10

  /** A read shorter than this (0.1 s) ends the stream. */
  const MinBytes: nat := 3200

  function Min(a: nat, b: nat): nat {
    if a < b then a else b
  }

  /**
   * The windows read from `stream` with the cursor at `pos`, when the running
   * flag is observed for the `i`-th time before the first read: each
   * iteration reads up to `ChunkBytes`, and the loop stops on a cleared flag
   * or on a read shorter than `MinBytes` (an empty read included).
   */
  function Windows(stream: seq<byte>, pos: nat, running: nat -> bool, i: nat): seq<seq<byte>>
    requires pos <= |stream|
    decreases |stream| - pos
  {
    if !running(i) then []
    else
      var n := Min(ChunkBytes, |stream| - pos);
      if n < MinBytes then [] else [stream[pos..pos + n]] + Windows(stream, pos + n, running, i + 1)
  }

  /** The bytes of consecutive windows, joined. */
  function Concat(ws: seq<seq<byte>>): seq<byte> {
    if ws == [] then [] else ws[0] + Concat(ws[1..])
  }

  lemma {:induction false} ConcatAppend(ws: seq<seq<byte>>, w: seq<byte>)
    ensures Concat(ws + [w]) == Concat(ws) + w
  {
    if ws != [] {
      assert (ws + [w])[1..] == ws[1..] + [w];
      ConcatAppend(ws[1..], w);
    } else {
      assert [w][1..] == [];
    }
  }

  /** `elapsed` before window `k`, counted in bytes: the length of the earlier windows. */
  function ElapsedBefore(ws: seq<seq<byte>>, k: nat): nat
    requires k <= |ws|
  {
    |Concat(ws[..k])|
  }

  /**
   * Every window holds between `MinBytes` and `ChunkBytes` bytes, every window
   * but the last holds exactly `ChunkBytes`, and together they are the
   * stream's bytes from the cursor on, in order, up to where reading stopped.
   */
  lemma {:induction false} WindowsShape(stream: seq<byte>, pos: nat, running: nat -> bool, i: nat)
    requires pos <= |stream|
    ensures var ws := Windows(stream, pos, running, i);
      && (forall k :: 0 <= k < |ws| ==> MinBytes <= |ws[k]| <= ChunkBytes)
      && (forall k :: 0 <= k < |ws| - 1 ==> |ws[k]| == ChunkBytes)
      && pos + |Concat(ws)| <= |stream| && Concat(ws) == stream[pos..pos + |Concat(ws)|]
    decreases |stream| - pos
  {
    var ws := Windows(stream, pos, running, i);
    if ws != [] {
      var n := Min(ChunkBytes, |stream| - pos);
      var tail := Windows(stream, pos + n, running, i + 1);
      assert ws == [stream[pos..pos + n]] + tail;
      WindowsShape(stream, pos + n, running, i + 1);
      assert ws[1..] == tail;
      assert Concat(ws) == stream[pos..pos + n] + Concat(tail);
      if tail != [] {
        assert n == ChunkBytes;
      }
      assert stream[pos..pos + n + |Concat(tail)|] == stream[pos..pos + n] + stream[pos + n..pos + n + |Concat(tail)|];
    }
  }

  /**
   * With the flag never cleared, the number of windows is the number of
   * whole chunks after the cursor, plus one for a tail of at least `MinBytes`.
   */
  lemma {:induction false} WindowCount(stream: seq<byte>, pos: nat, running: nat -> bool, i: nat)
    requires pos <= |stream|
    requires forall j :: i <= j ==> running(j)
    ensures var n := |stream| - pos;
      |Windows(stream, pos, running, i)| == n / ChunkBytes + if n % ChunkBytes >= MinBytes then 1 else 0
    decreases |stream| - pos
  {
    var n := |stream| - pos;
    if n >= ChunkBytes {
      WindowCount(stream, pos + ChunkBytes, running, i + 1);
      assert n / ChunkBytes == 1 + (n - ChunkBytes) / ChunkBytes;
      assert n % ChunkBytes == (n - ChunkBytes) % ChunkBytes;
    } else if n >= MinBytes {
      assert Windows(stream, |stream|, running, i + 1) == [];
    }
  }

  /** Once the flag is observed cleared at check `i + k`, at most `k` windows are read. */
  lemma {:induction false} StopsWhenCleared(stream: seq<byte>, pos: nat, running: nat -> bool, i: nat, k: nat)
    requires pos <= |stream| && !running(i + k)
    ensures |Windows(stream, pos, running, i)| <= k
    decreases |stream| - pos
  {
    if k > 0 && running(i) {
      var n := Min(ChunkBytes, |stream| - pos);
      if n >= MinBytes {
        StopsWhenCleared(stream, pos + n, running, i + 1, k - 1);
      }
    }
  }

  /** A concatenation's length is the sum of its pieces' lengths, piece by piece. */
  lemma {:induction false} ConcatFullChunks(ws: seq<seq<byte>>, k: nat)
    requires k <= |ws|
    requires forall j :: 0 <= j < k ==> |ws[j]| == ChunkBytes
    ensures |Concat(ws[..k])| == k * ChunkBytes
  {
    if k > 0 {
      ConcatFullChunks(ws, k - 1);
      assert ws[..k] == ws[..k - 1] + [ws[k - 1]];
      ConcatAppend(ws[..k - 1], ws[k - 1]);
    }
  }

  /**
   * The elapsed time before window `k` is exactly `10 * k` seconds
   * (`k * ChunkBytes` bytes), so it grows by one window at every step.
   */
  lemma ElapsedBeforeWindow(stream: seq<byte>, pos: nat, running: nat -> bool, k: nat)
    requires pos <= |stream| && k < |Windows(stream, pos, running, 0)|
    ensures ElapsedBefore(Windows(stream, pos, running, 0), k) == k * ChunkBytes
  {
    WindowsShape(stream, pos, running, 0);
    ConcatFullChunks(Windows(stream, pos, running, 0), k);
  }

  /** `elapsed` never decreases from one window to the next. */
  lemma ElapsedMonotone(ws: seq<seq<byte>>, k: nat)
    requires k < |ws|
    ensures ElapsedBefore(ws, k) <= ElapsedBefore(ws, k + 1)
  {
    assert ws[..k + 1] == ws[..k] + [ws[k]];
    ConcatAppend(ws[..k], ws[k]);
  }

  /**
   * 25 seconds of PCM after the header give three windows: two of ten
   * seconds and a tail of five.
   */
  lemma TwentyFiveSeconds(stream: seq<byte>, running: nat -> bool)
    requires |stream| == HeaderBytes + 25 * 16000 * 2
    requires forall j :: running(j)
    ensures var ws := Windows(stream, HeaderBytes, running, 0);
      |ws| == 3 && |ws[0]| == ChunkBytes && |ws[1]| == ChunkBytes && |ws[2]| == 160000
  {
    WindowCount(stream, HeaderBytes, running, 0);
    var ws := Windows(stream, HeaderBytes, running, 0);
    var w1 := Windows(stream, HeaderBytes + ChunkBytes, running, 1);
    var w2 := Windows(stream, HeaderBytes + 2 * ChunkBytes, running, 2);
    assert ws == [stream[HeaderBytes..HeaderBytes + ChunkBytes]] + w1;
    assert w1 == [stream[HeaderBytes + ChunkBytes..HeaderBytes + 2 * ChunkBytes]] + w2;
    assert ws[2] == w2[0];
  }

  /**
   * What the loop knows with the cursor at `pos`: the windows so far lie
   * within `ChunkBytes`, `pos - HeaderBytes` bytes have been read since the
   * header, and the windows still to come are exactly those the stream gives
   * from the cursor on.
   */
  predicate ReadSoFar(stream: seq<byte>, pos: nat, windows: seq<seq<byte>>, running: nat -> bool)
  {
    && HeaderBytes <= pos <= |stream|
    && (forall k :: 0 <= k < |windows| ==> |windows[k]| <= ChunkBytes)
    && |Concat(windows)| == pos - HeaderBytes
    && Windows(stream, HeaderBytes, running, 0) == windows + Windows(stream, pos, running, |windows|)
  }

  /** Nothing has been read right after the header. */
  lemma ReadSoFarStart(stream: seq<byte>, running: nat -> bool)
    requires HeaderBytes <= |stream|
    ensures ReadSoFar(stream, HeaderBytes, [], running)
  {
  }

  /**
   * One more read, taken as a window, keeps the loop's knowledge; the bytes
   * read before it are the `elapsed` count the window is stamped with.
   */
  lemma ReadSoFarStep(stream: seq<byte>, pos: nat, windows: seq<seq<byte>>, running: nat -> bool, raw: seq<byte>)
    requires ReadSoFar(stream, pos, windows, running)
    requires running(|windows|) && raw == stream[pos..pos + Min(ChunkBytes, |stream| - pos)]
    requires |raw| >= MinBytes
    ensures |raw| <= ChunkBytes && |Concat(windows)| == pos - HeaderBytes
    ensures forall k :: 0 <= k < |windows| ==> |windows[k]| <= ChunkBytes
    ensures ReadSoFar(stream, pos + |raw|, windows + [raw], running)
  {
    var i := |windows|;
    var rest := Windows(stream, pos + |raw|, running, i + 1);
    assert Windows(stream, pos, running, i) == [raw] + rest;
    ConcatAppend(windows, raw);
    assert windows + ([raw] + rest) == (windows + [raw]) + rest;
  }

  /** A stop (cleared flag or short read) leaves no windows to come. */
  lemma ReadSoFarEnd(stream: seq<byte>, pos: nat, windows: seq<seq<byte>>, running: nat -> bool)
    requires ReadSoFar(stream, pos, windows, running)
    requires !running(|windows|) || Min(ChunkBytes, |stream| - pos) < MinBytes
    ensures windows == Windows(stream, HeaderBytes, running, 0)
  {
    assert Windows(stream, pos, running, |windows|) == [];
    assert windows + [] == windows;
  }
}
