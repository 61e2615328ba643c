/**
 * The broadcast hub: the set of connected viewers and the bounded replay
 * buffer `recent_lines` that late joiners receive first.
 */
module Broadcast {
  import opened Protocol

  /** `MAX_RECENT`. */
  const MaxRecent: nat := 500

  /** A viewer's WebSocket, identified by an opaque handle. */
  type ViewerId = nat

  /**
   * The viewers whose send fails during a producer's `n`-th broadcast, when
   * `failures[n]` lists them for the broadcasts it covers and every later
   * send succeeds.
   */
  function FailedAt(failures: seq<set<ViewerId>>, n: nat): set<ViewerId> {
    if n < |failures| then failures[n] else {}
  }

  /** The viewers dropped by the broadcasts numbered `lo` up to `hi`. */
  function Dropped(failures: seq<set<ViewerId>>, lo: nat, hi: nat): set<ViewerId> {
    set n, v | lo <= n < hi && n < |failures| && v in failures[n] :: v
  }

  /** A viewer is dropped exactly when its send fails during one of the broadcasts. */
  lemma DroppedIff(failures: seq<set<ViewerId>>, lo: nat, hi: nat, v: ViewerId)
    ensures v in Dropped(failures, lo, hi) <==> exists n :: lo <= n < hi && v in FailedAt(failures, n)
  {
    if v in Dropped(failures, lo, hi) {
      var n :| lo <= n < hi && n < |failures| && v in failures[n];
      assert v in FailedAt(failures, n);
    }
    if exists n :: lo <= n < hi && v in FailedAt(failures, n) {
      var n :| lo <= n < hi && v in FailedAt(failures, n);
      assert n < |failures| && v in failures[n];
    }
  }

  /** Dropping the viewers of one more broadcast from what is left of `vs`. */
  lemma DroppedNext(vs: set<ViewerId>, failures: seq<set<ViewerId>>, lo: nat, hi: nat)
    requires lo <= hi
    ensures vs - Dropped(failures, lo, hi) - FailedAt(failures, hi) == vs - Dropped(failures, lo, hi + 1)
  {
  }

  /** Dropping the viewers of a second run from what the first run left of `vs`. */
  lemma DroppedThen(vs: set<ViewerId>, failures: seq<set<ViewerId>>, lo: nat, mid: nat, hi: nat)
    requires lo <= mid <= hi
    ensures vs - Dropped(failures, lo, mid) - Dropped(failures, mid, hi) == vs - Dropped(failures, lo, hi)
  {
    DroppedSplit(failures, lo, mid, hi);
  }

  /** The broadcasts of two consecutive runs drop the viewers of the whole run. */
  lemma DroppedSplit(failures: seq<set<ViewerId>>, lo: nat, mid: nat, hi: nat)
    requires lo <= mid <= hi
    ensures Dropped(failures, lo, mid) + Dropped(failures, mid, hi) == Dropped(failures, lo, hi)
  {
  }

  /** The `final` messages of a history, in arrival order. */
  function Finals(history: seq<Msg>): seq<Msg> {
    if history == [] then []
    else
      var last := history[|history| - 1];
      Finals(history[..|history| - 1]) + if last.kind == Final then [last] else []
  }

  /** The last `n` elements of `s` (all of them when there are fewer). */
  function LastN<T>(s: seq<T>, n: nat): seq<T> {
    if |s| <= n then s else s[|s| - n..]
  }

  /** Only `final` messages are kept, and no more of them than the history holds. */
  lemma {:induction false} FinalsShape(history: seq<Msg>)
    ensures var r := Finals(history);
      |r| <= |history| && forall k :: 0 <= k < |r| ==> r[k].kind == Final
  {
    if history != [] {
      FinalsShape(history[..|history| - 1]);
    }
  }

  /** `LastN(s, n)` is the suffix of `s` of length `min(n, |s|)`. */
  lemma LastNShape<T>(s: seq<T>, n: nat)
    ensures var r := LastN(s, n);
      && |r| <= n && |r| <= |s|
      && (|s| <= n ==> r == s)
      && (|s| > n ==> |r| == n)
      && r == s[|s| - |r|..]
  {
  }

  /**
   * What `broadcast` does to `recent_lines`: a `final` message is appended and,
   * once the list holds more than `MAX_RECENT` entries, the oldest is dropped;
   * any other message leaves the list alone.
   */
  function Retain(lines: seq<Msg>, m: Msg): seq<Msg> {
    if m.kind != Final then lines
    else
      var grown := lines + [m];
      if |grown| > MaxRecent then grown[1..] else grown
  }

  /** The buffer successive broadcasts of `history` leave behind, starting from an empty one. */
  function Recent(history: seq<Msg>): seq<Msg> {
    if history == [] then [] else Retain(Recent(history[..|history| - 1]), history[|history| - 1])
  }

  /** Appending to the last `n` elements and trimming back to `n` keeps the last `n`. */
  lemma LastNAppend<T>(s: seq<T>, x: T, n: nat)
    requires n >= 1
    ensures var g := LastN(s, n) + [x];
      (if |g| > n then g[1..] else g) == LastN(s + [x], n)
  {
    var g := LastN(s, n) + [x];
    if |s| > n {
      assert g == s[|s| - n..] + [x];
      assert g[1..] == (s + [x])[|s| + 1 - n..];
    } else if |s| == n {
      assert g == s + [x];
    }
  }

  /**
   * Applying `Retain` to the last `MAX_RECENT` finals of a history gives the
   * last `MAX_RECENT` finals of the history extended by the new message.
   */
  lemma RetainKeepsLastFinals(history: seq<Msg>, m: Msg)
    ensures Retain(LastN(Finals(history), MaxRecent), m) == LastN(Finals(history + [m]), MaxRecent)
  {
    assert (history + [m])[..|history|] == history;
    var f := Finals(history);
    if m.kind == Final {
      assert Finals(history + [m]) == f + [m];
      LastNAppend(f, m, MaxRecent);
    } else {
      assert Finals(history + [m]) == f;
    }
  }

  /** Interim messages never reach the replay buffer. */
  lemma InterimNotRetained(lines: seq<Msg>, m: Msg)
    requires m.kind == Interim
    ensures Retain(lines, m) == lines
  {
  }

  /** Status lines are `final` messages, so they are replayed to late joiners. */
  lemma StatusRetained(lines: seq<Msg>, text: string, clock: string)
    ensures var r := Retain(lines, StatusMsg(text, clock));
      r != [] && r[|r| - 1] == StatusMsg(text, clock)
  {
  }

  /** A history made only of `final` messages is its own list of finals. */
  lemma {:induction false} FinalsOfFinals(history: seq<Msg>)
    requires forall k :: 0 <= k < |history| ==> history[k].kind == Final
    ensures Finals(history) == history
  {
    if history != [] {
      FinalsOfFinals(history[..|history| - 1]);
    }
  }

  /** The last `MAX_RECENT` finals of any history are at most `MAX_RECENT` `final` messages. */
  lemma RecentFinals(history: seq<Msg>)
    ensures var r := LastN(Finals(history), MaxRecent);
      |r| <= MaxRecent && forall k :: 0 <= k < |r| ==> r[k].kind == Final
  {
    var f := Finals(history);
    FinalsShape(history);
    if |f| > MaxRecent {
      var r := f[|f| - MaxRecent..];
      forall k | 0 <= k < |r| ensures r[k].kind == Final {
        assert r[k] == f[|f| - MaxRecent + k];
      }
    }
  }

  /** The buffer is always the last `MAX_RECENT` finals of the history, in arrival order. */
  lemma {:induction false} RecentIsLastFinals(history: seq<Msg>)
    ensures Recent(history) == LastN(Finals(history), MaxRecent)
  {
    if history != [] {
      var init, m := history[..|history| - 1], history[|history| - 1];
      RecentIsLastFinals(init);
      assert init + [m] == history;
      RetainKeepsLastFinals(init, m);
    }
  }

  /** After 501 `final` messages the buffer holds messages 2 to 501, in arrival order. */
  lemma EvictsOldest(history: seq<Msg>)
    requires |history| == MaxRecent + 1
    requires forall k :: 0 <= k < |history| ==> history[k].kind == Final
    ensures LastN(Finals(history), MaxRecent) == history[1..]
  {
    FinalsOfFinals(history);
  }

  class Hub {
    /** `recent_lines`. */
    var lines: seq<Msg>
    /** `viewers`. */
    var viewers: set<ViewerId>
    /** Every message passed to `broadcast` so far, in call order. */
    ghost var history: seq<Msg>

    /** The replay buffer is always the last `MAX_RECENT` finals ever broadcast, in arrival order. */
    ghost predicate Valid()
      reads this
    {
      lines == Recent(history)
    }

    /** The buffer a valid hub holds is short and made only of `final` messages. */
    lemma BufferShape()
      requires Valid()
      ensures |lines| <= MaxRecent
      ensures forall k :: 0 <= k < |lines| ==> lines[k].kind == Final
    {
      RecentIsLastFinals(history);
      RecentFinals(history);
    }

    /** The server's start state: no viewer, nothing to replay. */
    constructor ()
      ensures Valid() && lines == [] && viewers == {} && history == []
    {
      lines := [];
      viewers := {};
      history := [];
    }

    /**
     * `broadcast(data)`: record a `final` message for replay, then try every
     * viewer present when the call began (`FanOut`). `failed` are the viewers
     * whose send raises; each of them is dropped, every other one receives the
     * message and stays, and none is added.
     */
    method Broadcast(m: Msg, failed: set<ViewerId>) returns (delivered: set<ViewerId>)
      requires Valid()
      modifies this
      ensures Valid() && history == old(history) + [m]
      ensures lines == Retain(old(lines), m)
      ensures delivered == old(viewers) - failed
      ensures viewers == old(viewers) - failed
    {
      assert (history + [m])[..|history|] == history;
      history := history + [m];
      if m.kind == Final {
        lines := lines + [m];
        if |lines| > MaxRecent {
          lines := lines[1..];
        }
      }

      var attempts;
      attempts, delivered := FanOut(failed);
    }

    /**
     * Several `broadcast` calls in a row, one per line of `ms` in order: the
     * `k`-th of them is the producer's line number `base + k`, and the sends
     * to `FailedAt(failures, base + k)` fail during it.
     */
    method BroadcastEach(ms: seq<Msg>, failures: seq<set<ViewerId>>, base: nat)
      requires Valid()
      modifies this
      ensures Valid() && history == old(history) + ms
      ensures viewers == old(viewers) - Dropped(failures, base, base + |ms|)
    {
      for j := 0 to |ms|
        invariant Valid() && history == old(history) + ms[..j]
        invariant viewers == old(viewers) - Dropped(failures, base, base + j)
      {
        var _ := Broadcast(ms[j], FailedAt(failures, base + j));
        DroppedNext(old(viewers), failures, base, base + j);
        assert ms[..j + 1] == ms[..j] + [ms[j]];
        assert old(history) + ms[..j + 1] == old(history) + ms[..j] + [ms[j]];
      }
      assert ms[..|ms|] == ms;
    }

    /**
     * The `for v in list(viewers)` loop of `broadcast`: `attempts` lists the
     * viewers tried, each viewer present at the start exactly once; one
     * failure does not stop the others from being tried.
     */
    method FanOut(failed: set<ViewerId>) returns (attempts: seq<ViewerId>, delivered: set<ViewerId>)
      modifies this`viewers
      ensures forall v :: v in attempts <==> v in old(viewers)
      ensures forall i, j :: 0 <= i < j < |attempts| ==> attempts[i] != attempts[j]
      ensures delivered == old(viewers) - failed
      ensures viewers == old(viewers) - failed
    {
      var pending := viewers;
      ghost var done: set<ViewerId> := {};
      attempts, delivered := [], {};
      while pending != {}
        invariant done + pending == old(viewers) && done !! pending
        invariant forall v :: v in attempts <==> v in done
        invariant forall i, j :: 0 <= i < j < |attempts| ==> attempts[i] != attempts[j]
        invariant delivered == done - failed
        invariant viewers == old(viewers) - done * failed
        decreases pending
      {
        var v :| v in pending;
        assert v !in attempts;
        attempts := attempts + [v];
        if v in failed {
          viewers := viewers - {v};
        } else {
          delivered := delivered + {v};
        }
        pending := pending - {v};
        done := done + {v};
      }
    }

    /**
     * A viewer connects: it joins the set, then the buffer is sent to it in
     * order. `failsAt` are the positions whose send raises; the replay stops
     * at the first of them and the viewer stays registered.
     */
    method Join(v: ViewerId, failsAt: set<nat>) returns (replayed: seq<Msg>)
      requires Valid()
      modifies this
      ensures Valid() && lines == old(lines) && history == old(history)
      ensures viewers == old(viewers) + {v}
      ensures |replayed| <= |lines| && replayed == lines[..|replayed|]
      ensures forall i :: 0 <= i < |replayed| ==> i !in failsAt
      ensures |replayed| < |lines| ==> |replayed| in failsAt
    {
      viewers := viewers + {v};
      replayed := [];
      var i := 0;
      while i < |lines|
        invariant i <= |lines| && replayed == lines[..i]
        invariant forall k :: 0 <= k < i ==> k !in failsAt
      {
        if i in failsAt {
          break;
        }
        replayed := replayed + [lines[i]];
        i := i + 1;
      }
    }

    /** A viewer's connection ends: `viewers.discard(ws_resp)`. */
    method Leave(v: ViewerId)
      requires Valid()
      modifies this
      ensures Valid() && lines == old(lines) && history == old(history)
      ensures viewers == old(viewers) - {v}
    {
      viewers := viewers - {v};
    }
  }
}
