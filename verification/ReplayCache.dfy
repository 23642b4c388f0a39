/**
 The replay cache: a ring of sixteen message ids. Against the history of recorded ids it is an exact
 sliding window, from which follows what duplicates can and cannot pass.
 */
module ReplayCache {
  import opened Basics
  import opened MeshTypes

  const REPLAY_CACHE_SIZE: nat := 16

  datatype ReplayId = ReplayId(mac: Mac, epoch: uint32, seqNum: uint16)

  const BLANK_ID: ReplayId := ReplayId(ZERO_MAC, 0, 0)

  function IdOf(m: MeshMsg): ReplayId {
    ReplayId(m.origin, m.epochNum, m.seqNum)
  }

  /** The most recent ids, at most sixteen. */
  function Window(history: seq<ReplayId>): (w: seq<ReplayId>)
    ensures |w| <= REPLAY_CACHE_SIZE
  {
    if |history| <= REPLAY_CACHE_SIZE then history else history[|history| - REPLAY_CACHE_SIZE..]
  }

  /** The history after an id has been looked up: repeated ids leave it alone. */
  function Recorded(history: seq<ReplayId>, id: ReplayId): seq<ReplayId> {
    if id in Window(history) then history else history + [id]
  }

  /** The ids of the checked messages among `ids`, recorded in turn. */
  function RecordAll(history: seq<ReplayId>, ids: seq<ReplayId>): seq<ReplayId>
    decreases |ids|
  {
    if ids == [] then history else RecordAll(Recorded(history, ids[0]), ids[1..])
  }

  /** Any seventeen ids recorded in a row are distinct. */
  ghost predicate Spread(history: seq<ReplayId>) {
    forall i, j | 0 <= i < j < |history| && j - i <= 16 :: history[i] != history[j]
  }

  lemma RecentInWindow(history: seq<ReplayId>, i: nat)
    requires i < |history| <= i + REPLAY_CACHE_SIZE
    ensures history[i] in Window(history)
  {
    var w := Window(history);
    assert w[i - (|history| - |w|)] == history[i];
  }

  lemma RecordedKeepsSpread(history: seq<ReplayId>, id: ReplayId)
    requires Spread(history)
    ensures Spread(Recorded(history, id))
  {
    hide Window;
    if id !in Window(history) {
      forall i | 0 <= i < |history| <= i + REPLAY_CACHE_SIZE ensures history[i] != id {
        RecentInWindow(history, i);
      }
    }
  }

  lemma {:induction false} RunsKeepSpread(history: seq<ReplayId>, ids: seq<ReplayId>)
    requires Spread(history)
    ensures Spread(RecordAll(history, ids))
    decreases |ids|
  {
    if ids != [] {
      RecordedKeepsSpread(history, ids[0]);
      RunsKeepSpread(Recorded(history, ids[0]), ids[1..]);
    }
  }

  /** In any run from power-up, an id is recorded twice only with sixteen other, different ids between. */
  lemma RepeatNeedsSixteenOthers(ids: seq<ReplayId>, i: nat, j: nat)
    requires var h := RecordAll([], ids); i < j < |h| && h[i] == h[j]
    ensures var h := RecordAll([], ids);
            && j - i > 16
            && var between := h[i + 1..j];
               h[i] !in between[..16] && |set id | id in between[..16]| == 16
  {
    RunsKeepSpread([], ids);
    var h := RecordAll([], ids);
    var next := h[i + 1..j][..REPLAY_CACHE_SIZE];
    assert forall k | 0 <= k < |next| :: next[k] == h[i + 1 + k];
    DistinctCount(next);
  }

  lemma {:induction false} DistinctCount(s: seq<ReplayId>)
    requires forall i, j | 0 <= i < j < |s| :: s[i] != s[j]
    ensures |set id | id in s| == |s|
  {
    if s != [] {
      DistinctCount(s[1..]);
      assert (set id | id in s) == (set id | id in s[1..]) + {s[0]};
    }
  }

  /** Slot `i` holds the last id recorded at a position congruent to `i`, or is still blank. */
  ghost predicate Mirrors(slots: seq<ReplayId>, history: seq<ReplayId>) {
    && |slots| == REPLAY_CACHE_SIZE
    && (forall i | 0 <= i < |history| && |history| - REPLAY_CACHE_SIZE <= i ::
          slots[i % REPLAY_CACHE_SIZE] == history[i])
    && (forall i | |history| <= i < REPLAY_CACHE_SIZE :: slots[i] == BLANK_ID)
  }

  lemma RecordMirrors(slots: seq<ReplayId>, history: seq<ReplayId>, id: ReplayId)
    requires Mirrors(slots, history)
    ensures Mirrors(slots[|history| % REPLAY_CACHE_SIZE := id], history + [id])
  {
  }

  /** The slots are the window, with blanks while fewer than sixteen ids have been recorded. */
  lemma SlotsAreWindow(slots: seq<ReplayId>, history: seq<ReplayId>, id: ReplayId)
    requires Mirrors(slots, history)
    ensures id in slots <==> id in Window(history) || (id == BLANK_ID && |history| < REPLAY_CACHE_SIZE)
  {
    var w, n := Window(history), |history|;
    if id in w {
      var j :| 0 <= j < |w| && w[j] == id;
      assert slots[(j + n - |w|) % REPLAY_CACHE_SIZE] == history[j + n - |w|];
    } else if id in slots {
      var i :| 0 <= i < REPLAY_CACHE_SIZE && slots[i] == id;
      SlotOrigin(slots, history, i);
    } else if n < REPLAY_CACHE_SIZE {
      assert slots[REPLAY_CACHE_SIZE - 1] == BLANK_ID;
    }
  }

  lemma SlotOrigin(slots: seq<ReplayId>, history: seq<ReplayId>, i: nat)
    requires Mirrors(slots, history) && i < REPLAY_CACHE_SIZE
    ensures slots[i] in Window(history) || (slots[i] == BLANK_ID && |history| < REPLAY_CACHE_SIZE)
  {
    var n := |history|;
    if n > REPLAY_CACHE_SIZE {
      // The largest position below n that is congruent to i.
      var k := n - 1 - (n - 1 - i) % REPLAY_CACHE_SIZE;
      assert k % REPLAY_CACHE_SIZE == i;
      RecentInWindow(history, k);
    } else if i < n {
      assert slots[i % REPLAY_CACHE_SIZE] == history[i];
      RecentInWindow(history, i);
    }
  }

  class Cache {
    const replayCache: array<ReplayId>
    var replayCacheIdx: nat
    ghost var history: seq<ReplayId>

    ghost predicate Valid()
      reads this, replayCache
    {
      replayCacheIdx == |history| % REPLAY_CACHE_SIZE && Mirrors(replayCache[..], history)
    }

    constructor ()
      ensures Valid() && history == [] && fresh(replayCache)
    {
      replayCache := new ReplayId[REPLAY_CACHE_SIZE](_ => BLANK_ID);
      replayCacheIdx := 0;
      history := [];
    }

    /** True exactly when the id is among the last sixteen recorded (or is the blank id while a slot is
        blank); otherwise the id is recorded. */
    method IsReplay(msg: MeshMsg) returns (replay: bool)
      requires Valid()
      modifies this, replayCache
      ensures Valid()
      ensures replay <==> IdOf(msg) in Window(old(history))
                          || (IdOf(msg) == BLANK_ID && |old(history)| < REPLAY_CACHE_SIZE)
      ensures history == if replay then old(history) else old(history) + [IdOf(msg)]
      ensures msg.epochNum > 0 ==> (replay <==> IdOf(msg) in Window(old(history)))
      ensures msg.epochNum > 0 ==> history == Recorded(old(history), IdOf(msg))
    {
      hide Window, Mirrors;
      var id := IdOf(msg);
      SlotsAreWindow(replayCache[..], history, id);
      MirrorsLength(replayCache[..], history);
      var i := 0;
      while i < REPLAY_CACHE_SIZE
        invariant 0 <= i <= REPLAY_CACHE_SIZE == replayCache.Length
        invariant forall j | 0 <= j < i :: replayCache[j] != id
      {
        if replayCache[i].mac == msg.origin && replayCache[i].epoch == msg.epochNum
           && replayCache[i].seqNum == msg.seqNum {
          assert replayCache[..][i] == id;
          return true;
        }
        i := i + 1;
      }
      assert id !in replayCache[..];
      RecordMirrors(replayCache[..], history, id);
      replayCache[replayCacheIdx] := id;
      history := history + [id];
      replayCacheIdx := (replayCacheIdx + 1) % REPLAY_CACHE_SIZE;
      replay := false;
    }

    static lemma MirrorsLength(slots: seq<ReplayId>, history: seq<ReplayId>)
      requires Mirrors(slots, history)
      ensures |slots| == REPLAY_CACHE_SIZE
    {
    }
  }
}
