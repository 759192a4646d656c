/** Transfer telemetry of app/server/src/metrics.rs: running totals and a pruned, capped ring that
    must answer for the recent window as the full history would. */
module Metrics {

  const RECENT_WINDOW_MS: int := 5 * 60 * 1000
  const RECENT_CAP: nat := 512

  datatype Sample = Sample(atMs: int, bytes: nat, millis: nat, upload: bool)

  datatype FlowView = FlowView(transfers: nat, bytes: nat, millis: nat, recentBytes: nat, recentMillis: nat)

  datatype ActivityView = ActivityView(sinceMs: int, recentWindowMs: int, uploads: FlowView, downloads: FlowView)

  // ---------------------------------------------------------- sums over a history ---

  /** What the samples of one direction at or after an instant add up to. */
  datatype Sum = Sum(bytes: nat, millis: nat) {
    function Plus(other: Sum): Sum {
      Sum(bytes + other.bytes, millis + other.millis)
    }
  }

  function One(s: Sample, upload: bool, from: int): Sum {
    if s.upload == upload && s.atMs >= from then Sum(s.bytes, s.millis) else Sum(0, 0)
  }

  function SumFrom(h: seq<Sample>, upload: bool, from: int): Sum {
    if h == [] then Sum(0, 0)
    else SumFrom(h[..|h| - 1], upload, from).Plus(One(h[|h| - 1], upload, from))
  }

  /** The same without a time limit. */
  function SumAll(h: seq<Sample>, upload: bool): Sum {
    if h == [] then Sum(0, 0)
    else
      var last := h[|h| - 1];
      SumAll(h[..|h| - 1], upload).Plus(if last.upload == upload then Sum(last.bytes, last.millis) else Sum(0, 0))
  }

  function Newest(h: seq<Sample>): seq<Sample> {
    if |h| <= RECENT_CAP then h else h[|h| - RECENT_CAP..]
  }

  /** What a snapshot must report as recent: of the last RECENT_CAP samples ever recorded, those
      inside the window. */
  function Recent(h: seq<Sample>, upload: bool, now: int): Sum {
    SumFrom(Newest(h), upload, now - RECENT_WINDOW_MS)
  }

  lemma {:induction false} SumConcat(a: seq<Sample>, b: seq<Sample>, upload: bool, from: int)
    ensures SumFrom(a + b, upload, from) == SumFrom(a, upload, from).Plus(SumFrom(b, upload, from))
    decreases |b|
  {
    if b == [] {
      assert a + b == a;
    } else {
      SumConcat(a, b[..|b| - 1], upload, from);
      assert (a + b)[..|a + b| - 1] == a + b[..|b| - 1];
    }
  }

  lemma {:induction false} SumStep(h: seq<Sample>, upload: bool, from: int)
    requires h != []
    ensures SumFrom(h, upload, from)
         == SumFrom(h[..|h| - 1], upload, from).Plus(One(h[|h| - 1], upload, from))
  {
  }

  lemma {:induction false} SumNothing(upload: bool, from: int)
    ensures SumFrom([], upload, from) == Sum(0, 0)
  {
  }

  lemma {:induction false} SumOld(h: seq<Sample>, upload: bool, from: int)
    requires AllBefore(h, from)
    ensures SumFrom(h, upload, from) == Sum(0, 0)
    decreases |h|
  {
    hide SumFrom;
    if h == [] {
      SumNothing(upload, from);
    } else {
      BeforeInit(h, from);
      hide AllBefore;
      SumOld(h[..|h| - 1], upload, from);
      SumStep(h, upload, from);
    }
  }

  predicate AllBefore(h: seq<Sample>, from: int) {
    forall i :: 0 <= i < |h| ==> h[i].atMs < from
  }

  lemma BeforeInit(h: seq<Sample>, from: int)
    requires h != [] && AllBefore(h, from)
    ensures AllBefore(h[..|h| - 1], from) && h[|h| - 1].atMs < from
  {
  }

  lemma {:induction false} SumAllSnoc(h: seq<Sample>, s: Sample, upload: bool)
    ensures SumAll(h + [s], upload)
         == SumAll(h, upload).Plus(if s.upload == upload then Sum(s.bytes, s.millis) else Sum(0, 0))
  {
    assert (h + [s])[..|h|] == h;
  }

  /** Recent sums, sample by sample: one more sample counts if it is of that direction and not older than the
      window, and beyond RECENT_CAP samples the oldest is forgotten. */
  lemma {:induction false} RecentExactly(h: seq<Sample>, s: Sample, upload: bool, now: int)
    ensures Recent([], upload, now) == Sum(0, 0)
    ensures |h| < RECENT_CAP ==>
              Recent(h + [s], upload, now)
              == Recent(h, upload, now).Plus(if s.upload == upload && now - s.atMs <= RECENT_WINDOW_MS
                                             then Sum(s.bytes, s.millis) else Sum(0, 0))
    ensures |h| >= RECENT_CAP ==> Recent(h + [s], upload, now) == Recent(h[1..] + [s], upload, now)
  {
    assert (h + [s])[..|h|] == h;
    assert |h| == RECENT_CAP ==> Newest(h + [s]) == h[1..] + [s];
    assert |h| > RECENT_CAP ==> Newest(h + [s]) == Newest(h[1..] + [s]);
  }

  lemma {:induction false} SumFresh(h: seq<Sample>, upload: bool, from: int)
    requires forall i :: 0 <= i < |h| ==> h[i].atMs >= from
    ensures SumFrom(h, upload, from) == SumAll(h, upload)
    decreases |h|
  {
    if h != [] {
      SumFresh(h[..|h| - 1], upload, from);
    }
  }

  predicate Sorted(h: seq<Sample>) {
    forall i, j :: 0 <= i <= j < |h| ==> h[i].atMs <= h[j].atMs
  }

  // -------------------------------------------------------------------- the ring ---

  /** The ring is the tail of the history from which only samples outside the last RECENT_CAP or
      older than the window have been dropped. */
  ghost predicate RingOk(ring: seq<Sample>, h: seq<Sample>, clock: int) {
    && |ring| <= RECENT_CAP && |ring| <= |h|
    && ring == h[|h| - |ring|..]
    && Sorted(h) && (h != [] ==> h[|h| - 1].atMs <= clock)
    && forall i :: 0 <= i < |h| - |ring| && |h| - i <= RECENT_CAP ==> h[i].atMs < clock - RECENT_WINDOW_MS
  }

  function Pushed(ring: seq<Sample>, s: Sample): seq<Sample> {
    (if |ring| == RECENT_CAP then ring[1..] else ring) + [s]
  }

  lemma PushKeeps(ring: seq<Sample>, h: seq<Sample>, clock: int, s: Sample)
    requires RingOk(ring, h, clock) && clock <= s.atMs
    ensures RingOk(Pushed(ring, s), h + [s], s.atMs)
  {
    var ring', h' := Pushed(ring, s), h + [s];
    assert forall i :: 0 <= i < |h| ==> h'[i] == h[i];
    assert ring' == h'[|h'| - |ring'|..];
  }

  /** What the ring lacks of the newest samples has left the window. */
  lemma MissingIsOld(ring: seq<Sample>, h: seq<Sample>, now: int)
    requires RingOk(ring, h, now)
    ensures |ring| <= |Newest(h)| && Newest(h)[|Newest(h)| - |ring|..] == ring
    ensures AllBefore(Newest(h)[..|Newest(h)| - |ring|], now - RECENT_WINDOW_MS)
  {
    var newest := Newest(h);
    var front := newest[..|newest| - |ring|];
    forall i | 0 <= i < |front| ensures front[i].atMs < now - RECENT_WINDOW_MS {
      assert front[i] == h[|h| - |newest| + i];
    }
  }

  lemma FrontIsOldest(ring: seq<Sample>, h: seq<Sample>, now: int, from: int)
    requires RingOk(ring, h, now) && (ring != [] ==> ring[0].atMs >= from)
    ensures forall i :: 0 <= i < |ring| ==> ring[i].atMs >= from
  {
    forall i | 0 <= i < |ring| ensures ring[i].atMs >= from {
      assert ring[i] == h[|h| - |ring| + i] && ring[0] == h[|h| - |ring|];
    }
  }

  /** A pruned ring answers as the history does. */
  lemma {:induction false} PrunedAnswers(ring: seq<Sample>, h: seq<Sample>, now: int, upload: bool)
    requires RingOk(ring, h, now)
    requires ring != [] ==> ring[0].atMs >= now - RECENT_WINDOW_MS
    ensures SumAll(ring, upload) == Recent(h, upload, now)
  {
    hide RingOk, SumFrom, SumAll, AllBefore, Newest;
    var from := now - RECENT_WINDOW_MS;
    var newest := Newest(h);
    MissingIsOld(ring, h, now);
    FrontIsOldest(ring, h, now, from);
    var front := newest[..|newest| - |ring|];
    assert newest == front + ring;
    SumConcat(front, ring, upload, from);
    SumOld(front, upload, from);
    SumFresh(ring, upload, from);
  }

  /** Dropping a front sample that has left the window keeps the ring sound at that instant. */
  lemma PruneKeeps(ring: seq<Sample>, h: seq<Sample>, now: int)
    requires RingOk(ring, h, now) && ring != [] && ring[0].atMs < now - RECENT_WINDOW_MS
    ensures RingOk(ring[1..], h, now)
  {
    assert ring[0] == h[|h| - |ring|];
    assert ring[1..] == h[|h| - |ring[1..]|..];
  }

  lemma LaterKeeps(ring: seq<Sample>, h: seq<Sample>, clock: int, now: int)
    requires RingOk(ring, h, clock) && clock <= now
    ensures RingOk(ring, h, now)
  {
  }

  // ------------------------------------------------------------------ the counters ---

  class TransferMetrics {
    const startedMs: int
    var upTransfers: nat
    var upBytes: nat
    var upMillis: nat
    var downTransfers: nat
    var downBytes: nat
    var downMillis: nat
    var recent: seq<Sample>
    /** Every sample ever recorded, and the latest instant seen. */
    ghost var history: seq<Sample>
    ghost var clock: int

    ghost predicate Valid()
      reads this
    {
      && RingOk(recent, history, clock)
      && Sum(upBytes, upMillis) == SumAll(history, true)
      && Sum(downBytes, downMillis) == SumAll(history, false)
    }

    constructor (now: int)
      ensures Valid() && history == [] && clock == now && startedMs == now
      ensures upTransfers == downTransfers == 0
    {
      startedMs := now;
      upTransfers, upBytes, upMillis := 0, 0, 0;
      downTransfers, downBytes, downMillis := 0, 0, 0;
      recent, history, clock := [], [], now;
    }

    method UploadCompleted()
      requires Valid()
      modifies this`upTransfers
      ensures Valid() && upTransfers == old(upTransfers) + 1
    {
      upTransfers := upTransfers + 1;
    }

    method RecordDownload(now: int, bytes: nat, millis: nat)
      requires Valid() && clock <= now
      modifies this
      ensures Valid() && history == old(history) + [Sample(now, bytes, millis, false)] && clock == now
      ensures downTransfers == old(downTransfers) + 1 && upTransfers == old(upTransfers)
    {
      hide RingOk, SumAll;
      downTransfers := downTransfers + 1;
      Record(now, false, bytes, millis);
    }

    /** Bump the totals; push onto the ring, dropping the oldest sample of a full one. */
    method Record(atMs: int, upload: bool, bytes: nat, millis: nat)
      requires Valid() && clock <= atMs
      modifies this
      ensures Valid() && history == old(history) + [Sample(atMs, bytes, millis, upload)] && clock == atMs
      ensures upTransfers == old(upTransfers) && downTransfers == old(downTransfers)
    {
      hide RingOk, SumAll, Newest, Recent, Pushed;
      var s := Sample(atMs, bytes, millis, upload);
      if upload {
        upBytes, upMillis := upBytes + bytes, upMillis + millis;
      } else {
        downBytes, downMillis := downBytes + bytes, downMillis + millis;
      }
      PushKeeps(recent, history, clock, s);
      Push(s);
      SumAllSnoc(history, s, true);
      SumAllSnoc(history, s, false);
      history := history + [s];
      clock := atMs;
    }

    method Push(s: Sample)
      modifies this`recent
      ensures recent == Pushed(old(recent), s)
    {
      if |recent| == RECENT_CAP {
        recent := recent[1..];
      }
      recent := recent + [s];
    }

    /** Prune what has left the window, then add up what is left, per direction. */
    method SnapshotAt(now: int) returns (v: ActivityView)
      requires Valid() && clock <= now
      modifies this`recent, this`clock
      ensures Valid() && clock == now
      ensures v.sinceMs == startedMs && v.recentWindowMs == RECENT_WINDOW_MS
      ensures v.uploads == FlowView(upTransfers, SumAll(history, true).bytes, SumAll(history, true).millis,
                                    Recent(history, true, now).bytes, Recent(history, true, now).millis)
      ensures v.downloads == FlowView(downTransfers, SumAll(history, false).bytes, SumAll(history, false).millis,
                                      Recent(history, false, now).bytes, Recent(history, false, now).millis)
    {
      hide RingOk, Recent;
      LaterKeeps(recent, history, clock, now);
      clock := now;
      var horizon := now - RECENT_WINDOW_MS;
      while recent != [] && recent[0].atMs < horizon
        invariant Valid() && clock == now
        decreases |recent|
      {
        PruneKeeps(recent, history, now);
        recent := recent[1..];
      }
      var up, down := Sum(0, 0), Sum(0, 0);
      var i := 0;
      while i < |recent|
        invariant 0 <= i <= |recent|
        invariant up == SumAll(recent[..i], true) && down == SumAll(recent[..i], false)
      {
        var s := recent[i];
        assert recent[..i + 1][..i] == recent[..i];
        if s.upload {
          up := up.Plus(Sum(s.bytes, s.millis));
        } else {
          down := down.Plus(Sum(s.bytes, s.millis));
        }
        i := i + 1;
      }
      assert recent[..i] == recent;
      PrunedAnswers(recent, history, now, true);
      PrunedAnswers(recent, history, now, false);
      v := ActivityView(startedMs, RECENT_WINDOW_MS,
                        FlowView(upTransfers, upBytes, upMillis, up.bytes, up.millis),
                        FlowView(downTransfers, downBytes, downMillis, down.bytes, down.millis));
    }
  }
}
