/** What reaches a client: the live stream and the replay of the log, reduced to what both carry. */
module Delivery {
  import opened Wrappers
  import opened Events
  import opened LogModel
  import opened HubModel

  /** Everything of an envelope but its clock reading, which the log takes separately. */
  datatype Sig = Sig(seqNo: nat, target: Target, origin: Option<Wallet>, event: ServerEvent)

  function SigOf(env: Envelope): Sig {
    Sig(env.seqNo, env.target, env.origin, env.event)
  }

  function Sigs(envs: seq<Envelope>): seq<Sig> {
    if envs == [] then [] else Sigs(envs[..|envs| - 1]) + [SigOf(envs[|envs| - 1])]
  }

  /** The envelope a record stands for, if it is a fanned-out event at all. */
  function EnvelopeOf(rec: Record): Option<Envelope> {
    if rec.ServerEvent().Some? && rec.target.Some? then
      Some(Envelope(rec.seqNo, rec.atMs, rec.target.value, rec.origin, rec.ServerEvent().value))
    else None
  }

  function WireSigs(recs: seq<Record>): seq<Sig> {
    if recs == [] then []
    else
      var env := EnvelopeOf(recs[|recs| - 1]);
      WireSigs(recs[..|recs| - 1]) + if env.Some? then [SigOf(env.value)] else []
  }

  predicate Wants(view: ConnView, me: Wallet, env: Envelope) {
    env.event.IsReplayable() && view.Accepts(env, me)
  }

  /** The replayable events of a stretch of the stream that a connection accepts. */
  function Received(envs: seq<Envelope>, view: ConnView, me: Wallet): seq<Envelope> {
    if envs == [] then []
    else
      var last := envs[|envs| - 1];
      Received(envs[..|envs| - 1], view, me) + if Wants(view, me, last) then [last] else []
  }

  function Replayed(recs: seq<Record>, view: ConnView, me: Wallet): seq<Envelope> {
    if recs == [] then []
    else
      var env := EnvelopeOf(recs[|recs| - 1]);
      Replayed(recs[..|recs| - 1], view, me)
      + if env.Some? && Wants(view, me, env.value) then [env.value] else []
  }

  datatype ReplayError = CursorTooOld | LogFailed(error: LogError)

  /** `Hub::replay_since` over the retained files. */
  ghost function HubReplay(files: map<Day, DayFile>, cursor: nat, view: ConnView, me: Wallet, max: nat)
    : Result<seq<Envelope>, ReplayError>
  {
    var recs := TryReplay(files, cursor, max);
    if recs.Err? then Err(LogFailed(recs.error))
    else if recs.value.None? then Err(ReplayError.CursorTooOld)
    else Ok(Replayed(recs.value.value, view, me))
  }

  // -------------------------------------------------------------- distribution ---

  lemma {:induction false} WireSigsConcat(a: seq<Record>, b: seq<Record>)
    ensures WireSigs(a + b) == WireSigs(a) + WireSigs(b)
    decreases |b|
  {
    if b == [] {
      assert a + b == a;
    } else {
      WireSigsConcat(a, b[..|b| - 1]);
      assert (a + b)[..|a + b| - 1] == a + b[..|b| - 1];
    }
  }

  lemma {:induction false} SigsConcat(a: seq<Envelope>, b: seq<Envelope>)
    ensures Sigs(a + b) == Sigs(a) + Sigs(b)
    decreases |b|
  {
    if b == [] {
      assert a + b == a;
    } else {
      SigsConcat(a, b[..|b| - 1]);
      assert (a + b)[..|a + b| - 1] == a + b[..|b| - 1];
    }
  }

  lemma {:induction false} ReceivedConcat(a: seq<Envelope>, b: seq<Envelope>, view: ConnView, me: Wallet)
    ensures Received(a + b, view, me) == Received(a, view, me) + Received(b, view, me)
    decreases |b|
  {
    if b == [] {
      assert a + b == a;
    } else {
      ReceivedConcat(a, b[..|b| - 1], view, me);
      assert (a + b)[..|a + b| - 1] == a + b[..|b| - 1];
    }
  }

  function WireOf(rec: Record): seq<Sig> {
    var env := EnvelopeOf(rec);
    if env.Some? then [SigOf(env.value)] else []
  }

  lemma WireOne(rec: Record)
    ensures WireSigs([rec]) == WireOf(rec)
  {
    assert [rec][..0] == [];
    assert WireSigs([]) == [];
  }

  /** What one append contributes to the wire: its own event if it is one, and nothing for a
      rotation record. */
  lemma AppendWire(mem: Mem, clk: Clock, e: Entry)
    ensures WireSigs(Puts(AppendWrites(mem, clk, e))) == WireOf(Stamp(Rotated(mem, clk).nextSeq, clk.ms, e))
  {
    var rec := Stamp(Rotated(mem, clk).nextSeq, clk.ms, e);
    AppendPuts(mem, clk, e);
    WireOne(rec);
    if clk.day == mem.day {
      assert [] + [rec] == [rec];
    } else {
      WireSigsConcat([RotationRecord(mem, clk)], [rec]);
      WireOne(RotationRecord(mem, clk));
    }
  }

  // -------------------------------------------------------------------- filtering ---

  /** The part of a stretch that passes a test. */
  function Kept(sigs: seq<Sig>, keep: Sig -> bool): seq<Sig> {
    if sigs == [] then []
    else
      var last := sigs[|sigs| - 1];
      Kept(sigs[..|sigs| - 1], keep) + if keep(last) then [last] else []
  }

  /** Acceptance and replayability depend on nothing that the log does not keep. */
  function Carrier(s: Sig): Envelope {
    Envelope(s.seqNo, 0, s.target, s.origin, s.event)
  }

  function Wanting(view: ConnView, me: Wallet): Sig -> bool {
    s => Wants(view, me, Carrier(s))
  }

  function Accepting(view: ConnView, me: Wallet): Sig -> bool {
    s => view.Accepts(Carrier(s), me)
  }

  lemma {:induction false} SigsAt(envs: seq<Envelope>)
    ensures |Sigs(envs)| == |envs|
    ensures forall i :: 0 <= i < |envs| ==> Sigs(envs)[i] == SigOf(envs[i])
    decreases |envs|
  {
    if envs != [] {
      SigsAt(envs[..|envs| - 1]);
    }
  }

  lemma WantedAlike(view: ConnView, me: Wallet, env: Envelope)
    ensures Wants(view, me, env) <==> Wanting(view, me)(SigOf(env))
  {
  }

  lemma {:induction false} SigsSnoc(envs: seq<Envelope>, env: Envelope)
    ensures Sigs(envs + [env]) == Sigs(envs) + [SigOf(env)]
  {
    assert (envs + [env])[..|envs|] == envs;
  }

  lemma {:induction false} KeptSnoc(sigs: seq<Sig>, s: Sig, keep: Sig -> bool)
    ensures Kept(sigs + [s], keep) == Kept(sigs, keep) + if keep(s) then [s] else []
  {
    assert (sigs + [s])[..|sigs|] == sigs;
  }

  /** What a client receives and what it is replayed are the same filter on wire content. */
  lemma {:induction false} ReceivedKept(envs: seq<Envelope>, view: ConnView, me: Wallet)
    ensures Sigs(Received(envs, view, me)) == Kept(Sigs(envs), Wanting(view, me))
    decreases |envs|
  {
    hide Wants, Wanting;
    if envs != [] {
      var n := |envs| - 1;
      ReceivedKept(envs[..n], view, me);
      WantedAlike(view, me, envs[n]);
      KeptSnoc(Sigs(envs[..n]), SigOf(envs[n]), Wanting(view, me));
      var before := Received(envs[..n], view, me);
      SigsSnoc(before, envs[n]);
      assert before + [] == before && Sigs(before) + [] == Sigs(before);
    }
  }

  lemma {:induction false} ReplayedKept(recs: seq<Record>, view: ConnView, me: Wallet)
    ensures Sigs(Replayed(recs, view, me)) == Kept(WireSigs(recs), Wanting(view, me))
    decreases |recs|
  {
    hide Wants, Wanting, EnvelopeOf;
    if recs != [] {
      var n := |recs| - 1;
      var env := EnvelopeOf(recs[n]);
      ReplayedKept(recs[..n], view, me);
      var before := Replayed(recs[..n], view, me);
      assert WireSigs(recs[..n]) + [] == WireSigs(recs[..n]);
      assert before + [] == before && Sigs(before) + [] == Sigs(before);
      if env.Some? {
        WantedAlike(view, me, env.value);
        KeptSnoc(WireSigs(recs[..n]), SigOf(env.value), Wanting(view, me));
        SigsSnoc(before, env.value);
      }
    }
  }

  lemma {:induction false} ReplayedLikeReceived(recs: seq<Record>, envs: seq<Envelope>, view: ConnView, me: Wallet)
    requires WireSigs(recs) == Sigs(envs)
    ensures Sigs(Replayed(recs, view, me)) == Sigs(Received(envs, view, me))
  {
    ReceivedKept(envs, view, me);
    ReplayedKept(recs, view, me);
  }

  lemma {:induction false} KeptConcat(a: seq<Sig>, b: seq<Sig>, keep: Sig -> bool)
    ensures Kept(a + b, keep) == Kept(a, keep) + Kept(b, keep)
    decreases |b|
  {
    if b == [] {
      assert a + b == a;
    } else {
      KeptConcat(a, b[..|b| - 1], keep);
      assert (a + b)[..|a + b| - 1] == a + b[..|b| - 1];
    }
  }

  lemma {:induction false} KeptHas(sigs: seq<Sig>, keep: Sig -> bool, s: Sig)
    ensures s in Kept(sigs, keep) <==> s in sigs && keep(s)
    decreases |sigs|
  {
    if sigs != [] {
      var n := |sigs| - 1;
      KeptHas(sigs[..n], keep, s);
      assert s in sigs <==> s in sigs[..n] || s == sigs[n];
    }
  }

  // ------------------------------------------------------------------------ order ---

  predicate Rising(sigs: seq<Sig>) {
    forall i, j :: 0 <= i < j < |sigs| ==> sigs[i].seqNo < sigs[j].seqNo
  }

  lemma {:induction false} KeptRising(sigs: seq<Sig>, keep: Sig -> bool)
    requires Rising(sigs)
    ensures Rising(Kept(sigs, keep))
    decreases |sigs|
  {
    if sigs != [] {
      var n := |sigs| - 1;
      var init := Kept(sigs[..n], keep);
      KeptRising(sigs[..n], keep);
      forall i | 0 <= i < |init| ensures init[i].seqNo < sigs[n].seqNo {
        KeptHas(sigs[..n], keep, init[i]);
      }
    }
  }

  lemma RisingPart(a: seq<Sig>, b: seq<Sig>)
    requires Rising(a + b)
    ensures Rising(a) && Rising(b)
  {
    assert forall i :: 0 <= i < |a| ==> (a + b)[i] == a[i];
    assert forall i :: 0 <= i < |b| ==> (a + b)[|a| + i] == b[i];
  }

  lemma RisingAcross(a: seq<Sig>, b: seq<Sig>, x: Sig, y: Sig)
    requires Rising(a + b) && x in a && y in b
    ensures x.seqNo < y.seqNo
  {
    var i :| 0 <= i < |a| && a[i] == x;
    var j :| 0 <= j < |b| && b[j] == y;
    assert (a + b)[i] == x && (a + b)[|a| + j] == y;
  }

  lemma RisingJoin(a: seq<Sig>, b: seq<Sig>)
    requires Rising(a) && Rising(b) && forall x, y :: x in a && y in b ==> x.seqNo < y.seqNo
    ensures Rising(a + b)
  {
    forall i, j | 0 <= i < j < |a + b| ensures (a + b)[i].seqNo < (a + b)[j].seqNo {
      if i < |a| <= j {
        assert a[i] in a && b[j - |a|] in b;
      }
    }
  }

  lemma Repeats(sigs: seq<Sig>, i: nat, j: nat)
    requires i < j < |sigs| && sigs[i] == sigs[j]
    ensures !Rising(sigs)
  {
  }
}
