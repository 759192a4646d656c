/** The fixed-window limiter of app/server/src/ratelimit.rs, whose table is swept now and then. */
module RateLimit {
  import opened Wrappers
  import opened Text

  /** Instants and durations in nanoseconds. */
  const SECOND: int := 1_000_000_000
  const WINDOW: int := 60 * SECOND
  const SWEEP_THRESHOLD: nat := 10_000

  datatype Scope = General | Media | Upload | Challenge | Login | Webhook {
    function MaxPerMinute(): (m: nat)
      ensures m > 0
    {
      match this
      case General => 100
      case Media => 3_000
      case Upload => 1_200
      case Challenge => 10
      case Login => 5
      case Webhook => 60
    }
  }

  datatype Key = Key(scope: Scope, ip: string)

  datatype Window = Window(start: int, count: nat)

  datatype Verdict = Verdict(limit: nat, remaining: nat, reset: int, allowed: bool)

  /** `duration_since`: zero for an instant that is not later. */
  function Since(now: int, start: int): int {
    if now <= start then 0 else now - start
  }

  predicate Expired(w: Window, now: int) {
    Since(now, w.start) >= WINDOW
  }

  /** One request on a key's window: start it, restart it, or count on. */
  function Touch(w: Option<Window>, now: int): Window {
    if w.None? || Expired(w.value, now) then Window(now, 1) else w.value.(count := w.value.count + 1)
  }

  function VerdictOf(limit: nat, w: Window, now: int): Verdict {
    Verdict(limit,
            if w.count <= limit then limit - w.count else 0,
            (if Since(now, w.start) <= WINDOW then WINDOW - Since(now, w.start) else 0) / SECOND,
            w.count <= limit)
  }

  // ---------------------------------------------------------------- the limiter ---

  datatype Table = Table(windows: map<Key, Window>, checks: nat)

  function Lookup(windows: map<Key, Window>, k: Key): Option<Window> {
    if k in windows then Some(windows[k]) else None
  }

  function Live(windows: map<Key, Window>, now: int): map<Key, Window> {
    map k | k in windows && !Expired(windows[k], now) :: windows[k]
  }

  function Swept(t: Table, now: int): map<Key, Window> {
    if t.checks % 1024 == 0 && |t.windows| > SWEEP_THRESHOLD then Live(t.windows, now) else t.windows
  }

  function Checked(t: Table, k: Key, now: int): Table {
    var ws := Swept(t, now);
    Table(ws[k := Touch(Lookup(ws, k), now)], t.checks + 1)
  }

  class RateLimiter {
    const enabled: bool
    var windows: map<Key, Window>
    var checks: nat

    constructor (enabled: bool)
      ensures this.enabled == enabled && State() == Table(map[], 0)
    {
      this.enabled, windows, checks := enabled, map[], 0;
    }

    function State(): Table
      reads this
    {
      Table(windows, checks)
    }

    /** Bill one request of an address against one budget. */
    method CheckAt(scope: Scope, ip: string, now: int) returns (v: Verdict)
      modifies this
      ensures !enabled ==> State() == old(State())
                           && v == Verdict(scope.MaxPerMinute(), scope.MaxPerMinute(), 60, true)
      ensures enabled ==> State() == Checked(old(State()), Key(scope, ip), now)
                          && v == VerdictOf(scope.MaxPerMinute(), State().windows[Key(scope, ip)], now)
    {
      var limit := scope.MaxPerMinute();
      if !enabled {
        return Verdict(limit, limit, WINDOW / SECOND, true);
      }
      var ticket := checks;
      checks := checks + 1;
      if ticket % 1024 == 0 && |windows| > SWEEP_THRESHOLD {
        windows := Live(windows, now);
      }
      var key := Key(scope, ip);
      var entry := if key in windows then windows[key] else Window(now, 0);
      if Since(now, entry.start) >= WINDOW {
        entry := Window(now, 0);
      }
      entry := entry.(count := entry.count + 1);
      windows := windows[key := entry];
      var used, elapsed := entry.count, Since(now, entry.start);
      v := Verdict(limit,
                   if used <= limit then limit - used else 0,
                   (if elapsed <= WINDOW then WINDOW - elapsed else 0) / SECOND,
                   used <= limit);
    }
  }

  // ----------------------------------------------------------------------- runs ---

  datatype Request = Request(key: Key, now: int)

  predicate Clocked(trace: seq<Request>) {
    forall i, j :: 0 <= i <= j < |trace| ==> trace[i].now <= trace[j].now
  }

  function TableAfter(trace: seq<Request>): Table {
    if trace == [] then Table(map[], 0)
    else
      var last := trace[|trace| - 1];
      Checked(TableAfter(trace[..|trace| - 1]), last.key, last.now)
  }

  /** The window a limiter of one's own would have: it sees this key alone and never sweeps. */
  function Own(trace: seq<Request>, k: Key): Option<Window> {
    if trace == [] then None
    else
      var last := trace[|trace| - 1];
      var before := Own(trace[..|trace| - 1], k);
      if last.key == k then Some(Touch(before, last.now)) else before
  }

  /** The shared table agrees with the private windows, up to expired entries it has dropped. */
  ghost predicate Agrees(windows: map<Key, Window>, trace: seq<Request>, now: int) {
    forall k :: Lookup(windows, k) == Own(trace, k)
                || (k !in windows && Own(trace, k).Some? && Expired(Own(trace, k).value, now))
  }

  lemma AgreesSwept(t: Table, trace: seq<Request>, now: int)
    requires Agrees(t.windows, trace, now)
    ensures Agrees(Swept(t, now), trace, now)
  {
  }

  lemma {:induction false} TableAgrees(trace: seq<Request>, now: int)
    requires Clocked(trace) && (trace != [] ==> trace[|trace| - 1].now <= now)
    ensures Agrees(TableAfter(trace).windows, trace, now)
    decreases |trace|
  {
    if trace != [] {
      var init, last := trace[..|trace| - 1], trace[|trace| - 1];
      var t := TableAfter(init);
      TableAgrees(init, last.now);
      AgreesSwept(t, init, last.now);
      var ws := Swept(t, last.now);
      assert Touch(Lookup(ws, last.key), last.now) == Touch(Own(init, last.key), last.now);
      forall k
        ensures Lookup(TableAfter(trace).windows, k) == Own(trace, k)
                || (k !in TableAfter(trace).windows && Own(trace, k).Some? && Expired(Own(trace, k).value, now))
      {
        assert k != last.key ==> Lookup(TableAfter(trace).windows, k) == Lookup(ws, k);
      }
    }
  }

  /** Sweeping is invisible and keys do not affect each other: after any requests with a clock that
      does not go back, the next verdict is the one a private, never-swept limiter would give. */
  lemma {:induction false} SweepInvisible(trace: seq<Request>, next: Request)
    requires Clocked(trace + [next])
    ensures var shared := Checked(TableAfter(trace), next.key, next.now).windows[next.key];
            VerdictOf(next.key.scope.MaxPerMinute(), shared, next.now)
            == VerdictOf(next.key.scope.MaxPerMinute(), Touch(Own(trace, next.key), next.now), next.now)
  {
    var all := trace + [next];
    assert forall i :: 0 <= i < |trace| ==> all[i] == trace[i];
    assert all[|trace|] == next;
    TableAgrees(trace, next.now);
    AgreesSwept(TableAfter(trace), trace, next.now);
  }

  /** Only the requests of one key. */
  function Of(trace: seq<Request>, k: Key): seq<Request> {
    if trace == [] then []
    else
      var last := trace[|trace| - 1];
      Of(trace[..|trace| - 1], k) + if last.key == k then [last] else []
  }

  lemma {:induction false} OwnOfOwn(trace: seq<Request>, k: Key)
    ensures Own(trace, k) == Own(Of(trace, k), k)
    decreases |trace|
  {
    if trace != [] {
      var init, last := trace[..|trace| - 1], trace[|trace| - 1];
      OwnOfOwn(init, k);
      if last.key == k {
        assert (Of(init, k) + [last])[..|Of(init, k)|] == Of(init, k);
      } else {
        assert Of(trace, k) == Of(init, k);
      }
    }
  }

  /** Two runs with the same requests of a key give that key the same verdict next, whatever else
      they contain. */
  lemma {:induction false} OtherKeysInvisible(a: seq<Request>, b: seq<Request>, next: Request)
    requires Clocked(a + [next]) && Clocked(b + [next])
    requires Of(a, next.key) == Of(b, next.key)
    ensures VerdictOf(next.key.scope.MaxPerMinute(),
                      Checked(TableAfter(a), next.key, next.now).windows[next.key], next.now)
         == VerdictOf(next.key.scope.MaxPerMinute(),
                      Checked(TableAfter(b), next.key, next.now).windows[next.key], next.now)
  {
    SweepInvisible(a, next);
    SweepInvisible(b, next);
    OwnOfOwn(a, next.key);
    OwnOfOwn(b, next.key);
  }

  // --------------------------------------------------------------------- budgets ---

  /** The shared table's verdict on the last request. */
  function LastVerdict(trace: seq<Request>): Verdict
    requires trace != []
  {
    var last := trace[|trace| - 1];
    VerdictOf(last.key.scope.MaxPerMinute(), TableAfter(trace).windows[last.key], last.now)
  }

  /** After a request its key's window in the shared table is the private one. */
  lemma {:induction false} SharedIsOwn(trace: seq<Request>)
    requires Clocked(trace) && trace != []
    ensures var last := trace[|trace| - 1];
            Own(trace, last.key) == Some(TableAfter(trace).windows[last.key])
  {
    var last := trace[|trace| - 1];
    TableAgrees(trace, last.now);
    assert Lookup(TableAfter(trace).windows, last.key) == Own(trace, last.key);
  }

  /** How many requests of a key were admitted at instants in [from, to). */
  function Admitted(trace: seq<Request>, k: Key, from: int, to: int): nat {
    if trace == [] then 0
    else
      var last := trace[|trace| - 1];
      Admitted(trace[..|trace| - 1], k, from, to)
      + if last.key == k && from <= last.now < to && LastVerdict(trace).allowed then 1 else 0
  }

  /** How many were admitted in the window of that key that started at `start`. */
  function AdmittedIn(trace: seq<Request>, k: Key, start: int): nat {
    if trace == [] then 0
    else
      var last := trace[|trace| - 1];
      AdmittedIn(trace[..|trace| - 1], k, start)
      + if last.key == k && TableAfter(trace).windows[k].start == start && LastVerdict(trace).allowed then 1 else 0
  }

  function Min(a: nat, b: nat): nat {
    if a < b then a else b
  }

  lemma ClockedInit(trace: seq<Request>)
    requires Clocked(trace) && trace != []
    ensures Clocked(trace[..|trace| - 1])
    ensures |trace| > 1 ==> trace[..|trace| - 1][|trace| - 2].now <= trace[|trace| - 1].now
  {
    var init := trace[..|trace| - 1];
    assert forall i :: 0 <= i < |init| ==> init[i] == trace[i];
  }

  lemma {:induction false} OwnStart(trace: seq<Request>, k: Key)
    requires Clocked(trace) && trace != [] && Own(trace, k).Some?
    ensures Own(trace, k).value.start <= trace[|trace| - 1].now
    decreases |trace|
  {
    ClockedInit(trace);
    if |trace| > 1 && Own(trace[..|trace| - 1], k).Some? {
      OwnStart(trace[..|trace| - 1], k);
    }
  }

  // --------------------------------------------------------------- exact verdicts ---

  /** How many requests of a key there were at instants in [from, to). */
  function CountIn(trace: seq<Request>, k: Key, from: int, to: int): nat {
    if trace == [] then 0
    else
      var last := trace[|trace| - 1];
      CountIn(trace[..|trace| - 1], k, from, to) + if last.key == k && from <= last.now < to then 1 else 0
  }

  /** The windows of a key, said without a table: each starts with a request, they do not overlap, and together
      they hold every request. */
  ghost predicate Tiles(starts: seq<int>, trace: seq<Request>, k: Key) {
    Apart(starts) && Begun(starts, trace, k) && AllCovered(starts, trace, k)
  }

  predicate Apart(starts: seq<int>) {
    forall i, j :: 0 <= i < j < |starts| ==> starts[i] + WINDOW <= starts[j]
  }

  predicate Begun(starts: seq<int>, trace: seq<Request>, k: Key) {
    forall i :: 0 <= i < |starts| ==> Request(k, starts[i]) in trace
  }

  ghost predicate AllCovered(starts: seq<int>, trace: seq<Request>, k: Key) {
    forall i :: 0 <= i < |trace| && trace[i].key == k ==> Covered(starts, trace[i].now)
  }

  ghost predicate Covered(starts: seq<int>, t: int) {
    exists i :: 0 <= i < |starts| && starts[i] <= t < starts[i] + WINDOW
  }

  lemma CoveredAt(starts: seq<int>, i: nat, t: int)
    requires i < |starts| && starts[i] <= t < starts[i] + WINDOW
    ensures Covered(starts, t)
  {
  }

  lemma CoveredMore(starts: seq<int>, s: int, t: int)
    requires Covered(starts, t)
    ensures Covered(starts + [s], t)
  {
    var i :| 0 <= i < |starts| && starts[i] <= t < starts[i] + WINDOW;
    CoveredAt(starts + [s], i, t);
  }

  /** Where a key's windows started. */
  function Starts(trace: seq<Request>, k: Key): seq<int> {
    if trace == [] then []
    else
      var init, last := trace[..|trace| - 1], trace[|trace| - 1];
      var before := Own(init, k);
      Starts(init, k) + if last.key == k && (before.None? || Expired(before.value, last.now)) then [last.now] else []
  }

  /** The private window is the last of them. */
  lemma {:induction false} OwnIsLast(trace: seq<Request>, k: Key)
    ensures Own(trace, k).None? <==> Starts(trace, k) == []
    ensures Own(trace, k).Some? ==> Own(trace, k).value.start == Starts(trace, k)[|Starts(trace, k)| - 1]
    decreases |trace|
  {
    if trace != [] {
      OwnIsLast(trace[..|trace| - 1], k);
    }
  }

  lemma CoverOne(starts: seq<int>, init: seq<Request>, last: Request, k: Key)
    requires AllCovered(starts, init, k) && (last.key == k ==> Covered(starts, last.now))
    ensures AllCovered(starts, init + [last], k)
  {
    hide Covered;
    forall i | 0 <= i < |init + [last]| && (init + [last])[i].key == k
      ensures Covered(starts, (init + [last])[i].now)
    {
      if i < |init| {
        assert (init + [last])[i] == init[i];
      }
    }
  }

  lemma CoverWider(starts: seq<int>, s: int, trace: seq<Request>, k: Key)
    requires AllCovered(starts, trace, k)
    ensures AllCovered(starts + [s], trace, k)
  {
    hide Covered;
    forall i | 0 <= i < |trace| && trace[i].key == k ensures Covered(starts + [s], trace[i].now) {
      CoveredMore(starts, s, trace[i].now);
    }
  }

  lemma ApartMore(starts: seq<int>, s: int)
    requires Apart(starts) && (starts != [] ==> starts[|starts| - 1] + WINDOW <= s)
    ensures Apart(starts + [s])
  {
  }

  lemma BegunMore(starts: seq<int>, init: seq<Request>, last: Request, k: Key)
    requires Begun(starts, init, k)
    ensures Begun(starts, init + [last], k)
    ensures last.key == k ==> Begun(starts + [last.now], init + [last], k)
  {
    assert last.key == k ==> (init + [last])[|init|] == Request(k, last.now);
  }

  /** One request more: the last window holds it, or it starts one. */
  lemma TilesMore(starts: seq<int>, init: seq<Request>, last: Request, k: Key)
    requires Tiles(starts, init, k) && (starts != [] ==> starts[|starts| - 1] <= last.now)
    ensures last.key != k || (starts != [] && last.now < starts[|starts| - 1] + WINDOW)
            ==> Tiles(starts, init + [last], k)
    ensures last.key == k && (starts == [] || starts[|starts| - 1] + WINDOW <= last.now)
            ==> Tiles(starts + [last.now], init + [last], k)
  {
    hide Apart, Begun, AllCovered, Covered;
    BegunMore(starts, init, last, k);
    if last.key != k || (starts != [] && last.now < starts[|starts| - 1] + WINDOW) {
      if last.key == k {
        CoveredAt(starts, |starts| - 1, last.now);
      }
      CoverOne(starts, init, last, k);
    } else {
      ApartMore(starts, last.now);
      CoverWider(starts, last.now, init, k);
      CoveredAt(starts + [last.now], |starts|, last.now);
      CoverOne(starts + [last.now], init, last, k);
    }
  }

  /** Where the last window stands when one more request comes. */
  lemma {:induction false} LastStart(init: seq<Request>, last: Request, k: Key)
    requires Clocked(init) && (init != [] ==> init[|init| - 1].now <= last.now)
    ensures var s := Starts(init, k);
            && (s != [] ==> s[|s| - 1] <= last.now)
            && Starts(init + [last], k)
               == s + if last.key == k && (s == [] || s[|s| - 1] + WINDOW <= last.now) then [last.now] else []
  {
    assert (init + [last])[..|init|] == init;
    OwnIsLast(init, k);
    if init != [] && Own(init, k).Some? {
      OwnStart(init, k);
    }
  }

  lemma {:induction false} StartsTile(trace: seq<Request>, k: Key)
    requires Clocked(trace)
    ensures Tiles(Starts(trace, k), trace, k)
    decreases |trace|
  {
    hide Tiles, Starts, Clocked;
    if trace != [] {
      var n := |trace| - 1;
      var init, last := trace[..n], trace[n];
      assert trace == init + [last];
      ClockedInit(trace);
      StartsTile(init, k);
      LastStart(init, last, k);
      TilesMore(Starts(init, k), init, last, k);
      assert Starts(init, k) + [] == Starts(init, k);
    } else {
      NothingTiles(k);
    }
  }

  lemma NothingTiles(k: Key)
    ensures Tiles(Starts([], k), [], k)
  {
  }

  /** The window that holds a request. */
  lemma HolderOf(starts: seq<int>, t: int, trace: seq<Request>, k: Key) returns (i: nat)
    requires AllCovered(starts, trace, k) && Request(k, t) in trace
    ensures i < |starts| && starts[i] <= t < starts[i] + WINDOW
  {
    var j :| 0 <= j < |trace| && trace[j] == Request(k, t);
    assert Covered(starts, trace[j].now);
    i :| 0 <= i < |starts| && starts[i] <= t < starts[i] + WINDOW;
  }

  /** After equal windows, the next one cannot start later. */
  lemma NextNotLater(a: seq<int>, b: seq<int>, trace: seq<Request>, k: Key, i: nat)
    requires Tiles(a, trace, k) && Tiles(b, trace, k) && i < |a| && i <= |b| && a[..i] == b[..i]
    ensures i < |b| && b[i] <= a[i]
  {
    hide AllCovered;
    assert forall m :: 0 <= m < i ==> a[m] == a[..i][m] == b[m];
    var j := HolderOf(b, a[i], trace, k);
  }

  /** No two lists of windows fit the same requests. */
  lemma {:induction false} TilesUnique(a: seq<int>, b: seq<int>, trace: seq<Request>, k: Key, n: nat)
    requires Tiles(a, trace, k) && Tiles(b, trace, k) && n <= |a|
    ensures n <= |b| && a[..n] == b[..n]
    decreases n
  {
    hide Tiles;
    if n > 0 {
      var i := n - 1;
      TilesUnique(a, b, trace, k, i);
      NextNotLater(a, b, trace, k, i);
      NextNotLater(b, a, trace, k, i);
      assert a[..n] == a[..i] + [a[i]] && b[..n] == b[..i] + [b[i]];
    }
  }

  lemma {:induction false} TilesAreStarts(starts: seq<int>, trace: seq<Request>, k: Key)
    requires Clocked(trace) && Tiles(starts, trace, k)
    ensures starts == Starts(trace, k)
  {
    StartsTile(trace, k);
    var own := Starts(trace, k);
    TilesUnique(starts, own, trace, k, |starts|);
    TilesUnique(own, starts, trace, k, |own|);
    assert starts[..|starts|] == starts && own[..|own|] == own;
  }

  /** No request lies beyond the current window. */
  lemma {:induction false} NoneBeyond(trace: seq<Request>, k: Key, from: int, to: int)
    requires Clocked(trace)
    requires Own(trace, k).Some? ==> Own(trace, k).value.start + WINDOW <= from
    ensures CountIn(trace, k, from, to) == 0
    decreases |trace|
  {
    if trace != [] {
      ClockedInit(trace);
      var n := |trace| - 1;
      if Own(trace[..n], k).Some? {
        OwnStart(trace[..n], k);
      }
      NoneBeyond(trace[..n], k, from, to);
    }
  }

  lemma {:induction false} NewCount(init: seq<Request>, last: Request, k: Key)
    requires Clocked(init) && last.key == k && (init != [] ==> init[|init| - 1].now <= last.now)
    ensures Own(init, k).None? || Expired(Own(init, k).value, last.now)
            ==> CountIn(init, k, last.now, last.now + WINDOW) == 0
    ensures Own(init, k).Some? ==> Own(init, k).value.start <= last.now
    ensures Own(init, k).Some? && !Expired(Own(init, k).value, last.now)
            ==> last.now < Own(init, k).value.start + WINDOW
  {
    if Own(init, k).Some? && init != [] {
      OwnStart(init, k);
    }
    if Own(init, k).None? || Expired(Own(init, k).value, last.now) {
      NoneBeyond(init, k, last.now, last.now + WINDOW);
    }
  }

  /** The count of a window is the number of its requests. */
  lemma {:induction false} CountOwn(trace: seq<Request>, k: Key)
    requires Clocked(trace)
    ensures Own(trace, k).Some? ==>
              var w := Own(trace, k).value; w.count == CountIn(trace, k, w.start, w.start + WINDOW)
    decreases |trace|
  {
    if trace != [] {
      var n := |trace| - 1;
      var init, last := trace[..n], trace[n];
      ClockedInit(trace);
      CountOwn(init, k);
      if last.key == k {
        NewCount(init, last, k);
      }
    }
  }

  /** After any requests with a clock that does not go back: the last window of the key holds the last request,
      and the verdict, on the shared and swept table, counts the requests of that key in that window alone. It
      admits exactly the first ones up to the limit, says how many are left, and in how many whole seconds the
      window ends. */
  lemma {:induction false} VerdictExactly(trace: seq<Request>, starts: seq<int>)
    requires Clocked(trace) && trace != []
    requires Tiles(starts, trace, trace[|trace| - 1].key)
    ensures var last := trace[|trace| - 1];
            var limit := last.key.scope.MaxPerMinute();
            && starts != []
            && var start := starts[|starts| - 1];
               var n := CountIn(trace, last.key, start, start + WINDOW);
               && start <= last.now < start + WINDOW
               && LastVerdict(trace) == Verdict(limit, if n <= limit then limit - n else 0,
                                                (start + WINDOW - last.now) / SECOND, n <= limit)
  {
    hide Tiles;
    var last := trace[|trace| - 1];
    TilesAreStarts(starts, trace, last.key);
    OwnIsLast(trace, last.key);
    CountOwn(trace, last.key);
    SharedIsOwn(trace);
    ClockedInit(trace);
    NewCount(trace[..|trace| - 1], last, last.key);
  }

  /** Some list of windows always fits. */
  lemma {:induction false} WindowsExist(trace: seq<Request>, k: Key) returns (starts: seq<int>)
    requires Clocked(trace)
    ensures Tiles(starts, trace, k)
  {
    StartsTile(trace, k);
    starts := Starts(trace, k);
  }

  lemma {:induction false} AdmittedAtMost(trace: seq<Request>, k: Key, from: int, to: int)
    ensures Admitted(trace, k, from, to) <= CountIn(trace, k, from, to)
    decreases |trace|
  {
    hide LastVerdict;
    if trace != [] {
      AdmittedAtMost(trace[..|trace| - 1], k, from, to);
    }
  }

  /** The last request in its window. */
  lemma {:induction false} LastInWindow(trace: seq<Request>)
    requires Clocked(trace) && trace != []
    ensures var last := trace[|trace| - 1];
            var s := Starts(trace, last.key);
            && s != []
            && var p := s[|s| - 1];
               && p <= last.now < p + WINDOW && TableAfter(trace).windows[last.key].start == p
               && (LastVerdict(trace).allowed
                   <==> CountIn(trace, last.key, p, p + WINDOW) <= last.key.scope.MaxPerMinute())
  {
    var last := trace[|trace| - 1];
    OwnIsLast(trace, last.key);
    CountOwn(trace, last.key);
    SharedIsOwn(trace);
    ClockedInit(trace);
    NewCount(trace[..|trace| - 1], last, last.key);
  }

  /** What one more request adds to the three counts of a window. */
  lemma {:induction false} CountsStep(init: seq<Request>, last: Request, k: Key, start: int)
    ensures var trace := init + [last];
            && CountIn(trace, k, start, start + WINDOW)
               == CountIn(init, k, start, start + WINDOW)
                  + (if last.key == k && start <= last.now < start + WINDOW then 1 else 0)
            && Admitted(trace, k, start, start + WINDOW)
               == Admitted(init, k, start, start + WINDOW)
                  + (if last.key == k && start <= last.now < start + WINDOW && LastVerdict(trace).allowed then 1 else 0)
            && AdmittedIn(trace, k, start)
               == AdmittedIn(init, k, start)
                  + (if last.key == k && TableAfter(trace).windows[k].start == start && LastVerdict(trace).allowed
                     then 1 else 0)
  {
    assert (init + [last])[..|init|] == init;
  }

  /** A window that was there before is either the current one or over. */
  lemma Elder(s: seq<int>, p: int, now: int, start: int)
    requires Apart(s) && s != [] && s[|s| - 1] == p && p <= now && start in s
    ensures start == p || start + WINDOW <= now
  {
  }

  /** A request of another key, or in another window, leaves a window's counts as they are. */
  lemma {:induction false} OtherWindow(init: seq<Request>, last: Request, k: Key, start: int)
    requires Clocked(init + [last]) && Clocked(init) && (init != [] ==> init[|init| - 1].now <= last.now)
    requires var s := Starts(init + [last], k); last.key == k && s != [] ==> start != s[|s| - 1]
    ensures var trace := init + [last];
            && (start in Starts(trace, k) <==> start in Starts(init, k))
            && AdmittedIn(trace, k, start) == AdmittedIn(init, k, start)
            && (start in Starts(trace, k) ==>
                  && CountIn(trace, k, start, start + WINDOW) == CountIn(init, k, start, start + WINDOW)
                  && Admitted(trace, k, start, start + WINDOW) == Admitted(init, k, start, start + WINDOW))
  {
    hide Starts, Own, CountIn, Admitted, AdmittedIn, TableAfter, LastVerdict, Scope.MaxPerMinute;
    var trace := init + [last];
    LastStart(init, last, k);
    CountsStep(init, last, k, start);
    if last.key == k {
      LastInWindow(trace);
      StartsApart(trace, k);
      var s := Starts(trace, k);
      if start in s {
        Elder(s, s[|s| - 1], last.now, start);
      }
    }
  }

  /** A request adds one to its own window, and one admission if the window then holds no more than the limit. */
  lemma {:induction false} ThisWindow(init: seq<Request>, last: Request, k: Key, start: int)
    requires Clocked(init + [last]) && Clocked(init) && (init != [] ==> init[|init| - 1].now <= last.now)
    requires last.key == k
    requires var s := Starts(init + [last], k); s != [] && start == s[|s| - 1]
    ensures var trace := init + [last];
            var n := CountIn(trace, k, start, start + WINDOW);
            var allowed := if n <= k.scope.MaxPerMinute() then 1 else 0;
            && n == CountIn(init, k, start, start + WINDOW) + 1
            && AdmittedIn(trace, k, start) == AdmittedIn(init, k, start) + allowed
            && Admitted(trace, k, start, start + WINDOW) == Admitted(init, k, start, start + WINDOW) + allowed
            && (start !in Starts(init, k) ==> n == 1)
  {
    hide Starts, Own, CountIn, Admitted, AdmittedIn, TableAfter, LastVerdict, Scope.MaxPerMinute;
    LastStart(init, last, k);
    CountsStep(init, last, k, start);
    LastInWindow(init + [last]);
    Fresh(init, last, k);
  }

  /** In every window of a key the shared, swept table admits as many requests as there are, up to the limit, and
      those are all it admits in that minute; at any other instant no window starts. */
  lemma {:induction false} AdmittedStep(trace: seq<Request>, k: Key, start: int)
    requires Clocked(trace)
    ensures start in Starts(trace, k) ==>
              && AdmittedIn(trace, k, start) == Min(k.scope.MaxPerMinute(), CountIn(trace, k, start, start + WINDOW))
              && Admitted(trace, k, start, start + WINDOW) == AdmittedIn(trace, k, start)
    ensures start !in Starts(trace, k) ==> AdmittedIn(trace, k, start) == 0
    decreases |trace|
  {
    hide Starts, CountIn, Admitted, AdmittedIn, Scope.MaxPerMinute, Clocked;
    if trace == [] {
      NothingAdmitted(k, start);
    } else {
      var n := |trace| - 1;
      var init, last := trace[..n], trace[n];
      assert trace == init + [last];
      ClockedInit(trace);
      AdmittedStep(init, k, start);
      var s := Starts(trace, k);
      if last.key == k && s != [] && start == s[|s| - 1] {
        ThisWindow(init, last, k, start);
        AdmittedAtMost(init, k, start, start + WINDOW);
      } else {
        OtherWindow(init, last, k, start);
      }
    }
  }

  lemma NothingAdmitted(k: Key, start: int)
    ensures Starts([], k) == [] && AdmittedIn([], k, start) == 0
  {
  }

  lemma {:induction false} StartsApart(trace: seq<Request>, k: Key)
    requires Clocked(trace)
    ensures Apart(Starts(trace, k))
  {
    StartsTile(trace, k);
  }

  /** A window that is only starting was neither listed nor holds anything yet. */
  lemma {:induction false} Fresh(init: seq<Request>, last: Request, k: Key)
    requires Clocked(init) && last.key == k && (init != [] ==> init[|init| - 1].now <= last.now)
    ensures var s := Starts(init, k);
            s == [] || s[|s| - 1] + WINDOW <= last.now ==>
              last.now !in s && CountIn(init, k, last.now, last.now + WINDOW) == 0
  {
    StartsApart(init, k);
    OwnIsLast(init, k);
    var s := Starts(init, k);
    if s == [] || s[|s| - 1] + WINDOW <= last.now {
      NoneBeyond(init, k, last.now, last.now + WINDOW);
    }
  }

  /** The same for windows found without the table. */
  lemma {:induction false} AdmittedExactly(trace: seq<Request>, k: Key, starts: seq<int>, start: int)
    requires Clocked(trace) && Tiles(starts, trace, k)
    ensures start in starts ==>
              && AdmittedIn(trace, k, start) == Min(k.scope.MaxPerMinute(), CountIn(trace, k, start, start + WINDOW))
              && Admitted(trace, k, start, start + WINDOW) == AdmittedIn(trace, k, start)
    ensures start !in starts ==> AdmittedIn(trace, k, start) == 0
  {
    hide Tiles;
    TilesAreStarts(starts, trace, k);
    AdmittedStep(trace, k, start);
  }

  /** In each window the shared, swept table admits at most the limit. */
  lemma {:induction false} WindowBudget(trace: seq<Request>, k: Key, start: int)
    requires Clocked(trace)
    ensures AdmittedIn(trace, k, start) <= k.scope.MaxPerMinute()
  {
    AdmittedStep(trace, k, start);
  }

  /** Where the count of an interval of one window's length stands, by where the current window
      started. */
  predicate Within(w: Option<Window>, admitted: nat, limit: nat, from: int) {
    if w.None? then admitted == 0
    else if w.value.start < from then admitted <= Min(w.value.count, limit)
    else if w.value.start < from + WINDOW then admitted <= limit + Min(w.value.count, limit)
    else admitted <= 2 * limit
  }

  lemma {:induction false} IntervalStep(trace: seq<Request>, k: Key, from: int)
    requires Clocked(trace)
    ensures Within(Own(trace, k), Admitted(trace, k, from, from + WINDOW), k.scope.MaxPerMinute(), from)
    ensures trace == [] || trace[|trace| - 1].now < from ==> Admitted(trace, k, from, from + WINDOW) == 0
    decreases |trace|
  {
    if trace != [] {
      ClockedInit(trace);
      SharedIsOwn(trace);
      var init := trace[..|trace| - 1];
      IntervalStep(init, k, from);
      if Own(init, k).Some? {
        OwnStart(init, k);
      }
    }
  }

  /** In any half-open interval of one window's length the shared table admits at most twice the limit. */
  lemma IntervalBudget(trace: seq<Request>, k: Key, from: int)
    requires Clocked(trace)
    ensures Admitted(trace, k, from, from + WINDOW) <= 2 * k.scope.MaxPerMinute()
  {
    IntervalStep(trace, k, from);
  }

  /** A request stamped before its window started, as one that waited for the lock can be, is counted in that
      window, which has not begun to elapse for it. */
  lemma EarlierRequest(t: Table, k: Key, now: int)
    requires k in t.windows && now <= t.windows[k].start
    ensures var w := Checked(t, k, now).windows[k];
            && w == Window(t.windows[k].start, t.windows[k].count + 1)
            && VerdictOf(k.scope.MaxPerMinute(), w, now).reset == 60
  {
  }

  /** When a sweep is due, every window that is over is dropped, and no other one. */
  lemma SweepDropsExpired(t: Table, k: Key, now: int, other: Key)
    requires t.checks % 1024 == 0 && |t.windows| > SWEEP_THRESHOLD && other != k
    ensures other in Checked(t, k, now).windows
       <==> other in t.windows && (now <= t.windows[other].start || now - t.windows[other].start < WINDOW)
    ensures other in Checked(t, k, now).windows ==> Checked(t, k, now).windows[other] == t.windows[other]
  {
  }

  // ------------------------------------------------------------- whom to bill ---

  /** One more character: a comma starts a new entry, anything else goes on with the last one. */
  function Grown(entries: seq<string>, c: char): (r: seq<string>)
    requires entries != []
    ensures r != []
  {
    var n := |entries| - 1;
    if c == ',' then entries + [""] else entries[..n] + [entries[n] + [c]]
  }

  /** The text between commas. */
  function Entries(s: string): (r: seq<string>)
    ensures r != []
  {
    if s == "" then [""] else Grown(Entries(s[..|s| - 1]), s[|s| - 1])
  }

  /** Trimmed, without the empty ones. */
  function Trimmed(entries: seq<string>): seq<string> {
    if entries == [] then []
    else
      var last := Trim(entries[|entries| - 1]);
      Trimmed(entries[..|entries| - 1]) + if last == "" then [] else [last]
  }

  function Hops(line: string): seq<string> {
    Trimmed(Entries(line))
  }

  /** A header line is read as text only if all of it is printable ASCII or tabs. */
  predicate Readable(line: string) {
    forall i :: 0 <= i < |line| ==> ' ' <= line[i] <= '~' || line[i] == '\t'
  }

  /** `client_ip` on the lines of the forwarding header, of which the first counts: the configured number
      from the right, if there are that many and the entry is an address; the peer otherwise. */
  function ClientIp(peer: string, lines: seq<string>, trustProxy: nat, parses: string -> bool): string {
    if trustProxy == 0 || lines == [] || !Readable(lines[0]) then peer
    else
      var hops := Hops(lines[0]);
      if |hops| < trustProxy then peer
      else
        var hop := hops[|hops| - trustProxy];
        if parses(hop) then hop else peer
  }

  /** An entry as a proxy writes it. */
  predicate IsHop(h: string) {
    h != "" && Trim(h) == h && Readable(h) && forall i :: 0 <= i < |h| ==> h[i] != ','
  }

  /** What a line becomes when proxies add their entries to it. */
  function Extended(line: string, added: seq<string>): string {
    if added == [] then line else Extended(line, added[..|added| - 1]) + ", " + added[|added| - 1]
  }

  lemma {:induction false} EntriesSnoc(s: string, c: char)
    ensures Entries(s + [c]) == Grown(Entries(s), c)
  {
    assert (s + [c])[..|s|] == s;
  }

  lemma GrownTail(a: seq<string>, b: seq<string>, c: char)
    requires b != []
    ensures Grown(a + b, c) == a + Grown(b, c)
  {
    assert a + b == a + b[..|b| - 1] + [b[|b| - 1]];
  }

  lemma {:induction false} EntriesConcat(a: string, b: string)
    ensures Entries(a + "," + b) == Entries(a) + Entries(b)
    decreases |b|
  {
    hide Grown;
    if b == "" {
      assert a + "," + b == a + [','];
      EntriesSnoc(a, ',');
      CommaGrows(Entries(a));
    } else {
      var n := |b| - 1;
      EntriesConcat(a, b[..n]);
      EntriesSnoc(a + "," + b[..n], b[n]);
      EntriesSnoc(b[..n], b[n]);
      GrownTail(Entries(a), Entries(b[..n]), b[n]);
      assert b == b[..n] + [b[n]] && a + "," + b == a + "," + b[..n] + [b[n]];
    }
  }

  /** Hops, said without their loops: commas separate them, and what is between two commas is one hop once
      trimmed, or none if nothing is left. */
  lemma HopsExactly(a: string, b: string, s: string)
    requires forall i :: 0 <= i < |s| ==> s[i] != ','
    ensures Hops(a + "," + b) == Hops(a) + Hops(b)
    ensures Hops(s) == if Trim(s) == "" then [] else [Trim(s)]
  {
    hide Trim, Entries;
    EntriesConcat(a, b);
    TrimmedConcat(Entries(a), Entries(b));
    OneEntry(s);
    assert [s][..0] == [];
    assert Trimmed([]) == [];
  }

  /** The header counts only if there are trusted proxies, its first line is readable, it has an entry for each
      of them, and the one to use is an address; then that is billed, and otherwise the peer. */
  lemma BilledExactly(peer: string, lines: seq<string>, trustProxy: nat, parses: string -> bool)
    ensures || trustProxy == 0 || lines == []
            || (exists i :: 0 <= i < |lines[0]| && !(' ' <= lines[0][i] <= '~' || lines[0][i] == '\t'))
            ==> ClientIp(peer, lines, trustProxy, parses) == peer
    ensures lines != [] && |Hops(lines[0])| < trustProxy ==> ClientIp(peer, lines, trustProxy, parses) == peer
    ensures forall before, hop, after ::
              trustProxy > 0 && lines != [] && Readable(lines[0])
              && Hops(lines[0]) == before + [hop] + after && |after| + 1 == trustProxy
              ==> ClientIp(peer, lines, trustProxy, parses) == if parses(hop) then hop else peer
  {
    hide Hops;
    forall before, hop, after
      | trustProxy > 0 && lines != [] && Readable(lines[0])
        && Hops(lines[0]) == before + [hop] + after && |after| + 1 == trustProxy
      ensures ClientIp(peer, lines, trustProxy, parses) == if parses(hop) then hop else peer
    {
      assert (before + [hop] + after)[|before|] == hop;
    }
  }

  lemma CommaGrows(entries: seq<string>)
    requires entries != []
    ensures Grown(entries, ',') == entries + [""]
  {
  }

  lemma {:induction false} TrimmedConcat(a: seq<string>, b: seq<string>)
    ensures Trimmed(a + b) == Trimmed(a) + Trimmed(b)
    decreases |b|
  {
    if b == [] {
      assert a + b == a;
    } else {
      TrimmedConcat(a, b[..|b| - 1]);
      assert (a + b)[..|a + b| - 1] == a + b[..|b| - 1];
    }
  }

  lemma {:induction false} OneEntry(s: string)
    requires forall i :: 0 <= i < |s| ==> s[i] != ','
    ensures Entries(s) == [s]
    decreases |s|
  {
    if s != "" {
      var n := |s| - 1;
      OneEntry(s[..n]);
      EntriesSnoc(s[..n], s[n]);
      assert s == s[..n] + [s[n]];
      assert [s[..n]][..0] == [];
    }
  }

  lemma HopAlone(h: string)
    requires IsHop(h)
    ensures Hops(h) == [h] && Hops(" " + h) == [h]
  {
    hide Trim;
    OneEntry(h);
    OneEntry(" " + h);
    TrimSpace(h);
    assert [h][..0] == [] && [" " + h][..0] == [];
    assert Trimmed([]) == [];
  }

  lemma TrimSpace(h: string)
    ensures Trim(" " + h) == Trim(h)
  {
    assert (" " + h)[1..] == h;
    assert TrimStart(" " + h) == TrimStart(h);
  }

  lemma OneMoreHop(before: string, h: string)
    requires IsHop(h)
    ensures Hops(before + ", " + h) == Hops(before) + [h]
  {
    hide IsHop, Entries, Trimmed;
    HopAlone(h);
    assert before + ", " + h == before + "," + (" " + h);
    EntriesConcat(before, " " + h);
    TrimmedConcat(Entries(before), Entries(" " + h));
  }

  /** Adding entries to a line adds them to its hops, whatever the line was. */
  lemma {:induction false} ExtendedHops(line: string, added: seq<string>)
    requires forall i :: 0 <= i < |added| ==> IsHop(added[i])
    ensures Hops(Extended(line, added)) == Hops(line) + added
    ensures Readable(Extended(line, added)) <==> Readable(line)
    decreases |added|
  {
    hide IsHop, Hops, Readable;
    if added != [] {
      var n := |added| - 1;
      var before := Extended(line, added[..n]);
      ExtendedHops(line, added[..n]);
      OneMoreHop(before, added[n]);
      ReadableConcat(before, added[n]);
      assert added == added[..n] + [added[n]];
    }
  }

  lemma ReadableConcat(before: string, h: string)
    requires IsHop(h)
    ensures Readable(before + ", " + h) <==> Readable(before)
  {
    var whole := before + ", " + h;
    if Readable(whole) {
      forall i | 0 <= i < |before| ensures ' ' <= before[i] <= '~' || before[i] == '\t' {
        assert before[i] == whole[i];
      }
    }
  }

  /** Behind as many trusted proxies as configured, each adding an entry to the first line or starting it,
      the address billed is the first one they added, whatever the client wrote into that line or others;
      unless what it wrote makes the line unreadable, or that entry is no address: then it is the peer. */
  lemma {:induction false} SpoofingIsInert(peer: string, written: string, others: seq<string>, added: seq<string>,
                                           parses: string -> bool)
    requires |added| > 0 && forall i :: 0 <= i < |added| ==> IsHop(added[i])
    ensures ClientIp(peer, [Extended(written, added)] + others, |added|, parses)
         == if Readable(written) && parses(added[0]) then added[0] else peer
    ensures ClientIp(peer, [Extended(added[0], added[1..])] + others, |added|, parses)
         == if parses(added[0]) then added[0] else peer
  {
    assert Readable(added[0]);
    hide Hops, IsHop, Readable;
    HopAlone(added[0]);
    ExtendedHops(added[0], added[1..]);
    assert [added[0]] + added[1..] == added;
    ExtendedHops(written, added);
    assert (Hops(written) + added)[|Hops(written)|] == added[0];
  }
}
