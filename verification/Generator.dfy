/** `generate` of app/core/src/password.rs and exactly which passwords it can produce. */
module Generator {
  import opened Wrappers
  import opened Bytes
  import opened Arith
  import opened Password

  // ---------------------------------------------------------------- draws in a row ---

  predicate Bounded(bounds: seq<nat>) {
    forall i :: 0 <= i < |bounds| ==> 0 < bounds[i] <= 256
  }

  predicate Under(ds: seq<nat>, bounds: seq<nat>) {
    |ds| == |bounds| && forall i :: 0 <= i < |ds| ==> ds[i] < bounds[i]
  }

  /** The outcomes so far and the tape that is left, or the failure of the source. */
  type Progress = Option<(seq<nat>, seq<Byte>)>

  function DrawOne(before: Progress, n: nat): Progress
    requires 0 < n <= 256
  {
    if before.None? then None
    else
      var d := Draw(before.value.1, n);
      if d.None? then None else Some((before.value.0 + [d.value.0], d.value.1))
  }

  /** Outcomes drawn later, after those drawn first. */
  function Join(first: seq<nat>, later: Progress): Progress {
    if later.None? then None else Some((first + later.value.0, later.value.1))
  }

  lemma JoinOne(first: seq<nat>, later: Progress, n: nat)
    requires 0 < n <= 256
    ensures DrawOne(Join(first, later), n) == Join(first, DrawOne(later, n))
  {
    if later.Some? {
      var d := Draw(later.value.1, n);
      if d.Some? {
        assert first + later.value.0 + [d.value.0] == first + (later.value.0 + [d.value.0]);
      }
    }
  }

  /** One draw for each bound, all from one tape. */
  function Draws(tape: seq<Byte>, bounds: seq<nat>): (r: Option<(seq<nat>, seq<Byte>)>)
    requires Bounded(bounds)
    ensures r.Some? ==> Under(r.value.0, bounds)
  {
    if bounds == [] then Some(([], tape))
    else DrawOne(Draws(tape, bounds[..|bounds| - 1]), bounds[|bounds| - 1])
  }

  /** Drawing for one list of bounds and then for another. */
  lemma {:induction false} DrawsConcat(tape: seq<Byte>, a: seq<nat>, b: seq<nat>)
    requires Bounded(a) && Bounded(b)
    ensures Bounded(a + b)
    ensures var first := Draws(tape, a);
            Draws(tape, a + b) == if first.None? then None else Join(first.value.0, Draws(first.value.1, b))
    decreases |b|
  {
    hide DrawOne;
    if b == [] {
      assert a + b == a;
      assert Draws(tape, a).Some? ==> Draws(tape, a).value.0 + [] == Draws(tape, a).value.0;
    } else {
      var init, last := b[..|b| - 1], b[|b| - 1];
      DrawsConcat(tape, a, init);
      assert (a + b)[..|a + b| - 1] == a + init && (a + b)[|a + b| - 1] == last;
      var first := Draws(tape, a);
      if first.Some? {
        JoinOne(first.value.0, Draws(first.value.1, init), last);
      } else {
        NoneStays(last);
      }
    }
  }

  lemma NoneStays(n: nat)
    requires 0 < n <= 256
    ensures DrawOne(None, n) == None
  {
  }

  /** Once a draw fails, the whole list does. */
  lemma {:induction false} DrawFails(tape: seq<Byte>, bounds: seq<nat>, k: nat)
    requires Bounded(bounds) && k < |bounds|
    requires Draws(tape, bounds[..k]).Some? && Draw(Draws(tape, bounds[..k]).value.1, bounds[k]).None?
    ensures Draws(tape, bounds).None?
  {
    assert bounds[..k + 1][..k] == bounds[..k];
    DrawsConcat(tape, bounds[..k + 1], bounds[k + 1..]);
    assert bounds[..k + 1] + bounds[k + 1..] == bounds;
  }

  lemma {:induction false} DrawsNext(tape: seq<Byte>, bounds: seq<nat>, k: nat)
    requires Bounded(bounds) && k < |bounds|
    requires Draws(tape, bounds[..k]).Some? && Draw(Draws(tape, bounds[..k]).value.1, bounds[k]).Some?
    ensures var before := Draws(tape, bounds[..k]).value;
            var d := Draw(before.1, bounds[k]).value;
            Draws(tape, bounds[..k + 1]) == Some((before.0 + [d.0], d.1))
  {
    assert bounds[..k + 1][..k] == bounds[..k];
  }

  /** A draw that succeeds reads a part of the tape and leaves the rest alone. */
  lemma {:induction false} DrawLocal(a: seq<Byte>, rest: seq<Byte>, n: nat)
    requires 0 < n <= 256
    requires Draw(a, n).Some?
    ensures Draw(a + rest, n) == Some((Draw(a, n).value.0, Draw(a, n).value.1 + rest))
    decreases |a|
  {
    if n != 1 {
      assert (a + rest)[1..] == a[1..] + rest;
      if a[0] >= Limit(n) {
        DrawLocal(a[1..], rest, n);
      }
    }
  }

  lemma {:induction false} DrawsLocal(a: seq<Byte>, rest: seq<Byte>, bounds: seq<nat>)
    requires Bounded(bounds) && Draws(a, bounds).Some?
    ensures Draws(a + rest, bounds) == Some((Draws(a, bounds).value.0, Draws(a, bounds).value.1 + rest))
    decreases |bounds|
  {
    if bounds != [] {
      var n := |bounds| - 1;
      DrawsLocal(a, rest, bounds[..n]);
      DrawLocal(Draws(a, bounds[..n]).value.1, rest, bounds[n]);
    }
  }

  lemma OneDraw(d: nat, n: nat) returns (tape: seq<Byte>)
    requires 0 < n <= 256 && d < n
    ensures Draw(tape, n) == Some((d, []))
  {
    if n == 1 {
      tape := [];
    } else {
      tape := [d];
      LimitRange(n);
      DivMod(0, n, d);
      assert tape[1..] == [];
    }
  }

  /** Any outcomes below their bounds are drawn from some tape. */
  lemma {:induction false} TapeFor(ds: seq<nat>, bounds: seq<nat>) returns (tape: seq<Byte>)
    requires Bounded(bounds) && Under(ds, bounds)
    ensures Draws(tape, bounds) == Some((ds, []))
    decreases |bounds|
  {
    hide Draw;
    tape := [];
    if bounds == [] {
      assert ds == [];
    } else {
      var n := |bounds| - 1;
      var before := TapeFor(ds[..n], bounds[..n]);
      var last := OneDraw(ds[n], bounds[n]);
      tape := before + last;
      DrawsLocal(before, last, bounds[..n]);
      assert [] + last == last && ds == ds[..n] + [ds[n]];
    }
  }

  // ------------------------------------------------------------------- generation ---

  function Alphabet(r: Recipe): string {
    Union(r.Classes())
  }

  function Repeat<T>(x: T, times: nat): (b: seq<T>)
    ensures |b| == times && forall i :: 0 <= i < times ==> b[i] == x
  {
    seq(times, _ => x)
  }

  function ClassSizes(classes: seq<string>): (b: seq<nat>)
    ensures |b| == |classes| && forall i :: 0 <= i < |b| ==> b[i] == |classes[i]|
  {
    seq(|classes|, i requires 0 <= i < |classes| => |classes[i]|)
  }

  /** n, n-1, ..., 2: what the shuffle draws below. */
  function SwapBounds(n: nat): (b: seq<nat>)
    requires n > 0
    ensures |b| == n - 1 && forall i :: 0 <= i < n - 1 ==> b[i] == n - i
  {
    seq(n - 1, i requires 0 <= i < n - 1 => n - i)
  }

  predicate Valid(r: Recipe) {
    r.Validate().None?
  }

  /** What is drawn below for each position: one mandatory character per class, then any. */
  function PlaceBounds(r: Recipe): (b: seq<nat>)
    requires Valid(r)
    ensures |b| == r.length
  {
    ClassSizes(r.Classes()) + Repeat(|Alphabet(r)|, r.length - |r.Classes()|)
  }

  /** The table position `i` is drawn from. */
  function TableAt(r: Recipe, i: nat): (t: string)
    requires Valid(r) && i < r.length
    ensures |t| == PlaceBounds(r)[i]
  {
    if i < |r.Classes()| then r.Classes()[i] else Alphabet(r)
  }

  lemma TableSizes(r: Recipe)
    requires Valid(r)
    ensures Bounded(PlaceBounds(r)) && Bounded(SwapBounds(r.length))
  {
    UnionSize(r.Classes());
    forall i | 0 <= i < r.length ensures 0 < PlaceBounds(r)[i] <= 256 {
      assert |TableAt(r, i)| == PlaceBounds(r)[i];
    }
  }

  lemma {:induction false} UnionSize(classes: seq<string>)
    requires forall i :: 0 <= i < |classes| ==> 0 < |classes[i]| <= 64
    ensures |Union(classes)| <= 64 * |classes| && (classes != [] ==> |Union(classes)| > 0)
    decreases |classes|
  {
    if classes != [] {
      UnionSize(classes[..|classes| - 1]);
    }
  }

  /** The string before the shuffle. */
  function Placed(r: Recipe, ds: seq<nat>): (s: string)
    requires Valid(r) && Under(ds, PlaceBounds(r))
    ensures |s| == r.length
  {
    seq(r.length, i requires 0 <= i < r.length => TableAt(r, i)[ds[i]])
  }

  predicate ValidDraws(r: Recipe, places: seq<nat>, swaps: seq<nat>) {
    Valid(r) && Under(places, PlaceBounds(r)) && Under(swaps, SwapBounds(r.length))
  }

  lemma SwapsAreDraws(n: nat, swaps: seq<nat>)
    requires n > 0
    ensures Under(swaps, SwapBounds(n)) <==> FullDraws(n, swaps)
  {
  }

  function Output(r: Recipe, places: seq<nat>, swaps: seq<nat>): (s: string)
    requires ValidDraws(r, places, swaps)
    ensures |s| == r.length
  {
    SwapsAreDraws(r.length, swaps);
    Shuffled(Placed(r, places), swaps)
  }

  /** `generate` as a function of the random bytes it is given. */
  function Generated(r: Recipe, tape: seq<Byte>): Result<string, PasswordError> {
    if !Valid(r) then Err(r.Validate().value)
    else
      TableSizes(r);
      var places := Draws(tape, PlaceBounds(r));
      if places.None? then Err(Randomness)
      else
        var swaps := Draws(places.value.1, SwapBounds(r.length));
        if swaps.None? then Err(Randomness)
        else Ok(Output(r, places.value.0, swaps.value.0))
  }

  // ---------------------------------------------------------------------- methods ---

  method PlaceOne(table: string, src: Csprng) returns (c: Option<char>, ghost d: nat)
    requires 0 < |table| <= 256
    modifies src
    ensures var r := Draw(old(src.tape), |table|);
            && (c.None? <==> r.None?)
            && (r.Some? ==> r.value == (d, src.tape) && c == Some(table[d]))
  {
    var v := UniformBelow(src, |table|);
    d := 0;
    if v.None? {
      return None, 0;
    }
    return Some(table[v.value]), v.value;
  }

  /** Fill the front with a draw from each enabled class, and the remaining positions from the alphabet. */
  method Place(r: Recipe, src: Csprng, out: array<char>) returns (ok: bool)
    requires Valid(r) && out.Length == r.length
    modifies src, out
    ensures Bounded(PlaceBounds(r))
    ensures var d := Draws(old(src.tape), PlaceBounds(r));
            && (ok <==> d.Some?)
            && (ok ==> src.tape == d.value.1 && out[..] == Placed(r, d.value.0))
  {
    hide Alphabet, Draw, Draws, TableAt, PlaceBounds;
    TableSizes(r);
    ghost var bounds := PlaceBounds(r);
    ghost var ds: seq<nat> := [];
    NoDraws(src.tape, bounds);
    var i := 0;
    while i < r.length
      invariant 0 <= i <= r.length && |ds| == i
      invariant Draws(old(src.tape), bounds[..i]) == Some((ds, src.tape))
      invariant forall k :: 0 <= k < i ==> ds[k] < bounds[k] && out[k] == TableAt(r, k)[ds[k]]
    {
      assert |TableAt(r, i)| == bounds[i];
      var c, d := PlaceOne(TableAt(r, i), src);
      if c.None? {
        DrawFails(old(src.tape), bounds, i);
        return false;
      }
      DrawsNext(old(src.tape), bounds, i);
      out[i] := c.value;
      ds := ds + [d];
      i := i + 1;
    }
    assert bounds[..i] == bounds;
    assert out[..] == Placed(r, ds);
    return true;
  }

  lemma {:induction false} NoDraws(tape: seq<Byte>, bounds: seq<nat>)
    requires Bounded(bounds)
    ensures Draws(tape, bounds[..0]) == Some(([], tape))
  {
  }

  lemma {:induction false} ShuffledNext(s: string, ds: seq<nat>, j: nat)
    requires ValidSwaps(|s|, ds) && |ds| + 1 < |s| && j <= |s| - 1 - |ds|
    ensures ValidSwaps(|s|, ds + [j])
    ensures Shuffled(s, ds + [j]) == Swap(Shuffled(s, ds), |s| - 1 - |ds|, j)
  {
    hide Swap;
    var next := ds + [j];
    ValidNext(|s|, ds, j);
    assert next[..|next| - 1] == ds;
  }

  lemma ValidNext(n: nat, ds: seq<nat>, j: nat)
    requires ValidSwaps(n, ds) && |ds| + 1 < n && j <= n - 1 - |ds|
    ensures ValidSwaps(n, ds + [j])
  {
    var next := ds + [j];
    forall k | 0 <= k < |next| ensures next[k] <= n - 1 - k {
      if k < |ds| {
        assert next[k] == ds[k];
      }
    }
  }

  /** Fisher-Yates from the last position down. */
  method ShuffleInPlace(out: array<char>, src: Csprng) returns (ok: bool)
    requires 0 < out.Length <= 256
    modifies src, out
    ensures Bounded(SwapBounds(out.Length))
    ensures var d := Draws(old(src.tape), SwapBounds(out.Length));
            && (ok <==> d.Some?)
            && (ok ==> src.tape == d.value.1 && FullDraws(out.Length, d.value.0)
                       && out[..] == Shuffled(old(out[..]), d.value.0))
  {
    hide Draw, Draws, Swap, Shuffled, ValidSwaps, SwapBounds;
    var n := out.Length;
    ghost var bounds := SwapBounds(n);
    ghost var ds: seq<nat> := [];
    NoDraws(src.tape, bounds);
    NoSwaps(out[..]);
    var i := n - 1;
    while i > 0
      invariant 0 <= i < n && |ds| == n - 1 - i
      invariant Draws(old(src.tape), bounds[..n - 1 - i]) == Some((ds, src.tape))
      invariant ValidSwaps(n, ds) && out[..] == Shuffled(old(out[..]), ds)
    {
      var ok, j := SwapStep(out, i, src);
      if !ok {
        DrawFails(old(src.tape), bounds, n - 1 - i);
        return false;
      }
      DrawsNext(old(src.tape), bounds, n - 1 - i);
      ShuffledNext(old(out[..]), ds, j);
      ds := ds + [j];
      i := i - 1;
    }
    assert bounds[..n - 1] == bounds;
    return true;
  }

  lemma {:induction false} NoSwaps(s: string)
    ensures ValidSwaps(|s|, []) && Shuffled(s, []) == s
  {
  }

  /** One round: draw a position at or below `i` and exchange the two. */
  method SwapStep(a: array<char>, i: nat, src: Csprng) returns (ok: bool, ghost j: nat)
    requires 0 < i < a.Length <= 256
    modifies src, a
    ensures var r := Draw(old(src.tape), i + 1);
            && (ok <==> r.Some?)
            && (ok ==> r.value == (j, src.tape) && j <= i && a[..] == Swap(old(a[..]), i, j))
    ensures !ok ==> a[..] == old(a[..])
  {
    var v := UniformBelow(src, i + 1);
    if v.None? {
      return false, 0;
    }
    j := v.value;
    a[i], a[v.value] := a[v.value], a[i];
    return true, j;
  }

  method Generate(r: Recipe, src: Csprng) returns (res: Result<string, PasswordError>)
    modifies src
    ensures res == Generated(r, old(src.tape))
    ensures res == Err(NoCharacterClasses) <==> !r.lowercase && !r.uppercase && !r.digits && !r.symbols
    ensures res == Err(Length) <==> (r.lowercase || r.uppercase || r.digits || r.symbols) && !(8 <= r.length <= 128)
  {
    hide Draws, Shuffled, Placed;
    var invalid := r.Validate();
    if invalid.Some? {
      return Err(invalid.value);
    }
    var out := new char[r.length](_ => ' ');
    var ok := Place(r, src, out);
    if !ok {
      return Err(Randomness);
    }
    ok := ShuffleInPlace(out, src);
    if !ok {
      return Err(Randomness);
    }
    return Ok(out[..]);
  }

  // ---------------------------------------------------------------------- support ---

  /** A password of the requested length over the enabled classes that has each of them. */
  predicate Covering(r: Recipe, t: string) {
    && |t| == r.length
    && (forall c :: c in t ==> c in Alphabet(r))
    && (forall i :: 0 <= i < |r.Classes()| ==> Has(t, r.Classes()[i]))
  }

  predicate Has(t: string, table: string) {
    exists c :: c in t && c in table
  }

  /** What is placed is from the alphabet, and each class gets its position. */
  lemma PlacedCovers(r: Recipe, places: seq<nat>)
    requires Valid(r) && Under(places, PlaceBounds(r))
    ensures Covering(r, Placed(r, places))
  {
    var s := Placed(r, places);
    forall c | c in s ensures c in Alphabet(r) {
      var i :| 0 <= i < |s| && s[i] == c;
      assert c in TableAt(r, i);
      if i < |r.Classes()| {
        UnionHas(r.Classes(), c);
      }
    }
    forall i | 0 <= i < |r.Classes()| ensures Has(s, r.Classes()[i]) {
      assert s[i] in s && s[i] in r.Classes()[i];
    }
  }

  /** Rearranging keeps coverage. */
  lemma CoveringPermutes(r: Recipe, s: string, t: string)
    requires Covering(r, s) && multiset(s) == multiset(t) && |s| == |t|
    ensures Covering(r, t)
  {
    hide Alphabet;
    forall c ensures c in s <==> c in t {
      assert c in s <==> c in multiset(s);
      assert c in t <==> c in multiset(t);
    }
    forall i | 0 <= i < |r.Classes()| ensures Has(t, r.Classes()[i]) {
      assert Has(s, r.Classes()[i]);
    }
  }

  lemma OutputCovers(r: Recipe, places: seq<nat>, swaps: seq<nat>)
    requires ValidDraws(r, places, swaps)
    ensures Covering(r, Output(r, places, swaps))
  {
    hide Covering, Shuffled, Placed;
    SwapsAreDraws(r.length, swaps);
    ShuffledPermutes(Placed(r, places), swaps);
    PlacedCovers(r, places);
    CoveringPermutes(r, Placed(r, places), Output(r, places, swaps));
  }

  predicate PairwiseDisjoint(classes: seq<string>) {
    forall i, j :: 0 <= i < j < |classes| ==> Disjoint(classes[i], classes[j])
  }

  /** Taking one character out leaves the characters of the other classes. */
  lemma HasRest(t: string, p: nat, c: char, other: string)
    requires p < |t| && t[p] == c && c !in other && Has(t, other)
    ensures Has(t[..p] + t[p + 1..], other)
  {
    var rest := t[..p] + t[p + 1..];
    var d :| d in t && d in other;
    var q :| 0 <= q < |t| && t[q] == d;
    assert rest[if q < p then q else q - 1] == d;
  }

  lemma TakenOut(t: string, p: nat)
    requires p < |t|
    ensures multiset([t[p]] + (t[..p] + t[p + 1..])) == multiset(t)
  {
    assert t == t[..p] + [t[p]] + t[p + 1..];
  }

  lemma FindIn(t: string, table: string) returns (c: char, p: nat)
    requires Has(t, table)
    ensures p < |t| && t[p] == c && c in table
  {
    c :| c in t && c in table;
    p :| 0 <= p < |t| && t[p] == c;
  }

  lemma NotInBoth(a: string, b: string, c: char)
    requires Disjoint(a, b) && c in a
    ensures c !in b
  {
  }

  /** Bring one character of each class to the front, in class order. */
  lemma {:induction false} Arrange(t: string, classes: seq<string>) returns (s: string)
    requires PairwiseDisjoint(classes)
    requires forall i :: 0 <= i < |classes| ==> Has(t, classes[i])
    ensures multiset(s) == multiset(t) && |classes| <= |s| == |t|
    ensures forall i :: 0 <= i < |classes| ==> s[i] in classes[i]
    decreases |classes|
  {
    if classes == [] {
      s := t;
    } else {
      hide Has, Disjoint;
      var others := classes[1..];
      var c, p := FindIn(t, classes[0]);
      var rest := t[..p] + t[p + 1..];
      forall i | 0 <= i < |others| ensures Has(rest, others[i]) {
        NotInBoth(classes[0], classes[i + 1], c);
        HasRest(t, p, c, classes[i + 1]);
      }
      forall i, j | 0 <= i < j < |others| ensures Disjoint(others[i], others[j]) {
        assert Disjoint(classes[i + 1], classes[j + 1]);
      }
      var more := Arrange(rest, others);
      s := [c] + more;
      TakenOut(t, p);
      assert multiset(s) == multiset([c]) + multiset(more);
      assert multiset([c] + rest) == multiset([c]) + multiset(rest);
      forall i | 0 <= i < |classes| ensures s[i] in classes[i] {
        if i > 0 {
          assert more[i - 1] in others[i - 1];
        }
      }
    }
  }

  /** Position by position. */
  predicate PlacedSoFar(r: Recipe, s: string, places: seq<nat>)
    requires Valid(r) && |s| == r.length
  {
    |places| <= |s|
    && forall k :: 0 <= k < |places| ==> places[k] < |TableAt(r, k)| && TableAt(r, k)[places[k]] == s[k]
  }

  lemma PlacedAll(r: Recipe, s: string, places: seq<nat>)
    requires Valid(r) && |s| == r.length && PlacedSoFar(r, s, places) && |places| == |s|
    ensures Under(places, PlaceBounds(r)) && Placed(r, places) == s
  {
    hide TableAt, PlaceBounds;
    assert forall k :: 0 <= k < |places| ==> |TableAt(r, k)| == PlaceBounds(r)[k];
  }

  /** The draws that place a given string. */
  lemma PlacesFor(r: Recipe, s: string) returns (places: seq<nat>)
    requires Valid(r) && |s| == r.length
    requires forall i :: 0 <= i < |s| ==> s[i] in TableAt(r, i)
    ensures Under(places, PlaceBounds(r)) && Placed(r, places) == s
  {
    hide TableAt, PlaceBounds;
    places := [];
    while |places| < |s|
      invariant PlacedSoFar(r, s, places)
    {
      var i := |places|;
      var d :| 0 <= d < |TableAt(r, i)| && TableAt(r, i)[d] == s[i];
      places := places + [d];
    }
    PlacedAll(r, s, places);
  }

  lemma ClassesDisjoint(r: Recipe)
    ensures PairwiseDisjoint(r.Classes())
  {
    LowerRange();
    UpperRange();
    DigitsRange();
    SymbolsRange();
  }

  lemma CoveringReached(r: Recipe, t: string) returns (places: seq<nat>, swaps: seq<nat>)
    requires Valid(r) && Covering(r, t)
    ensures ValidDraws(r, places, swaps) && Output(r, places, swaps) == t
  {
    ClassesDisjoint(r);
    var classes := r.Classes();
    var s := Arrange(t, classes);
    forall i | 0 <= i < |s| ensures s[i] in TableAt(r, i) {
      if i >= |r.Classes()| {
        assert s[i] in multiset(s);
        assert s[i] in t;
      }
    }
    places := PlacesFor(r, s);
    swaps := ShuffleReaches(s, t);
    SwapsAreDraws(r.length, swaps);
  }

  /** A character the recipe asks for. */
  predicate Asked(r: Recipe, c: char) {
    || (r.lowercase && 'a' <= c <= 'z') || (r.uppercase && 'A' <= c <= 'Z') || (r.digits && '0' <= c <= '9')
    || (r.symbols && IsPunctuation(c))
  }

  /** The enabled classes come in the order lower case, upper case, digits, symbols, in the alphabet and in the
      mandatory front of what is placed. */
  lemma ClassesInOrder(r: Recipe, places: seq<nat>)
    requires Valid(r) && Under(places, PlaceBounds(r))
    ensures Alphabet(r) == (if r.lowercase then LOWER else "") + (if r.uppercase then UPPER else "")
                           + (if r.digits then DIGITS else "") + (if r.symbols then SYMBOLS else "")
    ensures var s := Placed(r, places);
            var upper := if r.lowercase then 1 else 0;
            var digit := upper + if r.uppercase then 1 else 0;
            var symbol := digit + if r.digits then 1 else 0;
            && (r.lowercase ==> 'a' <= s[0] <= 'z') && (r.uppercase ==> 'A' <= s[upper] <= 'Z')
            && (r.digits ==> '0' <= s[digit] <= '9') && (r.symbols ==> IsPunctuation(s[symbol]))
  {
    LowerRange();
    UpperRange();
    DigitsRange();
    SymbolsRange();
    AlphabetInOrder(r);
    var s := Placed(r, places);
    forall i | 0 <= i < |r.Classes()| ensures s[i] in r.Classes()[i] {
      assert TableAt(r, i) == r.Classes()[i];
    }
  }

  lemma AlphabetInOrder(r: Recipe)
    ensures Alphabet(r) == (if r.lowercase then LOWER else "") + (if r.uppercase then UPPER else "")
                           + (if r.digits then DIGITS else "") + (if r.symbols then SYMBOLS else "")
  {
    UnionOfFour(LOWER, r.lowercase, UPPER, r.uppercase, DIGITS, r.digits, SYMBOLS, r.symbols);
  }

  function Only<T>(x: T, on: bool): seq<T> {
    if on then [x] else []
  }

  lemma UnionOfFour(a: string, onA: bool, b: string, onB: bool, c: string, onC: bool, d: string, onD: bool)
    ensures Union((if onA then [a] else []) + (if onB then [b] else []) + (if onC then [c] else [])
                  + (if onD then [d] else []))
         == (if onA then a else "") + (if onB then b else "") + (if onC then c else "") + (if onD then d else "")
  {
    UnionMore([], a, onA);
    UnionMore(Only(a, onA), b, onB);
    UnionMore(Only(a, onA) + Only(b, onB), c, onC);
    UnionMore(Only(a, onA) + Only(b, onB) + Only(c, onC), d, onD);
    assert [] + Only(a, onA) == Only(a, onA);
    assert Union([]) == "";
  }

  lemma UnionMore(before: seq<string>, table: string, on: bool)
    ensures Union(before + Only(table, on)) == Union(before) + if on then table else ""
  {
    if on {
      assert (before + [table])[..|before|] == before;
    } else {
      assert before + [] == before && Union(before) + "" == Union(before);
    }
  }

  lemma AskedExactly(r: Recipe, c: char)
    ensures c in Alphabet(r) <==> Asked(r, c)
  {
    LowerRange();
    UpperRange();
    DigitsRange();
    SymbolsRange();
    AlphabetInOrder(r);
    InFour(if r.lowercase then LOWER else "", if r.uppercase then UPPER else "", if r.digits then DIGITS else "",
           if r.symbols then SYMBOLS else "", c);
  }

  lemma InFour(a: string, b: string, c: string, d: string, x: char)
    ensures x in a + b + c + d <==> x in a || x in b || x in c || x in d
  {
  }

  lemma EachOfFour(a: string, onA: bool, b: string, onB: bool, c: string, onC: bool, d: string, onD: bool, t: string,
                   cs: seq<string>)
    requires cs == (if onA then [a] else []) + (if onB then [b] else []) + (if onC then [c] else [])
                   + (if onD then [d] else [])
    ensures (forall i :: 0 <= i < |cs| ==> Has(t, cs[i]))
            <==> && (onA ==> Has(t, a)) && (onB ==> Has(t, b)) && (onC ==> Has(t, c)) && (onD ==> Has(t, d))
  {
    hide Has;
    var ab := (if onA then [a] else []) + (if onB then [b] else []);
    var abc := ab + (if onC then [c] else []);
    assert onA ==> cs[0] == a;
    assert onB ==> cs[|ab| - 1] == b;
    assert onC ==> cs[|abc| - 1] == c;
    assert onD ==> cs[|cs| - 1] == d;
  }

  lemma HasExactly(t: string)
    ensures Has(t, LOWER) <==> exists c :: c in t && 'a' <= c <= 'z'
    ensures Has(t, UPPER) <==> exists c :: c in t && 'A' <= c <= 'Z'
    ensures Has(t, DIGITS) <==> exists c :: c in t && '0' <= c <= '9'
    ensures Has(t, SYMBOLS) <==> exists c :: c in t && IsPunctuation(c)
  {
    LowerRange();
    UpperRange();
    DigitsRange();
    SymbolsRange();
  }

  lemma EachClass(r: Recipe, t: string)
    ensures (forall i :: 0 <= i < |r.Classes()| ==> Has(t, r.Classes()[i]))
       <==> && (r.lowercase ==> Has(t, LOWER)) && (r.uppercase ==> Has(t, UPPER))
            && (r.digits ==> Has(t, DIGITS)) && (r.symbols ==> Has(t, SYMBOLS))
  {
    hide Has;
    EachOfFour(LOWER, r.lowercase, UPPER, r.uppercase, DIGITS, r.digits, SYMBOLS, r.symbols, t, r.Classes());
  }

  /** Covering, by what the recipe asks for. */
  lemma CoveringExactly(r: Recipe, t: string)
    ensures Covering(r, t)
       <==> && |t| == r.length && (forall c :: c in t ==> Asked(r, c))
            && (r.lowercase ==> exists c :: c in t && 'a' <= c <= 'z')
            && (r.uppercase ==> exists c :: c in t && 'A' <= c <= 'Z')
            && (r.digits ==> exists c :: c in t && '0' <= c <= '9')
            && (r.symbols ==> exists c :: c in t && IsPunctuation(c))
  {
    hide Alphabet, Asked, Has, Recipe.Classes;
    forall c ensures c in Alphabet(r) <==> Asked(r, c) {
      AskedExactly(r, c);
    }
    HasExactly(t);
    EachClass(r, t);
  }

  /** `generate` can produce exactly the strings of the requested length over the enabled alphabet
      that contain every enabled class, no more and no fewer. */
  lemma Support(r: Recipe, t: string)
    requires Valid(r)
    ensures (exists tape :: Generated(r, tape) == Ok(t)) <==> Covering(r, t)
  {
    TableSizes(r);
    if Covering(r, t) {
      var places, swaps := CoveringReached(r, t);
      var first := TapeFor(places, PlaceBounds(r));
      var second := TapeFor(swaps, SwapBounds(r.length));
      DrawsLocal(first, second, PlaceBounds(r));
      assert [] + second == second;
      assert Generated(r, first + second) == Ok(t);
    }
    forall tape | Generated(r, tape) == Ok(t) ensures Covering(r, t) {
      var places := Draws(tape, PlaceBounds(r)).value;
      var swaps := Draws(places.1, SwapBounds(r.length)).value;
      OutputCovers(r, places.0, swaps.0);
    }
  }
}
