/** The password generator of app/core/src/password.rs: rejection sampling, class coverage and an
    in-place Fisher-Yates shuffle, all fed from one source of random bytes. */
module Password {
  import opened Wrappers
  import opened Bytes
  import opened Sets
  import opened Arith

  // ------------------------------------------------------------ bounded sampling ---

  /** Bytes from here on would favour the small outcomes of a draw below `n`. */
  function Limit(n: nat): nat
    requires 0 < n <= 256
  {
    Quotient(256, n) * n
  }

  lemma LimitRange(n: nat)
    requires 0 < n <= 256
    ensures n <= Limit(n) <= 256
  {
    QuotientRemainder(256, n);
    assert Quotient(256, n) >= 1;
    MulAtLeast(n, Quotient(256, n));
  }

  /** A uniform draw below `n` from a tape of bytes: the first byte under the limit decides. */
  function Draw(tape: seq<Byte>, n: nat): (r: Option<(nat, seq<Byte>)>)
    requires 0 < n <= 256
    ensures r.Some? ==> r.value.0 < n
  {
    if n == 1 then Some((0, tape))
    else if tape == [] then None
    else if tape[0] < Limit(n) then Some((Remainder(tape[0], n), tape[1..]))
    else Draw(tape[1..], n)
  }

  /** How many of the bytes below `m` leave remainder `r`. */
  function Hits(n: nat, r: nat, m: nat): nat
    requires n > 0
  {
    if m == 0 then 0 else Hits(n, r, m - 1) + if Remainder(m - 1, n) == r then 1 else 0
  }

  lemma {:induction false} HitsInBlock(n: nat, r: nat, k: nat, j: nat)
    requires r < n && j <= n
    ensures Hits(n, r, k * n + j) == k + if r < j then 1 else 0
    decreases k, j
  {
    if j > 0 {
      HitsInBlock(n, r, k, j - 1);
      DivMod(k, n, j - 1);
    } else if k > 0 {
      HitsInBlock(n, r, k - 1, n);
      assert k * n == (k - 1) * n + n;
    }
  }

  /** How many of the bytes below `m`, each drawn from alone, give an outcome. */
  function Giving(n: nat, outcome: Option<nat>, m: nat): nat
    requires 0 < n <= 256 && m <= 256
  {
    if m == 0 then 0
    else
      var d := Draw([m - 1], n);
      Giving(n, outcome, m - 1) + if (if d.Some? then Some(d.value.0) else None) == outcome then 1 else 0
  }

  lemma {:induction false} GivingIsHits(n: nat, r: nat, m: nat)
    requires 1 < n <= 256 && r < n && m <= 256
    ensures Giving(n, Some(r), m) == Hits(n, r, if m <= Limit(n) then m else Limit(n))
    decreases m
  {
    hide Limit, Draw;
    if m > 0 {
      GivingIsHits(n, r, m - 1);
      DrawOneByte(m - 1, n);
    }
  }

  lemma DrawOneByte(b: Byte, n: nat)
    requires 1 < n <= 256
    ensures Draw([b], n) == if b < Limit(n) then Some((Remainder(b, n), [])) else None
  {
    assert [b][1..] == [];
    assert Draw([], n) == None;
  }

  lemma {:induction false} GivingNothing(n: nat, m: nat)
    requires 1 < n <= 256 && m <= 256
    ensures Giving(n, None, m) == if m <= Limit(n) then 0 else m - Limit(n)
    decreases m
  {
    hide Limit, Draw;
    if m > 0 {
      GivingNothing(n, m - 1);
      DrawOneByte(m - 1, n);
    }
  }

  /** No modulo bias: of the 256 bytes, equally many give each outcome, and fewer than `n` are rejected. */
  lemma {:induction false} NoModuloBias(n: nat, r: nat)
    requires 1 < n <= 256 && r < n
    ensures Giving(n, Some(r), 256) == Quotient(256, n)
    ensures Giving(n, None, 256) == Remainder(256, n)
  {
    LimitRange(n);
    GivingIsHits(n, r, 256);
    GivingNothing(n, 256);
    HitsInBlock(n, r, Quotient(256, n), 0);
    QuotientRemainder(256, n);
  }

  /** Only the first byte that is not rejected counts, and it is the last one read; a draw below 1 reads none. */
  lemma FirstByteDecides(b: Byte, rest: seq<Byte>, n: nat)
    requires 0 < n <= 256
    ensures n > 1 ==> Draw([b] + rest, n)
                      == if Draw([b], n).Some? then Some((Draw([b], n).value.0, rest)) else Draw(rest, n)
    ensures Draw(rest, 1) == Some((0, rest)) && (n > 1 ==> Draw([], n) == None)
  {
    assert ([b] + rest)[1..] == rest && [b][1..] == [];
    assert n > 1 ==> Draw([], n) == None;
  }

  /** The operating system's random bytes; running out stands for its failure. */
  class Csprng {
    var tape: seq<Byte>

    constructor (tape: seq<Byte>)
      ensures this.tape == tape
    {
      this.tape := tape;
    }

    method Fill() returns (b: Option<Byte>)
      modifies this
      ensures b == if old(tape) == [] then None else Some(old(tape)[0])
      ensures tape == if old(tape) == [] then [] else old(tape)[1..]
    {
      if tape == [] {
        return None;
      }
      b := Some(tape[0]);
      tape := tape[1..];
    }
  }

  method UniformBelow(src: Csprng, n: nat) returns (r: Option<nat>)
    requires 0 < n <= 256
    modifies src
    ensures var d := Draw(old(src.tape), n);
            && (r.None? <==> d.None?)
            && (d.Some? ==> d.value == (r.value, src.tape))
  {
    if n == 1 {
      return Some(0);
    }
    var limit := Quotient(256, n) * n;
    while true
      invariant Draw(src.tape, n) == Draw(old(src.tape), n)
      decreases |src.tape|
    {
      var b := src.Fill();
      if b.None? {
        return None;
      }
      if b.value < limit {
        return Some(Remainder(b.value, n));
      }
    }
  }

  // -------------------------------------------------------------------- shuffle ---

  function Swap<T>(s: seq<T>, i: nat, j: nat): (r: seq<T>)
    requires i < |s| && j < |s|
    ensures |r| == |s|
  {
    s[i := s[j]][j := s[i]]
  }

  /** One draw for each position from the last down, each at most that position. */
  predicate ValidSwaps(n: nat, ds: seq<nat>) {
    (ds == [] || |ds| < n) && forall k :: 0 <= k < |ds| ==> ds[k] <= n - 1 - k
  }

  function Shuffled<T>(s: seq<T>, ds: seq<nat>): (r: seq<T>)
    requires ValidSwaps(|s|, ds)
    ensures |r| == |s|
  {
    if ds == [] then s
    else
      var k := |ds| - 1;
      Swap(Shuffled(s, ds[..k]), |s| - 1 - k, ds[k])
  }

  lemma SwapFacts<T>(s: seq<T>, i: nat, j: nat)
    requires i < |s| && j < |s|
    ensures multiset(Swap(s, i, j)) == multiset(s) && Swap(s, i, j)[i] == s[j]
  {
  }

  lemma {:induction false} ShuffledPermutes<T>(s: seq<T>, ds: seq<nat>)
    requires ValidSwaps(|s|, ds)
    ensures multiset(Shuffled(s, ds)) == multiset(s)
    decreases |ds|
  {
    if ds != [] {
      ShuffledPermutes(s, ds[..|ds| - 1]);
    }
  }

  lemma SwapFront<T>(front: seq<T>, last: T, i: nat, j: nat)
    requires i < |front| && j < |front|
    ensures Swap(front + [last], i, j) == Swap(front, i, j) + [last]
  {
  }

  lemma RestValid(n: nat, ds: seq<nat>)
    requires ds != [] && ValidSwaps(n, ds)
    ensures n > 1 && ValidSwaps(n - 1, ds[1..])
  {
    assert forall k :: 0 <= k < |ds[1..]| ==> ds[1..][k] == ds[k + 1];
  }

  /** The first draw settles the last element; the others shuffle what is before it. */
  lemma {:induction false} FirstSwap<T>(s: seq<T>, ds: seq<nat>)
    requires ds != [] && ValidSwaps(|s|, ds)
    ensures ValidSwaps(|s| - 1, ds[1..])
    ensures var s1 := Swap(s, |s| - 1, ds[0]);
            Shuffled(s, ds) == Shuffled(s1[..|s| - 1], ds[1..]) + [s1[|s| - 1]]
    decreases |ds|
  {
    hide Swap;
    var n := |s|;
    var s1 := Swap(s, n - 1, ds[0]);
    RestValid(n, ds);
    if |ds| == 1 {
      assert ds[..0] == [] && ds[1..] == [];
      assert s1 == s1[..n - 1] + [s1[n - 1]];
    } else {
      var k := |ds| - 1;
      FirstSwap(s, ds[..k]);
      var rest := ds[1..];
      assert ds[..k][1..] == rest[..k - 1] && ds[..k][0] == ds[0];
      assert |rest| == k && rest[k - 1] == ds[k];
      var front := Shuffled(s1[..n - 1], rest[..k - 1]);
      SwapFront(front, s1[n - 1], n - 1 - k, ds[k]);
    }
  }

  /** Taking a matching element out of both leaves arrangements of the same elements. */
  lemma DropLast<T>(s: seq<T>, t: seq<T>)
    requires multiset(s) == multiset(t) && s != [] && t != [] && s[|s| - 1] == t[|t| - 1]
    ensures multiset(s[..|s| - 1]) == multiset(t[..|t| - 1])
  {
    assert s == s[..|s| - 1] + [s[|s| - 1]] && t == t[..|t| - 1] + [t[|t| - 1]];
    assert multiset(s[..|s| - 1]) == multiset(s) - multiset{s[|s| - 1]};
  }

  lemma PrependSwap(n: nat, j: nat, rest: seq<nat>)
    requires n > 1 && j < n && ValidSwaps(n - 1, rest)
    ensures ValidSwaps(n, [j] + rest)
  {
    var ds := [j] + rest;
    forall k | 0 <= k < |ds| ensures ds[k] <= n - 1 - k {
      if k > 0 {
        assert ds[k] == rest[k - 1];
      }
    }
  }

  /** Every arrangement is reached by some draws, also when elements repeat. */
  lemma {:induction false} ShuffleReaches<T>(s: seq<T>, t: seq<T>) returns (ds: seq<nat>)
    requires multiset(s) == multiset(t) && s != []
    ensures ValidSwaps(|s|, ds) && |ds| == |s| - 1 && Shuffled(s, ds) == t
    decreases |s|
  {
    hide ValidSwaps, Swap, Shuffled;
    assert |s| == |multiset(s)| == |t|;
    var n := |s|;
    if n == 1 {
      ds := OneElement(s, t);
    } else {
      var last := t[n - 1];
      assert last in multiset(s);
      var j :| 0 <= j < n && s[j] == last;
      var s1 := Swap(s, n - 1, j);
      SwapFacts(s, n - 1, j);
      DropLast(s1, t);
      var rest := ShuffleReaches(s1[..n - 1], t[..n - 1]);
      ds := [j] + rest;
      PrependSwap(n, j, rest);
      FirstSwap(s, ds);
      assert ds[1..] == rest && t == t[..n - 1] + [last];
    }
  }

  lemma OneElement<T>(s: seq<T>, t: seq<T>) returns (ds: seq<nat>)
    requires multiset(s) == multiset(t) && |s| == |t| == 1
    ensures ds == [] && ValidSwaps(|s|, ds) && Shuffled(s, ds) == t
  {
    ds := [];
    assert s[0] in multiset(t);
    assert s == t;
  }

  /** Different draws give different arrangements of distinct elements. */
  lemma {:induction false} ShuffleInjective<T>(s: seq<T>, a: seq<nat>, b: seq<nat>)
    requires Distinct(s) && |a| == |b| == |s| - 1 && ValidSwaps(|s|, a) && ValidSwaps(|s|, b)
    requires Shuffled(s, a) == Shuffled(s, b)
    ensures a == b
    decreases |s|
  {
    var n := |s|;
    if n > 1 {
      hide Shuffled, ValidSwaps;
      FirstSwap(s, a);
      FirstSwap(s, b);
      var sa, sb := Swap(s, n - 1, a[0]), Swap(s, n - 1, b[0]);
      SameEnds(Shuffled(sa[..n - 1], a[1..]), sa[n - 1], Shuffled(sb[..n - 1], b[1..]), sb[n - 1]);
      assert a[0] == b[0] by {
        FirstBounds(n, a);
        FirstBounds(n, b);
      }
      DistinctSwap(s, a[0]);
      ShuffleInjective(sa[..n - 1], a[1..], b[1..]);
      assert a == [a[0]] + a[1..] && b == [b[0]] + b[1..];
    }
  }

  lemma FirstBounds(n: nat, ds: seq<nat>)
    requires ds != [] && ValidSwaps(n, ds)
    ensures ds[0] < n
  {
  }

  lemma DistinctSwap<T>(s: seq<T>, j: nat)
    requires Distinct(s) && j < |s|
    ensures Distinct(Swap(s, |s| - 1, j)[..|s| - 1])
  {
  }

  /** The draws for one shuffle of `n` elements. */
  predicate FullDraws(n: nat, ds: seq<nat>) {
    |ds| + 1 == n && ValidSwaps(n, ds)
  }

  /** The shuffle is a bijection from draw vectors onto the arrangements of distinct elements. */
  lemma {:induction false} ShuffleBijective<T>(s: seq<T>, t: seq<T>)
    requires Distinct(s) && s != []
    ensures multiset(t) == multiset(s) <==> exists ds :: FullDraws(|s|, ds) && Shuffled(s, ds) == t
    ensures forall a, b :: FullDraws(|s|, a) && FullDraws(|s|, b) && Shuffled(s, a) == Shuffled(s, b) ==> a == b
  {
    if multiset(t) == multiset(s) {
      var ds := ShuffleReaches(s, t);
      assert FullDraws(|s|, ds);
    }
    forall ds | FullDraws(|s|, ds) ensures multiset(Shuffled(s, ds)) == multiset(s) {
      ShuffledPermutes(s, ds);
    }
    forall a, b | FullDraws(|s|, a) && FullDraws(|s|, b) && Shuffled(s, a) == Shuffled(s, b)
      ensures a == b
    {
      ShuffleInjective(s, a, b);
    }
  }

  // -------------------------------------------------------------------- recipes ---

  const MIN_LENGTH: nat := 8
  const MAX_LENGTH: nat := 128

  const LOWER: string := "abcdefghijklmnopqrstuvwxyz"
  const UPPER: string := "ABCDEFGHIJKLMNOPQRSTUVWXYZ"
  const DIGITS: string := "0123456789"
  const SYMBOLS: string := "!#$%&()*+,-./:;<=>?@[]^_{|}~\"'\\`"

  datatype PasswordError = NoCharacterClasses | Length | Randomness

  datatype Recipe = Recipe(length: nat, lowercase: bool, uppercase: bool, digits: bool, symbols: bool) {
    /** The enabled classes in a stable order. */
    function Classes(): (cs: seq<string>)
      ensures |cs| <= 4 && forall i :: 0 <= i < |cs| ==> cs[i] in [LOWER, UPPER, DIGITS, SYMBOLS]
    {
      (if lowercase then [LOWER] else [])
      + (if uppercase then [UPPER] else [])
      + (if digits then [DIGITS] else [])
      + (if symbols then [SYMBOLS] else [])
    }

    function Validate(): Option<PasswordError> {
      if Classes() == [] then Some(NoCharacterClasses)
      else if !(MIN_LENGTH <= length <= MAX_LENGTH) then Some(Length)
      else None
    }
  }

  function Union(classes: seq<string>): string {
    if classes == [] then "" else Union(classes[..|classes| - 1]) + classes[|classes| - 1]
  }

  predicate InSome(classes: seq<string>, c: char) {
    exists i :: 0 <= i < |classes| && c in classes[i]
  }

  lemma InSomeStep(classes: seq<string>, c: char)
    requires classes != []
    ensures InSome(classes, c) <==> InSome(classes[..|classes| - 1], c) || c in classes[|classes| - 1]
  {
    var n := |classes| - 1;
    if InSome(classes[..n], c) {
      var i :| 0 <= i < n && c in classes[..n][i];
      assert c in classes[i];
    }
    if InSome(classes, c) {
      var i :| 0 <= i < |classes| && c in classes[i];
      assert i < n ==> c in classes[..n][i];
    }
  }

  lemma {:induction false} UnionHas(classes: seq<string>, c: char)
    ensures c in Union(classes) <==> InSome(classes, c)
    decreases |classes|
  {
    if classes != [] {
      hide InSome;
      UnionHas(classes[..|classes| - 1], c);
      InSomeStep(classes, c);
    }
  }

  predicate Disjoint(a: string, b: string) {
    forall c :: c in a ==> c !in b
  }

  // The classes, by what is in them.

  lemma LowerAt(i: nat)
    requires i < 26
    ensures |LOWER| == |UPPER| == 26 && LOWER[i] as int == 'a' as int + i && UPPER[i] as int == 'A' as int + i
  {
  }

  lemma LowerRange()
    ensures forall c :: c in LOWER <==> 'a' <= c <= 'z'
  {
    forall c | 'a' <= c <= 'z' ensures c in LOWER {
      LowerAt(c as int - 'a' as int);
    }
  }

  lemma UpperRange()
    ensures forall c :: c in UPPER <==> 'A' <= c <= 'Z'
  {
    forall c | 'A' <= c <= 'Z' ensures c in UPPER {
      LowerAt(c as int - 'A' as int);
    }
  }

  lemma DigitsRange()
    ensures forall c :: c in DIGITS <==> '0' <= c <= '9'
  {
    forall c | '0' <= c <= '9' ensures c in DIGITS {
      assert DIGITS[c as int - '0' as int] == c;
    }
  }

  predicate IsPunctuation(c: char) {
    '!' <= c <= '~' && !('a' <= c <= 'z') && !('A' <= c <= 'Z') && !('0' <= c <= '9')
  }

  lemma SymbolsRange()
    ensures forall c :: c in SYMBOLS <==> IsPunctuation(c)
  {
    forall c | IsPunctuation(c) ensures c in SYMBOLS {
      if c <= '@' {
        SymbolsBelow(c);
      } else {
        SymbolsAbove(c);
      }
    }
  }

  lemma SymbolsBelow(c: char)
    requires IsPunctuation(c) && c <= '@'
    ensures c in SYMBOLS
  {
    var n := c as int;
    assert n == 33 ==> SYMBOLS[0] == c;
    assert 35 <= n <= 38 ==> SYMBOLS[n - 34] == c;
    assert 40 <= n <= 47 ==> SYMBOLS[n - 35] == c;
    assert 58 <= n <= 64 ==> SYMBOLS[n - 45] == c;
    assert n == 34 ==> SYMBOLS[28] == c;
    assert n == 39 ==> SYMBOLS[29] == c;
  }

  lemma SymbolsAbove(c: char)
    requires IsPunctuation(c) && c > '@'
    ensures c in SYMBOLS
  {
    var n := c as int;
    assert n == 91 ==> SYMBOLS[20] == c;
    assert 93 <= n <= 95 ==> SYMBOLS[n - 72] == c;
    assert 123 <= n <= 126 ==> SYMBOLS[n - 99] == c;
    assert n == 92 ==> SYMBOLS[30] == c;
    assert n == 96 ==> SYMBOLS[31] == c;
  }
}
