/** How often each password comes out of `generate`: the number of draw vectors that produce a given
    string, and exactly when that number is the same for all of them. */
module Weights {
  import opened Sets
  import opened Password
  import opened Generator

  /** What a position may hold before the shuffle: a character of one class, or any. */
  datatype Label = Any | Class(table: string) {
    predicate Admits(c: char) {
      Any? || c in table
    }
  }

  // ------------------------------------------------------------------- counting ---

  /** How many characters of `t` are in the table. */
  function Count(t: string, table: string): nat {
    if t == "" then 0
    else Count(t[..|t| - 1], table) + if t[|t| - 1] in table then 1 else 0
  }

  function Weight(l: Label, t: string): nat {
    if l.Any? then 1 else Count(t, l.table)
  }

  function Product(ls: seq<Label>, t: string): nat {
    if ls == [] then 1 else Product(ls[..|ls| - 1], t) * Weight(ls[|ls| - 1], t)
  }

  function Anys(ls: seq<Label>): nat {
    if ls == [] then 0 else Anys(ls[..|ls| - 1]) + if ls[|ls| - 1].Any? then 1 else 0
  }

  function Factorial(n: nat): (f: nat)
    ensures f > 0
  {
    if n == 0 then 1 else n * Factorial(n - 1)
  }

  /** No character belongs to two of the classes. */
  predicate Mix(ls: seq<Label>) {
    forall i, j :: 0 <= i < j < |ls| && ls[i].Class? && ls[j].Class? ==> Disjoint(ls[i].table, ls[j].table)
  }

  /** What is left before the last position once element `j` has been swapped into it. */
  function Take<T>(s: seq<T>, j: nat): (r: seq<T>)
    requires j < |s|
    ensures |r| == |s| - 1
  {
    Swap(s, |s| - 1, j)[..|s| - 1]
  }

  lemma TakeIs<T>(s: seq<T>, j: nat)
    requires j < |s|
    ensures var n := |s| - 1;
            Take(s, j) == if j == n then s[..n] else s[..n][j := s[n]]
  {
  }

  lemma {:induction false} CountSnoc(t: string, c: char, table: string)
    ensures Count(t + [c], table) == Count(t, table) + if c in table then 1 else 0
  {
    assert (t + [c])[..|t|] == t;
  }

  lemma Shuffle3(a: nat, b: nat, c: nat)
    ensures a * b * c == a * c * b
  {
    assert b * c == c * b;
    assert a * (b * c) == a * b * c && a * (c * b) == a * c * b;
  }

  lemma {:induction false} ProductUpdate(ls: seq<Label>, j: nat, x: Label, t: string)
    requires j < |ls|
    ensures Product(ls[j := x], t) * Weight(ls[j], t) == Product(ls, t) * Weight(x, t)
    decreases |ls|
  {
    hide Weight;
    var n := |ls| - 1;
    var wj, wx, wn := Weight(ls[j], t), Weight(x, t), Weight(ls[n], t);
    if j == n {
      assert ls[j := x][..n] == ls[..n];
      Shuffle3(Product(ls[..n], t), wx, wj);
    } else {
      ProductUpdate(ls[..n], j, x, t);
      assert ls[j := x][..n] == ls[..n][j := x];
      Shuffle3(Product(ls[..n][j := x], t), wn, wj);
      Shuffle3(Product(ls[..n], t), wn, wx);
    }
  }

  lemma {:induction false} ProductTake(ls: seq<Label>, j: nat, t: string)
    requires j < |ls|
    ensures Product(ls, t) == Product(Take(ls, j), t) * Weight(ls[j], t)
  {
    hide Weight;
    TakeIs(ls, j);
    var n := |ls| - 1;
    if j < n {
      ProductUpdate(ls[..n], j, ls[n], t);
    }
  }

  lemma {:induction false} AnysUpdate(ls: seq<Label>, j: nat, x: Label)
    requires j < |ls|
    ensures Anys(ls[j := x]) + (if ls[j].Any? then 1 else 0) == Anys(ls) + if x.Any? then 1 else 0
    decreases |ls|
  {
    var n := |ls| - 1;
    if j == n {
      assert ls[j := x][..n] == ls[..n];
    } else {
      AnysUpdate(ls[..n], j, x);
      assert ls[j := x][..n] == ls[..n][j := x];
    }
  }

  lemma {:induction false} AnysStep(ls: seq<Label>)
    requires ls != []
    ensures Anys(ls) == Anys(ls[..|ls| - 1]) + if ls[|ls| - 1].Any? then 1 else 0
  {
  }

  lemma {:induction false} AnysTake(ls: seq<Label>, j: nat)
    requires j < |ls|
    ensures Anys(ls) == Anys(Take(ls, j)) + if ls[j].Any? then 1 else 0
  {
    hide Take, Anys;
    TakeIs(ls, j);
    AnysStep(ls);
    var n := |ls| - 1;
    if j < n {
      AnysUpdate(ls[..n], j, ls[n]);
    }
  }

  lemma {:induction false} AnysAtMost(ls: seq<Label>)
    ensures Anys(ls) <= |ls|
    ensures Anys(ls) == |ls| <==> forall i :: 0 <= i < |ls| ==> ls[i].Any?
    decreases |ls|
  {
    if ls != [] {
      AnysAtMost(ls[..|ls| - 1]);
    }
  }

  lemma MixTake(ls: seq<Label>, j: nat)
    requires Mix(ls) && j < |ls|
    ensures Mix(Take(ls, j))
  {
    TakeIs(ls, j);
    var s, n := Take(ls, j), |ls| - 1;
    forall a, b | 0 <= a < b < |s| && s[a].Class? && s[b].Class? ensures Disjoint(s[a].table, s[b].table) {
      assert s[a] == ls[if a == j then n else a] && s[b] == ls[if b == j then n else b];
      if a == j {
        assert Disjoint(ls[b].table, ls[n].table);
      }
    }
  }

  /** No class among the labels has the character. */
  predicate Misses(ls: seq<Label>, c: char) {
    forall i :: 0 <= i < |ls| ==> ls[i].Any? || c !in ls[i].table
  }

  /** The one class among the labels that has the character; `|ls|` if none does. */
  predicate Hit(ls: seq<Label>, c: char, h: nat) {
    && h <= |ls|
    && (h < |ls| ==> ls[h].Class? && c in ls[h].table)
    && forall i :: 0 <= i < |ls| && i != h ==> ls[i].Any? || c !in ls[i].table
  }

  lemma FindHit(ls: seq<Label>, c: char) returns (h: nat)
    requires Mix(ls)
    ensures Hit(ls, c, h)
  {
    if i :| 0 <= i < |ls| && ls[i].Class? && c in ls[i].table {
      h := i;
      forall k | 0 <= k < |ls| && k != h && ls[k].Class? ensures c !in ls[k].table {
        if k < h {
          assert Disjoint(ls[k].table, ls[h].table);
        } else {
          assert Disjoint(ls[h].table, ls[k].table);
        }
      }
    } else {
      h := |ls|;
    }
  }

  lemma HitTaken(ls: seq<Label>, c: char, h: nat)
    requires Hit(ls, c, h) && h < |ls|
    ensures Misses(Take(ls, h), c)
  {
    TakeIs(ls, h);
  }

  lemma {:induction false} ProductMiss(ls: seq<Label>, t: string, c: char)
    requires Misses(ls, c)
    ensures Product(ls, t + [c]) == Product(ls, t)
    decreases |ls|
  {
    if ls != [] {
      var n := |ls| - 1;
      ProductMiss(ls[..n], t, c);
      if ls[n].Class? {
        CountSnoc(t, c, ls[n].table);
      }
    }
  }

  /** One more character of class `h`: every way to do without it, and every way to spend it there. */
  lemma {:induction false} ProductHit(ls: seq<Label>, t: string, c: char, h: nat)
    requires Hit(ls, c, h)
    ensures Product(ls, t + [c]) == Product(ls, t) + if h < |ls| then Product(Take(ls, h), t) else 0
  {
    if h < |ls| {
      var rest := Take(ls, h);
      HitTaken(ls, c, h);
      ProductMiss(rest, t, c);
      ProductTake(ls, h, t);
      ProductTake(ls, h, t + [c]);
      CountSnoc(t, c, ls[h].table);
      OneMore(Product(rest, t), Count(t, ls[h].table));
    } else {
      ProductMiss(ls, t, c);
    }
  }

  lemma OneMore(a: nat, b: nat)
    ensures a * (b + 1) == a * b + a
  {
  }

  /** With fewer characters than classes some class has none of them. */
  lemma {:induction false} Pigeonhole(ls: seq<Label>, t: string)
    requires Mix(ls) && |t| + Anys(ls) < |ls|
    ensures Product(ls, t) == 0
    decreases |t|
  {
    if t == "" {
      AnysAtMost(ls);
      var j :| 0 <= j < |ls| && !ls[j].Any?;
      ProductTake(ls, j, t);
      assert Weight(ls[j], t) == 0;
    } else {
      var front, c := t[..|t| - 1], t[|t| - 1];
      assert t == front + [c];
      Pigeonhole(ls, front);
      var h := FindHit(ls, c);
      ProductHit(ls, front, c, h);
      if h < |ls| {
        MixTake(ls, h);
        AnysTake(ls, h);
        Pigeonhole(Take(ls, h), front);
      }
    }
  }

  // ------------------------------------------------------- undoing the shuffle ---

  /** The string that given draws shuffle into `t`. */
  function Back(t: string, ds: seq<nat>): (s: string)
    requires FullDraws(|t|, ds)
    ensures |s| == |t|
    decreases |t|
  {
    var n := |t| - 1;
    if n == 0 then t
    else
      RestValid(|t|, ds);
      Swap(Back(t[..n], ds[1..]) + [t[n]], n, ds[0])
  }

  lemma SwapTwice<T>(s: seq<T>, i: nat, j: nat)
    requires i < |s| && j < |s|
    ensures Swap(Swap(s, i, j), i, j) == s
  {
  }

  lemma {:induction false} BackShuffles(t: string, ds: seq<nat>)
    requires FullDraws(|t|, ds)
    ensures Shuffled(Back(t, ds), ds) == t
    decreases |t|
  {
    var n := |t| - 1;
    if n > 0 {
      hide Shuffled, Swap;
      RestValid(|t|, ds);
      BackShuffles(t[..n], ds[1..]);
      var inner := Back(t[..n], ds[1..]) + [t[n]];
      SwapTwice(inner, n, ds[0]);
      FirstSwap(Back(t, ds), ds);
      assert inner[..n] == Back(t[..n], ds[1..]);
      assert t == t[..n] + [t[n]];
    }
  }

  lemma {:induction false} BackStep(t: string, ds: seq<nat>)
    requires FullDraws(|t|, ds) && |t| > 1
    ensures var n := |t| - 1;
            FullDraws(n, ds[1..]) && ds[0] < |t|
            && Back(t, ds) == Swap(Back(t[..n], ds[1..]) + [t[n]], n, ds[0])
  {
    RestValid(|t|, ds);
  }

  lemma BackOfOne(s: string, ds: seq<nat>)
    requires FullDraws(|s|, ds) && |s| <= 1
    ensures Back(Shuffled(s, ds), ds) == s
  {
  }

  lemma {:induction false} BackUnique(s: string, ds: seq<nat>)
    requires FullDraws(|s|, ds)
    ensures Back(Shuffled(s, ds), ds) == s
    decreases |s|
  {
    hide Shuffled, Swap, Back, ValidSwaps;
    var n := |s| - 1;
    if n <= 0 {
      BackOfOne(s, ds);
    } else {
      RestValid(|s|, ds);
      FirstBounds(|s|, ds);
      BackUnique(Swap(s, n, ds[0])[..n], ds[1..]);
      BackOfNext(s, ds);
    }
  }

  /** One draw on top of a shuffle that is undone. */
  lemma BackOfNext(s: string, ds: seq<nat>)
    requires FullDraws(|s|, ds) && |s| > 1
    requires ds[0] < |s| && FullDraws(|s| - 1, ds[1..])
    requires var front := Swap(s, |s| - 1, ds[0])[..|s| - 1];
             Back(Shuffled(front, ds[1..]), ds[1..]) == front
    ensures Back(Shuffled(s, ds), ds) == s
  {
    hide Shuffled, Swap, Back, ValidSwaps;
    var n := |s| - 1;
    var s1 := Swap(s, n, ds[0]);
    FirstSwap(s, ds);
    var t := Shuffled(s, ds);
    BackStep(t, ds);
    assert t[..n] == Shuffled(s1[..n], ds[1..]) && t[n] == s1[n];
    assert s1[..n] + [s1[n]] == s1;
    SwapTwice(s, n, ds[0]);
  }

  // -------------------------------------------------------- listing all the draws ---

  predicate Fits(ls: seq<Label>, s: string) {
    |ls| == |s| && forall i :: 0 <= i < |s| ==> ls[i].Admits(s[i])
  }

  function Prefixed(j: nat, all: seq<seq<nat>>): (r: seq<seq<nat>>)
    ensures |r| == |all| && forall i :: 0 <= i < |all| ==> r[i] == [j] + all[i]
  {
    seq(|all|, i requires 0 <= i < |all| => [j] + all[i])
  }

  /** The draws that shuffle a string fitting the labels into `t`. */
  function Sols(ls: seq<Label>, t: string): seq<seq<nat>>
    requires |ls| == |t| > 0
    decreases |t|, |t| + 1
  {
    if |t| == 1 then if ls[0].Admits(t[0]) then [[]] else []
    else SolsBelow(ls, t, |t|)
  }

  /** Those whose first draw is below `k`. */
  function SolsBelow(ls: seq<Label>, t: string, k: nat): seq<seq<nat>>
    requires |ls| == |t| > 1 && k <= |t|
    decreases |t|, k
  {
    if k == 0 then []
    else SolsBelow(ls, t, k - 1) + SolsAt(ls, t, k - 1)
  }

  /** Those whose first draw is `j`. */
  function SolsAt(ls: seq<Label>, t: string, j: nat): seq<seq<nat>>
    requires |ls| == |t| > 1 && j < |t|
    decreases |t|, 0
  {
    var n := |t| - 1;
    if ls[j].Admits(t[n]) then Prefixed(j, Sols(Take(ls, j), t[..n])) else []
  }

  predicate Solves(ls: seq<Label>, t: string, ds: seq<nat>) {
    FullDraws(|t|, ds) && Fits(ls, Back(t, ds))
  }

  lemma FitsSwapped(ls: seq<Label>, s: string, c: char, j: nat)
    requires |ls| == |s| + 1 && j < |ls|
    ensures Fits(ls, Swap(s + [c], |s|, j)) <==> ls[j].Admits(c) && Fits(Take(ls, j), s)
  {
    var w := Swap(s + [c], |s|, j);
    TakeIs(ls, j);
    if Fits(ls, w) {
      forall i | 0 <= i < |s| ensures Take(ls, j)[i].Admits(s[i]) {
        assert ls[if i == j then |s| else i].Admits(w[if i == j then |s| else i]);
      }
      assert ls[j].Admits(w[j]);
    }
    if ls[j].Admits(c) && Fits(Take(ls, j), s) {
      forall i | 0 <= i < |w| ensures ls[i].Admits(w[i]) {
        if i == |s| && j < |s| {
          assert Take(ls, j)[j].Admits(s[j]);
        } else if i != j {
          assert Take(ls, j)[i].Admits(s[i]);
        }
      }
    }
  }

  lemma FullFromRest(n: nat, ds: seq<nat>)
    requires ds != [] && ds[0] < n && FullDraws(n - 1, ds[1..])
    ensures FullDraws(n, ds)
  {
    PrependSwap(n, ds[0], ds[1..]);
    assert [ds[0]] + ds[1..] == ds;
  }

  lemma SolvesRest(ls: seq<Label>, t: string, ds: seq<nat>)
    requires |ls| == |t| > 1
    ensures Solves(ls, t, ds)
       <==> ds != [] && ds[0] < |t| && ls[ds[0]].Admits(t[|t| - 1]) && Solves(Take(ls, ds[0]), t[..|t| - 1], ds[1..])
  {
    hide Swap, Take, Fits, ValidSwaps;
    var n := |t| - 1;
    if ds != [] && ds[0] < |t| && FullDraws(n, ds[1..]) {
      FullFromRest(|t|, ds);
    }
    if FullDraws(|t|, ds) {
      FirstBounds(|t|, ds);
      RestValid(|t|, ds);
      FitsSwapped(ls, Back(t[..n], ds[1..]), t[n], ds[0]);
    }
  }

  lemma InPrefixed(j: nat, all: seq<seq<nat>>, ds: seq<nat>)
    ensures ds in Prefixed(j, all) <==> ds != [] && ds[0] == j && ds[1..] in all
    ensures Distinct(all) ==> Distinct(Prefixed(j, all))
  {
    if ds in Prefixed(j, all) {
      var i :| 0 <= i < |all| && Prefixed(j, all)[i] == ds;
      assert ds[1..] == all[i];
    }
    if ds != [] && ds[0] == j && ds[1..] in all {
      var i :| 0 <= i < |all| && all[i] == ds[1..];
      assert Prefixed(j, all)[i] == [j] + ds[1..] == ds;
    }
    if Distinct(all) {
      forall a, b | 0 <= a < b < |all| ensures Prefixed(j, all)[a] != Prefixed(j, all)[b] {
        assert Prefixed(j, all)[a][1..] == all[a] && Prefixed(j, all)[b][1..] == all[b];
      }
    }
  }

  lemma DistinctConcat<T>(a: seq<T>, b: seq<T>)
    requires Distinct(a) && Distinct(b) && forall x :: x in a ==> x !in b
    ensures Distinct(a + b)
  {
    forall i, j | 0 <= i < j < |a + b| ensures (a + b)[i] != (a + b)[j] {
      if i < |a| <= j {
        assert a[i] in a && b[j - |a|] in b;
      }
    }
  }

  lemma {:induction false} SolsAre(ls: seq<Label>, t: string)
    requires |ls| == |t| > 0
    ensures Distinct(Sols(ls, t)) && forall ds :: ds in Sols(ls, t) <==> Solves(ls, t, ds)
    decreases |t|, |t| + 1
  {
    if |t| == 1 {
      forall ds ensures ds in Sols(ls, t) <==> Solves(ls, t, ds) {
        if FullDraws(1, ds) {
          assert ds == [];
        }
      }
    } else {
      SolsBelowAre(ls, t, |t|);
      forall ds ensures ds in Sols(ls, t) <==> Solves(ls, t, ds) {
        SolvesRest(ls, t, ds);
      }
    }
  }

  lemma {:induction false} SolsBelowAre(ls: seq<Label>, t: string, k: nat)
    requires |ls| == |t| > 1 && k <= |t|
    ensures Distinct(SolsBelow(ls, t, k))
    ensures forall ds :: ds in SolsBelow(ls, t, k) <==> Solves(ls, t, ds) && ds != [] && ds[0] < k
    decreases |t|, k
  {
    if k > 0 {
      hide Solves, SolsAt, Distinct;
      SolsBelowAre(ls, t, k - 1);
      SolsAtAre(ls, t, k - 1);
      DistinctConcat(SolsBelow(ls, t, k - 1), SolsAt(ls, t, k - 1));
    }
  }

  lemma {:induction false} SolsAtAre(ls: seq<Label>, t: string, j: nat)
    requires |ls| == |t| > 1 && j < |t|
    ensures Distinct(SolsAt(ls, t, j))
    ensures forall ds :: ds in SolsAt(ls, t, j) <==> Solves(ls, t, ds) && ds != [] && ds[0] == j
    decreases |t|, 0
  {
    hide Solves, Sols, Take;
    var n := |t| - 1;
    var inner := Sols(Take(ls, j), t[..n]);
    SolsAre(Take(ls, j), t[..n]);
    InPrefixed(j, inner, []);
    forall ds ensures ds in SolsAt(ls, t, j) <==> Solves(ls, t, ds) && ds != [] && ds[0] == j {
      SolvesRest(ls, t, ds);
      InPrefixed(j, inner, ds);
    }
  }

  // ------------------------------------------------------------- how many there are ---

  function Total(ls: seq<Label>, t: string): nat {
    Factorial(Anys(ls)) * Product(ls, t)
  }

  /** What one unlabelled position contributes. */
  function AnyShare(ls: seq<Label>, front: string): nat {
    if Anys(ls) == 0 then 0 else Factorial(Anys(ls) - 1) * Product(ls, front)
  }

  function HitShare(ls: seq<Label>, front: string, h: nat): nat
    requires h < |ls|
  {
    Factorial(Anys(ls)) * Product(Take(ls, h), front)
  }

  lemma OneShare(ls: seq<Label>, t: string, j: nat, h: nat)
    requires |ls| == |t| > 1 && j < |t| && Hit(ls, t[|t| - 1], h)
    requires |Sols(Take(ls, j), t[..|t| - 1])| == Total(Take(ls, j), t[..|t| - 1])
    ensures |SolsAt(ls, t, j)|
         == if ls[j].Any? then AnyShare(ls, t[..|t| - 1]) else if j == h then HitShare(ls, t[..|t| - 1], j) else 0
  {
    hide Sols, Take, Product, Factorial;
    var front := t[..|t| - 1];
    AnysTake(ls, j);
    ProductTake(ls, j, front);
  }

  lemma {:induction false} SumBelow(ls: seq<Label>, t: string, k: nat, h: nat)
    requires |ls| == |t| > 1 && k <= |t| && Hit(ls, t[|t| - 1], h)
    requires forall j :: 0 <= j < |t| ==> |Sols(Take(ls, j), t[..|t| - 1])| == Total(Take(ls, j), t[..|t| - 1])
    ensures |SolsBelow(ls, t, k)|
         == Anys(ls[..k]) * AnyShare(ls, t[..|t| - 1]) + if h < k then HitShare(ls, t[..|t| - 1], h) else 0
    decreases k
  {
    hide Sols, SolsAt, Take, AnyShare, HitShare, Total;
    if k > 0 {
      SumBelow(ls, t, k - 1, h);
      OneShare(ls, t, k - 1, h);
      assert ls[..k][..k - 1] == ls[..k - 1];
      OneMoreShare(Anys(ls[..k - 1]), AnyShare(ls, t[..|t| - 1]));
    }
  }

  lemma OneMoreShare(a: nat, b: nat)
    ensures (a + 1) * b == a * b + b
  {
  }

  lemma OnePosition(l: Label, c: char)
    ensures Total([l], [c]) == if l.Admits(c) then 1 else 0
  {
    assert [l][..0] == [] && [c][..0] == "";
    assert Product([], [c]) == 1 && Anys([]) == 0;
    assert Factorial(0) == 1 && Factorial(1) == 1;
    if l.Class? {
      CountSnoc("", c, l.table);
      assert "" + [c] == [c];
    }
  }

  /** The number of draw vectors: one per class character for each class, times the orders of the rest. */
  lemma {:induction false} SolsCount(ls: seq<Label>, t: string)
    requires Mix(ls) && |ls| == |t| > 0
    ensures |Sols(ls, t)| == Total(ls, t)
    decreases |t|
  {
    var n := |t| - 1;
    var front, c := t[..n], t[n];
    assert t == front + [c];
    if n == 0 {
      OnePosition(ls[0], c);
      assert ls == [ls[0]] && t == [c];
    } else {
      hide Sols, Take, Total, Product, Mix;
      forall j | 0 <= j < |t| ensures |Sols(Take(ls, j), front)| == Total(Take(ls, j), front) {
        MixTake(ls, j);
        SolsCount(Take(ls, j), front);
      }
      var h := FindHit(ls, c);
      SumBelow(ls, t, |t|, h);
      assert ls[..|t|] == ls;
      ProductHit(ls, front, c, h);
      assert |Sols(ls, t)| == |SolsBelow(ls, t, |t|)| by {
        SolsUnfold(ls, t);
      }
      Shares(ls, front, c, h);
    }
  }

  lemma {:induction false} SolsUnfold(ls: seq<Label>, t: string)
    requires |ls| == |t| > 1
    ensures Sols(ls, t) == SolsBelow(ls, t, |t|)
  {
  }

  lemma {:induction false} Shares(ls: seq<Label>, front: string, c: char, h: nat)
    requires Mix(ls) && |ls| == |front| + 1 && Hit(ls, c, h)
    ensures Anys(ls) * AnyShare(ls, front) + (if h < |ls| then HitShare(ls, front, h) else 0)
         == Total(ls, front + [c])
  {
    hide Take, Product, Mix, Hit;
    var a := Anys(ls);
    var p := Product(ls, front);
    var q := if h < |ls| then Product(Take(ls, h), front) else 0;
    ProductHit(ls, front, c, h);
    if a == 0 {
      Pigeonhole(ls, front);
      Spread(0, Factorial(0), Factorial(0), 0, q);
    } else {
      Spread(a, Factorial(a - 1), Factorial(a), p, q);
    }
  }

  lemma Spread(a: nat, less: nat, f: nat, p: nat, q: nat)
    requires a > 0 ==> f == a * less
    requires a == 0 ==> p == 0
    ensures a * (less * p) + f * q == f * (p + q)
  {
    if a > 0 {
      assert a * (less * p) == f * p;
    }
    assert f * (p + q) == f * p + f * q;
  }

  // -------------------------------------------------------------------- recipes ---

  /** One label for each class, in order. */
  function ClassLabels(classes: seq<string>): (ls: seq<Label>)
    ensures |ls| == |classes| && forall i :: 0 <= i < |ls| ==> ls[i] == Class(classes[i])
  {
    seq(|classes|, i requires 0 <= i < |classes| => Class(classes[i]))
  }

  /** The product over the classes of how many of the characters are theirs. */
  function ClassProduct(classes: seq<string>, t: string): nat {
    if classes == [] then 1
    else ClassProduct(classes[..|classes| - 1], t) * Count(t, classes[|classes| - 1])
  }

  function Labels(classes: seq<string>, free: nat): (ls: seq<Label>)
    ensures |ls| == |classes| + free
    ensures forall i :: 0 <= i < |ls| ==> ls[i] == if i < |classes| then Class(classes[i]) else Any
    decreases free
  {
    if free == 0 then ClassLabels(classes) else Labels(classes, free - 1) + [Any]
  }

  lemma {:induction false} ClassLabelsAre(classes: seq<string>, t: string)
    ensures Product(ClassLabels(classes), t) == ClassProduct(classes, t) && Anys(ClassLabels(classes)) == 0
    decreases |classes|
  {
    if classes != [] {
      var n := |classes| - 1;
      ClassLabelsAre(classes[..n], t);
      assert ClassLabels(classes)[..n] == ClassLabels(classes[..n]);
    }
  }

  lemma {:induction false} LabelsAre(classes: seq<string>, free: nat, t: string)
    ensures Product(Labels(classes, free), t) == ClassProduct(classes, t) && Anys(Labels(classes, free)) == free
    decreases free
  {
    if free == 0 {
      ClassLabelsAre(classes, t);
    } else {
      LabelsAre(classes, free - 1, t);
      assert Labels(classes, free)[..|classes| + free - 1] == Labels(classes, free - 1);
    }
  }

  function RecipeLabels(r: Recipe): (ls: seq<Label>)
    requires Valid(r)
    ensures |ls| == r.length
  {
    Labels(r.Classes(), r.length - |r.Classes()|)
  }

  lemma RecipeMix(r: Recipe)
    requires Valid(r)
    ensures Mix(RecipeLabels(r))
  {
    hide Disjoint;
    ClassesDisjoint(r);
  }

  // ------------------------------------------------------------- one index a draw ---

  function IndexOf(table: string, c: char): (i: nat)
    requires c in table
    ensures i < |table| && table[i] == c
  {
    var n := |table| - 1;
    if table[n] == c then n else IndexOf(table[..n], c)
  }

  predicate Rising(s: string) {
    forall i :: 0 <= i < |s| - 1 ==> s[i] < s[i + 1]
  }

  lemma {:induction false} RisingDistinct(s: string)
    requires Rising(s)
    ensures Distinct(s) && forall i :: 0 <= i < |s| ==> s[i] <= s[|s| - 1]
    decreases |s|
  {
    if s != [] {
      RisingDistinct(s[..|s| - 1]);
    }
  }

  /** The symbols are in code order but for the last four. */
  const SYMBOLS_RISING: string := "!#$%&()*+,-./:;<=>?@[]^_{|}~"
  const SYMBOLS_LAST: string := "\"'\\`"

  lemma LettersDistinct()
    ensures Distinct(LOWER) && Distinct(UPPER)
  {
    hide Distinct;
    RisingDistinct(LOWER);
    RisingDistinct(UPPER);
  }

  lemma DigitsDistinct()
    ensures Distinct(DIGITS)
  {
    hide Distinct;
    RisingDistinct(DIGITS);
  }

  /** What holds of each table holds of each class of a recipe. */
  lemma TablesDistinct(r: Recipe, i: nat)
    requires i < |r.Classes()|
    ensures Distinct(r.Classes()[i])
  {
    var t := r.Classes()[i];
    assert t in [LOWER, UPPER, DIGITS, SYMBOLS];
    hide Distinct, Recipe.Classes;
    LettersDistinct();
    DigitsDistinct();
    SymbolsDistinct();
  }

  lemma SymbolsRise()
    ensures Rising(SYMBOLS_RISING) && SYMBOLS == SYMBOLS_RISING + SYMBOLS_LAST
  {
  }

  lemma RisingHas(c: char)
    ensures c in SYMBOLS_RISING ==> c == '!' || '#' <= c <= '&' || '(' <= c <= '[' || ']' <= c <= '_' || '{' <= c <= '~'
  {
  }

  lemma LastHas(c: char)
    ensures c in SYMBOLS_LAST ==> c == '"' || c == '\'' || c == '\\' || c == '`'
  {
  }

  lemma LastDistinct()
    ensures Distinct(SYMBOLS_LAST)
  {
  }

  lemma SymbolsDistinct()
    ensures Distinct(SYMBOLS)
  {
    hide Distinct, Rising;
    SymbolsRise();
    LastDistinct();
    forall c | c in SYMBOLS_RISING ensures c !in SYMBOLS_LAST {
      RisingHas(c);
      LastHas(c);
    }
    RisingDistinct(SYMBOLS_RISING);
    DistinctConcat(SYMBOLS_RISING, SYMBOLS_LAST);
  }

  lemma {:induction false} UnionDistinct(classes: seq<string>)
    requires PairwiseDisjoint(classes) && forall i :: 0 <= i < |classes| ==> Distinct(classes[i])
    ensures Distinct(Union(classes))
    decreases |classes|
  {
    if classes != [] {
      var n := |classes| - 1;
      UnionDistinct(classes[..n]);
      forall c | c in Union(classes[..n]) ensures c !in classes[n] {
        UnionHas(classes[..n], c);
        var i :| 0 <= i < n && c in classes[..n][i];
        assert Disjoint(classes[i], classes[n]);
      }
      DistinctConcat(Union(classes[..n]), classes[n]);
    }
  }

  lemma TableDistinct(r: Recipe, i: nat)
    requires Valid(r) && i < r.length
    ensures Distinct(TableAt(r, i))
  {
    hide Distinct, Recipe.Classes;
    forall k | 0 <= k < |r.Classes()| ensures Distinct(r.Classes()[k]) {
      TablesDistinct(r, k);
    }
    ClassesDisjoint(r);
    UnionDistinct(r.Classes());
  }

  // --------------------------------------------------------------------- theorems ---

  /** `all` lists, once each, the draw vectors from which `generate` produces `t`. */
  ghost predicate Yields(r: Recipe, t: string, all: seq<(seq<nat>, seq<nat>)>)
    requires Valid(r)
  {
    && Distinct(all)
    && forall d :: d in all <==> ValidDraws(r, d.0, d.1) && Output(r, d.0, d.1) == t
  }

  predicate Placeable(r: Recipe, s: string)
    requires Valid(r)
  {
    |s| == r.length && forall i :: 0 <= i < |s| ==> s[i] in TableAt(r, i)
  }

  function PlacesOf(r: Recipe, s: string): (places: seq<nat>)
    requires Valid(r) && Placeable(r, s)
    ensures Under(places, PlaceBounds(r))
  {
    seq(|s|, i requires 0 <= i < |s| => IndexOf(TableAt(r, i), s[i]))
  }

  lemma PlacesUnique(r: Recipe, s: string, places: seq<nat>)
    requires Valid(r) && Placeable(r, s) && Under(places, PlaceBounds(r))
    ensures Placed(r, places) == s <==> places == PlacesOf(r, s)
  {
    hide TableAt, IndexOf, PlaceBounds;
    if Placed(r, places) == s {
      forall i | 0 <= i < |s| ensures places[i] == PlacesOf(r, s)[i] {
        assert |TableAt(r, i)| == PlaceBounds(r)[i];
        assert TableAt(r, i)[places[i]] == Placed(r, places)[i] == s[i];
        TableDistinct(r, i);
      }
    }
  }

  /** Drawing the places and swaps gives `t` exactly if the swaps solve the labels and the places are
      the indices of what is swapped into `t`. */
  lemma {:induction false} DrawsGiving(r: Recipe, t: string, places: seq<nat>, swaps: seq<nat>)
    requires Valid(r) && Covering(r, t)
    ensures Solves(RecipeLabels(r), t, swaps) ==> Placeable(r, Back(t, swaps))
    ensures ValidDraws(r, places, swaps) && Output(r, places, swaps) == t
       <==> Solves(RecipeLabels(r), t, swaps) && places == PlacesOf(r, Back(t, swaps))
  {
    hide Placed, Shuffled, Covering, ValidSwaps, PlaceBounds, SwapBounds, RecipeLabels, PlacesOf;
    SwapsAreDraws(r.length, swaps);
    CoveringLength(r, t);
    if Solves(RecipeLabels(r), t, swaps) {
      var s := Back(t, swaps);
      BackShuffles(t, swaps);
      ShuffledPermutes(s, swaps);
      FitsPlaceable(r, s, t);
      if Under(places, PlaceBounds(r)) {
        PlacesUnique(r, s, places);
        if Output(r, places, swaps) == t {
          BackUnique(Placed(r, places), swaps);
        }
      }
    } else if ValidDraws(r, places, swaps) && Output(r, places, swaps) == t {
      var s := Placed(r, places);
      BackUnique(s, swaps);
      PlacedFits(r, places);
      assert false;
    }
  }

  lemma CoveringLength(r: Recipe, t: string)
    requires Covering(r, t)
    ensures |t| == r.length
  {
  }

  lemma FitsPlaceable(r: Recipe, s: string, t: string)
    requires Valid(r) && Covering(r, t) && multiset(s) == multiset(t)
    requires Fits(RecipeLabels(r), s)
    ensures Placeable(r, s)
  {
    hide Alphabet;
    forall i | 0 <= i < |s| ensures s[i] in TableAt(r, i) {
      assert RecipeLabels(r)[i].Admits(s[i]);
      assert s[i] in multiset(t);
    }
  }

  lemma PlacedFits(r: Recipe, places: seq<nat>)
    requires Valid(r) && Under(places, PlaceBounds(r))
    ensures Fits(RecipeLabels(r), Placed(r, places))
  {
    hide Alphabet;
    var s := Placed(r, places);
    forall i | 0 <= i < |s| ensures RecipeLabels(r)[i].Admits(s[i]) {
      assert s[i] in TableAt(r, i);
    }
  }

  function WeightOf(r: Recipe, t: string): nat
    requires Valid(r)
  {
    Factorial(r.length - |r.Classes()|) * ClassProduct(r.Classes(), t)
  }

  lemma Enumerate(r: Recipe, t: string) returns (all: seq<(seq<nat>, seq<nat>)>)
    requires Valid(r) && Covering(r, t)
    ensures Yields(r, t, all) && |all| == WeightOf(r, t)
  {
    hide Sols, Fits, FullDraws, Covering, ValidDraws, Output, RecipeLabels, Placeable, PlacesOf;
    var ls := RecipeLabels(r);
    CoveringLength(r, t);
    var sols := Sols(ls, t);
    SolsAre(ls, t);
    forall i | 0 <= i < |sols| ensures Solves(ls, t, sols[i]) && Placeable(r, Back(t, sols[i])) {
      assert sols[i] in sols;
      DrawsGiving(r, t, [], sols[i]);
    }
    all := seq(|sols|, i requires 0 <= i < |sols| => (PlacesOf(r, Back(t, sols[i])), sols[i]));
    forall d ensures d in all <==> ValidDraws(r, d.0, d.1) && Output(r, d.0, d.1) == t {
      DrawsGiving(r, t, d.0, d.1);
      if d.1 in sols {
        var i :| 0 <= i < |sols| && sols[i] == d.1;
        assert all[i].1 == d.1;
      }
    }
    RecipeCount(r, t);
  }

  lemma {:induction false} RecipeCount(r: Recipe, t: string)
    requires Valid(r) && |t| == r.length
    ensures |Sols(RecipeLabels(r), t)| == WeightOf(r, t)
  {
    hide Sols, Mix;
    RecipeMix(r);
    SolsCount(RecipeLabels(r), t);
    LabelsAre(r.Classes(), r.length - |r.Classes()|, t);
  }

  /** How many draw vectors produce a password: the product, over the enabled classes, of how many of
      its characters are of that class, times a constant of the recipe. */
  lemma {:induction false} DrawsFor(r: Recipe, t: string, all: seq<(seq<nat>, seq<nat>)>)
    requires Valid(r) && Covering(r, t) && Yields(r, t, all)
    ensures |all| == Factorial(r.length - |r.Classes()|) * ClassProduct(r.Classes(), t)
  {
    hide Covering, ValidDraws, Output;
    var listed := Enumerate(r, t);
    assert Elements(all) == Elements(listed);
    DistinctCount(all);
    DistinctCount(listed);
  }

  // ----------------------------------------------------------------------- uniformity ---

  lemma {:induction false} ClassProductPositive(classes: seq<string>, t: string)
    requires forall i :: 0 <= i < |classes| ==> Count(t, classes[i]) > 0
    ensures ClassProduct(classes, t) > 0
    decreases |classes|
  {
    if classes != [] {
      var n := |classes| - 1;
      ClassProductPositive(classes[..n], t);
      assert ClassProduct(classes[..n], t) * Count(t, classes[n]) > 0;
    }
  }

  lemma {:induction false} CountAll(t: string, table: string)
    requires forall c :: c in t ==> c in table
    ensures Count(t, table) == |t|
    decreases |t|
  {
    if t != "" {
      assert forall c :: c in t[..|t| - 1] ==> c in t;
      CountAll(t[..|t| - 1], table);
    }
  }

  /** With one class every password comes out equally often. */
  lemma {:induction false} OneClass(r: Recipe, t: string)
    requires Valid(r) && |r.Classes()| == 1 && Covering(r, t)
    ensures ClassProduct(r.Classes(), t) == r.length
  {
    var cs := r.Classes();
    assert cs[..0] == [];
    assert Union([]) == "";
    assert Alphabet(r) == cs[0];
    CountAll(t, cs[0]);
    assert ClassProduct([], t) == 1;
  }

  /** The first character of each class, in order. */
  function Firsts(classes: seq<string>): (s: string)
    requires forall i :: 0 <= i < |classes| ==> classes[i] != ""
    ensures |s| == |classes| && forall i :: 0 <= i < |s| ==> s[i] == classes[i][0]
  {
    seq(|classes|, i requires 0 <= i < |classes| => classes[i][0])
  }

  lemma {:induction false} CountConcat(a: string, b: string, table: string)
    ensures Count(a + b, table) == Count(a, table) + Count(b, table)
    decreases |b|
  {
    if b == "" {
      assert a + b == a;
    } else {
      var n := |b| - 1;
      CountConcat(a, b[..n], table);
      assert a + b == (a + b[..n]) + [b[n]];
      CountSnoc(a + b[..n], b[n], table);
    }
  }

  lemma {:induction false} CountNone(t: string, table: string)
    requires forall c :: c in t ==> c !in table
    ensures Count(t, table) == 0
    decreases |t|
  {
    if t != "" {
      assert forall c :: c in t[..|t| - 1] ==> c in t;
      CountNone(t[..|t| - 1], table);
    }
  }

  /** The first characters of other classes are none of this one. */
  lemma FirstsElsewhere(classes: seq<string>, from: nat, to: nat, k: nat)
    requires PairwiseDisjoint(classes) && from <= to <= |classes| && k < |classes| && !(from <= k < to)
    requires forall i :: 0 <= i < |classes| ==> classes[i] != ""
    ensures Count(Firsts(classes)[from..to], classes[k]) == 0
  {
    var part := Firsts(classes)[from..to];
    forall c | c in part ensures c !in classes[k] {
      var i :| 0 <= i < |part| && part[i] == c;
      assert c == classes[from + i][0];
      if from + i < k {
        assert Disjoint(classes[from + i], classes[k]);
      } else {
        assert Disjoint(classes[k], classes[from + i]);
      }
    }
    CountNone(part, classes[k]);
  }

  lemma FirstsCount(classes: seq<string>, k: nat)
    requires PairwiseDisjoint(classes) && k < |classes|
    requires forall i :: 0 <= i < |classes| ==> classes[i] != ""
    ensures Count(Firsts(classes), classes[k]) == 1
  {
    hide PairwiseDisjoint, Count;
    var s := Firsts(classes);
    FirstsElsewhere(classes, 0, k, k);
    FirstsElsewhere(classes, k + 1, |classes|, k);
    CountSnoc(s[0..k], s[k], classes[k]);
    CountConcat(s[0..k] + [s[k]], s[k + 1..|s|], classes[k]);
    assert s == s[0..k] + [s[k]] + s[k + 1..|s|];
  }

  /** A string one short of the length, with one character of every class and the rest of the first. */
  function Lopsided(r: Recipe): (u: string)
    requires Valid(r)
    ensures |u| == r.length - 1
  {
    Repeat(r.Classes()[0][0], r.length - 1 - |r.Classes()|) + Firsts(r.Classes())
  }

  lemma LopsidedCounts(r: Recipe)
    requires Valid(r)
    ensures Count(Lopsided(r), r.Classes()[0]) == r.length - |r.Classes()|
    ensures forall k :: 0 < k < |r.Classes()| ==> Count(Lopsided(r), r.Classes()[k]) == 1
  {
    hide Count, Firsts, PairwiseDisjoint;
    var cs := r.Classes();
    var pad := Repeat(cs[0][0], r.length - 1 - |cs|);
    ClassesDisjoint(r);
    forall k | 0 <= k < |cs| ensures Count(Lopsided(r), cs[k]) == 1 + if k == 0 then r.length - 1 - |cs| else 0 {
      FirstsCount(cs, k);
      CountConcat(pad, Firsts(cs), cs[k]);
      if k == 0 {
        CountAll(pad, cs[0]);
      } else {
        FirstElsewhere(cs, k);
        CountNone(pad, cs[k]);
      }
    }
  }

  lemma FirstElsewhere(classes: seq<string>, k: nat)
    requires PairwiseDisjoint(classes) && 0 < k < |classes| && classes[0] != ""
    ensures classes[0][0] !in classes[k]
  {
    assert Disjoint(classes[0], classes[k]);
  }

  /** Every position holds the first character of some class. */
  lemma LopsidedAt(r: Recipe, i: nat) returns (j: nat)
    requires Valid(r) && i < |Lopsided(r)|
    ensures j < |r.Classes()| && Lopsided(r)[i] == r.Classes()[j][0]
  {
    hide Recipe.Classes;
    var pad := r.length - 1 - |r.Classes()|;
    j := if i < pad then 0 else i - pad;
  }

  lemma LopsidedHas(r: Recipe, j: nat)
    requires Valid(r) && j < |r.Classes()|
    ensures r.Classes()[j][0] in Lopsided(r)
  {
    var pad := r.length - 1 - |r.Classes()|;
    assert Lopsided(r)[pad + j] == r.Classes()[j][0];
  }

  lemma LopsidedCovers(r: Recipe, k: nat)
    requires Valid(r) && k < |r.Classes()|
    ensures Covering(r, Lopsided(r) + [r.Classes()[k][0]])
  {
    hide Alphabet, Lopsided, Recipe.Classes, Recipe.Validate;
    var cs := r.Classes();
    var u := Lopsided(r);
    var t := u + [cs[k][0]];
    forall c | c in t ensures c in Alphabet(r) {
      var i :| 0 <= i < |t| && t[i] == c;
      var j := k;
      if i < |u| {
        j := LopsidedAt(r, i);
      }
      assert c == cs[j][0] && c in cs[j];
      InAlphabet(r, j, c);
    }
    forall j | 0 <= j < |cs| ensures Has(t, cs[j]) {
      LopsidedHas(r, j);
      assert cs[j][0] in t && cs[j][0] in cs[j];
    }
  }

  lemma InAlphabet(r: Recipe, j: nat, c: char)
    requires j < |r.Classes()| && c in r.Classes()[j]
    ensures c in Alphabet(r)
  {
    UnionHas(r.Classes(), c);
  }

  /** One more character of class `k` than the lopsided string has. */
  lemma LopsidedPlus(r: Recipe, k: nat)
    requires Valid(r) && k < |r.Classes()|
    ensures var cs := r.Classes();
            var p := ClassProduct(cs, Lopsided(r));
            var more := ClassProduct(cs, Lopsided(r) + [cs[k][0]]);
            && p > 0 && more > p
            && p == (more - p) * if k == 0 then r.length - |cs| else 1
  {
    hide Lopsided, Product, ClassProduct, Take, Count, Factorial, Hit, Anys, ClassLabels, Recipe.Validate;
    var cs := r.Classes();
    var u := Lopsided(r);
    var ls := ClassLabels(cs);
    LopsidedCounts(r);
    LopsidedPositive(r);
    ClassLabelsAre(cs, u);
    ClassLabelsAre(cs, u + [cs[k][0]]);
    ClassHit(r, k);
    ProductHit(ls, u, cs[k][0], k);
    ProductTake(ls, k, u);
    assert Weight(ls[k], u) == if k == 0 then r.length - |cs| else 1;
    PositiveFactor(Product(Take(ls, k), u), Weight(ls[k], u));
  }

  lemma LopsidedPositive(r: Recipe)
    requires Valid(r)
    ensures ClassProduct(r.Classes(), Lopsided(r)) > 0
  {
    hide Lopsided;
    LopsidedCounts(r);
    ClassProductPositive(r.Classes(), Lopsided(r));
  }

  lemma PositiveFactor(a: nat, b: nat)
    requires a * b > 0
    ensures a > 0
  {
  }

  lemma ClassHit(r: Recipe, k: nat)
    requires Valid(r) && k < |r.Classes()|
    ensures Hit(ClassLabels(r.Classes()), r.Classes()[k][0], k)
  {
    hide Disjoint;
    var cs := r.Classes();
    ClassesDisjoint(r);
    forall i | 0 <= i < |cs| && i != k ensures cs[k][0] !in cs[i] {
      if i < k {
        NotInOther(cs[i], cs[k], cs[k][0]);
      } else {
        NotInOther(cs[k], cs[i], cs[k][0]);
      }
    }
  }

  lemma NotInOther(a: string, b: string, c: char)
    requires Disjoint(a, b)
    ensures c in a ==> c !in b
    ensures c in b ==> c !in a
  {
  }

  /** Two passwords of the recipe that do not come out equally often. */
  lemma Skewed(r: Recipe) returns (a: string, b: string)
    requires Valid(r) && |r.Classes()| > 1
    ensures Covering(r, a) && Covering(r, b)
    ensures ClassProduct(r.Classes(), a) != ClassProduct(r.Classes(), b)
  {
    hide Lopsided, ClassProduct, Covering;
    var u := Lopsided(r);
    a, b := u + [r.Classes()[0][0]], u + [r.Classes()[1][0]];
    LopsidedCovers(r, 0);
    LopsidedCovers(r, 1);
    LopsidedPlus(r, 0);
    LopsidedPlus(r, 1);
    Unequal(ClassProduct(r.Classes(), a) - ClassProduct(r.Classes(), u), r.length - |r.Classes()|);
  }

  lemma Unequal(x: nat, n: nat)
    requires x > 0 && n > 1
    ensures x != x * n
  {
  }

  /** Every password the recipe allows comes from equally many draw vectors. */
  ghost predicate Uniform(r: Recipe)
    requires Valid(r)
  {
    forall a, b, da, db :: DrawsOfBoth(r, a, b, da, db) ==> |da| == |db|
  }

  ghost predicate DrawsOfBoth(r: Recipe, a: string, b: string,
                              da: seq<(seq<nat>, seq<nat>)>, db: seq<(seq<nat>, seq<nat>)>)
    requires Valid(r)
  {
    Covering(r, a) && Covering(r, b) && Yields(r, a, da) && Yields(r, b, db)
  }

  lemma OneClassEven(r: Recipe, a: string, b: string, da: seq<(seq<nat>, seq<nat>)>, db: seq<(seq<nat>, seq<nat>)>)
    requires Valid(r) && |r.Classes()| == 1
    requires DrawsOfBoth(r, a, b, da, db)
    ensures |da| == |db|
  {
    hide Covering, Yields, ClassProduct;
    DrawsFor(r, a, da);
    DrawsFor(r, b, db);
    OneClass(r, a);
    OneClass(r, b);
  }

  lemma SeveralClassesUneven(r: Recipe)
    returns (a: string, b: string, da: seq<(seq<nat>, seq<nat>)>, db: seq<(seq<nat>, seq<nat>)>)
    requires Valid(r) && |r.Classes()| > 1
    ensures DrawsOfBoth(r, a, b, da, db)
    ensures |da| != |db|
  {
    hide Covering, Yields, ClassProduct;
    a, b := Skewed(r);
    da := Enumerate(r, a);
    db := Enumerate(r, b);
    SameFactor(Factorial(r.length - |r.Classes()|), ClassProduct(r.Classes(), a), ClassProduct(r.Classes(), b));
  }

  /** `generate` is uniform over the passwords its recipe allows exactly if the recipe enables a
      single class. */
  lemma UniformExactly(r: Recipe)
    requires Valid(r)
    ensures Uniform(r) <==> |r.Classes()| == 1
  {
    hide DrawsOfBoth, Recipe.Classes;
    if |r.Classes()| == 1 {
      forall a, b, da, db | DrawsOfBoth(r, a, b, da, db)
        ensures |da| == |db|
      {
        OneClassEven(r, a, b, da, db);
      }
    } else {
      var a, b, da, db := SeveralClassesUneven(r);
    }
  }

  lemma SameFactor(f: nat, x: nat, y: nat)
    requires f > 0 && x != y
    ensures f * x != f * y
  {
    if x < y {
      assert f * y == f * x + f * (y - x);
    } else {
      assert f * x == f * y + f * (x - y);
    }
  }
}
