/** Bytes, fixed-width big-endian integers and their minimal forms. */
module Bytes {

  type Byte = b: int | 0 <= b < 256

  function Pow256(n: nat): (p: nat)
    ensures p > 0
  {
    if n == 0 then 1 else 256 * Pow256(n - 1)
  }

  const TWO_64: int := 0x1_0000_0000_0000_0000
  const TWO_128: int := TWO_64 * TWO_64

  type U128 = v: int | 0 <= v < TWO_128

  /** An account address. */
  type Address = a: seq<Byte> | |a| == 20 witness seq(20, _ => 0)

  lemma Widths()
    ensures Pow256(8) == TWO_64 && Pow256(16) == TWO_128
  {
    assert Pow256(4) == 0x1_0000_0000;
    PowSum(4, 4);
    PowSum(8, 8);
  }

  lemma PowStep(n: nat)
    ensures Pow256(0) == 1 && Pow256(n + 1) == 256 * Pow256(n)
  {
  }

  lemma Regroup(c: nat, x: nat, y: nat)
    ensures c * (x * y) == (c * x) * y
  {
  }

  lemma {:induction false} PowSum(a: nat, b: nat)
    ensures Pow256(a + b) == Pow256(a) * Pow256(b)
    decreases a
  {
    hide Pow256;
    PowStep(0);
    if a > 0 {
      PowSum(a - 1, b);
      PowStep(a - 1);
      PowStep(a - 1 + b);
      Regroup(256, Pow256(a - 1), Pow256(b));
    }
  }

  lemma PowMono(a: nat, b: nat)
    requires a <= b
    ensures Pow256(a) <= Pow256(b)
  {
    PowSum(a, b - a);
    assert Pow256(a) <= Pow256(a) * Pow256(b - a);
  }

  function FromBE(s: seq<Byte>): nat {
    if s == [] then 0 else FromBE(s[..|s| - 1]) * 256 + s[|s| - 1]
  }

  /** `to_be_bytes` of an integer `w` bytes wide. */
  function ToBE(v: nat, w: nat): (s: seq<Byte>)
    ensures |s| == w
  {
    if w == 0 then [] else ToBE(v / 256, w - 1) + [v % 256]
  }

  lemma {:induction false} FromTo(v: nat, w: nat)
    requires v < Pow256(w)
    ensures FromBE(ToBE(v, w)) == v
    decreases w
  {
    if w > 0 {
      FromTo(v / 256, w - 1);
      var s := ToBE(v, w);
      assert s[..w - 1] == ToBE(v / 256, w - 1);
    }
  }

  lemma {:induction false} ToFrom(s: seq<Byte>)
    ensures ToBE(FromBE(s), |s|) == s && FromBE(s) < Pow256(|s|)
    decreases |s|
  {
    if s != [] {
      ToFrom(s[..|s| - 1]);
    }
  }

  function StripZeros(s: seq<Byte>): (r: seq<Byte>)
    ensures |r| <= |s| && (r != [] ==> r[0] != 0)
  {
    if s != [] && s[0] == 0 then StripZeros(s[1..]) else s
  }

  lemma {:induction false} LeadingZero(s: seq<Byte>)
    ensures FromBE([0] + s) == FromBE(s)
    decreases |s|
  {
    if s == [] {
      assert [0][..0] == [];
    } else {
      var n := |s| - 1;
      LeadingZero(s[..n]);
      assert ([0] + s)[..|[0] + s| - 1] == [0] + s[..n];
    }
  }

  lemma {:induction false} StripKeepsValue(s: seq<Byte>)
    ensures FromBE(StripZeros(s)) == FromBE(s)
    decreases |s|
  {
    if s != [] && s[0] == 0 {
      StripKeepsValue(s[1..]);
      LeadingZero(s[1..]);
      assert [0] + s[1..] == s;
    }
  }

  /** A non-zero leading byte bounds the value from below. */
  lemma {:induction false} LeadingByte(s: seq<Byte>)
    requires s != [] && s[0] != 0
    ensures FromBE(s) >= Pow256(|s| - 1)
    decreases |s|
  {
    if |s| > 1 {
      LeadingByte(s[..|s| - 1]);
    } else {
      assert s[..0] == [];
    }
  }

  /** The minimal big-endian form: no leading zero byte, and empty for zero. */
  function Minimal(v: nat, w: nat): seq<Byte> {
    StripZeros(ToBE(v, w))
  }

  lemma {:induction false} MinimalValue(v: nat, w: nat)
    requires v < Pow256(w)
    ensures FromBE(Minimal(v, w)) == v
  {
    FromTo(v, w);
    StripKeepsValue(ToBE(v, w));
  }

  // ------------------------------------------------------------- the shortest form ---

  predicate NoLeadingZero(s: seq<Byte>) {
    s == [] || s[0] != 0
  }

  /** No byte string with the same value is shorter. */
  ghost predicate Shortest(s: seq<Byte>) {
    forall c :: FromBE(c) == FromBE(s) ==> |s| <= |c|
  }

  lemma {:induction false} ZeroIsEmpty(s: seq<Byte>)
    requires NoLeadingZero(s) && FromBE(s) == 0
    ensures s == []
  {
    if s != [] {
      LeadingByte(s);
    }
  }

  /** Without leading zeros, a value has one form. */
  lemma {:induction false} OneForm(a: seq<Byte>, b: seq<Byte>)
    requires NoLeadingZero(a) && NoLeadingZero(b) && FromBE(a) == FromBE(b)
    ensures a == b
    decreases |a|
  {
    if a == [] || b == [] {
      ZeroIsEmpty(a);
      ZeroIsEmpty(b);
    } else {
      var m, n := |a| - 1, |b| - 1;
      assert a[m] == b[n] && FromBE(a[..m]) == FromBE(b[..n]);
      OneForm(a[..m], b[..n]);
      assert a == a[..m] + [a[m]] && b == b[..n] + [b[n]];
    }
  }

  lemma {:induction false} ShortestExactly(s: seq<Byte>)
    ensures Shortest(s) <==> NoLeadingZero(s)
  {
    hide FromBE;
    if NoLeadingZero(s) {
      forall c | FromBE(c) == FromBE(s) ensures |s| <= |c| {
        StripKeepsValue(c);
        OneForm(StripZeros(c), s);
      }
    } else {
      LeadingZero(s[1..]);
      assert s == [0] + s[1..];
    }
  }

  lemma {:induction false} MinimalShortest(v: nat, w: nat)
    requires v < Pow256(w)
    ensures NoLeadingZero(Minimal(v, w)) && Shortest(Minimal(v, w)) && FromBE(Minimal(v, w)) == v
  {
    hide FromBE, Shortest;
    MinimalValue(v, w);
    ShortestExactly(Minimal(v, w));
  }

  // -------------------------------------------------------------------- buffers ---

  function Flatten(items: seq<seq<Byte>>): seq<Byte> {
    if items == [] then [] else items[0] + Flatten(items[1..])
  }

  lemma {:induction false} FlattenSnoc(items: seq<seq<Byte>>, item: seq<Byte>)
    ensures Flatten(items + [item]) == Flatten(items) + item
    decreases |items|
  {
    if items == [] {
      assert items + [item] == [item] && [item][1..] == [];
    } else {
      FlattenSnoc(items[1..], item);
      assert (items + [item])[1..] == items[1..] + [item];
    }
  }
}
