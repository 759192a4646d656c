/** RLP encoding and legacy transaction assembly of app/core/src/chain.rs, against a decoder
    written from Appendix B of the Ethereum Yellow Paper. */
module Rlp {
  import opened Wrappers
  import opened Bytes

  // ------------------------------------------------------------------- encoder ---

  function LengthBytes(n: nat): (r: seq<Byte>)
    ensures |r| <= 8
  {
    Minimal(n, 8)
  }

  function EncodeBytes(b: seq<Byte>): seq<Byte>
    requires |b| < TWO_64
  {
    if |b| == 1 && b[0] < 0x80 then b
    else if |b| <= 55 then [0x80 + |b|] + b
    else [0xb7 + |LengthBytes(|b|)|] + LengthBytes(|b|) + b
  }

  function ListHeader(n: nat): seq<Byte>
    requires n < TWO_64
  {
    if n <= 55 then [0xc0 + n] else [0xf7 + |LengthBytes(n)|] + LengthBytes(n)
  }

  function EncodeList(items: seq<seq<Byte>>): seq<Byte>
    requires |Flatten(items)| < TWO_64
  {
    ListHeader(|Flatten(items)|) + Flatten(items)
  }

  lemma Decodes(bytes: seq<Byte>)
    requires |bytes| < TWO_64
    ensures forall rest :: DecodeItem(EncodeBytes(bytes) + rest) == Some((Str(bytes), rest))
  {
    hide EncodeBytes, DecodeItem;
    forall rest ensures DecodeItem(EncodeBytes(bytes) + rest) == Some((Str(bytes), rest)) {
      BytesRoundTrip(bytes, rest);
    }
  }

  /** `rlp_bytes`: a decoder gets the string back, whatever is written after it. */
  method RlpBytes(bytes: seq<Byte>) returns (out: seq<Byte>)
    requires |bytes| < TWO_64
    ensures out == EncodeBytes(bytes)
    ensures forall rest :: DecodeItem(out + rest) == Some((Str(bytes), rest))
  {
    hide LengthBytes, DecodeItem, FromBE;
    Decodes(bytes);
    if |bytes| == 1 && bytes[0] < 0x80 {
      return bytes;
    }
    out := [];
    if |bytes| <= 55 {
      out := out + [0x80 + |bytes|];
      out := out + bytes;
    } else {
      var lenBytes := LengthBytes(|bytes|);
      out := out + [0xb7 + |lenBytes|];
      out := out + lenBytes;
      out := out + bytes;
    }
  }

  /** `rlp_list`: total the items, push the header, then every item. */
  method RlpList(items: seq<seq<Byte>>) returns (out: seq<Byte>)
    requires |Flatten(items)| < TWO_64
    ensures out == EncodeList(items)
  {
    var payloadLen := 0;
    var i := 0;
    while i < |items|
      invariant 0 <= i <= |items| && payloadLen == |Flatten(items[..i])|
    {
      FlattenSnoc(items[..i], items[i]);
      assert items[..i + 1] == items[..i] + [items[i]];
      payloadLen := payloadLen + |items[i]|;
      i := i + 1;
    }
    assert items[..i] == items;
    if payloadLen <= 55 {
      out := [0xc0 + payloadLen];
    } else {
      var lenBytes := LengthBytes(payloadLen);
      out := [0xf7 + |lenBytes|];
      out := out + lenBytes;
    }
    var j := 0;
    while j < |items|
      invariant 0 <= j <= |items|
      invariant out == ListHeader(|Flatten(items)|) + Flatten(items[..j])
    {
      FlattenSnoc(items[..j], items[j]);
      assert items[..j + 1] == items[..j] + [items[j]];
      out := out + items[j];
      j := j + 1;
    }
    assert items[..j] == items;
  }

  // ------------------------------------------------------------------- decoder ---

  datatype Item = Str(bytes: seq<Byte>) | List(payload: seq<Byte>)

  /** A payload of the given length after a header of the given length. */
  function Cut(s: seq<Byte>, header: nat, len: nat): Option<(seq<Byte>, seq<Byte>)> {
    if |s| < header + len then None else Some((s[header..header + len], s[header + len..]))
  }

  /** A payload whose length is written in the `n` bytes after the first. A length with a leading zero, or one
      that the short form would have covered, is refused. */
  function LongCut(s: seq<Byte>, n: nat): Option<(seq<Byte>, seq<Byte>)>
    requires n > 0
  {
    if |s| < 1 + n || s[1] == 0 || FromBE(s[1..1 + n]) <= 55 then None else Cut(s, 1 + n, FromBE(s[1..1 + n]))
  }

  /** One item off the front, by its first byte (Yellow Paper, Appendix B). Strict: what is not the shortest
      form of an item is refused, a small byte behind a header of its own included. */
  function DecodeItem(s: seq<Byte>): (r: Option<(Item, seq<Byte>)>)
    ensures r.Some? ==> |r.value.1| < |s|
  {
    if s == [] then None
    else
      var b := s[0];
      if b < 0x80 then Some((Str(s[..1]), s[1..]))
      else if b <= 0xb7 then
        var c := Cut(s, 1, b - 0x80);
        if c.None? || (b == 0x81 && s[1] < 0x80) then None else Some((Str(c.value.0), c.value.1))
      else if b <= 0xbf then
        var c := LongCut(s, b - 0xb7);
        if c.None? then None else Some((Str(c.value.0), c.value.1))
      else if b <= 0xf7 then
        var c := Cut(s, 1, b - 0xc0);
        if c.None? then None else Some((List(c.value.0), c.value.1))
      else
        var c := LongCut(s, b - 0xf7);
        if c.None? then None else Some((List(c.value.0), c.value.1))
  }

  /** A whole payload as a list of byte strings; nested lists are not expected here. */
  function DecodeStrings(s: seq<Byte>): Option<seq<seq<Byte>>>
    decreases |s|
  {
    if s == [] then Some([])
    else
      var r := DecodeItem(s);
      if r.None? || r.value.0.List? then None
      else
        var rest := DecodeStrings(r.value.1);
        if rest.None? then None else Some([r.value.0.bytes] + rest.value)
  }

  // ---------------------------------------------------------------- round trips ---

  lemma LengthBytesFacts(n: nat)
    requires 55 < n < TWO_64
    ensures FromBE(LengthBytes(n)) == n && 1 <= |LengthBytes(n)| <= 8 && LengthBytes(n)[0] != 0
  {
    Widths();
    MinimalValue(n, 8);
  }

  lemma CutAfter(header: seq<Byte>, payload: seq<Byte>, rest: seq<Byte>)
    ensures Cut(header + payload + rest, |header|, |payload|) == Some((payload, rest))
  {
    var s := header + payload + rest;
    assert s[|header|..|header| + |payload|] == payload;
    assert s[|header| + |payload|..] == rest;
  }

  /** The long forms: a first byte that says how many length bytes follow, those, and the payload. */
  lemma {:induction false} LongItem(first: Byte, lb: seq<Byte>, payload: seq<Byte>, rest: seq<Byte>)
    requires 1 <= |lb| <= 8 && FromBE(lb) == |payload| > 55 && lb[0] != 0
    requires first == 0xb7 + |lb| || first == 0xf7 + |lb|
    ensures DecodeItem([first] + lb + payload + rest)
         == Some((if first <= 0xbf then Str(payload) else List(payload), rest))
  {
    hide FromBE, Cut;
    var s := [first] + lb + payload + rest;
    assert s[0] == first && s[1..1 + |lb|] == lb;
    CutAfter([first] + lb, payload, rest);
  }

  lemma ShortItem(first: Byte, payload: seq<Byte>, rest: seq<Byte>)
    requires |payload| <= 55 && (first == 0x80 + |payload| || first == 0xc0 + |payload|)
    requires first == 0x81 ==> payload[0] >= 0x80
    ensures DecodeItem([first] + payload + rest)
         == Some((if first <= 0xb7 then Str(payload) else List(payload), rest))
  {
    hide FromBE, Cut;
    var s := [first] + payload + rest;
    assert s[0] == first;
    CutAfter([first], payload, rest);
  }

  lemma OwnItem(b: Byte, rest: seq<Byte>)
    requires b < 0x80
    ensures DecodeItem([b] + rest) == Some((Str([b]), rest))
  {
    hide FromBE, Cut;
    var s := [b] + rest;
    assert s[..1] == [b] && s[1..] == rest;
  }

  /** Decoding inverts encoding, whatever follows. */
  lemma BytesRoundTrip(b: seq<Byte>, rest: seq<Byte>)
    requires |b| < TWO_64
    ensures DecodeItem(EncodeBytes(b) + rest) == Some((Str(b), rest))
  {
    hide DecodeItem, LengthBytes, FromBE;
    if |b| == 1 && b[0] < 0x80 {
      assert b == [b[0]];
      OwnItem(b[0], rest);
    } else if |b| <= 55 {
      ShortItem(0x80 + |b|, b, rest);
    } else {
      LengthBytesFacts(|b|);
      var lb := LengthBytes(|b|);
      LongItem(0xb7 + |lb|, lb, b, rest);
    }
  }

  lemma {:induction false} ListRoundTrip(items: seq<seq<Byte>>, rest: seq<Byte>)
    requires |Flatten(items)| < TWO_64
    ensures DecodeItem(EncodeList(items) + rest) == Some((List(Flatten(items)), rest))
  {
    hide DecodeItem, LengthBytes, FromBE, Flatten;
    var p := Flatten(items);
    if |p| <= 55 {
      ShortItem(0xc0 + |p|, p, rest);
    } else {
      LengthBytesFacts(|p|);
      var lb := LengthBytes(|p|);
      LongItem(0xf7 + |lb|, lb, p, rest);
    }
  }

  lemma CutJoins(s: seq<Byte>, header: nat, len: nat)
    requires Cut(s, header, len).Some?
    ensures var c := Cut(s, header, len).value;
            header <= |s| && s == s[..header] + c.0 + c.1 && |c.0| == len
  {
  }

  lemma {:induction false} LongCutJoins(s: seq<Byte>, n: nat)
    requires 0 < n <= 8 && LongCut(s, n).Some?
    ensures var c := LongCut(s, n).value;
            55 < |c.0| < TWO_64 && |LengthBytes(|c.0|)| == n && s == [s[0]] + LengthBytes(|c.0|) + c.0 + c.1
  {
    hide FromBE, Cut;
    var lb := s[1..1 + n];
    var c := LongCut(s, n).value;
    CutJoins(s, 1 + n, FromBE(lb));
    Widths();
    LengthBelow(lb);
    MinimalShortest(|c.0|, 8);
    OneForm(lb, LengthBytes(|c.0|));
    assert s[..1 + n] == [s[0]] + lb;
  }

  lemma {:induction false} LengthBelow(lb: seq<Byte>)
    requires |lb| <= 8
    ensures FromBE(lb) < TWO_64
  {
    Widths();
    ToFrom(lb);
    PowSum(|lb|, 8 - |lb|);
    assert Pow256(|lb|) <= Pow256(|lb|) * Pow256(8 - |lb|);
  }

  lemma ShortCutJoins(s: seq<Byte>, first: nat)
    requires s != [] && first <= s[0] <= first + 55 && Cut(s, 1, s[0] - first).Some?
    ensures var c := Cut(s, 1, s[0] - first).value;
            |c.0| == s[0] - first && s == [first + |c.0|] + c.0 + c.1
  {
    CutJoins(s, 1, s[0] - first);
    assert s[..1] == [s[0]];
  }

  lemma StringOnlyEncoded(s: seq<Byte>)
    requires DecodeItem(s).Some? && s[0] <= 0xbf
    ensures var (item, rest) := DecodeItem(s).value;
            item.Str? && |item.bytes| < TWO_64 && s == EncodeBytes(item.bytes) + rest
  {
    hide Cut, LongCut, LengthBytes, FromBE;
    if s[0] < 0x80 {
      assert s == s[..1] + s[1..];
    } else if s[0] <= 0xb7 {
      ShortCutJoins(s, 0x80);
      assert s[0] == 0x81 ==> Cut(s, 1, 1).value.0[0] == s[1];
    } else {
      LongCutJoins(s, s[0] - 0xb7);
    }
  }

  lemma ListOnlyEncoded(s: seq<Byte>)
    requires DecodeItem(s).Some? && s[0] >= 0xc0
    ensures var (item, rest) := DecodeItem(s).value;
            item.List? && |item.payload| < TWO_64 && s == ListHeader(|item.payload|) + item.payload + rest
  {
    hide Cut, LongCut, LengthBytes, FromBE;
    if s[0] <= 0xf7 {
      ShortCutJoins(s, 0xc0);
    } else {
      LongCutJoins(s, s[0] - 0xf7);
    }
  }

  /** The strict decoder reads nothing but what the encoder writes: every item has one encoding. */
  lemma {:induction false} DecodesOnlyEncoded(s: seq<Byte>)
    requires DecodeItem(s).Some?
    ensures var (item, rest) := DecodeItem(s).value;
            match item
            case Str(b) => |b| < TWO_64 && s == EncodeBytes(b) + rest
            case List(p) => |p| < TWO_64 && s == ListHeader(|p|) + p + rest
  {
    hide DecodeItem, EncodeBytes, ListHeader;
    if s[0] <= 0xbf {
      StringOnlyEncoded(s);
    } else {
      ListOnlyEncoded(s);
    }
  }

  /** The first byte tells strings from lists. */
  lemma {:induction false} FirstBytes(b: seq<Byte>, items: seq<seq<Byte>>)
    requires |b| < TWO_64 && |Flatten(items)| < TWO_64
    ensures EncodeBytes(b) != [] && EncodeBytes(b)[0] < 0xc0
    ensures EncodeList(items) != [] && EncodeList(items)[0] >= 0xc0
  {
    hide Minimal;
  }

  /** No encoding is a proper prefix of another, strings and lists alike. */
  lemma {:induction false} PrefixFree(a: seq<Byte>, b: seq<Byte>, listA: seq<seq<Byte>>, listB: seq<seq<Byte>>)
    requires |a| < TWO_64 && |b| < TWO_64 && |Flatten(listA)| < TWO_64 && |Flatten(listB)| < TWO_64
    ensures EncodeBytes(a) <= EncodeBytes(b) ==> a == b
    ensures EncodeList(listA) <= EncodeList(listB) ==> Flatten(listA) == Flatten(listB)
    ensures !(EncodeBytes(a) <= EncodeList(listB)) && !(EncodeList(listA) <= EncodeBytes(b))
  {
    hide LengthBytes, DecodeItem, EncodeBytes, EncodeList, Flatten;
    var ea, eb, la, lb := EncodeBytes(a), EncodeBytes(b), EncodeList(listA), EncodeList(listB);
    FirstBytes(a, listB);
    FirstBytes(b, listA);
    BytesRoundTrip(b, []);
    ListRoundTrip(listB, []);
    assert eb + [] == eb && lb + [] == lb;
    if ea <= eb {
      BytesRoundTrip(a, eb[|ea|..]);
      assert ea + eb[|ea|..] == eb;
    }
    if la <= lb {
      ListRoundTrip(listA, lb[|la|..]);
      assert la + lb[|la|..] == lb;
    }
  }

  function Encodings(fields: seq<seq<Byte>>): seq<seq<Byte>>
    requires forall i :: 0 <= i < |fields| ==> |fields[i]| < TWO_64
  {
    seq(|fields|, i requires 0 <= i < |fields| => EncodeBytes(fields[i]))
  }

  lemma EncodingsStep(fields: seq<seq<Byte>>)
    requires fields != [] && forall i :: 0 <= i < |fields| ==> |fields[i]| < TWO_64
    ensures Flatten(Encodings(fields)) == EncodeBytes(fields[0]) + Flatten(Encodings(fields[1..]))
  {
    hide EncodeBytes;
    assert Encodings(fields)[1..] == Encodings(fields[1..]);
  }

  lemma {:induction false} DecodeStep(item: seq<Byte>, b: seq<Byte>, rest: seq<Byte>, more: seq<seq<Byte>>)
    requires DecodeItem(item + rest) == Some((Str(b), rest)) && item != [] && DecodeStrings(rest) == Some(more)
    ensures DecodeStrings(item + rest) == Some([b] + more)
  {
    hide DecodeItem;
    assert item + rest != [];
  }

  lemma SomeBytes(b: seq<Byte>)
    requires |b| < TWO_64
    ensures EncodeBytes(b) != []
  {
    hide LengthBytes;
  }

  lemma NoStrings()
    ensures DecodeStrings(Flatten(Encodings([]))) == Some([])
  {
  }

  lemma {:induction false} StringsRoundTrip(fields: seq<seq<Byte>>)
    requires forall i :: 0 <= i < |fields| ==> |fields[i]| < TWO_64
    ensures DecodeStrings(Flatten(Encodings(fields))) == Some(fields)
    decreases |fields|
  {
    hide DecodeStrings, DecodeItem, EncodeBytes, Encodings, Flatten;
    if fields == [] {
      NoStrings();
    } else {
      var rest := fields[1..];
      StringsRoundTrip(rest);
      EncodingsStep(fields);
      SomeBytes(fields[0]);
      BytesRoundTrip(fields[0], Flatten(Encodings(rest)));
      DecodeStep(EncodeBytes(fields[0]), fields[0], Flatten(Encodings(rest)), rest);
      assert [fields[0]] + rest == fields;
    }
  }

  // --------------------------------------------------------------- transactions ---

  type U64 = v: int | 0 <= v < TWO_64

  datatype LegacyTransaction = LegacyTransaction(
    nonce: U128,
    gasPrice: U128,
    gasLimit: U128,
    to: Option<Address>,
    value: U128,
    data: seq<Byte>,
    chainId: U64)

  /** The last three fields: a number and two byte strings. */
  datatype Tail = Tail(v: U128, r: seq<Byte>, s: seq<Byte>)

  function UintBytes(v: U128): (r: seq<Byte>)
    ensures |r| <= 16
  {
    Minimal(v, 16)
  }

  function ToBytes(to: Option<Address>): (r: seq<Byte>)
    ensures |r| <= 20
  {
    if to.None? then [] else to.value
  }

  /** The byte strings the list is made of. */
  function Fields(tx: LegacyTransaction, tail: Option<Tail>): seq<seq<Byte>> {
    [UintBytes(tx.nonce), UintBytes(tx.gasPrice), UintBytes(tx.gasLimit), ToBytes(tx.to), UintBytes(tx.value), tx.data]
    + if tail.None? then [] else [UintBytes(tail.value.v), tail.value.r, tail.value.s]
  }

  /** What fits in memory: the lengths of the data and of the whole are machine lengths. */
  ghost predicate Fits(tx: LegacyTransaction, tail: Option<Tail>) {
    && (forall i :: 0 <= i < |Fields(tx, tail)| ==> |Fields(tx, tail)[i]| < TWO_64)
    && |Flatten(Encodings(Fields(tx, tail)))| < TWO_64
  }

  ghost function TxBytes(tx: LegacyTransaction, tail: Option<Tail>): seq<Byte>
    requires Fits(tx, tail)
  {
    EncodeList(Encodings(Fields(tx, tail)))
  }

  /** `rlp_encode`: push the encoded fields, then wrap them in a list. */
  method RlpEncode(tx: LegacyTransaction, tail: Option<Tail>) returns (out: seq<Byte>)
    requires Fits(tx, tail)
    ensures out == TxBytes(tx, tail)
  {
    hide EncodeBytes, UintBytes, ToBytes, DecodeItem;
    var fields := Fields(tx, tail);
    assert forall i :: 0 <= i < 6 ==> |fields[i]| < TWO_64;
    var items: seq<seq<Byte>> := [];
    var item := RlpBytes(UintBytes(tx.nonce));
    items := items + [item];
    item := RlpBytes(UintBytes(tx.gasPrice));
    items := items + [item];
    item := RlpBytes(UintBytes(tx.gasLimit));
    items := items + [item];
    item := RlpBytes(ToBytes(tx.to));
    items := items + [item];
    item := RlpBytes(UintBytes(tx.value));
    items := items + [item];
    assert fields[5] == tx.data;
    item := RlpBytes(tx.data);
    items := items + [item];
    if tail.Some? {
      assert fields[7] == tail.value.r && fields[8] == tail.value.s;
      item := RlpBytes(UintBytes(tail.value.v));
      items := items + [item];
      item := RlpBytes(tail.value.r);
      items := items + [item];
      item := RlpBytes(tail.value.s);
      items := items + [item];
    }
    assert items == Encodings(fields);
    out := RlpList(items);
  }

  /** What a reader of a nine-field transaction gets out of its bytes; numbers with leading zeros are refused. */
  datatype Decoded = Decoded(
    nonce: nat, gasPrice: nat, gasLimit: nat, to: seq<Byte>, value: nat, data: seq<Byte>,
    v: nat, r: seq<Byte>, s: seq<Byte>)

  function DecodeTx(bytes: seq<Byte>): Option<Decoded> {
    var item := DecodeItem(bytes);
    if item.None? || item.value.0.Str? || item.value.1 != [] then None
    else
      var f := DecodeStrings(item.value.0.payload);
      if f.None? || |f.value| != 9 then None
      else
        var g := f.value;
        if !(NoLeadingZero(g[0]) && NoLeadingZero(g[1]) && NoLeadingZero(g[2]) && NoLeadingZero(g[4])
             && NoLeadingZero(g[6])) then None
        else
          Some(Decoded(FromBE(g[0]), FromBE(g[1]), FromBE(g[2]), g[3], FromBE(g[4]), g[5],
                       FromBE(g[6]), g[7], g[8]))
  }

  function Expected(tx: LegacyTransaction, tail: Tail): Decoded {
    Decoded(tx.nonce, tx.gasPrice, tx.gasLimit, if tx.to.None? then [] else tx.to.value, tx.value, tx.data,
            tail.v, tail.r, tail.s)
  }

  lemma UintValue(v: U128)
    ensures FromBE(UintBytes(v)) == v && NoLeadingZero(UintBytes(v)) && Shortest(UintBytes(v))
  {
    Widths();
    MinimalShortest(v, 16);
  }

  /** A number as it must be written: the shortest byte string with its value, empty for zero. */
  ghost predicate Writes(b: seq<Byte>, v: nat) {
    FromBE(b) == v && Shortest(b) && (v == 0 ==> b == [])
  }

  lemma UintWrites(v: U128)
    ensures Writes(UintBytes(v), v)
  {
    hide FromBE, Shortest;
    UintValue(v);
    if v == 0 {
      ZeroIsEmpty(UintBytes(v));
    }
  }

  /** Both forms of a transaction, six fields or nine, read back string by string: each number in the one form
      it may have, and each byte string as it is. */
  lemma FieldsExactly(tx: LegacyTransaction, tail: Option<Tail>) returns (p: seq<Byte>, f: seq<seq<Byte>>)
    requires Fits(tx, tail)
    ensures DecodeItem(TxBytes(tx, tail)) == Some((List(p), [])) && DecodeStrings(p) == Some(f)
    ensures |f| == if tail.None? then 6 else 9
    ensures Writes(f[0], tx.nonce) && Writes(f[1], tx.gasPrice) && Writes(f[2], tx.gasLimit) && Writes(f[4], tx.value)
    ensures f[3] == (if tx.to.None? then [] else tx.to.value) && f[5] == tx.data
    ensures tail.Some? ==> Writes(f[6], tail.value.v) && f[7] == tail.value.r && f[8] == tail.value.s
  {
    hide DecodeItem, DecodeStrings, TxBytes, Encodings, Flatten, UintBytes, FromBE, Shortest, Writes;
    f := Fields(tx, tail);
    p := Flatten(Encodings(f));
    FieldsBack(tx, tail);
    UintWrites(tx.nonce);
    UintWrites(tx.gasPrice);
    UintWrites(tx.gasLimit);
    UintWrites(tx.value);
    if tail.Some? {
      UintWrites(tail.value.v);
    }
  }

  /** The list is opened and its strings are split apart again. */
  lemma FieldsBack(tx: LegacyTransaction, tail: Option<Tail>)
    requires Fits(tx, tail)
    ensures var fields := Fields(tx, tail);
            && DecodeItem(TxBytes(tx, tail)) == Some((List(Flatten(Encodings(fields))), []))
            && DecodeStrings(Flatten(Encodings(fields))) == Some(fields)
  {
    hide DecodeItem, DecodeStrings, EncodeList, Encodings, Flatten, Fields;
    var fields := Fields(tx, tail);
    ListRoundTrip(Encodings(fields), []);
    assert EncodeList(Encodings(fields)) + [] == EncodeList(Encodings(fields));
    StringsRoundTrip(fields);
  }

  /** Reading back the nine fields gives exactly what was put in. */
  lemma TxRoundTrip(tx: LegacyTransaction, tail: Tail)
    requires Fits(tx, Some(tail))
    ensures DecodeTx(TxBytes(tx, Some(tail))) == Some(Expected(tx, tail))
  {
    hide DecodeItem, DecodeStrings, TxBytes, Encodings, Flatten, UintBytes, FromBE, NoLeadingZero, Shortest;
    FieldsBack(tx, Some(tail));
    UintValue(tx.nonce);
    UintValue(tx.gasPrice);
    UintValue(tx.gasLimit);
    UintValue(tx.value);
    UintValue(tail.v);
  }

  // -------------------------------------------------------------------- signing ---

  /** EIP-155: the payload that is hashed and signed ends in (chainId, "", ""). */
  function SigningTail(tx: LegacyTransaction): Tail {
    Tail(tx.chainId, [], [])
  }

  /** What is signed ends in the chain id itself and two empty strings. */
  lemma SigningPayloadReads(tx: LegacyTransaction)
    requires Fits(tx, Some(SigningTail(tx)))
    ensures var d := DecodeTx(TxBytes(tx, Some(SigningTail(tx))));
            && d.Some? && d.value.v == tx.chainId && d.value.r == [] && d.value.s == []
            && d.value.nonce == tx.nonce && d.value.gasPrice == tx.gasPrice && d.value.gasLimit == tx.gasLimit
            && d.value.to == (if tx.to.None? then [] else tx.to.value)
            && d.value.value == tx.value && d.value.data == tx.data
  {
    TxRoundTrip(tx, SigningTail(tx));
  }

  /** Distinct transactions, in any field or in the chain id, have distinct signing payloads. */
  lemma SigningPayloadInjective(a: LegacyTransaction, b: LegacyTransaction)
    requires Fits(a, Some(SigningTail(a))) && Fits(b, Some(SigningTail(b)))
    ensures TxBytes(a, Some(SigningTail(a))) == TxBytes(b, Some(SigningTail(b))) <==> a == b
  {
    TxRoundTrip(a, SigningTail(a));
    TxRoundTrip(b, SigningTail(b));
    if TxBytes(a, Some(SigningTail(a))) == TxBytes(b, Some(SigningTail(b))) {
      var d := Expected(a, SigningTail(a));
      assert d == Expected(b, SigningTail(b));
      assert a.to.Some? ==> |d.to| == 20;
      assert b.to.Some? ==> |d.to| == 20;
    }
  }

  /** `v` as computed on 64-bit words. */
  function SignatureV(chainId: U64, parity: nat): U64 {
    (chainId * 2 + 35 + parity) % TWO_64
  }

  function SignedTail(tx: LegacyTransaction, rs: seq<Byte>, parity: nat): Tail
    requires |rs| == 64
  {
    Tail(SignatureV(tx.chainId, parity), StripZeros(rs[..32]), StripZeros(rs[32..]))
  }

  lemma SignatureVExact(chainId: U64, parity: nat)
    requires parity <= 1
    ensures var v := SignatureV(chainId, parity);
            v >= 35 && (v - 35) / 2 == chainId && (v - 35) % 2 == parity
            <==> chainId * 2 + 35 + parity < TWO_64
  {
    var exact := chainId * 2 + 35 + parity;
    assert exact < 3 * TWO_64;
    if exact >= TWO_64 {
      assert SignatureV(chainId, parity) == exact - TWO_64 || SignatureV(chainId, parity) == exact - 2 * TWO_64;
    }
  }

  lemma {:induction false} StrippedWord(w: seq<Byte>)
    ensures ToBE(FromBE(StripZeros(w)), |w|) == w
  {
    StripKeepsValue(w);
    ToFrom(w);
  }

  /** A signed transaction reads back its six fields, r and s always, and its chain id and parity
      exactly when 2*chainId + 35 + parity fits in 64 bits. */
  lemma SignedRoundTrip(tx: LegacyTransaction, rs: seq<Byte>, parity: nat)
    requires |rs| == 64 && parity <= 1 && Fits(tx, Some(SignedTail(tx, rs, parity)))
    ensures var d := DecodeTx(TxBytes(tx, Some(SignedTail(tx, rs, parity))));
            && d.Some?
            && d.value.nonce == tx.nonce && d.value.gasPrice == tx.gasPrice && d.value.gasLimit == tx.gasLimit
            && d.value.to == (if tx.to.None? then [] else tx.to.value)
            && d.value.value == tx.value && d.value.data == tx.data
            && Shortest(d.value.r) && Shortest(d.value.s)
            && ToBE(FromBE(d.value.r), 32) == rs[..32] && ToBE(FromBE(d.value.s), 32) == rs[32..]
            && (d.value.v >= 35 && (d.value.v - 35) / 2 == tx.chainId && (d.value.v - 35) % 2 == parity
                <==> tx.chainId * 2 + 35 + parity < TWO_64)
  {
    hide DecodeTx, TxBytes, Fits, ToBE, FromBE, StripZeros, SignatureV, Shortest;
    TxRoundTrip(tx, SignedTail(tx, rs, parity));
    StrippedWord(rs[..32]);
    StrippedWord(rs[32..]);
    ShortestExactly(StripZeros(rs[..32]));
    ShortestExactly(StripZeros(rs[32..]));
    SignatureVExact(tx.chainId, parity);
  }
}
