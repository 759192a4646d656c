/** Head/tail ABI encoding and the return decoders of app/core/src/abi.rs (Solidity Contract ABI
    Specification, "Formal Specification of the Encoding"). */
module Abi {
  import opened Wrappers
  import opened Bytes

  /** Uints and addresses are static; strings and address arrays are dynamic. */
  datatype Arg = Uint(v: U128) | Addr(a: Address) | Str(bytes: seq<Byte>) | Addrs(list: seq<Address>)

  datatype Kind = KUint | KAddr | KStr | KAddrs

  function KindOf(arg: Arg): Kind {
    match arg
    case Uint(_) => KUint
    case Addr(_) => KAddr
    case Str(_) => KStr
    case Addrs(_) => KAddrs
  }

  // ------------------------------------------------------------------- encoding ---

  function ZeroBytes(n: nat): (r: seq<Byte>)
    ensures |r| == n
  {
    seq(n, _ => 0)
  }

  function UintWord(v: U128): (w: seq<Byte>)
    ensures |w| == 32
  {
    ZeroBytes(16) + ToBE(v, 16)
  }

  function AddressWord(a: Address): (w: seq<Byte>)
    ensures |w| == 32
  {
    ZeroBytes(12) + a
  }

  /** How many words hold that many bytes. */
  function WordsFor(n: nat): (w: nat)
    ensures n <= 32 * w < n + 32
  {
    (n + 31) / 32
  }

  function Padded(b: seq<Byte>): (r: seq<Byte>)
    ensures |r| == 32 * WordsFor(|b|) && b <= r
  {
    var rem := |b| % 32;
    if rem != 0 then b + ZeroBytes(32 - rem) else b
  }

  function AddressWords(list: seq<Address>): (r: seq<Byte>)
    ensures |r| == 32 * |list|
  {
    if list == [] then [] else AddressWords(list[..|list| - 1]) + AddressWord(list[|list| - 1])
  }

  predicate IsDynamic(arg: Arg) {
    arg.Str? || arg.Addrs?
  }

  /** The lengths of one argument's contents are machine lengths. */
  predicate ArgFits(arg: Arg) {
    match arg
    case Str(b) => |b| < TWO_64
    case Addrs(list) => |list| < TWO_64
    case _ => true
  }

  function TailWords(arg: Arg): nat {
    match arg
    case Str(b) => 1 + WordsFor(|b|)
    case Addrs(list) => 1 + |list|
    case _ => 0
  }

  function TailOf(arg: Arg): (r: seq<Byte>)
    requires ArgFits(arg)
    ensures |r| == 32 * TailWords(arg)
  {
    match arg
    case Str(b) => UintWord(|b|) + Padded(b)
    case Addrs(list) => UintWord(|list|) + AddressWords(list)
    case _ => []
  }

  function HeadOf(arg: Arg, offset: nat): (r: seq<Byte>)
    requires offset < TWO_64
    ensures |r| == 32
  {
    match arg
    case Uint(v) => UintWord(v)
    case Addr(a) => AddressWord(a)
    case _ => UintWord(offset)
  }

  predicate AllFit(args: seq<Arg>) {
    forall i :: 0 <= i < |args| ==> ArgFits(args[i])
  }

  function AllTailWords(args: seq<Arg>): nat {
    if args == [] then 0 else AllTailWords(args[..|args| - 1]) + TailWords(args[|args| - 1])
  }

  function Tails(args: seq<Arg>): (r: seq<Byte>)
    requires AllFit(args)
    ensures |r| == 32 * AllTailWords(args)
  {
    if args == [] then [] else Tails(args[..|args| - 1]) + TailOf(args[|args| - 1])
  }

  /** The offset of argument `k`'s tail from the start of the encoding. */
  function Offset(args: seq<Arg>, k: nat): nat
    requires AllFit(args) && k <= |args|
  {
    32 * |args| + |Tails(args[..k])|
  }

  lemma {:induction false} TailsMonotone(args: seq<Arg>, k: nat)
    requires AllFit(args) && k <= |args|
    ensures Tails(args[..k]) <= Tails(args)
    decreases |args|
  {
    if k < |args| {
      TailsMonotone(args[..|args| - 1], k);
      assert args[..|args| - 1][..k] == args[..k];
    } else {
      assert args[..k] == args;
    }
  }

  /** The whole encoding has a machine length. */
  predicate Fits(args: seq<Arg>) {
    AllFit(args) && 32 * |args| + |Tails(args)| < TWO_64
  }

  /** The heads of the first `k` arguments of an `n`-argument list. */
  function Heads(args: seq<Arg>, k: nat): (r: seq<Byte>)
    requires Fits(args) && k <= |args|
    ensures |r| == 32 * k
  {
    if k == 0 then []
    else
      TailsMonotone(args, k - 1);
      Heads(args, k - 1) + HeadOf(args[k - 1], Offset(args, k - 1))
  }

  function Encoded(args: seq<Arg>): seq<Byte>
    requires Fits(args)
  {
    Heads(args, |args|) + Tails(args)
  }

  method PushAddresses(list: seq<Address>) returns (words: seq<Byte>)
    ensures words == AddressWords(list)
  {
    words := [];
    var j := 0;
    while j < |list|
      invariant 0 <= j <= |list| && words == AddressWords(list[..j])
    {
      assert list[..j + 1][..j] == list[..j];
      words := words + AddressWord(list[j]);
      j := j + 1;
    }
    assert list[..j] == list;
  }

  /** What one argument adds to the head and to the tail. */
  method EncodeArg(arg: Arg, offset: nat) returns (head: seq<Byte>, tail: seq<Byte>)
    requires ArgFits(arg) && offset < TWO_64
    ensures head == HeadOf(arg, offset) && tail == TailOf(arg)
  {
    match arg {
      case Uint(v) => head, tail := UintWord(v), [];
      case Addr(a) => head, tail := AddressWord(a), [];
      case Str(b) =>
        head := UintWord(offset);
        tail := UintWord(|b|);
        tail := tail + Padded(b);
      case Addrs(list) =>
        head := UintWord(offset);
        tail := UintWord(|list|);
        var words := PushAddresses(list);
        tail := tail + words;
    }
  }

  /** `encode_args`: one pass that grows a head and a tail. */
  method EncodeArgs(args: seq<Arg>) returns (out: seq<Byte>)
    requires Fits(args)
    ensures out == Encoded(args)
  {
    hide HeadOf, TailOf, TailWords, AllTailWords;
    var headLen := |args| * 32;
    var head: seq<Byte> := [];
    var tail: seq<Byte> := [];
    var i := 0;
    while i < |args|
      invariant 0 <= i <= |args|
      invariant head == Heads(args, i) && tail == Tails(args[..i])
    {
      TailsMonotone(args, i);
      assert args[..i + 1][..i] == args[..i];
      var h, t := EncodeArg(args[i], headLen + |tail|);
      head := head + h;
      tail := tail + t;
      i := i + 1;
    }
    assert args[..i] == args;
    out := head + tail;
  }

  // ------------------------------------------------------------------- decoding ---

  datatype AbiError = InvalidQuantity | Overflow

  /** `word_uint`: the k-th word as a 128-bit integer. */
  function WordUint(bytes: seq<Byte>, k: nat): Result<U128, AbiError> {
    var start := k * 32;
    if |bytes| < start + 32 then Err(InvalidQuantity)
    else if exists i :: start <= i < start + 16 && bytes[i] != 0 then Err(Overflow)
    else
      ToFrom(bytes[start + 16..start + 32]);
      Widths();
      Ok(FromBE(bytes[start + 16..start + 32]))
  }

  /** A word is read as the number its 32 bytes stand for, if that fits in 128 bits; a word that is not there and
      one that is too large are told apart. */
  lemma WordExactly(bytes: seq<Byte>, k: nat)
    ensures WordUint(bytes, k)
         == if |bytes| < 32 * k + 32 then Err(InvalidQuantity)
            else if FromBE(bytes[32 * k..32 * k + 32]) >= TWO_128 then Err(Overflow)
            else Ok(FromBE(bytes[32 * k..32 * k + 32]))
  {
    if |bytes| >= 32 * k + 32 {
      var w := bytes[32 * k..32 * k + 32];
      assert bytes[32 * k + 16..32 * k + 32] == w[16..];
      assert forall i :: 0 <= i < 16 ==> w[i] == bytes[32 * k + i];
      assert (exists i :: 32 * k <= i < 32 * k + 16 && bytes[i] != 0) <==> (exists i :: 0 <= i < 16 && w[i] != 0) by {
        if i :| 0 <= i < 16 && w[i] != 0 {
          assert bytes[32 * k + i] != 0;
        }
        if i :| 32 * k <= i < 32 * k + 16 && bytes[i] != 0 {
          assert w[i - 32 * k] != 0;
        }
      }
      HighHalf(w);
    }
  }

  /** A word fits in its lower half exactly if its upper half is zero. */
  lemma HighHalf(w: seq<Byte>)
    requires |w| == 32
    ensures (exists i :: 0 <= i < 16 && w[i] != 0) <==> FromBE(w) >= TWO_128
    ensures FromBE(w) < TWO_128 ==> FromBE(w[16..]) == FromBE(w)
  {
    hide FromBE;
    StripFront(w, 16);
    Widths();
    ToFrom(w[16..]);
    if i :| 0 <= i < 16 && w[i] != 0 {
      var s := StripZeros(w);
      StripKeepsValue(w);
      StripLength(w, i);
      LeadingByte(s);
      PowMono(16, |s| - 1);
    }
  }

  lemma {:induction false} StripFront(w: seq<Byte>, n: nat)
    requires n <= |w|
    ensures (forall i :: 0 <= i < n ==> w[i] == 0) ==> FromBE(w) == FromBE(w[n..])
    decreases n
  {
    hide FromBE;
    if n > 0 && forall i :: 0 <= i < n ==> w[i] == 0 {
      LeadingZero(w[1..]);
      assert w == [0] + w[1..];
      assert forall i :: 0 <= i < n - 1 ==> w[1..][i] == w[i + 1];
      StripFront(w[1..], n - 1);
      assert w[1..][n - 1..] == w[n..];
    } else {
      assert n == 0 ==> w[n..] == w;
    }
  }

  lemma {:induction false} StripLength(w: seq<Byte>, i: nat)
    requires i < |w| && w[i] != 0
    ensures |StripZeros(w)| >= |w| - i
    decreases i
  {
    if i > 0 && w[0] == 0 {
      assert w[1..][i - 1] == w[i];
      StripLength(w[1..], i - 1);
    }
  }

  /** What is not a positive number of whole words is refused by every decoder, before anything is read. */
  lemma PartWordsRefused(bytes: seq<Byte>, k: nat)
    requires bytes == [] || |bytes| % 32 != 0
    ensures DecodeUint(bytes, k) == Err(InvalidQuantity) && DecodeString(bytes) == Returns(Err(InvalidQuantity))
    ensures UintArray(bytes) == Returns(Err(InvalidQuantity))
  {
  }

  predicate IsWords(bytes: seq<Byte>) {
    bytes != [] && |bytes| % 32 == 0
  }

  function DecodeUint(bytes: seq<Byte>, k: nat): Result<U128, AbiError> {
    if !IsWords(bytes) then Err(InvalidQuantity) else WordUint(bytes, k)
  }

  /** A 128-bit value used as a length or offset keeps its low 64 bits. */
  function AsUsize(v: U128): nat {
    v % TWO_64
  }

  /** The largest size of one allocation, and the size of a decoded word in memory. */
  const ISIZE_MAX: int := TWO_64 / 2 - 1
  const UINT_BYTES: int := 16

  /** A sum that leaves the machine word aborts in a checked build; in an unchecked one it wraps, and the
      range it was for then ends before it begins, which aborts as well. So does a capacity that no
      allocation can have. */
  datatype Outcome<T> = Returns(result: Result<T, AbiError>) | Aborts

  /** A leading string: offset, length and contents. */
  function DecodeString(bytes: seq<Byte>): Outcome<seq<Byte>> {
    if !IsWords(bytes) then Returns(Err(InvalidQuantity))
    else
      var o := WordUint(bytes, 0);
      if o.Err? then Returns(Err(o.error))
      else
        var offset := AsUsize(o.value);
        if offset + 32 >= TWO_64 then Aborts
        else if offset + 32 > |bytes| then Returns(Err(InvalidQuantity))
        else
          var n := WordUint(bytes, offset / 32);
          if n.Err? then Returns(Err(n.error))
          else
            var start, len := offset + 32, AsUsize(n.value);
            if start + len >= TWO_64 then Aborts
            else if start + len > |bytes| then Returns(Err(InvalidQuantity))
            else Returns(Ok(bytes[start..start + len]))
  }

  /** `len` words from word `first` on. */
  function WordsFrom(bytes: seq<Byte>, first: nat, len: nat): Result<seq<U128>, AbiError> {
    if len == 0 then Ok([])
    else
      var before := WordsFrom(bytes, first, len - 1);
      if before.Err? then before
      else
        var w := WordUint(bytes, first + len - 1);
        if w.Err? then Err(w.error) else Ok(before.value + [w.value])
  }

  /** `decode_uint_array`: the items one after the other, up to the first that fails. */
  method DecodeUintArray(bytes: seq<Byte>) returns (r: Outcome<seq<U128>>)
    ensures r == UintArray(bytes)
  {
    hide WordUint;
    if !IsWords(bytes) {
      return Returns(Err(InvalidQuantity));
    }
    var o := WordUint(bytes, 0);
    if o.Err? {
      return Returns(Err(o.error));
    }
    var offset := AsUsize(o.value);
    if offset % 32 != 0 {
      return Returns(Err(InvalidQuantity));
    }
    if offset + 32 >= TWO_64 {
      return Aborts;
    }
    if offset + 32 > |bytes| {
      return Returns(Err(InvalidQuantity));
    }
    var n := WordUint(bytes, offset / 32);
    if n.Err? {
      return Returns(Err(n.error));
    }
    var len := AsUsize(n.value);
    if UINT_BYTES * len > ISIZE_MAX {
      return Aborts;
    }
    var out: seq<U128> := [];
    var i := 0;
    while i < len
      invariant 0 <= i <= len
      invariant WordsFrom(bytes, offset / 32 + 1, i) == Ok(out)
    {
      var w := WordUint(bytes, offset / 32 + 1 + i);
      if w.Err? {
        WordsFail(bytes, offset / 32 + 1, i, len, w.error);
        return Returns(Err(w.error));
      }
      out := out + [w.value];
      i := i + 1;
    }
    return Returns(Ok(out));
  }

  function UintArray(bytes: seq<Byte>): Outcome<seq<U128>> {
    if !IsWords(bytes) then Returns(Err(InvalidQuantity))
    else
      var o := WordUint(bytes, 0);
      if o.Err? then Returns(Err(o.error))
      else
        var offset := AsUsize(o.value);
        if offset % 32 != 0 then Returns(Err(InvalidQuantity))
        else if offset + 32 >= TWO_64 then Aborts
        else if offset + 32 > |bytes| then Returns(Err(InvalidQuantity))
        else
          var n := WordUint(bytes, offset / 32);
          if n.Err? then Returns(Err(n.error))
          else if UINT_BYTES * AsUsize(n.value) > ISIZE_MAX then Aborts
          else Returns(WordsFrom(bytes, offset / 32 + 1, AsUsize(n.value)))
  }

  /** The documented promise is that malformed returns give errors. Both decoders keep it exactly unless an
      offset word lies within 32 of the machine word's end, or a length word does not fit beside it. */
  lemma StringReturnsExactly(bytes: seq<Byte>)
    requires IsWords(bytes) && |bytes| <= ISIZE_MAX && WordUint(bytes, 0).Ok?
    ensures var offset := AsUsize(WordUint(bytes, 0).value);
            var n := WordUint(bytes, offset / 32);
            DecodeString(bytes).Returns?
            <==> && offset < TWO_64 - 32
                 && (offset + 32 <= |bytes| && n.Ok? ==> offset + 32 + AsUsize(n.value) < TWO_64)
  {
    hide WordUint, AsUsize;
  }

  lemma ArrayReturnsExactly(bytes: seq<Byte>)
    requires IsWords(bytes) && |bytes| <= ISIZE_MAX && WordUint(bytes, 0).Ok?
    ensures var offset := AsUsize(WordUint(bytes, 0).value);
            var n := WordUint(bytes, offset / 32);
            UintArray(bytes).Returns?
            <==> && offset != TWO_64 - 32
                 && (offset % 32 == 0 && n.Ok? ==> UINT_BYTES * AsUsize(n.value) <= ISIZE_MAX)
  {
    var offset := AsUsize(WordUint(bytes, 0).value);
    ShortWord(bytes, offset / 32);
    hide WordUint, WordsFrom;
  }

  lemma ShortWord(bytes: seq<Byte>, k: nat)
    ensures WordUint(bytes, k).Ok? ==> 32 * k + 32 <= |bytes|
  {
  }

  /** The k-th word is there and stands for that number. */
  predicate WordIs(bytes: seq<Byte>, k: nat, v: nat) {
    32 * k + 32 <= |bytes| && FromBE(bytes[32 * k..32 * k + 32]) == v < TWO_128
  }

  lemma ReadsWord(bytes: seq<Byte>, k: nat, v: U128)
    ensures WordUint(bytes, k) == Ok(v) <==> WordIs(bytes, k, v)
  {
    hide WordUint, FromBE;
    WordExactly(bytes, k);
  }

  /** What `decode_string` gives, for any bytes: the offset and the length are read modulo 2^64, the offset need
      not be aligned, and neither order nor padding is checked. */
  lemma StringReadsExactly(bytes: seq<Byte>, text: seq<Byte>)
    requires |bytes| <= ISIZE_MAX
    ensures DecodeString(bytes) == Returns(Ok(text))
       <==> && bytes != [] && |bytes| % 32 == 0
            && exists o: U128, n: U128 ::
                 && WordIs(bytes, 0, o) && WordIs(bytes, o % TWO_64 / 32, n)
                 && o % TWO_64 + 32 + n % TWO_64 <= |bytes|
                 && text == bytes[o % TWO_64 + 32..o % TWO_64 + 32 + n % TWO_64]
  {
    hide WordUint, WordIs;
    forall k: nat, v: U128 ensures WordUint(bytes, k) == Ok(v) <==> WordIs(bytes, k, v) {
      ReadsWord(bytes, k, v);
    }
    if DecodeString(bytes) == Returns(Ok(text)) {
      var o := WordUint(bytes, 0).value;
      var n := WordUint(bytes, AsUsize(o) / 32).value;
      assert WordIs(bytes, 0, o) && WordIs(bytes, o % TWO_64 / 32, n);
    }
  }

  lemma {:induction false} WordsFromExactly(bytes: seq<Byte>, first: nat, len: nat, vs: seq<U128>)
    ensures WordsFrom(bytes, first, len) == Ok(vs)
       <==> |vs| == len && forall i :: 0 <= i < len ==> WordIs(bytes, first + i, vs[i])
    decreases len
  {
    hide WordUint, WordIs;
    if len > 0 {
      var before := WordsFrom(bytes, first, len - 1);
      if |vs| == len {
        WordsFromExactly(bytes, first, len - 1, vs[..len - 1]);
        ReadsWord(bytes, first + len - 1, vs[len - 1]);
        assert vs == vs[..len - 1] + [vs[len - 1]];
        assert forall i :: 0 <= i < len - 1 ==> vs[..len - 1][i] == vs[i];
      } else if before.Ok? {
        WordsFromExactly(bytes, first, len - 1, before.value);
      }
    }
  }

  /** What `decode_uint_array` gives, for any bytes: as many words as the length says, in order, from an aligned
      offset. */
  lemma ArrayReadsExactly(bytes: seq<Byte>, vs: seq<U128>)
    requires |bytes| <= ISIZE_MAX
    ensures UintArray(bytes) == Returns(Ok(vs))
       <==> && bytes != [] && |bytes| % 32 == 0
            && exists o: U128, n: U128 ::
                 && WordIs(bytes, 0, o) && o % TWO_64 % 32 == 0 && WordIs(bytes, o % TWO_64 / 32, n)
                 && |vs| == n % TWO_64 && UINT_BYTES * |vs| <= ISIZE_MAX
                 && forall i :: 0 <= i < |vs| ==> WordIs(bytes, o % TWO_64 / 32 + 1 + i, vs[i])
  {
    hide WordUint, WordIs, WordsFrom;
    forall k: nat, v: U128 ensures WordUint(bytes, k) == Ok(v) <==> WordIs(bytes, k, v) {
      ReadsWord(bytes, k, v);
    }
    forall k: nat, v: U128 | WordIs(bytes, k, v) ensures 32 * k + 32 <= |bytes| {
      WordIsThere(bytes, k, v);
    }
    forall first: nat, len: nat
      ensures WordsFrom(bytes, first, len) == Ok(vs)
         <==> |vs| == len && forall i :: 0 <= i < len ==> WordIs(bytes, first + i, vs[i])
    {
      WordsFromExactly(bytes, first, len, vs);
    }
    if UintArray(bytes) == Returns(Ok(vs)) {
      var o := WordUint(bytes, 0).value;
      var n := WordUint(bytes, AsUsize(o) / 32).value;
      assert WordIs(bytes, 0, o) && WordIs(bytes, o % TWO_64 / 32, n);
    }
  }

  lemma WordIsThere(bytes: seq<Byte>, k: nat, v: nat)
    requires WordIs(bytes, k, v)
    ensures 32 * k + 32 <= |bytes|
  {
  }

  /** One word that makes both abort. */
  lemma FarOffsetAborts()
    ensures DecodeString(UintWord(TWO_64 - 32)) == Aborts && UintArray(UintWord(TWO_64 - 32)) == Aborts
  {
    hide UintWord, WordUint, WordsFrom, Part;
    PartWhole(UintWord(TWO_64 - 32));
    WordReads(UintWord(TWO_64 - 32), 0, TWO_64 - 32);
  }

  lemma {:induction false} WordsFail(bytes: seq<Byte>, first: nat, i: nat, len: nat, e: AbiError)
    requires i < len && WordsFrom(bytes, first, i).Ok? && WordUint(bytes, first + i) == Err(e)
    ensures WordsFrom(bytes, first, len) == Err(e)
    decreases len
  {
    if len > i + 1 {
      WordsFail(bytes, first, i, len - 1, e);
    }
  }

  function AddressList(bytes: seq<Byte>, at: nat, n: nat): (list: seq<Address>)
    requires at + 32 * n <= |bytes|
    ensures |list| == n
    ensures forall i :: 0 <= i < n ==> list[i] == bytes[at + 32 * i + 12..at + 32 * i + 32]
  {
    seq(n, i requires 0 <= i < n => bytes[at + 32 * i + 12..at + 32 * i + 32])
  }

  predicate Zero(b: seq<Byte>) {
    forall i :: 0 <= i < |b| ==> b[i] == 0
  }

  /** Each of `n` words has twelve zero bytes in front of an address. */
  predicate ZeroFronts(bytes: seq<Byte>, at: nat, n: nat)
    requires at + 32 * n <= |bytes|
  {
    forall i :: 0 <= i < n ==> Zero(bytes[at + 32 * i..at + 32 * i + 12])
  }

  /** The k-th argument, read as the type it was written as. Strict: whatever only fills up a word must be
      zero. */
  function DecodeArg(bytes: seq<Byte>, k: nat, kind: Kind): Option<Arg> {
    match kind
    case KUint =>
      var w := WordUint(bytes, k);
      if w.Ok? then Some(Uint(w.value)) else None
    case KAddr =>
      if |bytes| < 32 * k + 32 || !Zero(bytes[32 * k..32 * k + 12]) then None
      else Some(Addr(bytes[32 * k + 12..32 * k + 32]))
    case KStr =>
      var w := WordUint(bytes, k);
      if w.Err? || w.value % 32 != 0 then None
      else
        var n := WordUint(bytes, w.value / 32);
        if n.Err? || w.value + 32 + 32 * WordsFor(n.value) > |bytes| then None
        else if !Zero(bytes[w.value + 32 + n.value..w.value + 32 + 32 * WordsFor(n.value)]) then None
        else Some(Str(bytes[w.value + 32..w.value + 32 + n.value]))
    case KAddrs =>
      var w := WordUint(bytes, k);
      if w.Err? || w.value % 32 != 0 then None
      else
        var n := WordUint(bytes, w.value / 32);
        if n.Err? || w.value + 32 + 32 * n.value > |bytes| then None
        else if !ZeroFronts(bytes, w.value + 32, n.value) then None
        else Some(Addrs(AddressList(bytes, w.value + 32, n.value)))
  }

  // --------------------------------------------------------------------- layout ---

  function Part(s: seq<Byte>, at: nat, len: nat): seq<Byte>
    requires at + len <= |s|
  {
    s[at..at + len]
  }

  lemma PartFront(a: seq<Byte>, b: seq<Byte>, at: nat, len: nat)
    requires at + len <= |a|
    ensures Part(a + b, at, len) == Part(a, at, len)
  {
  }

  lemma PartBack(a: seq<Byte>, b: seq<Byte>, at: nat, len: nat)
    requires at + len <= |b|
    ensures Part(a + b, |a| + at, len) == Part(b, at, len)
  {
  }

  lemma PartPart(s: seq<Byte>, at: nat, len: nat, at2: nat, len2: nat)
    requires at + len <= |s| && at2 + len2 <= len
    ensures Part(Part(s, at, len), at2, len2) == Part(s, at + at2, len2)
  {
    var a, b := Part(Part(s, at, len), at2, len2), Part(s, at + at2, len2);
    forall i | 0 <= i < len2 ensures a[i] == b[i] {
      assert a[i] == s[at..at + len][at2 + i];
    }
  }

  lemma PartWhole(s: seq<Byte>)
    ensures Part(s, 0, |s|) == s
  {
  }

  lemma WordReads(bytes: seq<Byte>, k: nat, v: U128)
    requires |bytes| >= 32 * k + 32 && Part(bytes, 32 * k, 32) == UintWord(v)
    ensures WordUint(bytes, k) == Ok(v)
  {
    Widths();
    FromTo(v, 16);
    var w := Part(bytes, 32 * k, 32);
    assert forall i :: 32 * k <= i < 32 * k + 16 ==> bytes[i] == w[i - 32 * k];
    assert bytes[32 * k + 16..32 * k + 32] == w[16..] == ToBE(v, 16);
  }

  lemma {:induction false} HeadAt(args: seq<Arg>, n: nat, k: nat)
    requires Fits(args) && k < n <= |args|
    ensures Offset(args, k) < TWO_64
    ensures Part(Heads(args, n), 32 * k, 32) == HeadOf(args[k], Offset(args, k))
    decreases n
  {
    hide HeadOf, Part, Tails, AllTailWords;
    TailsMonotone(args, n - 1);
    TailsMonotone(args, k);
    var before, last := Heads(args, n - 1), HeadOf(args[n - 1], Offset(args, n - 1));
    if k < n - 1 {
      HeadAt(args, n - 1, k);
      PartFront(before, last, 32 * k, 32);
    } else {
      PartBack(before, last, 0, 32);
      PartWhole(last);
    }
  }

  lemma {:induction false} TailsStep(args: seq<Arg>)
    requires AllFit(args) && args != []
    ensures var n := |args| - 1; Tails(args) == Tails(args[..n]) + TailOf(args[n])
  {
  }

  lemma {:induction false} TailAt(args: seq<Arg>, k: nat)
    requires AllFit(args) && k < |args|
    ensures var at := |Tails(args[..k])|;
            && |Tails(args[..k + 1])| == at + |TailOf(args[k])| <= |Tails(args)|
            && Part(Tails(args), at, |TailOf(args[k])|) == TailOf(args[k])
    decreases |args|
  {
    hide TailOf, TailWords, Tails, AllTailWords, Part;
    var n := |args| - 1;
    TailsStep(args);
    if k < n {
      TailAt(args[..n], k);
      assert args[..n][..k] == args[..k] && args[..n][..k + 1] == args[..k + 1];
      PartFront(Tails(args[..n]), TailOf(args[n]), |Tails(args[..k])|, |TailOf(args[k])|);
    } else {
      assert args[..k + 1] == args;
      PartBack(Tails(args[..n]), TailOf(args[n]), 0, |TailOf(args[n])|);
      PartWhole(TailOf(args[n]));
    }
  }

  lemma NoTails()
    ensures Tails([]) == []
  {
  }

  lemma Aligned(heads: nat, words: nat)
    ensures (32 * heads + 32 * words) % 32 == 0
  {
  }

  /** Offsets are word-aligned; tails follow one another in argument order without gap or overlap,
      from the end of the heads to the end of the encoding. */
  lemma {:induction false} Layout(args: seq<Arg>, k: nat)
    requires Fits(args) && k < |args|
    ensures Offset(args, k) % 32 == 0 && Offset(args, 0) == |Heads(args, |args|)|
    ensures Offset(args, k + 1) == Offset(args, k) + |TailOf(args[k])| <= |Encoded(args)|
    ensures Offset(args, |args|) == |Encoded(args)| && |Encoded(args)| % 32 == 0
    ensures Part(Encoded(args), Offset(args, k), |TailOf(args[k])|) == TailOf(args[k])
    ensures Offset(args, k) < TWO_64 && 32 * k + 32 <= |Encoded(args)|
    ensures Part(Encoded(args), 32 * k, 32) == HeadOf(args[k], Offset(args, k))
  {
    hide HeadOf, TailOf, Part, Heads, TailWords, AllTailWords, Tails;
    HeadAt(args, |args|, k);
    TailAt(args, k);
    NoTails();
    Aligned(|args|, AllTailWords(args[..k]));
    Aligned(|args|, AllTailWords(args));
    assert args[..0] == [] && args[..|args|] == args;
    PartBack(Heads(args, |args|), Tails(args), |Tails(args[..k])|, |TailOf(args[k])|);
    PartFront(Heads(args, |args|), Tails(args), 32 * k, 32);
  }

  lemma {:induction false} AddressAt(list: seq<Address>, i: nat)
    requires i < |list|
    ensures Part(AddressWords(list), 32 * i, 32) == AddressWord(list[i])
    decreases |list|
  {
    hide Part, AddressWord;
    var n := |list| - 1;
    var before, last := AddressWords(list[..n]), AddressWord(list[n]);
    if i < n {
      AddressAt(list[..n], i);
      PartFront(before, last, 32 * i, 32);
    } else {
      PartBack(before, last, 0, 32);
      PartWhole(last);
    }
  }

  /** A word that holds an address. */
  lemma AddressReads(bytes: seq<Byte>, at: nat, a: Address)
    requires at + 32 <= |bytes| && Part(bytes, at, 32) == AddressWord(a)
    ensures Zero(bytes[at..at + 12]) && bytes[at + 12..at + 32] == a
  {
    var w := Part(bytes, at, 32);
    assert bytes[at..at + 12] == w[..12] == ZeroBytes(12);
    assert bytes[at + 12..at + 32] == w[12..] == a;
  }

  lemma PaddingIsZero(b: seq<Byte>)
    ensures Zero(Padded(b)[|b|..]) && Padded(b)[..|b|] == b
  {
    var rem := |b| % 32;
    assert rem != 0 ==> Padded(b)[|b|..] == ZeroBytes(32 - rem);
    assert rem == 0 ==> Padded(b)[|b|..] == [];
  }

  // ----------------------------------------------------------------- round trips ---

  /** A length word at the start of a tail, and the contents after it. */
  lemma TailLength(args: seq<Arg>, k: nat, n: U128, body: seq<Byte>)
    requires Fits(args) && k < |args| && TailOf(args[k]) == UintWord(n) + body
    ensures var bytes, o := Encoded(args), Offset(args, k);
            && o % 32 == 0 && o + 32 + |body| <= |bytes|
            && WordUint(bytes, o / 32) == Ok(n)
            && Part(bytes, o + 32, |body|) == body
  {
    hide WordUint, UintWord, TailOf, HeadOf, Encoded, Offset, Part;
    Layout(args, k);
    var bytes, o := Encoded(args), Offset(args, k);
    var tail := UintWord(n) + body;
    PartFront(UintWord(n), body, 0, 32);
    PartWhole(UintWord(n));
    PartBack(UintWord(n), body, 0, |body|);
    PartWhole(body);
    PartPart(bytes, o, |tail|, 0, 32);
    PartPart(bytes, o, |tail|, 32, |body|);
    assert 32 * (o / 32) == o;
    WordReads(bytes, o / 32, n);
  }

  lemma OffsetReads(args: seq<Arg>, k: nat)
    requires Fits(args) && k < |args| && IsDynamic(args[k])
    ensures Offset(args, k) < TWO_64 && WordUint(Encoded(args), k) == Ok(Offset(args, k))
  {
    Layout(args, k);
    WordReads(Encoded(args), k, Offset(args, k));
  }

  /** Offset, length and contents of a string argument. */
  lemma StringAt(args: seq<Arg>, k: nat)
    requires Fits(args) && k < |args| && args[k].Str?
    ensures var bytes, o, b := Encoded(args), Offset(args, k), args[k].bytes;
            && o % 32 == 0 && o < TWO_64 && o + 32 + |b| <= |bytes|
            && WordUint(bytes, k) == Ok(o) && WordUint(bytes, o / 32) == Ok(|b|)
            && bytes[o + 32..o + 32 + |b|] == b && o + 32 + 32 * WordsFor(|b|) <= |bytes|
            && Zero(bytes[o + 32 + |b|..o + 32 + 32 * WordsFor(|b|)])
  {
    hide WordUint, Encoded, Offset;
    var b := args[k].bytes;
    OffsetReads(args, k);
    TailLength(args, k, |b|, Padded(b));
    PaddingIsZero(b);
    hide Padded, TailOf, WordsFor, UintWord, Zero, Part;
    PaddedReads(Encoded(args), Offset(args, k) + 32, b);
  }

  lemma PaddedReads(bytes: seq<Byte>, at: nat, b: seq<Byte>)
    requires at + |Padded(b)| <= |bytes| && Part(bytes, at, |Padded(b)|) == Padded(b)
    ensures bytes[at..at + |b|] == b && Zero(bytes[at + |b|..at + 32 * WordsFor(|b|)])
  {
    PaddingIsZero(b);
    var w := Padded(b);
    hide Padded, WordsFor, Zero;
    assert bytes[at..at + |b|] == w[..|b|];
    assert bytes[at + |b|..at + |w|] == w[|b|..];
  }

  lemma AddressesAt(args: seq<Arg>, k: nat)
    requires Fits(args) && k < |args| && args[k].Addrs?
    ensures var bytes, o, list := Encoded(args), Offset(args, k), args[k].list;
            && o % 32 == 0 && o < TWO_64 && o + 32 + 32 * |list| <= |bytes|
            && WordUint(bytes, k) == Ok(o) && WordUint(bytes, o / 32) == Ok(|list|)
            && ZeroFronts(bytes, o + 32, |list|)
            && forall i :: 0 <= i < |list| ==>
                             bytes[o + 32 + 32 * i + 12..o + 32 + 32 * i + 32] == list[i]
  {
    hide WordUint, Encoded, Offset, Zero;
    var list := args[k].list;
    OffsetReads(args, k);
    TailLength(args, k, |list|, AddressWords(list));
    var bytes, o := Encoded(args), Offset(args, k);
    hide TailOf, AddressWords, UintWord, Part;
    forall i | 0 <= i < |list|
      ensures bytes[o + 32 + 32 * i + 12..o + 32 + 32 * i + 32] == list[i]
              && Zero(bytes[o + 32 + 32 * i..o + 32 + 32 * i + 12])
    {
      AddressInside(bytes, o + 32, list, i);
    }
  }

  lemma {:induction false} AddressInside(bytes: seq<Byte>, at: nat, list: seq<Address>, i: nat)
    requires i < |list| && at + 32 * |list| <= |bytes| && Part(bytes, at, 32 * |list|) == AddressWords(list)
    ensures bytes[at + 32 * i + 12..at + 32 * i + 32] == list[i] && Zero(bytes[at + 32 * i..at + 32 * i + 12])
  {
    hide AddressWords, AddressWord, Zero, Part;
    AddressAt(list, i);
    PartPart(bytes, at, 32 * |list|, 32 * i, 32);
    AddressReads(bytes, at + 32 * i, list[i]);
  }

  lemma UintAt(args: seq<Arg>, k: nat)
    requires Fits(args) && k < |args| && args[k].Uint?
    ensures WordUint(Encoded(args), k) == Ok(args[k].v)
  {
    hide WordUint, Encoded, Offset, UintWord, TailOf, Part;
    Layout(args, k);
    WordReads(Encoded(args), k, args[k].v);
  }

  lemma AddressWordReads(args: seq<Arg>, k: nat)
    requires Fits(args) && k < |args| && args[k].Addr?
    ensures 32 * k + 32 <= |Encoded(args)| && Encoded(args)[32 * k + 12..32 * k + 32] == args[k].a
    ensures Zero(Encoded(args)[32 * k..32 * k + 12])
  {
    hide Encoded, Offset, UintWord, TailOf, AddressWord, Zero;
    Layout(args, k);
    AddressReads(Encoded(args), 32 * k, args[k].a);
  }

  /** Decoding by the list of types inverts encoding, for every mix of static and dynamic
      arguments, at every position. */
  lemma ArgsRoundTrip(args: seq<Arg>, k: nat)
    requires Fits(args) && k < |args|
    ensures DecodeArg(Encoded(args), k, KindOf(args[k])) == Some(args[k])
  {
    hide WordUint, Encoded, Offset, Zero, WordsFor, ZeroFronts;
    match args[k] {
      case Uint(_) => UintAt(args, k);
      case Addr(_) => AddressWordReads(args, k);
      case Str(_) => StringAt(args, k);
      case Addrs(list) =>
        AddressesAt(args, k);
        assert AddressList(Encoded(args), Offset(args, k) + 32, |list|) == list;
    }
  }

  /** Hence argument lists of the same types have the same encoding only if they are equal. */
  lemma EncodingInjective(a: seq<Arg>, b: seq<Arg>)
    requires Fits(a) && Fits(b) && |a| == |b|
    requires forall k :: 0 <= k < |a| ==> KindOf(a[k]) == KindOf(b[k])
    ensures Encoded(a) == Encoded(b) <==> a == b
  {
    hide DecodeArg, Encoded;
    if Encoded(a) == Encoded(b) {
      forall k | 0 <= k < |a| ensures a[k] == b[k] {
        ArgsRoundTrip(a, k);
        ArgsRoundTrip(b, k);
      }
    }
  }

  lemma EncodedFits(args: seq<Arg>)
    requires Fits(args)
    ensures |Encoded(args)| < TWO_64
  {
  }

  lemma StringReads(bytes: seq<Byte>, o: nat, b: seq<Byte>)
    requires IsWords(bytes) && |bytes| < TWO_64 && o + 32 + |b| <= |bytes|
    requires WordUint(bytes, 0) == Ok(o) && WordUint(bytes, o / 32) == Ok(|b|)
    requires bytes[o + 32..o + 32 + |b|] == b
    ensures DecodeString(bytes) == Returns(Ok(b))
  {
    hide WordUint;
  }

  lemma EncodedWords(args: seq<Arg>)
    requires Fits(args) && args != []
    ensures IsWords(Encoded(args))
  {
    hide Encoded, Offset, TailOf, HeadOf, Part;
    Layout(args, 0);
  }

  /** The source's own decoders on an encoding: any uint at its position, and a leading string,
      whatever follows. */
  lemma ReturnsRead(args: seq<Arg>, k: nat)
    requires Fits(args) && k < |args|
    ensures args[k].Uint? ==> DecodeUint(Encoded(args), k) == Ok(args[k].v)
    ensures args[0].Str? ==> DecodeString(Encoded(args)) == Returns(Ok(args[0].bytes))
  {
    hide WordUint, Encoded, Offset, UintWord, TailOf, Part, IsWords, DecodeString;
    EncodedWords(args);
    EncodedFits(args);
    if args[k].Uint? {
      UintAt(args, k);
    }
    if args[0].Str? {
      StringAt(args, 0);
      StringReads(Encoded(args), Offset(args, 0), args[0].bytes);
    }
  }

  function ArrayWords(vs: seq<U128>): (r: seq<Byte>)
    ensures |r| == 32 * |vs|
  {
    if vs == [] then [] else ArrayWords(vs[..|vs| - 1]) + UintWord(vs[|vs| - 1])
  }

  /** A lone `uint256[]` return: offset 32, length, items. */
  function ArrayReturn(vs: seq<U128>): (r: seq<Byte>)
    requires |vs| < TWO_64
    ensures |r| == 64 + 32 * |vs|
  {
    UintWord(32) + UintWord(|vs|) + ArrayWords(vs)
  }

  lemma {:induction false} ArrayWordAt(vs: seq<U128>, i: nat)
    requires i < |vs|
    ensures Part(ArrayWords(vs), 32 * i, 32) == UintWord(vs[i])
    decreases |vs|
  {
    hide Part, UintWord;
    var n := |vs| - 1;
    if i < n {
      ArrayWordAt(vs[..n], i);
      PartFront(ArrayWords(vs[..n]), UintWord(vs[n]), 32 * i, 32);
    } else {
      PartBack(ArrayWords(vs[..n]), UintWord(vs[n]), 0, 32);
      PartWhole(UintWord(vs[n]));
    }
  }

  lemma {:induction false} WordsRead(vs: seq<U128>, len: nat)
    requires len <= |vs| < TWO_64
    ensures WordsFrom(ArrayReturn(vs), 2, len) == Ok(vs[..len])
    decreases len
  {
    hide Part, WordUint, UintWord, ArrayWords;
    if len > 0 {
      var i := len - 1;
      WordsRead(vs, i);
      ArrayWordAt(vs, i);
      PartBack(UintWord(32) + UintWord(|vs|), ArrayWords(vs), 32 * i, 32);
      WordReads(ArrayReturn(vs), 2 + i, vs[i]);
      assert vs[..len] == vs[..i] + [vs[i]];
    }
  }

  /** An encoded array is read back exactly if the decoded one can be allocated. */
  lemma ArrayRoundTrip(vs: seq<U128>)
    requires |vs| < TWO_64
    ensures UintArray(ArrayReturn(vs)) == if UINT_BYTES * |vs| <= ISIZE_MAX then Returns(Ok(vs)) else Aborts
  {
    hide WordsFrom, WordUint, UintWord, ArrayWords, Part;
    var heads := UintWord(32) + UintWord(|vs|);
    PartFront(heads, ArrayWords(vs), 0, 32);
    PartFront(heads, ArrayWords(vs), 32, 32);
    PartFront(UintWord(32), UintWord(|vs|), 0, 32);
    PartBack(UintWord(32), UintWord(|vs|), 0, 32);
    PartWhole(UintWord(32));
    PartWhole(UintWord(|vs|));
    WordReads(ArrayReturn(vs), 0, 32);
    WordReads(ArrayReturn(vs), 1, |vs|);
    WordsRead(vs, |vs|);
    assert vs[..|vs|] == vs;
  }
}
