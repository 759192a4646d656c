/** Delimiter-framed MAC inputs of app/core/src/secrets.rs and app/core/src/crypto.rs, and what
    verify-then-decrypt accepts when the MAC is ideal. */
module Framing {
  import opened Wrappers
  import opened Bytes

  // --------------------------------------------------------------------- framing ---

  function Join(parts: seq<string>): string
    requires parts != []
  {
    if |parts| == 1 then parts[0] else parts[0] + "|" + Join(parts[1..])
  }

  predicate NoBar(s: string) {
    '|' !in s
  }

  predicate AllNoBar(parts: seq<string>) {
    forall i :: 0 <= i < |parts| ==> NoBar(parts[i])
  }

  function Bars(s: string): nat {
    if s == [] then 0 else (if s[0] == '|' then 1 else 0) + Bars(s[1..])
  }

  lemma {:induction false} BarsConcat(a: string, b: string)
    ensures Bars(a + b) == Bars(a) + Bars(b)
    decreases |a|
  {
    if a == [] {
      assert a + b == b;
    } else {
      BarsConcat(a[1..], b);
      assert (a + b)[1..] == a[1..] + b;
    }
  }

  lemma {:induction false} NoBars(s: string)
    ensures Bars(s) == 0 <==> NoBar(s)
    decreases |s|
  {
    if s != [] {
      NoBars(s[1..]);
      assert s == [s[0]] + s[1..];
    }
  }

  /** There are at least as many bars as joints, and exactly as many when no part has one. */
  lemma {:induction false} BarsJoined(parts: seq<string>)
    requires parts != []
    ensures Bars(Join(parts)) >= |parts| - 1
    ensures Bars(Join(parts)) == |parts| - 1 <==> AllNoBar(parts)
    decreases |parts|
  {
    NoBars(parts[0]);
    if |parts| > 1 {
      var rest := parts[1..];
      BarsJoined(rest);
      BarsConcat(parts[0] + "|", Join(rest));
      BarsConcat(parts[0], "|");
      assert Bars("|") == 1 by {
        assert "|"[1..] == "";
      }
      assert AllNoBar(parts) <==> NoBar(parts[0]) && AllNoBar(rest) by {
        assert forall i :: 0 <= i < |rest| ==> rest[i] == parts[i + 1];
        if NoBar(parts[0]) && AllNoBar(rest) {
          forall i | 0 <= i < |parts| ensures NoBar(parts[i]) {
            if i > 0 {
              assert NoBar(rest[i - 1]);
            }
          }
        }
      }
    }
  }

  lemma FirstBar(a: string, x: string, b: string, y: string)
    requires NoBar(a) && NoBar(b) && a + "|" + x == b + "|" + y
    ensures a == b && x == y
  {
    var s := a + "|" + x;
    assert s[|a|] == '|' && s[|b|] == '|';
    assert s[..|a|] == a && s[..|b|] == b && s[|a| + 1..] == x && s[|b| + 1..] == y;
  }

  lemma {:induction false} JoinNoBars(a: seq<string>, b: seq<string>)
    requires |a| == |b| > 0 && AllNoBar(a) && AllNoBar(b) && Join(a) == Join(b)
    ensures a == b
    decreases |a|
  {
    if |a| > 1 {
      FirstBar(a[0], Join(a[1..]), b[0], Join(b[1..]));
      JoinNoBars(a[1..], b[1..]);
      assert a == [a[0]] + a[1..] && b == [b[0]] + b[1..];
    }
  }

  /** A joined string without stray bars has one reading into that many parts, whatever the parts
      of the other reading may contain. */
  lemma {:induction false} JoinUnique(received: seq<string>, honest: seq<string>)
    requires |received| == |honest| > 0 && AllNoBar(honest)
    ensures Join(received) == Join(honest) <==> received == honest
  {
    if Join(received) == Join(honest) {
      BarsJoined(received);
      BarsJoined(honest);
      JoinNoBars(received, honest);
    }
  }

  // -------------------------------------------------------------------- MAC inputs ---

  datatype Field = Key | Value {
    function AsStr(): string {
      match this
      case Key => "key"
      case Value => "value"
    }
  }

  function SecretMacInput(entryId: string, field: Field, ivHex: string, ct: string): string {
    Join(["PSv1", "secret", entryId, field.AsStr(), ivHex, ct])
  }

  function MessageMacInput(roomId: string, ivHex: string, ct: string): string {
    Join(["FNv2", "message", roomId, ivHex, ct])
  }

  function RoomKeyMacInput(roomId: string, ephPub: string, ivHex: string, ct: string): string {
    Join(["FNv2", "roomkey", roomId, ephPub, ivHex, ct])
  }

  lemma {:induction false} JoinTwo(first: string, rest: seq<string>)
    requires rest != []
    ensures Join([first] + rest) == first + "|" + Join(rest)
  {
    assert ([first] + rest)[1..] == rest;
  }

  lemma {:induction false} JoinFive(a: string, b: string, c: string, d: string, e: string)
    ensures Join([a, b, c, d, e]) == a + "|" + b + "|" + c + "|" + d + "|" + e
  {
    hide Join;
    JoinLast(e);
    JoinTwo(d, [e]);
    JoinTwo(c, [d, e]);
    JoinTwo(b, [c, d, e]);
    JoinTwo(a, [b, c, d, e]);
    assert [d] + [e] == [d, e] && [c] + [d, e] == [c, d, e] && [b] + [c, d, e] == [b, c, d, e];
    assert [a] + [b, c, d, e] == [a, b, c, d, e];
    assert a + "|" + (b + "|" + (c + "|" + (d + "|" + e))) == a + "|" + b + "|" + c + "|" + d + "|" + e;
  }

  lemma JoinLast(a: string)
    ensures Join([a]) == a
  {
  }

  lemma {:induction false} JoinSix(a: string, b: string, c: string, d: string, e: string, f: string)
    ensures Join([a, b, c, d, e, f]) == a + "|" + b + "|" + c + "|" + d + "|" + e + "|" + f
  {
    hide Join;
    JoinFive(b, c, d, e, f);
    JoinTwo(a, [b, c, d, e, f]);
    assert [a] + [b, c, d, e, f] == [a, b, c, d, e, f];
    Regrouped(a + "|", b, c, d, e, f);
  }

  lemma Regrouped(a: string, b: string, c: string, d: string, e: string, f: string)
    ensures a + (b + "|" + c + "|" + d + "|" + e + "|" + f) == a + b + "|" + c + "|" + d + "|" + e + "|" + f
  {
  }

  /** The three frames, part by part as they go into the MAC. */
  lemma FrameTexts(id: string, f: Field, eph: string, iv: string, ct: string)
    ensures SecretMacInput(id, f, iv, ct)
         == "PSv1" + "|" + "secret" + "|" + id + "|" + (if f == Key then "key" else "value") + "|" + iv + "|" + ct
    ensures MessageMacInput(id, iv, ct) == "FNv2" + "|" + "message" + "|" + id + "|" + iv + "|" + ct
    ensures RoomKeyMacInput(id, eph, iv, ct)
         == "FNv2" + "|" + "roomkey" + "|" + id + "|" + eph + "|" + iv + "|" + ct
  {
    hide Join;
    JoinFive("FNv2", "message", id, iv, ct);
    JoinSix("PSv1", "secret", id, f.AsStr(), iv, ct);
    JoinSix("FNv2", "roomkey", id, eph, iv, ct);
  }

  /** Equal secret frames agree in every component, for any strings on the received side. */
  lemma SecretFrameUnique(id: string, f: Field, iv: string, ct: string,
                          id': string, f': Field, iv': string, ct': string)
    requires NoBar(id') && NoBar(iv') && NoBar(ct')
    ensures SecretMacInput(id, f, iv, ct) == SecretMacInput(id', f', iv', ct')
       <==> id == id' && f == f' && iv == iv' && ct == ct'
  {
    var a := ["PSv1", "secret", id, f.AsStr(), iv, ct];
    var b := ["PSv1", "secret", id', f'.AsStr(), iv', ct'];
    assert NoBar("PSv1") && NoBar("secret") && NoBar(f'.AsStr());
    JoinUnique(a, b);
    assert a == b ==> a[2] == b[2] && a[3] == b[3] && a[4] == b[4] && a[5] == b[5];
    assert "key" != "value" by {
      assert |"key"| != |"value"|;
    }
  }

  lemma MessageFrameUnique(room: string, iv: string, ct: string, room': string, iv': string, ct': string)
    requires NoBar(room') && NoBar(iv') && NoBar(ct')
    ensures MessageMacInput(room, iv, ct) == MessageMacInput(room', iv', ct')
       <==> room == room' && iv == iv' && ct == ct'
  {
    var a := ["FNv2", "message", room, iv, ct];
    var b := ["FNv2", "message", room', iv', ct'];
    assert NoBar("FNv2") && NoBar("message");
    JoinUnique(a, b);
    assert a == b ==> a[2] == b[2] && a[3] == b[3] && a[4] == b[4];
  }

  lemma RoomKeyFrameUnique(room: string, eph: string, iv: string, ct: string,
                           room': string, eph': string, iv': string, ct': string)
    requires NoBar(room') && NoBar(eph') && NoBar(iv') && NoBar(ct')
    ensures RoomKeyMacInput(room, eph, iv, ct) == RoomKeyMacInput(room', eph', iv', ct')
       <==> room == room' && eph == eph' && iv == iv' && ct == ct'
  {
    var a := ["FNv2", "roomkey", room, eph, iv, ct];
    var b := ["FNv2", "roomkey", room', eph', iv', ct'];
    assert NoBar("FNv2") && NoBar("roomkey");
    JoinUnique(a, b);
    assert a == b ==> a[2] == b[2] && a[3] == b[3] && a[4] == b[4] && a[5] == b[5];
  }

  lemma {:induction false} Starts(first: string, second: string, rest: seq<string>)
    requires rest != []
    ensures first + "|" + second + "|" <= Join([first, second] + rest)
  {
    var parts := [first, second] + rest;
    assert parts[1..] == [second] + rest && parts[1..][1..] == rest;
    assert Join(parts) == first + "|" + (second + "|" + Join(rest));
  }

  /** A message frame, a room-key frame and a secret frame are never the same string. */
  lemma FramesDisjoint(room: string, iv: string, ct: string, room2: string, eph: string, iv2: string, ct2: string,
                       id: string, f: Field, iv3: string, ct3: string)
    ensures MessageMacInput(room, iv, ct) != RoomKeyMacInput(room2, eph, iv2, ct2)
    ensures MessageMacInput(room, iv, ct) != SecretMacInput(id, f, iv3, ct3)
    ensures RoomKeyMacInput(room2, eph, iv2, ct2) != SecretMacInput(id, f, iv3, ct3)
  {
    Starts("FNv2", "message", [room, iv, ct]);
    Starts("FNv2", "roomkey", [room2, eph, iv2, ct2]);
    Starts("PSv1", "secret", [id, f.AsStr(), iv3, ct3]);
    assert ["FNv2", "message"] + [room, iv, ct] == ["FNv2", "message", room, iv, ct];
    assert ["FNv2", "roomkey"] + [room2, eph, iv2, ct2] == ["FNv2", "roomkey", room2, eph, iv2, ct2];
    assert ["PSv1", "secret"] + [id, f.AsStr(), iv3, ct3] == ["PSv1", "secret", id, f.AsStr(), iv3, ct3];
    assert MessageMacInput(room, iv, ct)[5] == "FNv2|message|"[5] == 'm';
    assert RoomKeyMacInput(room2, eph, iv2, ct2)[5] == "FNv2|roomkey|"[5] == 'r';
    assert SecretMacInput(id, f, iv3, ct3)[0] == "PSv1|secret|"[0] == 'P';
    assert MessageMacInput(room, iv, ct)[0] == "FNv2|message|"[0] == 'F';
    assert RoomKeyMacInput(room2, eph, iv2, ct2)[0] == "FNv2|roomkey|"[0] == 'F';
  }

  // ------------------------------------------------------- sealing and opening ---

  /** The library code, with only the laws that are used. */
  datatype Primitives = Primitives(
    encrypt: (seq<Byte>, seq<Byte>, seq<Byte>) -> seq<Byte>,
    decrypt: (seq<Byte>, seq<Byte>, seq<Byte>) -> Option<seq<Byte>>,
    mac: (seq<Byte>, string) -> seq<Byte>,
    hex: seq<Byte> -> string,
    unhex: string -> Option<seq<Byte>>,
    base64: seq<Byte> -> string,
    unbase64: string -> Option<seq<Byte>>,
    utf8: string -> seq<Byte>,
    fromUtf8: seq<Byte> -> Option<string>)
  {
    ghost predicate Lawful() {
      && (forall k, iv, p :: decrypt(k, iv, encrypt(k, iv, p)) == Some(p))
      && (forall k, m :: |mac(k, m)| == 32)
      && (forall b :: unhex(hex(b)) == Some(b) && NoBar(hex(b)))
      && (forall b :: unbase64(base64(b)) == Some(b) && NoBar(base64(b)))
      && (forall s :: fromUtf8(utf8(s)) == Some(s))
    }

    /** Decode the received tag and compare bytes. */
    predicate VerifyMac(key: seq<Byte>, input: string, tag: string) {
      var t := unhex(tag);
      t.Some? && |t.value| == 32 && t.value == mac(key, input)
    }
  }

  datatype CryptoError = InvalidEncoding | DecryptionFailed | EmptyPlaintext

  datatype VaultKey = VaultKey(encKey: seq<Byte>, macKey: seq<Byte>)

  datatype Sealed = Sealed(ciphertext: string, iv: string, hmac: string)

  const ENTRY_ID_MIN_LEN: nat := 10
  const ENTRY_ID_MAX_LEN: nat := 100
  const MAX_SECRET_BYTES: nat := 4096

  predicate IsIdChar(c: char) {
    'a' <= c <= 'z' || 'A' <= c <= 'Z' || '0' <= c <= '9' || c == '_' || c == '-'
  }

  predicate IsValidEntryId(id: string) {
    ENTRY_ID_MIN_LEN <= |id| <= ENTRY_ID_MAX_LEN && forall i :: 0 <= i < |id| ==> IsIdChar(id[i])
  }

  function SealField(p: Primitives, v: VaultKey, id: string, f: Field, plaintext: string, iv: seq<Byte>)
    : Result<Sealed, CryptoError>
  {
    if !IsValidEntryId(id) then Err(InvalidEncoding)
    else if |p.utf8(plaintext)| > MAX_SECRET_BYTES then Err(InvalidEncoding)
    else
      var ct := p.base64(p.encrypt(v.encKey, iv, p.utf8(plaintext)));
      var ivHex := p.hex(iv);
      Ok(Sealed(ct, ivHex, p.hex(p.mac(v.macKey, SecretMacInput(id, f, ivHex, ct)))))
  }

  function DecodeIv(p: Primitives, ivHex: string): Option<seq<Byte>> {
    var iv := p.unhex(ivHex);
    if iv.Some? && |iv.value| == 16 then iv else None
  }

  /** Decode and decrypt after the MAC has been checked. */
  function Decrypted(p: Primitives, key: seq<Byte>, ivHex: string, ct: string): Result<string, CryptoError> {
    var iv := DecodeIv(p, ivHex);
    var bytes := p.unbase64(ct);
    if iv.None? || bytes.None? then Err(DecryptionFailed)
    else
      var plain := p.decrypt(key, iv.value, bytes.value);
      if plain.None? then Err(DecryptionFailed)
      else
        var text := p.fromUtf8(plain.value);
        if text.None? then Err(DecryptionFailed) else Ok(text.value)
  }

  function OpenField(p: Primitives, v: VaultKey, id: string, f: Field, s: Sealed): Result<string, CryptoError> {
    if !p.VerifyMac(v.macKey, SecretMacInput(id, f, s.iv, s.ciphertext), s.hmac) then Err(DecryptionFailed)
    else Decrypted(p, v.encKey, s.iv, s.ciphertext)
  }

  /** The tag is the hex text, in any case, of the MAC of the input. */
  ghost predicate Tags(p: Primitives, key: seq<Byte>, input: string, tag: string) {
    p.unhex(tag) == Some(p.mac(key, input))
  }

  /** The received texts decode, decrypt under the key and read as that text. */
  ghost predicate Deciphers(p: Primitives, key: seq<Byte>, ivHex: string, ct: string, text: string) {
    && p.unhex(ivHex).Some? && |p.unhex(ivHex).value| == 16
    && p.unbase64(ct).Some?
    && var plain := p.decrypt(key, p.unhex(ivHex).value, p.unbase64(ct).value);
       plain.Some? && p.fromUtf8(plain.value) == Some(text)
  }

  /** A field opens to a text exactly if its tag is the MAC of its own frame and its ciphertext reads as that
      text under the other key; every failure is the same error. */
  lemma OpensExactly(p: Primitives, v: VaultKey, id: string, f: Field, s: Sealed, text: string)
    requires p.Lawful()
    ensures OpenField(p, v, id, f, s) == Ok(text)
       <==> && Tags(p, v.macKey, SecretMacInput(id, f, s.iv, s.ciphertext), s.hmac)
            && Deciphers(p, v.encKey, s.iv, s.ciphertext, text)
    ensures OpenField(p, v, id, f, s).Err? ==> OpenField(p, v, id, f, s) == Err(DecryptionFailed)
  {
    hide SecretMacInput;
  }

  /** What was sealed opens again, to the same text. */
  lemma SealOpens(p: Primitives, v: VaultKey, id: string, f: Field, plaintext: string, iv: seq<Byte>)
    requires p.Lawful() && |iv| == 16
    ensures var s := SealField(p, v, id, f, plaintext, iv);
            && (s.Ok? <==> && 10 <= |id| <= 100 && |p.utf8(plaintext)| <= MAX_SECRET_BYTES
                           && forall c :: c in id ==>
                                            'a' <= c <= 'z' || 'A' <= c <= 'Z' || '0' <= c <= '9' || c in "_-")
            && (s.Err? ==> s.error == InvalidEncoding)
            && (s.Ok? ==> OpenField(p, v, id, f, s.value) == Ok(plaintext) && p.unhex(s.value.iv) == Some(iv))
  {
    hide SecretMacInput;
    assert forall c :: c in "_-" <==> c == '_' || c == '-';
    assert (forall i :: 0 <= i < |id| ==> IsIdChar(id[i])) <==> forall c :: c in id ==> IsIdChar(c);
  }

  /** One call of `seal_field`. */
  datatype Seal = Seal(id: string, field: Field, plaintext: string, iv: seq<Byte>)

  ghost function SealedBy(p: Primitives, v: VaultKey, c: Seal): Result<Sealed, CryptoError> {
    SealField(p, v, c.id, c.field, c.plaintext, c.iv)
  }

  ghost predicate Authenticated(p: Primitives, v: VaultKey, c: Seal, input: string) {
    var s := SealedBy(p, v, c);
    s.Ok? && input == SecretMacInput(c.id, c.field, s.value.iv, s.value.ciphertext)
  }

  /** What an ideal MAC guarantees of a received pair: if the tag is the MAC of the input, the input is one that
      was tagged by one of the seals made. (It cannot hold of all pairs: every input has a tag.) */
  ghost predicate NotForged(p: Primitives, v: VaultKey, seals: seq<Seal>, input: string, tag: string) {
    Tags(p, v.macKey, input, tag) ==> exists c :: c in seals && Authenticated(p, v, c, input)
  }

  lemma ValidIdNoBar(id: string)
    requires IsValidEntryId(id)
    ensures NoBar(id)
  {
    assert !IsIdChar('|');
  }

  /** Unless the tag is forged, whatever opens under an id and a field is one of the seals made for exactly
      that id and field: same IV and ciphertext as received, and the text that was sealed. */
  lemma OpensOnlySealed(p: Primitives, v: VaultKey, seals: seq<Seal>, id: string, f: Field, s: Sealed)
    requires p.Lawful() && NotForged(p, v, seals, SecretMacInput(id, f, s.iv, s.ciphertext), s.hmac)
    requires forall c :: c in seals ==> |c.iv| == 16
    requires OpenField(p, v, id, f, s).Ok?
    ensures exists c :: c in seals && c.id == id && c.field == f
                        && OpenField(p, v, id, f, s) == Ok(c.plaintext)
                        && SealedBy(p, v, c).Ok?
                        && SealedBy(p, v, c).value.iv == s.iv && SealedBy(p, v, c).value.ciphertext == s.ciphertext
  {
    hide SecretMacInput;
    var input := SecretMacInput(id, f, s.iv, s.ciphertext);
    OpensExactly(p, v, id, f, s, OpenField(p, v, id, f, s).value);
    var c :| c in seals && Authenticated(p, v, c, input);
    var honest := SealedBy(p, v, c).value;
    ValidIdNoBar(c.id);
    SecretFrameUnique(id, f, s.iv, s.ciphertext, c.id, c.field, honest.iv, honest.ciphertext);
    assert Decrypted(p, v.encKey, honest.iv, honest.ciphertext) == Ok(c.plaintext);
  }

  // --------------------------------------------------------------------- messages ---

  /** The two subkeys of a room key. */
  datatype RoomKeys = RoomKeys(encKey: seq<Byte>, macKey: seq<Byte>)

  function EncryptMessage(p: Primitives, k: RoomKeys, blank: string -> bool, plaintext: string, room: string,
                          iv: seq<Byte>)
    : Result<Sealed, CryptoError>
  {
    if blank(plaintext) then Err(EmptyPlaintext)
    else
      var ct := p.base64(p.encrypt(k.encKey, iv, p.utf8(plaintext)));
      var ivHex := p.hex(iv);
      Ok(Sealed(ct, ivHex, p.hex(p.mac(k.macKey, MessageMacInput(room, ivHex, ct)))))
  }

  function DecryptMessage(p: Primitives, k: RoomKeys, m: Sealed, room: string): Result<string, CryptoError> {
    if !p.VerifyMac(k.macKey, MessageMacInput(room, m.iv, m.ciphertext), m.hmac) then Err(DecryptionFailed)
    else
      var text := Decrypted(p, k.encKey, m.iv, m.ciphertext);
      if text.Ok? && text.value == "" then Err(DecryptionFailed) else text
  }

  datatype Message = Message(room: string, plaintext: string, iv: seq<Byte>)

  ghost predicate Sent(p: Primitives, k: RoomKeys, blank: string -> bool, c: Message, input: string) {
    var m := EncryptMessage(p, k, blank, c.plaintext, c.room, c.iv);
    m.Ok? && input == MessageMacInput(c.room, m.value.iv, m.value.ciphertext)
  }

  ghost predicate MessageNotForged(p: Primitives, k: RoomKeys, blank: string -> bool, sent: seq<Message>,
                                   input: string, tag: string)
  {
    Tags(p, k.macKey, input, tag) ==> exists c :: c in sent && Sent(p, k, blank, c, input)
  }

  /** A message decrypts to a text exactly if its tag is the MAC of its own frame, its ciphertext reads as that
      text under the other key, and the text is not empty; every failure is the same error. */
  lemma DecryptsExactly(p: Primitives, k: RoomKeys, m: Sealed, room: string, text: string)
    requires p.Lawful()
    ensures DecryptMessage(p, k, m, room) == Ok(text)
       <==> && Tags(p, k.macKey, MessageMacInput(room, m.iv, m.ciphertext), m.hmac)
            && Deciphers(p, k.encKey, m.iv, m.ciphertext, text) && text != ""
    ensures DecryptMessage(p, k, m, room).Err? ==> DecryptMessage(p, k, m, room) == Err(DecryptionFailed)
  {
    hide MessageMacInput;
  }

  /** What was encrypted for a room decrypts for it; only a blank text is refused. */
  lemma EncryptDecrypts(p: Primitives, k: RoomKeys, blank: string -> bool, plaintext: string, room: string,
                        iv: seq<Byte>)
    requires p.Lawful() && |iv| == 16 && blank("")
    ensures var m := EncryptMessage(p, k, blank, plaintext, room, iv);
            && (if blank(plaintext) then m == Err(EmptyPlaintext) else m.Ok?)
            && (m.Ok? ==> DecryptMessage(p, k, m.value, room) == Ok(plaintext) && p.unhex(m.value.iv) == Some(iv))
  {
    hide MessageMacInput;
  }

  /** Unless the tag is forged, a received message decrypts for a room exactly if its tag verifies,
      and then to the text of a message that was encrypted for that room with that IV and
      ciphertext. */
  lemma DecryptsOnlySent(p: Primitives, k: RoomKeys, blank: string -> bool, sent: seq<Message>, m: Sealed, room: string)
    requires p.Lawful() && blank("")
    requires forall c :: c in sent ==> |c.iv| == 16 && NoBar(c.room)
    requires MessageNotForged(p, k, blank, sent, MessageMacInput(room, m.iv, m.ciphertext), m.hmac)
    ensures DecryptMessage(p, k, m, room).Ok?
       <==> Tags(p, k.macKey, MessageMacInput(room, m.iv, m.ciphertext), m.hmac)
    ensures DecryptMessage(p, k, m, room).Ok? ==>
              exists c :: c in sent && c.room == room && DecryptMessage(p, k, m, room) == Ok(c.plaintext)
                          && Sent(p, k, blank, c, MessageMacInput(room, m.iv, m.ciphertext))
  {
    hide MessageMacInput;
    var input := MessageMacInput(room, m.iv, m.ciphertext);
    if Tags(p, k.macKey, input, m.hmac) {
      var c :| c in sent && Sent(p, k, blank, c, input);
      var honest := EncryptMessage(p, k, blank, c.plaintext, c.room, c.iv).value;
      MessageFrameUnique(room, m.iv, m.ciphertext, c.room, honest.iv, honest.ciphertext);
      assert Decrypted(p, k.encKey, honest.iv, honest.ciphertext) == Ok(c.plaintext);
    }
  }
}
