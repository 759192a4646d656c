/** Room-key wrapping of app/core/src/crypto.rs: a key for one member, under a secret shared between
    a throw-away key pair and the member's own. */
module KeyWrap {
  import opened Wrappers
  import opened Bytes
  import opened Framing

  /** Elliptic-curve Diffie-Hellman and key derivation, with only the laws that are used. */
  datatype Curve = Curve(
    point: seq<Byte> -> seq<Byte>,
    uncompressedHex: seq<Byte> -> string,
    parse: string -> Option<seq<Byte>>,
    sharedX: (seq<Byte>, seq<Byte>) -> seq<Byte>,
    subkey: (seq<Byte>, string) -> seq<Byte>)
  {
    ghost predicate Lawful() {
      && (forall s :: parse(uncompressedHex(point(s))) == Some(point(s)) && NoBar(uncompressedHex(point(s))))
      && (forall a, b :: sharedX(a, point(b)) == sharedX(b, point(a)))
    }
  }

  const WRAP_ENC_LABEL: string := "FruitNation/v2/roomkey/enc"
  const WRAP_MAC_LABEL: string := "FruitNation/v2/roomkey/mac"

  predicate IsHexDigit(b: Byte) {
    0x30 <= b <= 0x39 || 0x41 <= b <= 0x46 || 0x61 <= b <= 0x66
  }

  /** The hex text of `n` bytes is `2 * n` ASCII digits. */
  ghost predicate HexIsAscii(p: Primitives) {
    forall b :: |p.utf8(p.hex(b))| == 2 * |b|
                && forall i :: 0 <= i < 2 * |b| ==> IsHexDigit(p.utf8(p.hex(b))[i])
  }

  datatype WrappedRoomKey = WrappedRoomKey(ciphertext: string, ephemeral: string, iv: string, hmac: string)

  /** `wrap_room_key_v2_with`. The plaintext is the hex text of the key, not its bytes. */
  function Wrap(p: Primitives, c: Curve, roomKey: seq<Byte>, recipient: seq<Byte>, room: string,
                eph: seq<Byte>, iv: seq<Byte>): WrappedRoomKey
  {
    var x := c.sharedX(eph, recipient);
    var ct := p.base64(p.encrypt(c.subkey(x, WRAP_ENC_LABEL), iv, p.utf8(p.hex(roomKey))));
    var ephHex := c.uncompressedHex(c.point(eph));
    var ivHex := p.hex(iv);
    WrappedRoomKey(ct, ephHex, ivHex,
                   p.hex(p.mac(c.subkey(x, WRAP_MAC_LABEL), RoomKeyMacInput(room, ephHex, ivHex, ct))))
  }

  /** `parse_room_key_hex`. */
  function ParseKeyHex(p: Primitives, plain: seq<Byte>): Result<seq<Byte>, CryptoError> {
    if |plain| != 64 || exists i :: 0 <= i < |plain| && !IsHexDigit(plain[i]) then Err(DecryptionFailed)
    else
      var text := p.fromUtf8(plain);
      if text.None? then Err(DecryptionFailed)
      else
        var key := p.unhex(text.value);
        if key.None? || |key.value| != 32 then Err(DecryptionFailed) else Ok(key.value)
  }

  /** What comes after the tag has been verified. */
  function Opened(p: Primitives, encKey: seq<Byte>, ivHex: string, ct: string): Result<seq<Byte>, CryptoError> {
    var iv := DecodeIv(p, ivHex);
    var bytes := p.unbase64(ct);
    if iv.None? || bytes.None? then Err(DecryptionFailed)
    else
      var plain := p.decrypt(encKey, iv.value, bytes.value);
      if plain.None? then Err(DecryptionFailed) else ParseKeyHex(p, plain.value)
  }

  /** `unwrap_room_key_v2`. The keys depend on the ephemeral key as received. */
  function Unwrap(p: Primitives, c: Curve, w: WrappedRoomKey, recipient: seq<Byte>, room: string)
    : Result<seq<Byte>, CryptoError>
  {
    var q := c.parse(w.ephemeral);
    if q.None? then Err(DecryptionFailed)
    else
      var x := c.sharedX(recipient, q.value);
      if !p.VerifyMac(c.subkey(x, WRAP_MAC_LABEL), RoomKeyMacInput(room, w.ephemeral, w.iv, w.ciphertext), w.hmac)
      then Err(DecryptionFailed)
      else Opened(p, c.subkey(x, WRAP_ENC_LABEL), w.iv, w.ciphertext)
  }

  /** What decrypts is the hex text of the key, in any case. */
  ghost predicate ReadsAsKey(p: Primitives, encKey: seq<Byte>, ivHex: string, ct: string, key: seq<Byte>) {
    && p.unhex(ivHex).Some? && |p.unhex(ivHex).value| == 16
    && p.unbase64(ct).Some?
    && var plain := p.decrypt(encKey, p.unhex(ivHex).value, p.unbase64(ct).value);
       && plain.Some? && |plain.value| == 64
       && (forall i :: 0 <= i < 64 ==> HexDigitByte(plain.value[i]))
       && p.fromUtf8(plain.value).Some? && p.unhex(p.fromUtf8(plain.value).value) == Some(key) && |key| == 32
  }

  predicate HexDigitByte(b: Byte) {
    var c := b as char;
    '0' <= c <= '9' || 'A' <= c <= 'F' || 'a' <= c <= 'f'
  }

  /** A wrap opens to a key exactly if its ephemeral key parses, its tag is the MAC of its own frame under the
      key derived for tags, and its ciphertext reads as the key under the one derived for encryption. */
  lemma UnwrapsExactly(p: Primitives, c: Curve, w: WrappedRoomKey, recipient: seq<Byte>, room: string, key: seq<Byte>)
    requires p.Lawful()
    ensures Unwrap(p, c, w, recipient, room) == Ok(key)
       <==> && c.parse(w.ephemeral).Some?
            && var x := c.sharedX(recipient, c.parse(w.ephemeral).value);
               && Tags(p, c.subkey(x, "FruitNation/v2/roomkey/mac"),
                       RoomKeyMacInput(room, w.ephemeral, w.iv, w.ciphertext), w.hmac)
               && ReadsAsKey(p, c.subkey(x, "FruitNation/v2/roomkey/enc"), w.iv, w.ciphertext, key)
    ensures Unwrap(p, c, w, recipient, room).Err? ==> Unwrap(p, c, w, recipient, room) == Err(DecryptionFailed)
  {
    hide RoomKeyMacInput, Opened, ReadsAsKey;
    var q := c.parse(w.ephemeral);
    if q.Some? {
      OpenedExactly(p, c.subkey(c.sharedX(recipient, q.value), WRAP_ENC_LABEL), w.iv, w.ciphertext, key);
    }
  }

  lemma OpenedExactly(p: Primitives, encKey: seq<Byte>, ivHex: string, ct: string, key: seq<Byte>)
    ensures Opened(p, encKey, ivHex, ct) == Ok(key) <==> ReadsAsKey(p, encKey, ivHex, ct, key)
    ensures Opened(p, encKey, ivHex, ct).Err? ==> Opened(p, encKey, ivHex, ct) == Err(DecryptionFailed)
  {
  }

  lemma OpenedAgain(p: Primitives, encKey: seq<Byte>, roomKey: seq<Byte>, iv: seq<Byte>)
    requires p.Lawful() && HexIsAscii(p) && |roomKey| == 32 && |iv| == 16
    ensures Opened(p, encKey, p.hex(iv), p.base64(p.encrypt(encKey, iv, p.utf8(p.hex(roomKey))))) == Ok(roomKey)
  {
    var plain := p.utf8(p.hex(roomKey));
    assert ParseKeyHex(p, plain) == Ok(roomKey);
  }

  /** The addressee unwraps what was wrapped, for the room it was wrapped for. */
  lemma WrapUnwraps(p: Primitives, c: Curve, roomKey: seq<Byte>, recipient: seq<Byte>, room: string,
                    eph: seq<Byte>, iv: seq<Byte>)
    requires p.Lawful() && HexIsAscii(p) && c.Lawful() && |roomKey| == 32 && |iv| == 16
    ensures Unwrap(p, c, Wrap(p, c, roomKey, c.point(recipient), room, eph, iv), recipient, room) == Ok(roomKey)
  {
    hide RoomKeyMacInput, Opened;
    assert c.sharedX(recipient, c.point(eph)) == c.sharedX(eph, c.point(recipient));
    OpenedAgain(p, c.subkey(c.sharedX(eph, c.point(recipient)), WRAP_ENC_LABEL), roomKey, iv);
  }

  /** One wrap made for a given member. */
  datatype Wrapping = Wrapping(roomKey: seq<Byte>, room: string, eph: seq<Byte>, iv: seq<Byte>)

  ghost function WrapOf(p: Primitives, c: Curve, m: Wrapping, recipient: seq<Byte>): WrappedRoomKey {
    Wrap(p, c, m.roomKey, c.point(recipient), m.room, m.eph, m.iv)
  }

  ghost predicate Tagged(p: Primitives, c: Curve, m: Wrapping, recipient: seq<Byte>, input: string) {
    var w := WrapOf(p, c, m, recipient);
    input == RoomKeyMacInput(m.room, w.ephemeral, w.iv, w.ciphertext)
  }

  /** What an ideal MAC guarantees of a received wrap: if its tag verifies under the keys its own
      ephemeral key leads to, its frame is one that was tagged for this member. */
  ghost predicate WrapNotForged(p: Primitives, c: Curve, made: seq<Wrapping>, w: WrappedRoomKey,
                                recipient: seq<Byte>, room: string)
  {
    var q := c.parse(w.ephemeral);
    var input := RoomKeyMacInput(room, w.ephemeral, w.iv, w.ciphertext);
    q.Some? && Tags(p, c.subkey(c.sharedX(recipient, q.value), WRAP_MAC_LABEL), input, w.hmac)
    ==> exists m :: m in made && Tagged(p, c, m, recipient, input)
  }

  /** A frame tagged for a member is the received one in every part. */
  lemma TaggedIsReceived(p: Primitives, c: Curve, m: Wrapping, w: WrappedRoomKey, recipient: seq<Byte>, room: string)
    requires p.Lawful() && c.Lawful() && NoBar(m.room)
    requires Tagged(p, c, m, recipient, RoomKeyMacInput(room, w.ephemeral, w.iv, w.ciphertext))
    ensures m.room == room && WrapOf(p, c, m, recipient).(hmac := w.hmac) == w
  {
    hide RoomKeyMacInput, NoBar;
    var honest := WrapOf(p, c, m, recipient);
    RoomKeyFrameUnique(room, w.ephemeral, w.iv, w.ciphertext, m.room, honest.ephemeral, honest.iv, honest.ciphertext);
  }

  /** The ephemeral key of an honest wrap leads the addressee to the keys it was made with. */
  lemma HonestOpens(p: Primitives, c: Curve, m: Wrapping, recipient: seq<Byte>)
    requires p.Lawful() && HexIsAscii(p) && c.Lawful() && |m.roomKey| == 32 && |m.iv| == 16
    ensures var w := WrapOf(p, c, m, recipient);
            && c.parse(w.ephemeral).Some?
            && Opened(p, c.subkey(c.sharedX(recipient, c.parse(w.ephemeral).value), WRAP_ENC_LABEL), w.iv, w.ciphertext)
               == Ok(m.roomKey)
  {
    hide RoomKeyMacInput, Opened, NoBar;
    assert c.sharedX(recipient, c.point(m.eph)) == c.sharedX(m.eph, c.point(recipient));
    OpenedAgain(p, c.subkey(c.sharedX(m.eph, c.point(recipient)), WRAP_ENC_LABEL), m.roomKey, m.iv);
  }

  /** Unless the tag is forged, a wrap opens for a room exactly if its ephemeral key parses and its tag
      verifies, and then to the key of a wrap made for that member and that room whose ephemeral
      key, IV and ciphertext are the ones received: a swapped ephemeral key cannot go unnoticed. */
  lemma UnwrapsOnlyWrapped(p: Primitives, c: Curve, made: seq<Wrapping>, w: WrappedRoomKey,
                           recipient: seq<Byte>, room: string)
    requires p.Lawful() && HexIsAscii(p) && c.Lawful()
    requires forall m :: m in made ==> |m.roomKey| == 32 && |m.iv| == 16 && NoBar(m.room)
    requires WrapNotForged(p, c, made, w, recipient, room)
    ensures Unwrap(p, c, w, recipient, room).Ok? <==>
            && c.parse(w.ephemeral).Some?
            && Tags(p, c.subkey(c.sharedX(recipient, c.parse(w.ephemeral).value), WRAP_MAC_LABEL),
                    RoomKeyMacInput(room, w.ephemeral, w.iv, w.ciphertext), w.hmac)
    ensures Unwrap(p, c, w, recipient, room).Ok? ==>
              exists m :: m in made && m.room == room && Unwrap(p, c, w, recipient, room) == Ok(m.roomKey)
                          && WrapOf(p, c, m, recipient).(hmac := w.hmac) == w
  {
    hide RoomKeyMacInput, Opened, Wrap, NoBar, HexIsAscii, Tagged;
    var q := c.parse(w.ephemeral);
    var input := RoomKeyMacInput(room, w.ephemeral, w.iv, w.ciphertext);
    if q.Some? && Tags(p, c.subkey(c.sharedX(recipient, q.value), WRAP_MAC_LABEL), input, w.hmac) {
      var m :| m in made && Tagged(p, c, m, recipient, input);
      TaggedIsReceived(p, c, m, w, recipient, room);
      HonestOpens(p, c, m, recipient);
    }
  }
}
