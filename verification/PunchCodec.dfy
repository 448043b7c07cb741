/** The HYRLMv1 punch packet: salt, then magic, type, nonce and padding under a repeating mask. */
module PunchCodec {
  import opened Bytes

  const SALT_LEN := 8
  const NONCE_LEN := 16
  const OBFS_LEN := 32
  const HEADER_LEN := 25
  const MIN_WIRE_LEN := SALT_LEN + HEADER_LEN
  const MAX_PADDING := 1024
  const MAX_WIRE_LEN := MIN_WIRE_LEN + MAX_PADDING

  /** "HYRLMv1" and a zero byte. */
  const MAGIC: seq<byte> := [0x48, 0x59, 0x52, 0x4C, 0x4D, 0x76, 0x31, 0x00]

  datatype PunchType = Hello | Ack

  datatype PunchError = BadLength | BadMagic | BadType | NonceMismatch

  datatype Decoded = Ok(ptype: PunchType, padLen: nat) | Err(error: PunchError)

  function Tag(t: PunchType): byte {
    match t
    case Hello => 0x01
    case Ack => 0x02
  }

  function FromTag(b: byte): Option<PunchType> {
    if b == 0x01 then Some(Hello) else if b == 0x02 then Some(Ack) else None
  }

  /** The packet mask (SHA-256 of key and salt in the program): any function with 32-byte results. */
  type MaskFn = f: (seq<byte>, seq<byte>) -> seq<byte> | forall o, s :: |f(o, s)| == 32
    witness (o, s) => [0, 0, 0, 0, 0, 0, 0, 0, 0, 0, 0, 0, 0, 0, 0, 0, 0, 0, 0, 0, 0, 0, 0, 0, 0, 0, 0, 0, 0, 0, 0, 0]

  function Plain(t: PunchType, nonce: seq<byte>, padding: seq<byte>): seq<byte> {
    MAGIC + [Tag(t)] + nonce + padding
  }

  function Encode(mask: MaskFn, t: PunchType, nonce: seq<byte>, obfs: seq<byte>, salt: seq<byte>,
                  padding: seq<byte>): seq<byte>
  {
    salt + XorMask(Plain(t, nonce, padding), mask(obfs, salt))
  }

  /** The checks on an unmasked packet body, in the order the program makes them. */
  function Check(body: seq<byte>, nonce: seq<byte>): Decoded
    requires |body| >= HEADER_LEN
  {
    if body[..8] != MAGIC then Err(BadMagic)
    else
      match FromTag(body[8])
      case None => Err(BadType)
      case Some(t) =>
        if body[9..25] != nonce then Err(NonceMismatch) else Ok(t, |body| - HEADER_LEN)
  }

  function Decode(mask: MaskFn, packet: seq<byte>, nonce: seq<byte>, obfs: seq<byte>): Decoded {
    if !(MIN_WIRE_LEN <= |packet| <= MAX_WIRE_LEN) then Err(BadLength)
    else
      Check(XorMask(packet[SALT_LEN..], mask(obfs, packet[..SALT_LEN])), nonce)
  }

  // ----- What a packet is

  lemma CheckExact(body: seq<byte>, nonce: seq<byte>, t: PunchType, n: nat)
    requires |body| >= HEADER_LEN && |nonce| == NONCE_LEN
    ensures Check(body, nonce) == Ok(t, n)
       <==> n == |body| - HEADER_LEN && body == Plain(t, nonce, body[HEADER_LEN..])
  {
  }

  lemma PlainUnique(t: PunchType, nonce: seq<byte>, padding: seq<byte>)
    requires |nonce| == NONCE_LEN
    ensures Plain(t, nonce, padding)[HEADER_LEN..] == padding
  {
  }

  /** `decode` accepts a packet exactly when it is the encoding, under the packet's own first
      eight bytes as salt, of some type with at most 1024 bytes of padding; and it reports
      that type and that padding length. */
  lemma DecodeIsImageOfEncode(mask: MaskFn, packet: seq<byte>, nonce: seq<byte>, obfs: seq<byte>,
                              t: PunchType, n: nat)
    requires |nonce| == NONCE_LEN
    ensures Decode(mask, packet, nonce, obfs) == Ok(t, n)
       <==> exists padding: seq<byte> ::
              && |padding| == n <= MAX_PADDING
              && |packet| >= SALT_LEN
              && packet == Encode(mask, t, nonce, obfs, packet[..SALT_LEN], padding)
  {
    if Decode(mask, packet, nonce, obfs) == Ok(t, n) {
      var m := mask(obfs, packet[..SALT_LEN]);
      var body := XorMask(packet[SALT_LEN..], m);
      CheckExact(body, nonce, t, n);
      XorMaskInvolutive(packet[SALT_LEN..], m);
      assert packet == Encode(mask, t, nonce, obfs, packet[..SALT_LEN], body[HEADER_LEN..]);
    }
    forall padding: seq<byte> |
      && |padding| == n <= MAX_PADDING
      && |packet| >= SALT_LEN
      && packet == Encode(mask, t, nonce, obfs, packet[..SALT_LEN], padding)
      ensures Decode(mask, packet, nonce, obfs) == Ok(t, n)
    {
      DecodeEncode(mask, t, nonce, obfs, packet[..SALT_LEN], padding);
    }
  }

  lemma DecodeEncode(mask: MaskFn, t: PunchType, nonce: seq<byte>, obfs: seq<byte>, salt: seq<byte>,
                     padding: seq<byte>)
    requires |nonce| == NONCE_LEN && |salt| == SALT_LEN && |padding| <= MAX_PADDING
    ensures Decode(mask, Encode(mask, t, nonce, obfs, salt, padding), nonce, obfs) == Ok(t, |padding|)
  {
    var packet := Encode(mask, t, nonce, obfs, salt, padding);
    assert packet[..SALT_LEN] == salt;
    assert packet[SALT_LEN..] == XorMask(Plain(t, nonce, padding), mask(obfs, salt));
    XorMaskInvolutive(Plain(t, nonce, padding), mask(obfs, salt));
    PlainUnique(t, nonce, padding);
    CheckExact(Plain(t, nonce, padding), nonce, t, |padding|);
  }

  /** A packet accepted in one session is discarded in every other session with the same key. */
  lemma NoncesSeparate(mask: MaskFn, packet: seq<byte>, nonce: seq<byte>, other: seq<byte>, obfs: seq<byte>)
    requires |nonce| == NONCE_LEN && |other| == NONCE_LEN
    requires Decode(mask, packet, nonce, obfs).Ok?
    ensures Decode(mask, packet, other, obfs)
         == if other == nonce then Decode(mask, packet, nonce, obfs) else Err(NonceMismatch)
  {
  }

  /** The bytes on the wire: the salt, then magic, type, nonce and padding, each byte added digit
      by digit to the byte of the repeating mask at its place. */
  lemma WireFormat(mask: MaskFn, t: PunchType, nonce: seq<byte>, obfs: seq<byte>, salt: seq<byte>, padding: seq<byte>)
    requires |nonce| == NONCE_LEN && |salt| == SALT_LEN
    ensures var packet := Encode(mask, t, nonce, obfs, salt, padding);
            var plain := [0x48, 0x59, 0x52, 0x4C, 0x4D, 0x76, 0x31, 0x00] + [if t.Hello? then 1 else 2] + nonce + padding;
            && |packet| == 8 + |plain| && packet[..8] == salt
            && forall i :: 0 <= i < |plain| ==> IsXor(packet[8 + i], plain[i], mask(obfs, salt)[i % 32])
  {
    hide IsXor, XorMask;
    var plain, m := Plain(t, nonce, padding), mask(obfs, salt);
    forall i | 0 <= i < |plain|
      ensures IsXor(XorMask(plain, m)[i], plain[i], m[i % 32])
    {
      XorMaskDigits(plain, m, i);
    }
  }

  /** Every packet of 33 to 1057 bytes is some masked body; it is refused for the first of magic,
      type and nonce that is wrong. Every other length is refused as such. */
  lemma RefusedPackets(mask: MaskFn, magic: seq<byte>, tag: byte, n: seq<byte>, padding: seq<byte>, salt: seq<byte>,
                       nonce: seq<byte>, obfs: seq<byte>)
    requires |magic| == 8 && |n| == |nonce| == NONCE_LEN && |salt| == SALT_LEN
    ensures var good := [0x48, 0x59, 0x52, 0x4C, 0x4D, 0x76, 0x31, 0x00];
            var packet := salt + XorMask(magic + [tag] + n + padding, mask(obfs, salt));
            && Decode(mask, packet, nonce, obfs) == (
                 if |padding| > 1024 then Err(BadLength)
                 else if magic != good then Err(BadMagic)
                 else if tag != 1 && tag != 2 then Err(BadType)
                 else if n != nonce then Err(NonceMismatch)
                 else Ok(if tag == 1 then Hello else Ack, |padding|))
            && forall k :: 0 <= k < 33 ==> Decode(mask, packet[..k], nonce, obfs) == Err(BadLength)
  {
    hide XorMask;
    var body, m := magic + [tag] + n + padding, mask(obfs, salt);
    var packet := salt + XorMask(body, m);
    XorMaskInvolutive(body, m);
    assert packet[..8] == salt && packet[8..] == XorMask(body, m);
    assert body[..8] == magic && body[8] == tag && body[9..25] == n;
  }

  // ----- The buffers, masked in place

  method XorInPlace(a: array<byte>, mask: seq<byte>)
    requires |mask| == 32
    modifies a
    ensures a[..] == XorMask(old(a[..]), mask)
  {
    ghost var was := a[..];
    for i := 0 to a.Length
      invariant forall k :: 0 <= k < i ==> a[k] == XorMask(was, mask)[k]
      invariant forall k :: i <= k < a.Length ==> a[k] == was[k]
    {
      a[i] := XorByte(a[i], mask[i % 32]);
    }
  }

  method EncodeWith(mask: MaskFn, ptype: PunchType, nonce: seq<byte>, obfs: seq<byte>, salt: seq<byte>,
                    padding: seq<byte>) returns (out: seq<byte>)
    requires |nonce| == NONCE_LEN && |obfs| == OBFS_LEN && |salt| == SALT_LEN
    ensures out == Encode(mask, ptype, nonce, obfs, salt, padding)
    ensures |out| == MIN_WIRE_LEN + |padding|
    ensures |padding| <= MAX_PADDING ==> Decode(mask, out, nonce, obfs) == Ok(ptype, |padding|)
    ensures |padding| > MAX_PADDING ==> Decode(mask, out, nonce, obfs) == Err(BadLength)
  {
    var bytes := MAGIC;
    bytes := bytes + [Tag(ptype)];
    bytes := bytes + nonce;
    bytes := bytes + padding;
    var plain := new byte[|bytes|](i requires 0 <= i < |bytes| => bytes[i]);
    assert plain[..] == bytes;
    XorInPlace(plain, mask(obfs, salt));
    out := salt + plain[..];
    if |padding| <= MAX_PADDING {
      DecodeEncode(mask, ptype, nonce, obfs, salt, padding);
    }
  }

  method DecodePacket(mask: MaskFn, packet: seq<byte>, nonce: seq<byte>, obfs: seq<byte>) returns (r: Decoded)
    requires |nonce| == NONCE_LEN && |obfs| == OBFS_LEN
    ensures r == Decode(mask, packet, nonce, obfs)
  {
    if !(MIN_WIRE_LEN <= |packet| <= MAX_WIRE_LEN) {
      return Err(BadLength);
    }
    var salt := packet[..SALT_LEN];
    var wire := packet[SALT_LEN..];
    var body := new byte[|wire|](i requires 0 <= i < |wire| => wire[i]);
    assert body[..] == wire;
    XorInPlace(body, mask(obfs, salt));
    r := Check(body[..], nonce);
  }
}
