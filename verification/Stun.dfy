/** STUN binding responses: RFC 5389, sections 6 (header), 15 (attributes), 15.1 and 15.2. */
module Stun {
  import opened Bytes
  import opened Net

  const HEADER_LEN := 20
  const TXID_LEN := 12
  const BINDING_SUCCESS := 0x0101
  const ATTR_MAPPED_ADDRESS := 0x0001
  const ATTR_XOR_MAPPED_ADDRESS := 0x0020

  /** The magic cookie 0x2112A442, and its upper half. */
  const COOKIE: seq<byte> := [0x21, 0x12, 0xA4, 0x42]
  const COOKIE_PORT := 0x2112

  datatype Error = ShortHeader | NotSuccess | BadCookie | TxidMismatch | NoAddress

  datatype Result = Ok(addr: SocketAddr) | Err(error: Error)

  // ----- Address values

  function Ipv4Of(b: seq<byte>): IpAddr
    requires |b| == 4
  {
    FromBeBound(b);
    Pow256Values();
    V4(FromBe(b))
  }

  lemma Pow256Sixteen()
    ensures Pow256(16) == 0x1_0000_0000_0000_0000_0000_0000_0000_0000
  {
    Pow256Values();
    assert Pow256(10) == 0x1_0000_0000_0000_0000_0000;
    assert Pow256(12) == 0x1_0000_0000_0000_0000_0000_0000;
    assert Pow256(14) == 0x1_0000_0000_0000_0000_0000_0000_0000;
  }

  function Ipv6Of(b: seq<byte>): IpAddr
    requires |b| == 16
  {
    FromBeBound(b);
    Pow256Sixteen();
    V6(FromBe(b))
  }

  function PortOf(b: seq<byte>): u16
    requires |b| == 2
  {
    FromBeBound(b);
    Pow256Values();
    FromBe(b)
  }

  function XorPort(p: u16): u16 {
    SixteenBits();
    XorBound(p, COOKIE_PORT, 16);
    Xor(p, COOKIE_PORT)
  }

  function ParseXorMapped(val: seq<byte>, txid: seq<byte>): Option<SocketAddr>
    requires |txid| == TXID_LEN
  {
    if |val| < 8 then None
    else
      var port := XorPort(PortOf(val[2..4]));
      if val[1] == 0x01 then Some(SocketAddr(Ipv4Of(XorMask(val[4..8], COOKIE)), port))
      else if val[1] == 0x02 && |val| >= 20 then
        Some(SocketAddr(Ipv6Of(XorMask(val[4..20], COOKIE + txid)), port))
      else None
  }

  function ParseMapped(val: seq<byte>): Option<SocketAddr> {
    if |val| < 8 then None
    else
      var port := PortOf(val[2..4]);
      if val[1] == 0x01 then Some(SocketAddr(Ipv4Of(val[4..8]), port))
      else if val[1] == 0x02 && |val| >= 20 then Some(SocketAddr(Ipv6Of(val[4..20]), port))
      else None
  }

  // ----- Attributes

  datatype Attr = Attr(atype: u16, val: seq<byte>)

  function Padding(n: nat): nat {
    (4 - n % 4) % 4
  }

  function Drop<T>(s: seq<T>, n: nat): seq<T> {
    if n <= |s| then s[n..] else []
  }

  /** The attributes in `s` up to the first one that does not fit; the padding of the last one
      may be missing. */
  function Visit(s: seq<byte>): seq<Attr>
    decreases |s|
  {
    if |s| < 4 then []
    else
      var alen := FromBe(s[2..4]);
      if 4 + alen > |s| then []
      else
        [Attr(PortOf(s[..2]), s[4..4 + alen])] + Visit(Drop(s, 4 + alen + Padding(alen)))
  }

  /** The first XOR-MAPPED-ADDRESS that decodes. */
  function FirstXor(attrs: seq<Attr>, txid: seq<byte>): Option<SocketAddr>
    requires |txid| == TXID_LEN
  {
    if attrs == [] then None
    else if attrs[0].atype == ATTR_XOR_MAPPED_ADDRESS && ParseXorMapped(attrs[0].val, txid).Some? then
      ParseXorMapped(attrs[0].val, txid)
    else FirstXor(attrs[1..], txid)
  }

  /** The first MAPPED-ADDRESS that decodes. */
  function FirstMapped(attrs: seq<Attr>): Option<SocketAddr> {
    if attrs == [] then None
    else if attrs[0].atype == ATTR_MAPPED_ADDRESS && ParseMapped(attrs[0].val).Some? then ParseMapped(attrs[0].val)
    else FirstMapped(attrs[1..])
  }

  function Decide(attrs: seq<Attr>, txid: seq<byte>): Result
    requires |txid| == TXID_LEN
  {
    match FirstXor(attrs, txid)
    case Some(sa) => Ok(sa)
    case None =>
      match FirstMapped(attrs)
      case Some(sa) => Ok(sa)
      case None => Err(NoAddress)
  }

  /** The attribute area of a packet: as long as announced, or as long as there are bytes. */
  function Area(pkt: seq<byte>): seq<byte>
    requires |pkt| >= HEADER_LEN
  {
    var mlen := FromBe(pkt[2..4]);
    if HEADER_LEN + mlen <= |pkt| then pkt[HEADER_LEN..HEADER_LEN + mlen] else pkt[HEADER_LEN..]
  }

  /** What a response means, on arbitrary bytes. */
  function Parsed(pkt: seq<byte>, txid: seq<byte>): Result
    requires |txid| == TXID_LEN
  {
    if |pkt| < HEADER_LEN then Err(ShortHeader)
    else if FromBe(pkt[..2]) != BINDING_SUCCESS then Err(NotSuccess)
    else if pkt[4..8] != COOKIE then Err(BadCookie)
    else if pkt[8..20] != txid then Err(TxidMismatch)
    else Decide(Visit(Area(pkt)), txid)
  }

  // ----- The walker

  /** With a fallback already in hand only XOR-MAPPED-ADDRESS can still change the result. */
  function DecideWith(attrs: seq<Attr>, txid: seq<byte>, fallback: Option<SocketAddr>): Result
    requires |txid| == TXID_LEN
  {
    match FirstXor(attrs, txid)
    case Some(sa) => Ok(sa)
    case None =>
      match (if fallback.Some? then fallback else FirstMapped(attrs))
      case Some(sa) => Ok(sa)
      case None => Err(NoAddress)
  }

  lemma {:induction false} VisitStep(s: seq<byte>, txid: seq<byte>, fallback: Option<SocketAddr>)
    requires |txid| == TXID_LEN && |s| >= 4
    requires var alen := FromBe(s[2..4]); 4 + alen <= |s|
    ensures var alen := FromBe(s[2..4]);
            var atype, val := FromBe(s[..2]), s[4..4 + alen];
            var rest := Drop(s, 4 + alen + Padding(alen));
            DecideWith(Visit(s), txid, fallback)
            == if atype == ATTR_XOR_MAPPED_ADDRESS && ParseXorMapped(val, txid).Some? then
                 Ok(ParseXorMapped(val, txid).value)
               else if atype == ATTR_MAPPED_ADDRESS && fallback.None? then
                 DecideWith(Visit(rest), txid, ParseMapped(val))
               else DecideWith(Visit(rest), txid, fallback)
  {
    hide ParseXorMapped, ParseMapped, FromBe, Padding, Drop;
    var alen := FromBe(s[2..4]);
    var rest := Drop(s, 4 + alen + Padding(alen));
    assert Visit(s)[1..] == Visit(rest);
  }

  function Remaining(pkt: seq<byte>, off: nat, end: nat): seq<byte>
    requires end <= |pkt|
  {
    if off <= end then pkt[off..end] else []
  }

  lemma RemainingStep(pkt: seq<byte>, off: nat, end: nat, alen: nat)
    requires off + 4 + alen <= end <= |pkt|
    ensures var area := Remaining(pkt, off, end);
            && area[..2] == pkt[off..off + 2] && area[2..4] == pkt[off + 2..off + 4]
            && area[4..4 + alen] == pkt[off + 4..off + 4 + alen]
            && Drop(area, 4 + alen + Padding(alen)) == Remaining(pkt, off + 4 + alen + Padding(alen), end)
  {
    var area, next := pkt[off..end], 4 + alen + Padding(alen);
    SliceOfSlice(pkt, off, end, 0, 2);
    SliceOfSlice(pkt, off, end, 2, 4);
    SliceOfSlice(pkt, off, end, 4, 4 + alen);
    if next <= |area| {
      SliceOfSlice(pkt, off, end, next, |area|);
    }
  }

  /** The attribute loop, from the end of the header up to `end`. */
  method WalkAttributes(pkt: seq<byte>, end: nat, txid: seq<byte>) returns (r: Result)
    requires |txid| == TXID_LEN && HEADER_LEN <= end <= |pkt|
    ensures r == Decide(Visit(pkt[HEADER_LEN..end]), txid)
  {
    hide ParseXorMapped, ParseMapped, Visit, FirstXor, FirstMapped, FromBe;
    var off := HEADER_LEN;
    var fallback: Option<SocketAddr> := None;
    ghost var goal := Decide(Visit(pkt[HEADER_LEN..end]), txid);
    while off + 4 <= end
      invariant HEADER_LEN <= off
      invariant goal == DecideWith(Visit(Remaining(pkt, off, end)), txid, fallback)
      decreases end - off
    {
      RemainingStep(pkt, off, end, 0);
      var atype := FromBe(pkt[off..off + 2]);
      var alen := FromBe(pkt[off + 2..off + 4]);
      var vstart := off + 4;
      var vend := vstart + alen;
      if vend > end {
        break;
      }
      var val := pkt[vstart..vend];
      RemainingStep(pkt, off, end, alen);
      VisitStep(Remaining(pkt, off, end), txid, fallback);
      if atype == ATTR_XOR_MAPPED_ADDRESS {
        var sa := ParseXorMapped(val, txid);
        if sa.Some? {
          return Ok(sa.value);
        }
      } else if atype == ATTR_MAPPED_ADDRESS && fallback.None? {
        fallback := ParseMapped(val);
      }
      off := vend + Padding(alen);
    }
    NothingMore(Remaining(pkt, off, end), txid, fallback);
    return if fallback.Some? then Ok(fallback.value) else Err(NoAddress);
  }

  method ParseBindingResponse(pkt: seq<byte>, txid: seq<byte>) returns (r: Result)
    requires |txid| == TXID_LEN
    ensures r == Parsed(pkt, txid)
  {
    hide Decide, FromBe, Visit;
    if |pkt| < HEADER_LEN {
      return Err(ShortHeader);
    }
    var mtype := FromBe(pkt[..2]);
    var mlen := FromBe(pkt[2..4]);
    if mtype != BINDING_SUCCESS {
      return Err(NotSuccess);
    }
    if pkt[4..8] != COOKIE {
      return Err(BadCookie);
    }
    if pkt[8..20] != txid {
      return Err(TxidMismatch);
    }
    var end := if HEADER_LEN + mlen < |pkt| then HEADER_LEN + mlen else |pkt|;
    assert pkt[HEADER_LEN..end] == Area(pkt);
    r := WalkAttributes(pkt, end, txid);
  }

  lemma NothingMore(s: seq<byte>, txid: seq<byte>, fallback: Option<SocketAddr>)
    requires |txid| == TXID_LEN
    requires |s| < 4 || 4 + FromBe(s[2..4]) > |s|
    ensures DecideWith(Visit(s), txid, fallback)
         == if fallback.Some? then Ok(fallback.value) else Err(NoAddress)
  {
  }

  // ----- Messages as servers write them

  /** One attribute with its padding, whose content is not specified. */
  datatype Written = Written(attr: Attr, pad: seq<byte>)

  predicate WrittenOk(w: Written) {
    |w.attr.val| < 0x1_0000 && |w.pad| == Padding(|w.attr.val|)
  }

  function WriteAttr(w: Written): seq<byte> {
    ToBe(w.attr.atype, 2) + ToBe(|w.attr.val|, 2) + w.attr.val + w.pad
  }

  function WriteAttrs(ws: seq<Written>): seq<byte> {
    if ws == [] then [] else WriteAttr(ws[0]) + WriteAttrs(ws[1..])
  }

  function Attrs(ws: seq<Written>): seq<Attr> {
    seq(|ws|, i requires 0 <= i < |ws| => ws[i].attr)
  }

  function Response(ws: seq<Written>, txid: seq<byte>): seq<byte> {
    ToBe(BINDING_SUCCESS, 2) + ToBe(|WriteAttrs(ws)|, 2) + COOKIE + txid + WriteAttrs(ws)
  }

  lemma {:induction false} VisitAttr(w: Written, rest: seq<byte>)
    requires WrittenOk(w)
    ensures Visit(WriteAttr(w) + rest) == [w.attr] + Visit(rest)
  {
    var s := WriteAttr(w) + rest;
    var n := |w.attr.val|;
    Pow256Values();
    FromToBe(w.attr.atype, 2);
    FromToBe(n, 2);
    assert s[..2] == ToBe(w.attr.atype, 2);
    assert s[2..4] == ToBe(n, 2);
    assert s[4..4 + n] == w.attr.val;
    assert Drop(s, 4 + n + Padding(n)) == rest;
  }

  lemma {:induction false} VisitWritten(ws: seq<Written>)
    requires forall i :: 0 <= i < |ws| ==> WrittenOk(ws[i])
    ensures Visit(WriteAttrs(ws)) == Attrs(ws)
  {
    hide WriteAttr, WrittenOk, Visit;
    if ws == [] {
      VisitNothing();
    } else {
      VisitAttr(ws[0], WriteAttrs(ws[1..]));
      VisitWritten(ws[1..]);
      assert Attrs(ws) == [ws[0].attr] + Attrs(ws[1..]);
    }
  }

  lemma VisitNothing()
    ensures Visit([]) == []
  {
  }

  /** For any padded attribute list with the right type, cookie and transaction id, and any
      bytes after it: the first decodable XOR-MAPPED-ADDRESS, else the first decodable
      MAPPED-ADDRESS, else an error. */
  lemma {:induction false} WrittenResponseDecides(ws: seq<Written>, txid: seq<byte>, trailing: seq<byte>)
    requires |txid| == TXID_LEN && |WriteAttrs(ws)| < 0x1_0000
    requires forall i :: 0 <= i < |ws| ==> WrittenOk(ws[i])
    ensures Parsed(Response(ws, txid) + trailing, txid) == Decide(Attrs(ws), txid)
  {
    hide WriteAttrs, Attrs, Decide, Visit;
    var pkt, area := Response(ws, txid) + trailing, WriteAttrs(ws);
    Pow256Values();
    FromToBe(BINDING_SUCCESS, 2);
    FromToBe(|area|, 2);
    assert pkt[..2] == ToBe(BINDING_SUCCESS, 2);
    assert pkt[2..4] == ToBe(|area|, 2);
    assert pkt[4..8] == COOKIE && pkt[8..20] == txid;
    assert pkt[20..20 + |area|] == area;
    VisitWritten(ws);
  }

  /** A message of 20 bytes or more is refused for the first of type, cookie and transaction id
      that is wrong; a shorter one for its length. */
  lemma RefusedHeaders(mtype: nat, mlen: nat, cookie: seq<byte>, id: seq<byte>, rest: seq<byte>, txid: seq<byte>)
    requires mtype < 0x1_0000 && mlen < 0x1_0000 && |cookie| == 4 && |id| == |txid| == TXID_LEN
    ensures var pkt := ToBe(mtype, 2) + ToBe(mlen, 2) + cookie + id + rest;
            && (mtype != 0x0101 ==> Parsed(pkt, txid) == Err(NotSuccess))
            && (mtype == 0x0101 && cookie != [0x21, 0x12, 0xA4, 0x42] ==> Parsed(pkt, txid) == Err(BadCookie))
            && (mtype == 0x0101 && cookie == [0x21, 0x12, 0xA4, 0x42] && id != txid ==>
                  Parsed(pkt, txid) == Err(TxidMismatch))
            && forall n :: 0 <= n < 20 ==> Parsed(pkt[..n], txid) == Err(ShortHeader)
  {
    hide Decide, Visit, Area, FromBe, ToBe;
    var pkt := ToBe(mtype, 2) + ToBe(mlen, 2) + cookie + id + rest;
    Pow256Values();
    FromToBe(mtype, 2);
    assert pkt[..2] == ToBe(mtype, 2);
    assert pkt[4..8] == cookie && pkt[8..20] == id;
  }

  /** A message that announces more than it holds is read as far as it goes. */
  lemma CutShortReadsOn(mlen: nat, rest: seq<byte>, txid: seq<byte>)
    requires |txid| == TXID_LEN && |rest| <= mlen < 0x1_0000
    ensures Parsed(ToBe(0x0101, 2) + ToBe(mlen, 2) + COOKIE + txid + rest, txid) == Decide(Visit(rest), txid)
  {
    hide Decide, Visit, FromBe, ToBe;
    var pkt := ToBe(0x0101, 2) + ToBe(mlen, 2) + COOKIE + txid + rest;
    Pow256Values();
    FromToBe(0x0101, 2);
    FromToBe(mlen, 2);
    assert pkt[..2] == ToBe(0x0101, 2) && pkt[2..4] == ToBe(mlen, 2);
    assert pkt[4..8] == COOKIE && pkt[8..20] == txid;
    assert pkt[20..] == rest && (mlen == |rest| ==> pkt[20..20 + mlen] == rest);
  }

  // ----- The XOR encoder

  function IpBytes(ip: IpAddr): seq<byte> {
    match ip
    case V4(a) => ToBe(a, 4)
    case V6(a) => ToBe(a, 16)
  }

  function XorKey(ip: IpAddr, txid: seq<byte>): seq<byte> {
    if ip.V4? then COOKIE else COOKIE + txid
  }

  function EncodeXorMapped(sa: SocketAddr, txid: seq<byte>): seq<byte> {
    [0, if sa.ip.V4? then 0x01 else 0x02] + ToBe(XorPort(sa.port), 2) + XorMask(IpBytes(sa.ip), XorKey(sa.ip, txid))
  }

  function EncodeMapped(sa: SocketAddr): seq<byte> {
    [0, if sa.ip.V4? then 0x01 else 0x02] + ToBe(sa.port, 2) + IpBytes(sa.ip)
  }

  lemma IpBytesRead(ip: IpAddr)
    ensures ip == if ip.V4? then Ipv4Of(IpBytes(ip)) else Ipv6Of(IpBytes(ip))
  {
    Pow256Values();
    Pow256Sixteen();
    match ip {
      case V4(a) => FromToBe(a, 4);
      case V6(a) => FromToBe(a, 16);
    }
  }

  lemma XorMappedRoundTrip(sa: SocketAddr, txid: seq<byte>)
    requires |txid| == TXID_LEN
    ensures ParseXorMapped(EncodeXorMapped(sa, txid), txid) == Some(sa)
  {
    hide FromBe, ToBe, Xor;
    var val, n := EncodeXorMapped(sa, txid), if sa.ip.V4? then 4 else 16;
    var masked := XorMask(IpBytes(sa.ip), XorKey(sa.ip, txid));
    Pow256Values();
    FromToBe(XorPort(sa.port), 2);
    XorInvolutive(sa.port, COOKIE_PORT);
    assert val[2..4] == ToBe(XorPort(sa.port), 2);
    assert val[4..4 + n] == masked;
    XorMaskInvolutive(IpBytes(sa.ip), XorKey(sa.ip, txid));
    IpBytesRead(sa.ip);
  }

  /** Which attribute values decode. */
  predicate Decodable(val: seq<byte>) {
    |val| >= 8 && (val[1] == 0x01 || (val[1] == 0x02 && |val| >= 20))
  }

  /** Every value that decodes: the port is that of the value and the first half of the cookie,
      added digit by digit modulo 2; so is every byte of the address and the byte at its place in
      cookie and transaction id. */
  lemma XorMappedDigits(val: seq<byte>, txid: seq<byte>)
    requires |txid| == TXID_LEN
    ensures ParseXorMapped(val, txid).Some? <==> Decodable(val)
    ensures Decodable(val) ==>
              var sa := ParseXorMapped(val, txid).value;
              && (sa.ip.V4? <==> val[1] == 0x01)
              && IsXor(sa.port, FromBe(val[2..4]), FromBe(COOKIE[..2]))
              && |IpBytes(sa.ip)| <= |val| - 4
              && forall i :: 0 <= i < |IpBytes(sa.ip)| ==> IsXor(IpBytes(sa.ip)[i], val[4 + i], (COOKIE + txid)[i])
  {
    hide FromBe, ToBe, Xor, IsXor, XorMask;
    if Decodable(val) {
      CookiePort();
      XorIsXor(FromBe(val[2..4]), COOKIE_PORT);
      if val[1] == 0x01 {
        UnmaskedDigits(val, 4, COOKIE, COOKIE + txid);
      } else {
        UnmaskedDigits(val, 16, COOKIE + txid, COOKIE + txid);
      }
    }
  }

  lemma UnmaskedDigits(val: seq<byte>, n: nat, key: seq<byte>, all: seq<byte>)
    requires |key| == n > 0 && n + 4 <= |val| && key <= all
    ensures var masked := XorMask(val[4..4 + n], key);
            && ToBe(FromBe(masked), n) == masked
            && forall i :: 0 <= i < n ==> IsXor(masked[i], val[4 + i], all[i])
  {
    hide FromBe, ToBe, Xor, IsXor, XorMask;
    var masked := XorMask(val[4..4 + n], key);
    ToFromBe(masked);
    forall i | 0 <= i < n
      ensures IsXor(masked[i], val[4 + i], all[i])
    {
      XorMaskDigits(val[4..4 + n], key, i);
      assert i % |key| == i;
    }
  }

  lemma CookiePort()
    ensures FromBe(COOKIE[..2]) == COOKIE_PORT
  {
    FromBeTwo(0x21, 0x12);
    assert COOKIE[..2] == [0x21, 0x12];
  }

  lemma FromBeTwo(a: byte, b: byte)
    ensures FromBe([a, b]) == a * 256 + b
  {
    assert [a, b][..1] == [a] && [a][..0] == [];
    assert FromBe([a]) == FromBe([]) * 256 + a;
    assert FromBe([a, b]) == FromBe([a]) * 256 + b;
  }

  lemma FromBeFour(a: byte, b: byte, c: byte, d: byte)
    ensures FromBe([a, b, c, d]) == ((a * 256 + b) * 256 + c) * 256 + d
  {
    FromBeTwo(a, b);
    assert [a, b, c, d][..3] == [a, b, c] && [a, b, c][..2] == [a, b];
    assert FromBe([a, b, c]) == FromBe([a, b]) * 256 + c;
    assert FromBe([a, b, c, d]) == FromBe([a, b, c]) * 256 + d;
  }

  /** 192.0.2.1:32853 as a server writes it. */
  lemma XorMappedExample(txid: seq<byte>)
    requires |txid| == TXID_LEN
    ensures ParseXorMapped([0x00, 0x01, 0xA1, 0x47, 0xE1, 0x12, 0xA6, 0x43], txid)
         == Some(SocketAddr(V4(0xC000_0201), 32853))
  {
    hide FromBe, Xor;
    var val: seq<byte> := [0x00, 0x01, 0xA1, 0x47, 0xE1, 0x12, 0xA6, 0x43];
    ExamplePort();
    ExampleBytes();
    FromBeTwo(0xA1, 0x47);
    FromBeFour(192, 0, 2, 1);
    assert val[2..4] == [0xA1, 0x47];
    assert XorMask(val[4..8], COOKIE) == [192, 0, 2, 1];
  }

  /** One more digit at the end of a known exclusive or. */
  lemma XorNext(a: nat, b: nat, v: nat, a': nat, b': nat, v': nat)
    requires Xor(a, b) == v && a' / 2 == a && b' / 2 == b && v' == 2 * v + (a' + b') % 2
    ensures Xor(a', b') == v'
  {
  }

  lemma ExamplePort()
    ensures Xor(0xA147, 0x2112) == 32853
  {
    hide Xor;
    XorSame(0);
    XorNext(0, 0, 0, 1, 0, 1);
    XorNext(1, 0, 1, 2, 0, 2);
    XorNext(2, 0, 2, 5, 1, 4);
    XorNext(5, 1, 4, 10, 2, 8);
    XorNext(10, 2, 8, 20, 4, 16);
    XorNext(20, 4, 16, 40, 8, 32);
    XorNext(40, 8, 32, 80, 16, 64);
    XorNext(80, 16, 64, 161, 33, 128);
    XorNext(161, 33, 128, 322, 66, 256);
    XorNext(322, 66, 256, 645, 132, 513);
    XorNext(645, 132, 513, 1290, 264, 1026);
    XorNext(1290, 264, 1026, 2580, 529, 2053);
    XorNext(2580, 529, 2053, 5160, 1058, 4106);
    XorNext(5160, 1058, 4106, 10321, 2116, 8213);
    XorNext(10321, 2116, 8213, 20643, 4233, 16426);
    XorNext(20643, 4233, 16426, 41287, 8466, 32853);
  }

  lemma ExampleBytes()
    ensures Xor(0xE1, 0x21) == 192 && Xor(0x12, 0x12) == 0 && Xor(0xA6, 0xA4) == 2 && Xor(0x43, 0x42) == 1
  {
    hide Xor;
    XorSame(0);
    XorNext(0, 0, 0, 1, 0, 1);
    XorNext(1, 0, 1, 3, 0, 3);
    XorNext(3, 0, 3, 7, 1, 6);
    XorNext(7, 1, 6, 14, 2, 12);
    XorNext(14, 2, 12, 28, 4, 24);
    XorNext(28, 4, 24, 56, 8, 48);
    XorNext(56, 8, 48, 112, 16, 96);
    XorNext(112, 16, 96, 225, 33, 192);
    XorSame(18);
    XorSame(41);
    XorNext(41, 41, 0, 83, 82, 1);
    XorNext(83, 82, 1, 166, 164, 2);
    XorSame(33);
    XorNext(33, 33, 0, 67, 66, 1);
  }

  lemma MappedRoundTrip(sa: SocketAddr)
    ensures ParseMapped(EncodeMapped(sa)) == Some(sa)
  {
    hide FromBe, ToBe;
    var val, n := EncodeMapped(sa), if sa.ip.V4? then 4 else 16;
    Pow256Values();
    FromToBe(sa.port, 2);
    assert val[2..4] == ToBe(sa.port, 2);
    assert val[4..4 + n] == IpBytes(sa.ip);
    IpBytesRead(sa.ip);
  }

  /** The response of the reference server: one XOR-encoded address. */
  function XorResponse(sa: SocketAddr, txid: seq<byte>): seq<byte> {
    Response([Written(Attr(ATTR_XOR_MAPPED_ADDRESS, EncodeXorMapped(sa, txid)), [])], txid)
  }

  /** A response that carries one XOR-encoded address gives that address back. */
  lemma ResponseRoundTrip(sa: SocketAddr, txid: seq<byte>)
    requires |txid| == TXID_LEN
    ensures Parsed(XorResponse(sa, txid), txid) == Ok(sa)
  {
    hide Parsed, Response, ParseXorMapped, ParseMapped, Padding;
    var val := EncodeXorMapped(sa, txid);
    var w := Written(Attr(ATTR_XOR_MAPPED_ADDRESS, val), []);
    XorValuePadding(sa, txid);
    assert WriteAttrs([w][1..]) == [];
    WrittenResponseDecides([w], txid, []);
    assert Response([w], txid) + [] == Response([w], txid);
    assert Attrs([w]) == [w.attr];
    XorMappedRoundTrip(sa, txid);
  }

  lemma XorValuePadding(sa: SocketAddr, txid: seq<byte>)
    ensures |EncodeXorMapped(sa, txid)| <= 20 && Padding(|EncodeXorMapped(sa, txid)|) == 0
  {
  }
}
