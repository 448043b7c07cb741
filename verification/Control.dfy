/** The control-stream protocol: type, 32-bit length, body. */
module Control {
  import opened Bytes
  import opened Net
  import Utf8

  const TOKEN_LEN := 32
  const MAX_BODY := 64 * 1024

  /** A string, as its UTF-8 bytes. */
  type Str = s: seq<byte> | Utf8.Valid(s)

  type Token = s: seq<byte> | |s| == TOKEN_LEN
    witness [0, 0, 0, 0, 0, 0, 0, 0, 0, 0, 0, 0, 0, 0, 0, 0, 0, 0, 0, 0, 0, 0, 0, 0, 0, 0, 0, 0, 0, 0, 0, 0]

  datatype Msg =
    | TcpEndpointOffer(addresses: seq<Str>, token: Token)
    | TcpEndpointAck(accepted: bool)
    | Ping(ts: u64)
    | Pong(ts: u64)
    | TcpPathDown

  datatype Error =
    | EmptyOffer | TruncatedAddrLen | TruncatedAddr | AddrNotUtf8 | MissingToken
    | BadAckBody | BadPingBody | UnknownType | FrameTooLarge | UnexpectedEof

  datatype Result<+T> = Ok(value: T) | Err(error: Error)

  function TypeTag(m: Msg): byte {
    match m
    case TcpEndpointOffer(_, _) => 0x01
    case TcpEndpointAck(_) => 0x02
    case Ping(_) => 0x03
    case Pong(_) => 0x04
    case TcpPathDown => 0x05
  }

  // ----- Bodies

  /** Two bytes of length, truncated as the cast to `u16` truncates, then the bytes. */
  function EncodeAddr(a: Str): seq<byte> {
    ToBe(|a|, 2) + a
  }

  function EncodeAddrs(addrs: seq<Str>): seq<byte> {
    if addrs == [] then [] else EncodeAddr(addrs[0]) + EncodeAddrs(addrs[1..])
  }

  /** At most 255 addresses are written; the rest are dropped. */
  function Kept(addrs: seq<Str>): seq<Str> {
    if |addrs| <= 255 then addrs else addrs[..255]
  }

  function EncodeBody(m: Msg): seq<byte> {
    match m
    case TcpEndpointOffer(addrs, token) => [|Kept(addrs)|] + EncodeAddrs(Kept(addrs)) + token
    case TcpEndpointAck(accepted) => [if accepted then 1 else 0]
    case Ping(ts) => ToBe(ts, 8)
    case Pong(ts) => ToBe(ts, 8)
    case TcpPathDown => []
  }

  /** One address and what follows it. */
  function DecodeAddr(s: seq<byte>): Result<(Str, seq<byte>)> {
    if |s| < 2 then Err(TruncatedAddrLen)
    else
      var n := FromBe(s[..2]);
      if 2 + n > |s| then Err(TruncatedAddr)
      else if !Utf8.Valid(s[2..2 + n]) then Err(AddrNotUtf8)
      else Ok((s[2..2 + n], s[2 + n..]))
  }

  function DecodeAddrs(s: seq<byte>, n: nat): Result<(seq<Str>, seq<byte>)> {
    if n == 0 then Ok(([], s))
    else
      match DecodeAddr(s)
      case Err(e) => Err(e)
      case Ok((a, rest)) =>
        match DecodeAddrs(rest, n - 1)
        case Err(e) => Err(e)
        case Ok((addrs, rest')) => Ok(([a] + addrs, rest'))
  }

  function DecodeOffer(body: seq<byte>): Result<Msg> {
    if body == [] then Err(EmptyOffer)
    else
      match DecodeAddrs(body[1..], body[0])
      case Err(e) => Err(e)
      case Ok((addrs, rest)) =>
        if |rest| < TOKEN_LEN then Err(MissingToken)
        else Ok(TcpEndpointOffer(addrs, rest[..TOKEN_LEN]))
  }

  function FromBe64(s: seq<byte>): u64
    requires |s| == 8
  {
    FromBeBound(s);
    Pow256Values();
    FromBe(s)
  }

  function DecodeBody(tag: byte, body: seq<byte>): Result<Msg> {
    if tag == 0x01 then DecodeOffer(body)
    else if tag == 0x02 then
      if |body| != 1 then Err(BadAckBody) else Ok(TcpEndpointAck(body[0] != 0))
    else if tag == 0x03 || tag == 0x04 then
      if |body| != 8 then Err(BadPingBody)
      else if tag == 0x03 then Ok(Ping(FromBe64(body))) else Ok(Pong(FromBe64(body)))
    else if tag == 0x05 then Ok(TcpPathDown)
    else Err(UnknownType)
  }

  // ----- Frames on a byte stream

  function WriteMsg(m: Msg): seq<byte> {
    [TypeTag(m)] + ToBe(|EncodeBody(m)|, 4) + EncodeBody(m)
  }

  /** One message and what is left of the stream. */
  function ReadMsg(s: seq<byte>): Result<(Msg, seq<byte>)> {
    if |s| < 5 then Err(UnexpectedEof)
    else
      var len := FromBe(s[1..5]);
      if len > MAX_BODY then Err(FrameTooLarge)
      else if |s| < 5 + len then Err(UnexpectedEof)
      else
        match DecodeBody(s[0], s[5..5 + len])
        case Err(e) => Err(e)
        case Ok(m) => Ok((m, s[5 + len..]))
  }

  function WriteAll(ms: seq<Msg>): seq<byte> {
    if ms == [] then [] else WriteMsg(ms[0]) + WriteAll(ms[1..])
  }

  function ReadN(s: seq<byte>, n: nat): Result<(seq<Msg>, seq<byte>)> {
    if n == 0 then Ok(([], s))
    else
      match ReadMsg(s)
      case Err(e) => Err(e)
      case Ok((m, rest)) =>
        match ReadN(rest, n - 1)
        case Err(e) => Err(e)
        case Ok((ms, rest')) => Ok(([m] + ms, rest'))
  }

  // ----- What survives the wire

  /** The messages the format can carry. */
  predicate Carried(m: Msg) {
    m.TcpEndpointOffer? ==> |m.addresses| <= 255 && |EncodeBody(m)| <= MAX_BODY
  }

  lemma {:induction false} AddrsLength(addrs: seq<Str>, i: nat)
    requires i < |addrs|
    ensures |addrs[i]| + 2 <= |EncodeAddrs(addrs)|
  {
    if i > 0 {
      AddrsLength(addrs[1..], i - 1);
    }
  }

  lemma DecodeEncodeAddr(a: Str, rest: seq<byte>)
    requires |a| < 0x1_0000
    ensures DecodeAddr(EncodeAddr(a) + rest) == Ok((a, rest))
  {
    var s := EncodeAddr(a) + rest;
    Pow256Values();
    FromToBe(|a|, 2);
    assert s[..2] == ToBe(|a|, 2);
    assert s[2..2 + |a|] == a && s[2 + |a|..] == rest;
  }

  lemma {:induction false} DecodeEncodeAddrs(addrs: seq<Str>, rest: seq<byte>)
    requires forall i :: 0 <= i < |addrs| ==> |addrs[i]| < 0x1_0000
    ensures DecodeAddrs(EncodeAddrs(addrs) + rest, |addrs|) == Ok((addrs, rest))
  {
    hide EncodeAddr, DecodeAddr;
    if addrs == [] {
      assert EncodeAddrs(addrs) + rest == rest;
    } else {
      var tail := EncodeAddrs(addrs[1..]) + rest;
      assert EncodeAddrs(addrs) + rest == EncodeAddr(addrs[0]) + tail;
      DecodeEncodeAddr(addrs[0], tail);
      DecodeEncodeAddrs(addrs[1..], rest);
      assert addrs == [addrs[0]] + addrs[1..];
    }
  }

  lemma CarriedAddrsShort(m: Msg, i: nat)
    requires m.TcpEndpointOffer? && Carried(m) && i < |m.addresses|
    ensures |m.addresses[i]| < 0x1_0000
  {
    hide EncodeAddrs;
    AddrsLength(m.addresses, i);
  }

  lemma DecodeEncodeOffer(m: Msg)
    requires m.TcpEndpointOffer? && Carried(m)
    ensures DecodeOffer(EncodeBody(m)) == Ok(m)
  {
    hide EncodeAddrs, DecodeAddrs, Utf8.Valid;
    var body, addrs := EncodeBody(m), m.addresses;
    forall i | 0 <= i < |addrs|
      ensures |addrs[i]| < 0x1_0000
    {
      CarriedAddrsShort(m, i);
    }
    DecodeEncodeAddrs(addrs, m.token);
    assert body == [|addrs|] + (EncodeAddrs(addrs) + m.token);
    assert body[1..] == EncodeAddrs(addrs) + m.token;
    assert m.token[..TOKEN_LEN] == m.token;
  }

  lemma DecodeEncodeBody(m: Msg)
    requires Carried(m)
    ensures DecodeBody(TypeTag(m), EncodeBody(m)) == Ok(m)
  {
    hide EncodeAddrs, DecodeOffer;
    match m {
      case TcpEndpointOffer(_, _) => DecodeEncodeOffer(m);
      case Ping(ts) => Pow256Values(); FromToBe(ts, 8);
      case Pong(ts) => Pow256Values(); FromToBe(ts, 8);
      case _ =>
    }
  }

  lemma ReadWrite(m: Msg, rest: seq<byte>)
    requires Carried(m)
    ensures ReadMsg(WriteMsg(m) + rest) == Ok((m, rest))
  {
    hide DecodeBody, EncodeBody;
    var body, s := EncodeBody(m), WriteMsg(m) + rest;
    CarriedFits(m);
    Pow256Values();
    FromToBe(|body|, 4);
    assert s[1..5] == ToBe(|body|, 4);
    assert s[5..5 + |body|] == body && s[5 + |body|..] == rest;
    DecodeEncodeBody(m);
  }

  lemma CarriedFits(m: Msg)
    requires Carried(m)
    ensures |EncodeBody(m)| <= MAX_BODY
  {
  }

  lemma {:induction false} DecodedAddrsConsume(s: seq<byte>, n: nat)
    requires DecodeAddrs(s, n).Ok?
    ensures var (addrs, rest) := DecodeAddrs(s, n).value;
            |addrs| == n && |s| == |EncodeAddrs(addrs)| + |rest|
  {
    if n > 0 {
      var (a, rest) := DecodeAddr(s).value;
      DecodedAddrsConsume(rest, n - 1);
      var addrs := DecodeAddrs(rest, n - 1).value.0;
      assert ([a] + addrs)[1..] == addrs;
    }
  }

  /** Whatever the reader accepts, the format can carry. */
  lemma AcceptedIsCarried(s: seq<byte>)
    requires ReadMsg(s).Ok?
    ensures Carried(ReadMsg(s).value.0)
  {
    hide DecodeAddrs;
    if s[0] == 0x01 {
      var body := s[5..5 + FromBe(s[1..5])];
      DecodedAddrsConsume(body[1..], body[0]);
    }
  }

  /** A message read back from the stream is the message written, exactly when it has at most
      255 addresses and a body of at most 65536 bytes. */
  lemma RoundTripIffCarried(m: Msg, rest: seq<byte>)
    ensures ReadMsg(WriteMsg(m) + rest) == Ok((m, rest)) <==> Carried(m)
  {
    hide ReadMsg, WriteMsg, Carried;
    if Carried(m) {
      ReadWrite(m, rest);
    }
    if ReadMsg(WriteMsg(m) + rest) == Ok((m, rest)) {
      AcceptedIsCarried(WriteMsg(m) + rest);
    }
  }

  /** Messages written back to back are read back as the same sequence. */
  lemma {:induction false} StreamRoundTrip(ms: seq<Msg>, rest: seq<byte>)
    requires forall i :: 0 <= i < |ms| ==> Carried(ms[i])
    ensures ReadN(WriteAll(ms) + rest, |ms|) == Ok((ms, rest))
  {
    hide ReadMsg, WriteMsg, Carried;
    if ms == [] {
      assert WriteAll(ms) + rest == rest;
    } else {
      var tail := WriteAll(ms[1..]) + rest;
      assert WriteAll(ms) + rest == WriteMsg(ms[0]) + tail;
      ReadWrite(ms[0], tail);
      StreamRoundTrip(ms[1..], rest);
      assert ms == [ms[0]] + ms[1..];
    }
  }

  /** Re-encoding any accepted frame, even one with slack in its body, gives a frame for the
      same message. */
  lemma ReencodingIsStable(s: seq<byte>, rest: seq<byte>)
    requires ReadMsg(s).Ok?
    ensures ReadMsg(WriteMsg(ReadMsg(s).value.0) + rest) == Ok((ReadMsg(s).value.0, rest))
  {
    AcceptedIsCarried(s);
    ReadWrite(ReadMsg(s).value.0, rest);
  }

  /** An offer of 256 addresses is written without complaint and read back as one of 255. */
  lemma LongOfferIsCut(addrs: seq<Str>, token: Token)
    requires |addrs| == 256 && forall i :: 0 <= i < 256 ==> addrs[i] == []
    ensures ReadMsg(WriteMsg(TcpEndpointOffer(addrs, token))) == Ok((TcpEndpointOffer(addrs[..255], token), []))
  {
    var m, cut := TcpEndpointOffer(addrs, token), TcpEndpointOffer(addrs[..255], token);
    assert EncodeBody(m) == EncodeBody(cut);
    EmptyAddrsLength(addrs[..255]);
    ReadWrite(cut, []);
    assert WriteMsg(m) + [] == WriteMsg(m);
  }

  lemma {:induction false} EmptyAddrsLength(addrs: seq<Str>)
    requires forall i :: 0 <= i < |addrs| ==> addrs[i] == []
    ensures |EncodeAddrs(addrs)| == 2 * |addrs|
  {
    if addrs != [] {
      EmptyAddrsLength(addrs[1..]);
    }
  }

  /** An offer of more than 255 addresses is written as its first 255 would be. */
  lemma LongOfferReadsCut(addrs: seq<Str>, token: Token, rest: seq<byte>)
    requires |addrs| > 255 && Carried(TcpEndpointOffer(addrs[..255], token))
    ensures ReadMsg(WriteMsg(TcpEndpointOffer(addrs, token)) + rest) == Ok((TcpEndpointOffer(addrs[..255], token), rest))
  {
    hide ReadMsg, EncodeAddrs;
    assert EncodeBody(TcpEndpointOffer(addrs, token)) == EncodeBody(TcpEndpointOffer(addrs[..255], token));
    ReadWrite(TcpEndpointOffer(addrs[..255], token), rest);
  }

  // ----- Exactly which frames are accepted

  function Frame(tag: byte, body: seq<byte>): seq<byte> {
    [tag] + ToBe(|body|, 4) + body
  }

  /** The bodies that stand for a message. An offer may have bytes after its token, an
      acknowledgement counts as accepted unless its byte is zero, and the body of the last kind
      does not matter. */
  ghost predicate Means(tag: byte, body: seq<byte>, m: Msg) {
    match m
    case TcpEndpointOffer(addrs, token) =>
      tag == 1 && |addrs| <= 255 && Short(addrs) && exists slack :: OfferBody(body, addrs, token, slack)
    case TcpEndpointAck(accepted) => tag == 2 && |body| == 1 && (accepted <==> body[0] != 0)
    case Ping(ts) => tag == 3 && body == ToBe(ts, 8)
    case Pong(ts) => tag == 4 && body == ToBe(ts, 8)
    case TcpPathDown => tag == 5
  }

  predicate OfferBody(body: seq<byte>, addrs: seq<Str>, token: Token, slack: seq<byte>)
    requires |addrs| <= 255
  {
    body == [|addrs|] + EncodeAddrs(addrs) + token + slack
  }

  ghost predicate Short(addrs: seq<Str>) {
    forall i :: 0 <= i < |addrs| ==> |addrs[i]| < 0x1_0000
  }

  lemma {:induction false} DecodedAddrsWritten(s: seq<byte>, n: nat)
    requires DecodeAddrs(s, n).Ok?
    ensures var (addrs, rest) := DecodeAddrs(s, n).value;
            |addrs| == n && Short(addrs) && s == EncodeAddrs(addrs) + rest
  {
    hide Utf8.Valid;
    if n == 0 {
      assert s == [] + s;
    } else {
      var (a, rest) := DecodeAddr(s).value;
      DecodedAddrsWritten(rest, n - 1);
      var (addrs, rest') := DecodeAddrs(rest, n - 1).value;
      DecodedAddrWritten(s);
      assert ([a] + addrs)[1..] == addrs;
      assert s == EncodeAddr(a) + (EncodeAddrs(addrs) + rest');
    }
  }

  lemma DecodedAddrWritten(s: seq<byte>)
    requires DecodeAddr(s).Ok?
    ensures var (a, rest) := DecodeAddr(s).value; |a| < 0x1_0000 && s == EncodeAddr(a) + rest
  {
    hide Utf8.Valid, FromBe, ToBe;
    Pow256Values();
    FromBeBound(s[..2]);
    ToFromBe(s[..2]);
  }

  lemma OfferMeans(body: seq<byte>, m: Msg)
    requires m.TcpEndpointOffer?
    ensures DecodeOffer(body) == Ok(m) <==> Means(1, body, m)
  {
    hide DecodeAddrs, EncodeAddrs, Utf8.Valid;
    if DecodeOffer(body) == Ok(m) {
      DecodedAddrsWritten(body[1..], body[0]);
      var (addrs, rest) := DecodeAddrs(body[1..], body[0]).value;
      var slack := rest[TOKEN_LEN..];
      assert rest == m.token + slack;
      assert OfferBody(body, addrs, m.token, slack);
    }
    if Means(1, body, m) {
      var slack :| OfferBody(body, m.addresses, m.token, slack);
      assert body[1..] == EncodeAddrs(m.addresses) + (m.token + slack);
      DecodeEncodeAddrs(m.addresses, m.token + slack);
      assert (m.token + slack)[..TOKEN_LEN] == m.token;
    }
  }

  lemma BodyMeans(tag: byte, body: seq<byte>, m: Msg)
    ensures DecodeBody(tag, body) == Ok(m) <==> Means(tag, body, m)
  {
    hide DecodeOffer, EncodeAddrs, FromBe, ToBe;
    if tag == 1 && m.TcpEndpointOffer? {
      OfferMeans(body, m);
    } else if tag == 1 {
      OfferIsOffer(body);
    } else if |body| == 8 {
      ToFromBe(body);
    }
    if m.Ping? || m.Pong? {
      Pow256Values();
      FromToBe(m.ts, 8);
    }
  }

  lemma OfferIsOffer(body: seq<byte>)
    ensures DecodeOffer(body).Ok? ==> DecodeOffer(body).value.TcpEndpointOffer?
  {
  }

  /** A stream starts with a message exactly when it starts with a frame of at most 65536 bytes of
      body that stands for the message. */
  lemma AcceptedIff(s: seq<byte>, m: Msg, rest: seq<byte>)
    ensures ReadMsg(s) == Ok((m, rest))
       <==> exists tag, body :: |body| <= 65536 && Means(tag, body, m) && s == Frame(tag, body) + rest
  {
    hide DecodeBody, Means, FromBe, ToBe;
    Pow256Values();
    if ReadMsg(s) == Ok((m, rest)) {
      var tag, body := s[0], s[5..5 + FromBe(s[1..5])];
      ToFromBe(s[1..5]);
      BodyMeans(tag, body, m);
      assert s == Frame(tag, body) + rest;
    }
    if exists tag, body :: |body| <= 65536 && Means(tag, body, m) && s == Frame(tag, body) + rest {
      var tag, body :| |body| <= 65536 && Means(tag, body, m) && s == Frame(tag, body) + rest;
      FrameIsRead(tag, body, rest);
      BodyMeans(tag, body, m);
    }
  }

  lemma FrameIsRead(tag: byte, body: seq<byte>, rest: seq<byte>)
    requires |body| <= 65536
    ensures ReadMsg(Frame(tag, body) + rest)
         == match DecodeBody(tag, body)
            case Err(e) => Err(e)
            case Ok(m) => Ok((m, rest))
  {
    hide DecodeBody, FromBe, ToBe;
    var s := Frame(tag, body) + rest;
    Pow256Values();
    FromToBe(|body|, 4);
    assert s[1..5] == ToBe(|body|, 4);
    assert s[5..5 + |body|] == body && s[5 + |body|..] == rest;
  }

  // ----- What is wrong with the others

  /** A frame that breaks off, in its header or in its body, ends the stream early. */
  lemma BrokenFrame(tag: byte, body: seq<byte>, n: nat)
    requires |body| <= 65536 && n < |Frame(tag, body)|
    ensures ReadMsg(Frame(tag, body)[..n]) == Err(UnexpectedEof)
  {
    hide DecodeBody, FromBe, ToBe;
    var s := Frame(tag, body)[..n];
    if n >= 5 {
      Pow256Values();
      FromToBe(|body|, 4);
      assert s[1..5] == ToBe(|body|, 4);
    }
  }

  /** A longer body is refused by its announced length alone. */
  lemma LargeFrame(tag: byte, len: nat, rest: seq<byte>)
    requires 65536 < len < 0x1_0000_0000
    ensures ReadMsg([tag] + ToBe(len, 4) + rest) == Err(FrameTooLarge)
  {
    hide FromBe, ToBe;
    var s := [tag] + ToBe(len, 4) + rest;
    Pow256Values();
    FromToBe(len, 4);
    assert s[1..5] == ToBe(len, 4);
  }

  lemma MalformedBody(tag: byte, body: seq<byte>, rest: seq<byte>)
    requires |body| <= 65536
    ensures tag == 0 || tag > 5 ==> ReadMsg(Frame(tag, body) + rest) == Err(UnknownType)
    ensures tag == 2 && |body| != 1 ==> ReadMsg(Frame(tag, body) + rest) == Err(BadAckBody)
    ensures 3 <= tag <= 4 && |body| != 8 ==> ReadMsg(Frame(tag, body) + rest) == Err(BadPingBody)
    ensures tag == 1 && body == [] ==> ReadMsg(Frame(tag, body) + rest) == Err(EmptyOffer)
  {
    hide ReadMsg, Frame;
    FrameIsRead(tag, body, rest);
  }

  /** What is wrong with the bytes at which the next address of an offer should be. */
  function AddrFault(s: seq<byte>): Option<Error> {
    if |s| < 2 then Some(TruncatedAddrLen)
    else if |s| < 2 + FromBe(s[..2]) then Some(TruncatedAddr)
    else if !Utf8.Valid(s[2..2 + FromBe(s[..2])]) then Some(AddrNotUtf8)
    else None
  }

  lemma {:induction false} DecodeAddrsAfter(addrs: seq<Str>, n: nat, tail: seq<byte>)
    requires Short(addrs)
    ensures DecodeAddrs(EncodeAddrs(addrs) + tail, |addrs| + n)
         == match DecodeAddrs(tail, n)
            case Err(e) => Err(e)
            case Ok((more, rest)) => Ok((addrs + more, rest))
  {
    hide EncodeAddr, DecodeAddr;
    if addrs == [] {
      assert EncodeAddrs(addrs) + tail == tail;
      assert DecodeAddrs(tail, n).Ok? ==> [] + DecodeAddrs(tail, n).value.0 == DecodeAddrs(tail, n).value.0;
    } else {
      var after := EncodeAddrs(addrs[1..]) + tail;
      assert EncodeAddrs(addrs) + tail == EncodeAddr(addrs[0]) + after;
      DecodeEncodeAddr(addrs[0], after);
      DecodeAddrsAfter(addrs[1..], n, tail);
      if DecodeAddrs(tail, n).Ok? {
        var more := DecodeAddrs(tail, n).value.0;
        assert [addrs[0]] + (addrs[1..] + more) == addrs + more;
      }
    }
  }

  /** An offer that goes wrong after some good addresses, at an address or at its token. */
  lemma MalformedOffer(addrs: seq<Str>, n: nat, tail: seq<byte>)
    requires Short(addrs) && |addrs| + n <= 255
    ensures var body := [|addrs| + n] + (EncodeAddrs(addrs) + tail);
            && (n > 0 && AddrFault(tail).Some? ==> DecodeBody(1, body) == Err(AddrFault(tail).value))
            && (n == 0 && |tail| < 32 ==> DecodeBody(1, body) == Err(MissingToken))
  {
    hide DecodeAddrs, EncodeAddrs, Utf8.Valid, AddrFault, Short;
    DecodeAddrsAfter(addrs, n, tail);
    FaultDecides(tail, n);
    OfferOf(|addrs| + n, EncodeAddrs(addrs) + tail);
  }

  lemma OfferOf(n: byte, rest: seq<byte>)
    ensures DecodeBody(1, [n] + rest)
         == match DecodeAddrs(rest, n)
            case Err(e) => Err(e)
            case Ok((addrs, left)) =>
              if |left| < 32 then Err(MissingToken) else Ok(TcpEndpointOffer(addrs, left[..32]))
  {
    hide DecodeAddrs, Utf8.Valid;
    assert ([n] + rest)[1..] == rest;
  }

  lemma FaultDecides(tail: seq<byte>, n: nat)
    ensures n > 0 && AddrFault(tail).Some? ==> DecodeAddrs(tail, n) == Err(AddrFault(tail).value)
    ensures n == 0 ==> DecodeAddrs(tail, n) == Ok(([], tail))
  {
  }

  // ----- The loops of the codec

  lemma {:induction false} EncodeAddrsSnoc(addrs: seq<Str>, a: Str)
    ensures EncodeAddrs(addrs + [a]) == EncodeAddrs(addrs) + EncodeAddr(a)
  {
    if addrs == [] {
      assert [a][1..] == [] && EncodeAddrs([]) == [];
      assert EncodeAddr(a) + [] == EncodeAddr(a) == [] + EncodeAddr(a);
    } else {
      EncodeAddrsSnoc(addrs[1..], a);
      assert (addrs + [a])[1..] == addrs[1..] + [a];
    }
  }

  method EncodeOfferBody(addresses: seq<Str>, token: Token) returns (b: seq<byte>)
    ensures b == EncodeBody(TcpEndpointOffer(addresses, token))
  {
    var n := if |addresses| < 255 then |addresses| else 255;
    b := [n];
    for i := 0 to n
      invariant b == [n] + EncodeAddrs(addresses[..i])
    {
      var bytes := addresses[i];
      EncodeAddrsSnoc(addresses[..i], bytes);
      assert addresses[..i + 1] == addresses[..i] + [bytes];
      b := b + ToBe(|bytes|, 2);
      b := b + bytes;
    }
    assert addresses[..n] == Kept(addresses);
    b := b + token;
  }

  lemma DecodeAddrsStep(s: seq<byte>, n: nat, done: seq<Str>)
    requires n > 0
    ensures After(done, DecodeAddrs(s, n))
         == match DecodeAddr(s)
            case Err(e) => Err(e)
            case Ok((a, rest)) => After(done + [a], DecodeAddrs(rest, n - 1))
  {
    hide DecodeAddr;
    var head := DecodeAddr(s);
    if head.Ok? {
      var tail := DecodeAddrs(head.value.1, n - 1);
      if tail.Ok? {
        assert done + ([head.value.0] + tail.value.0) == done + [head.value.0] + tail.value.0;
      }
    }
  }

  function After(done: seq<Str>, r: Result<(seq<Str>, seq<byte>)>): Result<(seq<Str>, seq<byte>)> {
    match r
    case Err(e) => Err(e)
    case Ok((addrs, rest)) => Ok((done + addrs, rest))
  }

  /** The address at `off`, and the offset after it. */
  method DecodeAddrAt(body: seq<byte>, start: nat) returns (r: Result<(Str, nat)>)
    requires start <= |body|
    ensures match r
            case Err(e) => DecodeAddr(body[start..]) == Err(e)
            case Ok((a, end)) => start <= end <= |body| && DecodeAddr(body[start..]) == Ok((a, body[end..]))
  {
    var off := start;
    if off + 2 > |body| {
      return Err(TruncatedAddrLen);
    }
    assert body[start..][..2] == body[off..off + 2];
    var alen := FromBe(body[off..off + 2]);
    off := off + 2;
    if off + alen > |body| {
      return Err(TruncatedAddr);
    }
    assert body[start..][2..2 + alen] == body[off..off + alen];
    assert body[start..][2 + alen..] == body[off + alen..];
    if !Utf8.Valid(body[off..off + alen]) {
      return Err(AddrNotUtf8);
    }
    return Ok((body[off..off + alen], off + alen));
  }

  method DecodeOfferBody(body: seq<byte>) returns (r: Result<Msg>)
    ensures r == DecodeOffer(body)
  {
    hide DecodeAddr;
    if body == [] {
      return Err(EmptyOffer);
    }
    var n := body[0];
    var off := 1;
    var addresses: seq<Str> := [];
    ghost var all := DecodeAddrs(body[1..], n);
    assert all == After([], all) by {
      assert all.Ok? ==> [] + all.value.0 == all.value.0;
    }
    for i := 0 to n
      invariant 1 <= off <= |body|
      invariant all == After(addresses, DecodeAddrs(body[off..], n - i))
    {
      DecodeAddrsStep(body[off..], n - i, addresses);
      var one := DecodeAddrAt(body, off);
      if one.Err? {
        return Err(one.error);
      }
      addresses := addresses + [one.value.0];
      off := one.value.1;
    }
    assert addresses + [] == addresses;
    if off + TOKEN_LEN > |body| {
      return Err(MissingToken);
    }
    assert body[off..][..TOKEN_LEN] == body[off..off + TOKEN_LEN];
    return Ok(TcpEndpointOffer(addresses, body[off..off + TOKEN_LEN]));
  }
}
