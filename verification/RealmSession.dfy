/** The client and server sides of a realm session: keys travel as hexadecimal text through
    the rendezvous, and both sides then punch with them. */
module RealmSession {
  import opened Bytes
  import opened Net
  import opened Text
  import opened PunchCodec
  import Sse
  import Rendezvous
  import PunchProtocol

  // ----- Hexadecimal text

  function HexDigit(n: nat): char
    requires n < 16
  {
    "0123456789abcdef"[n]
  }

  function DigitValue(c: char): Option<nat> {
    if '0' <= c <= '9' then Some((c - '0') as nat)
    else if 'a' <= c <= 'f' then Some((c - 'a') as nat + 10)
    else if 'A' <= c <= 'F' then Some((c - 'A') as nat + 10)
    else None
  }

  function HexEncode(b: seq<byte>): string {
    if b == [] then [] else [HexDigit(b[0] / 16), HexDigit(b[0] % 16)] + HexEncode(b[1..])
  }

  /** `hex::decode`: an even number of digits of either case. */
  function HexDecode(s: string): Option<seq<byte>> {
    if s == [] then Some([])
    else if |s| == 1 then None
    else
      match (DigitValue(s[0]), DigitValue(s[1]), HexDecode(s[2..]))
      case (Some(hi), Some(lo), Some(rest)) =>
        if hi < 16 && lo < 16 then Some([hi * 16 + lo] + rest) else None
      case _ => None
  }

  datatype Decoded = Bytes(bytes: seq<byte>) | BadHex | WrongLength

  function DecodeN(h: string, n: nat): Decoded {
    match HexDecode(h)
    case None => BadHex
    case Some(b) => if |b| == n then Bytes(b) else WrongLength
  }

  lemma DigitRoundTrip(n: nat)
    requires n < 16
    ensures DigitValue(HexDigit(n)) == Some(n)
  {
  }

  lemma DigitCase(c: char)
    requires DigitValue(c).Some?
    ensures DigitValue(c).value < 16 && HexDigit(DigitValue(c).value) == LowerChar(c)
  {
  }

  lemma {:induction false} HexRoundTrip(b: seq<byte>)
    ensures |HexEncode(b)| == 2 * |b| && HexDecode(HexEncode(b)) == Some(b)
  {
    hide HexDigit, DigitValue;
    if b != [] {
      HexRoundTrip(b[1..]);
      DigitRoundTrip(b[0] / 16);
      DigitRoundTrip(b[0] % 16);
      var h := HexEncode(b);
      assert h[2..] == HexEncode(b[1..]);
      assert b == [b[0]] + b[1..];
    }
  }

  lemma {:induction false} HexDecodedText(s: string)
    requires HexDecode(s).Some?
    ensures HexEncode(HexDecode(s).value) == Lower(s)
  {
    if s == [] {
      assert Lower(s) == [];
    } else {
      HexDecodedText(s[2..]);
      DigitCase(s[0]);
      DigitCase(s[1]);
      var hi, lo := DigitValue(s[0]).value, DigitValue(s[1]).value;
      var b := HexDecode(s).value;
      assert b[0] == hi * 16 + lo && b[1..] == HexDecode(s[2..]).value;
      assert b[0] / 16 == hi && b[0] % 16 == lo;
      assert Lower(s) == [LowerChar(s[0]), LowerChar(s[1])] + Lower(s[2..]);
    }
  }

  lemma CaseKeepsDigit(c: char, n: nat)
    requires n < 16 && LowerChar(c) == HexDigit(n)
    ensures DigitValue(c) == Some(n)
  {
  }

  lemma {:induction false} EncodingIsAccepted(s: string, b: seq<byte>)
    requires Lower(s) == HexEncode(b)
    ensures HexDecode(s) == Some(b)
  {
    hide HexDigit, DigitValue, LowerChar;
    HexRoundTrip(b);
    assert |Lower(s)| == |s|;
    if b != [] {
      var h := HexEncode(b);
      assert Lower(s)[0] == LowerChar(s[0]) && Lower(s)[1] == LowerChar(s[1]);
      CaseKeepsDigit(s[0], b[0] / 16);
      CaseKeepsDigit(s[1], b[0] % 16);
      assert Lower(s[2..]) == Lower(s)[2..] == HexEncode(b[1..]);
      EncodingIsAccepted(s[2..], b[1..]);
      assert b == [b[0]] + b[1..];
    }
  }

  /** The decoder accepts exactly the encodings, up to the case of the digits. */
  lemma HexDecodeIff(s: string, b: seq<byte>)
    ensures HexDecode(s) == Some(b) <==> Lower(s) == HexEncode(b)
  {
    if HexDecode(s) == Some(b) {
      HexDecodedText(s);
    }
    if Lower(s) == HexEncode(b) {
      EncodingIsAccepted(s, b);
    }
  }

  // ----- The two sides

  /** What the client draws for one connect. */
  datatype SessionKeys = SessionKeys(nonce: seq<byte>, obfs: seq<byte>)

  predicate KeysOk(k: SessionKeys) {
    |k.nonce| == NONCE_LEN && |k.obfs| == OBFS_LEN
  }

  function ClientBody(addresses: seq<string>, k: SessionKeys): Sse.ConnectBody {
    Sse.ConnectBody(addresses, HexEncode(k.nonce), HexEncode(k.obfs))
  }

  /** What the server punches with after a punch event. */
  function ServerKeys(punch: Sse.ConnectBody): Option<SessionKeys> {
    match (DecodeN(punch.nonce, NONCE_LEN), DecodeN(punch.obfs, OBFS_LEN))
    case (Bytes(nonce), Bytes(obfs)) => Some(SessionKeys(nonce, obfs))
    case _ => None
  }

  lemma ServerReadsClientKeys(addresses: seq<string>, k: SessionKeys)
    requires KeysOk(k)
    ensures ServerKeys(ClientBody(addresses, k)) == Some(k) && ClientBody(addresses, k).addresses == addresses
  {
    HexRoundTrip(k.nonce);
    HexRoundTrip(k.obfs);
  }

  /** A text of the wrong length is told apart from one that is not hexadecimal. */
  lemma DecodeNIff(h: string, n: nat, b: seq<byte>)
    ensures DecodeN(h, n) == Bytes(b) <==> Lower(h) == HexEncode(b) && |b| == n
    ensures DecodeN(h, n) == WrongLength <==> exists c :: Lower(h) == HexEncode(c) && |c| != n
  {
    hide HexEncode, HexDecode, Lower;
    HexDecodeIff(h, b);
    if HexDecode(h).Some? {
      HexDecodeIff(h, HexDecode(h).value);
    }
    forall c | Lower(h) == HexEncode(c)
      ensures HexDecode(h) == Some(c)
    {
      HexDecodeIff(h, c);
    }
  }

  /** The server can read its keys exactly when both fields are hexadecimal text of 16 and of 32
      bytes, in either case; and they are those bytes. */
  lemma ServerKeysIff(punch: Sse.ConnectBody, k: SessionKeys)
    ensures ServerKeys(punch) == Some(k)
       <==> && |k.nonce| == 16 && |k.obfs| == 32
            && Lower(punch.nonce) == HexEncode(k.nonce) && Lower(punch.obfs) == HexEncode(k.obfs)
  {
    hide DecodeN, HexEncode, Lower;
    DecodeNIff(punch.nonce, NONCE_LEN, k.nonce);
    DecodeNIff(punch.obfs, OBFS_LEN, k.obfs);
  }

  /** In every run of the rendezvous without a reused nonce: when a server's post reaches a
      client's connect, the server punches with exactly the bytes that the client drew. */
  lemma BothSidesPunchAlike(admits: Rendezvous.Admitted, events: seq<Rendezvous.Event>, h: nat,
                            addresses: seq<string>, k: SessionKeys)
    requires Rendezvous.IsRun(Rendezvous.Initial, admits, events) && Rendezvous.NonceFixesKey(admits) && KeysOk(k)
    requires var s := Rendezvous.Final(Rendezvous.Initial, admits, events);
             && h in s.posts && s.posts[h].applied && s.posts[h].target in s.connects
             && s.connects[s.posts[h].target].body == ClientBody(addresses, k)
    ensures var s := Rendezvous.Final(Rendezvous.Initial, admits, events);
            s.posts[h].cause in s.connects && ServerKeys(s.connects[s.posts[h].cause].body) == Some(k)
  {
    hide Rendezvous.IsRun, Rendezvous.Final, Rendezvous.NonceFixesKey, HexEncode, HexDecode;
    Rendezvous.AgreeIfNonceFixesKey(admits, events);
    ServerReadsClientKeys(addresses, k);
  }

  /** The texts that are socket addresses, in order. */
  function UsableAddrs(parse: string -> Option<SocketAddr>, texts: seq<string>): seq<SocketAddr> {
    if texts == [] then []
    else
      var rest := UsableAddrs(parse, texts[1..]);
      if parse(texts[0]).Some? then [parse(texts[0]).value] + rest else rest
  }

  lemma {:induction false} UsableAddrsAre(parse: string -> Option<SocketAddr>, texts: seq<string>)
    ensures forall a :: a in UsableAddrs(parse, texts) <==> exists t :: t in texts && parse(t) == Some(a)
  {
    if texts != [] {
      UsableAddrsAre(parse, texts[1..]);
      assert texts == [texts[0]] + texts[1..];
    }
  }

  /** Every text keeps its place, repetitions included. */
  lemma {:induction false} UsableAddrsInOrder(parse: string -> Option<SocketAddr>, before: seq<string>, text: string,
                                               after: seq<string>)
    ensures UsableAddrs(parse, before + [text] + after)
         == UsableAddrs(parse, before) + (if parse(text).Some? then [parse(text).value] else [])
            + UsableAddrs(parse, after)
  {
    var all := before + [text] + after;
    if before == [] {
      assert all[1..] == after;
    } else {
      UsableAddrsInOrder(parse, before[1..], text, after);
      assert all[1..] == before[1..] + [text] + after;
    }
  }

  /** `parse_addrs`: an error if no text is an address. */
  function ParseAddrs(parse: string -> Option<SocketAddr>, texts: seq<string>): (r: Option<seq<SocketAddr>>)
    ensures r.None? <==> forall t :: t in texts ==> parse(t).None?
    ensures r.Some? ==> r.value != [] && forall a :: a in r.value <==> exists t :: t in texts && parse(t) == Some(a)
  {
    UsableAddrsAre(parse, texts);
    var addrs := UsableAddrs(parse, texts);
    assert addrs != [] ==> addrs[0] in addrs;
    assert forall t :: t in texts && parse(t).Some? ==> parse(t).value in addrs;
    if addrs == [] then None else Some(addrs)
  }

  /** What the network does for one session. */
  datatype Network = Network(
    parse: string -> Option<SocketAddr>,
    localIsV6: PunchProtocol.Party -> bool,
    owner: SocketAddr -> Option<PunchProtocol.Party>
  )

  /** The punch that follows: the client with the keys it drew, toward the addresses in its
      reply; the server with the keys it decoded, toward the addresses in its punch event. A side
      that was given no address gives up, as it does with no usable candidate. */
  function Session(mask: MaskFn, net: Network, client: SessionKeys, reply: seq<string>,
                   server: SessionKeys, punch: Sse.ConnectBody): PunchProtocol.Config
  {
    PunchProtocol.Config(
      mask,
      (p: PunchProtocol.Party) => if p.Client? then client.nonce else server.nonce,
      (p: PunchProtocol.Party) => if p.Client? then client.obfs else server.obfs,
      (p: PunchProtocol.Party) =>
        (match ParseAddrs(net.parse, if p.Client? then reply else punch.addresses)
         case None => []
         case Some(addrs) => addrs),
      net.localIsV6,
      net.owner)
  }

  /** From rendezvous to hole: in every run of the rendezvous without a reused nonce, when a
      server's post has reached a connect that was replied to, the server can read its keys, both
      sides punch with the same ones, and every run of that punch returns sound addresses exactly
      when neither side was handed an address of its own. */
  lemma SessionPunchIsSound(admits: Rendezvous.Admitted, events: seq<Rendezvous.Event>, h: nat,
                            addresses: seq<string>, k: SessionKeys, mask: MaskFn, net: Network)
    requires Rendezvous.IsRun(Rendezvous.Initial, admits, events) && Rendezvous.NonceFixesKey(admits) && KeysOk(k)
    requires var s := Rendezvous.Final(Rendezvous.Initial, admits, events);
             && h in s.posts && s.posts[h].applied && s.posts[h].target in s.connects
             && s.connects[s.posts[h].target].body == ClientBody(addresses, k)
             && s.connects[s.posts[h].target].stage.Replied?
    ensures var s := Rendezvous.Final(Rendezvous.Initial, admits, events);
            && s.posts[h].cause in s.connects
            && var punch := s.connects[s.posts[h].cause].body;
               && ServerKeys(punch).Some?
               && var c := Session(mask, net, k, s.connects[s.posts[h].target].stage.addrs,
                                   ServerKeys(punch).value, punch);
                  && PunchProtocol.SameKeys(c)
                  && (PunchProtocol.AlwaysSound(c) <==> PunchProtocol.NoSelfTarget(c))
  {
    hide Rendezvous.IsRun, Rendezvous.Final, Rendezvous.NonceFixesKey, HexEncode, HexDecode, ParseAddrs;
    hide PunchProtocol.AlwaysSound, PunchProtocol.NoSelfTarget;
    BothSidesPunchAlike(admits, events, h, addresses, k);
    var s := Rendezvous.Final(Rendezvous.Initial, admits, events);
    var punch := s.connects[s.posts[h].cause].body;
    PunchProtocol.SoundIffNoSelfTarget(Session(mask, net, k, s.connects[s.posts[h].target].stage.addrs, k, punch));
  }

  /** In that session the client's candidates are the addresses in its reply, which were posted for
      its nonce or registered with its realm; the server's are those that the connect it answers
      was entered with. */
  lemma EachSideTargetsTheOther(admits: Rendezvous.Admitted, events: seq<Rendezvous.Event>, h: nat, mask: MaskFn,
                                net: Network, client: SessionKeys, server: SessionKeys, a: SocketAddr)
    returns (i: nat)
    requires Rendezvous.IsRun(Rendezvous.Initial, admits, events)
    requires var s := Rendezvous.Final(Rendezvous.Initial, admits, events);
             && h in s.posts && s.posts[h].target in s.connects && s.posts[h].cause in s.connects
             && s.connects[s.posts[h].target].stage.Replied?
    ensures var s := Rendezvous.Final(Rendezvous.Initial, admits, events);
            var k, cause := s.posts[h].target, s.posts[h].cause;
            var reply := s.connects[k].stage.addrs;
            var c := Session(mask, net, client, reply, server, s.connects[cause].body);
            && Rendezvous.Enters(Rendezvous.Initial, admits, events, i, cause)
            && (a in c.peers(PunchProtocol.Server) <==>
                  exists t :: t in events[i].body.addresses && net.parse(t) == Some(a))
            && (a in c.peers(PunchProtocol.Client) <==> exists t :: t in reply && net.parse(t) == Some(a))
            && (|| Rendezvous.RegisteredIn(admits, events, s.connects[k].realm, reply)
                || Rendezvous.PostedIn(admits, events, k, reply))
  {
    hide Rendezvous.IsRun, Rendezvous.Final, Rendezvous.RegisteredIn, Rendezvous.PostedIn, Rendezvous.Enters;
    var s := Rendezvous.Final(Rendezvous.Initial, admits, events);
    Rendezvous.ReplyCarriesPostedOrRegistered(admits, events, s.posts[h].target);
    i := Rendezvous.ConnectWasEntered(Rendezvous.Initial, admits, events, s.posts[h].cause);
  }
}
