/** Two peers running the Hello/Ack punch loop over a network that loses, duplicates and
    reorders packets, carries datagrams of strangers, and rewrites source addresses. */
module PunchProtocol {
  import opened Bytes
  import opened Net
  import opened PunchCodec

  const TRAILING_ACKS := 5

  datatype Party = Client | Server

  function Other(p: Party): Party {
    match p
    case Client => Server
    case Server => Client
  }

  /** One punch session, with the nonce and the key that each side holds. `owner` says to which
      peer, if any, the network delivers an address; a peer behind an address translator may own
      many. */
  datatype Config = Config(
    mask: MaskFn,
    nonce: Party -> seq<byte>,
    obfs: Party -> seq<byte>,
    peers: Party -> seq<SocketAddr>,
    localIsV6: Party -> bool,
    owner: SocketAddr -> Option<Party>
  )

  ghost predicate WellFormed(c: Config) {
    forall p: Party :: |c.nonce(p)| == NONCE_LEN && |c.obfs(p)| == OBFS_LEN
  }

  ghost predicate SameKeys(c: Config) {
    c.nonce(Client) == c.nonce(Server) && c.obfs(Client) == c.obfs(Server)
  }

  function Usable(localIsV6: bool, peers: seq<SocketAddr>): seq<SocketAddr> {
    if peers == [] then []
    else
      var rest := Usable(localIsV6, peers[1..]);
      if localIsV6 || peers[0].ip.V4? then [MapToSocketFamily(localIsV6, peers[0])] + rest else rest
  }

  /** Where a socket sends for one candidate: nowhere if it lacks the family; on an IPv6 socket an
      IPv4 address takes the form ::ffff:a.b.c.d. */
  function Reached(localIsV6: bool, a: SocketAddr): seq<SocketAddr> {
    match a.ip
    case V4(v4) => if localIsV6 then [SocketAddr(V6(0xFFFF_0000_0000 + v4), a.port)] else [a]
    case V6(_) => if localIsV6 then [a] else []
  }

  lemma {:induction false} UsableConcat(localIsV6: bool, a: seq<SocketAddr>, b: seq<SocketAddr>)
    ensures Usable(localIsV6, a + b) == Usable(localIsV6, a) + Usable(localIsV6, b)
  {
    hide MapToSocketFamily;
    if a == [] {
      assert a + b == b;
    } else {
      UsableConcat(localIsV6, a[1..], b);
      assert (a + b)[1..] == a[1..] + b;
    }
  }

  lemma UsableOne(localIsV6: bool, a: SocketAddr)
    ensures Usable(localIsV6, [a]) == Reached(localIsV6, a)
  {
    assert [a][1..] == [];
  }

  /** Every candidate keeps its place. */
  lemma UsableInOrder(localIsV6: bool, before: seq<SocketAddr>, a: SocketAddr, after: seq<SocketAddr>)
    ensures Usable(localIsV6, before + [a] + after)
         == Usable(localIsV6, before) + Reached(localIsV6, a) + Usable(localIsV6, after)
  {
    hide Usable, Reached;
    UsableConcat(localIsV6, before + [a], after);
    UsableConcat(localIsV6, before, [a]);
    UsableOne(localIsV6, a);
  }

  /** The candidates of `p` that its socket can reach, in the form it sends to. */
  function Targets(c: Config, p: Party): seq<SocketAddr> {
    Usable(c.localIsV6(p), c.peers(p))
  }

  /** A datagram on the wire. `sender` is bookkeeping; `src` is what the receiver sees. */
  datatype Packet = Packet(sender: Party, src: SocketAddr, dst: SocketAddr, bytes: seq<byte>)

  datatype Phase =
    | Probing
    | Confirmed(peer: SocketAddr, acksLeft: nat)
    | Done(peer: SocketAddr)
    | TimedOut

  datatype PeerState = PeerState(phase: Phase, received: set<Packet>)

  datatype State = State(client: PeerState, server: PeerState, wire: set<Packet>) {
    function Of(p: Party): PeerState {
      match p
      case Client => client
      case Server => server
    }

    function With(p: Party, st: PeerState): State {
      match p
      case Client => this.(client := st)
      case Server => this.(server := st)
    }
  }

  /** What `encode` draws at random for one packet, and the source address it will show. */
  datatype Draw = Draw(salt: seq<byte>, padding: seq<byte>, src: SocketAddr)

  datatype Event =
    | SendHello(p: Party, target: SocketAddr, draw: Draw)
    | Receive(p: Party, packet: Packet, reply: Draw)
    | ReceiveStray(p: Party, bytes: seq<byte>, src: SocketAddr)
    | SendTrailingAck(p: Party, draw: Draw)
    | Finish(p: Party)
    | GiveUp(p: Party)

  function Initial(c: Config): State {
    State(PeerState(if Targets(c, Client) == [] then TimedOut else Probing, {}),
          PeerState(if Targets(c, Server) == [] then TimedOut else Probing, {}),
          {})
  }

  predicate DrawOk(c: Config, p: Party, d: Draw) {
    |d.salt| == SALT_LEN && |d.padding| <= MAX_PADDING && c.owner(d.src) == Some(p)
  }

  function Sealed(c: Config, p: Party, t: PunchType, dst: SocketAddr, d: Draw): Packet {
    Packet(p, d.src, dst, Encode(c.mask, t, c.nonce(p), c.obfs(p), d.salt, d.padding))
  }

  /** What `p` makes of a packet. */
  function Opened(c: Config, p: Party, packet: Packet): Decoded {
    Decode(c.mask, packet.bytes, c.nonce(p), c.obfs(p))
  }

  predicate Enabled(c: Config, s: State, e: Event) {
    var phase := s.Of(e.p).phase;
    match e
    case SendHello(p, target, draw) =>
      phase.Probing? && target in Targets(c, p) && DrawOk(c, p, draw)
    case Receive(p, packet, reply) =>
      phase.Probing? && packet in s.wire && c.owner(packet.dst) == Some(p) && DrawOk(c, p, reply)
    case ReceiveStray(p, bytes, src) =>
      phase.Probing? && Decode(c.mask, bytes, c.nonce(p), c.obfs(p)).Err?
    case SendTrailingAck(p, draw) =>
      phase.Confirmed? && phase.acksLeft > 0 && DrawOk(c, p, draw)
    case Finish(p) => phase.Confirmed? && phase.acksLeft == 0
    case GiveUp(p) => phase.Probing?
  }

  function Apply(c: Config, s: State, e: Event): State
    requires Enabled(c, s, e)
  {
    var st := s.Of(e.p);
    match e
    case SendHello(p, target, draw) =>
      s.(wire := s.wire + {Sealed(c, p, Hello, target, draw)})
    case Receive(p, packet, reply) =>
      var got := st.received + {packet};
      (match Opened(c, p, packet)
       case Ok(Hello, _) =>
         s.With(p, st.(received := got)).(wire := s.wire + {Sealed(c, p, Ack, packet.src, reply)})
       case Ok(Ack, _) =>
         s.With(p, PeerState(Confirmed(packet.src, TRAILING_ACKS), got))
       case Err(_) =>
         s.With(p, st.(received := got)))
    case ReceiveStray(p, bytes, src) => s
    case SendTrailingAck(p, draw) =>
      s.With(p, st.(phase := Confirmed(st.phase.peer, st.phase.acksLeft - 1)))
       .(wire := s.wire + {Sealed(c, p, Ack, st.phase.peer, draw)})
    case Finish(p) => s.With(p, st.(phase := Done(st.phase.peer)))
    case GiveUp(p) => s.With(p, st.(phase := TimedOut))
  }

  ghost predicate IsRun(c: Config, s: State, events: seq<Event>)
    decreases |events|
  {
    events != [] ==> Enabled(c, s, events[0]) && IsRun(c, Apply(c, s, events[0]), events[1..])
  }

  ghost function Final(c: Config, s: State, events: seq<Event>): State
    requires IsRun(c, s, events)
    decreases |events|
  {
    if events == [] then s else Final(c, Apply(c, s, events[0]), events[1..])
  }

  // ----- What every run keeps

  predicate Settled(phase: Phase) {
    phase.Confirmed? || phase.Done?
  }

  predicate Reads(c: Config, p: Party, k: Packet, t: PunchType) {
    Opened(c, p, k).Ok? && Opened(c, p, k).ptype == t
  }

  ghost predicate GotFrom(c: Config, s: State, p: Party, t: PunchType, src: SocketAddr) {
    exists k :: k in s.Of(p).received && Reads(c, p, k, t) && k.src == src
  }

  /** `a` goes to where a Hello came from that was delivered to its sender. */
  ghost predicate Answers(c: Config, s: State, a: Packet) {
    GotFrom(c, s, a.sender, Hello, a.dst)
  }

  /** `k` is an Ack delivered to the sender of `a`, from where `a` goes. */
  ghost predicate Follows(c: Config, s: State, a: Packet, k: Packet) {
    k in s.Of(a.sender).received && Reads(c, a.sender, k, Ack) && k.src == a.dst
  }

  /** `k` answers a Hello, or follows an Ack of the other side that does. */
  ghost predicate Rooted(c: Config, s: State, k: Packet) {
    Answers(c, s, k) || exists k2 :: Follows(c, s, k, k2) && Answers(c, s, k2)
  }

  /** An Ack answers a Hello delivered to its sender, or follows an Ack that is so rooted: the
      chain of causes has at most three Acks and ends at a delivered Hello. */
  ghost predicate AckTraced(c: Config, s: State, a: Packet) {
    Answers(c, s, a) || exists k :: Follows(c, s, a, k) && Rooted(c, s, k)
  }

  ghost predicate PacketOk(c: Config, s: State, k: Packet) {
    && Opened(c, k.sender, k).Ok?
    && c.owner(k.src) == Some(k.sender)
    && (Reads(c, k.sender, k, Ack) ==>
          Answers(c, s, k) || (Settled(s.Of(k.sender).phase) && s.Of(k.sender).phase.peer == k.dst))
  }

  /** A peer that confirmed holds a rooted Ack from the address it confirmed. */
  ghost predicate SettledOk(c: Config, s: State, p: Party) {
    Settled(s.Of(p).phase) ==>
      exists k :: k in s.Of(p).received && Reads(c, p, k, Ack) && k.src == s.Of(p).phase.peer && Rooted(c, s, k)
  }

  /** The part that holds whatever the candidates are. */
  ghost predicate Inv(c: Config, s: State) {
    && (forall k :: k in s.wire ==> PacketOk(c, s, k))
    && (forall p: Party, k :: k in s.Of(p).received ==> k in s.wire && c.owner(k.dst) == Some(p))
    && (forall p: Party :: SettledOk(c, s, p))
  }

  predicate Crosses(c: Config, k: Packet) {
    c.owner(k.src) == Some(k.sender) && c.owner(k.dst) != Some(k.sender)
  }

  /** Packets go to the other side. Needs that no peer is told to punch toward itself. */
  ghost predicate Crossing(c: Config, s: State) {
    forall k :: k in s.wire ==> Crosses(c, k)
  }

  ghost predicate NoSelfTarget(c: Config) {
    forall p: Party, t :: t in Targets(c, p) ==> c.owner(t) != Some(p)
  }

  /** What a peer may conclude when the punch returns an address. */
  ghost predicate ConfirmationSound(c: Config, s: State, p: Party) {
    Settled(s.Of(p).phase) ==>
      var peer := s.Of(p).phase.peer;
      && c.owner(peer) == Some(Other(p))
      && GotFrom(c, s, p, Ack, peer)
      && exists k :: k in s.Of(Other(p)).received && k.sender == p
  }

  // ----- Preservation

  lemma SealedOpens(c: Config, p: Party, t: PunchType, dst: SocketAddr, d: Draw)
    requires WellFormed(c) && DrawOk(c, p, d)
    ensures Opened(c, p, Sealed(c, p, t, dst, d)) == Ok(t, |d.padding|)
  {
    DecodeEncode(c.mask, t, c.nonce(p), c.obfs(p), d.salt, d.padding);
  }

  lemma SameKeysOpenAlike(c: Config, p: Party, q: Party, k: Packet)
    requires SameKeys(c)
    ensures Opened(c, p, k) == Opened(c, q, k)
  {
    hide Decode;
    assert c.nonce(p) == c.nonce(q) && c.obfs(p) == c.obfs(q);
  }

  /** States only grow: what was delivered stays delivered, and a confirmed peer stays. */
  ghost predicate Grows(s: State, s': State) {
    && s.wire <= s'.wire
    && (forall p: Party :: s.Of(p).received <= s'.Of(p).received)
    && (forall p: Party :: Settled(s.Of(p).phase) ==>
          Settled(s'.Of(p).phase) && s'.Of(p).phase.peer == s.Of(p).phase.peer)
  }

  lemma ApplyGrows(c: Config, s: State, e: Event)
    requires Enabled(c, s, e)
    ensures Grows(s, Apply(c, s, e))
  {
    hide Decode, Encode;
  }

  lemma AnswersGrows(c: Config, s: State, s': State, k: Packet)
    requires Grows(s, s') && Answers(c, s, k)
    ensures Answers(c, s', k)
  {
    hide Decode;
  }

  lemma RootedGrows(c: Config, s: State, s': State, k: Packet)
    requires Grows(s, s') && Rooted(c, s, k)
    ensures Rooted(c, s', k)
  {
    hide Answers, Opened;
    if Answers(c, s, k) {
      AnswersGrows(c, s, s', k);
    } else {
      var k2 :| Follows(c, s, k, k2) && Answers(c, s, k2);
      AnswersGrows(c, s, s', k2);
      assert Follows(c, s', k, k2);
    }
  }

  /** The one packet a step may put on the wire is accounted for in the state it leads to. */
  lemma NewPacketOk(c: Config, s: State, e: Event, k: Packet)
    requires WellFormed(c) && Enabled(c, s, e)
    requires k in Apply(c, s, e).wire && k !in s.wire
    ensures PacketOk(c, Apply(c, s, e), k)
  {
    hide Decode, Encode;
    match e {
      case SendHello(p, target, draw) =>
        SealedOpens(c, p, Hello, target, draw);
      case Receive(p, packet, reply) =>
        SealedOpens(c, p, Ack, packet.src, reply);
        assert packet in Apply(c, s, e).Of(p).received;
      case SendTrailingAck(p, draw) =>
        SealedOpens(c, p, Ack, s.Of(p).phase.peer, draw);
    }
  }

  lemma WireStep(c: Config, s: State, e: Event, k: Packet)
    requires WellFormed(c) && Inv(c, s) && Enabled(c, s, e) && k in Apply(c, s, e).wire
    ensures PacketOk(c, Apply(c, s, e), k)
  {
    hide Decode, Encode, Apply, Enabled, Answers;
    ApplyGrows(c, s, e);
    if k !in s.wire {
      NewPacketOk(c, s, e, k);
    } else if Answers(c, s, k) {
      AnswersGrows(c, s, Apply(c, s, e), k);
    }
  }

  lemma ReceivedStep(c: Config, s: State, e: Event, p: Party, k: Packet)
    requires Inv(c, s) && Enabled(c, s, e) && k in Apply(c, s, e).Of(p).received
    ensures k in Apply(c, s, e).wire && c.owner(k.dst) == Some(p)
  {
    hide Decode, Encode, PacketOk, SettledOk;
  }

  /** The heart of the trace. An Ack that reaches a peer still probing answers a Hello; or its
      sender confirmed this very peer, by an Ack that this peer, being still probing, can only
      have sent in answer to a Hello. */
  lemma ArrivingAckIsRooted(c: Config, s: State, p: Party, k: Packet)
    requires SameKeys(c) && Inv(c, s) && s.Of(p).phase.Probing?
    requires k in s.wire && c.owner(k.dst) == Some(p) && Reads(c, p, k, Ack)
    ensures Rooted(c, s, k)
  {
    hide Opened, Answers, Rooted;
    SameKeysOpenAlike(c, p, k.sender, k);
    assert PacketOk(c, s, k);
    if Answers(c, s, k) {
      AnsweringIsRooted(c, s, k);
    } else {
      assert SettledOk(c, s, k.sender);
      var k2 :| k2 in s.Of(k.sender).received && Reads(c, k.sender, k2, Ack) && k2.src == k.dst;
      assert PacketOk(c, s, k2) && k2.sender == p;
      SameKeysOpenAlike(c, k.sender, p, k2);
      assert Follows(c, s, k, k2);
      FollowingIsRooted(c, s, k, k2);
    }
  }

  lemma AnsweringIsRooted(c: Config, s: State, k: Packet)
    requires Answers(c, s, k)
    ensures Rooted(c, s, k)
  {
  }

  lemma FollowingIsRooted(c: Config, s: State, k: Packet, k2: Packet)
    requires Follows(c, s, k, k2) && Answers(c, s, k2)
    ensures Rooted(c, s, k)
  {
  }

  lemma SettledStep(c: Config, s: State, e: Event, p: Party)
    requires SameKeys(c) && Inv(c, s) && Enabled(c, s, e)
    ensures SettledOk(c, Apply(c, s, e), p)
  {
    hide Decode, Encode, Rooted, PacketOk;
    var s' := Apply(c, s, e);
    ApplyGrows(c, s, e);
    if Settled(s.Of(p).phase) {
      assert SettledOk(c, s, p);
      var k :| k in s.Of(p).received && Reads(c, p, k, Ack) && k.src == s.Of(p).phase.peer && Rooted(c, s, k);
      RootedGrows(c, s, s', k);
    } else if Settled(s'.Of(p).phase) {
      ArrivingAckIsRooted(c, s, p, e.packet);
      RootedGrows(c, s, s', e.packet);
    }
  }

  lemma InvStep(c: Config, s: State, e: Event)
    requires WellFormed(c) && SameKeys(c) && Inv(c, s) && Enabled(c, s, e)
    ensures Inv(c, Apply(c, s, e))
  {
    hide PacketOk, SettledOk, Apply, Enabled, WellFormed, SameKeys;
    var s' := Apply(c, s, e);
    forall k | k in s'.wire
      ensures PacketOk(c, s', k)
    {
      WireStep(c, s, e, k);
    }
    forall p: Party, k | k in s'.Of(p).received
      ensures k in s'.wire && c.owner(k.dst) == Some(p)
    {
      ReceivedStep(c, s, e, p, k);
    }
    forall p: Party
      ensures SettledOk(c, s', p)
    {
      SettledStep(c, s, e, p);
    }
  }

  lemma CrossingStep(c: Config, s: State, e: Event)
    requires NoSelfTarget(c) && Inv(c, s) && Crossing(c, s) && Enabled(c, s, e)
    ensures Crossing(c, Apply(c, s, e))
  {
    hide Decode, Encode, PacketOk, Rooted;
    match e {
      case SendHello(p, target, draw) =>
        assert Crosses(c, Sealed(c, p, Hello, target, draw));
      case Receive(p, packet, reply) =>
        assert Crosses(c, packet);
      case SendTrailingAck(p, draw) =>
        assert SettledOk(c, s, p);
        var k :| k in s.Of(p).received && k.src == s.Of(p).phase.peer;
        assert Crosses(c, k);
      case _ =>
    }
  }

  lemma CrossingIsSound(c: Config, s: State, p: Party)
    requires SameKeys(c) && Inv(c, s) && Crossing(c, s)
    ensures ConfirmationSound(c, s, p)
  {
    hide Opened, Rooted;
    if Settled(s.Of(p).phase) {
      assert SettledOk(c, s, p);
      var a :| a in s.Of(p).received && Reads(c, p, a, Ack) && a.src == s.Of(p).phase.peer;
      SameKeysOpenAlike(c, p, a.sender, a);
      assert PacketOk(c, s, a) && Crosses(c, a) && a.sender == Other(p);
      // The other side acknowledged because something reached it, and only `p` sends to it.
      assert SettledOk(c, s, Other(p));
      var k :| k in s.Of(Other(p)).received;
      assert k in s.wire && Crosses(c, k);
    }
  }

  lemma {:induction false} RunKeepsInv(c: Config, s: State, events: seq<Event>)
    requires WellFormed(c) && SameKeys(c) && Inv(c, s) && IsRun(c, s, events)
    ensures Inv(c, Final(c, s, events))
    ensures NoSelfTarget(c) && Crossing(c, s) ==> Crossing(c, Final(c, s, events))
    decreases |events|
  {
    hide Apply, Enabled, Inv, Crossing, NoSelfTarget, WellFormed, SameKeys;
    if events != [] {
      InvStep(c, s, events[0]);
      if NoSelfTarget(c) && Crossing(c, s) {
        CrossingStep(c, s, events[0]);
      }
      RunKeepsInv(c, Apply(c, s, events[0]), events[1..]);
    }
  }

  lemma InitialInv(c: Config)
    ensures Inv(c, Initial(c)) && Crossing(c, Initial(c))
  {
  }

  // ----- Theorems over whole runs

  /** In every run, whatever the candidates, each Ack on the wire answers a Hello delivered to
      its sender from where the Ack goes; or it follows an Ack `k` from there, and `k` answers a
      Hello delivered to `k`'s sender, or follows an Ack of `a`'s own sender that does. */
  lemma EveryAckTracesToHello(c: Config, events: seq<Event>, a: Packet)
    requires WellFormed(c) && SameKeys(c) && IsRun(c, Initial(c), events)
    requires a in Final(c, Initial(c), events).wire && Reads(c, a.sender, a, Ack)
    ensures AckTraced(c, Final(c, Initial(c), events), a)
  {
    hide Opened, Answers, Rooted;
    InitialInv(c);
    RunKeepsInv(c, Initial(c), events);
    var s := Final(c, Initial(c), events);
    assert PacketOk(c, s, a);
    if !Answers(c, s, a) {
      assert SettledOk(c, s, a.sender);
      var k :| k in s.Of(a.sender).received && Reads(c, a.sender, k, Ack) && k.src == a.dst && Rooted(c, s, k);
      assert Follows(c, s, a, k);
    }
  }

  /** In particular a Hello was delivered to the sender of each Ack, or the sender holds an Ack
      from its destination that answers a Hello delivered on the other side. */
  lemma EveryAckHasItsHello(c: Config, events: seq<Event>, a: Packet)
    requires WellFormed(c) && SameKeys(c) && IsRun(c, Initial(c), events)
    requires a in Final(c, Initial(c), events).wire && Reads(c, a.sender, a, Ack)
    ensures var s := Final(c, Initial(c), events);
            || (exists src :: GotFrom(c, s, a.sender, Hello, src))
            || (exists k :: Follows(c, s, a, k) && Answers(c, s, k))
  {
    hide Opened, Answers, GotFrom;
    InitialInv(c);
    RunKeepsInv(c, Initial(c), events);
    EveryAckTracesToHello(c, events, a);
    var s := Final(c, Initial(c), events);
    if Answers(c, s, a) {
      AnswerIsHello(c, s, a);
    } else {
      var k :| Follows(c, s, a, k) && Rooted(c, s, k);
      if !Answers(c, s, k) {
        var k2 :| Follows(c, s, k, k2) && Answers(c, s, k2);
        assert PacketOk(c, s, k2) && k2.sender == a.sender;
        AnswerIsHello(c, s, k2);
      }
    }
  }

  lemma AnswerIsHello(c: Config, s: State, k: Packet)
    requires Answers(c, s, k)
    ensures GotFrom(c, s, k.sender, Hello, k.dst)
  {
  }

  /** The returned address belongs to the other side, an Ack came from it, and a packet of ours
      was delivered there. */
  lemma ConfirmedMeansBothWays(c: Config, events: seq<Event>, p: Party)
    requires WellFormed(c) && SameKeys(c) && NoSelfTarget(c) && IsRun(c, Initial(c), events)
    ensures ConfirmationSound(c, Final(c, Initial(c), events), p)
  {
    hide Inv, Crossing;
    InitialInv(c);
    RunKeepsInv(c, Initial(c), events);
    CrossingIsSound(c, Final(c, Initial(c), events), p);
  }

  ghost predicate AlwaysSound(c: Config) {
    forall events, p :: IsRun(c, Initial(c), events) ==> ConfirmationSound(c, Final(c, Initial(c), events), p)
  }

  /** A peer whose usable candidates include an address of its own confirms itself, alone. */
  lemma SelfTargetMisleads(c: Config, p: Party, t: SocketAddr) returns (events: seq<Event>)
    requires WellFormed(c) && t in Targets(c, p) && c.owner(t) == Some(p)
    ensures IsRun(c, Initial(c), events)
    ensures Final(c, Initial(c), events).Of(p).phase == Confirmed(t, TRAILING_ACKS)
    ensures Final(c, Initial(c), events).Of(Other(p)).received == {}
  {
    hide Decode, Encode;
    var d := Draw(ZeroSalt(), [], t);
    var hello, ack := Sealed(c, p, Hello, t, d), Sealed(c, p, Ack, t, d);
    SealedOpens(c, p, Hello, t, d);
    SealedOpens(c, p, Ack, t, d);
    var s: State;
    s, events := Extend(c, [], SendHello(p, t, d));
    s, events := Extend(c, events, Receive(p, hello, d));
    s, events := Extend(c, events, Receive(p, ack, d));
  }

  /** One more event at the end of a run. */
  lemma {:induction false} RunExtends(c: Config, s: State, events: seq<Event>, e: Event)
    requires IsRun(c, s, events) && Enabled(c, Final(c, s, events), e)
    ensures IsRun(c, s, events + [e])
    ensures Final(c, s, events + [e]) == Apply(c, Final(c, s, events), e)
    decreases |events|
  {
    hide Decode, Encode;
    if events == [] {
      assert (events + [e])[1..] == [];
      assert IsRun(c, Apply(c, s, e), []);
    } else {
      RunExtends(c, Apply(c, s, events[0]), events[1..], e);
      assert (events + [e])[1..] == events[1..] + [e];
    }
  }

  lemma Extend(c: Config, events: seq<Event>, e: Event) returns (s: State, events': seq<Event>)
    requires IsRun(c, Initial(c), events) && Enabled(c, Final(c, Initial(c), events), e)
    ensures IsRun(c, Initial(c), events') && s == Final(c, Initial(c), events')
    ensures s == Apply(c, Final(c, Initial(c), events), e)
  {
    hide Decode, Encode;
    RunExtends(c, Initial(c), events, e);
    s, events' := Final(c, Initial(c), events + [e]), events + [e];
  }

  /** The side with a usable candidate confirms first. */
  lemma OneSideConfirms(c: Config, p: Party, t: SocketAddr, mine: SocketAddr) returns (s: State, events: seq<Event>)
    requires WellFormed(c) && SameKeys(c) && t in Targets(c, p) && Targets(c, Other(p)) != []
    requires c.owner(t) == Some(Other(p)) && c.owner(mine) == Some(p)
    ensures IsRun(c, Initial(c), events) && s == Final(c, Initial(c), events)
    ensures s.Of(p).phase == Confirmed(t, TRAILING_ACKS) && s.Of(Other(p)).phase == Probing
  {
    hide Decode, Encode;
    var here, there := Draw(ZeroSalt(), [], mine), Draw(ZeroSalt(), [], t);
    var hello, ack := Sealed(c, p, Hello, t, here), Sealed(c, Other(p), Ack, mine, there);
    SealedOpens(c, p, Hello, t, here);
    SealedOpens(c, Other(p), Ack, mine, there);
    SameKeysOpenAlike(c, p, Other(p), hello);
    SameKeysOpenAlike(c, p, Other(p), ack);
    s, events := Extend(c, [], SendHello(p, t, here));
    s, events := Extend(c, events, Receive(Other(p), hello, there));
    s, events := Extend(c, events, Receive(p, ack, here));
  }

  function ZeroSalt(): seq<byte> {
    [0, 0, 0, 0, 0, 0, 0, 0]
  }

  /** One usable candidate on one side is enough for both sides to confirm. */
  lemma OneGoodCandidateSuffices(c: Config, p: Party, t: SocketAddr, mine: SocketAddr) returns (events: seq<Event>)
    requires WellFormed(c) && SameKeys(c) && t in Targets(c, p) && Targets(c, Other(p)) != []
    requires c.owner(t) == Some(Other(p)) && c.owner(mine) == Some(p)
    ensures IsRun(c, Initial(c), events)
    ensures Final(c, Initial(c), events).Of(p).phase == Confirmed(t, TRAILING_ACKS - 1)
    ensures Final(c, Initial(c), events).Of(Other(p)).phase == Confirmed(mine, TRAILING_ACKS)
  {
    hide Decode, Encode;
    var here, there := Draw(ZeroSalt(), [], mine), Draw(ZeroSalt(), [], t);
    var last := Sealed(c, p, Ack, t, here);
    SealedOpens(c, p, Ack, t, here);
    SameKeysOpenAlike(c, p, Other(p), last);
    var s: State;
    s, events := OneSideConfirms(c, p, t, mine);
    s, events := Extend(c, events, SendTrailingAck(p, here));
    s, events := Extend(c, events, Receive(Other(p), last, there));
  }

  // ----- Five trailing Acks

  function TrailingAcks(events: seq<Event>, p: Party): nat {
    if events == [] then 0
    else (if events[0].SendTrailingAck? && events[0].p == p then 1 else 0) + TrailingAcks(events[1..], p)
  }

  /** How many of them a peer has yet to send. */
  function AcksDue(phase: Phase): nat {
    match phase
    case Confirmed(_, acksLeft) => acksLeft
    case Done(_) => 0
    case _ => 5
  }

  lemma {:induction false} AcksCounted(c: Config, s: State, events: seq<Event>, p: Party)
    requires IsRun(c, s, events)
    ensures TrailingAcks(events, p) + AcksDue(Final(c, s, events).Of(p).phase) == AcksDue(s.Of(p).phase)
    decreases |events|
  {
    hide Decode, Encode;
    if events != [] {
      AcksCounted(c, Apply(c, s, events[0]), events[1..], p);
    }
  }

  /** In every run a side that returned has sent exactly five trailing Acks, one that still sends
      them the rest of five, and one that has confirmed nothing none. */
  lemma FiveTrailingAcks(c: Config, events: seq<Event>, p: Party)
    requires IsRun(c, Initial(c), events)
    ensures TrailingAcks(events, p) == 5 - AcksDue(Final(c, Initial(c), events).Of(p).phase)
  {
    AcksCounted(c, Initial(c), events, p);
  }

  // ----- After one side has returned

  /** A peer that has sent a trailing Ack, and a peer that is done has, left one on the wire. */
  ghost predicate AckLeft(c: Config, s: State, p: Party) {
    var phase := s.Of(p).phase;
    (phase.Done? || (phase.Confirmed? && phase.acksLeft < TRAILING_ACKS)) ==>
      exists k :: k in s.wire && k.sender == p && k.dst == phase.peer && Reads(c, p, k, Ack)
  }

  lemma AckLeftStep(c: Config, s: State, e: Event, p: Party)
    requires WellFormed(c) && Enabled(c, s, e) && AckLeft(c, s, p)
    ensures AckLeft(c, Apply(c, s, e), p)
  {
    hide Decode, Encode;
    ApplyGrows(c, s, e);
    if e.SendTrailingAck? && e.p == p {
      SealedOpens(c, p, Ack, s.Of(p).phase.peer, e.draw);
      assert Sealed(c, p, Ack, s.Of(p).phase.peer, e.draw) in Apply(c, s, e).wire;
    }
  }

  lemma {:induction false} RunKeepsAckLeft(c: Config, s: State, events: seq<Event>, p: Party)
    requires WellFormed(c) && IsRun(c, s, events) && AckLeft(c, s, p)
    ensures AckLeft(c, Final(c, s, events), p)
    decreases |events|
  {
    hide Apply, Enabled, AckLeft, WellFormed;
    if events != [] {
      AckLeftStep(c, s, events[0], p);
      RunKeepsAckLeft(c, Apply(c, s, events[0]), events[1..], p);
    }
  }

  /** In every run: while one side has returned and the other is still probing, a packet on the
      wire lets the other side confirm, at an address of the first. */
  lemma ReturnedSideCanBeConfirmed(c: Config, events: seq<Event>, p: Party) returns (e: Event)
    requires WellFormed(c) && SameKeys(c) && NoSelfTarget(c) && IsRun(c, Initial(c), events)
    requires Final(c, Initial(c), events).Of(p).phase.Done?
    requires Final(c, Initial(c), events).Of(Other(p)).phase.Probing?
    ensures var s := Final(c, Initial(c), events);
            && e.Receive? && e.p == Other(p) && Enabled(c, s, e)
            && c.owner(e.packet.src) == Some(p)
            && Apply(c, s, e).Of(Other(p)).phase == Confirmed(e.packet.src, TRAILING_ACKS)
  {
    hide Decode, Encode, IsRun, NoSelfTarget;
    var s := Final(c, Initial(c), events);
    ConfirmedMeansBothWays(c, events, p);
    InitialInv(c);
    RunKeepsInv(c, Initial(c), events);
    RunKeepsAckLeft(c, Initial(c), events, p);
    assert AckLeft(c, s, p);
    var k :| k in s.wire && k.sender == p && k.dst == s.Of(p).phase.peer && Reads(c, p, k, Ack);
    assert PacketOk(c, s, k);
    SameKeysOpenAlike(c, p, Other(p), k);
    e := Receive(Other(p), k, Draw(ZeroSalt(), [], k.dst));
  }

  ghost predicate CanStillConfirm(c: Config, s: State, p: Party) {
    exists more :: IsRun(c, s, more) && Settled(Final(c, s, more).Of(p).phase)
  }

  lemma {:induction false} TimedOutStays(c: Config, s: State, events: seq<Event>, p: Party)
    requires IsRun(c, s, events) && s.Of(p).phase.TimedOut?
    ensures Final(c, s, events).Of(p).phase.TimedOut?
    decreases |events|
  {
    hide Decode, Encode;
    if events != [] {
      TimedOutStays(c, Apply(c, s, events[0]), events[1..], p);
    }
  }

  /** A side without a usable candidate times out at once and sends nothing. */
  lemma {:induction false} NoCandidateNoPacket(c: Config, s: State, events: seq<Event>, p: Party)
    requires IsRun(c, s, events) && s.Of(p).phase.TimedOut? && forall k :: k in s.wire ==> k.sender != p
    ensures forall k :: k in Final(c, s, events).wire ==> k.sender != p
    decreases |events|
  {
    hide Decode, Encode;
    if events != [] {
      NoCandidateNoPacket(c, Apply(c, s, events[0]), events[1..], p);
    }
  }

  lemma UselessCandidates(c: Config, events: seq<Event>, p: Party)
    requires IsRun(c, Initial(c), events) && Targets(c, p) == []
    ensures var s := Final(c, Initial(c), events);
            s.Of(p).phase.TimedOut? && forall k :: k in s.wire ==> k.sender != p
  {
    TimedOutStays(c, Initial(c), events, p);
    NoCandidateNoPacket(c, Initial(c), events, p);
  }

  /** A side that returns never leaves the other unable to confirm: after it has returned, in
      whatever run, the other side can still confirm exactly if its deadline has not passed. */
  lemma OtherCanStillConfirmIff(c: Config, events: seq<Event>, p: Party)
    requires WellFormed(c) && SameKeys(c) && NoSelfTarget(c) && IsRun(c, Initial(c), events)
    requires Final(c, Initial(c), events).Of(p).phase.Done?
    ensures var s := Final(c, Initial(c), events);
            CanStillConfirm(c, s, Other(p)) <==> !s.Of(Other(p)).phase.TimedOut?
  {
    hide Apply, Enabled, NoSelfTarget, Initial;
    var s := Final(c, Initial(c), events);
    match s.Of(Other(p)).phase {
      case Probing =>
        var e := ReturnedSideCanBeConfirmed(c, events, p);
        OneStepRun(c, s, e);
      case TimedOut =>
        forall more | IsRun(c, s, more)
          ensures !Settled(Final(c, s, more).Of(Other(p)).phase)
        {
          TimedOutStays(c, s, more, Other(p));
        }
      case _ =>
        assert IsRun(c, s, []) && Final(c, s, []) == s;
    }
  }

  lemma OneStepRun(c: Config, s: State, e: Event)
    requires Enabled(c, s, e)
    ensures IsRun(c, s, [e]) && Final(c, s, [e]) == Apply(c, s, e)
  {
    hide Decode, Encode;
    assert [e][1..] == [];
    assert IsRun(c, Apply(c, s, e), []);
  }

  /** And the deadline can pass: if none of the trailing Acks arrives in time, one side returns
      an address and the other times out. */
  lemma LostAcksStrand(c: Config, p: Party, t: SocketAddr, mine: SocketAddr) returns (events: seq<Event>)
    requires WellFormed(c) && SameKeys(c) && t in Targets(c, p) && Targets(c, Other(p)) != []
    requires c.owner(t) == Some(Other(p)) && c.owner(mine) == Some(p)
    ensures IsRun(c, Initial(c), events)
    ensures Final(c, Initial(c), events).Of(p).phase == Done(t)
    ensures Final(c, Initial(c), events).Of(Other(p)).phase == TimedOut
  {
    hide Decode, Encode, IsRun, Final;
    var here := Draw(ZeroSalt(), [], mine);
    var s: State;
    s, events := OneSideConfirms(c, p, t, mine);
    for left := TRAILING_ACKS downto 0
      invariant IsRun(c, Initial(c), events) && s == Final(c, Initial(c), events)
      invariant s.Of(p).phase == Confirmed(t, left) && s.Of(Other(p)).phase == Probing
    {
      s, events := Extend(c, events, SendTrailingAck(p, here));
    }
    s, events := Extend(c, events, Finish(p));
    s, events := Extend(c, events, GiveUp(Other(p)));
  }

  /** The punch is sound in every run exactly when no peer is handed a candidate of its own. */
  lemma SoundIffNoSelfTarget(c: Config)
    requires WellFormed(c) && SameKeys(c)
    ensures AlwaysSound(c) <==> NoSelfTarget(c)
  {
    hide Decode, Encode;
    if NoSelfTarget(c) {
      forall events, p | IsRun(c, Initial(c), events)
        ensures ConfirmationSound(c, Final(c, Initial(c), events), p)
      {
        ConfirmedMeansBothWays(c, events, p);
      }
    } else {
      var p: Party, t :| t in Targets(c, p) && c.owner(t) == Some(p);
      var events := SelfTargetMisleads(c, p, t);
      assert !ConfirmationSound(c, Final(c, Initial(c), events), p);
    }
  }

  // ----- Sides with different nonces

  /** Senders can read their own packets, and nobody has confirmed. */
  ghost predicate Deaf(c: Config, s: State) {
    && (forall k :: k in s.wire ==> Opened(c, k.sender, k).Ok?)
    && !Settled(s.client.phase)
    && !Settled(s.server.phase)
  }

  lemma OtherNonceIsRefused(c: Config, p: Party, k: Packet)
    requires WellFormed(c) && c.obfs(Client) == c.obfs(Server) && c.nonce(Client) != c.nonce(Server)
    requires k.sender == Other(p) && Opened(c, k.sender, k).Ok?
    ensures Opened(c, p, k) == Err(NonceMismatch)
  {
    hide Decode;
    NoncesSeparate(c.mask, k.bytes, c.nonce(Other(p)), c.nonce(p), c.obfs(p));
  }

  lemma DeafStep(c: Config, s: State, e: Event)
    requires WellFormed(c) && c.obfs(Client) == c.obfs(Server) && c.nonce(Client) != c.nonce(Server)
    requires NoSelfTarget(c) && Deaf(c, s) && Crossing(c, s) && Enabled(c, s, e)
    ensures Deaf(c, Apply(c, s, e)) && Crossing(c, Apply(c, s, e))
  {
    hide Decode, Encode;
    match e {
      case SendHello(p, target, draw) =>
        SealedOpens(c, p, Hello, target, draw);
        assert Crosses(c, Sealed(c, p, Hello, target, draw));
      case Receive(p, packet, reply) =>
        assert Crosses(c, packet);
        OtherNonceIsRefused(c, p, packet);
      case _ =>
    }
  }

  lemma {:induction false} StaysDeaf(c: Config, s: State, events: seq<Event>)
    requires WellFormed(c) && c.obfs(Client) == c.obfs(Server) && c.nonce(Client) != c.nonce(Server)
    requires NoSelfTarget(c) && Deaf(c, s) && Crossing(c, s) && IsRun(c, s, events)
    ensures Deaf(c, Final(c, s, events))
    decreases |events|
  {
    hide Apply, Enabled, Deaf, Crossing, NoSelfTarget, WellFormed;
    if events != [] {
      DeafStep(c, s, events[0]);
      StaysDeaf(c, Apply(c, s, events[0]), events[1..]);
    }
  }

  ghost predicate CanConfirm(c: Config, p: Party) {
    exists events :: IsRun(c, Initial(c), events) && Settled(Final(c, Initial(c), events).Of(p).phase)
  }

  /** Two sides that share the key, with a working candidate and none of their own, can confirm
      if and only if they hold the same nonce. */
  lemma CanConfirmIffSameNonce(c: Config, p: Party, t: SocketAddr, mine: SocketAddr)
    requires WellFormed(c) && NoSelfTarget(c) && c.obfs(Client) == c.obfs(Server)
    requires t in Targets(c, p) && Targets(c, Other(p)) != []
    requires c.owner(t) == Some(Other(p)) && c.owner(mine) == Some(p)
    ensures CanConfirm(c, p) <==> c.nonce(Client) == c.nonce(Server)
  {
    hide Apply, Enabled, NoSelfTarget, Targets;
    if c.nonce(Client) == c.nonce(Server) {
      var events := OneGoodCandidateSuffices(c, p, t, mine);
    } else {
      forall events | IsRun(c, Initial(c), events)
        ensures !Settled(Final(c, Initial(c), events).Of(p).phase)
      {
        InitialDeaf(c);
        StaysDeaf(c, Initial(c), events);
      }
    }
  }

  lemma InitialDeaf(c: Config)
    ensures Deaf(c, Initial(c)) && Crossing(c, Initial(c))
  {
  }
}
