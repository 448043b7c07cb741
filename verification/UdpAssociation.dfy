/** One UDP association of the server: replay window, reply counter and keep-alive flag. */
module UdpAssociation {
  import opened Bytes
  import opened Net
  import opened PacketWindow

  /** What an AEAD-2022 packet carries beside its payload. */
  datatype ControlData = ControlData(clientSessionId: u64, packetId: u64, user: Option<nat>)

  datatype Session = Session(clientSessionId: u64, window: Window, user: Option<nat>)

  datatype Assoc = Assoc(
    peerAddr: SocketAddr,
    keepaliveFlag: bool,
    session: Option<Session>,
    serverSessionId: u64,
    serverPacketId: u64
  )

  datatype NatKey = PeerAddr(addr: SocketAddr) | SessionId(id: u64)

  /** A reply to the client: plain, or with session control data. */
  datatype Reply = Plain(to: SocketAddr) | InSession(to: SocketAddr, clientSessionId: u64, serverSessionId: u64,
                                                     packetId: u64, user: Option<nat>)

  function NewSession(id: u64): Session {
    Session(id, Fresh(), None)
  }

  function Create(peer: SocketAddr, clientSessionId: Option<u64>, serverSessionId: u64): Assoc {
    Assoc(peer, false, (match clientSessionId case None => None case Some(id) => Some(NewSession(id))),
          serverSessionId, 0)
  }

  predicate Shaped(a: Assoc) {
    a.session.Some? ==> a.session.value.window.Shaped()
  }

  /** A packet from the client: the new state, and whether the packet goes on to its target. */
  function OnPacket(a: Assoc, peer: SocketAddr, blocked: bool, control: Option<ControlData>): (r: (Assoc, bool))
    requires Shaped(a)
    ensures Shaped(r.0)
  {
    var a := if a.session.Some? then a.(peerAddr := peer) else a;
    if blocked then (a, false)
    else
      match control
      case None => (a, true)
      case Some(c) =>
        var session := if a.session.Some? then a.session.value else NewSession(c.clientSessionId);
        var (window, ok) := Validate(session.window, c.packetId, U64_MAX);
        (a.(session := Some(Session(session.clientSessionId, window, if ok then c.user else session.user))), ok)
  }

  /** A datagram from a target: the new state, and the reply, unless the counter is used up. */
  function OnReply(a: Assoc): (Assoc, Option<Reply>) {
    var a := a.(keepaliveFlag := true);
    match a.session
    case None => (a, Some(Plain(a.peerAddr)))
    case Some(s) =>
      if a.serverPacketId == U64_MAX then (a, None)
      else
        var a := a.(serverPacketId := a.serverPacketId + 1);
        (a, Some(InSession(a.peerAddr, s.clientSessionId, a.serverSessionId, a.serverPacketId, s.user)))
  }

  function KeyOf(a: Assoc): NatKey {
    match a.session
    case None => PeerAddr(a.peerAddr)
    case Some(s) => SessionId(s.clientSessionId)
  }

  /** The keep-alive tick: the key offered to the channel, if the flag is set. */
  function OnTick(a: Assoc, accepted: bool): (Assoc, Option<NatKey>) {
    if a.keepaliveFlag && accepted then (a.(keepaliveFlag := false), Some(KeyOf(a))) else (a, None)
  }

  // ----- The life of one association

  datatype Event =
    | Packet(peer: SocketAddr, blocked: bool, control: Option<ControlData>)
    | Respond
    | Tick(accepted: bool)

  /** The association with what it did so far: the packets handed to their targets and the ids of
      those that have one, the replies sent, the keys put into the keep-alive channel. */
  datatype Life = Life(a: Assoc, forwarded: seq<Event>, dispatched: seq<u64>, replies: seq<Reply>, keys: seq<NatKey>)

  function Start(peer: SocketAddr, clientSessionId: Option<u64>, serverSessionId: u64): Life {
    Life(Create(peer, clientSessionId, serverSessionId), [], [], [], [])
  }

  function Live(l: Life, e: Event): (r: Life)
    requires Shaped(l.a)
    ensures Shaped(r.a)
  {
    match e
    case Packet(peer, blocked, control) =>
      var (a, sent) := OnPacket(l.a, peer, blocked, control);
      var dispatched := if sent && control.Some? then l.dispatched + [control.value.packetId] else l.dispatched;
      Life(a, if sent then l.forwarded + [e] else l.forwarded, dispatched, l.replies, l.keys)
    case Respond =>
      var (a, reply) := OnReply(l.a);
      l.(a := a, replies := if reply.Some? then l.replies + [reply.value] else l.replies)
    case Tick(accepted) =>
      var (a, key) := OnTick(l.a, accepted);
      l.(a := a, keys := if key.Some? then l.keys + [key.value] else l.keys)
  }

  function LiveAll(l: Life, events: seq<Event>): (r: Life)
    requires Shaped(l.a)
    ensures Shaped(r.a)
    decreases |events|
  {
    if events == [] then l else LiveAll(Live(l, events[0]), events[1..])
  }

  ghost predicate Distinct(s: seq<u64>) {
    forall i, j :: 0 <= i < j < |s| ==> s[i] != s[j]
  }

  ghost function Ids(s: seq<u64>): set<u64> {
    set i | 0 <= i < |s| :: s[i]
  }

  /** The packet ids of the session replies, in order. */
  function ReplyIds(replies: seq<Reply>): seq<u64> {
    if replies == [] then []
    else
      var last := replies[|replies| - 1];
      ReplyIds(replies[..|replies| - 1]) + if last.InSession? then [last.packetId] else []
  }

  /** What an association keeps: the window stands for the dispatched ids, none of which is
      repeated; session replies are numbered 1, 2, 3, .. without gap; and all of them name the
      same two sessions. */
  ghost predicate Inv(l: Life) {
    && Distinct(l.dispatched)
    && (l.a.session.None? ==> l.dispatched == [])
    && (l.a.session.Some? ==> Represents(l.a.session.value.window, Ids(l.dispatched)))
    && (forall i :: 0 <= i < |ReplyIds(l.replies)| ==> ReplyIds(l.replies)[i] == i + 1)
    && |ReplyIds(l.replies)| == l.a.serverPacketId
    && (forall i :: 0 <= i < |l.replies| && l.replies[i].InSession? ==>
          && l.a.session.Some?
          && l.replies[i].clientSessionId == l.a.session.value.clientSessionId
          && l.replies[i].serverSessionId == l.a.serverSessionId)
  }

  lemma StartInv(peer: SocketAddr, clientSessionId: Option<u64>, serverSessionId: u64)
    ensures Inv(Start(peer, clientSessionId, serverSessionId))
  {
  }

  lemma IdsSnoc(s: seq<u64>, x: u64)
    ensures Ids(s + [x]) == Ids(s) + {x}
  {
    assert forall i :: 0 <= i < |s| ==> (s + [x])[i] == s[i];
    assert (s + [x])[|s|] == x;
    forall y | y in Ids(s)
      ensures y in Ids(s + [x])
    {
      var i :| 0 <= i < |s| && s[i] == y;
      assert (s + [x])[i] == y;
    }
  }

  lemma DistinctSnoc(s: seq<u64>, x: u64)
    requires Distinct(s) && x !in Ids(s)
    ensures Distinct(s + [x])
  {
  }

  lemma PacketKeepsInv(l: Life, peer: SocketAddr, blocked: bool, control: Option<ControlData>)
    requires Inv(l) && Shaped(l.a)
    ensures Inv(Live(l, Packet(peer, blocked, control)))
  {
    hide Represents, Validate;
    if !blocked && control.Some? {
      var c := control.value;
      var session := if l.a.session.Some? then l.a.session.value else NewSession(c.clientSessionId);
      var seen := Ids(l.dispatched);
      if l.a.session.None? {
        FreshRepresents();
        assert seen == {};
      }
      assert Represents(session.window, seen);
      ValidateRefines(session.window, seen, c.packetId, U64_MAX);
      if Validate(session.window, c.packetId, U64_MAX).1 {
        IdsSnoc(l.dispatched, c.packetId);
        DistinctSnoc(l.dispatched, c.packetId);
      }
    }
  }

  lemma {:induction false} ReplyIdsSnoc(replies: seq<Reply>, r: Reply)
    ensures ReplyIds(replies + [r]) == ReplyIds(replies) + if r.InSession? then [r.packetId] else []
  {
    assert (replies + [r])[..|replies|] == replies;
  }

  lemma RespondKeepsInv(l: Life)
    requires Inv(l) && Shaped(l.a)
    ensures Inv(Live(l, Respond))
  {
    hide Represents, Distinct, Ids, ReplyIds;
    var l' := Live(l, Respond);
    var reply := OnReply(l.a).1;
    if reply.Some? {
      ReplyIdsSnoc(l.replies, reply.value);
      assert l'.replies == l.replies + [reply.value];
    }
  }

  lemma LiveKeepsInv(l: Life, e: Event)
    requires Inv(l) && Shaped(l.a)
    ensures Inv(Live(l, e))
  {
    match e {
      case Packet(peer, blocked, control) => PacketKeepsInv(l, peer, blocked, control);
      case Respond => RespondKeepsInv(l);
      case Tick(_) =>
    }
  }

  lemma {:induction false} LiveAllKeepsInv(l: Life, events: seq<Event>)
    requires Inv(l) && Shaped(l.a)
    ensures Inv(LiveAll(l, events))
    decreases |events|
  {
    hide Inv;
    if events != [] {
      LiveKeepsInv(l, events[0]);
      LiveAllKeepsInv(Live(l, events[0]), events[1..]);
    }
  }

  /** Under any interleaving of packets, replies and ticks no packet id is dispatched twice. */
  lemma NoIdDispatchedTwice(peer: SocketAddr, clientSessionId: Option<u64>, serverSessionId: u64,
                            events: seq<Event>, i: nat, j: nat)
    requires i < j < |LiveAll(Start(peer, clientSessionId, serverSessionId), events).dispatched|
    ensures var l := LiveAll(Start(peer, clientSessionId, serverSessionId), events);
            l.dispatched[i] != l.dispatched[j]
  {
    StartInv(peer, clientSessionId, serverSessionId);
    LiveAllKeepsInv(Start(peer, clientSessionId, serverSessionId), events);
  }

  /** A packet that is not blocked is dispatched exactly when its id is fresh, at most 8128
      behind the largest dispatched id, and not the largest number there is. */
  lemma DispatchedIffAdmitted(peer: SocketAddr, clientSessionId: Option<u64>, serverSessionId: u64,
                              events: seq<Event>, from: SocketAddr, c: ControlData, largest: u64)
    requires var l := LiveAll(Start(peer, clientSessionId, serverSessionId), events);
             IsLargest(Ids(l.dispatched), largest)
    ensures var l := LiveAll(Start(peer, clientSessionId, serverSessionId), events);
            OnPacket(l.a, from, false, Some(c)).1
            <==> c.packetId < U64_MAX && largest - c.packetId <= WINDOW_SIZE && c.packetId !in Ids(l.dispatched)
  {
    hide Represents, Validate;
    var l := LiveAll(Start(peer, clientSessionId, serverSessionId), events);
    StartInv(peer, clientSessionId, serverSessionId);
    LiveAllKeepsInv(Start(peer, clientSessionId, serverSessionId), events);
    var window := if l.a.session.Some? then l.a.session.value.window else Fresh();
    if l.a.session.None? {
      FreshRepresents();
      assert Ids([]) == {};
    }
    RepresentsLargest(window, Ids(l.dispatched), largest);
    ValidateRefines(window, Ids(l.dispatched), c.packetId, U64_MAX);
  }

  lemma RepresentsLargest(w: Window, s: set<u64>, m: u64)
    requires Represents(w, s) && IsLargest(s, m)
    ensures w.last == m
  {
  }

  /** The session replies are numbered 1, 2, 3, ..: strictly increasing, and never wrapping. */
  lemma RepliesCountFromOne(peer: SocketAddr, clientSessionId: Option<u64>, serverSessionId: u64,
                            events: seq<Event>, i: nat)
    requires i < |ReplyIds(LiveAll(Start(peer, clientSessionId, serverSessionId), events).replies)|
    ensures var ids := ReplyIds(LiveAll(Start(peer, clientSessionId, serverSessionId), events).replies);
            ids[i] == i + 1 <= U64_MAX
  {
    StartInv(peer, clientSessionId, serverSessionId);
    LiveAllKeepsInv(Start(peer, clientSessionId, serverSessionId), events);
  }

  // ----- Which packets go on to their targets

  function ControlIds(packets: seq<Event>): seq<u64> {
    if packets == [] then []
    else
      var last := packets[|packets| - 1];
      ControlIds(packets[..|packets| - 1])
      + if last.Packet? && last.control.Some? then [last.control.value.packetId] else []
  }

  /** Whether `e` goes on after the packets `before` went on: it is not blocked, and its id, if it
      has one, is fresh and at most 8128 behind the largest so far. */
  ghost predicate GoesOn(before: seq<Event>, e: Event) {
    && e.Packet? && !e.blocked
    && (e.control.Some? ==>
          var seen, id := Ids(ControlIds(before)), e.control.value.packetId;
          id < U64_MAX && id !in seen && forall q :: q in seen ==> q - id <= WINDOW_SIZE)
  }

  /** The packets that go on, in order. */
  ghost function GoingOn(events: seq<Event>): seq<Event> {
    if events == [] then []
    else
      var init, last := events[..|events| - 1], events[|events| - 1];
      GoingOn(init) + if GoesOn(GoingOn(init), last) then [last] else []
  }

  lemma {:induction false} ControlIdsSnoc(packets: seq<Event>, e: Event)
    ensures ControlIds(packets + [e])
         == ControlIds(packets) + if e.Packet? && e.control.Some? then [e.control.value.packetId] else []
  {
    assert (packets + [e])[..|packets|] == packets;
  }

  lemma IdOnceMore(l: Life, peer: SocketAddr, clientSessionId: Option<u64>, serverSessionId: u64,
                   events: seq<Event>, from: SocketAddr, c: ControlData)
    requires l == LiveAll(Start(peer, clientSessionId, serverSessionId), events)
    ensures OnPacket(l.a, from, false, Some(c)).1
       <==> c.packetId < U64_MAX && c.packetId !in Ids(l.dispatched)
            && forall q :: q in Ids(l.dispatched) ==> q - c.packetId <= WINDOW_SIZE
  {
    hide OnPacket, LiveAll;
    StartInv(peer, clientSessionId, serverSessionId);
    LiveAllKeepsInv(Start(peer, clientSessionId, serverSessionId), events);
    var largest := LargestDispatched(l);
    DispatchedIffAdmitted(peer, clientSessionId, serverSessionId, events, from, c, largest);
  }

  lemma LargestDispatched(l: Life) returns (largest: u64)
    requires Inv(l)
    ensures IsLargest(Ids(l.dispatched), largest)
  {
    if l.a.session.Some? {
      largest := l.a.session.value.window.last;
    } else {
      largest := 0;
      assert Ids([]) == {};
    }
  }

  /** In every life of every association the packets handed on are exactly those that are not
      blocked and whose id, if they carry one, is admitted after the ones handed on before. */
  lemma {:induction false} ForwardedExactly(peer: SocketAddr, clientSessionId: Option<u64>, serverSessionId: u64,
                                            events: seq<Event>)
    ensures var l := LiveAll(Start(peer, clientSessionId, serverSessionId), events);
            l.forwarded == GoingOn(events) && l.dispatched == ControlIds(l.forwarded)
  {
    hide Validate, OnPacket, Ids, ControlIds;
    var start := Start(peer, clientSessionId, serverSessionId);
    if events == [] {
      NoControlIds();
    } else {
      var init, e := events[..|events| - 1], events[|events| - 1];
      assert events == init + [e];
      ForwardedExactly(peer, clientSessionId, serverSessionId, init);
      LiveAllSnoc(start, init, e);
      var l := LiveAll(start, init);
      ControlIdsSnoc(l.forwarded, e);
      if e.Packet? {
        if e.blocked || e.control.None? {
          WithoutId(l.a, e.peer, e.blocked, e.control);
        } else {
          IdOnceMore(l, peer, clientSessionId, serverSessionId, init, e.peer, e.control.value);
        }
      }
    }
  }

  lemma NoControlIds()
    ensures ControlIds([]) == []
  {
  }

  lemma WithoutId(a: Assoc, peer: SocketAddr, blocked: bool, control: Option<ControlData>)
    requires Shaped(a) && (blocked || control.None?)
    ensures OnPacket(a, peer, blocked, control).1 == !blocked
  {
  }

  // ----- Where replies go, and when the map is told that the association is alive

  function LastPeer(peer: SocketAddr, events: seq<Event>): SocketAddr {
    if events == [] then peer
    else
      var last := events[|events| - 1];
      if last.Packet? then last.peer else LastPeer(peer, events[..|events| - 1])
  }

  /** Some reply since the last key that the channel took. */
  predicate Unreported(events: seq<Event>) {
    events != [] &&
    var last := events[|events| - 1];
    last.Respond? || (last != Tick(true) && Unreported(events[..|events| - 1]))
  }

  /** The packets that are not blocked, in order. */
  function Unblocked(events: seq<Event>): seq<Event> {
    if events == [] then []
    else
      var last := events[|events| - 1];
      Unblocked(events[..|events| - 1]) + if last.Packet? && !last.blocked then [last] else []
  }

  /** The number of datagrams that came back from targets. */
  function Responses(events: seq<Event>): nat {
    if events == [] then 0
    else Responses(events[..|events| - 1]) + if events[|events| - 1].Respond? then 1 else 0
  }

  /** The number of ticks taken by the channel while a reply was unreported. */
  function Reports(events: seq<Event>): nat {
    if events == [] then 0
    else
      var init := events[..|events| - 1];
      Reports(init) + if events[|events| - 1] == Tick(true) && Unreported(init) then 1 else 0
  }

  function Times<T>(n: nat, x: T): seq<T> {
    seq(n, _ => x)
  }

  lemma TimesSnoc<T>(n: nat, x: T)
    ensures Times(n, x) + [x] == Times(n + 1, x)
  {
  }

  lemma {:induction false} LiveAllSnoc(l: Life, events: seq<Event>, e: Event)
    requires Shaped(l.a)
    ensures LiveAll(l, events + [e]) == Live(LiveAll(l, events), e)
    decreases |events|
  {
    hide Live;
    if events == [] {
      assert (events + [e])[1..] == [];
    } else {
      LiveAllSnoc(Live(l, events[0]), events[1..], e);
      assert (events + [e])[1..] == events[1..] + [e];
    }
  }

  /** A session association answers to the address its latest packet came from, in the session
      it was created for; the keep-alive flag says that a reply is still unreported. */
  lemma {:induction false} SessionFollowsItsClient(peer: SocketAddr, id: u64, serverSessionId: u64, events: seq<Event>)
    ensures var a := LiveAll(Start(peer, Some(id), serverSessionId), events).a;
            && a.session.Some? && a.session.value.clientSessionId == id
            && a.serverSessionId == serverSessionId
            && a.peerAddr == LastPeer(peer, events)
            && a.keepaliveFlag == Unreported(events)
  {
    hide Validate;
    if events != [] {
      var init, last := events[..|events| - 1], events[|events| - 1];
      assert events == init + [last];
      SessionFollowsItsClient(peer, id, serverSessionId, init);
      LiveAllSnoc(Start(peer, Some(id), serverSessionId), init, last);
    }
  }

  /** The user of the latest packet with control data. */
  function LastUser(packets: seq<Event>): Option<nat> {
    if packets == [] then None
    else
      var last := packets[|packets| - 1];
      if last.Packet? && last.control.Some? then last.control.value.user else LastUser(packets[..|packets| - 1])
  }

  /** The replies of a session: one for every datagram that comes back, until the numbers run out;
      to the latest address of the client, for the user of the latest packet handed on. */
  ghost function SessionReplies(peer: SocketAddr, id: u64, serverSessionId: u64, events: seq<Event>): seq<Reply> {
    if events == [] then []
    else
      var init := events[..|events| - 1];
      var replies := SessionReplies(peer, id, serverSessionId, init);
      if events[|events| - 1].Respond? && |replies| < U64_MAX then
        replies + [InSession(LastPeer(peer, init), id, serverSessionId, |replies| + 1, LastUser(GoingOn(init)))]
      else replies
  }

  lemma {:induction false} LastUserSnoc(packets: seq<Event>, e: Event)
    ensures LastUser(packets + [e])
         == if e.Packet? && e.control.Some? then e.control.value.user else LastUser(packets)
  {
    assert (packets + [e])[..|packets|] == packets;
  }

  lemma UserStep(l: Life, e: Event)
    requires Shaped(l.a) && l.a.session.Some? && l.a.session.value.user == LastUser(l.forwarded)
    ensures var l' := Live(l, e);
            l'.a.session.Some? && l'.a.session.value.user == LastUser(l'.forwarded)
  {
    hide OnPacket, LastUser;
    LastUserSnoc(l.forwarded, e);
    if e.Packet? {
      PacketUser(l.a, e.peer, e.blocked, e.control);
    }
  }

  lemma PacketUser(a: Assoc, peer: SocketAddr, blocked: bool, control: Option<ControlData>)
    requires Shaped(a) && a.session.Some?
    ensures var (b, sent) := OnPacket(a, peer, blocked, control);
            && b.session.Some?
            && b.session.value.user == if sent && control.Some? then control.value.user else a.session.value.user
  {
    hide Validate;
  }

  lemma SessionStep(l: Life, e: Event)
    requires Shaped(l.a) && l.a.session.Some?
    ensures var s, l' := l.a.session.value, Live(l, e);
            && (if e.Respond? && l.a.serverPacketId < U64_MAX then
                  && l'.a.serverPacketId == l.a.serverPacketId + 1
                  && l'.replies == l.replies + [InSession(l.a.peerAddr, s.clientSessionId, l.a.serverSessionId,
                                                          l.a.serverPacketId + 1, s.user)]
                else l'.a.serverPacketId == l.a.serverPacketId && l'.replies == l.replies)
            && l'.keys == if e == Tick(true) && l.a.keepaliveFlag then l.keys + [SessionId(s.clientSessionId)] else l.keys
  {
    hide Validate;
  }

  /** All replies of a session and all its keys, over any life. */
  lemma {:induction false} SessionRepliesExactly(peer: SocketAddr, id: u64, serverSessionId: u64, events: seq<Event>)
    ensures var l := LiveAll(Start(peer, Some(id), serverSessionId), events);
            && l.a.session.Some? && l.a.session.value.user == LastUser(GoingOn(events))
            && l.a.serverPacketId == |l.replies|
            && l.replies == SessionReplies(peer, id, serverSessionId, events)
            && l.keys == Times(Reports(events), SessionId(id))
  {
    hide Live, GoingOn, LastUser, LastPeer, Unreported;
    ForwardedExactly(peer, Some(id), serverSessionId, events);
    if events == [] {
      NobodyYet();
    } else {
      var start, init, last := Start(peer, Some(id), serverSessionId), events[..|events| - 1], events[|events| - 1];
      assert events == init + [last];
      ForwardedExactly(peer, Some(id), serverSessionId, init);
      SessionRepliesExactly(peer, id, serverSessionId, init);
      SessionFollowsItsClient(peer, id, serverSessionId, init);
      LiveAllSnoc(start, init, last);
      UserStep(LiveAll(start, init), last);
      SessionStep(LiveAll(start, init), last);
      TimesSnoc(Reports(init), SessionId(id));
    }
  }

  lemma NobodyYet()
    ensures LastUser([]) == None
  {
  }

  /** A packet refused by the access-control list is not dispatched and does not use up its id:
      sent again, it fares as if it had not been sent before. */
  lemma RefusedPacketCanBeResent(a: Assoc, peer: SocketAddr, control: Option<ControlData>)
    requires Shaped(a)
    ensures var (b, sent) := OnPacket(a, peer, true, control);
            !sent && OnPacket(b, peer, false, control) == OnPacket(a, peer, false, control)
  {
    hide Validate;
  }

  ghost predicate NoControl(events: seq<Event>) {
    forall i :: 0 <= i < |events| && events[i].Packet? ==> events[i].control.None?
  }

  /** Without control data an association never joins a session. It hands on every packet that is
      not blocked, and answers one peer only, the one it was created for, whatever address later
      packets claim: once for every datagram that comes back. It reports that peer's key once for
      every tick that finds a reply unreported. */
  lemma {:induction false} PlainAssociationServesOnePeer(peer: SocketAddr, serverSessionId: u64, events: seq<Event>)
    requires NoControl(events)
    ensures var l := LiveAll(Start(peer, None, serverSessionId), events);
            && l.a.session.None? && l.a.peerAddr == peer && l.a.keepaliveFlag == Unreported(events)
            && l.forwarded == Unblocked(events)
            && l.replies == Times(Responses(events), Plain(peer))
            && l.keys == Times(Reports(events), PeerAddr(peer))
  {
    hide Validate;
    if events != [] {
      var init, last := events[..|events| - 1], events[|events| - 1];
      assert events == init + [last];
      PlainAssociationServesOnePeer(peer, serverSessionId, init);
      LiveAllSnoc(Start(peer, None, serverSessionId), init, last);
      TimesSnoc(Responses(init), Plain(peer));
      TimesSnoc(Reports(init), PeerAddr(peer));
    }
  }

  /** The first reply after a dispatched packet carries the next number and that packet's user. */
  lemma ReplyNamesLatestUser(a: Assoc, peer: SocketAddr, c: ControlData)
    requires Shaped(a) && a.session.Some? && a.serverPacketId < U64_MAX
    requires OnPacket(a, peer, false, Some(c)).1
    ensures OnReply(OnPacket(a, peer, false, Some(c)).0).1
         == Some(InSession(peer, a.session.value.clientSessionId, a.serverSessionId, a.serverPacketId + 1, c.user))
  {
  }

  // ----- The association updated in place

  class ClientSessionContext {
    const clientSessionId: u64
    const packetWindowFilter: PacketWindowFilter
    var clientUser: Option<nat>

    constructor (clientSessionId: u64)
      ensures this.clientSessionId == clientSessionId && clientUser == None
      ensures fresh(packetWindowFilter) && fresh(packetWindowFilter.packetRing)
      ensures packetWindowFilter.Valid() && packetWindowFilter.View() == Fresh()
    {
      this.clientSessionId := clientSessionId;
      clientUser := None;
      packetWindowFilter := new PacketWindowFilter();
    }
  }

  class UdpAssociationContext {
    var peerAddr: SocketAddr
    var keepaliveFlag: bool
    var clientSession: ClientSessionContext?
    const serverSessionId: u64
    var serverPacketId: u64

    ghost function Repr(): set<object>
      reads this
    {
      {this} + if clientSession == null then {}
               else {clientSession, clientSession.packetWindowFilter, clientSession.packetWindowFilter.packetRing}
    }

    ghost predicate Valid()
      reads Repr()
    {
      clientSession != null ==> clientSession.packetWindowFilter.Valid()
    }

    ghost function View(): Assoc
      requires Valid()
      reads Repr()
    {
      Assoc(peerAddr, keepaliveFlag,
            if clientSession == null then None
            else Some(Session(clientSession.clientSessionId, clientSession.packetWindowFilter.View(),
                              clientSession.clientUser)),
            serverSessionId, serverPacketId)
    }

    constructor (peer: SocketAddr, clientSessionId: Option<u64>, serverSessionId: u64)
      ensures Valid() && fresh(Repr())
      ensures View() == Create(peer, clientSessionId, serverSessionId)
    {
      peerAddr, keepaliveFlag, serverPacketId := peer, false, 0;
      this.serverSessionId := serverSessionId;
      clientSession := null;
      new;
      if clientSessionId.Some? {
        clientSession := new ClientSessionContext(clientSessionId.value);
      }
    }

    method DispatchReceivedPacket(peer: SocketAddr, blocked: bool, control: Option<ControlData>) returns (sent: bool)
      requires Valid()
      modifies Repr()
      ensures Valid() && fresh(Repr() - old(Repr()))
      ensures Shaped(old(View())) && (View(), sent) == OnPacket(old(View()), peer, blocked, control)
    {
      if clientSession != null && peer != peerAddr {
        peerAddr := peer;
      }
      if blocked {
        return false;
      }
      if control.Some? {
        if clientSession == null {
          clientSession := new ClientSessionContext(control.value.clientSessionId);
        }
        var ok := clientSession.packetWindowFilter.ValidatePacketId(control.value.packetId, U64_MAX);
        if !ok {
          return false;
        }
        clientSession.clientUser := control.value.user;
      }
      return true;
    }

    method SendReceivedRespondPacket() returns (reply: Option<Reply>)
      requires Valid()
      modifies this
      ensures Valid() && Repr() == old(Repr())
      ensures (View(), reply) == OnReply(old(View()))
    {
      keepaliveFlag := true;
      if clientSession == null {
        return Some(Plain(peerAddr));
      }
      if serverPacketId == U64_MAX {
        return None;
      }
      serverPacketId := serverPacketId + 1;
      return Some(InSession(peerAddr, clientSession.clientSessionId, serverSessionId, serverPacketId,
                            clientSession.clientUser));
    }

    /** The keep-alive tick; `accepted` tells whether the channel has room. */
    method KeepaliveTick(accepted: bool) returns (key: Option<NatKey>)
      requires Valid()
      modifies this
      ensures Valid() && Repr() == old(Repr())
      ensures (View(), key) == OnTick(old(View()), accepted)
    {
      key := None;
      if keepaliveFlag {
        var natKey := if clientSession == null then PeerAddr(peerAddr) else SessionId(clientSession.clientSessionId);
        if accepted {
          keepaliveFlag := false;
          key := Some(natKey);
        }
      }
    }
  }
}
