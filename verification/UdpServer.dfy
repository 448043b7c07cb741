/** The UDP server with its associations running as separate tasks. */
module UdpServer {
  import opened Bytes
  import opened Net
  import opened PacketWindow
  import opened UdpAssociation

  const SEND_CHANNEL_SIZE := 1024
  const KEEP_ALIVE_CHANNEL_SIZE := 64

  datatype Kind = ByPeer | BySession

  /** The map from clients to associations: by address, or, for AEAD-2022, by session id. */
  datatype NatMap = AssociationMap(byPeer: map<SocketAddr, nat>) | SessionMap(bySession: map<u64, nat>)

  datatype Message = Message(peer: SocketAddr, control: Option<ControlData>)

  /** A running association. An association dropped from the map may still run for a while. */
  datatype Task = Task(life: Life, inbox: seq<Message>)

  /** A key in the keep-alive channel, with the association that put it there. */
  datatype Beat = Beat(key: NatKey, sender: nat)

  datatype Server = Server(
    natMap: NatMap,
    tasks: map<nat, Task>,
    homes: map<nat, NatKey>,  // the key each association was created for
    ended: map<nat, Life>,  // what the associations that are gone did
    channel: seq<Beat>,
    panicked: bool
  )

  function Boot(kind: Kind): Server {
    Server(if kind.ByPeer? then AssociationMap(map[]) else SessionMap(map[]), map[], map[], map[], [], false)
  }

  datatype Event =
    | Receive(m: Message, id: nat, serverSessionId: u64)  // `id` and the session id: for a new association
    | Expire(key: NatKey)
    | KeepAlive
    | RunPacket(id: nat, blocked: bool)
    | RunRespond(id: nat)
    | RunTick(id: nat)
    | End(id: nat)

  /** `try_send`: a full inbox drops the packet. */
  function Deliver(s: Server, id: nat, m: Message): Server {
    if id in s.tasks && |s.tasks[id].inbox| < SEND_CHANNEL_SIZE then
      s.(tasks := s.tasks[id := s.tasks[id].(inbox := s.tasks[id].inbox + [m])])
    else s
  }

  function Spawn(s: Server, id: nat, home: NatKey, life: Life, m: Message): Server {
    s.(tasks := s.tasks[id := Task(life, [m])], homes := s.homes[id := home])
  }

  function SendPacket(s: Server, m: Message, id: nat, serverSessionId: u64): Server {
    match s.natMap
    case AssociationMap(byPeer) =>
      if m.peer in byPeer then Deliver(s, byPeer[m.peer], m)
      else
        Spawn(s, id, PeerAddr(m.peer), Start(m.peer, None, serverSessionId), m)
          .(natMap := AssociationMap(byPeer[m.peer := id]))
    case SessionMap(bySession) =>
      match m.control
      case None => s
      case Some(c) =>
        if c.clientSessionId in bySession then Deliver(s, bySession[c.clientSessionId], m)
        else
          Spawn(s, id, SessionId(c.clientSessionId), Start(m.peer, Some(c.clientSessionId), serverSessionId), m)
            .(natMap := SessionMap(bySession[c.clientSessionId := id]))
  }

  predicate KeyFits(m: NatMap, key: NatKey) {
    m.AssociationMap? == key.PeerAddr?
  }

  function Drop(m: NatMap, key: NatKey): NatMap {
    match (m, key)
    case (AssociationMap(byPeer), PeerAddr(a)) => AssociationMap(byPeer - {a})
    case (SessionMap(bySession), SessionId(i)) => SessionMap(bySession - {i})
    case _ => m
  }

  function RunTask(s: Server, id: nat, e: UdpAssociation.Event): Server
    requires id in s.tasks && Shaped(s.tasks[id].life.a)
  {
    s.(tasks := s.tasks[id := s.tasks[id].(life := Live(s.tasks[id].life, e))])
  }

  predicate Enabled(s: Server, e: Event) {
    && !s.panicked
    && (match e
        case Receive(_, id, _) => id !in s.homes
        case Expire(_) => true
        case KeepAlive => s.channel != []
        case RunPacket(id, _) => id in s.tasks && s.tasks[id].inbox != [] && Shaped(s.tasks[id].life.a)
        case RunRespond(id) => id in s.tasks && Shaped(s.tasks[id].life.a)
        case RunTick(id) => id in s.tasks && Shaped(s.tasks[id].life.a)
        case End(id) => id in s.tasks)
  }

  function Apply(s: Server, e: Event): Server
    requires Enabled(s, e)
  {
    match e
    case Receive(m, id, serverSessionId) => SendPacket(s, m, id, serverSessionId)
    case Expire(key) => s.(natMap := Drop(s.natMap, key))
    case KeepAlive => s.(channel := s.channel[1..], panicked := !KeyFits(s.natMap, s.channel[0].key))
    case RunPacket(id, blocked) =>
      var m := s.tasks[id].inbox[0];
      var s := RunTask(s, id, Packet(m.peer, blocked, m.control));
      s.(tasks := s.tasks[id := s.tasks[id].(inbox := s.tasks[id].inbox[1..])])
    case RunRespond(id) => RunTask(s, id, Respond)
    case RunTick(id) =>
      var accepted := |s.channel| < KEEP_ALIVE_CHANNEL_SIZE;
      var key := OnTick(s.tasks[id].life.a, accepted).1;
      var s := RunTask(s, id, Tick(accepted));
      if key.Some? then s.(channel := s.channel + [Beat(key.value, id)]) else s
    case End(id) => s.(tasks := s.tasks - {id}, ended := s.ended[id := s.tasks[id].life])
  }

  /** The control data the socket may hand over: for the older methods none. */
  type Admitted = Option<ControlData> -> bool

  ghost predicate IsRun(s: Server, admits: Admitted, events: seq<Event>)
    decreases |events|
  {
    events != [] ==>
      && Enabled(s, events[0])
      && (events[0].Receive? ==> admits(events[0].m.control))
      && IsRun(Apply(s, events[0]), admits, events[1..])
  }

  ghost function Final(s: Server, admits: Admitted, events: seq<Event>): Server
    requires IsRun(s, admits, events)
    decreases |events|
  {
    if events == [] then s else Final(Apply(s, events[0]), admits, events[1..])
  }

  // ----- What every run keeps

  /** A message belongs to the association whose home is `home`. */
  ghost predicate MessageFits(home: NatKey, m: Message) {
    match home
    case PeerAddr(a) => m.peer == a && m.control.None?
    case SessionId(i) => m.control.Some? && m.control.value.clientSessionId == i
  }

  ghost predicate TaskOk(home: NatKey, t: Task) {
    && UdpAssociation.Inv(t.life) && Shaped(t.life.a)
    && KeyOf(t.life.a) == home
    && (forall i :: 0 <= i < |t.inbox| ==> MessageFits(home, t.inbox[i]))
    && |t.inbox| <= SEND_CHANNEL_SIZE
  }

  /** All keys are of the kind that the map uses; `plain` says that this is the address. */
  ghost predicate TasksOk(plain: bool, homes: map<nat, NatKey>, tasks: map<nat, Task>) {
    forall id :: id in tasks ==> id in homes && homes[id].PeerAddr? == plain && TaskOk(homes[id], tasks[id])
  }

  ghost predicate EndedOk(homes: map<nat, NatKey>, ended: map<nat, Life>) {
    forall id :: id in ended ==> id in homes && UdpAssociation.Inv(ended[id])
  }

  ghost predicate ChannelOk(plain: bool, homes: map<nat, NatKey>, channel: seq<Beat>) {
    && |channel| <= KEEP_ALIVE_CHANNEL_SIZE
    && forall i :: 0 <= i < |channel| ==>
         channel[i].key.PeerAddr? == plain && channel[i].sender in homes && homes[channel[i].sender] == channel[i].key
  }

  ghost predicate MapOk(natMap: NatMap, homes: map<nat, NatKey>) {
    match natMap
    case AssociationMap(byPeer) =>
      forall a :: a in byPeer ==> byPeer[a] in homes && homes[byPeer[a]] == PeerAddr(a)
    case SessionMap(bySession) =>
      forall i :: i in bySession ==> bySession[i] in homes && homes[bySession[i]] == SessionId(i)
  }

  ghost predicate Inv(s: Server) {
    && !s.panicked
    && TasksOk(s.natMap.AssociationMap?, s.homes, s.tasks)
    && EndedOk(s.homes, s.ended)
    && s.homes.Keys <= s.tasks.Keys + s.ended.Keys
    && ChannelOk(s.natMap.AssociationMap?, s.homes, s.channel)
    && MapOk(s.natMap, s.homes)
  }

  /** Control data comes with AEAD-2022 servers only. */
  ghost predicate ControlOnlyInSessions(s: Server, e: Event) {
    s.natMap.AssociationMap? && e.Receive? ==> e.m.control.None?
  }

  lemma LiveKeepsHome(home: NatKey, t: Task, e: UdpAssociation.Event)
    requires TaskOk(home, t)
    requires e.Packet? ==> MessageFits(home, Message(e.peer, e.control))
    ensures KeyOf(Live(t.life, e).a) == home
  {
  }

  lemma RunTaskOk(home: NatKey, t: Task, e: UdpAssociation.Event)
    requires TaskOk(home, t)
    requires e.Packet? ==> MessageFits(home, Message(e.peer, e.control))
    ensures TaskOk(home, t.(life := Live(t.life, e)))
  {
    hide UdpAssociation.Inv, Live, KeyOf;
    LiveKeepsHome(home, t, e);
    LiveKeepsInv(t.life, e);
  }

  lemma NewTaskOk(home: NatKey, m: Message, serverSessionId: u64)
    requires MessageFits(home, m)
    ensures var session := if home.PeerAddr? then None else Some(home.id);
            TaskOk(home, Task(Start(m.peer, session, serverSessionId), [m]))
  {
  }

  lemma TaskChanged(s: Server, id: nat, t: Task)
    requires Inv(s) && id in s.tasks && id in s.homes && TaskOk(s.homes[id], t)
    ensures Inv(s.(tasks := s.tasks[id := t]))
  {
    hide TaskOk, EndedOk, ChannelOk, MapOk;
  }

  lemma TaskAdded(s: Server, id: nat, home: NatKey, t: Task)
    requires Inv(s) && id !in s.homes && KeyFits(s.natMap, home) && TaskOk(home, t)
    ensures Inv(s.(tasks := s.tasks[id := t], homes := s.homes[id := home]))
  {
    hide TaskOk, UdpAssociation.Inv;
  }

  lemma TaskHasHome(s: Server, id: nat)
    requires Inv(s) && id in s.tasks
    ensures id in s.homes && KeyFits(s.natMap, s.homes[id]) && TaskOk(s.homes[id], s.tasks[id])
  {
    hide TaskOk, EndedOk, ChannelOk, MapOk;
  }

  lemma DeliverOk(s: Server, id: nat, m: Message)
    requires Inv(s) && (id in s.homes ==> MessageFits(s.homes[id], m))
    ensures Inv(Deliver(s, id, m))
  {
    hide UdpAssociation.Inv, KeyOf, Inv;
    if id in s.tasks && |s.tasks[id].inbox| < SEND_CHANNEL_SIZE {
      TaskHasHome(s, id);
      TaskChanged(s, id, s.tasks[id].(inbox := s.tasks[id].inbox + [m]));
    }
  }

  lemma EntryAdded(s: Server, home: NatKey, id: nat)
    requires Inv(s) && KeyFits(s.natMap, home) && id in s.homes && s.homes[id] == home
    ensures home.PeerAddr? ==> Inv(s.(natMap := AssociationMap(s.natMap.byPeer[home.addr := id])))
    ensures home.SessionId? ==> Inv(s.(natMap := SessionMap(s.natMap.bySession[home.id := id])))
  {
    hide TasksOk, EndedOk, ChannelOk;
  }

  lemma {:induction false} SendPacketOk(s: Server, m: Message, id: nat, serverSessionId: u64)
    requires Inv(s) && id !in s.homes
    requires s.natMap.AssociationMap? ==> m.control.None?
    ensures Inv(SendPacket(s, m, id, serverSessionId))
  {
    hide TaskOk, Start;
    if s.natMap.AssociationMap? {
      if m.peer in s.natMap.byPeer {
        hide Deliver;
        DeliverOk(s, s.natMap.byPeer[m.peer], m);
      } else {
        var home, life := PeerAddr(m.peer), Start(m.peer, None, serverSessionId);
        NewTaskOk(home, m, serverSessionId);
        TaskAdded(s, id, home, Task(life, [m]));
        EntryAdded(Spawn(s, id, home, life, m), home, id);
      }
    } else if m.control.Some? {
      var i := m.control.value.clientSessionId;
      if i in s.natMap.bySession {
        hide Deliver;
        DeliverOk(s, s.natMap.bySession[i], m);
      } else {
        var home, life := SessionId(i), Start(m.peer, Some(i), serverSessionId);
        NewTaskOk(home, m, serverSessionId);
        TaskAdded(s, id, home, Task(life, [m]));
        EntryAdded(Spawn(s, id, home, life, m), home, id);
      }
    }
  }

  /** The association that the map names for a packet, if any. */
  function OwnerOf(m: NatMap, p: Message): Option<nat> {
    match m
    case AssociationMap(byPeer) => if p.peer in byPeer then Some(byPeer[p.peer]) else None
    case SessionMap(bySession) =>
      if p.control.Some? && p.control.value.clientSessionId in bySession
      then Some(bySession[p.control.value.clientSessionId]) else None
  }

  /** The life of an association created for a packet. */
  function NewLife(natMap: NatMap, m: Message, serverSessionId: u64): Life {
    var session := if natMap.SessionMap? && m.control.Some? then Some(m.control.value.clientSessionId) else None;
    Start(m.peer, session, serverSessionId)
  }

  /** A packet goes to the end of its own association's inbox, creating the association if
      there is none; it is lost only if the inbox is full or the association is gone, or, on a
      server keyed by session, if it lacks control data. Nothing else is touched. */
  lemma PacketReachesItsAssociation(s: Server, m: Message, id: nat, serverSessionId: u64)
    requires id !in s.tasks
    ensures var s' := SendPacket(s, m, id, serverSessionId);
            var owner := if OwnerOf(s.natMap, m).Some? then OwnerOf(s.natMap, m).value else id;
            if s.natMap.SessionMap? && m.control.None? then s' == s
            else
              && OwnerOf(s'.natMap, m) == Some(owner)
              && (OwnerOf(s.natMap, m).None? ==>
                    && owner in s'.tasks && s'.tasks[owner] == Task(NewLife(s.natMap, m, serverSessionId), [m])
                    && owner in s'.homes && s'.homes[owner] == KeyOf(s'.tasks[owner].life.a))
              && (OwnerOf(s.natMap, m).Some? && owner in s.tasks ==>
                    && owner in s'.tasks && s'.tasks[owner].life == s.tasks[owner].life
                    && s'.tasks[owner].inbox
                       == s.tasks[owner].inbox + if |s.tasks[owner].inbox| < SEND_CHANNEL_SIZE then [m] else [])
              && (forall k :: k in s.tasks && k != owner ==> k in s'.tasks && s'.tasks[k] == s.tasks[k])
              && s'.channel == s.channel && s'.ended == s.ended && s'.panicked == s.panicked
  {
    if OwnerOf(s.natMap, m).Some? {
      assert SendPacket(s, m, id, serverSessionId) == Deliver(s, OwnerOf(s.natMap, m).value, m);
    }
  }

  lemma {:induction false} PacketOk(s: Server, id: nat, blocked: bool)
    requires Inv(s) && Enabled(s, RunPacket(id, blocked))
    ensures Inv(Apply(s, RunPacket(id, blocked)))
  {
    hide UdpAssociation.Inv, Live, KeyOf, Inv;
    TaskHasHome(s, id);
    var t, home := s.tasks[id], s.homes[id];
    var m := t.inbox[0];
    RunTaskOk(home, t, Packet(m.peer, blocked, m.control));
    var t' := t.(life := Live(t.life, Packet(m.peer, blocked, m.control)), inbox := t.inbox[1..]);
    TaskChanged(s, id, t');
    assert Apply(s, RunPacket(id, blocked)).tasks == s.tasks[id := t'];
  }

  lemma TickOk(s: Server, id: nat)
    requires Inv(s) && Enabled(s, RunTick(id))
    ensures Inv(Apply(s, RunTick(id)))
  {
    hide Live, TaskOk, TasksOk, EndedOk, MapOk;
    TaskHasHome(s, id);
    var t := s.tasks[id];
    var e := Tick(|s.channel| < KEEP_ALIVE_CHANNEL_SIZE);
    RunTaskOk(s.homes[id], t, e);
    TaskChanged(s, id, t.(life := Live(t.life, e)));
    KeyIsHome(s.homes[id], t);
  }

  lemma KeyIsHome(home: NatKey, t: Task)
    requires TaskOk(home, t)
    ensures KeyOf(t.life.a) == home && Shaped(t.life.a)
  {
  }

  lemma RespondOk(s: Server, id: nat)
    requires Inv(s) && Enabled(s, RunRespond(id))
    ensures Inv(Apply(s, RunRespond(id)))
  {
    hide Live, TaskOk, Inv;
    TaskHasHome(s, id);
    RunTaskOk(s.homes[id], s.tasks[id], Respond);
    TaskChanged(s, id, s.tasks[id].(life := Live(s.tasks[id].life, Respond)));
  }

  lemma EndOk(s: Server, id: nat)
    requires Inv(s) && Enabled(s, End(id))
    ensures Inv(Apply(s, End(id)))
  {
    hide UdpAssociation.Inv, KeyOf, ChannelOk, MapOk;
    TaskHasHome(s, id);
  }

  lemma {:induction false} ApplyKeepsInv(s: Server, e: Event)
    requires Inv(s) && Enabled(s, e) && ControlOnlyInSessions(s, e)
    ensures Inv(Apply(s, e)) && Apply(s, e).natMap.AssociationMap? == s.natMap.AssociationMap?
  {
    hide TaskOk, Live, TasksOk, EndedOk;
    match e {
      case Receive(m, id, serverSessionId) => SendPacketOk(s, m, id, serverSessionId);
      case RunPacket(id, blocked) => PacketOk(s, id, blocked);
      case RunRespond(id) => RespondOk(s, id);
      case RunTick(id) => TickOk(s, id);
      case End(id) => EndOk(s, id);
      case _ =>
    }
  }

  lemma {:induction false} RunInv(s: Server, admits: Admitted, events: seq<Event>)
    requires Inv(s) && IsRun(s, admits, events)
    requires s.natMap.SessionMap? || forall c :: admits(c) ==> c.None?
    ensures Inv(Final(s, admits, events))
    decreases |events|
  {
    hide Inv, Apply;
    if events != [] {
      ApplyKeepsInv(s, events[0]);
      RunInv(Apply(s, events[0]), admits, events[1..]);
    }
  }

  /** Whether control data can reach a server whose map is keyed by address. */
  ghost predicate ControlFits(kind: Kind, admits: Admitted) {
    kind.BySession? || forall c :: admits(c) ==> c.None?
  }

  /** In every run of a server whose socket hands over control data only under AEAD-2022, each
      key in the keep-alive channel fits the map and is the key of the association that sent
      it; the mismatch branch is never taken. */
  lemma KeepAliveKeysFit(kind: Kind, admits: Admitted, events: seq<Event>)
    requires ControlFits(kind, admits) && IsRun(Boot(kind), admits, events)
    ensures var s := Final(Boot(kind), admits, events);
            && !s.panicked
            && forall i :: 0 <= i < |s.channel| ==>
                 && KeyFits(s.natMap, s.channel[i].key)
                 && s.channel[i].sender in s.homes && s.homes[s.channel[i].sender] == s.channel[i].key
  {
    RunInv(Boot(kind), admits, events);
  }

  /** What association `id` did, whether it still runs or not. */
  function LifeOf(s: Server, id: nat): Life
    requires id in s.tasks || id in s.ended
  {
    if id in s.tasks then s.tasks[id].life else s.ended[id]
  }

  /** In such a run every association ever created, dropped from the map or not, ended or not,
      has dispatched no packet id twice and numbered its session replies from 1 without gap. */
  lemma EveryAssociationKeepsItsPromises(kind: Kind, admits: Admitted, events: seq<Event>, id: nat)
    requires ControlFits(kind, admits) && IsRun(Boot(kind), admits, events)
    requires id in Final(Boot(kind), admits, events).homes
    ensures var s := Final(Boot(kind), admits, events);
            && (id in s.tasks || id in s.ended)
            && var l := LifeOf(s, id);
               && Distinct(l.dispatched)
               && forall i :: 0 <= i < |ReplyIds(l.replies)| ==> ReplyIds(l.replies)[i] == i + 1
  {
    RunInv(Boot(kind), admits, events);
    var s := Final(Boot(kind), admits, events);
    assert id in s.tasks.Keys + s.ended.Keys;
    if id in s.tasks {
      TaskHasHome(s, id);
    }
  }

  // ----- The hypothesis is needed

  lemma ExtendRun(s: Server, admits: Admitted, e: Event, rest: seq<Event>)
    requires Enabled(s, e) && (e.Receive? ==> admits(e.m.control)) && IsRun(Apply(s, e), admits, rest)
    ensures IsRun(s, admits, [e] + rest)
    ensures Final(s, admits, [e] + rest) == Final(Apply(s, e), admits, rest)
  {
  }

  /** A plain association that is given control data joins a session. */
  lemma StrayControlJoins(c: ControlData, peer: SocketAddr)
    ensures var e0, e1 := Receive(Message(peer, Some(c)), 0, 1), RunPacket(0, false);
            && Enabled(Boot(ByPeer), e0) && Enabled(Apply(Boot(ByPeer), e0), e1)
            && var s := Apply(Apply(Boot(ByPeer), e0), e1);
               && s.natMap.AssociationMap? && s.channel == [] && !s.panicked
               && 0 in s.tasks && Shaped(s.tasks[0].life.a) && KeyOf(s.tasks[0].life.a) == SessionId(c.clientSessionId)
  {
    hide Validate;
  }

  lemma ReplyAndTick(s: Server)
    requires !s.panicked && 0 in s.tasks && Shaped(s.tasks[0].life.a) && s.channel == []
    ensures Enabled(s, RunRespond(0)) && Enabled(Apply(s, RunRespond(0)), RunTick(0))
    ensures var s' := Apply(Apply(s, RunRespond(0)), RunTick(0));
            s'.natMap == s.natMap && s'.channel == [Beat(KeyOf(s.tasks[0].life.a), 0)] && !s'.panicked
  {
  }

  /** One packet with control data on a server keyed by address, a reply and a tick, and the
      mismatch branch is reached. */
  lemma StrayControlPanics(admits: Admitted, c: ControlData, peer: SocketAddr) returns (events: seq<Event>)
    requires admits(Some(c))
    ensures IsRun(Boot(ByPeer), admits, events) && Final(Boot(ByPeer), admits, events).panicked
  {
    hide Apply, Enabled, IsRun, Final, KeyOf;
    var e0, e1, e2, e3 := Receive(Message(peer, Some(c)), 0, 1), RunPacket(0, false), RunRespond(0), RunTick(0);
    StrayControlJoins(c, peer);
    var s0 := Boot(ByPeer);
    var s1 := Apply(s0, e0);
    var s2 := Apply(s1, e1);
    ReplyAndTick(s2);
    var s3 := Apply(s2, e2);
    var s4 := Apply(s3, e3);
    MisfitPanics(s4, admits);
    ExtendRun(s3, admits, e3, [KeepAlive]);
    ExtendRun(s2, admits, e2, [e3] + [KeepAlive]);
    ExtendRun(s1, admits, e1, [e2] + ([e3] + [KeepAlive]));
    ExtendRun(s0, admits, e0, [e1] + ([e2] + ([e3] + [KeepAlive])));
    events := [e0] + ([e1] + ([e2] + ([e3] + [KeepAlive])));
  }

  lemma MisfitPanics(s: Server, admits: Admitted)
    requires !s.panicked && |s.channel| == 1 && !KeyFits(s.natMap, s.channel[0].key)
    ensures IsRun(s, admits, [KeepAlive]) && Final(s, admits, [KeepAlive]).panicked
  {
  }

  ghost predicate NeverPanics(kind: Kind, admits: Admitted) {
    forall events :: IsRun(Boot(kind), admits, events) ==> !Final(Boot(kind), admits, events).panicked
  }

  /** The mismatch branch is unreachable exactly when control data reaches only servers that
      are keyed by session. */
  lemma NeverPanicsIffControlFits(kind: Kind, admits: Admitted)
    ensures NeverPanics(kind, admits) <==> ControlFits(kind, admits)
  {
    hide Apply, Inv;
    if ControlFits(kind, admits) {
      forall events | IsRun(Boot(kind), admits, events)
        ensures !Final(Boot(kind), admits, events).panicked
      {
        KeepAliveKeysFit(kind, admits, events);
      }
    } else {
      var c :| admits(c) && c.Some?;
      var events := StrayControlPanics(admits, c.value, SocketAddr(V4(0), 0));
    }
  }

  // ----- An association lives on what the server receives for it

  /** What a step is for association `id`. */
  function Seen(s: Server, e: Event, id: nat): seq<UdpAssociation.Event>
    requires Enabled(s, e)
  {
    match e
    case RunPacket(k, blocked) =>
      if k == id then [Packet(s.tasks[id].inbox[0].peer, blocked, s.tasks[id].inbox[0].control)] else []
    case RunRespond(k) => if k == id then [Respond] else []
    case RunTick(k) => if k == id then [Tick(|s.channel| < 64)] else []
    case _ => []
  }

  /** The packet that a step puts into its inbox. */
  function Queued(s: Server, e: Event, id: nat): seq<Message> {
    if e.Receive? && OwnerOf(s.natMap, e.m) == Some(id) && id in s.tasks && |s.tasks[id].inbox| < 1024 then [e.m]
    else []
  }

  /** The packet that a step takes out of it. */
  function Handled(s: Server, e: Event, id: nat): seq<Message>
    requires Enabled(s, e)
  {
    if e.RunPacket? && e.id == id then [s.tasks[id].inbox[0]] else []
  }

  ghost function AllSeen(s: Server, admits: Admitted, events: seq<Event>, id: nat): seq<UdpAssociation.Event>
    requires IsRun(s, admits, events)
    decreases |events|
  {
    if events == [] then [] else Seen(s, events[0], id) + AllSeen(Apply(s, events[0]), admits, events[1..], id)
  }

  ghost function AllQueued(s: Server, admits: Admitted, events: seq<Event>, id: nat): seq<Message>
    requires IsRun(s, admits, events)
    decreases |events|
  {
    if events == [] then [] else Queued(s, events[0], id) + AllQueued(Apply(s, events[0]), admits, events[1..], id)
  }

  ghost function AllHandled(s: Server, admits: Admitted, events: seq<Event>, id: nat): seq<Message>
    requires IsRun(s, admits, events)
    decreases |events|
  {
    if events == [] then [] else Handled(s, events[0], id) + AllHandled(Apply(s, events[0]), admits, events[1..], id)
  }

  lemma OneStep(s: Server, e: Event, id: nat)
    requires Enabled(s, e) && id in s.tasks && id in s.homes && e != End(id) && Shaped(s.tasks[id].life.a)
    ensures var s' := Apply(s, e);
            && id in s'.tasks && id in s'.homes
            && s'.tasks[id].life == LiveAll(s.tasks[id].life, Seen(s, e, id))
            && s.tasks[id].inbox + Queued(s, e, id) == Handled(s, e, id) + s'.tasks[id].inbox
  {
    hide Live, Start;
    if e.Receive? {
      ReceiveStep(s, e.m, e.id, e.serverSessionId, id);
    } else if e.RunPacket? && e.id == id {
      var inbox := s.tasks[id].inbox;
      assert inbox == [inbox[0]] + inbox[1..];
    }
  }

  lemma ReceiveStep(s: Server, m: Message, new_: nat, serverSessionId: u64, id: nat)
    requires !s.panicked && id in s.tasks && id in s.homes && new_ !in s.homes
    ensures var s', e := SendPacket(s, m, new_, serverSessionId), Receive(m, new_, serverSessionId);
            && id in s'.tasks && id in s'.homes && s'.tasks[id].life == s.tasks[id].life
            && s'.tasks[id].inbox == s.tasks[id].inbox + Queued(s, e, id)
  {
    hide Start;
  }

  lemma EndedStays(s: Server, e: Event, id: nat)
    requires Enabled(s, e) && id !in s.tasks && id in s.ended && id in s.homes
    ensures var s' := Apply(s, e);
            && id !in s'.tasks && id in s'.ended && id in s'.homes && s'.ended[id] == s.ended[id]
            && Seen(s, e, id) == [] && Handled(s, e, id) == [] && Queued(s, e, id) == []
  {
    hide Live, Start;
  }

  lemma {:induction false} NothingAfterTheEnd(s: Server, admits: Admitted, events: seq<Event>, id: nat)
    requires IsRun(s, admits, events) && id !in s.tasks && id in s.ended && id in s.homes
    ensures var s' := Final(s, admits, events);
            && id !in s'.tasks && id in s'.ended && s'.ended[id] == s.ended[id]
            && AllSeen(s, admits, events, id) == [] && AllHandled(s, admits, events, id) == []
            && AllQueued(s, admits, events, id) == []
    decreases |events|
  {
    hide Apply, Enabled, Seen, Handled, Queued;
    if events != [] {
      EndedStays(s, events[0], id);
      NothingAfterTheEnd(Apply(s, events[0]), admits, events[1..], id);
    }
  }

  lemma LiveAllTwo(l: Life, a: seq<UdpAssociation.Event>, b: seq<UdpAssociation.Event>)
    requires Shaped(l.a) && |a| <= 1
    ensures LiveAll(l, a + b) == LiveAll(LiveAll(l, a), b)
  {
    hide Live;
    if a == [] {
      assert a + b == b;
    } else {
      assert (a + b)[1..] == b && a[1..] == [];
    }
  }

  /** From any state on: the association lives the life of the steps taken for it, and the packets
      it handles are those put into its inbox, first in first out. */
  lemma {:induction false} LivesOnItsPackets(s: Server, admits: Admitted, events: seq<Event>, id: nat)
    requires IsRun(s, admits, events) && id in s.tasks && id in s.homes && Shaped(s.tasks[id].life.a)
    ensures var s' := Final(s, admits, events);
            && (id in s'.tasks || id in s'.ended)
            && LifeOf(s', id) == LiveAll(s.tasks[id].life, AllSeen(s, admits, events, id))
            && AllHandled(s, admits, events, id) <= s.tasks[id].inbox + AllQueued(s, admits, events, id)
            && (id in s'.tasks ==>
                  s.tasks[id].inbox + AllQueued(s, admits, events, id)
                  == AllHandled(s, admits, events, id) + s'.tasks[id].inbox)
    decreases |events|
  {
    hide Apply, Enabled, Seen, Handled, Queued, Live;
    if events != [] {
      var e, s1 := events[0], Apply(s, events[0]);
      if e == End(id) {
        EndStep(s, id);
        NothingAfterTheEnd(s1, admits, events[1..], id);
      } else {
        OneStep(s, e, id);
        SeenOne(s, e, id);
        LivesOnItsPackets(s1, admits, events[1..], id);
        LiveAllTwo(s.tasks[id].life, Seen(s, e, id), AllSeen(s1, admits, events[1..], id));
        QueueAlgebra(s.tasks[id].inbox, Queued(s, e, id), Handled(s, e, id), s1.tasks[id].inbox,
                     AllQueued(s1, admits, events[1..], id), AllHandled(s1, admits, events[1..], id));
      }
    }
  }

  lemma SeenOne(s: Server, e: Event, id: nat)
    requires Enabled(s, e)
    ensures |Seen(s, e, id)| <= 1
  {
  }

  lemma EndStep(s: Server, id: nat)
    requires Enabled(s, End(id)) && id in s.homes
    ensures var s' := Apply(s, End(id));
            && id !in s'.tasks && id in s'.ended && id in s'.homes && s'.ended[id] == s.tasks[id].life
            && Seen(s, End(id), id) == [] && Handled(s, End(id), id) == [] && Queued(s, End(id), id) == []
  {
  }

  lemma QueueAlgebra(inbox: seq<Message>, q: seq<Message>, h: seq<Message>, inbox': seq<Message>,
                     qs: seq<Message>, hs: seq<Message>)
    requires inbox + q == h + inbox' && hs <= inbox' + qs
    ensures h + hs <= inbox + (q + qs)
    ensures forall last: seq<Message> :: inbox' + qs == hs + last ==> inbox + (q + qs) == h + hs + last
  {
    assert inbox + (q + qs) == inbox + q + qs;
    assert h + inbox' + qs == h + (inbox' + qs);
  }

  /** The packets among the events of an association. */
  function Peers(events: seq<UdpAssociation.Event>): seq<Message> {
    if events == [] then []
    else (if events[0].Packet? then [Message(events[0].peer, events[0].control)] else []) + Peers(events[1..])
  }

  /** The steps taken for an association show it the packets it handles, unchanged and in order. */
  lemma {:induction false} SeenAreHandled(s: Server, admits: Admitted, events: seq<Event>, id: nat)
    requires IsRun(s, admits, events)
    ensures Peers(AllSeen(s, admits, events, id)) == AllHandled(s, admits, events, id)
    decreases |events|
  {
    hide Apply;
    if events != [] {
      var rest := AllSeen(Apply(s, events[0]), admits, events[1..], id);
      SeenAreHandled(Apply(s, events[0]), admits, events[1..], id);
      assert Seen(s, events[0], id) == [] ==> [] + rest == rest;
      assert Seen(s, events[0], id) != [] ==> (Seen(s, events[0], id) + rest)[1..] == rest;
    }
  }

  lemma NewTask(s: Server, e: Event, id: nat)
    requires Enabled(s, e) && id !in s.homes && id in Apply(s, e).homes
    ensures var s' := Apply(s, e);
            && e.Receive? && e.id == id
            && id in s'.tasks && s'.tasks[id] == Task(NewLife(s'.natMap, e.m, e.serverSessionId), [e.m])
            && Shaped(s'.tasks[id].life.a)
  {
  }

  /** Every association ever created: by one packet, which is the first in its inbox; and from then
      on it has lived the life of the steps taken for it, handling the packets queued for it in
      order. */
  lemma {:induction false} EveryLifeIsItsOwn(s: Server, admits: Admitted, events: seq<Event>, id: nat)
    returns (i: nat, s1: Server)
    requires IsRun(s, admits, events) && id !in s.homes && id in Final(s, admits, events).homes
    ensures i < |events| && events[i].Receive? && events[i].id == id && IsRun(s1, admits, events[i + 1..])
    ensures var m, seen := events[i].m, AllSeen(s1, admits, events[i + 1..], id);
            var s' := Final(s, admits, events);
            && (id in s'.tasks || id in s'.ended)
            && LifeOf(s', id) == LiveAll(NewLife(s1.natMap, m, events[i].serverSessionId), seen)
            && Peers(seen) <= [m] + AllQueued(s1, admits, events[i + 1..], id)
    decreases |events|
  {
    hide Apply, Enabled, AllSeen, AllQueued, AllHandled, NewLife, Peers, LiveAll;
    var rest := events[1..];
    s1 := Apply(s, events[0]);
    if id in s1.homes {
      i := 0;
      NewTask(s, events[0], id);
      LivesOnItsPackets(s1, admits, rest, id);
      SeenAreHandled(s1, admits, rest, id);
    } else {
      i, s1 := EveryLifeIsItsOwn(s1, admits, rest, id);
      assert rest[i + 1..] == events[i + 2..];
      i := i + 1;
    }
  }

  // ----- The keep-alive channel

  function BeatSent(s: Server, e: Event): seq<Beat>
    requires Enabled(s, e)
  {
    if e.RunTick? && |s.channel| < 64 && s.tasks[e.id].life.a.keepaliveFlag
    then [Beat(KeyOf(s.tasks[e.id].life.a), e.id)] else []
  }

  function BeatTaken(s: Server, e: Event): seq<Beat>
    requires Enabled(s, e)
  {
    if e.KeepAlive? then [s.channel[0]] else []
  }

  ghost function BeatsSent(s: Server, admits: Admitted, events: seq<Event>): seq<Beat>
    requires IsRun(s, admits, events)
    decreases |events|
  {
    if events == [] then [] else BeatSent(s, events[0]) + BeatsSent(Apply(s, events[0]), admits, events[1..])
  }

  ghost function BeatsTaken(s: Server, admits: Admitted, events: seq<Event>): seq<Beat>
    requires IsRun(s, admits, events)
    decreases |events|
  {
    if events == [] then [] else BeatTaken(s, events[0]) + BeatsTaken(Apply(s, events[0]), admits, events[1..])
  }

  lemma BeatStep(s: Server, e: Event)
    requires Enabled(s, e)
    ensures s.channel + BeatSent(s, e) == BeatTaken(s, e) + Apply(s, e).channel
  {
    hide Live, Start;
  }

  lemma BeatAlgebra(c: seq<Beat>, q: seq<Beat>, t: seq<Beat>, c': seq<Beat>, qs: seq<Beat>, ts: seq<Beat>, last: seq<Beat>)
    requires c + q == t + c' && c' + qs == ts + last
    ensures c + (q + qs) == t + ts + last
  {
    assert c + (q + qs) == c + q + qs;
    assert t + c' + qs == t + (c' + qs);
  }

  /** In every run the server takes the keys out of the channel in the order in which the
      associations, each with a reply to report, put them in; none is lost. */
  lemma {:induction false} BeatsInOrder(s: Server, admits: Admitted, events: seq<Event>)
    requires IsRun(s, admits, events)
    ensures s.channel + BeatsSent(s, admits, events)
         == BeatsTaken(s, admits, events) + Final(s, admits, events).channel
    decreases |events|
  {
    hide Apply, Enabled, BeatSent, BeatTaken;
    if events != [] {
      var s1, rest := Apply(s, events[0]), events[1..];
      BeatStep(s, events[0]);
      BeatsInOrder(s1, admits, rest);
      BeatAlgebra(s.channel, BeatSent(s, events[0]), BeatTaken(s, events[0]), s1.channel,
                  BeatsSent(s1, admits, rest), BeatsTaken(s1, admits, rest), Final(s, admits, events).channel);
    }
  }

  // ----- Replay protection of a session across associations

  /** No packet id of session `x` was dispatched twice, by one association or by two. */
  ghost predicate DispatchedOnce(s: Server, x: u64) {
    forall i: nat, j: nat, a: nat, b: nat ::
      (HasDispatched(s, x, i, a) && HasDispatched(s, x, j, b)
       && LifeOf(s, i).dispatched[a] == LifeOf(s, j).dispatched[b]) ==> i == j && a == b
  }

  /** Association `i` serves session `x` and dispatched at least `a + 1` packets. */
  predicate HasDispatched(s: Server, x: u64, i: nat, a: nat) {
    && (i in s.tasks || i in s.ended)
    && i in s.homes && s.homes[i] == SessionId(x)
    && a < |LifeOf(s, i).dispatched|
  }

  /** Session `x` has had at most one association, and the map still names it. */
  ghost predicate OneHome(s: Server, x: u64) {
    && s.natMap.SessionMap?
    && (forall i :: i in s.homes && s.homes[i] == SessionId(x) ==>
          x in s.natMap.bySession && s.natMap.bySession[x] == i)
  }

  lemma OneHomeStep(s: Server, e: Event, x: u64)
    requires Enabled(s, e) && e != Expire(SessionId(x)) && OneHome(s, x)
    ensures OneHome(Apply(s, e), x)
  {
    hide Live, Start;
  }

  /** Which entries of the map may be dropped, for lack of use or of space. */
  type Droppable = NatKey -> bool

  ghost predicate DropsOnly(drops: Droppable, events: seq<Event>) {
    forall i :: 0 <= i < |events| && events[i].Expire? ==> drops(events[i].key)
  }

  lemma {:induction false} RunKeepsOneHome(s: Server, admits: Admitted, drops: Droppable, events: seq<Event>, x: u64)
    requires IsRun(s, admits, events) && DropsOnly(drops, events) && !drops(SessionId(x)) && OneHome(s, x)
    ensures OneHome(Final(s, admits, events), x)
    decreases |events|
  {
    hide Apply, Enabled, OneHome;
    if events != [] {
      OneHomeStep(s, events[0], x);
      assert forall i :: 0 <= i < |events[1..]| ==> events[1..][i] == events[i + 1];
      RunKeepsOneHome(Apply(s, events[0]), admits, drops, events[1..], x);
    }
  }

  /** In every run that never drops the entry of a session, none of its packets is dispatched
      twice, however its association fares. */
  lemma KeptSessionIsReplaySafe(admits: Admitted, drops: Droppable, events: seq<Event>, x: u64)
    requires IsRun(Boot(BySession), admits, events) && DropsOnly(drops, events) && !drops(SessionId(x))
    ensures DispatchedOnce(Final(Boot(BySession), admits, events), x)
  {
    hide IsRun, Final;
    var s := Final(Boot(BySession), admits, events);
    RunKeepsOneHome(Boot(BySession), admits, drops, events, x);
    forall i: nat, j: nat, a: nat, b: nat
      | HasDispatched(s, x, i, a) && HasDispatched(s, x, j, b) && LifeOf(s, i).dispatched[a] == LifeOf(s, j).dispatched[b]
      ensures i == j && a == b
    {
      EveryAssociationKeepsItsPromises(BySession, admits, events, i);
    }
  }

  /** The first packet of a new association is dispatched. */
  lemma FirstPacketDispatched(peer: SocketAddr, c: ControlData, serverSessionId: u64)
    requires c.packetId < U64_MAX
    ensures var l := Start(peer, Some(c.clientSessionId), serverSessionId);
            Shaped(l.a) && Live(l, Packet(peer, false, Some(c))).dispatched == [c.packetId]
  {
    hide Validate;
    var l := Start(peer, Some(c.clientSessionId), serverSessionId);
    assert LiveAll(l, []) == l;
    assert Ids([]) == {};
    DispatchedIffAdmitted(peer, Some(c.clientSessionId), serverSessionId, [], peer, c, 0);
    assert [] + [c.packetId] == [c.packetId];
  }

  /** A packet for a session without entry, and its association runs. */
  lemma ServeFirst(s: Server, m: Message, id: nat)
    requires !s.panicked && id !in s.homes && id !in s.tasks && s.natMap.SessionMap?
    requires m.control.Some? && m.control.value.packetId < U64_MAX
    requires m.control.value.clientSessionId !in s.natMap.bySession
    ensures Enabled(s, Receive(m, id, 1))
    ensures var s' := Apply(s, Receive(m, id, 1));
            && Enabled(s', RunPacket(id, false))
            && var s'' := Apply(s', RunPacket(id, false));
               && s'' == s.(natMap := SessionMap(s.natMap.bySession[m.control.value.clientSessionId := id]),
                            homes := s.homes[id := SessionId(m.control.value.clientSessionId)],
                            tasks := s''.tasks)
               && s''.tasks.Keys == s.tasks.Keys + {id}
               && s''.tasks[id].life.dispatched == [m.control.value.packetId]
               && forall k :: k in s.tasks ==> k in s''.tasks && s''.tasks[k] == s.tasks[k]
  {
    hide Live, Start;
    var c := m.control.value;
    FirstPacketDispatched(m.peer, c, 1);
  }

  /** If the entry can be dropped, a packet sent again afterwards is dispatched again. */
  lemma DroppedSessionReplays(admits: Admitted, c: ControlData, peer: SocketAddr) returns (events: seq<Event>)
    requires admits(Some(c)) && c.packetId < U64_MAX
    ensures events == [Receive(Message(peer, Some(c)), 0, 1), RunPacket(0, false), Expire(SessionId(c.clientSessionId)),
                       Receive(Message(peer, Some(c)), 1, 1), RunPacket(1, false)]
    ensures IsRun(Boot(BySession), admits, events)
    ensures !DispatchedOnce(Final(Boot(BySession), admits, events), c.clientSessionId)
  {
    hide Apply, Enabled, DispatchedOnce;
    var m, x := Message(peer, Some(c)), c.clientSessionId;
    var e0, e1, e2 := Receive(m, 0, 1), RunPacket(0, false), Expire(SessionId(x));
    var e3, e4 := Receive(m, 1, 1), RunPacket(1, false);
    var s0 := Boot(BySession);
    ServeFirst(s0, m, 0);
    var s1 := Apply(s0, e0);
    var s2 := Apply(s1, e1);
    DropEntry(s2, x);
    var s3 := Apply(s2, e2);
    ServeFirst(s3, m, 1);
    var s4 := Apply(s3, e3);
    var s5 := Apply(s4, e4);
    RepeatShows(s5, x);
    EmptyRun(s5, admits);
    ExtendRun(s4, admits, e4, []);
    ExtendRun(s3, admits, e3, [e4] + []);
    ExtendRun(s2, admits, e2, [e3] + ([e4] + []));
    ExtendRun(s1, admits, e1, [e2] + ([e3] + ([e4] + [])));
    ExtendRun(s0, admits, e0, [e1] + ([e2] + ([e3] + ([e4] + []))));
    events := [e0] + ([e1] + ([e2] + ([e3] + ([e4] + []))));
  }

  lemma DropEntry(s: Server, x: u64)
    requires !s.panicked && s.natMap.SessionMap?
    ensures Enabled(s, Expire(SessionId(x)))
    ensures Apply(s, Expire(SessionId(x))) == s.(natMap := SessionMap(s.natMap.bySession - {x}))
  {
  }

  lemma EmptyRun(s: Server, admits: Admitted)
    ensures IsRun(s, admits, []) && Final(s, admits, []) == s
  {
  }

  lemma RepeatShows(s: Server, x: u64)
    requires 0 in s.tasks && 1 in s.tasks && 0 in s.homes && 1 in s.homes
    requires s.homes[0] == s.homes[1] == SessionId(x)
    requires s.tasks[0].life.dispatched == s.tasks[1].life.dispatched != []
    ensures !DispatchedOnce(s, x)
  {
    assert HasDispatched(s, x, 0, 0) && HasDispatched(s, x, 1, 0);
  }

  ghost predicate ReplaySafe(admits: Admitted, drops: Droppable, x: u64) {
    forall events :: IsRun(Boot(BySession), admits, events) && DropsOnly(drops, events) ==>
      DispatchedOnce(Final(Boot(BySession), admits, events), x)
  }

  /** The packets of a session are dispatched at most once in every run, over all associations
      the session ever had, exactly when the map never drops the entry of the session. */
  lemma ReplaySafeIffKept(admits: Admitted, drops: Droppable, c: ControlData)
    requires admits(Some(c)) && c.packetId < U64_MAX
    ensures ReplaySafe(admits, drops, c.clientSessionId) <==> !drops(SessionId(c.clientSessionId))
  {
    hide Apply, IsRun, DispatchedOnce;
    var x := c.clientSessionId;
    if !drops(SessionId(x)) {
      forall events | IsRun(Boot(BySession), admits, events) && DropsOnly(drops, events)
        ensures DispatchedOnce(Final(Boot(BySession), admits, events), x)
      {
        KeptSessionIsReplaySafe(admits, drops, events, x);
      }
    } else {
      var events := DroppedSessionReplays(admits, c, SocketAddr(V4(0), 0));
    }
  }
}
