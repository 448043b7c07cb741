/** The rendezvous server: registration, connect, event poll and address post, as the
    interleaved steps of its request handlers. */
module Rendezvous {
  import opened Bytes
  import opened Sse

  /** A connect request in progress, together with the attempt it registered. `answer` is what
      was posted to the attempt, once its `done` flag is set. */
  datatype Stage = Entered | Waiting | Read(addrs: seq<string>) | Replied(addrs: seq<string>)

  datatype Connect = Connect(realm: nat, body: ConnectBody, stage: Stage, answer: Option<seq<string>>)

  /** A realm object. Queue entries are named by the connect that queued them; `handed` lists
      the ones already given to a poll. */
  datatype Realm = Realm(addresses: seq<string>, events: seq<nat>, attempts: map<string, nat>, handed: seq<nat>)

  /** A post of fresh addresses, once it has looked up its attempt. `cause` is the punch event
      it answers. */
  datatype Post = Post(cause: nat, target: nat, nonce: string, addrs: seq<string>, applied: bool)

  datatype State = State(
    names: map<string, nat>,
    realms: map<nat, Realm>,
    connects: map<nat, Connect>,
    posts: map<nat, Post>
  )

  const Initial := State(map[], map[], map[], map[])

  datatype Event =
    | Register(name: string, addresses: seq<string>, id: nat)
    | Delete(name: string)
    | ConnectEnter(realm: nat, body: ConnectBody, id: nat)
    | ConnectQueue(id: nat)
    | ConnectRead(id: nat)
    | ConnectReply(id: nat)
    | Poll(realm: nat)
    | PostLookup(realm: nat, cause: nat, addrs: seq<string>, id: nat)
    | PostApply(id: nat)

  predicate Handed(s: State, k: nat) {
    k in s.connects && s.connects[k].realm in s.realms && k in s.realms[s.connects[k].realm].handed
  }

  /** New objects get unused names; a handler acts on objects it has looked up before. Looking
      up a realm by its name changes nothing, and every realm was named when it was registered, so
      a handler may act on any realm at any later time, also after its name is deleted. */
  predicate Enabled(s: State, e: Event) {
    match e
    case Register(_, _, id) => id !in s.realms
    case Delete(_) => true
    case ConnectEnter(realm, _, id) => realm in s.realms && id !in s.connects
    case ConnectQueue(id) => id in s.connects && s.connects[id].stage.Entered? && s.connects[id].realm in s.realms
    case ConnectRead(id) => id in s.connects && s.connects[id].stage.Waiting? && s.connects[id].realm in s.realms
    case ConnectReply(id) => id in s.connects && s.connects[id].stage.Read? && s.connects[id].realm in s.realms
    case Poll(realm) => realm in s.realms
    case PostLookup(realm, cause, _, id) => realm in s.realms && id !in s.posts && Handed(s, cause)
    case PostApply(id) => id in s.posts && !s.posts[id].applied && s.posts[id].target in s.connects
  }

  function WithRealm(s: State, id: nat, r: Realm): State {
    s.(realms := s.realms[id := r])
  }

  function WithConnect(s: State, id: nat, c: Connect): State {
    s.(connects := s.connects[id := c])
  }

  function Apply(s: State, e: Event): State
    requires Enabled(s, e)
  {
    match e
    case Register(name, addresses, id) =>
      if name in s.names then s
      else WithRealm(s, id, Realm(addresses, [], map[], [])).(names := s.names[name := id])
    case Delete(name) => s.(names := s.names - {name})
    case ConnectEnter(realm, body, id) =>
      var r := s.realms[realm];
      WithRealm(WithConnect(s, id, Connect(realm, body, Entered, None)), realm,
                r.(attempts := r.attempts[body.nonce := id]))
    case ConnectQueue(id) =>
      var c := s.connects[id];
      var r := s.realms[c.realm];
      WithRealm(WithConnect(s, id, c.(stage := Waiting)), c.realm, r.(events := r.events + [id]))
    case ConnectRead(id) =>
      var c := s.connects[id];
      WithConnect(s, id, c.(stage := Read(if c.answer.Some? then c.answer.value else s.realms[c.realm].addresses)))
    case ConnectReply(id) =>
      var c := s.connects[id];
      var r := s.realms[c.realm];
      WithRealm(WithConnect(s, id, c.(stage := Replied(c.stage.addrs))), c.realm,
                r.(attempts := r.attempts - {c.body.nonce}))
    case Poll(realm) =>
      var r := s.realms[realm];
      if r.events == [] then s
      else WithRealm(s, realm, r.(events := r.events[1..], handed := r.handed + [r.events[0]]))
    case PostLookup(realm, cause, addrs, id) =>
      var nonce, attempts := s.connects[cause].body.nonce, s.realms[realm].attempts;
      if nonce !in attempts then s
      else s.(posts := s.posts[id := Post(cause, attempts[nonce], nonce, addrs, false)])
    case PostApply(id) =>
      var p := s.posts[id];
      WithConnect(s, p.target, s.connects[p.target].(answer := Some(p.addrs)))
        .(posts := s.posts[id := p.(applied := true)])
  }

  // ----- Runs, with a say on which connect bodies clients send

  type Admitted = ConnectBody -> bool

  ghost predicate IsRun(s: State, admits: Admitted, events: seq<Event>)
    decreases |events|
  {
    events != [] ==>
      && Enabled(s, events[0])
      && (events[0].ConnectEnter? ==> admits(events[0].body))
      && IsRun(Apply(s, events[0]), admits, events[1..])
  }

  ghost function Final(s: State, admits: Admitted, events: seq<Event>): State
    requires IsRun(s, admits, events)
    decreases |events|
  {
    if events == [] then s else Final(Apply(s, events[0]), admits, events[1..])
  }

  /** The state after the first `i` events. */
  ghost function After(s: State, admits: Admitted, events: seq<Event>, i: nat): State
    requires IsRun(s, admits, events) && i <= |events|
    decreases |events|
  {
    if i == 0 then s else After(Apply(s, events[0]), admits, events[1..], i - 1)
  }

  // ----- What every run keeps

  /** Everything ever queued at a realm, in the order it was queued. */
  function Log(r: Realm): seq<nat> {
    r.handed + r.events
  }

  ghost predicate RealmOk(s: State, id: nat, r: Realm) {
    && (forall i, j :: 0 <= i < j < |Log(r)| ==> Log(r)[i] != Log(r)[j])
    && (forall k :: k in Log(r) ==> k in s.connects && s.connects[k].realm == id && !s.connects[k].stage.Entered?)
    && (forall n :: n in r.attempts ==>
          r.attempts[n] in s.connects && s.connects[r.attempts[n]].body.nonce == n)
  }

  ghost predicate PostOk(s: State, p: Post) {
    && p.target in s.connects && p.cause in s.connects
    && p.nonce == s.connects[p.target].body.nonce == s.connects[p.cause].body.nonce
    && Handed(s, p.cause)
  }

  /** These addresses were posted for the nonce of connect `k`. */
  ghost predicate PostedFor(s: State, k: nat, addrs: seq<string>) {
    && k in s.connects
    && exists h :: h in s.posts && s.posts[h].applied && s.posts[h].target == k && s.posts[h].addrs == addrs
         && s.posts[h].nonce == s.connects[k].body.nonce
  }

  ghost predicate ConnectOk(s: State, k: nat, c: Connect) {
    && c.realm in s.realms
    && (c.answer.Some? ==> PostedFor(s, k, c.answer.value))
    && (c.stage.Read? || c.stage.Replied? ==>
          c.stage.addrs == s.realms[c.realm].addresses || PostedFor(s, k, c.stage.addrs))
    && (!c.stage.Entered? ==> k in Log(s.realms[c.realm]))
  }

  ghost predicate Inv(s: State) {
    && (forall id :: id in s.realms ==> RealmOk(s, id, s.realms[id]))
    && (forall k :: k in s.connects ==> ConnectOk(s, k, s.connects[k]))
    && (forall h :: h in s.posts ==> PostOk(s, s.posts[h]))
  }

  ghost predicate RealmGrows(r: Realm, r': Realm) {
    r'.addresses == r.addresses && Log(r) <= Log(r') && r.handed <= r'.handed
  }

  ghost predicate ConnectGrows(c: Connect, c': Connect) {
    c'.realm == c.realm && c'.body == c.body && (c'.stage.Entered? ==> c.stage.Entered?)
  }

  ghost predicate PostGrows(p: Post, p': Post) {
    p' == p.(applied := p'.applied) && (p.applied ==> p'.applied)
  }

  /** What a step never undoes. */
  ghost predicate Grows(s: State, s': State) {
    && (forall id :: id in s.realms ==> id in s'.realms && RealmGrows(s.realms[id], s'.realms[id]))
    && (forall k :: k in s.connects ==> k in s'.connects && ConnectGrows(s.connects[k], s'.connects[k]))
    && (forall h :: h in s.posts ==> h in s'.posts && PostGrows(s.posts[h], s'.posts[h]))
  }

  lemma LogQueued(r: Realm, k: nat)
    ensures Log(r.(events := r.events + [k])) == Log(r) + [k]
  {
  }

  lemma LogPolled(r: Realm)
    requires r.events != []
    ensures Log(r.(events := r.events[1..], handed := r.handed + [r.events[0]])) == Log(r)
  {
  }

  lemma ApplyRealm(s: State, e: Event, id: nat)
    requires Enabled(s, e) && id in s.realms
    ensures id in Apply(s, e).realms && RealmGrows(s.realms[id], Apply(s, e).realms[id])
  {
    hide Apply, Log;
    var r := s.realms[id];
    RealmChange(s, e, id);
    if e.ConnectQueue? {
      LogQueued(r, e.id);
    } else if e.Poll? && r.events != [] {
      LogPolled(r);
    } else {
      LogOfQueues(r, Apply(s, e).realms[id]);
    }
  }

  lemma LogOfQueues(r: Realm, r': Realm)
    requires r'.handed == r.handed && r'.events == r.events
    ensures Log(r') == Log(r)
  {
  }

  lemma ApplyConnect(s: State, e: Event, k: nat)
    requires Enabled(s, e) && k in s.connects
    ensures k in Apply(s, e).connects && ConnectGrows(s.connects[k], Apply(s, e).connects[k])
  {
  }

  lemma ApplyPost(s: State, e: Event, h: nat)
    requires Enabled(s, e) && h in s.posts
    ensures h in Apply(s, e).posts && PostGrows(s.posts[h], Apply(s, e).posts[h])
  {
  }

  lemma ApplyGrows(s: State, e: Event)
    requires Enabled(s, e)
    ensures Grows(s, Apply(s, e))
  {
    hide Apply, Enabled, RealmGrows, ConnectGrows, PostGrows;
    forall id | id in s.realms
      ensures id in Apply(s, e).realms && RealmGrows(s.realms[id], Apply(s, e).realms[id])
    {
      ApplyRealm(s, e, id);
    }
    forall k | k in s.connects
      ensures k in Apply(s, e).connects && ConnectGrows(s.connects[k], Apply(s, e).connects[k])
    {
      ApplyConnect(s, e, k);
    }
    forall h | h in s.posts
      ensures h in Apply(s, e).posts && PostGrows(s.posts[h], Apply(s, e).posts[h])
    {
      ApplyPost(s, e, h);
    }
  }

  lemma PostedForGrows(s: State, s': State, k: nat, addrs: seq<string>)
    requires Grows(s, s') && PostedFor(s, k, addrs)
    ensures PostedFor(s', k, addrs)
  {
  }

  lemma PostOkGrows(s: State, s': State, p: Post, p': Post)
    requires Grows(s, s') && PostOk(s, p) && PostGrows(p, p')
    ensures PostOk(s', p')
  {
  }

  /** A connect whose own record did not change stays fine as the state grows. */
  lemma ConnectOkGrows(s: State, s': State, k: nat, c: Connect)
    requires Grows(s, s') && ConnectOk(s, k, c)
    ensures ConnectOk(s', k, c)
  {
  }

  lemma RealmOkGrows(s: State, s': State, id: nat, r: Realm)
    requires Grows(s, s') && RealmOk(s, id, r)
    ensures RealmOk(s', id, r)
  {
  }

  lemma RealmQueued(s: State, id: nat, r: Realm, k: nat)
    requires RealmOk(s, id, r) && k !in Log(r)
    requires k in s.connects && s.connects[k].realm == id && !s.connects[k].stage.Entered?
    ensures RealmOk(s, id, r.(events := r.events + [k]))
  {
    LogQueued(r, k);
  }

  lemma RealmPolled(s: State, id: nat, r: Realm)
    requires RealmOk(s, id, r) && r.events != []
    ensures RealmOk(s, id, r.(events := r.events[1..], handed := r.handed + [r.events[0]]))
  {
    LogPolled(r);
  }

  lemma RealmAttempts(s: State, id: nat, r: Realm, attempts: map<string, nat>)
    requires RealmOk(s, id, r)
    requires forall n :: n in attempts ==> attempts[n] in s.connects && s.connects[attempts[n]].body.nonce == n
    ensures RealmOk(s, id, r.(attempts := attempts))
  {
  }

  /** The record of realm `id` after a step, as one of the few changes a realm can undergo. */
  lemma RealmChange(s: State, e: Event, id: nat)
    requires Enabled(s, e) && id in s.realms
    ensures id in Apply(s, e).realms
    ensures var r, r' := s.realms[id], Apply(s, e).realms[id];
            || r' == r
            || (e.ConnectQueue? && s.connects[e.id].realm == id && r' == r.(events := r.events + [e.id]))
            || (e.Poll? && r.events != [] && r' == r.(events := r.events[1..], handed := r.handed + [r.events[0]]))
            || (e.ConnectReply? && r' == r.(attempts := r.attempts - {s.connects[e.id].body.nonce}))
            || (e.ConnectEnter? && r' == r.(attempts := r.attempts[e.body.nonce := e.id])
                && e.id in Apply(s, e).connects && Apply(s, e).connects[e.id].body == e.body)
  {
  }

  lemma RealmsStep(s: State, e: Event, id: nat)
    requires Inv(s) && Enabled(s, e) && id in Apply(s, e).realms
    ensures RealmOk(Apply(s, e), id, Apply(s, e).realms[id])
  {
    hide RealmOk, ConnectOk, PostOk;
    if id !in s.realms {
      EmptyRealmOk(Apply(s, e), id, e.addresses);
    } else {
      OldRealmStep(s, e, id);
    }
  }

  lemma EmptyRealmOk(s: State, id: nat, addresses: seq<string>)
    ensures RealmOk(s, id, Realm(addresses, [], map[], []))
  {
  }

  lemma OldRealmStep(s: State, e: Event, id: nat)
    requires Inv(s) && Enabled(s, e) && id in s.realms && id in Apply(s, e).realms
    ensures RealmOk(Apply(s, e), id, Apply(s, e).realms[id])
  {
    hide Apply, RealmOk, ConnectOk, PostOk, Grows;
    var s', r := Apply(s, e), s.realms[id];
    ApplyGrows(s, e);
    RealmOkGrows(s, s', id, r);
    RealmChange(s, e, id);
    if s'.realms[id] != r {
      match e {
        case ConnectQueue(k) =>
          EnteredNotLogged(s, id, k);
          QueuedNotEntered(s, k);
          RealmQueued(s', id, r, k);
        case Poll(_) =>
          RealmPolled(s', id, r);
        case ConnectReply(k) =>
          AttemptsOk(s', id, r);
          RealmAttempts(s', id, r, s'.realms[id].attempts);
        case ConnectEnter(_, _, _) =>
          AttemptsOk(s', id, r);
          RealmAttempts(s', id, r, s'.realms[id].attempts);
      }
    }
  }

  lemma AttemptsOk(s: State, id: nat, r: Realm)
    requires RealmOk(s, id, r)
    ensures forall n :: n in r.attempts ==> r.attempts[n] in s.connects && s.connects[r.attempts[n]].body.nonce == n
  {
  }

  lemma EnteredNotLogged(s: State, id: nat, k: nat)
    requires Inv(s) && id in s.realms && k in s.connects && s.connects[k].stage.Entered?
    ensures k !in Log(s.realms[id])
  {
  }

  lemma QueuedNotEntered(s: State, k: nat)
    requires Enabled(s, ConnectQueue(k))
    ensures var s' := Apply(s, ConnectQueue(k));
            && k in s'.connects && s'.connects[k].realm == s.connects[k].realm
            && s'.connects[k].stage.Waiting? && k in Log(s'.realms[s.connects[k].realm])
  {
  }

  /** The record of connect `k` after a step: unchanged, new, queued, read, replied or answered. */
  lemma ConnectChange(s: State, e: Event, k: nat)
    requires Enabled(s, e) && k in Apply(s, e).connects
    ensures var s' := Apply(s, e);
            var c' := s'.connects[k];
            if k !in s.connects then
              c'.stage.Entered? && c'.answer.None? && c'.realm in s.realms
            else
              var c := s.connects[k];
              || c' == c
              || (e == ConnectQueue(k) && c' == c.(stage := Waiting))
              || (e == ConnectRead(k) && c.realm in s.realms
                  && c' == c.(stage := Read(if c.answer.Some? then c.answer.value else s.realms[c.realm].addresses)))
              || (e == ConnectReply(k) && c.stage.Read? && c' == c.(stage := Replied(c.stage.addrs)))
              || (e.PostApply? && c' == c.(answer := Some(s.posts[e.id].addrs)) && s.posts[e.id].target == k
                  && e.id in s'.posts && s'.posts[e.id] == s.posts[e.id].(applied := true))
  {
  }

  lemma ConnectsStep(s: State, e: Event, k: nat)
    requires Inv(s) && Enabled(s, e) && k in Apply(s, e).connects
    ensures ConnectOk(Apply(s, e), k, Apply(s, e).connects[k])
  {
    hide Apply, RealmOk, Grows;
    var s' := Apply(s, e);
    ApplyGrows(s, e);
    ConnectChange(s, e, k);
    ApplyRealm(s, e, s'.connects[k].realm);
    if k in s.connects {
      var c := s.connects[k];
      ConnectOkGrows(s, s', k, c);
      if e == ConnectQueue(k) {
        QueuedNotEntered(s, k);
      } else if e.PostApply? && s'.connects[k] != c {
        assert PostOk(s, s.posts[e.id]);
        assert PostedFor(s', k, s.posts[e.id].addrs);
      }
    }
  }

  lemma PostChange(s: State, e: Event, h: nat)
    requires Enabled(s, e) && h in Apply(s, e).posts && h !in s.posts
    ensures var p := Apply(s, e).posts[h];
            && Handed(s, p.cause) && p.nonce == s.connects[p.cause].body.nonce
            && exists id :: id in s.realms && p.nonce in s.realms[id].attempts
                 && p.target == s.realms[id].attempts[p.nonce]
  {
  }

  lemma PostsStep(s: State, e: Event, h: nat)
    requires Inv(s) && Enabled(s, e) && h in Apply(s, e).posts
    ensures PostOk(Apply(s, e), Apply(s, e).posts[h])
  {
    hide Apply, ConnectOk, Enabled;
    var s' := Apply(s, e);
    var p := s'.posts[h];
    ApplyGrows(s, e);
    if h in s.posts {
      PostOkGrows(s, s', s.posts[h], p);
    } else {
      PostChange(s, e, h);
      var id :| id in s.realms && p.nonce in s.realms[id].attempts && p.target == s.realms[id].attempts[p.nonce];
      AttemptsOk(s, id, s.realms[id]);
      PostOkGrows(s, s', p, p);
    }
  }

  lemma InvStep(s: State, e: Event)
    requires Inv(s) && Enabled(s, e)
    ensures Inv(Apply(s, e))
  {
    hide Apply, RealmOk, ConnectOk, PostOk;
    var s' := Apply(s, e);
    forall id | id in s'.realms
      ensures RealmOk(s', id, s'.realms[id])
    {
      RealmsStep(s, e, id);
    }
    forall k | k in s'.connects
      ensures ConnectOk(s', k, s'.connects[k])
    {
      ConnectsStep(s, e, k);
    }
    forall h | h in s'.posts
      ensures PostOk(s', s'.posts[h])
    {
      PostsStep(s, e, h);
    }
  }

  lemma {:induction false} RunInv(s: State, admits: Admitted, events: seq<Event>)
    requires Inv(s) && IsRun(s, admits, events)
    ensures Inv(Final(s, admits, events))
    decreases |events|
  {
    hide Inv, Apply;
    if events != [] {
      InvStep(s, events[0]);
      RunInv(Apply(s, events[0]), admits, events[1..]);
    }
  }

  lemma InitialInv()
    ensures Inv(Initial)
  {
  }

  // ----- Theorems over whole runs

  /** Each connect's punch event is queued once, at one realm, so it is handed out at most once. */
  lemma EventsHandedOutOnce(admits: Admitted, events: seq<Event>, realm: nat, i: nat, realm': nat, j: nat)
    requires IsRun(Initial, admits, events)
    requires realm in Final(Initial, admits, events).realms && realm' in Final(Initial, admits, events).realms
    requires i < |Log(Final(Initial, admits, events).realms[realm])|
    requires j < |Log(Final(Initial, admits, events).realms[realm'])|
    requires var s := Final(Initial, admits, events); Log(s.realms[realm])[i] == Log(s.realms[realm'])[j]
    ensures realm == realm' && i == j
  {
    RunInv(Initial, admits, events);
    var s := Final(Initial, admits, events);
    var k := Log(s.realms[realm])[i];
    assert k in Log(s.realms[realm]) && k in Log(s.realms[realm']);
  }

  /** An event is handed out only after all events queued before it at the same realm. */
  lemma EventsHandedOutInOrder(admits: Admitted, events: seq<Event>, realm: nat, i: nat, j: nat)
    requires IsRun(Initial, admits, events) && realm in Final(Initial, admits, events).realms
    requires i < j < |Log(Final(Initial, admits, events).realms[realm])|
    requires var r := Final(Initial, admits, events).realms[realm]; Log(r)[j] in r.handed
    ensures var r := Final(Initial, admits, events).realms[realm]; Log(r)[i] in r.handed
  {
    RunInv(Initial, admits, events);
    var r := Final(Initial, admits, events).realms[realm];
    var h :| 0 <= h < |r.handed| && r.handed[h] == Log(r)[j];
    assert Log(r)[h] == Log(r)[j];
    assert r.handed[i] == Log(r)[i];
  }

  /** And the log only grows at its end, whatever step is taken: a later event cannot overtake. */
  lemma {:induction false} LogOnlyGrows(s: State, admits: Admitted, events: seq<Event>, realm: nat)
    requires IsRun(s, admits, events) && realm in s.realms
    ensures var s' := Final(s, admits, events);
            && realm in s'.realms
            && Log(s.realms[realm]) <= Log(s'.realms[realm])
            && s.realms[realm].handed <= s'.realms[realm].handed
    decreases |events|
  {
    hide Apply, Log;
    if events != [] {
      ApplyGrows(s, events[0]);
      LogOnlyGrows(Apply(s, events[0]), admits, events[1..], realm);
    }
  }

  // ----- Where the objects of a state come from

  /** Event `i` of the run creates realm `id`. */
  ghost predicate Registers(s: State, admits: Admitted, events: seq<Event>, i: nat, id: nat)
    requires IsRun(s, admits, events)
  {
    && i < |events| && events[i].Register? && events[i].id == id
    && id !in After(s, admits, events, i).realms && id in After(s, admits, events, i + 1).realms
  }

  /** Event `i` of the run creates connect `k`. */
  ghost predicate Enters(s: State, admits: Admitted, events: seq<Event>, i: nat, k: nat)
    requires IsRun(s, admits, events)
  {
    && i < |events| && events[i].ConnectEnter? && events[i].id == k
    && k !in After(s, admits, events, i).connects && k in After(s, admits, events, i + 1).connects
  }

  /** Event `i` of the run creates post `h`. */
  ghost predicate Posts(s: State, admits: Admitted, events: seq<Event>, i: nat, h: nat)
    requires IsRun(s, admits, events)
  {
    && i < |events| && events[i].PostLookup? && events[i].id == h
    && h !in After(s, admits, events, i).posts && h in After(s, admits, events, i + 1).posts
  }

  lemma AfterFirst(s: State, admits: Admitted, events: seq<Event>, i: nat)
    requires IsRun(s, admits, events) && events != [] && i < |events|
    ensures After(s, admits, events, i + 1) == After(Apply(s, events[0]), admits, events[1..], i)
  {
  }

  lemma {:induction false} RunGrows(s: State, admits: Admitted, events: seq<Event>)
    requires IsRun(s, admits, events)
    ensures Grows(s, Final(s, admits, events))
    decreases |events|
  {
    hide Apply, Enabled, RealmGrows, ConnectGrows, PostGrows, Grows;
    if events == [] {
      GrowsSelf(s);
    } else {
      ApplyGrows(s, events[0]);
      RunGrows(Apply(s, events[0]), admits, events[1..]);
      GrowsAgain(s, Apply(s, events[0]), Final(s, admits, events));
    }
  }

  lemma GrowsSelf(s: State)
    ensures Grows(s, s)
  {
  }

  lemma GrowsAgain(s: State, s': State, s'': State)
    requires Grows(s, s') && Grows(s', s'')
    ensures Grows(s, s'')
  {
    hide Log;
  }

  lemma RegistersLater(s: State, admits: Admitted, events: seq<Event>, i: nat, id: nat)
    requires IsRun(s, admits, events) && events != [] && Registers(Apply(s, events[0]), admits, events[1..], i, id)
    ensures Registers(s, admits, events, i + 1, id) && events[1..][i] == events[i + 1]
  {
    hide Apply, Enabled;
    AfterFirst(s, admits, events, i);
    AfterFirst(s, admits, events, i + 1);
  }

  lemma RegistersNow(s: State, admits: Admitted, events: seq<Event>, id: nat)
    requires IsRun(s, admits, events) && events != []
    requires id !in s.realms && id in Apply(s, events[0]).realms
    ensures Registers(s, admits, events, 0, id)
  {
    assert After(s, admits, events, 1) == Apply(s, events[0]);
  }

  /** Every realm was created by a registration, and has the addresses of that registration. */
  lemma {:induction false} RealmWasRegistered(s: State, admits: Admitted, events: seq<Event>, id: nat) returns (i: nat)
    requires IsRun(s, admits, events) && id !in s.realms && id in Final(s, admits, events).realms
    ensures Registers(s, admits, events, i, id)
    ensures i < |events| && events[i].Register? && Final(s, admits, events).realms[id].addresses == events[i].addresses
    decreases |events|
  {
    hide Registers, Log, After;
    var s' := Apply(s, events[0]);
    if id in s'.realms {
      i := 0;
      RegistersNow(s, admits, events, id);
      RunGrows(s', admits, events[1..]);
    } else {
      i := RealmWasRegistered(s', admits, events[1..], id);
      RegistersLater(s, admits, events, i, id);
      i := i + 1;
    }
  }

  lemma EntersLater(s: State, admits: Admitted, events: seq<Event>, i: nat, k: nat)
    requires IsRun(s, admits, events) && events != [] && Enters(Apply(s, events[0]), admits, events[1..], i, k)
    ensures Enters(s, admits, events, i + 1, k) && events[1..][i] == events[i + 1]
  {
    hide Apply, Enabled;
    AfterFirst(s, admits, events, i);
    AfterFirst(s, admits, events, i + 1);
  }

  lemma EntersNow(s: State, admits: Admitted, events: seq<Event>, k: nat)
    requires IsRun(s, admits, events) && events != []
    requires k !in s.connects && k in Apply(s, events[0]).connects
    ensures Enters(s, admits, events, 0, k)
  {
    assert After(s, admits, events, 1) == Apply(s, events[0]);
  }

  /** Every connect was entered, at that realm and with that body. */
  lemma {:induction false} ConnectWasEntered(s: State, admits: Admitted, events: seq<Event>, k: nat) returns (i: nat)
    requires IsRun(s, admits, events) && k !in s.connects && k in Final(s, admits, events).connects
    ensures Enters(s, admits, events, i, k)
    ensures i < |events| && events[i].ConnectEnter? && Final(s, admits, events).connects[k].realm == events[i].realm
    ensures Final(s, admits, events).connects[k].body == events[i].body
    decreases |events|
  {
    hide Enters, Log, After;
    var s' := Apply(s, events[0]);
    if k in s'.connects {
      i := 0;
      EntersNow(s, admits, events, k);
      RunGrows(s', admits, events[1..]);
    } else {
      i := ConnectWasEntered(s', admits, events[1..], k);
      EntersLater(s, admits, events, i, k);
      i := i + 1;
    }
  }

  lemma PostsLater(s: State, admits: Admitted, events: seq<Event>, i: nat, h: nat)
    requires IsRun(s, admits, events) && events != [] && Posts(Apply(s, events[0]), admits, events[1..], i, h)
    ensures Posts(s, admits, events, i + 1, h) && events[1..][i] == events[i + 1]
  {
    hide Apply, Enabled;
    AfterFirst(s, admits, events, i);
    AfterFirst(s, admits, events, i + 1);
  }

  lemma PostsNow(s: State, admits: Admitted, events: seq<Event>, h: nat)
    requires IsRun(s, admits, events) && events != []
    requires h !in s.posts && h in Apply(s, events[0]).posts
    ensures Posts(s, admits, events, 0, h)
  {
    assert After(s, admits, events, 1) == Apply(s, events[0]);
  }

  /** Every post was made, with those addresses, in answer to that event. */
  lemma {:induction false} PostWasMade(s: State, admits: Admitted, events: seq<Event>, h: nat) returns (i: nat)
    requires IsRun(s, admits, events) && h !in s.posts && h in Final(s, admits, events).posts
    ensures Posts(s, admits, events, i, h)
    ensures i < |events| && events[i].PostLookup? && Final(s, admits, events).posts[h].addrs == events[i].addrs
    ensures Final(s, admits, events).posts[h].cause == events[i].cause
    decreases |events|
  {
    hide Posts, Log, After;
    var s' := Apply(s, events[0]);
    if h in s'.posts {
      i := 0;
      PostsNow(s, admits, events, h);
      RunGrows(s', admits, events[1..]);
    } else {
      i := PostWasMade(s', admits, events[1..], h);
      PostsLater(s, admits, events, i, h);
      i := i + 1;
    }
  }

  /** A name stays with its realm until it is deleted: a second registration is refused. */
  lemma {:induction false} NameKept(s: State, admits: Admitted, events: seq<Event>, name: string)
    requires IsRun(s, admits, events) && name in s.names && Delete(name) !in events
    ensures name in Final(s, admits, events).names && Final(s, admits, events).names[name] == s.names[name]
    decreases |events|
  {
    if events != [] {
      assert events[0] != Delete(name);
      NameKept(Apply(s, events[0]), admits, events[1..], name);
    }
  }

  ghost predicate NamedBy(s: State, admits: Admitted, events: seq<Event>, name: string, id: nat, i: nat)
    requires IsRun(s, admits, events)
  {
    Registers(s, admits, events, i, id) && events[i].name == name && Delete(name) !in events[i + 1..]
  }

  /** A name that was not in use at first, or was deleted, and is in use now is that of a
      registration not deleted since, and stands for its realm. */
  lemma {:induction false} NameIsRegistered(s: State, admits: Admitted, events: seq<Event>, name: string)
    returns (i: nat)
    requires IsRun(s, admits, events) && name in Final(s, admits, events).names
    requires name in s.names ==> Delete(name) in events
    ensures NamedBy(s, admits, events, name, Final(s, admits, events).names[name], i)
    decreases |events|
  {
    hide After;
    var e, s' := events[0], Apply(s, events[0]);
    if name in s'.names && Delete(name) !in events[1..] {
      i := 0;
      assert events == [e] + events[1..];
      RegistersNow(s, admits, events, e.id);
      NameKept(s', admits, events[1..], name);
    } else {
      assert events == [e] + events[1..];
      i := NameIsRegistered(s', admits, events[1..], name);
      RegistersLater(s, admits, events, i, Final(s, admits, events).names[name]);
      assert events[1..][i + 1..] == events[i + 2..];
      i := i + 1;
    }
  }

  /** These addresses were given when `realm` was registered. */
  ghost predicate RegisteredIn(admits: Admitted, events: seq<Event>, realm: nat, addrs: seq<string>)
    requires IsRun(Initial, admits, events)
  {
    exists i: nat :: Registers(Initial, admits, events, i, realm) && events[i].addresses == addrs
  }

  /** These addresses came with a post that reached connect `k` and named its nonce. */
  ghost predicate PostedIn(admits: Admitted, events: seq<Event>, k: nat, addrs: seq<string>)
    requires IsRun(Initial, admits, events)
  {
    var s := Final(Initial, admits, events);
    && k in s.connects
    && exists i: nat, h: nat :: Posts(Initial, admits, events, i, h) && events[i].addrs == addrs
         && h in s.posts && s.posts[h].applied && s.posts[h].target == k
         && s.posts[h].nonce == s.connects[k].body.nonce
  }

  lemma PostedForIsPostedIn(admits: Admitted, events: seq<Event>, k: nat, addrs: seq<string>)
    requires IsRun(Initial, admits, events) && PostedFor(Final(Initial, admits, events), k, addrs)
    ensures PostedIn(admits, events, k, addrs)
  {
    hide IsRun, Final, Posts;
    var s := Final(Initial, admits, events);
    var h :| h in s.posts && s.posts[h].applied && s.posts[h].target == k && s.posts[h].addrs == addrs
      && s.posts[h].nonce == s.connects[k].body.nonce;
    var i := PostWasMade(Initial, admits, events, h);
  }

  /** The reply to a connect carries addresses that were posted for its nonce, or those with which
      its realm was registered. */
  lemma ReplyCarriesPostedOrRegistered(admits: Admitted, events: seq<Event>, k: nat)
    requires IsRun(Initial, admits, events)
    requires k in Final(Initial, admits, events).connects && Final(Initial, admits, events).connects[k].stage.Replied?
    ensures var c := Final(Initial, admits, events).connects[k];
            RegisteredIn(admits, events, c.realm, c.stage.addrs) || PostedIn(admits, events, k, c.stage.addrs)
  {
    hide IsRun, Final, RealmOk, PostOk, Registers;
    InitialInv();
    RunInv(Initial, admits, events);
    var s := Final(Initial, admits, events);
    var c := s.connects[k];
    if PostedFor(s, k, c.stage.addrs) {
      PostedForIsPostedIn(admits, events, k, c.stage.addrs);
    } else {
      var i := RealmWasRegistered(Initial, admits, events, c.realm);
    }
  }

  /** What a connect's handler has read does not change. */
  lemma {:induction false} ReadStays(s: State, admits: Admitted, events: seq<Event>, k: nat)
    requires IsRun(s, admits, events) && k in s.connects && (s.connects[k].stage.Read? || s.connects[k].stage.Replied?)
    ensures var s' := Final(s, admits, events);
            && k in s'.connects && (s'.connects[k].stage.Read? || s'.connects[k].stage.Replied?)
            && s'.connects[k].stage.addrs == s.connects[k].stage.addrs && s'.connects[k].realm == s.connects[k].realm
    decreases |events|
  {
    hide Apply, Enabled;
    if events != [] {
      ReadKept(s, events[0], k);
      ReadStays(Apply(s, events[0]), admits, events[1..], k);
    }
  }

  lemma ReadKept(s: State, e: Event, k: nat)
    requires Enabled(s, e) && k in s.connects && (s.connects[k].stage.Read? || s.connects[k].stage.Replied?)
    ensures var s' := Apply(s, e);
            && k in s'.connects && (s'.connects[k].stage.Read? || s'.connects[k].stage.Replied?)
            && s'.connects[k].stage.addrs == s.connects[k].stage.addrs && s'.connects[k].realm == s.connects[k].realm
  {
  }

  /** A connect that no post has reached when its handler reads the result is answered with the
      addresses its realm was registered with, whatever comes later. */
  lemma UnansweredGetsRegistered(admits: Admitted, before: seq<Event>, after: seq<Event>, k: nat)
    requires IsRun(Initial, admits, before)
    requires var s := Final(Initial, admits, before);
             && k in s.connects && s.connects[k].stage.Waiting?
             && !Reached(s, k)
             && Enabled(s, ConnectRead(k)) && IsRun(Apply(s, ConnectRead(k)), admits, after)
    ensures var s := Final(Initial, admits, before);
            var s' := Final(Apply(s, ConnectRead(k)), admits, after);
            && k in s'.connects && (s'.connects[k].stage.Read? || s'.connects[k].stage.Replied?)
            && RegisteredIn(admits, before, s'.connects[k].realm, s'.connects[k].stage.addrs)
  {
    hide IsRun, Final, RealmOk, PostOk, Registers;
    InitialInv();
    RunInv(Initial, admits, before);
    var s := Final(Initial, admits, before);
    assert s.connects[k].answer.None?;
    var i := RealmWasRegistered(Initial, admits, before, s.connects[k].realm);
    ReadStays(Apply(s, ConnectRead(k)), admits, after, k);
  }

  /** Connect `k` was answered before its handler read the result. */
  ghost predicate Answered(s: State, k: nat) {
    && k in s.connects && s.connects[k].answer.Some?
    && (s.connects[k].stage.Read? || s.connects[k].stage.Replied? ==> PostedFor(s, k, s.connects[k].stage.addrs))
  }

  lemma AnsweredStep(s: State, e: Event, k: nat)
    requires Inv(s) && Enabled(s, e) && Answered(s, k)
    ensures Answered(Apply(s, e), k)
  {
    hide Apply, RealmOk, PostOk, Grows;
    ApplyGrows(s, e);
    ApplyConnect(s, e, k);
    ConnectChange(s, e, k);
    var c := s.connects[k];
    PostedForGrows(s, Apply(s, e), k, c.answer.value);
    if c.stage.Read? || c.stage.Replied? {
      PostedForGrows(s, Apply(s, e), k, c.stage.addrs);
    }
  }

  lemma {:induction false} AnsweredStays(s: State, admits: Admitted, events: seq<Event>, k: nat)
    requires Inv(s) && IsRun(s, admits, events) && Answered(s, k)
    ensures Answered(Final(s, admits, events), k)
    decreases |events|
  {
    hide Apply, Inv, Answered;
    if events != [] {
      AnsweredStep(s, events[0], k);
      InvStep(s, events[0]);
      AnsweredStays(Apply(s, events[0]), admits, events[1..], k);
    }
  }

  ghost predicate Reached(s: State, k: nat) {
    exists h :: h in s.posts && s.posts[h].applied && s.posts[h].target == k
  }

  /** A connect that a post has reached is answered. */
  ghost predicate ReachedAnswered(s: State) {
    forall h :: h in s.posts && s.posts[h].applied ==>
      s.posts[h].target in s.connects && s.connects[s.posts[h].target].answer.Some?
  }

  lemma ReachedStep(s: State, e: Event)
    requires ReachedAnswered(s) && Enabled(s, e)
    ensures ReachedAnswered(Apply(s, e))
  {
    forall h | h in Apply(s, e).posts && Apply(s, e).posts[h].applied
      ensures Apply(s, e).posts[h].target in Apply(s, e).connects
      ensures Apply(s, e).connects[Apply(s, e).posts[h].target].answer.Some?
    {
    }
  }

  lemma {:induction false} RunReached(s: State, admits: Admitted, events: seq<Event>)
    requires ReachedAnswered(s) && IsRun(s, admits, events)
    ensures ReachedAnswered(Final(s, admits, events))
    decreases |events|
  {
    hide Apply, Enabled, ReachedAnswered;
    if events != [] {
      ReachedStep(s, events[0]);
      RunReached(Apply(s, events[0]), admits, events[1..]);
    }
  }

  /** Once a post has reached a connect that is still waiting, its reply carries posted addresses
      in every continuation; the registered ones no longer count. */
  lemma {:induction false} PostedAddressesWin(admits: Admitted, before: seq<Event>, after: seq<Event>, k: nat)
    requires IsRun(Initial, admits, before) && IsRun(Final(Initial, admits, before), admits, after)
    requires var s := Final(Initial, admits, before);
             k in s.connects && s.connects[k].stage.Waiting? && Reached(s, k)
    ensures var s := Final(Final(Initial, admits, before), admits, after);
            k in s.connects && (s.connects[k].stage.Replied? ==> PostedFor(s, k, s.connects[k].stage.addrs))
  {
    hide Apply, IsRun, Final, Inv, PostedFor;
    InitialInv();
    RunInv(Initial, admits, before);
    RunReached(Initial, admits, before);
    AnsweredStays(Final(Initial, admits, before), admits, after, k);
  }

  /** The two sides brought together by an applied post hold the same nonce and key. */
  ghost predicate KeysAgree(s: State, h: nat)
    requires h in s.posts && s.posts[h].cause in s.connects && s.posts[h].target in s.connects
  {
    var server, client := s.connects[s.posts[h].cause].body, s.connects[s.posts[h].target].body;
    server.nonce == client.nonce && server.obfs == client.obfs
  }

  ghost predicate AllKeysAgree(s: State) {
    forall h :: h in s.posts && s.posts[h].applied ==>
      s.posts[h].cause in s.connects && s.posts[h].target in s.connects && KeysAgree(s, h)
  }

  ghost predicate NonceFixesKey(admits: Admitted) {
    forall a, b :: admits(a) && admits(b) && a.nonce == b.nonce ==> a.obfs == b.obfs
  }

  ghost predicate BodiesAdmitted(s: State, admits: Admitted) {
    forall k :: k in s.connects ==> admits(s.connects[k].body)
  }

  lemma {:induction false} RunAdmits(s: State, admits: Admitted, events: seq<Event>)
    requires BodiesAdmitted(s, admits) && IsRun(s, admits, events)
    ensures BodiesAdmitted(Final(s, admits, events), admits)
    decreases |events|
  {
    if events != [] {
      RunAdmits(Apply(s, events[0]), admits, events[1..]);
    }
  }

  lemma AgreeIfNonceFixesKey(admits: Admitted, events: seq<Event>)
    requires NonceFixesKey(admits) && IsRun(Initial, admits, events)
    ensures AllKeysAgree(Final(Initial, admits, events))
  {
    RunInv(Initial, admits, events);
    RunAdmits(Initial, admits, events);
  }

  // ----- A reused nonce with another key breaks the agreement

  predicate Live(s: State, k: nat) {
    k in s.connects && !s.connects[k].stage.Replied?
  }

  /** No two connects in progress carry one nonce. */
  ghost predicate LiveDistinct(s: State) {
    forall j, k :: Live(s, j) && Live(s, k) && s.connects[j].body.nonce == s.connects[k].body.nonce ==> j == k
  }

  ghost predicate DistinctThroughout(s: State, admits: Admitted, events: seq<Event>)
    requires IsRun(s, admits, events)
    decreases |events|
  {
    LiveDistinct(s) && (events != [] ==> DistinctThroughout(Apply(s, events[0]), admits, events[1..]))
  }

  lemma {:induction false} RunExtends(s: State, admits: Admitted, events: seq<Event>, e: Event)
    requires IsRun(s, admits, events) && Enabled(Final(s, admits, events), e)
    requires e.ConnectEnter? ==> admits(e.body)
    requires DistinctThroughout(s, admits, events) && LiveDistinct(Apply(Final(s, admits, events), e))
    ensures IsRun(s, admits, events + [e]) && DistinctThroughout(s, admits, events + [e])
    ensures Final(s, admits, events + [e]) == Apply(Final(s, admits, events), e)
    decreases |events|
  {
    hide Apply, Enabled, LiveDistinct;
    if events == [] {
      assert (events + [e])[1..] == [];
      assert IsRun(Apply(s, e), admits, []);
    } else {
      RunExtends(Apply(s, events[0]), admits, events[1..], e);
      assert (events + [e])[1..] == events[1..] + [e];
    }
  }

  lemma Extend(admits: Admitted, events: seq<Event>, e: Event) returns (s: State, events': seq<Event>)
    requires IsRun(Initial, admits, events) && Enabled(Final(Initial, admits, events), e)
    requires e.ConnectEnter? ==> admits(e.body)
    requires DistinctThroughout(Initial, admits, events)
    requires LiveDistinct(Apply(Final(Initial, admits, events), e))
    ensures IsRun(Initial, admits, events') && s == Final(Initial, admits, events')
    ensures DistinctThroughout(Initial, admits, events')
    ensures s == Apply(Final(Initial, admits, events), e)
  {
    hide Apply, Enabled;
    RunExtends(Initial, admits, events, e);
    s, events' := Final(Initial, admits, events + [e]), events + [e];
  }

  lemma EmptyRun(admits: Admitted)
    ensures IsRun(Initial, admits, []) && Final(Initial, admits, []) == Initial
    ensures DistinctThroughout(Initial, admits, [])
  {
  }

  lemma FirstQueued(admits: Admitted, a: ConnectBody) returns (s: State, events: seq<Event>)
    requires admits(a)
    ensures IsRun(Initial, admits, events) && s == Final(Initial, admits, events)
    ensures DistinctThroughout(Initial, admits, events)
    ensures s == State(map["r" := 0], map[0 := Realm([], [0], map[a.nonce := 0], [])],
                       map[0 := Connect(0, a, Waiting, None)], map[])
  {
    hide IsRun, Final, DistinctThroughout;
    EmptyRun(admits);
    s, events := Extend(admits, [], Register("r", [], 0));
    assert s == State(map["r" := 0], map[0 := Realm([], [], map[], [])], map[], map[]);
    s, events := Extend(admits, events, ConnectEnter(0, a, 0));
    assert s == State(map["r" := 0], map[0 := Realm([], [], map[a.nonce := 0], [])],
                      map[0 := Connect(0, a, Entered, None)], map[]);
    s, events := Extend(admits, events, ConnectQueue(0));
    var queue: seq<nat> := [0];
    assert [] + queue == queue;
  }

  /** A connect that came and went, its punch event still queued. */
  lemma FirstReplied(admits: Admitted, a: ConnectBody) returns (s: State, events: seq<Event>)
    requires admits(a)
    ensures IsRun(Initial, admits, events) && s == Final(Initial, admits, events)
    ensures DistinctThroughout(Initial, admits, events)
    ensures s == State(map["r" := 0], map[0 := Realm([], [0], map[], [])],
                       map[0 := Connect(0, a, Replied([]), None)], map[])
  {
    hide IsRun, Final, DistinctThroughout;
    s, events := FirstQueued(admits, a);
    s, events := Extend(admits, events, ConnectRead(0));
    assert s.connects == map[0 := Connect(0, a, Read([]), None)];
    s, events := Extend(admits, events, ConnectReply(0));
    assert map[a.nonce := 0 as nat] - {a.nonce} == map[];
  }

  /** Another connect with the same nonce enters, and the late poll hands out the first event. */
  lemma SecondEntered(admits: Admitted, a: ConnectBody, b: ConnectBody) returns (s: State, events: seq<Event>)
    requires admits(a) && admits(b) && a.nonce == b.nonce
    ensures IsRun(Initial, admits, events) && s == Final(Initial, admits, events)
    ensures DistinctThroughout(Initial, admits, events)
    ensures s.realms == map[0 := Realm([], [], map[b.nonce := 1], [0])] && s.posts == map[]
    ensures s.connects == map[0 := Connect(0, a, Replied([]), None), 1 := Connect(0, b, Entered, None)]
  {
    hide IsRun, Final, DistinctThroughout;
    s, events := FirstReplied(admits, a);
    s, events := Extend(admits, events, ConnectEnter(0, b, 1));
    s, events := Extend(admits, events, Poll(0));
    var queue: seq<nat> := [0];
    assert [] + queue == queue && queue[1..] == [];
  }

  /** The first connect was replied to before the second enters with the same nonce, so the
      nonces in progress are distinct all along; the late poll still hands out the first one's
      event, and its post reaches the second. */
  lemma ReusedNonceMisleads(admits: Admitted, a: ConnectBody, b: ConnectBody) returns (events: seq<Event>)
    requires admits(a) && admits(b) && a.nonce == b.nonce && a.obfs != b.obfs
    ensures IsRun(Initial, admits, events) && DistinctThroughout(Initial, admits, events)
    ensures !AllKeysAgree(Final(Initial, admits, events))
  {
    hide IsRun, Final, DistinctThroughout;
    var s: State;
    s, events := SecondEntered(admits, a, b);
    s, events := Extend(admits, events, PostLookup(0, 0, [], 0));
    s, events := Extend(admits, events, PostApply(0));
    assert s.posts[0].applied && !KeysAgree(s, 0);
  }

  ghost predicate AlwaysAgree(admits: Admitted) {
    forall events :: IsRun(Initial, admits, events) ==> AllKeysAgree(Final(Initial, admits, events))
  }

  /** In every run the two sides that go on to punch hold identical nonce and key, exactly when
      no client reuses a nonce with another key. */
  lemma KeysAgreeIffNonceFixesKey(admits: Admitted)
    ensures AlwaysAgree(admits) <==> NonceFixesKey(admits)
  {
    hide Apply, AllKeysAgree, IsRun;
    if NonceFixesKey(admits) {
      forall events | IsRun(Initial, admits, events)
        ensures AllKeysAgree(Final(Initial, admits, events))
      {
        AgreeIfNonceFixesKey(admits, events);
      }
    } else {
      var a, b :| admits(a) && admits(b) && a.nonce == b.nonce && a.obfs != b.obfs;
      var events := ReusedNonceMisleads(admits, a, b);
    }
  }

  ghost predicate AgreeWhileDistinct(admits: Admitted) {
    forall events :: IsRun(Initial, admits, events) && DistinctThroughout(Initial, admits, events) ==>
      AllKeysAgree(Final(Initial, admits, events))
  }

  /** Keeping the nonces in progress distinct changes nothing: the condition stays the same. */
  lemma DistinctLiveNoncesDoNotSuffice(admits: Admitted)
    ensures AgreeWhileDistinct(admits) <==> NonceFixesKey(admits)
  {
    hide Apply, AllKeysAgree, IsRun, DistinctThroughout;
    if NonceFixesKey(admits) {
      KeysAgreeIffNonceFixesKey(admits);
    } else {
      var a, b :| admits(a) && admits(b) && a.nonce == b.nonce && a.obfs != b.obfs;
      var events := ReusedNonceMisleads(admits, a, b);
    }
  }
}
