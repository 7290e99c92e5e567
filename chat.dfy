/**
 * The socket handlers of server.js as pure steps. The two module-level
 * dictionaries are `users` (socket id to `{ username }`) and `sockets`
 * (username to socket id); `order` is the property order the JavaScript
 * engine keeps for `sockets`, which is what `Object.keys(sockets)` returns.
 * Each handler runs to completion on Node's event loop, so one handler is one
 * step: it gives the new registry and the events it emitted, in order.
 */
module Chat {
  import opened Wrappers

  /** socket.io connection ids are never empty strings, so a stored id is truthy. */
  type SocketId = s: string | s != "" witness "0"
  type Username = string

  /** The record stored in `users[socket.id]`. */
  datatype User = User(username: Username)

  /** The payload of an outbound event; `EventName` gives the event it travels under. */
  datatype Payload =
    | Joined(joined: Username)
    | Left(left: Username)
    | Roster(usernames: seq<Username>)
    | Public(user: Username, text: string)
    | Private(from: Username, message: string)

  const OutboundEvents: set<string> :=
    {"user-joined", "user-left", "online-users", "message", "private-message"}

  /** The server only ever emits these five events; in particular it never emits `username`. */
  function EventName(p: Payload): (name: string)
    ensures name in OutboundEvents && name != "username"
  {
    match p
    case Joined(_) => "user-joined"
    case Left(_) => "user-left"
    case Roster(_) => "online-users"
    case Public(_, _) => "message"
    case Private(_, _) => "private-message"
  }

  /** `io.emit(...)` reaches every connection; `io.to(id).emit(...)` only `id`. */
  datatype Emit = Broadcast(payload: Payload) | ToSocket(target: SocketId, payload: Payload)

  /** The live connections an emit is delivered to. */
  function Recipients(e: Emit, live: set<SocketId>): (r: set<SocketId>)
    ensures r <= live
    ensures e.Broadcast? ==> r == live
    ensures e.ToSocket? ==> r <= {e.target} && (e.target in live <==> e.target in r)
  {
    match e
    case Broadcast(_) => live
    case ToSocket(t, _) => if t in live then {t} else {}
  }

  datatype Registry = Registry(users: map<SocketId, User>, sockets: map<Username, SocketId>, order: seq<Username>)

  const Empty := Registry(map[], map[], [])

  predicate Distinct<T(==)>(s: seq<T>)
  {
    forall i, j :: 0 <= i < j < |s| ==> s[i] != s[j]
  }

  /** `order` lists each key of `sockets` exactly once, and nothing else. */
  ghost predicate Valid(r: Registry)
  {
    && Distinct(r.order)
    && (forall u :: u in r.sockets <==> u in r.order)
  }

  /**
   * The two dictionaries are mutually inverse: every registered socket is the
   * holder of its name, and every name is held by a registered socket that
   * carries it.
   */
  ghost predicate Paired(r: Registry)
  {
    && (forall s :: s in r.users ==> r.users[s].username in r.sockets && r.sockets[r.users[s].username] == s)
    && (forall u :: u in r.sockets ==> r.sockets[u] in r.users && r.users[r.sockets[u]].username == u)
  }

  /** `order` after `delete sockets[u]`: `u` leaves, every other key stays. */
  function Without(order: seq<Username>, u: Username): (r: seq<Username>)
    ensures forall x :: x in r <==> x in order && x != u
    ensures u !in order ==> r == order
    ensures Distinct(order) ==> Distinct(r)
  {
    if order == [] then []
    else if order[0] == u then Without(order[1..], u)
    else
      var rest := Without(order[1..], u);
      assert Distinct(order) ==> order[0] !in rest;
      [order[0]] + rest
  }

  /** Deleting a key takes it out of its place and moves no other key. */
  lemma {:induction false} WithoutKeepsPlaces(order: seq<Username>, i: nat)
    requires i < |order| && Distinct(order)
    ensures Without(order, order[i]) == order[..i] + order[i + 1..]
  {
    var u := order[i];
    if i == 0 {
      assert u !in order[1..];
    } else {
      WithoutKeepsPlaces(order[1..], i - 1);
      assert order[1..][..i - 1] + order[1..][i..] == order[1..i] + order[i + 1..];
      assert order[..i] == [order[0]] + order[1..i];
    }
  }

  /** The new registry and the events one handler emitted, in emission order. */
  datatype Reaction = Reaction(next: Registry, out: seq<Emit>)

  /**
   * `socket.on('register')`: binds the socket to the name and the name to the
   * socket with no duplicate check, then broadcasts `user-joined` (to the
   * joiner too) and the roster taken after the update.
   */
  function OnRegister(r: Registry, s: SocketId, u: Username): (x: Reaction)
    ensures x.next.users.Keys == r.users.Keys + {s} && x.next.users[s] == User(u)
    ensures forall t :: t in r.users && t != s ==> x.next.users[t] == r.users[t]
    ensures x.next.sockets.Keys == r.sockets.Keys + {u} && x.next.sockets[u] == s
    ensures forall v :: v in r.sockets && v != u ==> x.next.sockets[v] == r.sockets[v]
    ensures u in r.sockets ==> x.next.order == r.order
    ensures u !in r.sockets ==> x.next.order == r.order + [u]
    ensures x.out == [Broadcast(Joined(u)), Broadcast(Roster(x.next.order))]
    ensures Valid(r) ==> Valid(x.next)
  {
    var next := Registry(r.users[s := User(u)], r.sockets[u := s],
                         if u in r.sockets then r.order else r.order + [u]);
    Reaction(next, [Broadcast(Joined(u)), Broadcast(Roster(next.order))])
  }

  /**
   * `socket.on('disconnect')`: a socket with no `users` entry changes nothing
   * and emits nothing; otherwise its name and its entry are deleted and
   * `user-left` and the new roster are broadcast.
   */
  function OnDisconnect(r: Registry, s: SocketId): (x: Reaction)
    ensures s !in r.users ==> x == Reaction(r, [])
    ensures s in r.users ==>
              var name := r.users[s].username;
              && x.next.users == r.users - {s}
              && x.next.sockets == r.sockets - {name}
              && x.next.order == Without(r.order, name)
              && x.out == [Broadcast(Left(name)), Broadcast(Roster(x.next.order))]
    ensures s !in x.next.users
    ensures Valid(r) ==> Valid(x.next)
  {
    if s in r.users then
      var name := r.users[s].username;
      var next := Registry(r.users - {s}, r.sockets - {name}, Without(r.order, name));
      Reaction(next, [Broadcast(Left(name)), Broadcast(Roster(next.order))])
    else
      Reaction(r, [])
  }

  /**
   * `socket.on('message')`: only a registered socket is heard, and then the
   * text goes out once, to everyone, under the sender's current name.
   */
  function OnMessage(r: Registry, s: SocketId, text: string): (x: Reaction)
    ensures x.next == r
    ensures s in r.users <==> x.out != []
    ensures s in r.users ==> x.out == [Broadcast(Public(r.users[s].username, text))]
  {
    if s in r.users then Reaction(r, [Broadcast(Public(r.users[s].username, text))])
    else Reaction(r, [])
  }

  /**
   * `socket.on('private-message')`: emits exactly when the sender is
   * registered and the target name is a key of `sockets`, and then only to
   * the socket that name maps to.
   */
  function OnPrivateMessage(r: Registry, s: SocketId, to: Username, message: string): (x: Reaction)
    ensures x.next == r
    ensures (s in r.users && to in r.sockets) <==> x.out != []
    ensures x.out != [] ==> x.out == [ToSocket(r.sockets[to], Private(r.users[s].username, message))]
  {
    if s in r.users && to in r.sockets then
      Reaction(r, [ToSocket(r.sockets[to], Private(r.users[s].username, message))])
    else
      Reaction(r, [])
  }

  /** An inbound socket event, tagged with the socket it arrived on. */
  datatype Inbound =
    | Register(socket: SocketId, username: Username)
    | Disconnect(socket: SocketId)
    | Message(socket: SocketId, text: string)
    | PrivateMessage(socket: SocketId, to: Username, message: string)

  /** `socket.on(...)` dispatch: the handler for the event's name runs to completion. */
  function Step(r: Registry, e: Inbound): (x: Reaction)
    ensures Valid(r) ==> Valid(x.next)
    ensures e.Message? || e.PrivateMessage? ==> x.next == r
    ensures |x.out| <= 2
    ensures e.Register? || e.Disconnect? || e.Message? ==> forall em :: em in x.out ==> em.Broadcast?
  {
    match e
    case Register(s, u) => OnRegister(r, s, u)
    case Disconnect(s) => OnDisconnect(r, s)
    case Message(s, text) => OnMessage(r, s, text)
    case PrivateMessage(s, to, m) => OnPrivateMessage(r, s, to, m)
  }

  /** The handlers run one after another over a sequence of events. */
  function Run(r: Registry, es: seq<Inbound>): (x: Reaction)
    ensures |x.out| <= 2 * |es|
    decreases |es|
  {
    if es == [] then Reaction(r, [])
    else
      var first := Step(r, es[0]);
      var rest := Run(first.next, es[1..]);
      Reaction(rest.next, first.out + rest.out)
  }

  /** Only `private-message` emits to one socket; every other emit of a run is a broadcast. */
  lemma {:induction false} RunDirectsOnlyPrivate(r: Registry, es: seq<Inbound>)
    ensures forall em :: em in Run(r, es).out && em.ToSocket? ==> em.payload.Private?
    decreases |es|
  {
    if es != [] {
      RunDirectsOnlyPrivate(Step(r, es[0]).next, es[1..]);
    }
  }

  lemma {:induction false} RunKeepsValid(r: Registry, es: seq<Inbound>)
    requires Valid(r)
    ensures Valid(Run(r, es).next)
    decreases |es|
  {
    if es != [] {
      RunKeepsValid(Step(r, es[0]).next, es[1..]);
    }
  }

  /** Every `online-users` payload lists the keys of `sockets` after the update, each once. */
  lemma StepRosterIsKeys(r: Registry, e: Inbound)
    requires Valid(r)
    ensures var x := Step(r, e);
            forall em :: em in x.out && em.payload.Roster? ==>
              && em == Broadcast(Roster(x.next.order))
              && Distinct(em.payload.usernames)
              && (forall u :: u in em.payload.usernames <==> u in x.next.sockets)
  {
  }

  /** The roster a client holds after seeing `out`, starting from `seen`. */
  function LatestRoster(out: seq<Emit>, seen: seq<Username>): (r: seq<Username>)
    ensures (forall i :: 0 <= i < |out| ==> !(out[i].Broadcast? && out[i].payload.Roster?)) ==> r == seen
    ensures r == seen || exists i :: 0 <= i < |out| && out[i] == Broadcast(Roster(r))
    decreases |out|
  {
    if out == [] then seen else LatestRoster(out[1..], Saw(out[0], seen))
  }

  /** A client replaces its roster on every `online-users` broadcast and keeps it otherwise. */
  function Saw(e: Emit, seen: seq<Username>): (r: seq<Username>)
    ensures e.Broadcast? && e.payload.Roster? ==> r == e.payload.usernames
    ensures !(e.Broadcast? && e.payload.Roster?) ==> r == seen
  {
    match e
    case Broadcast(Roster(names)) => names
    case _ => seen
  }

  lemma {:induction false} LatestRosterAppend(a: seq<Emit>, b: seq<Emit>, seen: seq<Username>)
    ensures LatestRoster(a + b, seen) == LatestRoster(b, LatestRoster(a, seen))
    decreases |a|
  {
    if a == [] {
      assert a + b == b;
    } else {
      assert (a + b)[0] == a[0] && (a + b)[1..] == a[1..] + b;
      LatestRosterAppend(a[1..], b, Saw(a[0], seen));
    }
  }

  /**
   * No staleness: a client that started from the roster `r.order` and received
   * every broadcast holds exactly the current key order of `sockets`.
   */
  lemma {:induction false} RosterNeverStale(r: Registry, es: seq<Inbound>)
    ensures LatestRoster(Run(r, es).out, r.order) == Run(r, es).next.order
    decreases |es|
  {
    if es != [] {
      var first := Step(r, es[0]);
      RosterNeverStale(first.next, es[1..]);
      LatestRosterAppend(first.out, Run(first.next, es[1..]).out, r.order);
      StepLatestRoster(r, es[0]);
    }
  }

  /** Each handler leaves a client that saw its broadcasts with the new key order. */
  lemma StepLatestRoster(r: Registry, e: Inbound)
    ensures LatestRoster(Step(r, e).out, r.order) == Step(r, e).next.order
  {
    var x := Step(r, e);
    if x.out != [] && (e.Register? || e.Disconnect?) {
      assert x.out[1..][1..] == [];
      assert LatestRoster(x.out[1..], Saw(x.out[0], r.order)) == x.next.order;
    } else if x.out != [] {
      assert x.out[1..] == [];
      assert x.next == r;
    }
  }

  /**
   * Registering keeps the maps inverse exactly when the socket held no other
   * name and no other socket held this name.
   */
  ghost predicate Clean(r: Registry, s: SocketId, u: Username)
  {
    && (s in r.users ==> r.users[s].username == u)
    && (u in r.sockets ==> r.sockets[u] == s)
  }

  lemma RegisterPairedIff(r: Registry, s: SocketId, u: Username)
    requires Paired(r)
    ensures Paired(OnRegister(r, s, u).next) <==> Clean(r, s, u)
  {
    var n := OnRegister(r, s, u).next;
    if s in r.users && r.users[s].username != u {
      var old_name := r.users[s].username;
      assert n.sockets[old_name] == s && n.users[s].username != old_name;
    } else if u in r.sockets && r.sockets[u] != s {
      var t := r.sockets[u];
      assert t in n.users && n.users[t].username == u && n.sockets[u] != t;
    }
  }

  lemma DisconnectKeepsPaired(r: Registry, s: SocketId)
    requires Paired(r)
    ensures Paired(OnDisconnect(r, s).next)
  {
  }

  /** Every registration along the run is clean in the state it meets. */
  ghost predicate CleanRun(r: Registry, es: seq<Inbound>)
    decreases |es|
  {
    es != [] ==>
      && (es[0].Register? ==> Clean(r, es[0].socket, es[0].username))
      && CleanRun(Step(r, es[0]).next, es[1..])
  }

  lemma {:induction false} RunKeepsPaired(r: Registry, es: seq<Inbound>)
    requires Paired(r) && CleanRun(r, es)
    ensures Paired(Run(r, es).next)
    decreases |es|
  {
    if es != [] {
      if es[0].Register? {
        RegisterPairedIff(r, es[0].socket, es[0].username);
      } else if es[0].Disconnect? {
        DisconnectKeepsPaired(r, es[0].socket);
      }
      RunKeepsPaired(Step(r, es[0]).next, es[1..]);
    }
  }

  /** While the maps are inverse, the roster is exactly the names of registered sockets. */
  lemma PairedRosterIsRegistered(r: Registry)
    requires Valid(r) && Paired(r)
    ensures forall u :: u in r.order <==> exists s :: s in r.users && r.users[s].username == u
  {
    forall u | u in r.order ensures exists s :: s in r.users && r.users[s].username == u {
      var s := r.sockets[u];
      assert s in r.users && r.users[s].username == u;
    }
  }

  /**
   * A second socket taking a name that is in use: when the first one leaves it
   * deletes the name, so the second is still registered but off the roster and
   * unreachable by private message.
   */
  lemma SharedNameDropsLiveUser()
    ensures var x := Run(Empty, [Register("a", "bob"), Register("b", "bob"), Disconnect("a")]);
            && x.next.users == map["b" := User("bob")]
            && x.next.sockets == map[]
            && x.next.order == []
            && Recipients(x.out[4], {"b"}) == {"b"} && x.out[4] == Broadcast(Left("bob"))
            && OnPrivateMessage(x.next, "b", "bob", "hi").out == []
  {
    var r1 := OnRegister(Empty, "a", "bob").next;
    var r2 := OnRegister(r1, "b", "bob").next;
    var r3 := OnDisconnect(r2, "a").next;
    assert r2.users == map["a" := User("bob"), "b" := User("bob")];
    assert r2.sockets == map["bob" := "b"];
    assert r3.users == map["b" := User("bob")];
  }

  /**
   * A socket registering twice keeps its first name in `sockets`; after it
   * disconnects the first name stays on the roster, still pointing at it, and
   * a private message to that name is addressed to the departed socket.
   */
  lemma ReRegisterLeavesStaleName()
    ensures var x := Run(Empty, [Register("a", "bob"), Register("a", "carl"), Disconnect("a"),
                                 Register("c", "dan"), PrivateMessage("c", "bob", "hi")]);
            && x.next.users == map["c" := User("dan")]
            && x.next.sockets == map["bob" := "a", "dan" := "c"]
            && x.next.order == ["bob", "dan"]
            && x.out != [] && x.out[|x.out| - 1] == ToSocket("a", Private("dan", "hi"))
  {
    var early := [Register("a", "bob"), Register("a", "carl"), Disconnect("a")];
    var late := [Register("c", "dan"), PrivateMessage("c", "bob", "hi")];
    var r3 := Registry(map[], map["bob" := "a"], ["bob"]);
    StaleAfterLeaving(early);
    StaleNameReached(r3, late);
    RunAppend(Empty, early, late);
    assert early + late == [Register("a", "bob"), Register("a", "carl"), Disconnect("a"),
                            Register("c", "dan"), PrivateMessage("c", "bob", "hi")];
  }

  lemma StaleAfterLeaving(es: seq<Inbound>)
    requires es == [Register("a", "bob"), Register("a", "carl"), Disconnect("a")]
    ensures Run(Empty, es).next == Registry(map[], map["bob" := "a"], ["bob"])
  {
    var r1 := OnRegister(Empty, "a", "bob").next;
    var r2 := OnRegister(r1, "a", "carl").next;
    assert r2.sockets == map["bob" := "a", "carl" := "a"] && r2.order == ["bob", "carl"];
    var r3 := OnDisconnect(r2, "a").next;
    assert Without(["carl"], "carl") == [];
    assert Without(["bob", "carl"], "carl") == ["bob"];
    assert r3 == Registry(map[], map["bob" := "a"], ["bob"]);
    assert Run(r2, es[2..]).next == r3;
    assert Run(r1, es[1..]).next == r3;
  }

  lemma StaleNameReached(r3: Registry, es: seq<Inbound>)
    requires r3 == Registry(map[], map["bob" := "a"], ["bob"])
    requires es == [Register("c", "dan"), PrivateMessage("c", "bob", "hi")]
    ensures var x := Run(r3, es);
            && x.next == Registry(map["c" := User("dan")], map["bob" := "a", "dan" := "c"], ["bob", "dan"])
            && x.out != [] && x.out[|x.out| - 1] == ToSocket("a", Private("dan", "hi"))
  {
    var r4 := OnRegister(r3, "c", "dan").next;
    assert r4 == Registry(map["c" := User("dan")], map["bob" := "a", "dan" := "c"], ["bob", "dan"]);
    var last := ToSocket("a", Private("dan", "hi"));
    assert Run(r4, es[1..]) == Reaction(r4, [last]);
  }

  /** Running `a` then `b` is running `a + b`: the outbox of the whole is the two outboxes, in order. */
  lemma {:induction false} RunAppend(r: Registry, a: seq<Inbound>, b: seq<Inbound>)
    ensures var first := Run(r, a);
            var second := Run(first.next, b);
            Run(r, a + b) == Reaction(second.next, first.out + second.out)
    decreases |a|
  {
    if a == [] {
      assert a + b == b;
    } else {
      var ab := a + b;
      assert ab[0] == a[0];
      assert ab[1..] == a[1..] + b;
      var x := Step(r, a[0]);
      var tail := Run(x.next, a[1..]);
      var second := Run(tail.next, b);
      RunAppend(x.next, a[1..], b);
      assert x.out + (tail.out + second.out) == (x.out + tail.out) + second.out;
    }
  }

  /** `user-joined` is broadcast, so a live joiner receives its own join. */
  lemma JoinerHearsOwnJoin(r: Registry, s: SocketId, u: Username, live: set<SocketId>)
    requires s in live
    ensures var x := OnRegister(r, s, u);
            x.out[0].payload == Joined(u) && s in Recipients(x.out[0], live)
  {
  }

  /** A chat message reaches every live connection, the sender included, attributed to the sender. */
  lemma MessageReachesEveryone(r: Registry, s: SocketId, text: string, live: set<SocketId>)
    requires s in r.users
    ensures var x := OnMessage(r, s, text);
            |x.out| == 1 && Recipients(x.out[0], live) == live
            && x.out[0].payload == Public(r.users[s].username, text)
  {
  }

  /**
   * A private message reaches at most the socket its target name maps to, and
   * no other live connection; while the maps are inverse that socket carries
   * the target name.
   */
  lemma PrivateReachesOnlyTarget(r: Registry, s: SocketId, to: Username, m: string, live: set<SocketId>)
    requires Paired(r)
    ensures var x := OnPrivateMessage(r, s, to, m);
            forall em, t :: em in x.out && t in Recipients(em, live) ==>
              to in r.sockets && t == r.sockets[to] && t in r.users && r.users[t].username == to
  {
  }
}
