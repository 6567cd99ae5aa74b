/**
 Caches that mirror the kernel's tables from its messages, and tell listeners of every change:
 routes (fabric/src/route_manager.cpp) and neighbours (fabric/src/neighbor_manager.cpp).
 A message comes with its attributes already split; the wire form is that of `NetlinkAttributes`.
 */
module KeyedCache {
  import opened Wrappers

  /** What a message asks of a cache. */
  datatype Change<K, D> = Ignore | Put(key: K, data: D) | Drop(key: K)

  datatype Notice<K, D> = Added(key: K, data: D) | Modified(key: K, data: D) | Deleted(key: K, data: D)

  function Apply<K(==), D>(c: map<K, D>, ch: Change<K, D>): map<K, D> {
    match ch
    case Ignore => c
    case Put(key, data) => c[key := data]
    case Drop(key) => c - {key}
  }

  /** What listeners are told of it. */
  function Tell<K(==), D>(c: map<K, D>, ch: Change<K, D>): seq<Notice<K, D>> {
    match ch
    case Ignore => []
    case Put(key, data) => [if key in c then Modified(key, data) else Added(key, data)]
    case Drop(key) => if key in c then [Deleted(key, c[key])] else []
  }

  function Run<K(==), D>(changes: seq<Change<K, D>>): map<K, D> {
    if changes == [] then map[]
    else Apply(Run(changes[..|changes| - 1]), changes[|changes| - 1])
  }

  function Told<K(==), D>(changes: seq<Change<K, D>>): seq<Notice<K, D>> {
    if changes == [] then []
    else
      var front := changes[..|changes| - 1];
      Told(front) + Tell(Run(front), changes[|changes| - 1])
  }

  /** The last change that is about a key. */
  function LastAbout<K(==), D>(changes: seq<Change<K, D>>, key: K): Option<Change<K, D>> {
    if changes == [] then None
    else
      var last := changes[|changes| - 1];
      if !last.Ignore? && last.key == key then Some(last) else LastAbout(changes[..|changes| - 1], key)
  }

  /** The cache is its history: it holds a key exactly when the last change about it put it there, and with that data. */
  lemma {:induction false} CacheIsHistory<K, D>(changes: seq<Change<K, D>>, key: K)
    ensures key in Run(changes) <==> LastAbout(changes, key).Some? && LastAbout(changes, key).value.Put?
    ensures key in Run(changes) ==> Run(changes)[key] == LastAbout(changes, key).value.data
  {
    if changes != [] { CacheIsHistory(changes[..|changes| - 1], key); }
  }

  predicate Concerns<K(==), D>(ch: Change<K, D>, key: K) { !ch.Ignore? && ch.key == key }

  /** Change `i` is the last one about the key. */
  predicate LastAt<K(==), D>(changes: seq<Change<K, D>>, key: K, i: nat) {
    i < |changes| && Concerns(changes[i], key) && forall k :: i < k < |changes| ==> !Concerns(changes[k], key)
  }

  lemma {:induction false} LastAboutIsAt<K, D>(changes: seq<Change<K, D>>, key: K, i: nat)
    requires LastAt(changes, key, i)
    ensures LastAbout(changes, key) == Some(changes[i])
  {
    var n := |changes| - 1;
    if i < n { LastAboutIsAt(changes[..n], key, i); }
  }

  lemma {:induction false} SomeLast<K, D>(changes: seq<Change<K, D>>, key: K)
    requires LastAbout(changes, key).Some?
    ensures exists i :: 0 <= i < |changes| && LastAt(changes, key, i)
  {
    var n := |changes| - 1;
    if Concerns(changes[n], key) {
      assert LastAt(changes, key, n);
    } else {
      SomeLast(changes[..n], key);
      var i :| 0 <= i < n && LastAt(changes[..n], key, i);
      assert LastAt(changes, key, i);
    }
  }

  function Learn<K(==), D>(known: map<K, D>, n: Notice<K, D>): map<K, D> {
    match n
    case Added(key, data) => known[key := data]
    case Modified(key, data) => known[key := data]
    case Deleted(key, _) => known - {key}
  }

  /** What a listener knows who takes every notice at its word. */
  function Replay<K(==), D>(notices: seq<Notice<K, D>>): map<K, D> {
    if notices == [] then map[]
    else Learn(Replay(notices[..|notices| - 1]), notices[|notices| - 1])
  }

  /** Added only what was not known, modified and deleted only what was. */
  ghost predicate Orderly<K, D>(notices: seq<Notice<K, D>>) {
    forall i | 0 <= i < |notices| :: notices[i].Added? <==> notices[i].key !in Replay(notices[..i])
  }

  lemma OrderlySnoc<K, D>(notices: seq<Notice<K, D>>, last: Notice<K, D>)
    requires Orderly(notices) && (last.Added? <==> last.key !in Replay(notices))
    ensures Orderly(notices + [last]) && Replay(notices + [last]) == Learn(Replay(notices), last)
  {
    var more := notices + [last];
    assert forall i | 0 <= i < |notices| :: more[..i] == notices[..i];
    assert more[..|notices|] == notices;
  }

  lemma OneChange<K, D>(notices: seq<Notice<K, D>>, c: map<K, D>, ch: Change<K, D>)
    requires Replay(notices) == c && Orderly(notices)
    ensures Replay(notices + Tell(c, ch)) == Apply(c, ch) && Orderly(notices + Tell(c, ch))
  {
    hide Replay, Orderly;
    if Tell(c, ch) == [] {
      assert notices + [] == notices;
      assert Apply(c, ch) == c;
    } else {
      OrderlySnoc(notices, Tell(c, ch)[0]);
    }
  }

  /** A listener reconstructs the cache, and is never told anything out of order. */
  lemma {:induction false} ListenerIsRight<K, D>(changes: seq<Change<K, D>>)
    ensures Replay(Told(changes)) == Run(changes) && Orderly(Told(changes))
  {
    hide Replay, Orderly, Apply, Tell;
    if changes == [] {
      NothingTold<K, D>();
    } else {
      var front, last := changes[..|changes| - 1], changes[|changes| - 1];
      ListenerIsRight(front);
      OneChange(Told(front), Run(front), last);
    }
  }

  lemma NothingTold<K, D>()
    ensures Replay<K, D>([]) == map[] && Orderly<K, D>([])
  {}
}

module RouteCache {
  import opened KeyedCache
  import opened MessageAttributes
  import opened Wrappers

  const RT_TABLE_MAIN := 254
  const RTN_UNICAST := 1
  const RT_SCOPE_UNIVERSE := 0
  const RTPROT_STATIC := 4

  datatype Family = Inet | Inet6 | OtherFamily

  /** An address, as its family and its number; 0 is the wildcard. */
  datatype Ip = Ip(family: Family, number: nat)

  datatype RouteKey = RouteKey(index: nat, dest: Ip, prefix: nat)

  datatype RouteData = RouteData(gateway: Ip, metric: nat, kind: nat, scope: nat, protocol: nat)

  /** What a route holds before its first message is applied. */
  const FRESH: RouteData := RouteData(Ip(Inet, 0), 0, RTN_UNICAST, RT_SCOPE_UNIVERSE, RTPROT_STATIC)

  datatype Attribute = Dst(number: nat) | Gateway(number: nat) | Priority(n: nat) | Oif(n: nat) | OtherAttribute

  datatype Message = Message(
    deleted: bool, family: Family, table: nat, dstLen: nat, kind: nat, scope: nat, protocol: nat, attributes: seq<Attribute>)

  datatype Fields = Fields(index: nat, dest: Ip, gateway: Ip, metric: nat)

  /** The attributes, each kind's last one counting. */
  function Gather(family: Family, attributes: seq<Attribute>): Fields {
    if attributes == [] then Fields(0, Ip(family, 0), Ip(family, 0), 0)
    else
      var f := Gather(family, attributes[..|attributes| - 1]);
      match attributes[|attributes| - 1]
      case Dst(number) => f.(dest := Ip(family, number))
      case Gateway(number) => f.(gateway := Ip(family, number))
      case Priority(n) => f.(metric := n)
      case Oif(n) => f.(index := n)
      case OtherAttribute => f
  }

  /** Only the main table, and only routes with an output interface. */
  function Understand(m: Message): Change<RouteKey, RouteData> {
    var f := Gather(m.family, m.attributes);
    if m.family == OtherFamily || m.table != RT_TABLE_MAIN || f.index == 0 then Ignore
    else if m.deleted then Drop(RouteKey(f.index, f.dest, m.dstLen))
    else Put(RouteKey(f.index, f.dest, m.dstLen), RouteData(f.gateway, f.metric, m.kind, m.scope, m.protocol))
  }

  function UnderstandAll(messages: seq<Message>): (r: seq<Change<RouteKey, RouteData>>)
    ensures |r| == |messages|
  {
    if messages == [] then []
    else UnderstandAll(messages[..|messages| - 1]) + [Understand(messages[|messages| - 1])]
  }

  // ----- what a message says, attribute by attribute

  function DstOf(a: Attribute): Option<nat> { if a.Dst? then Some(a.number) else None }
  function GatewayOf(a: Attribute): Option<nat> { if a.Gateway? then Some(a.number) else None }
  function PriorityOf(a: Attribute): Option<nat> { if a.Priority? then Some(a.n) else None }
  function OifOf(a: Attribute): Option<nat> { if a.Oif? then Some(a.n) else None }

  predicate SaysDest(m: Message, ip: Ip) { ip.family == m.family && LastCounts(m.attributes, DstOf, 0, ip.number) }
  predicate SaysGateway(m: Message, ip: Ip) { ip.family == m.family && LastCounts(m.attributes, GatewayOf, 0, ip.number) }
  predicate SaysMetric(m: Message, n: nat) { LastCounts(m.attributes, PriorityOf, 0, n) }
  predicate SaysIndex(m: Message, n: nat) { LastCounts(m.attributes, OifOf, 0, n) }

  /** The main table, IPv4 or IPv6, and an output interface. */
  predicate Accepted(m: Message) {
    (m.family == Inet || m.family == Inet6) && m.table == RT_TABLE_MAIN && !SaysIndex(m, 0)
  }

  predicate About(m: Message, key: RouteKey) {
    Accepted(m) && SaysIndex(m, key.index) && SaysDest(m, key.dest) && m.dstLen == key.prefix
  }

  predicate Holds(m: Message, d: RouteData) {
    && SaysGateway(m, d.gateway) && SaysMetric(m, d.metric)
    && m.kind == d.kind && m.scope == d.scope && m.protocol == d.protocol
  }

  lemma {:induction false} GatherSays(m: Message, attributes: seq<Attribute>)
    ensures
      var f := Gather(m.family, attributes);
      && f.dest.family == m.family && LastCounts(attributes, DstOf, 0, f.dest.number)
      && f.gateway.family == m.family && LastCounts(attributes, GatewayOf, 0, f.gateway.number)
      && LastCounts(attributes, PriorityOf, 0, f.metric)
      && LastCounts(attributes, OifOf, 0, f.index)
  {
    hide LastCounts;
    if attributes == [] {
      NoneGiven(DstOf, 0);
      NoneGiven(GatewayOf, 0);
      NoneGiven(PriorityOf, 0);
      NoneGiven(OifOf, 0);
    } else {
      var front, last := attributes[..|attributes| - 1], attributes[|attributes| - 1];
      var f := Gather(m.family, front);
      GatherSays(m, front);
      assert attributes == front + [last];
      OneMoreGiven(front, last, DstOf, 0, f.dest.number);
      OneMoreGiven(front, last, GatewayOf, 0, f.gateway.number);
      OneMoreGiven(front, last, PriorityOf, 0, f.metric);
      OneMoreGiven(front, last, OifOf, 0, f.index);
    }
  }

  /** A message asks for something exactly when it is accepted, and then about exactly its own route
      and with exactly its own data. */
  lemma UnderstandExactly(m: Message, key: RouteKey)
    ensures Understand(m).Ignore? <==> !Accepted(m)
    ensures !Understand(m).Ignore? && Understand(m).key == key <==> About(m, key)
    ensures !Understand(m).Ignore? ==> (Understand(m).Drop? <==> m.deleted)
    ensures Understand(m).Put? ==> forall d :: Holds(m, d) <==> d == Understand(m).data
  {
    GatherSays(m, m.attributes);
    var f := Gather(m.family, m.attributes);
    hide LastCounts;
    forall n | SaysIndex(m, n) ensures n == f.index { GivenIsOne(m.attributes, OifOf, 0, n, f.index); }
    forall ip | SaysDest(m, ip) ensures ip == f.dest { GivenIsOne(m.attributes, DstOf, 0, ip.number, f.dest.number); }
    forall d | Holds(m, d) ensures d.gateway == f.gateway && d.metric == f.metric {
      GivenIsOne(m.attributes, GatewayOf, 0, d.gateway.number, f.gateway.number);
      GivenIsOne(m.attributes, PriorityOf, 0, d.metric, f.metric);
    }
    assert Accepted(m) ==> About(m, RouteKey(f.index, f.dest, m.dstLen));
  }

  /** Message `i` is the last one about the route. */
  predicate LastWord(messages: seq<Message>, key: RouteKey, i: nat) {
    i < |messages| && About(messages[i], key) && forall k :: i < k < |messages| ==> !About(messages[k], key)
  }

  lemma {:induction false} UnderstoodAt(messages: seq<Message>, i: nat)
    requires i < |messages|
    ensures UnderstandAll(messages)[i] == Understand(messages[i])
  {
    if i < |messages| - 1 { UnderstoodAt(messages[..|messages| - 1], i); }
  }

  lemma LastWordIsLast(messages: seq<Message>, key: RouteKey, i: nat)
    ensures LastWord(messages, key, i) <==> LastAt(UnderstandAll(messages), key, i)
  {
    hide About, Understand;
    forall k: nat | k < |messages| ensures About(messages[k], key) <==> Concerns(UnderstandAll(messages)[k], key) {
      UnderstoodAt(messages, k);
      UnderstandExactly(messages[k], key);
    }
  }

  /** Main result: after any messages a route is in the cache exactly when the last accepted message
      about its interface, destination and prefix was not a deletion, and it holds what that message
      says. */
  lemma RoutesFollowMessages(messages: seq<Message>, key: RouteKey)
    ensures
      var c := Run(UnderstandAll(messages));
      && (key in c <==> exists i :: 0 <= i < |messages| && LastWord(messages, key, i) && !messages[i].deleted)
      && forall i :: 0 <= i < |messages| && LastWord(messages, key, i) && !messages[i].deleted ==> key in c && Holds(messages[i], c[key])
  {
    hide About, Understand, Holds;
    var changes := UnderstandAll(messages);
    CacheIsHistory(changes, key);
    forall i | 0 <= i < |messages| ensures LastWord(messages, key, i) <==> LastAt(changes, key, i) { LastWordIsLast(messages, key, i); }
    if LastAbout(changes, key).Some? { SomeLast(changes, key); }
    forall i | 0 <= i < |messages| && LastWord(messages, key, i)
      ensures LastAbout(changes, key) == Some(Understand(messages[i]))
      ensures Understand(messages[i]).Put? <==> !messages[i].deleted
      ensures Understand(messages[i]).Put? ==> Holds(messages[i], Understand(messages[i]).data)
    {
      LastAboutIsAt(changes, key, i);
      UnderstoodAt(messages, i);
      UnderstandExactly(messages[i], key);
    }
  }

  /** Which fields a notice says have changed. */
  datatype Changed = Changed(gateway: bool, metric: bool, kind: bool, scope: bool, protocol: bool)

  function Diff(a: RouteData, b: RouteData): Changed {
    Changed(a.gateway != b.gateway, a.metric != b.metric, a.kind != b.kind, a.scope != b.scope, a.protocol != b.protocol)
  }

  /** The flags that go with what is told. */
  function Flags(c: map<RouteKey, RouteData>, ch: Change<RouteKey, RouteData>): seq<Changed> {
    match ch
    case Ignore => []
    case Put(key, data) => [Diff(if key in c then c[key] else FRESH, data)]
    case Drop(key) => if key in c then [Changed(false, false, false, false, false)] else []
  }

  /** The flags of a notice, for the route as it was before the message: what the message says is not
      what the route held. */
  lemma FlagsExactly(c: map<RouteKey, RouteData>, m: Message, key: RouteKey)
    requires About(m, key) && !m.deleted
    ensures
      var was := if key in c then c[key] else FRESH;
      exists ch :: Flags(c, Understand(m)) == [ch]
        && (ch.gateway <==> !SaysGateway(m, was.gateway)) && (ch.metric <==> !SaysMetric(m, was.metric))
        && (ch.kind <==> m.kind != was.kind) && (ch.scope <==> m.scope != was.scope) && (ch.protocol <==> m.protocol != was.protocol)
  {
    UnderstandExactly(m, key);
    var was := if key in c then c[key] else FRESH;
    var d := Understand(m).data;
    hide LastCounts;
    assert Holds(m, d);
    if SaysGateway(m, was.gateway) { GivenIsOne(m.attributes, GatewayOf, 0, was.gateway.number, d.gateway.number); }
    if SaysMetric(m, was.metric) { GivenIsOne(m.attributes, PriorityOf, 0, was.metric, d.metric); }
    assert Flags(c, Understand(m)) == [Diff(was, d)];
  }

  class Route {
    const key: RouteKey
    var gateway: Ip
    var metric: nat
    var kind: nat
    var scope: nat
    var protocol: nat

    constructor (key: RouteKey)
      ensures this.key == key && Data() == FRESH
    {
      this.key := key;
      gateway, metric, kind, scope, protocol := FRESH.gateway, FRESH.metric, FRESH.kind, FRESH.scope, FRESH.protocol;
    }

    function Data(): RouteData
      reads this
    {
      RouteData(gateway, metric, kind, scope, protocol)
    }

    /** updateValue, field by field. */
    method Update(data: RouteData) returns (changed: Changed)
      modifies this
      ensures Data() == data && changed == Diff(old(Data()), data)
    {
      changed := Changed(false, false, false, false, false);
      if gateway != data.gateway { gateway := data.gateway; changed := changed.(gateway := true); }
      if metric != data.metric { metric := data.metric; changed := changed.(metric := true); }
      if kind != data.kind { kind := data.kind; changed := changed.(kind := true); }
      if scope != data.scope { scope := data.scope; changed := changed.(scope := true); }
      if protocol != data.protocol { protocol := data.protocol; changed := changed.(protocol := true); }
    }
  }

  class RouteManager {
    var routes: map<RouteKey, Route>
    var told: seq<Notice<RouteKey, RouteData>>   // what every listener was given
    var flags: seq<Changed>                      // and with which flags

    ghost predicate Valid()
      reads this
    {
      forall k | k in routes :: routes[k].key == k
    }

    ghost function Cache(): map<RouteKey, RouteData>
      reads this, routes.Values
    {
      map k | k in routes :: routes[k].Data()
    }

    constructor ()
      ensures Valid() && routes == map[] && told == [] && flags == []
    {
      routes, told, flags := map[], [], [];
    }

    method Acquire(key: RouteKey) returns (route: Route, added: bool)
      requires Valid()
      modifies this`routes
      ensures Valid() && added == (key !in old(routes)) && key in routes && routes[key] == route
      ensures if added then fresh(route) && route.Data() == FRESH && routes == old(routes)[key := route]
              else routes == old(routes)
    {
      if key in routes { return routes[key], false; }
      route := new Route(key);
      routes := routes[key := route];
      added := true;
    }

    method GatherAttributes(m: Message) returns (f: Fields)
      ensures f == Gather(m.family, m.attributes)
    {
      f := Fields(0, Ip(m.family, 0), Ip(m.family, 0), 0);
      var i := 0;
      while i < |m.attributes|
        invariant 0 <= i <= |m.attributes| && f == Gather(m.family, m.attributes[..i])
      {
        assert m.attributes[..i + 1][..i] == m.attributes[..i];
        match m.attributes[i] {
          case Dst(number) => f := f.(dest := Ip(m.family, number));
          case Gateway(number) => f := f.(gateway := Ip(m.family, number));
          case Priority(n) => f := f.(metric := n);
          case Oif(n) => f := f.(index := n);
          case OtherAttribute =>
        }
        i := i + 1;
      }
      assert m.attributes[..i] == m.attributes;
    }

    /** A deletion is told only of a route that was there. */
    method Remove(key: RouteKey)
      requires Valid()
      modifies this
      ensures Valid() && routes == old(routes) - {key} && Cache() == old(Cache()) - {key}
      ensures told == old(told) + Tell(old(Cache()), Drop(key))
      ensures flags == old(flags) + Flags(old(Cache()), Drop(key))
    {
      if key in routes {
        var route := routes[key];
        routes := routes - {key};
        told := told + [Deleted(key, route.Data())];
        flags := flags + [Changed(false, false, false, false, false)];
      }
    }

    /** Find or add the route and bring it up to date. */
    method Update(key: RouteKey, data: RouteData) returns (added: bool, changed: Changed)
      requires Valid()
      modifies this`routes, routes.Values
      ensures Valid() && forall r | r in routes.Values :: r in old(routes.Values) || fresh(r)
      ensures Cache() == old(Cache())[key := data] && added == (key !in old(Cache()))
      ensures changed == Diff(if added then FRESH else old(Cache())[key], data)
    {
      hide Diff;
      var route;
      route, added := Acquire(key);
      changed := route.Update(data);
      assert forall k | k in routes && k != key :: routes[k] != route;
    }

    method Store(key: RouteKey, data: RouteData)
      requires Valid()
      modifies this, routes.Values
      ensures Valid() && forall r | r in routes.Values :: r in old(routes.Values) || fresh(r)
      ensures Cache() == old(Cache())[key := data]
      ensures told == old(told) + Tell(old(Cache()), Put(key, data))
      ensures flags == old(flags) + Flags(old(Cache()), Put(key, data))
    {
      hide Diff;
      var added, changed := Update(key, data);
      told := told + [if added then Added(key, data) else Modified(key, data)];
      flags := flags + [changed];
    }

    method OnRouteMessage(m: Message)
      requires Valid()
      modifies this, routes.Values
      ensures Valid() && forall r | r in routes.Values :: r in old(routes.Values) || fresh(r)
      ensures Cache() == Apply(old(Cache()), Understand(m))
      ensures told == old(told) + Tell(old(Cache()), Understand(m))
      ensures flags == old(flags) + Flags(old(Cache()), Understand(m))
    {
      hide Gather, Cache;
      if m.family == OtherFamily || m.table != RT_TABLE_MAIN {
        return;
      }
      var f := GatherAttributes(m);
      if f.index == 0 {
        return;
      }
      var key := RouteKey(f.index, f.dest, m.dstLen);
      if m.deleted {
        Remove(key);
        return;
      }
      Store(key, RouteData(f.gateway, f.metric, m.kind, m.scope, m.protocol));
    }

    /** After any messages, the cache and what was told are what the changes they ask for make them. */
    method OnMessages(messages: seq<Message>)
      requires Valid() && routes == map[] && told == []
      modifies this, routes.Values
      ensures Valid() && Cache() == Run(UnderstandAll(messages)) && told == Told(UnderstandAll(messages))
    {
      var i := 0;
      while i < |messages|
        invariant 0 <= i <= |messages| && Valid()
        invariant forall r | r in routes.Values :: fresh(r)
        invariant Cache() == Run(UnderstandAll(messages[..i])) && told == Told(UnderstandAll(messages[..i]))
      {
        assert messages[..i + 1][..i] == messages[..i];
        ghost var changes := UnderstandAll(messages[..i + 1]);
        assert changes[..i] == UnderstandAll(messages[..i]) && changes[i] == Understand(messages[i]);
        OnRouteMessage(messages[i]);
        i := i + 1;
      }
      assert messages[..i] == messages;
    }
  }
}

module NeighborCache {
  import opened KeyedCache
  import opened MessageAttributes
  import opened Wrappers

  datatype Family = Inet | Inet6 | OtherFamily

  /** The interface of the message is part of an IPv6 address, as its scope. */
  datatype Ip = Ip(family: Family, number: nat, scope: nat)

  datatype NeighborKey = NeighborKey(index: nat, ip: Ip)

  datatype NeighborData = NeighborData(mac: nat, state: nat)

  const NUD_NONE := 0

  const FRESH: NeighborData := NeighborData(0, NUD_NONE)

  datatype Attribute = Dst(number: nat) | LlAddr(mac: nat) | OtherAttribute

  datatype Message = Message(deleted: bool, family: Family, ifindex: int, state: nat, attributes: seq<Attribute>)

  function Address(m: Message, number: nat): Ip
    requires m.ifindex > 0
  {
    Ip(m.family, number, if m.family == Inet6 then m.ifindex else 0)
  }

  datatype Fields = Fields(ip: Ip, mac: nat)

  function Gather(m: Message, attributes: seq<Attribute>): Fields
    requires m.ifindex > 0
  {
    if attributes == [] then Fields(Ip(m.family, 0, 0), 0)
    else
      var f := Gather(m, attributes[..|attributes| - 1]);
      match attributes[|attributes| - 1]
      case Dst(number) => f.(ip := Address(m, number))
      case LlAddr(mac) => f.(mac := mac)
      case OtherAttribute => f
  }

  /** Only a real interface, a known family, and an address that is not the wildcard. */
  function Understand(m: Message): Change<NeighborKey, NeighborData> {
    if m.ifindex <= 0 || m.family == OtherFamily then Ignore
    else
      var f := Gather(m, m.attributes);
      if f.ip.number == 0 then Ignore
      else if m.deleted then Drop(NeighborKey(m.ifindex, f.ip))
      else Put(NeighborKey(m.ifindex, f.ip), NeighborData(f.mac, m.state))
  }

  function UnderstandAll(messages: seq<Message>): (r: seq<Change<NeighborKey, NeighborData>>)
    ensures |r| == |messages|
  {
    if messages == [] then []
    else UnderstandAll(messages[..|messages| - 1]) + [Understand(messages[|messages| - 1])]
  }

  // ----- what a message says, attribute by attribute

  function DstOf(a: Attribute): Option<nat> { if a.Dst? then Some(a.number) else None }
  function LlAddrOf(a: Attribute): Option<nat> { if a.LlAddr? then Some(a.mac) else None }

  predicate SaysNumber(m: Message, n: nat) { LastCounts(m.attributes, DstOf, 0, n) }
  predicate SaysMac(m: Message, mac: nat) { LastCounts(m.attributes, LlAddrOf, 0, mac) }

  /** A real interface, IPv4 or IPv6, and an address that is not the wildcard. */
  predicate Accepted(m: Message) {
    m.ifindex > 0 && (m.family == Inet || m.family == Inet6) && !SaysNumber(m, 0)
  }

  /** The interface is part of an IPv6 address. */
  predicate About(m: Message, key: NeighborKey) {
    && Accepted(m) && key.index == m.ifindex
    && key.ip.family == m.family && SaysNumber(m, key.ip.number)
    && key.ip.scope == if m.family == Inet6 then m.ifindex else 0
  }

  predicate Holds(m: Message, d: NeighborData) { SaysMac(m, d.mac) && m.state == d.state }

  lemma {:induction false} GatherSays(m: Message, attributes: seq<Attribute>)
    requires m.ifindex > 0
    ensures
      var f := Gather(m, attributes);
      && f.ip.family == m.family && LastCounts(attributes, DstOf, 0, f.ip.number)
      && (f.ip.number != 0 ==> f.ip.scope == if m.family == Inet6 then m.ifindex else 0)
      && LastCounts(attributes, LlAddrOf, 0, f.mac)
  {
    hide LastCounts;
    if attributes == [] {
      NoneGiven(DstOf, 0);
      NoneGiven(LlAddrOf, 0);
    } else {
      var front, last := attributes[..|attributes| - 1], attributes[|attributes| - 1];
      var f := Gather(m, front);
      GatherSays(m, front);
      assert attributes == front + [last];
      OneMoreGiven(front, last, DstOf, 0, f.ip.number);
      OneMoreGiven(front, last, LlAddrOf, 0, f.mac);
    }
  }

  lemma UnderstandExactly(m: Message, key: NeighborKey)
    ensures Understand(m).Ignore? <==> !Accepted(m)
    ensures !Understand(m).Ignore? && Understand(m).key == key <==> About(m, key)
    ensures !Understand(m).Ignore? ==> (Understand(m).Drop? <==> m.deleted)
    ensures Understand(m).Put? ==> forall d :: Holds(m, d) <==> d == Understand(m).data
  {
    if m.ifindex > 0 {
      GatherSays(m, m.attributes);
      var f := Gather(m, m.attributes);
      hide LastCounts;
      forall n | SaysNumber(m, n) ensures n == f.ip.number { GivenIsOne(m.attributes, DstOf, 0, n, f.ip.number); }
      forall mac | SaysMac(m, mac) ensures mac == f.mac { GivenIsOne(m.attributes, LlAddrOf, 0, mac, f.mac); }
      assert Accepted(m) ==> About(m, NeighborKey(m.ifindex, f.ip));
    }
  }

  predicate LastWord(messages: seq<Message>, key: NeighborKey, i: nat) {
    i < |messages| && About(messages[i], key) && forall k :: i < k < |messages| ==> !About(messages[k], key)
  }

  lemma {:induction false} UnderstoodAt(messages: seq<Message>, i: nat)
    requires i < |messages|
    ensures UnderstandAll(messages)[i] == Understand(messages[i])
  {
    if i < |messages| - 1 { UnderstoodAt(messages[..|messages| - 1], i); }
  }

  lemma LastWordIsLast(messages: seq<Message>, key: NeighborKey, i: nat)
    ensures LastWord(messages, key, i) <==> LastAt(UnderstandAll(messages), key, i)
  {
    hide About, Understand;
    forall k: nat | k < |messages| ensures About(messages[k], key) <==> Concerns(UnderstandAll(messages)[k], key) {
      UnderstoodAt(messages, k);
      UnderstandExactly(messages[k], key);
    }
  }

  /** Main result: after any messages a neighbour is in the cache exactly when the last accepted
      message about its interface and address was not a deletion, and it holds what that message says. */
  lemma NeighborsFollowMessages(messages: seq<Message>, key: NeighborKey)
    ensures
      var c := Run(UnderstandAll(messages));
      && (key in c <==> exists i :: 0 <= i < |messages| && LastWord(messages, key, i) && !messages[i].deleted)
      && forall i :: 0 <= i < |messages| && LastWord(messages, key, i) && !messages[i].deleted ==> key in c && Holds(messages[i], c[key])
  {
    hide About, Understand, Holds;
    var changes := UnderstandAll(messages);
    CacheIsHistory(changes, key);
    forall i | 0 <= i < |messages| ensures LastWord(messages, key, i) <==> LastAt(changes, key, i) { LastWordIsLast(messages, key, i); }
    if LastAbout(changes, key).Some? { SomeLast(changes, key); }
    forall i | 0 <= i < |messages| && LastWord(messages, key, i)
      ensures LastAbout(changes, key) == Some(Understand(messages[i]))
      ensures Understand(messages[i]).Put? <==> !messages[i].deleted
      ensures Understand(messages[i]).Put? ==> Holds(messages[i], Understand(messages[i]).data)
    {
      LastAboutIsAt(changes, key, i);
      UnderstoodAt(messages, i);
      UnderstandExactly(messages[i], key);
    }
  }

  datatype Changed = Changed(mac: bool, state: bool)

  function Diff(a: NeighborData, b: NeighborData): Changed {
    Changed(a.mac != b.mac, a.state != b.state)
  }

  function Flags(c: map<NeighborKey, NeighborData>, ch: Change<NeighborKey, NeighborData>): seq<Changed> {
    match ch
    case Ignore => []
    case Put(key, data) => [Diff(if key in c then c[key] else FRESH, data)]
    case Drop(key) => if key in c then [Changed(false, false)] else []
  }

  lemma FlagsExactly(c: map<NeighborKey, NeighborData>, m: Message, key: NeighborKey)
    requires About(m, key) && !m.deleted
    ensures
      var was := if key in c then c[key] else FRESH;
      exists ch :: Flags(c, Understand(m)) == [ch] && (ch.mac <==> !SaysMac(m, was.mac)) && (ch.state <==> m.state != was.state)
  {
    UnderstandExactly(m, key);
    var was := if key in c then c[key] else FRESH;
    var d := Understand(m).data;
    hide LastCounts;
    assert Holds(m, d);
    if SaysMac(m, was.mac) { GivenIsOne(m.attributes, LlAddrOf, 0, was.mac, d.mac); }
    assert Flags(c, Understand(m)) == [Diff(was, d)];
  }

  class Neighbor {
    const key: NeighborKey
    var mac: nat
    var state: nat

    constructor (key: NeighborKey)
      ensures this.key == key && Data() == FRESH
    {
      this.key, mac, state := key, FRESH.mac, FRESH.state;
    }

    function Data(): NeighborData
      reads this
    {
      NeighborData(mac, state)
    }

    /** updateValue, field by field. */
    method Update(data: NeighborData) returns (changed: Changed)
      modifies this
      ensures Data() == data && changed == Diff(old(Data()), data)
    {
      changed := Changed(false, false);
      if mac != data.mac { mac := data.mac; changed := changed.(mac := true); }
      if state != data.state { state := data.state; changed := changed.(state := true); }
    }
  }

  class NeighborManager {
    var neighbors: map<NeighborKey, Neighbor>
    var told: seq<Notice<NeighborKey, NeighborData>>
    var flags: seq<Changed>

    ghost predicate Valid()
      reads this
    {
      forall k | k in neighbors :: neighbors[k].key == k
    }

    ghost function Cache(): map<NeighborKey, NeighborData>
      reads this, neighbors.Values
    {
      map k | k in neighbors :: neighbors[k].Data()
    }

    constructor ()
      ensures Valid() && neighbors == map[] && told == [] && flags == []
    {
      neighbors, told, flags := map[], [], [];
    }

    method Acquire(key: NeighborKey) returns (neighbor: Neighbor, added: bool)
      requires Valid()
      modifies this`neighbors
      ensures Valid() && added == (key !in old(neighbors)) && key in neighbors && neighbors[key] == neighbor
      ensures if added then fresh(neighbor) && neighbor.Data() == FRESH && neighbors == old(neighbors)[key := neighbor]
              else neighbors == old(neighbors)
    {
      if key in neighbors { return neighbors[key], false; }
      neighbor := new Neighbor(key);
      neighbors := neighbors[key := neighbor];
      added := true;
    }

    method GatherAttributes(m: Message) returns (f: Fields)
      requires m.ifindex > 0
      ensures f == Gather(m, m.attributes)
    {
      f := Fields(Ip(m.family, 0, 0), 0);
      var i := 0;
      while i < |m.attributes|
        invariant 0 <= i <= |m.attributes| && f == Gather(m, m.attributes[..i])
      {
        assert m.attributes[..i + 1][..i] == m.attributes[..i];
        match m.attributes[i] {
          case Dst(number) => f := f.(ip := Address(m, number));
          case LlAddr(mac) => f := f.(mac := mac);
          case OtherAttribute =>
        }
        i := i + 1;
      }
      assert m.attributes[..i] == m.attributes;
    }

    method Remove(key: NeighborKey)
      requires Valid()
      modifies this
      ensures Valid() && neighbors == old(neighbors) - {key} && Cache() == old(Cache()) - {key}
      ensures told == old(told) + Tell(old(Cache()), Drop(key))
      ensures flags == old(flags) + Flags(old(Cache()), Drop(key))
    {
      if key in neighbors {
        var neighbor := neighbors[key];
        neighbors := neighbors - {key};
        told := told + [Deleted(key, neighbor.Data())];
        flags := flags + [Changed(false, false)];
      }
    }

    /** Find or add the neighbor and bring it up to date. */
    method Update(key: NeighborKey, data: NeighborData) returns (added: bool, changed: Changed)
      requires Valid()
      modifies this`neighbors, neighbors.Values
      ensures Valid() && forall n | n in neighbors.Values :: n in old(neighbors.Values) || fresh(n)
      ensures Cache() == old(Cache())[key := data] && added == (key !in old(Cache()))
      ensures changed == Diff(if added then FRESH else old(Cache())[key], data)
    {
      hide Diff;
      var neighbor;
      neighbor, added := Acquire(key);
      changed := neighbor.Update(data);
      assert forall k | k in neighbors && k != key :: neighbors[k] != neighbor;
    }

    method Store(key: NeighborKey, data: NeighborData)
      requires Valid()
      modifies this, neighbors.Values
      ensures Valid() && forall n | n in neighbors.Values :: n in old(neighbors.Values) || fresh(n)
      ensures Cache() == old(Cache())[key := data]
      ensures told == old(told) + Tell(old(Cache()), Put(key, data))
      ensures flags == old(flags) + Flags(old(Cache()), Put(key, data))
    {
      hide Diff;
      var added, changed := Update(key, data);
      told := told + [if added then Added(key, data) else Modified(key, data)];
      flags := flags + [changed];
    }

    method OnNeighborMessage(m: Message)
      requires Valid()
      modifies this, neighbors.Values
      ensures Valid() && forall n | n in neighbors.Values :: n in old(neighbors.Values) || fresh(n)
      ensures Cache() == Apply(old(Cache()), Understand(m))
      ensures told == old(told) + Tell(old(Cache()), Understand(m))
      ensures flags == old(flags) + Flags(old(Cache()), Understand(m))
    {
      hide Gather, Cache;
      if m.ifindex <= 0 {
        return;
      }
      if m.family == OtherFamily {
        return;
      }
      var f := GatherAttributes(m);
      if f.ip.number == 0 {
        return;
      }
      var key := NeighborKey(m.ifindex, f.ip);
      if m.deleted {
        Remove(key);
        return;
      }
      Store(key, NeighborData(f.mac, m.state));
    }

    method OnMessages(messages: seq<Message>)
      requires Valid() && neighbors == map[] && told == []
      modifies this, neighbors.Values
      ensures Valid() && Cache() == Run(UnderstandAll(messages)) && told == Told(UnderstandAll(messages))
    {
      var i := 0;
      while i < |messages|
        invariant 0 <= i <= |messages| && Valid()
        invariant forall n | n in neighbors.Values :: fresh(n)
        invariant Cache() == Run(UnderstandAll(messages[..i])) && told == Told(UnderstandAll(messages[..i]))
      {
        assert messages[..i + 1][..i] == messages[..i];
        ghost var changes := UnderstandAll(messages[..i + 1]);
        assert changes[..i] == UnderstandAll(messages[..i]) && changes[i] == Understand(messages[i]);
        OnNeighborMessage(messages[i]);
        i := i + 1;
      }
      assert messages[..i] == messages;
    }
  }
}
