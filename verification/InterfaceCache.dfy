/**
 The interface cache (fabric/src/interface_manager.cpp): links, and the addresses of each link.
 A message comes with its attributes already split.
 */
module InterfaceCache {
  import opened MessageAttributes
  import opened Wrappers

  const IFF_UP: nat := 1
  const IFF_RUNNING: nat := 0x40

  datatype Family = Inet | Inet6

  /** The interface of the message is part of an IPv6 address, as its scope; number 0 is the wildcard. */
  datatype Ip = Ip(family: Family, number: nat, scope: nat)

  datatype Address = Address(ip: Ip, prefix: nat, broadcast: Ip)

  datatype LinkData = LinkData(flags: nat, mac: nat, mtu: nat, name: string, kind: string, master: nat)

  datatype Iface = Iface(link: LinkData, addresses: seq<Address>)

  const FRESH: LinkData := LinkData(0, 0, 0, "", "", 0)

  datatype LinkAttribute =
    | Mac(mac: nat) | Name(name: string) | Mtu(mtu: nat) | Master(master: nat)
    | Info(kinds: seq<string>)          // the kinds among the attributes nested in it
    | OtherLink

  datatype AddressAttribute = Local(number: nat) | Peer(number: nat) | Broadcast(number: nat) | OtherAddress

  datatype Message =
    | Link(deleted: bool, bridge: bool, index: nat, flags: nat, attributes: seq<LinkAttribute>)
    | Addr(deleted: bool, index: nat, family: Family, prefix: nat, parts: seq<AddressAttribute>)

  // ----- one link

  datatype LinkFlag =
    AdminStateChanged | OperStateChanged | MacChanged | NameChanged | MtuChanged | KindChanged | MasterChanged

  /** A link and the flags raised so far. */
  datatype Progress = Progress(link: LinkData, raised: set<LinkFlag>)

  function Raise(p: Progress, changed: bool, flag: LinkFlag): set<LinkFlag> {
    if changed then p.raised + {flag} else p.raised
  }

  function WithKinds(p: Progress, kinds: seq<string>): Progress {
    if kinds == [] then p
    else
      var q, kind := WithKinds(p, kinds[..|kinds| - 1]), kinds[|kinds| - 1];
      Progress(q.link.(kind := kind), Raise(q, q.link.kind != kind, KindChanged))
  }

  function WithAttribute(p: Progress, a: LinkAttribute): Progress {
    match a
    case Mac(mac) => Progress(p.link.(mac := mac), Raise(p, p.link.mac != mac, MacChanged))
    case Name(name) => Progress(p.link.(name := name), Raise(p, p.link.name != name, NameChanged))
    case Mtu(mtu) => Progress(p.link.(mtu := mtu), Raise(p, p.link.mtu != mtu, MtuChanged))
    case Master(master) => Progress(p.link.(master := master), Raise(p, p.link.master != master, MasterChanged))
    case Info(kinds) => WithKinds(p, kinds)
    case OtherLink => p
  }

  function WithAttributes(p: Progress, attributes: seq<LinkAttribute>): Progress {
    if attributes == [] then p
    else WithAttribute(WithAttributes(p, attributes[..|attributes| - 1]), attributes[|attributes| - 1])
  }

  /** Whether two flag words differ in a bit, given as a power of two. */
  predicate Differ(a: nat, b: nat, bit: nat)
    requires bit > 0
  {
    a / bit % 2 != b / bit % 2
  }

  function UpdateLink(link: LinkData, flags: nat, attributes: seq<LinkAttribute>): Progress {
    var admin := if Differ(link.flags, flags, IFF_UP) then {AdminStateChanged} else {};
    var oper := if Differ(link.flags, flags, IFF_RUNNING) then {OperStateChanged} else {};
    WithAttributes(Progress(link.(flags := flags), admin + oper), attributes)
  }

  // ----- one link's addresses

  /** The address of a message: the local one if there is one, else the first peer. */
  function Gather(index: nat, family: Family, prefix: nat, parts: seq<AddressAttribute>): Address {
    if parts == [] then Address(Ip(Inet, 0, 0), prefix, Ip(family, 0, 0))
    else
      var a := Gather(index, family, prefix, parts[..|parts| - 1]);
      var scope := if family == Inet6 then index else 0;
      match parts[|parts| - 1]
      case Local(number) => a.(ip := Ip(family, number, scope))
      case Peer(number) => if a.ip.number == 0 then a.(ip := Ip(family, number, scope)) else a
      case Broadcast(number) => a.(broadcast := Ip(family, number, 0))
      case OtherAddress => a
  }

  function AddressOf(m: Message): Address
    requires m.Addr?
  {
    Gather(m.index, m.family, m.prefix, m.parts)
  }

  predicate Lists(addresses: seq<Address>, ip: Ip) {
    exists i | 0 <= i < |addresses| :: addresses[i].ip == ip
  }

  ghost predicate Distinct(addresses: seq<Address>) {
    forall i, j | 0 <= i < j < |addresses| :: addresses[i].ip != addresses[j].ip
  }

  /** In the place of its IP, or at the end. */
  function Place(addresses: seq<Address>, a: Address): seq<Address> {
    if addresses == [] then [a]
    else if addresses[0].ip == a.ip then [a] + addresses[1..]
    else [addresses[0]] + Place(addresses[1..], a)
  }

  function Without(addresses: seq<Address>, ip: Ip): seq<Address> {
    if addresses == [] then []
    else
      var front, last := addresses[..|addresses| - 1], addresses[|addresses| - 1];
      if last.ip == ip then Without(front, ip) else Without(front, ip) + [last]
  }

  lemma {:induction false} PlaceIs(addresses: seq<Address>, a: Address)
    requires Distinct(addresses)
    ensures Distinct(Place(addresses, a))
    ensures forall x :: x in Place(addresses, a) <==> x == a || (x in addresses && x.ip != a.ip)
  {
    if addresses != [] {
      var first, rest := addresses[0], addresses[1..];
      assert Distinct(rest) by { assert forall i | 0 <= i < |rest| :: rest[i] == addresses[i + 1]; }
      assert forall x :: x in addresses <==> x == first || x in rest;
      assert forall x | x in rest :: x.ip != first.ip;
      PlaceIs(rest, a);
      var placed := Place(addresses, a);
      if first.ip == a.ip {
        assert placed[1..] == rest;
      } else {
        var more := Place(rest, a);
        assert placed == [first] + more;
        assert forall i | 0 <= i < |more| :: more[i] in more;
      }
    }
  }

  lemma {:induction false} WithoutIs(addresses: seq<Address>, ip: Ip)
    requires Distinct(addresses)
    ensures Distinct(Without(addresses, ip))
    ensures forall x :: x in Without(addresses, ip) <==> x in addresses && x.ip != ip
  {
    if addresses != [] {
      var front, last := addresses[..|addresses| - 1], addresses[|addresses| - 1];
      WithoutIs(front, ip);
      assert addresses == front + [last];
      var left := Without(front, ip);
      assert forall i | 0 <= i < |left| :: left[i] in left;
    }
  }

  // ----- the cache

  function Apply(c: map<nat, Iface>, m: Message): map<nat, Iface> {
    match m
    case Link(deleted, bridge, index, flags, attributes) =>
      if bridge then c
      else if deleted then c - {index}
      else
        var was := if index in c then c[index] else Iface(FRESH, []);
        c[index := Iface(UpdateLink(was.link, flags, attributes).link, was.addresses)]
    case Addr(deleted, index, _, _, _) =>
      if index !in c then c
      else
        var a, was := AddressOf(m), c[index];
        c[index := was.(addresses := if deleted then Without(was.addresses, a.ip) else Place(was.addresses, a))]
  }

  function Run(messages: seq<Message>): map<nat, Iface> {
    if messages == [] then map[] else Apply(Run(messages[..|messages| - 1]), messages[|messages| - 1])
  }

  datatype LinkNotice = LinkNotice(index: nat, known: bool, added: bool, deleted: bool, raised: set<LinkFlag>)

  datatype AddressChange = Added | Modified | Deleted
  datatype AddressNotice = AddressNotice(index: nat, address: Address, change: AddressChange)

  /** A deletion is told whether the link was known or not. */
  function TellLinks(c: map<nat, Iface>, m: Message): seq<LinkNotice> {
    if m.Addr? || m.bridge then []
    else if m.deleted then [LinkNotice(m.index, m.index in c, false, true, {})]
    else
      var was := if m.index in c then c[m.index].link else FRESH;
      [LinkNotice(m.index, true, m.index !in c, false, UpdateLink(was, m.flags, m.attributes).raised)]
  }

  /** And so is an address's, of a link that is known. */
  function TellAddresses(c: map<nat, Iface>, m: Message): seq<AddressNotice> {
    if m.Link? || m.index !in c then []
    else
      var a := AddressOf(m);
      [AddressNotice(m.index, a,
        if m.deleted then Deleted else if Lists(c[m.index].addresses, a.ip) then Modified else Added)]
  }

  function LinksTold(messages: seq<Message>): seq<LinkNotice> {
    if messages == [] then []
    else
      var front := messages[..|messages| - 1];
      LinksTold(front) + TellLinks(Run(front), messages[|messages| - 1])
  }

  function AddressesTold(messages: seq<Message>): seq<AddressNotice> {
    if messages == [] then []
    else
      var front := messages[..|messages| - 1];
      AddressesTold(front) + TellAddresses(Run(front), messages[|messages| - 1])
  }

  // ----- every run

  /** No address list holds an IP twice. */
  lemma {:induction false} AddressesAreDistinct(messages: seq<Message>)
    ensures forall k | k in Run(messages) :: Distinct(Run(messages)[k].addresses)
  {
    if messages != [] {
      var front, m := messages[..|messages| - 1], messages[|messages| - 1];
      AddressesAreDistinct(front);
      var c := Run(front);
      if m.Addr? && m.index in c {
        PlaceIs(c[m.index].addresses, AddressOf(m));
        WithoutIs(c[m.index].addresses, AddressOf(m).ip);
      }
    }
  }

  /** What the messages say of an IP on a link: its last address message, unless the link went since or was not there. */
  function LastSaid(messages: seq<Message>, index: nat, ip: Ip): Option<Address> {
    if messages == [] then None
    else
      var front, m := messages[..|messages| - 1], messages[|messages| - 1];
      if m.index != index then LastSaid(front, index, ip)
      else if m.Link? then if m.deleted && !m.bridge then None else LastSaid(front, index, ip)
      else if AddressOf(m).ip != ip || index !in Run(front) then LastSaid(front, index, ip)
      else if m.deleted then None else Some(AddressOf(m))
  }

  /** The address lists are their history. */
  lemma {:induction false} AddressesAreHistory(messages: seq<Message>, index: nat, a: Address)
    ensures index in Run(messages) && a in Run(messages)[index].addresses
            <==> LastSaid(messages, index, a.ip) == Some(a)
  {
    if messages != [] {
      var front, m := messages[..|messages| - 1], messages[|messages| - 1];
      AddressesAreHistory(front, index, a);
      AddressesAreDistinct(front);
      var c := Run(front);
      if m.Addr? && m.index in c {
        PlaceIs(c[m.index].addresses, AddressOf(m));
        WithoutIs(c[m.index].addresses, AddressOf(m).ip);
      }
      if index !in c { NothingSaid(front, index, a.ip); }
    }
  }

  lemma {:induction false} NothingSaid(messages: seq<Message>, index: nat, ip: Ip)
    requires index !in Run(messages)
    ensures LastSaid(messages, index, ip) == None
  {
    if messages != [] {
      var front, m := messages[..|messages| - 1], messages[|messages| - 1];
      if index !in Run(front) { NothingSaid(front, index, ip); }
    }
  }

  /** The links a listener knows of who takes every notice at its word. */
  function KnownLinks(notices: seq<LinkNotice>): set<nat> {
    if notices == [] then {}
    else
      var known, n := KnownLinks(notices[..|notices| - 1]), notices[|notices| - 1];
      if n.deleted then known - {n.index} else if n.added then known + {n.index} else known
  }

  lemma KnownLinksSnoc(notices: seq<LinkNotice>, n: LinkNotice)
    ensures KnownLinks(notices + [n])
            == var known := KnownLinks(notices);
               if n.deleted then known - {n.index} else if n.added then known + {n.index} else known
  {
    assert (notices + [n])[..|notices|] == notices;
  }

  /** A link listener reconstructs the set of links. */
  lemma {:induction false} LinkListenerIsRight(messages: seq<Message>)
    ensures KnownLinks(LinksTold(messages)) == Run(messages).Keys
  {
    if messages != [] {
      var front, m := messages[..|messages| - 1], messages[|messages| - 1];
      LinkListenerIsRight(front);
      var c := Run(front);
      var tell := TellLinks(c, m);
      if tell == [] {
        assert LinksTold(front) + tell == LinksTold(front);
      } else {
        assert tell == [tell[0]];
        KnownLinksSnoc(LinksTold(front), tell[0]);
      }
    }
  }

  /** An added link is one that was not known; a deleted one was known exactly when the notice carries it. */
  lemma LinkNoticesExactly(messages: seq<Message>, m: Message, n: LinkNotice)
    requires n in TellLinks(Run(messages), m)
    ensures n.added ==> n.index !in KnownLinks(LinksTold(messages))
    ensures n.deleted ==> (n.known <==> n.index in KnownLinks(LinksTold(messages)))
  {
    LinkListenerIsRight(messages);
  }

  /** The deletion of a link no one knows is told all the same. */
  lemma UnknownLinkDeleted()
    ensures LinksTold([Link(true, false, 7, 0, [])]) == [LinkNotice(7, false, false, true, {})]
  {
    var m := Link(true, false, 7, 0, []);
    assert [m][..0] == [] && LinksTold([]) == [];
    assert LinksTold([m]) == LinksTold([]) + TellLinks(Run([]), m);
  }

  /** A field that ends up different has its flag raised. */
  ghost predicate Covers(link: LinkData, p: Progress) {
    && (link.mac != p.link.mac ==> MacChanged in p.raised)
    && (link.name != p.link.name ==> NameChanged in p.raised)
    && (link.mtu != p.link.mtu ==> MtuChanged in p.raised)
    && (link.kind != p.link.kind ==> KindChanged in p.raised)
    && (link.master != p.link.master ==> MasterChanged in p.raised)
  }

  lemma {:induction false} KindsCovered(link: LinkData, p: Progress, kinds: seq<string>)
    requires Covers(link, p)
    ensures Covers(link, WithKinds(p, kinds))
  {
    if kinds != [] { KindsCovered(link, p, kinds[..|kinds| - 1]); }
  }

  lemma {:induction false} AttributesCovered(link: LinkData, p: Progress, attributes: seq<LinkAttribute>)
    requires Covers(link, p)
    ensures Covers(link, WithAttributes(p, attributes))
  {
    if attributes != [] {
      var front, a := attributes[..|attributes| - 1], attributes[|attributes| - 1];
      AttributesCovered(link, p, front);
      if a.Info? { KindsCovered(link, WithAttributes(p, front), a.kinds); }
    }
  }

  /** Whatever a link message changes, it raises a flag for. */
  lemma ChangesAreFlagged(link: LinkData, flags: nat, attributes: seq<LinkAttribute>)
    ensures Covers(link, UpdateLink(link, flags, attributes))
  {
    var admin := if Differ(link.flags, flags, IFF_UP) then {AdminStateChanged} else {};
    var oper := if Differ(link.flags, flags, IFF_RUNNING) then {OperStateChanged} else {};
    AttributesCovered(link, Progress(link.(flags := flags), admin + oper), attributes);
  }

  // ----- address listeners

  /** The addresses a listener knows of, each with its link. */
  function KnownAddresses(notices: seq<AddressNotice>): set<(nat, Ip)> {
    if notices == [] then {}
    else
      var known, n := KnownAddresses(notices[..|notices| - 1]), notices[|notices| - 1];
      if n.change == Deleted then known - {(n.index, n.address.ip)}
      else if n.change == Added then known + {(n.index, n.address.ip)} else known
  }

  ghost predicate Holds(c: map<nat, Iface>, index: nat, ip: Ip) {
    index in c && Lists(c[index].addresses, ip)
  }

  /** The listener knows exactly the addresses there are. */
  ghost predicate Agrees(messages: seq<Message>) {
    forall index: nat, ip: Ip ::
      (index, ip) in KnownAddresses(AddressesTold(messages)) <==> Holds(Run(messages), index, ip)
  }

  /** The message takes away a link that has addresses; no listener is told of those. */
  ghost predicate Loses(c: map<nat, Iface>, m: Message) {
    m.Link? && m.deleted && !m.bridge && m.index in c && c[m.index].addresses != []
  }

  lemma ListsAfter(addresses: seq<Address>, a: Address, ip: Ip)
    requires Distinct(addresses)
    ensures Lists(Place(addresses, a), ip) <==> ip == a.ip || Lists(addresses, ip)
    ensures Lists(Without(addresses, a.ip), ip) <==> ip != a.ip && Lists(addresses, ip)
  {
    PlaceIs(addresses, a);
    WithoutIs(addresses, a.ip);
    ListsIs(addresses, ip);
    ListsIs(Place(addresses, a), ip);
    ListsIs(Without(addresses, a.ip), ip);
    assert a in Place(addresses, a);
  }

  lemma ListsIs(addresses: seq<Address>, ip: Ip)
    ensures Lists(addresses, ip) <==> exists x :: x in addresses && x.ip == ip
  {
    if Lists(addresses, ip) {
      var i :| 0 <= i < |addresses| && addresses[i].ip == ip;
      assert addresses[i] in addresses;
    }
  }

  lemma OneMoreMessage(front: seq<Message>, m: Message)
    ensures Run(front + [m]) == Apply(Run(front), m)
    ensures AddressesTold(front + [m]) == AddressesTold(front) + TellAddresses(Run(front), m)
  {
    assert (front + [m])[..|front|] == front;
  }

  lemma KnownAddressesSnoc(notices: seq<AddressNotice>, n: AddressNotice)
    ensures KnownAddresses(notices + [n])
            == var known := KnownAddresses(notices);
               if n.change == Deleted then known - {(n.index, n.address.ip)}
               else if n.change == Added then known + {(n.index, n.address.ip)} else known
  {
    assert (notices + [n])[..|notices|] == notices;
  }

  lemma StillAgreesOn(c: map<nat, Iface>, told: seq<AddressNotice>, m: Message, index: nat, ip: Ip)
    requires !Loses(c, m) && forall k | k in c :: Distinct(c[k].addresses)
    requires forall o: Ip :: (index, o) in KnownAddresses(told) <==> Holds(c, index, o)
    ensures (index, ip) in KnownAddresses(told + TellAddresses(c, m)) <==> Holds(Apply(c, m), index, ip)
  {
    hide UpdateLink, AddressOf, KnownAddresses;
    if m.Addr? && m.index in c {
      ListsAfter(c[m.index].addresses, AddressOf(m), ip);
      KnownAddressesSnoc(told, TellAddresses(c, m)[0]);
    } else {
      assert told + TellAddresses(c, m) == told;
    }
  }

  lemma StillAgrees(front: seq<Message>, m: Message)
    requires Agrees(front) && !Loses(Run(front), m)
    ensures Agrees(front + [m])
  {
    hide Loses, Apply, TellAddresses, KnownAddresses, Run, AddressesTold;
    AddressesAreDistinct(front);
    OneMoreMessage(front, m);
    forall index: nat, ip: Ip
      ensures (index, ip) in KnownAddresses(AddressesTold(front + [m])) <==> Holds(Run(front + [m]), index, ip)
    {
      StillAgreesOn(Run(front), AddressesTold(front), m, index, ip);
    }
  }

  lemma LosesAgreement(front: seq<Message>, m: Message)
    requires Agrees(front) && Loses(Run(front), m)
    ensures !Agrees(front + [m])
  {
    var messages := front + [m];
    assert messages[..|front|] == front;
    var ip := Run(front)[m.index].addresses[0].ip;
    assert Holds(Run(front), m.index, ip);
    assert (m.index, ip) in KnownAddresses(AddressesTold(front));
    assert AddressesTold(messages) == AddressesTold(front) + [] == AddressesTold(front);
    assert !Holds(Run(messages), m.index, ip);
  }

  lemma AgreementStep(front: seq<Message>, m: Message)
    requires Agrees(front)
    ensures Agrees(front + [m]) <==> !Loses(Run(front), m)
  {
    if Loses(Run(front), m) { LosesAgreement(front, m); } else { StillAgrees(front, m); }
  }

  ghost predicate NeverLoses(messages: seq<Message>) {
    forall i | 0 <= i < |messages| :: !Loses(Run(messages[..i]), messages[i])
  }

  ghost predicate AlwaysAgrees(messages: seq<Message>) {
    forall i | 0 <= i <= |messages| :: Agrees(messages[..i])
  }

  lemma {:induction false} AgreesUpTo(messages: seq<Message>, n: nat)
    requires n <= |messages| && NeverLoses(messages)
    ensures Agrees(messages[..n])
  {
    hide Agrees, Loses;
    if n == 0 {
      NothingToKnow();
      assert messages[..0] == [];
    } else {
      AgreesUpTo(messages, n - 1);
      AgreementStep(messages[..n - 1], messages[n - 1]);
      assert messages[..n] == messages[..n - 1] + [messages[n - 1]];
    }
  }

  lemma NothingToKnow()
    ensures Agrees([])
  {}

  /** An address listener is right all along exactly when no link is taken away with addresses still on it. */
  lemma AddressListenerExactly(messages: seq<Message>)
    ensures AlwaysAgrees(messages) <==> NeverLoses(messages)
  {
    hide Agrees, Loses;
    if AlwaysAgrees(messages) {
      forall i | 0 <= i < |messages| ensures !Loses(Run(messages[..i]), messages[i]) {
        AgreementStep(messages[..i], messages[i]);
        assert messages[..i + 1] == messages[..i] + [messages[i]];
      }
    }
    if NeverLoses(messages) {
      forall i | 0 <= i <= |messages| ensures Agrees(messages[..i]) { AgreesUpTo(messages, i); }
    }
  }

  /** A link, an address on it, and the deletion of the link: the listener still has the address. */
  lemma DeletedLinkForgotten() returns (messages: seq<Message>)
    ensures messages == [Link(false, false, 7, 0, []), Addr(false, 7, Inet, 24, [Local(1)]), Link(true, false, 7, 0, [])]
    ensures !AlwaysAgrees(messages)
  {
    var up, addr, down := Link(false, false, 7, 0, []), Addr(false, 7, Inet, 24, [Local(1)]), Link(true, false, 7, 0, []);
    messages := [up, addr, down];
    OneMoreMessage([], up);
    OneMoreMessage([up], addr);
    assert [] + [up] == [up] && [up] + [addr] == [up, addr] == messages[..2];
    assert Run([up])[7].addresses == [];
    assert Loses(Run(messages[..2]), messages[2]);
    AddressListenerExactly(messages);
  }

  // ----- what a message says, attribute by attribute

  function MacOf(a: LinkAttribute): Option<nat> { if a.Mac? then Some(a.mac) else None }
  function NameOf(a: LinkAttribute): Option<string> { if a.Name? then Some(a.name) else None }
  function MtuOf(a: LinkAttribute): Option<nat> { if a.Mtu? then Some(a.mtu) else None }
  function MasterOf(a: LinkAttribute): Option<nat> { if a.Master? then Some(a.master) else None }

  /** The last kind nested in a link-information attribute. */
  function KindOf(a: LinkAttribute): Option<string> {
    if a.Info? && a.kinds != [] then Some(a.kinds[|a.kinds| - 1]) else None
  }

  /** The link holds what the attributes give, and for the rest what it held before. */
  predicate LinkSays(before: LinkData, attributes: seq<LinkAttribute>, link: LinkData) {
    && LastCounts(attributes, MacOf, before.mac, link.mac)
    && LastCounts(attributes, NameOf, before.name, link.name)
    && LastCounts(attributes, MtuOf, before.mtu, link.mtu)
    && LastCounts(attributes, MasterOf, before.master, link.master)
    && LastCounts(attributes, KindOf, before.kind, link.kind)
  }

  /** A flag is raised exactly when an attribute changes its field, if only for a while. */
  predicate FlagsSay(before: LinkData, attributes: seq<LinkAttribute>, raised: set<LinkFlag>) {
    && (MacChanged in raised <==> EverChanges(attributes, MacOf, before.mac))
    && (NameChanged in raised <==> EverChanges(attributes, NameOf, before.name))
    && (MtuChanged in raised <==> EverChanges(attributes, MtuOf, before.mtu))
    && (MasterChanged in raised <==> EverChanges(attributes, MasterOf, before.master))
  }

  lemma {:induction false} KindsSay(p: Progress, kinds: seq<string>)
    ensures WithKinds(p, kinds).link == if kinds == [] then p.link else p.link.(kind := kinds[|kinds| - 1])
    ensures forall f :: f != KindChanged ==> (f in WithKinds(p, kinds).raised <==> f in p.raised)
  {
    if kinds != [] { KindsSay(p, kinds[..|kinds| - 1]); }
  }

  lemma {:induction false} AttributesSay(p: Progress, attributes: seq<LinkAttribute>)
    ensures WithAttributes(p, attributes).link.flags == p.link.flags
    ensures LinkSays(p.link, attributes, WithAttributes(p, attributes).link)
  {
    hide LastCounts;
    if attributes == [] {
      NoneGiven(MacOf, p.link.mac);
      NoneGiven(NameOf, p.link.name);
      NoneGiven(MtuOf, p.link.mtu);
      NoneGiven(MasterOf, p.link.master);
      NoneGiven(KindOf, p.link.kind);
    } else {
      var front, last := attributes[..|attributes| - 1], attributes[|attributes| - 1];
      var q := WithAttributes(p, front);
      AttributesSay(p, front);
      assert attributes == front + [last];
      OneMoreGiven(front, last, MacOf, p.link.mac, q.link.mac);
      OneMoreGiven(front, last, NameOf, p.link.name, q.link.name);
      OneMoreGiven(front, last, MtuOf, p.link.mtu, q.link.mtu);
      OneMoreGiven(front, last, MasterOf, p.link.master, q.link.master);
      OneMoreGiven(front, last, KindOf, p.link.kind, q.link.kind);
      if last.Info? { KindsSay(q, last.kinds); }
    }
  }

  lemma {:induction false} AttributesFlag(p: Progress, attributes: seq<LinkAttribute>)
    requires p.raised <= {AdminStateChanged, OperStateChanged}
    ensures FlagsSay(p.link, attributes, WithAttributes(p, attributes).raised)
    ensures forall f :: f in {AdminStateChanged, OperStateChanged} ==> (f in WithAttributes(p, attributes).raised <==> f in p.raised)
  {
    hide LastCounts;
    if attributes != [] {
      hide EverChanges;
      var front, last := attributes[..|attributes| - 1], attributes[|attributes| - 1];
      var q := WithAttributes(p, front);
      AttributesFlag(p, front);
      AttributesSay(p, front);
      assert attributes == front + [last];
      OneMoreChange(front, last, MacOf, p.link.mac, q.link.mac);
      OneMoreChange(front, last, NameOf, p.link.name, q.link.name);
      OneMoreChange(front, last, MtuOf, p.link.mtu, q.link.mtu);
      OneMoreChange(front, last, MasterOf, p.link.master, q.link.master);
      if last.Info? { KindsSay(q, last.kinds); }
    }
  }

  /** What a link message makes of a link, by its flags and attributes alone. */
  lemma UpdateSays(link: LinkData, flags: nat, attributes: seq<LinkAttribute>)
    ensures
      var p := UpdateLink(link, flags, attributes);
      && p.link.flags == flags
      && LinkSays(link, attributes, p.link) && FlagsSay(link, attributes, p.raised)
      && (AdminStateChanged in p.raised <==> Differ(link.flags, flags, IFF_UP))
      && (OperStateChanged in p.raised <==> Differ(link.flags, flags, IFF_RUNNING))
  {
    hide Differ, LastCounts, EverChanges;
    var admin := if Differ(link.flags, flags, IFF_UP) then {AdminStateChanged} else {};
    var oper := if Differ(link.flags, flags, IFF_RUNNING) then {OperStateChanged} else {};
    var p := Progress(link.(flags := flags), admin + oper);
    AttributesSay(p, attributes);
    AttributesFlag(p, attributes);
  }

  // ----- and which address

  function IpOf(m: Message, number: nat): Ip
    requires m.Addr?
  {
    Ip(m.family, number, if m.family == Inet6 then m.index else 0)
  }

  function BroadcastOf(a: AddressAttribute): Option<nat> { if a.Broadcast? then Some(a.number) else None }

  predicate Gives(a: AddressAttribute) { (a.Local? || a.Peer?) && a.number != 0 }

  /** Before part `n` no address stands: any there was, a wildcard for the local one has taken back. */
  predicate Blank(parts: seq<AddressAttribute>, n: nat)
    requires n <= |parts|
  {
    forall k :: 0 <= k < n && Gives(parts[k]) ==> exists l :: k < l < n && parts[l] == Local(0)
  }

  /** Part `i` gives the address: the last local one, or a peer where none stood, with no local one after it. */
  predicate GivesAt(parts: seq<AddressAttribute>, i: nat)
    requires i < |parts|
  {
    Gives(parts[i]) && (parts[i].Local? || Blank(parts, i)) && forall k :: i < k < |parts| ==> !parts[k].Local?
  }

  predicate SaysIp(m: Message, ip: Ip)
    requires m.Addr?
  {
    if ip.number == 0 then
      Blank(m.parts, |m.parts|)
      && ip == if exists k :: 0 <= k < |m.parts| && (m.parts[k].Local? || m.parts[k].Peer?) then IpOf(m, 0) else Ip(Inet, 0, 0)
    else exists i :: 0 <= i < |m.parts| && GivesAt(m.parts, i) && ip == IpOf(m, m.parts[i].number)
  }

  predicate SaysAddress(m: Message, a: Address)
    requires m.Addr?
  {
    && SaysIp(m, a.ip) && a.prefix == m.prefix
    && a.broadcast.family == m.family && a.broadcast.scope == 0 && LastCounts(m.parts, BroadcastOf, 0, a.broadcast.number)
  }

  lemma BlankOnward(parts: seq<AddressAttribute>, p: AddressAttribute)
    ensures Blank(parts + [p], |parts| + 1) <==> p == Local(0) || (Blank(parts, |parts|) && !Gives(p))
    ensures forall i :: 0 <= i <= |parts| ==> (Blank(parts + [p], i) <==> Blank(parts, i))
  {
    var more := parts + [p];
    assert more[|parts|] == p;
    forall i | 0 <= i <= |parts| ensures Blank(more, i) <==> Blank(parts, i) {
      assert forall k :: 0 <= k < i ==> more[k] == parts[k];
    }
    if p != Local(0) && Blank(more, |parts| + 1) {
      forall k | 0 <= k < |parts| && Gives(parts[k]) ensures exists l :: k < l < |parts| && parts[l] == Local(0) {
        assert Gives(more[k]);
        var l :| k < l < |parts| + 1 && more[l] == Local(0);
        assert parts[l] == Local(0);
      }
    }
    if p != Local(0) && Blank(parts, |parts|) && !Gives(p) {
      forall k | 0 <= k < |more| && Gives(more[k]) ensures exists l :: k < l < |more| && more[l] == Local(0) {
        var l :| k < l < |parts| && parts[l] == Local(0);
        assert more[l] == Local(0);
      }
    }
  }

  lemma GivesOnward(parts: seq<AddressAttribute>, p: AddressAttribute, i: nat)
    requires i <= |parts|
    ensures GivesAt(parts + [p], i)
            <==> if i < |parts| then GivesAt(parts, i) && !p.Local? else Gives(p) && (p.Local? || Blank(parts, |parts|))
  {
    var more := parts + [p];
    BlankOnward(parts, p);
    assert more[|parts|] == p;
    assert forall k :: 0 <= k < |parts| ==> more[k] == parts[k];
  }

  /** Where one part gives the address, nothing is blank, and no other part gives it. */
  lemma OneGives(parts: seq<AddressAttribute>, i: nat, j: nat)
    requires i < |parts| && j < |parts| && GivesAt(parts, i)
    ensures !Blank(parts, |parts|)
    ensures GivesAt(parts, j) ==> i == j
  {
    if GivesAt(parts, j) && i < j { GivesOnce(parts, i, j); }
    if GivesAt(parts, j) && j < i { GivesOnce(parts, j, i); }
  }

  lemma GivesOnce(parts: seq<AddressAttribute>, i: nat, j: nat)
    requires i < j < |parts| && GivesAt(parts, i)
    ensures !GivesAt(parts, j)
  {}

  lemma {:induction false} GatherBroadcast(m: Message, parts: seq<AddressAttribute>)
    requires m.Addr?
    ensures
      var a := Gather(m.index, m.family, m.prefix, parts);
      && a.prefix == m.prefix && a.broadcast.family == m.family && a.broadcast.scope == 0
      && LastCounts(parts, BroadcastOf, 0, a.broadcast.number)
  {
    hide LastCounts;
    if parts == [] {
      NoneGiven(BroadcastOf, 0);
    } else {
      var front, last := parts[..|parts| - 1], parts[|parts| - 1];
      GatherBroadcast(m, front);
      assert parts == front + [last];
      OneMoreGiven(front, last, BroadcastOf, 0, Gather(m.index, m.family, m.prefix, front).broadcast.number);
    }
  }

  function NextIp(m: Message, ip: Ip, p: AddressAttribute): Ip
    requires m.Addr?
  {
    match p
    case Local(number) => IpOf(m, number)
    case Peer(number) => if ip.number == 0 then IpOf(m, number) else ip
    case _ => ip
  }

  lemma {:induction false} IpOnward(m: Message, parts: seq<AddressAttribute>, p: AddressAttribute, ip: Ip)
    requires m.Addr? && SaysIp(m.(parts := parts), ip)
    ensures SaysIp(m.(parts := parts + [p]), NextIp(m, ip, p))
  {
    var more, next := parts + [p], NextIp(m, ip, p);
    BlankOnward(parts, p);
    assert more[|parts|] == p;
    assert forall k :: 0 <= k < |parts| ==> more[k] == parts[k];
    if next.number == 0 {
      if exists k :: 0 <= k < |parts| && (parts[k].Local? || parts[k].Peer?) {
        var k :| 0 <= k < |parts| && (parts[k].Local? || parts[k].Peer?);
        assert more[k].Local? || more[k].Peer?;
      }
      if ip.number != 0 { assert p == Local(0); }
    } else if ip.number != 0 && !p.Local? {
      var i :| 0 <= i < |parts| && GivesAt(parts, i) && ip == IpOf(m.(parts := parts), parts[i].number);
      GivesOnward(parts, p, i);
      assert GivesAt(more, i);
    } else {
      GivesOnward(parts, p, |parts|);
      assert GivesAt(more, |parts|);
    }
  }

  lemma {:induction false} GatherIp(m: Message, parts: seq<AddressAttribute>)
    requires m.Addr?
    ensures SaysIp(m.(parts := parts), Gather(m.index, m.family, m.prefix, parts).ip)
  {
    if parts != [] {
      hide SaysIp;
      var front, last := parts[..|parts| - 1], parts[|parts| - 1];
      var a := Gather(m.index, m.family, m.prefix, front);
      GatherIp(m, front);
      assert parts == front + [last];
      IpOnward(m, front, last, a.ip);
      assert Gather(m.index, m.family, m.prefix, parts).ip == NextIp(m, a.ip, last);
    }
  }

  lemma GatherSays(m: Message)
    requires m.Addr?
    ensures SaysAddress(m, AddressOf(m))
  {
    hide SaysIp, LastCounts, Gather;
    GatherIp(m, m.parts);
    GatherBroadcast(m, m.parts);
    assert m.(parts := m.parts) == m;
  }

  lemma SaysOne(m: Message, a: Address, b: Address)
    requires m.Addr? && SaysAddress(m, a) && SaysAddress(m, b)
    ensures a == b
  {
    GivenIsOne(m.parts, BroadcastOf, 0, a.broadcast.number, b.broadcast.number);
    IpIsOne(m, a.ip, b.ip);
  }

  lemma IpIsOne(m: Message, ip: Ip, other: Ip)
    requires m.Addr? && SaysIp(m, ip) && SaysIp(m, other)
    ensures ip == other
  {
    forall i: nat, j: nat | i < |m.parts| && j < |m.parts| && GivesAt(m.parts, i)
      ensures !Blank(m.parts, |m.parts|) && (GivesAt(m.parts, j) ==> i == j)
    {
      OneGives(m.parts, i, j);
    }
  }

  /** The address of a message, by its parts alone. */
  lemma AddressExactly(m: Message, a: Address, ip: Ip)
    requires m.Addr?
    ensures AddressOf(m) == a <==> SaysAddress(m, a)
    ensures AddressOf(m).ip == ip <==> SaysIp(m, ip)
  {
    GatherSays(m);
    if SaysAddress(m, a) { SaysOne(m, AddressOf(m), a); }
    if SaysIp(m, ip) { IpIsOne(m, AddressOf(m).ip, ip); }
  }

  // ----- the cache, by its messages

  predicate LinkAbout(m: Message, index: nat) { m.Link? && !m.bridge && m.index == index }

  predicate LinkGoes(m: Message, index: nat) { LinkAbout(m, index) && m.deleted }

  /** Before message `n` the link was announced, and not deleted since. */
  predicate LinkUp(messages: seq<Message>, index: nat, n: nat)
    requires n <= |messages|
  {
    exists j :: 0 <= j < n && LinkAbout(messages[j], index) && !messages[j].deleted
                && forall k :: j < k < n ==> !LinkGoes(messages[k], index)
  }

  lemma LinkUpOnward(messages: seq<Message>, m: Message, index: nat)
    ensures LinkUp(messages + [m], index, |messages| + 1)
            <==> (LinkAbout(m, index) && !m.deleted) || (LinkUp(messages, index, |messages|) && !LinkGoes(m, index))
    ensures forall i :: 0 <= i <= |messages| ==> (LinkUp(messages + [m], index, i) <==> LinkUp(messages, index, i))
  {
    var more := messages + [m];
    assert more[|messages|] == m;
    assert forall k :: 0 <= k < |messages| ==> more[k] == messages[k];
    if LinkUp(messages, index, |messages|) && !LinkGoes(m, index) {
      var j :| 0 <= j < |messages| && LinkAbout(messages[j], index) && !messages[j].deleted
               && forall k :: j < k < |messages| ==> !LinkGoes(messages[k], index);
      assert LinkAbout(more[j], index);
    }
    if LinkUp(more, index, |more|) {
      var j :| 0 <= j < |more| && LinkAbout(more[j], index) && !more[j].deleted
               && forall k :: j < k < |more| ==> !LinkGoes(more[k], index);
      assert j < |messages| ==> LinkAbout(messages[j], index) && !LinkGoes(more[|messages|], index);
    }
    forall i | 0 <= i <= |messages| ensures LinkUp(more, index, i) <==> LinkUp(messages, index, i) {
      UpSame(messages, more, index, i);
    }
  }

  lemma UpSame(messages: seq<Message>, more: seq<Message>, index: nat, i: nat)
    requires i <= |messages| && messages <= more
    ensures LinkUp(more, index, i) <==> LinkUp(messages, index, i)
  {
    assert forall k :: 0 <= k < |messages| ==> more[k] == messages[k];
    if LinkUp(messages, index, i) {
      var j :| 0 <= j < i && LinkAbout(messages[j], index) && !messages[j].deleted
               && forall k :: j < k < i ==> !LinkGoes(messages[k], index);
      assert LinkAbout(more[j], index);
    }
    if LinkUp(more, index, i) {
      var j :| 0 <= j < i && LinkAbout(more[j], index) && !more[j].deleted
               && forall k :: j < k < i ==> !LinkGoes(more[k], index);
      assert LinkAbout(messages[j], index);
    }
  }

  /** Main result on links: one is in the cache exactly when it was announced and not deleted since. */
  lemma {:induction false} LinksFollowMessages(messages: seq<Message>, index: nat)
    ensures index in Run(messages) <==> LinkUp(messages, index, |messages|)
  {
    if messages != [] {
      var front, m := messages[..|messages| - 1], messages[|messages| - 1];
      hide UpdateLink, AddressOf, LinkUp;
      LinksFollowMessages(front, index);
      assert messages == front + [m];
      LinkUpOnward(front, m, index);
    }
  }

  /** And what it holds changes by its own announcements only, to what they say. */
  lemma LinkDataFollows(messages: seq<Message>, m: Message, index: nat)
    requires index in Run(messages + [m])
    ensures
      var before, after := Run(messages), Run(messages + [m]);
      if LinkAbout(m, index) then
        var was := if index in before then before[index].link else FRESH;
        after[index].link.flags == m.flags && LinkSays(was, m.attributes, after[index].link)
      else index in before && after[index].link == before[index].link
  {
    hide UpdateLink, AddressOf, LinkSays;
    OneMoreMessage(messages, m);
    if LinkAbout(m, index) {
      var before := Run(messages);
      UpdateSays(if index in before then before[index].link else FRESH, m.flags, m.attributes);
    }
  }

  predicate AddressAbout(m: Message, index: nat, ip: Ip) { m.Addr? && m.index == index && SaysIp(m, ip) }

  /** Message `i` put the address there, and nothing since has touched it or its link. */
  predicate ListedSince(messages: seq<Message>, index: nat, a: Address, i: nat) {
    && i < |messages| && messages[i].Addr? && messages[i].index == index && !messages[i].deleted
    && SaysAddress(messages[i], a) && LinkUp(messages, index, i)
    && forall k :: i < k < |messages| ==> !AddressAbout(messages[k], index, a.ip) && !LinkGoes(messages[k], index)
  }

  predicate Listed(messages: seq<Message>, index: nat, a: Address) {
    exists i :: 0 <= i < |messages| && ListedSince(messages, index, a, i)
  }

  lemma ListedOnward(messages: seq<Message>, m: Message, index: nat, a: Address)
    ensures Listed(messages + [m], index, a) <==>
              || (m.Addr? && m.index == index && !m.deleted && SaysAddress(m, a) && LinkUp(messages, index, |messages|))
              || (Listed(messages, index, a) && !AddressAbout(m, index, a.ip) && !LinkGoes(m, index))
  {
    hide SaysAddress, SaysIp, LinkUp;
    var more := messages + [m];
    LinkUpOnward(messages, m, index);
    assert more[|messages|] == m;
    assert forall k :: 0 <= k < |messages| ==> more[k] == messages[k];
    if Listed(messages, index, a) && !AddressAbout(m, index, a.ip) && !LinkGoes(m, index) {
      var i :| 0 <= i < |messages| && ListedSince(messages, index, a, i);
      assert ListedSince(more, index, a, i);
    }
    if m.Addr? && m.index == index && !m.deleted && SaysAddress(m, a) && LinkUp(messages, index, |messages|) {
      assert ListedSince(more, index, a, |messages|);
    }
    if Listed(more, index, a) {
      var i :| 0 <= i < |more| && ListedSince(more, index, a, i);
      assert i < |messages| ==> ListedSince(messages, index, a, i) && !AddressAbout(more[|messages|], index, a.ip);
    }
  }

  /** Main result on addresses: one is listed exactly when a message put it there, its link being
      known, and no later message was about its IP or took the link away. */
  lemma {:induction false} AddressesFollowMessages(messages: seq<Message>, index: nat, a: Address)
    ensures index in Run(messages) && a in Run(messages)[index].addresses <==> Listed(messages, index, a)
  {
    AddressesAreHistory(messages, index, a);
    SaidIsListed(messages, index, a);
  }

  lemma {:induction false} SaidIsListed(messages: seq<Message>, index: nat, a: Address)
    ensures LastSaid(messages, index, a.ip) == Some(a) <==> Listed(messages, index, a)
  {
    if messages != [] {
      hide Run, SaysAddress, SaysIp, AddressOf, LinkUp, Listed;
      var front, m := messages[..|messages| - 1], messages[|messages| - 1];
      SaidIsListed(front, index, a);
      assert messages == front + [m];
      ListedOnward(front, m, index, a);
      LinksFollowMessages(front, index);
      if m.Addr? { AddressExactly(m, a, a.ip); }
      if index !in Run(front) { NothingSaid(front, index, a.ip); }
      if m.Addr? && SaysAddress(m, a) { AddressHasIp(m, a); }
    }
  }

  lemma AddressHasIp(m: Message, a: Address)
    requires m.Addr? && SaysAddress(m, a)
    ensures SaysIp(m, a.ip)
  {}

  // ----- the manager

  class Interface {
    const index: nat
    var link: LinkData
    var addresses: seq<Address>

    constructor (index: nat)
      ensures this.index == index && Data() == Iface(FRESH, [])
    {
      this.index, link, addresses := index, FRESH, [];
    }

    function Data(): Iface
      reads this
    {
      Iface(link, addresses)
    }

    /** The attributes of a link message, one by one. */
    method Update(flags: nat, attributes: seq<LinkAttribute>) returns (raised: set<LinkFlag>)
      modifies this`link
      ensures Progress(link, raised) == UpdateLink(old(link), flags, attributes)
    {
      hide WithAttribute, Differ;
      raised := {};
      if Differ(link.flags, flags, IFF_UP) { raised := raised + {AdminStateChanged}; }
      if Differ(link.flags, flags, IFF_RUNNING) { raised := raised + {OperStateChanged}; }
      link := link.(flags := flags);
      ghost var start := Progress(link, raised);
      assert raised == (if Differ(old(link).flags, flags, IFF_UP) then {AdminStateChanged} else {})
                       + (if Differ(old(link).flags, flags, IFF_RUNNING) then {OperStateChanged} else {});
      var i := 0;
      while i < |attributes|
        invariant 0 <= i <= |attributes| && Progress(link, raised) == WithAttributes(start, attributes[..i])
      {
        assert attributes[..i + 1][..i] == attributes[..i];
        raised := UpdateOne(attributes[i], raised);
        i := i + 1;
      }
      assert attributes[..i] == attributes;
    }

    method UpdateOne(a: LinkAttribute, before: set<LinkFlag>) returns (raised: set<LinkFlag>)
      modifies this`link
      ensures Progress(link, raised) == WithAttribute(Progress(old(link), before), a)
    {
      raised := before;
      match a
      case Mac(mac) =>
        if link.mac != mac { raised := raised + {MacChanged}; }
        link := link.(mac := mac);
      case Name(name) =>
        if link.name != name { raised := raised + {NameChanged}; }
        link := link.(name := name);
      case Mtu(mtu) =>
        if link.mtu != mtu { raised := raised + {MtuChanged}; }
        link := link.(mtu := mtu);
      case Master(master) =>
        if link.master != master { raised := raised + {MasterChanged}; }
        link := link.(master := master);
      case Info(kinds) =>
        ghost var start := Progress(link, raised);
        var i := 0;
        while i < |kinds|
          invariant 0 <= i <= |kinds| && Progress(link, raised) == WithKinds(start, kinds[..i])
        {
          assert kinds[..i + 1][..i] == kinds[..i];
          if link.kind != kinds[i] { raised := raised + {KindChanged}; }
          link := link.(kind := kinds[i]);
          i := i + 1;
        }
        assert kinds[..i] == kinds;
      case OtherLink =>
    }

    /** In place if the IP is there, else at the end. */
    method PlaceAddress(a: Address) returns (added: bool)
      modifies this`addresses
      ensures addresses == Place(old(addresses), a) && added == !Lists(old(addresses), a.ip)
    {
      var i := 0;
      while i < |addresses| && addresses[i].ip != a.ip
        invariant 0 <= i <= |addresses| && forall j | 0 <= j < i :: addresses[j].ip != a.ip
      {
        i := i + 1;
      }
      added := i == |addresses|;
      PlaceAt(addresses, a, i);
      addresses := if added then addresses + [a] else addresses[i := a];
    }

    method RemoveAddress(ip: Ip)
      modifies this`addresses
      ensures addresses == Without(old(addresses), ip)
    {
      var kept, i := [], 0;
      while i < |addresses|
        invariant 0 <= i <= |addresses| && kept == Without(addresses[..i], ip)
      {
        assert addresses[..i + 1][..i] == addresses[..i];
        if addresses[i].ip != ip { kept := kept + [addresses[i]]; }
        i := i + 1;
      }
      assert addresses[..i] == addresses;
      addresses := kept;
    }
  }

  lemma {:induction false} PlaceAt(addresses: seq<Address>, a: Address, i: nat)
    requires i <= |addresses| && (i < |addresses| ==> addresses[i].ip == a.ip)
    requires forall j | 0 <= j < i :: addresses[j].ip != a.ip
    ensures Place(addresses, a) == if i == |addresses| then addresses + [a] else addresses[i := a]
  {
    if i > 0 { PlaceAt(addresses[1..], a, i - 1); }
  }

  class InterfaceManager {
    var interfaces: map<nat, Interface>
    var linksTold: seq<LinkNotice>
    var addressesTold: seq<AddressNotice>

    ghost predicate Valid()
      reads this
    {
      forall k | k in interfaces :: interfaces[k].index == k
    }

    ghost function Cache(): map<nat, Iface>
      reads this, interfaces.Values
    {
      map k | k in interfaces :: interfaces[k].Data()
    }

    constructor ()
      ensures Valid() && interfaces == map[] && linksTold == [] && addressesTold == []
    {
      interfaces, linksTold, addressesTold := map[], [], [];
    }

    method Acquire(index: nat) returns (iface: Interface, added: bool)
      requires Valid()
      modifies this`interfaces
      ensures Valid() && added == (index !in old(interfaces)) && index in interfaces && interfaces[index] == iface
      ensures if added then fresh(iface) && iface.Data() == Iface(FRESH, []) && interfaces == old(interfaces)[index := iface]
              else interfaces == old(interfaces)
    {
      if index in interfaces { return interfaces[index], false; }
      iface := new Interface(index);
      interfaces := interfaces[index := iface];
      added := true;
    }

    method OnLinkMessage(m: Message)
      requires Valid() && m.Link?
      modifies this, interfaces.Values
      ensures Valid() && forall n | n in interfaces.Values :: n in old(interfaces.Values) || fresh(n)
      ensures Cache() == Apply(old(Cache()), m)
      ensures linksTold == old(linksTold) + TellLinks(old(Cache()), m) && addressesTold == old(addressesTold)
    {
      hide UpdateLink;
      if m.bridge { return; }
      if m.deleted {
        var known := m.index in interfaces;
        interfaces := interfaces - {m.index};
        linksTold := linksTold + [LinkNotice(m.index, known, false, true, {})];
        return;
      }
      var added, raised := UpdateInterface(m.index, m.flags, m.attributes);
      linksTold := linksTold + [LinkNotice(m.index, true, added, false, raised)];
    }

    /** Find or add the interface and bring it up to date. */
    method UpdateInterface(index: nat, flags: nat, attributes: seq<LinkAttribute>) returns (added: bool, raised: set<LinkFlag>)
      requires Valid()
      modifies this`interfaces, interfaces.Values
      ensures Valid() && forall n | n in interfaces.Values :: n in old(interfaces.Values) || fresh(n)
      ensures added == (index !in old(Cache()))
      ensures
        var was := if added then Iface(FRESH, []) else old(Cache())[index];
        var now := UpdateLink(was.link, flags, attributes);
        Cache() == old(Cache())[index := Iface(now.link, was.addresses)] && raised == now.raised
    {
      hide UpdateLink;
      var iface;
      iface, added := Acquire(index);
      raised := iface.Update(flags, attributes);
      assert forall k | k in interfaces && k != index :: interfaces[k] != iface;
    }

    method GatherAddress(m: Message) returns (a: Address)
      requires m.Addr?
      ensures a == AddressOf(m)
    {
      a := Address(Ip(Inet, 0, 0), m.prefix, Ip(m.family, 0, 0));
      var scope := if m.family == Inet6 then m.index else 0;
      var i := 0;
      while i < |m.parts|
        invariant 0 <= i <= |m.parts| && a == Gather(m.index, m.family, m.prefix, m.parts[..i])
      {
        assert m.parts[..i + 1][..i] == m.parts[..i];
        match m.parts[i] {
          case Local(number) => a := a.(ip := Ip(m.family, number, scope));
          case Peer(number) => if a.ip.number == 0 { a := a.(ip := Ip(m.family, number, scope)); }
          case Broadcast(number) => a := a.(broadcast := Ip(m.family, number, 0));
          case OtherAddress =>
        }
        i := i + 1;
      }
      assert m.parts[..i] == m.parts;
    }

    method OnAddressMessage(m: Message)
      requires Valid() && m.Addr?
      modifies this, interfaces.Values
      ensures Valid() && interfaces == old(interfaces)
      ensures Cache() == Apply(old(Cache()), m)
      ensures addressesTold == old(addressesTold) + TellAddresses(old(Cache()), m) && linksTold == old(linksTold)
    {
      hide AddressOf, Place, Without, Lists;
      var a := GatherAddress(m);
      if m.index !in interfaces { return; }
      var iface := interfaces[m.index];
      var change := Deleted;
      if !m.deleted {
        var added := iface.PlaceAddress(a);
        change := if added then Added else Modified;
      } else {
        iface.RemoveAddress(a.ip);
      }
      assert Cache() == Apply(old(Cache()), m) by {
        assert forall k | k in interfaces && k != m.index :: interfaces[k] != iface;
      }
      addressesTold := addressesTold + [AddressNotice(m.index, a, change)];
    }

    /** After any messages, the cache and what was told are those of the run. */
    method OnMessages(messages: seq<Message>)
      requires Valid() && interfaces == map[] && linksTold == [] && addressesTold == []
      modifies this, interfaces.Values
      ensures Valid() && Cache() == Run(messages)
      ensures linksTold == LinksTold(messages) && addressesTold == AddressesTold(messages)
    {
      hide Apply, TellLinks, TellAddresses;
      var i := 0;
      while i < |messages|
        invariant 0 <= i <= |messages| && Valid()
        invariant forall n | n in interfaces.Values :: fresh(n)
        invariant Cache() == Run(messages[..i])
        invariant linksTold == LinksTold(messages[..i]) && addressesTold == AddressesTold(messages[..i])
      {
        assert messages[..i + 1][..i] == messages[..i];
        OneKind(Cache(), messages[i]);
        if messages[i].Link? { OnLinkMessage(messages[i]); } else { OnAddressMessage(messages[i]); }
        i := i + 1;
      }
      assert messages[..i] == messages;
    }
  }

  lemma OneKind(c: map<nat, Iface>, m: Message)
    ensures m.Addr? ==> TellLinks(c, m) == []
    ensures m.Link? ==> TellAddresses(c, m) == []
  {}
}
