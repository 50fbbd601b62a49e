/**
 A VM's firewall rules (services/firewallService.ts), what a packet is to them, and the decision they
 stand for: that of the first rule in the packet's direction that applies, or else the default. The two
 layers that put them in force are compared with this.
 */
module Firewall {
  import opened Wrappers
  import Cidr

  datatype Direction = Inbound | Outbound
  datatype Action = Allow | Drop
  datatype Protocol = Tcp | Udp | Icmp | All

  /** One part of a port list: a port, or a range written with '-' or ':'. */
  datatype Ports = One(port: nat) | Range(low: nat, high: nat)

  datatype IcmpType = IcmpType(type_: nat, code: Option<nat>)

  /** `ports` is empty for a rule with no port list. */
  datatype Rule = Rule(
    direction: Direction, protocol: Protocol, ports: seq<Ports>,
    source: Option<Cidr.Block>, destination: Option<Cidr.Block>, icmpType: Option<IcmpType>, action: Action)

  datatype Config = Config(
    rules: seq<Rule>, defaultInbound: Action, defaultOutbound: Action, allowEstablishedInbound: bool,
    allowEstablishedOutbound: bool)

  /** What validateFirewallConfig lets through. */
  ghost predicate ValidRule(r: Rule) {
    && (r.ports != [] ==> r.protocol == Tcp || r.protocol == Udp)
    && (forall p :: p in r.ports ==> 1 <= Low(p) <= High(p) <= 65535)
    && (r.source.Some? ==> Cidr.Valid(r.source.value))
    && (r.destination.Some? ==> Cidr.Valid(r.destination.value))
  }

  function Low(p: Ports): nat {
    match p case One(n) => n case Range(low, _) => low
  }

  function High(p: Ports): nat {
    match p case One(n) => n case Range(_, high) => high
  }

  // ----- Packets

  datatype Ether = Ip4 | Ip6 | Tagged | OtherEther

  datatype Payload =
    | TcpTo(dport: nat)
    | UdpTo(sport: nat, dport: nat)
    | IcmpOf(type_: nat, code: nat)
    | Icmp6Of(type_: nat)
    | OtherPayload

  /** What connection tracking says of the packet. */
  datatype CtState = New | Established | Related | NoState

  /**
   A frame at a tap. `laterFragment` has no ports to see; `withinRate` is whether the rate limits have room for
   it.
   */
  datatype Frame = Frame(
    ether: Ether, toBroadcast: bool, toGroup: bool, length: nat, saddr: nat, daddr: nat,
    payload: Payload, laterFragment: bool, state: CtState, withinRate: bool)

  // ----- The decision

  predicate InBlock(b: Option<Cidr.Block>, addr: nat) {
    b == None || !Cidr.Valid(b.value) || Cidr.Contains(b.value, addr)
  }

  predicate InPorts(ports: seq<Ports>, port: nat): (b: bool)
    ensures b <==> One(port) in ports || exists low: nat, high: nat :: Range(low, high) in ports && low <= port <= high
  {
    exists p :: p in ports && Low(p) <= port <= High(p)
  }

  predicate Applies(r: Rule, f: Frame) {
    && (r.direction == Inbound ==> InBlock(r.source, f.saddr))
    && (r.direction == Outbound ==> InBlock(r.destination, f.daddr))
    && match r.protocol
       case All => true
       case Tcp => f.payload.TcpTo? && (r.ports == [] || InPorts(r.ports, f.payload.dport))
       case Udp => f.payload.UdpTo? && (r.ports == [] || InPorts(r.ports, f.payload.dport))
       case Icmp =>
         f.payload.IcmpOf? && (r.icmpType == None ||
                               (f.payload.type_ == r.icmpType.value.type_
                                && (r.icmpType.value.code == None || f.payload.code == r.icmpType.value.code.value)))
  }

  function FirstMatch(rules: seq<Rule>, dir: Direction, f: Frame): Option<Rule> {
    if rules == [] then None
    else if rules[0].direction == dir && Applies(rules[0], f) then Some(rules[0])
    else FirstMatch(rules[1..], dir, f)
  }

  function Default(cfg: Config, dir: Direction): Action {
    if dir == Inbound then cfg.defaultInbound else cfg.defaultOutbound
  }

  function Decision(cfg: Config, dir: Direction, f: Frame): Action {
    var first := FirstMatch(cfg.rules, dir, f);
    if first.Some? then first.value.action else Default(cfg, dir)
  }

  function RulesFor(rules: seq<Rule>, dir: Direction): (those: seq<Rule>)
    ensures forall r :: r in those <==> r in rules && r.direction == dir
  {
    if rules == [] then []
    else if rules[0].direction == dir then [rules[0]] + RulesFor(rules[1..], dir)
    else RulesFor(rules[1..], dir)
  }

  // ----- At a tap, where any frame may come

  predicate IsIp(f: Frame) {
    f.ether == Ip4 || f.ether == Ip6
  }

  /** The address a rule names, if any, and the frame's own that it is about. */
  function AddressOf(r: Rule): Option<Cidr.Block> {
    if r.direction == Inbound then r.source else r.destination
  }

  function FarEnd(r: Rule, f: Frame): nat {
    if r.direction == Inbound then f.saddr else f.daddr
  }

  /**
   What a rule takes there. A rule with an address is for IPv4, one without is for IPv6 too; a fragment after
   the first has no ports and no type to go by, but is still TCP, UDP or ICMP.
   */
  predicate Takes(r: Rule, f: Frame) {
    && (AddressOf(r).Some? ==> f.ether == Ip4 && InBlock(AddressOf(r), FarEnd(r, f)))
    && match r.protocol
       case All => true
       case Tcp =>
         IsIp(f) && f.payload.TcpTo? && (r.ports == [] || (!f.laterFragment && InPorts(r.ports, f.payload.dport)))
       case Udp =>
         IsIp(f) && f.payload.UdpTo? && (r.ports == [] || (!f.laterFragment && InPorts(r.ports, f.payload.dport)))
       case Icmp =>
         if r.icmpType == None then
           || (f.ether == Ip4 && f.payload.IcmpOf?)
           || (AddressOf(r) == None && IsIp(f) && (f.payload.IcmpOf? || f.payload.Icmp6Of?))
         else
           f.ether == Ip4 && !f.laterFragment && f.payload.IcmpOf? && f.payload.type_ == r.icmpType.value.type_
           && (r.icmpType.value.code == None || f.payload.code == r.icmpType.value.code.value)
  }

  function FirstTaking(rules: seq<Rule>, f: Frame): Option<Rule> {
    if rules == [] then None else if Takes(rules[0], f) then Some(rules[0]) else FirstTaking(rules[1..], f)
  }

  /** Whether the first rule in its direction that takes a frame allows it, or none does and the default allows. */
  predicate Lets(cfg: Config, dir: Direction, f: Frame) {
    var first := FirstTaking(RulesFor(cfg.rules, dir), f);
    if first.Some? then first.value.action == Allow else Default(cfg, dir) == Allow
  }

  /** A packet both layers see alike: unfragmented, untagged IPv4. */
  predicate Plain(f: Frame) {
    f.ether == Ip4 && !f.laterFragment && !f.payload.Icmp6Of?
  }

  /** And the first of its connection. */
  predicate Ordinary(f: Frame) {
    Plain(f) && f.state == New
  }

  lemma {:induction false} FirstTakingIsFirstMatch(rules: seq<Rule>, dir: Direction, f: Frame)
    requires Plain(f)
    ensures FirstTaking(RulesFor(rules, dir), f) == FirstMatch(rules, dir, f)
  {
    if rules != [] {
      assert rules[0].direction == dir ==> (Takes(rules[0], f) <==> Applies(rules[0], f)) by { hide InPorts, InBlock; }
      hide Takes, Applies;
      FirstTakingIsFirstMatch(rules[1..], dir, f);
      if rules[0].direction == dir { assert RulesFor(rules, dir)[1..] == RulesFor(rules[1..], dir); }
    }
  }

  /** Of a plain packet that is the decision the rules stand for. */
  lemma LetsIsDecision(cfg: Config, dir: Direction, f: Frame)
    requires Plain(f)
    ensures Lets(cfg, dir, f) <==> Decision(cfg, dir, f) == Allow
  {
    hide FirstTaking, FirstMatch, RulesFor;
    FirstTakingIsFirstMatch(cfg.rules, dir, f);
  }
}
