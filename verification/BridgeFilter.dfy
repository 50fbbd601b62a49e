/**
 The nftables side of a VM's firewall, from lib/bridgeFilter.ts: a chain for frames to its taps and one
 for frames from them, run by three hooks. A rule is a list of matches, a mark it may set on the frame's
 connection, and a verdict it may give. Commands' text, sets and maps as nft holds them, and limits'
 counting are not modelled.
 */
module BridgeFilter {
  import opened Wrappers
  import opened Firewall
  import opened Js32
  import Cidr

  datatype Match =
    | EtherNotIp
    | EtherBroadcast
    | EtherMulticast
    | UdpPorts(sport: nat, dport: nat)
    | MetaLength(max: nat)
    | LimitRate
    | Icmp6In(types: set<nat>)
    | IpSaddr(block: Cidr.Block)
    | IpDaddr(block: Cidr.Block)
    | TcpDport(ports: seq<Ports>)
    | UdpDport(ports: seq<Ports>)
    | L4Proto(protocol: Protocol)
    | L4ProtoAnyIcmp
    | IpProtocolIcmp
    | IcmpTypeIs(type_: nat)
    | IcmpCodeIs(code: nat)
    | FragOffset4
    | FragOffset6
    | CtStateIn(states: set<CtState>)
    | CtMarkIs(mask: nat, value: nat)

  datatype Verdict = Return | DropIt | AcceptIt

  /** `ct mark set ct mark & keep | value`. */
  datatype SetMark = SetMark(keep: nat, value: nat)

  datatype NftRule = NftRule(matches: seq<Match>, mark: Option<SetMark>, verdict: Option<Verdict>)

  // ----- What rules do

  predicate Matches(m: Match, f: Frame, mark: nat) {
    match m
    case EtherNotIp => f.ether == OtherEther
    case EtherBroadcast => f.toBroadcast
    case EtherMulticast => f.toGroup
    case UdpPorts(sport, dport) => IsIp(f) && !f.laterFragment && f.payload == UdpTo(sport, dport)
    case MetaLength(max) => f.length <= max
    case LimitRate => f.withinRate
    case Icmp6In(types) => f.ether == Ip6 && !f.laterFragment && f.payload.Icmp6Of? && f.payload.type_ in types
    case IpSaddr(block) => f.ether == Ip4 && InBlock(Some(block), f.saddr)
    case IpDaddr(block) => f.ether == Ip4 && InBlock(Some(block), f.daddr)
    case TcpDport(ports) => IsIp(f) && !f.laterFragment && f.payload.TcpTo? && InPorts(ports, f.payload.dport)
    case UdpDport(ports) => IsIp(f) && !f.laterFragment && f.payload.UdpTo? && InPorts(ports, f.payload.dport)
    case L4Proto(protocol) =>
      IsIp(f) && (match protocol case Tcp => f.payload.TcpTo? case Udp => f.payload.UdpTo? case _ => false)
    case L4ProtoAnyIcmp => IsIp(f) && (f.payload.IcmpOf? || f.payload.Icmp6Of?)
    case IpProtocolIcmp => f.ether == Ip4 && f.payload.IcmpOf?
    case IcmpTypeIs(t) => f.ether == Ip4 && !f.laterFragment && f.payload.IcmpOf? && f.payload.type_ == t
    case IcmpCodeIs(c) => f.ether == Ip4 && !f.laterFragment && f.payload.IcmpOf? && f.payload.code == c
    case FragOffset4 => f.ether == Ip4 && f.laterFragment
    case FragOffset6 => f.ether == Ip6 && f.laterFragment
    case CtStateIn(states) => f.state in states
    case CtMarkIs(mask, value) => AndBits(mark, mask) == value
  }

  predicate AllMatch(matches: seq<Match>, f: Frame, mark: nat) {
    forall m :: m in matches ==> Matches(m, f, mark)
  }

  function Marked(mark: nat, s: Option<SetMark>): nat {
    if s == None then mark else OrBits(AndBits(mark, s.value.keep), s.value.value)
  }

  /** How a chain ends for a frame, with the connection's mark as it leaves it. */
  datatype Outcome = Outcome(verdict: Verdict, mark: nat)

  /** A chain that runs out returns. */
  function Eval(chain: seq<NftRule>, f: Frame, mark: nat): (o: Outcome)
    decreases |chain|
  {
    if chain == [] then Outcome(Return, mark)
    else
      var rule := chain[0];
      if !AllMatch(rule.matches, f, mark) then Eval(chain[1..], f, mark)
      else if rule.verdict.Some? then Outcome(rule.verdict.value, Marked(mark, rule.mark))
      else Eval(chain[1..], f, Marked(mark, rule.mark))
  }

  // ----- The scripts

  function RuleAddress(r: Rule): seq<Match> {
    if r.direction == Inbound && r.source.Some? then [IpSaddr(r.source.value)]
    else if r.direction == Outbound && r.destination.Some? then [IpDaddr(r.destination.value)]
    else []
  }

  /** Without an address a rule holds for IPv6 too. */
  function RulePayload(r: Rule): seq<Match> {
    match r.protocol
    case Tcp => if r.ports != [] then [TcpDport(r.ports)] else [L4Proto(Tcp)]
    case Udp => if r.ports != [] then [UdpDport(r.ports)] else [L4Proto(Udp)]
    case Icmp =>
      if r.icmpType.Some? then
        [IcmpTypeIs(r.icmpType.value.type_)]
        + if r.icmpType.value.code.Some? then [IcmpCodeIs(r.icmpType.value.code.value)] else []
      else if RuleAddress(r) != [] then [IpProtocolIcmp] else [L4ProtoAnyIcmp]
    case All => []
  }

  function RuleMatch(r: Rule): seq<Match> {
    RuleAddress(r) + RulePayload(r)
  }

  function RuleToNft(r: Rule): NftRule {
    NftRule(RuleMatch(r), None, Some(if r.action == Allow then Return else DropIt))
  }

  const TOP: nat := 0xffff_0000
  const BOTTOM: nat := 0x0000_ffff

  function Pass(matches: seq<Match>): NftRule {
    NftRule(matches, None, Some(Return))
  }

  const DHCP_SIZE: nat := 1100

  function AlwaysIn(): seq<NftRule> {
    [Pass([EtherNotIp]),
     Pass([UdpPorts(67, 68), MetaLength(DHCP_SIZE), LimitRate]),
     Pass([UdpPorts(547, 546), MetaLength(DHCP_SIZE), LimitRate]),
     Pass([Icmp6In({134, 135, 136, 137, 130})])]
  }

  function AlwaysOut(): seq<NftRule> {
    [Pass([EtherNotIp]),
     Pass([EtherBroadcast, UdpPorts(68, 67), MetaLength(DHCP_SIZE), LimitRate]),
     Pass([EtherMulticast, UdpPorts(546, 547), MetaLength(DHCP_SIZE), LimitRate]),
     Pass([Icmp6In({133, 135, 136, 131, 143, 132})])]
  }

  /** A fragment after the first of a connection with this half of its mark. */
  function Fragments(mask: nat, value: nat): seq<NftRule> {
    [Pass([FragOffset4, CtMarkIs(mask, value)]), Pass([FragOffset6, CtMarkIs(mask, value)])]
  }

  function Started(mark: nat): nat {
    mark * 0x1_0000
  }

  function LetIn(mark: nat): SetMark {
    SetMark(TOP, mark)
  }

  function InboundRules(rules: seq<Rule>, mark: nat): seq<NftRule> {
    if rules == [] then []
    else
      var r := rules[0];
      [if r.action == Allow then NftRule(RuleMatch(r), Some(LetIn(mark)), Some(Return)) else RuleToNft(r)]
      + InboundRules(rules[1..], mark)
  }

  function OutboundRules(rules: seq<Rule>): seq<NftRule> {
    if rules == [] then [] else [RuleToNft(rules[0])] + OutboundRules(rules[1..])
  }

  function EstablishedIn(cfg: Config, mark: nat): seq<NftRule> {
    if cfg.allowEstablishedInbound then
      [Pass([CtStateIn({Established, Related}), CtMarkIs(TOP, Started(mark))]),
       Pass([CtStateIn({Related}), CtMarkIs(BOTTOM, mark)])]
    else []
  }

  function EstablishedOut(cfg: Config, mark: nat): seq<NftRule> {
    if cfg.allowEstablishedOutbound then
      [Pass([CtStateIn({Established, Related}), CtMarkIs(BOTTOM, mark)]),
       Pass([CtStateIn({Related}), CtMarkIs(TOP, Started(mark))])]
    else []
  }

  function DropRule(): NftRule {
    NftRule([], None, Some(DropIt))
  }

  /** What comes before the rules: what always passes, fragments and replies. */
  function InPreamble(cfg: Config, mark: nat): seq<NftRule> {
    AlwaysIn() + Fragments(TOP, Started(mark)) + Fragments(BOTTOM, mark) + EstablishedIn(cfg, mark)
  }

  function InEnd(cfg: Config, mark: nat): NftRule {
    if cfg.defaultInbound == Drop then DropRule() else NftRule([], Some(LetIn(mark)), None)
  }

  function InChain(cfg: Config, mark: nat): seq<NftRule> {
    InPreamble(cfg, mark) + InboundRules(RulesFor(cfg.rules, Inbound), mark) + [InEnd(cfg, mark)]
  }

  /** A new connection that leaves this VM is marked as its own before its rules are asked. */
  function StartRule(mark: nat): NftRule {
    NftRule([CtStateIn({New})], Some(SetMark(BOTTOM, Started(mark))), None)
  }

  function OutReplies(cfg: Config, mark: nat): seq<NftRule> {
    Fragments(TOP, Started(mark)) + Fragments(BOTTOM, mark) + EstablishedOut(cfg, mark)
  }

  function OutEnd(cfg: Config): seq<NftRule> {
    if cfg.defaultOutbound == Drop then [DropRule()] else []
  }

  function OutChain(cfg: Config, mark: nat): seq<NftRule> {
    AlwaysOut() + [StartRule(mark)] + OutReplies(cfg, mark) + OutboundRules(RulesFor(cfg.rules, Outbound)) + OutEnd(cfg)
  }

  // ----- The hooks

  datatype HookRule = AcceptFromHost | AcceptToHost | FromVm | ToVm

  /** From one port to another, from the host's IP stack to a port, and from a port up to it. */
  const FORWARD: seq<HookRule> := [FromVm, ToVm]
  const OUTPUT: seq<HookRule> := [AcceptFromHost, ToVm]
  const INPUT: seq<HookRule> := [AcceptToHost, FromVm]

  /** The chains a frame is sent to by the tap it arrived on and the one it leaves by, where those are a VM's. */
  datatype Taps = Taps(from: Option<seq<NftRule>>, to: Option<seq<NftRule>>)

  /** Whether a frame gets through a hook, and its connection's mark then. */
  datatype Through = Through(passes: bool, mark: nat)

  function EvalHook(hook: seq<HookRule>, taps: Taps, hostAddrs: set<nat>, f: Frame, mark: nat): Through
    decreases |hook|, 1
  {
    if hook == [] then Through(true, mark)
    else
      match hook[0]
      case AcceptFromHost =>
        if f.ether == Ip4 && f.saddr in hostAddrs then Through(true, mark)
        else EvalHook(hook[1..], taps, hostAddrs, f, mark)
      case AcceptToHost =>
        if f.ether == Ip4 && f.daddr in hostAddrs then Through(true, mark)
        else EvalHook(hook[1..], taps, hostAddrs, f, mark)
      case FromVm =>
        if taps.from == None then EvalHook(hook[1..], taps, hostAddrs, f, mark)
        else AfterChain(Eval(taps.from.value, f, mark), hook, taps, hostAddrs, f)
      case ToVm =>
        if taps.to == None then EvalHook(hook[1..], taps, hostAddrs, f, mark)
        else AfterChain(Eval(taps.to.value, f, mark), hook, taps, hostAddrs, f)
  }

  /** A drop or an accept in a chain ends the hook; a return goes on. */
  function AfterChain(o: Outcome, hook: seq<HookRule>, taps: Taps, hostAddrs: set<nat>, f: Frame): Through
    requires hook != []
    decreases |hook|, 0
  {
    match o.verdict
    case DropIt => Through(false, o.mark)
    case AcceptIt => Through(true, o.mark)
    case Return => EvalHook(hook[1..], taps, hostAddrs, f, o.mark)
  }

  // ----- Reading a chain

  /** Rules that only let a frame pass. */
  ghost predicate OnlyPass(chain: seq<NftRule>) {
    forall r :: r in chain ==> r.verdict == Some(Return) && r.mark == None
  }

  ghost predicate SomeMatch(chain: seq<NftRule>, f: Frame, mark: nat) {
    exists r :: r in chain && AllMatch(r.matches, f, mark)
  }

  /** Such rules either end the chain at one of them or leave it to what follows. */
  lemma {:induction false} PassOrGoOn(chain: seq<NftRule>, rest: seq<NftRule>, f: Frame, mark: nat)
    requires OnlyPass(chain)
    ensures !SomeMatch(chain, f, mark) ==> Eval(chain + rest, f, mark) == Eval(rest, f, mark)
    ensures SomeMatch(chain, f, mark) ==> Eval(chain + rest, f, mark) == Outcome(Return, mark)
  {
    hide AllMatch;
    if chain == [] {
      assert chain + rest == rest;
    } else {
      assert (chain + rest)[0] == chain[0] && (chain + rest)[1..] == chain[1..] + rest;
      assert chain[0] in chain && forall r :: r in chain <==> r == chain[0] || r in chain[1..];
      PassOrGoOn(chain[1..], rest, f, mark);
    }
  }

  lemma MatchEither(a: seq<NftRule>, b: seq<NftRule>, f: Frame, mark: nat)
    ensures SomeMatch(a + b, f, mark) <==> SomeMatch(a, f, mark) || SomeMatch(b, f, mark)
  {
    assert forall r :: r in a + b <==> r in a || r in b;
  }

  lemma MatchOfTwo(a: NftRule, b: NftRule, f: Frame, mark: nat)
    ensures SomeMatch([a, b], f, mark) <==> AllMatch(a.matches, f, mark) || AllMatch(b.matches, f, mark)
  {
    assert a in [a, b] && b in [a, b];
  }

  lemma All1(m: Match, f: Frame, mark: nat)
    ensures AllMatch([m], f, mark) <==> Matches(m, f, mark)
  {
    assert m in [m];
  }

  lemma All2(m: Match, n: Match, f: Frame, mark: nat)
    ensures AllMatch([m, n], f, mark) <==> Matches(m, f, mark) && Matches(n, f, mark)
  {
    assert m in [m, n] && n in [m, n];
  }

  lemma AllBoth(a: seq<Match>, b: seq<Match>, f: Frame, mark: nat)
    ensures AllMatch(a + b, f, mark) <==> AllMatch(a, f, mark) && AllMatch(b, f, mark)
  {
    assert forall m :: m in a + b <==> m in a || m in b;
  }

  // ----- What the script lets pass, frame by frame

  predicate IsDhcp(f: Frame, from: nat, to: nat) {
    IsIp(f) && !f.laterFragment && f.payload == UdpTo(from, to) && f.length <= 1100 && f.withinRate
  }

  predicate IsIcmp6(f: Frame, types: set<nat>) {
    f.ether == Ip6 && !f.laterFragment && f.payload.Icmp6Of? && f.payload.type_ in types
  }

  /** What a NIC needs to have a network at all: ARP and the like, DHCP, and finding neighbours over IPv6. */
  predicate NeedsNoRule(dir: Direction, f: Frame) {
    || f.ether == OtherEther
    || if dir == Inbound then
         IsDhcp(f, 67, 68) || IsDhcp(f, 547, 546) || IsIcmp6(f, {130, 134, 135, 136, 137})
       else
         || (f.toBroadcast && IsDhcp(f, 68, 67)) || (f.toGroup && IsDhcp(f, 546, 547))
         || IsIcmp6(f, {131, 132, 133, 135, 136, 143})
  }

  lemma DhcpIs(from: nat, to: nat, f: Frame, mark: nat)
    ensures var those := [UdpPorts(from, to), MetaLength(DHCP_SIZE), LimitRate];
            AllMatch(those, f, mark) <==> IsDhcp(f, from, to)
  {
    var small := [MetaLength(DHCP_SIZE), LimitRate];
    assert [UdpPorts(from, to), MetaLength(DHCP_SIZE), LimitRate] == [UdpPorts(from, to)] + small;
    hide AllMatch;
    AllBoth([UdpPorts(from, to)], small, f, mark);
    All1(UdpPorts(from, to), f, mark);
    All2(MetaLength(DHCP_SIZE), LimitRate, f, mark);
  }

  lemma DhcpTo(m: Match, from: nat, to: nat, f: Frame, mark: nat)
    ensures AllMatch([m, UdpPorts(from, to), MetaLength(DHCP_SIZE), LimitRate], f, mark)
       <==> Matches(m, f, mark) && IsDhcp(f, from, to)
  {
    var those := [UdpPorts(from, to), MetaLength(DHCP_SIZE), LimitRate];
    assert [m, UdpPorts(from, to), MetaLength(DHCP_SIZE), LimitRate] == [m] + those;
    hide AllMatch;
    AllBoth([m], those, f, mark);
    All1(m, f, mark);
    DhcpIs(from, to, f, mark);
  }

  lemma MatchOfFour(a: NftRule, b: NftRule, c: NftRule, d: NftRule, f: Frame, mark: nat)
    ensures SomeMatch([a, b, c, d], f, mark)
       <==> || AllMatch(a.matches, f, mark) || AllMatch(b.matches, f, mark)
            || AllMatch(c.matches, f, mark) || AllMatch(d.matches, f, mark)
  {
    assert [a, b, c, d] == [a, b] + [c, d];
    MatchEither([a, b], [c, d], f, mark);
    MatchOfTwo(a, b, f, mark);
    MatchOfTwo(c, d, f, mark);
  }

  /** The rules that come first pass exactly what needs none, whatever its connection's mark. */
  lemma AlwaysIs(f: Frame, mark: nat)
    ensures SomeMatch(AlwaysIn(), f, mark) <==> NeedsNoRule(Inbound, f)
    ensures SomeMatch(AlwaysOut(), f, mark) <==> NeedsNoRule(Outbound, f)
  {
    hide AllMatch, SomeMatch, IsDhcp;
    var i, o := AlwaysIn(), AlwaysOut();
    MatchOfFour(i[0], i[1], i[2], i[3], f, mark);
    MatchOfFour(o[0], o[1], o[2], o[3], f, mark);
    All1(EtherNotIp, f, mark);
    DhcpIs(67, 68, f, mark);
    DhcpIs(547, 546, f, mark);
    All1(Icmp6In({134, 135, 136, 137, 130}), f, mark);
    DhcpTo(EtherBroadcast, 68, 67, f, mark);
    DhcpTo(EtherMulticast, 546, 547, f, mark);
    All1(Icmp6In({133, 135, 136, 131, 143, 132}), f, mark);
  }

  /**
   A frame of a connection that is the VM's own as its half of the mark says, `started` or `letIn`: any fragment
   after the first, and replies where replies are allowed.
   */
  predicate Owned(cfg: Config, dir: Direction, f: Frame, started: bool, letIn: bool) {
    || (IsIp(f) && f.laterFragment && (started || letIn))
    || (if dir == Inbound then
          cfg.allowEstablishedInbound
          && ((started && f.state in {Established, Related}) || (letIn && f.state == Related))
        else
          cfg.allowEstablishedOutbound
          && ((letIn && f.state in {Established, Related}) || (started && f.state == Related)))
  }

  lemma FragmentsAre(mask: nat, value: nat, f: Frame, mark: nat)
    ensures SomeMatch(Fragments(mask, value), f, mark) <==> IsIp(f) && f.laterFragment && AndBits(mark, mask) == value
  {
    hide AndBits;
    MatchOfTwo(Fragments(mask, value)[0], Fragments(mask, value)[1], f, mark);
    All2(FragOffset4, CtMarkIs(mask, value), f, mark);
    All2(FragOffset6, CtMarkIs(mask, value), f, mark);
  }

  lemma RepliesAre(states: set<CtState>, mask: nat, value: nat, f: Frame, mark: nat)
    ensures AllMatch([CtStateIn(states), CtMarkIs(mask, value)], f, mark)
       <==> f.state in states && AndBits(mark, mask) == value
  {
    hide AndBits;
    All2(CtStateIn(states), CtMarkIs(mask, value), f, mark);
  }

  lemma EstablishedAre(cfg: Config, m: nat, f: Frame, mark: nat)
    ensures var started, letIn := AndBits(mark, TOP) == Started(m), AndBits(mark, BOTTOM) == m;
            && (SomeMatch(EstablishedIn(cfg, m), f, mark)
                <==> cfg.allowEstablishedInbound
                     && ((started && f.state in {Established, Related}) || (letIn && f.state == Related)))
            && (SomeMatch(EstablishedOut(cfg, m), f, mark)
                <==> cfg.allowEstablishedOutbound
                     && ((letIn && f.state in {Established, Related}) || (started && f.state == Related)))
  {
    if cfg.allowEstablishedInbound { MatchOfTwo(EstablishedIn(cfg, m)[0], EstablishedIn(cfg, m)[1], f, mark); }
    if cfg.allowEstablishedOutbound { MatchOfTwo(EstablishedOut(cfg, m)[0], EstablishedOut(cfg, m)[1], f, mark); }
    hide AndBits, AllMatch, Matches;
    RepliesAre({Established, Related}, TOP, Started(m), f, mark);
    RepliesAre({Established, Related}, BOTTOM, m, f, mark);
    RepliesAre({Related}, TOP, Started(m), f, mark);
    RepliesAre({Related}, BOTTOM, m, f, mark);
  }

  /** What comes before a VM's own rules passes exactly what needs none and what is on a connection of its own. */
  lemma PreamblesAre(cfg: Config, m: nat, f: Frame, mark: nat)
    ensures var started, letIn := AndBits(mark, TOP) == Started(m), AndBits(mark, BOTTOM) == m;
            && (SomeMatch(InPreamble(cfg, m), f, mark)
                <==> NeedsNoRule(Inbound, f) || Owned(cfg, Inbound, f, started, letIn))
            && (SomeMatch(OutReplies(cfg, m), f, mark) <==> Owned(cfg, Outbound, f, started, letIn))
  {
    hide AndBits, AlwaysIn, Fragments, EstablishedIn, EstablishedOut, SomeMatch;
    var own, theirs := Fragments(TOP, Started(m)), Fragments(BOTTOM, m);
    AlwaysIs(f, mark);
    FragmentsAre(TOP, Started(m), f, mark);
    FragmentsAre(BOTTOM, m, f, mark);
    EstablishedAre(cfg, m, f, mark);
    MatchEither(AlwaysIn(), own, f, mark);
    MatchEither(AlwaysIn() + own, theirs, f, mark);
    MatchEither(AlwaysIn() + own + theirs, EstablishedIn(cfg, m), f, mark);
    MatchEither(own, theirs, f, mark);
    MatchEither(own + theirs, EstablishedOut(cfg, m), f, mark);
  }

  /** A rule's nft matches take what the rule takes, of any frame, whatever the mark. */
  lemma RuleMatchTakes(r: Rule, f: Frame, mark: nat)
    ensures AllMatch(RuleMatch(r), f, mark) <==> Takes(r, f)
  {
    hide InPorts, InBlock, AllMatch;
    AllBoth(RuleAddress(r), RulePayload(r), f, mark);
    NoMatches(f, mark);
    var address, payload := RuleAddress(r), RulePayload(r);
    if |address| == 1 { All1(address[0], f, mark); }
    if |payload| == 1 {
      assert payload == [payload[0]];
      All1(payload[0], f, mark);
    } else if |payload| == 2 {
      assert payload == [payload[0], payload[1]];
      All2(payload[0], payload[1], f, mark);
    }
  }

  lemma NoMatches(f: Frame, mark: nat)
    ensures AllMatch([], f, mark)
  {
  }

  // ----- No chain speaks for another VM

  ghost predicate NeverAccepts(chain: seq<NftRule>) {
    forall r :: r in chain ==> r.verdict != Some(AcceptIt)
  }

  lemma {:induction false} EvalNeverAccepts(chain: seq<NftRule>, f: Frame, mark: nat)
    requires NeverAccepts(chain)
    ensures Eval(chain, f, mark).verdict != AcceptIt
  {
    if chain != [] {
      assert chain[0] in chain && forall r :: r in chain[1..] ==> r in chain;
      EvalNeverAccepts(chain[1..], f, mark);
      EvalNeverAccepts(chain[1..], f, Marked(mark, chain[0].mark));
    }
  }

  lemma {:induction false} RulesNeverAccept(rules: seq<Rule>, mark: nat)
    ensures NeverAccepts(InboundRules(rules, mark)) && NeverAccepts(OutboundRules(rules))
  {
    if rules != [] { RulesNeverAccept(rules[1..], mark); }
  }

  lemma PreamblesNeverAccept(cfg: Config, mark: nat)
    ensures NeverAccepts(InPreamble(cfg, mark)) && NeverAccepts(AlwaysOut()) && NeverAccepts(OutReplies(cfg, mark))
  {
  }

  lemma ChainsNeverAccept(cfg: Config, mark: nat)
    ensures NeverAccepts(InChain(cfg, mark)) && NeverAccepts(OutChain(cfg, mark))
  {
    hide InPreamble, AlwaysOut, OutReplies, InboundRules, OutboundRules, RulesFor;
    PreamblesNeverAccept(cfg, mark);
    RulesNeverAccept(RulesFor(cfg.rules, Inbound), mark);
    RulesNeverAccept(RulesFor(cfg.rules, Outbound), mark);
  }

  /**
   A frame between two filtered VMs crosses the bridge exactly when the sender's chain and the receiver's both
   let it.
   */
  lemma BothHaveTheirSay(cfgA: Config, a: nat, cfgB: Config, b: nat, hostAddrs: set<nat>, f: Frame, mark: nat)
    ensures var out := Eval(OutChain(cfgA, a), f, mark);
            var through := EvalHook(FORWARD, Taps(Some(OutChain(cfgA, a)), Some(InChain(cfgB, b))), hostAddrs, f, mark);
            through.passes <==> out.verdict != DropIt && Eval(InChain(cfgB, b), f, out.mark).verdict != DropIt
  {
    hide Eval, InChain, OutChain;
    ChainsNeverAccept(cfgA, a);
    ChainsNeverAccept(cfgB, b);
    var taps := Taps(Some(OutChain(cfgA, a)), Some(InChain(cfgB, b)));
    var out := Eval(OutChain(cfgA, a), f, mark);
    EvalNeverAccepts(OutChain(cfgA, a), f, mark);
    EvalNeverAccepts(InChain(cfgB, b), f, out.mark);
    assert FORWARD[1..] == [ToVm] && [ToVm][1..] == [];
    assert EvalHook(FORWARD, taps, hostAddrs, f, mark) == AfterChain(out, FORWARD, taps, hostAddrs, f);
    assert EvalHook([ToVm], taps, hostAddrs, f, out.mark)
        == AfterChain(Eval(InChain(cfgB, b), f, out.mark), [ToVm], taps, hostAddrs, f);
  }
}
