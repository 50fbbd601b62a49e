/**
 The iptables side of a VM's firewall, from services/firewallService.ts, and its agreement with the
 bridge side: one set of rules is compiled to both, and each is compared with the decision the rules
 stand for. `-m comment` has no say in matching and is not modelled.
 */
module FirewallLayers {
  import opened Wrappers
  import opened Firewall
  import B = BridgeFilter
  import M = ConnMarks
  import Cidr

  datatype Match =
    | Source(block: Cidr.Block)
    | Destination(block: Cidr.Block)
    | Proto(protocol: Protocol)
    | IcmpTypeArg(icmpType: IcmpType)
    | Dport(ports: Ports)
    | Multiport(parts: seq<Ports>)
    | ConntrackEstablished

  datatype Target = ACCEPT | DROP | RETURN

  datatype IptRule = IptRule(matches: seq<Match>, target: Target)

  datatype Chains = Chains(inChain: seq<IptRule>, outChain: seq<IptRule>)

  const MULTIPORT_MAX_ENTRIES: nat := 15

  // ----- The lines

  function Slots(ports: seq<Ports>): nat {
    if ports == [] then 0
    else Slots(ports[..|ports| - 1]) + if ports[|ports| - 1].Range? then 2 else 1
  }

  function PortArgs(ports: seq<Ports>): Result<Match, string>
    requires ports != []
  {
    if |ports| == 1 then Success(Dport(ports[0]))
    else if Slots(ports) > MULTIPORT_MAX_ENTRIES then Failure("too many ports for one rule")
    else Success(Multiport(ports))
  }

  function AddressArgs(r: Rule): seq<Match> {
    if r.direction == Inbound && r.source.Some? then [Source(r.source.value)]
    else if r.direction == Outbound && r.destination.Some? then [Destination(r.destination.value)]
    else []
  }

  function PayloadArgs(r: Rule): Result<seq<Match>, string> {
    if r.protocol == All then Success([])
    else if r.protocol == Icmp && r.icmpType.Some? then Success([Proto(Icmp), IcmpTypeArg(r.icmpType.value)])
    else if r.ports != [] && r.protocol != Icmp then
      match PortArgs(r.ports)
      case Success(m) => Success([Proto(r.protocol), m])
      case Failure(e) => Failure(e)
    else Success([Proto(r.protocol)])
  }

  function RuleArgs(r: Rule): Result<IptRule, string> {
    match PayloadArgs(r)
    case Failure(e) => Failure(e)
    case Success(payload) => Success(IptRule(AddressArgs(r) + payload, if r.action == Allow then ACCEPT else DROP))
  }

  /** What the first rule that can't be a line is refused for. */
  function Refusal(rules: seq<Rule>): (e: Option<string>)
    ensures e == None ==> forall r :: r in rules ==> RuleArgs(r).Success?
  {
    if rules == [] then None
    else if RuleArgs(rules[0]).Failure? then Some(RuleArgs(rules[0]).error)
    else Refusal(rules[1..])
  }

  function Lines(rules: seq<Rule>): seq<IptRule>
    requires forall r :: r in rules ==> RuleArgs(r).Success?
  {
    if rules == [] then [] else [RuleArgs(rules[0]).value] + Lines(rules[1..])
  }

  function Established(allowed: bool, hasConntrack: bool): seq<IptRule> {
    if allowed && hasConntrack then [IptRule([ConntrackEstablished], ACCEPT)] else []
  }

  function DefaultRule(a: Action): IptRule {
    IptRule([], if a == Allow then RETURN else DROP)
  }

  /** All rules are built before any chain is, and one that cannot be fails them all. */
  function RuleLines(cfg: Config, hasConntrack: bool): Result<Chains, string> {
    match Refusal(cfg.rules)
    case Some(e) => Failure(e)
    case None => Success(Chains(
      Established(cfg.allowEstablishedInbound, hasConntrack) + Lines(RulesFor(cfg.rules, Inbound))
        + [DefaultRule(cfg.defaultInbound)],
      Established(cfg.allowEstablishedOutbound, hasConntrack) + Lines(RulesFor(cfg.rules, Outbound))
        + [DefaultRule(cfg.defaultOutbound)]))
  }

  // ----- What they do

  predicate Matches(m: Match, f: Frame) {
    match m
    case Source(block) => InBlock(Some(block), f.saddr)
    case Destination(block) => InBlock(Some(block), f.daddr)
    case Proto(p) =>
      (match p
       case Tcp => f.payload.TcpTo?
       case Udp => f.payload.UdpTo?
       case Icmp => f.payload.IcmpOf?
       case All => true)
    case IcmpTypeArg(t) => // 255 is any type, whatever the code
      f.payload.IcmpOf?
        && (t.type_ == 255 || (f.payload.type_ == t.type_ && (t.code == None || f.payload.code == t.code.value)))
    case Dport(p) => DportOf(f).Some? && Low(p) <= DportOf(f).value <= High(p)
    case Multiport(parts) => DportOf(f).Some? && InPorts(parts, DportOf(f).value)
    case ConntrackEstablished => f.state == CtState.Established || f.state == Related
  }

  function DportOf(f: Frame): Option<nat> {
    if f.payload.TcpTo? || f.payload.UdpTo? then Some(f.payload.dport) else None
  }

  predicate AllMatch(matches: seq<Match>, f: Frame) {
    forall m :: m in matches ==> Matches(m, f)
  }

  function Eval(chain: seq<IptRule>, f: Frame): Target {
    if chain == [] then RETURN else if AllMatch(chain[0].matches, f) then chain[0].target else Eval(chain[1..], f)
  }

  // ----- One rule, compiled twice

  predicate IsAnyIcmp(r: Rule) {
    r.protocol == Icmp && r.icmpType.Some? && r.icmpType.value.type_ == 255
  }

  /** What is asked of the address, in either layer. */
  predicate AddressOk(r: Rule, f: Frame) {
    && (r.direction == Inbound ==> InBlock(r.source, f.saddr))
    && (r.direction == Outbound ==> InBlock(r.destination, f.daddr))
  }

  lemma IptAll2(a: seq<Match>, b: seq<Match>, f: Frame)
    ensures AllMatch(a + b, f) <==> AllMatch(a, f) && AllMatch(b, f)
  {
    assert forall m :: m in a + b <==> m in a || m in b;
  }

  predicate PayloadOk(r: Rule, f: Frame) {
    Applies(r.(source := None, destination := None), f)
  }

  /** The bridge side of a rule matches what it says. */
  lemma NftMatchIsApplies(r: Rule, f: Frame, mark: nat)
    requires Plain(f)
    ensures B.AllMatch(B.RuleMatch(r), f, mark) <==> Applies(r, f)
  {
    B.RuleMatchTakes(r, f, mark);
    hide InPorts, Cidr.Contains, Cidr.Valid;
  }

  // ----- The bridge side decides as the rules do

  function NftChain(cfg: Config, mark: nat, dir: Direction): seq<B.NftRule> {
    if dir == Inbound then B.InChain(cfg, mark) else B.OutChain(cfg, mark)
  }

  /**
   The bridge side drops a packet exactly when it is not one that needs no rule and the rules decide to, whatever
   its connection's mark.
   */
  lemma BridgeDecides(cfg: Config, mark: nat, dir: Direction, f: Frame, ct: nat)
    requires Ordinary(f)
    ensures B.Eval(NftChain(cfg, mark, dir), f, ct).verdict == B.DropIt
            <==> !B.NeedsNoRule(dir, f) && Decision(cfg, dir, f) == Drop
  {
    hide B.Eval, B.InChain, B.OutChain, B.InPreamble, B.OutReplies, B.AlwaysOut, B.SomeMatch, B.NeedsNoRule, Lets,
        Decision, B.Marked;
    LetsIsDecision(cfg, dir, f);
    if dir == Inbound {
      M.InChainEnds(cfg, mark, f, ct);
      B.PreamblesAre(cfg, mark, f, ct);
    } else {
      M.OutChainEnds(cfg, mark, f, ct);
      B.AlwaysIs(f, ct);
      B.PreamblesAre(cfg, mark, f, B.Marked(ct, B.StartRule(mark).mark));
    }
  }

  /**
   Between two filtered VMs a packet crosses the bridge exactly when the sender's rules allow it out and the
   receiver's allow it in.
   */
  lemma CrossesIffBothAllow(cfgA: Config, a: nat, cfgB: Config, b: nat, hostAddrs: set<nat>, f: Frame, ct: nat)
    requires Ordinary(f) && !B.NeedsNoRule(Outbound, f) && !B.NeedsNoRule(Inbound, f)
    ensures B.EvalHook(B.FORWARD, B.Taps(Some(B.OutChain(cfgA, a)), Some(B.InChain(cfgB, b))), hostAddrs, f, ct).passes
       <==> Decision(cfgA, Outbound, f) == Allow && Decision(cfgB, Inbound, f) == Allow
  {
    hide B.InChain, B.OutChain, Decision, B.NeedsNoRule, B.EvalHook, B.Eval;
    B.BothHaveTheirSay(cfgA, a, cfgB, b, hostAddrs, f, ct);
    var out := B.Eval(B.OutChain(cfgA, a), f, ct);
    BridgeDecides(cfgA, a, Outbound, f, ct);
    BridgeDecides(cfgB, b, Inbound, f, out.mark);
  }

  // ----- The iptables side, and where it differs

  /** How iptables reads a rule: a type of 255 is any type. */
  function Loose(r: Rule): Rule {
    if IsAnyIcmp(r) then r.(icmpType := None) else r
  }

  function LooseAll(rules: seq<Rule>): seq<Rule> {
    if rules == [] then [] else [Loose(rules[0])] + LooseAll(rules[1..])
  }

  lemma IptAddressIs(r: Rule, f: Frame)
    ensures AllMatch(AddressArgs(r), f) <==> AddressOk(r, f)
  {
    if AddressArgs(r) != [] {
      assert AddressArgs(r)[0] in AddressArgs(r);
      assert AllMatch(AddressArgs(r), f) <==> Matches(AddressArgs(r)[0], f);
    }
  }

  lemma IptPayloadIs(r: Rule, f: Frame)
    requires Plain(f) && PayloadArgs(r).Success?
    ensures AllMatch(PayloadArgs(r).value, f) <==> PayloadOk(Loose(r), f)
  {
    hide Cidr.Contains, Cidr.Valid, Slots;
    var ms := PayloadArgs(r).value;
    if |ms| == 1 {
      assert ms[0] in ms;
      assert AllMatch(ms, f) <==> Matches(ms[0], f);
    } else if |ms| == 2 {
      assert ms[0] in ms && ms[1] in ms;
      assert AllMatch(ms, f) <==> Matches(ms[0], f) && Matches(ms[1], f);
      if ms[1].Dport? {
        assert r.ports[0] in r.ports && forall p :: p in r.ports ==> p == r.ports[0];
      }
    }
  }

  /** The iptables side of a rule matches what iptables reads in it. */
  lemma IptMatchIsLoose(r: Rule, f: Frame)
    requires Plain(f) && RuleArgs(r).Success?
    ensures AllMatch(RuleArgs(r).value.matches, f) <==> Applies(Loose(r), f)
  {
    hide AllMatch, InPorts, Cidr.Contains, Cidr.Valid;
    IptAll2(AddressArgs(r), PayloadArgs(r).value, f);
    IptAddressIs(r, f);
    IptPayloadIs(r, f);
  }

  lemma {:induction false} LooseFirstIsAmongItsDirection(rules: seq<Rule>, dir: Direction, f: Frame)
    ensures FirstMatch(LooseAll(rules), dir, f) == FirstMatch(LooseAll(RulesFor(rules, dir)), dir, f)
  {
    hide Applies;
    if rules != [] {
      LooseFirstIsAmongItsDirection(rules[1..], dir, f);
      assert LooseAll(rules)[1..] == LooseAll(rules[1..]);
      if rules[0].direction == dir {
        var those := RulesFor(rules, dir);
        assert those[1..] == RulesFor(rules[1..], dir);
        assert LooseAll(those)[1..] == LooseAll(those[1..]);
      }
    }
  }

  ghost predicate AllOf(rules: seq<Rule>, dir: Direction) {
    forall r :: r in rules ==> r.direction == dir
  }

  lemma {:induction false} LinesDecide(rules: seq<Rule>, dir: Direction, end: seq<IptRule>, f: Frame)
    requires AllOf(rules, dir) && Plain(f)
    requires forall r :: r in rules ==> RuleArgs(r).Success?
    ensures var first := FirstMatch(LooseAll(rules), dir, f);
            Eval(Lines(rules) + end, f)
            == if first.Some? then (if first.value.action == Drop then DROP else ACCEPT) else Eval(end, f)
  {
    hide AllMatch, Applies, AddressArgs, PayloadArgs;
    if rules == [] {
      assert Lines(rules) + end == end;
    } else {
      IptMatchIsLoose(rules[0], f);
      var chain := Lines(rules);
      assert (chain + end)[0] == chain[0] && (chain + end)[1..] == Lines(rules[1..]) + end;
      assert LooseAll(rules)[1..] == LooseAll(rules[1..]);
      LinesDecide(rules[1..], dir, end, f);
    }
  }

  function IptChain(chains: Chains, dir: Direction): seq<IptRule> {
    if dir == Inbound then chains.inChain else chains.outChain
  }

  function AsIptablesReads(cfg: Config): Config {
    cfg.(rules := LooseAll(cfg.rules))
  }

  lemma EstablishedFirst(allowed: bool, hasConntrack: bool, rest: seq<IptRule>, f: Frame)
    ensures Eval(Established(allowed, hasConntrack) + rest, f)
         == if allowed && hasConntrack && f.state in {CtState.Established, Related} then ACCEPT else Eval(rest, f)
  {
    var est := Established(allowed, hasConntrack);
    if est == [] {
      assert est + rest == rest;
    } else {
      assert (est + rest)[0] == est[0] && (est + rest)[1..] == rest;
      assert ConntrackEstablished in est[0].matches;
    }
  }

  /**
   The iptables side accepts replies where that is allowed and conntrack is there. Any other packet it drops exactly
   when the rules, as iptables reads them, decide to; and it lets it on to the rules below exactly when none of them
   applies and the default allows.
   */
  lemma IptablesDecides(cfg: Config, hasConntrack: bool, dir: Direction, f: Frame)
    requires Plain(f) && RuleLines(cfg, hasConntrack).Success?
    ensures var allowed := if dir == Inbound then cfg.allowEstablishedInbound else cfg.allowEstablishedOutbound;
            var target := Eval(IptChain(RuleLines(cfg, hasConntrack).value, dir), f);
            if allowed && hasConntrack && f.state in {CtState.Established, Related} then target == ACCEPT
            else
              && (target == DROP <==> Decision(AsIptablesReads(cfg), dir, f) == Drop)
              && (target == RETURN
                  <==> FirstMatch(AsIptablesReads(cfg).rules, dir, f) == None && Default(cfg, dir) == Allow)
  {
    hide Established, Lines, RulesFor, FirstMatch, LooseAll, AllMatch;
    var allowed := if dir == Inbound then cfg.allowEstablishedInbound else cfg.allowEstablishedOutbound;
    var those, end := RulesFor(cfg.rules, dir), [DefaultRule(Default(cfg, dir))];
    assert IptChain(RuleLines(cfg, hasConntrack).value, dir)
        == Established(allowed, hasConntrack) + (Lines(those) + end);
    EstablishedFirst(allowed, hasConntrack, Lines(those) + end, f);
    LinesDecide(those, dir, end, f);
    LooseFirstIsAmongItsDirection(cfg.rules, dir, f);
    assert end[1..] == [];
    assert AllMatch([], f) by { AllOfNothing(f); }
  }

  function RangesIn(ports: seq<Ports>): set<nat> {
    set i | 0 <= i < |ports| && ports[i].Range?
  }

  lemma {:induction false} SlotsAre(ports: seq<Ports>)
    ensures Slots(ports) == |ports| + |RangesIn(ports)|
  {
    if ports != [] {
      var n := |ports| - 1;
      SlotsAre(ports[..n]);
      assert RangesIn(ports) == if ports[n].Range? then RangesIn(ports[..n]) + {n} else RangesIn(ports[..n]);
    }
  }

  lemma {:induction false} RefusalIs(rules: seq<Rule>)
    ensures Refusal(rules) == None <==> forall r :: r in rules ==> RuleArgs(r).Success?
  {
    hide RuleArgs;
    if rules != [] {
      RefusalIs(rules[1..]);
      assert rules == [rules[0]] + rules[1..];
    }
  }

  /** Rules have no iptables form exactly when one of them lists more ports than a match takes, a range as two. */
  lemma RefusedIff(cfg: Config, hasConntrack: bool)
    ensures RuleLines(cfg, hasConntrack).Failure?
       <==> exists r :: r in cfg.rules && (r.protocol == Tcp || r.protocol == Udp) && |r.ports| > 1
              && |r.ports| + |RangesIn(r.ports)| > 15
  {
    RefusalIs(cfg.rules);
    forall r | r in cfg.rules
      ensures RuleArgs(r).Failure?
         <==> (r.protocol == Tcp || r.protocol == Udp) && |r.ports| > 1
              && |r.ports| + |RangesIn(r.ports)| > 15
    {
      SlotsAre(r.ports);
      hide Slots;
    }
  }

  lemma AllOfNothing(f: Frame)
    ensures AllMatch([], f)
  {
  }

  // ----- Where the layers agree

  lemma {:induction false} NothingToLoosen(rules: seq<Rule>)
    requires forall r :: r in rules ==> !IsAnyIcmp(r)
    ensures LooseAll(rules) == rules
  {
    if rules != [] { NothingToLoosen(rules[1..]); }
  }

  /** What these rules decide, with this default. */
  function Decides(rules: seq<Rule>, dir: Direction, f: Frame, otherwise: Action): Action {
    var first := FirstMatch(rules, dir, f);
    if first.Some? then first.value.action else otherwise
  }

  /**
   The first rule that applies when 255 is any type is for type 255 and does not apply as it is written, and
   what comes after it decides otherwise.
   */
  predicate Misled(rules: seq<Rule>, dir: Direction, f: Frame, otherwise: Action) {
    rules != []
    && var r := rules[0];
       if r.direction != dir || !Applies(Loose(r), f) then Misled(rules[1..], dir, f, otherwise)
       else IsAnyIcmp(r) && !Applies(r, f) && Decides(rules[1..], dir, f, otherwise) != r.action
  }

  lemma {:induction false} MisledDecides(rules: seq<Rule>, dir: Direction, f: Frame, otherwise: Action)
    ensures Misled(rules, dir, f, otherwise)
       <==> Decides(rules, dir, f, otherwise) != Decides(LooseAll(rules), dir, f, otherwise)
  {
    if rules != [] {
      var r := rules[0];
      MisledDecides(rules[1..], dir, f, otherwise);
      assert LooseAll(rules)[0] == Loose(r) && LooseAll(rules)[1..] == LooseAll(rules[1..]);
      assert Applies(r, f) ==> Applies(Loose(r), f);
      assert !IsAnyIcmp(r) ==> Loose(r) == r;
      hide Applies;
    }
  }

  /**
   Of a packet that is not one that always passes, bridge and iptables say different things exactly when a rule
   for 255 misleads.
   */
  lemma LayersAgreeIff(cfg: Config, mark: nat, hasConntrack: bool, dir: Direction, f: Frame, ct: nat)
    requires Ordinary(f) && !B.NeedsNoRule(dir, f) && RuleLines(cfg, hasConntrack).Success?
    ensures var nft := B.Eval(NftChain(cfg, mark, dir), f, ct).verdict == B.DropIt;
            var ipt := Eval(IptChain(RuleLines(cfg, hasConntrack).value, dir), f) == DROP;
            (nft <==> ipt) <==> !Misled(cfg.rules, dir, f, Default(cfg, dir))
  {
    hide B.Eval, Eval, NftChain, IptChain, RuleLines, FirstMatch, LooseAll, Misled;
    BridgeDecides(cfg, mark, dir, f, ct);
    IptablesDecides(cfg, hasConntrack, dir, f);
    MisledDecides(cfg.rules, dir, f, Default(cfg, dir));
  }

  /** With no rule for type 255, all three say the same of every such packet. */
  lemma LayersAgree(cfg: Config, mark: nat, hasConntrack: bool, dir: Direction, f: Frame, ct: nat)
    requires Ordinary(f) && !B.NeedsNoRule(dir, f) && RuleLines(cfg, hasConntrack).Success?
    requires forall r :: r in cfg.rules ==> !IsAnyIcmp(r)
    ensures B.Eval(NftChain(cfg, mark, dir), f, ct).verdict == B.DropIt <==> Decision(cfg, dir, f) == Drop
    ensures Eval(IptChain(RuleLines(cfg, hasConntrack).value, dir), f) == DROP <==> Decision(cfg, dir, f) == Drop
  {
    hide B.Eval, Eval, NftChain, IptChain, RuleLines, Decision, LooseAll;
    NothingToLoosen(cfg.rules);
    assert AsIptablesReads(cfg) == cfg;
    BridgeDecides(cfg, mark, dir, f, ct);
    IptablesDecides(cfg, hasConntrack, dir, f);
  }

  /** A packet such a rule is not about. */
  function OtherIcmp(r: Rule): Frame {
    var saddr := if r.source.Some? then Cidr.Value(r.source.value.base) else 0;
    var daddr := if r.destination.Some? then Cidr.Value(r.destination.value.base) else 0;
    Frame(Ip4, false, false, 0, saddr, daddr, IcmpOf(0, 0), false, New, true)
  }

  /** Compiled twice, a rule matches the same plain packets exactly when it is not for ICMP type 255. */
  lemma RuleCompilesAlikeIff(r: Rule)
    requires ValidRule(r) && RuleArgs(r).Success?
    ensures (forall f: Frame, ct: nat ::
            Plain(f) ==> (B.AllMatch(B.RuleMatch(r), f, ct) <==> AllMatch(RuleArgs(r).value.matches, f)))
       <==> !IsAnyIcmp(r)
  {
    hide B.AllMatch, AllMatch, B.RuleMatch, RuleArgs;
    forall f: Frame, ct: nat | Plain(f)
      ensures B.AllMatch(B.RuleMatch(r), f, ct) <==> Applies(r, f)
      ensures AllMatch(RuleArgs(r).value.matches, f) <==> Applies(Loose(r), f)
    {
      NftMatchIsApplies(r, f, ct);
      IptMatchIsLoose(r, f);
    }
    if IsAnyIcmp(r) {
      var f := OtherIcmp(r);
      assert Plain(f) && !Applies(r, f) && Applies(Loose(r), f);
      assert !B.AllMatch(B.RuleMatch(r), f, 0);
    }
  }

  /** And any such rule, alone against the other default, has the layers disagree. */
  lemma AnyIcmpDivides(r: Rule, mark: nat, ct: nat)
    requires ValidRule(r) && IsAnyIcmp(r)
    ensures var other := if r.action == Allow then Drop else Allow;
            var cfg := Config([r], other, other, true, true);
            var f := OtherIcmp(r);
            RuleLines(cfg, true).Success?
            && !(B.Eval(NftChain(cfg, mark, r.direction), f, ct).verdict == B.DropIt
              <==> Eval(IptChain(RuleLines(cfg, true).value, r.direction), f) == DROP)
  {
    hide B.Eval, Eval, NftChain, IptChain, B.NeedsNoRule;
    var other := if r.action == Allow then Drop else Allow;
    var cfg := Config([r], other, other, true, true);
    var f := OtherIcmp(r);
    OtherIcmpIsNoException(r);
    assert [r][1..] == [];
    assert Refusal([r]) == None by { assert RuleArgs(r).Success?; }
    assert !Applies(r, f) && Applies(Loose(r), f);
    assert Decides([], r.direction, f, other) == other;
    assert Misled([r], r.direction, f, other);
    LayersAgreeIff(cfg, mark, true, r.direction, f, ct);
  }

  lemma OtherIcmpIsNoException(r: Rule)
    ensures !B.NeedsNoRule(r.direction, OtherIcmp(r)) && Ordinary(OtherIcmp(r))
  {
  }
}
