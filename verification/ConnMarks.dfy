/**
 Connection marks in a VM's bridge chains (lib/bridgeFilter.ts): the top half of a connection's mark says
 which VM started it and the bottom half which let it in. What one chain does to a mark, and what it passes on it.
 */
module ConnMarks {
  import opened Wrappers
  import opened Firewall
  import opened BridgeFilter
  import opened Js32

  // ----- Handing out marks

  /** The lowest number no other VM has. */
  method FreeBridgeMark(taken: set<nat>) returns (mark: Option<nat>)
    ensures mark.Some? ==> 1 <= mark.value <= 0xffff && mark.value !in taken
    ensures mark.Some? ==> forall n :: 1 <= n < mark.value ==> n in taken
    ensures mark.None? ==> forall n :: 1 <= n <= 0xffff ==> n in taken
  {
    var n := 1;
    while n <= 0xffff
      invariant 1 <= n <= 0x1_0000
      invariant forall k :: 1 <= k < n ==> k in taken
    {
      if n !in taken { return Some(n); }
      n := n + 1;
    }
    return None;
  }

  // ----- Halves

  const HALF: nat := 0x1_0000

  function Top(mark: nat): nat {
    mark / HALF
  }

  function Bottom(mark: nat): nat {
    mark % HALF
  }

  predicate IsMark(m: nat) {
    1 <= m < HALF
  }

  lemma TakeHalves(ct: nat)
    requires ct < TWO_32
    ensures AndBits(ct, TOP) == Top(ct) * HALF && AndBits(ct, BOTTOM) == Bottom(ct) && Top(ct) < HALF
  {
    hide AndBits;
    Pow2Values();
    AndLow(ct, 16);
    AndHigh(ct, 16, 32);
  }

  /** Setting one half leaves the other. */
  lemma SetHalf(ct: nat, m: nat)
    requires ct < TWO_32 && IsMark(m)
    ensures var s := Marked(ct, Some(SetMark(BOTTOM, Started(m)))); s < TWO_32 && Top(s) == m && Bottom(s) == Bottom(ct)
    ensures var s := Marked(ct, Some(LetIn(m))); s < TWO_32 && Top(s) == Top(ct) && Bottom(s) == m
  {
    hide AndBits, OrBits;
    Pow2Values();
    TakeHalves(ct);
    OrSwap(Started(m), Bottom(ct));
    OrDisjoint(Started(m), Bottom(ct), 16);
    OrDisjoint(Top(ct) * HALF, m, 16);
  }

  lemma {:induction false} OrSwap(a: nat, b: nat)
    ensures OrBits(a, b) == OrBits(b, a)
  {
    if a > 0 || b > 0 { OrSwap(a / 2, b / 2); }
  }

  lemma HalvesSay(ct: nat, m: nat)
    requires ct < TWO_32 && IsMark(m)
    ensures AndBits(ct, TOP) == Started(m) <==> Top(ct) == m
    ensures AndBits(ct, BOTTOM) == m <==> Bottom(ct) == m
  {
    TakeHalves(ct);
  }

  // ----- What one chain makes of a frame

  lemma NoMark(ct: nat)
    ensures Marked(ct, None) == ct
  {
  }

  /** A run of inbound rules ends at the first that takes the frame; one that allows it marks it as let in. */
  lemma {:induction false} InboundMarks(rules: seq<Rule>, m: nat, end: seq<NftRule>, f: Frame, ct: nat)
    ensures var first := FirstTaking(rules, f);
            Eval(InboundRules(rules, m) + end, f, ct)
            == if first == None then Eval(end, f, ct)
               else if first.value.action == Allow then Outcome(Return, Marked(ct, Some(LetIn(m))))
               else Outcome(DropIt, ct)
  {
    hide RuleMatch, AllMatch, Marked, Takes;
    if rules == [] {
      assert InboundRules(rules, m) + end == end;
    } else {
      RuleMatchTakes(rules[0], f, ct);
      var chain := InboundRules(rules, m);
      assert (chain + end)[0] == chain[0] && (chain + end)[1..] == InboundRules(rules[1..], m) + end;
      assert Marked(ct, None) == ct by { NoMark(ct); }
      InboundMarks(rules[1..], m, end, f, ct);
    }
  }

  lemma {:induction false} OutboundMarks(rules: seq<Rule>, end: seq<NftRule>, f: Frame, ct: nat)
    ensures var first := FirstTaking(rules, f);
            Eval(OutboundRules(rules) + end, f, ct)
            == if first == None then Eval(end, f, ct)
               else Outcome(if first.value.action == Allow then Return else DropIt, ct)
  {
    hide RuleMatch, AllMatch, Takes;
    if rules == [] {
      assert OutboundRules(rules) + end == end;
    } else {
      RuleMatchTakes(rules[0], f, ct);
      var chain := OutboundRules(rules);
      assert (chain + end)[0] == chain[0] && (chain + end)[1..] == OutboundRules(rules[1..]) + end;
      OutboundMarks(rules[1..], end, f, ct);
    }
  }

  lemma PreamblesOnlyPass(cfg: Config, m: nat)
    ensures OnlyPass(InPreamble(cfg, m)) && OnlyPass(OutReplies(cfg, m)) && OnlyPass(AlwaysOut())
  {
  }

  lemma EndsDecide(cfg: Config, m: nat, f: Frame, ct: nat)
    ensures Eval([InEnd(cfg, m)], f, ct)
         == if cfg.defaultInbound == Allow then Outcome(Return, Marked(ct, Some(LetIn(m)))) else Outcome(DropIt, ct)
    ensures Eval(OutEnd(cfg), f, ct) == Outcome(if cfg.defaultOutbound == Allow then Return else DropIt, ct)
  {
    hide Marked;
    NoMark(ct);
    assert [InEnd(cfg, m)][1..] == [];
    if OutEnd(cfg) != [] { assert OutEnd(cfg)[1..] == []; }
  }

  /** What passes before the rules are asked leaves the mark; else they drop the frame, or let it in and say so. */
  lemma InChainEnds(cfg: Config, m: nat, f: Frame, ct: nat)
    ensures Eval(InChain(cfg, m), f, ct)
         == if SomeMatch(InPreamble(cfg, m), f, ct) then Outcome(Return, ct)
            else if Lets(cfg, Inbound, f) then Outcome(Return, Marked(ct, Some(LetIn(m)))) else Outcome(DropIt, ct)
  {
    hide InPreamble, AllMatch, SomeMatch, OnlyPass, InboundRules, RulesFor, Marked, FirstTaking;
    var pre, those, end := InPreamble(cfg, m), RulesFor(cfg.rules, Inbound), [InEnd(cfg, m)];
    var rules := InboundRules(those, m);
    assert InChain(cfg, m) == pre + (rules + end);
    PreamblesOnlyPass(cfg, m);
    PassOrGoOn(pre, rules + end, f, ct);
    InboundMarks(those, m, end, f, ct);
    EndsDecide(cfg, m, f, ct);
  }

  function OutRest(cfg: Config, m: nat): seq<NftRule> {
    OutReplies(cfg, m) + (OutboundRules(RulesFor(cfg.rules, Outbound)) + OutEnd(cfg))
  }

  lemma OutRestEnds(cfg: Config, m: nat, f: Frame, ct: nat)
    ensures Eval(OutRest(cfg, m), f, ct)
         == Outcome(if SomeMatch(OutReplies(cfg, m), f, ct) || Lets(cfg, Outbound, f) then Return else DropIt, ct)
  {
    hide OutReplies, AlwaysOut, SomeMatch, OnlyPass, OutboundRules, RulesFor, FirstTaking, AllMatch, OutEnd;
    var those := RulesFor(cfg.rules, Outbound);
    PreamblesOnlyPass(cfg, m);
    PassOrGoOn(OutReplies(cfg, m), OutboundRules(those) + OutEnd(cfg), f, ct);
    OutboundMarks(those, OutEnd(cfg), f, ct);
    EndsDecide(cfg, m, f, ct);
  }

  /** The same out of a VM, with a new connection marked as started before its rules are asked. */
  lemma OutChainEnds(cfg: Config, m: nat, f: Frame, ct: nat)
    ensures var mid := if f.state == New then Marked(ct, StartRule(m).mark) else ct;
            Eval(OutChain(cfg, m), f, ct)
            == if SomeMatch(AlwaysOut(), f, ct) then Outcome(Return, ct)
               else if SomeMatch(OutReplies(cfg, m), f, mid) || Lets(cfg, Outbound, f) then Outcome(Return, mid)
               else Outcome(DropIt, mid)
  {
    hide AlwaysOut, OutReplies, SomeMatch, OnlyPass, OutboundRules, RulesFor, Marked, Lets, OutEnd, AllMatch;
    var always, start, rest := AlwaysOut(), StartRule(m), OutRest(cfg, m);
    assert OutChain(cfg, m) == always + ([start] + rest);
    PreamblesOnlyPass(cfg, m);
    PassOrGoOn(always, [start] + rest, f, ct);
    assert ([start] + rest)[0] == start && ([start] + rest)[1..] == rest;
    All1(CtStateIn({New}), f, ct);
    hide OutRest, OutChain;
    OutRestEnds(cfg, m, f, if f.state == New then Marked(ct, start.mark) else ct);
  }

  /**
   A frame into a VM is dropped exactly when it is not one that needs no rule, its connection is not the VM's own
   by its halves, and the rules refuse it. The connection is marked let in exactly when the rules let it in.
   */
  lemma InChainMarks(cfg: Config, m: nat, f: Frame, ct: nat)
    requires IsMark(m) && ct < TWO_32
    ensures var passed := NeedsNoRule(Inbound, f) || Owned(cfg, Inbound, f, Top(ct) == m, Bottom(ct) == m);
            var o := Eval(InChain(cfg, m), f, ct);
            && (o.verdict == DropIt <==> !passed && !Lets(cfg, Inbound, f))
            && o.mark < TWO_32 && Top(o.mark) == Top(ct)
            && Bottom(o.mark) == (if !passed && Lets(cfg, Inbound, f) then m else Bottom(ct))
  {
    hide Eval, InChain, InPreamble, SomeMatch, AndBits, NeedsNoRule, Owned, Lets, Marked;
    InChainEnds(cfg, m, f, ct);
    PreamblesAre(cfg, m, f, ct);
    HalvesSay(ct, m);
    SetHalf(ct, m);
  }

  /** So it is out of a VM, where the first frame of a connection has it marked as started before rules are asked. */
  lemma OutChainMarks(cfg: Config, m: nat, f: Frame, ct: nat)
    requires IsMark(m) && ct < TWO_32
    ensures var o := Eval(OutChain(cfg, m), f, ct);
            && (o.verdict == DropIt
                <==> !NeedsNoRule(Outbound, f) && !Lets(cfg, Outbound, f)
                     && !Owned(cfg, Outbound, f, f.state == New || Top(ct) == m, Bottom(ct) == m))
            && o.mark < TWO_32 && Bottom(o.mark) == Bottom(ct)
            && Top(o.mark) == (if f.state == New && !NeedsNoRule(Outbound, f) then m else Top(ct))
  {
    hide Eval, OutChain, OutReplies, AlwaysOut, SomeMatch, AndBits, NeedsNoRule, Owned, Lets, Marked;
    var mid := if f.state == New then Marked(ct, StartRule(m).mark) else ct;
    OutChainEnds(cfg, m, f, ct);
    AlwaysIs(f, ct);
    SetHalf(ct, m);
    HalvesSay(mid, m);
    PreamblesAre(cfg, m, f, mid);
  }
}
