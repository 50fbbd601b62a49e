/**
 The plan of lib/vxlan.ts from the tunnel device the kernel has to the one wanted, and what is true
 after any part of it: services/vxlanService.ts runs the steps in order and stops at one that fails.
 Addresses and bridge names are strings; an empty bridge name stands for none and is not modelled.
 */
module Vxlan {
  import opened Wrappers

  datatype Wanted = Wanted(vni: nat, port: nat, peers: seq<string>, mtu: nat, bridge: Option<string>, allowUp: bool)

  datatype Link = Link(vni: nat, port: nat, mtu: nat, master: Option<string>, up: bool)

  /** The device of the wanted name, if there is one, and its all-zeros forwarding entries. */
  datatype Kernel = Kernel(link: Option<Link>, peers: set<string>)

  datatype Step =
    | SetDown
    | Add(vni: nat, port: nat)
    | SetMtu(mtu: nat)
    | SetMaster(bridge: string)
    | FdbDel(peer: string)
    | FdbAppend(peer: string)
    | SetUp

  datatype Plan = Conflict | Steps(steps: seq<Step>)

  // ----- The plan

  predicate ShouldBeUp(want: Wanted) {
    want.allowUp && |want.peers| > 0 && want.bridge != None
  }

  predicate IsUp(link: Option<Link>) {
    link.Some? && link.value.up
  }

  function Close(want: Wanted, have: Option<Link>): seq<Step> {
    if IsUp(have) && !ShouldBeUp(want) then [SetDown] else []
  }

  function Create(want: Wanted, have: Option<Link>): seq<Step> {
    if have == None then [Add(want.vni, want.port)] else []
  }

  function FixMtu(want: Wanted, have: Option<Link>): seq<Step> {
    if have == None || have.value.mtu != want.mtu then [SetMtu(want.mtu)] else []
  }

  function FixMaster(want: Wanted, have: Option<Link>): seq<Step> {
    if want.bridge.Some? && (have == None || have.value.master != want.bridge)
    then [SetMaster(want.bridge.value)] else []
  }

  function Opening(want: Wanted, have: Option<Link>): seq<Step> {
    Close(want, have) + Create(want, have) + FixMtu(want, have) + FixMaster(want, have)
  }

  function Deletions(havePeers: seq<string>, wanted: seq<string>): seq<Step> {
    if havePeers == [] then []
    else
      var rest, peer := Deletions(havePeers[..|havePeers| - 1], wanted), havePeers[|havePeers| - 1];
      if peer in wanted then rest else rest + [FdbDel(peer)]
  }

  function Additions(wanted: seq<string>, havePeers: seq<string>): seq<Step> {
    if wanted == [] then []
    else
      var rest, peer := Additions(wanted[..|wanted| - 1], havePeers), wanted[|wanted| - 1];
      if peer in havePeers then rest else rest + [FdbAppend(peer)]
  }

  function Closing(want: Wanted, have: Option<Link>): seq<Step> {
    if ShouldBeUp(want) && !IsUp(have) then [SetUp] else []
  }

  function StepsFor(want: Wanted, have: Option<Link>, havePeers: seq<string>): seq<Step> {
    Opening(want, have) + Deletions(havePeers, want.peers) + Additions(want.peers, havePeers) + Closing(want, have)
  }

  method PlanTunnel(want: Wanted, have: Option<Link>, havePeers: seq<string>) returns (plan: Plan)
    ensures plan.Conflict? <==> have.Some? && (have.value.vni != want.vni || have.value.port != want.port)
    ensures plan.Steps? ==> plan.steps == StepsFor(want, have, havePeers)
  {
    if have.Some? && (have.value.vni != want.vni || have.value.port != want.port) { return Conflict; }
    var shouldBeUp := want.allowUp && |want.peers| > 0 && want.bridge != None;
    ghost var close, create, mtu := Close(want, have), Create(want, have), FixMtu(want, have);
    ghost var master, end := FixMaster(want, have), Closing(want, have);
    var steps: seq<Step> := [];
    if IsUp(have) && !shouldBeUp { steps := steps + [SetDown]; }
    assert steps == close;
    if have == None { steps := steps + [Add(want.vni, want.port)]; }
    assert steps == close + create;
    if have == None || have.value.mtu != want.mtu { steps := steps + [SetMtu(want.mtu)]; }
    assert steps == close + create + mtu;
    if want.bridge.Some? && (have == None || have.value.master != want.bridge) {
      steps := steps + [SetMaster(want.bridge.value)];
    }
    assert steps == Opening(want, have);
    assert end == if shouldBeUp && !IsUp(have) then [SetUp] else [];
    hide Opening, Close, Create, FixMtu, FixMaster, Closing, Deletions, Additions;
    PushPeers(steps, want.peers, havePeers);
    for i := 0 to |havePeers|
      invariant steps == Opening(want, have) + Deletions(havePeers[..i], want.peers)
    {
      DeletionsPush(Opening(want, have), havePeers, want.peers, i);
      if havePeers[i] !in want.peers { steps := steps + [FdbDel(havePeers[i])]; }
    }
    assert havePeers[..|havePeers|] == havePeers;
    ghost var deleted := steps;
    PushPeers(steps, want.peers, havePeers);
    for i := 0 to |want.peers|
      invariant steps == deleted + Additions(want.peers[..i], havePeers)
    {
      AdditionsPush(deleted, want.peers, havePeers, i);
      if want.peers[i] !in havePeers { steps := steps + [FdbAppend(want.peers[i])]; }
    }
    assert want.peers[..|want.peers|] == want.peers;
    if shouldBeUp && !IsUp(have) { steps := steps + [SetUp]; }
    return Steps(steps);
  }

  lemma PushPeers(steps: seq<Step>, wanted: seq<string>, havePeers: seq<string>)
    ensures steps + Deletions(havePeers[..0], wanted) == steps && steps + Additions(wanted[..0], havePeers) == steps
  {
  }

  lemma DeletionsPush(before: seq<Step>, havePeers: seq<string>, wanted: seq<string>, i: nat)
    requires i < |havePeers|
    ensures var steps := before + Deletions(havePeers[..i], wanted);
            before + Deletions(havePeers[..i + 1], wanted)
            == if havePeers[i] in wanted then steps else steps + [FdbDel(havePeers[i])]
  {
    assert havePeers[..i + 1][..i] == havePeers[..i];
  }

  lemma AdditionsPush(before: seq<Step>, wanted: seq<string>, havePeers: seq<string>, i: nat)
    requires i < |wanted|
    ensures var steps := before + Additions(wanted[..i], havePeers);
            before + Additions(wanted[..i + 1], havePeers)
            == if wanted[i] in havePeers then steps else steps + [FdbAppend(wanted[i])]
  {
    assert wanted[..i + 1][..i] == wanted[..i];
  }

  // ----- The kernel

  /** Whether a step is one the kernel does, and not one it refuses. */
  predicate Applies(k: Kernel, s: Step) {
    match s
    case Add(_, _) => k.link == None
    case FdbDel(peer) => k.link.Some? && peer in k.peers
    case FdbAppend(peer) => k.link.Some? && peer !in k.peers
    case _ => k.link.Some?
  }

  /** A new device comes down, on no bridge, with nobody to send to and a default MTU. */
  function Exec(k: Kernel, s: Step, freshMtu: nat): Kernel {
    if !Applies(k, s) then k
    else
      match s
      case SetDown => k.(link := Some(k.link.value.(up := false)))
      case Add(vni, port) => Kernel(Some(Link(vni, port, freshMtu, None, false)), {})
      case SetMtu(mtu) => k.(link := Some(k.link.value.(mtu := mtu)))
      case SetMaster(bridge) => k.(link := Some(k.link.value.(master := Some(bridge))))
      case FdbDel(peer) => k.(peers := k.peers - {peer})
      case FdbAppend(peer) => k.(peers := k.peers + {peer})
      case SetUp => k.(link := Some(k.link.value.(up := true)))
  }

  function ExecAll(k: Kernel, steps: seq<Step>, freshMtu: nat): Kernel {
    if steps == [] then k else Exec(ExecAll(k, steps[..|steps| - 1], freshMtu), steps[|steps| - 1], freshMtu)
  }

  ghost predicate AllApply(k: Kernel, steps: seq<Step>, freshMtu: nat) {
    forall i :: 0 <= i < |steps| ==> Applies(ExecAll(k, steps[..i], freshMtu), steps[i])
  }

  /** Everything is as wanted but whether it is up. */
  predicate Settled(k: Kernel, want: Wanted) {
    && k.link.Some?
    && k.link.value.vni == want.vni && k.link.value.port == want.port && k.link.value.mtu == want.mtu
    && (want.bridge.Some? ==> k.link.value.master == want.bridge)
    && k.peers == set p | p in want.peers
  }

  function Elements(xs: seq<string>): set<string> {
    set x | x in xs
  }

  ghost predicate Distinct(xs: seq<string>) {
    forall i, j :: 0 <= i < j < |xs| ==> xs[i] != xs[j]
  }

  /**
   What planning is given: what the kernel has, with no peer listed twice on either side, and no entries without
   a device.
   */
  ghost predicate Observed(k: Kernel, want: Wanted, havePeers: seq<string>) {
    && Distinct(havePeers) && Distinct(want.peers) && Elements(havePeers) == k.peers
    && (k.link == None ==> k.peers == {})
    && (k.link.Some? ==> k.link.value.vni == want.vni && k.link.value.port == want.port)
  }

  // ----- The whole plan

  lemma {:induction false} ExecConcat(k: Kernel, a: seq<Step>, b: seq<Step>, freshMtu: nat)
    ensures ExecAll(k, a + b, freshMtu) == ExecAll(ExecAll(k, a, freshMtu), b, freshMtu)
  {
    if b == [] {
      assert a + b == a;
    } else {
      var n := |b| - 1;
      assert (a + b)[..|a| + n] == a + b[..n];
      ExecConcat(k, a, b[..n], freshMtu);
    }
  }

  /** The steps all apply, one after another, and lead from k to end. */
  ghost predicate Leads(k: Kernel, steps: seq<Step>, end: Kernel, freshMtu: nat) {
    AllApply(k, steps, freshMtu) && ExecAll(k, steps, freshMtu) == end
  }

  lemma LeadsThen(k: Kernel, a: seq<Step>, mid: Kernel, b: seq<Step>, end: Kernel, freshMtu: nat)
    requires Leads(k, a, mid, freshMtu) && Leads(mid, b, end, freshMtu)
    ensures Leads(k, a + b, end, freshMtu)
  {
    hide Applies, Exec;
    forall i | 0 <= i < |a + b| ensures Applies(ExecAll(k, (a + b)[..i], freshMtu), (a + b)[i]) {
      if i < |a| {
        assert (a + b)[..i] == a[..i];
      } else {
        assert (a + b)[..i] == a + b[..i - |a|];
        ExecConcat(k, a, b[..i - |a|], freshMtu);
      }
    }
    ExecConcat(k, a, b, freshMtu);
  }

  lemma LeadsShort(k: Kernel, steps: seq<Step>, freshMtu: nat)
    requires |steps| <= 1 && (steps != [] ==> Applies(k, steps[0]))
    ensures Leads(k, steps, if steps == [] then k else Exec(k, steps[0], freshMtu), freshMtu)
  {
    if steps != [] { assert steps[..0] == []; }
  }

  /** After the opening steps the device is there with its settings, and closed if it has to be. */
  lemma OpeningReaches(k: Kernel, want: Wanted, freshMtu: nat) returns (ready: Kernel)
    requires k.link.Some? ==> k.link.value.vni == want.vni && k.link.value.port == want.port
    requires k.link == None ==> k.peers == {}
    ensures Leads(k, Opening(want, k.link), ready, freshMtu)
    ensures ready.peers == k.peers && ready.link.Some?
    ensures var l := ready.link.value;
            && l.vni == want.vni && l.port == want.port && l.mtu == want.mtu
            && (want.bridge.Some? ==> l.master == want.bridge)
            && l.up == (IsUp(k.link) && ShouldBeUp(want))
  {
    hide Leads, AllApply, ExecAll;
    var a, b, c, d := Close(want, k.link), Create(want, k.link), FixMtu(want, k.link), FixMaster(want, k.link);
    LeadsShort(k, a, freshMtu);
    var k1 := if a == [] then k else Exec(k, a[0], freshMtu);
    LeadsShort(k1, b, freshMtu);
    var k2 := if b == [] then k1 else Exec(k1, b[0], freshMtu);
    LeadsShort(k2, c, freshMtu);
    var k3 := if c == [] then k2 else Exec(k2, c[0], freshMtu);
    LeadsShort(k3, d, freshMtu);
    ready := if d == [] then k3 else Exec(k3, d[0], freshMtu);
    LeadsThen(k, a, k1, b, k2, freshMtu);
    LeadsThen(k, a + b, k2, c, k3, freshMtu);
    LeadsThen(k, a + b + c, k3, d, ready, freshMtu);
  }

  lemma {:induction false} DeletionsReach(k: Kernel, havePeers: seq<string>, wanted: seq<string>, freshMtu: nat)
    requires k.link.Some? && Distinct(havePeers) && Elements(havePeers) <= k.peers
    ensures Leads(k, Deletions(havePeers, wanted), k.(peers := k.peers - (set p | p in havePeers && p !in wanted)),
            freshMtu)
  {
    hide Leads;
    if havePeers == [] {
      LeadsShort(k, [], freshMtu);
      assert k.peers == k.peers - (set p | p in havePeers && p !in wanted);
    } else {
      var n := |havePeers| - 1;
      var peer, front := havePeers[n], havePeers[..n];
      assert havePeers == front + [peer] && peer !in front;
      assert forall p :: p in havePeers <==> p in front || p == peer;
      assert peer in Elements(havePeers);
      DeletionsReach(k, front, wanted, freshMtu);
      var mid := k.(peers := k.peers - (set p | p in front && p !in wanted));
      var end := k.(peers := k.peers - (set p | p in havePeers && p !in wanted));
      if peer in wanted {
        assert mid.peers == end.peers;
      } else {
        assert Exec(mid, FdbDel(peer), freshMtu).peers == end.peers;
        LeadsShort(mid, [FdbDel(peer)], freshMtu);
        LeadsThen(k, Deletions(front, wanted), mid, [FdbDel(peer)], Exec(mid, FdbDel(peer), freshMtu), freshMtu);
      }
    }
  }

  lemma {:induction false} AdditionsReach(k: Kernel, wanted: seq<string>, havePeers: seq<string>, freshMtu: nat)
    requires k.link.Some? && Distinct(wanted)
    requires forall p :: p in k.peers && p in wanted ==> p in havePeers
    ensures Leads(k, Additions(wanted, havePeers), k.(peers := k.peers + (set p | p in wanted && p !in havePeers)),
            freshMtu)
  {
    hide Leads;
    if wanted == [] {
      LeadsShort(k, [], freshMtu);
      assert k.peers == k.peers + (set p | p in wanted && p !in havePeers);
    } else {
      var n := |wanted| - 1;
      var peer, front := wanted[n], wanted[..n];
      assert wanted == front + [peer] && peer !in front && Distinct(front);
      hide Distinct, ExecAll;
      assert forall p :: p in wanted <==> p in front || p == peer;
      AdditionsReach(k, front, havePeers, freshMtu);
      var mid := k.(peers := k.peers + (set p | p in front && p !in havePeers));
      var end := k.(peers := k.peers + (set p | p in wanted && p !in havePeers));
      if peer in havePeers {
        assert mid.peers == end.peers;
      } else {
        assert Exec(mid, FdbAppend(peer), freshMtu).peers == end.peers;
        LeadsShort(mid, [FdbAppend(peer)], freshMtu);
        LeadsThen(k, Additions(front, havePeers), mid, [FdbAppend(peer)], Exec(mid, FdbAppend(peer), freshMtu),
          freshMtu);
      }
    }
  }

  /** The plan but for a last step that brings the device up. */
  function Body(want: Wanted, have: Option<Link>, havePeers: seq<string>): seq<Step> {
    Opening(want, have) + Deletions(havePeers, want.peers) + Additions(want.peers, havePeers)
  }

  lemma BodyReaches(k: Kernel, want: Wanted, havePeers: seq<string>, freshMtu: nat) returns (end: Kernel)
    requires Observed(k, want, havePeers)
    ensures Leads(k, Body(want, k.link, havePeers), end, freshMtu)
    ensures Settled(end, want) && IsUp(end.link) == (IsUp(k.link) && ShouldBeUp(want))
  {
    hide Leads, Opening, Deletions, Additions, ShouldBeUp;
    var ready := OpeningReaches(k, want, freshMtu);
    DeletionsReach(ready, havePeers, want.peers, freshMtu);
    var pruned := ready.(peers := ready.peers - (set p | p in havePeers && p !in want.peers));
    AdditionsReach(pruned, want.peers, havePeers, freshMtu);
    end := pruned.(peers := pruned.peers + (set p | p in want.peers && p !in havePeers));
    LeadsThen(k, Opening(want, k.link), ready, Deletions(havePeers, want.peers), pruned, freshMtu);
    LeadsThen(k, Opening(want, k.link) + Deletions(havePeers, want.peers), pruned, Additions(want.peers, havePeers),
      end, freshMtu);
    assert forall p :: p in k.peers <==> p in Elements(havePeers);
  }

  /** Before its last step that opens it, if there is one, the plan has put everything else right. */
  lemma SettledBeforeClosing(k: Kernel, want: Wanted, havePeers: seq<string>, freshMtu: nat)
    requires Observed(k, want, havePeers)
    ensures Settled(ExecAll(k, Body(want, k.link, havePeers), freshMtu), want)
  {
    hide Body, Settled;
    var end := BodyReaches(k, want, havePeers, freshMtu);
  }

  lemma PlanLeads(k: Kernel, want: Wanted, havePeers: seq<string>, freshMtu: nat) returns (closed: Kernel)
    requires Observed(k, want, havePeers)
    ensures Leads(k, StepsFor(want, k.link, havePeers), closed, freshMtu)
    ensures Settled(closed, want) && IsUp(closed.link) == ShouldBeUp(want)
  {
    hide Body, Leads;
    var last := Closing(want, k.link);
    var end := BodyReaches(k, want, havePeers, freshMtu);
    LeadsShort(end, last, freshMtu);
    closed := if last == [] then end else Exec(end, last[0], freshMtu);
    LeadsThen(k, Body(want, k.link, havePeers), end, last, closed, freshMtu);
    PlanIsBody(want, k.link, havePeers);
  }

  /** From any state that is not someone else's device the whole plan reaches what is wanted. */
  lemma PlanReachesWanted(k: Kernel, want: Wanted, havePeers: seq<string>, freshMtu: nat)
    requires Observed(k, want, havePeers)
    ensures var k' := ExecAll(k, StepsFor(want, k.link, havePeers), freshMtu);
            Settled(k', want) && (IsUp(k'.link) <==> want.allowUp && want.peers != [] && want.bridge.Some?)
  {
    hide StepsFor, Leads, Settled;
    var closed := PlanLeads(k, want, havePeers, freshMtu);
    LeadsMeans(k, StepsFor(want, k.link, havePeers), closed, freshMtu);
  }

  /** And every step of it applies when it is its turn. */
  lemma EveryStepApplies(k: Kernel, want: Wanted, havePeers: seq<string>, freshMtu: nat)
    requires Observed(k, want, havePeers)
    ensures AllApply(k, StepsFor(want, k.link, havePeers), freshMtu)
  {
    hide StepsFor, Leads, AllApply;
    var closed := PlanLeads(k, want, havePeers, freshMtu);
    LeadsMeans(k, StepsFor(want, k.link, havePeers), closed, freshMtu);
  }

  lemma PlanIsBody(want: Wanted, have: Option<Link>, havePeers: seq<string>)
    ensures StepsFor(want, have, havePeers) == Body(want, have, havePeers) + Closing(want, have)
  {
  }

  lemma LeadsMeans(k: Kernel, steps: seq<Step>, end: Kernel, freshMtu: nat)
    requires Leads(k, steps, end, freshMtu)
    ensures AllApply(k, steps, freshMtu) && ExecAll(k, steps, freshMtu) == end
  {
  }

  /** Planning is done exactly when everything is as wanted. */
  lemma NoStepsWhenAsWanted(k: Kernel, want: Wanted, havePeers: seq<string>)
    requires Observed(k, want, havePeers)
    ensures StepsFor(want, k.link, havePeers) == [] <==> Settled(k, want) && IsUp(k.link) == ShouldBeUp(want)
  {
    if StepsFor(want, k.link, havePeers) == [] {
      PlanReachesWanted(k, want, havePeers, 0);
    } else if Settled(k, want) && IsUp(k.link) == ShouldBeUp(want) {
      assert forall i :: 0 <= i < |havePeers| ==> havePeers[i] in Elements(havePeers);
      assert forall i :: 0 <= i < |want.peers| ==> want.peers[i] in Elements(havePeers);
      NothingToDelete(havePeers, want.peers);
      NothingToAdd(want.peers, havePeers);
      assert false;
    }
  }

  lemma {:induction false} NothingToDelete(havePeers: seq<string>, wanted: seq<string>)
    requires forall i :: 0 <= i < |havePeers| ==> havePeers[i] in wanted
    ensures Deletions(havePeers, wanted) == []
  {
    if havePeers != [] { NothingToDelete(havePeers[..|havePeers| - 1], wanted); }
  }

  lemma {:induction false} NothingToAdd(wanted: seq<string>, havePeers: seq<string>)
    requires forall i :: 0 <= i < |wanted| ==> wanted[i] in havePeers
    ensures Additions(wanted, havePeers) == []
  {
    if wanted != [] { NothingToAdd(wanted[..|wanted| - 1], havePeers); }
  }

  /** Having run the plan, there is nothing left to plan. */
  lemma PlanningAgainGivesNothing(
      k: Kernel, want: Wanted, havePeers: seq<string>, freshMtu: nat, peersAfter: seq<string>)
    requires Observed(k, want, havePeers)
    requires Distinct(peersAfter)
            && Elements(peersAfter) == ExecAll(k, StepsFor(want, k.link, havePeers), freshMtu).peers
    ensures StepsFor(want, ExecAll(k, StepsFor(want, k.link, havePeers), freshMtu).link, peersAfter) == []
  {
    PlanReachesWanted(k, want, havePeers, freshMtu);
    NoStepsWhenAsWanted(ExecAll(k, StepsFor(want, k.link, havePeers), freshMtu), want, peersAfter);
  }

  function Rank(s: Step): nat {
    match s
    case SetDown => 0
    case Add(_, _) => 1
    case SetMtu(_) => 2
    case SetMaster(_) => 3
    case FdbDel(_) => 4
    case FdbAppend(_) => 5
    case SetUp => 6
  }

  /**
   A plan closes before it changes anything, makes the device before it sets it up, sends to nobody it should not
   before it sends to anybody new, and opens last.
   */
  lemma StepsInOrder(want: Wanted, have: Option<Link>, havePeers: seq<string>, i: nat, j: nat)
    requires i < j < |StepsFor(want, have, havePeers)|
    ensures var steps := StepsFor(want, have, havePeers);
            Rank(steps[i]) < Rank(steps[j]) || (Rank(steps[i]) == Rank(steps[j]) && steps[i].FdbDel?)
              || (Rank(steps[i]) == Rank(steps[j]) && steps[i].FdbAppend?)
  {
    hide Opening, Deletions, Additions;
    var a, b, c := Opening(want, have), Deletions(havePeers, want.peers), Additions(want.peers, havePeers);
    var steps := StepsFor(want, have, havePeers);
    assert forall k :: 0 <= k < |a| ==> Rank(a[k]) < 4 && (forall l :: 0 <= l < k ==> Rank(a[l]) < Rank(a[k])) by {
      OpeningInOrder(want, have);
    }
    OnlyDeletions(havePeers, want.peers);
    OnlyAdditions(want.peers, havePeers);
    assert forall k :: 0 <= k < |b| ==> b[k] in b && b[k].FdbDel?;
    assert forall k :: 0 <= k < |c| ==> c[k] in c && c[k].FdbAppend?;
  }

  lemma OpeningInOrder(want: Wanted, have: Option<Link>)
    ensures var a := Opening(want, have);
            forall k :: 0 <= k < |a| ==> Rank(a[k]) < 4 && forall l :: 0 <= l < k ==> Rank(a[l]) < Rank(a[k])
  {
  }

  // ----- Stopping part of the way

  lemma {:induction false} OnlyDeletions(havePeers: seq<string>, wanted: seq<string>)
    ensures forall s :: s in Deletions(havePeers, wanted) ==> s.FdbDel? && s.peer !in wanted
  {
    if havePeers != [] { OnlyDeletions(havePeers[..|havePeers| - 1], wanted); }
  }

  lemma {:induction false} OnlyAdditions(wanted: seq<string>, havePeers: seq<string>)
    ensures forall s :: s in Additions(wanted, havePeers) ==> s.FdbAppend? && s.peer in wanted
  {
    if wanted != [] {
      assert forall p :: p in wanted[..|wanted| - 1] ==> p in wanted;
      OnlyAdditions(wanted[..|wanted| - 1], havePeers);
    }
  }

  lemma OpeningPlaces(want: Wanted, have: Option<Link>)
    ensures var a := Opening(want, have);
            && (forall j ::
              0 <= j < |a| ==>
                !a[j].SetUp? && (a[j].SetDown? ==> j == 0 && IsUp(have) && !ShouldBeUp(want))
                  && (a[j].Add? ==> have == None))
            && (IsUp(have) && !ShouldBeUp(want) ==> |a| > 0 && a[0] == SetDown)
  {
  }

  /** Where in a plan the steps are that decide whether the device is up. */
  lemma StepPlaces(want: Wanted, have: Option<Link>, havePeers: seq<string>, i: nat)
    requires i < |StepsFor(want, have, havePeers)|
    ensures var steps := StepsFor(want, have, havePeers);
            && (steps[i].SetUp? <==> i == |steps| - 1 && ShouldBeUp(want) && !IsUp(have))
            && (steps[i].SetDown? <==> i == 0 && IsUp(have) && !ShouldBeUp(want))
            && (steps[i].Add? ==> !IsUp(have))
  {
    hide Opening, Deletions, Additions;
    var a, b, c, d := Opening(want, have), Deletions(havePeers, want.peers), Additions(want.peers, havePeers),
        Closing(want, have);
    var steps := StepsFor(want, have, havePeers);
    OpeningPlaces(want, have);
    OnlyDeletions(havePeers, want.peers);
    OnlyAdditions(want.peers, havePeers);
    if i < |a| {
      assert steps[i] == a[i];
    } else if i < |a| + |b| {
      assert steps[i] == b[i - |a|] && b[i - |a|] in b;
    } else if i < |a| + |b| + |c| {
      assert steps[i] == c[i - |a| - |b|] && c[i - |a| - |b|] in c;
    } else {
      assert steps[i] == d[i - |a| - |b| - |c|];
    }
  }

  lemma ExecUp(k: Kernel, s: Step, freshMtu: nat)
    requires Applies(k, s)
    ensures IsUp(Exec(k, s, freshMtu).link)
            <==> if s.SetUp? then true else if s.SetDown? || s.Add? then false else IsUp(k.link)
  {
  }

  function UpAfter(k: Kernel, want: Wanted, havePeers: seq<string>, freshMtu: nat, n: nat): bool
    requires n <= |StepsFor(want, k.link, havePeers)|
  {
    IsUp(ExecAll(k, StepsFor(want, k.link, havePeers)[..n], freshMtu).link)
  }

  /**
   Stopped after any number of steps but none, the device is up only if it should be; and it comes up
   with the plan's last step or not at all.
   */
  lemma {:induction false} UpOnPrefix(k: Kernel, want: Wanted, havePeers: seq<string>, freshMtu: nat, n: nat)
    requires Observed(k, want, havePeers) && n <= |StepsFor(want, k.link, havePeers)|
    ensures UpAfter(k, want, havePeers, freshMtu, n)
            <==> if n == 0 then IsUp(k.link)
                 else ShouldBeUp(want) && (IsUp(k.link) || n == |StepsFor(want, k.link, havePeers)|)
  {
    hide StepsFor, Settled, Exec, Applies;
    var steps := StepsFor(want, k.link, havePeers);
    if n > 0 {
      UpOnPrefix(k, want, havePeers, freshMtu, n - 1);
      EveryStepApplies(k, want, havePeers, freshMtu);
      StepPlaces(want, k.link, havePeers, n - 1);
      assert steps[..n][..n - 1] == steps[..n - 1];
      ExecUp(ExecAll(k, steps[..n - 1], freshMtu), steps[n - 1], freshMtu);
    }
  }

  /** When the device comes up, everything else is already as wanted. */
  lemma ComesUpSettled(k: Kernel, want: Wanted, havePeers: seq<string>, freshMtu: nat, n: nat)
    requires Observed(k, want, havePeers) && n < |StepsFor(want, k.link, havePeers)|
    requires !UpAfter(k, want, havePeers, freshMtu, n) && UpAfter(k, want, havePeers, freshMtu, n + 1)
    ensures n + 1 == |StepsFor(want, k.link, havePeers)|
    ensures Settled(ExecAll(k, StepsFor(want, k.link, havePeers)[..n], freshMtu), want)
  {
    var steps := StepsFor(want, k.link, havePeers);
    UpOnPrefix(k, want, havePeers, freshMtu, n);
    UpOnPrefix(k, want, havePeers, freshMtu, n + 1);
    SettledBeforeClosing(k, want, havePeers, freshMtu);
    StepPlaces(want, k.link, havePeers, n);
    assert Closing(want, k.link) == [SetUp];
    assert steps[..n] == Body(want, k.link, havePeers);
  }

  /** Stopping after some but not all of the steps never leaves the device up with a stale setting. */
  ghost predicate NeverUpStale(k: Kernel, want: Wanted, havePeers: seq<string>, freshMtu: nat) {
    forall n :: 0 < n <= |StepsFor(want, k.link, havePeers)| && UpAfter(k, want, havePeers, freshMtu, n) ==>
                  Settled(ExecAll(k, StepsFor(want, k.link, havePeers)[..n], freshMtu), want)
  }

  /**
   How many things about a device are not as wanted: its MTU, its bridge, and each remote host too many or
   missing.
   */
  function Changes(k: Kernel, want: Wanted): nat
    requires k.link.Some?
  {
    (if k.link.value.mtu != want.mtu then 1 else 0)
    + (if want.bridge.Some? && k.link.value.master != want.bridge then 1 else 0)
    + |k.peers - Elements(want.peers)| + |Elements(want.peers) - k.peers|
  }

  lemma ElementsPush(xs: seq<string>)
    requires xs != [] && Distinct(xs)
    ensures var init, last := xs[..|xs| - 1], xs[|xs| - 1];
            Distinct(init) && Elements(xs) == Elements(init) + {last} && last !in Elements(init)
  {
    assert xs == xs[..|xs| - 1] + [xs[|xs| - 1]];
  }

  lemma {:induction false} DeletionsCount(havePeers: seq<string>, wanted: seq<string>)
    requires Distinct(havePeers)
    ensures |Deletions(havePeers, wanted)| == |Elements(havePeers) - Elements(wanted)|
  {
    if havePeers == [] {
      assert Elements(havePeers) - Elements(wanted) == {};
    } else {
      var init, last := havePeers[..|havePeers| - 1], havePeers[|havePeers| - 1];
      ElementsPush(havePeers);
      DeletionsCount(init, wanted);
      var extra := Elements(init) - Elements(wanted);
      assert Elements(havePeers) - Elements(wanted) == if last in wanted then extra else extra + {last};
    }
  }

  lemma {:induction false} AdditionsCount(wanted: seq<string>, havePeers: seq<string>)
    requires Distinct(wanted)
    ensures |Additions(wanted, havePeers)| == |Elements(wanted) - Elements(havePeers)|
  {
    if wanted == [] {
      assert Elements(wanted) - Elements(havePeers) == {};
    } else {
      var init, last := wanted[..|wanted| - 1], wanted[|wanted| - 1];
      ElementsPush(wanted);
      AdditionsCount(init, havePeers);
      var extra := Elements(init) - Elements(havePeers);
      assert Elements(wanted) - Elements(havePeers) == if last in havePeers then extra else extra + {last};
    }
  }

  /** A device that is up and stays up gets one step for each of them. */
  lemma StepsAreChanges(k: Kernel, want: Wanted, havePeers: seq<string>)
    requires Observed(k, want, havePeers) && IsUp(k.link) && ShouldBeUp(want)
    ensures |StepsFor(want, k.link, havePeers)| == Changes(k, want)
  {
    hide Deletions, Additions, Elements;
    DeletionsCount(havePeers, want.peers);
    AdditionsCount(want.peers, havePeers);
  }

  /**
   A plan stopped part of the way leaves the device up with a stale setting exactly when it was up to
   begin with, stays up, and needs more than one change: those are made with it open.
   */
  lemma UpStaleOnlyIfAlreadyUp(k: Kernel, want: Wanted, havePeers: seq<string>, freshMtu: nat)
    requires Observed(k, want, havePeers)
    ensures NeverUpStale(k, want, havePeers, freshMtu)
            <==> !(IsUp(k.link) && ShouldBeUp(want) && Changes(k, want) >= 2)
  {
    hide StepsFor, Settled, Changes;
    if IsUp(k.link) && ShouldBeUp(want) { StepsAreChanges(k, want, havePeers); }
    var steps := StepsFor(want, k.link, havePeers);
    PlanReachesWanted(k, want, havePeers, freshMtu);
    forall n | 0 < n <= |steps|
      ensures UpAfter(k, want, havePeers, freshMtu, n) <==> ShouldBeUp(want) && (IsUp(k.link) || n == |steps|)
    {
      UpOnPrefix(k, want, havePeers, freshMtu, n);
    }
    assert steps[..|steps|] == steps;
    if IsUp(k.link) && ShouldBeUp(want) && |steps| >= 2 {
      StaleAfterFirst(k, want, havePeers, freshMtu);
      assert UpAfter(k, want, havePeers, freshMtu, 1);
    }
  }

  /** With two changes to make, one does not do. */
  lemma StaleAfterFirst(k: Kernel, want: Wanted, havePeers: seq<string>, freshMtu: nat)
    requires Observed(k, want, havePeers) && IsUp(k.link) && ShouldBeUp(want)
            && |StepsFor(want, k.link, havePeers)| >= 2
    ensures !Settled(ExecAll(k, StepsFor(want, k.link, havePeers)[..1], freshMtu), want)
  {
    hide Deletions, Additions;
    var a, b, c := Opening(want, k.link), Deletions(havePeers, want.peers), Additions(want.peers, havePeers);
    var steps := StepsFor(want, k.link, havePeers);
    PlanReachesWanted(k, want, havePeers, freshMtu);
    EveryStepApplies(k, want, havePeers, freshMtu);
    OnlyDeletions(havePeers, want.peers);
    OnlyAdditions(want.peers, havePeers);
    LeadsShort(k, steps[..1], freshMtu);
    var first := ExecAll(k, steps[..1], freshMtu);
    assert Applies(first, steps[1]);
    if |a| == 2 {
      assert steps[1] == a[1];
    } else if 1 < |a| + |b| {
      assert steps[1] == b[1 - |a|] && b[1 - |a|] in b;
    } else {
      assert steps[1] == c[1 - |a| - |b|] && c[1 - |a| - |b|] in c;
    }
  }

  lemma OneReplaced(a: string, b: string)
    requires a != b
    ensures Deletions([a], [b]) == [FdbDel(a)] && Additions([b], [a]) == [FdbAppend(b)]
  {
    assert [a][..0] == [] && [b][..0] == [];
    assert Deletions([], [b]) == [] && Additions([], [a]) == [];
  }

  lemma OneDeleted(k: Kernel, peer: string, freshMtu: nat)
    requires k.link.Some? && k.peers == {peer}
    ensures ExecAll(k, [FdbDel(peer)], freshMtu) == k.(peers := {})
  {
    assert [FdbDel(peer)][..0] == [] && {peer} - {peer} == {};
    assert ExecAll(k, [], freshMtu) == k;
  }

  /** What UpBetweenPeers is about: one tunnel, up and as wanted but for its one remote host. */
  const TUNNEL := Link(7, 4789, 1450, Some("vpvx7"), true)
  const OTHER_PEER := Wanted(7, 4789, ["b"], 1450, Some("vpvx7"), true)

  /**
   One remote host replaced by another, on a device that is up: after the first step it is up and sends to
   neither.
   */
  lemma UpBetweenPeers(freshMtu: nat)
    ensures var k, steps := Kernel(Some(TUNNEL), {"a"}), StepsFor(OTHER_PEER, Some(TUNNEL), ["a"]);
            && Observed(k, OTHER_PEER, ["a"]) && steps == [FdbDel("a"), FdbAppend("b")]
            && ExecAll(k, steps[..1], freshMtu) == k.(peers := {}) && !NeverUpStale(k, OTHER_PEER, ["a"], freshMtu)
  {
    hide Deletions, Additions, ExecAll, NeverUpStale;
    var k, steps := Kernel(Some(TUNNEL), {"a"}), StepsFor(OTHER_PEER, Some(TUNNEL), ["a"]);
    assert "a"[0] != "b"[0];
    OneReplaced("a", "b");
    assert Opening(OTHER_PEER, Some(TUNNEL)) == [] && Closing(OTHER_PEER, Some(TUNNEL)) == [];
    assert steps == [FdbDel("a"), FdbAppend("b")];
    assert steps[..1] == [FdbDel("a")];
    OneDeleted(k, "a", freshMtu);
    StepsAreChanges(k, OTHER_PEER, ["a"]);
    hide StepsFor, Changes;
    UpStaleOnlyIfAlreadyUp(k, OTHER_PEER, ["a"], freshMtu);
  }
}
