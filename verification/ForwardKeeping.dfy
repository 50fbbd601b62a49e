/**
 What the operations on the FORWARD list leave as it was and what they take away: over every run there is
 one ACCEPT for each port forward and no other, no jump for a VM without chains, and each operation leaves
 all that is not its own in its order.
 */
module ForwardKeeping {
  import opened Wrappers
  import opened ForwardList
  import opened ForwardRuns

  // ----- One ACCEPT for each forward

  function AcceptsIn(list: seq<Rule>): seq<Rule> {
    if list == [] then []
    else if list[0].Accept? then [list[0]] + AcceptsIn(list[1..])
    else AcceptsIn(list[1..])
  }

  /** The forwards' ACCEPTs, the last one's first. */
  function Recorded(forwards: seq<Forward>): seq<Rule> {
    if forwards == [] then [] else Recorded(forwards[1..]) + [AcceptOf(forwards[0])]
  }

  ghost predicate NoIdTwice(forwards: seq<Forward>) {
    forall i, j :: 0 <= i < j < |forwards| ==> forwards[i].id != forwards[j].id
  }

  lemma {:induction false} AcceptsConcat(a: seq<Rule>, b: seq<Rule>)
    ensures AcceptsIn(a + b) == AcceptsIn(a) + AcceptsIn(b)
  {
    if a == [] {
      assert a + b == b;
    } else {
      assert (a + b)[0] == a[0] && (a + b)[1..] == a[1..] + b;
      AcceptsConcat(a[1..], b);
    }
  }

  lemma {:induction false} NoAccepts(list: seq<Rule>)
    requires forall r :: r in list ==> !r.Accept?
    ensures AcceptsIn(list) == []
  {
    if list != [] {
      assert list[0] in list;
      NoAccepts(list[1..]);
    }
  }

  lemma {:induction false} PickingLeavesAccepts(list: seq<Rule>, p: Pick)
    ensures AcceptsIn(Without(list, p)) == AcceptsIn(list)
  {
    if list != [] {
      PickingLeavesAccepts(list[1..], p);
      if !Picked(p, list[0]) {
        assert ([list[0]] + Without(list[1..], p))[1..] == Without(list[1..], p);
      }
    }
  }

  lemma PutJumpsLeavesAccepts(list: seq<Rule>, vm: nat, ip: nat)
    ensures AcceptsIn(PutJumps(list, vm, ip)) == AcceptsIn(list)
  {
    AcceptsConcat([Jump(vm, Out, ip), Jump(vm, In, ip)], Without(list, At(vm, ip)));
    NoAccepts([Jump(vm, Out, ip), Jump(vm, In, ip)]);
    PickingLeavesAccepts(list, At(vm, ip));
  }

  lemma RepairLeavesAccepts(list: seq<Rule>, vm: nat)
    ensures AcceptsIn(Repair(list, vm)) == AcceptsIn(list)
  {
    var inbound, outbound := Named(list, vm, In), Named(list, vm, Out);
    var ins, outs := Heads(vm, In, Missing(outbound, inbound)), Heads(vm, Out, Missing(inbound, outbound));
    HeadsAreJumps(vm, In, Missing(outbound, inbound));
    HeadsAreJumps(vm, Out, Missing(inbound, outbound));
    NoAccepts(ins);
    NoAccepts(outs);
    AcceptsConcat(ins, list);
    AcceptsConcat(outs, ins + list);
  }

  lemma JumpSwapLeavesAccepts(list: seq<Rule>, vm: nat, ips: seq<nat>)
    ensures AcceptsIn(JumpSwap(list, vm, ips)) == AcceptsIn(list)
  {
    hide Pairs, Without;
    PairsAre(vm, ips);
    NoAccepts(Pairs(vm, ips));
    AcceptsConcat(Pairs(vm, ips), Without(list, Of(vm)));
    PickingLeavesAccepts(list, Of(vm));
  }

  lemma {:induction false} EditsLeaveAccepts(
      list: seq<Rule>, vm: nat, ips: seq<nat>, held: seq<nat>, keep: seq<nat>, gone: set<nat>)
    ensures AcceptsIn(RaiseAll(list, vm, ips)) == AcceptsIn(list)
    ensures AcceptsIn(AddMissing(list, vm, ips, held)) == AcceptsIn(list)
    ensures AcceptsIn(DropGone(list, vm, ips, keep, gone)) == AcceptsIn(list)
  {
    hide PutJumps, Without;
    if ips != [] {
      var init, last := ips[..|ips| - 1], ips[|ips| - 1];
      EditsLeaveAccepts(list, vm, init, held, keep, gone);
      PutJumpsLeavesAccepts(RaiseAll(list, vm, init), vm, last);
      PutJumpsLeavesAccepts(AddMissing(list, vm, init, held), vm, last);
      PickingLeavesAccepts(DropGone(list, vm, init, keep, gone), At(vm, last));
    }
  }

  lemma TendLeavesAccepts(
      list: seq<Rule>, vm: nat, wanted: seq<nat>, forwarded: seq<nat>, gone: set<nat>, seen: seq<Rule>)
    ensures AcceptsIn(Tend(list, vm, wanted, forwarded, gone, seen)) == AcceptsIn(list)
  {
    hide AddMissing, DropGone, RaiseAll, OutOfPlace, Held;
    var held, keep := Held(list, vm), wanted + forwarded;
    var added := AddMissing(list, vm, keep, held);
    EditsLeaveAccepts(list, vm, keep, held, [], {});
    EditsLeaveAccepts(added, vm, held, [], keep, gone);
    EditsLeaveAccepts(DropGone(added, vm, held, keep, gone), vm, OutOfPlace(seen, vm), [], [], {});
  }

  lemma {:induction false} RecordedPush(forwards: seq<Forward>, f: Forward)
    ensures Recorded(forwards + [f]) == [AcceptOf(f)] + Recorded(forwards)
  {
    if forwards == [] {
      assert forwards + [f] == [f];
    } else {
      assert (forwards + [f])[0] == forwards[0] && (forwards + [f])[1..] == forwards[1..] + [f];
      RecordedPush(forwards[1..], f);
    }
  }

  lemma {:induction false} InRecorded(forwards: seq<Forward>, a: Rule)
    ensures a in Recorded(forwards) <==> exists f :: f in forwards && AcceptOf(f) == a
  {
    if forwards != [] {
      InRecorded(forwards[1..], a);
      assert forwards == [forwards[0]] + forwards[1..];
    }
  }

  lemma {:induction false} RemoveFromEnd(list: seq<Rule>, x: Rule, a: Rule)
    ensures RemoveFirst(list + [x], a)
         == if a in list then RemoveFirst(list, a) + [x] else if x == a then list else list + [x]
  {
    if list == [] {
      assert list + [x] == [x];
    } else {
      assert (list + [x])[0] == list[0] && (list + [x])[1..] == list[1..] + [x];
      RemoveFromEnd(list[1..], x, a);
    }
  }

  lemma {:induction false} AcceptsWithoutOne(list: seq<Rule>, a: Rule)
    requires a.Accept?
    ensures AcceptsIn(RemoveFirst(list, a)) == RemoveFirst(AcceptsIn(list), a)
  {
    if list != [] {
      var accepts := AcceptsIn(list[1..]);
      AcceptsWithoutOne(list[1..], a);
      assert ([list[0]] + accepts)[1..] == accepts;
      if list[0] != a {
        assert ([list[0]] + RemoveFirst(list[1..], a))[1..] == RemoveFirst(list[1..], a);
      }
    }
  }

  lemma {:induction false} NoneOfId(forwards: seq<Forward>, id: nat)
    requires forall i :: 0 <= i < |forwards| ==> forwards[i].id != id
    ensures NotId(forwards, id) == forwards
  {
    if forwards != [] { NoneOfId(forwards[1..], id); }
  }

  /** Striking a forward off the record takes its ACCEPT out of the ACCEPTs on record. */
  lemma {:induction false} StrikeOff(forwards: seq<Forward>, f: Forward)
    requires NoIdTwice(forwards) && f in forwards
    ensures Recorded(NotId(forwards, f.id)) == RemoveFirst(Recorded(forwards), AcceptOf(f))
    ensures NoIdTwice(NotId(forwards, f.id))
  {
    var first, rest := forwards[0], forwards[1..];
    assert forwards == [first] + rest && NoIdTwice(rest) && (f in rest ==> first.id != f.id);
    RemoveFromEnd(Recorded(rest), AcceptOf(first), AcceptOf(f));
    InRecorded(rest, AcceptOf(f));
    if first.id == f.id {
      NoneOfId(rest, f.id);
      hide NotId;
    } else {
      StrikeOff(rest, f);
      StaysUnique(first, rest, f.id);
      assert Recorded([first] + NotId(rest, f.id)) == Recorded(NotId(rest, f.id)) + [AcceptOf(first)] by {
        assert ([first] + NotId(rest, f.id))[1..] == NotId(rest, f.id);
      }
      assert NotId(forwards, f.id) == [first] + NotId(rest, f.id);
      hide NotId, Recorded, RemoveFirst, NoIdTwice;
    }
  }

  lemma StaysUnique(first: Forward, rest: seq<Forward>, id: nat)
    requires NoIdTwice([first] + rest) && NoIdTwice(NotId(rest, id))
    ensures NoIdTwice([first] + NotId(rest, id))
  {
    forall i | 0 <= i < |NotId(rest, id)| ensures NotId(rest, id)[i].id != first.id {
      var f := NotId(rest, id)[i];
      assert f in rest;
      var k :| 0 <= k < |rest| && rest[k] == f;
      assert ([first] + rest)[0] == first && ([first] + rest)[k + 1] == f;
    }
  }

  /** The list's ACCEPTs are those of the forwards on record, one each, the last one's first. */
  ghost predicate OneEach(s: State) {
    AcceptsIn(s.rules) == Recorded(s.forwards) && NoIdTwice(s.forwards)
  }

  lemma {:induction false} InAccepts(list: seq<Rule>, a: Rule)
    ensures a in AcceptsIn(list) <==> a in list && a.Accept?
  {
    if list != [] {
      InAccepts(list[1..], a);
      assert list == [list[0]] + list[1..];
    }
  }

  lemma AddKeepsOneEach(s: State, f: Forward)
    requires OneEach(s) && !HasId(s.forwards, f.id)
    ensures OneEach(Step(s, AddForward(f)))
  {
    hide PutJumps, Repair;
    var a := AcceptOf(f);
    InAccepts(s.rules, a);
    InRecorded(s.forwards, a);
    assert a !in s.rules;
    AcceptsConcat([a], s.rules);
    assert AcceptsIn([a]) == [a] by { assert [a][1..] == []; }
    RepairLeavesAccepts([a] + s.rules, f.vm);
    PutJumpsLeavesAccepts(Repair([a] + s.rules, f.vm), f.vm, f.ip);
    RecordedPush(s.forwards, f);
  }

  lemma DeleteKeepsOneEach(s: State, id: nat)
    requires OneEach(s)
    ensures OneEach(Step(s, DeleteForward(id)))
  {
    if HasId(s.forwards, id) {
      var f := FindId(s.forwards, id);
      StrikeOff(s.forwards, f);
      AcceptsWithoutOne(s.rules, AcceptOf(f));
    }
  }

  lemma StepKeepsOneEach(s: State, op: Op)
    requires OneEach(s) && CanHappen(s, op)
    ensures OneEach(Step(s, op))
  {
    hide Tend, Repair, JumpSwap, Held, PutJumps;
    match op
    case ApplyRules(vm, ips, _) =>
      PickingLeavesAccepts(s.rules, Of(vm));
      JumpSwapLeavesAccepts(s.rules, vm, Unique(ips + AddressesOf(s.forwards, vm) + Held(s.rules, vm)));
    case AddForward(f) => AddKeepsOneEach(s, f);
    case DeleteForward(id) => DeleteKeepsOneEach(s, id);
    case Sync(vm, _, intact, noted, wanted, gone, seen) =>
      var forwarded := AddressesOf(s.forwards, vm);
      var ips := Unique(noted + (wanted + forwarded));
      RepairLeavesAccepts(s.rules, vm);
      JumpSwapLeavesAccepts(s.rules, vm, ips);
      TendLeavesAccepts(if vm in s.chains && intact then Repair(s.rules, vm) else JumpSwap(s.rules, vm, ips),
        vm, wanted, forwarded, gone, seen);
    case RemoveFirewall(vm) => PickingLeavesAccepts(s.rules, Of(vm));
    case Others(edited) =>
      PickingLeavesAccepts(s.rules, NotOurs);
      PickingLeavesAccepts(edited, NotOurs);
  }

  /** At the start there are no forwards, and no ACCEPTs of any. */
  ghost predicate NoForwardsYet(start: State) {
    start.forwards == [] && forall r :: r in start.rules ==> !r.Accept?
  }

  lemma {:induction false} RunsKeepOneEach(start: State, ops: seq<Op>)
    requires NoForwardsYet(start) && IsRun(start, ops)
    ensures OneEach(Run(start, ops))
  {
    hide Step, CanHappen;
    if ops == [] {
      NoAccepts(start.rules);
    } else {
      RunsKeepOneEach(start, ops[..|ops| - 1]);
      StepKeepsOneEach(Run(start, ops[..|ops| - 1]), ops[|ops| - 1]);
    }
  }

  lemma {:induction false} CountAccepts(list: seq<Rule>, a: Rule)
    requires a.Accept?
    ensures multiset(list)[a] == multiset(AcceptsIn(list))[a]
  {
    if list != [] {
      CountAccepts(list[1..], a);
      assert list == [list[0]] + list[1..];
    }
  }

  lemma {:induction false} CountRecorded(forwards: seq<Forward>, a: Rule)
    requires NoIdTwice(forwards)
    ensures multiset(Recorded(forwards))[a] == if exists f :: f in forwards && AcceptOf(f) == a then 1 else 0
  {
    if forwards != [] {
      assert forwards == [forwards[0]] + forwards[1..];
      CountRecorded(forwards[1..], a);
    }
  }

  /** In every run the list has an ACCEPT exactly for the forwards on record, once each. */
  lemma OneAcceptEach(start: State, ops: seq<Op>, a: Rule)
    requires NoForwardsYet(start) && IsRun(start, ops) && a.Accept?
    ensures var s := Run(start, ops);
            multiset(s.rules)[a] == if exists f :: f in s.forwards && AcceptOf(f) == a then 1 else 0
  {
    var s := Run(start, ops);
    RunsKeepOneEach(start, ops);
    CountAccepts(s.rules, a);
    CountRecorded(s.forwards, a);
  }

  lemma {:induction false} RemoveFirstIs(list: seq<Rule>, a: Rule) returns (i: nat)
    requires a in list
    ensures i < |list| && list[i] == a && RemoveFirst(list, a) == list[..i] + list[i + 1..]
  {
    if list[0] == a {
      i := 0;
    } else {
      i := RemoveFirstIs(list[1..], a);
      i := i + 1;
    }
  }

  lemma RestUnique(forwards: seq<Forward>)
    requires NoIdTwice(forwards) && forwards != []
    ensures NoIdTwice(forwards[1..]) && forall f :: f in forwards[1..] ==> f.id != forwards[0].id
  {
  }

  lemma SkipOne(forwards: seq<Forward>, j: nat)
    requires forwards != [] && j < |forwards| - 1
    ensures var rest := forwards[1..];
            [forwards[0]] + (rest[..j] + rest[j + 1..]) == forwards[..j + 1] + forwards[j + 2..]
  {
  }

  lemma {:induction false} NotIdIs(forwards: seq<Forward>, f: Forward) returns (k: nat)
    requires NoIdTwice(forwards) && f in forwards
    ensures k < |forwards| && forwards[k] == f && NotId(forwards, f.id) == forwards[..k] + forwards[k + 1..]
  {
    hide NoIdTwice;
    var rest := forwards[1..];
    RestUnique(forwards);
    if forwards[0] == f {
      k := 0;
      NoneOfId(rest, f.id);
    } else {
      assert forwards == [forwards[0]] + rest;
      var j := NotIdIs(rest, f);
      SkipOne(forwards, j);
      k := j + 1;
    }
  }

  /**
   In every run, deleting a forward takes its ACCEPT and its record, and leaves every other rule and every other
   record where it was.
   */
  lemma DeletionTakesItsAccept(start: State, ops: seq<Op>, f: Forward)
    requires NoForwardsYet(start) && IsRun(start, ops) && f in Run(start, ops).forwards
    ensures var s := Run(start, ops);
            var s' := Step(s, DeleteForward(f.id));
            && (exists i ::
              0 <= i < |s.rules| && s.rules[i] == AcceptOf(f) && s'.rules == s.rules[..i] + s.rules[i + 1..])
            && (exists k ::
              0 <= k < |s.forwards| && s.forwards[k] == f && s'.forwards == s.forwards[..k] + s.forwards[k + 1..])
            && AcceptOf(f) !in s'.rules && s'.chains == s.chains
  {
    var s := Run(start, ops);
    var s' := Step(s, DeleteForward(f.id));
    RunsKeepOneEach(start, ops);
    assert FindId(s.forwards, f.id) == f;
    InRecorded(s.forwards, AcceptOf(f));
    InAccepts(s.rules, AcceptOf(f));
    var i := RemoveFirstIs(s.rules, AcceptOf(f));
    var k := NotIdIs(s.forwards, f);
    DeleteKeepsOneEach(s, f.id);
    InAccepts(s'.rules, AcceptOf(f));
    InRecorded(s'.forwards, AcceptOf(f));
  }

  // ----- What is not its own

  lemma {:induction false} AllPicked(list: seq<Rule>, p: Pick)
    requires forall r :: r in list ==> Picked(p, r)
    ensures Without(list, p) == []
  {
    if list != [] {
      assert list[0] in list;
      AllPicked(list[1..], p);
    }
  }

  lemma {:induction false} PickedAlready(list: seq<Rule>, vm: nat, ip: nat)
    ensures Without(Without(list, At(vm, ip)), Of(vm)) == Without(list, Of(vm))
    ensures Without(Without(list, Of(vm)), Of(vm)) == Without(list, Of(vm))
  {
    if list != [] {
      PickedAlready(list[1..], vm, ip);
      assert ([list[0]] + Without(list[1..], At(vm, ip)))[1..] == Without(list[1..], At(vm, ip));
      assert ([list[0]] + Without(list[1..], Of(vm)))[1..] == Without(list[1..], Of(vm));
    }
  }

  lemma OwnOnTop(own: seq<Rule>, list: seq<Rule>, vm: nat)
    requires forall r :: r in own ==> Picked(Of(vm), r)
    ensures Without(own + list, Of(vm)) == Without(list, Of(vm))
  {
    WithoutConcat(own, list, Of(vm));
    AllPicked(own, Of(vm));
  }

  lemma PutJumpsLeavesOthers(list: seq<Rule>, vm: nat, ip: nat)
    ensures Without(PutJumps(list, vm, ip), Of(vm)) == Without(list, Of(vm))
  {
    OwnOnTop([Jump(vm, Out, ip), Jump(vm, In, ip)], Without(list, At(vm, ip)), vm);
    PickedAlready(list, vm, ip);
  }

  lemma {:induction false} HeadsAreOwn(vm: nat, dir: Dir, ips: seq<nat>)
    ensures forall r :: r in Heads(vm, dir, ips) ==> Picked(Of(vm), r)
  {
    if ips != [] { HeadsAreOwn(vm, dir, ips[..|ips| - 1]); }
  }

  lemma RepairLeavesOthers(list: seq<Rule>, vm: nat)
    ensures Without(Repair(list, vm), Of(vm)) == Without(list, Of(vm))
  {
    hide Without;
    var inbound, outbound := Named(list, vm, In), Named(list, vm, Out);
    var ins, outs := Heads(vm, In, Missing(outbound, inbound)), Heads(vm, Out, Missing(inbound, outbound));
    HeadsAreOwn(vm, In, Missing(outbound, inbound));
    HeadsAreOwn(vm, Out, Missing(inbound, outbound));
    OwnOnTop(ins, list, vm);
    OwnOnTop(outs, ins + list, vm);
  }

  lemma JumpSwapLeavesOthers(list: seq<Rule>, vm: nat, ips: seq<nat>)
    ensures Without(JumpSwap(list, vm, ips), Of(vm)) == Without(list, Of(vm))
  {
    hide Without, Pairs;
    PairsAre(vm, ips);
    OwnOnTop(Pairs(vm, ips), Without(list, Of(vm)), vm);
    PickedAlready(list, vm, 0);
  }

  lemma {:induction false} EditsLeaveOthers(
      list: seq<Rule>, vm: nat, ips: seq<nat>, held: seq<nat>, keep: seq<nat>, gone: set<nat>)
    ensures Without(RaiseAll(list, vm, ips), Of(vm)) == Without(list, Of(vm))
    ensures Without(AddMissing(list, vm, ips, held), Of(vm)) == Without(list, Of(vm))
    ensures Without(DropGone(list, vm, ips, keep, gone), Of(vm)) == Without(list, Of(vm))
  {
    hide PutJumps, Without;
    if ips != [] {
      var init, last := ips[..|ips| - 1], ips[|ips| - 1];
      EditsLeaveOthers(list, vm, init, held, keep, gone);
      PutJumpsLeavesOthers(RaiseAll(list, vm, init), vm, last);
      PutJumpsLeavesOthers(AddMissing(list, vm, init, held), vm, last);
      PickedAlready(DropGone(list, vm, init, keep, gone), vm, last);
    }
  }

  lemma TendLeavesOthers(
      list: seq<Rule>, vm: nat, wanted: seq<nat>, forwarded: seq<nat>, gone: set<nat>, seen: seq<Rule>)
    ensures Without(Tend(list, vm, wanted, forwarded, gone, seen), Of(vm)) == Without(list, Of(vm))
  {
    hide AddMissing, DropGone, RaiseAll, OutOfPlace, Held, Without;
    var held, keep := Held(list, vm), wanted + forwarded;
    var added := AddMissing(list, vm, keep, held);
    EditsLeaveOthers(list, vm, keep, held, [], {});
    EditsLeaveOthers(added, vm, held, [], keep, gone);
    EditsLeaveOthers(DropGone(added, vm, held, keep, gone), vm, OutOfPlace(seen, vm), [], [], {});
  }

  lemma AcceptOnTop(list: seq<Rule>, f: Forward)
    ensures Without([AcceptOf(f)] + list, Of(f.vm)) == [AcceptOf(f)] + Without(list, Of(f.vm))
  {
    assert ([AcceptOf(f)] + list)[1..] == list;
  }

  /**
   An operation on one VM's firewall leaves every rule that is no jump to that VM's chains where it was among the
   others, and every other VM's chains and all forwards. A pass over a VM with nothing to have in force changes
   nothing.
   */
  lemma OthersStand(s: State, op: Op)
    requires op.ApplyRules? || op.Sync? || op.RemoveFirewall?
    ensures Without(Step(s, op).rules, Of(op.vm)) == Without(s.rules, Of(op.vm))
    ensures Step(s, op).chains - {op.vm} == s.chains - {op.vm} && Step(s, op).forwards == s.forwards
    ensures op.Sync? && !op.inForce ==> Step(s, op) == s
  {
    hide Tend, Repair, JumpSwap, Held, Without;
    match op
    case ApplyRules(vm, ips, _) =>
      PickedAlready(s.rules, vm, 0);
      JumpSwapLeavesOthers(s.rules, vm, Unique(ips + AddressesOf(s.forwards, vm) + Held(s.rules, vm)));
    case Sync(vm, _, intact, noted, wanted, gone, seen) =>
      var forwarded := AddressesOf(s.forwards, vm);
      var ips := Unique(noted + (wanted + forwarded));
      RepairLeavesOthers(s.rules, vm);
      JumpSwapLeavesOthers(s.rules, vm, ips);
      TendLeavesOthers(if vm in s.chains && intact then Repair(s.rules, vm) else JumpSwap(s.rules, vm, ips),
        vm, wanted, forwarded, gone, seen);
    case RemoveFirewall(vm) => PickedAlready(s.rules, vm, 0);
  }

  /** Adding a forward adds its ACCEPT to them, on top, and its record to the others. */
  lemma AddingAddsOnly(s: State, f: Forward)
    ensures var s' := Step(s, AddForward(f));
            && Without(s'.rules, Of(f.vm))
               == (if AcceptOf(f) in s.rules then [] else [AcceptOf(f)]) + Without(s.rules, Of(f.vm))
            && s'.chains == s.chains && s'.forwards == s.forwards + [f]
  {
    hide Repair, PutJumps, Without;
    var accepted := if AcceptOf(f) in s.rules then s.rules else [AcceptOf(f)] + s.rules;
    AcceptOnTop(s.rules, f);
    RepairLeavesOthers(accepted, f.vm);
    PutJumpsLeavesOthers(Repair(accepted, f.vm), f.vm, f.ip);
  }

  // ----- No jump without chains

  /** Taking a VM's firewall away, or applying no rules, leaves no jump to its chains in any form. */
  lemma NoFirewallLeft(s: State, op: Op, r: Rule)
    requires op.RemoveFirewall? || (op.ApplyRules? && op.noRules)
    requires r in Step(s, op).rules && (r.Jump? || r.OddJump?)
    ensures r.vm != op.vm && r in s.rules && op.vm !in Step(s, op).chains
  {
  }

  ghost predicate JumpsHaveChains(s: State) {
    forall r :: r in s.rules && r.Jump? ==> r.vm in s.chains
  }

  lemma StepKeepsJumps(s: State, op: Op)
    requires JumpsHaveChains(s) && CanHappen(s, op)
    ensures JumpsHaveChains(Step(s, op))
  {
    var s' := Step(s, op);
    forall r | r in s'.rules && r.Jump? ensures r.vm in s'.chains {
      match op
      case DeleteForward(id) =>
        if HasId(s.forwards, id) { RemoveFirstKeeps(s.rules, AcceptOf(FindId(s.forwards, id))); }
        assert r in s.rules;
      case Others(edited) =>
        assert r in Without(edited, NotOurs);
      case AddForward(f) =>
        AddingAddsOnly(s, f);
        if r.vm != f.vm { assert r in Without(s'.rules, Of(f.vm)); }
      case Sync(vm, inForce, _, _, _, _, _) =>
        OthersStand(s, op);
        if inForce { SyncHasChains(s, op); }
        hide Tend, Repair, JumpSwap;
        if r.vm != vm { assert r in Without(s'.rules, Of(vm)); }
      case _ =>
        OthersStand(s, op);
        hide JumpSwap;
        if r.vm != op.vm { assert r in Without(s'.rules, Of(op.vm)); }
    }
  }

  /** In every run from a list with no jumps, a jump in VirtPilot's own form is one to chains that are there. */
  lemma {:induction false} NoJumpWithoutChains(start: State, ops: seq<Op>)
    requires IsRun(start, ops) && forall r :: r in start.rules ==> !r.Jump?
    ensures JumpsHaveChains(Run(start, ops))
  {
    hide Step, CanHappen;
    if ops != [] {
      NoJumpWithoutChains(start, ops[..|ops| - 1]);
      StepKeepsJumps(Run(start, ops[..|ops| - 1]), ops[|ops| - 1]);
    }
  }

  // ----- Whose addresses a VM's firewall is on

  /** Applying rules puts them on the addresses it is given, those forwards name and those jumps were on, no others. */
  lemma ApplyLeaves(s: State, vm: nat, ips: seq<nat>, dir: Dir, ip: nat)
    ensures var s' := Step(s, ApplyRules(vm, ips, false));
            && vm in s'.chains && (forall r :: r in s'.rules && r.OddJump? ==> r.vm != vm)
            && (Jump(vm, dir, ip) in s'.rules
                <==> || ip in ips || (exists f :: f in s.forwards && f.vm == vm && f.ip == ip)
                     || NamedBy(s.rules, vm, In, ip) || NamedBy(s.rules, vm, Out, ip))
  {
    hide Pairs, Held, NamedBy;
    var all := Unique(ips + AddressesOf(s.forwards, vm) + Held(s.rules, vm));
    PairsAre(vm, all);
    HeldIs(s.rules, vm, ip);
    assert forall f :: f in s.forwards && f.vm == vm && f.ip == ip ==> ip in AddressesOf(s.forwards, vm);
  }

  lemma {:induction false} OnlyThesePut(list: seq<Rule>, vm: nat, ips: seq<nat>, held: seq<nat>, r: Rule)
    ensures r in RaiseAll(list, vm, ips) || r in AddMissing(list, vm, ips, held) ==>
              r in list || (r.Jump? && r.ip in ips)
  {
    if ips != [] {
      assert ips == ips[..|ips| - 1] + [ips[|ips| - 1]];
      OnlyThesePut(list, vm, ips[..|ips| - 1], held, r);
    }
  }

  lemma TendNamesNoNew(
      list: seq<Rule>, vm: nat, wanted: seq<nat>, forwarded: seq<nat>, gone: set<nat>, seen: seq<Rule>, ip: nat)
    requires !NamedBy(list, vm, In, ip) && !NamedBy(list, vm, Out, ip)
    requires ip !in wanted && ip !in forwarded && !Low(seen, vm, ip, false)
    ensures forall dir :: !NamedBy(Tend(list, vm, wanted, forwarded, gone, seen), vm, dir, ip)
  {
    hide AddMissing, DropGone, RaiseAll, OutOfPlace, Held, Low;
    OutOfPlaceIsLow(seen, vm, ip);
    var held, keep := Held(list, vm), wanted + forwarded;
    var added := AddMissing(list, vm, keep, held);
    var dropped := DropGone(added, vm, held, keep, gone);
    forall dir, r | r in Tend(list, vm, wanted, forwarded, gone, seen) && Names(r, vm, dir)
      ensures Address(r) != Some(ip)
    {
      OnlyThesePut(dropped, vm, OutOfPlace(seen, vm), held, r);
      if r in dropped { DropGoneAdds(added, vm, held, keep, gone, r); }
      OnlyThesePut(list, vm, keep, held, r);
      assert dir == In || dir == Out;
    }
  }

  lemma SwapNamesOnly(list: seq<Rule>, vm: nat, ips: seq<nat>, dir: Dir, ip: nat)
    requires ip !in ips
    ensures !NamedBy(JumpSwap(list, vm, ips), vm, dir, ip)
  {
    hide Pairs;
    PairsAre(vm, ips);
  }

  /** Whether a pass finds the VM's firewall on an address: in the list, or in its file where it has to be put back. */
  predicate FoundOn(s: State, op: Op, ip: nat)
    requires op.Sync?
  {
    if op.vm in s.chains && op.intact then NamedBy(s.rules, op.vm, In, ip) || NamedBy(s.rules, op.vm, Out, ip)
    else ip in op.noted
  }

  /**
   A pass leaves the rules in force, both ways, on every address it finds them on, wants them on or raises, unless
   there is evidence that it isn't the VM's; and it leaves them on no other.
   */
  lemma SyncLeaves(s: State, op: Op, ip: nat)
    requires op.Sync? && op.inForce && ip !in op.gone
    ensures var on := || FoundOn(s, op, ip) || ip in op.wanted || Low(op.seen, op.vm, ip, false)
                      || exists f :: f in s.forwards && f.vm == op.vm && f.ip == ip;
            if on then BothWays(Step(s, op).rules, op.vm, ip)
            else forall dir :: !NamedBy(Step(s, op).rules, op.vm, dir, ip)
  {
    hide Held, BothWays, Repair, JumpSwap, Low, NamedBy, AddMissing, DropGone, RaiseAll, OutOfPlace;
    var vm, forwarded := op.vm, AddressesOf(s.forwards, op.vm);
    var ips := Unique(op.noted + (op.wanted + forwarded));
    var list := if vm in s.chains && op.intact then Repair(s.rules, vm) else JumpSwap(s.rules, vm, ips);
    assert Step(s, op).rules == Tend(list, vm, op.wanted, forwarded, op.gone, op.seen);
    if ip in op.wanted || ip in forwarded {
      SyncCoversEveryAddress(s, op, ip);
    } else if Low(op.seen, vm, ip, false) {
      OutOfPlaceIsLow(op.seen, vm, ip);
      var held, keep := Held(list, vm), op.wanted + forwarded;
      var dropped := DropGone(AddMissing(list, vm, keep, held), vm, held, keep, op.gone);
      RaiseBothWays(dropped, vm, OutOfPlace(op.seen, vm), ip);
    } else if FoundOn(s, op, ip) {
      FoundIsHeld(s, op, ip, ips);
      TendBothWays(list, vm, op.wanted, forwarded, op.gone, op.seen, ip);
    } else {
      if vm in s.chains && op.intact {
        RepairNamesNoNew(s.rules, vm, In, ip);
        RepairNamesNoNew(s.rules, vm, Out, ip);
      } else {
        SwapNamesOnly(s.rules, vm, ips, In, ip);
        SwapNamesOnly(s.rules, vm, ips, Out, ip);
      }
      TendNamesNoNew(list, vm, op.wanted, forwarded, op.gone, op.seen, ip);
    }
  }

  /** Once the jumps are mended, or put back, it is on all these both ways. */
  lemma FoundIsHeld(s: State, op: Op, ip: nat, ips: seq<nat>)
    requires op.Sync? && FoundOn(s, op, ip) && (ip in op.noted ==> ip in ips)
    ensures var list := if op.vm in s.chains && op.intact then Repair(s.rules, op.vm)
                        else JumpSwap(s.rules, op.vm, ips);
            BothWays(list, op.vm, ip) && ip in Held(list, op.vm)
  {
    hide Repair, JumpSwap, Held, NamedBy;
    if op.vm in s.chains && op.intact {
      if NamedBy(s.rules, op.vm, In, ip) { RepairPairs(s.rules, op.vm, In, ip); }
      else { RepairPairs(s.rules, op.vm, Out, ip); }
      HeldIs(Repair(s.rules, op.vm), op.vm, ip);
    } else {
      SwapBothWays(s.rules, op.vm, ips, ip);
      HeldIs(JumpSwap(s.rules, op.vm, ips), op.vm, ip);
    }
  }
}
