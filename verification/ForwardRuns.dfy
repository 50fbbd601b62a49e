/**
 Runs of the operations that edit the FORWARD list: applying a VM's rules, adding and deleting port
 forwards, the regular pass, taking a firewall away, and other programs' edits, in any order.
 */
module ForwardRuns {
  import opened Wrappers
  import opened ForwardList

  // ----- Whole operations

  /** The list, the VMs whose chains are there, and the forwards on record. */
  datatype State = State(rules: seq<Rule>, chains: set<nat>, forwards: seq<Forward>)

  /**
   A completed operation. `ips` and `wanted` are the addresses the VM is found to have, `noted` those its firewall
   file notes, `gone` those with evidence that they aren't its own, and `seen` the list as the pass read it when it
   began.
   */
  datatype Op =
    | ApplyRules(vm: nat, ips: seq<nat>, noRules: bool)
    | AddForward(forward: Forward)
    | DeleteForward(id: nat)
    | Sync(vm: nat, inForce: bool, intact: bool, noted: seq<nat>, wanted: seq<nat>, gone: set<nat>, seen: seq<Rule>)
    | RemoveFirewall(vm: nat)
    | Others(edited: seq<Rule>)

  function AddressesOf(forwards: seq<Forward>, vm: nat): (ips: seq<nat>)
    ensures forall ip :: ip in ips <==> exists f :: f in forwards && f.vm == vm && f.ip == ip
  {
    if forwards == [] then []
    else
      var rest, f := AddressesOf(forwards[..|forwards| - 1], vm), forwards[|forwards| - 1];
      assert forwards == forwards[..|forwards| - 1] + [f];
      if f.vm == vm then rest + [f.ip] else rest
  }

  predicate HasId(forwards: seq<Forward>, id: nat) {
    exists f :: f in forwards && f.id == id
  }

  function FindId(forwards: seq<Forward>, id: nat): (f: Forward)
    requires HasId(forwards, id)
    ensures f in forwards && f.id == id
  {
    if forwards[0].id == id then forwards[0] else FindId(forwards[1..], id)
  }

  function NotId(forwards: seq<Forward>, id: nat): (rest: seq<Forward>)
    ensures forall f :: f in rest <==> f in forwards && f.id != id
  {
    if forwards == [] then []
    else if forwards[0].id == id then NotId(forwards[1..], id)
    else [forwards[0]] + NotId(forwards[1..], id)
  }

  function AddMissing(list: seq<Rule>, vm: nat, ips: seq<nat>, held: seq<nat>): seq<Rule> {
    if ips == [] then list
    else
      var rest, last := AddMissing(list, vm, ips[..|ips| - 1], held), ips[|ips| - 1];
      if last in held then rest else PutJumps(rest, vm, last)
  }

  function DropGone(list: seq<Rule>, vm: nat, held: seq<nat>, keep: seq<nat>, gone: set<nat>): seq<Rule> {
    if held == [] then list
    else
      var rest, last := DropGone(list, vm, held[..|held| - 1], keep, gone), held[|held| - 1];
      if last in keep || last !in gone then rest else Without(rest, At(vm, last))
  }

  /** What a pass does once the VM's chains are known to be there. */
  function Tend(
      list: seq<Rule>, vm: nat, wanted: seq<nat>, forwarded: seq<nat>, gone: set<nat>, seen: seq<Rule>): seq<Rule>
  {
    var held := Held(list, vm);
    var added := AddMissing(list, vm, wanted + forwarded, held);
    RaiseAll(DropGone(added, vm, held, wanted + forwarded, gone), vm, OutOfPlace(seen, vm))
  }

  function Step(s: State, op: Op): State {
    match op
    case ApplyRules(vm, ips, noRules) =>
      if noRules then State(Without(s.rules, Of(vm)), s.chains - {vm}, s.forwards)
      else
        var all := Unique(ips + AddressesOf(s.forwards, vm) + Held(s.rules, vm));
        State(JumpSwap(s.rules, vm, all), s.chains + {vm}, s.forwards)
    case AddForward(f) =>
      var accepted := if AcceptOf(f) in s.rules then s.rules else [AcceptOf(f)] + s.rules;
      var rules := if f.vm in s.chains then PutJumps(Repair(accepted, f.vm), f.vm, f.ip) else accepted;
      State(rules, s.chains, s.forwards + [f])
    case DeleteForward(id) =>
      if !HasId(s.forwards, id) then s
      else State(RemoveFirst(s.rules, AcceptOf(FindId(s.forwards, id))), s.chains, NotId(s.forwards, id))
    case Sync(vm, inForce, intact, noted, wanted, gone, seen) =>
      if !inForce then s
      else
        var forwarded := AddressesOf(s.forwards, vm);
        var list := if vm in s.chains && intact then Repair(s.rules, vm)
                    else JumpSwap(s.rules, vm, Unique(noted + (wanted + forwarded)));
        State(Tend(list, vm, wanted, forwarded, gone, seen), s.chains + {vm}, s.forwards)
    case RemoveFirewall(vm) => State(Without(s.rules, Of(vm)), s.chains - {vm}, s.forwards)
    case Others(edited) => State(edited, s.chains, s.forwards)
  }

  /** Forwards get ids never used; other programs leave VirtPilot's jumps and forwards' ACCEPTs as they stand. */
  predicate CanHappen(s: State, op: Op) {
    match op
    case AddForward(f) => !HasId(s.forwards, f.id)
    case Others(edited) => Without(edited, NotOurs) == Without(s.rules, NotOurs)
    case _ => true
  }

  function Run(start: State, ops: seq<Op>): State {
    if ops == [] then start else Step(Run(start, ops[..|ops| - 1]), ops[|ops| - 1])
  }

  predicate IsRun(start: State, ops: seq<Op>) {
    ops == [] || (IsRun(start, ops[..|ops| - 1]) && CanHappen(Run(start, ops[..|ops| - 1]), ops[|ops| - 1]))
  }

  // ----- A forward's ACCEPT under its VM's jumps

  /** The list has j, and before every a. */
  predicate Above(list: seq<Rule>, j: Rule, a: Rule) {
    list != [] && list[0] != a && (list[0] == j || Above(list[1..], j, a))
  }

  lemma {:induction false} AboveIs(list: seq<Rule>, j: Rule, a: Rule)
    requires j != a
    ensures Above(list, j, a) <==> exists i :: 0 <= i < |list| && list[i] == j && a !in list[..i]
  {
    if list != [] {
      AboveIs(list[1..], j, a);
      if Above(list[1..], j, a) && list[0] != a {
        var i :| 0 <= i < |list| - 1 && list[1..][i] == j && a !in list[1..][..i];
        assert list[..i + 1] == [list[0]] + list[1..][..i];
        assert list[i + 1] == j;
      }
      if i :| 0 <= i < |list| && list[i] == j && a !in list[..i] {
        if i == 0 {
        } else {
          assert list[..i][0] == list[0];
          assert list[1..][i - 1] == j;
          assert forall x :: x in list[1..][..i - 1] ==> x in list[..i];
        }
      }
    }
  }

  lemma {:induction false} AboveWithout(list: seq<Rule>, p: Pick, j: Rule, a: Rule)
    requires Above(list, j, a) && !Picked(p, j)
    ensures Above(Without(list, p), j, a)
  {
    if list[0] != j {
      AboveWithout(list[1..], p, j, a);
    }
  }

  lemma {:induction false} AboveOurs(list: seq<Rule>, j: Rule, a: Rule)
    requires j.Jump? && a.Accept?
    ensures Above(list, j, a) <==> Above(Without(list, NotOurs), j, a)
  {
    if list != [] {
      AboveOurs(list[1..], j, a);
      if !Picked(NotOurs, list[0]) {
        assert Without(list, NotOurs)[1..] == Without(list[1..], NotOurs);
      }
    }
  }

  lemma {:induction false} AbovePrefix(pre: seq<Rule>, list: seq<Rule>, j: Rule, a: Rule)
    requires a !in pre && (j in pre || Above(list, j, a))
    ensures Above(pre + list, j, a)
  {
    if pre == [] {
      assert pre + list == list;
    } else {
      assert (pre + list)[0] == pre[0] && (pre + list)[1..] == pre[1..] + list;
      assert pre[0] in pre;
      if pre[0] != j {
        assert j in pre ==> j in pre[1..];
        AbovePrefix(pre[1..], list, j, a);
      }
    }
  }

  lemma {:induction false} AboveRemoveFirst(list: seq<Rule>, x: Rule, j: Rule, a: Rule)
    requires Above(list, j, a) && x != j
    ensures Above(RemoveFirst(list, x), j, a)
  {
    if list[0] != j && list[0] != x {
      AboveRemoveFirst(list[1..], x, j, a);
    }
  }

  lemma {:induction false} RemoveFirstKeeps(list: seq<Rule>, x: Rule)
    ensures forall r :: r != x ==> (r in RemoveFirst(list, x) <==> r in list)
  {
    if list != [] {
      RemoveFirstKeeps(list[1..], x);
      assert list == [list[0]] + list[1..];
    }
  }

  // ----- What keeps a jump above an ACCEPT

  lemma PutJumpsKeeps(list: seq<Rule>, vm: nat, ip: nat, j: Rule, a: Rule)
    requires j.Jump? && a.Accept? && (Above(list, j, a) || (j.vm == vm && j.ip == ip))
    ensures Above(PutJumps(list, vm, ip), j, a)
  {
    hide Above;
    if j.vm == vm && j.ip == ip {
      assert j in [Jump(vm, Out, ip), Jump(vm, In, ip)] by { assert j.dir == In || j.dir == Out; }
    } else {
      AboveWithout(list, At(vm, ip), j, a);
    }
    AbovePrefix([Jump(vm, Out, ip), Jump(vm, In, ip)], Without(list, At(vm, ip)), j, a);
  }

  lemma {:induction false} HeadsAreJumps(vm: nat, dir: Dir, ips: seq<nat>)
    ensures forall r :: r in Heads(vm, dir, ips) ==> r.Jump?
  {
    if ips != [] { HeadsAreJumps(vm, dir, ips[..|ips| - 1]); }
  }

  lemma RepairKeeps(list: seq<Rule>, vm: nat, j: Rule, a: Rule)
    requires a.Accept? && Above(list, j, a)
    ensures Above(Repair(list, vm), j, a)
  {
    hide Above, Heads, Named, Missing;
    var inbound, outbound := Named(list, vm, In), Named(list, vm, Out);
    var ins, outs := Heads(vm, In, Missing(outbound, inbound)), Heads(vm, Out, Missing(inbound, outbound));
    HeadsAreJumps(vm, In, Missing(outbound, inbound));
    HeadsAreJumps(vm, Out, Missing(inbound, outbound));
    AbovePrefix(ins, list, j, a);
    AbovePrefix(outs, ins + list, j, a);
  }

  lemma JumpSwapKeeps(list: seq<Rule>, vm: nat, ips: seq<nat>, j: Rule, a: Rule)
    requires j.Jump? && a.Accept? && (if j.vm == vm then j.ip in ips else Above(list, j, a))
    ensures Above(JumpSwap(list, vm, ips), j, a)
  {
    hide Above, Pairs, Without;
    PairsAre(vm, ips);
    if j.vm != vm { AboveWithout(list, Of(vm), j, a); }
    AbovePrefix(Pairs(vm, ips), Without(list, Of(vm)), j, a);
  }

  lemma {:induction false} RaiseKeeps(list: seq<Rule>, vm: nat, ips: seq<nat>, j: Rule, a: Rule)
    requires j.Jump? && a.Accept? && Above(list, j, a)
    ensures Above(RaiseAll(list, vm, ips), j, a)
  {
    hide Above, PutJumps;
    if ips != [] {
      RaiseKeeps(list, vm, ips[..|ips| - 1], j, a);
      PutJumpsKeeps(RaiseAll(list, vm, ips[..|ips| - 1]), vm, ips[|ips| - 1], j, a);
    }
  }

  lemma {:induction false} AddMissingKeeps(list: seq<Rule>, vm: nat, ips: seq<nat>, held: seq<nat>, j: Rule, a: Rule)
    requires j.Jump? && a.Accept? && Above(list, j, a)
    ensures Above(AddMissing(list, vm, ips, held), j, a)
  {
    hide Above, PutJumps;
    if ips != [] {
      AddMissingKeeps(list, vm, ips[..|ips| - 1], held, j, a);
      PutJumpsKeeps(AddMissing(list, vm, ips[..|ips| - 1], held), vm, ips[|ips| - 1], j, a);
    }
  }

  lemma {:induction false} DropGoneKeeps(
      list: seq<Rule>, vm: nat, held: seq<nat>, keep: seq<nat>, gone: set<nat>, j: Rule, a: Rule)
    requires j.Jump? && a.Accept? && Above(list, j, a) && (j.vm == vm ==> j.ip in keep)
    ensures Above(DropGone(list, vm, held, keep, gone), j, a)
  {
    hide Above;
    if held != [] {
      var rest, last := DropGone(list, vm, held[..|held| - 1], keep, gone), held[|held| - 1];
      DropGoneKeeps(list, vm, held[..|held| - 1], keep, gone, j, a);
      if last !in keep { AboveWithout(rest, At(vm, last), j, a); }
    }
  }

  lemma TendKeeps(
      list: seq<Rule>, vm: nat, wanted: seq<nat>, forwarded: seq<nat>, gone: set<nat>, seen: seq<Rule>, j: Rule,
      a: Rule)
    requires j.Jump? && a.Accept? && Above(list, j, a) && (j.vm == vm ==> j.ip in forwarded)
    ensures Above(Tend(list, vm, wanted, forwarded, gone, seen), j, a)
  {
    hide Above, AddMissing, DropGone, RaiseAll, OutOfPlace, Held;
    var held := Held(list, vm);
    AddMissingKeeps(list, vm, wanted + forwarded, held, j, a);
    var added := AddMissing(list, vm, wanted + forwarded, held);
    DropGoneKeeps(added, vm, held, wanted + forwarded, gone, j, a);
    RaiseKeeps(DropGone(added, vm, held, wanted + forwarded, gone), vm, OutOfPlace(seen, vm), j, a);
  }

  // ----- Every run

  /** Every forward of a VM with chains has both its jumps, above its ACCEPT. */
  ghost predicate Covered(s: State) {
    forall f, dir :: f in s.forwards && f.vm in s.chains ==> Above(s.rules, Jump(f.vm, dir, f.ip), AcceptOf(f))
  }

  /** No two forwards have an id. */
  ghost predicate OwnIds(s: State) {
    forall f, g :: f in s.forwards && g in s.forwards && f.id == g.id ==> f == g
  }

  lemma ApplyCovers(s: State, op: Op)
    requires Covered(s) && op.ApplyRules?
    ensures Covered(Step(s, op))
  {
    hide Above, JumpSwap, Without, Held;
    var s' := Step(s, op);
    forall f, dir | f in s'.forwards && f.vm in s'.chains ensures Above(s'.rules, Jump(f.vm, dir, f.ip), AcceptOf(f)) {
      if op.noRules {
        AboveWithout(s.rules, Of(op.vm), Jump(f.vm, dir, f.ip), AcceptOf(f));
      } else {
        var all := Unique(op.ips + AddressesOf(s.forwards, op.vm) + Held(s.rules, op.vm));
        if f.vm == op.vm { assert f.ip in AddressesOf(s.forwards, op.vm) && f.ip in all; }
        JumpSwapKeeps(s.rules, op.vm, all, Jump(f.vm, dir, f.ip), AcceptOf(f));
      }
    }
  }

  lemma AddForwardCovers(s: State, op: Op)
    requires Covered(s) && op.AddForward? && CanHappen(s, op)
    ensures Covered(Step(s, op))
  {
    hide Above, PutJumps, Repair;
    var s', new_ := Step(s, op), op.forward;
    var accepted := if AcceptOf(new_) in s.rules then s.rules else [AcceptOf(new_)] + s.rules;
    forall f, dir | f in s'.forwards && f.vm in s'.chains ensures Above(s'.rules, Jump(f.vm, dir, f.ip), AcceptOf(f)) {
      var j, a := Jump(f.vm, dir, f.ip), AcceptOf(f);
      if f in s.forwards {
        assert a != AcceptOf(new_);
        AbovePrefix([AcceptOf(new_)], s.rules, j, a);
        if new_.vm in s.chains {
          RepairKeeps(accepted, new_.vm, j, a);
          PutJumpsKeeps(Repair(accepted, new_.vm), new_.vm, new_.ip, j, a);
        }
      } else {
        PutJumpsKeeps(Repair(accepted, new_.vm), new_.vm, new_.ip, j, a);
      }
    }
  }

  lemma SyncCovers(s: State, op: Op)
    requires Covered(s) && op.Sync?
    ensures Covered(Step(s, op))
  {
    hide Above, JumpSwap, Repair, Tend;
    var s', vm := Step(s, op), op.vm;
    if op.inForce {
      var forwarded := AddressesOf(s.forwards, vm);
      var ips := Unique(op.noted + (op.wanted + forwarded));
      var list := if vm in s.chains && op.intact then Repair(s.rules, vm) else JumpSwap(s.rules, vm, ips);
      forall f, dir | f in s'.forwards && f.vm in s'.chains
        ensures Above(s'.rules, Jump(f.vm, dir, f.ip), AcceptOf(f))
      {
        var j, a := Jump(f.vm, dir, f.ip), AcceptOf(f);
        if f.vm == vm { assert f.ip in forwarded && f.ip in ips; }
        if vm in s.chains && op.intact {
          RepairKeeps(s.rules, vm, j, a);
        } else {
          JumpSwapKeeps(s.rules, vm, ips, j, a);
        }
        TendKeeps(list, vm, op.wanted, forwarded, op.gone, op.seen, j, a);
      }
    }
  }

  lemma StepCovers(s: State, op: Op)
    requires Covered(s) && CanHappen(s, op)
    ensures Covered(Step(s, op))
  {
    match op
    case ApplyRules(_, _, _) => ApplyCovers(s, op);
    case AddForward(_) => AddForwardCovers(s, op);
    case Sync(_, _, _, _, _, _, _) => SyncCovers(s, op);
    case DeleteForward(id) =>
      hide Above;
      if HasId(s.forwards, id) {
        var x := AcceptOf(FindId(s.forwards, id));
        forall f, dir | f in NotId(s.forwards, id) && f.vm in s.chains
          ensures Above(RemoveFirst(s.rules, x), Jump(f.vm, dir, f.ip), AcceptOf(f))
        {
          AboveRemoveFirst(s.rules, x, Jump(f.vm, dir, f.ip), AcceptOf(f));
        }
      }
    case RemoveFirewall(vm) =>
      hide Above;
      forall f, dir | f in s.forwards && f.vm in s.chains - {vm}
        ensures Above(Without(s.rules, Of(vm)), Jump(f.vm, dir, f.ip), AcceptOf(f))
      {
        AboveWithout(s.rules, Of(vm), Jump(f.vm, dir, f.ip), AcceptOf(f));
      }
    case Others(edited) =>
      hide Above, Without;
      forall f, dir | f in s.forwards && f.vm in s.chains ensures Above(edited, Jump(f.vm, dir, f.ip), AcceptOf(f)) {
        AboveOurs(s.rules, Jump(f.vm, dir, f.ip), AcceptOf(f));
        AboveOurs(edited, Jump(f.vm, dir, f.ip), AcceptOf(f));
      }
  }

  /**
   In every run, whatever the order: a VM with chains has both its jumps for each of its forwards, above that
   forward's ACCEPT.
   */
  lemma {:induction false} ForwardsStayUnderTheFirewall(start: State, ops: seq<Op>)
    requires start.chains == {} && IsRun(start, ops)
    ensures Covered(Run(start, ops))
  {
    hide Covered, Step, CanHappen;
    if ops == [] {
      assert Covered(start) by { NothingToCover(start); }
    } else {
      ForwardsStayUnderTheFirewall(start, ops[..|ops| - 1]);
      StepCovers(Run(start, ops[..|ops| - 1]), ops[|ops| - 1]);
    }
  }

  lemma NothingToCover(s: State)
    requires s.chains == {}
    ensures Covered(s)
  {
  }

  // ----- The ACCEPTs themselves

  /** Every forward on record has its ACCEPT in the list. */
  ghost predicate Standing(s: State) {
    OwnIds(s) && forall f :: f in s.forwards ==> AcceptOf(f) in s.rules
  }

  lemma {:induction false} EditsKeepAccepts(
      list: seq<Rule>, vm: nat, ips: seq<nat>, held: seq<nat>, keep: seq<nat>, gone: set<nat>, a: Rule)
    requires a.Accept? && a in list
    ensures a in RaiseAll(list, vm, ips) && a in AddMissing(list, vm, ips, held)
            && a in DropGone(list, vm, ips, keep, gone)
  {
    if ips != [] { EditsKeepAccepts(list, vm, ips[..|ips| - 1], held, keep, gone, a); }
  }

  lemma TendKeepsAccepts(
      list: seq<Rule>, vm: nat, wanted: seq<nat>, forwarded: seq<nat>, gone: set<nat>, seen: seq<Rule>, a: Rule)
    requires a.Accept? && a in list
    ensures a in Tend(list, vm, wanted, forwarded, gone, seen)
  {
    hide AddMissing, DropGone, RaiseAll, OutOfPlace, Held;
    var held := Held(list, vm);
    EditsKeepAccepts(list, vm, wanted + forwarded, held, [], gone, a);
    var added := AddMissing(list, vm, wanted + forwarded, held);
    EditsKeepAccepts(added, vm, held, [], wanted + forwarded, gone, a);
    EditsKeepAccepts(DropGone(added, vm, held, wanted + forwarded, gone), vm, OutOfPlace(seen, vm), [], [], gone, a);
  }

  lemma StepKeepsAccepts(s: State, op: Op)
    requires Standing(s) && CanHappen(s, op)
    ensures Standing(Step(s, op))
  {
    hide Tend, Held, Heads, Pairs, Missing, Named;
    forall f | f in s.forwards && f in Step(s, op).forwards ensures AcceptOf(f) in Step(s, op).rules {
      var a := AcceptOf(f);
      match op
      case DeleteForward(id) =>
        if HasId(s.forwards, id) { RemoveFirstKeeps(s.rules, AcceptOf(FindId(s.forwards, id))); }
      case Sync(vm, _, intact, noted, wanted, gone, seen) =>
        var forwarded := AddressesOf(s.forwards, vm);
        var list := if vm in s.chains && intact then Repair(s.rules, vm)
            else JumpSwap(s.rules, vm, Unique(noted + (wanted + forwarded)));
        TendKeepsAccepts(list, vm, wanted, forwarded, gone, seen, a);
      case Others(edited) =>
        assert a in Without(s.rules, NotOurs);
      case _ =>
    }
  }

  /** In every run each forward's ACCEPT is there, from its creation until it is deleted. */
  lemma {:induction false} ForwardsStand(start: State, ops: seq<Op>)
    requires Standing(start) && IsRun(start, ops)
    ensures Standing(Run(start, ops))
  {
    hide Standing, Step, CanHappen;
    if ops != [] {
      ForwardsStand(start, ops[..|ops| - 1]);
      StepKeepsAccepts(Run(start, ops[..|ops| - 1]), ops[|ops| - 1]);
    }
  }

  // ----- What a pass leaves a VM with

  predicate NamedBy(list: seq<Rule>, vm: nat, dir: Dir, ip: nat) {
    exists r :: r in list && Names(r, vm, dir) && Address(r) == Some(ip)
  }

  /** Filtered both ways. */
  predicate BothWays(list: seq<Rule>, vm: nat, ip: nat) {
    NamedBy(list, vm, In, ip) && NamedBy(list, vm, Out, ip)
  }

  lemma {:induction false} NamedIs(list: seq<Rule>, vm: nat, dir: Dir, ip: nat)
    ensures ip in Named(list, vm, dir) <==> NamedBy(list, vm, dir, ip)
  {
    if list != [] {
      NamedIs(list[..|list| - 1], vm, dir, ip);
      assert list == list[..|list| - 1] + [list[|list| - 1]];
    }
  }

  lemma {:induction false} MissingIs(from: seq<nat>, to: seq<nat>, x: nat)
    ensures x in Missing(from, to) <==> x in from && x !in to
  {
    if from != [] {
      MissingIs(from[..|from| - 1], to, x);
      assert from == from[..|from| - 1] + [from[|from| - 1]];
    }
  }

  lemma {:induction false} HeadsHave(vm: nat, dir: Dir, ips: seq<nat>, ip: nat)
    requires ip in ips
    ensures Jump(vm, dir, ip) in Heads(vm, dir, ips)
  {
    if ips[|ips| - 1] != ip {
      assert ips == ips[..|ips| - 1] + [ips[|ips| - 1]];
      HeadsHave(vm, dir, ips[..|ips| - 1], ip);
    }
  }

  /** Repairing gives the other of a pair to every address that had one. */
  lemma RepairPairs(list: seq<Rule>, vm: nat, dir: Dir, ip: nat)
    requires NamedBy(list, vm, dir, ip)
    ensures BothWays(Repair(list, vm), vm, ip)
  {
    hide Named, Missing, Heads;
    var inbound, outbound := Named(list, vm, In), Named(list, vm, Out);
    NamedIs(list, vm, In, ip);
    NamedIs(list, vm, Out, ip);
    MissingIs(inbound, outbound, ip);
    MissingIs(outbound, inbound, ip);
    var ins, outs := Heads(vm, In, Missing(outbound, inbound)), Heads(vm, Out, Missing(inbound, outbound));
    if ip in Missing(outbound, inbound) { HeadsHave(vm, In, Missing(outbound, inbound), ip); }
    if ip in Missing(inbound, outbound) { HeadsHave(vm, Out, Missing(inbound, outbound), ip); }
    assert forall r :: r in Repair(list, vm) <==> r in outs || r in ins || r in list;
    assert Names(Jump(vm, In, ip), vm, In) && Names(Jump(vm, Out, ip), vm, Out);
    assert NamedBy(list, vm, In, ip) || Jump(vm, In, ip) in ins;
    assert NamedBy(list, vm, Out, ip) || Jump(vm, Out, ip) in outs;
  }

  lemma PutJumpsBothWays(list: seq<Rule>, vm: nat, x: nat, ip: nat)
    requires x == ip || BothWays(list, vm, ip)
    ensures BothWays(PutJumps(list, vm, x), vm, ip)
  {
    var put := PutJumps(list, vm, x);
    if x == ip {
      assert Jump(vm, In, ip) in put && Jump(vm, Out, ip) in put;
    } else {
      forall r | r in list && Address(r) == Some(ip) ensures r in put {
        assert r in Without(list, At(vm, x));
      }
    }
  }

  lemma {:induction false} RaiseBothWays(list: seq<Rule>, vm: nat, ips: seq<nat>, ip: nat)
    requires ip in ips || BothWays(list, vm, ip)
    ensures BothWays(RaiseAll(list, vm, ips), vm, ip)
  {
    hide PutJumps, BothWays;
    if ips != [] {
      var init, last := ips[..|ips| - 1], ips[|ips| - 1];
      assert ips == init + [last];
      if last != ip { RaiseBothWays(list, vm, init, ip); }
      PutJumpsBothWays(RaiseAll(list, vm, init), vm, last, ip);
    }
  }

  lemma {:induction false} AddMissingBothWays(list: seq<Rule>, vm: nat, ips: seq<nat>, held: seq<nat>, ip: nat)
    requires (ip in ips && ip !in held) || BothWays(list, vm, ip)
    ensures BothWays(AddMissing(list, vm, ips, held), vm, ip)
  {
    hide PutJumps, BothWays;
    if ips != [] {
      var init, last := ips[..|ips| - 1], ips[|ips| - 1];
      assert ips == init + [last];
      if last != ip || last in held { AddMissingBothWays(list, vm, init, held, ip); }
      if last !in held { PutJumpsBothWays(AddMissing(list, vm, init, held), vm, last, ip); }
    }
  }

  lemma {:induction false} DropGoneBothWays(
      list: seq<Rule>, vm: nat, held: seq<nat>, keep: seq<nat>, gone: set<nat>, ip: nat)
    requires (ip in keep || ip !in gone) && BothWays(list, vm, ip)
    ensures BothWays(DropGone(list, vm, held, keep, gone), vm, ip)
  {
    if held != [] {
      var rest, last := DropGone(list, vm, held[..|held| - 1], keep, gone), held[|held| - 1];
      DropGoneBothWays(list, vm, held[..|held| - 1], keep, gone, ip);
      if last !in keep && last in gone {
        forall r | r in rest && Address(r) == Some(ip) ensures r in Without(rest, At(vm, last)) {
        }
      }
    }
  }

  lemma HeldIs(list: seq<Rule>, vm: nat, ip: nat)
    ensures ip in Held(list, vm) <==> NamedBy(list, vm, In, ip) || NamedBy(list, vm, Out, ip)
  {
    hide Named;
    NamedIs(list, vm, In, ip);
    NamedIs(list, vm, Out, ip);
  }

  /** An address the VM is to have is named both ways in the end, and so is one named so before that isn't gone. */
  lemma TendBothWays(
      list: seq<Rule>, vm: nat, wanted: seq<nat>, forwarded: seq<nat>, gone: set<nat>, seen: seq<Rule>, ip: nat)
    requires ip in Held(list, vm) ==> BothWays(list, vm, ip)
    requires ip in wanted + forwarded || (ip in Held(list, vm) && ip !in gone)
    ensures BothWays(Tend(list, vm, wanted, forwarded, gone, seen), vm, ip)
  {
    hide AddMissing, DropGone, RaiseAll, OutOfPlace, Held, BothWays;
    var held := Held(list, vm);
    AddMissingBothWays(list, vm, wanted + forwarded, held, ip);
    var added := AddMissing(list, vm, wanted + forwarded, held);
    DropGoneBothWays(added, vm, held, wanted + forwarded, gone, ip);
    RaiseBothWays(DropGone(added, vm, held, wanted + forwarded, gone), vm, OutOfPlace(seen, vm), ip);
  }

  /**
   After a pass, rules in force are on every address the VM has and every one its forwards name, both ways,
   whatever was lost before.
   */
  lemma SyncCoversEveryAddress(s: State, op: Op, ip: nat)
    requires op.Sync? && op.inForce && (ip in op.wanted || ip in AddressesOf(s.forwards, op.vm))
    ensures BothWays(Step(s, op).rules, op.vm, ip)
  {
    hide Tend, Held, BothWays, Repair, JumpSwap;
    var vm, forwarded := op.vm, AddressesOf(s.forwards, op.vm);
    if vm in s.chains && op.intact {
      var list := Repair(s.rules, vm);
      if ip in Held(list, vm) { RepairHeldPairs(s.rules, vm, ip); }
      TendBothWays(list, vm, op.wanted, forwarded, op.gone, op.seen, ip);
    } else {
      var ips := Unique(op.noted + (op.wanted + forwarded));
      assert ip in ips;
      SwapBothWays(s.rules, vm, ips, ip);
      TendBothWays(JumpSwap(s.rules, vm, ips), vm, op.wanted, forwarded, op.gone, op.seen, ip);
    }
  }

  /** And the VM's chains are there. */
  lemma SyncHasChains(s: State, op: Op)
    requires op.Sync? && op.inForce
    ensures op.vm in Step(s, op).chains
  {
    hide Tend;
  }

  lemma SwapBothWays(list: seq<Rule>, vm: nat, ips: seq<nat>, ip: nat)
    requires ip in ips
    ensures BothWays(JumpSwap(list, vm, ips), vm, ip)
  {
    hide Pairs, Without;
    PairsAre(vm, ips);
    assert Jump(vm, In, ip) in JumpSwap(list, vm, ips) && Jump(vm, Out, ip) in JumpSwap(list, vm, ips);
  }

  lemma RepairHeldPairs(list: seq<Rule>, vm: nat, ip: nat)
    requires ip in Held(Repair(list, vm), vm)
    ensures BothWays(Repair(list, vm), vm, ip)
  {
    hide Named, Missing, Heads, Held, BothWays;
    HeldIs(Repair(list, vm), vm, ip);
    if NamedBy(list, vm, In, ip) {
      RepairPairs(list, vm, In, ip);
    } else if NamedBy(list, vm, Out, ip) {
      RepairPairs(list, vm, Out, ip);
    } else {
      RepairNamesNoNew(list, vm, In, ip);
      RepairNamesNoNew(list, vm, Out, ip);
    }
  }

  lemma RepairNamesNoNew(list: seq<Rule>, vm: nat, dir: Dir, ip: nat)
    requires !NamedBy(list, vm, In, ip) && !NamedBy(list, vm, Out, ip)
    ensures !NamedBy(Repair(list, vm), vm, dir, ip)
  {
    hide Named, Missing, Heads;
    var inbound, outbound := Named(list, vm, In), Named(list, vm, Out);
    NamedIs(list, vm, In, ip);
    NamedIs(list, vm, Out, ip);
    MissingIs(outbound, inbound, ip);
    MissingIs(inbound, outbound, ip);
    var ins, outs := Heads(vm, In, Missing(outbound, inbound)), Heads(vm, Out, Missing(inbound, outbound));
    forall r | r in Repair(list, vm) && Names(r, vm, dir) ensures Address(r) != Some(ip) {
      if r in ins { HeadsName(vm, In, Missing(outbound, inbound), r); }
      if r in outs { HeadsName(vm, Out, Missing(inbound, outbound), r); }
      if r in list { assert r.dir == In || r.dir == Out; }
    }
  }

  lemma {:induction false} HeadsName(vm: nat, dir: Dir, ips: seq<nat>, r: Rule)
    requires r in Heads(vm, dir, ips)
    ensures r.Jump? && r.ip in ips
  {
    if r != Heads(vm, dir, ips)[0] { HeadsName(vm, dir, ips[..|ips| - 1], r); }
  }

  lemma {:induction false} DropGoneDrops(
      list: seq<Rule>, vm: nat, held: seq<nat>, keep: seq<nat>, gone: set<nat>, dir: Dir, ip: nat)
    requires ip in held && ip !in keep && ip in gone
    ensures Jump(vm, dir, ip) !in DropGone(list, vm, held, keep, gone)
  {
    var init, last := held[..|held| - 1], held[|held| - 1];
    assert held == init + [last];
    if last != ip { DropGoneDrops(list, vm, init, keep, gone, dir, ip); }
  }

  lemma {:induction false} RaiseAdds(list: seq<Rule>, vm: nat, ips: seq<nat>, dir: Dir, ip: nat)
    ensures Jump(vm, dir, ip) in RaiseAll(list, vm, ips) <==> Jump(vm, dir, ip) in list || ip in ips
  {
    if ips != [] {
      var init, last := ips[..|ips| - 1], ips[|ips| - 1];
      assert ips == init + [last];
      RaiseAdds(list, vm, init, dir, ip);
      assert dir == In || dir == Out;
    }
  }

  lemma {:induction false} AddMissingAdds(list: seq<Rule>, vm: nat, ips: seq<nat>, held: seq<nat>, dir: Dir, ip: nat)
    requires ip !in ips
    ensures Jump(vm, dir, ip) in AddMissing(list, vm, ips, held) <==> Jump(vm, dir, ip) in list
  {
    if ips != [] {
      assert ips == ips[..|ips| - 1] + [ips[|ips| - 1]];
      AddMissingAdds(list, vm, ips[..|ips| - 1], held, dir, ip);
    }
  }

  lemma {:induction false} DropGoneAdds(
      list: seq<Rule>, vm: nat, held: seq<nat>, keep: seq<nat>, gone: set<nat>, r: Rule)
    requires r in DropGone(list, vm, held, keep, gone)
    ensures r in list
  {
    if held != [] { DropGoneAdds(list, vm, held[..|held| - 1], keep, gone, r); }
  }

  lemma JumpIsHeld(list: seq<Rule>, vm: nat, dir: Dir, ip: nat)
    requires Jump(vm, dir, ip) in list
    ensures ip in Held(list, vm)
  {
    hide Held;
    assert dir == In || dir == Out;
    assert Names(Jump(vm, dir, ip), vm, dir);
    HeldIs(list, vm, ip);
  }

  /** Before it raises anything, a pass has taken an address that isn't the VM's off. */
  lemma DroppedIsOff(list: seq<Rule>, vm: nat, keep: seq<nat>, gone: set<nat>, dir: Dir, ip: nat)
    requires ip in gone && ip !in keep
    ensures var held := Held(list, vm);
            Jump(vm, dir, ip) !in DropGone(AddMissing(list, vm, keep, held), vm, held, keep, gone)
  {
    hide AddMissing, DropGone, Held;
    var held := Held(list, vm);
    var added := AddMissing(list, vm, keep, held);
    if ip in held {
      DropGoneDrops(added, vm, held, keep, gone, dir, ip);
    } else {
      AddMissingAdds(list, vm, keep, held, dir, ip);
      if Jump(vm, dir, ip) in list { JumpIsHeld(list, vm, dir, ip); }
      if Jump(vm, dir, ip) in DropGone(added, vm, held, keep, gone) {
        DropGoneAdds(added, vm, held, keep, gone, Jump(vm, dir, ip));
      }
    }
  }

  /**
   An address with evidence that it isn't the VM's has jumps of the VM's when a pass ends exactly when it had some
   under something in the list as read when the pass began: raising goes by that reading.
   */
  lemma DroppedComesBackIff(s: State, op: Op, dir: Dir, ip: nat)
    requires op.Sync? && op.inForce
    requires ip in op.gone && ip !in op.wanted && ip !in AddressesOf(s.forwards, op.vm)
    ensures Jump(op.vm, dir, ip) in Step(s, op).rules <==> Low(op.seen, op.vm, ip, false)
  {
    hide AddMissing, DropGone, RaiseAll, OutOfPlace, Held, Low, Repair, JumpSwap;
    var vm, forwarded := op.vm, AddressesOf(s.forwards, op.vm);
    var list := if vm in s.chains && op.intact then Repair(s.rules, vm)
                else JumpSwap(s.rules, vm, Unique(op.noted + (op.wanted + forwarded)));
    var held := Held(list, vm);
    var added := AddMissing(list, vm, op.wanted + forwarded, held);
    DroppedIsOff(list, vm, op.wanted + forwarded, op.gone, dir, ip);
    RaiseAdds(DropGone(added, vm, held, op.wanted + forwarded, op.gone), vm, OutOfPlace(op.seen, vm), dir, ip);
    OutOfPlaceIsLow(op.seen, vm, ip);
  }

  /**
   Three steps after which it has: an Apply, libvirt's rules put on top, and a pass that reads the list as it is
   and finds the address another's.
   */
  lemma DroppedCameBack()
    ensures var start, under := State([], {}, []), [Libvirt(0), Jump(1, Out, 7), Jump(1, In, 7)];
            var s1 := Step(start, ApplyRules(1, [7], false));
            var s2 := Step(s1, Others(under));
            var s3 := Step(s2, Sync(1, true, true, [], [], {7}, under));
            CanHappen(s1, Others(under)) && s2 == State(under, {1}, []) && Jump(1, In, 7) in s3.rules
  {
    hide Step;
    var start := State([], {}, []);
    var pair := [Jump(1, Out, 7), Jump(1, In, 7)];
    var under := [Libvirt(0), Jump(1, Out, 7), Jump(1, In, 7)];
    var s1 := State(pair, {1}, []);
    FirstApply(start);
    assert under == [Libvirt(0)] + pair;
    LibvirtIsNotOurs(pair);
    EditedByOthers(s1, under);
    assert Low(under, 1, 7, false) by { assert Roof(under[0], 7) && JumpAt(under[2], 1, 7, false); }
    DroppedComesBackIff(State(under, {1}, []), Sync(1, true, true, [], [], {7}, under), In, 7);
  }

  lemma EditedByOthers(s: State, edited: seq<Rule>)
    ensures Step(s, Others(edited)) == State(edited, s.chains, s.forwards)
  {
  }

  lemma FirstApply(start: State)
    requires start == State([], {}, [])
    ensures Step(start, ApplyRules(1, [7], false)) == State([Jump(1, Out, 7), Jump(1, In, 7)], {1}, [])
  {
    assert Held([], 1) == [] && [7] + [] + [] == [7] && [7][..0] == [];
    assert Unique([7]) == [7] && Pairs(1, [7]) == [Jump(1, Out, 7), Jump(1, In, 7)] + Pairs(1, []);
  }

  lemma LibvirtIsNotOurs(pair: seq<Rule>)
    requires |pair| == 2 && pair[0].Jump? && pair[1].Jump?
    ensures Without([Libvirt(0)] + pair, NotOurs) == pair && Without(pair, NotOurs) == pair
  {
    NothingPicked(pair, NotOurs);
    assert ([Libvirt(0)] + pair)[1..] == pair;
  }
}
