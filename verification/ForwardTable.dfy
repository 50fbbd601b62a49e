/**
 The operations on the FORWARD list as they are carried out: rule by rule, on the live list.
 */
module ForwardTable {
  import opened ForwardList
  import opened ForwardRuns

  // ----- Deleting what was listed

  /** Deleting the first rule a pick lists takes it and nothing else off the list. */
  lemma {:induction false} RemoveListed(list: seq<Rule>, p: Pick)
    requires Only(list, p) != []
    ensures var less := RemoveFirst(list, Only(list, p)[0]);
            Only(less, p) == Only(list, p)[1..] && Without(less, p) == Without(list, p)
  {
    if !Picked(p, list[0]) { RemoveListed(list[1..], p); }
  }

  lemma {:induction false} NoneListed(list: seq<Rule>, p: Pick)
    requires Only(list, p) == []
    ensures Without(list, p) == list
  {
    if list != [] { NoneListed(list[1..], p); }
  }

  lemma {:induction false} OnlyGrows(list: seq<Rule>, r: Rule, p: Pick)
    ensures Only(list + [r], p) == if Picked(p, r) then Only(list, p) + [r] else Only(list, p)
  {
    if list == [] {
      assert list + [r] == [r];
    } else {
      assert (list + [r])[0] == list[0] && (list + [r])[1..] == list[1..] + [r];
      OnlyGrows(list[1..], r, p);
    }
  }

  /** `while -D works` takes every copy of a rule. */
  function WithoutRule(list: seq<Rule>, r: Rule): seq<Rule> {
    if list == [] then [] else if list[0] == r then WithoutRule(list[1..], r) else [list[0]] + WithoutRule(list[1..], r)
  }

  lemma {:induction false} RemoveOneOf(list: seq<Rule>, r: Rule)
    ensures WithoutRule(RemoveFirst(list, r), r) == WithoutRule(list, r)
    ensures r in list ==> |RemoveFirst(list, r)| < |list|
    ensures r !in list ==> WithoutRule(list, r) == list
  {
    if list != [] { RemoveOneOf(list[1..], r); }
  }

  lemma {:induction false} BothRules(list: seq<Rule>, vm: nat, ip: nat)
    ensures WithoutRule(WithoutRule(list, Jump(vm, In, ip)), Jump(vm, Out, ip)) == Without(list, At(vm, ip))
  {
    if list != [] {
      BothRules(list[1..], vm, ip);
      assert list[0].Jump? ==> list[0].dir == In || list[0].dir == Out;
    }
  }

  // ----- Reading

  method ReadJumps(dump: seq<Rule>, vm: nat) returns (inbound: seq<nat>, outbound: seq<nat>)
    ensures inbound == Named(dump, vm, In) && outbound == Named(dump, vm, Out)
  {
    inbound, outbound := [], [];
    for i := 0 to |dump|
      invariant inbound == Named(dump[..i], vm, In) && outbound == Named(dump[..i], vm, Out)
    {
      var r := dump[i];
      assert dump[..i + 1][..i] == dump[..i];
      if (r.Jump? || r.OddJump?) && r.vm == vm && Address(r).Some? {
        if r.dir == In { inbound := inbound + [Address(r).value]; } else { outbound := outbound + [Address(r).value]; }
      }
    }
    assert dump[..|dump|] == dump;
  }

  method UniqueOf(s: seq<nat>) returns (u: seq<nat>)
    ensures u == Unique(s)
  {
    u := [];
    for i := 0 to |s|
      invariant u == Unique(s[..i])
    {
      assert s[..i + 1][..i] == s[..i];
      if s[i] !in u { u := u + [s[i]]; }
    }
    assert s[..|s|] == s;
  }

  ghost predicate AcceptsSeen(list: seq<Rule>, n: nat, accepts: map<nat, nat>)
    requires n <= |list|
  {
    && (forall ip :: ip in accepts ==> accepts[ip] < n && list[accepts[ip]].Accept? && list[accepts[ip]].ip == ip)
    && (forall k :: 0 <= k < n && list[k].Accept? ==> list[k].ip in accepts && accepts[list[k].ip] <= k)
  }

  /** One scan for the lowest rule of libvirt's and each address's first ACCEPT, and one for the jumps below them. */
  method JumpsOutOfPlace(forward: seq<Rule>, vm: nat) returns (below: seq<nat>)
    ensures below == OutOfPlace(forward, vm)
  {
    var lowest: int := -1;
    var accepts: map<nat, nat> := map[];
    for i := 0 to |forward|
      invariant -1 <= lowest < i
      invariant lowest != -1 ==> forward[lowest].Libvirt?
      invariant forall k :: 0 <= k < i && forward[k].Libvirt? ==> lowest != -1 && lowest <= k
      invariant AcceptsSeen(forward, i, accepts)
    {
      if forward[i].Libvirt? && lowest == -1 { lowest := i; }
      if forward[i].Accept? && forward[i].ip !in accepts { accepts := accepts[forward[i].ip := i]; }
    }
    below := [];
    for i := 0 to |forward|
      invariant below == LowSeq(forward, vm, i)
    {
      var r := forward[i];
      if (r.Jump? || r.OddJump?) && r.vm == vm && Address(r).Some? {
        var ip := Address(r).value;
        var under := (lowest != -1 && i > lowest) || (ip in accepts && i > accepts[ip]);
        assert under <==> IsLow(forward, vm, i) by {
          if under {
            assert Roof(forward[if lowest != -1 && i > lowest then lowest else accepts[ip]], ip);
          }
        }
        if under && ip !in below { below := below + [ip]; }
      }
    }
  }

  // ----- The list and what edits it

  class Host {
    var rules: seq<Rule>
    var chains: set<nat>
    var forwards: seq<Forward>

    ghost function Now(): State
      reads this
    {
      State(rules, chains, forwards)
    }

    constructor (list: seq<Rule>)
      ensures Now() == State(list, {}, [])
    {
      rules, chains, forwards := list, {}, [];
    }

    /** The `-D` lines of a restore: one for each rule that was listed. */
    method DeleteListed(p: Pick)
      modifies this`rules
      ensures rules == Without(old(rules), p)
    {
      var gone := [];
      for i := 0 to |rules|
        invariant rules == old(rules)
        invariant gone == Only(rules[..i], p)
      {
        assert rules[..i + 1] == rules[..i] + [rules[i]];
        OnlyGrows(rules[..i], rules[i], p);
        if Picked(p, rules[i]) { gone := gone + [rules[i]]; }
      }
      assert rules[..|rules|] == rules;
      for k := 0 to |gone|
        invariant Only(rules, p) == gone[k..] && Without(rules, p) == Without(old(rules), p)
      {
        RemoveListed(rules, p);
        rules := RemoveFirst(rules, gone[k]);
      }
      NoneListed(rules, p);
    }

    method InsertHead(r: Rule)
      modifies this`rules
      ensures rules == [r] + old(rules)
    {
      rules := [r] + rules;
    }

    method PutJumps(vm: nat, ip: nat)
      modifies this`rules
      ensures rules == ForwardList.PutJumps(old(rules), vm, ip)
    {
      DeleteListed(At(vm, ip));
      InsertHead(Jump(vm, In, ip));
      InsertHead(Jump(vm, Out, ip));
    }

    method DropRule(r: Rule)
      modifies this`rules
      ensures rules == WithoutRule(old(rules), r)
    {
      while r in rules
        invariant WithoutRule(rules, r) == WithoutRule(old(rules), r)
        decreases |rules|
      {
        RemoveOneOf(rules, r);
        rules := RemoveFirst(rules, r);
      }
      RemoveOneOf(rules, r);
    }

    method DropJumps(vm: nat, ip: nat)
      modifies this`rules
      ensures rules == Without(old(rules), At(vm, ip))
    {
      DropRule(Jump(vm, In, ip));
      DropRule(Jump(vm, Out, ip));
      BothRules(old(rules), vm, ip);
    }

    method JumpSwap(vm: nat, ips: seq<nat>)
      modifies this`rules
      ensures rules == ForwardList.JumpSwap(old(rules), vm, ips)
    {
      DeleteListed(Of(vm));
      ghost var rest := rules;
      for i := 0 to |ips|
        invariant rules == Pairs(vm, ips[..i]) + rest
      {
        assert ips[..i + 1][..i] == ips[..i];
        rules := [Jump(vm, Out, ips[i]), Jump(vm, In, ips[i])] + rules;
      }
      assert ips[..|ips|] == ips;
    }

    /** A jump at the head for each of these addresses that has none in the other direction's list. */
    method InsertMissing(vm: nat, dir: Dir, from: seq<nat>, to: seq<nat>)
      modifies this`rules
      ensures rules == Heads(vm, dir, Missing(from, to)) + old(rules)
    {
      for i := 0 to |from|
        invariant rules == Heads(vm, dir, Missing(from[..i], to)) + old(rules)
      {
        assert from[..i + 1][..i] == from[..i];
        if from[i] !in to {
          assert Missing(from[..i + 1], to)[..|Missing(from[..i], to)|] == Missing(from[..i], to);
          InsertHead(Jump(vm, dir, from[i]));
        }
      }
      assert from[..|from|] == from;
    }

    method RepairJumps(vm: nat)
      modifies this`rules
      ensures rules == Repair(old(rules), vm)
    {
      var inbound, outbound := ReadJumps(rules, vm);
      InsertMissing(vm, In, outbound, inbound);
      InsertMissing(vm, Out, inbound, outbound);
    }

    method FirewallAddresses(vm: nat) returns (held: seq<nat>)
      ensures held == Held(rules, vm)
    {
      var inbound, outbound := ReadJumps(rules, vm);
      held := UniqueOf(inbound + outbound);
    }

    method RaiseFirewallAddresses(vm: nat, ips: seq<nat>)
      modifies this`rules
      ensures rules == RaiseAll(old(rules), vm, ips)
    {
      for i := 0 to |ips|
        invariant rules == RaiseAll(old(rules), vm, ips[..i])
      {
        assert ips[..i + 1][..i] == ips[..i];
        PutJumps(vm, ips[i]);
      }
      assert ips[..|ips|] == ips;
    }

    method Forwarded(vm: nat) returns (ips: seq<nat>)
      ensures ips == AddressesOf(forwards, vm)
    {
      ips := [];
      for i := 0 to |forwards|
        invariant ips == AddressesOf(forwards[..i], vm)
      {
        assert forwards[..i + 1][..i] == forwards[..i];
        if forwards[i].vm == vm { ips := ips + [forwards[i].ip]; }
      }
      assert forwards[..|forwards|] == forwards;
    }

    // ----- The operations

    method ApplyRules(vm: nat, ips: seq<nat>, noRules: bool)
      modifies this
      ensures Now() == Step(old(Now()), Op.ApplyRules(vm, ips, noRules))
    {
      if noRules {
        RemoveFirewall(vm);
      } else {
        var forwarded := Forwarded(vm);
        var held := FirewallAddresses(vm);
        var all := UniqueOf(ips + forwarded + held);
        JumpSwap(vm, all);
        chains := chains + {vm};
      }
    }

    /** Puts the jumps back on top of an ACCEPT that has just gone in, where the VM has chains. */
    method ReassertForwardJumps(vm: nat, ip: nat)
      modifies this`rules
      ensures rules == if vm in chains then ForwardList.PutJumps(Repair(old(rules), vm), vm, ip) else old(rules)
    {
      if vm !in chains { return; }
      RepairJumps(vm);
      PutJumps(vm, ip);
    }

    method AddForward(f: Forward)
      modifies this
      ensures Now() == Step(old(Now()), Op.AddForward(f))
    {
      if AcceptOf(f) !in rules { InsertHead(AcceptOf(f)); }
      ReassertForwardJumps(f.vm, f.ip);
      forwards := forwards + [f];
    }

    method DeleteForward(id: nat)
      modifies this
      ensures Now() == Step(old(Now()), Op.DeleteForward(id))
    {
      if HasId(forwards, id) {
        rules := RemoveFirst(rules, AcceptOf(FindId(forwards, id)));
        forwards := NotId(forwards, id);
      }
    }

    method RemoveFirewall(vm: nat)
      modifies this
      ensures Now() == Step(old(Now()), Op.RemoveFirewall(vm))
    {
      DeleteListed(Of(vm));
      chains := chains - {vm};
    }

    /** Whether anything should be in force, with the chains and jumps put back if they are not as they were left. */
    method KeepInForce(vm: nat, inForce: bool, intact: bool, noted: seq<nat>, ips: seq<nat>) returns (none: bool)
      modifies this`rules, this`chains
      ensures none <==> !inForce
      ensures !inForce ==> rules == old(rules) && chains == old(chains)
      ensures inForce ==> chains == old(chains) + {vm}
      ensures inForce ==> rules == if vm in old(chains) && intact then Repair(old(rules), vm)
                                   else ForwardList.JumpSwap(old(rules), vm, Unique(noted + ips))
    {
      if !inForce { return true; }
      if vm in chains && intact {
        RepairJumps(vm);
        assert chains == chains + {vm};
      } else {
        var all := UniqueOf(noted + ips);
        JumpSwap(vm, all);
        chains := chains + {vm};
      }
      return false;
    }

    method AddMissing(vm: nat, ips: seq<nat>, held: seq<nat>)
      modifies this`rules
      ensures rules == ForwardRuns.AddMissing(old(rules), vm, ips, held)
    {
      for i := 0 to |ips|
        invariant rules == ForwardRuns.AddMissing(old(rules), vm, ips[..i], held)
      {
        assert ips[..i + 1][..i] == ips[..i];
        if ips[i] in held { continue; }
        PutJumps(vm, ips[i]);
      }
      assert ips[..|ips|] == ips;
    }

    method DropGone(vm: nat, held: seq<nat>, keep: seq<nat>, gone: set<nat>)
      modifies this`rules
      ensures rules == ForwardRuns.DropGone(old(rules), vm, held, keep, gone)
    {
      for i := 0 to |held|
        invariant rules == ForwardRuns.DropGone(old(rules), vm, held[..i], keep, gone)
      {
        assert held[..i + 1][..i] == held[..i];
        if held[i] in keep { continue; }
        if held[i] !in gone { continue; }
        DropJumps(vm, held[i]);
      }
      assert held[..|held|] == held;
    }

    /** One VM's part of the regular pass; `seen` is the list as the pass read it when it began. */
    method SyncOne(
        vm: nat, inForce: bool, intact: bool, noted: seq<nat>, wanted: seq<nat>, gone: set<nat>, seen: seq<Rule>)
      modifies this
      ensures Now() == Step(old(Now()), Op.Sync(vm, inForce, intact, noted, wanted, gone, seen))
    {
      hide Repair, ForwardList.JumpSwap, Unique, Held, AddressesOf, ForwardRuns.AddMissing, ForwardRuns.DropGone,
          RaiseAll, OutOfPlace;
      var forwarded := Forwarded(vm);
      var none := KeepInForce(vm, inForce, intact, noted, wanted + forwarded);
      if none { return; }
      var held := FirewallAddresses(vm);
      AddMissing(vm, wanted + forwarded, held);
      DropGone(vm, held, wanted + forwarded, gone);
      var low := JumpsOutOfPlace(seen, vm);
      RaiseFirewallAddresses(vm, low);
    }
  }
}
