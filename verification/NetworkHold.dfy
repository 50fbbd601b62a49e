/**
 How services/networkService.ts keeps a network from being deleted under a VM that is on its way to it.
 Each step is what runs between two awaits. Deletes and new networks go through one queue, so at most
 one delete is under way; VM creations (routes/vms.ts), NICs being attached, and copies
 (services/vmDeriveService.ts) run alongside in any number and order.
 */
module NetworkHold {
  import opened Wrappers

  /** `owned`: a NAT network, a VXLAN or a managed bridge, which VirtPilot takes away with its record. */
  datatype Network = Network(bridge: string, libvirtName: Option<string>, owned: bool)

  /** A request looks its networks up by ID once it holds them; a copy takes the names in the XML it was given. */
  datatype Kind = Request | Copy

  datatype Stage =
    | Waiting
    | Holding
    | LookedUp(bridges: map<string, Network>)
    | Defined
    | Over

  datatype Creation = Creation(kind: Kind, names: set<string>, stage: Stage, goneBefore: set<string>)

  /** A NIC of a VM libvirt knows. `network` is the record it was looked up in, none for a copy's. */
  datatype Nic = Nic(vm: string, bridge: string, network: Option<string>, owned: bool, goneBefore: set<string>)

  datatype Phase = Marked | NoneArriving | Checked | Committed | Failed

  datatype Delete = Delete(id: string, network: Network, phase: Phase)

  datatype State = State(
    networks: map<string, Network>,
    /** Networks deleted since the start, by the IDs they had: those are never used again. */
    gone: map<string, Network>,
    creations: map<string, Creation>,
    nics: set<Nic>,
    delete: Option<Delete>)

  datatype Event =
    | Begin(vm: string, kind: Kind, names: set<string>)
    | TryHold(vm: string)
    | LookUp(vm: string)
    | Define(vm: string)
    | Release(vm: string)
    | Undefine(nic: Nic)
    | DeleteBegin(id: string)
    | DeleteCheckArriving
    | DeleteListVms
    | DeleteCommit
    | DeleteFail
    | DeleteEnd
    | CreateNetwork(id: string, network: Network)

  function NamesOf(id: string, n: Network): set<string> {
    {id, n.bridge} + if n.libvirtName.Some? then {n.libvirtName.value} else {}
  }

  /** The names no hold can be taken on now. */
  function Leaving(s: State): set<string> {
    if s.delete == None then {} else NamesOf(s.delete.value.id, s.delete.value.network)
  }

  predicate Holds(c: Creation) {
    c.stage.Holding? || c.stage.LookedUp? || c.stage.Defined?
  }

  /** `vmsArriving`: who holds any of these names. */
  function Arriving(s: State, names: set<string>): set<string> {
    set vm | vm in s.creations && Holds(s.creations[vm]) && s.creations[vm].names * names != {}
  }

  function WithStage(s: State, vm: string, stage: Stage): State
    requires vm in s.creations
  {
    s.(creations := s.creations[vm := s.creations[vm].(stage := stage)])
  }

  function WithPhase(s: State, phase: Phase): State
    requires s.delete.Some?
  {
    s.(delete := Some(s.delete.value.(phase := phase)))
  }

  function NewNics(s: State, vm: string): set<Nic>
    requires vm in s.creations
  {
    var c := s.creations[vm];
    if c.stage.LookedUp? then
      set id | id in c.stage.bridges ::
        Nic(vm, c.stage.bridges[id].bridge, Some(id), c.stage.bridges[id].owned, c.goneBefore)
    else
      set name | name in c.names :: Nic(vm, name, None, false, c.goneBefore)
  }

  function Next(s: State, e: Event): State {
    match e
    case Begin(vm, kind, names) =>
      if vm in s.creations then s else s.(creations := s.creations[vm := Creation(kind, names, Waiting, {})])
    case TryHold(vm) =>
      if vm !in s.creations || !s.creations[vm].stage.Waiting? || s.creations[vm].names * Leaving(s) != {} then s
      else s.(creations := s.creations[vm := s.creations[vm].(stage := Holding, goneBefore := s.gone.Keys)])
    case LookUp(vm) =>
      if vm !in s.creations || !s.creations[vm].stage.Holding? || s.creations[vm].kind.Copy? then s
      else if s.creations[vm].names <= s.networks.Keys then
        WithStage(s, vm, LookedUp(map id | id in s.creations[vm].names :: s.networks[id]))
      else WithStage(s, vm, Over)
    case Define(vm) =>
      if vm !in s.creations then s
      else
        var c := s.creations[vm];
        if c.stage.LookedUp? || (c.stage.Holding? && c.kind.Copy?)
        then WithStage(s.(nics := s.nics + NewNics(s, vm)), vm, Defined) else s
    case Release(vm) =>
      if vm in s.creations then WithStage(s, vm, Over) else s
    case Undefine(nic) => s.(nics := s.nics - {nic})
    case DeleteBegin(id) =>
      if s.delete == None && id in s.networks then s.(delete := Some(Delete(id, s.networks[id], Marked))) else s
    case DeleteCheckArriving =>
      if s.delete == None || s.delete.value.phase != Marked then s
      else if !s.delete.value.network.owned then WithPhase(s, Checked)
      else if Arriving(s, Leaving(s)) != {} then WithPhase(s, Failed)
      else WithPhase(s, NoneArriving)
    case DeleteListVms =>
      if s.delete == None || s.delete.value.phase != NoneArriving then s
      else if exists nic :: nic in s.nics && nic.bridge == s.delete.value.network.bridge then WithPhase(s, Failed)
      else WithPhase(s, Checked)
    case DeleteCommit =>
      if s.delete == None || s.delete.value.phase != Checked then s
      else
        var d := s.delete.value;
        WithPhase(s.(networks := s.networks - {d.id}, gone := s.gone[d.id := d.network]), Committed)
    case DeleteFail =>
      if s.delete == None || s.delete.value.phase == Committed then s else WithPhase(s, Failed)
    case DeleteEnd =>
      if s.delete.Some? && (s.delete.value.phase == Committed || s.delete.value.phase == Failed)
      then s.(delete := None) else s
    case CreateNetwork(id, network) =>
      if s.delete == None && id !in s.networks && id !in s.gone then s.(networks := s.networks[id := network]) else s
  }

  function After(start: State, run: seq<Event>): State {
    if run == [] then start else Next(After(start, run[..|run| - 1]), run[|run| - 1])
  }

  // ----- What every reachable state keeps

  predicate PastChecks(d: Delete) {
    d.network.owned && (d.phase == NoneArriving || d.phase == Checked || d.phase == Committed)
  }

  /** A delete of VirtPilot's own network that is past looking for arrivals has nobody holding any of its names. */
  ghost predicate Excluded(s: State) {
    s.delete.Some? && PastChecks(s.delete.value) ==>
      forall vm :: vm in s.creations && Holds(s.creations[vm]) ==> s.creations[vm].names * Leaving(s) == {}
  }

  /** The delete under way is of a network that is still recorded as it was, until it commits. */
  ghost predicate DeleteRecorded(s: State) {
    s.delete.Some? ==>
      var d := s.delete.value;
      if d.phase == Committed then d.id !in s.networks && d.id in s.gone && s.gone[d.id] == d.network
      else d.id in s.networks && s.networks[d.id] == d.network
  }

  /** What a creation looked up is still so, for networks that are VirtPilot's own. */
  ghost predicate LookupsHold(s: State) {
    forall vm :: vm in s.creations && s.creations[vm].stage.LookedUp? ==>
                   var c := s.creations[vm];
                   c.stage.bridges.Keys == c.names
                   && forall id :: id in c.names && c.stage.bridges[id].owned ==>
                                     id in s.networks && s.networks[id] == c.stage.bridges[id]
  }

  /** Every NIC that was made on a network of VirtPilot's own is on one that is still there. */
  ghost predicate NicsOnLiveNetworks(s: State) {
    forall nic :: nic in s.nics && nic.network.Some? && nic.owned ==>
                    nic.network.value in s.networks
                    && s.networks[nic.network.value].owned && s.networks[nic.network.value].bridge == nic.bridge
  }

  predicate GoneBridge(s: State, id: string, name: string) {
    id in s.gone && s.gone[id].owned && s.gone[id].bridge == name
  }

  /** A copy's NIC is on a bridge of a deleted network only if that had gone before the copy took its hold. */
  ghost predicate CopiesOnlyOnLongGone(s: State) {
    && (forall nic, id ::
      nic in s.nics && nic.network == None && GoneBridge(s, id, nic.bridge) ==> id in nic.goneBefore)
    && (forall vm, id, name ::
      vm in s.creations && Holds(s.creations[vm]) && name in s.creations[vm].names && GoneBridge(s, id, name) ==>
                                 id in s.creations[vm].goneBefore)
    && (forall vm :: vm in s.creations ==> s.creations[vm].goneBefore <= s.gone.Keys)
  }

  /** A delete past its listing has no NIC on its network, by record or by a copy. */
  ghost predicate NoNicOnChecked(s: State) {
    s.delete.Some? && PastChecks(s.delete.value) && s.delete.value.phase != NoneArriving ==>
      forall nic :: nic in s.nics ==>
                      !(nic.network == Some(s.delete.value.id) && nic.owned)
                      && !(nic.network == None && nic.bridge == s.delete.value.network.bridge)
  }

  ghost predicate Inv(s: State) {
    && s.networks.Keys !! s.gone.Keys
    && Excluded(s) && DeleteRecorded(s) && LookupsHold(s)
    && NicsOnLiveNetworks(s) && CopiesOnlyOnLongGone(s) && NoNicOnChecked(s)
  }

  /** At a start nothing is under way, and every NIC is on a network that is there. */
  ghost predicate Start(s: State) {
    && s.gone == map[] && s.creations == map[] && s.delete == None
    && NicsOnLiveNetworks(s)
  }

  lemma StartInv(s: State)
    requires Start(s)
    ensures Inv(s)
  {
  }

  lemma KeepsRecorded(s: State, e: Event)
    requires Inv(s)
    ensures Next(s, e).networks.Keys !! Next(s, e).gone.Keys && DeleteRecorded(Next(s, e))
  {
  }

  lemma NobodyArriving(s: State, names: set<string>)
    requires Arriving(s, names) == {}
    ensures forall vm :: vm in s.creations && Holds(s.creations[vm]) ==> s.creations[vm].names * names == {}
  {
    forall vm | vm in s.creations && Holds(s.creations[vm]) ensures s.creations[vm].names * names == {} {
      assert vm !in Arriving(s, names);
    }
  }

  lemma KeepsExcluded(s: State, e: Event)
    requires Inv(s)
    ensures Excluded(Next(s, e))
  {
    hide Arriving, NewNics;
    if e.DeleteCheckArriving? {
      if Arriving(s, Leaving(s)) == {} { NobodyArriving(s, Leaving(s)); }
    }
  }

  /** Committing takes away nothing that anybody who has looked it up still holds. */
  lemma CommitKeepsLookups(s: State)
    requires Inv(s) && s.delete.Some? && s.delete.value.phase == Checked
    ensures LookupsHold(Next(s, DeleteCommit))
  {
    var s', d := Next(s, DeleteCommit), s.delete.value;
    forall vm, id | vm in s'.creations && s'.creations[vm].stage.LookedUp? && id in s'.creations[vm].names
                    && s'.creations[vm].stage.bridges[id].owned
      ensures id in s'.networks && s'.networks[id] == s'.creations[vm].stage.bridges[id]
    {
      var both := s.creations[vm].names * Leaving(s);
      assert id == d.id ==> id in both;
    }
  }

  lemma KeepsLookups(s: State, e: Event)
    requires Inv(s)
    ensures LookupsHold(Next(s, e))
  {
    if e.DeleteCommit? && Next(s, e) != s {
      CommitKeepsLookups(s);
    }
  }

  lemma NewNicsAreHeld(s: State, vm: string, nic: Nic)
    requires vm in s.creations && Holds(s.creations[vm]) && nic in NewNics(s, vm)
    requires s.creations[vm].stage.LookedUp? ==> s.creations[vm].stage.bridges.Keys == s.creations[vm].names
    ensures nic.goneBefore == s.creations[vm].goneBefore
    ensures if nic.network.Some? then nic.network.value in s.creations[vm].names
            else nic.bridge in s.creations[vm].names
  {
  }

  lemma KeepsNics(s: State, e: Event)
    requires Inv(s)
    ensures NicsOnLiveNetworks(Next(s, e))
  {
  }

  lemma KeepsChecked(s: State, e: Event)
    requires Inv(s)
    ensures NoNicOnChecked(Next(s, e))
  {
    if e.Define? && e.vm in s.creations {
      forall nic | nic in NewNics(s, e.vm) && Holds(s.creations[e.vm]) && s.delete.Some? && PastChecks(s.delete.value)
        ensures nic.network != Some(s.delete.value.id)
        ensures nic.network == None ==> nic.bridge != s.delete.value.network.bridge
      {
        NewNicsAreHeld(s, e.vm, nic);
        var name := if nic.network.Some? then nic.network.value else nic.bridge;
        var both := s.creations[e.vm].names * Leaving(s);
        assert name in both <==> name in Leaving(s);
      }
    }
  }

  lemma CommitKeepsCopies(s: State)
    requires Inv(s) && s.delete.Some? && s.delete.value.phase == Checked
    ensures CopiesOnlyOnLongGone(Next(s, DeleteCommit))
  {
    var s' := Next(s, DeleteCommit);
    forall id, name | GoneBridge(s', id, name)
      ensures GoneBridge(s, id, name) || (id == s.delete.value.id && PastChecks(s.delete.value) && name in Leaving(s))
    {
    }
    forall vm, name
      | vm in s.creations && Holds(s.creations[vm]) && name in s.creations[vm].names && PastChecks(s.delete.value)
      ensures name !in Leaving(s)
    {
      var both := s.creations[vm].names * Leaving(s);
      assert name in both <==> name in Leaving(s);
    }
  }

  lemma DefineKeepsCopies(s: State, vm: string)
    requires Inv(s) && vm in s.creations && Holds(s.creations[vm])
    ensures CopiesOnlyOnLongGone(Next(s, Define(vm)))
  {
    var s' := Next(s, Define(vm));
    forall id, name | GoneBridge(s', id, name) ensures GoneBridge(s, id, name) {}
    forall nic | nic in s'.nics && nic !in s.nics
      ensures nic in NewNics(s, vm)
      ensures nic.network == None ==>
              nic.bridge in s.creations[vm].names && nic.goneBefore == s.creations[vm].goneBefore
    {
      NewNicsAreHeld(s, vm, nic);
    }
  }

  lemma KeepsCopies(s: State, e: Event)
    requires Inv(s)
    ensures CopiesOnlyOnLongGone(Next(s, e))
  {
    if e.DeleteCommit? && Next(s, e) != s {
      hide Inv, Next, CopiesOnlyOnLongGone;
      assert s.delete.Some? && s.delete.value.phase == Checked by { CommitsWhenChecked(s); }
      CommitKeepsCopies(s);
    } else if e.Define? && e.vm in s.creations && Holds(s.creations[e.vm]) {
      hide Inv, Next, CopiesOnlyOnLongGone;
      DefineKeepsCopies(s, e.vm);
    } else {
      OtherKeepsCopies(s, e);
    }
  }

  /** A step that is neither leaves what is gone and adds no NIC. */
  lemma OtherSteps(s: State, e: Event)
    requires !(e.DeleteCommit? && Next(s, e) != s) && !(e.Define? && e.vm in s.creations && Holds(s.creations[e.vm]))
    ensures Next(s, e).gone == s.gone && Next(s, e).nics <= s.nics
  {
  }

  /** A hold notes all that is gone when it is taken, and keeps that. */
  lemma HoldsNote(s: State, e: Event, vm: string)
    requires vm in Next(s, e).creations
    ensures var c := Next(s, e).creations[vm];
            if vm !in s.creations then !Holds(c) && c.goneBefore == {}
            else
              && c.names == s.creations[vm].names
              && (c.goneBefore == s.creations[vm].goneBefore || c.goneBefore == s.gone.Keys)
              && (Holds(c) && !Holds(s.creations[vm]) ==> c.goneBefore == s.gone.Keys)
  {
  }

  lemma OtherKeepsCopies(s: State, e: Event)
    requires CopiesOnlyOnLongGone(s)
    requires !(e.DeleteCommit? && Next(s, e) != s) && !(e.Define? && e.vm in s.creations && Holds(s.creations[e.vm]))
    ensures CopiesOnlyOnLongGone(Next(s, e))
  {
    OtherSteps(s, e);
    hide Next, Holds;
    var s' := Next(s, e);
    forall id, name | GoneBridge(s', id, name) ensures GoneBridge(s, id, name) && id in s.gone {}
    forall vm | vm in s'.creations ensures s'.creations[vm].goneBefore <= s'.gone.Keys {
      HoldsNote(s, e, vm);
    }
    forall vm, id, name
      | vm in s'.creations && Holds(s'.creations[vm]) && name in s'.creations[vm].names && GoneBridge(s', id, name)
      ensures id in s'.creations[vm].goneBefore
    {
      HoldsNote(s, e, vm);
    }
  }

  lemma CommitsWhenChecked(s: State)
    requires Next(s, DeleteCommit) != s
    ensures s.delete.Some? && s.delete.value.phase == Checked
  {
  }

  lemma {:induction false} RunInv(start: State, run: seq<Event>)
    requires Start(start)
    ensures Inv(After(start, run))
  {
    if run == [] {
      StartInv(start);
    } else {
      var s, e := After(start, run[..|run| - 1]), run[|run| - 1];
      RunInv(start, run[..|run| - 1]);
      KeepsRecorded(s, e);
      KeepsExcluded(s, e);
      KeepsLookups(s, e);
      KeepsNics(s, e);
      KeepsChecked(s, e);
      KeepsCopies(s, e);
    }
  }

  // ----- What an undisturbed operation comes to

  /** Any of these names is one the network under deletion goes by. */
  predicate Blocked(s: State, names: set<string>) {
    && s.delete.Some?
    && var d := s.delete.value;
       || d.id in names || d.network.bridge in names
       || (d.network.libvirtName.Some? && d.network.libvirtName.value in names)
  }

  lemma BlockedIs(s: State, names: set<string>)
    ensures names * Leaving(s) != {} <==> Blocked(s, names)
  {
    if s.delete.Some? {
      var both, d := names * Leaving(s), s.delete.value;
      assert forall name :: name in both <==> name in names && name in Leaving(s);
      assert d.id in Leaving(s) && d.network.bridge in Leaving(s);
    }
  }

  /**
   A creation waits while one of its networks is being deleted. Else it ends with nothing when one of them is not
   recorded, and otherwise with one NIC on each of their bridges.
   */
  lemma CreationComesTo(s: State, vm: string, names: set<string>)
    requires vm !in s.creations
    ensures var held := Next(Next(s, Begin(vm, Request, names)), TryHold(vm));
            var end := Next(Next(held, LookUp(vm)), Define(vm));
            && end.networks == s.networks && end.gone == s.gone && end.delete == s.delete
            && end.creations - {vm} == s.creations && vm in end.creations
            && if Blocked(s, names) then end.nics == s.nics && end.creations[vm].stage == Waiting
               else if exists id :: id in names && id !in s.networks then
                 end.nics == s.nics && end.creations[vm].stage == Over
               else
                 && end.creations[vm].stage == Defined && names <= s.networks.Keys
                 && end.nics == s.nics + set id | id in names ::
                                  Nic(vm, s.networks[id].bridge, Some(id), s.networks[id].owned, s.gone.Keys)
  {
    BlockedIs(s, names);
    var begun := Next(s, Begin(vm, Request, names));
    assert begun.creations[vm] == Creation(Request, names, Waiting, {}) && Leaving(begun) == Leaving(s);
    assert begun.creations - {vm} == s.creations;
    if !Blocked(s, names) {
      var held := Next(begun, TryHold(vm));
      assert held.creations[vm] == Creation(Request, names, Holding, s.gone.Keys);
      var looked := Next(held, LookUp(vm));
      if names <= s.networks.Keys {
        var bridges := map id | id in names :: s.networks[id];
        assert looked.creations[vm].stage == LookedUp(bridges);
        assert NewNics(looked, vm) == set id | id in names ::
            Nic(vm, s.networks[id].bridge, Some(id), s.networks[id].owned, s.gone.Keys);
      }
    }
  }

  /** A copy waits likewise, and then gets a NIC on every bridge it names, recorded or not. */
  lemma CopyComesTo(s: State, vm: string, names: set<string>)
    requires vm !in s.creations
    ensures var end := Next(Next(Next(s, Begin(vm, Copy, names)), TryHold(vm)), Define(vm));
            && end.networks == s.networks && end.gone == s.gone && end.delete == s.delete
            && end.creations - {vm} == s.creations && vm in end.creations
            && if Blocked(s, names) then end.nics == s.nics && end.creations[vm].stage == Waiting
               else
                 && end.creations[vm].stage == Defined
                 && end.nics == s.nics + set name | name in names :: Nic(vm, name, None, false, s.gone.Keys)
  {
    BlockedIs(s, names);
    var begun := Next(s, Begin(vm, Copy, names));
    assert begun.creations[vm] == Creation(Copy, names, Waiting, {}) && Leaving(begun) == Leaving(s);
    assert begun.creations - {vm} == s.creations;
    if !Blocked(s, names) {
      var held := Next(begun, TryHold(vm));
      assert NewNics(held, vm) == set name | name in names :: Nic(vm, name, None, false, s.gone.Keys);
    }
  }

  /** Somebody is on the way to a network, by one of its names. */
  ghost predicate SomebodyHolds(s: State, id: string, n: Network) {
    exists vm :: vm in s.creations && OnTheWay(s.creations[vm], id, n)
  }

  predicate OnTheWay(c: Creation, id: string, n: Network) {
    && (c.stage == Holding || c.stage.LookedUp? || c.stage == Defined)
    && (id in c.names || n.bridge in c.names || (n.libvirtName.Some? && n.libvirtName.value in c.names))
  }

  lemma ArrivingIs(s: State, id: string, n: Network)
    ensures Arriving(s, NamesOf(id, n)) != {} <==> SomebodyHolds(s, id, n)
  {
    forall c: Creation ensures OnTheWay(c, id, n) <==> Holds(c) && c.names * NamesOf(id, n) != {} {
      var both := c.names * NamesOf(id, n);
      assert forall name :: name in both <==> name in c.names && name in NamesOf(id, n);
      assert id in NamesOf(id, n) && n.bridge in NamesOf(id, n);
    }
    hide OnTheWay, Holds, NamesOf;
    if SomebodyHolds(s, id, n) {
      var vm :| vm in s.creations && OnTheWay(s.creations[vm], id, n);
      assert vm in Arriving(s, NamesOf(id, n));
    }
    if vm :| vm in Arriving(s, NamesOf(id, n)) { assert OnTheWay(s.creations[vm], id, n); }
  }

  /** A creation that has let go stops no delete, whatever its network, and has the NICs it had. */
  lemma ReleaseLetsGo(s: State, vm: string, id: string)
    requires vm in s.creations && s.delete == None && id in s.networks
    ensures var free := Next(s, Release(vm));
            && (SomebodyHolds(free, id, s.networks[id])
                <==> exists v :: v in s.creations && v != vm && OnTheWay(s.creations[v], id, s.networks[id]))
            && free.nics == s.nics && free.networks == s.networks && free.gone == s.gone && free.delete == None
  {
    var free, n := Next(s, Release(vm)), s.networks[id];
    assert !OnTheWay(free.creations[vm], id, n);
    hide OnTheWay;
    if v :| v in s.creations && v != vm && OnTheWay(s.creations[v], id, n) {
      assert free.creations[v] == s.creations[v];
    }
  }

  lemma DeleteAsks(s: State, id: string)
    requires s.delete == None && id in s.networks
    ensures var n := s.networks[id];
            var phase := if !n.owned then Checked else if SomebodyHolds(s, id, n) then Failed else NoneArriving;
            Next(Next(s, DeleteBegin(id)), DeleteCheckArriving) == s.(delete := Some(Delete(id, n, phase)))
  {
    var n := s.networks[id];
    var begun := Next(s, DeleteBegin(id));
    assert begun == s.(delete := Some(Delete(id, n, Marked)));
    ArrivingIs(s, id, n);
    assert Arriving(begun, Leaving(begun)) == Arriving(s, NamesOf(id, n));
    hide SomebodyHolds, NamesOf, Arriving, Leaving;
  }

  /**
   A delete that nothing else runs beside takes the network away, unless it is VirtPilot's own and somebody holds one
   of its names or a VM has a NIC on its bridge; then all stays as it was.
   */
  lemma DeleteComesTo(s: State, id: string)
    requires s.delete == None && id in s.networks
    ensures var n := s.networks[id];
            var checked := Next(Next(Next(s, DeleteBegin(id)), DeleteCheckArriving), DeleteListVms);
            Next(Next(checked, DeleteCommit), DeleteEnd)
            == if n.owned && (SomebodyHolds(s, id, n) || exists nic :: nic in s.nics && nic.bridge == n.bridge) then s
               else s.(networks := s.networks - {id}, gone := s.gone[id := n])
  {
    var n := s.networks[id];
    DeleteAsks(s, id);
    hide SomebodyHolds, Arriving, NewNics;
    var used := exists nic :: nic in s.nics && nic.bridge == n.bridge;
    var phase := if n.owned && (SomebodyHolds(s, id, n) || used) then Failed else Checked;
    var checked := Next(Next(Next(s, DeleteBegin(id)), DeleteCheckArriving), DeleteListVms);
    assert checked == s.(delete := Some(Delete(id, n, phase)));
  }

  // ----- The theorems

  /** In no reachable state is a delete past its checks while a hold is on any of that network's names. */
  lemma NoDeletePastAHold(start: State, run: seq<Event>, vm: string)
    requires Start(start)
    ensures var s := After(start, run);
            s.delete.Some? && vm in s.creations ==>
              var d, c := s.delete.value, s.creations[vm];
              d.network.owned && (d.phase == NoneArriving || d.phase == Checked || d.phase == Committed)
              && (c.stage == Holding || c.stage.LookedUp? || c.stage == Defined) ==>
                && d.id !in c.names && d.network.bridge !in c.names
                && (d.network.libvirtName.Some? ==> d.network.libvirtName.value !in c.names)
  {
    RunInv(start, run);
    var s := After(start, run);
    if s.delete.Some? && vm in s.creations && PastChecks(s.delete.value) && Holds(s.creations[vm]) {
      var both := s.creations[vm].names * Leaving(s);
      assert forall name :: name in s.creations[vm].names && name in Leaving(s) ==> name in both;
    }
  }

  /**
   No NIC of a VM that was created, or had it attached, is ever on a network of VirtPilot's whose delete has
   committed.
   */
  lemma NoNicOnDeletedNetwork(start: State, run: seq<Event>, nic: Nic)
    requires Start(start)
    requires nic in After(start, run).nics && nic.network.Some? && nic.owned
    ensures nic.network.value in After(start, run).networks && nic.network.value !in After(start, run).gone
    ensures After(start, run).networks[nic.network.value].bridge == nic.bridge
  {
    RunInv(start, run);
  }

  /**
   A copy gets its NIC on a bridge whatever has gone; a network of VirtPilot's gone from that bridge had gone
   before the copy took its hold.
   */
  lemma CopyOnDeletedNetwork(start: State, run: seq<Event>, vm: string, id: string, name: string)
    requires Start(start)
    requires var s := After(start, run);
             vm in s.creations && s.creations[vm].kind.Copy? && s.creations[vm].stage.Holding?
               && name in s.creations[vm].names
    ensures var s := After(start, run);
            && (GoneBridge(s, id, name) ==> id in s.creations[vm].goneBefore)
            && Nic(vm, name, None, false, s.creations[vm].goneBefore) in Next(s, Define(vm)).nics
  {
    RunInv(start, run);
    var s := After(start, run);
    var nic := Nic(vm, name, None, false, s.creations[vm].goneBefore);
    assert nic in NewNics(s, vm);
    assert nic in Next(s, Define(vm)).nics;
  }

  const NAT := Network("vp0", None, true)
  const COPY := Creation(Copy, {"vp0"}, Waiting, {})

  /** A delete that a waiting copy doesn't stop. */
  lemma DeletedUnderCopy(start: State, run: seq<Event>) returns (longer: seq<Event>)
    requires After(start, run) == State(map["n" := NAT], map[], map["vm" := COPY], {}, Some(Delete("n", NAT, Marked)))
    ensures After(start, longer) == State(map[], map["n" := NAT], map["vm" := COPY], {}, None)
  {
    hide After;
    var s := State(map["n" := NAT], map[], map["vm" := COPY], {}, Some(Delete("n", NAT, Marked)));
    var gone := State(map[], map["n" := NAT], map["vm" := COPY], {}, Some(Delete("n", NAT, Committed)));
    assert Arriving(s, Leaving(s)) == {};
    hide Arriving, Leaving;
    longer := Extend(start, run, s, DeleteCheckArriving, WithPhase(s, NoneArriving));
    longer := Extend(start, longer, WithPhase(s, NoneArriving), DeleteListVms, WithPhase(s, Checked));
    assert map["n" := NAT] - {"n"} == map[];
    longer := Extend(start, longer, WithPhase(s, Checked), DeleteCommit, gone);
    longer := Extend(start, longer, gone, DeleteEnd, gone.(delete := None));
  }

  /** It does happen: a copy that waited for the delete goes ahead on the bridge that has gone. */
  lemma CopyThatWaitedForADelete() returns (start: State, run: seq<Event>)
    ensures Start(start) && start.networks == map["n" := Network("vp0", None, true)]
    ensures var s := After(start, run);
            Nic("vm", "vp0", None, false, {"n"}) in s.nics && GoneBridge(s, "n", "vp0")
  {
    start := State(map["n" := NAT], map[], map[], {}, None);
    var s1 := start.(creations := map["vm" := COPY]);
    var s2 := s1.(delete := Some(Delete("n", NAT, Marked)));
    run := [];
    run := Extend(start, run, start, Begin("vm", Copy, {"vp0"}), s1);
    run := Extend(start, run, s1, DeleteBegin("n"), s2);
    assert "vp0" in COPY.names * Leaving(s2);
    run := Extend(start, run, s2, TryHold("vm"), s2);
    run := DeletedUnderCopy(start, run);
    var s3 := State(map[], map["n" := NAT], map["vm" := COPY], {}, None);
    var s4 := s3.(creations := map["vm" := COPY.(stage := Holding, goneBefore := {"n"})]);
    hide After;
    assert map["n" := NAT].Keys == {"n"} && {"vp0"} * {} == {};
    assert s3.creations["vm" := s4.creations["vm"]] == s4.creations;
    run := Extend(start, run, s3, TryHold("vm"), s4);
    run := Extend(start, run, s4, Define("vm"), Next(s4, Define("vm")));
    assert Nic("vm", "vp0", None, false, {"n"}) in NewNics(s4, "vm");
  }

  lemma Extend(start: State, run: seq<Event>, s: State, e: Event, s': State) returns (longer: seq<Event>)
    requires After(start, run) == s && Next(s, e) == s'
    ensures After(start, longer) == s' && longer == run + [e]
  {
    longer := run + [e];
    assert longer[..|run|] == run;
  }
}
