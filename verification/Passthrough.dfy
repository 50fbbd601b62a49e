/**
 Which PCI functions lib/hostDevices.ts offers for passthrough, which travel with them and which stay
 hidden, and what services/deviceService.ts attaches and later asks before a start. An address is the
 number its fixed-width text writes; `Class` is what classifyPci makes of a function.
 */
module Passthrough {
  import opened Wrappers

  datatype Category = Host | Chipset | Bridge

  /** Offered, as a kind with this rank in KIND_ORDER, or kept as part of the machine. */
  datatype Class = Offer(rank: nat) | Keep(category: Category)

  /** `chipset`: its class is one of those isEssentialChipset looks for. */
  datatype Function = Function(
    address: nat, isBridge: bool, iommuGroup: Option<int>, driver: Option<string>, class_: Class, chipset: bool)

  datatype Key = Shared(group: int) | Alone(address: nat)

  datatype Group = Group(key: Key, members: seq<Function>)

  datatype Device = Device(lead: Function, members: seq<Function>)

  datatype Hidden = Hidden(function_: Function, category: Category)

  datatype Inventory = Inventory(devices: seq<Device>, hidden: seq<Hidden>)

  // ----- Groups

  function KeyOf(d: Function): Key {
    if d.iommuGroup.Some? then Shared(d.iommuGroup.value) else Alone(d.address)
  }

  function IndexOfKey(groups: seq<Group>, key: Key): (i: int)
    ensures -1 <= i < |groups|
    ensures i >= 0 ==> groups[i].key == key
    ensures i < 0 ==> forall j :: 0 <= j < |groups| ==> groups[j].key != key
  {
    if groups == [] then -1
    else if groups[|groups| - 1].key == key then |groups| - 1
    else IndexOfKey(groups[..|groups| - 1], key)
  }

  function AddTo(groups: seq<Group>, d: Function): seq<Group> {
    var i := IndexOfKey(groups, KeyOf(d));
    if i >= 0 then groups[i := groups[i].(members := groups[i].members + [d])] else groups + [Group(KeyOf(d), [d])]
  }

  function GroupsOf(pci: seq<Function>): seq<Group> {
    if pci == [] then []
    else
      var d, groups := pci[|pci| - 1], GroupsOf(pci[..|pci| - 1]);
      if d.isBridge then groups else AddTo(groups, d)
  }

  method GroupEndpoints(pci: seq<Function>) returns (groups: seq<Group>)
    ensures groups == GroupsOf(pci)
  {
    groups := [];
    for n := 0 to |pci|
      invariant groups == GroupsOf(pci[..n])
    {
      assert pci[..n + 1][..n] == pci[..n];
      if pci[n].isBridge { continue; }
      var i := IndexOfKey(groups, KeyOf(pci[n]));
      if i >= 0 {
        groups := groups[i := groups[i].(members := groups[i].members + [pci[n]])];
      } else {
        groups := groups + [Group(KeyOf(pci[n]), [pci[n]])];
      }
    }
    assert pci[..|pci|] == pci;
  }

  // ----- One group

  predicate IsEssentialChipset(d: Function) {
    d.driver.Some? && d.chipset
  }

  /** Bound to a driver of the host's own, and not to one that is there for passthrough. */
  predicate HostBound(d: Function) {
    d.driver.Some? && d.driver.value != "vfio-pci" && d.driver.value != "pci-stub"
  }

  function Offerable(members: seq<Function>): (o: seq<Function>)
    ensures forall d :: d in o <==> d in members && d.class_.Offer?
  {
    if members == [] then []
    else
      var rest, d := Offerable(members[..|members| - 1]), members[|members| - 1];
      assert members == members[..|members| - 1] + [d];
      if d.class_.Offer? then rest + [d] else rest
  }

  predicate Before(a: Function, b: Function)
    requires a.class_.Offer? && b.class_.Offer?
  {
    a.class_.rank < b.class_.rank || (a.class_.rank == b.class_.rank && a.address <= b.address)
  }

  /** The first in order of kind, then of address. */
  function LeadOf(offerable: seq<Function>): (lead: Function)
    requires offerable != [] && forall d :: d in offerable ==> d.class_.Offer?
    ensures lead in offerable && forall d :: d in offerable ==> Before(lead, d)
  {
    var n := |offerable| - 1;
    assert offerable == offerable[..n] + [offerable[n]];
    if n == 0 then offerable[0]
    else
      var first := LeadOf(offerable[..n]);
      if Before(first, offerable[n]) then first else offerable[n]
  }

  function FirstWhere(members: seq<Function>, wanted: Function -> bool): (found: Option<Function>)
    ensures found.Some? ==> found.value in members && wanted(found.value)
    ensures found == None ==> forall d :: d in members ==> !wanted(d)
  {
    if members == [] then None
    else if wanted(members[0]) then Some(members[0])
    else
      assert members == [members[0]] + members[1..];
      FirstWhere(members[1..], wanted)
  }

  /** The member the host cannot give up, one it uses before one of the chipset's. */
  function Blocked(members: seq<Function>, use: set<nat>): Option<Function> {
    var hostNeed := FirstWhere(members, (d: Function) => d.address in use);
    if hostNeed.Some? then hostNeed else FirstWhere(members, (d: Function) => IsEssentialChipset(d))
  }

  function HideBlocked(members: seq<Function>, blocked: Function): seq<Hidden> {
    if members == [] then []
    else
      var rest, d := HideBlocked(members[..|members| - 1], blocked), members[|members| - 1];
      rest + [Hidden(d, if d == blocked || d.class_.Offer? then Host else d.class_.category)]
  }

  function HideAll(members: seq<Function>): seq<Hidden> {
    if members == [] then []
    else
      var rest, d := HideAll(members[..|members| - 1]), members[|members| - 1];
      rest + [Hidden(d, if d.class_.Offer? then Chipset else d.class_.category)]
  }

  predicate Travels(d: Function, lead: Function) {
    d != lead && (d.class_.Offer? || HostBound(d))
  }

  function Travelling(members: seq<Function>, lead: Function): seq<Function> {
    if members == [] then []
    else
      var rest, d := Travelling(members[..|members| - 1], lead), members[|members| - 1];
      if Travels(d, lead) then rest + [d] else rest
  }

  function HideRest(members: seq<Function>, lead: Function): seq<Hidden> {
    if members == [] then []
    else
      var rest, d := HideRest(members[..|members| - 1], lead), members[|members| - 1];
      if d != lead && !d.class_.Offer? && !Travels(d, lead) then rest + [Hidden(d, d.class_.category)] else rest
  }

  function AddGroup(inv: Inventory, g: Group, use: set<nat>): Inventory {
    var offerable, blocked := Offerable(g.members), Blocked(g.members, use);
    if offerable == [] then inv.(hidden := inv.hidden + HideAll(g.members))
    else if blocked.Some? then inv.(hidden := inv.hidden + HideBlocked(g.members, blocked.value))
    else
      var lead := LeadOf(offerable);
      Inventory(inv.devices + [Device(lead, Travelling(g.members, lead))], inv.hidden + HideRest(g.members, lead))
  }

  // ----- The inventory

  function Bridges(pci: seq<Function>): seq<Hidden> {
    if pci == [] then []
    else
      var rest, d := Bridges(pci[..|pci| - 1]), pci[|pci| - 1];
      if d.isBridge then rest + [Hidden(d, Bridge)] else rest
  }

  function AddGroups(inv: Inventory, groups: seq<Group>, use: set<nat>): Inventory {
    if groups == [] then inv
    else AddGroup(AddGroups(inv, groups[..|groups| - 1], use), groups[|groups| - 1], use)
  }

  function InventoryOf(pci: seq<Function>, use: set<nat>): Inventory {
    AddGroups(Inventory([], Bridges(pci)), GroupsOf(pci), use)
  }

  lemma BridgesPush(pci: seq<Function>, n: nat)
    requires n < |pci|
    ensures Bridges(pci[..n + 1])
         == if pci[n].isBridge then Bridges(pci[..n]) + [Hidden(pci[n], Bridge)] else Bridges(pci[..n])
  {
    assert pci[..n + 1][..n] == pci[..n];
  }

  lemma AddGroupsPush(inv: Inventory, groups: seq<Group>, n: nat, use: set<nat>)
    requires n < |groups|
    ensures AddGroups(inv, groups[..n + 1], use) == AddGroup(AddGroups(inv, groups[..n], use), groups[n], use)
  {
    assert groups[..n + 1][..n] == groups[..n];
  }

  method BuildInventory(pci: seq<Function>, use: set<nat>) returns (inv: Inventory)
    ensures inv == InventoryOf(pci, use)
  {
    assert Bridges([]) == [];
    var devices: seq<Device>, hidden: seq<Hidden> := [], [];
    assert AddGroups(Inventory([], Bridges(pci)), [], use) == Inventory([], Bridges(pci));
    hide Bridges, AddGroups, AddGroup, GroupsOf;
    for n := 0 to |pci|
      invariant hidden == Bridges(pci[..n])
    {
      BridgesPush(pci, n);
      if pci[n].isBridge { hidden := hidden + [Hidden(pci[n], Bridge)]; }
    }
    assert pci[..|pci|] == pci;
    var groups := GroupEndpoints(pci);
    for n := 0 to |groups|
      invariant Inventory(devices, hidden) == AddGroups(Inventory([], Bridges(pci)), groups[..n], use)
    {
      AddGroupsPush(Inventory([], Bridges(pci)), groups, n, use);
      devices, hidden := PlaceGroup(devices, hidden, groups[n].members, use, groups[n].key);
    }
    assert groups[..|groups|] == groups;
    return Inventory(devices, hidden);
  }

  method PlaceGroup(devices: seq<Device>, hidden: seq<Hidden>, members: seq<Function>, use: set<nat>, ghost key: Key)
    returns (devices': seq<Device>, hidden': seq<Hidden>)
    ensures Inventory(devices', hidden') == AddGroup(Inventory(devices, hidden), Group(key, members), use)
  {
    devices', hidden' := devices, hidden;
    var offerable, blocked := Offerable(members), Blocked(members, use);
    if offerable == [] {
      for i := 0 to |members|
        invariant hidden' == hidden + HideAll(members[..i])
      {
        var d := members[i];
        assert members[..i + 1][..i] == members[..i];
        hidden' := hidden' + [Hidden(d, if d.class_.Offer? then Chipset else d.class_.category)];
      }
      assert members[..|members|] == members;
      return;
    }
    if blocked.Some? {
      for i := 0 to |members|
        invariant hidden' == hidden + HideBlocked(members[..i], blocked.value)
      {
        var d := members[i];
        assert members[..i + 1][..i] == members[..i];
        hidden' := hidden' + [Hidden(d, if d == blocked.value || d.class_.Offer? then Host else d.class_.category)];
      }
      assert members[..|members|] == members;
      return;
    }
    var lead, travelling := LeadOf(offerable), [];
    for i := 0 to |members|
      invariant travelling == Travelling(members[..i], lead) && hidden' == hidden + HideRest(members[..i], lead)
    {
      var d := members[i];
      assert members[..i + 1][..i] == members[..i];
      if Travels(d, lead) { travelling := travelling + [d]; }
      if d != lead && !d.class_.Offer? && !Travels(d, lead) { hidden' := hidden' + [Hidden(d, d.class_.category)]; }
    }
    assert members[..|members|] == members;
    devices' := devices + [Device(lead, travelling)];
  }

  // ----- Every function is in one place

  ghost predicate UniqueAddresses(pci: seq<Function>) {
    forall i, j :: 0 <= i < j < |pci| ==> pci[i].address != pci[j].address
  }

  function HiddenFunctions(hidden: seq<Hidden>): multiset<Function> {
    if hidden == [] then multiset{}
    else HiddenFunctions(hidden[..|hidden| - 1]) + multiset{hidden[|hidden| - 1].function_}
  }

  function DeviceFunctions(devices: seq<Device>): multiset<Function> {
    if devices == [] then multiset{}
    else
      var d := devices[|devices| - 1];
      DeviceFunctions(devices[..|devices| - 1]) + multiset{d.lead} + multiset(d.members)
  }

  /** Every function with each place it has been put: hidden, leading a device or travelling with one. */
  function Placed(inv: Inventory): multiset<Function> {
    HiddenFunctions(inv.hidden) + DeviceFunctions(inv.devices)
  }

  function GroupFunctions(groups: seq<Group>): multiset<Function> {
    if groups == [] then multiset{} else GroupFunctions(groups[..|groups| - 1]) + multiset(groups[|groups| - 1].members)
  }

  lemma {:induction false} HiddenConcat(a: seq<Hidden>, b: seq<Hidden>)
    ensures HiddenFunctions(a + b) == HiddenFunctions(a) + HiddenFunctions(b)
  {
    if b == [] {
      assert a + b == a;
    } else {
      assert (a + b)[..|a + b| - 1] == a + b[..|b| - 1];
      HiddenConcat(a, b[..|b| - 1]);
    }
  }

  lemma MultisetPush(s: seq<Function>)
    requires s != []
    ensures multiset(s) == multiset(s[..|s| - 1]) + multiset{s[|s| - 1]}
  {
    assert s == s[..|s| - 1] + [s[|s| - 1]];
  }

  lemma {:induction false} HidingWhole(members: seq<Function>, blocked: Function)
    ensures HiddenFunctions(HideAll(members)) == multiset(members)
    ensures HiddenFunctions(HideBlocked(members, blocked)) == multiset(members)
  {
    if members != [] {
      MultisetPush(members);
      HidingWhole(members[..|members| - 1], blocked);
    }
  }

  /** Where one group's functions go, in a group that is offered. */
  function Parts(members: seq<Function>, lead: Function): multiset<Function> {
    HiddenFunctions(HideRest(members, lead)) + multiset(Travelling(members, lead))
  }

  lemma PartsPush(members: seq<Function>, lead: Function)
    requires members != [] && lead.class_.Offer?
    ensures var n := |members| - 1;
            Parts(members, lead)
            == Parts(members[..n], lead) + if members[n] == lead then multiset{} else multiset{members[n]}
  {
    var n := |members| - 1;
    var d := members[n];
    if d != lead && !Travels(d, lead) {
      assert HideRest(members, lead)[..|HideRest(members, lead)| - 1] == HideRest(members[..n], lead);
    }
  }

  lemma {:induction false} PlacingParts(members: seq<Function>, lead: Function)
    requires lead.class_.Offer? && forall i, j :: 0 <= i < j < |members| ==> members[i] != members[j]
    ensures Parts(members, lead) + LeadPart(members, lead) == multiset(members)
  {
    if members != [] {
      hide Parts, LeadPart;
      var n := |members| - 1;
      MultisetPush(members);
      PartsPush(members, lead);
      LeadPartPush(members, lead);
      PlacingParts(members[..n], lead);
    } else {
      assert Parts(members, lead) == multiset{};
    }
  }

  function LeadPart(members: seq<Function>, lead: Function): multiset<Function> {
    if lead in members then multiset{lead} else multiset{}
  }

  lemma LeadPartPush(members: seq<Function>, lead: Function)
    requires members != [] && forall i, j :: 0 <= i < j < |members| ==> members[i] != members[j]
    ensures var n := |members| - 1;
            LeadPart(members, lead)
            == LeadPart(members[..n], lead) + if members[n] == lead then multiset{lead} else multiset{}
  {
    var n := |members| - 1;
    assert members == members[..n] + [members[n]];
    assert members[n] !in members[..n];
  }

  lemma AddGroupPlaces(inv: Inventory, g: Group, use: set<nat>)
    requires forall i, j :: 0 <= i < j < |g.members| ==> g.members[i] != g.members[j]
    ensures Placed(AddGroup(inv, g, use)) == Placed(inv) + multiset(g.members)
  {
    hide HideAll, HideBlocked, HideRest, Travelling, Blocked, LeadOf, HiddenFunctions;
    var offerable, blocked := Offerable(g.members), Blocked(g.members, use);
    if offerable == [] {
      HiddenConcat(inv.hidden, HideAll(g.members));
      HidingWhole(g.members, Function(0, false, None, None, Keep(Host), false));
    } else if blocked.Some? {
      HiddenConcat(inv.hidden, HideBlocked(g.members, blocked.value));
      HidingWhole(g.members, blocked.value);
    } else {
      var lead := LeadOf(offerable);
      HiddenConcat(inv.hidden, HideRest(g.members, lead));
      PlacingParts(g.members, lead);
      var device := Device(lead, Travelling(g.members, lead));
      assert (inv.devices + [device])[..|inv.devices|] == inv.devices;
    }
  }

  /** What is true of the groups of some functions. */
  ghost predicate Grouped(groups: seq<Group>, pci: seq<Function>) {
    && (forall i, j :: 0 <= i < j < |groups| ==> groups[i].key != groups[j].key)
    && (forall i :: 0 <= i < |groups| ==>
                      (forall d :: d in groups[i].members <==> d in pci && !d.isBridge && KeyOf(d) == groups[i].key))
    && (forall d :: d in pci && !d.isBridge ==> exists i :: 0 <= i < |groups| && groups[i].key == KeyOf(d))
  }

  ghost predicate Unrepeated(groups: seq<Group>) {
    forall g :: g in groups ==> forall i, j :: 0 <= i < j < |g.members| ==> g.members[i] != g.members[j]
  }

  lemma AddToGroups(groups: seq<Group>, pci: seq<Function>, d: Function)
    requires Grouped(groups, pci) && !d.isBridge
    ensures Grouped(AddTo(groups, d), pci + [d])
    ensures d !in pci && Unrepeated(groups) ==> Unrepeated(AddTo(groups, d))
  {
    if d !in pci && Unrepeated(groups) { AddKeepsUnrepeated(groups, pci, d); }
    hide Unrepeated;
    var groups' := AddTo(groups, d);
    assert forall j :: 0 <= j < |groups| ==> groups'[j].key == groups[j].key;
    var i := IndexOfKey(groups, KeyOf(d));
    assert groups'[if i >= 0 then i else |groups|].key == KeyOf(d);
    if i < 0 {
      forall e | e in pci && !e.isBridge ensures KeyOf(e) != KeyOf(d) {
        var j :| 0 <= j < |groups| && groups[j].key == KeyOf(e);
      }
    }
  }

  lemma AddKeepsUnrepeated(groups: seq<Group>, pci: seq<Function>, d: Function)
    requires Grouped(groups, pci) && Unrepeated(groups) && d !in pci
    ensures Unrepeated(AddTo(groups, d))
  {
    forall g | g in AddTo(groups, d) ensures forall i, j :: 0 <= i < j < |g.members| ==> g.members[i] != g.members[j] {
      var k := IndexOfKey(groups, KeyOf(d));
      if k >= 0 && g == AddTo(groups, d)[k] {
        assert groups[k] in groups;
      } else if k < 0 && g == Group(KeyOf(d), [d]) {
      } else {
        assert g in groups;
      }
    }
  }

  lemma {:induction false} GroupsAreGroups(pci: seq<Function>)
    ensures Grouped(GroupsOf(pci), pci)
    ensures UniqueAddresses(pci) ==> Unrepeated(GroupsOf(pci))
  {
    if pci != [] {
      var n := |pci| - 1;
      var d, before := pci[n], pci[..n];
      assert pci == before + [d];
      assert UniqueAddresses(pci) ==> UniqueAddresses(before) && d !in before;
      assert GroupsOf(pci) == if d.isBridge then GroupsOf(before) else AddTo(GroupsOf(before), d);
      GroupsAreGroups(before);
      hide GroupsOf, AddTo, UniqueAddresses, Unrepeated;
      if !d.isBridge {
        AddToGroups(GroupsOf(before), before, d);
      }
    }
  }

  lemma {:induction false} GroupFunctionsUpdate(groups: seq<Group>, i: nat, d: Function)
    requires i < |groups|
    ensures GroupFunctions(groups[i := groups[i].(members := groups[i].members + [d])])
            == GroupFunctions(groups) + multiset{d}
  {
    var n := |groups| - 1;
    var groups' := groups[i := groups[i].(members := groups[i].members + [d])];
    assert GroupFunctions(groups) == GroupFunctions(groups[..n]) + multiset(groups[n].members);
    assert GroupFunctions(groups') == GroupFunctions(groups'[..n]) + multiset(groups'[n].members);
    hide GroupFunctions;
    if i < n {
      assert groups'[..n] == groups[..n][i := groups'[i]];
      GroupFunctionsUpdate(groups[..n], i, d);
    } else {
      assert groups'[..n] == groups[..n];
    }
  }

  lemma {:induction false} GroupsHoldAll(pci: seq<Function>)
    ensures GroupFunctions(GroupsOf(pci)) + HiddenFunctions(Bridges(pci)) == multiset(pci)
  {
    if pci != [] {
      var n := |pci| - 1;
      var d, groups := pci[n], GroupsOf(pci[..n]);
      MultisetPush(pci);
      GroupsHoldAll(pci[..n]);
      if d.isBridge {
        assert (Bridges(pci[..n]) + [Hidden(d, Bridge)])[..|Bridges(pci[..n])|] == Bridges(pci[..n]);
      } else {
        var i := IndexOfKey(groups, KeyOf(d));
        if i >= 0 {
          GroupFunctionsUpdate(groups, i, d);
        } else {
          assert (groups + [Group(KeyOf(d), [d])])[..|groups|] == groups;
        }
      }
    }
  }

  lemma {:induction false} AddGroupsPlaces(inv: Inventory, groups: seq<Group>, use: set<nat>)
    requires Unrepeated(groups)
    ensures Placed(AddGroups(inv, groups, use)) == Placed(inv) + GroupFunctions(groups)
  {
    if groups != [] {
      var n := |groups| - 1;
      assert groups[n] in groups && forall g :: g in groups[..n] ==> g in groups;
      AddGroupsPlaces(inv, groups[..n], use);
      AddGroupPlaces(AddGroups(inv, groups[..n], use), groups[n], use);
    }
  }

  /** Every function is in exactly one place: hidden, leading a device, or travelling with one. */
  lemma EveryFunctionOnce(pci: seq<Function>, use: set<nat>)
    requires UniqueAddresses(pci)
    ensures Placed(InventoryOf(pci, use)) == multiset(pci)
    ensures forall d :: d in pci ==> Placed(InventoryOf(pci, use))[d] == 1
  {
    GroupsAreGroups(pci);
    GroupsHoldAll(pci);
    AddGroupsPlaces(Inventory([], Bridges(pci)), GroupsOf(pci), use);
    forall d | d in pci ensures multiset(pci)[d] == 1 { OnceIn(pci, d); }
  }

  lemma {:induction false} OnceIn(pci: seq<Function>, d: Function)
    requires UniqueAddresses(pci)
    ensures multiset(pci)[d] == if d in pci then 1 else 0
  {
    if pci != [] {
      MultisetPush(pci);
      OnceIn(pci[..|pci| - 1], d);
      assert pci == pci[..|pci| - 1] + [pci[|pci| - 1]];
    }
  }

  // ----- What is offered can be attached, and started with

  lemma {:induction false} TravellingIs(members: seq<Function>, lead: Function)
    ensures forall d :: d in Travelling(members, lead) <==> d in members && Travels(d, lead)
  {
    if members != [] {
      var n := |members| - 1;
      TravellingIs(members[..n], lead);
      assert members == members[..n] + [members[n]];
    }
  }

  /** A group is offered. */
  ghost predicate Offers(members: seq<Function>, use: set<nat>) {
    && (exists d :: d in members && d.class_.Offer?)
    && forall d :: d in members ==> d.address !in use && !(d.driver.Some? && d.chipset)
  }

  lemma OffersMeans(members: seq<Function>, use: set<nat>)
    ensures Offers(members, use) <==>
            && (exists d :: d in members && d.class_.Offer?)
            && forall d :: d in members ==> d.address !in use && !(d.driver.Some? && d.chipset)
  {
  }

  lemma OffersIs(members: seq<Function>, use: set<nat>)
    ensures Offers(members, use) <==> Offerable(members) != [] && Blocked(members, use) == None
  {
    if Offerable(members) != [] { assert Offerable(members)[0] in Offerable(members); }
  }

  /**
   A device is what one group offers: with nothing in it that the host needs, led by the first in order of kind and
   address of what is offered, and with all the rest that is, or that a driver of the host's has.
   */
  ghost predicate WellMade(dev: Device, pci: seq<Function>, use: set<nat>) {
    && dev.lead in pci && !dev.lead.isBridge && dev.lead.class_.Offer?
    && (forall d ::
      d in dev.members <==>
        && d in pci && !d.isBridge && KeyOf(d) == KeyOf(dev.lead) && d != dev.lead
        && (d.class_.Offer? || (d.driver.Some? && d.driver.value != "vfio-pci" && d.driver.value != "pci-stub")))
    && (forall d :: d in pci && !d.isBridge && KeyOf(d) == KeyOf(dev.lead) ==>
                      d.address !in use && !(d.driver.Some? && d.chipset)
                      && (d.class_.Offer? ==>
                            dev.lead.class_.rank < d.class_.rank
                            || (dev.lead.class_.rank == d.class_.rank && dev.lead.address <= d.address)))
  }

  lemma GroupWellMade(g: Group, pci: seq<Function>, use: set<nat>)
    requires forall d :: d in g.members <==> d in pci && !d.isBridge && KeyOf(d) == g.key
    requires Offerable(g.members) != [] && Blocked(g.members, use) == None
    ensures var lead := LeadOf(Offerable(g.members)); WellMade(Device(lead, Travelling(g.members, lead)), pci, use)
  {
    OffersIs(g.members, use);
    hide Offerable, Blocked, Travelling, LeadOf, KeyOf;
    TravellingIs(g.members, LeadOf(Offerable(g.members)));
  }

  lemma {:induction false} DevicesWellMade(inv: Inventory, groups: seq<Group>, pci: seq<Function>, use: set<nat>)
    requires inv.devices == []
    requires forall g :: g in groups ==> forall d :: d in g.members <==> d in pci && !d.isBridge && KeyOf(d) == g.key
    ensures forall dev :: dev in AddGroups(inv, groups, use).devices ==> WellMade(dev, pci, use)
  {
    if groups != [] {
      var n := |groups| - 1;
      var g := groups[n];
      assert groups == groups[..n] + [g];
      DevicesWellMade(inv, groups[..n], pci, use);
      hide HideAll, HideBlocked, HideRest, Travelling, LeadOf, Offerable, Blocked, WellMade;
      if Offerable(g.members) != [] && Blocked(g.members, use) == None { GroupWellMade(g, pci, use); }
    }
  }

  lemma InventoryWellMade(pci: seq<Function>, use: set<nat>)
    ensures forall dev :: dev in InventoryOf(pci, use).devices ==> WellMade(dev, pci, use)
  {
    GroupsAreGroups(pci);
    DevicesWellMade(Inventory([], Bridges(pci)), GroupsOf(pci), pci, use);
  }

  lemma {:induction false} OfferedGroups(inv: Inventory, groups: seq<Group>, use: set<nat>, key: Key)
    requires inv.devices == []
    requires forall g, d :: g in groups && d in g.members ==> KeyOf(d) == g.key
    ensures (exists dev :: dev in AddGroups(inv, groups, use).devices && KeyOf(dev.lead) == key)
       <==> exists g :: g in groups && g.key == key && Offers(g.members, use)
  {
    if groups != [] {
      var n := |groups| - 1;
      var before, g := AddGroups(inv, groups[..n], use), groups[n];
      assert groups == groups[..n] + [g];
      OfferedGroups(inv, groups[..n], use, key);
      OffersIs(g.members, use);
      hide HideAll, HideBlocked, HideRest, Travelling, LeadOf, KeyOf, Offers, Blocked;
      if Offers(g.members, use) {
        var dev := Device(LeadOf(Offerable(g.members)), Travelling(g.members, LeadOf(Offerable(g.members))));
        assert AddGroup(before, g, use).devices == before.devices + [dev];
        assert KeyOf(dev.lead) == g.key;
      } else {
        assert AddGroup(before, g, use).devices == before.devices;
      }
    }
  }

  /**
   A function's group is offered exactly when something in it is of a kind that can be, the host uses nothing in it,
   and none of it is of the chipset with a driver.
   */
  lemma OfferedIff(pci: seq<Function>, use: set<nat>, d: Function)
    requires d in pci && !d.isBridge
    ensures (exists dev :: dev in InventoryOf(pci, use).devices && KeyOf(dev.lead) == KeyOf(d))
       <==> && (exists e :: e in pci && !e.isBridge && KeyOf(e) == KeyOf(d) && e.class_.Offer?)
            && forall e :: e in pci && !e.isBridge && KeyOf(e) == KeyOf(d) ==>
                             e.address !in use && !(e.driver.Some? && e.chipset)
  {
    hide KeyOf, AddGroups, GroupsOf, Bridges, Unrepeated, Offers;
    var groups := GroupsOf(pci);
    GroupsAreGroups(pci);
    OfferedGroups(Inventory([], Bridges(pci)), groups, use, KeyOf(d));
    var i :| 0 <= i < |groups| && groups[i].key == KeyOf(d);
    assert groups[i] in groups;
    assert forall g :: g in groups && g.key == KeyOf(d) ==> g == groups[i];
    hide Grouped;
    assert Offers(groups[i].members, use) <==>
        && (exists e :: e in groups[i].members && e.class_.Offer?)
        && forall e :: e in groups[i].members ==> e.address !in use && !(e.driver.Some? && e.chipset) by {
      OffersMeans(groups[i].members, use);
    }
  }

  /** What a function that is not offered is said to be part of. */
  ghost predicate SaysRight(h: Hidden, use: set<nat>) {
    var d := h.function_;
    if d.isBridge then h.category == Bridge
    else if d.class_.Offer? then h.category == Host
    else h.category == d.class_.category
         || (h.category == Host && (d.address in use || (d.driver.Some? && d.chipset)))
  }

  lemma {:induction false} HidingSays(members: seq<Function>, use: set<nat>, lead: Function, blocked: Function)
    requires forall d :: d in members ==> !d.isBridge
    requires blocked.address in use || (blocked.driver.Some? && blocked.chipset)
    ensures forall h :: h in HideBlocked(members, blocked) || h in HideRest(members, lead) ==> SaysRight(h, use)
    ensures (forall d :: d in members ==> !d.class_.Offer?) ==> forall h :: h in HideAll(members) ==> SaysRight(h, use)
  {
    if members != [] {
      assert members == members[..|members| - 1] + [members[|members| - 1]];
      HidingSays(members[..|members| - 1], use, lead, blocked);
    }
  }

  lemma {:induction false} BridgesSay(pci: seq<Function>, use: set<nat>)
    ensures forall h :: h in Bridges(pci) ==> SaysRight(h, use)
  {
    if pci != [] { BridgesSay(pci[..|pci| - 1], use); }
  }

  lemma AddGroupSays(inv: Inventory, g: Group, use: set<nat>)
    requires forall d :: d in g.members ==> !d.isBridge
    requires forall h :: h in inv.hidden ==> SaysRight(h, use)
    ensures forall h :: h in AddGroup(inv, g, use).hidden ==> SaysRight(h, use)
  {
    hide HideAll, HideBlocked, HideRest, Travelling, LeadOf, SaysRight;
    var offerable, blocked := Offerable(g.members), Blocked(g.members, use);
    var some := if blocked.Some? then blocked.value else Function(0, false, None, Some(""), Keep(Host), true);
    var lead := if offerable == [] then some else LeadOf(offerable);
    assert offerable == [] ==> forall d :: d in g.members ==> !d.class_.Offer?;
    HidingSays(g.members, use, lead, some);
  }

  lemma {:induction false} AddGroupsSay(inv: Inventory, groups: seq<Group>, use: set<nat>)
    requires forall g, d :: g in groups && d in g.members ==> !d.isBridge
    requires forall h :: h in inv.hidden ==> SaysRight(h, use)
    ensures forall h :: h in AddGroups(inv, groups, use).hidden ==> SaysRight(h, use)
  {
    if groups != [] {
      var n := |groups| - 1;
      assert groups == groups[..n] + [groups[n]];
      AddGroupsSay(inv, groups[..n], use);
      AddGroupSays(AddGroups(inv, groups[..n], use), groups[n], use);
    }
  }

  /**
   A bridge is hidden as one. Of the rest, one of a kind that is offered is hidden as the host's; any other as what it
   is, or as the host's when the host uses it or it is of the chipset with a driver.
   */
  lemma HiddenSaysWhy(pci: seq<Function>, use: set<nat>, h: Hidden)
    requires h in InventoryOf(pci, use).hidden
    ensures SaysRight(h, use)
  {
    GroupsAreGroups(pci);
    BridgesSay(pci, use);
    AddGroupsSay(Inventory([], Bridges(pci)), GroupsOf(pci), use);
  }

  /** Nothing the host uses, and nothing of the chipset it cannot do without, is ever offered or taken along. */
  lemma HostKeepsWhatItNeeds(pci: seq<Function>, use: set<nat>, dev: Device, d: Function)
    requires dev in InventoryOf(pci, use).devices && (d == dev.lead || d in dev.members)
    ensures d.address !in use && !(d.driver.Some? && d.chipset)
  {
    InventoryWellMade(pci, use);
  }

  /** The addresses attachPci gives a VM. */
  function Attached(dev: Device): set<nat> {
    {dev.lead.address} + set d | d in dev.members :: d.address
  }

  /** The functions checkBeforeStart finds in the way of one of this VM's, `group` being what its own facts say. */
  function Blockers(pci: seq<Function>, group: Option<int>, mine: set<nat>): (b: seq<Function>)
    ensures forall d ::
            d in b <==> d in pci && d.iommuGroup == group && d.address !in mine && !d.isBridge
                        && d.driver.Some? && d.driver.value != "vfio-pci" && d.driver.value != "pci-stub"
  {
    if pci == [] then []
    else
      var rest, d := Blockers(pci[..|pci| - 1], group, mine), pci[|pci| - 1];
      assert pci == pci[..|pci| - 1] + [d];
      if d.iommuGroup == group && d.address !in mine && !d.isBridge && HostBound(d) then rest + [d] else rest
  }

  /** What is attached for a device of an isolation group leaves nothing in the way of its start, on the same facts. */
  lemma AttachedCanStart(pci: seq<Function>, use: set<nat>, dev: Device, mine: set<nat>)
    requires dev in InventoryOf(pci, use).devices && dev.lead.iommuGroup.Some?
    requires Attached(dev) <= mine
    ensures forall d :: d == dev.lead || d in dev.members ==> Blockers(pci, d.iommuGroup, mine) == []
  {
    var b := Blockers(pci, dev.lead.iommuGroup, mine);
    assert |b| > 0 ==> b[0] in b;
    InventoryWellMade(pci, use);
    forall d | d in pci && d.iommuGroup == dev.lead.iommuGroup && !d.isBridge && HostBound(d)
      ensures d.address in Attached(dev)
    {
      assert KeyOf(d) == KeyOf(dev.lead);
    }
  }

  /**
   A device with no group stands alone, but the check takes all functions without one for a group: it
   finds nothing in the way exactly when no other of them has a driver of the host's.
   */
  lemma UngroupedCanStart(pci: seq<Function>, use: set<nat>, dev: Device)
    requires UniqueAddresses(pci) && dev in InventoryOf(pci, use).devices && dev.lead.iommuGroup == None
    ensures dev.members == []
    ensures Blockers(pci, None, Attached(dev)) == []
            <==> forall d :: d in pci && d.iommuGroup == None && !d.isBridge && HostBound(d) ==> d == dev.lead
  {
    assert |dev.members| > 0 ==> dev.members[0] in dev.members;
    InventoryWellMade(pci, use);
    assert forall d :: d in pci && KeyOf(d) == KeyOf(dev.lead) ==> d == dev.lead;
    var b := Blockers(pci, None, Attached(dev));
    if b == [] {
      forall d | d in pci && d.iommuGroup == None && !d.isBridge && HostBound(d) ensures d == dev.lead {
        assert d !in b;
      }
    } else {
      assert b[0] in b;
    }
  }

  const NIC := Function(1, false, None, Some("e1000e"), Offer(0), false)
  const AUDIO := Function(2, false, None, Some("snd_hda_intel"), Keep(Chipset), false)

  lemma TwoAlone(a: Function, b: Function)
    requires !a.isBridge && !b.isBridge && a.iommuGroup == None && b.iommuGroup == None && a.address != b.address
    ensures GroupsOf([a, b]) == [Group(Alone(a.address), [a]), Group(Alone(b.address), [b])]
  {
    assert [a, b][..1] == [a] && [a][..0] == [];
    assert GroupsOf([]) == [] && GroupsOf([a]) == AddTo(GroupsOf([]), a);
    assert GroupsOf([a, b]) == AddTo(GroupsOf([a]), b);
    hide GroupsOf;
    assert AddTo([], a) == [Group(Alone(a.address), [a])];
  }

  lemma NicIsOffered(inv: Inventory)
    ensures AddGroup(inv, Group(Alone(1), [NIC]), {}).devices == inv.devices + [Device(NIC, [])]
  {
    assert [NIC][..0] == [] && Offerable([NIC]) == [NIC] && Travelling([NIC], NIC) == [];
    assert Blocked([NIC], {}) == None;
  }

  lemma AudioIsHidden(inv: Inventory)
    ensures AddGroup(inv, Group(Alone(2), [AUDIO]), {}).devices == inv.devices
  {
    assert [AUDIO][..0] == [] && Offerable([AUDIO]) == [];
  }

  lemma HasHostDriver(d: Function)
    requires d.driver == Some("snd_hda_intel")
    ensures HostBound(d)
  {
    assert "snd_hda_intel"[0] != "vfio-pci"[0] && "snd_hda_intel"[0] != "pci-stub"[0];
  }

  /** Two functions with no group: the offered one stands alone, and the other's driver is in the way of its start. */
  lemma UngroupedIsBlocked()
    ensures UniqueAddresses([NIC, AUDIO]) && Device(NIC, []) in InventoryOf([NIC, AUDIO], {}).devices
    ensures AUDIO in Blockers([NIC, AUDIO], None, Attached(Device(NIC, [])))
  {
    hide AddGroup, GroupsOf, Blockers, HostBound;
    var g1, g2 := Group(Alone(1), [NIC]), Group(Alone(2), [AUDIO]);
    var empty := Inventory([], Bridges([NIC, AUDIO]));
    TwoAlone(NIC, AUDIO);
    assert [g1, g2][..1] == [g1] && [g1][..0] == [];
    assert AddGroups(empty, [g1], {}) == AddGroup(empty, g1, {});
    NicIsOffered(empty);
    AudioIsHidden(AddGroup(empty, g1, {}));
    HasHostDriver(AUDIO);
  }
}
