/**
 A managed bridge's physical NIC: the plan of lib/managedBridge.ts, and the passes of
 services/bridgeService.ts that carry it out over and over while the host's own network configuration
 goes on around them. One NIC and one bridge; times are milliseconds. VirtPilot's own `ip` steps
 succeed, and nothing else puts the NIC on this bridge.
 */
module Uplink {
  import opened Wrappers

  datatype Networkd = Unmanaged | Configuring | Finished

  datatype Facts = Facts(
    present: bool, master: Option<string>, up: bool, hasAddress: bool, defaultRoute: bool, networkd: Networkd)

  datatype Refusal = NotHere | OnAnother | HasAddress | DefaultRoute | Claimed

  datatype IpStep = SetNoMaster | SetMaster(bridge: string) | SetUp

  datatype Plan = Plan(refusal: Option<Refusal>, steps: seq<IpStep>, claimed: Option<bool>)

  const HOST_CONFIG_HOLD_MS: int := 150_000

  // ----- The plan

  function UplinkRefusal(bridge: string, f: Facts, claimed: bool): Option<Refusal> {
    if !f.present then Some(NotHere)
    else if f.master.Some? && f.master.value != bridge then Some(OnAnother)
    else if f.hasAddress then Some(HasAddress)
    else if f.master == Some(bridge) then None
    else if f.defaultRoute then Some(DefaultRoute)
    else if claimed && f.networkd != Unmanaged then Some(Claimed)
    else None
  }

  function PlanUplink(bridge: string, f: Facts, claimed: bool): Plan {
    var refusal := UplinkRefusal(bridge, f, claimed);
    if refusal.Some? then
      Plan(refusal, if f.master == Some(bridge) then [SetNoMaster] else [],
           if f.hasAddress || f.defaultRoute then Some(true) else None)
    else
      Plan(None, (if f.master != Some(bridge) then [SetMaster(bridge)] else []) + (if !f.up then [SetUp] else []),
           if claimed then Some(false) else None)
  }

  predicate HoldForHostConfig(since: int, now: int) {
    now - since < HOST_CONFIG_HOLD_MS
  }

  /** What the device is like after one `ip` step. */
  function Exec(f: Facts, s: IpStep): Facts {
    match s
    case SetNoMaster => f.(master := None)
    case SetMaster(bridge) => f.(master := Some(bridge))
    case SetUp => f.(up := true)
  }

  function ExecAll(f: Facts, steps: seq<IpStep>): Facts
    decreases |steps|
  {
    if steps == [] then f else ExecAll(Exec(f, steps[0]), steps[1..])
  }

  function ClaimAfter(claimed: bool, plan: Plan): bool {
    if plan.claimed.Some? then plan.claimed.value else claimed
  }

  /** A NIC is only ever taken when nothing says the host is reached through it, or means to be. */
  lemma TakesOnlySpare(bridge: string, f: Facts, claimed: bool)
    requires SetMaster(bridge) in PlanUplink(bridge, f, claimed).steps
    ensures f.present && f.master == None && !f.hasAddress && !f.defaultRoute
    ensures claimed ==> f.networkd == Unmanaged && ClaimAfter(claimed, PlanUplink(bridge, f, claimed)) == false
  {
  }

  /** Once its steps are done, the same facts give no more. */
  lemma PlanningAgainGivesNothing(bridge: string, f: Facts, claimed: bool)
    ensures var plan := PlanUplink(bridge, f, claimed);
            PlanUplink(bridge, ExecAll(f, plan.steps), ClaimAfter(claimed, plan)).steps == []
  {
    var plan := PlanUplink(bridge, f, claimed);
    var f' := ExecAll(f, plan.steps);
    if |plan.steps| == 2 {
      assert plan.steps[1..] == [SetUp] && [SetUp][1..] == [];
      assert ExecAll(Exec(f, plan.steps[0]), [SetUp]) == ExecAll(Exec(Exec(f, plan.steps[0]), SetUp), []);
    } else if |plan.steps| == 1 {
      assert plan.steps[1..] == [];
    }
  }

  // ----- Passes

  /**
   The NIC as it is, the claim kept with the network's record, and since when systemd-networkd has been
   seen configuring it.
   */
  datatype State = State(nic: Facts, claimed: bool, since: Option<int>)

  /** What reading the NIC gives: of a port of anything, no more than its address, and that only if it can be read. */
  function Read(nic: Facts, addressReadable: bool): Facts {
    if !nic.present then Facts(false, None, false, false, false, Unmanaged)
    else if nic.master.Some? then
      nic.(hasAddress := nic.hasAddress && addressReadable, defaultRoute := false, networkd := Unmanaged)
    else nic
  }

  datatype Event =
    | Pass(now: int, readable: bool, addressReadable: bool)
    | Host(nic: Facts)
    | Restart

  predicate Waiting(bridge: string, s: State, f: Facts) {
    UplinkRefusal(bridge, f, s.claimed) == None && f.master != Some(bridge) && f.networkd == Configuring
  }

  function SinceAfter(bridge: string, s: State, f: Facts, now: int): Option<int> {
    if Waiting(bridge, s, f) then (if s.since.Some? then s.since else Some(now)) else None
  }

  /** The steps one pass carries out. */
  function StepsTaken(bridge: string, s: State, e: Event): seq<IpStep> {
    if !e.Pass? || !e.readable then []
    else
      var f := Read(s.nic, e.addressReadable);
      if Waiting(bridge, s, f) && HoldForHostConfig(SinceAfter(bridge, s, f, e.now).value, e.now) then []
      else PlanUplink(bridge, f, s.claimed).steps
  }

  function Next(bridge: string, s: State, e: Event): State {
    match e
    case Host(nic) => s.(nic := nic)
    case Restart => s.(since := None)
    case Pass(now, readable, addressReadable) =>
      if !readable then s
      else
        var f := Read(s.nic, addressReadable);
        State(ExecAll(s.nic, StepsTaken(bridge, s, e)), ClaimAfter(s.claimed, PlanUplink(bridge, f, s.claimed)),
              SinceAfter(bridge, s, f, now))
  }

  // ----- What a pass does, told by the NIC itself

  /** On the host, a port of nothing, with neither address nor default route; and let go of, if there is a claim. */
  predicate Spare(s: State) {
    && s.nic.present && s.nic.master == None && !s.nic.hasAddress && !s.nic.defaultRoute
    && (s.claimed ==> s.nic.networkd == Unmanaged)
  }

  /**
   A pass that can read the NIC takes it exactly when it is spare and, while systemd-networkd is configuring it,
   has been seen so for 150 seconds; gives it back exactly when it is on the bridge with an address that can be read;
   and brings it up when it is down and on the bridge or taken.
   */
  lemma StepsAre(bridge: string, s: State, now: int, readable: bool, addressReadable: bool)
    ensures var nic := s.nic;
            var port := nic.present && nic.master == Some(bridge);
            var taken := Spare(s)
                         && (nic.networkd == Configuring ==> s.since.Some? && now - s.since.value >= 150_000);
            StepsTaken(bridge, s, Pass(now, readable, addressReadable))
            == if !readable then []
               else if port && nic.hasAddress && addressReadable then [SetNoMaster]
               else (if taken then [SetMaster(bridge)] else []) + (if (taken || port) && !nic.up then [SetUp] else [])
  {
  }

  /**
   A pass that can read the NIC leaves a claim when it sees an address or, on a port of nothing, a default route; it
   ends one when it finds the NIC spare or on the bridge; and it keeps what was there when it finds neither. It
   remembers when it first saw a spare NIC being configured, for as long as that is what it sees.
   */
  lemma RemembersAre(bridge: string, s: State, now: int, readable: bool, addressReadable: bool)
    ensures var nic, s' := s.nic, Next(bridge, s, Pass(now, readable, addressReadable));
            if !readable then s' == s
            else
              && s'.claimed == (if nic.present && (if nic.master == None then nic.hasAddress || nic.defaultRoute
                                                   else nic.hasAddress && addressReadable) then true
                                else if Spare(s) || (nic.present && nic.master == Some(bridge)) then false
                                else s.claimed)
              && s'.since == (if Spare(s) && nic.networkd == Configuring then
                                if s.since.Some? then s.since else Some(now)
                              else None)
  {
  }

  /** The pass as services/bridgeService.ts makes it, updating what it keeps as it goes. */
  class Syncer {
    const bridge: string
    var nic: Facts
    var claimed: bool
    var configuringSince: Option<int>

    constructor (bridge: string, nic: Facts, claimed: bool)
      ensures this.bridge == bridge && State(this.nic, this.claimed, configuringSince) == State(nic, claimed, None)
    {
      this.bridge, this.nic, this.claimed, configuringSince := bridge, nic, claimed, None;
    }

    function Now(): State
      reads this
    {
      State(nic, claimed, configuringSince)
    }

    method SyncUplink(now: int, readable: bool, addressReadable: bool) returns (taken: seq<IpStep>)
      modifies this
      ensures taken == StepsTaken(bridge, old(Now()), Pass(now, readable, addressReadable))
      ensures Now() == Next(bridge, old(Now()), Pass(now, readable, addressReadable))
    {
      if !readable { return []; }
      var facts := Read(nic, addressReadable);
      var plan := PlanUplink(bridge, facts, claimed);
      claimed := ClaimAfter(claimed, plan);
      if plan.refusal.Some? {
        configuringSince := None;
      } else if facts.master != Some(bridge) && facts.networkd == Configuring {
        var since := if configuringSince.Some? then configuringSince.value else now;
        configuringSince := Some(since);
        if HoldForHostConfig(since, now) { return []; }
      } else {
        configuringSince := None;
      }
      RunSteps(plan.steps);
      return plan.steps;
    }

    method RunSteps(steps: seq<IpStep>)
      modifies this`nic
      ensures nic == ExecAll(old(nic), steps)
    {
      for i := 0 to |steps|
        invariant ExecAll(nic, steps[i..]) == ExecAll(old(nic), steps)
      {
        nic := Exec(nic, steps[i]);
        assert steps[i..][1..] == steps[i + 1..];
      }
    }
  }

  // ----- Whole runs

  function After(bridge: string, start: State, run: seq<Event>): State {
    if run == [] then start else Next(bridge, After(bridge, start, run[..|run| - 1]), run[|run| - 1])
  }

  function Before(bridge: string, start: State, run: seq<Event>, i: nat): State
    requires i <= |run|
  {
    After(bridge, start, run[..i])
  }

  /** What event i read of the NIC, for one that read anything. */
  function Seen(bridge: string, start: State, run: seq<Event>, i: nat): Facts
    requires i < |run| && run[i].Pass?
  {
    Read(Before(bridge, start, run, i).nic, run[i].addressReadable)
  }

  predicate ReadsAt(run: seq<Event>, i: nat)
    requires i < |run|
  {
    run[i].Pass? && run[i].readable
  }

  predicate TakenAt(bridge: string, start: State, run: seq<Event>, i: nat)
    requires i < |run|
  {
    SetMaster(bridge) in StepsTaken(bridge, Before(bridge, start, run, i), run[i])
  }

  /** A NIC with nothing on it, of no bridge and with no claim, that systemd-networkd is still configuring. */
  predicate WaitingAt(bridge: string, start: State, run: seq<Event>, i: nat)
    requires i < |run| && run[i].Pass?
  {
    var s := Before(bridge, start, run, i);
    Spare(s) && s.nic.networkd == Configuring
  }

  /** Nothing but VirtPilot puts the NIC on this bridge, and to begin with no claim is on a NIC that is there. */
  ghost predicate OnlyVirtPilotJoins(bridge: string, start: State, run: seq<Event>) {
    && (start.claimed ==> start.nic.master != Some(bridge))
    && forall i :: 0 <= i < |run| && run[i].Host? && run[i].nic.master == Some(bridge) ==>
                     Before(bridge, start, run, i).nic.master == Some(bridge)
  }

  lemma BeforeNext(bridge: string, start: State, run: seq<Event>, i: nat)
    requires i < |run|
    ensures Before(bridge, start, run, i + 1) == Next(bridge, Before(bridge, start, run, i), run[i])
  {
    assert run[..i + 1][..i] == run[..i];
  }

  lemma BeforeAny(bridge: string, start: State, run: seq<Event>)
    ensures Before(bridge, start, run, 0) == start
  {
    assert run[..0] == [];
  }

  lemma ExecMaster(bridge: string, f: Facts, nic: Facts, claimed: bool)
    ensures var steps := PlanUplink(bridge, f, claimed).steps;
            ExecAll(nic, steps).master == if SetMaster(bridge) in steps then Some(bridge)
                                          else if SetNoMaster in steps then None else nic.master
  {
    var steps := PlanUplink(bridge, f, claimed).steps;
    if |steps| == 2 {
      assert steps[1..] == [SetUp];
      assert ExecAll(nic, steps) == ExecAll(Exec(nic, steps[0]), [SetUp]);
      assert ExecAll(Exec(nic, steps[0]), [SetUp]) == ExecAll(Exec(Exec(nic, steps[0]), SetUp), [SetUp][1..]);
    } else if |steps| == 1 {
      assert ExecAll(nic, steps) == ExecAll(Exec(nic, steps[0]), steps[1..]);
    }
  }

  /** A claimed NIC is never on the bridge. */
  lemma {:induction false} ClaimedIsOff(bridge: string, start: State, run: seq<Event>, n: nat)
    requires OnlyVirtPilotJoins(bridge, start, run) && n <= |run|
    ensures Before(bridge, start, run, n).claimed ==> Before(bridge, start, run, n).nic.master != Some(bridge)
  {
    if n > 0 {
      ClaimedIsOff(bridge, start, run, n - 1);
      BeforeNext(bridge, start, run, n - 1);
      if run[n - 1].Pass? {
        var s := Before(bridge, start, run, n - 1);
        ExecMaster(bridge, Read(s.nic, run[n - 1].addressReadable), s.nic, s.claimed);
      }
    }
  }

  /** A pass that sees the host using the NIC leaves a claim on it. */
  lemma UseIsClaimed(bridge: string, start: State, run: seq<Event>, i: nat)
    requires i < |run| && ReadsAt(run, i)
    requires Seen(bridge, start, run, i).hasAddress || Seen(bridge, start, run, i).defaultRoute
    ensures Before(bridge, start, run, i + 1).claimed
  {
    BeforeNext(bridge, start, run, i);
  }

  /** Only a pass that takes the NIC ends a claim. */
  lemma ClaimEndsByTaking(bridge: string, start: State, run: seq<Event>, n: nat)
    requires OnlyVirtPilotJoins(bridge, start, run) && n < |run|
    requires Before(bridge, start, run, n).claimed && !Before(bridge, start, run, n + 1).claimed
    ensures TakenAt(bridge, start, run, n)
  {
    BeforeNext(bridge, start, run, n);
    ClaimedIsOff(bridge, start, run, n);
  }

  /** The first taking after i, which finds the claim still there. */
  lemma {:induction false} FirstTaking(bridge: string, start: State, run: seq<Event>, i: nat, j: nat) returns (k: nat)
    requires OnlyVirtPilotJoins(bridge, start, run)
    requires i < j < |run| && Before(bridge, start, run, i + 1).claimed && TakenAt(bridge, start, run, j)
    ensures i < k <= j && TakenAt(bridge, start, run, k) && Before(bridge, start, run, k).claimed
  {
    hide *;
    k := i + 1;
    while !TakenAt(bridge, start, run, k)
      invariant i < k <= j && Before(bridge, start, run, k).claimed
      decreases j - k
    {
      if !Before(bridge, start, run, k + 1).claimed { ClaimEndsByTaking(bridge, start, run, k); }
      k := k + 1;
    }
  }

  /**
   Once a pass has seen an address or a default route on the NIC, none takes it until a pass that sees
   systemd-networkd has let go of it, on a NIC with neither.
   */
  lemma NotTakenWhileClaimed(bridge: string, start: State, run: seq<Event>, i: nat, j: nat)
    requires OnlyVirtPilotJoins(bridge, start, run)
    requires i < j < |run| && ReadsAt(run, i)
    requires Seen(bridge, start, run, i).hasAddress || Seen(bridge, start, run, i).defaultRoute
    requires TakenAt(bridge, start, run, j)
    ensures exists k :: i < k <= j && ReadsAt(run, k) && LetGo(Seen(bridge, start, run, k))
  {
    UseIsClaimed(bridge, start, run, i);
    var k := FirstTaking(bridge, start, run, i, j);
    var s := Before(bridge, start, run, k);
    TakesOnlySpare(bridge, Read(s.nic, run[k].addressReadable), s.claimed);
    assert LetGo(Seen(bridge, start, run, k));
  }

  predicate LetGo(f: Facts) {
    f.present && f.master == None && !f.hasAddress && !f.defaultRoute && f.networkd == Unmanaged
  }

  /** Every pass from i up to n that could read the NIC found it waiting, with no restart between. */
  ghost predicate WaitedSince(bridge: string, start: State, run: seq<Event>, i: nat, n: nat)
    requires n <= |run|
  {
    forall k :: i <= k < n ==> !run[k].Restart? && (ReadsAt(run, k) ==> WaitingAt(bridge, start, run, k))
  }

  /** Passes are in the order of the clock. */
  ghost predicate Clock(run: seq<Event>) {
    forall i, j :: 0 <= i < j < |run| && run[i].Pass? && run[j].Pass? ==> run[i].now <= run[j].now
  }

  /** What is remembered is when the wait that is still on began. */
  lemma {:induction false} SinceIsStart(bridge: string, start: State, run: seq<Event>, n: nat) returns (i: nat)
    requires start.since == None && n <= |run| && Before(bridge, start, run, n).since.Some?
    ensures i < n && ReadsAt(run, i) && run[i].now == Before(bridge, start, run, n).since.value
    ensures WaitedSince(bridge, start, run, i, n)
  {
    BeforeAny(bridge, start, run);
    BeforeNext(bridge, start, run, n - 1);
    if Before(bridge, start, run, n - 1).since.Some? && !run[n - 1].Restart? {
      i := SinceIsStart(bridge, start, run, n - 1);
    } else {
      i := n - 1;
    }
  }

  /**
   A NIC that is taken while systemd-networkd is configuring it has been seen so, unclaimed and off
   every bridge, by every pass for at least 150 seconds.
   */
  lemma HeldForHostConfig(bridge: string, start: State, run: seq<Event>, j: nat)
    requires start.since == None && j < |run|
    requires TakenAt(bridge, start, run, j) && Seen(bridge, start, run, j).networkd == Configuring
    ensures exists i :: 0 <= i <= j && ReadsAt(run, i) && run[j].now - run[i].now >= 150_000
                        && WaitedSince(bridge, start, run, i, j + 1)
  {
    var s, f := Before(bridge, start, run, j), Seen(bridge, start, run, j);
    TakesOnlySpare(bridge, f, s.claimed);
    assert WaitingAt(bridge, start, run, j);
    assert s.since.Some?;
    var i := SinceIsStart(bridge, start, run, j);
    assert WaitedSince(bridge, start, run, i, j + 1);
  }

  /** Through a wait that was on at i, what is remembered is no later than i. */
  lemma {:induction false} StillWaiting(bridge: string, start: State, run: seq<Event>, i: nat, n: nat)
    requires start.since == None && Clock(run) && i < n <= |run|
    requires ReadsAt(run, i) && WaitedSince(bridge, start, run, i, n)
    ensures var since := Before(bridge, start, run, n).since; since.Some? && since.value <= run[i].now
  {
    BeforeNext(bridge, start, run, n - 1);
    if n > i + 1 {
      StillWaiting(bridge, start, run, i, n - 1);
    } else if Before(bridge, start, run, i).since.Some? {
      var k := SinceIsStart(bridge, start, run, i);
    }
    hide After, Clock;
  }

  /** And a wait ends: a pass 150 seconds after one that found the NIC waiting, as all between did, takes it. */
  lemma TakenAfterHold(bridge: string, start: State, run: seq<Event>, i: nat, j: nat)
    requires start.since == None && Clock(run) && i < j < |run|
    requires ReadsAt(run, i) && ReadsAt(run, j) && run[j].now - run[i].now >= 150_000
    requires WaitedSince(bridge, start, run, i, j + 1)
    ensures TakenAt(bridge, start, run, j)
  {
    StillWaiting(bridge, start, run, i, j);
    StepsAre(bridge, Before(bridge, start, run, j), run[j].now, true, run[j].addressReadable);
  }
}
