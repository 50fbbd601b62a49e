/**
 Connection marks over runs: frames of any connections cross the bridge in any order, between any taps,
 while rules and taps change; a VM keeps its number. A connection here is one entry of the connection table,
 so it never comes back under its own name, and it begins unmarked. The host's own marking of connections a
 VM already had, and entries that begin with another's mark, are not modelled.
 */
module MarkRuns {
  import opened Wrappers
  import opened Firewall
  import opened BridgeFilter
  import opened Js32
  import opened ConnMarks

  // ----- The bridge

  datatype Hook = Forwarded | ToHost | FromHost

  /**
   A frame at a hook, with the tables as they are when it gets there: whose each tap is and what each VM's
   rules are. `keep` is whether a connection whose first frame was dropped is kept all the same.
   */
  datatype Event = Event(
    conn: nat, hook: Hook, fromTap: Option<nat>, toTap: Option<nat>, frame: Frame, keep: bool,
    taps: map<nat, nat>, policies: map<nat, Config>, hostAddrs: set<nat>)

  /** Each VM's mark, no two the same. */
  ghost predicate ValidMarks(w: map<nat, nat>) {
    && (forall v :: v in w ==> IsMark(w[v]))
    && (forall a, b :: a in w && b in w && w[a] == w[b] ==> a == b)
  }

  function VmOf(w: map<nat, nat>, e: Event, tap: Option<nat>): (v: Option<nat>)
    ensures v.Some? ==> v.value in w && v.value in e.policies
  {
    if tap.Some? && tap.value in e.taps && e.taps[tap.value] in w && e.taps[tap.value] in e.policies
    then Some(e.taps[tap.value]) else None
  }

  function Sender(w: map<nat, nat>, e: Event): (v: Option<nat>)
    ensures v.Some? ==> v.value in w && v.value in e.policies
  {
    if e.hook == FromHost then None else VmOf(w, e, e.fromTap)
  }

  function Receiver(w: map<nat, nat>, e: Event): (v: Option<nat>)
    ensures v.Some? ==> v.value in w && v.value in e.policies
  {
    if e.hook == ToHost then None else VmOf(w, e, e.toTap)
  }

  function Hooked(e: Event): seq<HookRule> {
    match e.hook case Forwarded => FORWARD case ToHost => INPUT case FromHost => OUTPUT
  }

  function Through(w: map<nat, nat>, e: Event, ct: nat): BridgeFilter.Through {
    var from := if Sender(w, e) == None then None else var v := Sender(w, e).value; Some(OutChain(e.policies[v], w[v]));
    var to := if Receiver(w, e) == None then None
              else var v := Receiver(w, e).value; Some(InChain(e.policies[v], w[v]));
    EvalHook(Hooked(e), Taps(from, to), e.hostAddrs, e.frame, ct)
  }

  type Table = map<nat, nat>

  /** The mark a frame finds on its connection: none before its first, and none for one not tracked. */
  function MarkFor(t: Table, e: Event): nat {
    if e.frame.state != NoState && e.conn in t then t[e.conn] else 0
  }

  function Step(w: map<nat, nat>, t: Table, e: Event): Table {
    if e.frame.state == NoState then t
    else
      var through := Through(w, e, MarkFor(t, e));
      if through.passes || e.conn in t || e.keep then t[e.conn := through.mark] else t
  }

  function Run(w: map<nat, nat>, events: seq<Event>): Table {
    if events == [] then map[] else Step(w, Run(w, events[..|events| - 1]), events[|events| - 1])
  }

  // ----- Who really did what

  /**
   The sender's chain is asked unless the frame is for the host itself, and the receiver's unless it is from the
   host.
   */
  predicate AsksSender(w: map<nat, nat>, e: Event) {
    Sender(w, e).Some? && !(e.hook == ToHost && e.frame.ether == Ip4 && e.frame.daddr in e.hostAddrs)
  }

  function OutRun(w: map<nat, nat>, e: Event, ct: nat): Outcome {
    if AsksSender(w, e) then var v := Sender(w, e).value; Eval(OutChain(e.policies[v], w[v]), e.frame, ct)
    else Outcome(Return, ct)
  }

  predicate AsksReceiver(w: map<nat, nat>, e: Event, ct: nat) {
    && Receiver(w, e).Some? && !(e.hook == FromHost && e.frame.ether == Ip4 && e.frame.saddr in e.hostAddrs)
    && OutRun(w, e, ct).verdict != DropIt
  }

  function InRun(w: map<nat, nat>, e: Event, ct: nat): Outcome {
    var out := OutRun(w, e, ct);
    if AsksReceiver(w, e, ct) then var v := Receiver(w, e).value; Eval(InChain(e.policies[v], w[v]), e.frame, out.mark)
    else Outcome(out.verdict, out.mark)
  }

  lemma HookRunsChains(w: map<nat, nat>, e: Event, ct: nat)
    ensures Through(w, e, ct).mark == InRun(w, e, ct).mark
    ensures Through(w, e, ct).passes <==> OutRun(w, e, ct).verdict != DropIt && InRun(w, e, ct).verdict != DropIt
  {
    hide Eval, OutChain, InChain;
    if Sender(w, e).Some? {
      var v := Sender(w, e).value;
      ChainsNeverAccept(e.policies[v], w[v]);
      EvalNeverAccepts(OutChain(e.policies[v], w[v]), e.frame, ct);
    }
    if Receiver(w, e).Some? {
      var v := Receiver(w, e).value;
      ChainsNeverAccept(e.policies[v], w[v]);
      EvalNeverAccepts(InChain(e.policies[v], w[v]), e.frame, OutRun(w, e, ct).mark);
    }
    assert FORWARD[1..] == [ToVm] && INPUT[1..] == [FromVm] && OUTPUT[1..] == [ToVm];
    assert [ToVm][1..] == [] && [FromVm][1..] == [];
  }

  /** v itself sent a frame on c, through its own chain, while c was new. */
  ghost predicate Sent(w: map<nat, nat>, e: Event, c: nat, v: nat) {
    e.conn == c && e.frame.state == New && AsksSender(w, e) && Sender(w, e).value == v
  }

  ghost predicate EverSent(w: map<nat, nat>, events: seq<Event>, c: nat, v: nat) {
    exists e :: e in events && Sent(w, e, c, v)
  }

  /** Whether a frame into v passes before v's rules are asked, at this mark. */
  predicate Unasked(w: map<nat, nat>, e: Event, ct: nat, v: nat)
    requires v in w && v in e.policies
  {
    NeedsNoRule(Inbound, e.frame) || Owned(e.policies[v], Inbound, e.frame, Top(ct) == w[v], Bottom(ct) == w[v])
  }

  /** A frame on c came to v's chain, v's rules were asked, and they let it in. */
  ghost predicate Admitted(w: map<nat, nat>, e: Event, ct: nat, c: nat, v: nat) {
    && e.conn == c && AsksReceiver(w, e, ct) && Receiver(w, e).value == v
    && !Unasked(w, e, OutRun(w, e, ct).mark, v) && Lets(e.policies[v], Inbound, e.frame)
  }

  /** One of these frames was admitted, at the mark it found. */
  ghost predicate EverAdmitted(w: map<nat, nat>, events: seq<Event>, c: nat, v: nat) {
    events != []
    && var before, e := events[..|events| - 1], events[|events| - 1];
       EverAdmitted(w, before, c, v) || Admitted(w, e, MarkFor(Run(w, before), e), c, v)
  }

  // ----- Marks tell the truth

  ghost predicate TopTrue(w: map<nat, nat>, events: seq<Event>, c: nat, ct: nat) {
    Top(ct) == 0 || exists v :: v in w && w[v] == Top(ct) && EverSent(w, events, c, v)
  }

  ghost predicate BottomTrue(w: map<nat, nat>, events: seq<Event>, c: nat, ct: nat) {
    Bottom(ct) == 0 || exists v :: v in w && w[v] == Bottom(ct) && EverAdmitted(w, events, c, v)
  }

  ghost predicate Truthful(w: map<nat, nat>, events: seq<Event>, c: nat, ct: nat) {
    ct < TWO_32 && TopTrue(w, events, c, ct) && BottomTrue(w, events, c, ct)
  }

  lemma HistoryGrows(w: map<nat, nat>, before: seq<Event>, e: Event, c: nat, v: nat)
    ensures EverSent(w, before, c, v) || Sent(w, e, c, v) ==> EverSent(w, before + [e], c, v)
    ensures EverAdmitted(w, before, c, v) || Admitted(w, e, MarkFor(Run(w, before), e), c, v) ==>
            EverAdmitted(w, before + [e], c, v)
  {
    hide Sent, Admitted, Run;
    assert (before + [e])[..|before|] == before;
    assert forall x :: x in before + [e] <==> x in before || x == e;
  }

  /**
   The sender's chain leaves the bottom half as it was, and changes the top half only for a new frame of the
   sender's, to its mark.
   */
  lemma OutRunMarks(w: map<nat, nat>, e: Event, ct: nat)
    requires ValidMarks(w) && ct < TWO_32
    ensures var o := OutRun(w, e, ct);
            && o.mark < TWO_32 && Bottom(o.mark) == Bottom(ct)
            && (Top(o.mark) == Top(ct) || exists v :: v in w && w[v] == Top(o.mark) && Sent(w, e, e.conn, v))
  {
    hide Eval, OutChain, NeedsNoRule, Owned, Lets, Sender, Receiver;
    if AsksSender(w, e) {
      var v := Sender(w, e).value;
      OutChainMarks(e.policies[v], w[v], e.frame, ct);
      assert Sent(w, e, e.conn, v) <==> e.frame.state == New;
    }
  }

  /**
   The receiver's leaves the top half as that left it, and changes the bottom half only where the receiver lets
   the frame in, to its mark.
   */
  lemma InRunMarks(w: map<nat, nat>, e: Event, ct: nat)
    requires ValidMarks(w) && ct < TWO_32
    ensures var o := InRun(w, e, ct);
            && o.mark < TWO_32 && Top(o.mark) == Top(OutRun(w, e, ct).mark)
            && (Bottom(o.mark) == Bottom(ct) || exists v ::
              v in w && w[v] == Bottom(o.mark) && Admitted(w, e, ct, e.conn, v))
  {
    hide Eval, InChain, NeedsNoRule, Owned, Lets, Sender, Receiver, OutRun;
    OutRunMarks(w, e, ct);
    var mid := OutRun(w, e, ct).mark;
    if AsksReceiver(w, e, ct) {
      var v := Receiver(w, e).value;
      InChainMarks(e.policies[v], w[v], e.frame, mid);
      assert Admitted(w, e, ct, e.conn, v) <==> !Unasked(w, e, mid, v) && Lets(e.policies[v], Inbound, e.frame);
    }
  }

  /** The mark on a connection, 0 if it isn't in the table. */
  function MarkOf(t: Table, c: nat): nat {
    if c in t then t[c] else 0
  }

  lemma TopGrows(w: map<nat, nat>, before: seq<Event>, e: Event, c: nat, ct: nat, ct': nat)
    ensures TopTrue(w, before, c, ct)
            && (Top(ct') == Top(ct) || exists v :: v in w && w[v] == Top(ct') && Sent(w, e, c, v)) ==>
              TopTrue(w, before + [e], c, ct')
  {
    hide EverSent, EverAdmitted, Sent;
    forall v ensures EverSent(w, before, c, v) || Sent(w, e, c, v) ==> EverSent(w, before + [e], c, v) {
      HistoryGrows(w, before, e, c, v);
    }
  }

  lemma BottomGrows(w: map<nat, nat>, before: seq<Event>, e: Event, c: nat, ct: nat, ct': nat)
    ensures var found := MarkFor(Run(w, before), e);
            BottomTrue(w, before, c, ct)
            && (Bottom(ct') == Bottom(ct) || exists v ::
              v in w && w[v] == Bottom(ct') && Admitted(w, e, found, c, v)) ==>
              BottomTrue(w, before + [e], c, ct')
  {
    hide EverSent, EverAdmitted, Admitted, Run;
    var found := MarkFor(Run(w, before), e);
    forall v
      ensures EverAdmitted(w, before, c, v) || Admitted(w, e, found, c, v) ==> EverAdmitted(w, before + [e], c, v)
    {
      HistoryGrows(w, before, e, c, v);
    }
  }

  /** Over every run every connection's two halves are true. */
  lemma {:induction false} RunsAreTruthful(w: map<nat, nat>, events: seq<Event>)
    requires ValidMarks(w)
    ensures forall c :: Truthful(w, events, c, MarkOf(Run(w, events), c))
  {
    if events == [] {
      assert forall c :: MarkOf(Run(w, events), c) == 0;
    } else {
      hide ValidMarks, TopTrue, BottomTrue, Through, InRun, OutRun, Sent, Admitted, Top, Bottom;
      var before, e := events[..|events| - 1], events[|events| - 1];
      assert events == before + [e];
      RunsAreTruthful(w, before);
      var t := Run(w, before);
      var found := MarkFor(t, e);
      assert Truthful(w, before, e.conn, MarkOf(t, e.conn));
      forall c ensures Truthful(w, events, c, MarkOf(Run(w, events), c)) {
        var was, now := MarkOf(t, c), MarkOf(Run(w, events), c);
        assert Truthful(w, before, c, was);
        if now != was {
          assert c == e.conn && found == was && now == Through(w, e, found).mark;
          HookRunsChains(w, e, found);
          OutRunMarks(w, e, found);
          InRunMarks(w, e, found);
        }
        TopGrows(w, before, e, c, was, now);
        BottomGrows(w, before, e, c, was, now);
      }
    }
  }

  /** In every run, a half that is v's mark says what it should: v started the connection, v let it in. */
  lemma MarksTellTheTruth(w: map<nat, nat>, events: seq<Event>, c: nat, v: nat)
    requires ValidMarks(w) && v in w
    ensures Top(MarkOf(Run(w, events), c)) == w[v] ==> EverSent(w, events, c, v)
    ensures Bottom(MarkOf(Run(w, events), c)) == w[v] ==> EverAdmitted(w, events, c, v)
  {
    hide Run, EverSent, EverAdmitted;
    RunsAreTruthful(w, events);
    assert Truthful(w, events, c, MarkOf(Run(w, events), c));
  }

  /** And a half that is set is some VM's. */
  lemma MarksAreSomeones(w: map<nat, nat>, events: seq<Event>, c: nat)
    requires ValidMarks(w)
    ensures var mark := MarkOf(Run(w, events), c);
            && (Top(mark) != 0 ==> exists v :: v in w && w[v] == Top(mark))
            && (Bottom(mark) != 0 ==> exists v :: v in w && w[v] == Bottom(mark))
  {
    hide Run, EverSent, EverAdmitted;
    RunsAreTruthful(w, events);
    assert Truthful(w, events, c, MarkOf(Run(w, events), c));
  }

  // ----- What passes on a mark is the VM's own

  /**
   A frame that v's chain for frames out passes is one that needs no rule, one v's rules let out, or one on a
   connection that v really started, with this frame or before, or really let in.
   */
  lemma PassedOutIsOurs(w: map<nat, nat>, before: seq<Event>, e: Event)
    requires ValidMarks(w) && AsksSender(w, e) && OutRun(w, e, MarkFor(Run(w, before), e)).verdict != DropIt
    ensures var v := Sender(w, e).value;
            || NeedsNoRule(Outbound, e.frame) || Lets(e.policies[v], Outbound, e.frame)
            || Owned(e.policies[v], Outbound, e.frame, EverSent(w, before + [e], e.conn, v),
                 EverAdmitted(w, before, e.conn, v))
  {
    hide Eval, OutChain, EverSent, EverAdmitted, Sender, Receiver, Run, NeedsNoRule, Lets;
    var t := Run(w, before);
    var ct := MarkFor(t, e);
    var v := Sender(w, e).value;
    Found(w, before, e);
    OutChainMarks(e.policies[v], w[v], e.frame, ct);
    HistoryGrows(w, before, e, e.conn, v);
    assert e.frame.state == New ==> Sent(w, e, e.conn, v);
  }

  /** And so it is for its chain for frames in. */
  lemma PassedInIsOurs(w: map<nat, nat>, before: seq<Event>, e: Event)
    requires ValidMarks(w) && AsksReceiver(w, e, MarkFor(Run(w, before), e))
    requires InRun(w, e, MarkFor(Run(w, before), e)).verdict != DropIt
    ensures var v := Receiver(w, e).value;
            || NeedsNoRule(Inbound, e.frame) || Lets(e.policies[v], Inbound, e.frame)
            || Owned(e.policies[v], Inbound, e.frame, EverSent(w, before + [e], e.conn, v),
                 EverAdmitted(w, before, e.conn, v))
  {
    hide Eval, InChain, EverSent, EverAdmitted, Sender, Receiver, Run, NeedsNoRule, Lets, OutRun;
    var t := Run(w, before);
    var ct := MarkFor(t, e);
    var v, mid := Receiver(w, e).value, OutRun(w, e, ct).mark;
    Found(w, before, e);
    OutRunMarks(w, e, ct);
    TopGrows(w, before, e, e.conn, ct, mid);
    InChainMarks(e.policies[v], w[v], e.frame, mid);
  }

  /** What a frame finds on its connection is true. */
  lemma Found(w: map<nat, nat>, before: seq<Event>, e: Event)
    requires ValidMarks(w)
    ensures Truthful(w, before, e.conn, MarkFor(Run(w, before), e))
  {
    RunsAreTruthful(w, before);
    assert Truthful(w, before, e.conn, MarkOf(Run(w, before), e.conn));
    hide Run, EverSent, EverAdmitted;
  }
}
