/**
 The FORWARD list, which VMs' firewalls and port forwards both insert into: a forward's ACCEPT must stay
 under its VM's firewall. From services/firewallService.ts, services/portForwardService.ts and
 services/firewallSync.ts. A rule is what it jumps to and the address it names; every call to iptables
 that an operation makes is taken to work, and operations follow one another.
 */
module ForwardList {
  import opened Wrappers

  datatype Dir = In | Out

  /**
   A jump to one of a VM's two chains, as VirtPilot writes it; a jump to one in any other form, with the
   address it names if it names one; a port forward's ACCEPT; a jump to one of libvirt's chains; anything else.
   */
  datatype Rule =
    | Jump(vm: nat, dir: Dir, ip: nat)
    | OddJump(vm: nat, dir: Dir, at: Option<nat>, form: nat)
    | Accept(ip: nat, id: nat, port: nat)
    | Libvirt(chain: nat)
    | Foreign(text: nat)

  datatype Forward = Forward(id: nat, vm: nat, ip: nat, port: nat)

  function AcceptOf(f: Forward): Rule {
    Accept(f.ip, f.id, f.port)
  }

  // ----- Picking rules out of the list

  datatype Pick = At(vm: nat, ip: nat) | AtAny(vm: nat, ips: seq<nat>) | Of(vm: nat) | NotOurs

  predicate Picked(p: Pick, r: Rule) {
    match p
    case At(vm, ip) => r.Jump? && r.vm == vm && r.ip == ip
    case AtAny(vm, ips) => r.Jump? && r.vm == vm && r.ip in ips
    case Of(vm) => (r.Jump? || r.OddJump?) && r.vm == vm
    case NotOurs => !r.Jump? && !r.Accept?
  }

  function Only(list: seq<Rule>, p: Pick): (those: seq<Rule>)
    ensures forall r :: r in those ==> r in list && Picked(p, r)
  {
    if list == [] then []
    else if Picked(p, list[0]) then [list[0]] + Only(list[1..], p)
    else Only(list[1..], p)
  }

  function Without(list: seq<Rule>, p: Pick): (rest: seq<Rule>)
    ensures forall r :: r in rest <==> r in list && !Picked(p, r)
  {
    if list == [] then []
    else if Picked(p, list[0]) then Without(list[1..], p)
    else [list[0]] + Without(list[1..], p)
  }

  /** What `-D` does: the first rule that is exactly this one. */
  function RemoveFirst(list: seq<Rule>, r: Rule): seq<Rule> {
    if list == [] then [] else if list[0] == r then list[1..] else [list[0]] + RemoveFirst(list[1..], r)
  }

  // ----- What the operations do to the list

  /** Pairs of jumps inserted one after the other, so the last is on top. */
  function Pairs(vm: nat, ips: seq<nat>): seq<Rule> {
    if ips == [] then []
    else
      var last := ips[|ips| - 1];
      [Jump(vm, Out, last), Jump(vm, In, last)] + Pairs(vm, ips[..|ips| - 1])
  }

  function Heads(vm: nat, dir: Dir, ips: seq<nat>): seq<Rule> {
    if ips == [] then [] else [Jump(vm, dir, ips[|ips| - 1])] + Heads(vm, dir, ips[..|ips| - 1])
  }

  function PutJumps(list: seq<Rule>, vm: nat, ip: nat): seq<Rule> {
    [Jump(vm, Out, ip), Jump(vm, In, ip)] + Without(list, At(vm, ip))
  }

  function JumpSwap(list: seq<Rule>, vm: nat, ips: seq<nat>): seq<Rule> {
    Pairs(vm, ips) + Without(list, Of(vm))
  }

  function RaiseAll(list: seq<Rule>, vm: nat, ips: seq<nat>): seq<Rule> {
    if ips == [] then list else PutJumps(RaiseAll(list, vm, ips[..|ips| - 1]), vm, ips[|ips| - 1])
  }

  function Address(r: Rule): Option<nat> {
    match r case Jump(_, _, ip) => Some(ip) case OddJump(_, _, at, _) => at case _ => None
  }

  predicate Names(r: Rule, vm: nat, dir: Dir) {
    (r.Jump? || r.OddJump?) && r.vm == vm && r.dir == dir && Address(r).Some?
  }

  /** The addresses jumps to one of a VM's chains name, as readJumps lists them. */
  function Named(list: seq<Rule>, vm: nat, dir: Dir): seq<nat> {
    if list == [] then []
    else
      var rest := Named(list[..|list| - 1], vm, dir);
      var r := list[|list| - 1];
      if Names(r, vm, dir) then rest + [Address(r).value] else rest
  }

  function Missing(from: seq<nat>, to: seq<nat>): seq<nat> {
    if from == [] then []
    else
      var rest, last := Missing(from[..|from| - 1], to), from[|from| - 1];
      if last in to then rest else rest + [last]
  }

  function Repair(list: seq<Rule>, vm: nat): seq<Rule> {
    var inbound, outbound := Named(list, vm, In), Named(list, vm, Out);
    Heads(vm, Out, Missing(inbound, outbound)) + (Heads(vm, In, Missing(outbound, inbound)) + list)
  }

  function Unique(s: seq<nat>): (u: seq<nat>)
    ensures forall x :: x in u <==> x in s
  {
    if s == [] then []
    else
      var rest, last := Unique(s[..|s| - 1]), s[|s| - 1];
      if last in rest then rest else rest + [last]
  }

  function Held(list: seq<Rule>, vm: nat): seq<nat> {
    Unique(Named(list, vm, In) + Named(list, vm, Out))
  }

  // ----- Out of place

  /** A rule a jump for this address should be above. */
  predicate Roof(r: Rule, ip: nat) {
    r.Libvirt? || (r.Accept? && r.ip == ip)
  }

  predicate JumpAt(r: Rule, vm: nat, ip: nat, odd: bool) {
    (r.OddJump? || (!odd && r.Jump?)) && r.vm == vm && Address(r) == Some(ip)
  }

  /**
   A jump of this VM for this address is below one to libvirt's chains, or below a forward's ACCEPT for the address.
   With `odd`, a jump not in VirtPilot's form.
   */
  ghost predicate Low(list: seq<Rule>, vm: nat, ip: nat, odd: bool) {
    exists i, k ::
      && 0 <= k < i < |list| && (list[k].Libvirt? || (list[k].Accept? && list[k].ip == ip))
      && (list[i].OddJump? || (!odd && list[i].Jump?)) && list[i].vm == vm && Address(list[i]) == Some(ip)
  }

  /** The same, one rule at a time. */
  predicate LowIn(list: seq<Rule>, vm: nat, ip: nat, odd: bool) {
    list != [] && ((Roof(list[0], ip) && SomeJumpAt(list[1..], vm, ip, odd)) || LowIn(list[1..], vm, ip, odd))
  }

  predicate SomeJumpAt(list: seq<Rule>, vm: nat, ip: nat, odd: bool) {
    exists r :: r in list && JumpAt(r, vm, ip, odd)
  }

  lemma {:induction false} LowInIsLow(list: seq<Rule>, vm: nat, ip: nat, odd: bool)
    ensures LowIn(list, vm, ip, odd) <==> Low(list, vm, ip, odd)
  {
    hide Address;
    if list != [] {
      var rest := list[1..];
      LowInIsLow(rest, vm, ip, odd);
      if Roof(list[0], ip) && SomeJumpAt(rest, vm, ip, odd) {
        var r :| r in rest && JumpAt(r, vm, ip, odd);
        var i :| 0 <= i < |rest| && rest[i] == r;
        assert list[i + 1] == r;
      }
      if Low(rest, vm, ip, odd) {
        var i, k :| 0 <= k < i < |rest| && Roof(rest[k], ip) && JumpAt(rest[i], vm, ip, odd);
        assert list[i + 1] == rest[i] && list[k + 1] == rest[k];
      }
      if Low(list, vm, ip, odd) {
        var i, k :| 0 <= k < i < |list| && Roof(list[k], ip) && JumpAt(list[i], vm, ip, odd);
        assert rest[i - 1] == list[i];
        if k > 0 { assert rest[k - 1] == list[k]; }
      }
    }
  }

  lemma {:induction false} WithoutAndLow(list: seq<Rule>, v: nat, x: nat, vm: nat, ip: nat, odd: bool)
    ensures LowIn(Without(list, At(v, x)), vm, ip, odd) <==> LowIn(list, vm, ip, odd || (v == vm && x == ip))
    ensures SomeJumpAt(Without(list, At(v, x)), vm, ip, odd) <==> SomeJumpAt(list, vm, ip, odd || (v == vm && x == ip))
  {
    if list != [] {
      WithoutAndLow(list[1..], v, x, vm, ip, odd);
      assert list == [list[0]] + list[1..];
      if !Picked(At(v, x), list[0]) {
        assert Without(list, At(v, x))[1..] == Without(list[1..], At(v, x));
      }
    }
  }

  lemma PutJumpsAndLow(list: seq<Rule>, v: nat, x: nat, vm: nat, ip: nat, odd: bool)
    ensures LowIn(PutJumps(list, v, x), vm, ip, odd) <==> LowIn(list, vm, ip, odd || (v == vm && x == ip))
  {
    WithoutAndLow(list, v, x, vm, ip, odd);
  }

  lemma {:induction false} RaiseAndLow(list: seq<Rule>, v: nat, ips: seq<nat>, vm: nat, ip: nat, odd: bool)
    ensures LowIn(RaiseAll(list, v, ips), vm, ip, odd) <==> LowIn(list, vm, ip, odd || (v == vm && ip in ips))
  {
    hide LowIn, PutJumps;
    if ips != [] {
      var init, last := ips[..|ips| - 1], ips[|ips| - 1];
      assert ips == init + [last];
      PutJumpsAndLow(RaiseAll(list, v, init), v, last, vm, ip, odd);
      RaiseAndLow(list, v, init, vm, ip, odd || (v == vm && last == ip));
    }
  }

  lemma {:induction false} OddIsLow(list: seq<Rule>, vm: nat, ip: nat)
    requires LowIn(list, vm, ip, true)
    ensures LowIn(list, vm, ip, false)
  {
    if !(Roof(list[0], ip) && SomeJumpAt(list[1..], vm, ip, true)) {
      OddIsLow(list[1..], vm, ip);
    } else {
      var r :| r in list[1..] && JumpAt(r, vm, ip, true);
      assert JumpAt(r, vm, ip, false);
    }
  }

  /** The first `n` rules' jumps that are under something, as jumpsOutOfPlace collects their addresses. */
  function LowSeq(list: seq<Rule>, vm: nat, n: nat): seq<nat>
    requires n <= |list|
  {
    if n == 0 then []
    else
      var rest, r := LowSeq(list, vm, n - 1), list[n - 1];
      if IsLow(list, vm, n - 1) && Address(r).value !in rest then rest + [Address(r).value] else rest
  }

  predicate IsLow(list: seq<Rule>, vm: nat, i: nat)
    requires i < |list|
  {
    Picked(Of(vm), list[i]) && Address(list[i]).Some? && exists k :: 0 <= k < i && Roof(list[k], Address(list[i]).value)
  }

  function OutOfPlace(list: seq<Rule>, vm: nat): seq<nat> {
    LowSeq(list, vm, |list|)
  }

  lemma {:induction false} LowSeqIs(list: seq<Rule>, vm: nat, n: nat, ip: nat)
    requires n <= |list|
    ensures ip in LowSeq(list, vm, n) <==> exists i :: 0 <= i < n && IsLow(list, vm, i) && Address(list[i]) == Some(ip)
  {
    if n > 0 {
      LowSeqIs(list, vm, n - 1, ip);
      assert IsLow(list, vm, n - 1) ==> Address(list[n - 1]).Some?;
      hide IsLow;
    }
  }

  lemma OutOfPlaceIsLow(list: seq<Rule>, vm: nat, ip: nat)
    ensures ip in OutOfPlace(list, vm) <==> Low(list, vm, ip, false)
  {
    LowSeqIs(list, vm, |list|, ip);
    if Low(list, vm, ip, false) {
      var i, k :|
        && 0 <= k < i < |list| && (list[k].Libvirt? || (list[k].Accept? && list[k].ip == ip))
        && (list[i].OddJump? || list[i].Jump?) && list[i].vm == vm && Address(list[i]) == Some(ip);
      assert Roof(list[k], ip) && IsLow(list, vm, i);
    }
  }

  lemma OutOfPlaceNoTwice(list: seq<Rule>, vm: nat)
    ensures NoTwice(OutOfPlace(list, vm))
  {
    LowSeqNoTwice(list, vm, |list|);
  }

  lemma EmptyIffNone(s: seq<nat>)
    ensures s == [] <==> forall x :: x !in s
  {
    if s != [] { assert s[0] in s; }
  }

  // ----- Raising

  ghost predicate NoTwice(s: seq<nat>) {
    forall i, j :: 0 <= i < j < |s| ==> s[i] != s[j]
  }

  lemma {:induction false} LowSeqNoTwice(list: seq<Rule>, vm: nat, n: nat)
    requires n <= |list|
    ensures NoTwice(LowSeq(list, vm, n))
  {
    if n > 0 {
      LowSeqNoTwice(list, vm, n - 1);
      assert IsLow(list, vm, n - 1) ==> Address(list[n - 1]).Some?;
      hide IsLow;
    }
  }

  lemma {:induction false} WithoutConcat(a: seq<Rule>, b: seq<Rule>, p: Pick)
    ensures Without(a + b, p) == Without(a, p) + Without(b, p)
  {
    if a == [] {
      assert a + b == b;
    } else {
      assert (a + b)[0] == a[0] && (a + b)[1..] == a[1..] + b;
      WithoutConcat(a[1..], b, p);
    }
  }

  lemma {:induction false} PairsAre(vm: nat, ips: seq<nat>)
    ensures forall r :: r in Pairs(vm, ips) <==> r.Jump? && r.vm == vm && r.ip in ips
  {
    if ips != [] {
      PairsAre(vm, ips[..|ips| - 1]);
      assert ips == ips[..|ips| - 1] + [ips[|ips| - 1]];
      assert forall r: Rule :: r.Jump? ==> r.dir == In || r.dir == Out;
    }
  }

  lemma {:induction false} NothingPicked(list: seq<Rule>, p: Pick)
    requires forall r :: r in list ==> !Picked(p, r)
    ensures Without(list, p) == list
  {
    if list != [] { NothingPicked(list[1..], p); }
  }

  lemma {:induction false} WithoutBoth(list: seq<Rule>, vm: nat, ips: seq<nat>, ip: nat)
    ensures Without(Without(list, AtAny(vm, ips)), At(vm, ip)) == Without(list, AtAny(vm, ips + [ip]))
  {
    if list != [] { WithoutBoth(list[1..], vm, ips, ip); }
  }

  lemma {:induction false} WithoutNone(list: seq<Rule>, vm: nat)
    ensures Without(list, AtAny(vm, [])) == list
  {
    NothingPicked(list, AtAny(vm, []));
  }

  /** Raising different addresses one by one puts one pair for each on top and leaves the rest as it stood. */
  lemma {:induction false} RaiseIs(list: seq<Rule>, vm: nat, ips: seq<nat>)
    requires NoTwice(ips)
    ensures RaiseAll(list, vm, ips) == Pairs(vm, ips) + Without(list, AtAny(vm, ips))
  {
    hide Without;
    if ips == [] {
      WithoutNone(list, vm);
    } else {
      var init, last := ips[..|ips| - 1], ips[|ips| - 1];
      assert ips == init + [last];
      RaiseIs(list, vm, init);
      WithoutConcat(Pairs(vm, init), Without(list, AtAny(vm, init)), At(vm, last));
      PairsAre(vm, init);
      NothingPicked(Pairs(vm, init), At(vm, last));
      WithoutBoth(list, vm, init, last);
    }
  }

  /**
   Raising what is out of place, from any list: one pair of jumps for each address goes on top and every other rule
   stays in its order, no other VM's jump is put out of place or in, and what is still out of place is exactly what
   was on a jump not in VirtPilot's form. So nothing is, if and only if there was no such jump under anything.
   */
  lemma RaisePutsInPlace(list: seq<Rule>, vm: nat)
    ensures var low := OutOfPlace(list, vm);
            var raised := RaiseAll(list, vm, low);
            && raised == Pairs(vm, low) + Without(list, AtAny(vm, low)) && NoTwice(low)
            && (forall ip :: ip in OutOfPlace(raised, vm) <==> Low(list, vm, ip, true))
            && (forall v, ip :: v != vm ==> (ip in OutOfPlace(raised, v) <==> ip in OutOfPlace(list, v)))
            && (OutOfPlace(raised, vm) == [] <==> forall ip :: !Low(list, vm, ip, true))
  {
    hide Low, LowIn, OutOfPlace, RaiseAll, Without, Pairs, NoTwice;
    var low := OutOfPlace(list, vm);
    var raised := RaiseAll(list, vm, low);
    assert NoTwice(low) by { OutOfPlaceNoTwice(list, vm); }
    RaiseIs(list, vm, low);
    forall ip ensures ip in OutOfPlace(raised, vm) <==> Low(list, vm, ip, true) {
      OutOfPlaceIsLow(raised, vm, ip);
      OutOfPlaceIsLow(list, vm, ip);
      RaiseAndLow(list, vm, low, vm, ip, false);
      LowInIsLow(raised, vm, ip, false);
      LowInIsLow(list, vm, ip, false);
      LowInIsLow(list, vm, ip, true);
      if LowIn(list, vm, ip, true) { OddIsLow(list, vm, ip); }
    }
    forall v, ip | v != vm ensures ip in OutOfPlace(raised, v) <==> ip in OutOfPlace(list, v) {
      OutOfPlaceIsLow(raised, v, ip);
      OutOfPlaceIsLow(list, v, ip);
      RaiseAndLow(list, vm, low, v, ip, false);
      LowInIsLow(raised, v, ip, false);
      LowInIsLow(list, v, ip, false);
    }
    EmptyIffNone(OutOfPlace(raised, vm));
  }

  /** One such list: a jump in another form under a jump of libvirt's is out of place, and still is after raising. */
  lemma OddJumpStaysLow()
    ensures var list := [Libvirt(0), OddJump(1, In, Some(7), 0)];
            && OutOfPlace(list, 1) == [7]
            && RaiseAll(list, 1, [7]) == [Jump(1, Out, 7), Jump(1, In, 7)] + list
            && 7 in OutOfPlace(RaiseAll(list, 1, OutOfPlace(list, 1)), 1)
  {
    var list := [Libvirt(0), OddJump(1, In, Some(7), 0)];
    assert IsLow(list, 1, 1) by { assert Roof(list[0], 7); }
    assert LowSeq(list, 1, 1) == [] && OutOfPlace(list, 1) == [7];
    assert Without(list, At(1, 7)) == list by { NothingPicked(list, At(1, 7)); }
    assert [7][..0] == [] && RaiseAll(list, 1, []) == list;
    assert RaiseAll(list, 1, [7]) == PutJumps(list, 1, 7);
    assert Low(list, 1, 7, true) by { assert Roof(list[0], 7) && JumpAt(list[1], 1, 7, true); }
    RaisePutsInPlace(list, 1);
  }
}
