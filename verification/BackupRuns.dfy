/**
 Taking backups, and whole runs of taking, deleting and retaining them, as services/backupService.ts
 does: the shape every list it can come to has. One VM, one operation at a time, with a clock that moves
 on between backups and IDs never used twice. A list is kept in the order its backups were taken.
 */
module BackupRuns {
  import opened Wrappers
  import opened BackupChains
  import opened BackupDeletion
  import opened BackupRetention

  const MAX_FULL_EVERY: int := 60
  const DEFAULT_FULL_EVERY: int := 7

  datatype Requested = AlwaysFull | WantIncremental | Auto

  /** How the copy ended: not at all, or with or without a fall back to a full backup. */
  datatype Copied = CopyFailed | CopyDone(degradedToFull: bool, checkpointCreated: bool)

  /** What one run is asked for and what it meets. `fullEvery` is None for no finite number. */
  datatype Attempt = Attempt(
    id: string, createdAt: int, size: nat, retentionDays: int,
    requested: Requested, fullEvery: Option<real>,
    running: bool, supported: bool, checkpointExists: bool, parentHasDisks: bool,
    copied: Copied)

  datatype Readiness = Readiness(chainLength: nat, parent: Option<Manifest>)

  // ----- Taking a backup

  function Trunc(x: real): int {
    if x >= 0.0 then x.Floor else -((-x).Floor)
  }

  /** A limit is the whole part of what was asked, but from 1 to 60; and 7 if that is no number. */
  function ClampFullEvery(value: Option<real>): (n: int)
    ensures 1 <= n <= 60
    ensures value == None ==> n == 7
    ensures value.Some? ==> var x := value.value;
                            (x < 2.0 ==> n == 1) && (x >= 60.0 ==> n == 60)
                            && (1.0 <= x < 61.0 ==> n as real <= x < (n + 1) as real)
  {
    if value == None then DEFAULT_FULL_EVERY
    else
      var n := Trunc(value.value);
      if n > MAX_FULL_EVERY then MAX_FULL_EVERY else if n < 1 then 1 else n
  }

  /** How many incrementals the list, newest first, begins with. */
  function ChainLength(newestFirst: Backups): nat {
    if newestFirst == [] || newestFirst[0].kind != Incremental then 0 else 1 + ChainLength(newestFirst[1..])
  }

  method CountChainLength(newestFirst: Backups) returns (n: nat)
    ensures n == ChainLength(newestFirst)
  {
    n := 0;
    for i := 0 to |newestFirst|
      invariant n == i && ChainLength(newestFirst) == i + ChainLength(newestFirst[i..])
    {
      if newestFirst[i].kind == Incremental {
        assert newestFirst[i..][1..] == newestFirst[i + 1..];
        n := n + 1;
      } else {
        break;
      }
    }
  }

  /** The first of these, newest first, whose chain is whole. */
  function FirstWhole(newestFirst: Backups, dirs: Backups): (m: Option<Manifest>)
    requires forall m :: m in newestFirst ==> m in dirs
    ensures m.Some? ==> m.value in newestFirst && m.value in dirs && !Walk(dirs, m.value).broken
  {
    if newestFirst == [] then None
    else
      assert newestFirst[0] in newestFirst && forall m :: m in newestFirst[1..] ==> m in newestFirst;
      if !Walk(dirs, newestFirst[0]).broken then Some(newestFirst[0])
      else FirstWhole(newestFirst[1..], dirs)
  }

  function AssessReadiness(dirs: Backups, a: Attempt): Readiness {
    NewestFirstInOrder(dirs);
    var backups := NewestFirst(dirs);
    var parent := FirstWhole(backups, dirs);
    Readiness(ChainLength(backups),
              if !a.running || !a.supported then None
              else if parent == None || parent.value.id != backups[0].id then None
              else if parent.value.checkpoint == None || !a.checkpointExists then None
              else parent)
  }

  /** The backup a run leaves, none if it fails. */
  function Taken(dirs: Backups, a: Attempt): Option<Manifest> {
    var readiness := AssessReadiness(dirs, a);
    var chains := a.requested != AlwaysFull && readiness.parent.Some?
        && readiness.chainLength < ClampFullEvery(a.fullEvery);
    if chains && !a.parentHasDisks then None
    else if a.copied.CopyFailed? then None
    else
      var incremental := chains && !a.copied.degradedToFull;
      var checkpoint := if a.copied.checkpointCreated && a.requested != AlwaysFull && a.running && a.supported
                        then Some("vpbk-" + a.id) else None;
      Some(Manifest(a.id, a.createdAt, if incremental then Incremental else Full,
                    if incremental then Some(readiness.parent.value.id) else None, a.size, a.retentionDays, checkpoint))
  }

  method CreateBackup(store: Store, a: Attempt) returns (taken: Option<Manifest>)
    modifies store
    ensures taken == Taken(old(store.dirs), a)
    ensures store.dirs == if taken == None then old(store.dirs) else old(store.dirs) + [taken.value]
  {
    var kind, parent: Option<string> := Full, None;
    if a.requested != AlwaysFull {
      var readiness := AssessReadiness(store.dirs, a);
      if readiness.parent.Some? && readiness.chainLength < ClampFullEvery(a.fullEvery) {
        kind, parent := Incremental, Some(readiness.parent.value.id);
        if !a.parentHasDisks { return None; }
      }
    }
    var wantsChain := a.requested != AlwaysFull;
    var checkpoint := if wantsChain && a.running && a.supported then Some("vpbk-" + a.id) else None;
    if a.copied.CopyFailed? { return None; }
    if a.copied.degradedToFull { kind, parent := Full, None; }
    var m := Manifest(a.id, a.createdAt, kind, parent, a.size, a.retentionDays,
                      if a.copied.checkpointCreated then checkpoint else None);
    store.dirs := store.dirs + [m];
    return Some(m);
  }

  // ----- The shape of a list

  /** How many incrementals backup i stands on top of, itself included. */
  function Depth(s: Backups, i: nat): nat
    requires i < |s|
  {
    if s[i].kind != Incremental then 0 else if i == 0 then 1 else 1 + Depth(s, i - 1)
  }

  ghost predicate Ascending(s: Backups) {
    forall i, j :: 0 <= i < j < |s| ==> s[i].createdAt < s[j].createdAt
  }

  /** Every incremental is layered on the backup taken just before it, of those that are left. */
  ghost predicate OnPredecessor(s: Backups) {
    forall i :: 0 <= i < |s| && s[i].parent.Some? ==> i > 0 && s[i].parent == Some(s[i - 1].id)
  }

  ghost predicate Shaped(s: Backups) {
    && UniqueIds(s) && Ascending(s) && WellKinded(s) && OnPredecessor(s)
    && Shallow(s)
  }

  ghost predicate Shallow(s: Backups) {
    forall i :: 0 <= i < |s| ==> Depth(s, i) <= MAX_FULL_EVERY
  }

  lemma {:induction false} ShapedWalk(s: Backups, i: nat, seen: set<string>)
    requires UniqueIds(s) && WellKinded(s) && OnPredecessor(s) && i < |s|
    requires forall j :: 0 <= j <= i ==> s[j].id !in seen
    ensures s[i] in s && !WalkFrom(s, s[i], seen).broken && |WalkFrom(s, s[i], seen).visited| == Depth(s, i) + 1
    decreases i
  {
    assert s[i] in s;
    if s[i].parent.Some? {
      FindUnique(s, s[i - 1]);
      assert s[i].id in Ids(s) - seen;
      ShapedWalk(s, i - 1, seen + {s[i].id});
    }
  }

  function Reversed(s: Backups): Backups {
    if s == [] then [] else [s[|s| - 1]] + Reversed(s[..|s| - 1])
  }

  lemma {:induction false} InsertLast(sorted: Backups, m: Manifest)
    requires forall x :: x in sorted ==> x.createdAt > m.createdAt
    ensures Insert(sorted, m) == sorted + [m]
  {
    if sorted != [] {
      assert sorted == [sorted[0]] + sorted[1..];
      InsertLast(sorted[1..], m);
      assert Insert(sorted, m) == [sorted[0]] + Insert(sorted[1..], m);
    }
  }

  lemma {:induction false} ReversedPush(m: Manifest, rest: Backups)
    ensures Reversed([m] + rest) == Reversed(rest) + [m]
    ensures forall x :: x in Reversed(rest) ==> x in rest
  {
    if rest != [] {
      var n := |rest| - 1;
      assert ([m] + rest)[..n + 1] == [m] + rest[..n];
      ReversedPush(m, rest[..n]);
    } else {
      assert [m] + rest == [m] && [m][..0] == [];
    }
  }

  /** A list in the order its backups were taken is sorted newest first by reversing it. */
  lemma {:induction false} NewestFirstReverses(s: Backups)
    requires Ascending(s)
    ensures NewestFirst(s) == Reversed(s)
  {
    if s != [] {
      NewestFirstReverses(s[1..]);
      assert s == [s[0]] + s[1..];
      ReversedPush(s[0], s[1..]);
      InsertLast(Reversed(s[1..]), s[0]);
    }
  }

  lemma {:induction false} ChainLengthIsDepth(s: Backups)
    requires s != []
    ensures ChainLength(Reversed(s)) == Depth(s, |s| - 1)
  {
    var n := |s| - 1;
    var older := Reversed(s[..n]);
    assert Reversed(s) == [s[n]] + older && ([s[n]] + older)[1..] == older;
    assert ChainLength([s[n]] + older) == if s[n].kind != Incremental then 0 else 1 + ChainLength(older);
    if n == 0 {
      assert older == [] && ChainLength(older) == 0;
    } else {
      assert Depth(s, n) == if s[n].kind != Incremental then 0 else 1 + Depth(s, n - 1);
      hide ChainLength, Reversed, Depth;
      ChainLengthIsDepth(s[..n]);
      DepthOfPrefix(s, n, n - 1);
    }
  }

  lemma {:induction false} DepthOfPrefix(s: Backups, n: nat, i: nat)
    requires i < n <= |s|
    ensures Depth(s[..n], i) == Depth(s, i)
  {
    if i > 0 { DepthOfPrefix(s, n, i - 1); }
  }

  // ----- Each operation keeps the shape

  /** What a run takes is full, or on the newest backup with room left on its chain. */
  lemma TakenIsOnNewest(s: Backups, a: Attempt)
    requires Ascending(s) && Taken(s, a).Some?
    ensures var m := Taken(s, a).value;
            && m.id == a.id && m.createdAt == a.createdAt && (m.kind == Incremental <==> m.parent.Some?)
            && (m.parent.Some? ==>
                  s != [] && m.parent == Some(s[|s| - 1].id) && Depth(s, |s| - 1) < MAX_FULL_EVERY)
  {
    hide Walk, NewestFirst, ChainLength, Depth, FirstWhole;
    HeadIsNewest(s);
    if s == [] { NoneWhole(s); }
  }

  /**
   A run goes on the chain when that was asked for, the running VM's newest backup can be restored and has a
   checkpoint libvirt still has, and fewer incrementals stand on the last full one than the limit.
   */
  ghost predicate GoesOn(s: Backups, a: Attempt) {
    && a.requested != AlwaysFull && a.running && a.supported
    && s != [] && var last := |s| - 1;
       Restorable(s, s[last]) && s[last].checkpoint.Some? && a.checkpointExists
       && Depth(s, last) < ClampFullEvery(a.fullEvery)
  }

  lemma HeadIsNewest(s: Backups)
    requires Ascending(s)
    ensures forall m :: m in NewestFirst(s) ==> m in s
    ensures if s == [] then NewestFirst(s) == []
            else
              && NewestFirst(s) != [] && NewestFirst(s)[0] == s[|s| - 1]
              && ChainLength(NewestFirst(s)) == Depth(s, |s| - 1)
  {
    hide ChainLength, Depth;
    NewestFirstReverses(s);
    NewestFirstInOrder(s);
    if s != [] { ChainLengthIsDepth(s); }
  }

  lemma FirstWholeIsNewest(s: Backups, newestFirst: Backups)
    requires UniqueIds(s) && s != [] && (forall m :: m in newestFirst ==> m in s)
    requires newestFirst != [] && newestFirst[0] == s[|s| - 1]
    ensures var first := FirstWhole(newestFirst, s);
            if Restorable(s, s[|s| - 1]) then first == Some(s[|s| - 1])
            else first == None || first.value.id != s[|s| - 1].id
  {
    hide Walk, Restorable;
    BrokenIsNotRestorable(s, s[|s| - 1]);
    var first := FirstWhole(newestFirst, s);
    if first.Some? && first.value.id == s[|s| - 1].id { SameIdSame(s, first.value, s[|s| - 1]); }
  }

  /** The newest backup is the one to go on from exactly when it can be restored and has its checkpoint. */
  lemma NewestIsParent(s: Backups, a: Attempt)
    requires UniqueIds(s) && Ascending(s)
    ensures var r := AssessReadiness(s, a);
            && r.parent == (if a.running && a.supported && a.checkpointExists && s != []
                               && Restorable(s, s[|s| - 1]) && s[|s| - 1].checkpoint.Some?
                            then Some(s[|s| - 1]) else None)
            && (s != [] ==> r.chainLength == Depth(s, |s| - 1))
  {
    hide Walk, Restorable, NewestFirst, Ascending, Depth, ChainLength, UniqueIds, FirstWhole;
    HeadIsNewest(s);
    if s != [] { FirstWholeIsNewest(s, NewestFirst(s)); } else { NoneWhole(s); }
  }

  lemma NoneWhole(dirs: Backups)
    ensures FirstWhole([], dirs) == None
  {
  }

  /**
   What a run takes, told by the list and the attempt alone: nothing when the copy fails or the parent lacks one of
   the disks; else an incremental on the newest backup exactly when the run goes on the chain and the copy stayed
   one; and a checkpoint is recorded exactly when one was asked for, could be, and was made.
   */
  lemma TakenIff(s: Backups, a: Attempt)
    requires UniqueIds(s) && Ascending(s)
    ensures Taken(s, a) == None <==> a.copied.CopyFailed? || (GoesOn(s, a) && !a.parentHasDisks)
    ensures Taken(s, a).Some? ==>
              var m := Taken(s, a).value;
              && (m.kind == Incremental <==> GoesOn(s, a) && !a.copied.degradedToFull)
              && m.parent == (if m.kind == Incremental then Some(s[|s| - 1].id) else None)
              && m.id == a.id && m.createdAt == a.createdAt && m.size == a.size && m.retentionDays == a.retentionDays
              && (m.checkpoint.Some? <==>
                    a.requested != AlwaysFull && a.running && a.supported && a.copied.checkpointCreated)
              && (m.checkpoint.Some? ==> m.checkpoint == Some("vpbk-" + a.id))
  {
    hide AssessReadiness, Restorable, Depth, ClampFullEvery;
    NewestIsParent(s, a);
  }

  lemma PushKeepsShape(s: Backups, m: Manifest)
    requires Shaped(s) && m.id !in Ids(s) && (forall x :: x in s ==> x.createdAt < m.createdAt)
    requires m.kind == Incremental <==> m.parent.Some?
    requires m.parent.Some? ==> s != [] && m.parent == Some(s[|s| - 1].id) && Depth(s, |s| - 1) < MAX_FULL_EVERY
    ensures Shaped(s + [m])
  {
    hide UniqueIds, Ascending, WellKinded, OnPredecessor, Shallow;
    PushKeepsOrder(s, m);
    PushKeepsShallow(s, m);
  }

  lemma PushKeepsShallow(s: Backups, m: Manifest)
    requires Shallow(s) && (m.kind == Incremental ==> s != [] && Depth(s, |s| - 1) < MAX_FULL_EVERY)
    ensures Shallow(s + [m])
  {
    var s', n := s + [m], |s|;
    assert s'[..n] == s;
    forall i | 0 <= i < |s'| ensures Depth(s', i) <= MAX_FULL_EVERY {
      if i < n { DepthOfPrefix(s', n, i); } else if n > 0 { DepthOfPrefix(s', n, n - 1); }
    }
  }

  lemma PushKeepsOrder(s: Backups, m: Manifest)
    requires UniqueIds(s) && Ascending(s) && WellKinded(s) && OnPredecessor(s)
    requires m.id !in Ids(s) && (forall x :: x in s ==> x.createdAt < m.createdAt)
    requires m.kind == Incremental <==> m.parent.Some?
    requires m.parent.Some? ==> s != [] && m.parent == Some(s[|s| - 1].id)
    ensures UniqueIds(s + [m]) && Ascending(s + [m]) && WellKinded(s + [m]) && OnPredecessor(s + [m])
  {
    forall i | 0 <= i < |s| ensures s[i].id != m.id && s[i].createdAt < m.createdAt {
      assert s[i] in s && s[i].id in Ids(s);
    }
  }

  lemma {:induction false} RemoveAt(s: Backups, k: nat)
    requires UniqueIds(s) && k < |s|
    ensures Remove(s, s[k].id) == s[..k] + s[k + 1..]
  {
    var id, rest := s[k].id, s[1..];
    if k == 0 {
      assert Remove(s, id) == Remove(rest, id);
      RemoveAbsent(rest, id);
      assert s[..0] + s[1..] == rest;
    } else {
      assert Remove(s, id) == [s[0]] + Remove(rest, id);
      assert UniqueIds(rest) && rest[k - 1] == s[k];
      RemoveAt(rest, k - 1);
      TakeAndDrop(s, k);
    }
  }

  lemma TakeAndDrop(s: Backups, k: nat)
    requires 0 < k < |s|
    ensures [s[0]] + (s[1..][..k - 1] + s[1..][k..]) == s[..k] + s[k + 1..]
  {
  }

  lemma {:induction false} RemoveAbsent(s: Backups, id: string)
    requires forall i :: 0 <= i < |s| ==> s[i].id != id
    ensures Remove(s, id) == s
  {
    if s != [] { RemoveAbsent(s[1..], id); }
  }

  lemma {:induction false} DepthAfterLeaf(s: Backups, k: nat, i: nat)
    requires k <= i && i + 1 < |s| && s[k + 1].kind != Incremental
    ensures Depth(s[..k] + s[k + 1..], i) == Depth(s, i + 1)
  {
    if i > k { DepthAfterLeaf(s, k, i - 1); }
  }

  lemma DropKeepsShallow(s: Backups, k: nat)
    requires Shallow(s) && k < |s| && (k + 1 < |s| ==> s[k + 1].kind != Incremental)
    ensures Shallow(s[..k] + s[k + 1..])
  {
    var s' := s[..k] + s[k + 1..];
    forall i | 0 <= i < |s'| ensures Depth(s', i) <= MAX_FULL_EVERY {
      if i < k {
        assert s'[..k] == s[..k];
        DepthOfPrefix(s', k, i);
        DepthOfPrefix(s, k, i);
      } else {
        DepthAfterLeaf(s, k, i);
      }
    }
  }

  lemma DropKeepsOrder(s: Backups, k: nat)
    requires UniqueIds(s) && Ascending(s) && WellKinded(s) && OnPredecessor(s)
    requires k < |s| && (k + 1 < |s| ==> s[k + 1].kind != Incremental)
    ensures var s' := s[..k] + s[k + 1..];
            UniqueIds(s') && Ascending(s') && WellKinded(s') && OnPredecessor(s')
  {
    var s' := s[..k] + s[k + 1..];
    forall i | 0 <= i < |s'| ensures s'[i] == s[if i < k then i else i + 1] && s'[i] in s {}
    if k + 1 < |s| { assert s[k + 1] in s; }
  }

  lemma DropKeepsShape(s: Backups, k: nat)
    requires Shaped(s) && k < |s| && (k + 1 < |s| ==> s[k + 1].kind != Incremental)
    ensures Shaped(s[..k] + s[k + 1..])
  {
    hide UniqueIds, Ascending, WellKinded, OnPredecessor, Shallow;
    DropKeepsOrder(s, k);
    DropKeepsShallow(s, k);
  }

  lemma LeafKeepsShape(s: Backups, id: string)
    requires Shaped(s) && IsLeaf(s, id)
    ensures Shaped(Remove(s, id))
  {
    hide Shaped;
    if id in Ids(s) {
      var k :| 0 <= k < |s| && s[k].id == id;
      ShapedMeans(s);
      RemoveAt(s, k);
      if k + 1 < |s| { assert s[k + 1] in s && s[k + 1].parent != Some(id); }
      DropKeepsShape(s, k);
    } else {
      assert forall i :: 0 <= i < |s| ==> s[i] in s;
      RemoveAbsent(s, id);
    }
  }

  lemma ShapedMeans(s: Backups)
    requires Shaped(s)
    ensures UniqueIds(s) && Ascending(s) && WellKinded(s) && OnPredecessor(s)
  {
  }

  lemma {:induction false} LeavesKeepShape(s: Backups, ids: seq<string>, n: nat)
    requires Shaped(s) && LeavesOnly(s, ids) && n <= |ids|
    ensures Shaped(RemoveAll(s, ids[..n]))
  {
    if n > 0 {
      LeavesKeepShape(s, ids, n - 1);
      assert ids[..n][..n - 1] == ids[..n - 1];
      LeafKeepsShape(RemoveAll(s, ids[..n - 1]), ids[n - 1]);
    }
  }

  // ----- Whole runs

  /** An operation, with what it found or took; `done` is how many of its removals it lived to make. */
  datatype Op =
    | Take(a: Attempt)
    | Delete(id: string, cascade: bool, refused: bool, removed: seq<string>, done: nat)
    | Retain(policy: Policy, removed: seq<string>, done: nat)

  /** What one operation makes of a list, whole or cut short. */
  ghost predicate Leads(s: Backups, op: Op, s': Backups) {
    match op
    case Take(a) =>
      && a.id !in Ids(s) && (forall m :: m in s ==> m.createdAt < a.createdAt)
      && s' == (if Taken(s, a) == None then s else s + [Taken(s, a).value])
    case Delete(id, cascade, refused, removed, done) =>
      DeleteResult(s, id, cascade, refused, removed) && done <= |removed| && s' == RemoveAll(s, removed[..done])
    case Retain(policy, removed, done) =>
      Peeled(s, removed, policy) && done <= |removed| && s' == RemoveAll(s, removed[..done])
  }

  ghost predicate IsRun(lists: seq<Backups>, ops: seq<Op>) {
    && |lists| == |ops| + 1 && lists[0] == []
    && forall i :: 0 <= i < |ops| ==> Leads(lists[i], ops[i], lists[i + 1])
  }

  lemma ShapedIsChronological(s: Backups)
    requires Shaped(s)
    ensures Chronological(s)
  {
    forall m, p | m in s && p in s && m.parent == Some(p.id) ensures p.createdAt < m.createdAt {
      var i :| 0 <= i < |s| && s[i] == m;
      SameIdSame(s, p, s[i - 1]);
    }
  }

  lemma OpKeepsShape(s: Backups, op: Op, s': Backups)
    requires Shaped(s) && Leads(s, op, s')
    ensures Shaped(s')
  {
    hide Shaped, Taken, Peeled, DeleteResult;
    match op
    case Take(a) =>
      if Taken(s, a).Some? {
        TakenIsOnNewest(s, a) by { ShapedMeans(s); }
        PushKeepsShape(s, Taken(s, a).value);
      }
    case Delete(id, cascade, refused, removed, done) =>
      ShapedIsChronological(s);
      DeletedLeaves(s, id, cascade, refused, removed);
      LeavesKeepShape(s, removed, done);
    case Retain(policy, removed, done) =>
      PeeledLeaves(s, removed, policy);
      LeavesKeepShape(s, removed, done);
  }

  lemma PeeledLeaves(s: Backups, removed: seq<string>, policy: Policy)
    requires Peeled(s, removed, policy)
    ensures LeavesOnly(s, removed)
  {
  }

  lemma DeletedLeaves(s: Backups, id: string, cascade: bool, refused: bool, removed: seq<string>)
    ensures DeleteResult(s, id, cascade, refused, removed) && Chronological(s) ==> LeavesOnly(s, removed)
  {
  }

  lemma {:induction false} RunsAreShaped(lists: seq<Backups>, ops: seq<Op>, n: nat)
    requires IsRun(lists, ops) && n < |lists|
    ensures Shaped(lists[n])
  {
    if n > 0 {
      RunsAreShaped(lists, ops, n - 1);
      OpKeepsShape(lists[n - 1], ops[n - 1], lists[n]);
    }
  }

  /**
   In every list a run can come to: an incremental is layered on the backup taken just before it, no
   chain is broken, and none holds more than 60 incrementals, whatever was asked for on each run.
   */
  lemma ReachableChains(lists: seq<Backups>, ops: seq<Op>, n: nat, i: nat)
    requires IsRun(lists, ops) && n < |lists| && i < |lists[n]|
    ensures var s := lists[n];
            && (s[i].kind == Incremental <==> s[i].parent.Some?)
            && (s[i].parent.Some? ==> i > 0 && s[i].parent == Some(s[i - 1].id))
            && s[i] in s && !Walk(s, s[i]).broken && Restorable(s, s[i])
            && |Walk(s, s[i]).visited| <= 61
  {
    RunsAreShaped(lists, ops, n);
    var s := lists[n];
    ShapedWalk(s, i, {});
    BrokenIsNotRestorable(s, s[i]);
  }

  /** In every list a run can come to, the count that decides on a fresh full backup is the newest one's true depth. */
  lemma ReachableChainLength(lists: seq<Backups>, ops: seq<Op>, n: nat)
    requires IsRun(lists, ops) && n < |lists| && lists[n] != []
    ensures var s := lists[n];
            && s[|s| - 1] in s
            && ChainLength(NewestFirst(s)) + 1 == |Walk(s, s[|s| - 1]).visited|
            && ChainLength(NewestFirst(s)) <= 60
  {
    RunsAreShaped(lists, ops, n);
    var s := lists[n];
    NewestFirstReverses(s);
    ChainLengthIsDepth(s);
    ShapedWalk(s, |s| - 1, {});
  }

  /**
   In every list a run can come to nothing is built on itself, so a pass takes exactly what has expired with all
   that is built on it.
   */
  lemma ReachableRetention(lists: seq<Backups>, ops: seq<Op>, n: nat, removed: seq<string>, policy: Policy, m: Manifest)
    requires IsRun(lists, ops) && n < |lists| && Peeled(lists[n], removed, policy) && m in lists[n]
    ensures m.id in removed <==> ExpiredThroughout(lists[n], m, policy)
  {
    hide BuiltOn, ExpiredThroughout, Peeled, Leads;
    RunsAreShaped(lists, ops, n);
    ShapedMeans(lists[n]);
    ShapedIsChronological(lists[n]);
    forall x | x in lists[n] ensures !BuiltOn(lists[n], x.id, x) {
      if BuiltOn(lists[n], x.id, x) { NewerThanRoot(lists[n], x, x); }
    }
    RetentionIsExact(lists[n], removed, policy, m);
  }
}
