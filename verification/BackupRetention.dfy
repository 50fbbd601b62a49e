/**
 Retention, as services/backupService.ts applies it: a pass peels off expired backups that nothing is
 layered on until there are none, with the clock read once. Which backups that leaves, and that each
 removal on the way leaves every other chain as it was.
 */
module BackupRetention {
  import opened Wrappers
  import opened BackupChains
  import opened BackupDeletion

  const DAY_MS: int := 24 * 60 * 60 * 1000

  /** The clock, and how many days the schedule or the settings keep a backup that says 0. */
  datatype Policy = Policy(now: int, globalRetention: int)

  predicate IsExpired(b: Manifest, policy: Policy) {
    var days := if b.retentionDays > 0 then b.retentionDays else policy.globalRetention;
    days != 0 && b.createdAt < policy.now - days * DAY_MS
  }

  // ----- Counting children

  /** How many of these, without the removed ones, name this parent. */
  function CountChildren(backups: Backups, removed: set<string>, id: string): nat {
    if backups == [] then 0
    else
      var b := backups[|backups| - 1];
      CountChildren(backups[..|backups| - 1], removed, id) + if b.parent == Some(id) && b.id !in removed then 1 else 0
  }

  function CountIn(childCount: map<string, int>, id: string): int {
    if id in childCount then childCount[id] else 0
  }

  lemma {:induction false} NoChildren(backups: Backups, removed: set<string>, id: string)
    ensures CountChildren(backups, removed, id) == 0
            <==> forall m :: m in backups && m.id !in removed ==> m.parent != Some(id)
  {
    if backups != [] {
      var n := |backups| - 1;
      assert backups == backups[..n] + [backups[n]];
      NoChildren(backups[..n], removed, id);
    }
  }

  lemma {:induction false} CountAfterRemoval(backups: Backups, removed: set<string>, b: Manifest, id: string)
    requires UniqueIds(backups) && b.id !in removed
    ensures CountChildren(backups, removed + {b.id}, id)
            == CountChildren(backups, removed, id) - if b in backups && b.parent == Some(id) then 1 else 0
    requires b.id in Ids(backups) ==> b in backups
  {
    if backups != [] {
      var n := |backups| - 1;
      assert backups == backups[..n] + [backups[n]];
      if b in backups && b.id in Ids(backups[..n]) {
        var c :| c in backups[..n] && c.id == b.id;
        SameIdSame(backups, b, c);
      }
      CountAfterRemoval(backups[..n], removed, b, id);
      if b in backups[..n] { assert backups[n].id != b.id; }
    }
  }

  // ----- What a pass leaves

  /** Each removal took an expired backup that nothing left was layered on, and none of those is left. */
  ghost predicate Peeled(backups: Backups, removed: seq<string>, policy: Policy) {
    && LeavesOnly(backups, removed)
    && (forall m :: m in backups && m.id in removed ==> IsExpired(m, policy))
    && SelfSupporting(backups, RemoveAll(backups, removed), policy)
  }

  /** Every backup here is unexpired, or has one layered on it here. */
  ghost predicate SelfSupporting(backups: Backups, kept: Backups, policy: Policy) {
    forall m :: m in kept && IsExpired(m, policy) ==> exists c :: c in kept && c.parent == Some(m.id)
  }

  /** Nothing a pass would take: gone already, with something layered on it, or not expired. */
  ghost predicate Stuck(b: Manifest, backups: Backups, gone: set<string>, policy: Policy) {
    b.id in gone || CountChildren(backups, gone, b.id) > 0 || !IsExpired(b, policy)
  }

  lemma SameAfterSorting(all: Backups)
    requires UniqueIds(all)
    ensures UniqueIds(NewestFirst(all)) && forall m :: m in NewestFirst(all) <==> m in all
  {
    NewestFirstInOrder(all);
    var s := NewestFirst(all);
    forall i, j | 0 <= i < j < |s| ensures s[i].id != s[j].id {
      if s[i].id == s[j].id {
        SameIdSame(all, s[i], s[j]);
        assert multiset(s)[s[i]] >= 2 by { TwiceInside(s, i, j); }
        OnceInside(all, s[i]);
      }
    }
  }

  lemma TwiceInside(s: Backups, i: nat, j: nat)
    requires i < j < |s| && s[i] == s[j]
    ensures multiset(s)[s[i]] >= 2
  {
    assert s == s[..j] + s[j..];
    assert s[i] in s[..j] && s[j..][0] == s[i];
    assert multiset(s) == multiset(s[..j]) + multiset(s[j..]);
  }

  lemma {:induction false} OnceInside(s: Backups, m: Manifest)
    requires UniqueIds(s)
    ensures multiset(s)[m] <= 1
  {
    if s != [] {
      var n := |s| - 1;
      assert s == s[..n] + [s[n]];
      OnceInside(s[..n], m);
      assert m == s[n] ==> m !in s[..n];
    }
  }

  lemma Nothing(all: Backups)
    ensures RemoveAll(all, []) == all && LeavesOnly(all, [])
  {
  }

  lemma TakeLeaf(all: Backups, backups: Backups, removed: seq<string>, gone: set<string>, b: Manifest, policy: Policy)
    requires UniqueIds(all) && LeavesOnly(all, removed) && gone == set id | id in removed
    requires (forall m :: m in backups <==> m in all) && b in backups && b.id !in gone
    requires CountChildren(backups, gone, b.id) == 0 && IsExpired(b, policy)
    requires forall m :: m in all && m.id in gone ==> IsExpired(m, policy)
    ensures LeavesOnly(all, removed + [b.id])
    ensures RemoveAll(all, removed + [b.id]) == Remove(RemoveAll(all, removed), b.id)
    ensures gone + {b.id} == (set id | id in removed + [b.id]) && b.id in Ids(all)
    ensures forall m :: m in all && m.id in gone + {b.id} ==> IsExpired(m, policy)
  {
    NoChildren(backups, gone, b.id);
    RemoveAllLeaves(all, removed);
    RemoveAllPush(all, removed, b.id);
    var ids := removed + [b.id];
    forall i | 0 <= i < |ids| ensures IsLeaf(RemoveAll(all, ids[..i]), ids[i]) {
      if i < |removed| { assert ids[..i] == removed[..i]; } else { assert ids[..i] == removed; }
    }
    forall m | m in all && m.id in gone + {b.id} ensures IsExpired(m, policy) {
      if m.id == b.id { SameIdSame(all, m, b); }
    }
  }

  function Decrement(childCount: map<string, int>, b: Manifest): map<string, int> {
    if b.parent == None then childCount
    else childCount[b.parent.value := (if b.parent.value in childCount then childCount[b.parent.value] else 1) - 1]
  }

  lemma CountStep(backups: Backups, childCount: map<string, int>, gone: set<string>, b: Manifest)
    requires UniqueIds(backups) && b in backups && b.id !in gone
    requires forall id :: CountIn(childCount, id) == CountChildren(backups, gone, id)
    ensures forall id :: CountIn(Decrement(childCount, b), id) == CountChildren(backups, gone + {b.id}, id)
  {
    forall id ensures CountChildren(backups, gone + {b.id}, id)
                      == CountChildren(backups, gone, id) - if b.parent == Some(id) then 1 else 0
    {
      CountAfterRemoval(backups, gone, b, id);
    }
    if b.parent.Some? {
      NoChildren(backups, gone, b.parent.value);
      assert CountIn(childCount, b.parent.value) > 0;
    }
  }

  /** What holds all through a pass: only leaves went, only expired ones, and the counts are of what is left. */
  ghost predicate Peeling(
      all: Backups, dirs: Backups, removed: seq<string>, gone: set<string>, childCount: map<string, int>,
      policy: Policy)
  {
    && dirs == RemoveAll(all, removed) && LeavesOnly(all, removed)
    && gone == (set id | id in removed)
    && (forall m :: m in all && m.id in gone ==> IsExpired(m, policy))
    && forall id :: CountIn(childCount, id) == CountChildren(NewestFirst(all), gone, id)
  }

  lemma PeelingStarts(all: Backups, childCount: map<string, int>, policy: Policy)
    requires forall id :: CountIn(childCount, id) == CountChildren(NewestFirst(all), {}, id)
    ensures Peeling(all, all, [], {}, childCount, policy)
  {
    Nothing(all);
  }

  lemma PeelOne(
      all: Backups, dirs: Backups, removed: seq<string>, gone: set<string>, childCount: map<string, int>,
      policy: Policy, b: Manifest)
    requires UniqueIds(all) && Peeling(all, dirs, removed, gone, childCount, policy)
    ensures b in NewestFirst(all) && b.id !in gone && CountIn(childCount, b.id) <= 0 && IsExpired(b, policy) ==>
              && Peeling(all, Remove(dirs, b.id), removed + [b.id], gone + {b.id}, Decrement(childCount, b), policy)
              && b.id in Ids(all)
  {
    if b !in NewestFirst(all) || b.id in gone || CountIn(childCount, b.id) > 0 || !IsExpired(b, policy) { return; }
    SameAfterSorting(all);
    TakeLeaf(all, NewestFirst(all), removed, gone, b, policy);
    CountStep(NewestFirst(all), childCount, gone, b);
  }

  lemma Passed(
      all: Backups, dirs: Backups, removed: seq<string>, gone: set<string>, childCount: map<string, int>,
      policy: Policy, b: Manifest)
    requires Peeling(all, dirs, removed, gone, childCount, policy)
    requires b.id in gone || CountIn(childCount, b.id) > 0 || !IsExpired(b, policy)
    ensures Stuck(b, NewestFirst(all), gone, policy)
  {
  }

  lemma PeelingEnds(
      all: Backups, dirs: Backups, removed: seq<string>, gone: set<string>, childCount: map<string, int>,
      policy: Policy)
    requires UniqueIds(all) && Peeling(all, dirs, removed, gone, childCount, policy)
    requires forall b :: b in NewestFirst(all) ==> Stuck(b, NewestFirst(all), gone, policy)
    ensures dirs == RemoveAll(all, removed) && Peeled(all, removed, policy)
  {
    SameAfterSorting(all);
    hide NewestFirst, CountChildren;
    RemoveAllLeaves(all, removed);
    var kept := RemoveAll(all, removed);
    forall m | m in kept && IsExpired(m, policy) ensures exists c :: c in kept && c.parent == Some(m.id) {
      NoChildren(NewestFirst(all), gone, m.id);
      assert Stuck(m, NewestFirst(all), gone, policy);
    }
  }

  method CountAll(backups: Backups) returns (childCount: map<string, int>)
    ensures forall id :: CountIn(childCount, id) == CountChildren(backups, {}, id)
  {
    childCount := map[];
    for i := 0 to |backups|
      invariant forall id :: CountIn(childCount, id) == CountChildren(backups[..i], {}, id)
    {
      assert backups[..i + 1][..i] == backups[..i];
      if backups[i].parent.Some? {
        var p := backups[i].parent.value;
        childCount := childCount[p := (if p in childCount then childCount[p] else 0) + 1];
      }
    }
    assert backups[..|backups|] == backups;
  }

  /** The backups here that name this parent. */
  ghost function Children(backups: Backups, id: string): set<Manifest> {
    set m | m in backups && m.parent == Some(id)
  }

  /**
   The counts kept as a pass goes: before each removal, and at the end, each parent's is of the children it has
   left.
   */
  ghost predicate CountsFollow(all: Backups, removed: seq<string>, counts: seq<map<string, int>>) {
    && |counts| == |removed| + 1
    && forall k, id :: 0 <= k <= |removed| ==> CountIn(counts[k], id) == |Children(RemoveAll(all, removed[..k]), id)|
  }

  ghost function LeftNaming(backups: Backups, gone: set<string>, id: string): set<Manifest> {
    set m | m in backups && m.id !in gone && m.parent == Some(id)
  }

  lemma NotBefore(backups: Backups)
    requires UniqueIds(backups) && backups != []
    ensures var init, b := backups[..|backups| - 1], backups[|backups| - 1];
            backups == init + [b] && UniqueIds(init) && b !in init
  {
  }

  lemma {:induction false} CountIsSize(backups: Backups, gone: set<string>, id: string)
    requires UniqueIds(backups)
    ensures CountChildren(backups, gone, id) == |LeftNaming(backups, gone, id)|
  {
    if backups == [] {
      assert LeftNaming(backups, gone, id) == {};
    } else {
      var init, b := backups[..|backups| - 1], backups[|backups| - 1];
      NotBefore(backups);
      hide UniqueIds;
      CountIsSize(init, gone, id);
      var rest := LeftNaming(init, gone, id);
      assert b !in rest;
      assert LeftNaming(backups, gone, id) == if b.parent == Some(id) && b.id !in gone then rest + {b} else rest by {
        assert forall m :: m in backups <==> m in init || m == b;
      }
    }
  }

  /** A count over the sorted list, without what has gone, is of the children left. */
  lemma CountIsChildren(all: Backups, removed: seq<string>, gone: set<string>, id: string)
    requires UniqueIds(all) && gone == set x | x in removed
    ensures CountChildren(NewestFirst(all), gone, id) == |Children(RemoveAll(all, removed), id)|
  {
    hide NewestFirst, RemoveAll, CountChildren, UniqueIds;
    SameAfterSorting(all);
    CountIsSize(NewestFirst(all), gone, id);
    RemoveAllLeaves(all, removed);
    assert LeftNaming(NewestFirst(all), gone, id) == Children(RemoveAll(all, removed), id);
  }

  lemma CountsStart(all: Backups, childCount: map<string, int>, policy: Policy)
    requires UniqueIds(all) && Peeling(all, all, [], {}, childCount, policy)
    ensures CountsFollow(all, [], [childCount])
  {
    forall id ensures CountIn(childCount, id) == |Children(RemoveAll(all, []), id)| {
      CountIsChildren(all, [], {}, id);
    }
  }

  lemma CountsGoOn(
      all: Backups, dirs: Backups, removed: seq<string>, gone: set<string>, childCount: map<string, int>,
      policy: Policy, counts: seq<map<string, int>>, id: string)
    requires UniqueIds(all) && CountsFollow(all, removed, counts)
    requires Peeling(all, dirs, removed + [id], gone, childCount, policy)
    ensures CountsFollow(all, removed + [id], counts + [childCount])
  {
    hide RemoveAll, NewestFirst, CountChildren, UniqueIds, Children, LeavesOnly, IsExpired;
    var longer := removed + [id];
    forall k, x | 0 <= k <= |longer|
      ensures CountIn((counts + [childCount])[k], x) == |Children(RemoveAll(all, longer[..k]), x)|
    {
      if k == |longer| {
        assert longer[..k] == longer;
        CountIsChildren(all, longer, gone, x);
      } else {
        assert longer[..k] == removed[..k];
      }
    }
  }

  /** `removed` lists what went, in order, and `counts` the child counts before each of them and at the end. */
  method ApplyRetention(store: Store, unreadable: nat, policy: Policy)
    returns (refused: bool, ghost removed: seq<string>, ghost counts: seq<map<string, int>>)
    requires UniqueIds(store.dirs)
    modifies store
    ensures refused <==> unreadable > 0
    ensures refused ==> store.dirs == old(store.dirs)
    ensures !refused ==> store.dirs == RemoveAll(old(store.dirs), removed) && Peeled(old(store.dirs), removed, policy)
    ensures !refused ==> CountsFollow(old(store.dirs), removed, counts)
  {
    hide Peeling, Stuck, Peeled, IsExpired, RemoveAll, Remove, NewestFirst, UniqueIds, CountChildren, CountsFollow;
    removed, counts := [], [];
    if unreadable > 0 { return true, [], []; }
    ghost var all := store.dirs;
    var backups := NewestFirst(store.dirs);
    var childCount := CountAll(backups);
    var gone: set<string> := {};
    var progress := true;
    PeelingStarts(all, childCount, policy);
    counts := [childCount];
    CountsStart(all, childCount, policy);
    while progress
      invariant CountsFollow(all, removed, counts)
      invariant Peeling(all, store.dirs, removed, gone, childCount, policy) && gone <= Ids(all)
      invariant !progress ==> forall b :: b in backups ==> Stuck(b, backups, gone, policy)
      decreases Ids(all) - gone, progress
    {
      progress := false;
      ghost var before := gone;
      for i := 0 to |backups|
        invariant CountsFollow(all, removed, counts)
        invariant Peeling(all, store.dirs, removed, gone, childCount, policy)
        invariant before <= gone <= Ids(all) && (progress <==> gone != before)
        invariant !progress ==> forall b :: b in backups[..i] ==> Stuck(b, backups, gone, policy)
      {
        var b := backups[i];
        assert backups[..i + 1] == backups[..i] + [b];
        if b.id in gone || CountIn(childCount, b.id) > 0 || !IsExpired(b, policy) {
          Passed(all, store.dirs, removed, gone, childCount, policy, b);
          continue;
        }
        PeelOne(all, store.dirs, removed, gone, childCount, policy, b);
        store.dirs := Remove(store.dirs, b.id);
        gone := gone + {b.id};
        childCount := Decrement(childCount, b);
        CountsGoOn(all, store.dirs, removed, gone, childCount, policy, counts, b.id);
        removed := removed + [b.id];
        counts := counts + [childCount];
        progress := true;
      }
      assert backups[..|backups|] == backups;
    }
    PeelingEnds(all, store.dirs, removed, gone, childCount, policy);
    return false, removed, counts;
  }

  // ----- Exactly which backups go

  /** Taking an expired leaf takes none of them. */
  lemma LeafIsNotSupported(backups: Backups, left: Backups, id: string, policy: Policy, kept: Backups)
    requires SelfSupporting(backups, kept, policy) && IsLeaf(left, id)
    requires forall m :: m in kept ==> m in left
    requires forall m :: m in kept && m.id == id ==> IsExpired(m, policy)
    ensures forall m :: m in kept ==> m.id != id
  {
    forall m | m in kept && IsExpired(m, policy) ensures m.id != id {
      var c :| c in kept && c.parent == Some(m.id);
      assert c in left;
    }
  }

  /** What went n-th was an expired leaf then. */
  lemma PeeledAt(backups: Backups, removed: seq<string>, policy: Policy, n: nat)
    requires Peeled(backups, removed, policy) && n < |removed|
    ensures IsLeaf(RemoveAll(backups, removed[..n]), removed[n])
    ensures forall m :: m in backups && m.id == removed[n] ==> IsExpired(m, policy)
  {
    hide RemoveAll, IsLeaf, IsExpired, SelfSupporting;
  }

  /** Any backups that support one another are left, on any parent graph. */
  lemma {:induction false} SupportedStay(
      backups: Backups, removed: seq<string>, policy: Policy, kept: Backups, n: nat)
    requires Peeled(backups, removed, policy) && n <= |removed|
    requires (forall m :: m in kept ==> m in backups) && SelfSupporting(backups, kept, policy)
    ensures forall m :: m in kept ==> m.id !in removed[..n]
  {
    if n > 0 {
      hide RemoveAll, IsExpired, SelfSupporting, Peeled, IsLeaf;
      var before, id := removed[..n - 1], removed[n - 1];
      assert removed[..n] == before + [id];
      PeeledAt(backups, removed, policy, n - 1);
      SupportedStay(backups, removed, policy, kept, n - 1);
      RemoveAllLeaves(backups, before);
      LeafIsNotSupported(backups, RemoveAll(backups, before), id, policy, kept);
    }
  }

  /** What a pass leaves is the largest part of the list in which every backup is unexpired or has one layered on it. */
  lemma LeavesLargestSupported(backups: Backups, removed: seq<string>, policy: Policy, kept: Backups)
    requires UniqueIds(backups) && Peeled(backups, removed, policy)
    requires (forall m :: m in kept ==> m in backups) && SelfSupporting(backups, kept, policy)
    ensures SelfSupporting(backups, RemoveAll(backups, removed), policy)
    ensures forall m :: m in kept ==> m in RemoveAll(backups, removed)
  {
    SupportedStay(backups, removed, policy, kept, |removed|);
    assert removed[..|removed|] == removed;
    RemoveAllLeaves(backups, removed);
  }

  /** Nothing is built on itself. */
  ghost predicate Acyclic(backups: Backups) {
    forall m :: m in backups ==> !BuiltOn(backups, m.id, m)
  }

  /** It and everything built on it, through any number of links, has expired. */
  ghost predicate ExpiredThroughout(backups: Backups, m: Manifest, policy: Policy) {
    IsExpired(m, policy) && forall d :: d in backups && BuiltOn(backups, m.id, d) ==> IsExpired(d, policy)
  }

  lemma {:induction false} RemovedThroughout(
      backups: Backups, removed: seq<string>, policy: Policy, m: Manifest, path: seq<Manifest>)
    requires UniqueIds(backups) && Peeled(backups, removed, policy) && m in backups && m.id in removed
    requires ChildPath(backups, m.id, path)
    ensures forall i :: 0 <= i < |path| ==> path[i].id in removed
  {
    if path != [] {
      var n := |path| - 1;
      assert ChildPath(backups, m.id, path[..n]);
      RemovedThroughout(backups, removed, policy, m, path[..n]);
      assert forall i :: 0 <= i < n ==> path[..n][i] == path[i];
      var below := if n == 0 then m else path[n - 1];
      var k :| 0 <= k < |removed| && removed[k] == below.id;
      RemoveAllLeaves(backups, removed[..k]);
      assert IsLeaf(RemoveAll(backups, removed[..k]), removed[k]);
      assert path[n] !in RemoveAll(backups, removed[..k]);
      assert path[n].id in removed[..k];
    }
  }

  lemma BuiltOnParent(backups: Backups, m: Manifest, c: Manifest, x: Manifest)
    requires c in backups && c.parent == Some(m.id) && BuiltOn(backups, c.id, x)
    ensures BuiltOn(backups, m.id, x)
  {
    var path :| ChildPath(backups, c.id, path) && path != [] && path[|path| - 1] == x;
    ChildFirst(backups, m.id, c, path);
    assert ([c] + path)[|path|] == x;
  }

  lemma ChildFirst(backups: Backups, root: string, c: Manifest, path: seq<Manifest>)
    requires c in backups && c.parent == Some(root) && ChildPath(backups, c.id, path)
    ensures ChildPath(backups, root, [c] + path)
  {
    var longer := [c] + path;
    forall i | 0 < i < |longer| ensures IsChild(longer[i], longer[i - 1].id) {
      if i > 1 { assert longer[i] == path[i - 1] && longer[i - 1] == path[i - 2]; }
    }
  }

  /** The survivors built on m. */
  ghost function Over(backups: Backups, kept: Backups, m: Manifest): set<Manifest> {
    set x | x in kept && BuiltOn(backups, m.id, x)
  }

  lemma OverShrinks(backups: Backups, kept: Backups, m: Manifest, c: Manifest)
    requires Acyclic(backups) && c in kept && c in backups && c.parent == Some(m.id)
    ensures Over(backups, kept, c) < Over(backups, kept, m)
  {
    assert ChildPath(backups, m.id, [c]) && BuiltOn(backups, m.id, c);
    hide BuiltOn;
    assert c in Over(backups, kept, m) && c !in Over(backups, kept, c);
    forall x | x in Over(backups, kept, c) ensures x in Over(backups, kept, m) {
      BuiltOnParent(backups, m, c, x);
    }
  }

  /** From an expired survivor, up through survivors to one that has not expired. */
  lemma {:induction false} SurvivorHasReason(backups: Backups, kept: Backups, policy: Policy, m: Manifest)
    returns (path: seq<Manifest>)
    requires Acyclic(backups) && SelfSupporting(backups, kept, policy)
    requires forall x :: x in kept ==> x in backups
    requires m in kept && IsExpired(m, policy)
    ensures ChildPath(backups, m.id, path) && path != [] && !IsExpired(path[|path| - 1], policy)
    decreases Over(backups, kept, m)
  {
    hide BuiltOn, Over, IsExpired, Acyclic;
    var c :| c in kept && c.parent == Some(m.id);
    if !IsExpired(c, policy) {
      path := [c];
    } else {
      hide ChildPath;
      OverShrinks(backups, kept, m, c);
      var rest := SurvivorHasReason(backups, kept, policy, c);
      ChildFirst(backups, m.id, c, rest);
      path := [c] + rest;
    }
  }

  /**
   With links that do not cycle, a pass takes exactly the backups that have expired with all that is built on
   them.
   */
  lemma RetentionIsExact(backups: Backups, removed: seq<string>, policy: Policy, m: Manifest)
    requires UniqueIds(backups) && Peeled(backups, removed, policy) && m in backups
    ensures Acyclic(backups) ==> (m.id in removed <==> ExpiredThroughout(backups, m, policy))
  {
    if !Acyclic(backups) { return; }
    RemoveAllLeaves(backups, removed);
    if m.id in removed {
      forall d | d in backups && BuiltOn(backups, m.id, d) ensures IsExpired(d, policy) {
        var path :| ChildPath(backups, m.id, path) && path != [] && path[|path| - 1] == d;
        RemovedThroughout(backups, removed, policy, m, path);
      }
    } else if IsExpired(m, policy) {
      var path := SurvivorHasReason(backups, RemoveAll(backups, removed), policy, m);
      var d := path[|path| - 1];
      assert BuiltOn(backups, m.id, d) && d in backups;
    }
  }

  /**
   What the days mean, of a pass's result. Whose own days and the global ones are both 0 stays for ever. Own days
   keep a backup that long whatever the global ones say, and the global days keep one that has none of its own. And
   one older than its days with nothing built on it goes.
   */
  lemma RetentionByAge(backups: Backups, removed: seq<string>, policy: Policy, m: Manifest)
    requires Peeled(backups, removed, policy) && m in backups
    ensures var age, leaf := policy.now - m.createdAt, forall c :: c in backups ==> c.parent != Some(m.id);
            && (m.retentionDays <= 0 && policy.globalRetention == 0 ==> m.id !in removed)
            && (m.retentionDays > 0 && age <= m.retentionDays * 86_400_000 ==> m.id !in removed)
            && (m.retentionDays > 0 && age > m.retentionDays * 86_400_000 && leaf ==> m.id in removed)
            && (m.retentionDays <= 0 && age <= policy.globalRetention * 86_400_000 ==> m.id !in removed)
            && (m.retentionDays <= 0 && policy.globalRetention != 0 && age > policy.globalRetention * 86_400_000 && leaf
                ==> m.id in removed)
  {
    RemoveAllLeaves(backups, removed);
    assert m.id !in removed ==> m in RemoveAll(backups, removed);
  }

  /** After each removal of a pass, every backup that is left has the chain it had before. */
  lemma RetentionKeepsChains(backups: Backups, removed: seq<string>, policy: Policy, n: nat, m: Manifest)
    requires Peeled(backups, removed, policy) && n <= |removed| && m in RemoveAll(backups, removed[..n])
    ensures m in backups && Walk(RemoveAll(backups, removed[..n]), m) == Walk(backups, m)
  {
    LeavesKeepChains(backups, removed, n, m);
  }
}
