/**
 Deleting backups, as services/backupService.ts does it: what is built on a backup, on any parent graph,
 and the order things go in. A removal that goes before the parent it is layered on breaks nothing.
 */
module BackupDeletion {
  import opened Wrappers
  import opened BackupChains

  predicate IsChild(m: Manifest, id: string) {
    m.parent == Some(id)
  }

  // ----- What is built on a backup

  /** From a backup up through ones layered on it: each names the one before. */
  ghost predicate ChildPath(backups: Backups, root: string, path: seq<Manifest>) {
    && (forall i :: 0 <= i < |path| ==> path[i] in backups)
    && (path != [] ==> IsChild(path[0], root))
    && (forall i :: 0 < i < |path| ==> IsChild(path[i], path[i - 1].id))
  }

  /** Reachable from root through child links, in one step or more. */
  ghost predicate BuiltOn(backups: Backups, root: string, m: Manifest) {
    exists path :: ChildPath(backups, root, path) && path != [] && path[|path| - 1] == m
  }

  lemma ChildExtends(backups: Backups, root: string, m: Manifest, child: Manifest)
    requires child in backups && IsChild(child, m.id)
    requires m.id == root || BuiltOn(backups, root, m)
    ensures BuiltOn(backups, root, child)
  {
    if m.id == root {
      assert ChildPath(backups, root, [child]);
    } else {
      var path :| ChildPath(backups, root, path) && path != [] && path[|path| - 1] == m;
      var longer := path + [child];
      assert ChildPath(backups, root, longer) && longer[|longer| - 1] == child;
    }
  }

  function ChildrenOf(backups: Backups, id: string): (children: Backups)
    ensures forall m :: m in children <==> m in backups && IsChild(m, id)
  {
    if backups == [] then []
    else
      assert backups == [backups[0]] + backups[1..];
      if IsChild(backups[0], id) then [backups[0]] + ChildrenOf(backups[1..], id) else ChildrenOf(backups[1..], id)
  }

  /** Closed: everything found has had its children found, but for what is still to be looked at. */
  ghost predicate Closed(backups: Backups, seen: set<string>, todo: seq<string>) {
    forall m :: m in backups && m.parent.Some? && m.parent.value in seen && m.parent.value !in todo ==> m.id in seen
  }

  lemma {:induction false} ClosedHasAll(backups: Backups, root: string, seen: set<string>, path: seq<Manifest>)
    requires root in seen && Closed(backups, seen, []) && ChildPath(backups, root, path) && path != []
    ensures path[|path| - 1].id in seen
  {
    var n := |path| - 1;
    if n > 0 {
      assert ChildPath(backups, root, path[..n]);
      ClosedHasAll(backups, root, seen, path[..n]);
    }
  }

  /** What has been found so far, and nothing twice. */
  ghost predicate Found(backups: Backups, root: string, out: Backups, seen: set<string>) {
    && seen == {root} + Ids(out) && UniqueIds(out) && seen <= {root} + Ids(backups)
    && forall m :: m in out ==> m in backups && m.id != root && BuiltOn(backups, root, m)
  }

  lemma FoundMore(backups: Backups, root: string, out: Backups, seen: set<string>, id: string, child: Manifest)
    requires Found(backups, root, out, seen) && id in seen
    requires child in backups && IsChild(child, id) && child.id !in seen
    ensures Found(backups, root, out + [child], seen + {child.id})
  {
    if id == root {
      assert ChildPath(backups, root, [child]);
    } else {
      var m :| m in out && m.id == id;
      ChildExtends(backups, root, m, child);
    }
  }

  lemma FoundAll(backups: Backups, root: string, out: Backups, seen: set<string>)
    requires Found(backups, root, out, seen) && Closed(backups, seen, [])
    ensures forall m :: m in backups && m.id != root && BuiltOn(backups, root, m) ==> m.id in Ids(out)
  {
    forall m | m in backups && m.id != root && BuiltOn(backups, root, m) ensures m.id in Ids(out) {
      var path :| ChildPath(backups, root, path) && path != [] && path[|path| - 1] == m;
      ClosedHasAll(backups, root, seen, path);
    }
  }

  /** Everything reachable from the root through child links, once each and without the root, cycles or not. */
  method CollectDescendants(backups: Backups, rootId: string) returns (out: Backups)
    ensures forall m :: m in out ==> m in backups && m.id != rootId && BuiltOn(backups, rootId, m)
    ensures forall m :: m in backups && m.id != rootId && BuiltOn(backups, rootId, m) ==> m.id in Ids(out)
    ensures UniqueIds(out)
  {
    hide Found, BuiltOn;
    out := [];
    var stack, seen := [rootId], {rootId};
    NothingFound(backups, rootId);
    while |stack| > 0
      invariant Found(backups, rootId, out, seen) && seen <= {rootId} + Ids(backups)
      invariant forall id :: id in stack ==> id in seen
      invariant Closed(backups, seen, stack)
      decreases {rootId} + Ids(backups) - seen, |stack|
    {
      var id := stack[|stack| - 1];
      ghost var before, held := seen, stack;
      stack := stack[..|stack| - 1];
      assert held == stack + [id];
      var children := ChildrenOf(backups, id);
      for i := 0 to |children|
        invariant before <= seen <= {rootId} + Ids(backups) && Found(backups, rootId, out, seen)
        invariant forall x :: x in stack ==> x in seen
        invariant seen == before ==> stack == held[..|held| - 1]
        invariant forall x :: (x in seen && x !in before) || (x in held && x != id) ==> x in stack
        invariant forall m :: m in children[..i] ==> m.id in seen
      {
        var child := children[i];
        assert child in children && children[..i + 1] == children[..i] + [child];
        if child.id in seen { continue; }
        FoundMore(backups, rootId, out, seen, id, child);
        seen := seen + {child.id};
        out := out + [child];
        stack := stack + [child.id];
      }
      assert children[..|children|] == children;
    }
    assert stack == [];
    FoundAll(backups, rootId, out, seen);
    FoundMeans(backups, rootId, out, seen);
  }

  lemma NothingFound(backups: Backups, root: string)
    ensures Found(backups, root, [], {root})
  {
  }

  lemma FoundMeans(backups: Backups, root: string, out: Backups, seen: set<string>)
    requires Found(backups, root, out, seen)
    ensures UniqueIds(out) && forall m :: m in out ==> m in backups && m.id != root && BuiltOn(backups, root, m)
  {
  }

  // ----- Removals that break nothing

  predicate IsLeaf(backups: Backups, id: string) {
    forall m :: m in backups ==> m.parent != Some(id)
  }

  function RemoveAll(backups: Backups, ids: seq<string>): Backups {
    if ids == [] then backups else Remove(RemoveAll(backups, ids[..|ids| - 1]), ids[|ids| - 1])
  }

  /** Each goes when nothing that is left is layered on it. */
  ghost predicate LeavesOnly(backups: Backups, ids: seq<string>) {
    forall i :: 0 <= i < |ids| ==> IsLeaf(RemoveAll(backups, ids[..i]), ids[i])
  }

  lemma {:induction false} RemoveAllLeaves(backups: Backups, ids: seq<string>)
    ensures forall m :: m in RemoveAll(backups, ids) <==> m in backups && m.id !in ids
  {
    if ids != [] {
      assert ids == ids[..|ids| - 1] + [ids[|ids| - 1]];
      RemoveAllLeaves(backups, ids[..|ids| - 1]);
    }
  }

  lemma {:induction false} FindAfterRemove(backups: Backups, gone: string, id: string)
    requires id != gone
    ensures Find(Remove(backups, gone), id) == Find(backups, id)
  {
    if backups != [] {
      FindAfterRemove(backups[1..], gone, id);
      if backups[0].id != gone {
        assert ([backups[0]] + Remove(backups[1..], gone))[1..] == Remove(backups[1..], gone);
      }
    }
  }

  lemma {:induction false} LeafKeepsWalk(backups: Backups, gone: string, m: Manifest, seen: set<string>)
    requires IsLeaf(backups, gone) && m in backups && m.id != gone
    ensures WalkFrom(Remove(backups, gone), m, seen) == WalkFrom(backups, m, seen)
    decreases Ids(backups) - seen
  {
    if m.id !in seen && !IsRoot(m) {
      FindAfterRemove(backups, gone, m.parent.value);
      var parent := Find(backups, m.parent.value);
      if parent.Some? {
        assert m.id in Ids(backups) - seen;
        LeafKeepsWalk(backups, gone, parent.value, seen + {m.id});
      }
    }
  }

  /** After each removal every backup that is left has the chain it had before any of them. */
  lemma {:induction false} LeavesKeepChains(backups: Backups, ids: seq<string>, n: nat, m: Manifest)
    requires LeavesOnly(backups, ids) && n <= |ids| && m in RemoveAll(backups, ids[..n])
    ensures m in backups && Walk(RemoveAll(backups, ids[..n]), m) == Walk(backups, m)
  {
    RemoveAllLeaves(backups, ids[..n]);
    if n > 0 {
      assert ids[..n][..n - 1] == ids[..n - 1];
      LeavesKeepChains(backups, ids, n - 1, m);
      LeafKeepsWalk(RemoveAll(backups, ids[..n - 1]), ids[n - 1], m, {});
    }
  }

  // ----- Newest first

  function Insert(sorted: Backups, m: Manifest): (r: Backups)
    ensures multiset(r) == multiset(sorted) + multiset{m}
  {
    if sorted == [] then [m]
    else
      assert sorted == [sorted[0]] + sorted[1..];
      if sorted[0].createdAt <= m.createdAt then [m] + sorted else [sorted[0]] + Insert(sorted[1..], m)
  }

  function NewestFirst(backups: Backups): (r: Backups)
    ensures multiset(r) == multiset(backups)
  {
    if backups == [] then []
    else
      assert backups == [backups[0]] + backups[1..];
      Insert(NewestFirst(backups[1..]), backups[0])
  }

  ghost predicate Descending(s: Backups) {
    forall i, j :: 0 <= i < j < |s| ==> s[i].createdAt >= s[j].createdAt
  }

  lemma {:induction false} InsertKeepsOrder(sorted: Backups, m: Manifest)
    requires Descending(sorted)
    ensures Descending(Insert(sorted, m))
  {
    if sorted != [] && sorted[0].createdAt > m.createdAt {
      InsertKeepsOrder(sorted[1..], m);
      var rest := Insert(sorted[1..], m);
      forall x | x in rest ensures x.createdAt <= sorted[0].createdAt {
        assert x in multiset(rest);
      }
    }
  }

  lemma {:induction false} NewestFirstInOrder(backups: Backups)
    ensures Descending(NewestFirst(backups))
    ensures forall m :: m in NewestFirst(backups) <==> m in backups
  {
    if backups != [] {
      NewestFirstInOrder(backups[1..]);
      InsertKeepsOrder(NewestFirst(backups[1..]), backups[0]);
    }
    assert forall m :: m in NewestFirst(backups) <==> m in multiset(NewestFirst(backups));
  }

  // ----- A cascade

  /** Parents are older than what is layered on them, as creating one sees to. */
  ghost predicate Chronological(backups: Backups) {
    forall m, p :: m in backups && p in backups && m.parent == Some(p.id) ==> p.createdAt < m.createdAt
  }

  /** What CollectDescendants returns. */
  ghost predicate AllBuiltOn(backups: Backups, root: string, out: Backups) {
    && (forall m :: m in out ==> m in backups && m.id != root && BuiltOn(backups, root, m))
    && (forall m :: m in backups && m.id != root && BuiltOn(backups, root, m) ==> m.id in Ids(out))
  }

  function CascadeOrder(out: Backups, root: string): seq<string> {
    IdsInOrder(NewestFirst(out)) + [root]
  }

  lemma SameIdSame(backups: Backups, m: Manifest, n: Manifest)
    requires UniqueIds(backups) && m in backups && n in backups && m.id == n.id
    ensures m == n
  {
    FindUnique(backups, m);
    FindUnique(backups, n);
  }

  lemma InOrder(out: Backups, id: string)
    ensures id in IdsInOrder(NewestFirst(out)) <==> id in Ids(out)
  {
    NewestFirstInOrder(out);
    var order := NewestFirst(out);
    if id in Ids(out) {
      var m :| m in out && m.id == id;
      var i :| 0 <= i < |order| && order[i] == m;
      assert IdsInOrder(order)[i] == id;
    }
  }

  lemma CascadeRemoves(backups: Backups, root: string, out: Backups)
    requires UniqueIds(backups) && AllBuiltOn(backups, root, out)
    ensures forall m :: m in RemoveAll(backups, CascadeOrder(out, root))
                        <==> m in backups && m.id != root && !BuiltOn(backups, root, m)
  {
    hide BuiltOn;
    RemoveAllLeaves(backups, CascadeOrder(out, root));
    forall m | m in backups && m.id != root
      ensures m.id in CascadeOrder(out, root) <==> BuiltOn(backups, root, m)
    {
      InOrder(out, m.id);
      if m.id in Ids(out) {
        var n :| n in out && n.id == m.id;
        SameIdSame(backups, m, n);
      }
    }
  }

  lemma {:induction false} BuiltOnIsNewer(backups: Backups, root: Manifest, path: seq<Manifest>)
    requires Chronological(backups) && root in backups && ChildPath(backups, root.id, path) && path != []
    ensures root.createdAt < path[|path| - 1].createdAt
  {
    var n := |path| - 1;
    if n > 0 {
      assert ChildPath(backups, root.id, path[..n]);
      BuiltOnIsNewer(backups, root, path[..n]);
    }
  }

  /** In a cascade, newest first, nothing is left that is layered on what goes next. */
  lemma NextIsLeaf(backups: Backups, root: Manifest, out: Backups, i: nat, m: Manifest)
    requires UniqueIds(backups) && Chronological(backups) && root in backups && AllBuiltOn(backups, root.id, out)
    ensures i < |CascadeOrder(out, root.id)| && m in backups && m.parent == Some(CascadeOrder(out, root.id)[i]) ==>
              m.id in CascadeOrder(out, root.id)[..i]
  {
    hide BuiltOn, NewestFirst, UniqueIds;
    var order := NewestFirst(out);
    if i >= |CascadeOrder(out, root.id)| || m !in backups || m.parent != Some(CascadeOrder(out, root.id)[i]) { return; }
    NewestFirstInOrder(out);
    var parent := if i < |order| then order[i] else root;
    ChildExtends(backups, root.id, parent, m);
    if i < |order| {
      NewerThanRoot(backups, root, parent);
    }
    if m.id == root.id { SameIdSame(backups, m, root); }
    assert m.id != root.id;
    var n :| n in out && n.id == m.id;
    SameIdSame(backups, m, n);
    var j :| 0 <= j < |order| && order[j] == m;
    assert j < i;
    assert CascadeOrder(out, root.id)[..i][j] == m.id;
  }

  lemma NewerThanRoot(backups: Backups, root: Manifest, m: Manifest)
    requires Chronological(backups) && root in backups && BuiltOn(backups, root.id, m)
    ensures root.createdAt < m.createdAt
  {
    var path :| ChildPath(backups, root.id, path) && path != [] && path[|path| - 1] == m;
    BuiltOnIsNewer(backups, root, path);
  }

  lemma CascadeTakesLeaves(backups: Backups, root: Manifest, out: Backups)
    requires UniqueIds(backups) && Chronological(backups) && root in backups && AllBuiltOn(backups, root.id, out)
    ensures LeavesOnly(backups, CascadeOrder(out, root.id))
  {
    hide AllBuiltOn, Chronological, CascadeOrder;
    var ids := CascadeOrder(out, root.id);
    forall i | 0 <= i < |ids| ensures IsLeaf(RemoveAll(backups, ids[..i]), ids[i]) {
      RemoveAllLeaves(backups, ids[..i]);
      forall m | m in RemoveAll(backups, ids[..i]) ensures m.parent != Some(ids[i]) {
        if m.parent == Some(ids[i]) { NextIsLeaf(backups, root, out, i, m); }
      }
    }
  }

  // ----- Deleting

  function IdsInOrder(s: Backups): (ids: seq<string>)
    ensures |ids| == |s| && forall i :: 0 <= i < |s| ==> ids[i] == s[i].id
  {
    seq(|s|, i requires 0 <= i < |s| => s[i].id)
  }

  /**
   What deleting a backup comes to. It refuses when something is built on it and `cascade` is not asked
   for, and then, or with no such backup, takes nothing. Otherwise exactly it and all that is built on it
   go, and if parents are older than their children, never one that something left is layered on.
   */
  ghost predicate DeleteResult(before: Backups, id: string, cascade: bool, refused: bool, removed: seq<string>) {
    && (refused <==> id in Ids(before) && !cascade && exists m :: m in before && m.id != id && BuiltOn(before, id, m))
    && (refused || id !in Ids(before) ==> removed == [])
    && (!refused && id in Ids(before) ==>
          forall m :: m in RemoveAll(before, removed) <==> m in before && m.id != id && !BuiltOn(before, id, m))
    && (Chronological(before) ==> LeavesOnly(before, removed))
  }

  class Store {
    var dirs: Backups

    constructor (dirs: Backups)
      ensures this.dirs == dirs
    {
      this.dirs := dirs;
    }

    /** `removed` lists what went, in order. */
    method DeleteBackup(id: string, cascade: bool) returns (refused: bool, ghost removed: seq<string>)
      requires UniqueIds(dirs)
      modifies this
      ensures dirs == RemoveAll(old(dirs), removed)
      ensures DeleteResult(old(dirs), id, cascade, refused, removed)
    {
      hide BuiltOn, RemoveAll, Remove, Find, NewestFirst, LeavesOnly, Chronological, UniqueIds;
      removed := [];
      RemoveNone(dirs);
      var target := Find(dirs, id);
      if target == None { return false, []; }
      var descendants := CollectDescendants(dirs, id);
      AnythingBuiltOn(dirs, id, descendants);
      if |descendants| > 0 && !cascade { return true, []; }
      var order := NewestFirst(descendants);
      for i := 0 to |order|
        invariant removed == IdsInOrder(order)[..i]
        invariant dirs == RemoveAll(old(dirs), removed)
      {
        RemoveAllPush(old(dirs), removed, order[i].id);
        dirs := Remove(dirs, order[i].id);
        removed := removed + [order[i].id];
      }
      RemoveAllPush(old(dirs), removed, id);
      dirs := Remove(dirs, id);
      removed := removed + [id];
      assert removed == CascadeOrder(descendants, id);
      CascadeRemoves(old(dirs), id, descendants);
      if Chronological(old(dirs)) { CascadeTakesLeaves(old(dirs), target.value, descendants); }
      return false, removed;
    }
  }

  lemma RemoveNone(backups: Backups)
    ensures RemoveAll(backups, []) == backups && LeavesOnly(backups, [])
  {
  }

  lemma RemoveAllPush(backups: Backups, ids: seq<string>, id: string)
    ensures RemoveAll(backups, ids + [id]) == Remove(RemoveAll(backups, ids), id)
  {
    assert (ids + [id])[..|ids|] == ids;
  }

  lemma AnythingBuiltOn(backups: Backups, root: string, out: Backups)
    requires AllBuiltOn(backups, root, out)
    ensures |out| > 0 <==> exists m :: m in backups && m.id != root && BuiltOn(backups, root, m)
  {
    if |out| > 0 {
      assert out[0] in out;
    }
  }
}
