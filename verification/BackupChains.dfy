/**
 A VM's backups as services/backupService.ts knows them: a list of manifests, each an incremental that
 names the backup it is layered on or a full one. The two walks from a backup to the root of its chain,
 for the list of backups and for a verification, on any list: parents may be missing and links may cycle.
 */
module BackupChains {
  import opened Wrappers

  datatype Kind = Full | Incremental

  /** `parent` is parentBackupId; a manifest without a kind is a full one. Times are milliseconds. */
  datatype Manifest = Manifest(
    id: string, createdAt: int, kind: Kind, parent: Option<string>, size: nat, retentionDays: int,
    checkpoint: Option<string>)

  type Backups = seq<Manifest>

  ghost predicate UniqueIds(backups: Backups) {
    forall i, j :: 0 <= i < j < |backups| ==> backups[i].id != backups[j].id
  }

  function Ids(backups: Backups): set<string> {
    set m | m in backups :: m.id
  }

  function Find(backups: Backups, id: string): (m: Option<Manifest>)
    ensures m.Some? ==> m.value in backups && m.value.id == id
    ensures m == None <==> id !in Ids(backups)
  {
    if backups == [] then None
    else if backups[0].id == id then Some(backups[0])
    else
      assert backups == [backups[0]] + backups[1..];
      Find(backups[1..], id)
  }

  function Remove(backups: Backups, id: string): (rest: Backups)
    ensures forall m :: m in rest <==> m in backups && m.id != id
  {
    if backups == [] then []
    else
      assert backups == [backups[0]] + backups[1..];
      if backups[0].id == id then Remove(backups[1..], id) else [backups[0]] + Remove(backups[1..], id)
  }

  // ----- The walk of the list

  /** What a walk finds: whether it fails to reach a root, what it passes on the way, and how much that is. */
  datatype Walked = Walked(broken: bool, visited: seq<string>, totalBytes: nat)

  function Step(w: Walked, m: Manifest): Walked {
    Walked(w.broken, [m.id] + w.visited, m.size + w.totalBytes)
  }

  predicate IsRoot(m: Manifest) {
    m.kind == Full || m.parent == None
  }

  /** The walk on from m, having seen these. */
  function WalkFrom(backups: Backups, m: Manifest, seen: set<string>): Walked
    requires m in backups
    decreases Ids(backups) - seen
  {
    if m.id in seen then Walked(true, [], 0)
    else if IsRoot(m) then Walked(false, [m.id], m.size)
    else
      var parent := Find(backups, m.parent.value);
      if parent == None then Walked(true, [m.id], m.size)
      else
        assert m.id in Ids(backups) - seen;
        Step(WalkFrom(backups, parent.value, seen + {m.id}), m)
  }

  function Walk(backups: Backups, m: Manifest): Walked
    requires m in backups
  {
    WalkFrom(backups, m, {})
  }

  method WalkChain(backups: Backups, m: Manifest) returns (broken: bool, totalBytes: nat, seen: set<string>)
    requires m in backups
    ensures broken == Walk(backups, m).broken && totalBytes == Walk(backups, m).totalBytes
    ensures seen == set id | id in Walk(backups, m).visited
  {
    totalBytes, seen := 0, {};
    var cur := m;
    while true
      invariant cur in backups
      invariant Walk(backups, m).broken == WalkFrom(backups, cur, seen).broken
      invariant Walk(backups, m).totalBytes == totalBytes + WalkFrom(backups, cur, seen).totalBytes
      invariant forall id ::
          id in Walk(backups, m).visited <==> id in seen || id in WalkFrom(backups, cur, seen).visited
      decreases Ids(backups) - seen
    {
      if cur.id in seen { return true, totalBytes, seen; }
      assert cur.id in Ids(backups) - seen;
      var parent := if IsRoot(cur) then None else Find(backups, cur.parent.value);
      seen, totalBytes := seen + {cur.id}, totalBytes + cur.size;
      if IsRoot(cur) { return false, totalBytes, seen; }
      if parent == None { return true, totalBytes, seen; }
      cur := parent.value;
    }
  }

  // ----- What the walk finds

  /** From each incremental that names a backup to the one it names. */
  ghost predicate IsPath(backups: Backups, path: seq<Manifest>) {
    && path != []
    && (forall i :: 0 <= i < |path| ==> path[i] in backups)
    && (forall i ::
      0 <= i < |path| - 1 ==>
        path[i].kind == Incremental && path[i].parent.Some?
          && Find(backups, path[i].parent.value) == Some(path[i + 1]))
  }

  ghost predicate PathToRoot(backups: Backups, m: Manifest, path: seq<Manifest>) {
    IsPath(backups, path) && path[0] == m && (path[|path| - 1].kind == Full || path[|path| - 1].parent == None)
  }

  /** Everything it is layered on is there, down to a full backup. */
  ghost predicate Restorable(backups: Backups, m: Manifest) {
    exists path :: PathToRoot(backups, m, path)
  }

  lemma {:induction false} WalkGivesPath(backups: Backups, m: Manifest, seen: set<string>) returns (path: seq<Manifest>)
    requires m in backups && !WalkFrom(backups, m, seen).broken
    ensures PathToRoot(backups, m, path)
    decreases Ids(backups) - seen
  {
    if IsRoot(m) {
      path := [m];
    } else {
      assert m.id in Ids(backups) - seen;
      var next := Find(backups, m.parent.value).value;
      var rest := WalkGivesPath(backups, next, seen + {m.id});
      path := [m] + rest;
      forall i | 0 <= i < |path| - 1
        ensures !IsRoot(path[i]) && Find(backups, path[i].parent.value) == Some(path[i + 1])
      {
        if i > 0 { assert path[i] == rest[i - 1] && path[i + 1] == rest[i]; }
      }
      assert path[|path| - 1] == rest[|rest| - 1];
    }
  }

  /** There is only one way down, so two paths to a root are as long as each other. */
  lemma {:induction false} PathsAgree(backups: Backups, p: seq<Manifest>, q: seq<Manifest>)
    requires IsPath(backups, p) && IsPath(backups, q) && p[0] == q[0] && IsRoot(p[|p| - 1]) && IsRoot(q[|q| - 1])
    ensures |p| == |q|
  {
    if |p| > 1 && |q| > 1 {
      assert p[1..][|p| - 2] == p[|p| - 1] && q[1..][|q| - 2] == q[|q| - 1];
      PathsAgree(backups, p[1..], q[1..]);
    }
  }

  lemma PathHasNoRepeats(backups: Backups, path: seq<Manifest>, i: nat, j: nat)
    requires UniqueIds(backups) && IsPath(backups, path) && IsRoot(path[|path| - 1]) && i < j < |path|
    ensures path[i].id != path[j].id
  {
    if path[i].id == path[j].id {
      assert path[i..][|path| - i - 1] == path[|path| - 1] && path[j..][|path| - j - 1] == path[|path| - 1];
      PathsAgree(backups, path[i..], path[j..]);
    }
  }

  lemma {:induction false} PathIsWalked(backups: Backups, path: seq<Manifest>, i: nat, seen: set<string>)
    requires UniqueIds(backups) && IsPath(backups, path) && IsRoot(path[|path| - 1]) && i < |path|
    requires seen == set j | 0 <= j < i :: path[j].id
    ensures !WalkFrom(backups, path[i], seen).broken
    decreases |path| - i
  {
    forall j | 0 <= j < i ensures path[j].id != path[i].id { PathHasNoRepeats(backups, path, j, i); }
    if i < |path| - 1 {
      assert path[i].id in Ids(backups) - seen;
      PathIsWalked(backups, path, i + 1, seen + {path[i].id});
    }
  }

  /** chainBroken is said of exactly the backups that cannot be read down to a full one. */
  lemma BrokenIsNotRestorable(backups: Backups, m: Manifest)
    requires UniqueIds(backups) && m in backups
    ensures Walk(backups, m).broken <==> !Restorable(backups, m)
  {
    if !Walk(backups, m).broken {
      var path := WalkGivesPath(backups, m, {});
    }
    forall path | PathToRoot(backups, m, path) ensures !Walk(backups, m).broken {
      PathIsWalked(backups, path, 0, {});
    }
  }

  function SizesOf(backups: Backups, ids: seq<string>): nat {
    if ids == [] then 0
    else
      var m := Find(backups, ids[0]);
      (if m.Some? then m.value.size else 0) + SizesOf(backups, ids[1..])
  }

  ghost predicate NoRepeats(ids: seq<string>) {
    forall i, j :: 0 <= i < j < |ids| ==> ids[i] != ids[j]
  }

  lemma FindUnique(backups: Backups, m: Manifest)
    requires UniqueIds(backups) && m in backups
    ensures Find(backups, m.id) == Some(m)
  {
    var found := Find(backups, m.id).value;
    var i :| 0 <= i < |backups| && backups[i] == m;
    var j :| 0 <= j < |backups| && backups[j] == found;
  }

  /** chainSizeBytes is the size of each backup passed, once. */
  lemma {:induction false} TotalIsSizes(backups: Backups, m: Manifest, seen: set<string>)
    requires UniqueIds(backups) && m in backups
    ensures var w := WalkFrom(backups, m, seen);
            && w.totalBytes == SizesOf(backups, w.visited) && NoRepeats(w.visited)
            && forall id :: id in w.visited ==> id !in seen
    decreases Ids(backups) - seen
  {
    FindUnique(backups, m);
    if m.id !in seen && !IsRoot(m) && Find(backups, m.parent.value).Some? {
      assert m.id in Ids(backups) - seen;
      var parent := Find(backups, m.parent.value).value;
      TotalIsSizes(backups, parent, seen + {m.id});
      var rest := WalkFrom(backups, parent, seen + {m.id});
      assert WalkFrom(backups, m, seen).visited[1..] == rest.visited;
      assert m.id !in rest.visited;
    }
  }

  // ----- The walk of a verification

  /** The backups verifyBackup collects from m on, the last it reaches first. */
  function VerifyFrom(backups: Backups, m: Manifest, seen: set<string>): seq<Manifest>
    requires m in backups
    decreases Ids(backups) - seen
  {
    if m.id in seen then []
    else
      var parent := if m.parent.Some? then Find(backups, m.parent.value) else None;
      assert m.id in Ids(backups) - seen;
      if parent == None then [m] else VerifyFrom(backups, parent.value, seen + {m.id}) + [m]
  }

  /** One turn of the loop. */
  lemma VerifyStep(backups: Backups, m: Manifest, seen: set<string>)
    requires m in backups
    ensures var parent := if m.parent.Some? then Find(backups, m.parent.value) else None;
            VerifyFrom(backups, m, seen) == if m.id in seen then []
                                            else if parent == None then [m]
                                            else VerifyFrom(backups, parent.value, seen + {m.id}) + [m]
  {
  }

  method VerifyChain(backups: Backups, id: string) returns (r: Result<(seq<Manifest>, bool), string>)
    ensures r.Failure? <==> id !in Ids(backups)
    ensures r.Success? ==>
              var chain := VerifyFrom(backups, Find(backups, id).value, {});
              r.value == (chain, chain != [] && chain[0].kind == Incremental)
  {
    hide VerifyFrom;
    var target := Find(backups, id);
    if target == None { return Failure("Backup not found"); }
    var chain, seen, cur := [], {}, target;
    ghost var whole := VerifyFrom(backups, target.value, {});
    while cur.Some? && cur.value.id !in seen
      invariant cur.Some? ==> cur.value in backups
      invariant (if cur == None then [] else VerifyFrom(backups, cur.value, seen)) + chain == whole
      decreases Ids(backups) - seen, cur.Some?
    {
      assert cur.value.id in Ids(backups) - seen;
      VerifyStep(backups, cur.value, seen);
      seen := seen + {cur.value.id};
      chain := [cur.value] + chain;
      cur := if cur.value.parent.Some? then Find(backups, cur.value.parent.value) else None;
    }
    if cur.Some? { VerifyStep(backups, cur.value, seen); }
    assert chain == whole;
    return Success((chain, |chain| > 0 && chain[0].kind == Incremental));
  }

  /** A backup is incremental exactly when it names a parent, as creating one sees to. */
  ghost predicate WellKinded(backups: Backups) {
    forall m :: m in backups ==> (m.kind == Incremental <==> m.parent.Some?)
  }

  lemma {:induction false} WalksAgreeFrom(backups: Backups, m: Manifest, seen: set<string>)
    requires WellKinded(backups) && m in backups && m.id !in seen
    ensures var w, chain := WalkFrom(backups, m, seen), VerifyFrom(backups, m, seen);
            && |chain| == |w.visited| > 0
            && (forall i :: 0 <= i < |chain| ==> chain[|chain| - 1 - i].id == w.visited[i])
            && (w.broken <==> chain[0].kind == Incremental)
    decreases Ids(backups) - seen
  {
    assert m.id in Ids(backups) - seen;
    if m.parent.Some? && Find(backups, m.parent.value).Some? {
      var parent := Find(backups, m.parent.value).value;
      if parent.id !in seen + {m.id} {
        WalksAgreeFrom(backups, parent, seen + {m.id});
      }
    }
  }

  /** The list and a verification walk the same backups, and call the same chains broken. */
  lemma WalksAgree(backups: Backups, m: Manifest)
    requires WellKinded(backups) && m in backups
    ensures var w, chain := Walk(backups, m), VerifyFrom(backups, m, {});
            && chain != [] && (w.broken <==> chain[0].kind == Incremental)
            && |chain| == |w.visited| && forall i :: 0 <= i < |chain| ==> chain[|chain| - 1 - i].id == w.visited[i]
  {
    WalksAgreeFrom(backups, m, {});
  }
}
