/**
 The sliding-window limiter of lib/rateLimit.ts. Times are milliseconds; the clock is the argument
 `now`. `reset` forgets a key, so what is promised of a key's windows is promised since its last reset.
 */
module RateLimit {

  datatype Bucket = Bucket(hits: seq<nat>, blockedUntil: nat)

  datatype Options = Options(windowMs: nat, max: nat, blockMs: nat)

  type Store = map<string, Bucket>

  // ----- One request and one collection, as functions of the store

  function Recent(hits: seq<nat>, now: nat, windowMs: nat): (r: seq<nat>)
    ensures forall t :: t in r <==> t in hits && now - t < windowMs
  {
    if hits == [] then []
    else
      var kept := Recent(hits[..|hits| - 1], now, windowMs);
      if now - hits[|hits| - 1] < windowMs then kept + [hits[|hits| - 1]] else kept
  }

  function BucketOf(store: Store, key: string): Bucket {
    if key in store then store[key] else Bucket([], 0)
  }

  predicate Accepts(b: Bucket, now: nat, opts: Options) {
    now >= b.blockedUntil && |Recent(b.hits, now, opts.windowMs)| < opts.max
  }

  function AfterRequest(b: Bucket, now: nat, opts: Options): Bucket {
    if now < b.blockedUntil then b
    else
      var hits := Recent(b.hits, now, opts.windowMs);
      if |hits| >= opts.max then Bucket(hits, now + opts.blockMs) else Bucket(hits + [now], b.blockedUntil)
  }

  function Collected(store: Store, now: nat, opts: Options): Store {
    map k | k in store && !(|Recent(store[k].hits, now, opts.windowMs)| == 0 && store[k].blockedUntil < now)
      :: Bucket(Recent(store[k].hits, now, opts.windowMs), store[k].blockedUntil)
  }

  /** A collection leaves what may still count or refuse: keys with a recent hit, or blocked until now or later. */
  lemma CollectionLeaves(store: Store, key: string, now: nat, opts: Options)
    ensures key in Collected(store, now, opts)
       <==> key in store && (now <= store[key].blockedUntil
                             || exists t :: t in store[key].hits && now - t < opts.windowMs)
  {
    if key in store && |Recent(store[key].hits, now, opts.windowMs)| > 0 {
      var recent := Recent(store[key].hits, now, opts.windowMs);
      assert recent[0] in recent;
    }
  }

  // ----- The limiter

  class Limiter {
    const opts: Options
    var store: Store

    constructor (opts: Options)
      ensures this.opts == opts && store == map[]
    {
      this.opts := opts;
      store := map[];
    }

    method Middleware(key: string, now: nat) returns (accepted: bool)
      modifies this`store
      ensures accepted == Accepts(BucketOf(old(store), key), now, opts)
      ensures store == old(store)[key := AfterRequest(BucketOf(old(store), key), now, opts)]
    {
      if key !in store {
        store := store[key := Bucket([], 0)];
      }
      var bucket := store[key];
      if now < bucket.blockedUntil {
        return false;
      }
      bucket := bucket.(hits := Recent(bucket.hits, now, opts.windowMs));
      store := store[key := bucket];
      if |bucket.hits| >= opts.max {
        store := store[key := bucket.(blockedUntil := now + opts.blockMs)];
        return false;
      }
      store := store[key := bucket.(hits := bucket.hits + [now])];
      return true;
    }

    method CollectGarbage(now: nat)
      modifies this`store
      ensures store == Collected(old(store), now, opts)
    {
      var left := store.Keys;
      ghost var done: set<string> := {};
      while left != {}
        invariant left <= old(store).Keys && done == old(store).Keys - left
        invariant store.Keys <= old(store).Keys
        invariant forall k :: k in left ==> k in store && store[k] == old(store)[k]
        invariant forall k :: k in done ==>
                                (k in store <==> k in Collected(old(store), now, opts))
                                && (k in store ==> store[k] == Collected(old(store), now, opts)[k])
      {
        var k :| k in left;
        var bucket := store[k].(hits := Recent(store[k].hits, now, opts.windowMs));
        store := store[k := bucket];
        if |bucket.hits| == 0 && bucket.blockedUntil < now {
          store := store - {k};
        }
        left, done := left - {k}, done + {k};
      }
    }

    method Reset(key: string)
      modifies this`store
      ensures store == old(store) - {key}
    {
      store := store - {key};
    }
  }

  // ----- Whole runs

  datatype Event = Request(key: string, now: nat) | Collect(now: nat) | Forget(key: string, now: nat)

  ghost predicate Clock(run: seq<Event>) {
    forall i, j :: 0 <= i < j < |run| ==> run[i].now <= run[j].now
  }

  /** The store after a run from an empty one. */
  function StoreAfter(run: seq<Event>, opts: Options): Store {
    if run == [] then map[]
    else
      var s, e := StoreAfter(run[..|run| - 1], opts), run[|run| - 1];
      match e
      case Request(key, now) => s[key := AfterRequest(BucketOf(s, key), now, opts)]
      case Collect(now) => Collected(s, now, opts)
      case Forget(key, _) => s - {key}
  }

  /** Whether event i of a run is a request for this key that was let through. */
  predicate AcceptedAt(run: seq<Event>, i: nat, key: string, opts: Options)
    requires i < |run|
  {
    run[i].Request? && run[i].key == key && Accepts(BucketOf(StoreAfter(run[..i], opts), key), run[i].now, opts)
  }

  /** The times, in order, at which requests for this key were let through. */
  function AcceptedTimes(run: seq<Event>, key: string, opts: Options): seq<nat> {
    if run == [] then []
    else
      var n := |run| - 1;
      if AcceptedAt(run, n, key, opts) then AcceptedTimes(run[..n], key, opts) + [run[n].now]
      else AcceptedTimes(run[..n], key, opts)
  }

  /** Of those, the ones since the key was last reset. */
  function AcceptedSinceReset(run: seq<Event>, key: string, opts: Options): seq<nat> {
    if run == [] || (run[|run| - 1].Forget? && run[|run| - 1].key == key) then []
    else
      var n := |run| - 1;
      if AcceptedAt(run, n, key, opts) then AcceptedSinceReset(run[..n], key, opts) + [run[n].now]
      else AcceptedSinceReset(run[..n], key, opts)
  }

  lemma {:induction false} NeverReset(run: seq<Event>, key: string, opts: Options)
    requires forall e :: e in run && e.Forget? ==> e.key != key
    ensures AcceptedSinceReset(run, key, opts) == AcceptedTimes(run, key, opts)
  {
    if run != [] {
      assert run[|run| - 1] in run;
      NeverReset(run[..|run| - 1], key, opts);
    }
  }

  /** How many of these times are in (after, upTo]. */
  function CountIn(times: seq<nat>, after: int, upTo: int): nat {
    if times == [] then 0
    else
      var t := times[|times| - 1];
      CountIn(times[..|times| - 1], after, upTo) + if after < t <= upTo then 1 else 0
  }

  /** A run without its collections. */
  function Uncollected(run: seq<Event>): seq<Event> {
    if run == [] then []
    else if run[|run| - 1].Collect? then Uncollected(run[..|run| - 1])
    else Uncollected(run[..|run| - 1]) + [run[|run| - 1]]
  }

  // ----- At most max in every window

  lemma {:induction false} RecentOfRecent(hits: seq<nat>, t: nat, now: nat, windowMs: nat)
    requires t <= now
    ensures Recent(Recent(hits, t, windowMs), now, windowMs) == Recent(hits, now, windowMs)
  {
    if hits != [] {
      var n := |hits| - 1;
      RecentOfRecent(hits[..n], t, now, windowMs);
    }
  }

  /** What one event makes of one key's bucket. */
  function BucketStep(b: Bucket, e: Event, key: string, opts: Options): Bucket {
    match e
    case Request(k, now) => if k == key then AfterRequest(b, now, opts) else b
    case Forget(k, _) => if k == key then Bucket([], 0) else b
    case Collect(now) =>
      if |Recent(b.hits, now, opts.windowMs)| == 0 && b.blockedUntil < now then Bucket([], 0)
      else Bucket(Recent(b.hits, now, opts.windowMs), b.blockedUntil)
  }

  lemma BucketAfter(run: seq<Event>, key: string, opts: Options)
    requires run != []
    ensures BucketOf(StoreAfter(run, opts), key)
         == BucketStep(BucketOf(StoreAfter(run[..|run| - 1], opts), key), run[|run| - 1], key, opts)
  {
  }

  /** The bucket holds the accepted times of the last window, whatever has been dropped from it. */
  lemma {:induction false} BucketIsHistory(run: seq<Event>, key: string, now: nat, opts: Options)
    requires Clock(run) && (run != [] ==> run[|run| - 1].now <= now)
    ensures Recent(BucketOf(StoreAfter(run, opts), key).hits, now, opts.windowMs)
            == Recent(AcceptedSinceReset(run, key, opts), now, opts.windowMs)
  {
    if run != [] {
      var n := |run| - 1;
      var e, b := run[n], BucketOf(StoreAfter(run[..n], opts), key);
      BucketIsHistory(run[..n], key, now, opts);
      BucketAfter(run, key, opts);
      hide Recent, StoreAfter, BucketOf, Clock;
      var recent, times := Recent(b.hits, e.now, opts.windowMs), AcceptedSinceReset(run[..n], key, opts);
      assert |recent| == 0 ==> recent == [];
      RecentOfRecent(b.hits, e.now, now, opts.windowMs);
      if AcceptedAt(run, n, key, opts) {
        assert AcceptedSinceReset(run, key, opts) == times + [e.now];
      } else if e.Forget? && e.key == key {
        assert AcceptedSinceReset(run, key, opts) == [];
      } else {
        assert AcceptedSinceReset(run, key, opts) == times;
      }
    }
  }

  lemma {:induction false} CountIsRecent(times: seq<nat>, after: int, now: nat, windowMs: nat)
    requires forall i :: 0 <= i < |times| ==> times[i] <= now
    requires now - windowMs <= after
    ensures CountIn(times, after, now) <= |Recent(times, now, windowMs)|
  {
    if times != [] {
      CountIsRecent(times[..|times| - 1], after, now, windowMs);
    }
  }

  lemma {:induction false} CountNarrow(times: seq<nat>, after: int, upTo: int, last: int)
    requires forall i :: 0 <= i < |times| ==> times[i] <= last
    ensures last <= upTo ==> CountIn(times, after, upTo) == CountIn(times, after, last)
  {
    if times != [] {
      CountNarrow(times[..|times| - 1], after, upTo, last);
    }
  }

  lemma {:induction false} AcceptedInOrder(run: seq<Event>, key: string, opts: Options, now: nat)
    requires Clock(run) && (run != [] ==> run[|run| - 1].now <= now)
    ensures forall i :: 0 <= i < |AcceptedSinceReset(run, key, opts)| ==> AcceptedSinceReset(run, key, opts)[i] <= now
  {
    if run != [] {
      AcceptedInOrder(run[..|run| - 1], key, opts, now);
    }
  }

  /** Since its last reset no key has more than max requests let through in any window (after, after + windowMs]. */
  lemma {:induction false} AtMostMaxPerWindow(run: seq<Event>, key: string, opts: Options, after: int)
    requires Clock(run)
    ensures CountIn(AcceptedSinceReset(run, key, opts), after, after + opts.windowMs) <= opts.max
  {
    if run != [] {
      var n := |run| - 1;
      var e, before := run[n], AcceptedSinceReset(run[..n], key, opts);
      AtMostMaxPerWindow(run[..n], key, opts, after);
      if AcceptedAt(run, n, key, opts) {
        if after < e.now <= after + opts.windowMs {
          RoomForOneMore(run, n, key, opts, after);
        }
      }
    }
  }

  lemma RoomForOneMore(run: seq<Event>, n: nat, key: string, opts: Options, after: int)
    requires n < |run| && Clock(run[..n + 1]) && AcceptedAt(run, n, key, opts)
    requires after < run[n].now <= after + opts.windowMs
    ensures CountIn(AcceptedSinceReset(run[..n], key, opts), after, after + opts.windowMs) < opts.max
  {
    hide StoreAfter, BucketOf;
    var now, before := run[n].now, AcceptedSinceReset(run[..n], key, opts);
    assert run[..n + 1][..n] == run[..n];
    AcceptedInOrder(run[..n], key, opts, now);
    BucketIsHistory(run[..n], key, now, opts);
    CountNarrow(before, after, after + opts.windowMs, now);
    CountIsRecent(before, after, now, opts.windowMs);
  }

  // ----- Exactly which requests are let through

  /** A time that is within the block that one of these began. */
  ghost predicate Barred(overruns: seq<nat>, now: nat, opts: Options) {
    exists t :: t in overruns && now < t + opts.blockMs
  }

  /** The times, since the key was last reset, of its requests that were refused for no earlier one's block. */
  ghost function Overruns(run: seq<Event>, key: string, opts: Options): seq<nat> {
    if run == [] || (run[|run| - 1].Forget? && run[|run| - 1].key == key) then []
    else
      var n := |run| - 1;
      var before := Overruns(run[..n], key, opts);
      if run[n].Request? && run[n].key == key && !AcceptedAt(run, n, key, opts) && !Barred(before, run[n].now, opts)
      then before + [run[n].now] else before
  }

  lemma NoOverruns(now: nat, opts: Options)
    ensures !Barred([], now, opts)
  {
  }

  lemma OneMoreOverrun(before: seq<nat>, t: nat, now: nat, opts: Options)
    ensures Barred(before + [t], now, opts) <==> Barred(before, now, opts) || now < t + opts.blockMs
    ensures t <= now && Barred(before, now, opts) ==> Barred(before, t, opts)
  {
    assert t in before + [t];
    if Barred(before, now, opts) {
      var x :| x in before && now < x + opts.blockMs;
      assert x in before + [t];
    }
  }

  /** A key is blocked exactly within the blocks of its overruns, whatever has been collected. */
  lemma {:induction false} BlockedIsBarred(run: seq<Event>, key: string, now: nat, opts: Options)
    requires Clock(run) && (run != [] ==> run[|run| - 1].now <= now)
    ensures now < BucketOf(StoreAfter(run, opts), key).blockedUntil <==> Barred(Overruns(run, key, opts), now, opts)
  {
    if run == [] {
      NoOverruns(now, opts);
    } else {
      var n := |run| - 1;
      var e, b, before := run[n], BucketOf(StoreAfter(run[..n], opts), key), Overruns(run[..n], key, opts);
      BlockedIsBarred(run[..n], key, now, opts);
      BlockedIsBarred(run[..n], key, e.now, opts);
      BucketAfter(run, key, opts);
      OneMoreOverrun(before, e.now, now, opts);
      hide StoreAfter, BucketOf, Recent, Clock, Barred;
      if e.Request? && e.key == key {
        assert AcceptedAt(run, n, key, opts) <==> Accepts(b, e.now, opts);
      } else if e.Forget? && e.key == key {
        assert Overruns(run, key, opts) == [] && !Barred([], now, opts) by { NoOverruns(now, opts); }
      }
    }
  }

  lemma {:induction false} CountOfRecent(times: seq<nat>, now: nat, windowMs: nat)
    requires forall i :: 0 <= i < |times| ==> times[i] <= now
    ensures CountIn(times, now - windowMs, now) == |Recent(times, now, windowMs)|
  {
    if times != [] {
      CountOfRecent(times[..|times| - 1], now, windowMs);
    }
  }

  /**
   In every run a request is let through exactly when it is not within a block that an overrun of its key began, and
   fewer than max were let through in the window that ends with it, both since the key's last reset.
   */
  lemma AcceptedIff(run: seq<Event>, n: nat, key: string, opts: Options)
    requires Clock(run) && n < |run| && run[n].Request? && run[n].key == key
    ensures AcceptedAt(run, n, key, opts)
       <==> && !Barred(Overruns(run[..n], key, opts), run[n].now, opts)
            && CountIn(AcceptedSinceReset(run[..n], key, opts), run[n].now - opts.windowMs, run[n].now) < opts.max
  {
    hide StoreAfter, BucketOf, Overruns, AcceptedSinceReset, Recent, CountIn, Barred;
    var now := run[n].now;
    BlockedIsBarred(run[..n], key, now, opts);
    BucketIsHistory(run[..n], key, now, opts);
    AcceptedInOrder(run[..n], key, opts, now);
    CountOfRecent(AcceptedSinceReset(run[..n], key, opts), now, opts.windowMs);
  }

  // ----- Collecting garbage changes no decision

  /** Two buckets that answer every request from `now` on alike. */
  ghost predicate Alike(a: Bucket, b: Bucket, now: nat, opts: Options) {
    && Recent(a.hits, now, opts.windowMs) == Recent(b.hits, now, opts.windowMs)
    && (a.blockedUntil == b.blockedUntil || (a.blockedUntil <= now && b.blockedUntil <= now))
  }

  lemma AlikeLater(a: Bucket, b: Bucket, t: nat, now: nat, opts: Options)
    requires Alike(a, b, t, opts) && t <= now
    ensures Alike(a, b, now, opts)
  {
    RecentOfRecent(a.hits, t, now, opts.windowMs);
    RecentOfRecent(b.hits, t, now, opts.windowMs);
  }

  lemma SameRequest(a: Bucket, b: Bucket, now: nat, opts: Options)
    requires Alike(a, b, now, opts)
    ensures Accepts(a, now, opts) == Accepts(b, now, opts)
    ensures Alike(AfterRequest(a, now, opts), AfterRequest(b, now, opts), now, opts)
  {
    RecentOfRecent(a.hits, now, now, opts.windowMs);
    RecentOfRecent(b.hits, now, now, opts.windowMs);
  }

  lemma SameCollected(store: Store, key: string, now: nat, opts: Options)
    ensures Alike(BucketOf(Collected(store, now, opts), key), BucketOf(store, key), now, opts)
  {
    RecentOfRecent(BucketOf(store, key).hits, now, now, opts.windowMs);
  }

  lemma {:induction false} SameWithoutCollecting(run: seq<Event>, key: string, now: nat, opts: Options)
    requires Clock(run) && (run != [] ==> run[|run| - 1].now <= now)
    ensures Alike(BucketOf(StoreAfter(run, opts), key), BucketOf(StoreAfter(Uncollected(run), opts), key), now, opts)
  {
    if run != [] {
      hide Recent, Alike, Uncollected, AfterRequest;
      var n := |run| - 1;
      var e := run[n];
      var s, r := StoreAfter(run[..n], opts), StoreAfter(Uncollected(run[..n]), opts);
      SameWithoutCollecting(run[..n], key, e.now, opts);
      SameRequest(BucketOf(s, key), BucketOf(r, key), e.now, opts);
      SameCollected(s, key, e.now, opts);
      AlikeLater(BucketOf(StoreAfter(run, opts), key), BucketOf(StoreAfter(Uncollected(run), opts), key), e.now, now,
        opts);
    } else {
      assert Uncollected(run) == [];
    }
  }

  /** A run with collections anywhere in it lets through exactly what it would without them. */
  lemma {:induction false} CollectingChangesNothing(run: seq<Event>, key: string, opts: Options)
    requires Clock(run)
    ensures AcceptedTimes(run, key, opts) == AcceptedTimes(Uncollected(run), key, opts)
  {
    if run != [] {
      var n := |run| - 1;
      var e := run[n];
      CollectingChangesNothing(run[..n], key, opts);
      SameWithoutCollecting(run[..n], key, e.now, opts);
      SameRequest(BucketOf(StoreAfter(run[..n], opts), key), BucketOf(StoreAfter(Uncollected(run[..n]), opts), key),
        e.now, opts);
    }
  }
}
