/** The per-key sliding-window rate limiter (dht-core/src/ratelimit.rs).  Times are real numbers of seconds. */
module RateLimiter {
  import opened Wrappers

  type Buckets = map<string, seq<real>>

  const DEFAULT_MAX_BUCKETS: nat := 100_000

  /** `retain(|t| t >= cutoff)`. */
  function Retain(times: seq<real>, cutoff: real): seq<real> {
    if times == [] then []
    else
      var init, last := times[..|times| - 1], times[|times| - 1];
      if last >= cutoff then Retain(init, cutoff) + [last] else Retain(init, cutoff)
  }

  function BucketOf(b: Buckets, key: string): seq<real> { if key in b then b[key] else [] }

  /** The limits a limiter is built with. */
  datatype Limits = Limits(max: nat, window: real, maxBuckets: nat)

  predicate NeedsRoom(l: Limits, b: Buckets, key: string) {
    |b| >= l.maxBuckets && key !in b && b != map[]
  }

  /** An eviction takes place exactly when room is needed, and removes some present key. */
  predicate EvictionOk(l: Limits, b: Buckets, key: string, evicted: Option<string>) {
    if NeedsRoom(l, b, key) then evicted.Some? && evicted.value in b else evicted.None?
  }

  function AfterEviction(b: Buckets, evicted: Option<string>): Buckets {
    if evicted.Some? then b - {evicted.value} else b
  }

  /** allow: the new buckets and the answer. */
  function Allowed(l: Limits, b: Buckets, key: string, now: real, evicted: Option<string>): (Buckets, bool) {
    var room := AfterEviction(b, evicted);
    var entries := Retain(BucketOf(room, key), now - l.window);
    if |entries| >= l.max then (room[key := entries], false) else (room[key := entries + [now]], true)
  }

  /** prune: expired entries go, and keys left without entries go. */
  function Pruned(l: Limits, b: Buckets, now: real): Buckets {
    map key | key in b && Retain(b[key], now - l.window) != [] :: Retain(b[key], now - l.window)
  }

  class Limiter {
    const limits: Limits
    var buckets: Buckets

    constructor (maxPerWindow: nat, windowSec: real)
      ensures limits == Limits(maxPerWindow, windowSec, DEFAULT_MAX_BUCKETS) && buckets == map[]
    {
      limits := Limits(maxPerWindow, windowSec, DEFAULT_MAX_BUCKETS);
      buckets := map[];
    }

    /** Makes room for `key` by dropping whichever key the map yields first. */
    method MakeRoom(key: string) returns (ghost evicted: Option<string>)
      modifies this
      ensures EvictionOk(limits, old(buckets), key, evicted)
      ensures buckets == AfterEviction(old(buckets), evicted)
    {
      evicted := None;
      if |buckets| >= limits.maxBuckets && key !in buckets {
        if buckets != map[] {
          var oldest :| oldest in buckets;
          buckets := buckets - {oldest};
          evicted := Some(oldest);
        }
      }
    }

    method Allow(key: string, now: real) returns (ok: bool, ghost evicted: Option<string>)
      modifies this
      ensures EvictionOk(limits, old(buckets), key, evicted)
      ensures (buckets, ok) == Allowed(limits, old(buckets), key, now, evicted)
    {
      hide Retain, EvictionOk, AfterEviction;
      var cutoff := now - limits.window;
      evicted := MakeRoom(key);
      ghost var room := buckets;
      if key !in buckets {
        buckets := buckets[key := []];
      }
      buckets := buckets[key := Retain(buckets[key], cutoff)];
      assert buckets == room[key := Retain(BucketOf(room, key), cutoff)];
      if |buckets[key]| >= limits.max {
        return false, evicted;
      }
      buckets := buckets[key := buckets[key] + [now]];
      assert buckets == room[key := buckets[key]];
      return true, evicted;
    }

    method Prune(now: real)
      modifies this
      ensures buckets == Pruned(limits, old(buckets), now)
    {
      hide Retain;
      var cutoff := now - limits.window;
      var rest := buckets.Keys;
      var keysToRemove: set<string> := {};
      ghost var before := buckets;
      while rest != {}
        invariant rest <= before.Keys && buckets.Keys == before.Keys
        invariant forall k :: k in before ==>
                    buckets[k] == if k in rest then before[k] else Retain(before[k], cutoff)
        invariant forall k :: k in keysToRemove <==> k in before && k !in rest && Retain(before[k], cutoff) == []
        decreases rest
      {
        var k :| k in rest;
        buckets := buckets[k := Retain(buckets[k], cutoff)];
        if buckets[k] == [] {
          keysToRemove := keysToRemove + {k};
        }
        rest := rest - {k};
      }
      ghost var retained := buckets;
      while keysToRemove != {}
        invariant keysToRemove <= retained.Keys
        invariant forall k :: k in buckets <==> k in retained && (retained[k] != [] || k in keysToRemove)
        invariant forall k :: k in buckets ==> buckets[k] == retained[k]
        decreases keysToRemove
      {
        var k :| k in keysToRemove;
        buckets := buckets - {k};
        keysToRemove := keysToRemove - {k};
      }
    }
  }

  // ----- Retained entries

  lemma {:induction false} RetainTwice(s: seq<real>, low: real, high: real)
    requires low <= high
    ensures Retain(Retain(s, low), high) == Retain(s, high)
    decreases |s|
  {
    if s != [] {
      var init, last := s[..|s| - 1], s[|s| - 1];
      RetainTwice(init, low, high);
      if last >= low {
        assert Retain(s, low)[..|Retain(s, low)| - 1] == Retain(init, low);
      }
    }
  }

  lemma {:induction false} RetainFewer(s: seq<real>, other: real, cutoff: real)
    ensures |Retain(Retain(s, other), cutoff)| <= |Retain(s, cutoff)|
    decreases |s|
  {
    if s != [] {
      var init, last := s[..|s| - 1], s[|s| - 1];
      RetainFewer(init, other, cutoff);
      RetainAppend(Retain(init, other), last, cutoff);
    }
  }

  lemma {:induction false} RetainLower(s: seq<real>, low: real, high: real)
    requires low <= high
    ensures |Retain(s, low)| >= |Retain(s, high)|
    decreases |s|
  {
    if s != [] {
      RetainLower(s[..|s| - 1], low, high);
    }
  }

  lemma RetainAppend(s: seq<real>, x: real, cutoff: real)
    ensures Retain(s + [x], cutoff) == if x >= cutoff then Retain(s, cutoff) + [x] else Retain(s, cutoff)
  {
    assert (s + [x])[..|s|] == s;
  }

  predicate UpTo(s: seq<real>, t: real) {
    forall i :: 0 <= i < |s| ==> s[i] <= t
  }

  /** How many of the times lie in the closed interval. */
  function CountIn(s: seq<real>, low: real, high: real): nat {
    if s == [] then 0
    else CountIn(s[..|s| - 1], low, high) + if low <= s[|s| - 1] <= high then 1 else 0
  }

  lemma {:induction false} RetainCounts(s: seq<real>, cutoff: real, now: real)
    requires UpTo(s, now)
    ensures |Retain(s, cutoff)| == CountIn(s, cutoff, now)
    decreases |s|
  {
    if s != [] {
      RetainCounts(s[..|s| - 1], cutoff, now);
    }
  }

  /** Every time up to `high` is up to `higher`. */
  predicate NoneBetween(s: seq<real>, high: real, higher: real) {
    forall i :: 0 <= i < |s| && s[i] <= high ==> s[i] <= higher
  }

  lemma {:induction false} CountWider(s: seq<real>, low: real, high: real, lower: real, higher: real)
    requires lower <= low && NoneBetween(s, high, higher)
    ensures CountIn(s, low, high) <= CountIn(s, lower, higher)
    decreases |s|
  {
    if s != [] {
      CountWider(s[..|s| - 1], low, high, lower, higher);
    }
  }

  // ----- Runs

  /** One atomic operation under the lock; background pruning is the Prune step. */
  datatype Op = Allow(key: string, evicted: Option<string>, ok: bool) | Prune

  datatype Event = Event(op: Op, now: real, after: Buckets)

  function BucketsAt(run: seq<Event>, k: nat): Buckets
    requires k <= |run|
  {
    if k == 0 then map[] else run[k - 1].after
  }

  ghost predicate Steps(l: Limits, b: Buckets, e: Event) {
    match e.op
    case Allow(key, evicted, ok) => EvictionOk(l, b, key, evicted) && (e.after, ok) == Allowed(l, b, key, e.now, evicted)
    case Prune => e.after == Pruned(l, b, e.now)
  }

  /** Event k is a step from the buckets the events before it left. */
  ghost predicate StepAt(l: Limits, run: seq<Event>, k: nat)
    requires k < |run|
  {
    Steps(l, BucketsAt(run, k), run[k])
  }

  /** A run from the empty limiter, with any clock readings. */
  ghost predicate Run(l: Limits, run: seq<Event>) {
    forall k :: 0 <= k < |run| ==> StepAt(l, run, k)
  }

  /** A clock reading is taken before waiting for the lock: no reading is earlier than one that got the lock before it
      by more than `lag`. */
  ghost predicate Lag(run: seq<Event>, lag: real) {
    forall j, k :: 0 <= j <= k < |run| ==> run[j].now <= run[k].now + lag
  }

  predicate Evicts(e: Event, key: string) { e.op.Allow? && e.op.evicted == Some(key) }

  predicate Admits(e: Event, key: string) { e.op.Allow? && e.op.key == key && e.op.ok }

  /** Every admission of `key` among the first k events. */
  function Admissions(run: seq<Event>, key: string, k: nat): seq<real>
    requires k <= |run|
  {
    if k == 0 then []
    else if Admits(run[k - 1], key) then Admissions(run, key, k - 1) + [run[k - 1].now]
    else Admissions(run, key, k - 1)
  }

  /** The admissions of `key` among the first k events that come after its last eviction. */
  function SinceEviction(run: seq<Event>, key: string, k: nat): seq<real>
    requires k <= |run|
  {
    if k == 0 then []
    else if Evicts(run[k - 1], key) then []
    else if Admits(run[k - 1], key) then SinceEviction(run, key, k - 1) + [run[k - 1].now]
    else SinceEviction(run, key, k - 1)
  }

  lemma RunAt(l: Limits, run: seq<Event>, k: nat)
    requires Run(l, run) && k < |run|
    ensures Steps(l, BucketsAt(run, k), run[k])
  {
    hide Steps;
    assert StepAt(l, run, k);
  }

  // ----- What a bucket holds, for any clock readings

  /** Events that take the expired entries out of a key's bucket. */
  predicate Reads(e: Event, key: string) { e.op.Prune? || e.op.key == key }

  /** One event as a single key's bucket sees it. */
  lemma BucketNext(l: Limits, b: Buckets, e: Event, key: string)
    requires Steps(l, b, e)
    ensures var kept := if Evicts(e, key) then []
                        else if Reads(e, key) then Retain(BucketOf(b, key), e.now - l.window)
                        else BucketOf(b, key);
            BucketOf(e.after, key) == if Admits(e, key) then kept + [e.now] else kept
    ensures Admits(e, key) ==> Reads(e, key) && !Evicts(e, key)
  {
    hide Retain;
    RetainNothing(e.now - l.window);
  }

  lemma AnswerIs(l: Limits, b: Buckets, e: Event)
    requires Steps(l, b, e) && e.op.Allow?
    ensures e.op.ok <==> |Retain(BucketOf(b, e.op.key), e.now - l.window)| < l.max
    ensures !Evicts(e, e.op.key)
  {
    hide Retain;
  }

  /** Event i, an admission of the key, is still remembered before event k: since then the key was not evicted, and no
      event that looked at its bucket found the admission expired. */
  ghost predicate Remembered(l: Limits, run: seq<Event>, key: string, i: nat, k: nat)
    requires i < k <= |run|
  {
    && Admits(run[i], key)
    && forall j :: i < j < k ==> !Evicts(run[j], key) && (Reads(run[j], key) ==> run[i].now >= run[j].now - l.window)
  }

  /** The times of the admissions among the first n events that are still remembered before event k. */
  ghost function RememberedTimes(l: Limits, run: seq<Event>, key: string, n: nat, k: nat): seq<real>
    requires n <= k <= |run|
  {
    if n == 0 then []
    else if Remembered(l, run, key, n - 1, k) then RememberedTimes(l, run, key, n - 1, k) + [run[n - 1].now]
    else RememberedTimes(l, run, key, n - 1, k)
  }

  lemma RememberedNext(l: Limits, run: seq<Event>, key: string, i: nat, k: nat)
    requires i < k < |run|
    ensures Remembered(l, run, key, i, k + 1) <==>
            && Remembered(l, run, key, i, k)
            && !Evicts(run[k], key) && (Reads(run[k], key) ==> run[i].now >= run[k].now - l.window)
  {}

  lemma {:induction false} TimesNext(l: Limits, run: seq<Event>, key: string, n: nat, k: nat)
    requires n <= k < |run|
    ensures var times := RememberedTimes(l, run, key, n, k);
            RememberedTimes(l, run, key, n, k + 1)
            == if Evicts(run[k], key) then [] else if Reads(run[k], key) then Retain(times, run[k].now - l.window) else times
    decreases n
  {
    hide Remembered, Evicts, Reads, Retain;
    RetainNothing(run[k].now - l.window);
    if n > 0 {
      TimesNext(l, run, key, n - 1, k);
      RememberedNext(l, run, key, n - 1, k);
      RetainAppend(RememberedTimes(l, run, key, n - 1, k), run[n - 1].now, run[k].now - l.window);
    }
  }

  /** A bucket is exactly what is remembered, whatever the clock readings. */
  lemma {:induction false} BucketExact(l: Limits, run: seq<Event>, key: string, k: nat)
    requires Run(l, run) && k <= |run|
    ensures BucketOf(BucketsAt(run, k), key) == RememberedTimes(l, run, key, k, k)
    decreases k
  {
    hide Run, Retain, Steps, Evicts, Reads, Admits;
    if k > 0 {
      var e := run[k - 1];
      BucketExact(l, run, key, k - 1);
      TimesNext(l, run, key, k - 1, k - 1);
      RunAt(l, run, k - 1);
      BucketNext(l, BucketsAt(run, k - 1), e, key);
      assert Remembered(l, run, key, k - 1, k) <==> Admits(e, key);
    }
  }

  /** Right after pruning, a key is tracked exactly when an admission of it is remembered, and each of its entries lies
      in the window. */
  lemma PruneTracks(l: Limits, run: seq<Event>, key: string, k: nat)
    requires Run(l, run) && 0 < k <= |run| && run[k - 1].op.Prune?
    ensures key in BucketsAt(run, k) <==> RememberedTimes(l, run, key, k, k) != []
    ensures key in BucketsAt(run, k) ==>
              forall t <- BucketsAt(run, k)[key] :: t >= run[k - 1].now - l.window
  {
    hide Run, Retain, RememberedTimes;
    BucketExact(l, run, key, k);
    RunAt(l, run, k - 1);
    RetainedInside(BucketOf(BucketsAt(run, k - 1), key), run[k - 1].now - l.window);
  }

  lemma {:induction false} RetainedInside(s: seq<real>, cutoff: real)
    ensures forall t <- Retain(s, cutoff) :: t >= cutoff
    decreases |s|
  {
    if s != [] {
      RetainedInside(s[..|s| - 1], cutoff);
    }
  }

  /** allow answers true exactly when fewer than `max` admissions of the key are remembered, its own look at the bucket
      included. */
  lemma AllowExactly(l: Limits, run: seq<Event>, k: nat)
    requires Run(l, run) && k < |run| && run[k].op.Allow?
    ensures run[k].op.ok <==> |RememberedTimes(l, run, run[k].op.key, k, k + 1)| < l.max
  {
    hide Run, Retain, RememberedTimes, Steps;
    RunAt(l, run, k);
    AnswerIs(l, BucketsAt(run, k), run[k]);
    BucketExact(l, run, run[k].op.key, k);
    TimesNext(l, run, run[k].op.key, k, k);
  }

  // ----- Clock readings with a bounded lag

  lemma {:induction false} AdmissionTimes(run: seq<Event>, key: string, k: nat, t: real)
    requires k <= |run|
    requires forall j :: 0 <= j < k ==> run[j].now <= t
    ensures UpTo(SinceEviction(run, key, k), t)
    decreases k
  {
    if k > 0 {
      AdmissionTimes(run, key, k - 1, t);
    }
  }

  /** The bucket of a key agrees with the full history since its last eviction, as seen from any cutoff that no event
      so far has passed. */
  lemma {:induction false} BucketAgrees(l: Limits, run: seq<Event>, key: string, k: nat, cutoff: real)
    requires Run(l, run) && k <= |run|
    requires forall j :: 0 <= j < k ==> run[j].now - l.window <= cutoff
    ensures Retain(BucketOf(BucketsAt(run, k), key), cutoff) == Retain(SinceEviction(run, key, k), cutoff)
    decreases k
  {
    hide Run, Retain, Steps, Evicts, Reads, Admits;
    RetainNothing(cutoff);
    if k > 0 {
      RunAt(l, run, k - 1);
      var b, e := BucketsAt(run, k - 1), run[k - 1];
      BucketAgrees(l, run, key, k - 1, cutoff);
      RetainTwice(BucketOf(b, key), e.now - l.window, cutoff);
      RetainAppend(SinceEviction(run, key, k - 1), e.now, cutoff);
      RetainAppend(Retain(BucketOf(b, key), e.now - l.window), e.now, cutoff);
      BucketNext(l, b, e, key);
    }
  }

  /** A bucket never holds more than the full history since the key's last eviction. */
  lemma {:induction false} BucketWithin(l: Limits, run: seq<Event>, key: string, k: nat, cutoff: real)
    requires Run(l, run) && k <= |run|
    ensures |Retain(BucketOf(BucketsAt(run, k), key), cutoff)| <= |Retain(SinceEviction(run, key, k), cutoff)|
    decreases k
  {
    hide Run, Retain, Steps, Evicts, Reads, Admits;
    RetainNothing(cutoff);
    if k > 0 {
      RunAt(l, run, k - 1);
      var b, e := BucketsAt(run, k - 1), run[k - 1];
      BucketWithin(l, run, key, k - 1, cutoff);
      RetainFewer(BucketOf(b, key), e.now - l.window, cutoff);
      RetainAppend(SinceEviction(run, key, k - 1), e.now, cutoff);
      RetainAppend(Retain(BucketOf(b, key), e.now - l.window), e.now, cutoff);
      BucketNext(l, b, e, key);
    }
  }

  lemma RetainNothing(cutoff: real)
    ensures Retain([], cutoff) == []
  {}

  /** With readings late by at most `lag`: fewer than `max` admissions since the last eviction at or after the cutoff are
      enough for allow to answer true, and fewer than `max` at or after the cutoff moved by `lag` are necessary.  No
      admission is later than now + lag; with no lag the two conditions are one. */
  lemma AllowWithin(l: Limits, run: seq<Event>, lag: real, k: nat)
    requires Run(l, run) && Lag(run, lag) && k < |run| && run[k].op.Allow?
    ensures var e := run[k];
            var s := SinceEviction(run, e.op.key, k);
            && (CountIn(s, e.now - l.window, e.now + lag) < l.max ==> e.op.ok)
            && (e.op.ok ==> CountIn(s, e.now - l.window + lag, e.now + lag) < l.max)
  {
    var e := run[k];
    var s, low := SinceEviction(run, e.op.key, k), e.now - l.window;
    assert run[k].now <= run[k].now + lag && forall j :: 0 <= j < k ==> run[j].now <= e.now + lag;
    hide Run, Lag, Retain, SinceEviction, CountIn, Steps;
    RunAt(l, run, k);
    AnswerIs(l, BucketsAt(run, k), e);
    var bucket := BucketOf(BucketsAt(run, k), e.op.key);
    BucketAgrees(l, run, e.op.key, k, low + lag);
    BucketWithin(l, run, e.op.key, k, low);
    RetainLower(bucket, low, low + lag);
    AdmissionTimes(run, e.op.key, k, e.now + lag);
    RetainCounts(s, low, e.now + lag);
    RetainCounts(s, low + lag, e.now + lag);
  }

  ghost predicate NeverEvicted(run: seq<Event>, key: string, k: nat)
    requires k <= |run|
  {
    forall j :: 0 <= j < k ==> !Evicts(run[j], key)
  }

  lemma {:induction false} NothingForgotten(run: seq<Event>, key: string, k: nat)
    requires k <= |run| && NeverEvicted(run, key, k)
    ensures SinceEviction(run, key, k) == Admissions(run, key, k)
    decreases k
  {
    if k > 0 {
      NothingForgotten(run, key, k - 1);
    }
  }

  /** For a key never evicted the limiter answers as if it had kept the full history, up to the lag. */
  lemma RefinesFullHistory(l: Limits, run: seq<Event>, lag: real, k: nat)
    requires Run(l, run) && Lag(run, lag) && k < |run| && run[k].op.Allow? && NeverEvicted(run, run[k].op.key, k)
    ensures var e := run[k];
            var s := Admissions(run, e.op.key, k);
            && (CountIn(s, e.now - l.window, e.now + lag) < l.max ==> e.op.ok)
            && (e.op.ok ==> CountIn(s, e.now - l.window + lag, e.now + lag) < l.max)
  {
    hide Run, Lag;
    AllowWithin(l, run, lag, k);
    NothingForgotten(run, run[k].op.key, k);
  }

  lemma CountNothing(low: real, high: real)
    ensures CountIn([], low, high) == 0
  {}

  lemma CountAppend(s: seq<real>, x: real, low: real, high: real)
    ensures CountIn(s + [x], low, high) == CountIn(s, low, high) + if low <= x <= high then 1 else 0
  {
    assert (s + [x])[..|s|] == s;
  }

  /** No closed window shorter than the configured one by `lag`, wherever it lies, holds more than `max` admissions of
      a key since its last eviction. */
  lemma {:induction false} EveryWindowBounded(l: Limits, run: seq<Event>, lag: real, key: string, k: nat, from: real)
    requires Run(l, run) && Lag(run, lag) && k <= |run|
    ensures CountIn(SinceEviction(run, key, k), from, from + l.window - lag) <= l.max
    decreases k
  {
    hide Run, Lag, Steps, CountIn;
    var to := from + l.window - lag;
    CountNothing(from, to);
    if k > 0 {
      EveryWindowBounded(l, run, lag, key, k - 1, from);
      var e := run[k - 1];
      CountAppend(SinceEviction(run, key, k - 1), e.now, from, to);
      if Admits(e, key) && from <= e.now <= to {
        AdmittedRoom(l, run, lag, k - 1, from);
      }
    }
  }

  lemma AdmittedRoom(l: Limits, run: seq<Event>, lag: real, k: nat, from: real)
    requires Run(l, run) && Lag(run, lag) && k < |run| && run[k].op.Allow? && run[k].op.ok
    requires from <= run[k].now <= from + l.window - lag
    ensures CountIn(SinceEviction(run, run[k].op.key, k), from, from + l.window - lag) < l.max
  {
    hide Run, CountIn, SinceEviction;
    var e := run[k];
    var s := SinceEviction(run, e.op.key, k);
    assert forall j :: 0 <= j <= k ==> run[j].now <= e.now + lag;
    hide Lag;
    AllowWithin(l, run, lag, k);
    AdmissionTimes(run, e.op.key, k, e.now + lag);
    CountWider(s, from, from + l.window - lag, e.now - l.window + lag, e.now + lag);
  }

  /** The same for the full history of a key that was never evicted. */
  lemma FullHistoryWindowBounded(l: Limits, run: seq<Event>, lag: real, key: string, k: nat, from: real)
    requires Run(l, run) && Lag(run, lag) && k <= |run| && NeverEvicted(run, key, k)
    ensures CountIn(Admissions(run, key, k), from, from + l.window - lag) <= l.max
  {
    hide Run, Lag;
    EveryWindowBounded(l, run, lag, key, k, from);
    NothingForgotten(run, key, k);
  }

  /** The number of tracked keys never exceeds the cap. */
  lemma {:induction false} BucketCountBounded(l: Limits, run: seq<Event>, k: nat)
    requires Run(l, run) && k <= |run| && l.maxBuckets > 0
    ensures |BucketsAt(run, k)| <= l.maxBuckets
    decreases k
  {
    hide Run, Retain;
    if k > 0 {
      BucketCountBounded(l, run, k - 1);
      RunAt(l, run, k - 1);
      StepCount(l, BucketsAt(run, k - 1), run[k - 1]);
    }
  }

  lemma StepCount(l: Limits, b: Buckets, e: Event)
    requires Steps(l, b, e) && |b| <= l.maxBuckets && l.maxBuckets > 0
    ensures |e.after| <= l.maxBuckets
  {
    hide Retain;
    match e.op
    case Allow(key, evicted, ok) =>
      var room := AfterEviction(b, evicted);
      assert room.Keys == if evicted.Some? then b.Keys - {evicted.value} else b.Keys;
      assert e.after.Keys == room.Keys + {key};
    case Prune =>
      assert e.after.Keys <= b.Keys;
      SubsetSize(e.after.Keys, b.Keys);
  }

  // ----- What eviction and late readings cost: exactly when a limit holds over the full history

  ghost predicate KeysIn(run: seq<Event>, keys: set<string>) {
    forall k :: 0 <= k < |run| && run[k].op.Allow? ==> run[k].op.key in keys
  }

  /** The limit over the full history, for readings late by at most `lag`: whatever is asked for the given keys, in
      whatever order and with pruning at whatever times, no closed window of the given length holds more than `max`
      admissions of any one key. */
  ghost predicate WindowsBounded(l: Limits, lag: real, length: real, keys: set<string>) {
    forall run: seq<Event>, key: string, from: real ::
      Run(l, run) && Lag(run, lag) && KeysIn(run, keys) ==> BoundedFrom(l, run, key, from, length)
  }

  /** At most `max` admissions of the key in the closed window that begins at `from`. */
  ghost predicate BoundedFrom(l: Limits, run: seq<Event>, key: string, from: real, length: real) {
    CountIn(Admissions(run, key, |run|), from, from + length) <= l.max
  }

  lemma {:induction false} TrackedWithin(l: Limits, run: seq<Event>, keys: set<string>, k: nat)
    requires Run(l, run) && KeysIn(run, keys) && k <= |run|
    ensures BucketsAt(run, k).Keys <= keys
    decreases k
  {
    hide Run, Retain, EvictionOk;
    if k > 0 {
      TrackedWithin(l, run, keys, k - 1);
      RunAt(l, run, k - 1);
    }
  }

  /** While the keys in use number at most the cap, nothing is ever evicted. */
  lemma NoEviction(l: Limits, run: seq<Event>, keys: set<string>, key: string)
    requires Run(l, run) && KeysIn(run, keys) && |keys| <= l.maxBuckets
    ensures NeverEvicted(run, key, |run|)
  {
    hide Run, Retain, Allowed;
    forall k | 0 <= k < |run|
      ensures !Evicts(run[k], key)
    {
      TrackedWithin(l, run, keys, k);
      RunAt(l, run, k);
      var b, e := BucketsAt(run, k), run[k];
      if e.op.Allow? && e.op.key !in b {
        SubsetSize(b.Keys + {e.op.key}, keys);
        assert |b.Keys + {e.op.key}| == |b| + 1;
      }
    }
  }

  /** Without keys, or with a maximum of zero, nothing is admitted. */
  lemma {:induction false} NothingAdmitted(l: Limits, run: seq<Event>, keys: set<string>, key: string, k: nat)
    requires Run(l, run) && KeysIn(run, keys) && k <= |run| && (l.max == 0 || keys == {})
    ensures Admissions(run, key, k) == []
    decreases k
  {
    hide Run, Retain;
    if k > 0 {
      NothingAdmitted(l, run, keys, key, k - 1);
      RunAt(l, run, k - 1);
    }
  }

  lemma {:induction false} EmptyWindow(s: seq<real>, low: real, high: real)
    requires high < low
    ensures CountIn(s, low, high) == 0
    decreases |s|
  {
    if s != [] {
      EmptyWindow(s[..|s| - 1], low, high);
    }
  }

  lemma {:induction false} CountAllZero(s: seq<real>, high: real)
    requires 0.0 <= high && forall i :: 0 <= i < |s| ==> s[i] == 0.0
    ensures CountIn(s, 0.0, high) == |s|
    decreases |s|
  {
    if s != [] {
      CountAllZero(s[..|s| - 1], high);
    }
  }

  lemma {:induction false} RetainAll(s: seq<real>, cutoff: real)
    requires forall i :: 0 <= i < |s| ==> s[i] >= cutoff
    ensures Retain(s, cutoff) == s
    decreases |s|
  {
    if s != [] {
      RetainAll(s[..|s| - 1], cutoff);
    }
  }

  /** A run in which every event happens at time 0, for the given keys. */
  ghost predicate InstantRun(l: Limits, run: seq<Event>, keys: set<string>) {
    Run(l, run) && KeysIn(run, keys) && forall k :: 0 <= k < |run| ==> run[k].now == 0.0
  }

  function Zeros(n: nat): (z: seq<real>)
    ensures |z| == n && forall i :: 0 <= i < n ==> z[i] == 0.0
  {
    seq(n, _ => 0.0)
  }

  function FinalBuckets(run: seq<Event>): Buckets { BucketsAt(run, |run|) }

  lemma {:induction false} AdmissionsPrefix(run: seq<Event>, e: Event, key: string, k: nat)
    requires k <= |run|
    ensures Admissions(run + [e], key, k) == Admissions(run, key, k)
    decreases k
  {
    if k > 0 {
      AdmissionsPrefix(run, e, key, k - 1);
    }
  }

  /** A run with one more event. */
  lemma Extended(l: Limits, run: seq<Event>, e: Event)
    requires Run(l, run) && Steps(l, FinalBuckets(run), e)
    ensures Run(l, run + [e]) && FinalBuckets(run + [e]) == e.after
    ensures forall key :: Admissions(run + [e], key, |run + [e]|)
              == Admissions(run, key, |run|) + if Admits(e, key) then [e.now] else []
  {
    hide Steps;
    var longer := run + [e];
    forall k | 0 <= k < |longer|
      ensures StepAt(l, longer, k)
    {
      assert BucketsAt(longer, k) == BucketsAt(run, k);
      assert k < |run| ==> StepAt(l, run, k);
    }
    forall key
      ensures Admissions(longer, key, |run|) == Admissions(run, key, |run|)
    {
      AdmissionsPrefix(run, e, key, |run|);
    }
  }

  /** One more admission at time 0. */
  lemma Admit(l: Limits, run: seq<Event>, keys: set<string>, key: string, evicted: Option<string>) returns (longer: seq<Event>)
    requires InstantRun(l, run, keys) && key in keys
    requires EvictionOk(l, FinalBuckets(run), key, evicted)
    requires |Retain(BucketOf(AfterEviction(FinalBuckets(run), evicted), key), 0.0 - l.window)| < l.max
    ensures InstantRun(l, longer, keys)
    ensures var room := AfterEviction(FinalBuckets(run), evicted);
            FinalBuckets(longer) == room[key := Retain(BucketOf(room, key), 0.0 - l.window) + [0.0]]
    ensures forall other :: Admissions(longer, other, |longer|)
              == Admissions(run, other, |run|) + if other == key then [0.0] else []
  {
    hide Run, Retain, EvictionOk, AfterEviction, FinalBuckets, Admissions;
    var room := AfterEviction(FinalBuckets(run), evicted);
    var e := Event(Allow(key, evicted, true), 0.0, room[key := Retain(BucketOf(room, key), 0.0 - l.window) + [0.0]]);
    Extended(l, run, e);
    longer := run + [e];
  }

  /** A table with one bucket of n times 0. */
  function Filled(a: string, n: nat): Buckets { if n == 0 then map[] else map[a := Zeros(n)] }

  lemma FilledNext(l: Limits, a: string, n: nat)
    requires l.maxBuckets > 0
    ensures EvictionOk(l, Filled(a, n), a, None) && AfterEviction(Filled(a, n), None) == Filled(a, n)
    ensures BucketOf(Filled(a, n), a) == Zeros(n) && Zeros(n) + [0.0] == Zeros(n + 1)
    ensures Filled(a, n)[a := Zeros(n + 1)] == Filled(a, n + 1)
  {}

  lemma NothingYet(l: Limits, keys: set<string>, a: string)
    ensures InstantRun(l, [], keys) && FinalBuckets([]) == Filled(a, 0) && Admissions([], a, 0) == Zeros(0)
  {}

  /** A key is admitted n times, up to its limit. */
  lemma {:induction false} AdmitOften(l: Limits, keys: set<string>, a: string, n: nat) returns (run: seq<Event>)
    requires a in keys && n <= l.max && l.maxBuckets > 0 && l.window >= 0.0
    ensures InstantRun(l, run, keys)
    ensures FinalBuckets(run) == Filled(a, n)
    ensures Admissions(run, a, |run|) == Zeros(n)
    decreases n
  {
    hide InstantRun, Admissions, Retain, FinalBuckets, Zeros, Filled, EvictionOk, AfterEviction, BucketOf;
    if n == 0 {
      NothingYet(l, keys, a);
      run := [];
    } else {
      var before := AdmitOften(l, keys, a, n - 1);
      FilledNext(l, a, n - 1);
      RetainAll(Zeros(n - 1), 0.0 - l.window);
      run := Admit(l, before, keys, a, None);
    }
  }

  /** With a negative window a key is admitted any number of times at one instant. */
  lemma {:induction false} AdmitAlways(l: Limits, keys: set<string>, a: string, n: nat) returns (run: seq<Event>)
    requires a in keys && l.max > 0 && l.maxBuckets > 0 && l.window < 0.0
    ensures InstantRun(l, run, keys)
    ensures FinalBuckets(run) == if n == 0 then Filled(a, 0) else Filled(a, 1)
    ensures Admissions(run, a, |run|) == Zeros(n)
    decreases n
  {
    hide InstantRun, Admissions, Retain, FinalBuckets, Zeros, EvictionOk;
    if n == 0 {
      NothingYet(l, keys, a);
      run := [];
    } else {
      var before := AdmitAlways(l, keys, a, n - 1);
      FilledNext(l, a, 0);
      FilledNext(l, a, 1);
      RetainNone(BucketOf(FinalBuckets(before), a), 0.0 - l.window);
      run := Admit(l, before, keys, a, None);
      assert Zeros(1) == [] + [0.0];
    }
  }

  /** A key without a bucket is admitted while there is room. */
  lemma AdmitNew(l: Limits, run: seq<Event>, keys: set<string>, x: string, a: string) returns (longer: seq<Event>)
    requires InstantRun(l, run, keys) && x in keys && l.max > 0 && l.window >= 0.0
    requires x !in FinalBuckets(run) && |FinalBuckets(run)| < l.maxBuckets
    ensures InstantRun(l, longer, keys)
    ensures FinalBuckets(longer).Keys == FinalBuckets(run).Keys + {x} && |FinalBuckets(longer)| == |FinalBuckets(run)| + 1
    ensures a != x ==> Admissions(longer, a, |longer|) == Admissions(run, a, |run|)
  {
    hide InstantRun, Admissions, Retain;
    RetainNothing(0.0 - l.window);
    longer := Admit(l, run, keys, x, None);
    assert |FinalBuckets(run).Keys + {x}| == |FinalBuckets(run)| + 1;
  }

  lemma MoveOne(tracked: set<string>, others: set<string>, x: string)
    requires x in others && others !! tracked
    ensures tracked + {x} + (others - {x}) == tracked + others
    ensures others - {x} !! tracked + {x} && x !in tracked
    ensures |others - {x}| == |others| - 1
  {}

  /** Other keys are admitted once each, as long as there is room. */
  lemma {:induction false} AdmitOthers(l: Limits, run: seq<Event>, keys: set<string>, others: set<string>,
                                       a: string)
    returns (longer: seq<Event>)
    requires InstantRun(l, run, keys) && others <= keys && l.max > 0 && l.window >= 0.0
    requires others !! FinalBuckets(run).Keys && |FinalBuckets(run)| + |others| <= l.maxBuckets
    ensures InstantRun(l, longer, keys) && FinalBuckets(longer).Keys == FinalBuckets(run).Keys + others
    ensures a !in others ==> Admissions(longer, a, |longer|) == Admissions(run, a, |run|)
    decreases |others|
  {
    hide InstantRun, Admissions, FinalBuckets;
    if others == {} {
      longer := run;
    } else {
      var x :| x in others;
      MoveOne(FinalBuckets(run).Keys, others, x);
      var next := AdmitNew(l, run, keys, x, a);
      longer := AdmitOthers(l, next, keys, others - {x}, a);
    }
  }

  lemma {:induction false} SubsetOfSize(s: set<string>, n: nat) returns (t: set<string>)
    requires n <= |s|
    ensures t <= s && |t| == n
    decreases n
  {
    if n == 0 {
      t := {};
    } else {
      var x :| x in s;
      t := SubsetOfSize(s - {x}, n - 1);
      t := t + {x};
    }
  }

  /** With the table full and the key's bucket in it, a new key evicts that bucket, and the key starts afresh. */
  lemma EvictAndReturn(l: Limits, run: seq<Event>, keys: set<string>, a: string, x: string) returns (longer: seq<Event>)
    requires InstantRun(l, run, keys) && {a, x} <= keys && l.max > 0 && l.maxBuckets > 0 && l.window >= 0.0
    requires a in FinalBuckets(run) && x !in FinalBuckets(run) && |FinalBuckets(run)| == l.maxBuckets
    ensures InstantRun(l, longer, keys)
    ensures Admissions(longer, a, |longer|) == Admissions(run, a, |run|) + [0.0]
  {
    hide InstantRun, Admissions, FinalBuckets, Retain;
    RetainNothing(0.0 - l.window);
    var crowded := FinalBuckets(run);
    assert (crowded - {a}).Keys == crowded.Keys - {a};
    var evicted := Admit(l, run, keys, x, Some(a));
    var swapped := FinalBuckets(evicted);
    assert swapped.Keys == crowded.Keys - {a} + {x};
    longer := Admit(l, evicted, keys, a, Some(x));
  }

  /** With one key more than the cap, a run at one instant admits some key max + 1 times: the key fills its bucket,
      the other keys fill the table until the first one is evicted, and then it is admitted again. */
  lemma EvictionForgets(l: Limits, keys: set<string>) returns (run: seq<Event>, a: string)
    requires l.max > 0 && l.maxBuckets > 0 && l.window >= 0.0 && |keys| > l.maxBuckets
    ensures InstantRun(l, run, keys) && Admissions(run, a, |run|) == Zeros(l.max + 1)
  {
    hide InstantRun, Admissions, FinalBuckets;
    a :| a in keys;
    var others := SubsetOfSize(keys - {a}, l.maxBuckets - 1);
    assert |keys - {a} - others| == |keys| - l.maxBuckets;
    var x :| x in keys - {a} - others;
    run := AdmitOften(l, keys, a, l.max);
    run := AdmitOthers(l, run, keys, others, a);
    assert |{a} + others| == l.maxBuckets;
    run := EvictAndReturn(l, run, keys, a, x);
    assert Zeros(l.max) + [0.0] == Zeros(l.max + 1);
  }

  /** With one key and readings late by up to `lag`, any window longer than the configured one less `lag` can be
      overfilled: the key fills its bucket at time 0, pruning with a reading just past the configured window empties
      the bucket, and then a reading earlier by `lag` arrives. */
  lemma LateReading(l: Limits, keys: set<string>, a: string, lag: real, length: real) returns (run: seq<Event>)
    requires a in keys && l.max > 0 && l.maxBuckets > 0 && l.window >= 0.0
    requires lag >= 0.0 && length >= 0.0 && length > l.window - lag
    ensures Run(l, run) && Lag(run, lag) && KeysIn(run, keys)
    ensures Admissions(run, a, |run|) == Zeros(l.max) + [length]
  {
    var filled := AdmitOften(l, keys, a, l.max);
    var pruning := Event(Prune, length + lag, map[]);
    RetainNone(Zeros(l.max), length + lag - l.window);
    RetainNothing(length - l.window);
    var late := Event(Allow(a, None, true), length, map[a := [length]]);
    assert [] + [length] == [length];
    hide Run, Admissions, Retain;
    Extended(l, filled, pruning);
    Extended(l, filled + [pruning], late);
    run := filled + [pruning] + [late];
  }

  lemma {:induction false} RetainNone(s: seq<real>, cutoff: real)
    requires forall i :: 0 <= i < |s| ==> s[i] < cutoff
    ensures Retain(s, cutoff) == []
    decreases |s|
  {
    if s != [] {
      RetainNone(s[..|s| - 1], cutoff);
    }
  }

  /** A key admitted max + 1 times within the length, by whichever of the three ways is open. */
  lemma Overfilled(l: Limits, lag: real, length: real, keys: set<string>)
    requires keys != {} && l.max > 0 && l.maxBuckets > 0 && lag >= 0.0 && length >= 0.0
    requires |keys| > l.maxBuckets || length > l.window - lag
    ensures !WindowsBounded(l, lag, length, keys)
  {
    hide Run, Admissions, CountIn, KeysIn;
    var run: seq<Event>, a: string;
    a :| a in keys;
    var last := 0.0;
    if l.window < 0.0 {
      run := AdmitAlways(l, keys, a, l.max + 1);
    } else if |keys| > l.maxBuckets {
      run, a := EvictionForgets(l, keys);
    } else {
      run := LateReading(l, keys, a, lag, length);
      last := length;
    }
    assert Admissions(run, a, |run|) == Zeros(l.max) + [last];
    CountAllZero(Zeros(l.max), length);
    CountAppend(Zeros(l.max), last, 0.0, length);
    assert !BoundedFrom(l, run, a, 0.0, length);
  }

  /** For which lags, lengths and sets of keys no window of that length is ever overfilled, in the full history of any
      key: exactly when the keys in use fit the cap and the length is at most the configured window less the lag
      (or there are no keys, nothing is ever admitted, or the length is negative). */
  lemma WindowBoundExact(l: Limits, lag: real, length: real, keys: set<string>)
    requires l.maxBuckets > 0 && lag >= 0.0
    ensures WindowsBounded(l, lag, length, keys) <==>
              || keys == {} || l.max == 0 || length < 0.0
              || (|keys| <= l.maxBuckets && length <= l.window - lag)
  {
    if keys == {} || l.max == 0 || length < 0.0 || (|keys| <= l.maxBuckets && length <= l.window - lag) {
      forall run: seq<Event>, key: string, from: real | Run(l, run) && Lag(run, lag) && KeysIn(run, keys)
        ensures BoundedFrom(l, run, key, from, length)
      {
        hide Run, Lag, Admissions, CountIn, KeysIn;
        var s := Admissions(run, key, |run|);
        if keys == {} || l.max == 0 {
          NothingAdmitted(l, run, keys, key, |run|);
          CountNothing(from, from + length);
        } else if length < 0.0 {
          EmptyWindow(s, from, from + length);
        } else {
          NoEviction(l, run, keys, key);
          FullHistoryWindowBounded(l, run, lag, key, |run|, from);
          CountWider(s, from, from + length, from, from + l.window - lag);
        }
      }
    } else {
      Overfilled(l, lag, length, keys);
    }
  }

  /** The limiter as it is built, with at least one key in use: its configured window is never overfilled exactly when
      there are at most 100,000 keys and readings reach the lock in order; windows shorter by the lag are never
      overfilled exactly when there are at most 100,000 keys. */
  lemma BuiltLimiterExact(maxPerWindow: nat, windowSec: real, lag: real, keys: set<string>)
    requires maxPerWindow > 0 && 0.0 <= lag <= windowSec && keys != {}
    ensures var l := Limits(maxPerWindow, windowSec, DEFAULT_MAX_BUCKETS);
            && (WindowsBounded(l, lag, windowSec, keys) <==> |keys| <= 100_000 && lag == 0.0)
            && (WindowsBounded(l, lag, windowSec - lag, keys) <==> |keys| <= 100_000)
  {
    hide WindowsBounded;
    var l := Limits(maxPerWindow, windowSec, DEFAULT_MAX_BUCKETS);
    WindowBoundExact(l, lag, windowSec, keys);
    WindowBoundExact(l, lag, windowSec - lag, keys);
  }
}
