/** The TOFU verifying-key cache with LRU eviction (dht-core/src/crypto_helpers.rs). */
module KeyCache {
  import opened Wrappers

  const CERT_CACHE_MAX_ENTRIES: nat := 1000

  type Fingerprint = string

  /** A verifying key, known by its encoding, and the time of its last access. */
  datatype Entry = Entry(key: string, touched: nat)

  type Cache = map<Fingerprint, Entry>

  function UpperChar(ch: char): char {
    if 'a' <= ch <= 'z' then (ch as int - 32) as char else ch
  }

  /** to_uppercase on ASCII text. */
  function Upper(s: string): Fingerprint {
    seq(|s|, i requires 0 <= i < |s| => UpperChar(s[i]))
  }

  predicate IsLower(ch: char) { 'a' <= ch <= 'z' }

  /** Two letters that differ only in case. */
  predicate CasePair(lower: char, upper: char) {
    lower in "abcdefghijklmnopqrstuvwxyz" && lower as int - 'a' as int == upper as int - 'A' as int
  }

  /** Fingerprints are one to the cache exactly when they agree up to the case of their letters. */
  lemma UpperExact(s: string, t: string)
    ensures Upper(s) == Upper(t) <==>
            |s| == |t| && forall i :: 0 <= i < |s| ==> s[i] == t[i] || CasePair(s[i], t[i]) || CasePair(t[i], s[i])
    ensures forall i :: 0 <= i < |Upper(s)| ==> !IsLower(Upper(s)[i])
  {
    forall i | 0 <= i < |s| && i < |t|
      ensures Upper(s)[i] == Upper(t)[i] <==> s[i] == t[i] || CasePair(s[i], t[i]) || CasePair(t[i], s[i])
    {
      CharExact(s[i], t[i]);
    }
    if Upper(s) == Upper(t) {
      assert |Upper(s)| == |s| && |Upper(t)| == |t|;
      forall i | 0 <= i < |s|
        ensures s[i] == t[i] || CasePair(s[i], t[i]) || CasePair(t[i], s[i])
      {
        assert Upper(s)[i] == Upper(t)[i];
      }
    }
  }

  lemma CharExact(a: char, b: char)
    ensures UpperChar(a) == UpperChar(b) <==> a == b || CasePair(a, b) || CasePair(b, a)
  {
    LowerLetters(a);
    LowerLetters(b);
  }

  lemma LowerLetters(a: char)
    ensures IsLower(a) <==> a in "abcdefghijklmnopqrstuvwxyz"
  {
    if IsLower(a) {
      assert "abcdefghijklmnopqrstuvwxyz"[a as int - 'a' as int] == a;
    }
  }

  // ----- Least recently used

  ghost predicate IsLru(cache: Cache, f: Fingerprint) {
    f in cache && forall g :: g in cache ==> cache[f].touched <= cache[g].touched
  }

  /** `after` is `cache` with a least recently used entry removed if it holds more than the capacity. */
  ghost predicate Trimmed(cache: Cache, after: Cache) {
    if |cache| > CERT_CACHE_MAX_ENTRIES then exists f :: IsLru(cache, f) && after == cache - {f}
    else after == cache
  }

  // ----- Operations as relations on the cache

  /** Insert or overwrite, then trim (cache_verifying_key). */
  ghost predicate Stores(before: Cache, f: Fingerprint, key: string, now: nat, after: Cache) {
    Trimmed(before[f := Entry(key, now)], after)
  }

  /** pin_verifying_key: first binding wins; the same key refreshes; another key is refused. */
  ghost predicate Pins(before: Cache, f: Fingerprint, key: string, now: nat, after: Cache, ok: bool) {
    if f !in before then Stores(before, f, key, now, after) && ok
    else if before[f].key == key then after == before[f := Entry(key, now)] && ok
    else after == before && !ok
  }

  /** The write half of a lookup: the access time of a cached entry is refreshed. */
  function Refreshed(before: Cache, f: Fingerprint, now: nat): Cache {
    if f in before then before[f := Entry(before[f].key, now)] else before
  }

  class VerifyingKeyCache {
    var cache: Cache

    constructor ()
      ensures cache == map[]
    {
      cache := map[];
    }

    /** Scans the entries, in no particular order, for one with the least access time. */
    method FindLru() returns (lru: Fingerprint)
      requires cache != map[]
      ensures IsLru(cache, lru)
    {
      var rest := cache.Keys;
      lru :| lru in rest;
      rest := rest - {lru};
      while rest != {}
        invariant rest <= cache.Keys && lru in cache
        invariant forall g :: g in cache && g !in rest ==> cache[lru].touched <= cache[g].touched
        decreases rest
      {
        var g :| g in rest;
        if cache[g].touched < cache[lru].touched {
          lru := g;
        }
        rest := rest - {g};
      }
    }

    method EvictIfOver()
      modifies this
      ensures Trimmed(old(cache), cache)
    {
      if |cache| > CERT_CACHE_MAX_ENTRIES {
        assert cache != map[];
        var lru := FindLru();
        cache := cache - {lru};
      }
    }

    method CacheVerifyingKey(fingerprint: string, key: string, now: nat)
      modifies this
      ensures Stores(old(cache), Upper(fingerprint), key, now, cache)
    {
      cache := cache[Upper(fingerprint) := Entry(key, now)];
      EvictIfOver();
    }

    method PinVerifyingKey(fingerprint: string, key: string, now: nat) returns (ok: bool)
      modifies this
      ensures Pins(old(cache), Upper(fingerprint), key, now, cache, ok)
    {
      var f := Upper(fingerprint);
      if f in cache {
        if cache[f].key == key {
          cache := cache[f := Entry(key, now)];
          return true;
        }
        return false;
      }
      cache := cache[f := Entry(key, now)];
      EvictIfOver();
      return true;
    }

    method GetCachedVerifyingKey(fingerprint: string, now: nat) returns (key: Option<string>)
      modifies this
      ensures var f := Upper(fingerprint);
              && cache == Refreshed(old(cache), f, now)
              && key == if f in old(cache) then Some(old(cache)[f].key) else None
    {
      var f := Upper(fingerprint);
      if f in cache {
        key := Some(cache[f].key);
        cache := cache[f := Entry(cache[f].key, now)];
      } else {
        key := None;
      }
    }
  }

  // ----- Runs

  /** One atomic step on the shared cache.  A lookup reads under one lock and refreshes under another, so the two
      halves are separate steps and other threads may run between them; the reading half changes nothing. */
  datatype Op =
    | Pin(f: Fingerprint, key: string)
    | Read(f: Fingerprint)
    | Refresh(f: Fingerprint)
    | Overwrite(f: Fingerprint, key: string)

  /** A step taken at time `now`, leading to `after`. */
  datatype Event = Event(op: Op, now: nat, after: Cache)

  ghost predicate Steps(before: Cache, e: Event) {
    match e.op
    case Pin(f, key) => exists ok :: Pins(before, f, key, e.now, e.after, ok)
    case Read(f) => e.after == before
    case Refresh(f) => e.after == Refreshed(before, f, e.now)
    case Overwrite(f, key) => Stores(before, f, key, e.now, e.after)
  }

  /** The cache after the first k events of a run that starts empty. */
  function CacheAt(run: seq<Event>, k: nat): Cache
    requires k <= |run|
  {
    if k == 0 then map[] else run[k - 1].after
  }

  /** Event k is a step from the cache the events before it left. */
  ghost predicate StepAt(run: seq<Event>, k: nat)
    requires k < |run|
  {
    Steps(CacheAt(run, k), run[k])
  }

  /** A run from the empty cache, on a clock that never goes back; it is read under the lock. */
  ghost predicate Run(run: seq<Event>) {
    && (forall k :: 0 <= k < |run| ==> StepAt(run, k))
    && forall j, k :: 0 <= j < k < |run| ==> run[j].now <= run[k].now
  }

  /** Event k touches f: it inserts f, pins its key again, overwrites it, or refreshes it while cached. */
  predicate Touches(run: seq<Event>, k: nat, f: Fingerprint)
    requires k < |run|
  {
    match run[k].op
    case Pin(g, key) => f == g && (f in CacheAt(run, k) ==> CacheAt(run, k)[f].key == key)
    case Read(_) => false
    case Refresh(g) => f == g && f in CacheAt(run, k)
    case Overwrite(g, _) => f == g
  }

  /** The fingerprints other than f touched before event j at time t or later. */
  ghost function OthersSince(run: seq<Event>, f: Fingerprint, t: nat, j: nat): set<Fingerprint>
    requires j <= |run|
  {
    set k | 0 <= k < j && run[k].now >= t && run[k].op.f != f && Touches(run, k, run[k].op.f) :: run[k].op.f
  }

  /** The same, strictly later than t. */
  ghost function OthersAfter(run: seq<Event>, f: Fingerprint, t: nat, j: nat): set<Fingerprint>
    requires j <= |run|
  {
    set k | 0 <= k < j && run[k].now > t && run[k].op.f != f && Touches(run, k, run[k].op.f) :: run[k].op.f
  }

  lemma TrimmedFacts(cache: Cache, after: Cache)
    requires Trimmed(cache, after)
    ensures |cache| <= CERT_CACHE_MAX_ENTRIES + 1 ==> |after| <= CERT_CACHE_MAX_ENTRIES
    ensures forall g :: g in after ==> g in cache && after[g] == cache[g]
    ensures forall g :: g in cache && g !in after ==> IsLru(cache, g) && |cache| > CERT_CACHE_MAX_ENTRIES
  {
    if |cache| > CERT_CACHE_MAX_ENTRIES {
      var f :| IsLru(cache, f) && after == cache - {f};
      assert after.Keys == cache.Keys - {f};
    }
  }

  lemma UpdateSize(cache: Cache, f: Fingerprint, e: Entry)
    ensures |cache[f := e]| == if f in cache then |cache| else |cache| + 1
    ensures cache[f := e].Keys == cache.Keys + {f}
  {
    assert cache[f := e].Keys == cache.Keys + {f};
  }

  /** What every step does: nothing unless it touches its fingerprint; else it sets that one entry to the current
      time, with its bound key if it had one and the step is no overwrite, and trims. */
  lemma StepShape(run: seq<Event>, k: nat) returns (key: string)
    requires k < |run| && Steps(CacheAt(run, k), run[k]) && |CacheAt(run, k)| <= CERT_CACHE_MAX_ENTRIES
    ensures var before, e := CacheAt(run, k), run[k];
            && (!Touches(run, k, e.op.f) ==> e.after == before)
            && (Touches(run, k, e.op.f) ==> Trimmed(before[e.op.f := Entry(key, e.now)], e.after))
            && (e.op.f in before && !e.op.Overwrite? ==> key == before[e.op.f].key)
  {
    var before, e := CacheAt(run, k), run[k];
    var f := e.op.f;
    key := if f in before && !e.op.Overwrite? then before[f].key else if e.op.Pin? || e.op.Overwrite? then e.op.key else "";
    UpdateSize(before, f, Entry(key, e.now));
  }

  lemma RunAt(run: seq<Event>, k: nat)
    requires Run(run) && k < |run|
    ensures Steps(CacheAt(run, k), run[k])
    ensures k > 0 ==> run[k - 1].now <= run[k].now
  {
    hide Steps;
    assert StepAt(run, k);
  }

  /** The cache never exceeds its capacity, and every access time in it is that of an earlier event. */
  lemma {:induction false} CapacityHolds(run: seq<Event>, k: nat)
    requires Run(run) && k <= |run|
    ensures |CacheAt(run, k)| <= CERT_CACHE_MAX_ENTRIES
    ensures forall g :: g in CacheAt(run, k) ==> k > 0 && CacheAt(run, k)[g].touched <= run[k - 1].now
    decreases k
  {
    hide Trimmed, Touches, IsLru, Run, Steps;
    if k > 0 {
      CapacityHolds(run, k - 1);
      RunAt(run, k - 1);
      var key := StepShape(run, k - 1);
      var before, e := CacheAt(run, k - 1), run[k - 1];
      if Touches(run, k - 1, e.op.f) {
        var added := before[e.op.f := Entry(key, e.now)];
        UpdateSize(before, e.op.f, Entry(key, e.now));
        TrimmedFacts(added, e.after);
      }
    }
  }

  /** No event of i .. j-1 evicts f or overwrites its key. */
  ghost predicate Undisturbed(run: seq<Event>, f: Fingerprint, i: nat, j: nat)
    requires i <= j <= |run|
  {
    && (forall k :: i <= k <= j ==> f in CacheAt(run, k))
    && forall k :: i <= k < j ==> !(run[k].op.Overwrite? && run[k].op.f == f)
  }

  /** First binding wins: while f stays cached and nobody overwrites it, its key does not change, whatever is
      pinned or looked up. */
  lemma {:induction false} FirstBindingWins(run: seq<Event>, f: Fingerprint, i: nat, j: nat)
    requires Run(run) && i <= j <= |run| && Undisturbed(run, f, i, j)
    ensures CacheAt(run, j)[f].key == CacheAt(run, i)[f].key
    decreases j
  {
    hide Touches, Trimmed, IsLru, Run, Steps;
    if i < j {
      FirstBindingWins(run, f, i, j - 1);
      CapacityHolds(run, j - 1);
      RunAt(run, j - 1);
      assert f in CacheAt(run, j - 1);
      var key := StepShape(run, j - 1);
      var before, e := CacheAt(run, j - 1), run[j - 1];
      if Touches(run, j - 1, e.op.f) {
        TrimmedFacts(before[e.op.f := Entry(key, e.now)], e.after);
      }
    }
  }

  /** The access time of a cached entry is that of an event that touched it. */
  lemma {:induction false} EntryTouched(run: seq<Event>, j: nat, g: Fingerprint) returns (m: nat)
    requires Run(run) && j <= |run| && g in CacheAt(run, j)
    ensures m < j && run[m].op.f == g && Touches(run, m, g) && run[m].now == CacheAt(run, j)[g].touched
    decreases j
  {
    hide Trimmed, IsLru, Touches, Run, Steps;
    CapacityHolds(run, j - 1);
    RunAt(run, j - 1);
    var key := StepShape(run, j - 1);
    var before, e := CacheAt(run, j - 1), run[j - 1];
    m := j - 1;
    if Touches(run, j - 1, e.op.f) {
      TrimmedFacts(before[e.op.f := Entry(key, e.now)], e.after);
    }
    if e.op.f != g || !Touches(run, j - 1, g) {
      m := EntryTouched(run, j - 1, g);
    }
  }

  lemma SinceHas(run: seq<Event>, f: Fingerprint, t: nat, j: nat, m: nat)
    requires m < j <= |run| && run[m].now >= t && run[m].op.f != f && Touches(run, m, run[m].op.f)
    ensures run[m].op.f in OthersSince(run, f, t, j)
  {}

  /** Trimming keeps f when at most 999 other entries are at least as recent. */
  lemma FewRecentStays(added: Cache, after: Cache, f: Fingerprint, recent: set<Fingerprint>)
    requires Trimmed(added, after) && f in added && |recent| < CERT_CACHE_MAX_ENTRIES
    requires forall g :: g in added && g != f && added[g].touched >= added[f].touched ==> g in recent
    ensures f in after
  {
    TrimmedFacts(added, after);
    if f !in after {
      var others := added.Keys - {f};
      assert |others| == |added.Keys| - 1 >= CERT_CACHE_MAX_ENTRIES;
      forall g | g in others
        ensures g in recent
      {
        assert added[f].touched <= added[g].touched;
      }
      SubsetSize(others, recent);
    }
  }

  /** An event that touches f, or finds it touched at t or later, leaves f cached if at most 999 others are as recent. */
  lemma RecentStep(run: seq<Event>, f: Fingerprint, t: nat, j: nat)
    requires Run(run) && j < |run| && run[j].now >= t && |OthersSince(run, f, t, j + 1)| < CERT_CACHE_MAX_ENTRIES
    requires Touches(run, j, f) || (f in CacheAt(run, j) && CacheAt(run, j)[f].touched >= t)
    ensures f in CacheAt(run, j + 1) && CacheAt(run, j + 1)[f].touched >= t
  {
    hide Trimmed, IsLru, OthersSince, Run, Steps;
    CapacityHolds(run, j);
    RunAt(run, j);
    var key := StepShape(run, j);
    var before, e := CacheAt(run, j), run[j];
    assert Touches(run, j, f) ==> e.op.f == f;
    hide Touches;
    if Touches(run, j, e.op.f) {
      var added := before[e.op.f := Entry(key, e.now)];
      forall g | g in added && g != f && added[g].touched >= added[f].touched
        ensures g in OthersSince(run, f, t, j + 1)
      {
        var m := j;
        if g != e.op.f {
          m := EntryTouched(run, j, g);
        }
        SinceHas(run, f, t, j + 1, m);
      }
      FewRecentStays(added, e.after, f, OthersSince(run, f, t, j + 1));
      TrimmedFacts(added, e.after);
    }
  }

  /** The LRU guarantee: after a touch of f, f stays cached as long as at most 999 other fingerprints are touched at
      that time or later. */
  lemma {:induction false} RecentlyTouchedStays(run: seq<Event>, f: Fingerprint, i: nat, j: nat)
    requires Run(run) && i < j <= |run| && Touches(run, i, f)
    requires |OthersSince(run, f, run[i].now, j)| < CERT_CACHE_MAX_ENTRIES
    ensures f in CacheAt(run, j) && CacheAt(run, j)[f].touched >= run[i].now
    decreases j
  {
    assert run[j - 1].now >= run[i].now;
    hide OthersSince, Touches, Run;
    if i + 1 < j {
      SinceGrows(run, f, run[i].now, j - 1, j);
      RecentlyTouchedStays(run, f, i, j - 1);
    }
    RecentStep(run, f, run[i].now, j - 1);
  }

  lemma SinceGrows(run: seq<Event>, f: Fingerprint, t: nat, k: nat, j: nat)
    requires k <= j <= |run|
    ensures |OthersSince(run, f, t, k)| <= |OthersSince(run, f, t, j)|
  {
    SubsetSize(OthersSince(run, f, t, k), OthersSince(run, f, t, j));
  }

  // ----- The converse

  ghost predicate Untouched(run: seq<Event>, f: Fingerprint, i: nat, j: nat)
    requires i < j <= |run|
  {
    forall k :: i < k < j ==> !Touches(run, k, f)
  }

  /** An entry cached now and untouched since event i was there before each step since, with the time of that event. */
  lemma {:induction false} UntouchedEntry(run: seq<Event>, f: Fingerprint, i: nat, j: nat)
    requires Run(run) && i < j <= |run| && Touches(run, i, f) && Untouched(run, f, i, j) && f in CacheAt(run, j)
    ensures CacheAt(run, j)[f].touched == run[i].now
    ensures i + 1 < j ==> f in CacheAt(run, j - 1) && CacheAt(run, j - 1)[f] == CacheAt(run, j)[f]
    decreases j
  {
    hide Trimmed, IsLru, Run, Steps;
    CapacityHolds(run, j - 1);
    RunAt(run, j - 1);
    var key := StepShape(run, j - 1);
    var before, e := CacheAt(run, j - 1), run[j - 1];
    assert Touches(run, i, f) ==> run[i].op.f == f;
    assert i + 1 < j ==> !Touches(run, j - 1, f);
    hide Touches;
    if Touches(run, j - 1, e.op.f) {
      TrimmedFacts(before[e.op.f := Entry(key, e.now)], e.after);
    }
    if i + 1 < j {
      UntouchedEntry(run, f, i, j - 1);
    }
  }

  lemma LaterNotLru(cache: Cache, f: Fingerprint, g: Fingerprint)
    requires f in cache && g in cache && cache[g].touched > cache[f].touched
    ensures !IsLru(cache, g)
  {}

  /** While f stays cached untouched, nothing touched later can be evicted. */
  lemma {:induction false} LaterStays(run: seq<Event>, f: Fingerprint, i: nat, k: nat, j: nat)
    requires Run(run) && i < k < j <= |run| && Touches(run, i, f) && Untouched(run, f, i, j) && f in CacheAt(run, j)
    requires run[k].op.f != f && Touches(run, k, run[k].op.f) && run[k].now > run[i].now
    ensures run[k].op.f in CacheAt(run, j) && CacheAt(run, j)[run[k].op.f].touched > run[i].now
    decreases j
  {
    assert run[j - 1].now >= run[k].now;
    assert !Touches(run, j - 1, f);
    assert j - 1 > i + 1 ==> Untouched(run, f, i, j - 1);
    hide Trimmed, Touches, Run, Steps, Untouched, IsLru;
    var g := run[k].op.f;
    UntouchedEntry(run, f, i, j);
    if k < j - 1 {
      LaterStays(run, f, i, k, j - 1);
    }
    CapacityHolds(run, j - 1);
    RunAt(run, j - 1);
    var key := StepShape(run, j - 1);
    var before, e := CacheAt(run, j - 1), run[j - 1];
    if Touches(run, j - 1, e.op.f) {
      var added := before[e.op.f := Entry(key, e.now)];
      assert g in added && added[g].touched > added[f].touched;
      LaterNotLru(added, f, g);
      TrimmedFacts(added, e.after);
    }
  }

  /** The converse: once 1000 other fingerprints have been touched later than f was last touched, f is gone. */
  lemma ManyTouchedEvict(run: seq<Event>, f: Fingerprint, i: nat, j: nat)
    requires Run(run) && i < j <= |run| && Touches(run, i, f) && Untouched(run, f, i, j)
    requires |OthersAfter(run, f, run[i].now, j)| >= CERT_CACHE_MAX_ENTRIES
    ensures f !in CacheAt(run, j)
  {
    if f in CacheAt(run, j) {
      var cache := CacheAt(run, j);
      forall g | g in OthersAfter(run, f, run[i].now, j)
        ensures g in cache.Keys - {f}
      {
        var k :| 0 <= k < j && run[k].now > run[i].now && run[k].op.f == g && g != f && Touches(run, k, g);
        LaterStays(run, f, i, k, j);
      }
      hide OthersAfter, Touches, Run, Untouched;
      assert |cache.Keys - {f}| == |cache| - 1;
      CapacityHolds(run, j);
      SubsetSize(OthersAfter(run, f, run[i].now, j), cache.Keys - {f});
    }
  }

  /** Exactly when a fingerprint survives its last touch, when nothing else was touched at that instant: while at most
      999 others have been touched since. */
  lemma LruExact(run: seq<Event>, f: Fingerprint, i: nat, j: nat)
    requires Run(run) && i < j <= |run| && Touches(run, i, f) && Untouched(run, f, i, j)
    requires forall k :: 0 <= k < j && k != i ==> run[k].now != run[i].now
    ensures f in CacheAt(run, j) <==> |OthersAfter(run, f, run[i].now, j)| < 1000
  {
    if |OthersAfter(run, f, run[i].now, j)| >= CERT_CACHE_MAX_ENTRIES {
      ManyTouchedEvict(run, f, i, j);
    } else {
      assert run[i].op.f == f;
      hide Touches, Run, Untouched;
      assert OthersSince(run, f, run[i].now, j) == OthersAfter(run, f, run[i].now, j);
      RecentlyTouchedStays(run, f, i, j);
    }
  }

  /** Both together: a fingerprint pinned at event i keeps that very key through every later event, while at most
      999 other fingerprints are touched at that time or later and nobody overwrites it; and a pin of another key in
      that time is refused. */
  lemma PinHolds(run: seq<Event>, f: Fingerprint, key: string, i: nat, j: nat)
    requires Run(run) && i < j <= |run| && run[i].op == Pin(f, key) && Touches(run, i, f)
    requires |OthersSince(run, f, run[i].now, j)| < CERT_CACHE_MAX_ENTRIES
    requires forall k :: i < k < j ==> !(run[k].op.Overwrite? && run[k].op.f == f)
    ensures f in CacheAt(run, j) && CacheAt(run, j)[f].key == key
    ensures forall other, now, after, ok :: other != key && Pins(CacheAt(run, j), f, other, now, after, ok) ==>
              !ok && after == CacheAt(run, j)
  {
    hide OthersSince, Trimmed, IsLru, Run, Touches, Steps;
    forall k | i + 1 <= k <= j
      ensures f in CacheAt(run, k)
    {
      SinceGrows(run, f, run[i].now, k, j);
      RecentlyTouchedStays(run, f, i, k);
    }
    assert Undisturbed(run, f, i + 1, j);
    FirstBindingWins(run, f, i + 1, j);
    PinBinds(run, f, key, i);
  }

  lemma PinBinds(run: seq<Event>, f: Fingerprint, key: string, i: nat)
    requires Run(run) && i < |run| && run[i].op == Pin(f, key) && Touches(run, i, f)
    requires f in run[i].after
    ensures run[i].after[f].key == key
  {
    hide Trimmed, IsLru, Run;
    RunAt(run, i);
    if f !in CacheAt(run, i) {
      TrimmedFacts(CacheAt(run, i)[f := Entry(key, run[i].now)], run[i].after);
    }
  }
}
