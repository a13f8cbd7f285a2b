/** The cache of detected runtimes under concurrent overviews and catalog swaps (aisense-core, adapter/detect.rs). */
module RuntimeCache {
  import opened Prelude

  type AdapterId = string

  /** What decides whether a cached result still holds. */
  datatype CacheKey = CacheKey(command: string, detect: Option<string>)

  datatype Adapter = Adapter(command: string, detect: Option<string>, rest: string)

  datatype Status = Available(version: string) | Missing(reason: string)

  type Catalog = map<AdapterId, Adapter>
  type Cache = map<AdapterId, (CacheKey, Status)>

  type Detector = Adapter -> Status

  /** What the cache relies on: the answer depends on how the adapter is called and detected, and on nothing else. */
  ghost predicate LooksAtKey(d: Detector) {
    forall a: Adapter, b: Adapter :: a.command == b.command && a.detect == b.detect ==> d(a) == d(b)
  }

  const NOT_CHECKED := Missing("not checked yet")

  function KeyOf(a: Adapter): CacheKey { CacheKey(a.command, a.detect) }

  // ---- The two critical sections ----

  function Retained(cache: Cache, catalog: Catalog): Cache {
    map id | id in cache && id in catalog && KeyOf(catalog[id]) == cache[id].0 :: cache[id]
  }

  predicate IsCached(cache: Cache, id: AdapterId, key: CacheKey) {
    id in cache && cache[id].0 == key
  }

  /** What an overview has to detect: all on refresh, otherwise what has no entry for its present key. */
  function Pending(catalog: Catalog, cache: Cache, refresh: bool): Catalog {
    map id | id in catalog && (refresh || !IsCached(cache, id, KeyOf(catalog[id]))) :: catalog[id]
  }

  function Detected(pending: Catalog, d: Detector): Cache {
    map id | id in pending :: (KeyOf(pending[id]), d(pending[id]))
  }

  /** The statuses shown look the id up, and not the key. */
  function Shown(catalog: Catalog, cache: Cache): map<AdapterId, Status> {
    map id | id in catalog :: if id in cache then cache[id].1 else NOT_CHECKED
  }

  /** Detecting everything from scratch. */
  function Fresh(catalog: Catalog, d: Detector): map<AdapterId, Status> {
    map id | id in catalog :: d(catalog[id])
  }

  ghost predicate Agrees(cache: Cache, d: Detector) {
    forall id, a :: id in cache && KeyOf(a) == cache[id].0 ==> cache[id].1 == d(a)
  }

  lemma DetectingWhatIsMissing(catalog: Catalog, cache: Cache, refresh: bool, d: Detector)
    requires LooksAtKey(d) && Agrees(cache, d)
    ensures var landed := cache + Detected(Pending(catalog, cache, refresh), d);
            Agrees(landed, d) && Shown(catalog, landed) == Fresh(catalog, d)
  {
  }

  class RuntimeRegistry {
    var catalog: Catalog
    var cache: Cache
    const detector: Detector

    constructor (catalog: Catalog, detector: Detector)
      ensures this.catalog == catalog && cache == map[] && this.detector == detector
    {
      this.catalog, this.cache, this.detector := catalog, map[], detector;
    }

    method SetCatalog(catalog: Catalog)
      requires Agrees(cache, detector)
      modifies this
      ensures Agrees(cache, detector)
      ensures this.catalog == catalog && cache == Retained(old(cache), catalog)
      ensures forall id :: id in cache
                <==> (id in old(cache) && id in catalog && catalog[id].command == old(cache)[id].0.command
                      && catalog[id].detect == old(cache)[id].0.detect)
      ensures forall id :: id in cache ==> cache[id] == old(cache)[id]
    {
      cache := Retained(cache, catalog);
      this.catalog := catalog;
    }

    /** With nobody in between, the answer is the fresh one, and only what had no valid entry is detected. */
    method Overview(refresh: bool) returns (shown: map<AdapterId, Status>, detected: set<AdapterId>)
      requires LooksAtKey(detector) && Agrees(cache, detector)
      modifies this`cache
      ensures Agrees(cache, detector)
      ensures shown == map id | id in catalog :: detector(catalog[id])
      ensures forall id :: id in detected
                <==> (id in catalog
                      && (refresh || id !in old(cache) || old(cache)[id].0.command != catalog[id].command
                          || old(cache)[id].0.detect != catalog[id].detect))
      ensures cache.Keys == old(cache).Keys + catalog.Keys
      ensures forall id :: id in old(cache) && id !in detected ==> cache[id] == old(cache)[id]
    {
      DetectingWhatIsMissing(catalog, cache, refresh, detector);
      assert Fresh(catalog, detector) == map id | id in catalog :: detector(catalog[id]);
      hide Fresh, Shown;
      var pending := Pending(catalog, cache, refresh);
      detected := pending.Keys;
      var found := Detected(pending, detector);
      cache := cache + found;
      shown := Shown(catalog, cache);
    }
  }

  // ---- Interleavings: detection runs without the lock ----

  type Caller = nat

  datatype State = State(catalog: Catalog, cache: Cache, flights: map<Caller, Catalog>)

  datatype Step = SetCatalog(catalog: Catalog) | Begin(o: Caller, refresh: bool) | End(o: Caller)

  predicate Enabled(s: State, step: Step) {
    match step
    case SetCatalog(_) => true
    case Begin(o, _) => o !in s.flights
    case End(o) => o in s.flights
  }

  function Landed(s: State, o: Caller, d: Detector): Cache
    requires o in s.flights
  {
    s.cache + Detected(s.flights[o], d)
  }

  function Next(s: State, step: Step, d: Detector): State
    requires Enabled(s, step)
  {
    match step
    case SetCatalog(catalog) => State(catalog, Retained(s.cache, catalog), s.flights)
    case Begin(o, refresh) => s.(flights := s.flights[o := Pending(s.catalog, s.cache, refresh)])
    case End(o) => s.(cache := Landed(s, o, d), flights := s.flights - {o})
  }

  /** What the caller gets when its overview ends. */
  function Answer(s: State, o: Caller, d: Detector): map<AdapterId, Status>
    requires o in s.flights
  {
    Shown(s.catalog, Landed(s, o, d))
  }

  ghost predicate Legal(s: State, steps: seq<Step>, d: Detector)
    decreases |steps|
  {
    steps == [] || (Enabled(s, steps[0]) && Legal(Next(s, steps[0], d), steps[1..], d))
  }

  function After(s: State, steps: seq<Step>, d: Detector): State
    requires Legal(s, steps, d)
    decreases |steps|
  {
    if steps == [] then s else After(Next(s, steps[0], d), steps[1..], d)
  }

  /** Every cached status is the detector's answer for its own key, in every interleaving. */
  lemma {:induction false} CacheAlwaysAgrees(s: State, steps: seq<Step>, d: Detector)
    requires LooksAtKey(d) && Agrees(s.cache, d) && Legal(s, steps, d)
    ensures Agrees(After(s, steps, d).cache, d)
    decreases |steps|
  {
    if steps != [] {
      CacheAlwaysAgrees(Next(s, steps[0], d), steps[1..], d);
    }
  }

  // ---- When an overview answers what fresh detection would ----

  /** Another overview is about to write an answer that is not the one for the present catalog. */
  ghost predicate StaleFlight(s: State, f: Caller, id: AdapterId, d: Detector) {
    && f in s.flights && id in s.flights[f] && id in s.catalog
    && d(s.flights[f][id]) != d(s.catalog[id])
  }

  /** Some entry this overview would take from the cache is about to be overwritten with another answer. */
  ghost predicate Endangered(s: State, refresh: bool, d: Detector) {
    exists f, id :: StaleFlight(s, f, id, d) && id !in Pending(s.catalog, s.cache, refresh)
  }

  /** `steps` happen while overview `o` is in flight, with no catalog swap. */
  ghost predicate Meanwhile(steps: seq<Step>, o: Caller) {
    forall k :: 0 <= k < |steps| ==> !steps[k].SetCatalog? && steps[k].o != o
  }

  /** What the cache and the flights promise to overview `o`. */
  ghost predicate Safe(s: State, o: Caller, d: Detector) {
    && o in s.flights
    && (forall id :: id in s.flights[o] ==> id in s.catalog && s.flights[o][id] == s.catalog[id])
    && (forall id ::
          id in s.catalog && id !in s.flights[o] ==> id in s.cache && s.cache[id].1 == d(s.catalog[id]))
    && (forall f, id :: StaleFlight(s, f, id, d) ==> id in s.flights[o])
  }

  lemma StepKeepsSafe(s: State, step: Step, o: Caller, d: Detector)
    requires Enabled(s, step) && !step.SetCatalog? && step.o != o
    requires LooksAtKey(d) && Safe(s, o, d) && Agrees(s.cache, d)
    ensures Safe(Next(s, step, d), o, d)
  {
    var s' := Next(s, step, d);
    forall f, id | StaleFlight(s', f, id, d) ensures id in s'.flights[o] {
      if !(step.Begin? && f == step.o) {
        assert StaleFlight(s, f, id, d);
      }
    }
    if step.End? {
      forall id | id in s'.catalog && id !in s'.flights[o]
          ensures id in s'.cache && s'.cache[id].1 == d(s'.catalog[id]) {
        if id in s.flights[step.o] {
          assert !StaleFlight(s, step.o, id, d);
        }
      }
    }
  }

  lemma {:induction false} SafeUntilTheEnd(s: State, steps: seq<Step>, o: Caller, d: Detector)
    requires LooksAtKey(d) && Safe(s, o, d) && Agrees(s.cache, d) && Legal(s, steps, d) && Meanwhile(steps, o)
    ensures o in After(s, steps, d).flights
    ensures Answer(After(s, steps, d), o, d) == Fresh(s.catalog, d)
    decreases |steps|
  {
    if steps != [] {
      assert !steps[0].SetCatalog? && steps[0].o != o;
      StepKeepsSafe(s, steps[0], o, d);
      assert Meanwhile(steps[1..], o) by {
        forall k | 0 <= k < |steps| - 1
            ensures !steps[1..][k].SetCatalog? && steps[1..][k].o != o { assert steps[1..][k] == steps[k + 1]; }
      }
      SafeUntilTheEnd(Next(s, steps[0], d), steps[1..], o, d);
    }
  }

  /** Every way an overview begun in `s` can end without a catalog swap. */
  ghost predicate AlwaysFresh(s: State, o: Caller, refresh: bool, d: Detector)
    requires o !in s.flights
  {
    forall steps :: Legal(Next(s, Begin(o, refresh), d), steps, d) && Meanwhile(steps, o) ==>
      var end := After(Next(s, Begin(o, refresh), d), steps, d);
      o in end.flights && Answer(end, o, d) == Fresh(s.catalog, d)
  }

  /**
   * An overview without a concurrent swap answers like fresh detection in every interleaving if
   * and only if, when it begins, no older overview still in flight will put a different answer
   * over an entry it takes from the cache.
   */
  lemma FreshIffNotEndangered(s: State, o: Caller, refresh: bool, d: Detector)
    requires LooksAtKey(d) && o !in s.flights && Agrees(s.cache, d)
    ensures AlwaysFresh(s, o, refresh, d) <==> !Endangered(s, refresh, d)
  {
    var start := Next(s, Begin(o, refresh), d);
    if !Endangered(s, refresh, d) {
      BeginIsSafe(s, o, refresh, d);
      forall steps | Legal(start, steps, d) && Meanwhile(steps, o)
        ensures o in After(start, steps, d).flights && Answer(After(start, steps, d), o, d) == Fresh(s.catalog, d)
      {
        SafeUntilTheEnd(start, steps, o, d);
      }
    } else {
      var f, id :| StaleFlight(s, f, id, d) && id !in Pending(s.catalog, s.cache, refresh);
      StaleFlightShows(s, o, refresh, d, f, id);
    }
  }

  lemma BeginIsSafe(s: State, o: Caller, refresh: bool, d: Detector)
    requires LooksAtKey(d) && o !in s.flights && Agrees(s.cache, d) && !Endangered(s, refresh, d)
    ensures Safe(Next(s, Begin(o, refresh), d), o, d)
  {
    var start := Next(s, Begin(o, refresh), d);
    forall f, id | StaleFlight(start, f, id, d) ensures id in start.flights[o] {
      if f != o { assert StaleFlight(s, f, id, d); }
    }
  }

  lemma StaleFlightShows(s: State, o: Caller, refresh: bool, d: Detector, f: Caller, id: AdapterId)
    requires o !in s.flights && StaleFlight(s, f, id, d) && id !in Pending(s.catalog, s.cache, refresh)
    ensures !AlwaysFresh(s, o, refresh, d)
  {
    var start := Next(s, Begin(o, refresh), d);
    var steps := [End(f)];
    var landed := Next(start, End(f), d);
    assert steps[1..] == [] && Legal(landed, steps[1..], d);
    assert Legal(start, steps, d) && Meanwhile(steps, o);
    assert After(start, steps, d) == After(landed, [], d) == landed;
    assert landed.cache[id].1 == d(s.flights[f][id]);
    assert id !in landed.flights[o];
    assert Answer(landed, o, d)[id] == d(s.flights[f][id]) != Fresh(s.catalog, d)[id];
  }

  /** Asking for a refresh is always answered afresh; and so is anyone when no overview outlived a swap. */
  lemma RefreshIsAlwaysFresh(s: State, o: Caller, refresh: bool, d: Detector)
    requires LooksAtKey(d) && o !in s.flights && Agrees(s.cache, d)
    requires refresh || forall f, id :: f in s.flights && id in s.flights[f] && id in s.catalog ==>
               KeyOf(s.flights[f][id]) == KeyOf(s.catalog[id])
    ensures AlwaysFresh(s, o, refresh, d)
  {
    hide AlwaysFresh;
    FreshIffNotEndangered(s, o, refresh, d);
  }

  /** Endangered states are reached: an overview begun before a swap can end after the next one's. */
  lemma AnOldOverviewEndangers(id: AdapterId, before: Adapter, after: Adapter, d: Detector)
    requires LooksAtKey(d) && d(before) != d(after)
    ensures var steps := [Begin(0, false), SetCatalog(map[id := after]), Begin(1, false), End(1)];
            var start := State(map[id := before], map[], map[]);
            && Legal(start, steps, d)
            && Endangered(After(start, steps, d), false, d)
  {
    var start := State(map[id := before], map[], map[]);
    var s1 := Next(start, Begin(0, false), d);
    var s2 := Next(s1, SetCatalog(map[id := after]), d);
    var s3 := Next(s2, Begin(1, false), d);
    var s4 := Next(s3, End(1), d);
    OneStep(s3, End(1), [], d);
    OneStep(s2, Begin(1, false), [End(1)], d);
    OneStep(s1, SetCatalog(map[id := after]), [Begin(1, false), End(1)], d);
    OneStep(start, Begin(0, false), [SetCatalog(map[id := after]), Begin(1, false), End(1)], d);
    assert StaleFlight(s4, 0, id, d) && id !in Pending(s4.catalog, s4.cache, false);
  }

  /** An adapter that came with a swap during the overview is shown as missing, until the next one asks. */
  lemma NewAdapterIsNotChecked(id: AdapterId, a: Adapter, d: Detector)
    ensures var start := State(map[], map[], map[]);
            var steps := [Begin(0, false), SetCatalog(map[id := a])];
            && Legal(start, steps, d) && 0 in After(start, steps, d).flights
            && Answer(After(start, steps, d), 0, d) == map[id := Missing("not checked yet")]
  {
    var start := State(map[], map[], map[]);
    var s1 := Next(start, Begin(0, false), d);
    var s2 := Next(s1, SetCatalog(map[id := a]), d);
    OneStep(s1, SetCatalog(map[id := a]), [], d);
    OneStep(start, Begin(0, false), [SetCatalog(map[id := a])], d);
    assert s2.cache == map[] && s2.flights[0] == map[];
    assert Answer(s2, 0, d) == map[id := NOT_CHECKED];
  }

  lemma OneStep(s: State, step: Step, later: seq<Step>, d: Detector)
    requires Enabled(s, step) && Legal(Next(s, step, d), later, d)
    ensures Legal(s, [step] + later, d) && After(s, [step] + later, d) == After(Next(s, step, d), later, d)
  {
    hide Enabled, Next;
    assert ([step] + later)[1..] == later;
  }
}
