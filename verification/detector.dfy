/** The change detector and one polling cycle of `loop`. */
module Detector {
  import opened Posts
  import opened Linker
  import opened WellFormedness

  /** Number of DOM queries made before the cycle gives up on an empty post list. */
  const MaxRetries := 10

  /** Engine state kept between cycles for the current location path. */
  datatype Engine = Engine(lastFirstPostId: string, lastLastPostId: string, caches: Caches)

  /** The state a fresh location path starts from: no boundary ids, empty caches. */
  const InitialEngine := Engine("", "", EmptyCaches)

  /** The starting state is well formed, so `CycleKeepsWellFormed` covers every state a
      run of cycles reaches. */
  lemma InitialEngineIsWellFormed()
    ensures WellFormed(InitialEngine.caches)
  {
  }

  /** What the change detector decides for a non-empty window. */
  datatype Detection =
    | Skip
      /** parse, with the state to parse from; `forced` when the counter counts disagreed */
    | Parse(forced: bool, next: Engine)

  /** How a cycle ended. */
  datatype Outcome = NoPosts | Unchanged | Parsed(forced: bool)

  datatype CycleResult = CycleResult(outcome: Outcome, engine: Engine)

  /** The retry loop: `observe[k]` is what the post query returns on attempt `k`. The
      cycle stops at the first non-empty answer or after ten empty ones; the counter then
      reads -1 exactly when no post was found, so the two tests that end the cycle early
      agree. */
  method Probe(observe: seq<seq<Post>>) returns (posts: seq<Post>, retries: int)
    requires |observe| >= MaxRetries
    ensures retries == -1 <==> |posts| == 0
    ensures |posts| == 0 <==> forall k :: 0 <= k < MaxRetries ==> |observe[k]| == 0
    ensures |posts| > 0 ==>
      exists k :: 0 <= k < MaxRetries && posts == observe[k] && forall j :: 0 <= j < k ==> |observe[j]| == 0
  {
    posts := [];
    retries := MaxRetries;
    var attempt := 0;
    while |posts| == 0 && retries > 0
      invariant 0 <= retries <= MaxRetries
      invariant attempt == MaxRetries - retries
      invariant |posts| == 0 ==> forall j :: 0 <= j < attempt ==> |observe[j]| == 0
      invariant |posts| > 0 ==>
        && 0 < attempt
        && posts == observe[attempt - 1]
        && forall j :: 0 <= j < attempt - 1 ==> |observe[j]| == 0
    {
      retries := retries - 1;
      posts := observe[attempt];
      attempt := attempt + 1;
    }
    if |posts| == 0 {
      // the failing `retries-- > 0` test still decrements the counter
      retries := retries - 1;
    } else {
      assert 0 <= attempt - 1 < MaxRetries && posts == observe[attempt - 1];
    }
  }

  /** The change detector, for a non-empty window: a mismatch between the number of
      native reply counters and injected counters empties both caches and forces a parse;
      otherwise unchanged boundary post ids skip the cycle; any parse records the new
      boundary ids. */
  function Detect(e: Engine, window: seq<Post>, nativeCounters: nat, injectedCounters: nat): (r: Detection)
    requires |window| > 0
    ensures r.Skip? <==>
      nativeCounters == injectedCounters
      && window[0].id == e.lastFirstPostId
      && window[|window| - 1].id == e.lastLastPostId
    ensures r.Parse? ==> r.forced == (nativeCounters != injectedCounters)
    ensures r.Parse? ==>
      && r.next.lastFirstPostId == window[0].id
      && r.next.lastLastPostId == window[|window| - 1].id
    ensures r.Parse? && r.forced ==> r.next.caches == EmptyCaches
    ensures r.Parse? && !r.forced ==> r.next.caches == e.caches
  {
    var forced := nativeCounters != injectedCounters;
    var caches := if forced then EmptyCaches else e.caches;
    var firstId := window[0].id;
    var lastId := window[|window| - 1].id;
    if !forced && firstId == e.lastFirstPostId && lastId == e.lastLastPostId then Skip
    else Parse(forced, Engine(firstId, lastId, caches))
  }

  /** One cycle of `loop` after probing: nothing happens without posts; otherwise the
      detector decides and, on a parse, the pass runs over the window. */
  function Cycle(e: Engine, window: seq<Post>, nativeCounters: nat, injectedCounters: nat): (r: CycleResult)
    ensures |window| == 0 ==> r == CycleResult(NoPosts, e)
    ensures |window| > 0 ==> !r.outcome.NoPosts?
    ensures |window| > 0 ==>
      (r.outcome.Unchanged? <==>
        nativeCounters == injectedCounters
        && window[0].id == e.lastFirstPostId
        && window[|window| - 1].id == e.lastLastPostId)
    ensures r.outcome.Parsed? ==> r.outcome.forced == (nativeCounters != injectedCounters)
    ensures r.outcome.Unchanged? ==> r.engine == e
    ensures |window| > 0 && r.outcome.Parsed? ==>
      && r.engine.lastFirstPostId == window[0].id
      && r.engine.lastLastPostId == window[|window| - 1].id
    ensures r.outcome.Parsed? && r.outcome.forced ==> r.engine.caches == Pass(EmptyCaches, window)
    ensures r.outcome.Parsed? && !r.outcome.forced ==> r.engine.caches == Pass(e.caches, window)
  {
    if |window| == 0 then CycleResult(NoPosts, e)
    else
      match Detect(e, window, nativeCounters, injectedCounters)
      case Skip => CycleResult(Unchanged, e)
      case Parse(forced, next) =>
        CycleResult(Parsed(forced), next.(caches := Pass(next.caches, window)))
  }

  /** A second cycle over the same window, with the counter counts in agreement, does
      nothing: whatever the first cycle did, it left the window's boundary ids recorded. */
  lemma CycleIsIdempotent(e: Engine, window: seq<Post>, native: nat, injected: nat, counters: nat)
    requires |window| > 0
    ensures var first := Cycle(e, window, native, injected);
      Cycle(first.engine, window, counters, counters) == CycleResult(Unchanged, first.engine)
  {
  }

  /** Every cycle keeps the caches well formed. */
  lemma CycleKeepsWellFormed(e: Engine, window: seq<Post>, native: nat, injected: nat)
    requires WellFormed(e.caches)
    ensures WellFormed(Cycle(e, window, native, injected).engine.caches)
  {
    if |window| > 0 {
      PassKeepsWellFormed(e.caches, window);
      PassKeepsWellFormed(EmptyCaches, window);
    }
  }

  /** After a forced cycle the caches hold only what the window itself shows: every root
      record is a root post of the window and every recorded reply is a reply of it. */
  lemma ForcedCycleKeepsOnlyWindowPosts(e: Engine, window: seq<Post>, native: nat, injected: nat)
    requires |window| > 0 && native != injected
    ensures var r := Cycle(e, window, native, injected);
      && r.outcome == Parsed(true)
      && WellFormed(r.engine.caches)
      && (forall j :: 0 <= j < |r.engine.caches.roots| ==> ShowsRoot(window, r.engine.caches.roots[j].id))
      && (forall i :: 0 <= i < |r.engine.caches.postsReplies| ==> ShowsReply(window, r.engine.caches.postsReplies[i]))
  {
    PassKeepsWellFormed(EmptyCaches, window);
    PassGrows(EmptyCaches, window);
  }
}
