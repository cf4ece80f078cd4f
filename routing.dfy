/**
 * Workflow control: fan-out of search tasks (`continue_to_web_research`), the reflection
 * state update (`reflection`), and the routing rule after reflection (`evaluate_research`).
 * The model calls are parameters: the query list and the reflection verdict.
 */
module Routing {
  import opened Wrappers
  import opened Retry

  const WebResearchNode := "web_research"

  /** A LangGraph `Send`: run `node` with the given search query and task id. */
  datatype Send = Send(node: string, searchQuery: string, id: int)

  /** Where the graph goes after reflection. */
  datatype Route = ToFinalizeAnswer | ToWebResearch(sends: seq<Send>)

  /** One `web_research` dispatch per query, in order, with ids `base`, `base + 1`, ... */
  function FanOut(queries: seq<string>, base: int): seq<Send> {
    seq(|queries|, i requires 0 <= i < |queries| => Send(WebResearchNode, queries[i], base + i))
  }

  /** The initial round: one `web_research` dispatch per generated query, in order, query
      `i` with id `i`. */
  function ContinueToWebResearch(searchQuery: seq<string>): (sends: seq<Send>)
    ensures |sends| == |searchQuery|
    ensures forall i :: 0 <= i < |sends| ==> sends[i] == Send(WebResearchNode, searchQuery[i], i)
  {
    FanOut(searchQuery, 0)
  }

  /** Each query is dispatched once, in order, to `web_research`, with ids `base` up to
      `base + n - 1` increasing along the list, so no two tasks of a round share an id. */
  lemma FanOutDispatch(queries: seq<string>, base: int)
    ensures var sends := FanOut(queries, base);
      && |sends| == |queries|
      && (forall i :: 0 <= i < |sends| ==>
            && sends[i].node == WebResearchNode
            && sends[i].searchQuery == queries[i]
            && base <= sends[i].id < base + |queries|)
      && (forall i, j :: 0 <= i < j < |sends| ==> sends[i].id < sends[j].id)
  {
  }

  /** The fields of the state `evaluate_research` reads. */
  datatype ReflectionState = ReflectionState(
    isSufficient: bool,
    followUpQueries: seq<string>,
    researchLoopCount: Option<int>,
    numberOfRanQueries: int,
    maxResearchLoops: Option<int>)

  /** The loop limit: the state's value when present, otherwise the configuration's. */
  function MaxLoops(state: ReflectionState, configMaxLoops: int): int {
    if state.maxResearchLoops.Some? then state.maxResearchLoops.value else configMaxLoops
  }

  /** `evaluate_research`: finalize when the research is sufficient or the loop count
      (default 0) has reached the limit, otherwise fan out the follow-up queries with ids
      continuing from `number_of_ran_queries`. */
  function EvaluateResearch(state: ReflectionState, configMaxLoops: int): (r: Route)
    ensures r.ToFinalizeAnswer? <==>
      state.isSufficient || state.researchLoopCount.GetOr(0) >= MaxLoops(state, configMaxLoops)
    ensures r.ToWebResearch? ==>
      |r.sends| == |state.followUpQueries|
      && forall i :: 0 <= i < |r.sends| ==>
           r.sends[i] == Send(WebResearchNode, state.followUpQueries[i], state.numberOfRanQueries + i)
  {
    if state.isSufficient || state.researchLoopCount.GetOr(0) >= MaxLoops(state, configMaxLoops) then
      ToFinalizeAnswer
    else
      ToWebResearch(FanOut(state.followUpQueries, state.numberOfRanQueries))
  }

  /** Reaching the loop limit finalizes even when the research is judged insufficient. */
  lemma LimitReachedFinalizes()
    ensures EvaluateResearch(ReflectionState(false, ["q"], Some(2), 3, None), 2) == ToFinalizeAnswer
    ensures EvaluateResearch(ReflectionState(false, ["q"], Some(2), 3, Some(3)), 2).ToWebResearch?
  {
  }

  // ---------------------------------------------------------------------------
  // Reflection

  /** The structured verdict of the reflection model. */
  datatype Verdict = Verdict(isSufficient: bool, knowledgeGap: string, followUpQueries: seq<string>)

  /** The partial state update `reflection` returns. */
  datatype ReflectionUpdate = ReflectionUpdate(
    isSufficient: bool,
    knowledgeGap: string,
    followUpQueries: seq<string>,
    researchLoopCount: int,
    numberOfRanQueries: nat)

  /** The loop counter after one reflection: the old value (default 0) plus one. */
  function NextLoopCount(count: Option<int>): int {
    count.GetOr(0) + 1
  }

  function UpdateOf(v: Verdict, count: int, ranQueries: nat): ReflectionUpdate {
    ReflectionUpdate(v.isSufficient, v.knowledgeGap, v.followUpQueries, count, ranQueries)
  }

  /** The state dict `reflection` receives; it writes the loop counter into it in place. */
  class ResearchState {
    var researchLoopCount: Option<int>
    var searchQuery: seq<string>

    constructor (researchLoopCount: Option<int>, searchQuery: seq<string>)
      ensures this.researchLoopCount == researchLoopCount && this.searchQuery == searchQuery
    {
      this.researchLoopCount := researchLoopCount;
      this.searchQuery := searchQuery;
    }

    /** One call of `reflection`: the counter is incremented in the state before the model
        call, whose outcome `llm` is given; on success the update carries the new counter
        and the number of queries run so far. */
    method ReflectAttempt(llm: Attempt<Verdict>) returns (r: Attempt<ReflectionUpdate>)
      modifies this`researchLoopCount
      ensures researchLoopCount == Some(NextLoopCount(old(researchLoopCount)))
      ensures llm.Failed? ==> r == Failed(llm.error)
      ensures llm.Succeeded? ==>
        r == Succeeded(UpdateOf(llm.value, NextLoopCount(old(researchLoopCount)), |searchQuery|))
    {
      researchLoopCount := Some(researchLoopCount.GetOr(0) + 1);
      match llm
      case Failed(e) =>
        r := Failed(e);
      case Succeeded(v) =>
        r := Succeeded(ReflectionUpdate(v.isSufficient, v.knowledgeGap, v.followUpQueries,
                                        researchLoopCount.value, |searchQuery|));
    }

    /** `reflection` under the retry wrapper: every attempt increments the counter again,
        so after the wrapper the counter has grown by the number of calls made, and a
        success after retries reports that inflated count. */
    method RetriedReflection(maxRetries: int, llm: nat -> Attempt<Verdict>)
      returns (r: RetryResult<ReflectionUpdate>, calls: nat)
      modifies this`researchLoopCount
      ensures calls == RetryFrom(maxRetries, llm, 0).1
      ensures calls == 0 ==> researchLoopCount == old(researchLoopCount)
      ensures calls > 0 ==> researchLoopCount == Some(old(researchLoopCount).GetOr(0) + calls)
      ensures match RetryFrom(maxRetries, llm, 0).0
        case Returned(v) => r == Returned(UpdateOf(v, old(researchLoopCount).GetOr(0) + calls, |searchQuery|))
        case Raised(e) => r == Raised(e)
        case ReturnedNone => r == ReturnedNone
    {
      calls := 0;
      ghost var start := old(researchLoopCount).GetOr(0);
      var hi := if maxRetries < 0 then 0 else maxRetries;
      for attempt := 0 to hi
        invariant calls == attempt
        invariant maxRetries > 0 ==> attempt <= maxRetries - 1
        invariant RetryFrom(maxRetries, llm, attempt) == RetryFrom(maxRetries, llm, 0)
        invariant calls == 0 ==> researchLoopCount == old(researchLoopCount)
        invariant calls > 0 ==> researchLoopCount == Some(start + calls)
      {
        calls := calls + 1;
        var call := llm(attempt);
        var outcome := ReflectAttempt(call);
        assert researchLoopCount == Some(start + calls);
        match outcome
        case Succeeded(u) =>
          assert u == UpdateOf(call.value, start + calls, |searchQuery|);
          assert RetryFrom(maxRetries, llm, attempt) == (Returned(call.value), calls);
          r := Returned(u);
          return;
        case Failed(e) =>
          assert call == Failed(e);
          if Transient(e) {
            if attempt == maxRetries - 1 {
              r := Raised(e);
              return;
            }
          } else {
            r := Raised(e);
            return;
          }
      }
      r := ReturnedNone;
    }
  }

  // ---------------------------------------------------------------------------
  // Termination of the research loop

  function Max(a: int, b: int): int {
    if a >= b then a else b
  }

  /** How the research loop ends after `reflections` rounds: the graph routes to
      `finalize_answer`, or it stops because an insufficient verdict below the limit asked
      for no follow-up queries, so no `web_research` task runs and `reflection` is never
      reached again. */
  datatype LoopEnd = Finalized(reflections: nat) | Stalled(reflections: nat)

  function AddRound(r: LoopEnd): LoopEnd {
    match r
    case Finalized(k) => Finalized(k + 1)
    case Stalled(k) => Stalled(k + 1)
  }

  /** The research loop from loop count `count`, when the verdict at the n-th loop count is
      `sufficient(n)` with follow-up queries `followUps(n)`. Each round is the single-attempt
      counter update, the routing rule, and, when it fans out, one more round. Every round
      before the last continued (insufficient, under the limit, with follow-ups); the last
      one finalized (sufficient or at the limit) or stalled (neither, with no follow-ups);
      at most max(1, max loops - count) rounds run. */
  function ResearchLoopEnd(count: int, maxLoops: int, sufficient: int -> bool,
                           followUps: int -> seq<string>): (r: LoopEnd)
    ensures 1 <= r.reflections <= Max(1, maxLoops - count)
    ensures forall n :: count < n < count + r.reflections ==>
              !sufficient(n) && n < maxLoops && followUps(n) != []
    ensures var last := count + r.reflections;
            r.Finalized? <==> sufficient(last) || last >= maxLoops
    ensures var last := count + r.reflections;
            r.Stalled? ==> followUps(last) == []
    decreases maxLoops - count
  {
    var next := NextLoopCount(Some(count));
    var state := ReflectionState(sufficient(next), followUps(next), Some(next), 0, None);
    match EvaluateResearch(state, maxLoops)
    case ToFinalizeAnswer => Finalized(1)
    case ToWebResearch(sends) =>
      if sends == [] then Stalled(1)
      else AddRound(ResearchLoopEnd(next, maxLoops, sufficient, followUps))
  }

  /** When no verdict is ever sufficient and every verdict asks for follow-up queries, the
      loop runs exactly max(1, max loops - count) reflections and then finalizes: from a
      fresh state (count 0), max(1, max_research_loops). */
  lemma {:induction false} NeverSufficientRunsToLimit(count: int, maxLoops: int, sufficient: int -> bool,
                                                      followUps: int -> seq<string>)
    requires forall n :: !sufficient(n)
    requires forall n :: followUps(n) != []
    ensures ResearchLoopEnd(count, maxLoops, sufficient, followUps) == Finalized(Max(1, maxLoops - count))
    decreases maxLoops - count
  {
    var next := NextLoopCount(Some(count));
    if next < maxLoops {
      NeverSufficientRunsToLimit(next, maxLoops, sufficient, followUps);
    }
  }

  /** An insufficient verdict under the limit with no follow-up queries ends the loop there,
      without reaching `finalize_answer`. */
  lemma NoFollowUpsStalls(count: int, maxLoops: int, sufficient: int -> bool,
                          followUps: int -> seq<string>)
    requires !sufficient(count + 1) && count + 1 < maxLoops && followUps(count + 1) == []
    ensures ResearchLoopEnd(count, maxLoops, sufficient, followUps) == Stalled(1)
  {
  }
}
