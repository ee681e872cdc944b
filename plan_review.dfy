/**
 * The plan-review coordinator: it gives a review an id, announces it to the
 * sidebar and remote clients, waits in the registry until a surface answers
 * or the agent cancels, maps the answer to the agent's status vocabulary,
 * records it in the session history, announces completion, and cleans up.
 *
 * The JavaScript runtime is single-threaded and cooperative, so what can
 * happen while a review waits is given as a trace of events, in order. The
 * collaborators (webview provider, history) are a log of the calls made to
 * them; a collaborator call that throws is named by a `Fault`.
 */
module PlanReview {

  import opened Wrappers
  import opened JsString
  import opened PlanReviewTypes
  import opened PlanReviewRegistry

  // ---------------------------------------------------------------------
  // Review ids: "pr_" + Date.now() in decimal + "_" + random base-36 text
  // ---------------------------------------------------------------------

  function DigitChar(d: nat): (c: char)
    requires d < 10
    ensures '0' <= c <= '9'
  {
    (('0' as int) + d) as char
  }

  /** The decimal rendering JavaScript gives a non-negative integer. */
  function Decimal(n: nat): (s: string)
    ensures |s| > 0
    ensures forall i :: 0 <= i < |s| ==> '0' <= s[i] <= '9'
  {
    if n < 10 then [DigitChar(n)] else Decimal(n / 10) + [DigitChar(n % 10)]
  }

  /** Reads a string of decimal digits back as a number. */
  function DecimalValue(s: string): nat
    requires forall i :: 0 <= i < |s| ==> '0' <= s[i] <= '9'
  {
    if s == [] then 0
    else DecimalValue(s[..|s| - 1]) * 10 + (s[|s| - 1] as int - '0' as int)
  }

  lemma {:induction false} DecimalRoundTrip(n: nat)
    ensures DecimalValue(Decimal(n)) == n
  {
    if n >= 10 {
      var s := Decimal(n);
      assert s[..|s| - 1] == Decimal(n / 10);
      DecimalRoundTrip(n / 10);
    }
  }

  /**
   * `generateReviewId`: the clock reading and the random text are
   * parameters, since neither can be modelled.
   */
  function GenerateReviewId(now: nat, entropy: string): (id: string)
    ensures StartsWith(id, "pr_")
  {
    "pr_" + Decimal(now) + "_" + entropy
  }

  /** A separator that occurs in neither head splits two joined strings the same way. */
  lemma SplitAtSeparator(a: string, b: string, c: string, d: string)
    requires '_' !in a && '_' !in c
    requires a + "_" + b == c + "_" + d
    ensures a == c && b == d
  {
    var x := a + "_" + b;
    assert x == c + "_" + d;
    assert x[|a|] == '_' && x[|c|] == '_';
    assert forall i :: 0 <= i < |a| ==> x[i] == a[i] != '_';
    assert forall i :: 0 <= i < |c| ==> x[i] == c[i] != '_';
    assert |a| == |c|;
    assert a == x[..|a|] == c;
    assert b == x[|a| + 1..] == d;
  }

  /**
   * Ids taken at different clock readings, or with different random text,
   * never coincide: the id determines both.
   */
  lemma ReviewIdDeterminesParts(now1: nat, entropy1: string, now2: nat, entropy2: string)
    requires GenerateReviewId(now1, entropy1) == GenerateReviewId(now2, entropy2)
    ensures now1 == now2 && entropy1 == entropy2
  {
    var d1, d2 := Decimal(now1), Decimal(now2);
    assert '_' !in d1 && '_' !in d2;
    assert "pr_" + d1 + "_" + entropy1 == "pr_" + (d1 + "_" + entropy1);
    assert "pr_" + d2 + "_" + entropy2 == "pr_" + (d2 + "_" + entropy2);
    assert d1 + "_" + entropy1 == d2 + "_" + entropy2 by {
      var x := GenerateReviewId(now1, entropy1);
      assert d1 + "_" + entropy1 == x[3..];
      assert d2 + "_" + entropy2 == x[3..];
    }
    SplitAtSeparator(d1, entropy1, d2, entropy2);
    DecimalRoundTrip(now1);
    DecimalRoundTrip(now2);
  }

  // ---------------------------------------------------------------------
  // Status mapping
  // ---------------------------------------------------------------------

  /** The names accepted by the `includes` test, read back as statuses (the `as` cast). */
  function ParseStatus(name: string): (s: Option<ReviewStatus>)
    ensures s.Some? ==> StatusName(s.value) == name
  {
    if name == "approved" then Some(Approved)
    else if name == "approvedWithComments" then Some(ApprovedWithComments)
    else if name == "recreateWithChanges" then Some(RecreateWithChanges)
    else if name == "cancelled" then Some(Cancelled)
    else None
  }

  lemma ParseStatusName(s: ReviewStatus)
    ensures ParseStatus(StatusName(s)) == Some(s)
  {
  }

  /**
   * The action a surface reported, as the agent's status: the three
   * approving actions keep their name, and every other string (`closed`,
   * `cancelledByUser`, anything unknown) becomes `cancelled`.
   */
  function MapStatus(action: string): (s: ReviewStatus)
    ensures s != Cancelled ==> StatusName(s) == action
    ensures s == Cancelled <==>
              action != ActionApproved && action != ActionApprovedWithComments && action != ActionRecreateWithChanges
  {
    match ParseStatus(action)
    case Some(status) => status
    case None => Cancelled
  }

  /** `params.title || 'Plan Review'`: an absent or empty title gets the default. */
  function ReviewTitle(title: Option<string>): (t: string)
    ensures t != ""
    ensures title.Some? && title.value != "" ==> t == title.value
    ensures title.None? || title.value == "" ==> t == "Plan Review"
  {
    match title
    case Some(s) => if s != "" then s else "Plan Review"
    case None => "Plan Review"
  }

  // ---------------------------------------------------------------------
  // The lifecycle of one review
  // ---------------------------------------------------------------------

  /** What can happen while a review waits. */
  datatype Event =
    | SurfaceResolve(reviewId: string, result: PanelResult)  // a surface calls resolvePlanReview
    | Cancel                                                  // the agent's token fires

  /** The calls made to the webview provider. */
  datatype Effect =
    | AnnouncePending(reviewId: string, title: string, plan: string)
    | RecordHistory(reviewId: string, title: string, status: ReviewStatus, plan: string,
                    requiredRevisions: seq<RequiredPlanRevision>)
    | AnnounceCompleted(reviewId: string, status: ReviewStatus)

  /** Which collaborator call, if any, throws. */
  datatype Fault = NoFault | AnnouncePendingFails | RecordFails | AnnounceCompletedFails

  /** A review either returned its result or is still waiting when the trace ends. */
  datatype Run = Returned(result: ToolResult) | Waiting

  datatype Outcome = Outcome(run: Run, effects: seq<Effect>, consumed: nat)

  /** The result the cancellation handler delivers. */
  const ClosedResult: PanelResult := PanelResult(ActionClosed, [])

  /** The events that end the wait of review `id`: an answer for it, or cancellation. */
  predicate EndsWait(e: Event, id: string) {
    e.Cancel? || (e.SurfaceResolve? && e.reviewId == id)
  }

  /** The index of the first event that ends the wait of review `id`. */
  function FirstEnding(events: seq<Event>, id: string): (r: Option<nat>)
    ensures r.Some? ==> r.value < |events| && EndsWait(events[r.value], id)
    ensures r.Some? ==> forall j :: 0 <= j < r.value ==> !EndsWait(events[j], id)
    ensures r.None? ==> forall j :: 0 <= j < |events| ==> !EndsWait(events[j], id)
  {
    if |events| == 0 then None
    else if EndsWait(events[0], id) then Some(0)
    else match FirstEnding(events[1..], id)
      case None => None
      case Some(k) => Some(k + 1)
  }

  lemma FirstEndingAt(events: seq<Event>, id: string, k: nat)
    requires k < |events| && EndsWait(events[k], id)
    requires forall j :: 0 <= j < k ==> !EndsWait(events[j], id)
    ensures FirstEnding(events, id) == Some(k)
  {
  }

  /** The result the continuation receives from an event that ends the wait. */
  function Delivered(e: Event): PanelResult {
    match e
    case SurfaceResolve(_, r) => r
    case Cancel => ClosedResult
  }

  /** The first answer a surface gives for review `k` in `events`, if any. */
  function FirstAnswer(events: seq<Event>, k: string): (r: Option<PanelResult>)
    ensures r.Some? <==> exists j :: 0 <= j < |events| && events[j].SurfaceResolve? && events[j].reviewId == k
  {
    if |events| == 0 then None
    else
      var e := events[|events| - 1];
      match FirstAnswer(events[..|events| - 1], k)
      case Some(r) => Some(r)
      case None => if e.SurfaceResolve? && e.reviewId == k then Some(e.result) else None
  }

  /** The result returned once review `id` has received `r`: `cancelled` if a later collaborator call threw. */
  function FinalResult(hasProvider: bool, id: string, r: PanelResult, fault: Fault): ToolResult {
    if hasProvider && fault != NoFault then ToolResult(Cancelled, [], id)
    else ToolResult(MapStatus(r.action), r.requiredRevisions, id)
  }

  /** The calls made once review `id` has received `r`: the history record, then the completion announcement. */
  function CompletionCalls(plan: string, title: string, hasProvider: bool, id: string, r: PanelResult,
                           fault: Fault): seq<Effect>
  {
    if !hasProvider then []
    else [RecordHistory(id, title, MapStatus(r.action), plan, r.requiredRevisions)]
         + (if fault == RecordFails then [] else [AnnounceCompleted(id, MapStatus(r.action))])
  }

  /**
   * What review `id` does once it is announced and registered: wait for the
   * first event that ends the wait, then record and announce the result.
   */
  function AwaitAndFinish(plan: string, title: string, hasProvider: bool, id: string, events: seq<Event>,
                          fault: Fault): (o: Outcome)
    ensures o.consumed <= |events|
    ensures o.run.Waiting? <==> FirstEnding(events, id).None?
    ensures o.run.Waiting? ==> o.effects == [] && o.consumed == |events|
    ensures o.run.Returned? ==> o.consumed == FirstEnding(events, id).value + 1 && o.run.result.reviewId == id
  {
    match FirstEnding(events, id)
    case None => Outcome(Waiting, [], |events|)
    case Some(k) =>
      var r := Delivered(events[k]);
      var cancelNotice := if hasProvider && events[k].Cancel? then [AnnounceCompleted(id, Cancelled)] else [];
      Outcome(Returned(FinalResult(hasProvider, id, r, fault)),
              cancelNotice + CompletionCalls(plan, title, hasProvider, id, r, fault),
              k + 1)
  }

  /**
   * The specification of `planReview`: what a review with id `id` returns,
   * which collaborator calls it makes, and how many events it consumes.
   */
  function Lifecycle(plan: string, title: Option<string>, alreadyCancelled: bool, hasProvider: bool,
                     id: string, events: seq<Event>, fault: Fault): (o: Outcome)
    ensures o.consumed <= |events|
    ensures alreadyCancelled ==> o.effects == [] && o.consumed == 0 && o.run == Returned(ToolResult(Cancelled, [], ""))
    ensures !alreadyCancelled && hasProvider
            ==> |o.effects| > 0 && o.effects[0] == AnnouncePending(id, ReviewTitle(title), plan)
    ensures !alreadyCancelled && o.run.Returned? ==> o.run.result.reviewId == id
  {
    if alreadyCancelled then Outcome(Returned(ToolResult(Cancelled, [], "")), [], 0)
    else
      var t := ReviewTitle(title);
      var announced := if hasProvider then [AnnouncePending(id, t, plan)] else [];
      if hasProvider && fault == AnnouncePendingFails then
        Outcome(Returned(ToolResult(Cancelled, [], id)), announced, 0)
      else
        var rest := AwaitAndFinish(plan, t, hasProvider, id, events, fault);
        Outcome(rest.run, announced + rest.effects, rest.consumed)
  }

  /**
   * The cancellation handler: if the review is still waiting, deliver a
   * `closed` result to it and drop its entry; in any case announce that it
   * completed as cancelled.
   */
  method OnCancellation(reg: Registry, id: string, hasProvider: bool) returns (broadcast: seq<Effect>)
    requires reg.Valid()
    modifies reg, if id in reg.entries then {reg.entries[id]} else {}
    ensures reg.Valid()
    ensures reg.entries == old(reg.entries) - {id}
    ensures id in old(reg.entries) ==> old(reg.entries)[id].result == Some(ClosedResult)
    ensures broadcast == if hasProvider then [AnnounceCompleted(id, Cancelled)] else []
  {
    var _ := reg.Resolve(id, ClosedResult);
    broadcast := if hasProvider then [AnnounceCompleted(id, Cancelled)] else [];
  }

  /** Extending the trace by one event can only add the answer that event gives. */
  lemma FirstAnswerAppend(events: seq<Event>, e: Event, k: string)
    ensures FirstAnswer(events + [e], k) ==
              if FirstAnswer(events, k).Some? then FirstAnswer(events, k)
              else if e.SurfaceResolve? && e.reviewId == k then Some(e.result)
              else None
  {
    assert (events + [e])[..|events|] == events;
  }

  /**
   * How the registry stands after the events `evs`, for every review other
   * than `id`, compared with the table `before` they started from: an entry
   * is gone exactly when some surface answered it, the entries left are the
   * ones that were there, and each answered continuation holds the first
   * answer given for it.
   */
  ghost predicate OthersFollow(entries: map<string, Slot>, before: map<string, Slot>, id: string, evs: seq<Event>)
    reads before.Values
  {
    && (forall k | k != id :: k in entries <==> k in before && FirstAnswer(evs, k).None?)
    && (forall k | k in entries && k != id :: entries[k] == before[k])
    && (forall k | k in before && k != id && k !in entries :: before[k].result == FirstAnswer(evs, k))
  }

  /** Neither the review's own entry nor its presence in `before` matters to the others. */
  lemma OthersFollowForgetsOwn(entries: map<string, Slot>, before: map<string, Slot>, id: string, slot: Slot, evs: seq<Event>)
    requires id !in before
    requires OthersFollow(entries, before[id := slot], id, evs)
    ensures OthersFollow(entries, before, id, evs)
  {
  }

  /** One event while review `id` waits. */
  method ProcessEvent(reg: Registry, id: string, slot: Slot, e: Event, hasProvider: bool,
                      ghost before: map<string, Slot>, ghost evs: seq<Event>)
    returns (notices: seq<Effect>)
    requires reg.Valid() && id in reg.entries && reg.entries[id] == slot && slot.result.None?
    requires OthersFollow(reg.entries, before, id, evs)
    modifies reg, if e.SurfaceResolve? && e.reviewId in reg.entries then {reg.entries[e.reviewId]} else {slot}
    ensures reg.Valid()
    ensures id in reg.entries <==> slot.result.None?
    ensures id in reg.entries ==> reg.entries[id] == slot
    ensures slot.result == if EndsWait(e, id) then Some(Delivered(e)) else None
    ensures notices == if hasProvider && e.Cancel? then [AnnounceCompleted(id, Cancelled)] else []
    ensures OthersFollow(reg.entries, before, id, evs + [e])
  {
    forall k
      ensures FirstAnswer(evs + [e], k) ==
                if FirstAnswer(evs, k).Some? then FirstAnswer(evs, k)
                else if e.SurfaceResolve? && e.reviewId == k then Some(e.result)
                else None
    {
      FirstAnswerAppend(evs, e, k);
    }
    match e {
      case SurfaceResolve(rid, r) =>
        var _ := reg.Resolve(rid, r);
        notices := [];
      case Cancel =>
        notices := OnCancellation(reg, id, hasProvider);
    }
  }

  /**
   * The `await` of `planReview`: events are processed in order until one
   * ends the wait of review `id`, filling its slot. Answers for other
   * reviews resolve those reviews; the cancellation handler runs on `Cancel`.
   */
  method AwaitResolution(reg: Registry, id: string, slot: Slot, events: seq<Event>, hasProvider: bool)
    returns (notices: seq<Effect>, consumed: nat)
    requires reg.Valid() && id in reg.entries && reg.entries[id] == slot && slot.result.None?
    modifies reg, reg.entries.Values
    ensures reg.Valid()
    ensures id in reg.entries <==> slot.result.None?
    ensures consumed <= |events|
    ensures FirstEnding(events, id).None? ==> slot.result.None? && consumed == |events| && notices == []
    ensures FirstEnding(events, id).Some? ==>
              var k := FirstEnding(events, id).value;
              && consumed == k + 1 && slot.result == Some(Delivered(events[k]))
              && notices == if hasProvider && events[k].Cancel? then [AnnounceCompleted(id, Cancelled)] else []
    ensures OthersFollow(reg.entries, old(reg.entries), id, events[..consumed])
  {
    ghost var before := reg.entries;
    assert events[..0] == [];
    notices := [];
    var i := 0;
    while slot.result.None? && i < |events|
      invariant i <= |events|
      invariant reg.Valid()
      invariant id in reg.entries <==> slot.result.None?
      invariant id in reg.entries ==> reg.entries[id] == slot
      invariant slot.result.None? ==> notices == [] && forall j :: 0 <= j < i ==> !EndsWait(events[j], id)
      invariant slot.result.Some? ==>
                  && 0 < i && FirstEnding(events, id) == Some(i - 1)
                  && slot.result == Some(Delivered(events[i - 1]))
                  && notices == if hasProvider && events[i - 1].Cancel? then [AnnounceCompleted(id, Cancelled)] else []
      invariant OthersFollow(reg.entries, before, id, events[..i])
      decreases |events| - i
    {
      assert events[..i + 1] == events[..i] + [events[i]];
      notices := ProcessEvent(reg, id, slot, events[i], hasProvider, before, events[..i]);
      if slot.result.Some? {
        FirstEndingAt(events, id, i);
      }
      i := i + 1;
    }
    consumed := i;
  }

  /**
   * `planReview`. Its outcome is `Lifecycle` of the generated id; a review
   * that returns leaves no entry behind, one still waiting keeps exactly its
   * own; every other review's entry follows the events consumed.
   */
  method PlanReview(reg: Registry, plan: string, title: Option<string>, alreadyCancelled: bool,
                    hasProvider: bool, now: nat, entropy: string, events: seq<Event>, fault: Fault)
    returns (run: Run, effects: seq<Effect>, consumed: nat, listening: bool)
    requires reg.Valid()
    requires !alreadyCancelled ==> GenerateReviewId(now, entropy) !in reg.entries
    modifies reg, reg.entries.Values
    ensures reg.Valid()
    ensures Outcome(run, effects, consumed) ==
              Lifecycle(plan, title, alreadyCancelled, hasProvider, GenerateReviewId(now, entropy), events, fault)
    ensures listening <==> run.Waiting?
    ensures consumed <= |events|
    ensures alreadyCancelled ==> reg.entries == old(reg.entries)
    ensures !alreadyCancelled ==> (GenerateReviewId(now, entropy) in reg.entries <==> run.Waiting?)
    ensures OthersFollow(reg.entries, old(reg.entries), GenerateReviewId(now, entropy), events[..consumed])
  {
    var id := GenerateReviewId(now, entropy);
    if alreadyCancelled {
      run, effects, consumed, listening := Returned(ToolResult(Cancelled, [], "")), [], 0, false;
      assert events[..0] == [];
      return;
    }
    var t := ReviewTitle(title);
    listening := true;  // token.onCancellationRequested(...)
    effects := [];
    consumed := 0;
    if hasProvider {
      effects := [AnnouncePending(id, t, plan)];
      if fault == AnnouncePendingFails {
        run := Returned(ToolResult(Cancelled, [], id));
        listening := false;
        reg.Unregister(id);
        assert events[..0] == [];
        return;
      }
    }
    var rest;
    rest, consumed := Conduct(reg, id, plan, t, hasProvider, events, fault);
    run := rest.run;
    effects := effects + rest.effects;
    listening := run.Waiting?;  // cancellationDisposable.dispose() once the review returns
  }

  /**
   * The part of `planReview` after the pending announcement: register the
   * continuation, await it, then finish the review. The outcome is
   * `AwaitAndFinish`, whose `consumed` count the returned `consumed` repeats.
   */
  method Conduct(reg: Registry, id: string, plan: string, title: string, hasProvider: bool,
                 events: seq<Event>, fault: Fault)
    returns (rest: Outcome, consumed: nat)
    requires reg.Valid() && id !in reg.entries
    requires hasProvider ==> fault != AnnouncePendingFails
    modifies reg, reg.entries.Values
    ensures reg.Valid()
    ensures rest == AwaitAndFinish(plan, title, hasProvider, id, events, fault)
    ensures consumed == rest.consumed && consumed <= |events|
    ensures id in reg.entries <==> rest.run.Waiting?
    ensures OthersFollow(reg.entries, old(reg.entries), id, events[..consumed])
  {
    var answer, notices;
    answer, notices, consumed := RegisterAndAwait(reg, id, events, hasProvider);
    match answer {
      case None =>
        rest := Outcome(Waiting, notices, consumed);
      case Some(r) =>
        assert reg.entries - {id} == reg.entries;
        var run, completion := FinishReview(reg, id, r, plan, title, hasProvider, fault);
        rest := Outcome(run, notices + completion, consumed);
    }
  }

  /**
   * `pendingReviews.set(reviewId, resolve)` followed by the `await`: the
   * answer is what the first event ending the wait delivers, and the entry
   * stays exactly while no answer has come.
   */
  method RegisterAndAwait(reg: Registry, id: string, events: seq<Event>, hasProvider: bool)
    returns (answer: Option<PanelResult>, notices: seq<Effect>, consumed: nat)
    requires reg.Valid() && id !in reg.entries
    modifies reg, reg.entries.Values
    ensures reg.Valid()
    ensures id in reg.entries <==> answer.None?
    ensures FirstEnding(events, id).None? ==> answer.None? && consumed == |events| && notices == []
    ensures FirstEnding(events, id).Some? ==>
              var k := FirstEnding(events, id).value;
              && consumed == k + 1 && answer == Some(Delivered(events[k]))
              && notices == if hasProvider && events[k].Cancel? then [AnnounceCompleted(id, Cancelled)] else []
    ensures OthersFollow(reg.entries, old(reg.entries), id, events[..consumed])
  {
    ghost var before := reg.entries;
    var slot := new Slot();
    reg.Register(id, slot);
    notices, consumed := AwaitResolution(reg, id, slot, events, hasProvider);
    answer := slot.result;
    OthersFollowForgetsOwn(reg.entries, before, id, slot, events[..consumed]);
  }

  /**
   * The rest of `planReview` once the wait is over: map the status, record
   * it, announce completion; a throwing collaborator turns the result into
   * `cancelled`. The `finally` block drops any entry left for the review.
   */
  method FinishReview(reg: Registry, id: string, r: PanelResult, plan: string, title: string,
                      hasProvider: bool, fault: Fault)
    returns (run: Run, calls: seq<Effect>)
    requires reg.Valid()
    requires hasProvider ==> fault != AnnouncePendingFails
    modifies reg
    ensures reg.Valid()
    ensures reg.entries == old(reg.entries) - {id}
    ensures run == Returned(FinalResult(hasProvider, id, r, fault))
    ensures calls == CompletionCalls(plan, title, hasProvider, id, r, fault)
  {
    var status := MapStatus(r.action);
    run := Returned(ToolResult(status, r.requiredRevisions, id));
    calls := [];
    if hasProvider {
      calls := [RecordHistory(id, title, status, plan, r.requiredRevisions)];
      if fault == RecordFails {
        run := Returned(ToolResult(Cancelled, [], id));
      } else {
        calls := calls + [AnnounceCompleted(id, status)];
        if fault == AnnounceCompletedFails {
          run := Returned(ToolResult(Cancelled, [], id));
        }
      }
    }
    reg.Unregister(id);
  }

  // ---------------------------------------------------------------------
  // Properties of the lifecycle
  // ---------------------------------------------------------------------

  lemma {:induction false} FirstEndingExtend(events: seq<Event>, more: seq<Event>, id: string)
    requires FirstEnding(events, id).Some?
    ensures FirstEnding(events + more, id) == FirstEnding(events, id)
  {
    if !EndsWait(events[0], id) {
      assert (events + more)[1..] == events[1..] + more;
      FirstEndingExtend(events[1..], more, id);
    }
  }

  /**
   * A review is resolved at most once: once an event has ended its wait,
   * nothing that happens afterwards (another surface answering, a late
   * cancellation) changes what it returns or which calls it makes.
   */
  lemma LaterEventsHaveNoEffect(plan: string, title: Option<string>, alreadyCancelled: bool,
                                hasProvider: bool, id: string, events: seq<Event>, more: seq<Event>, fault: Fault)
    requires FirstEnding(events, id).Some?
    ensures Lifecycle(plan, title, alreadyCancelled, hasProvider, id, events + more, fault)
            == Lifecycle(plan, title, alreadyCancelled, hasProvider, id, events, fault)
  {
    FirstEndingExtend(events, more, id);
    var k := FirstEnding(events, id).value;
    assert (events + more)[k] == events[k];
  }

  /**
   * A review that returns normally reports the id it announced and the
   * revisions the surface sent, unchanged; the history record precedes the
   * completion announcement, and both carry the status returned.
   */
  lemma ReturnedResultMatchesAnnouncements(plan: string, title: Option<string>, id: string,
                                           events: seq<Event>)
    requires FirstEnding(events, id).Some?
    ensures var k := FirstEnding(events, id).value;
            var o := Lifecycle(plan, title, false, true, id, events, NoFault);
            var r := Delivered(events[k]);
            var status := MapStatus(r.action);
            && o.consumed == k + 1
            && o.run == Returned(ToolResult(status, r.requiredRevisions, id))
            && |o.effects| >= 3
            && o.effects[0] == AnnouncePending(id, ReviewTitle(title), plan)
            && o.effects[|o.effects| - 2] == RecordHistory(id, ReviewTitle(title), status, plan, r.requiredRevisions)
            && o.effects[|o.effects| - 1] == AnnounceCompleted(id, status)
  {
    var k := FirstEnding(events, id).value;
    var r := Delivered(events[k]);
    var t := ReviewTitle(title);
    var status := MapStatus(r.action);
    var notice := if events[k].Cancel? then [AnnounceCompleted(id, Cancelled)] else [];
    var history := RecordHistory(id, t, status, plan, r.requiredRevisions);
    FinishAfterEnding(plan, t, id, events);
    assert Lifecycle(plan, title, false, true, id, events, NoFault)
           == Outcome(Returned(ToolResult(status, r.requiredRevisions, id)),
                      [AnnouncePending(id, t, plan)] + (notice + [history, AnnounceCompleted(id, status)]), k + 1);
    EffectsShape(AnnouncePending(id, t, plan), notice, history, AnnounceCompleted(id, status));
  }

  /** An announcement, at most one notice, then two calls: the calls come last. */
  lemma EffectsShape(first: Effect, notice: seq<Effect>, x: Effect, y: Effect)
    requires |notice| <= 1
    ensures var e := [first] + (notice + [x, y]);
            |e| >= 3 && e[0] == first && e[|e| - 2] == x && e[|e| - 1] == y
  {
  }


  /** With a provider and no failure, the first event that ends the wait is answered, recorded and announced. */
  lemma FinishAfterEnding(plan: string, t: string, id: string, events: seq<Event>)
    requires FirstEnding(events, id).Some?
    ensures var k := FirstEnding(events, id).value;
            var r := Delivered(events[k]);
            var status := MapStatus(r.action);
            AwaitAndFinish(plan, t, true, id, events, NoFault)
            == Outcome(Returned(ToolResult(status, r.requiredRevisions, id)),
                       (if events[k].Cancel? then [AnnounceCompleted(id, Cancelled)] else [])
                       + [RecordHistory(id, t, status, plan, r.requiredRevisions), AnnounceCompleted(id, status)],
                       k + 1)
  {
  }

  /**
   * Agent cancellation while the review waits: the result is `cancelled`
   * with no revisions, and completion is announced twice for the same id,
   * once by the cancellation handler and once by the normal completion path.
   */
  lemma CancelWhileWaiting(plan: string, title: Option<string>, id: string, events: seq<Event>)
    requires FirstEnding(events, id).Some? && events[FirstEnding(events, id).value] == Cancel
    ensures var t := ReviewTitle(title);
            Lifecycle(plan, title, false, true, id, events, NoFault)
            == Outcome(Returned(ToolResult(Cancelled, [], id)),
                       [AnnouncePending(id, t, plan), AnnounceCompleted(id, Cancelled),
                        RecordHistory(id, t, Cancelled, plan, []), AnnounceCompleted(id, Cancelled)],
                       FirstEnding(events, id).value + 1)
  {
  }

  /** Any collaborator failure after the announcement still yields `cancelled` with the review's id. */
  lemma FailureKeepsReviewId(plan: string, title: Option<string>, hasProvider: bool, id: string,
                             events: seq<Event>, fault: Fault)
    requires hasProvider && fault != NoFault
    requires fault == AnnouncePendingFails || FirstEnding(events, id).Some?
    ensures Lifecycle(plan, title, false, hasProvider, id, events, fault).run == Returned(ToolResult(Cancelled, [], id))
  {
  }

  /** A surface approving: the agent is told `approved` under the announced id. */
  lemma SurfaceApproves(plan: string, id: string)
    ensures Lifecycle(plan, None, false, true, id, [SurfaceResolve(id, PanelResult(ActionApproved, []))], NoFault)
            == Outcome(Returned(ToolResult(Approved, [], id)),
                       [AnnouncePending(id, "Plan Review", plan), RecordHistory(id, "Plan Review", Approved, plan, []),
                        AnnounceCompleted(id, Approved)],
                       1)
  {
  }

  /**
   * A surface that reports `closed` together with revisions: the status
   * becomes `cancelled` but the revisions are passed on, so a cancelled
   * result can carry revisions.
   */
  lemma ClosedKeepsRevisions(plan: string, id: string, revisions: seq<RequiredPlanRevision>)
    ensures Lifecycle(plan, None, false, false, id, [SurfaceResolve(id, PanelResult(ActionClosed, revisions))], NoFault).run
            == Returned(ToolResult(Cancelled, revisions, id))
  {
  }

  // ---------------------------------------------------------------------
  // The tool entry point
  // ---------------------------------------------------------------------

  const ValidationError: string := "Validation error: plan content is required and cannot be empty"

  /**
   * The input check of the `plan_review` tool: the plan must be present, a
   * string, and not only whitespace. Returns the plan that passes.
   */
  function ValidatePlan(input: Option<PlanReviewInput>): (plan: Option<string>)
    ensures plan.Some? <==> input.Some? && input.value.plan.Some? && !AllWhitespace(input.value.plan.value)
    ensures plan.Some? ==> plan == input.value.plan
  {
    if input.None? || input.value.plan.None? || input.value.plan.value == "" then None
    else
      TrimEmptyIff(input.value.plan.value);
      if Trim(input.value.plan.value) == "" then None
    else input.value.plan
  }

  /** What the tool hands back to the agent (before JSON serialisation). */
  datatype ToolReply = Reply(result: ToolResult, error: Option<string>) | NoReplyYet

  /**
   * `invoke` of the `plan_review` tool: invalid input is answered with a
   * validation error before any id is made, any announcement is sent or any
   * entry is registered; valid input runs the review.
   */
  method InvokePlanReviewTool(reg: Registry, input: Option<PlanReviewInput>, alreadyCancelled: bool,
                              hasProvider: bool, now: nat, entropy: string, events: seq<Event>, fault: Fault)
    returns (reply: ToolReply, effects: seq<Effect>, consumed: nat)
    requires reg.Valid()
    requires ValidatePlan(input).Some? && !alreadyCancelled ==> GenerateReviewId(now, entropy) !in reg.entries
    modifies reg, reg.entries.Values
    ensures reg.Valid()
    ensures ValidatePlan(input).None? ==>
              && reply == Reply(ToolResult(Cancelled, [], ""), Some(ValidationError))
              && effects == [] && consumed == 0 && reg.entries == old(reg.entries)
    ensures ValidatePlan(input).Some? ==>
              var o := Lifecycle(ValidatePlan(input).value, input.value.title, alreadyCancelled, hasProvider,
                                 GenerateReviewId(now, entropy), events, fault);
              && effects == o.effects && consumed == o.consumed
              && reply == (if o.run.Returned? then Reply(o.run.result, None) else NoReplyYet)
    ensures ValidatePlan(input).Some? && reply.Reply? && !alreadyCancelled ==>
              GenerateReviewId(now, entropy) !in reg.entries
  {
    var plan := ValidatePlan(input);
    if plan.None? {
      reply, effects, consumed := Reply(ToolResult(Cancelled, [], ""), Some(ValidationError)), [], 0;
      return;
    }
    var run, listening;
    run, effects, consumed, listening :=
      PlanReview(reg, plan.value, input.value.title, alreadyCancelled, hasProvider, now, entropy, events, fault);
    reply := if run.Returned? then Reply(run.result, None) else NoReplyYet;
  }
}
