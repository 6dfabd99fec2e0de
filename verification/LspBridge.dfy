/** Bookkeeping of language-server requests: which server requests are pending, which of them
    belong to one client request, and what has been gathered for it so far. */
module LspBridge {
  import opened Wrappers
  import Seqs

  datatype Request = Request(id: nat, buffer: string, view: string, feature: nat, baseRev: nat)

  datatype Aggregate = Aggregate(request: Request, remaining: nat, responses: seq<string>,
                                 status: Option<string>, deadline: nat)

  datatype LspResult = LspResult(request: Request, rev: nat, responses: seq<string>,
                                 status: Option<string>, stale: bool)

  /** Revisions of the tracked buffers; a closed buffer has none. */
  type Revisions = map<string, nat>

  /** `used` are the request ids ever begun, `registered` those that got an aggregate. */
  datatype State = State(pending: map<nat, Request>, requestIds: map<nat, seq<nat>>,
                         aggregates: map<nat, Aggregate>, results: seq<LspResult>,
                         nextLspId: nat, used: set<nat>, registered: set<nat>)

  function Count(results: seq<LspResult>, id: nat): nat {
    if results == [] then 0
    else Count(results[..|results| - 1], id) + (if results[|results| - 1].request.id == id then 1 else 0)
  }

  predicate SameSlot(a: Request, b: Request) {
    a.buffer == b.buffer && a.view == b.view && a.feature == b.feature
  }

  predicate Distinct(ids: seq<nat>) {
    forall i, j :: 0 <= i < j < |ids| ==> ids[i] != ids[j]
  }

  predicate Current(request: Request, revs: Revisions) {
    request.buffer in revs && revs[request.buffer] == request.baseRev
  }

  // ---- The invariant --------------------------------------------------------------

  /** A live aggregate waits for exactly the listed server requests, and for one at least. */
  predicate AggregateInv(s: State, id: nat)
    requires id in s.aggregates
  {
    && id in s.requestIds
    && s.aggregates[id].request.id == id
    && s.aggregates[id].remaining == |s.requestIds[id]| > 0
    && Distinct(s.requestIds[id])
    && (forall l :: l in s.requestIds[id] ==> l in s.pending && s.pending[l] == s.aggregates[id].request)
  }

  predicate ResultInv(r: LspResult) {
    r.responses != [] ==> r.rev == r.request.baseRev && !r.stale
  }

  ghost predicate Inv(s: State) {
    && s.requestIds.Keys == s.aggregates.Keys
    && (forall id :: id in s.aggregates ==> AggregateInv(s, id))
    && (forall a, b | a in s.aggregates && b in s.aggregates
          && SameSlot(s.aggregates[a].request, s.aggregates[b].request) :: a == b)
    && (forall l :: l in s.pending ==> l < s.nextLspId)
    && (forall l :: l in s.pending && s.pending[l].id in s.aggregates ==> l in s.requestIds[s.pending[l].id])
    && s.aggregates.Keys <= s.registered <= s.used
    && (forall l :: l in s.pending ==> s.pending[l].id in s.used)
    && (forall id :: id in s.registered ==> Count(s.results, id) <= 1)
    && (forall id :: id in s.aggregates ==> Count(s.results, id) == 0)
    && (forall i :: 0 <= i < |s.results| ==> ResultInv(s.results[i]) && s.results[i].request.id in s.used)
  }

  // ---- What the operations do -------------------------------------------------------

  function Emit(s: State, r: LspResult): State {
    s.(results := s.results + [r])
  }

  function Status(request: Request, status: string, stale: bool): LspResult {
    LspResult(request, request.baseRev, [], Some(status), stale)
  }

  predicate Addressed(s: State, id: nat, buffer: string, view: string) {
    id in s.aggregates && s.aggregates[id].request.buffer == buffer && s.aggregates[id].request.view == view
  }

  /** The listed requests of another buffer or view, which a cancellation leaves alone. */
  function Kept(pending: map<nat, Request>, ids: seq<nat>, buffer: string, view: string): seq<nat> {
    if ids == [] then []
    else
      var rest := Kept(pending, ids[..|ids| - 1], buffer, view);
      var l := ids[|ids| - 1];
      if l in pending && !(pending[l].buffer == buffer && pending[l].view == view) then rest + [l] else rest
  }

  function Cancelled(s: State, id: nat, buffer: string, view: string): State {
    if !Addressed(s, id, buffer, view) then s
    else if id !in s.requestIds then s.(aggregates := s.aggregates - {id})
    else
      var ids := s.requestIds[id];
      var kept := Kept(s.pending, ids, buffer, view);
      s.(aggregates := s.aggregates - {id},
         requestIds := if kept == [] then s.requestIds - {id} else s.requestIds[id := kept],
         pending := map l | l in s.pending && !(l in ids && l !in kept) :: s.pending[l])
  }

  function FinalResult(a: Aggregate, revs: Revisions): LspResult {
    var stale := !Current(a.request, revs);
    LspResult(a.request,
              if a.request.buffer in revs then revs[a.request.buffer] else a.request.baseRev,
              if stale then [] else a.responses,
              if stale then Some("buffer revision changed while request was pending") else a.status,
              stale)
  }

  function Finished(s: State, id: nat, revs: Revisions): State {
    if id in s.aggregates && s.aggregates[id].remaining == 0
    then Emit(s.(aggregates := s.aggregates - {id}, requestIds := s.requestIds - {id}),
              FinalResult(s.aggregates[id], revs))
    else s
  }

  function Gathered(a: Aggregate, answer: Result<string, string>, stale: bool): Aggregate {
    if stale then
      a.(status := Some("buffer revision changed while request was pending"), responses := [], remaining := 0)
    else
      var remaining := if a.remaining > 0 then a.remaining - 1 else 0;
      match answer
      case Ok(value) => a.(responses := a.responses + [value], remaining := remaining)
      case Err(error) => a.(status := if a.status.Some? then a.status else Some(error), remaining := remaining)
  }

  function Without(ids: seq<nat>, l: nat): seq<nat> {
    if ids == [] then []
    else if ids[|ids| - 1] == l then Without(ids[..|ids| - 1], l)
    else Without(ids[..|ids| - 1], l) + [ids[|ids| - 1]]
  }

  /** A server's answer: forwarded untouched unless its request is pending here. */
  function Answered(s: State, l: nat, answer: Result<string, string>, revs: Revisions): State {
    if l !in s.pending then s
    else
      var request := s.pending[l];
      var id := request.id;
      var t := s.(pending := s.pending - {l});
      var t := if id in t.aggregates
        then t.(aggregates := t.aggregates[id := Gathered(t.aggregates[id], answer, !Current(request, revs))])
        else t;
      var t := if id in t.requestIds
        then (var ids := Without(t.requestIds[id], l);
              t.(requestIds := if ids == [] then t.requestIds - {id} else t.requestIds[id := ids]))
        else t;
      Finished(t, id, revs)
  }

  function TimedOut(a: Aggregate): Aggregate {
    a.(remaining := 0, status := if a.status.Some? then a.status else Some("language server request timed out"))
  }

  function Expired(s: State, id: nat, revs: Revisions): State {
    if id !in s.aggregates then s
    else
      var ids := if id in s.requestIds then s.requestIds[id] else [];
      Finished(s.(aggregates := s.aggregates[id := TimedOut(s.aggregates[id])],
                  requestIds := s.requestIds - {id},
                  pending := map l | l in s.pending && l !in ids :: s.pending[l]),
               id, revs)
  }

  function Registered(s: State, request: Request, sent: seq<nat>, deadline: nat): State {
    s.(requestIds := s.requestIds[request.id := sent],
       aggregates := s.aggregates[request.id := Aggregate(request, |sent|, [], None, deadline)],
       registered := s.registered + {request.id})
  }

  // ---- Each operation keeps the invariant -------------------------------------------

  lemma CountSnoc(results: seq<LspResult>, r: LspResult, id: nat)
    ensures Count(results + [r], id) == Count(results, id) + (if r.request.id == id then 1 else 0)
  {
    assert (results + [r])[..|results|] == results;
  }

  lemma EmitInv(s: State, r: LspResult)
    requires Inv(s) && ResultInv(r) && r.request.id in s.used
    requires r.request.id in s.registered ==> Count(s.results, r.request.id) == 0 && r.request.id !in s.aggregates
    ensures Inv(Emit(s, r))
  {
    forall id ensures Count(s.results + [r], id) == Count(s.results, id) + (if r.request.id == id then 1 else 0) {
      CountSnoc(s.results, r, id);
    }
    forall id | id in s.aggregates ensures AggregateInv(Emit(s, r), id) {
      assert AggregateInv(s, id);
    }
  }

  lemma {:induction false} KeptNone(pending: map<nat, Request>, ids: seq<nat>, buffer: string, view: string)
    requires forall l :: l in ids && l in pending ==> pending[l].buffer == buffer && pending[l].view == view
    ensures Kept(pending, ids, buffer, view) == []
  {
    if ids != [] {
      forall l | l in ids[..|ids| - 1] ensures l in ids {}
      KeptNone(pending, ids[..|ids| - 1], buffer, view);
      assert ids[|ids| - 1] in ids;
    }
  }

  /** Taking one aggregate out together with its own requests leaves the others whole. */
  lemma RemoveInv(s: State, id: nat, ids: set<nat>)
    requires Inv(s) && id in s.aggregates
    requires forall l :: l in ids && l in s.pending ==> s.pending[l].id == id
    ensures Inv(Removed(s, id, ids))
  {
    var t := Removed(s, id, ids);
    forall k | k in t.aggregates ensures AggregateInv(t, k) {
      assert AggregateInv(s, k);
    }
  }

  lemma CancelInv(s: State, id: nat, buffer: string, view: string)
    requires Inv(s)
    ensures Inv(Cancelled(s, id, buffer, view))
    ensures Cancelled(s, id, buffer, view).results == s.results
    ensures forall l :: l in Cancelled(s, id, buffer, view).pending <==>
      l in s.pending && !(Addressed(s, id, buffer, view) && s.pending[l].id == id)
    ensures Cancelled(s, id, buffer, view).aggregates ==
      if Addressed(s, id, buffer, view) then s.aggregates - {id} else s.aggregates
  {
    if Addressed(s, id, buffer, view) {
      assert AggregateInv(s, id);
      var ids := s.requestIds[id];
      KeptNone(s.pending, ids, buffer, view);
      RemoveInv(s, id, set l | l in ids);
      assert Cancelled(s, id, buffer, view).pending == Removed(s, id, set l | l in ids).pending;
    }
  }

  lemma FinalResultInv(a: Aggregate, revs: Revisions)
    ensures ResultInv(FinalResult(a, revs)) && FinalResult(a, revs).request == a.request
  {
  }

  /** The state without one aggregate, its list, and the server requests in `ids`. */
  function Removed(s: State, id: nat, ids: set<nat>): State {
    s.(aggregates := s.aggregates - {id}, requestIds := s.requestIds - {id},
       pending := map l | l in s.pending && l !in ids :: s.pending[l])
  }

  lemma ExpiredIs(s: State, id: nat, revs: Revisions)
    requires id in s.aggregates && id in s.requestIds
    ensures Expired(s, id, revs) ==
      Emit(Removed(s, id, set l | l in s.requestIds[id]), FinalResult(TimedOut(s.aggregates[id]), revs))
  {
    var ids := s.requestIds[id];
    assert s.aggregates[id := TimedOut(s.aggregates[id])] - {id} == s.aggregates - {id};
    assert (s.requestIds - {id}) - {id} == s.requestIds - {id};
    assert Removed(s, id, set l | l in ids).pending == map l | l in s.pending && l !in ids :: s.pending[l];
  }

  /** What a client gets at the deadline: all that was gathered so far, unless it was edited since. */
  predicate TimeoutReply(a: Aggregate, revs: Revisions, r: LspResult) {
    && r.request == a.request && (r.stale <==> !Current(a.request, revs))
    && r.rev == (if a.request.buffer in revs then revs[a.request.buffer] else a.request.baseRev)
    && r.responses == (if r.stale then [] else a.responses)
    && r.status == (if r.stale then Some("buffer revision changed while request was pending")
                    else if a.status.Some? then a.status else Some("language server request timed out"))
  }

  lemma TimeoutReplies(a: Aggregate, revs: Revisions)
    ensures TimeoutReply(a, revs, FinalResult(TimedOut(a), revs))
  {
  }

  lemma ExpireInv(s: State, id: nat, revs: Revisions)
    requires Inv(s) && id in s.aggregates
    ensures Inv(Expired(s, id, revs))
    ensures Expired(s, id, revs).aggregates == s.aggregates - {id}
    ensures forall l :: l in Expired(s, id, revs).pending <==> l in s.pending && s.pending[l].id != id
    ensures exists r: LspResult ::
      && Expired(s, id, revs).results == s.results + [r] && TimeoutReply(s.aggregates[id], revs, r)
      && r.request.id == id
  {
    hide FinalResult;
    hide Expired;
    hide ResultInv;
    TimeoutReplies(s.aggregates[id], revs);
    assert AggregateInv(s, id);
    var ids := s.requestIds[id];
    RemoveInv(s, id, set l | l in ids);
    FinalResultInv(TimedOut(s.aggregates[id]), revs);
    EmitInv(Removed(s, id, set l | l in ids), FinalResult(TimedOut(s.aggregates[id]), revs));
    ExpiredIs(s, id, revs);
    assert FinalResult(TimedOut(s.aggregates[id]), revs).request.id == id;
  }

  lemma {:induction false} WithoutDistinct(ids: seq<nat>, l: nat)
    requires Distinct(ids)
    ensures Distinct(Without(ids, l))
    ensures forall k :: k in Without(ids, l) <==> k in ids && k != l
    ensures |Without(ids, l)| == if l in ids then |ids| - 1 else |ids|
  {
    if ids != [] {
      var init, last := ids[..|ids| - 1], ids[|ids| - 1];
      WithoutDistinct(init, l);
      assert ids == init + [last];
      assert last !in init;
    }
  }

  /** An answer closes its aggregate when it was the last one awaited or came too late. */
  predicate Closes(s: State, l: nat, revs: Revisions)
    requires l in s.pending && s.pending[l].id in s.aggregates
  {
    !Current(s.pending[l], revs) || s.aggregates[s.pending[l].id].remaining <= 1
  }

  lemma AnswerCloses(s: State, l: nat, answer: Result<string, string>, revs: Revisions)
    requires Inv(s) && l in s.pending && s.pending[l].id in s.aggregates && Closes(s, l, revs)
    ensures Inv(Answered(s, l, answer, revs))
    ensures Answered(s, l, answer, revs).aggregates == s.aggregates - {s.pending[l].id}
    ensures Answered(s, l, answer, revs).pending == s.pending - {l}
    ensures exists r: LspResult ::
      && Answered(s, l, answer, revs).results == s.results + [r] && Reply(s, l, answer, revs, r)
  {
    hide FinalResult;
    hide Answered;
    hide ResultInv;
    hide Gathered;
    var id := s.pending[l].id;
    assert AggregateInv(s, id);
    var a := Gathered(s.aggregates[id], answer, !Current(s.pending[l], revs));
    RemoveInv(s, id, {l});
    FinalResultInv(a, revs);
    GatheredRequest(s.aggregates[id], answer, !Current(s.pending[l], revs));
    EmitInv(Removed(s, id, {l}), FinalResult(a, revs));
    ClosedIs(s, l, answer, revs);
    FinalReply(s, l, answer, revs);
  }

  /** The one result a client gets: stale and empty after an edit, else all that was gathered. */
  predicate Reply(s: State, l: nat, answer: Result<string, string>, revs: Revisions, r: LspResult)
    requires l in s.pending && s.pending[l].id in s.aggregates
  {
    var a := s.aggregates[s.pending[l].id];
    && r.request == a.request
    && r.stale == !Current(a.request, revs)
    && r.rev == (if a.request.buffer in revs then revs[a.request.buffer] else a.request.baseRev)
    && r.responses == (if r.stale then [] else if answer.Ok? then a.responses + [answer.value] else a.responses)
    && r.status == (if r.stale then Some("buffer revision changed while request was pending")
                    else if a.status.Some? || answer.Ok? then a.status else Some(answer.error))
  }

  lemma FinalReply(s: State, l: nat, answer: Result<string, string>, revs: Revisions)
    requires l in s.pending && s.pending[l].id in s.aggregates
    requires s.aggregates[s.pending[l].id].request == s.pending[l]
    ensures Reply(s, l, answer, revs,
                  FinalResult(Gathered(s.aggregates[s.pending[l].id], answer, !Current(s.pending[l], revs)), revs))
  {
  }

  lemma GatheredRequest(a: Aggregate, answer: Result<string, string>, stale: bool)
    ensures Gathered(a, answer, stale).request == a.request
    ensures Gathered(a, answer, stale).remaining == if stale || a.remaining == 0 then 0 else a.remaining - 1
    ensures !stale ==>
      && Gathered(a, answer, stale).deadline == a.deadline
      && Gathered(a, answer, stale).responses == (if answer.Ok? then a.responses + [answer.value] else a.responses)
      && Gathered(a, answer, stale).status == (if a.status.Some? || answer.Ok? then a.status else Some(answer.error))
  {
  }

  lemma ClosedIs(s: State, l: nat, answer: Result<string, string>, revs: Revisions)
    requires l in s.pending && s.pending[l].id in s.aggregates && s.pending[l].id in s.requestIds
    requires Closes(s, l, revs)
    ensures var id := s.pending[l].id;
      Answered(s, l, answer, revs) ==
      Emit(Removed(s, id, {l}),
           FinalResult(Gathered(s.aggregates[id], answer, !Current(s.pending[l], revs)), revs))
  {
    hide FinalResult;
    hide Gathered;
    hide Without;
    var id := s.pending[l].id;
    var a := Gathered(s.aggregates[id], answer, !Current(s.pending[l], revs));
    GatheredRequest(s.aggregates[id], answer, !Current(s.pending[l], revs));
    var ids := Without(s.requestIds[id], l);
    var lists := if ids == [] then s.requestIds - {id} else s.requestIds[id := ids];
    var t := s.(pending := s.pending - {l}, aggregates := s.aggregates[id := a], requestIds := lists);
    assert Answered(s, l, answer, revs) == Finished(t, id, revs);
    assert t.aggregates - {id} == s.aggregates - {id};
    assert lists - {id} == s.requestIds - {id};
    assert Removed(s, id, {l}).pending == s.pending - {l};
  }

  /** One server request fewer to wait for. */
  lemma StepDownInv(s: State, l: nat, id: nat, a: Aggregate, ids: seq<nat>)
    requires Inv(s) && l in s.pending && s.pending[l].id == id && id in s.aggregates
    requires a.request == s.aggregates[id].request && a.remaining == |ids| > 0 && Distinct(ids)
    requires forall k :: k in ids <==> k in s.requestIds[id] && k != l
    ensures Inv(s.(pending := s.pending - {l}, aggregates := s.aggregates[id := a],
                   requestIds := s.requestIds[id := ids]))
  {
    hide Count;
    hide ResultInv;
    hide Distinct;
    hide SameSlot;
    hide Current;
    var t := s.(pending := s.pending - {l}, aggregates := s.aggregates[id := a], requestIds := s.requestIds[id := ids]);
    forall k | k in t.aggregates ensures AggregateInv(t, k) {
      assert AggregateInv(s, k);
    }
  }

  /** An answer that is not the last: its value is gathered behind the earlier ones, or the first
      error is kept; no other request is touched. */
  lemma AnswerContinues(s: State, l: nat, answer: Result<string, string>, revs: Revisions)
    requires Inv(s) && l in s.pending && s.pending[l].id in s.aggregates && !Closes(s, l, revs)
    ensures Inv(Answered(s, l, answer, revs))
    ensures Answered(s, l, answer, revs).results == s.results
    ensures Answered(s, l, answer, revs).pending == s.pending - {l}
    ensures var id, t := s.pending[l].id, Answered(s, l, answer, revs);
      && t.aggregates.Keys == s.aggregates.Keys
      && (forall k :: k in s.aggregates && k != id ==>
            t.aggregates[k] == s.aggregates[k] && t.requestIds[k] == s.requestIds[k])
      && (forall k :: k in t.requestIds[id] <==> k in s.requestIds[id] && k != l)
      && var a, b := s.aggregates[id], t.aggregates[id];
      && b.request == a.request && b.deadline == a.deadline && b.remaining == a.remaining - 1
      && b.responses == (if answer.Ok? then a.responses + [answer.value] else a.responses)
      && b.status == (if a.status.Some? || answer.Ok? then a.status else Some(answer.error))
  {
    hide ResultInv;
    hide Count;
    hide Gathered;
    hide Without;
    var id := s.pending[l].id;
    assert AggregateInv(s, id);
    var a := Gathered(s.aggregates[id], answer, false);
    GatheredRequest(s.aggregates[id], answer, false);
    WithoutDistinct(s.requestIds[id], l);
    StepDownInv(s, l, id, a, Without(s.requestIds[id], l));
    assert Without(s.requestIds[id], l) != [];
    assert Answered(s, l, answer, revs) == s.(pending := s.pending - {l}, aggregates := s.aggregates[id := a],
                                              requestIds := s.requestIds[id := Without(s.requestIds[id], l)]);
  }

  // ---- All the answers to one request ------------------------------------------------

  type Inbox = seq<(nat, Result<string, string>, Revisions)>

  /** Answers taken one after another, each judged by the revisions at its time. */
  function AnsweredAll(s: State, inbox: Inbox): State
    decreases |inbox|
  {
    if inbox == [] then s else AnsweredAll(Answered(s, inbox[0].0, inbox[0].1, inbox[0].2), inbox[1..])
  }

  /** The values among the first answers of the awaited server requests, in order of arrival. */
  function Values(inbox: Inbox, awaited: set<nat>): seq<string>
    decreases |inbox|
  {
    if inbox == [] then []
    else
      (if inbox[0].0 in awaited && inbox[0].1.Ok? then [inbox[0].1.value] else [])
      + Values(inbox[1..], awaited - {inbox[0].0})
  }

  function FirstError(inbox: Inbox, awaited: set<nat>): Option<string>
    decreases |inbox|
  {
    if inbox == [] then None
    else if inbox[0].0 in awaited && inbox[0].1.Err? then Some(inbox[0].1.error)
    else FirstError(inbox[1..], awaited - {inbox[0].0})
  }

  function Unanswered(inbox: Inbox, awaited: set<nat>): set<nat> {
    set l | l in awaited && forall i :: 0 <= i < |inbox| ==> inbox[i].0 != l
  }

  function Awaited(s: State, id: nat): set<nat>
    requires id in s.requestIds
  {
    SetOf(s.requestIds[id])
  }

  function SetOf(ids: seq<nat>): set<nat> {
    set l | l in ids
  }

  /** The pending requests of a live aggregate are those it awaits. */
  lemma AwaitedPending(s: State, id: nat)
    requires Inv(s) && id in s.aggregates
    ensures id in s.requestIds && Awaited(s, id) == set l | l in s.pending && s.pending[l].id == id
    ensures |Awaited(s, id)| == s.aggregates[id].remaining && Awaited(s, id) != {}
  {
    assert AggregateInv(s, id);
    DistinctSize(s.requestIds[id]);
    assert s.requestIds[id][0] in Awaited(s, id);
  }

  lemma {:induction false} DistinctSize(ids: seq<nat>)
    requires Distinct(ids)
    ensures |SetOf(ids)| == |ids|
  {
    if ids != [] {
      var init, last := ids[..|ids| - 1], ids[|ids| - 1];
      DistinctSize(init);
      assert ids == init + [last] && last !in init;
      assert SetOf(ids) == SetOf(init) + {last};
    }
  }

  lemma AnswerKeeps(s: State, l: nat, answer: Result<string, string>, revs: Revisions)
    ensures s.results <= Answered(s, l, answer, revs).results
    ensures Answered(s, l, answer, revs).pending == s.pending - {l}
  {
    hide Gathered;
    hide Without;
    hide FinalResult;
    hide Current;
  }

  /** One answer, as seen from one live request. */
  lemma GatherStep(s: State, l: nat, answer: Result<string, string>, revs: Revisions, id: nat)
    requires Inv(s) && id in s.aggregates && Current(s.aggregates[id].request, revs)
    ensures var t := Answered(s, l, answer, revs);
      && Inv(t)
      && (id in t.aggregates <==> Awaited(s, id) != {l})
      && (id in t.aggregates ==>
            Awaited(t, id) == Awaited(s, id) - {l} &&
            t.aggregates[id] == Taken(s.aggregates[id], answer, l in Awaited(s, id)))
      && (id !in t.aggregates ==> Whole(Taken(s.aggregates[id], answer, true)) in t.results)
  {
    hide Answered;
    hide Inv;
    hide AggregateInv;
    hide Taken;
    var t := Answered(s, l, answer, revs);
    AnswerInv(s, l, answer, revs);
    AnswerKeeps(s, l, answer, revs);
    AwaitedPending(s, id);
    if l !in Awaited(s, id) {
      TakenNothing(s.aggregates[id], answer);
      AnswerElsewhere(s, l, answer, revs, id);
    } else if Closes(s, l, revs) {
      AnswerLast(s, l, answer, revs);
    } else {
      AnswerGathered(s, l, answer, revs);
    }
    if id in t.aggregates {
      AwaitedPending(t, id);
    }
  }

  /** An aggregate after one more answer, if the answer is for it. */
  function Taken(a: Aggregate, answer: Result<string, string>, mine: bool): Aggregate {
    if !mine then a
    else a.(remaining := if a.remaining > 0 then a.remaining - 1 else 0,
            responses := if answer.Ok? then a.responses + [answer.value] else a.responses,
            status := if a.status.Some? || answer.Ok? then a.status else Some(answer.error))
  }

  lemma TakenNothing(a: Aggregate, answer: Result<string, string>)
    ensures Taken(a, answer, false) == a
  {
  }

  /** The result an aggregate would end with. */
  function Whole(a: Aggregate): LspResult {
    LspResult(a.request, a.request.baseRev, a.responses, a.status, false)
  }

  lemma AnswerElsewhere(s: State, l: nat, answer: Result<string, string>, revs: Revisions, id: nat)
    requires Inv(s) && id in s.aggregates && l !in Awaited(s, id)
    ensures var t := Answered(s, l, answer, revs); id in t.aggregates && t.aggregates[id] == s.aggregates[id]
  {
    hide Answered;
    hide ResultInv;
    hide Count;
    AwaitedPending(s, id);
    if l in s.pending && s.pending[l].id in s.aggregates {
      if Closes(s, l, revs) {
        AnswerCloses(s, l, answer, revs);
      } else {
        AnswerContinues(s, l, answer, revs);
      }
    } else {
      AnswerOfNone(s, l, answer, revs);
    }
  }

  lemma AnswerLast(s: State, l: nat, answer: Result<string, string>, revs: Revisions)
    requires Inv(s) && l in s.pending && s.pending[l].id in s.aggregates && Closes(s, l, revs)
    requires Current(s.aggregates[s.pending[l].id].request, revs) && l in Awaited(s, s.pending[l].id)
    ensures var id, t := s.pending[l].id, Answered(s, l, answer, revs);
      && id !in t.aggregates && Awaited(s, id) == {l} && Whole(Taken(s.aggregates[id], answer, true)) in t.results
  {
    hide Answered;
    hide ResultInv;
    hide Count;
    var id, t := s.pending[l].id, Answered(s, l, answer, revs);
    AnswerCloses(s, l, answer, revs);
    assert AggregateInv(s, id);
    AwaitedPending(s, id);
    OneAwaited(Awaited(s, id), l);
    var r: LspResult :| t.results == s.results + [r] && Reply(s, l, answer, revs, r);
    assert r == Whole(Taken(s.aggregates[id], answer, true));
  }

  lemma OneAwaited(awaited: set<nat>, l: nat)
    requires l in awaited && |awaited| <= 1
    ensures awaited == {l}
  {
    assert |awaited - {l}| == 0;
  }

  lemma AnswerGathered(s: State, l: nat, answer: Result<string, string>, revs: Revisions)
    requires Inv(s) && l in s.pending && s.pending[l].id in s.aggregates && !Closes(s, l, revs)
    ensures var id, t := s.pending[l].id, Answered(s, l, answer, revs);
      && id in t.aggregates && Awaited(s, id) != {l} && t.aggregates[id] == Taken(s.aggregates[id], answer, true)
  {
    hide Answered;
    hide ResultInv;
    hide Count;
    AnswerContinues(s, l, answer, revs);
    AwaitedPending(s, s.pending[l].id);
  }

  /** Nobody waits for it. */
  lemma AnswerOfNone(s: State, l: nat, answer: Result<string, string>, revs: Revisions)
    requires Inv(s) && !(l in s.pending && s.pending[l].id in s.aggregates)
    ensures Answered(s, l, answer, revs).aggregates == s.aggregates
    ensures Answered(s, l, answer, revs).results == s.results
  {
  }

  lemma {:induction false} AnswersKeep(s: State, inbox: Inbox, id: nat)
    requires Inv(s)
    ensures Inv(AnsweredAll(s, inbox)) && s.results <= AnsweredAll(s, inbox).results
    ensures AnsweredAll(s, inbox).aggregates.Keys <= s.aggregates.Keys
    decreases |inbox|
  {
    hide Answered;
    hide Inv;
    if inbox != [] {
      AnswerInv(s, inbox[0].0, inbox[0].1, inbox[0].2);
      AnswerKeeps(s, inbox[0].0, inbox[0].1, inbox[0].2);
      AnswersKeep(Answered(s, inbox[0].0, inbox[0].1, inbox[0].2), inbox[1..], id);
    }
  }

  lemma {:induction false} NoneAwaited(inbox: Inbox)
    ensures Values(inbox, {}) == [] && FirstError(inbox, {}) == None
    decreases |inbox|
  {
    if inbox != [] {
      assert {} - {inbox[0].0} == {};
      NoneAwaited(inbox[1..]);
    }
  }

  /** As long as its buffer keeps its revision, a request ends with its last server, whatever
      else is answered in between. Its one result then has every value in order of arrival and
      the first error; until then the aggregate has those so far. */
  lemma {:induction false} GatherAll(s: State, inbox: Inbox, id: nat)
    requires Inv(s) && id in s.aggregates
    requires forall i :: 0 <= i < |inbox| ==> Current(s.aggregates[id].request, inbox[i].2)
    ensures s.results <= AnsweredAll(s, inbox).results && Inv(AnsweredAll(s, inbox))
    ensures var a, t := s.aggregates[id], AnsweredAll(s, inbox);
      var left := Unanswered(inbox, Awaited(s, id));
      var responses := a.responses + Values(inbox, Awaited(s, id));
      var status := if a.status.Some? then a.status else FirstError(inbox, Awaited(s, id));
      && (id in t.aggregates <==> left != {})
      && (left != {} ==> t.aggregates[id] == Aggregate(a.request, |left|, responses, status, a.deadline))
      && (left == {} ==> LspResult(a.request, a.request.baseRev, responses, status, false) in t.results)
    decreases |inbox|
  {
    hide Answered;
    hide ResultInv;
    hide AggregateInv;
    hide Count;
    AwaitedPending(s, id);
    AnswersKeep(s, inbox, id);
    var awaited := Awaited(s, id);
    if inbox == [] {
      assert Unanswered(inbox, awaited) == awaited;
    } else {
      var (l, answer, revs) := inbox[0];
      assert Current(s.aggregates[id].request, inbox[0].2);
      var t, rest := Answered(s, l, answer, revs), inbox[1..];
      GatherStep(s, l, answer, revs, id);
      assert forall i :: 0 < i < |inbox| ==> inbox[i] == rest[i - 1];
      UnansweredRest(inbox, awaited);
      TakenOn(s.aggregates[id], inbox, awaited);
      if id in t.aggregates {
        GatherAll(t, rest, id);
      } else {
        AnswersKeep(t, rest, id);
        NoneAwaited(rest);
        assert awaited - {l} == {} && l in awaited;
        var r := Whole(Taken(s.aggregates[id], answer, true));
        assert r in t.results;
        assert r in AnsweredAll(s, inbox).results;
        assert r.responses + [] == r.responses;
        assert r.responses == s.aggregates[id].responses + Values(inbox, awaited);
      }
    }
  }

  lemma TakenOn(a: Aggregate, inbox: Inbox, awaited: set<nat>)
    requires inbox != []
    ensures var (l, answer, _) := inbox[0];
      var b, rest := Taken(a, answer, l in awaited), awaited - {l};
      && b.responses + Values(inbox[1..], rest) == a.responses + Values(inbox, awaited)
      && (if b.status.Some? then b.status else FirstError(inbox[1..], rest))
         == (if a.status.Some? then a.status else FirstError(inbox, awaited))
  {
    var (l, answer, _) := inbox[0];
    var later := Values(inbox[1..], awaited - {l});
    if l in awaited && answer.Ok? {
      GatheredOn(a.responses, answer.value, later);
    } else {
      assert [] + later == later;
    }
  }

  lemma GatheredOn(before: seq<string>, value: string, later: seq<string>)
    ensures before + [value] + later == before + ([value] + later)
  {
  }

  lemma UnansweredRest(inbox: Inbox, awaited: set<nat>)
    requires inbox != []
    ensures Unanswered(inbox, awaited) == Unanswered(inbox[1..], awaited - {inbox[0].0})
  {
    forall l | l in Unanswered(inbox[1..], awaited - {inbox[0].0}) ensures l in Unanswered(inbox, awaited) {
      assert forall i :: 0 < i < |inbox| ==> inbox[i] == inbox[1..][i - 1];
    }
    forall l | l in Unanswered(inbox, awaited) ensures l in Unanswered(inbox[1..], awaited - {inbox[0].0}) {
      assert inbox[0].0 != l;
      assert forall i :: 0 <= i < |inbox[1..]| ==> inbox[1..][i] == inbox[i + 1];
    }
  }

  lemma AnswerInv(s: State, l: nat, answer: Result<string, string>, revs: Revisions)
    requires Inv(s)
    ensures Inv(Answered(s, l, answer, revs))
    ensures Answered(s, l, answer, revs).aggregates.Keys <= s.aggregates.Keys
  {
    if l in s.pending {
      if s.pending[l].id in s.aggregates {
        if Closes(s, l, revs) {
          AnswerCloses(s, l, answer, revs);
        } else {
          AnswerContinues(s, l, answer, revs);
        }
      } else {
        var t := Answered(s, l, answer, revs);
        forall k | k in t.aggregates ensures AggregateInv(t, k) {
          assert AggregateInv(s, k);
        }
      }
    }
  }

  /** Entering a new request keeps the invariant if no live one holds its slot. */
  lemma RegisterInv(s: State, request: Request, sent: seq<nat>, deadline: nat)
    requires Inv(s) && request.id in s.used && request.id !in s.registered && Count(s.results, request.id) == 0
    requires sent != [] && Distinct(sent)
    requires forall l :: l in s.pending && s.pending[l].id == request.id <==> l in sent
    requires forall l :: l in sent ==> l in s.pending && s.pending[l] == request
    requires forall id :: id in s.aggregates ==> !SameSlot(s.aggregates[id].request, request)
    ensures Inv(Registered(s, request, sent, deadline))
  {
    hide Count;
    hide ResultInv;
    hide AggregateInv;
    RegisteredAggregates(s, request, sent, deadline);
  }

  lemma RegisteredAggregates(s: State, request: Request, sent: seq<nat>, deadline: nat)
    requires forall k :: k in s.aggregates ==> AggregateInv(s, k)
    requires sent != [] && Distinct(sent) && forall l :: l in sent ==> l in s.pending && s.pending[l] == request
    ensures var t := Registered(s, request, sent, deadline);
      forall k :: k in t.aggregates ==> AggregateInv(t, k)
  {
    hide Distinct;
    var t := Registered(s, request, sent, deadline);
    forall k | k in t.aggregates ensures AggregateInv(t, k) {
      if k != request.id {
        assert AggregateInv(s, k);
      }
    }
  }

  lemma CancelReportInv(s: State, id: nat, r: LspResult)
    requires Inv(s) && id in s.aggregates && r.request == s.aggregates[id].request && r.responses == []
    ensures var t := Emit(Cancelled(s, id, r.request.buffer, r.request.view), r);
      Inv(t) && t.aggregates == s.aggregates - {id} && t.results == s.results + [r] && r.request.id == id
  {
    hide Cancelled;
    assert AggregateInv(s, id);
    CancelInv(s, id, r.request.buffer, r.request.view);
    CancelledIds(s, id, r.request.buffer, r.request.view);
    EmitInv(Cancelled(s, id, r.request.buffer, r.request.view), r);
  }

  lemma CancelledIds(s: State, id: nat, buffer: string, view: string)
    ensures var t := Cancelled(s, id, buffer, view);
      t.used == s.used && t.registered == s.registered && t.nextLspId == s.nextLspId
      && forall l :: l in t.pending ==> l in s.pending && t.pending[l] == s.pending[l]
  {
  }

  /** A request id that was never begun has neither an aggregate nor a result. */
  lemma {:induction false} UnusedUnseen(results: seq<LspResult>, id: nat)
    requires forall i :: 0 <= i < |results| ==> results[i].request.id != id
    ensures Count(results, id) == 0
  {
    if results != [] {
      UnusedUnseen(results[..|results| - 1], id);
    }
  }

  /** Requests in the same slot are found through any server request still pending. */
  lemma SlotHolder(s: State, request: Request, id: nat)
    requires Inv(s) && id in s.aggregates && SameSlot(s.aggregates[id].request, request)
    ensures exists l :: l in s.pending && s.pending[l].id == id && SameSlot(s.pending[l], request)
  {
    assert AggregateInv(s, id);
    var l := s.requestIds[id][0];
    assert l in s.requestIds[id];
  }

  // ---- The bridge -------------------------------------------------------------------

  /** What the checks before queueing found: a problem to report, an answer at once (buffer
      words, capabilities), or servers, with valid parameters or not, each queued or not. */
  datatype Route =
    | Problem(status: string)
    | Immediate(responses: seq<string>, note: Option<string>)
    | Servers(paramsOk: bool, queued: seq<bool>)

  function CountTrue(bs: seq<bool>): nat {
    if bs == [] then 0 else CountTrue(bs[..|bs| - 1]) + (if bs[|bs| - 1] then 1 else 0)
  }

  predicate Registers(request: Request, revs: Revisions, route: Route) {
    request.view != "" && Current(request, revs) && route.Servers? && route.paramsOk && CountTrue(route.queued) > 0
  }

  predicate HoldsSlot(aggregates: map<nat, Aggregate>, id: nat, request: Request) {
    && id in aggregates && aggregates[id].request.buffer == request.buffer
    && aggregates[id].request.view == request.view && aggregates[id].request.feature == request.feature
  }

  function Survivors(aggregates: map<nat, Aggregate>, request: Request): map<nat, Aggregate> {
    map id | id in aggregates && !HoldsSlot(aggregates, id, request) :: aggregates[id]
  }

  /** How often a request is answered by the time it was begun. */
  function Reports(request: Request, revs: Revisions, route: Route): nat {
    if Registers(request, revs, route) then 0
    else if request.view == "" || !Current(request, revs) || !route.Servers? || route.paramsOk then 1
    else |route.queued| + 1
  }

  /** What a new request is answered at once: the immediate answer, if its revision is current, or
      why there is none. */
  predicate BegunResult(request: Request, revs: Revisions, route: Route, r: LspResult) {
    && r.request == request && r.rev == request.baseRev
    && (r.stale <==> request.view != "" && (request.buffer !in revs || revs[request.buffer] != request.baseRev))
    && (if request.view != "" && !r.stale && route.Immediate?
        then r.responses == route.responses && r.status == route.note
        else r.responses == [] && r.status.Some?)
  }

  /** What the holder of its slot is told. */
  predicate SupersededResult(before: map<nat, Aggregate>, request: Request, r: LspResult) {
    && HoldsSlot(before, r.request.id, request) && r.request == before[r.request.id].request
    && r.responses == [] && r.stale
  }

  const TIMEOUT: nat := 5

  /** Send the request to each server in turn under ids reserved beforehand. */
  method Queue(pending: map<nat, Request>, request: Request, paramsOk: bool, queued: seq<bool>, first: nat)
    returns (table: map<nat, Request>, sent: seq<nat>, problems: seq<LspResult>)
    ensures |sent| == (if paramsOk then CountTrue(queued) else 0) && Distinct(sent)
    ensures forall l :: l in sent ==> first <= l < first + |queued|
    ensures forall k :: 0 <= k < |queued| ==> (first + k in sent <==> paramsOk && queued[k])
    ensures forall l :: l in table <==> l in pending || l in sent
    ensures forall l :: l in table ==> table[l] == if l in sent then request else pending[l]
    ensures |problems| == if paramsOk then 0 else |queued|
    ensures forall i :: 0 <= i < |problems| ==> problems[i] == Status(request, "invalid request parameters", false)
  {
    table, sent, problems := pending, [], [];
    var i := 0;
    while i < |queued|
      invariant i <= |queued| && |sent| == (if paramsOk then CountTrue(queued[..i]) else 0)
      invariant forall a, b :: 0 <= a < b < |sent| ==> sent[a] < sent[b]
      invariant forall a :: 0 <= a < |sent| ==> first <= sent[a] < first + i
      invariant forall k :: 0 <= k < i ==> (first + k in sent <==> paramsOk && queued[k])
      invariant forall l :: l in table <==> l in pending || l in sent
      invariant forall l :: l in table ==> table[l] == if l in sent then request else pending[l]
      invariant |problems| == if paramsOk then 0 else i
      invariant forall k :: 0 <= k < |problems| ==> problems[k] == Status(request, "invalid request parameters", false)
    {
      assert queued[..i + 1][..i] == queued[..i];
      if !paramsOk {
        problems := problems + [Status(request, "invalid request parameters", false)];
      } else if queued[i] {
        table := table[first + i := request];
        sent := sent + [first + i];
      }
      i := i + 1;
    }
    assert queued[..i] == queued;
  }

  /** Take the listed requests out, putting back those of another buffer or view. */
  method DropRequests(pending: map<nat, Request>, ids: seq<nat>, buffer: string, view: string)
    returns (left: map<nat, Request>, kept: seq<nat>)
    ensures kept == Kept(pending, ids, buffer, view)
    ensures left == map l | l in pending && !(l in ids && l !in kept) :: pending[l]
  {
    left, kept := pending, [];
    var i := 0;
    while i < |ids|
      invariant i <= |ids| && kept == Kept(pending, ids[..i], buffer, view)
      invariant forall l :: l in left <==> l in pending && !(l in ids[..i] && l !in kept)
      invariant forall l :: l in left ==> left[l] == pending[l]
    {
      var l := ids[i];
      assert ids[..i + 1][..i] == ids[..i];
      Seqs.TakeNext(ids, i);
      KeptFrom(pending, ids[..i], buffer, view);
      KeptFrom(pending, ids[..i + 1], buffer, view);
      if l in left {
        var entry := left[l];
        left := left - {l};
        if entry.buffer != buffer || entry.view != view {
          left := left[l := entry];
          kept := kept + [l];
        }
      }
      i := i + 1;
    }
    assert ids[..i] == ids;
  }

  class LspBridge {
    var pending: map<nat, Request>
    var requestIds: map<nat, seq<nat>>
    var aggregates: map<nat, Aggregate>
    var results: seq<LspResult>
    var nextLspId: nat
    ghost var used: set<nat>
    ghost var registered: set<nat>

    ghost function View(): State
      reads this
    {
      State(pending, requestIds, aggregates, results, nextLspId, used, registered)
    }

    constructor ()
      ensures View() == State(map[], map[], map[], [], 0, {}, {}) && Inv(View())
    {
      pending, requestIds, aggregates, results, nextLspId := map[], map[], map[], [], 0;
      used, registered := {}, {};
    }

    method Send(r: LspResult)
      modifies this
      ensures View() == Emit(old(View()), r)
    {
      results := results + [r];
    }

    method Cancel(id: nat, buffer: string, view: string)
      modifies this
      ensures View() == Cancelled(old(View()), id, buffer, view)
    {
      if id !in aggregates || aggregates[id].request.buffer != buffer || aggregates[id].request.view != view {
        return;
      }
      if id !in requestIds {
        aggregates := aggregates - {id};
        return;
      }
      var ids := requestIds[id];
      requestIds, aggregates := requestIds - {id}, aggregates - {id};
      var left, kept := DropRequests(pending, ids, buffer, view);
      pending := left;
      if kept != [] {
        requestIds := requestIds[id := kept];
      }
    }

    method FinishAggregate(id: nat, revs: Revisions)
      modifies this
      ensures View() == Finished(old(View()), id, revs)
    {
      if id !in aggregates || aggregates[id].remaining != 0 {
        return;
      }
      var aggregate := aggregates[id];
      aggregates, requestIds := aggregates - {id}, requestIds - {id};
      Send(FinalResult(aggregate, revs));
    }

    /** A server answered; late answers to requests already given up are simply forwarded. */
    method Answer(l: nat, answer: Result<string, string>, revs: Revisions)
      requires Inv(View())
      modifies this
      ensures View() == Answered(old(View()), l, answer, revs)
      ensures Inv(View()) && aggregates.Keys <= old(aggregates.Keys)
    {
      hide Inv;
      hide Gathered;
      hide Without;
      hide Finished;
      AnswerInv(View(), l, answer, revs);
      if l !in pending {
        return;
      }
      var request := pending[l];
      var id := request.id;
      pending := pending - {l};
      if id in aggregates {
        aggregates := aggregates[id := Gathered(aggregates[id], answer, !Current(request, revs))];
      }
      if id in requestIds {
        var ids := Without(requestIds[id], l);
        requestIds := if ids == [] then requestIds - {id} else requestIds[id := ids];
      }
      FinishAggregate(id, revs);
    }

    method ExpireOne(id: nat, revs: Revisions)
      modifies this
      ensures View() == Expired(old(View()), id, revs)
    {
      if id !in aggregates {
        return;
      }
      aggregates := aggregates[id := TimedOut(aggregates[id])];
      var ids := if id in requestIds then requestIds[id] else [];
      requestIds := requestIds - {id};
      pending := map l | l in pending && l !in ids :: pending[l];
      FinishAggregate(id, revs);
    }

    /** Everything past its deadline is answered once and forgotten. */
    method Expire(now: nat, revs: Revisions)
      requires Inv(View())
      modifies this
      ensures Inv(View()) && registered == old(registered) && used == old(used)
      ensures aggregates == map id | id in old(aggregates) && old(aggregates)[id].deadline > now :: old(aggregates)[id]
      ensures forall id :: id in old(aggregates) && id !in aggregates ==> Count(results, id) == 1
      ensures old(results) <= results
      ensures forall r :: r in results[|old(results)|..] ==>
        r.request.id in old(aggregates) && TimeoutReply(old(aggregates)[r.request.id], revs, r)
    {
      hide Inv;
      hide Expired;
      hide TimeoutReply;
      hide Count;
      var todo := set id | id in aggregates && aggregates[id].deadline <= now;
      while todo != {}
        invariant Inv(View()) && registered == old(registered) && used == old(used)
        invariant forall id :: id in todo ==> id in aggregates && aggregates[id].deadline <= now
        invariant forall id :: id in aggregates ==> id in old(aggregates) && aggregates[id] == old(aggregates)[id]
        invariant forall id :: id in old(aggregates) && id !in aggregates ==>
          old(aggregates)[id].deadline <= now && Count(results, id) == 1
        invariant forall id :: id in aggregates && aggregates[id].deadline <= now ==> id in todo
        invariant old(results) <= results
        invariant forall r :: r in results[|old(results)|..] ==>
          r.request.id in old(aggregates) && TimeoutReply(old(aggregates)[r.request.id], revs, r)
        decreases todo
      {
        var id :| id in todo;
        ghost var before := View();
        ExpireInv(before, id, revs);
        ExpireOne(id, revs);
        ExpiredCounts(before, id, revs);
        ghost var r: LspResult :| results == before.results + [r] && TimeoutReply(old(aggregates)[id], revs, r)
          && r.request.id == id;
        assert results[|old(results)|..] == before.results[|old(results)|..] + [r];
        todo := todo - {id};
      }
    }

    /** Take every answer of the inbox, each judged by the revisions at that moment. */
    method Drain(inbox: Inbox)
      requires Inv(View())
      modifies this
      ensures Inv(View()) && View() == AnsweredAll(old(View()), inbox)
      ensures aggregates.Keys <= old(aggregates.Keys) && old(results) <= results
    {
      hide Answered;
      hide Inv;
      ghost var before := View();
      var i := 0;
      while i < |inbox|
        invariant i <= |inbox| && Inv(View())
        invariant AnsweredAll(View(), inbox[i..]) == AnsweredAll(before, inbox)
        invariant aggregates.Keys <= before.aggregates.Keys && before.results <= results
      {
        AnswerKeeps(View(), inbox[i].0, inbox[i].1, inbox[i].2);
        assert inbox[i..][1..] == inbox[i + 1..];
        Answer(inbox[i].0, inbox[i].1, inbox[i].2);
        i := i + 1;
      }
    }

    /** Drain the inbox; then time out. */
    method Poll(inbox: Inbox, now: nat, revs: Revisions)
      requires Inv(View())
      modifies this
      ensures Inv(View())
      ensures forall id :: id in aggregates ==> id in old(aggregates) && aggregates[id].deadline > now
      ensures AnsweredAll(old(View()), inbox).results <= results
      ensures var drained := AnsweredAll(old(View()), inbox).aggregates;
        aggregates == map id | id in drained && drained[id].deadline > now :: drained[id]
    {
      hide Inv;
      Drain(inbox);
      Expire(now, revs);
    }

    /** Give up a set of live requests: each is cancelled and told so, once. */
    method Withdraw(doomed: set<nat>, revs: Revisions, status: string, stale: bool)
      requires Inv(View()) && doomed <= aggregates.Keys
      modifies this
      ensures Inv(View()) && aggregates == old(aggregates) - doomed
      ensures registered == old(registered) && used == old(used) && nextLspId == old(nextLspId)
      ensures forall id :: Count(results, id) == Count(old(results), id) + (if id in doomed then 1 else 0)
      ensures old(results) <= results
      ensures forall r :: r in results[|old(results)|..] ==>
        && r.request.id in old(aggregates) && r.request == old(aggregates)[r.request.id].request
        && r.responses == [] && r.status == Some(status) && r.stale == stale
        && r.rev == (if r.request.buffer in revs then revs[r.request.buffer] else r.request.baseRev)
    {
      hide Inv;
      hide Cancelled;
      ghost var earlier := results;
      hide Count;
      var todo := doomed;
      while todo != {}
        invariant todo <= doomed && Inv(View()) && aggregates == old(aggregates) - (doomed - todo)
        invariant registered == old(registered) && used == old(used) && nextLspId == old(nextLspId)
        invariant forall id :: Count(results, id) == Count(old(results), id) + (if id in doomed - todo then 1 else 0)
        invariant earlier <= results
        invariant forall r :: r in results[|earlier|..] ==>
          && r.request.id in old(aggregates) && r.request == old(aggregates)[r.request.id].request
          && r.responses == [] && r.status == Some(status) && r.stale == stale
          && r.rev == (if r.request.buffer in revs then revs[r.request.buffer] else r.request.baseRev)
        decreases todo
      {
        var id :| id in todo;
        var request := aggregates[id].request;
        var rev := if request.buffer in revs then revs[request.buffer] else request.baseRev;
        var r := LspResult(request, rev, [], Some(status), stale);
        CancelReportInv(View(), id, r);
        CancelledIds(View(), id, request.buffer, request.view);
        CountsAfter(results, r);
        assert (results + [r])[|earlier|..] == results[|earlier|..] + [r];
        Cancel(id, request.buffer, request.view);
        Send(r);
        todo := todo - {id};
      }
    }

    method CancelBuffer(buffer: string)
      requires Inv(View())
      modifies this
      ensures Inv(View())
      ensures forall id :: id in aggregates <==> id in old(aggregates) && old(aggregates)[id].request.buffer != buffer
      ensures forall id :: id in old(aggregates) && id !in aggregates ==> Count(results, id) == 1
      ensures old(results) <= results
      ensures forall r :: r in results[|old(results)|..] ==>
        && r.request.id in old(aggregates) && r.request == old(aggregates)[r.request.id].request
        && r.responses == [] && r.stale == true
    {
      var doomed := set id | id in aggregates && aggregates[id].request.buffer == buffer;
      Withdraw(doomed, map[], "buffer closed while request was pending", true);
    }

    method CancelAll()
      requires Inv(View())
      modifies this
      ensures Inv(View()) && aggregates == map[]
      ensures forall id :: id in old(aggregates) ==> Count(results, id) == 1
      ensures old(results) <= results
      ensures forall r :: r in results[|old(results)|..] ==>
        && r.request.id in old(aggregates) && r.request == old(aggregates)[r.request.id].request
        && r.responses == [] && r.stale == false
    {
      Withdraw(aggregates.Keys, map[], "LSP request cancelled before formatting", false);
    }

    /** Afterwards every live request was asked about the revision its buffer still has. */
    method CancelStale(revs: Revisions)
      requires Inv(View())
      modifies this
      ensures Inv(View())
      ensures forall id :: id in aggregates <==> id in old(aggregates) && Current(old(aggregates)[id].request, revs)
      ensures forall id :: id in old(aggregates) && id !in aggregates ==> Count(results, id) == 1
      ensures old(results) <= results
      ensures forall r :: r in results[|old(results)|..] ==>
        && r.request.id in old(aggregates) && r.request == old(aggregates)[r.request.id].request
        && r.responses == [] && r.stale == true
    {
      var doomed := set id | id in aggregates && !Current(aggregates[id].request, revs);
      Withdraw(doomed, revs, "buffer revision changed while request was pending", true);
    }

    /** The live request in the same slot, if any, is told that it was superseded. */
    method Supersede(request: Request)
      requires Inv(View())
      modifies this
      ensures Inv(View()) && registered == old(registered) && used == old(used) && nextLspId == old(nextLspId)
      ensures aggregates == Survivors(old(aggregates), request)
      ensures forall l :: l in pending ==> l in old(pending) && pending[l] == old(pending)[l]
      ensures forall id ::
        Count(results, id) == Count(old(results), id) + (if HoldsSlot(old(aggregates), id, request) then 1 else 0)
      ensures old(results) <= results
      ensures forall r :: r in results[|old(results)|..] ==> SupersededResult(old(aggregates), request, r)
    {
      hide Inv;
      hide Count;
      hide Cancelled;
      var found := set id | id in requestIds
        && exists l :: l in pending && pending[l].id == id && SameSlot(pending[l], request);
      FoundIsHolder(View(), request, found);
      if found != {} {
        var id :| id in found;
        if id in aggregates {
          var r := Status(aggregates[id].request, "request superseded by a newer request", true);
          CancelReportInv(View(), id, r);
          CancelledIds(View(), id, request.buffer, request.view);
          EmitCancelled(View(), id, request.buffer, request.view, r);
          CountsAfter(results, r);
          Send(r);
        }
        Cancel(id, request.buffer, request.view);
      }
    }

    /** A new request either is registered, or is answered at once; never neither, never both. */
    method Begin(request: Request, revs: Revisions, route: Route, now: nat)
      requires Inv(View()) && request.id !in used
      modifies this
      ensures Inv(View()) && used == old(used) + {request.id}
      ensures registered == if Registers(request, revs, route) then old(registered) + {request.id} else old(registered)
      ensures var rest := if request.view == "" then old(aggregates) else Survivors(old(aggregates), request);
        aggregates == if Registers(request, revs, route)
          then rest[request.id := Aggregate(request, CountTrue(route.queued), [], None, now + TIMEOUT)] else rest
      ensures Count(results, request.id) == Reports(request, revs, route)
      ensures forall id :: id != request.id ==>
        Count(results, id) == Count(old(results), id)
          + (if request.view != "" && HoldsSlot(old(aggregates), id, request) then 1 else 0)
      ensures old(results) <= results
      ensures forall r :: r in results[|old(results)|..] ==>
        BegunResult(request, revs, route, r) || (request.view != "" && SupersededResult(old(aggregates), request, r))
    {
      hide Inv;
      hide Count;
      hide Registers;
      hide BegunResult;
      hide SupersededResult;
      hide HoldsSlot;
      NotSeen(View(), request.id);
      BegunInv(View(), request.id);
      used := used + {request.id};
      if request.view != "" {
        Supersede(request);
        SlotFree(View(), old(View()), request);
        NotHolder(old(aggregates), request);
      }
      ghost var middle := results;
      Settle(request, revs, route, now);
      assert results[|old(results)|..] == middle[|old(results)|..] + results[|middle|..];
    }

    /** Check a new request, report what is wrong with it or answer it, or queue it. */
    method Settle(request: Request, revs: Revisions, route: Route, now: nat)
      requires Inv(View()) && request.id in used && request.id !in registered && Count(results, request.id) == 0
      requires forall l :: l in pending ==> pending[l].id != request.id
      requires request.view != "" ==> forall id :: !HoldsSlot(aggregates, id, request)
      modifies this
      ensures Inv(View()) && used == old(used)
      ensures registered == if Registers(request, revs, route) then old(registered) + {request.id} else old(registered)
      ensures aggregates == if Registers(request, revs, route)
        then old(aggregates)[request.id := Aggregate(request, CountTrue(route.queued), [], None, now + TIMEOUT)]
        else old(aggregates)
      ensures Count(results, request.id) == Reports(request, revs, route)
      ensures forall id :: id != request.id ==> Count(results, id) == Count(old(results), id)
      ensures old(results) <= results
      ensures forall r :: r in results[|old(results)|..] ==> BegunResult(request, revs, route, r)
    {
      hide Inv;
      hide Count;
      hide HoldsSlot;
      if request.view == "" {
        Report(Status(request, "view_id cannot be empty", false));
      } else if request.buffer !in revs {
        Report(Status(request, "buffer is closed", true));
      } else if request.baseRev != revs[request.buffer] {
        Report(Status(request, "buffer revision is stale", true));
      } else if route.Problem? {
        Report(Status(request, route.status, false));
      } else if route.Immediate? {
        Report(LspResult(request, revs[request.buffer], route.responses, route.note, false));
      } else {
        Dispatch(request, route.paramsOk, route.queued, now);
      }
    }

    /** Queue at the servers; the request is live when one of them took it. */
    method Dispatch(request: Request, paramsOk: bool, queued: seq<bool>, now: nat)
      requires Inv(View()) && request.id in used && request.id !in registered && Count(results, request.id) == 0
      requires forall l :: l in pending ==> pending[l].id != request.id
      requires forall id :: !HoldsSlot(aggregates, id, request)
      modifies this
      ensures Inv(View()) && used == old(used)
      ensures var live := paramsOk && CountTrue(queued) > 0;
        && registered == (if live then old(registered) + {request.id} else old(registered))
        && aggregates == (if live
             then old(aggregates)[request.id := Aggregate(request, CountTrue(queued), [], None, now + TIMEOUT)]
             else old(aggregates))
        && Count(results, request.id) == (if live then 0 else if paramsOk then 1 else |queued| + 1)
      ensures old(results) <= results
      ensures forall r :: r in results[|old(results)|..] ==>
        r.request == request && r.rev == request.baseRev && r.responses == [] && r.status.Some? && !r.stale
      ensures forall id :: id != request.id ==> Count(results, id) == Count(old(results), id)
    {
      hide Inv;
      hide Count;
      hide SameSlot;
      hide Distinct;
      hide CountTrue;
      hide AggregateInv;
      hide Survivors;
      hide HoldsSlot;
      NotLive(View(), request.id);
      SlotIsFree(aggregates, request);
      var table, sent, problems := Queue(pending, request, paramsOk, queued, nextLspId);
      QueuedInv(View(), request, |queued|, table, sent);
      nextLspId, pending := nextLspId + |queued|, table;
      ProblemsInv(View(), problems, request.id);
      results := results + problems;
      if sent == [] {
        Report(Status(request, "language server request could not be queued", false));
      } else {
        RegisterInv(View(), request, sent, now + TIMEOUT);
        requestIds := requestIds[request.id := sent];
        aggregates := aggregates[request.id := Aggregate(request, |sent|, [], None, now + TIMEOUT)];
        registered := registered + {request.id};
      }
    }

    /** Answer a request that is not being waited for. */
    method Report(r: LspResult)
      requires Inv(View()) && ResultInv(r) && r.request.id in used && r.request.id !in registered
      modifies this`results
      ensures results == old(results) + [r] && Inv(View())
      ensures forall id :: Count(results, id) == Count(old(results), id) + (if r.request.id == id then 1 else 0)
    {
      EmitInv(View(), r);
      CountsAfter(results, r);
      results := results + [r];
    }
  }

  lemma FoundIsHolder(s: State, request: Request, found: set<nat>)
    requires Inv(s)
    requires found == set id | id in s.requestIds
      && exists l :: l in s.pending && s.pending[l].id == id && SameSlot(s.pending[l], request)
    ensures forall id :: id in found <==> id in s.aggregates && SameSlot(s.aggregates[id].request, request)
    ensures forall a, b :: a in found && b in found ==> a == b
  {
    forall id | id in s.aggregates
      ensures id in found <==> SameSlot(s.aggregates[id].request, request)
    {
      assert AggregateInv(s, id);
      if SameSlot(s.aggregates[id].request, request) {
        SlotHolder(s, request, id);
      }
    }
  }

  lemma EmitCancelled(s: State, id: nat, buffer: string, view: string, r: LspResult)
    ensures Cancelled(Emit(s, r), id, buffer, view) == Emit(Cancelled(s, id, buffer, view), r)
  {
  }

  lemma NotLive(s: State, id: nat)
    requires Inv(s) && id !in s.registered
    ensures id !in s.aggregates
  {
  }

  lemma SlotIsFree(aggregates: map<nat, Aggregate>, request: Request)
    ensures (forall id :: !HoldsSlot(aggregates, id, request)) <==>
      forall id :: id in aggregates ==> !SameSlot(aggregates[id].request, request)
  {
    forall id | id in aggregates ensures HoldsSlot(aggregates, id, request) <==> SameSlot(aggregates[id].request, request) {
    }
  }

  lemma NotHolder(aggregates: map<nat, Aggregate>, request: Request)
    ensures request.id !in aggregates ==> !HoldsSlot(aggregates, request.id, request)
  {
  }

  lemma SlotFree(s: State, before: State, request: Request)
    requires s.aggregates == Survivors(before.aggregates, request)
    ensures forall id :: !HoldsSlot(s.aggregates, id, request)
  {
  }

  lemma NotSeen(s: State, id: nat)
    requires Inv(s) && id !in s.used
    ensures Count(s.results, id) == 0 && id !in s.aggregates && id !in s.registered
    ensures forall l :: l in s.pending ==> s.pending[l].id != id
  {
    hide AggregateInv;
    UnusedUnseen(s.results, id);
  }

  lemma BegunInv(s: State, id: nat)
    requires Inv(s)
    ensures Inv(s.(used := s.used + {id}))
  {
    var t := s.(used := s.used + {id});
    forall k | k in t.aggregates ensures AggregateInv(t, k) {
      assert AggregateInv(s, k);
    }
  }

  /** New server requests of a request without aggregate leave the invariant alone. */
  lemma QueuedInv(s: State, request: Request, n: nat, table: map<nat, Request>, sent: seq<nat>)
    requires Inv(s) && request.id in s.used && request.id !in s.aggregates
    requires forall l :: l in sent ==> s.nextLspId <= l < s.nextLspId + n
    requires forall l :: l in table <==> l in s.pending || l in sent
    requires forall l :: l in table ==> table[l] == if l in sent then request else s.pending[l]
    ensures Inv(s.(pending := table, nextLspId := s.nextLspId + n))
    ensures forall l :: l in sent ==> l !in s.pending
  {
    var t := s.(pending := table, nextLspId := s.nextLspId + n);
    forall k | k in t.aggregates ensures AggregateInv(t, k) {
      assert AggregateInv(s, k);
    }
  }

  lemma {:induction false} ProblemsInv(s: State, problems: seq<LspResult>, id: nat)
    requires Inv(s) && id in s.used && id !in s.registered
    requires forall i :: 0 <= i < |problems| ==> problems[i].request.id == id && ResultInv(problems[i])
    ensures Inv(s.(results := s.results + problems))
    ensures forall k :: Count(s.results + problems, k) == Count(s.results, k) + (if k == id then |problems| else 0)
  {
    if problems == [] {
      assert s.results + problems == s.results;
    } else {
      var init, last := problems[..|problems| - 1], problems[|problems| - 1];
      ProblemsInv(s, init, id);
      EmitInv(s.(results := s.results + init), last);
      CountsAfter(s.results + init, last);
      assert s.results + problems == s.results + init + [last];
    }
  }

  /** One expiry answers its request, for the first time, and no other. */
  lemma ExpiredCounts(s: State, id: nat, revs: Revisions)
    requires Inv(s) && id in s.aggregates
    ensures var t := Expired(s, id, revs);
      t.used == s.used && t.registered == s.registered && Count(t.results, id) == 1
      && forall k :: k != id ==> Count(t.results, k) == Count(s.results, k)
  {
    hide FinalResult;
    hide TimeoutReply;
    hide Inv;
    hide Count;
    RegisteredOnce(s, id);
    hide AggregateInv;
    hide ResultInv;
    ExpireInv(s, id, revs);
    var r: LspResult :| r.request.id == id && Expired(s, id, revs).results == s.results + [r];
    CountsAfter(s.results, r);
    ExpiredHistory(s, id, revs);
  }

  lemma ExpiredHistory(s: State, id: nat, revs: Revisions)
    ensures Expired(s, id, revs).used == s.used && Expired(s, id, revs).registered == s.registered
  {
  }

  lemma RegisteredOnce(s: State, id: nat)
    requires Inv(s) && id in s.aggregates
    ensures Count(s.results, id) == 0
  {
    hide AggregateInv;
  }

  lemma CountsAfter(results: seq<LspResult>, r: LspResult)
    ensures forall k :: Count(results + [r], k) == Count(results, k) + (if r.request.id == k then 1 else 0)
  {
    forall k ensures Count(results + [r], k) == Count(results, k) + (if r.request.id == k then 1 else 0) {
      CountSnoc(results, r, k);
    }
  }

  lemma {:induction false} KeptFrom(pending: map<nat, Request>, ids: seq<nat>, buffer: string, view: string)
    ensures forall l :: l in Kept(pending, ids, buffer, view) <==>
      l in ids && l in pending && !(pending[l].buffer == buffer && pending[l].view == view)
  {
    if ids != [] {
      KeptFrom(pending, ids[..|ids| - 1], buffer, view);
      assert ids == ids[..|ids| - 1] + [ids[|ids| - 1]];
    }
  }
}
