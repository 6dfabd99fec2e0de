/** Any number of clients tracking one daemon buffer over a lossy connection, with other
    writers. The texts the buffer has held, one per revision, are kept as the history of one
    daemon lifetime: the buffer's revision is the last index. */
module EditProtocol {
  import opened Utf8
  import opened Wrappers
  import opened Edits
  import opened EditSync
  import opened TextBuffer

  datatype Client = Client(sync: Option<Sync>, draft: Text, touched: bool, pending: Option<nat>)

  /** A request carries the draft it was made from, for the specification only. */
  datatype Request = Request(client: nat, id: nat, baseRev: nat, edits: seq<RangeEdit>,
                             selection: Selection, draft: Text)

  datatype Reply = Reply(client: nat, id: nat, accepted: bool, rev: nat, text: Text)

  datatype Snapshot = Snapshot(rev: nat, text: Text)

  datatype System = System(history: seq<Text>, clients: map<nat, Client>, nextId: nat,
                           requests: set<Request>, replies: set<Reply>, snapshots: set<Snapshot>)

  datatype Step =
    | Join(c: nat)
    | Type(c: nat, text: Text)
    | Send(c: nat, edits: seq<RangeEdit>, selection: Selection)
    | Deliver(request: Request)
    | Receive(reply: Reply)
    | LoseRequest(request: Request)
    | LoseReply(reply: Reply)
    | Detach(c: nat)
    | TakeSnapshot(c: nat, snapshot: Snapshot, guarded: bool, serverDirty: bool)
    | EmitSnapshot
    | OtherWrite(text: Text)
    | KeepLocal(c: nat)
    | UseServer(c: nat)

  function Head(s: System): Text
    requires s.history != []
  {
    s.history[|s.history| - 1]
  }

  function Rev(s: System): nat
    requires s.history != []
  {
    |s.history| - 1
  }

  predicate Synced(s: System, c: nat) {
    c in s.clients && s.clients[c].sync.Some?
  }

  ghost predicate Enabled(s: System, step: Step)
    requires s.history != []
  {
    match step
    case Join(c) => c !in s.clients
    case Type(c, text) => c in s.clients && Valid(text)
    case Send(c, edits, selection) =>
      && Synced(s, c)
      && MaySend(s.clients[c].sync.value, s.clients[c].draft)
      && IsDiff(s.clients[c].sync.value.acknowledged, s.clients[c].draft, edits)
      && SelectionFits(s.clients[c].draft, selection)
    case Deliver(request) => request in s.requests
    case Receive(reply) =>
      reply in s.replies && Synced(s, reply.client) && s.clients[reply.client].pending == Some(reply.id)
    case LoseRequest(request) => request in s.requests
    case LoseReply(reply) => reply in s.replies
    case Detach(c) => c in s.clients
    case TakeSnapshot(c, snapshot, _, _) => c in s.clients && snapshot in s.snapshots
    case EmitSnapshot => true
    case OtherWrite(text) => Valid(text)
    case KeepLocal(c) => Synced(s, c)
    case UseServer(c) => Synced(s, c)
  }

  function Outcome(client: Client, step: Step): (Sync, Reconciliation)
    requires step.TakeSnapshot?
  {
    match client.sync
    case None => Initial(step.snapshot.text, step.snapshot.rev, client.draft, client.touched)
    case Some(sync) =>
      if step.guarded
      then ReconciledProtected(sync, step.snapshot.rev, step.snapshot.text, client.draft, step.serverDirty)
      else Reconciled(sync, step.snapshot.rev, step.snapshot.text, client.draft)
  }

  /** The client side of a step; only Adopted, or choosing the server's text, replaces the draft. */
  function ClientAfter(client: Client, step: Step, nextId: nat): Client {
    match step
    case Type(_, text) => client.(draft := text, touched := true)
    case Send(_, _, _) =>
      if client.sync.Some?
      then client.(sync := Some(Sent(client.sync.value, client.draft)), pending := Some(nextId))
      else client
    case Receive(reply) =>
      if client.sync.Some?
      then client.(sync := Some(Finished(client.sync.value, reply.accepted, reply.rev, reply.text)),
                   pending := None)
      else client
    case Detach(_) => client.(pending := None)
    case TakeSnapshot(_, snapshot, _, _) =>
      var (sync, outcome) := Outcome(client, step);
      client.(sync := Some(sync), draft := if outcome.Adopted? then snapshot.text else client.draft)
    case KeepLocal(_) => if client.sync.Some? then client.(sync := Some(Resolved(client.sync.value))) else client
    case UseServer(_) =>
      if client.sync.Some? && client.sync.value.conflict.Some?
      then client.(sync := Some(Resolved(client.sync.value)), draft := client.sync.value.conflict.value.text)
      else client
    case _ => client
  }

  function Actor(step: Step): Option<nat> {
    match step
    case Type(c, _) => Some(c)
    case Send(c, _, _) => Some(c)
    case Receive(reply) => Some(reply.client)
    case Detach(c) => Some(c)
    case TakeSnapshot(c, _, _, _) => Some(c)
    case KeepLocal(c) => Some(c)
    case UseServer(c) => Some(c)
    case _ => None
  }

  function Sending(s: System, step: Step): Request
    requires step.Send? && Synced(s, step.c)
  {
    var client := s.clients[step.c];
    Request(step.c, s.nextId, client.sync.value.revision, step.edits, step.selection, client.draft)
  }

  function Answer(s: System, request: Request): Served
    requires s.history != []
  {
    Serve(Rev(s), Head(s), request.baseRev, request.edits, request.selection)
  }

  function Delivered(s: System, request: Request): System
    requires s.history != []
  {
    var t := s.(requests := s.requests - {request});
    match Answer(s, request)
    case Refused => t
    case Stale =>
      t.(replies := t.replies + {Reply(request.client, request.id, false, Rev(s), Head(s))})
    case Applied(text) =>
      var history := if text == Head(s) then s.history else s.history + [text];
      t.(history := history,
         replies := t.replies + {Reply(request.client, request.id, true, |history| - 1, text)})
  }

  function After(s: System, step: Step): System
    requires s.history != []
  {
    var t := match Actor(step)
      case Some(c) =>
        if c in s.clients then s.(clients := s.clients[c := ClientAfter(s.clients[c], step, s.nextId)]) else s
      case None => s;
    match step
    case Join(c) => s.(clients := s.clients[c := Client(None, [], false, None)])
    case Send(c, edits, selection) =>
      if Synced(s, c)
      then t.(nextId := s.nextId + 1,
              requests := s.requests + {Sending(s, step)})
      else t
    case Deliver(request) => Delivered(s, request)
    case Receive(reply) => t.(replies := s.replies - {reply})
    case LoseRequest(request) => s.(requests := s.requests - {request})
    case LoseReply(reply) => s.(replies := s.replies - {reply})
    case EmitSnapshot => s.(snapshots := s.snapshots + {Snapshot(Rev(s), Head(s))})
    case OtherWrite(text) => s.(history := s.history + [text])
    case _ => t
  }

  function Start(text: Text): System {
    System([text], map[], 0, {}, {}, {})
  }

  /** A run: every step enabled where it is taken. */
  ghost predicate IsRun(s: System, steps: seq<Step>)
    requires s.history != []
    decreases |steps|
  {
    steps == [] || (Enabled(s, steps[0]) && After(s, steps[0]).history != [] &&
                    IsRun(After(s, steps[0]), steps[1..]))
  }

  ghost function RunEnd(s: System, steps: seq<Step>): System
    requires s.history != [] && IsRun(s, steps)
    decreases |steps|
  {
    if steps == [] then s else RunEnd(After(s, steps[0]), steps[1..])
  }

  // ---- The invariant ------------------------------------------------------------

  predicate InHistory(h: seq<Text>, rev: nat, text: Text) {
    rev < |h| && h[rev] == text
  }

  ghost predicate SyncInv(h: seq<Text>, y: Sync) {
    && Valid(y.acknowledged)
    && (y.conflict.None? ==> InHistory(h, y.revision, y.acknowledged))
    && (y.conflict.Some? ==> InHistory(h, y.conflict.value.rev, y.conflict.value.text))
    && (y.acknowledged == [] || y.acknowledged in h)
  }

  ghost predicate ClientInv(h: seq<Text>, c: Client) {
    && Valid(c.draft)
    && (c.sync.None? && !c.touched ==> c.draft == [])
    && (c.sync.Some? ==> SyncInv(h, c.sync.value))
  }

  ghost predicate RequestInv(h: seq<Text>, r: Request) {
    && r.baseRev < |h|
    && Valid(r.draft) && r.draft != h[r.baseRev]
    && IsDiff(h[r.baseRev], r.draft, r.edits)
    && SelectionFits(r.draft, r.selection)
  }

  ghost predicate HistoryInv(h: seq<Text>) {
    h != [] && forall i :: 0 <= i < |h| ==> Valid(h[i])
  }

  ghost predicate Inv(s: System) {
    && HistoryInv(s.history)
    && (forall c :: c in s.clients ==> ClientInv(s.history, s.clients[c]))
    && (forall r :: r in s.requests ==> RequestInv(s.history, r))
    && (forall r :: r in s.replies ==> InHistory(s.history, r.rev, r.text))
    && (forall n :: n in s.snapshots ==> InHistory(s.history, n.rev, n.text))
  }

  /** A well-formed request gets one of two answers, or none if its draft is over the limit. */
  lemma AnswerIs(s: System, request: Request)
    requires HistoryInv(s.history) && RequestInv(s.history, request)
    ensures Answer(s, request) ==
      if request.baseRev != Rev(s) then Stale
      else if |request.draft| <= MAX_SNAPSHOT_BYTES then Applied(request.draft)
      else Refused
  {
    if request.baseRev == Rev(s) {
      DiffRebuilds(Head(s), request.draft, request.edits);
    }
  }

  /** Everything recorded about a history stays true as it grows. */
  lemma HistoryGrows(h: seq<Text>, text: Text, s: System)
    requires Inv(s) && s.history == h && Valid(text)
    ensures Inv(s.(history := h + [text]))
  {
    hide Valid;
    hide IsDiff;
    hide SelectionFits;
    forall i | 0 <= i < |h + [text]| ensures Valid((h + [text])[i]) {
      assert i < |h| ==> (h + [text])[i] == h[i];
    }
  }

  lemma SnapshotStep(h: seq<Text>, client: Client, step: Step)
    requires HistoryInv(h) && ClientInv(h, client) && step.TakeSnapshot?
    requires InHistory(h, step.snapshot.rev, step.snapshot.text)
    ensures SyncInv(h, Outcome(client, step).0)
  {
    hide Valid;
    EmptyIsValid();
  }

  lemma ClientStep(h: seq<Text>, client: Client, step: Step, nextId: nat)
    requires HistoryInv(h) && ClientInv(h, client)
    requires step.Type? ==> Valid(step.text)
    requires step.Receive? ==> InHistory(h, step.reply.rev, step.reply.text)
    requires step.TakeSnapshot? ==> InHistory(h, step.snapshot.rev, step.snapshot.text)
    ensures ClientInv(h, ClientAfter(client, step, nextId))
  {
    hide Valid;
    hide Outcome;
    if step.TakeSnapshot? {
      SnapshotStep(h, client, step);
    }
  }

  lemma StepInv(s: System, step: Step)
    requires Inv(s) && Enabled(s, step)
    ensures Inv(After(s, step))
  {
    if step.Deliver? {
      DeliverInv(s, step.request);
    } else if step.OtherWrite? {
      HistoryGrows(s.history, step.text, s);
    } else {
      ClientsInv(s, step);
    }
  }

  lemma DeliverInv(s: System, request: Request)
    requires Inv(s) && request in s.requests
    ensures Inv(Delivered(s, request))
  {
    hide Valid;
    hide IsDiff;
    hide SelectionFits;
    hide Serve;
    AnswerIs(s, request);
    if request.baseRev == Rev(s) && |request.draft| <= MAX_SNAPSHOT_BYTES {
      HistoryGrows(s.history, request.draft, s);
    }
  }

  lemma ClientsInv(s: System, step: Step)
    requires Inv(s) && Enabled(s, step) && !step.Deliver? && !step.OtherWrite?
    ensures Inv(After(s, step))
  {
    hide Valid;
    hide IsDiff;
    hide SelectionFits;
    EmptyIsValid();
    if step.Send? {
      assert RequestInv(s.history, Sending(s, step));
    }
    if Actor(step).Some? && Actor(step).value in s.clients {
      ClientStep(s.history, s.clients[Actor(step).value], step, s.nextId);
    }
  }

  /** Request ids are never reused, and each names one message in flight at most. */
  ghost predicate IdInv(s: System) {
    && (forall r :: r in s.requests ==> r.id < s.nextId)
    && (forall q :: q in s.replies ==> q.id < s.nextId)
    && (forall c :: c in s.clients && s.clients[c].pending.Some? ==> s.clients[c].pending.value < s.nextId)
    && (forall r, r' :: r in s.requests && r' in s.requests && r.id == r'.id ==> r == r')
    && (forall q, q' :: q in s.replies && q' in s.replies && q.id == q'.id ==> q == q')
    && (forall r, q :: r in s.requests && q in s.replies ==> r.id != q.id)
  }

  lemma DeliverIds(s: System, request: Request)
    requires s.history != [] && IdInv(s) && request in s.requests
    ensures IdInv(Delivered(s, request))
  {
    hide Serve;
  }

  lemma StepIds(s: System, step: Step)
    requires s.history != [] && IdInv(s) && Enabled(s, step)
    ensures IdInv(After(s, step))
  {
    hide Valid;
    hide IsDiff;
    hide SelectionFits;
    hide Delivered;
    hide Outcome;
    if step.Deliver? {
      DeliverIds(s, step.request);
    }
  }

  lemma {:induction false} RunInv(s: System, steps: seq<Step>)
    requires Inv(s) && IdInv(s) && IsRun(s, steps)
    ensures Inv(RunEnd(s, steps)) && IdInv(RunEnd(s, steps))
    decreases |steps|
  {
    if steps != [] {
      StepInv(s, steps[0]);
      StepIds(s, steps[0]);
      RunInv(After(s, steps[0]), steps[1..]);
    }
  }

  // ---- What holds over every run ------------------------------------------------

  ghost predicate Reachable(s: System) {
    exists text, steps :: Valid(text) && IsRun(Start(text), steps) && RunEnd(Start(text), steps) == s
  }

  lemma ReachableInv(s: System)
    requires Reachable(s)
    ensures Inv(s) && IdInv(s)
  {
    var text, steps :| Valid(text) && IsRun(Start(text), steps) && RunEnd(Start(text), steps) == s;
    RunInv(Start(text), steps);
  }

  /** One more step goes on from where a run ended. */
  lemma {:induction false} RunAppends(s: System, steps: seq<Step>, step: Step)
    requires s.history != [] && IsRun(s, steps)
    ensures RunEnd(s, steps).history != []
    ensures IsRun(s, steps + [step]) <==>
      Enabled(RunEnd(s, steps), step) && After(RunEnd(s, steps), step).history != []
    ensures IsRun(s, steps + [step]) ==> RunEnd(s, steps + [step]) == After(RunEnd(s, steps), step)
    decreases |steps|
  {
    hide After;
    hide Enabled;
    if steps == [] {
      assert ([] + [step])[1..] == [];
      assert steps + [step] == [step];
    } else {
      assert (steps + [step])[1..] == steps[1..] + [step];
      RunAppends(After(s, steps[0]), steps[1..], step);
    }
  }

  /** Whatever step is possible in a reachable state leads to another one. */
  lemma ReachableOn(s: System, step: Step)
    requires s.history != [] && Reachable(s) && Enabled(s, step)
    ensures After(s, step).history != [] && Reachable(After(s, step))
  {
    hide After;
    hide Enabled;
    ReachableInv(s);
    StepInv(s, step);
    var text, steps :| Valid(text) && IsRun(Start(text), steps) && RunEnd(Start(text), steps) == s;
    RunAppends(Start(text), steps, step);
    assert RunEnd(Start(text), steps + [step]) == After(s, step);
  }

  /** A client with no pending conflict tracks a text the buffer really held at that revision. */
  lemma AcknowledgedInHistory(s: System, c: nat)
    requires Reachable(s) && Synced(s, c) && s.clients[c].sync.value.conflict.None?
    ensures InHistory(s.history, s.clients[c].sync.value.revision, s.clients[c].sync.value.acknowledged)
  {
    ReachableInv(s);
  }

  /** A request is accepted exactly if it was made from the current revision with a draft in
      the limit; the buffer then holds that draft, and otherwise does not change. */
  lemma AcceptedIsTheDraft(s: System, request: Request)
    requires s.history != [] && Reachable(s) && request in s.requests
    ensures After(s, Deliver(request)).history ==
      if request.baseRev == Rev(s) && |request.draft| <= MAX_SNAPSHOT_BYTES
      then s.history + [request.draft] else s.history
  {
    hide Valid;
    hide IsDiff;
    hide SelectionFits;
    hide ClientInv;
    hide Answer;
    hide Reachable;
    ReachableInv(s);
    AnswerIs(s, request);
    AnswerFor(s, request);
  }

  /** Adoption throws away only an empty draft, the snapshot itself, or a text the daemon has
      held: nothing the user typed is lost without an explicit resolution. */
  lemma AdoptionLosesNothing(s: System, step: Step)
    requires s.history != [] && Reachable(s) && Enabled(s, step) && step.TakeSnapshot?
    requires Outcome(s.clients[step.c], step).1.Adopted?
    ensures var client := s.clients[step.c];
      && client.draft in [step.snapshot.text, if client.sync.Some? then client.sync.value.acknowledged else []]
      && (client.draft == [] || client.draft in s.history)
  {
    ReachableInv(s);
    assert step.snapshot.text in s.history;
  }

  /** The draft changes only by typing, by adoption, or by choosing the server's text. */
  lemma DraftKept(s: System, step: Step, c: nat)
    requires s.history != [] && Enabled(s, step) && c in s.clients
    requires After(s, step).clients[c].draft != s.clients[c].draft
    ensures Actor(step) == Some(c)
    ensures step.Type? || step.UseServer? ||
      (step.TakeSnapshot? && Outcome(s.clients[c], step).1.Adopted?)
  {
  }

  /** A conflict blocks sending until resolved, reconciled away, or overtaken by a late
      acceptance. */
  lemma ConflictPersists(s: System, step: Step, c: nat)
    requires s.history != [] && Enabled(s, step)
    requires Synced(s, c) && s.clients[c].sync.value.conflict.Some?
    ensures !(step.Send? && step.c == c)
    ensures Synced(After(s, step), c)
    ensures After(s, step).clients[c].sync.value.conflict.Some? ||
      (Actor(step) == Some(c) &&
       (step.KeepLocal? || step.UseServer? || step.TakeSnapshot? || (step.Receive? && step.reply.accepted)))
  {
  }

  /** An unsaved daemon text that the client has never seen is a conflict, even under an unchanged
      draft: both texts are kept, and nothing is in flight. */
  lemma ProtectedConflict(s: System, step: Step)
    requires s.history != [] && Enabled(s, step) && step.TakeSnapshot? && step.guarded && step.serverDirty
    requires Synced(s, step.c)
    requires var client := s.clients[step.c];
      step.snapshot.text !in [client.draft, client.sync.value.acknowledged] &&
      client.sync.value.sent != Some(step.snapshot.text)
    ensures Synced(After(s, step), step.c)
    ensures var client, y, t := s.clients[step.c], s.clients[step.c].sync.value, After(s, step).clients[step.c];
      && t.draft == client.draft && t.sync.value.sent == None
      && t.sync.value.acknowledged == y.acknowledged && t.sync.value.revision == y.revision
      && t.sync.value.conflict ==
           Some(ConflictSnapshot(y.revision, y.acknowledged, step.snapshot.rev, step.snapshot.text))
  {
  }

  /** In every other case the guard makes no difference. */
  lemma ProtectedElse(s: System, step: Step)
    requires s.history != [] && Enabled(s, step) && step.TakeSnapshot?
    requires Synced(s, step.c) && step.serverDirty ==>
      var client := s.clients[step.c];
      step.snapshot.text in [client.draft, client.sync.value.acknowledged] ||
      client.sync.value.sent == Some(step.snapshot.text)
    ensures After(s, step) == After(s, step.(guarded := false)) == After(s, step.(guarded := true))
  {
  }

  /** What a reconnect makes of a client that has something acknowledged, without the guard. */
  lemma Reconnects(s: System, step: Step)
    requires s.history != [] && Enabled(s, step) && step.TakeSnapshot? && !step.guarded && Synced(s, step.c)
    ensures Synced(After(s, step), step.c)
    ensures var client, y, n, t := s.clients[step.c], s.clients[step.c].sync.value, step.snapshot,
                                   After(s, step).clients[step.c];
      var untyped := client.draft in [y.acknowledged, n.text];
      var seen := n.text == y.acknowledged || y.sent == Some(n.text);
      && t.draft == (if untyped then n.text else client.draft) && t.sync.value.sent == None
      && t.pending == client.pending && t.touched == client.touched
      && (untyped || seen ==>
            t.sync.value.acknowledged == n.text && t.sync.value.revision == n.rev && t.sync.value.conflict == None)
      && (!untyped && !seen ==>
            && t.sync.value.acknowledged == y.acknowledged && t.sync.value.revision == y.revision
            && t.sync.value.conflict == Some(ConflictSnapshot(y.revision, y.acknowledged, n.rev, n.text)))
  {
  }

  /** And of one that has not: text typed before the first snapshot is never replaced. */
  lemma FirstSnapshot(s: System, step: Step)
    requires s.history != [] && Enabled(s, step) && step.TakeSnapshot? && !Synced(s, step.c)
    ensures Synced(After(s, step), step.c)
    ensures var client, n, t := s.clients[step.c], step.snapshot, After(s, step).clients[step.c];
      if client.touched && client.draft != n.text
      then t.draft == client.draft && t.sync.value.conflict == Some(ConflictSnapshot(0, [], n.rev, n.text))
      else t.draft == n.text && t.sync.value.conflict == None && t.sync.value.sent == None
           && t.sync.value.acknowledged == n.text && t.sync.value.revision == n.rev
  {
  }

  /** A reply: an acceptance is the new base whatever was pending; a rejection keeps the base and
      shows both texts. Neither touches the draft. */
  lemma ReplyTaken(s: System, step: Step)
    requires s.history != [] && Enabled(s, step) && step.Receive?
    ensures Synced(After(s, step), step.reply.client)
    ensures var q := step.reply; var client, t := s.clients[q.client], After(s, step).clients[q.client];
      var y, z := client.sync.value, t.sync.value;
      && t.draft == client.draft && t.pending == None && z.sent == None
      && (q.accepted ==> z.acknowledged == q.text && z.revision == q.rev && z.conflict == None)
      && (!q.accepted ==> z.acknowledged == y.acknowledged && z.revision == y.revision
                          && z.conflict == Some(ConflictSnapshot(y.revision, y.acknowledged, q.rev, q.text)))
  {
  }

  /** Either resolution takes the text of the conflict as the base; only choosing it gives up the
      draft. */
  lemma ConflictResolved(s: System, step: Step)
    requires s.history != [] && Enabled(s, step) && (step.KeepLocal? || step.UseServer?)
    requires s.clients[step.c].sync.value.conflict.Some?
    ensures Synced(After(s, step), step.c)
    ensures var client, t := s.clients[step.c], After(s, step).clients[step.c];
      var chosen, z := client.sync.value.conflict.value, t.sync.value;
      && z.acknowledged == chosen.text && z.revision == chosen.rev && z.sent == None && z.conflict == None
      && t.draft == (if step.UseServer? then chosen.text else client.draft)
  {
  }

  /** The steps that end a conflict: a resolution, a later reconciliation, a late acceptance. */
  predicate EndsConflict(step: Step, c: nat) {
    Actor(step) == Some(c) &&
    (step.KeepLocal? || step.UseServer? || step.TakeSnapshot? || (step.Receive? && step.reply.accepted))
  }

  /** From a conflict on, no run without such a step holds a send by that client. */
  lemma {:induction false} ConflictBlocks(s: System, steps: seq<Step>, c: nat)
    requires s.history != [] && IsRun(s, steps)
    requires Synced(s, c) && s.clients[c].sync.value.conflict.Some?
    requires forall i :: 0 <= i < |steps| ==> !EndsConflict(steps[i], c)
    ensures forall i :: 0 <= i < |steps| ==> !(steps[i].Send? && steps[i].c == c)
    ensures Synced(RunEnd(s, steps), c) && RunEnd(s, steps).clients[c].sync.value.conflict.Some?
    decreases |steps|
  {
    hide After;
    hide Enabled;
    if steps != [] {
      ConflictPersists(s, steps[0], c);
      assert !EndsConflict(steps[0], c);
      forall i | 0 <= i < |steps[1..]| ensures !EndsConflict(steps[1..][i], c) {
        assert steps[1..][i] == steps[i + 1];
      }
      ConflictBlocks(After(s, steps[0]), steps[1..], c);
      assert forall i :: 0 < i < |steps| ==> steps[i] == steps[1..][i - 1];
    }
  }

  // ---- Convergence once typing stops --------------------------------------------

  datatype Phase = Idle | Asked(request: Request) | Answered(reply: Reply)

  /** One client at the daemon's current revision with its draft in the limit: nothing in
      flight, or its request from that revision, or the acceptance of it. */
  ghost predicate Converging(s: System, c: nat, phase: Phase) {
    && Inv(s) && IdInv(s)
    && Synced(s, c)
    && var client := s.clients[c];
    && var y := client.sync.value;
    && y.conflict.None?
    && |client.draft| <= MAX_SNAPSHOT_BYTES
    && match phase
      case Idle =>
        y.sent.None? && client.pending.None? && y.revision == Rev(s) && y.acknowledged == Head(s)
      case Asked(r) =>
        && r in s.requests && r.client == c && client.pending == Some(r.id) && y.sent.Some?
        && r.baseRev == Rev(s) && |r.draft| <= MAX_SNAPSHOT_BYTES
      case Answered(r) =>
        && r in s.replies && r.client == c && client.pending == Some(r.id) && y.sent.Some?
        && r.accepted && r.rev == Rev(s) && r.text == Head(s)
  }

  /** A step of the exchange between this client and the daemon, with nothing lost. */
  predicate Exchange(s: System, c: nat, step: Step) {
    || (step.Send? && step.c == c)
    || (step.Deliver? && c in s.clients && s.clients[c].pending == Some(step.request.id))
    || (step.Receive? && step.reply.client == c)
  }

  /** How many steps of the exchange are left; every acceptance is one of them. */
  function StepsLeft(s: System, c: nat, phase: Phase): nat
    requires s.history != [] && Synced(s, c)
  {
    var draft := s.clients[c].draft;
    match phase
    case Idle => if draft == Head(s) then 0 else 3
    case Asked(r) => 2 + (if draft == r.draft then 0 else 3)
    case Answered(r) => 1 + (if draft == r.text then 0 else 3)
  }

  function AcceptancesLeft(s: System, c: nat, phase: Phase): nat
    requires s.history != [] && Synced(s, c)
  {
    var draft := s.clients[c].draft;
    match phase
    case Idle => if draft == Head(s) then 0 else 1
    case Asked(r) => 1 + (if draft == r.draft then 0 else 1)
    case Answered(r) => if draft == r.text then 0 else 1
  }

  /** Whatever step of the exchange is taken, it is the one its phase waits for. */
  lemma ExchangeIsInOrder(s: System, c: nat, phase: Phase, step: Step)
    requires Converging(s, c, phase) && Enabled(s, step) && Exchange(s, c, step)
    ensures match phase
      case Idle => step.Send? && step.c == c
      case Asked(r) => step == Deliver(r)
      case Answered(r) => step == Receive(r)
  {
    hide Valid;
    hide IsDiff;
  }

  ghost predicate Advances(s: System, c: nat, phase: Phase, t: System, next: Phase)
    requires s.history != [] && Synced(s, c)
  {
    && Converging(t, c, next)
    && t.clients[c].draft == s.clients[c].draft
    && StepsLeft(t, c, next) == StepsLeft(s, c, phase) - 1
    && AcceptancesLeft(t, c, next) + |t.history| == AcceptancesLeft(s, c, phase) + |s.history|
  }

  lemma SendAdvances(s: System, c: nat, step: Step)
    requires Converging(s, c, Idle) && Enabled(s, step) && step.Send? && step.c == c
    ensures Advances(s, c, Idle, After(s, step), Asked(Sending(s, step)))
  {
    hide Inv;
    hide IdInv;
    StepInv(s, step);
    StepIds(s, step);
  }

  lemma DeliverAdvances(s: System, c: nat, r: Request)
    requires Converging(s, c, Asked(r))
    ensures Advances(s, c, Asked(r), After(s, Deliver(r)),
                     Answered(Reply(r.client, r.id, true, Rev(s) + 1, r.draft)))
  {
    hide Inv;
    hide IdInv;
    hide After;
    StepInv(s, Deliver(r));
    StepIds(s, Deliver(r));
    AcceptStep(s, r);
  }

  lemma ReceiveAdvances(s: System, c: nat, r: Reply)
    requires Converging(s, c, Answered(r))
    ensures Advances(s, c, Answered(r), After(s, Receive(r)), Idle)
  {
    hide Inv;
    hide IdInv;
    StepInv(s, Receive(r));
    StepIds(s, Receive(r));
  }

  lemma AcceptStep(s: System, r: Request)
    requires Inv(s) && r in s.requests && r.baseRev == Rev(s) && |r.draft| <= MAX_SNAPSHOT_BYTES
    ensures r.draft != Head(s)
    ensures After(s, Deliver(r)) ==
      s.(requests := s.requests - {r}, history := s.history + [r.draft],
         replies := s.replies + {Reply(r.client, r.id, true, Rev(s) + 1, r.draft)})
  {
    hide Valid;
    hide IsDiff;
    hide SelectionFits;
    hide ClientInv;
    hide Answer;
    AnswerIs(s, r);
    AnswerFor(s, r);
  }

  lemma AnswerFor(s: System, request: Request)
    requires s.history != [] && request in s.requests
    ensures After(s, Deliver(request)) == Delivered(s, request)
  {
  }

  lemma ExchangeStep(s: System, c: nat, phase: Phase, step: Step) returns (next: Phase)
    requires Converging(s, c, phase) && Enabled(s, step) && Exchange(s, c, step)
    ensures Advances(s, c, phase, After(s, step), next)
  {
    ExchangeIsInOrder(s, c, phase, step);
    match phase
    case Idle =>
      SendAdvances(s, c, step);
      next := Asked(Sending(s, step));
    case Asked(r) =>
      DeliverAdvances(s, c, r);
      next := Answered(Reply(r.client, r.id, true, Rev(s) + 1, r.draft));
    case Answered(r) =>
      ReceiveAdvances(s, c, r);
      next := Idle;
  }

  /** As long as the texts differ, a step of the exchange can be taken. */
  lemma ExchangeProgress(s: System, c: nat, phase: Phase) returns (step: Step)
    requires Converging(s, c, phase) && StepsLeft(s, c, phase) > 0
    ensures Enabled(s, step) && Exchange(s, c, step)
  {
    match phase
    case Idle =>
      DiffExists(Head(s), s.clients[c].draft);
      var edits :| IsDiff(Head(s), s.clients[c].draft, edits);
      step := Send(c, edits, Selection(0, 0));
    case Asked(r) => step := Deliver(r);
    case Answered(r) => step := Receive(r);
  }

  ghost predicate ExchangeRun(s: System, c: nat, steps: seq<Step>)
    requires s.history != [] && IsRun(s, steps)
    decreases |steps|
  {
    steps == [] || (Exchange(s, c, steps[0]) && ExchangeRun(After(s, steps[0]), c, steps[1..]))
  }

  /** Every run of the exchange is at most five steps and two acceptances long; one that can
      go no further ends with the acknowledged text, the buffer and the draft equal. */
  lemma {:induction false} ExchangeConverges(s: System, c: nat, phase: Phase, steps: seq<Step>)
    requires Converging(s, c, phase) && IsRun(s, steps) && ExchangeRun(s, c, steps)
    ensures |steps| <= StepsLeft(s, c, phase) <= 5
    ensures |RunEnd(s, steps).history| <= |s.history| + 2
    ensures var t := RunEnd(s, steps);
      Synced(t, c) && t.clients[c].draft == s.clients[c].draft && t.history != []
    ensures var t := RunEnd(s, steps);
      (forall step :: Enabled(t, step) ==> !Exchange(t, c, step)) ==>
        t.clients[c].sync == Some(Fresh(s.clients[c].draft, Rev(t))) && Head(t) == s.clients[c].draft
    decreases |steps|
  {
    ExchangeBound(s, c, phase, steps);
  }

  lemma {:induction false} ExchangeBound(s: System, c: nat, phase: Phase, steps: seq<Step>)
    requires Converging(s, c, phase) && IsRun(s, steps) && ExchangeRun(s, c, steps)
    ensures |steps| <= StepsLeft(s, c, phase)
    ensures |RunEnd(s, steps).history| <= |s.history| + AcceptancesLeft(s, c, phase)
    ensures var t := RunEnd(s, steps);
      Synced(t, c) && t.clients[c].draft == s.clients[c].draft && t.history != []
    ensures var t := RunEnd(s, steps);
      (forall step :: Enabled(t, step) ==> !Exchange(t, c, step)) ==>
        t.clients[c].sync == Some(Fresh(s.clients[c].draft, Rev(t))) && Head(t) == s.clients[c].draft
    decreases |steps|
  {
    hide Valid;
    hide IsDiff;
    hide After;
    if steps == [] {
      if StepsLeft(s, c, phase) > 0 {
        var step := ExchangeProgress(s, c, phase);
      }
    } else {
      ExchangeIsInOrder(s, c, phase, steps[0]);
      var next := ExchangeStep(s, c, phase, steps[0]);
      ExchangeBound(After(s, steps[0]), c, next, steps[1..]);
    }
  }
}
