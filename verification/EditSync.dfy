/** The client's draft tracker: what the daemon last acknowledged, what is in flight,
    and a conflict kept for explicit resolution. */
module EditSync {
  import opened Utf8
  import opened Wrappers
  import opened Edits

  datatype ConflictSnapshot = ConflictSnapshot(baseRev: nat, baseText: Text, rev: nat, text: Text)

  datatype Edit = Edit(baseRev: nat, edits: seq<RangeEdit>)

  datatype Reconciliation = Adopted | KeepDraft | Conflict

  /** The abstract state of a tracker. */
  datatype Sync = Sync(acknowledged: Text, revision: nat, sent: Option<Text>, conflict: Option<ConflictSnapshot>)

  // ---- What each operation does -----------------------------------------------

  function Fresh(text: Text, revision: nat): Sync {
    Sync(text, revision, None, None)
  }

  function Finished(s: Sync, accepted: bool, revision: nat, text: Text): Sync {
    if accepted then Sync(text, revision, None, None)
    else s.(sent := None, conflict := Some(ConflictSnapshot(s.revision, s.acknowledged, revision, text)))
  }

  function Initial(text: Text, revision: nat, draft: Text, hasLocalChanges: bool): (Sync, Reconciliation) {
    if hasLocalChanges && draft != text
    then (Finished(Fresh([], 0), false, revision, text), Conflict)
    else (Fresh(text, revision), Adopted)
  }

  /** An edit goes out only with nothing in flight, no conflict, and a draft that differs. */
  predicate MaySend(s: Sync, draft: Text) {
    s.sent.None? && s.conflict.None? && draft != s.acknowledged
  }

  function Sent(s: Sync, draft: Text): Sync {
    if MaySend(s, draft) then s.(sent := Some(draft)) else s
  }

  function Resolved(s: Sync): Sync {
    match s.conflict
    case None => s
    case Some(c) => Fresh(c.text, c.rev)
  }

  function Reconciled(s: Sync, revision: nat, text: Text, draft: Text): (Sync, Reconciliation) {
    if draft == s.acknowledged || draft == text then (Fresh(text, revision), Adopted)
    else if text == s.acknowledged || s.sent == Some(text) then (Fresh(text, revision), KeepDraft)
    else (Finished(s, false, revision, text), Conflict)
  }

  function ReconciledProtected(s: Sync, revision: nat, text: Text, draft: Text, serverDirty: bool)
    : (Sync, Reconciliation)
  {
    if serverDirty && draft != text && text != s.acknowledged && s.sent != Some(text)
    then (Finished(s, false, revision, text), Conflict)
    else Reconciled(s, revision, text, draft)
  }

  // ---- The diff sent to the daemon --------------------------------------------

  /** Two end counters move back together over equal bytes; each is then moved up to a
      boundary of its own text. */
  method RawEnds(before: Text, after: Text, prefix: nat) returns (oldEnd: nat, newEnd: nat, ghost raw: nat)
    requires prefix <= |before| && prefix <= |after|
    ensures prefix <= oldEnd <= |before| && prefix <= newEnd <= |after| && raw <= |before| && raw <= |after|
    ensures raw == |before| - oldEnd == |after| - newEnd && SameTail(before, after, raw)
    ensures forall t: nat :: CommonEnds(before, after, prefix, t) ==> t <= raw
  {
    oldEnd, newEnd, raw := |before|, |after|, 0;
    while oldEnd > prefix && newEnd > prefix && before[oldEnd - 1] == after[newEnd - 1]
      invariant prefix <= oldEnd <= |before| && prefix <= newEnd <= |after|
      invariant raw == |before| - oldEnd == |after| - newEnd && SameTail(before, after, raw)
    {
      SameTailStep(before, after, raw);
      oldEnd, newEnd, raw := oldEnd - 1, newEnd - 1, raw + 1;
    }
    NoLongerSuffix(before, after, prefix, raw);
  }

  method AlignUp(t: Text, i: nat) returns (b: nat)
    requires i <= |t|
    ensures i <= b <= |t|
    ensures b == CeilBoundary(t, i)
  {
    b := i;
    while !IsBoundary(t, b)
      invariant b <= |t| && CeilBoundary(t, i) == CeilBoundary(t, b)
      decreases |t| - b
    {
      b := b + 1;
    }
  }

  lemma ShorterTail(before: Text, after: Text, s: nat, t: nat)
    requires SameTail(before, after, s) && t <= s
    ensures SameTail(before, after, t)
  {
    assert before[|before| - s..][s - t..] == before[|before| - t..];
    assert after[|after| - s..][s - t..] == after[|after| - t..];
  }

  /** Moving each end up to a boundary of its own text leaves the two ends together. */
  lemma {:induction false} CeilsMeet(before: Text, after: Text, raw: nat)
    requires Valid(before) && Valid(after) && SameTail(before, after, raw)
    ensures |before| - CeilBoundary(before, |before| - raw) == |after| - CeilBoundary(after, |after| - raw)
  {
    hide Valid;
    SuffixLockstep(before, after, raw);
    if !IsBoundary(before, |before| - raw) {
      ShorterTail(before, after, raw, raw - 1);
      CeilsMeet(before, after, raw - 1);
    }
  }

  lemma AlignedEnds(before: Text, after: Text, prefix: nat, raw: nat, oldEnd: nat, newEnd: nat)
    requires before != after && SharedPrefix(before, after, prefix) && SameTail(before, after, raw)
    requires forall q: nat :: SharedPrefix(before, after, q) ==> q <= prefix
    requires prefix + raw <= |before| && prefix + raw <= |after|
    requires forall t: nat :: CommonEnds(before, after, prefix, t) ==> t <= raw
    requires oldEnd == CeilBoundary(before, |before| - raw) && newEnd == CeilBoundary(after, |after| - raw)
    requires |before| - oldEnd == |after| - newEnd
    ensures prefix <= newEnd && IsDiff(before, after, [RangeEdit(prefix, oldEnd, after[prefix..newEnd])])
  {
    var s := |before| - oldEnd;
    ShorterTail(before, after, raw, s);
    assert CommonEnds(before, after, prefix, s);
    forall t: nat | CommonEnds(before, after, prefix, t) ensures t <= s {
      CeilIsFirst(before, |before| - raw, |before| - t);
    }
  }

  lemma NoDiff(t: Text)
    ensures IsDiff(t, t, [])
  {
  }

  /** The client's diff is the one whose ends the daemon's collapse computes. */
  method ContiguousDiff(before: Text, after: Text) returns (edits: seq<RangeEdit>)
    requires Valid(before) && Valid(after)
    ensures IsDiff(before, after, edits)
    ensures edits == [] <==> before == after
  {
    hide *;
    if before == after {
      NoDiff(before);
      return [];
    }
    var prefix: nat := AlignedPrefix(before, after);
    var rawOld: nat, rawNew: nat, raw := RawEnds(before, after, prefix);
    var oldEnd: nat := AlignUp(before, rawOld);
    var newEnd: nat := AlignUp(after, rawNew);
    CeilsMeet(before, after, raw);
    AlignedEnds(before, after, prefix, raw, oldEnd, newEnd);
    edits := [RangeEdit(prefix, oldEnd, after[prefix..newEnd])];
  }

  // ---- The tracker --------------------------------------------------------------

  class EditSync {
    var acknowledgedText: Text
    var revision: nat
    var sentText: Option<Text>
    var conflict: Option<ConflictSnapshot>

    ghost function View(): Sync
      reads this
    {
      Sync(acknowledgedText, revision, sentText, conflict)
    }

    constructor (text: Text, revision: nat)
      ensures View() == Fresh(text, revision)
      ensures acknowledgedText == text && this.revision == revision && sentText == None && conflict == None
    {
      this.acknowledgedText, this.revision := text, revision;
      this.sentText, this.conflict := None, None;
    }

    static method FromInitialSnapshot(text: Text, revision: nat, draft: Text, hasLocalChanges: bool)
      returns (sync: EditSync, outcome: Reconciliation)
      ensures fresh(sync)
      ensures (sync.View(), outcome) == Initial(text, revision, draft, hasLocalChanges)
      ensures outcome.Conflict? <==> hasLocalChanges && draft != text
      ensures !outcome.KeepDraft? && sync.sentText == None
      ensures outcome.Adopted? ==> sync.acknowledgedText == text && sync.revision == revision && sync.conflict == None
      ensures outcome.Conflict? ==> sync.acknowledgedText == [] && sync.revision == 0
                                    && sync.conflict == Some(ConflictSnapshot(0, [], revision, text))
    {
      if hasLocalChanges && draft != text {
        sync := new EditSync([], 0);
        sync.Finish(false, revision, text);
        outcome := Conflict;
      } else {
        sync := new EditSync(text, revision);
        outcome := Adopted;
      }
    }

    method BeginEdit(draft: Text) returns (request: Option<Edit>)
      requires Valid(draft) && Valid(acknowledgedText)
      modifies this
      ensures View() == Sent(old(View()), draft)
      ensures request.Some? <==> MaySend(old(View()), draft)
      ensures request.Some? <==> old(sentText) == None && conflict == None && draft != acknowledgedText
      ensures sentText == if request.Some? then Some(draft) else old(sentText)
      ensures acknowledgedText == old(acknowledgedText) && revision == old(revision) && conflict == old(conflict)
      ensures request.Some? ==> request.value.baseRev == revision
      ensures request.Some? ==> IsDiff(old(acknowledgedText), draft, request.value.edits)
    {
      if sentText.Some? || conflict.Some? {
        return None;
      }
      var base := acknowledgedText;
      var edits := ContiguousDiff(base, draft);
      if edits == [] {
        return None;
      }
      sentText := Some(draft);
      request := Some(Edit(revision, edits));
    }

    method Finish(accepted: bool, revision: nat, authoritativeText: Text)
      modifies this
      ensures View() == Finished(old(View()), accepted, revision, authoritativeText)
      ensures sentText == None
      ensures acknowledgedText == if accepted then authoritativeText else old(acknowledgedText)
      ensures this.revision == if accepted then revision else old(this.revision)
      ensures conflict == if accepted then None
        else Some(ConflictSnapshot(old(this.revision), old(acknowledgedText), revision, authoritativeText))
    {
      var baseText, baseRev := acknowledgedText, this.revision;
      sentText := None;
      if accepted {
        acknowledgedText, this.revision := authoritativeText, revision;
        conflict := None;
      } else {
        conflict := Some(ConflictSnapshot(baseRev, baseText, revision, authoritativeText));
      }
    }

    method ResolveConflict() returns (snapshot: Option<ConflictSnapshot>)
      modifies this
      ensures snapshot == old(conflict) && View() == Resolved(old(View()))
      ensures conflict == None
      ensures if snapshot == None then unchanged(this) else
        acknowledgedText == snapshot.value.text && revision == snapshot.value.rev && sentText == None
    {
      snapshot := conflict;
      conflict := None;
      if snapshot.Some? {
        acknowledgedText, revision := snapshot.value.text, snapshot.value.rev;
        sentText := None;
      }
    }

    method ReconcileSnapshot(revision: nat, authoritativeText: Text, draft: Text)
      returns (outcome: Reconciliation)
      modifies this
      ensures (View(), outcome) == Reconciled(old(View()), revision, authoritativeText, draft)
      ensures outcome.Adopted? <==> draft in [old(acknowledgedText), authoritativeText]
      ensures outcome.KeepDraft? <==>
        && draft !in [old(acknowledgedText), authoritativeText]
        && (authoritativeText == old(acknowledgedText) || Some(authoritativeText) == old(sentText))
      ensures sentText == None
      ensures !outcome.Conflict? ==>
        acknowledgedText == authoritativeText && this.revision == revision && conflict == None
      ensures outcome.Conflict? ==>
        && acknowledgedText == old(acknowledgedText) && this.revision == old(this.revision)
        && conflict == Some(ConflictSnapshot(old(this.revision), old(acknowledgedText), revision, authoritativeText))
    {
      var baseText, baseRev := acknowledgedText, this.revision;
      var wasSent := sentText;
      sentText := None;
      if draft == baseText || draft == authoritativeText {
        acknowledgedText, this.revision, conflict := authoritativeText, revision, None;
        return Adopted;
      }
      if authoritativeText == baseText {
        this.revision, conflict := revision, None;
        return KeepDraft;
      }
      if wasSent == Some(authoritativeText) {
        acknowledgedText, this.revision, conflict := authoritativeText, revision, None;
        return KeepDraft;
      }
      conflict := Some(ConflictSnapshot(baseRev, baseText, revision, authoritativeText));
      outcome := Conflict;
    }

    method ReconcileProtectedSnapshot(revision: nat, authoritativeText: Text, draft: Text, serverDirty: bool)
      returns (outcome: Reconciliation)
      modifies this
      ensures (View(), outcome) ==
        ReconciledProtected(old(View()), revision, authoritativeText, draft, serverDirty)
      ensures serverDirty && authoritativeText != draft && authoritativeText != old(acknowledgedText)
              && Some(authoritativeText) != old(sentText) ==>
        && outcome.Conflict? && sentText == None
        && acknowledgedText == old(acknowledgedText) && this.revision == old(this.revision)
        && conflict == Some(ConflictSnapshot(old(this.revision), old(acknowledgedText), revision, authoritativeText))
      ensures !serverDirty || authoritativeText == draft || authoritativeText == old(acknowledgedText)
              || Some(authoritativeText) == old(sentText) ==>
        (View(), outcome) == Reconciled(old(View()), revision, authoritativeText, draft)
    {
      if serverDirty && draft != authoritativeText && authoritativeText != acknowledgedText
        && sentText != Some(authoritativeText)
      {
        conflict := Some(ConflictSnapshot(this.revision, acknowledgedText, revision, authoritativeText));
        sentText := None;
        return Conflict;
      }
      outcome := ReconcileSnapshot(revision, authoritativeText, draft);
    }
  }
}
