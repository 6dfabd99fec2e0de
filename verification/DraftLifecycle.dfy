/** The editor worker's open buffers and their recovery drafts: what a crash of the daemon after
    any command would lose, and what restoring a draft brings back. */
module DraftLifecycle {
  import opened Utf8
  import opened Wrappers
  import opened Edits
  import opened TextBuffer
  import opened PagedEdits
  import opened JournalReplay
  import opened WorkerCommands
  import opened WorkerAnswers
  import opened DraftStore
  import opened DraftRestore

  /** Drafts on disk, the generation of every file, what each generation ever held, the next
      generation, and the open buffers. */
  datatype World = World(disk: Disk, files: map<Text, nat>, contents: map<nat, Text>, serial: nat,
                         buffers: map<nat, Buffer>)

  /** The draft on disk brings back what this buffer shows. */
  predicate Safe(disk: Disk, contents: map<nat, Text>, b: Buffer) {
    && Get(disk, b.workspace, b.draftId).Ok? && Get(disk, b.workspace, b.draftId).value.Some?
    && Recovered(Get(disk, b.workspace, b.draftId).value.value, contents) == Some(b.live)
  }

  predicate Stored(disk: Disk, b: Buffer) {
    Get(disk, b.workspace, b.draftId) == Ok(Some(DraftOf(b)))
  }

  // ---- The invariant ----------------------------------------------------------------------

  ghost predicate DraftsOk(disk: Disk, contents: map<nat, Text>) {
    forall w, id :: Get(disk, w, id).Ok? &&
      (Get(disk, w, id).value.Some? ==> DraftOk(Get(disk, w, id).value.value, contents))
  }

  predicate KeysDistinct(buffers: map<nat, Buffer>) {
    forall i, j :: i in buffers && j in buffers && i != j ==> !SameKey(buffers[i], buffers[j])
  }

  ghost predicate Ready(w: World) {
    && Tidy(w.disk) && NoBackups(w.disk) && DraftsOk(w.disk, w.contents)
    && (forall g :: g in w.contents ==> g < w.serial && Utf8.Valid(w.contents[g]))
    && (forall p :: p in w.files ==> w.files[p] in w.contents)
  }

  /** One buffer is in step, and if it has unsaved text a crash would not lose it. */
  ghost predicate Kept(w: World, i: nat)
    requires i in w.buffers
  {
    InStep(w.buffers[i], w.contents) && (w.buffers[i].dirty ==> Safe(w.disk, w.contents, w.buffers[i]))
  }

  /** What every command keeps: a draft for every dirty buffer that brings back what it shows. */
  ghost predicate Recoverable(w: World) {
    Ready(w) && KeysDistinct(w.buffers) && forall i :: i in w.buffers ==> Kept(w, i)
  }

  ghost predicate RecoverableBut(w: World, id: nat) {
    Ready(w) && KeysDistinct(w.buffers) && forall i :: i in w.buffers && i != id ==> Kept(w, i)
  }

  lemma Rejoin(w: World, id: nat)
    requires RecoverableBut(w, id) && id in w.buffers
    ensures Recoverable(w) <==> Kept(w, id)
  {
  }

  /** No other buffer is checkpointed under the draft id of `next`. */
  predicate Unshared(buffers: map<nat, Buffer>, id: nat, next: Buffer) {
    forall i :: i in buffers && i != id ==> !SameKey(buffers[i], next)
  }

  lemma UnsharedDistinct(buffers: map<nat, Buffer>, id: nat, next: Buffer)
    requires KeysDistinct(buffers)
    ensures KeysDistinct(buffers[id := next]) <==> Unshared(buffers, id, next)
  {
    var all := buffers[id := next];
    if KeysDistinct(all) {
      forall i | i in buffers && i != id ensures !SameKey(buffers[i], next) {
        assert all[i] == buffers[i] && all[id] == next;
      }
    }
  }

  lemma Changed(w: World, id: nat, next: Buffer)
    requires Recoverable(w)
    ensures var v := w.(buffers := w.buffers[id := next]);
      Ready(v) && (Unshared(w.buffers, id, next) ==> RecoverableBut(v, id)) &&
      (KeysDistinct(v.buffers) <==> Unshared(w.buffers, id, next))
  {
    hide Ready;
    hide KeysDistinct;
    hide InStep;
    hide Safe;
    var v := w.(buffers := w.buffers[id := next]);
    ReadyWhatever(w, v.buffers);
    UnsharedDistinct(w.buffers, id, next);
    forall i | i in v.buffers && i != id ensures Kept(v, i) {
      assert Kept(w, i);
    }
  }

  lemma ReadyWhatever(w: World, buffers: map<nat, Buffer>)
    ensures Ready(w) ==> Ready(w.(buffers := buffers))
  {
  }

  // ---- Checkpoints -----------------------------------------------------------------------------

  lemma CheckpointSaves(b: Buffer, contents: map<nat, Text>, before: Disk, after: Disk)
    requires InStep(b, contents) && b.dirty && Effect(before, after, Op.Checkpoint(b.workspace, DraftOf(b)), true)
    ensures Safe(after, contents, b)
  {
    hide Get;
    hide Recovered;
    hide InStep;
    DraftSaves(b, contents);
  }

  /** A checkpoint of one buffer endangers another exactly when they share a draft id and do not
      show the same text. */
  lemma SharedDraft(b: Buffer, c: Buffer, contents: map<nat, Text>, before: Disk, after: Disk)
    requires InStep(b, contents) && b.dirty && Safe(before, contents, c)
    requires Effect(before, after, Op.Checkpoint(b.workspace, DraftOf(b)), true)
    ensures Safe(after, contents, c) <==> !SameKey(b, c) || b.live == c.live
  {
    hide Get;
    hide Recovered;
    hide InStep;
    DraftSaves(b, contents);
    if !SameKey(b, c) {
      assert Get(after, c.workspace, c.draftId) == Get(before, c.workspace, c.draftId);
    }
  }

  /** An operation under a buffer's key, completed or cut off by a crash, leaves all the others as
      recoverable as before. */
  lemma OthersKept(w: World, id: nat, after: Disk, op: Op)
    requires RecoverableBut(w, id) && id in w.buffers
    requires op.workspace == w.buffers[id].workspace && KeyOf(op) == w.buffers[id].draftId
    requires Effect(w.disk, after, op, false) && Tidy(after) && NoBackups(after)
    requires op.Checkpoint? ==> DraftOk(op.draft, w.contents)
    ensures RecoverableBut(w.(disk := after), id)
  {
    ReadyAfter(w, after, op);
    hide Get;
    hide Recovered;
    hide InStep;
    hide DraftOk;
    hide Tidy;
    hide NoBackups;
    var v := w.(disk := after);
    forall i | i in v.buffers && i != id ensures Kept(v, i) {
      assert Kept(w, i) && !SameKey(w.buffers[i], w.buffers[id]);
      var b := w.buffers[i];
      assert Get(after, b.workspace, b.draftId) == Get(w.disk, b.workspace, b.draftId);
    }
  }

  lemma ReadyAfter(w: World, after: Disk, op: Op)
    requires Ready(w) && Effect(w.disk, after, op, false) && Tidy(after) && NoBackups(after)
    requires op.Checkpoint? ==> DraftOk(op.draft, w.contents)
    ensures Ready(w.(disk := after))
  {
    hide Get;
    hide DraftOk;
    hide Tidy;
    hide NoBackups;
    hide Utf8.Valid;
  }

  /** A disk a crash may leave while the draft of a buffer is stored or discarded: every other
      buffer is recoverable, and this one's draft is as before or as afterwards. */
  ghost predicate CrashLeaves(w: World, id: nat, before: Disk, crash: Disk)
    requires id in w.buffers
  {
    var b := w.buffers[id];
    && RecoverableBut(w.(disk := crash), id)
    && (|| Get(crash, b.workspace, b.draftId) == Get(before, b.workspace, b.draftId)
        || Get(crash, b.workspace, b.draftId) == Get(w.disk, b.workspace, b.draftId))
  }

  /** So does every crash from the moment the buffer was changed. */
  ghost predicate Atomic(w: World, id: nat, before: Disk, earlier: seq<Disk>, crashes: seq<Disk>) {
    && id in w.buffers && earlier <= crashes && CrashLeaves(w, id, before, before)
    && forall k :: |earlier| <= k < |crashes| ==> CrashLeaves(w, id, before, crashes[k])
  }

  lemma AtomicNothing(w: World, id: nat, crashes: seq<Disk>)
    requires id in w.buffers && RecoverableBut(w, id)
    ensures Atomic(w, id, w.disk, crashes, crashes)
  {
    hide Get;
    hide RecoverableBut;
    assert w.(disk := w.disk) == w;
  }

  /** An operation on the draft of a buffer is atomic, whichever file operation a crash follows. */
  lemma AtomicOperation(w: World, id: nat, after: Disk, op: Op, earlier: seq<Disk>, crashes: seq<Disk>)
    requires RecoverableBut(w, id) && id in w.buffers
    requires op.workspace == w.buffers[id].workspace && KeyOf(op) == w.buffers[id].draftId
    requires op.Checkpoint? ==> DraftOk(op.draft, w.contents)
    requires Effect(w.disk, after, op, true) && earlier <= crashes
    requires forall k :: |earlier| <= k < |crashes| ==>
      Effect(w.disk, crashes[k], op, false) && Tidy(crashes[k]) && NoBackups(crashes[k])
    ensures Atomic(w.(disk := after), id, w.disk, earlier, crashes)
  {
    hide Get;
    hide RecoverableBut;
    hide Tidy;
    hide NoBackups;
    hide DraftOk;
    var v := w.(disk := after);
    assert v.(disk := w.disk) == w;
    forall k | |earlier| <= k < |crashes| ensures CrashLeaves(v, id, w.disk, crashes[k]) {
      OthersKept(w, id, crashes[k], op);
      assert v.(disk := crashes[k]) == w.(disk := crashes[k]);
    }
  }

  /** After such a crash every other dirty buffer is safe, and this one as it was before or as it
      is now, if it was and is. */
  lemma CrashSafe(w: World, id: nat, previous: Buffer, before: Disk, crash: Disk)
    requires id in w.buffers && CrashLeaves(w, id, before, crash) && SameKey(previous, w.buffers[id])
    ensures Ready(w.(disk := crash))
    ensures forall i :: i in w.buffers && i != id && w.buffers[i].dirty ==> Safe(crash, w.contents, w.buffers[i])
    ensures Safe(before, w.contents, previous) && Safe(w.disk, w.contents, w.buffers[id]) ==>
      Safe(crash, w.contents, previous) || Safe(crash, w.contents, w.buffers[id])
  {
    hide Ready;
    hide Get;
    hide Recovered;
    hide InStep;
    hide KeysDistinct;
    forall i | i in w.buffers && i != id && w.buffers[i].dirty ensures Safe(crash, w.contents, w.buffers[i]) {
      assert Kept(w.(disk := crash), i);
    }
  }

  lemma ReadyPartitions(w: World, workspace: Text)
    requires Ready(w)
    ensures Read(w.disk, workspace, false).Ok? && Read(w.disk, workspace, true).Ok?
    ensures forall v, paged :: NoStaleBackup(w.disk, v, paged)
    ensures Tidy(w.disk) && NoBackups(w.disk)
  {
    assert Get(w.disk, workspace, []).Ok?;
  }

  /** A new generation changes nothing for what refers to older ones. */
  lemma ContentsGrow(w: World, p: Text, text: Text)
    requires Recoverable(w) && Utf8.Valid(text)
    ensures Recoverable(w.(files := w.files[p := w.serial], contents := w.contents[w.serial := text], serial := w.serial + 1))
  {
    hide Utf8.Valid;
    hide Replays;
    hide Replay;
    hide Advance;
    hide Get;
    hide Tidy;
    hide NoBackups;
    var v := w.(files := w.files[p := w.serial], contents := w.contents[w.serial := text], serial := w.serial + 1);
    forall i | i in v.buffers ensures Kept(v, i) {
      assert Kept(w, i);
    }
  }

  // ---- The worker --------------------------------------------------------------------------------

  class Worker {
    var buffers: map<nat, Buffer>
    var files: map<Text, nat>
    var contents: map<nat, Text>
    var nextGeneration: nat
    const store: DraftStore

    function View(): World
      reads this, store
    {
      World(store.files, files, contents, nextGeneration, buffers)
    }

    constructor (store: DraftStore, files: map<Text, nat>, contents: map<nat, Text>, next: nat)
      requires Ready(World(store.files, files, contents, next, map[]))
      ensures this.store == store && View() == World(store.files, files, contents, next, map[])
      ensures Recoverable(View())
    {
      this.store, this.files, this.contents, nextGeneration, buffers := store, files, contents, next, map[];
    }

    /** Another program writes a file. */
    method WriteFile(p: Text, text: Text)
      requires Recoverable(View()) && Utf8.Valid(text)
      modifies this
      ensures Recoverable(View()) && buffers == old(buffers)
      ensures files == old(files)[p := old(nextGeneration)] && contents == old(contents)[old(nextGeneration) := text]
      ensures nextGeneration == old(nextGeneration) + 1
    {
      ContentsGrow(View(), p, text);
      files, contents, nextGeneration :=
        files[p := nextGeneration], contents[nextGeneration := text], nextGeneration + 1;
    }

    /** `checkpoint`: nothing for a clean buffer. */
    method CheckpointEntry(id: nat, uuid: nat, uuid': nat)
      requires id in buffers && Ready(View()) && DraftOk(DraftOf(buffers[id]), contents)
      requires KeysDistinct(buffers) ==> RecoverableBut(View(), id)
      modifies store
      ensures buffers[id].dirty ==> Stored(store.files, buffers[id])
      ensures Recoverable(View()) <==> KeysDistinct(buffers) && InStep(buffers[id], contents)
      ensures KeysDistinct(buffers) ==> Atomic(View(), id, old(store.files), old(store.crashes), store.crashes)
    {
      hide Atomic;
      hide NoBackups;
      hide Tidy;
      hide Effect;
      hide Ready;
      hide KeysDistinct;
      hide InStep;
      hide Recovered;
      hide DraftOk;
      ghost var before, earlier := View(), store.crashes;
      var b := buffers[id];
      if KeysDistinct(buffers) {
        AtomicNothing(before, id, earlier);
      }
      if b.dirty {
        ReadyPartitions(before, b.workspace);
        var ok, swallowed := store.Checkpoint(b.workspace, DraftOf(b), uuid, uuid', false);
        EffectStores(before.disk, store.files, b);
        if KeysDistinct(buffers) {
          OthersKept(before, id, store.files, Op.Checkpoint(b.workspace, DraftOf(b)));
          AtomicOperation(before, id, store.files, Op.Checkpoint(b.workspace, DraftOf(b)), earlier, store.crashes);
        }
        if InStep(b, contents) {
          CheckpointSaves(b, contents, before.disk, store.files);
        }
      }
      if KeysDistinct(buffers) {
        Rejoin(View(), id);
      }
    }

    method DiscardEntry(id: nat, uuid: nat, uuid': nat)
      requires id in buffers && Ready(View())
      requires KeysDistinct(buffers) ==> RecoverableBut(View(), id)
      modifies store
      ensures NoDraft(store.files, buffers[id])
      ensures KeysDistinct(buffers) ==> RecoverableBut(View(), id)
      ensures Recoverable(View()) <==> KeysDistinct(buffers) && InStep(buffers[id], contents) && !buffers[id].dirty
      ensures KeysDistinct(buffers) ==> Atomic(View(), id, old(store.files), old(store.crashes), store.crashes)
    {
      hide Atomic;
      hide NoBackups;
      hide Tidy;
      hide Effect;
      hide Ready;
      hide KeysDistinct;
      hide InStep;
      hide Recovered;
      ghost var before, earlier := View(), store.crashes;
      var b := buffers[id];
      ReadyPartitions(before, b.workspace);
      var ok, swallowed := store.Discard(b.workspace, b.draftId, uuid, uuid', false);
      EffectDiscards(before.disk, store.files, b.workspace, b.draftId);
      if KeysDistinct(buffers) {
        OthersKept(before, id, store.files, Op.Discard(b.workspace, b.draftId));
        AtomicOperation(before, id, store.files, Op.Discard(b.workspace, b.draftId), earlier, store.crashes);
        Rejoin(View(), id);
      }
    }

    /** Take over what a command left, then checkpoint a dirty buffer or discard the draft of a
        clean one, as the command asks. Every dirty buffer still has its draft exactly if this one
        is in step and shares its draft id with no other. */
    method Commit(id: nat, next: Buffer, checkpoints: bool, discards: bool, uuid: nat, uuid': nat)
      requires Recoverable(View()) && DraftOk(DraftOf(next), contents)
      requires !checkpoints && next.dirty ==>
        id in buffers && buffers[id].dirty && SameKey(next, buffers[id]) && next.live == buffers[id].live
      modifies this`buffers, store
      ensures buffers == old(buffers)[id := next]
      ensures Recoverable(View()) <==> Unshared(old(buffers), id, next) && InStep(next, contents)
      ensures checkpoints && next.dirty ==> Stored(store.files, next)
      ensures discards && !next.dirty ==> NoDraft(store.files, next)
      ensures Unshared(old(buffers), id, next) ==>
        Atomic(View(), id, old(store.files), old(store.crashes), store.crashes)
    {
      hide Atomic;
      hide Ready;
      hide KeysDistinct;
      hide Unshared;
      hide InStep;
      hide Recovered;
      hide DraftOk;
      hide Get;
      Changed(View(), id, next);
      ghost var before := View();
      buffers := buffers[id := next];
      if checkpoints && next.dirty {
        CheckpointEntry(id, uuid, uuid');
      } else if discards && !next.dirty {
        DiscardEntry(id, uuid, uuid');
      } else if KeysDistinct(buffers) {
        AtomicNothing(View(), id, store.crashes);
        Rejoin(View(), id);
        if next.dirty {
          assert Kept(before, id);
        }
      }
    }

    // ---- Commands on one buffer ------------------------------------------------------------

    /** `Cmd::Edit`: checkpointed when it succeeds. */
    method Edit(id: nat, baseRev: nat, text: Text, uuid: nat, uuid': nat) returns (o: Option<Outcome>)
      requires Recoverable(View()) && Utf8.Valid(text)
      modifies this`buffers, store
      ensures o == if id in old(buffers) then Some(Edited(old(buffers)[id], baseRev, text)) else None
      ensures buffers == if o.Some? then old(buffers)[id := o.value.next] else old(buffers)
      ensures Recoverable(View())
      ensures o.Some? && o.value.Answered? ==> Stored(store.files, o.value.next)
      ensures id in old(buffers) ==> Atomic(View(), id, old(store.files), old(store.crashes), store.crashes)
      ensures o.Some? ==> EditAnswer(old(buffers)[id], baseRev, text, o.value)
    {
      hide Atomic;
      hide Recoverable;
      hide InStep;
      hide Utf8.Valid;
      if id !in buffers {
        return None;
      }
      BufferAt(View(), id);
      var b := buffers[id];
      var outcome := Edited(b, baseRev, text);
      EditAnswered(b, contents, baseRev, text);
      EditedInStep(b, contents, baseRev, text);
      NextFits(View(), id, outcome.next);
      Commit(id, outcome.next, outcome.Answered?, false, uuid, uuid');
      return Some(outcome);
    }

    /** `Cmd::RangeEdit`: checkpointed when something was accepted and the buffer is dirty. */
    method RangeEdit(id: nat, baseRev: nat, edits: seq<RangeEdit>, view: Option<Viewport>, selection: Selection,
                     uuid: nat, uuid': nat)
      returns (o: Option<Outcome>)
      requires Recoverable(View()) && ValidEdits(edits)
      modifies this`buffers, store
      ensures o == if id in old(buffers)
        then Some(Ranged(old(buffers)[id], DiskOf(files, old(buffers)[id].path), baseRev, edits, view, selection))
        else None
      ensures buffers == if o.Some? then old(buffers)[id := o.value.next] else old(buffers)
      ensures Recoverable(View())
      ensures o.Some? && o.value.Answered? && o.value.accepted && o.value.next.dirty ==>
        Stored(store.files, o.value.next)
      ensures id in old(buffers) ==> Atomic(View(), id, old(store.files), old(store.crashes), store.crashes)
      ensures o.Some? ==> RangeAnswer(old(buffers)[id], DiskOf(files, old(buffers)[id].path), baseRev, edits, view,
                                      selection, o.value)
    {
      hide Atomic;
      hide Recoverable;
      hide InStep;
      hide Ranged;
      if id !in buffers {
        return None;
      }
      BufferAt(View(), id);
      var b := buffers[id];
      var outcome := Ranged(b, DiskOf(files, b.path), baseRev, edits, view, selection);
      RangeAnswered(b, contents, DiskOf(files, b.path), baseRev, edits, view, selection);
      RangedInStep(b, contents, DiskOf(files, b.path), baseRev, edits, view, selection);
      NextFits(View(), id, outcome.next);
      Commit(id, outcome.next, outcome.Answered? && outcome.accepted, false, uuid, uuid');
      return Some(outcome);
    }

    /** `Cmd::Action`: when accepted, a dirty buffer is checkpointed and a clean one loses its
        draft. Only undo and redo can break what is kept, by going back over the limit. */
    method Action(id: nat, baseRev: nat, action: Action, selection: Selection, uuid: nat, uuid': nat)
      returns (o: Option<Outcome>)
      requires Recoverable(View()) && (id in buffers ==> FromFresh(buffers[id].live, action))
      modifies this`buffers, store
      ensures o == if id in old(buffers) then Some(Acted(old(buffers)[id], baseRev, action, selection)) else None
      ensures buffers == if o.Some? then old(buffers)[id := o.value.next] else old(buffers)
      ensures Recoverable(View()) <==>
        (o.Some? && o.value.Answered? && o.value.accepted && action.UndoRedo? ==>
           |action.text| <= MAX_SNAPSHOT_BYTES)
      ensures o.Some? && o.value.Answered? && o.value.accepted ==>
        if o.value.next.dirty then Stored(store.files, o.value.next) else NoDraft(store.files, o.value.next)
      ensures id in old(buffers) ==> Atomic(View(), id, old(store.files), old(store.crashes), store.crashes)
      ensures o.Some? ==> ActionAnswer(old(buffers)[id], baseRev, action, selection, o.value)
    {
      hide Atomic;
      hide Recoverable;
      hide InStep;
      hide Acted;
      hide Utf8.Valid;
      if id !in buffers {
        return None;
      }
      BufferAt(View(), id);
      var b := buffers[id];
      var outcome := Acted(b, baseRev, action, selection);
      ActionAnswered(b, contents, baseRev, action, selection);
      ActedInStep(b, contents, baseRev, action, selection);
      PagedActs(b, baseRev, action, selection);
      NextFits(View(), id, outcome.next);
      var accepted := outcome.Answered? && outcome.accepted;
      Commit(id, outcome.next, accepted, accepted, uuid, uuid');
      return Some(outcome);
    }

    /** `Cmd::Sync`: checkpointed when it succeeds. */
    method Sync(id: nat, uuid: nat, uuid': nat) returns (o: Option<Outcome>)
      requires Recoverable(View())
      modifies this`buffers, store
      ensures o == if id in old(buffers) then Some(SyncAnswered(old(buffers)[id])) else None
      ensures buffers == if o.Some? then old(buffers)[id := o.value.next] else old(buffers)
      ensures Recoverable(View())
      ensures id in old(buffers) ==> Atomic(View(), id, old(store.files), old(store.crashes), store.crashes)
      ensures o.Some? ==> SyncAnswer(old(buffers)[id], o.value)
    {
      hide Atomic;
      hide Recoverable;
      hide InStep;
      if id !in buffers {
        return None;
      }
      BufferAt(View(), id);
      var outcome := SyncAnswered(buffers[id]);
      SyncAnsweredAs(buffers[id], contents);
      SyncedInStep(buffers[id], contents);
      NextFits(View(), id, outcome.next);
      Commit(id, outcome.next, outcome.Answered?, false, uuid, uuid');
      return Some(outcome);
    }

    /** `Cmd::LspGet`: a sync, checkpointed when the client is behind. */
    method LspGet(id: nat, knownRev: nat, uuid: nat, uuid': nat) returns (found: bool)
      requires Recoverable(View())
      modifies this`buffers, store
      ensures found <==> id in old(buffers)
      ensures buffers == if found then old(buffers)[id := Synced(old(buffers)[id])] else old(buffers)
      ensures Recoverable(View())
      ensures found ==> Atomic(View(), id, old(store.files), old(store.crashes), store.crashes)
      ensures found && !buffers[id].paged && buffers[id].rev != knownRev && buffers[id].dirty ==>
        Stored(store.files, buffers[id])
      ensures found ==> Unedited(old(buffers)[id], buffers[id]) && buffers[id].dirty == old(buffers)[id].modified
    {
      hide Atomic;
      hide Recoverable;
      hide InStep;
      if id !in buffers {
        return false;
      }
      BufferAt(View(), id);
      var next := Synced(buffers[id]);
      SyncAnsweredAs(buffers[id], contents);
      SyncedInStep(buffers[id], contents);
      NextFits(View(), id, next);
      Commit(id, next, !next.paged && next.rev != knownRev, false, uuid, uuid');
      return true;
    }

    /** `Cmd::ReadPage`, a Keep or an Overwrite: a sync without a checkpoint. */
    method Refresh(id: nat) returns (found: bool)
      requires Recoverable(View())
      modifies this`buffers
      ensures found <==> id in old(buffers)
      ensures buffers == if found then old(buffers)[id := Synced(old(buffers)[id])] else old(buffers)
      ensures Recoverable(View())
      ensures found ==> Unedited(old(buffers)[id], buffers[id]) && buffers[id].dirty == old(buffers)[id].modified
    {
      hide Recoverable;
      hide InStep;
      hide Safe;
      if id !in buffers {
        return false;
      }
      BufferAt(View(), id);
      SyncAnsweredAs(buffers[id], contents);
      SyncedInStep(buffers[id], contents);
      NextFits(View(), id, Synced(buffers[id]));
      SafeAt(View(), id);
      BufferReplaced(View(), id, Synced(buffers[id]));
      buffers := buffers[id := Synced(buffers[id])];
      return true;
    }

    /** `Cmd::Scene` and requests to language servers sync every buffer that is not paged. */
    method Scene()
      requires Recoverable(View())
      modifies this`buffers
      ensures Recoverable(View()) && buffers == SyncedAll(old(buffers)) && buffers.Keys == old(buffers).Keys
      ensures forall i :: i in buffers ==> TookOver(old(buffers)[i], buffers[i])
    {
      SyncedUnedited(View());
      SyncedKept(View());
      buffers := SyncedAll(buffers);
    }

    /** `Cmd::New`, under a fresh draft id. */
    method New(workspace: Text, untitled: Text, id: nat)
      requires Recoverable(View()) && id !in buffers
      modifies this`buffers
      ensures buffers == old(buffers)[id := Untitled(workspace, untitled)]
      ensures Recoverable(View()) <==> Unshared(old(buffers), id, Untitled(workspace, untitled))
    {
      EmptyInStep(workspace, untitled, contents);
      BufferReplaced(View(), id, Untitled(workspace, untitled));
      buffers := buffers[id := Untitled(workspace, untitled)];
    }

    /** `Cmd::Format`: checkpointed when the formatter changed the text. */
    method Format(id: nat, baseRev: nat, works: bool, text: Text, modified: bool, uuid: nat, uuid': nat)
      returns (o: Option<Outcome>)
      requires Recoverable(View()) && Utf8.Valid(text)
      modifies this`buffers, store
      ensures o == if id in old(buffers) then Some(Formatted(old(buffers)[id], baseRev, works, text, modified)) else None
      ensures buffers == if o.Some? then old(buffers)[id := o.value.next] else old(buffers)
      ensures o.Some? && o.value.Answered? && o.value.accepted ==> Stored(store.files, o.value.next)
      ensures Recoverable(View()) <==>
        (o.Some? && o.value.Answered? && o.value.accepted ==> |text| <= MAX_SNAPSHOT_BYTES)
      ensures id in old(buffers) ==> Atomic(View(), id, old(store.files), old(store.crashes), store.crashes)
      ensures o.Some? ==> FormatAnswer(old(buffers)[id], baseRev, works, text, modified, o.value)
    {
      hide Atomic;
      hide Recoverable;
      hide InStep;
      hide Utf8.Valid;
      if id !in buffers {
        return None;
      }
      BufferAt(View(), id);
      var b := buffers[id];
      var outcome := Formatted(b, baseRev, works, text, modified);
      FormatAnswered(b, contents, baseRev, works, text, modified);
      FormattedInStep(b, contents, baseRev, works, text, modified);
      NextFits(View(), id, outcome.next);
      Commit(id, outcome.next, outcome.Answered? && outcome.accepted, false, uuid, uuid');
      return Some(outcome);
    }

    /** `Cmd::FileControl`: a dirty buffer is checkpointed, a clean one loses its draft, even when
        only inspected. */
    method FileControl(id: nat, baseRev: nat, control: Control, uuid: nat, uuid': nat) returns (o: Option<Outcome>)
      requires Recoverable(View()) && (!control.Inspect? ==> Utf8.Valid(control.text))
      modifies this`buffers, store
      ensures o == if id in old(buffers) then Some(Controlled(old(buffers)[id], baseRev, control)) else None
      ensures buffers == if o.Some? then old(buffers)[id := o.value.next] else old(buffers)
      ensures Recoverable(View()) <==>
        (o.Some? && o.value.Answered? && !control.Inspect? ==> |control.text| <= MAX_SNAPSHOT_BYTES)
      ensures o.Some? && o.value.Answered? ==>
        if o.value.next.dirty then Stored(store.files, o.value.next) else NoDraft(store.files, o.value.next)
      ensures id in old(buffers) ==> Atomic(View(), id, old(store.files), old(store.crashes), store.crashes)
      ensures o.Some? ==> ControlAnswer(old(buffers)[id], baseRev, control, o.value)
    {
      hide Atomic;
      hide Recoverable;
      hide InStep;
      hide Controlled;
      hide Utf8.Valid;
      if id !in buffers {
        return None;
      }
      BufferAt(View(), id);
      var b := buffers[id];
      var outcome := Controlled(b, baseRev, control);
      ControlAnswered(b, contents, baseRev, control);
      ControlledInStep(b, contents, baseRev, control);
      PagedControls(b, baseRev, control);
      NextFits(View(), id, outcome.next);
      Commit(id, outcome.next, outcome.Answered?, outcome.Answered?, uuid, uuid');
      return Some(outcome);
    }

    /** One buffer's turn in a poll: a warned one is checkpointed, a reloaded one is clean. */
    method Poll(id: nat, changed: bool, text: Option<Text>, uuid: nat, uuid': nat)
      requires Recoverable(View()) && id in buffers && (text.Some? ==> Utf8.Valid(text.value))
      modifies this`buffers, store
      ensures buffers == old(buffers)[id := WorkerCommands.Polled(old(buffers)[id], changed, text)]
      ensures Recoverable(View()) <==>
        (changed && !old(buffers)[id].paged && !old(buffers)[id].modified && text.Some? ==>
           |text.value| <= MAX_SNAPSHOT_BYTES)
      ensures changed && buffers[id].dirty ==> Stored(store.files, buffers[id])
      ensures Atomic(View(), id, old(store.files), old(store.crashes), store.crashes)
      ensures PollTurn(old(buffers)[id], changed, text, buffers[id])
    {
      hide Atomic;
      hide Recoverable;
      hide InStep;
      hide Utf8.Valid;
      BufferAt(View(), id);
      var b := buffers[id];
      var next := WorkerCommands.Polled(b, changed, text);
      PollAnswered(b, contents, changed, text);
      PolledInStep(b, contents, changed, text);
      NextFits(View(), id, next);
      Commit(id, next, changed, false, uuid, uuid');
    }

    /** A Reload resolution gives the draft up. */
    method Reload(id: nat, allowed: bool, p: Text, text: Text, uuid: nat, uuid': nat) returns (o: Option<Outcome>)
      requires Recoverable(View()) && Utf8.Valid(text)
      modifies this`buffers, store
      ensures o == if id in old(buffers) then Some(Reloaded(old(buffers)[id], allowed, p, text)) else None
      ensures buffers == if o.Some? then old(buffers)[id := o.value.next] else old(buffers)
      ensures Recoverable(View()) <==> (o.Some? && o.value.Answered? ==> |text| <= MAX_SNAPSHOT_BYTES)
      ensures o.Some? && o.value.Answered? ==> NoDraft(store.files, o.value.next)
      ensures id in old(buffers) ==> Atomic(View(), id, old(store.files), old(store.crashes), store.crashes)
      ensures o.Some? ==> ReloadAnswer(old(buffers)[id], allowed, p, text, o.value)
    {
      hide Atomic;
      hide Recoverable;
      hide InStep;
      hide Utf8.Valid;
      if id !in buffers {
        return None;
      }
      BufferAt(View(), id);
      var b := buffers[id];
      var outcome := Reloaded(b, allowed, p, text);
      ReloadAnswered(b, contents, allowed, p, text);
      ReloadedInStep(b, contents, allowed, p, text);
      NextFits(View(), id, outcome.next);
      Commit(id, outcome.next, false, outcome.Answered?, uuid, uuid');
      return Some(outcome);
    }

    /** `Cmd::Save`: the file gets a new generation; a buffer left dirty is checkpointed, a clean
        one loses its draft. What is kept breaks exactly when the on-save actions leave a text
        over the limit that is modified or not what the file holds. */
    method Save(id: nat, baseRev: nat, dest: Option<Text>, allowed: bool, done: Aftermath, uuid: nat, uuid': nat)
      returns (saved: bool)
      requires Recoverable(View()) && Utf8.Valid(done.text) && Utf8.Valid(done.written)
      modifies this, store
      ensures saved <==>
        && id in old(buffers)
        && Writes(old(buffers)[id], baseRev, dest, DiskOf(old(files), OwnPath(old(buffers)[id])), allowed)
      ensures buffers == if id !in old(buffers) then old(buffers) else old(buffers)[id :=
        if saved then SavedAs(old(buffers)[id], dest, old(nextGeneration), done) else Synced(old(buffers)[id])]
      ensures !saved ==> files == old(files) && contents == old(contents) && nextGeneration == old(nextGeneration)
      ensures saved ==>
        && files == old(files)[SaveTarget(old(buffers)[id], dest).value := old(nextGeneration)]
        && contents == old(contents)[old(nextGeneration) := Effects(old(buffers)[id], done).written]
        && nextGeneration == old(nextGeneration) + 1
      ensures Recoverable(View()) <==>
        (saved ==> var e := Effects(old(buffers)[id], done);
                   |e.text| <= MAX_SNAPSHOT_BYTES || (e.text == e.written && !e.modified))
      ensures saved ==>
        if buffers[id].dirty then Stored(store.files, buffers[id]) else NoDraft(store.files, buffers[id])
      ensures id in old(buffers) ==> Atomic(View(), id, old(store.files), old(store.crashes), store.crashes)
      ensures saved <==>
        && id in old(buffers)
        && var b := old(buffers)[id];
           MaySave(b, baseRev, dest, DiskOf(old(files), if b.path.Some? then b.path else b.recoveryPath), allowed)
      ensures id in old(buffers) ==>
        if saved then SavedBuffer(old(buffers)[id], dest, old(nextGeneration), done, buffers[id])
        else Unedited(old(buffers)[id], buffers[id])
      ensures saved ==>
        && buffers[id].path.Some? && buffers[id].path.value in files
        && files[buffers[id].path.value] == old(nextGeneration)
        && contents[old(nextGeneration)] == if old(buffers)[id].paged then old(buffers)[id].live else done.written
    {
      hide Atomic;
      hide Recoverable;
      hide InStep;
      hide Utf8.Valid;
      hide SavedAs;
      if id !in buffers {
        return false;
      }
      BufferAt(View(), id);
      var b := buffers[id];
      SaveAnswered(b, contents, baseRev, dest, DiskOf(files, OwnPath(b)), allowed, nextGeneration, done);
      SyncedInStep(b, contents);
      var target := SaveTarget(b, dest);
      if !Writes(b, baseRev, dest, DiskOf(files, OwnPath(b)), allowed) {
        NextFits(View(), id, Synced(b));
        Commit(id, Synced(b), false, false, uuid, uuid');
        return false;
      }
      var g := nextGeneration;
      SavedInStep(b, contents, dest, g, done);
      var next := SavedAs(b, dest, g, done);
      var e := Effects(b, done);
      WriteFile(target.value, e.written);
      NextFits(View(), id, next);
      Commit(id, next, true, true, uuid, uuid');
      return true;
    }

    /** `Cmd::Open`. Opening does not look for the draft id it gives the buffer: a second buffer
        under one endangers both. */
    method Open(workspace: Text, p: Text, target: nat, works: bool) returns (opens: bool)
      requires Recoverable(View()) && OpenTarget(buffers, p, target)
      modifies this`buffers
      ensures opens <==> Opens(old(View()), workspace, p, works)
      ensures opens <==>
        && works && p in files
        && forall i :: i in old(buffers) && old(buffers)[i].path == Some(p) ==> old(buffers)[i].workspace == workspace
      ensures buffers == if opens then SyncedAll(old(buffers))[target := Entry(old(View()), workspace, p, target)]
                         else SyncedAll(old(buffers))
      ensures forall i :: i in old(buffers) && !(opens && i == target) ==>
        i in buffers && TookOver(old(buffers)[i], buffers[i])
      ensures opens && target in old(buffers) ==>
        TookOver(old(buffers)[target].(recoveryPath := Some(p)), buffers[target])
      ensures opens && target !in old(buffers) ==>
        && files[p] in contents && JustOpened(buffers[target], workspace, p, files[p], contents[files[p]])
      ensures Recoverable(View()) <==>
        (opens ==> Unshared(old(buffers), target, Entry(old(View()), workspace, p, target)))
    {
      hide Recoverable;
      hide Unshared;
      hide InStep;
      hide Safe;
      hide Get;
      hide Entry;
      hide JustOpened;
      hide TookOver;
      SyncedKept(View());
      SyncedUnedited(View());
      opens := Opens(View(), workspace, p, works);
      if !opens {
        buffers := SyncedAll(buffers);
        return;
      }
      EntryKept(View(), workspace, p, target);
      EntryIs(View(), workspace, p, target);
      var b := Entry(View(), workspace, p, target);
      buffers := SyncedAll(buffers);
      BufferReplaced(View(), target, b);
      buffers := buffers[target := b];
    }

    /** `Cmd::DraftRestore`. An open paged buffer that already is the draft's is handed back as it
        is; otherwise the draft goes into the buffer its file opens in. What is kept breaks exactly
        if that buffer has paged edits of its own that the draft's do not overwrite, or if another
        buffer is open under the draft id. */
    method Restore(workspace: Text, draftId: Text, target: nat, untitled: Text, works: bool, uuid: nat, uuid': nat)
      returns (id: Option<nat>)
      requires Recoverable(View())
      requires match Planned(View(), workspace, draftId, target, untitled, works)
        case Into(draft, loaded, o) => RestoreTarget(View(), workspace, draft.path, target, works)
        case _ => true
      modifies this`buffers, store
      ensures match Planned(old(View()), workspace, draftId, target, untitled, works)
        case Refused => id == None && View() == old(View())
        case AlreadyOpen(draft) =>
          View() == old(View()) && id.Some? && id.value in buffers && Holds(buffers[id.value], draft)
        case Into(draft, loaded, o) =>
          && buffers == loaded[target := o.next] && id == (if o.Answered? then Some(target) else None)
          && (o.Answered? && draft.pages == None ==> Stored(store.files, o.next))
          && (Unshared(old(buffers), target, o.next) ==>
                Atomic(View(), target, old(store.files), old(store.crashes), store.crashes))
          && (Recoverable(View()) <==>
                && Unshared(old(buffers), target, o.next)
                && if o.Answered? then Stackable(loaded[target], draft, contents)
                   else loaded[target].journal != [] ==> Undisturbed(loaded[target], draft))
    {
      hide Atomic;
      hide Undisturbed;
      hide Recoverable;
      hide Restoring;
      hide AgreeWhereKept;
      hide InStep;
      hide KeysDistinct;
      hide Unshared;
      hide Get;
      hide Safe;
      hide DraftOk;
      hide RestoreTarget;
      hide Opens;
      hide OpenedFor;
      hide Utf8.Valid;
      var found := Get(store.files, workspace, draftId);
      if found.Err? || found.value == None {
        return None;
      }
      var draft := found.value.value;
      if draft.pages.Some? {
        if DiskOf(files, draft.path) != Some(draft.pages.value.generation) {
          return None;
        }
        if exists i :: i in buffers && Holds(buffers[i], draft) {
          var i :| i in buffers && Holds(buffers[i], draft);
          return Some(i);
        }
      }
      StoredDraft(View(), workspace, draftId);
      LoadedKept(View(), workspace, draft.path, target, untitled, works);
      var b := OpenedFor(View(), workspace, draft.path, target, untitled, works)[target];
      var o := Restoring(b, workspace, draft);
      RestoringExact(b, workspace, draft, contents);
      buffers := if Syncs(View(), draft.path) then SyncedAll(buffers) else buffers;
      if o.Answered? && draft.pages == None {
        InStepDraft(o.next, contents);
        Commit(target, o.next, true, false, uuid, uuid');
      } else {
        RestoredKept(View(), workspace, draft, b);
        BufferReplaced(View(), target, o.next);
        RestoredAtomic(View(), target, o.next, store.crashes);
        buffers := buffers[target := o.next];
      }
      return if o.Answered? then Some(target) else None;
    }

    method Close(id: nat)
      requires Recoverable(View())
      modifies this`buffers
      ensures Recoverable(View()) && buffers == old(buffers) - {id}
    {
      Dropped(View(), id);
      buffers := buffers - {id};
    }

    /** `Cmd::DraftDiscard`: throw a draft away and close its buffer. When the editor cannot close
        it, a dirty buffer stays open without a draft. */
    method DiscardDraft(id: nat, closes: bool, uuid: nat, uuid': nat) returns (done: bool)
      requires Recoverable(View())
      modifies this`buffers, store
      ensures done <==> id in old(buffers) && closes
      ensures buffers == if done then old(buffers) - {id} else old(buffers)
      ensures id in old(buffers) ==> NoDraft(store.files, old(buffers)[id])
      ensures id !in old(buffers) ==> View() == old(View())
      ensures Recoverable(View()) <==> (id in old(buffers) && !closes ==> !old(buffers)[id].dirty)
      ensures id in old(buffers) ==>
        Atomic(View().(buffers := old(buffers)), id, old(store.files), old(store.crashes), store.crashes)
    {
      hide Atomic;
      hide Recoverable;
      hide RecoverableBut;
      hide InStep;
      if id !in buffers {
        return false;
      }
      BufferAt(View(), id);
      Changed(View(), id, buffers[id]);
      assert buffers[id := buffers[id]] == buffers;
      DiscardEntry(id, uuid, uuid');
      if closes {
        DroppedBut(View(), id);
        buffers := buffers - {id};
      }
      return closes;
    }
  }

  // ---- Restoring a draft -----------------------------------------------------------------------

  /** The file opens: it exists, and no other workspace has it open. */
  predicate Opens(w: World, workspace: Text, p: Text, works: bool) {
    && works && p in w.files
    && forall i :: i in w.buffers && w.buffers[i].path == Some(p) ==> w.buffers[i].workspace == workspace
  }

  /** The editor opens a file in the buffer that already has it, or else in a new one. */
  predicate OpenTarget(buffers: map<nat, Buffer>, p: Text, target: nat) {
    if exists i :: i in buffers && buffers[i].path == Some(p)
    then target in buffers && buffers[target].path == Some(p)
    else target !in buffers
  }

  function SyncedAll(buffers: map<nat, Buffer>): map<nat, Buffer> {
    map i | i in buffers :: if buffers[i].paged then buffers[i] else Synced(buffers[i])
  }

  /** The buffer a file opens in: the one that has it, its edits and draft id kept, or a new one. */
  function Entry(w: World, workspace: Text, p: Text, target: nat): Buffer
    requires p in w.files && w.files[p] in w.contents
  {
    if target in w.buffers then Synced(w.buffers[target]).(recoveryPath := Some(p))
    else OpenedOn(workspace, p, w.files[p], w.contents[w.files[p]])
  }

  /** A file there is to open: every buffer is synced first, even if opening then fails. */
  predicate Syncs(w: World, p: Option<Text>) {
    p.Some? && p.value in w.files
  }

  /** The buffers once a restore has opened one: on the draft's file, or untitled. */
  function OpenedFor(w: World, workspace: Text, p: Option<Text>, target: nat, untitled: Text, works: bool): map<nat, Buffer>
    requires forall q :: q in w.files ==> w.files[q] in w.contents
  {
    if !Syncs(w, p) then w.buffers[target := Untitled(workspace, untitled)]
    else SyncedAll(w.buffers)[target :=
      if Opens(w, workspace, p.value, works) then Entry(w, workspace, p.value, target) else Untitled(workspace, untitled)]
  }

  predicate RestoreTarget(w: World, workspace: Text, p: Option<Text>, target: nat, works: bool) {
    if p.Some? && Opens(w, workspace, p.value, works) then OpenTarget(w.buffers, p.value, target)
    else target !in w.buffers
  }

  datatype Plan = Refused | AlreadyOpen(draft: Draft) | Into(draft: Draft, loaded: map<nat, Buffer>, outcome: Outcome)

  /** What a restore comes to: no such draft or a changed source; a buffer that already is the
      draft's; or a buffer, loaded, for the draft to go into. */
  function Planned(w: World, workspace: Text, draftId: Text, target: nat, untitled: Text, works: bool): Plan
    requires forall q :: q in w.files ==> w.files[q] in w.contents
  {
    var found := Get(w.disk, workspace, draftId);
    if found.Err? || found.value == None then Plan.Refused
    else
      var draft := found.value.value;
      if draft.pages.Some? && DiskOf(w.files, draft.path) != Some(draft.pages.value.generation) then Plan.Refused
      else if exists i :: i in w.buffers && Holds(w.buffers[i], draft) then AlreadyOpen(draft)
      else
        var loaded := OpenedFor(w, workspace, draft.path, target, untitled, works);
        Into(draft, loaded, Restoring(loaded[target], workspace, draft))
  }

  lemma BufferReplaced(w: World, id: nat, next: Buffer)
    requires Recoverable(w) && InStep(next, w.contents)
    ensures Recoverable(w.(buffers := w.buffers[id := next])) <==>
      Unshared(w.buffers, id, next) && (next.dirty ==> Safe(w.disk, w.contents, next))
  {
    hide Ready;
    hide KeysDistinct;
    hide Unshared;
    hide InStep;
    hide Safe;
    Changed(w, id, next);
    if Unshared(w.buffers, id, next) {
      Rejoin(w.(buffers := w.buffers[id := next]), id);
    }
  }

  /** Syncing the buffers changes neither what they show nor their keys, and makes none dirty. */
  lemma SyncedKept(w: World)
    requires Recoverable(w)
    ensures Recoverable(w.(buffers := SyncedAll(w.buffers)))
    ensures forall id, next :: Unshared(SyncedAll(w.buffers), id, next) <==> Unshared(w.buffers, id, next)
    ensures forall p :: p in w.files ==> w.files[p] in w.contents
  {
    hide Ready;
    hide InStep;
    hide Get;
    hide Recovered;
    var v := w.(buffers := SyncedAll(w.buffers));
    ReadyWhatever(w, v.buffers);
    forall i | i in w.buffers
      ensures SameKey(v.buffers[i], w.buffers[i]) && Kept(v, i)
    {
      assert Kept(w, i);
      SyncedInStep(w.buffers[i], w.contents);
    }
  }

  /** A new buffer of a file: clean, at revision 0, under the draft id of the file, and paged when
      the file is over the limit. */
  predicate JustOpened(b: Buffer, workspace: Text, p: Text, g: nat, text: Text) {
    && b.workspace == workspace && b.path == b.recoveryPath == Some(p) && b.draftId == NamedId(workspace, p)
    && b.live == text && b.rev == 0 && !b.dirty && !b.modified && b.journal == []
    && (b.paged <==> |text| > MAX_SNAPSHOT_BYTES)
    && b.text == (if b.paged then [] else text) && b.generation == (if b.paged then Some(g) else None)
  }

  /** Only the dirty flag may differ, and is Fresh's modified flag. */
  predicate TookOver(b: Buffer, next: Buffer) {
    next == b.(dirty := b.modified)
  }

  lemma EntryIs(w: World, workspace: Text, p: Text, target: nat)
    requires Recoverable(w) && p in w.files
    ensures w.files[p] in w.contents
    ensures var b := Entry(w, workspace, p, target);
      if target in w.buffers then TookOver(w.buffers[target].(recoveryPath := Some(p)), b)
      else JustOpened(b, workspace, p, w.files[p], w.contents[w.files[p]])
  {
    hide Get;
    hide Recovered;
    if target in w.buffers {
      assert Kept(w, target);
      SyncedInStep(w.buffers[target], w.contents);
    }
  }

  lemma SyncedUnedited(w: World)
    requires Recoverable(w)
    ensures SyncedAll(w.buffers).Keys == w.buffers.Keys
    ensures forall i :: i in w.buffers ==>
      && TookOver(w.buffers[i], Synced(w.buffers[i]))
      && TookOver(w.buffers[i], SyncedAll(w.buffers)[i])
  {
    forall i | i in w.buffers
      ensures TookOver(w.buffers[i], Synced(w.buffers[i])) && TookOver(w.buffers[i], SyncedAll(w.buffers)[i])
    {
      assert Kept(w, i);
      SyncAnsweredAs(w.buffers[i], w.contents);
    }
  }

  lemma EntryKept(w: World, workspace: Text, p: Text, target: nat)
    requires Recoverable(w) && p in w.files
    ensures var b := Entry(w, workspace, p, target);
      && InStep(b, w.contents) && (b.dirty ==> Safe(w.disk, w.contents, b) && b.journal == w.buffers[target].journal)
  {
    hide Utf8.Valid;
    hide Get;
    hide Recovered;
    hide Replays;
    if target in w.buffers {
      assert Kept(w, target);
      SyncedInStep(w.buffers[target], w.contents);
    } else {
      OpenedInStep(workspace, p, w.files[p], w.contents);
    }
  }

  lemma StoredDraft(w: World, workspace: Text, draftId: Text)
    requires Recoverable(w) && Get(w.disk, workspace, draftId).Ok? && Get(w.disk, workspace, draftId).value.Some?
    ensures var draft := Get(w.disk, workspace, draftId).value.value;
      draft.id == draftId && DraftOk(draft, w.contents)
    ensures forall g :: g in w.contents ==> Utf8.Valid(w.contents[g])
    ensures forall p :: p in w.files ==> w.files[p] in w.contents
  {
    FindAbsent(Merged(Read(w.disk, workspace, false).value, Read(w.disk, workspace, true).value), draftId);
  }

  /** Without a new checkpoint, the draft on disk is the one that was there before. */
  lemma RestoredKept(w: World, workspace: Text, draft: Draft, b: Buffer)
    requires InStep(b, w.contents) && (b.dirty ==> Safe(w.disk, w.contents, b)) && DraftOk(draft, w.contents)
    requires forall g :: g in w.contents ==> Utf8.Valid(w.contents[g])
    requires Get(w.disk, workspace, draft.id) == Ok(Some(draft))
    requires Restoring(b, workspace, draft).Answered? ==> draft.pages.Some?
    ensures var o := Restoring(b, workspace, draft);
      (o.next.dirty ==> Safe(w.disk, w.contents, o.next)) <==>
      if o.Answered? then Stackable(b, draft, w.contents) else b.journal != [] ==> Undisturbed(b, draft)
  {
    hide Get;
    hide Recovered;
    hide Restoring;
    hide Stackable;
    hide Replays;
    hide Utf8.Valid;
    RestoringExact(b, workspace, draft, w.contents);
    FailedShows(b, workspace, draft);
  }

  lemma RestoredAtomic(w: World, id: nat, next: Buffer, crashes: seq<Disk>)
    requires Recoverable(w)
    ensures Unshared(w.buffers, id, next) ==>
      Atomic(w.(buffers := w.buffers[id := next]), id, w.disk, crashes, crashes)
  {
    hide Recoverable;
    hide RecoverableBut;
    hide Unshared;
    hide Atomic;
    Changed(w, id, next);
    if Unshared(w.buffers, id, next) {
      AtomicNothing(w.(buffers := w.buffers[id := next]), id, crashes);
    }
  }

  lemma LoadedKept(w: World, workspace: Text, p: Option<Text>, target: nat, untitled: Text, works: bool)
    requires Recoverable(w) && RestoreTarget(w, workspace, p, target, works)
    ensures var v := w.(buffers := if Syncs(w, p) then SyncedAll(w.buffers) else w.buffers);
      var loaded := OpenedFor(w, workspace, p, target, untitled, works);
      && Recoverable(v) && loaded == v.buffers[target := loaded[target]] && InStep(loaded[target], w.contents)
      && (loaded[target].dirty ==> Safe(w.disk, w.contents, loaded[target]))
      && (forall id, next :: Unshared(v.buffers, id, next) <==> Unshared(w.buffers, id, next))
  {
    hide Recoverable;
    hide Unshared;
    hide InStep;
    hide Safe;
    SyncedKept(w);
    EmptyInStep(workspace, untitled, w.contents);
    if Syncs(w, p) {
      EntryKept(w, workspace, p.value, target);
    }
  }

  lemma EmptyInStep(workspace: Text, untitled: Text, contents: map<nat, Text>)
    ensures InStep(Untitled(workspace, untitled), contents)
  {
    EmptyIsValid();
  }

  /** With nothing open, a draft goes back: a paged one when its file is there as it was and opens
      paged, an ordinary one within the limit when its file does not open paged. */
  predicate GoesBack(w: World, draft: Draft, works: bool)
    requires forall q :: q in w.files ==> w.files[q] in w.contents
  {
    var disk := DiskOf(w.files, draft.path);
    var paged := works && disk.Some? && |w.contents[disk.value]| > MAX_SNAPSHOT_BYTES;
    if draft.pages.Some? then paged && disk == Some(draft.pages.value.generation)
    else !paged && |draft.text| <= MAX_SNAPSHOT_BYTES
  }

  /** After a crash that left a buffer safe, restoring its draft brings it back, exactly if that goes
      back into what its file is now. An edited paged buffer whose file was last saved within the
      limit is not. */
  lemma CrashRestores(w: World, b: Buffer, target: nat, untitled: Text, works: bool)
    requires Ready(w) && Safe(w.disk, w.contents, b)
    ensures var crashed := w.(buffers := map[]);
      var found := Get(w.disk, b.workspace, b.draftId);
      var plan := Planned(crashed, b.workspace, b.draftId, target, untitled, works);
      && Recoverable(crashed) && found.Ok? && found.value.Some?
      && (plan.Into? && plan.outcome.Answered? && plan.outcome.next.live == b.live <==>
            GoesBack(w, found.value.value, works))
  {
    hide Tidy;
    hide NoBackups;
    hide DraftsOk;
    hide InStep;
    hide Get;
    hide Restoring;
    hide Stackable;
    hide Replay;
    hide Advance;
    hide Utf8.Valid;
    var crashed := w.(buffers := map[]);
    ReadyWhatever(w, map[]);
    StoredDraft(crashed, b.workspace, b.draftId);
    var draft := Get(w.disk, b.workspace, b.draftId).value.value;
    LoadedKept(crashed, b.workspace, draft.path, target, untitled, works);
    var plan := Planned(crashed, b.workspace, b.draftId, target, untitled, works);
    if plan.Into? {
      IntoNew(plan.loaded[target], b.workspace, draft, w.contents);
    }
  }

  /** A buffer without paged edits takes a draft of its own kind, and shows it. */
  lemma IntoNew(b: Buffer, workspace: Text, draft: Draft, contents: map<nat, Text>)
    requires InStep(b, contents) && DraftOk(draft, contents) && b.journal == []
    requires forall g :: g in contents ==> Utf8.Valid(contents[g])
    ensures var o := Restoring(b, workspace, draft);
      && (o.Answered? ==> Recovered(draft, contents) == Some(o.next.live))
      && (o.Answered? <==>
            if draft.pages.Some? then b.paged && b.generation == Some(draft.pages.value.generation)
            else !b.paged && |draft.text| <= MAX_SNAPSHOT_BYTES)
  {
    hide InStep;
    hide Advance;
    hide Utf8.Valid;
    RestoringExact(b, workspace, draft, contents);
    if draft.pages == None && !b.paged {
      RestoringPlain(b, workspace, draft, contents);
    } else if draft.pages.Some? && b.paged && b.generation == Some(draft.pages.value.generation) {
      RestoringPaged(b, workspace, draft, contents);
    }
  }

  predicate PagedUnder(b: Buffer, draftId: Text, g: nat) {
    b.paged && b.draftId == draftId && b.generation == Some(g)
  }

  /** Which of the three a restore comes to. A paged draft is only ever used with the very source
      it was made on. */
  lemma PlannedExactly(w: World, workspace: Text, draftId: Text, target: nat, untitled: Text, works: bool)
    requires Recoverable(w)
    ensures var found, plan := Get(w.disk, workspace, draftId), Planned(w, workspace, draftId, target, untitled, works);
      && found.Ok?
      && (found.value == None ==> plan.Refused?)
      && (found.value.Some? ==>
            var draft := found.value.value;
            var intact := draft.pages.Some? ==>
              && draft.path.Some? && draft.path.value in w.files
              && w.files[draft.path.value] == draft.pages.value.generation;
            var there := draft.pages.Some? &&
              exists i :: i in w.buffers && PagedUnder(w.buffers[i], draft.id, draft.pages.value.generation);
            && draft.id == draftId
            && (plan.Refused? <==> !intact)
            && (plan.AlreadyOpen? <==> intact && there) && (plan.AlreadyOpen? ==> plan.draft == draft)
            && (plan.Into? ==> plan.draft == draft && target in plan.loaded
                               && plan.outcome == Restoring(plan.loaded[target], workspace, draft)))
  {
    hide Get;
    hide Tidy;
    hide NoBackups;
    hide KeysDistinct;
    hide Kept;
    hide Restoring;
    hide OpenedFor;
    ReadyGet(w, workspace, draftId);
    if Get(w.disk, workspace, draftId).value.Some? {
      StoredDraft(w, workspace, draftId);
      OpenedForTarget(w, workspace, Get(w.disk, workspace, draftId).value.value.path, target, untitled, works);
    }
  }

  lemma ReadyGet(w: World, workspace: Text, draftId: Text)
    requires Recoverable(w)
    ensures Get(w.disk, workspace, draftId).Ok?
  {
  }

  /** The buffer a restore opens for its draft: that of the file, its edits kept, a new one of the
      file, or an untitled one. */
  lemma OpenedForTarget(w: World, workspace: Text, p: Option<Text>, target: nat, untitled: Text, works: bool)
    requires Recoverable(w)
    ensures forall q :: q in w.files ==> w.files[q] in w.contents
    ensures var loaded := OpenedFor(w, workspace, p, target, untitled, works);
      var opens := p.Some? && p.value in w.files && works &&
        forall i :: i in w.buffers && w.buffers[i].path == p ==> w.buffers[i].workspace == workspace;
      && target in loaded
      && (!opens ==> loaded[target] == Buffer(workspace, untitled, None, None, 0, [], false, false, None, [], [], false))
      && (opens && target in w.buffers ==> TookOver(w.buffers[target].(recoveryPath := p), loaded[target]))
      && (opens && target !in w.buffers ==>
            JustOpened(loaded[target], workspace, p.value, w.files[p.value], w.contents[w.files[p.value]]))
      && loaded.Keys == w.buffers.Keys + {target}
      && forall i :: i in w.buffers && i != target ==>
           Unedited(w.buffers[i], loaded[i]) && (p.Some? && p.value in w.files ==> TookOver(w.buffers[i], loaded[i]))
  {
    hide Get;
    hide Recovered;
    hide InStep;
    SyncedUnedited(w);
    if target in w.buffers {
      assert Kept(w, target);
      SyncedInStep(w.buffers[target], w.contents);
    }
  }

  /** When a restore shows what the draft stands for. Handed back, a buffer of the draft's workspace
      does exactly if it has unsaved edits or the draft's edits undo each other; a buffer opened
      for the draft does exactly if it had no edits for the draft's to stack upon. */
  lemma RestoreShows(w: World, workspace: Text, draftId: Text, target: nat, untitled: Text, works: bool)
    requires Recoverable(w)
    requires match Planned(w, workspace, draftId, target, untitled, works)
      case Into(draft, loaded, o) => RestoreTarget(w, workspace, draft.path, target, works)
      case _ => true
    ensures match Planned(w, workspace, draftId, target, untitled, works)
      case Refused => true
      case AlreadyOpen(draft) =>
        forall i :: i in w.buffers && Holds(w.buffers[i], draft) && w.buffers[i].workspace == workspace ==>
          var b := w.buffers[i];
          (Recovered(draft, w.contents) == Some(b.live) <==>
             b.dirty || Idle(w.contents[b.generation.value], AllEdits(draft.pages.value.edits)))
      case Into(draft, loaded, o) =>
        o.Answered? ==> (Recovered(draft, w.contents) == Some(o.next.live) <==>
                           Stackable(loaded[target], draft, w.contents))
  {
    hide Tidy;
    hide NoBackups;
    hide DraftsOk;
    hide KeysDistinct;
    hide Get;
    hide Recovered;
    hide Restoring;
    hide AgreeWhereKept;
    hide Utf8.Valid;
    var plan := Planned(w, workspace, draftId, target, untitled, works);
    if plan.Into? {
      StoredDraft(w, workspace, draftId);
      LoadedKept(w, workspace, plan.draft.path, target, untitled, works);
      RestoringExact(plan.loaded[target], workspace, plan.draft, w.contents);
    } else if plan.AlreadyOpen? {
      StoredDraft(w, workspace, draftId);
      forall i | i in w.buffers && Holds(w.buffers[i], plan.draft) && w.buffers[i].workspace == workspace
        ensures var b := w.buffers[i];
          && b.generation.Some? && b.generation.value in w.contents
          && (Recovered(plan.draft, w.contents) == Some(b.live) <==>
                b.dirty || Idle(w.contents[b.generation.value], AllEdits(plan.draft.pages.value.edits)))
      {
        assert Kept(w, i);
        RecoversIdle(plan.draft, w.contents);
      }
    }
  }

  lemma RecoversIdle(draft: Draft, contents: map<nat, Text>)
    requires draft.pages.Some? && DraftOk(draft, contents)
    requires forall g :: g in contents ==> Utf8.Valid(contents[g])
    ensures var source, edits := contents[draft.pages.value.generation], draft.pages.value.edits;
      && (Recovered(draft, contents) == Some(source) <==> Idle(source, AllEdits(edits)))
      && (Growth(AllEdits(edits)) != 0 ==> Recovered(draft, contents) != Some(source))
  {
    hide Advance;
    hide Replay;
    hide Idle;
    hide Utf8.Valid;
    var source, edits := contents[draft.pages.value.generation], draft.pages.value.edits;
    AdvanceReplays(source, 0, edits);
    ReplayIsSequential(source, 0, edits);
    IdleExact(source, AllEdits(edits));
  }

  /** Restored a second time, a paged draft is not replayed again. */
  lemma RestoredAgain(w: World, workspace: Text, draftId: Text, target: nat, untitled: Text, works: bool)
    requires Recoverable(w)
    ensures match Planned(w, workspace, draftId, target, untitled, works)
      case Into(draft, loaded, o) => o.Answered? && draft.pages.Some? ==>
        Planned(w.(buffers := loaded[target := o.next]), workspace, draftId, target, untitled, works) == AlreadyOpen(draft)
      case _ => true
  {
    hide Get;
    hide Restoring;
    hide Tidy;
    hide NoBackups;
    hide DraftsOk;
    hide KeysDistinct;
    hide Kept;
    var plan := Planned(w, workspace, draftId, target, untitled, works);
    if plan.Into? && plan.outcome.Answered? && plan.draft.pages.Some? {
      RestoredHolds(plan.loaded[target], workspace, plan.draft);
      assert Holds(plan.loaded[target := plan.outcome.next][target], plan.draft);
    }
  }

  /** A draft without a file is: restored while its buffer is open, it goes into a second buffer
      under the same draft id. */
  lemma RestoredTwice(w: World, workspace: Text, draft: Draft, i: nat, target: nat, untitled: Text, works: bool)
    requires Recoverable(w) && Get(w.disk, workspace, draft.id) == Ok(Some(draft))
    requires draft.path == None && draft.pages == None && |draft.text| <= MAX_SNAPSHOT_BYTES
    requires i in w.buffers && w.buffers[i].workspace == workspace && w.buffers[i].draftId == draft.id
    requires target !in w.buffers
    ensures var plan := Planned(w, workspace, draft.id, target, untitled, works);
      plan.Into? && plan.outcome.Answered? && !Unshared(w.buffers, target, plan.outcome.next)
  {
    hide Get;
    hide Recoverable;
    EmptyInStep(workspace, untitled, w.contents);
    StoredDraft(w, workspace, draft.id);
    RestoringPlain(Untitled(workspace, untitled), workspace, draft, w.contents);
    assert SameKey(w.buffers[i], Restoring(Untitled(workspace, untitled), workspace, draft).next);
  }

  /** A file saved as another one keeps its draft id. Opened anew, the file goes into a new buffer
      under the same id, unless another buffer still has it. */
  lemma ReopenedAfterSaveAs(w: World, id: nat, p: Text, q: Text, done: Aftermath, target: nat)
    requires Recoverable(w) && id in w.buffers && target !in w.buffers && p != q && p in w.files
    requires w.buffers[id].draftId == NamedId(w.buffers[id].workspace, p)
    requires forall i :: i in w.buffers && i != id ==> w.buffers[i].path != Some(p)
    ensures var b, g := w.buffers[id], w.serial;
      var v := w.(files := w.files[q := g], contents := w.contents[g := Effects(b, done).written], serial := g + 1,
                  buffers := w.buffers[id := SavedAs(b, Some(q), g, done)]);
      && OpenTarget(v.buffers, p, target) && Opens(v, b.workspace, p, true) && v.files[p] in v.contents
      && !Unshared(v.buffers, target, Entry(v, b.workspace, p, target))
  {
    hide Recovered;
    hide Get;
    hide InStep;
    var b, g := w.buffers[id], w.serial;
    var v := w.(files := w.files[q := g], contents := w.contents[g := Effects(b, done).written], serial := g + 1,
                buffers := w.buffers[id := SavedAs(b, Some(q), g, done)]);
    assert v.buffers[id].path == Some(q);
    assert SameKey(v.buffers[id], Entry(v, b.workspace, p, target));
  }

  predicate NoDraft(disk: Disk, b: Buffer) {
    Get(disk, b.workspace, b.draftId) == Ok(None)
  }

  function DiskOf(files: map<Text, nat>, p: Option<Text>): Option<nat> {
    if p.Some? && p.value in files then Some(files[p.value]) else None
  }

  lemma BufferAt(w: World, id: nat)
    requires Recoverable(w) && id in w.buffers
    ensures InStep(w.buffers[id], w.contents) && w.buffers[id := w.buffers[id]] == w.buffers
    ensures KeysDistinct(w.buffers) && Unshared(w.buffers, id, w.buffers[id])
  {
    assert Kept(w, id);
  }

  lemma SafeAt(w: World, id: nat)
    requires Recoverable(w) && id in w.buffers
    ensures w.buffers[id].dirty ==> Safe(w.disk, w.contents, Synced(w.buffers[id]))
  {
    assert Kept(w, id);
    SyncedInStep(w.buffers[id], w.contents);
  }

  /** A buffer under its old key, in step or without a journal, may take the old one's place. */
  lemma NextFits(w: World, id: nat, next: Buffer)
    requires Recoverable(w) && id in w.buffers && SameKey(next, w.buffers[id])
    requires InStep(next, w.contents) || (next.journal == [] && Utf8.Valid(next.text))
    ensures Unshared(w.buffers, id, next) && DraftOk(DraftOf(next), w.contents)
  {
    InStepDraft(next, w.contents);
  }

  lemma InStepDraft(b: Buffer, contents: map<nat, Text>)
    ensures InStep(b, contents) || (b.journal == [] && Utf8.Valid(b.text)) ==> DraftOk(DraftOf(b), contents)
  {
    hide Utf8.Valid;
    EmptyIsValid();
    if InStep(b, contents) && b.dirty {
      DraftSaves(b, contents);
    }
  }

  lemma PagedActs(b: Buffer, baseRev: nat, action: Action, selection: Selection)
    ensures b.paged ==> Acted(b, baseRev, action, selection) == Failed(b)
  {
  }

  lemma PagedControls(b: Buffer, baseRev: nat, control: Control)
    ensures b.paged ==> var o := Controlled(b, baseRev, control); o.Failed? || control.Inspect?
  {
  }

  lemma Dropped(w: World, id: nat)
    requires Recoverable(w)
    ensures Recoverable(w.(buffers := w.buffers - {id}))
  {
    hide InStep;
    hide Safe;
    var v := w.(buffers := w.buffers - {id});
    forall i | i in v.buffers ensures Kept(v, i) {
      assert Kept(w, i);
    }
  }

  lemma DroppedBut(w: World, id: nat)
    requires RecoverableBut(w, id)
    ensures Recoverable(w.(buffers := w.buffers - {id}))
  {
    hide InStep;
    hide Safe;
    var v := w.(buffers := w.buffers - {id});
    forall i | i in v.buffers ensures Kept(v, i) {
      assert Kept(w, i);
    }
  }

  lemma EffectStores(before: Disk, after: Disk, b: Buffer)
    requires Effect(before, after, Op.Checkpoint(b.workspace, DraftOf(b)), true)
    ensures Stored(after, b) && Effect(before, after, Op.Checkpoint(b.workspace, DraftOf(b)), false)
  {
  }

  lemma EffectDiscards(before: Disk, after: Disk, w: Text, id: Text)
    requires Effect(before, after, Op.Discard(w, id), true)
    ensures Get(after, w, id) == Ok(None) && Effect(before, after, Op.Discard(w, id), false)
  {
  }
}
