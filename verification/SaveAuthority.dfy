/** Who may replace a file on disk: a tracked buffer saving while other programs write, delete
    and recreate the files it names. */
module SaveAuthority {
  import opened Wrappers

  /** What is on disk at a path. Every write leaves a generation never seen before. */
  datatype Generation = Missing | Written(path: string, serial: nat, readable: bool)

  /** The external change a buffer remembers. */
  datatype Notice = Notice(path: string, generation: Generation, dirty: bool)

  datatype Resolution = Keep | Overwrite | Reload

  datatype Outcome = Done | Refused(error: string)

  /** The buffer, the disk, and a history: `basis` is the generation last loaded, saved or
      restored against, `notices` the paths with a dirty notice not yet resolved by a load or a
      save, `granted` what the last Overwrite named. */
  datatype State = State(path: Option<string>, recoveryPath: Option<string>, known: Option<Generation>,
                         external: Option<Notice>, overwrite: Option<Generation>, rev: nat, dirty: bool,
                         paged: bool, pagedGeneration: Option<Generation>,
                         disk: map<string, Generation>, serial: nat,
                         basis: Option<(string, Generation)>, notices: set<string>,
                         granted: Option<(string, Generation)>)

  function DiskAt(disk: map<string, Generation>, path: string): Generation {
    if path in disk then disk[path] else Missing
  }

  function OwnPath(s: State): Option<string> {
    if s.path.Some? then s.path else s.recoveryPath
  }

  /** A buffer just opened on an existing file, or a new one without a file. */
  predicate Initial(s: State) {
    && s.external == None && s.overwrite == None && s.notices == {} && s.granted == None
    && DiskInv(s)
    && match s.path
       case Some(p) =>
         && p in s.disk && s.recoveryPath == s.path
         && s.known == Some(s.disk[p]) && s.basis == Some((p, s.disk[p]))
         && s.pagedGeneration == (if s.paged then s.known else None)
       case None => s.known == None && s.recoveryPath == None && !s.paged && s.basis == None
  }

  // ---- The steps ------------------------------------------------------------------

  datatype Step =
    | Write(target: string, readable: bool)
    | Delete(target: string)
    | Edit(dirty: bool)
    | Poll
    | Resolve(baseRev: nat, generation: Generation, resolution: Resolution)
    | Save(baseRev: nat, dest: Option<string>, leftDirty: bool)
    | Restore(source: string, sourceChanged: bool, textDiffers: bool)

  function AfterWrite(s: State, p: string, readable: bool): State {
    s.(disk := s.disk[p := Written(p, s.serial, readable)], serial := s.serial + 1)
  }

  function Raised(s: State, n: Notice): State {
    s.(external := Some(n), notices := if n.dirty then s.notices + {n.path} else s.notices)
  }

  predicate Readable(g: Generation) {
    g.Written? && g.readable
  }

  /** The buffer now holds what is on disk at `p`. */
  function Loaded(s: State, p: string): State {
    s.(known := Some(DiskAt(s.disk, p)), overwrite := None, dirty := false, rev := s.rev + 1,
       basis := Some((p, DiskAt(s.disk, p))), notices := s.notices - {p}, granted := None)
  }

  function Polled(s: State): State {
    match OwnPath(s)
    case None => s
    case Some(p) =>
      var g := DiskAt(s.disk, p);
      if s.known == None || s.known == Some(g) || (s.external.Some? && s.external.value.generation == g) then s
      else if s.paged then Raised(s, Notice(p, g, s.dirty))
      else if s.dirty || !Readable(g) then Raised(s.(dirty := true), Notice(p, g, true))
      else Loaded(s, p).(external := Some(Notice(p, g, false)))
  }

  /** The notice a resolution answers: the remembered one, or the file as it is now. */
  function Pending(s: State): Option<Notice> {
    if s.external.Some? then s.external
    else match OwnPath(s)
      case Some(p) => Some(Notice(p, DiskAt(s.disk, p), s.dirty))
      case None => None
  }

  predicate Resolvable(s: State, baseRev: nat, g: Generation, resolution: Resolution) {
    && s.rev == baseRev && Pending(s).Some? && !s.paged
    && Pending(s).value.generation == g == DiskAt(s.disk, Pending(s).value.path)
    && (resolution.Reload? ==> Readable(g))
  }

  function Resolved(s: State, g: Generation, resolution: Resolution): State
    requires Pending(s).Some?
  {
    var p := Pending(s).value.path;
    match resolution
    case Keep => Raised(s.(overwrite := None, granted := None), Notice(p, g, true))
    case Overwrite => Raised(s.(overwrite := Some(g), granted := Some((p, g))), Notice(p, g, true))
    case Reload => Loaded(s, p).(path := Some(p), recoveryPath := Some(p), external := None)
  }

  function Destination(s: State, dest: Option<string>): Option<string> {
    if dest.Some? then dest else OwnPath(s)
  }

  predicate NoticeHeld(s: State, p: string) {
    s.external.Some? && s.external.value.dirty && s.external.value.path == p
  }

  predicate Conflicts(s: State, p: string) {
    if s.path == Some(p) then (s.known.Some? && s.known != Some(DiskAt(s.disk, p))) || NoticeHeld(s, p)
    else DiskAt(s.disk, p).Written?
  }

  predicate Authorized(s: State, p: string) {
    s.overwrite == Some(DiskAt(s.disk, p)) && s.external.Some? && s.external.value.path == p
  }

  /** A paged buffer still reads from the file it was opened on. */
  predicate BackingIntact(s: State) {
    s.paged ==> OwnPath(s).Some? && s.pagedGeneration == Some(DiskAt(s.disk, OwnPath(s).value))
  }

  predicate Saves(s: State, baseRev: nat, dest: Option<string>) {
    && s.rev == baseRev && Destination(s, dest).Some? && BackingIntact(s)
    && (Conflicts(s, Destination(s, dest).value) ==> Authorized(s, Destination(s, dest).value))
  }

  /** A save stopped by the guard remembers the file it would have replaced. */
  predicate SaveConflicts(s: State, baseRev: nat, dest: Option<string>) {
    && s.rev == baseRev && Destination(s, dest).Some? && BackingIntact(s) && !Saves(s, baseRev, dest)
  }

  function Saved(s: State, p: string, leftDirty: bool): State {
    var g := Written(p, s.serial, !s.paged);
    AfterWrite(s, p, !s.paged).(
      path := Some(p), recoveryPath := Some(p), known := Some(g), external := None, overwrite := None,
      rev := s.rev + 1, dirty := leftDirty, pagedGeneration := if s.paged then Some(g) else None,
      basis := Some((p, g)), notices := s.notices - {p}, granted := None)
  }

  function AfterSave(s: State, baseRev: nat, dest: Option<string>, leftDirty: bool): State {
    if Saves(s, baseRev, dest) then Saved(s, Destination(s, dest).value, leftDirty)
    else if SaveConflicts(s, baseRev, dest) then
      var p := Destination(s, dest).value;
      Raised(s, Notice(p, DiskAt(s.disk, p), s.dirty))
    else s
  }

  /** A recovered draft goes into the buffer of its file, or into an unnamed one. */
  predicate Restorable(s: State, p: string) {
    !s.paged && (s.path.Some? ==> s.path == Some(p) && p in s.disk)
  }

  function Restored(s: State, p: string, sourceChanged: bool, textDiffers: bool): State {
    var t := s.(recoveryPath := Some(p), dirty := true, rev := if textDiffers then s.rev + 1 else s.rev);
    if sourceChanged then
      Raised(t, Notice(p, DiskAt(s.disk, p), true)).(
        known := Some(DiskAt(s.disk, p)), basis := Some((p, DiskAt(s.disk, p))))
    else t
  }

  function Next(s: State, step: Step): State {
    match step
    case Write(p, readable) => AfterWrite(s, p, readable)
    case Delete(p) => s.(disk := s.disk - {p})
    case Edit(dirty) => s.(rev := s.rev + 1, dirty := dirty)
    case Poll => Polled(s)
    case Resolve(baseRev, g, resolution) =>
      if Resolvable(s, baseRev, g, resolution) then Resolved(s, g, resolution) else s
    case Save(baseRev, dest, leftDirty) => AfterSave(s, baseRev, dest, leftDirty)
    case Restore(p, sourceChanged, differs) =>
      if Restorable(s, p) then Restored(s, p, sourceChanged, differs) else s
  }

  function Run(s: State, steps: seq<Step>): State {
    if steps == [] then s else Next(Run(s, steps[..|steps| - 1]), steps[|steps| - 1])
  }

  // ---- What every run keeps --------------------------------------------------------

  predicate DiskInv(s: State) {
    forall p :: p in s.disk ==> s.disk[p].Written? && s.disk[p].path == p && s.disk[p].serial < s.serial
  }

  predicate Inv(s: State) {
    && DiskInv(s)
    && (s.path.Some? ==>
          && s.known.Some? && s.basis == Some((s.path.value, s.known.value))
          && s.known.value.Written? && s.known.value.serial < s.serial)
    && (s.overwrite == None <==> s.granted == None)
    && (s.external.Some? && s.external.value.dirty ==> s.external.value.path in s.notices)
    && (s.granted.Some? ==>
          && s.overwrite == Some(s.granted.value.1) && s.granted.value.0 in s.notices
          && (s.granted.value.1.Written? ==> s.granted.value.1.path == s.granted.value.0))
  }

  lemma ResolvedInv(s: State, baseRev: nat, g: Generation, resolution: Resolution)
    requires Inv(s) && Resolvable(s, baseRev, g, resolution)
    ensures Inv(Resolved(s, g, resolution))
  {
  }

  lemma SavedInv(s: State, p: string, leftDirty: bool)
    requires Inv(s)
    ensures Inv(Saved(s, p, leftDirty))
  {
  }

  lemma RaisedInv(s: State, n: Notice)
    requires Inv(s)
    ensures Inv(Raised(s, n))
  {
  }

  lemma StepInv(s: State, step: Step)
    requires Inv(s)
    ensures Inv(Next(s, step))
  {
    hide Resolved;
    hide Resolvable;
    hide Saved;
    hide BackingIntact;
    hide Conflicts;
    hide Authorized;
    if step.Save? && Destination(s, step.dest).Some? {
      var p := Destination(s, step.dest).value;
      SavedInv(s, p, step.leftDirty);
      RaisedInv(s, Notice(p, DiskAt(s.disk, p), s.dirty));
    }
    if step.Resolve? && Resolvable(s, step.baseRev, step.generation, step.resolution) {
      ResolvedInv(s, step.baseRev, step.generation, step.resolution);
    }
  }

  lemma {:induction false} RunInv(s: State, steps: seq<Step>)
    requires Initial(s)
    ensures Inv(Run(s, steps))
  {
    if steps != [] {
      RunInv(s, steps[..|steps| - 1]);
      StepInv(Run(s, steps[..|steps| - 1]), steps[|steps| - 1]);
    }
  }

  // ---- When a save may replace a file ------------------------------------------------

  /** Nothing is lost unknowingly: there is no file, or it is the buffer's own with nothing to
      resolve, or it is the very generation the user chose to overwrite. */
  predicate Justified(s: State, p: string) {
    var g := DiskAt(s.disk, p);
    || g.Missing?
    || (s.basis == Some((p, g)) && p !in s.notices)
    || s.granted == Some((p, g))
  }

  /** The buffer's own file has an unresolved notice that the buffer no longer remembers. */
  predicate Forgotten(s: State, p: string) {
    s.path == Some(p) && p in s.notices && !NoticeHeld(s, p) && s.overwrite != Some(DiskAt(s.disk, p))
  }

  /** A save goes wrong exactly when the pending notice was forgotten. */
  lemma SaveJustified(s: State, baseRev: nat, dest: Option<string>)
    requires Inv(s) && Saves(s, baseRev, dest)
    ensures Justified(s, Destination(s, dest).value) <==> !Forgotten(s, Destination(s, dest).value)
  {
  }

  /** The two steps that forget a notice about the buffer's own file, which is otherwise
      unchanged: a refused save replaces it, unless the present generation was granted; or, after
      that, Keep or Overwrite for another file takes the grant away. */
  predicate Displaces(s: State, step: Step) {
    && s.path.Some? && s.known == Some(DiskAt(s.disk, s.path.value))
    && match step
       case Save(baseRev, dest, _) =>
         && SaveConflicts(s, baseRev, dest) && NoticeHeld(s, s.path.value)
         && !(Destination(s, dest) == s.path && s.dirty) && s.overwrite != s.known
       case Resolve(baseRev, g, resolution) =>
         && Resolvable(s, baseRev, g, resolution) && !resolution.Reload?
         && Pending(s).value.path != s.path.value && s.overwrite == s.known
       case _ => false
  }

  predicate Careful(s: State, steps: seq<Step>) {
    steps == [] ||
    (Careful(s, steps[..|steps| - 1]) && !Displaces(Run(s, steps[..|steps| - 1]), steps[|steps| - 1]))
  }

  /** Whatever save would go ahead now is justified. */
  ghost predicate SavesJustified(s: State) {
    forall baseRev, dest :: Saves(s, baseRev, dest) ==> Justified(s, Destination(s, dest).value)
  }

  ghost predicate JustifiedThroughout(s: State, steps: seq<Step>) {
    SavesJustified(Run(s, steps)) && (steps == [] || JustifiedThroughout(s, steps[..|steps| - 1]))
  }

  /** A notice about the buffer's own file is remembered, or the file has moved on since, or its
      present generation was granted. */
  predicate Remembers(s: State) {
    s.path.Some? && s.path.value in s.notices ==>
      || NoticeHeld(s, s.path.value) || s.known != Some(DiskAt(s.disk, s.path.value))
      || s.overwrite == s.known
  }

  lemma StepRemembers(s: State, step: Step)
    requires Inv(s) && Remembers(s) && !Displaces(s, step)
    ensures Remembers(Next(s, step))
  {
    hide Resolved;
    hide Resolvable;
    if step.Resolve? && Resolvable(s, step.baseRev, step.generation, step.resolution) {
      ResolvedRemembers(s, step.baseRev, step.generation, step.resolution);
    }
  }

  lemma ResolvedRemembers(s: State, baseRev: nat, g: Generation, resolution: Resolution)
    requires Inv(s) && Remembers(s) && Resolvable(s, baseRev, g, resolution)
    requires !Displaces(s, Resolve(baseRev, g, resolution))
    ensures Remembers(Resolved(s, g, resolution))
  {
  }

  lemma RemembersJustifies(s: State)
    requires Inv(s) && Remembers(s)
    ensures SavesJustified(s)
  {
    forall baseRev, dest | Saves(s, baseRev, dest) ensures Justified(s, Destination(s, dest).value) {
      SaveJustified(s, baseRev, dest);
    }
  }

  /** After a step that forgets, the very next plain Save goes ahead, and is not justified. */
  lemma DisplacedSaves(s: State, step: Step)
    requires Inv(s) && Displaces(s, step)
    ensures var t := Next(s, step);
      Saves(t, t.rev, None) && !Justified(t, Destination(t, None).value)
  {
    if step.Resolve? {
      DisplacedByResolution(s, step.baseRev, step.generation, step.resolution);
    }
  }

  lemma DisplacedByResolution(s: State, baseRev: nat, g: Generation, resolution: Resolution)
    requires Inv(s) && Displaces(s, Resolve(baseRev, g, resolution))
    ensures var t := Resolved(s, g, resolution);
      Saves(t, t.rev, None) && !Justified(t, Destination(t, None).value)
  {
  }

  lemma {:induction false} RunRemembers(s: State, steps: seq<Step>)
    requires Initial(s) && Careful(s, steps)
    ensures Inv(Run(s, steps)) && Remembers(Run(s, steps))
  {
    RunInv(s, steps);
    if steps != [] {
      RunRemembers(s, steps[..|steps| - 1]);
      StepRemembers(Run(s, steps[..|steps| - 1]), steps[|steps| - 1]);
    }
  }

  /** Over every interleaving: at every moment of a run every save that would go ahead is
      justified, exactly if no step of the run forgets a notice. */
  lemma {:induction false} CarefulSaves(s: State, steps: seq<Step>)
    requires Initial(s)
    ensures Careful(s, steps) <==> JustifiedThroughout(s, steps)
  {
    hide SavesJustified;
    if Careful(s, steps) {
      RunRemembers(s, steps);
      RemembersJustifies(Run(s, steps));
    }
    if steps != [] {
      var init, last := steps[..|steps| - 1], steps[|steps| - 1];
      CarefulSaves(s, init);
      if Displaces(Run(s, init), last) {
        RunInv(s, init);
        DisplacedSaves(Run(s, init), last);
        NotAllJustified(Run(s, steps));
      }
    }
  }

  lemma NotAllJustified(s: State)
    requires Saves(s, s.rev, None) && !Justified(s, Destination(s, None).value)
    ensures !SavesJustified(s)
  {
  }

  /** A restored draft whose source changed, a Save As refused for another file, then a plain
      Save: the changed source is replaced though nobody resolved its notice. */
  lemma ForgottenNotice()
    ensures exists s: State, steps: seq<Step> ::
      && Initial(s) && Saves(Run(s, steps), 1, None)
      && !Justified(Run(s, steps), Destination(Run(s, steps), None).value)
  {
    var p, q := "source.txt", "other.txt";
    var gp, gq := Written(p, 0, true), Written(q, 1, true);
    var disk := map[p := gp, q := gq];
    var s := State(Some(p), Some(p), Some(gp), None, None, 0, false, false, None, disk, 2, Some((p, gp)), {}, None);
    var one := [Restore(p, true, true)];
    var two := one + [Save(1, Some(q), false)];
    assert two[..1] == one && one[..0] == [];
    assert Run(s, []) == s;
    assert Run(s, one) == Restored(s, p, true, true);
    var t := Run(s, two);
    assert t == Raised(Restored(s, p, true, true), Notice(q, gq, true));
    assert Initial(s) && Saves(t, 1, None) && Forgotten(t, p);
  }

  /** A poll never touches unsaved text, and never passes over a changed file: the buffer is
      reloaded, or the change is remembered. */
  lemma PollReacts(s: State)
    requires Inv(s) && OwnPath(s).Some? && s.known.Some?
    ensures var t := Polled(s); var g := DiskAt(s.disk, OwnPath(s).value);
      && (s.dirty ==> t.dirty && t.rev == s.rev && t.known == s.known)
      && (t.known == Some(g) || (t.external.Some? && t.external.value.generation == g))
      && (t.known != s.known ==> Readable(g) && !t.dirty && t.rev == s.rev + 1 && t.overwrite == None)
      && t.disk == s.disk && t.path == s.path
  {
  }

  /** Keep grants nothing: the file that was kept cannot be saved over. */
  lemma KeepRefuses(s: State, baseRev: nat, g: Generation)
    requires Inv(s) && Resolvable(s, baseRev, g, Keep)
    ensures var p := Pending(s).value.path;
      Saves(Resolved(s, g, Keep), baseRev, Some(p)) <==> s.path != Some(p) && g == Missing
  {
  }

  /** Overwrite grants one generation: whatever other programs do next, the save replaces that
      generation of that file, or creates a file that is not the buffer's own. */
  lemma OverwriteIsExact(s: State, baseRev: nat, g: Generation, disk: map<string, Generation>)
    requires Inv(s) && Resolvable(s, baseRev, g, Overwrite)
    ensures var p := Pending(s).value.path; var t := Resolved(s, g, Overwrite).(disk := disk);
      Saves(t, baseRev, Some(p)) <==> DiskAt(disk, p) == g || (s.path != Some(p) && DiskAt(disk, p) == Missing)
  {
  }

  /** A save leaves nothing behind to authorise the next one. */
  lemma AuthoritySpent(s: State, baseRev: nat, dest: Option<string>, leftDirty: bool, disk: map<string, Generation>)
    requires Inv(s) && Saves(s, baseRev, dest)
    ensures var p := Destination(s, dest).value; var t := AfterSave(s, baseRev, dest, leftDirty).(disk := disk);
      forall q :: Saves(t, t.rev, Some(q)) ==>
        DiskAt(disk, q) == Missing || (q == p && DiskAt(disk, q) == Written(p, s.serial, !s.paged))
  {
  }

  lemma ResolvableDisk(s: State, baseRev: nat, g: Generation, resolution: Resolution)
    requires Resolvable(s, baseRev, g, resolution)
    ensures g == DiskAt(s.disk, Pending(s).value.path) && Pending(s).Some?
  {
  }

  lemma ResolvableIs(s: State, baseRev: nat, g: Generation, resolution: Resolution)
    ensures Resolvable(s, baseRev, g, resolution) <==>
      && s.rev == baseRev && Pending(s).Some? && Pending(s).value.generation == g && !s.paged
      && DiskAt(s.disk, Pending(s).value.path) == g && (resolution.Reload? ==> Readable(g))
  {
  }

  // ---- The tracked buffer ---------------------------------------------------------------

  class TrackedBuffer {
    var path: Option<string>
    var recoveryPath: Option<string>
    var known: Option<Generation>
    var external: Option<Notice>
    var overwrite: Option<Generation>
    var rev: nat
    var dirty: bool
    var paged: bool
    var pagedGeneration: Option<Generation>
    var disk: map<string, Generation>
    var serial: nat
    ghost var basis: Option<(string, Generation)>
    ghost var notices: set<string>
    ghost var granted: Option<(string, Generation)>

    ghost function View(): State
      reads this
    {
      State(path, recoveryPath, known, external, overwrite, rev, dirty, paged, pagedGeneration, disk, serial,
            basis, notices, granted)
    }

    constructor Open(path: string, paged: bool, disk: map<string, Generation>, serial: nat)
      requires path in disk
      requires forall p :: p in disk ==> disk[p].Written? && disk[p].path == p && disk[p].serial < serial
      ensures Initial(View()) && this.path == Some(path) && this.disk == disk
    {
      this.path, recoveryPath, known := Some(path), Some(path), Some(disk[path]);
      external, overwrite, rev, dirty, this.paged := None, None, 0, false, paged;
      pagedGeneration := if paged then Some(disk[path]) else None;
      this.disk, this.serial := disk, serial;
      basis, notices, granted := Some((path, disk[path])), {}, None;
    }

    /** Compare the file with the generation last seen: reload a clean buffer, warn a dirty one. */
    method PollExternalChanges()
      modifies this
      ensures View() == Polled(old(View()))
      ensures path == old(path) && recoveryPath == old(recoveryPath) && disk == old(disk) && serial == old(serial)
      ensures pagedGeneration == old(pagedGeneration) && paged == old(paged)
      ensures var own := if path.Some? then path else recoveryPath;
        var g := if own.Some? && own.value in disk then disk[own.value] else Missing;
        var news := own.Some? && old(known).Some? && old(known) != Some(g)
          && !(old(external).Some? && old(external).value.generation == g);
        && (!news ==> unchanged(this))
        && (news && (paged || old(dirty) || !g.Written? || !g.readable) ==>
              && external == Some(Notice(own.value, g, old(dirty) || !paged)) && dirty == external.value.dirty
              && known == old(known) && rev == old(rev) && overwrite == old(overwrite)
              && basis == old(basis) && granted == old(granted)
              && notices == (if dirty then old(notices) + {own.value} else old(notices)))
        && (news && !paged && !old(dirty) && g.Written? && g.readable ==>
              && external == Some(Notice(own.value, g, false)) && known == Some(g) && !dirty
              && rev == old(rev) + 1 && overwrite == None
              && basis == Some((own.value, g)) && granted == None && notices == old(notices) - {own.value})
    {
      var own := if path.Some? then path else recoveryPath;
      if own == None {
        return;
      }
      var p := own.value;
      var generation := DiskAt(disk, p);
      if known == None || known == Some(generation) {
        return;
      }
      if external.Some? && external.value.generation == generation {
        return;
      }
      if paged {
        Remember(Notice(p, generation, dirty));
        return;
      }
      var wasDirty := dirty;
      if !Readable(generation) && !wasDirty {
        dirty := true;
      }
      if wasDirty || !Readable(generation) {
        Remember(Notice(p, generation, dirty));
        return;
      }
      Load(p, generation);
      external := Some(Notice(p, generation, dirty));
    }

    method Remember(n: Notice)
      modifies this`external, this`notices
      ensures View() == Raised(old(View()), n)
      ensures external == Some(n) && notices == if n.dirty then old(notices) + {n.path} else old(notices)
    {
      external := Some(n);
      if n.dirty {
        notices := notices + {n.path};
      }
    }

    /** From now on the buffer is compared with this generation of this file. */
    method Baseline(p: string, generation: Generation)
      modifies this
      ensures View() == old(View()).(known := Some(generation), overwrite := None, rev := old(rev) + 1,
        basis := Some((p, generation)), notices := old(notices) - {p}, granted := None)
    {
      known, overwrite, rev := Some(generation), None, rev + 1;
      basis, notices, granted := Some((p, generation)), notices - {p}, None;
    }

    method Load(p: string, generation: Generation)
      requires generation == DiskAt(disk, p)
      modifies this
      ensures View() == Loaded(old(View()), p)
      ensures known == Some(generation) && basis == Some((p, generation)) && !dirty && rev == old(rev) + 1
      ensures overwrite == None && granted == None && notices == old(notices) - {p}
      ensures disk == old(disk) && serial == old(serial) && paged == old(paged) && path == old(path)
      ensures pagedGeneration == old(pagedGeneration) && recoveryPath == old(recoveryPath)
    {
      Baseline(p, generation);
      dirty := false;
    }

    method PendingNotice() returns (notice: Option<Notice>)
      ensures notice == Pending(View())
      ensures external.Some? ==> notice == external
      ensures external == None ==> var own := if path.Some? then path else recoveryPath;
        notice == if own == None then None
          else Some(Notice(own.value, if own.value in disk then disk[own.value] else Missing, dirty))
    {
      if external.Some? {
        return external;
      }
      var own := if path.Some? then path else recoveryPath;
      return if own.Some? then Some(Notice(own.value, DiskAt(disk, own.value), dirty)) else None;
    }

    /** The notice a resolution would answer, if it still describes the disk. */
    method CheckResolution(baseRev: nat, generation: Generation, resolution: Resolution)
      returns (pending: Result<Notice, string>)
      ensures pending.Ok? <==> Resolvable(View(), baseRev, generation, resolution)
      ensures pending.Ok? ==> Some(pending.value) == Pending(View())
      ensures pending.Ok? ==>
        && baseRev == rev && !paged && pending.value.generation == generation
        && generation == (if pending.value.path in disk then disk[pending.value.path] else Missing)
        && (resolution.Reload? ==> generation.Written? && generation.readable)
    {
      hide Pending;
      hide Resolvable;
      var found := PendingNotice();
      ResolvableIs(View(), baseRev, generation, resolution);
      if rev != baseRev {
        pending := Err("revision conflict");
      } else if found == None {
        pending := Err("buffer has no external file");
      } else if found.value.generation != generation {
        pending := Err("external generation changed; check again before resolving");
      } else if paged {
        pending := Err("automatic reload, keep, and overwrite are unsafe for a lazy backing");
      } else if DiskAt(disk, found.value.path) != generation {
        pending := Err("file changed again; check the latest external generation");
      } else if resolution.Reload? && !Readable(generation) {
        pending := Err("file was deleted; cannot reload");
      } else {
        pending := Ok(found.value);
      }
    }

    method ResolveExternal(baseRev: nat, generation: Generation, resolution: Resolution) returns (outcome: Outcome)
      modifies this
      ensures outcome.Done? <==> Resolvable(old(View()), baseRev, generation, resolution)
      ensures View() == if outcome.Done? then Resolved(old(View()), generation, resolution) else old(View())
      ensures outcome.Done? ==> baseRev == old(rev) && !paged
      ensures outcome.Done? && !resolution.Reload? ==>
        && external.Some? && external.value.dirty && external.value.generation == generation
        && overwrite == (if resolution.Overwrite? then Some(generation) else None)
        && granted == (if resolution.Overwrite? then Some((external.value.path, generation)) else None)
        && notices == old(notices) + {external.value.path} && basis == old(basis)
        && known == old(known) && rev == old(rev) && dirty == old(dirty)
        && path == old(path) && recoveryPath == old(recoveryPath)
      ensures outcome.Done? && resolution.Reload? ==>
        && path.Some? && recoveryPath == path && known == Some(generation) && external == None && overwrite == None
        && !dirty && rev == old(rev) + 1 && basis == Some((path.value, generation)) && granted == None
        && notices == old(notices) - {path.value} && path.value in disk && disk[path.value] == generation
      ensures disk == old(disk) && serial == old(serial) && paged == old(paged)
      ensures pagedGeneration == old(pagedGeneration)
    {
      hide Raised;
      hide Loaded;
      hide Resolvable;
      hide Pending;
      var pending := CheckResolution(baseRev, generation, resolution);
      if pending.Err? {
        return Refused(pending.error);
      }
      ResolvableDisk(View(), baseRev, generation, resolution);
      var p := pending.value.path;
      match resolution {
        case Keep =>
          overwrite, granted := None, None;
          Remember(Notice(p, generation, true));
        case Overwrite =>
          overwrite, granted := Some(generation), Some((p, generation));
          Remember(Notice(p, generation, true));
        case Reload =>
          Load(p, generation);
          path, recoveryPath, external := Some(p), Some(p), None;
      }
      return Done;
    }

    /** What stands in the way of a save, and where it would go. */
    method CheckSave(baseRev: nat, dest: Option<string>) returns (target: Result<string, string>, conflict: bool)
      ensures target.Ok? && !conflict <==> Saves(View(), baseRev, dest)
      ensures target.Ok? && conflict <==> SaveConflicts(View(), baseRev, dest)
      ensures target.Ok? ==> Some(target.value) == Destination(View(), dest)
      ensures target.Ok? ==> target.value == if dest.Some? then dest.value else if path.Some? then path.value
        else if recoveryPath.Some? then recoveryPath.value else target.value
      ensures target.Ok? <==>
        && baseRev == rev && (dest.Some? || path.Some? || recoveryPath.Some?)
        && (paged ==> var own := if path.Some? then path else recoveryPath;
              own.Some? && pagedGeneration == Some(if own.value in disk then disk[own.value] else Missing))
      ensures target.Ok? ==> var p := target.value; var g := if p in disk then disk[p] else Missing;
        conflict <==>
          && (if path == Some(p) then (known.Some? && known.value != g)
                || (external.Some? && external.value.dirty && external.value.path == p)
              else g.Written?)
          && !(overwrite == Some(g) && external.Some? && external.value.path == p)
    {
      conflict := false;
      if rev != baseRev {
        return Err("revision conflict"), false;
      }
      var own := if path.Some? then path else recoveryPath;
      var destination := if dest.Some? then dest else own;
      if paged {
        if own == None {
          return Err("paged buffer has no original backing path"), false;
        }
        if pagedGeneration != Some(DiskAt(disk, own.value)) {
          return Err("lazy backing changed on disk; paged save is unsafe"), false;
        }
      }
      if destination == None {
        return Err("unsaved buffer needs a path"), false;
      }
      var p := destination.value;
      var current := DiskAt(disk, p);
      if path == Some(p) {
        conflict := (known.Some? && known.value != current)
          || (external.Some? && external.value.dirty && external.value.path == p);
      } else {
        conflict := current.Written?;
      }
      var authorized := overwrite == Some(current) && external.Some? && external.value.path == p;
      return Ok(p), conflict && !authorized;
    }

    method SaveBuffer(baseRev: nat, dest: Option<string>, leftDirty: bool) returns (outcome: Outcome)
      modifies this
      ensures outcome.Done? <==> Saves(old(View()), baseRev, dest)
      ensures View() == AfterSave(old(View()), baseRev, dest, leftDirty)
      ensures baseRev != old(rev) ==> outcome.Refused? && unchanged(this)
      ensures outcome.Done? ==>
        && path.Some? && recoveryPath == path && known == Some(Written(path.value, old(serial), !paged))
        && disk == old(disk)[path.value := known.value] && serial == old(serial) + 1
        && external == None && overwrite == None && rev == old(rev) + 1 && dirty == leftDirty
        && pagedGeneration == (if paged then known else None)
        && basis == Some((path.value, known.value)) && granted == None && notices == old(notices) - {path.value}
      ensures outcome.Refused? ==>
        && disk == old(disk) && known == old(known) && rev == old(rev) && dirty == old(dirty) && path == old(path)
        && overwrite == old(overwrite) && recoveryPath == old(recoveryPath)
        && (external == old(external) ||
              (external.Some? && external.value.dirty == dirty &&
               external.value.generation == if external.value.path in disk then disk[external.value.path] else Missing))
      ensures paged == old(paged)
    {
      hide Raised;
      hide Saved;
      hide Saves;
      hide SaveConflicts;
      hide Destination;
      var target, conflict := CheckSave(baseRev, dest);
      if target.Err? {
        return Refused(target.error);
      }
      var p := target.value;
      if conflict {
        Remember(Notice(p, DiskAt(disk, p), dirty));
        return Refused("file changed on disk; resolve the external change before saving");
      }
      Replace(p, leftDirty);
      return Done;
    }

    method Replace(p: string, leftDirty: bool)
      modifies this
      ensures View() == Saved(old(View()), p, leftDirty)
      ensures path == Some(p) && recoveryPath == path && known == Some(Written(p, old(serial), !paged))
      ensures disk == old(disk)[p := known.value] && serial == old(serial) + 1 && paged == old(paged)
      ensures external == None && overwrite == None && rev == old(rev) + 1 && dirty == leftDirty
      ensures pagedGeneration == (if paged then known else None)
      ensures basis == Some((p, known.value)) && granted == None && notices == old(notices) - {p}
    {
      WriteFile(p, !paged);
      Baseline(p, disk[p]);
      path, recoveryPath, external, dirty := Some(p), Some(p), None, leftDirty;
      pagedGeneration := if paged then known else None;
    }

    /** Any program, this one or another, replaces a file. */
    method WriteFile(p: string, readable: bool)
      modifies this`disk, this`serial
      ensures View() == AfterWrite(old(View()), p, readable)
      ensures disk == old(disk)[p := Written(p, old(serial), readable)] && serial == old(serial) + 1
    {
      disk, serial := disk[p := Written(p, serial, readable)], serial + 1;
    }

    method RestoreDraft(source: string, sourceChanged: bool, textDiffers: bool)
      requires Restorable(View(), source)
      modifies this
      ensures View() == Restored(old(View()), source, sourceChanged, textDiffers)
      ensures recoveryPath == Some(source) && dirty && rev == (if textDiffers then old(rev) + 1 else old(rev))
      ensures path == old(path) && disk == old(disk) && serial == old(serial) && overwrite == old(overwrite)
      ensures if sourceChanged then
        && known == Some(if source in disk then disk[source] else Missing) && basis == Some((source, known.value))
        && external == Some(Notice(source, known.value, true)) && notices == old(notices) + {source}
        else known == old(known) && external == old(external) && basis == old(basis) && notices == old(notices)
    {
      if textDiffers {
        rev := rev + 1;
      }
      recoveryPath, dirty := Some(source), true;
      if sourceChanged {
        var current := DiskAt(disk, source);
        Remember(Notice(source, current, true));
        known, basis := Some(current), Some((source, current));
      }
    }
  }
}
