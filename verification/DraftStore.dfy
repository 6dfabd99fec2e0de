/** Recovery drafts on disk: one file of ordinary and one of paged drafts per workspace, replaced
    through a temporary file, with a failure or a crash possible at every file operation. */
module DraftStore {
  import opened Wrappers
  import opened Utf8
  import Seqs
  import opened PagedEdits

  /** Edits to replay on the source file, if it still is the one with this generation. */
  datatype PagedDraft = PagedDraft(generation: nat, edits: seq<Logged>)

  datatype Draft = Draft(id: Text, path: Option<Text>, text: Text, pages: Option<PagedDraft>) {
    const paged := pages.Some?
  }

  /** A `.json` file, its `.json.bak`, or a temporary file with a name of its own. */
  datatype Kind = Live | Bak | Temp(uuid: nat)

  datatype File = File(workspace: Text, paged: bool, kind: Kind)

  /** A file written only in part does not parse. */
  datatype Content = Records(drafts: seq<Draft>) | Torn

  type Disk = map<File, Content>

  // ---- Names ----------------------------------------------------------------------

  function HexDigit(n: nat): (c: char)
    requires n < 16
    ensures c != '.' && c != ':'
  {
    if n < 10 then (n + '0' as int) as char else (n - 10 + 'a' as int) as char
  }

  function HexId(value: Text): (r: string)
    ensures |r| == 2 * |value|
    ensures forall k :: 0 <= k < |value| ==>
      r[2 * k] == HexDigit(value[k] as nat / 16) && r[2 * k + 1] == HexDigit(value[k] as nat % 16)
  {
    if value == [] then []
    else
      var last := value[|value| - 1] as nat;
      HexId(value[..|value| - 1]) + [HexDigit(last / 16), HexDigit(last % 16)]
  }

  /** The name of a partition's file. */
  function LiveName(workspace: Text, paged: bool): string {
    HexId(workspace) + if paged then ".paged.json" else ".json"
  }

  function NamedDraftId(workspace: Text, path: Text): string {
    "named:" + HexId(workspace) + ":" + HexId(path)
  }

  lemma HexDigitInjective(a: nat, b: nat)
    requires a < 16 && b < 16 && HexDigit(a) == HexDigit(b)
    ensures a == b
  {
  }

  lemma HexIdInjective(a: Text, b: Text)
    requires HexId(a) == HexId(b)
    ensures a == b
  {
    assert |a| == |b|;
    forall k | 0 <= k < |a| ensures a[k] == b[k] {
      assert HexId(a)[2 * k] == HexId(b)[2 * k] && HexId(a)[2 * k + 1] == HexId(b)[2 * k + 1];
      HexDigitInjective(a[k] as nat / 16, b[k] as nat / 16);
      HexDigitInjective(a[k] as nat % 16, b[k] as nat % 16);
    }
  }

  /** Hexadecimal digits end where the first separator stands. */
  lemma HexIdEnds(a: Text, x: string, b: Text, y: string)
    requires x != [] && y != [] && x[0] in {'.', ':'} && y[0] in {'.', ':'}
    requires HexId(a) + x == HexId(b) + y
    ensures HexId(a) == HexId(b) && x == y
  {
    if |a| < |b| {
      HexEndsHere(a, x, b, y);
    } else if |b| < |a| {
      HexEndsHere(b, y, a, x);
    } else {
      assert HexId(a) == (HexId(a) + x)[..2 * |a|] == (HexId(b) + y)[..2 * |a|] == HexId(b);
      assert x == (HexId(a) + x)[2 * |a|..] == (HexId(b) + y)[2 * |a|..] == y;
    }
  }

  lemma HexEndsHere(a: Text, x: string, b: Text, y: string)
    requires x != [] && x[0] in {'.', ':'} && |a| < |b|
    ensures HexId(a) + x != HexId(b) + y
  {
    assert (HexId(a) + x)[2 * |a|] == x[0];
    assert (HexId(b) + y)[2 * |a|] == HexId(b)[2 * |a|];
  }

  /** No two partitions share a file, whatever the workspaces are called. */
  lemma PartitionsApart(a: Text, p: bool, b: Text, q: bool)
    requires LiveName(a, p) == LiveName(b, q)
    ensures a == b && p == q
  {
    HexIdEnds(a, if p then ".paged.json" else ".json", b, if q then ".paged.json" else ".json");
    HexIdInjective(a, b);
  }

  lemma NamedDraftsApart(w: Text, p: Text, v: Text, q: Text)
    requires NamedDraftId(w, p) == NamedDraftId(v, q)
    ensures w == v && p == q
  {
    hide HexId;
    var x, y := ":" + HexId(p), ":" + HexId(q);
    assert NamedDraftId(w, p) == "named:" + (HexId(w) + x);
    assert NamedDraftId(v, q) == "named:" + (HexId(v) + y);
    Seqs.SamePrefix("named:", HexId(w) + x, HexId(v) + y);
    HexIdEnds(w, x, v, y);
    Seqs.SamePrefix(":", HexId(p), HexId(q));
    HexIdInjective(w, v);
    HexIdInjective(p, q);
  }

  // ---- Lists of drafts ----------------------------------------------------------------

  function Find(drafts: seq<Draft>, id: Text): Option<Draft> {
    if drafts == [] then None
    else if drafts[0].id == id then Some(drafts[0])
    else Find(drafts[1..], id)
  }

  function Replaced(drafts: seq<Draft>, draft: Draft): seq<Draft> {
    if drafts == [] then [draft]
    else if drafts[0].id == draft.id then [draft] + drafts[1..]
    else [drafts[0]] + Replaced(drafts[1..], draft)
  }

  function Retained(drafts: seq<Draft>, id: Text): seq<Draft> {
    if drafts == [] then []
    else (if drafts[0].id == id then [] else [drafts[0]]) + Retained(drafts[1..], id)
  }

  function Merged(drafts: seq<Draft>, overrides: seq<Draft>): seq<Draft>
    decreases overrides
  {
    if overrides == [] then drafts else Merged(Replaced(drafts, overrides[0]), overrides[1..])
  }

  predicate Distinct(drafts: seq<Draft>) {
    forall i, j :: 0 <= i < j < |drafts| ==> drafts[i].id != drafts[j].id
  }

  lemma {:induction false} FindReplaced(drafts: seq<Draft>, draft: Draft, id: Text)
    ensures Find(Replaced(drafts, draft), id) == if id == draft.id then Some(draft) else Find(drafts, id)
  {
    if drafts != [] && drafts[0].id != draft.id {
      FindReplaced(drafts[1..], draft, id);
    }
  }

  lemma {:induction false} FindRetained(drafts: seq<Draft>, gone: Text, id: Text)
    ensures Find(Retained(drafts, gone), id) == if id == gone then None else Find(drafts, id)
    ensures |Retained(drafts, gone)| <= |drafts|
    ensures |Retained(drafts, gone)| == |drafts| <==> Find(drafts, gone) == None
    ensures Find(drafts, gone) == None ==> Retained(drafts, gone) == drafts
  {
    if drafts != [] {
      FindRetained(drafts[1..], gone, id);
      FindRetained(drafts[1..], gone, gone);
      assert drafts == [drafts[0]] + drafts[1..];
      if drafts[0].id == gone {
        assert Retained(drafts, gone) == Retained(drafts[1..], gone);
      } else {
        assert Retained(drafts, gone)[1..] == Retained(drafts[1..], gone);
      }
    }
  }

  lemma {:induction false} FindAbsent(drafts: seq<Draft>, id: Text)
    ensures Find(drafts, id) == None <==> forall i :: 0 <= i < |drafts| ==> drafts[i].id != id
    ensures Find(drafts, id).Some? ==> Find(drafts, id).value in drafts && Find(drafts, id).value.id == id
  {
    if drafts != [] {
      FindAbsent(drafts[1..], id);
      assert forall i :: 0 < i < |drafts| ==> drafts[i] == drafts[1..][i - 1];
    }
  }

  /** Paged drafts take precedence in the merged list. */
  lemma {:induction false} FindMerged(drafts: seq<Draft>, overrides: seq<Draft>, id: Text)
    requires Distinct(overrides)
    ensures Find(Merged(drafts, overrides), id) ==
      if Find(overrides, id).Some? then Find(overrides, id) else Find(drafts, id)
    decreases overrides
  {
    if overrides != [] {
      FindMerged(Replaced(drafts, overrides[0]), overrides[1..], id);
      FindReplaced(drafts, overrides[0], id);
      FindAbsent(overrides[1..], id);
    }
  }

  lemma {:induction false} ReplacedDistinct(drafts: seq<Draft>, draft: Draft)
    requires Distinct(drafts)
    ensures Distinct(Replaced(drafts, draft))
    ensures forall d :: d in Replaced(drafts, draft) ==> d == draft || d in drafts
    ensures forall d :: d in Replaced(drafts, draft) && d != draft ==> d.id != draft.id
  {
    if drafts != [] {
      if drafts[0].id == draft.id {
        assert forall d :: d in drafts[1..] ==> d.id != draft.id;
      } else {
        ReplacedDistinct(drafts[1..], draft);
        assert forall d :: d in drafts[1..] ==> d.id != drafts[0].id;
      }
    }
  }

  lemma {:induction false} RetainedDistinct(drafts: seq<Draft>, gone: Text)
    requires Distinct(drafts)
    ensures Distinct(Retained(drafts, gone))
    ensures forall d :: d in Retained(drafts, gone) ==> d in drafts
  {
    if drafts != [] {
      RetainedDistinct(drafts[1..], gone);
      assert forall d :: d in drafts[1..] ==> d.id != drafts[0].id;
    }
  }

  // ---- What a disk means ------------------------------------------------------------------

  /** A missing file is an empty list, and a backup stands in for it. */
  function Read(disk: Disk, w: Text, paged: bool): Result<seq<Draft>, string> {
    var f := if File(w, paged, Live) in disk then File(w, paged, Live) else File(w, paged, Bak);
    if f !in disk then Ok([])
    else match disk[f]
      case Records(drafts) => Ok(drafts)
      case Torn => Err("parse")
  }

  /** The draft a client gets back: the merged list is searched. */
  function Get(disk: Disk, w: Text, id: Text): Result<Option<Draft>, string> {
    var ordinary, paged := Read(disk, w, false), Read(disk, w, true);
    if ordinary.Err? then Err(ordinary.error)
    else if paged.Err? then Err(paged.error)
    else Ok(Find(Merged(ordinary.value, paged.value), id))
  }

  /** No list names a draft twice. */
  predicate Tidy(disk: Disk) {
    forall f :: f in disk && disk[f].Records? ==> Distinct(disk[f].drafts)
  }

  lemma GetIs(disk: Disk, w: Text, id: Text)
    requires Tidy(disk)
    ensures var ordinary, paged := Read(disk, w, false), Read(disk, w, true);
      Get(disk, w, id) ==
      if ordinary.Err? || paged.Err? then Err("parse")
      else Ok(if Find(paged.value, id).Some? then Find(paged.value, id) else Find(ordinary.value, id))
  {
    if Read(disk, w, false).Ok? && Read(disk, w, true).Ok? {
      FindMerged(Read(disk, w, false).value, Read(disk, w, true).value, id);
    }
  }

  predicate NoBackups(disk: Disk) {
    forall f :: f in disk ==> !f.kind.Bak?
  }

  predicate NoStaleBackup(disk: Disk, w: Text, paged: bool) {
    !(File(w, paged, Live) in disk && File(w, paged, Bak) in disk)
  }

  datatype Op = Checkpoint(workspace: Text, draft: Draft) | Discard(workspace: Text, gone: Text)

  function KeyOf(op: Op): Text {
    if op.Checkpoint? then op.draft.id else op.gone
  }

  function Outcome(op: Op): Option<Draft> {
    if op.Checkpoint? then Some(op.draft) else None
  }

  /** All or nothing: the addressed draft is as before or as the operation wants it, every other
      draft of every workspace is as before; and once completed it is as wanted. */
  ghost predicate Effect(before: Disk, after: Disk, op: Op, completed: bool) {
    && (forall w, id :: Get(after, w, id) == Get(before, w, id)
          || (w == op.workspace && id == KeyOf(op) && Get(after, w, id) == Ok(Outcome(op))))
    && (completed ==> Get(after, op.workspace, KeyOf(op)) == Ok(Outcome(op)))
  }

  // ---- One partition at a time ----------------------------------------------------------

  /** Between two disks only one partition, and temporary files, changed. */
  ghost predicate Elsewhere(a: Disk, b: Disk, w: Text, paged: bool) {
    forall v, q :: !(v == w && q == paged) ==> SameFile(a, b, File(v, q, Live)) && SameFile(a, b, File(v, q, Bak))
  }

  predicate SameFile(a: Disk, b: Disk, f: File) {
    (f in a <==> f in b) && (f in a ==> a[f] == b[f])
  }

  /** A partition is as it was, or holds exactly these drafts in its live file. */
  ghost predicate Replacing(a: Disk, b: Disk, w: Text, paged: bool, drafts: seq<Draft>) {
    && Elsewhere(a, b, w, paged)
    && (SameFile(a, b, File(w, paged, Bak)) || File(w, paged, Bak) !in b)
    && (|| (SameFile(a, b, File(w, paged, Live)) && SameFile(a, b, File(w, paged, Bak)))
        || (File(w, paged, Live) in b && b[File(w, paged, Live)] == Records(drafts)))
  }

  /** Only one partition reads differently, if any: as the list without one draft. */
  ghost predicate Removing(a: Disk, b: Disk, w: Text, paged: bool, id: Text) {
    && Elsewhere(a, b, w, paged)
    && (Read(b, w, paged) == Read(a, w, paged)
        || (Read(a, w, paged).Ok? && Read(b, w, paged) == Ok(Retained(Read(a, w, paged).value, id))))
  }

  lemma ElsewhereReads(a: Disk, b: Disk, w: Text, paged: bool, v: Text, q: bool)
    requires Elsewhere(a, b, w, paged) && !(v == w && q == paged)
    ensures Read(a, v, q) == Read(b, v, q)
  {
    assert SameFile(a, b, File(v, q, Live)) && SameFile(a, b, File(v, q, Bak));
  }

  /** Publishing the list with the new draft: the old copy in the other partition may still win. */
  lemma WritingIsAtomic(a: Disk, d: Disk, w: Text, draft: Draft)
    requires Tidy(a) && Tidy(d) && Read(a, w, draft.paged).Ok?
    requires Replacing(a, d, w, draft.paged, Replaced(Read(a, w, draft.paged).value, draft))
    ensures Effect(a, d, Op.Checkpoint(w, draft), false)
  {
    forall v, id
      ensures Get(d, v, id) == Get(a, v, id) || (v == w && id == draft.id && Get(d, v, id) == Ok(Some(draft)))
    {
      hide Replaced;
      hide Find;
      hide Merged;
      hide Get;
      GetIs(a, v, id);
      GetIs(d, v, id);
      if v != w {
        ElsewhereReads(a, d, w, draft.paged, v, false);
        ElsewhereReads(a, d, w, draft.paged, v, true);
      } else {
        ElsewhereReads(a, d, w, draft.paged, v, !draft.paged);
        FindReplaced(Read(a, w, draft.paged).value, draft, id);
      }
    }
  }

  /** Taking the draft out of one partition, when the other one has the value to keep. */
  lemma RemovingIsAtomic(m: Disk, d: Disk, w: Text, paged: bool, op: Op)
    requires Tidy(m) && Tidy(d) && Removing(m, d, w, paged, KeyOf(op)) && op.workspace == w
    requires op.Checkpoint? ==> op.draft.paged != paged
    requires Read(m, w, !paged).Ok? && op.Checkpoint? ==> Find(Read(m, w, !paged).value, KeyOf(op)) == Outcome(op)
    requires op.Discard? && paged && Read(m, w, false).Ok? ==> Find(Read(m, w, false).value, KeyOf(op)) == None
    ensures Effect(m, d, op, false)
  {
    var gone := KeyOf(op);
    forall v, id
      ensures Get(d, v, id) == Get(m, v, id) || (v == w && id == gone && Get(d, v, id) == Ok(Outcome(op)))
    {
      hide Retained;
      hide Find;
      hide Merged;
      hide Get;
      GetIs(m, v, id);
      GetIs(d, v, id);
      if v != w {
        ElsewhereReads(m, d, w, paged, v, false);
        ElsewhereReads(m, d, w, paged, v, true);
      } else {
        ElsewhereReads(m, d, w, paged, v, !paged);
        if Read(m, w, paged).Ok? {
          FindRetained(Read(m, w, paged).value, gone, id);
        }
      }
    }
  }

  /** One file operation of `WritePartition` away from a good disk is a good disk. */
  ghost predicate Stage(a: Disk, d: Disk, w: Text, paged: bool, drafts: seq<Draft>) {
    Replacing(a, d, w, paged, drafts) && Tidy(d) && (NoBackups(a) ==> NoBackups(d))
  }

  lemma WriteStages(a: Disk, w: Text, paged: bool, drafts: seq<Draft>, uuid: nat)
    requires Tidy(a) && Distinct(drafts)
    ensures var temp := File(w, paged, Temp(uuid));
      var torn := a[temp := Torn];
      var staged := torn[temp := Records(drafts)];
      && Stage(a, a, w, paged, drafts) && Stage(a, torn, w, paged, drafts) && Stage(a, staged, w, paged, drafts)
      && Stage(a, staged - {temp}, w, paged, drafts)
  {
    hide Distinct;
  }

  lemma PublishStages(a: Disk, staged: Disk, w: Text, paged: bool, drafts: seq<Draft>, uuid: nat)
    requires Tidy(staged) && Distinct(drafts)
    requires staged == a[File(w, paged, Temp(uuid)) := Torn][File(w, paged, Temp(uuid)) := Records(drafts)]
    ensures var temp, live, bak := File(w, paged, Temp(uuid)), File(w, paged, Live), File(w, paged, Bak);
      var published := (staged - {temp})[live := Records(drafts)];
      && Stage(a, published, w, paged, drafts) && Stage(a, published - {bak}, w, paged, drafts)
      && (published - {bak})[live] == Records(drafts)
  {
    hide Distinct;
  }

  lemma StageMeans(a: Disk, d: Disk, w: Text, paged: bool, drafts: seq<Draft>)
    requires Stage(a, d, w, paged, drafts)
    ensures Replacing(a, d, w, paged, drafts) && Tidy(d) && (NoBackups(a) ==> NoBackups(d))
  {
  }

  /** Writing the list without one draft, or deleting a file that would be empty. */
  lemma RetainedStages(a: Disk, w: Text, paged: bool, id: Text, d: Disk)
    requires Read(a, w, paged).Ok? && Stage(a, d, w, paged, Retained(Read(a, w, paged).value, id))
    ensures Removing(a, d, w, paged, id) && Tidy(d) && (NoBackups(a) ==> NoBackups(d))
  {
  }

  lemma NothingRemoved(a: Disk, w: Text, paged: bool, id: Text)
    ensures Removing(a, a, w, paged, id)
  {
  }

  lemma RetainedTidy(a: Disk, w: Text, paged: bool, id: Text)
    requires Tidy(a) && Read(a, w, paged).Ok?
    ensures Distinct(Retained(Read(a, w, paged).value, id))
  {
    RetainedDistinct(Read(a, w, paged).value, id);
  }

  lemma EmptiedStages(a: Disk, w: Text, paged: bool, id: Text)
    requires Tidy(a) && NoStaleBackup(a, w, paged) && Read(a, w, paged).Ok?
    requires Retained(Read(a, w, paged).value, id) == []
    ensures var d := a - {File(w, paged, Live)}; var e := d - {File(w, paged, Bak)};
      && Removing(a, d, w, paged, id) && Removing(a, e, w, paged, id) && Removing(a, a, w, paged, id)
      && Tidy(d) && Tidy(e) && (NoBackups(a) ==> NoBackups(d) && NoBackups(e)) && Read(e, w, paged) == Ok([])
      && (File(w, paged, Bak) !in d ==> Read(d, w, paged) == Ok([]))
  {
  }

  lemma EffectTransitive(a: Disk, b: Disk, c: Disk, op: Op)
    requires Effect(a, b, op, false) && Effect(b, c, op, false)
    ensures Effect(a, c, op, false)
  {
  }

  // ---- The store ------------------------------------------------------------------------------

  class DraftStore {
    var files: Disk
    /** Every disk a crash could leave behind. */
    var crashes: seq<Disk>

    constructor (disk: Disk)
      ensures files == disk && crashes == [disk]
    {
      files := disk;
      crashes := [disk];
    }

    /** One file operation; a crash may follow it. */
    method Commit(disk: Disk)
      modifies this
      ensures files == disk && crashes == old(crashes) + [disk]
    {
      files := disk;
      crashes := crashes + [disk];
    }

    /** Any step may fail; the temporary file may stay behind, the backup may fail to go away. */
    method WritePartition(w: Text, drafts: seq<Draft>, paged: bool, uuid: nat, faulty: bool)
      returns (ok: bool, ghost swallowed: bool)
      requires Tidy(files) && Distinct(drafts)
      modifies this
      ensures old(crashes) <= crashes
      ensures forall i :: |old(crashes)| <= i < |crashes| ==> Stage(old(files), crashes[i], w, paged, drafts)
      ensures Stage(old(files), files, w, paged, drafts)
      ensures ok ==> File(w, paged, Live) in files && files[File(w, paged, Live)] == Records(drafts)
      ensures swallowed ==> File(w, paged, Bak) in old(files)
      ensures !faulty ==> ok && !swallowed
    {
      hide Stage;
      hide Tidy;
      WriteStages(files, w, paged, drafts, uuid);
      swallowed := false;
      var temp, live, bak := File(w, paged, Temp(uuid)), File(w, paged, Live), File(w, paged, Bak);
      var fails := Fails(faulty);
      if fails {
        return false, swallowed;
      }
      Commit(files[temp := Torn]);
      fails := Fails(faulty);
      if fails {
        return false, swallowed;
      }
      Commit(files[temp := Records(drafts)]);
      StageMeans(old(files), files, w, paged, drafts);
      PublishStages(old(files), files, w, paged, drafts, uuid);
      fails := Fails(faulty);
      if fails {
        fails := Fails(faulty);
        if !fails {
          Commit(files - {temp});
        }
        return false, swallowed;
      }
      Commit((files - {temp})[live := Records(drafts)]);
      fails := Fails(faulty);
      if fails {
        swallowed := bak in files;
      } else {
        Commit(files - {bak});
      }
      fails := Fails(faulty);
      return !fails, swallowed;
    }

    method RemoveFromPartition(w: Text, id: Text, paged: bool, uuid: nat, faulty: bool)
      returns (ok: bool, ghost swallowed: bool)
      requires Tidy(files) && NoStaleBackup(files, w, paged)
      modifies this
      ensures old(crashes) <= crashes
      ensures forall i :: |old(crashes)| <= i < |crashes| ==>
        && Removing(old(files), crashes[i], w, paged, id) && Tidy(crashes[i])
        && (NoBackups(old(files)) ==> NoBackups(crashes[i]))
      ensures Removing(old(files), files, w, paged, id) && Tidy(files)
      ensures ok ==> Read(old(files), w, paged).Ok?
      ensures ok && !swallowed ==> Read(files, w, paged).Ok? && Find(Read(files, w, paged).value, id) == None
      ensures swallowed ==> File(w, paged, Bak) in old(files)
      ensures NoBackups(old(files)) ==> NoBackups(files)
      ensures !faulty && Read(old(files), w, paged).Ok? ==> ok && !swallowed
      ensures Read(old(files), w, paged).Ok? && Find(Read(old(files), w, paged).value, id) == None ==>
        files == old(files) && crashes == old(crashes)
      ensures ok && !swallowed && Read(files, w, paged) == Ok([]) && files != old(files) ==>
        File(w, paged, Live) !in files && File(w, paged, Bak) !in files
    {
      hide Stage;
      hide Removing;
      hide Tidy;
      hide NoBackups;
      hide Retained;
      swallowed := false;
      ghost var before := files;
      NothingRemoved(before, w, paged, id);
      var state := Read(files, w, paged);
      if state.Err? {
        return false, swallowed;
      }
      var fails := Fails(faulty);
      if fails {
        return false, swallowed;
      }
      var kept := Retained(state.value, id);
      FindRetained(state.value, id, id);
      RetainedTidy(before, w, paged, id);
      if |kept| == |state.value| {
        return true, swallowed;
      }
      if kept == [] {
        EmptiedStages(before, w, paged, id);
        fails := Fails(faulty);
        if fails {
          return false, swallowed;
        }
        Commit(files - {File(w, paged, Live)});
        fails := Fails(faulty);
        if fails {
          swallowed := File(w, paged, Bak) in files;
        } else {
          Commit(files - {File(w, paged, Bak)});
        }
        return true, swallowed;
      }
      ghost var count := |crashes|;
      ok, swallowed := WritePartition(w, kept, paged, uuid, faulty);
      StageMeans(before, files, w, paged, kept);
      RetainedStages(before, w, paged, id, files);
      forall i | count <= i < |crashes|
        ensures Removing(before, crashes[i], w, paged, id) && Tidy(crashes[i])
        ensures NoBackups(before) ==> NoBackups(crashes[i])
      {
        RetainedStages(before, w, paged, id, crashes[i]);
      }
    }

    /** Store a draft in its partition, then take it out of the other one. */
    method Checkpoint(w: Text, draft: Draft, uuid: nat, uuid': nat, faulty: bool)
      returns (ok: bool, ghost swallowed: bool)
      requires Tidy(files) && NoStaleBackup(files, w, !draft.paged)
      modifies this
      ensures old(crashes) <= crashes
      ensures forall i :: |old(crashes)| <= i < |crashes| ==>
        && Effect(old(files), crashes[i], Op.Checkpoint(w, draft), false) && Tidy(crashes[i])
        && (NoBackups(old(files)) ==> NoBackups(crashes[i]))
      ensures Effect(old(files), files, Op.Checkpoint(w, draft), ok && !swallowed) && Tidy(files)
      ensures ok && !swallowed ==>
        && Read(files, w, draft.paged).Ok? && Find(Read(files, w, draft.paged).value, draft.id) == Some(draft)
        && Read(files, w, !draft.paged).Ok? && Find(Read(files, w, !draft.paged).value, draft.id) == None
      ensures swallowed ==> !NoBackups(old(files))
      ensures NoBackups(old(files)) ==> NoBackups(files)
      ensures !faulty && Read(old(files), w, false).Ok? && Read(old(files), w, true).Ok? ==> ok && !swallowed
    {
      hide Stage;
      hide Removing;
      hide Replacing;
      hide Tidy;
      hide Effect;
      hide Replaced;
      hide Read;
      hide Find;
      hide NoStaleBackup;
      hide NoBackups;
      swallowed := false;
      ghost var op := Op.Checkpoint(w, draft);
      ghost var before := files;
      SameEffect(before, op);
      var state := Read(files, w, draft.paged);
      if state.Err? {
        return false, swallowed;
      }
      ReplacedTidy(before, w, draft);
      ghost var start := |crashes|;
      ok, swallowed := WritePartition(w, Replaced(state.value, draft), draft.paged, uuid, faulty);
      ghost var middle, count := files, |crashes|;
      CheckpointStage(before, files, w, draft);
      forall i | start <= i < count
        ensures Effect(before, crashes[i], op, false) && Tidy(crashes[i])
        ensures NoBackups(before) ==> NoBackups(crashes[i])
      {
        CheckpointStage(before, crashes[i], w, draft);
      }
      BackupSeen(before, w, draft.paged);
      if !ok {
        return false, swallowed;
      }
      Published(before, middle, w, draft);
      ghost var lost;
      ok, lost := RemoveFromPartition(w, draft.id, !draft.paged, uuid', faulty);
      forall i | count <= i < |crashes| ensures Effect(before, crashes[i], op, false) && Tidy(crashes[i]) {
        Cleaned(before, middle, crashes[i], w, draft);
      }
      Cleaned(before, middle, files, w, draft);
      BackupSeen(middle, w, !draft.paged);
      swallowed := swallowed || lost;
    }

    /** Take a draft out of both partitions. Only a backup that fails to go away can let an older
        copy show through. */
    method Discard(w: Text, id: Text, uuid: nat, uuid': nat, faulty: bool)
      returns (ok: bool, ghost swallowed: bool)
      requires Tidy(files) && NoStaleBackup(files, w, false) && NoStaleBackup(files, w, true)
      modifies this
      ensures old(crashes) <= crashes
      ensures !swallowed ==> forall i :: |old(crashes)| <= i < |crashes| ==>
        && Effect(old(files), crashes[i], Op.Discard(w, id), false) && Tidy(crashes[i])
        && (NoBackups(old(files)) ==> NoBackups(crashes[i]))
      ensures !swallowed ==> Effect(old(files), files, Op.Discard(w, id), ok)
      ensures Tidy(files) && (NoBackups(old(files)) ==> NoBackups(files) && !swallowed)
      ensures !faulty && Read(old(files), w, false).Ok? && Read(old(files), w, true).Ok? ==> ok && !swallowed
    {
      hide Removing;
      hide Tidy;
      hide Effect;
      hide Read;
      hide Find;
      hide NoBackups;
      hide NoStaleBackup;
      ghost var op := Op.Discard(w, id);
      ghost var before := files;
      ghost var start := |crashes|;
      SameEffect(before, op);
      BackupSeen(before, w, false);
      ok, swallowed := RemoveFromPartition(w, id, false, uuid, faulty);
      ghost var middle, count := files, |crashes|;
      RemovingIsAtomic(before, middle, w, false, op);
      forall i | start <= i < count ensures Effect(before, crashes[i], op, false) && Tidy(crashes[i]) {
        RemovingIsAtomic(before, crashes[i], w, false, op);
      }
      if !ok {
        return false, swallowed;
      }
      RemovingElsewhere(before, middle, w, false, id);
      ghost var lost;
      BackupSeen(middle, w, true);
      ok, lost := RemoveFromPartition(w, id, true, uuid', faulty);
      if !swallowed {
        forall i | count <= i < |crashes| ensures Effect(before, crashes[i], op, false) && Tidy(crashes[i]) {
          RemovingIsAtomic(middle, crashes[i], w, true, op);
          EffectTransitive(before, middle, crashes[i], op);
        }
        RemovingIsAtomic(middle, files, w, true, op);
        EffectTransitive(before, middle, files, op);
        if ok && !lost {
          RemovingElsewhere(middle, files, w, true, id);
          Gone(before, files, w, id);
        }
      }
      swallowed := swallowed || lost;
    }

    /** The drafts of a workspace, paged ones first where both partitions know a draft. */
    method List(w: Text) returns (drafts: Result<seq<Draft>, string>)
      requires Tidy(files)
      ensures drafts.Ok? ==> forall id :: Get(files, w, id) == Ok(Find(drafts.value, id))
      ensures drafts.Err? ==> forall id :: Get(files, w, id).Err?
    {
      var ordinary, paged := Read(files, w, false), Read(files, w, true);
      if ordinary.Err? {
        return Err(ordinary.error);
      }
      if paged.Err? {
        return Err(paged.error);
      }
      var merged, i := ordinary.value, 0;
      while i < |paged.value|
        invariant i <= |paged.value| && Merged(ordinary.value, paged.value) == Merged(merged, paged.value[i..])
      {
        assert paged.value[i..][1..] == paged.value[i + 1..];
        merged := Replaced(merged, paged.value[i]);
        i := i + 1;
      }
      return Ok(merged);
    }
  }

  /** Paths of every record a client could get back, from whatever files there are. */
  method ProtectedPaths(disk: Disk) returns (paths: Result<set<Text>, string>)
    requires Tidy(disk)
    ensures paths.Ok? ==> forall w, id :: Get(disk, w, id).Ok? && Protectable(Get(disk, w, id).value) ==>
      Get(disk, w, id).value.value.path.value in paths.value
    ensures paths.Ok? ==> forall p :: p in paths.value ==> Recorded(disk, p)
    ensures paths.Err? <==> exists f :: f in disk && Current(disk, f) && disk[f].Torn?
  {
    var found, todo := {}, disk.Keys;
    while todo != {}
      invariant todo <= disk.Keys
      invariant forall f :: f in disk && f !in todo && Inspected(disk, f) ==> disk[f].Records?
      invariant forall f, d :: f in disk && f !in todo && Inspected(disk, f) && d in disk[f].drafts && d.path.Some? ==>
        d.path.value in found
      invariant forall p :: p in found ==> Recorded(disk, p)
      decreases todo
    {
      var f :| f in todo;
      if Inspected(disk, f) {
        match disk[f]
        case Torn => return Err("inspect recovery record");
        case Records(drafts) =>
          forall d | d in drafts && d.path.Some? ensures Recorded(disk, d.path.value) {
            assert Current(disk, f);
          }
          found := found + set d | d in drafts && d.path.Some? :: d.path.value;
      }
      todo := todo - {f};
    }
    forall w, id | Get(disk, w, id).Ok? && Protectable(Get(disk, w, id).value)
      ensures Get(disk, w, id).value.value.path.value in found
    {
      RecordBehind(disk, w, id);
    }
    return Ok(found);
  }

  /** The file a reader takes: a live one, or a backup with no live file beside it. */
  predicate Current(disk: Disk, f: File) {
    match f.kind
    case Live => true
    case Bak => File(f.workspace, f.paged, Live) !in disk
    case Temp(_) => false
  }

  /** Some current record is of this path. */
  ghost predicate Recorded(disk: Disk, p: Text) {
    exists f, d :: f in disk && Current(disk, f) && disk[f].Records? && d in disk[f].drafts && d.path == Some(p)
  }

  predicate Protectable(draft: Option<Draft>) {
    draft.Some? && draft.value.path.Some?
  }

  /** Live files, and backups without one; never temporary files. */
  predicate Inspected(disk: Disk, f: File) {
    f.kind.Live? || (f.kind.Bak? && File(f.workspace, f.paged, Live) !in disk)
  }

  lemma RecordBehind(disk: Disk, w: Text, id: Text)
    requires Tidy(disk) && Get(disk, w, id).Ok? && Get(disk, w, id).value.Some?
    ensures exists f ::
      && f in disk && Inspected(disk, f) && disk[f].Records?
      && Get(disk, w, id).value.value in disk[f].drafts
  {
    GetIs(disk, w, id);
    var paged := Find(Read(disk, w, true).value, id).Some?;
    FindAbsent(Read(disk, w, paged).value, id);
    var f := if File(w, paged, Live) in disk then File(w, paged, Live) else File(w, paged, Bak);
    assert f in disk && Inspected(disk, f);
  }

  // ---- Steps of the two operations ------------------------------------------------------------

  lemma SameEffect(a: Disk, op: Op)
    ensures Effect(a, a, op, false)
  {
  }

  lemma ReplacedTidy(a: Disk, w: Text, draft: Draft)
    requires Tidy(a) && Read(a, w, draft.paged).Ok?
    ensures Distinct(Replaced(Read(a, w, draft.paged).value, draft))
  {
    ReplacedDistinct(Read(a, w, draft.paged).value, draft);
  }

  lemma BackupSeen(a: Disk, w: Text, paged: bool)
    ensures File(w, paged, Bak) in a ==> !NoBackups(a)
  {
  }

  lemma CheckpointStage(a: Disk, d: Disk, w: Text, draft: Draft)
    requires Tidy(a) && Read(a, w, draft.paged).Ok?
    requires Stage(a, d, w, draft.paged, Replaced(Read(a, w, draft.paged).value, draft))
    ensures Effect(a, d, Op.Checkpoint(w, draft), false) && Tidy(d) && (NoBackups(a) ==> NoBackups(d))
  {
    hide Effect;
    hide Replacing;
    hide Replaced;
    WritingIsAtomic(a, d, w, draft);
  }

  lemma Published(a: Disk, m: Disk, w: Text, draft: Draft)
    requires Read(a, w, draft.paged).Ok? && NoStaleBackup(a, w, !draft.paged)
    requires Stage(a, m, w, draft.paged, Replaced(Read(a, w, draft.paged).value, draft))
    requires File(w, draft.paged, Live) in m
      && m[File(w, draft.paged, Live)] == Records(Replaced(Read(a, w, draft.paged).value, draft))
    ensures Read(m, w, draft.paged).Ok? && Find(Read(m, w, draft.paged).value, draft.id) == Some(draft)
    ensures NoStaleBackup(m, w, !draft.paged) && Read(m, w, !draft.paged) == Read(a, w, !draft.paged)
  {
    FindReplaced(Read(a, w, draft.paged).value, draft, draft.id);
    ElsewhereReads(a, m, w, draft.paged, w, !draft.paged);
    assert SameFile(a, m, File(w, !draft.paged, Live)) && SameFile(a, m, File(w, !draft.paged, Bak));
  }

  lemma RemovingElsewhere(m: Disk, d: Disk, w: Text, paged: bool, id: Text)
    requires Removing(m, d, w, paged, id)
    ensures Read(d, w, !paged) == Read(m, w, !paged)
    ensures NoStaleBackup(m, w, !paged) ==> NoStaleBackup(d, w, !paged)
  {
    ElsewhereReads(m, d, w, paged, w, !paged);
    assert SameFile(m, d, File(w, !paged, Live)) && SameFile(m, d, File(w, !paged, Bak));
  }

  lemma Cleaned(a: Disk, m: Disk, d: Disk, w: Text, draft: Draft)
    requires Effect(a, m, Op.Checkpoint(w, draft), false) && Tidy(m) && Tidy(d)
    requires Read(m, w, draft.paged).Ok? && Find(Read(m, w, draft.paged).value, draft.id) == Some(draft)
    requires Removing(m, d, w, !draft.paged, draft.id)
    ensures Effect(a, d, Op.Checkpoint(w, draft), false) && Read(d, w, draft.paged) == Read(m, w, draft.paged)
    ensures Read(d, w, !draft.paged).Ok? && Find(Read(d, w, !draft.paged).value, draft.id) == None ==>
      Effect(a, d, Op.Checkpoint(w, draft), true)
  {
    hide Read;
    hide Find;
    hide Removing;
    hide Merged;
    var op := Op.Checkpoint(w, draft);
    RemovingIsAtomic(m, d, w, !draft.paged, op);
    EffectTransitive(a, m, d, op);
    RemovingElsewhere(m, d, w, !draft.paged, draft.id);
    GetIs(d, w, draft.id);
  }

  lemma Gone(a: Disk, d: Disk, w: Text, id: Text)
    requires Effect(a, d, Op.Discard(w, id), false) && Tidy(d)
    requires forall paged :: Read(d, w, paged).Ok? && Find(Read(d, w, paged).value, id) == None
    ensures Effect(a, d, Op.Discard(w, id), true)
  {
    GetIs(d, w, id);
  }

  // ---- Whole histories --------------------------------------------------------------------------

  datatype Attempt = Attempt(op: Op, completed: bool)

  /** What a draft may read as after some attempts: the last completed one that named it, or any
      interrupted one since. */
  function Possible(first: Result<Option<Draft>, string>, attempts: seq<Attempt>, w: Text, id: Text)
    : (r: set<Result<Option<Draft>, string>>)
  {
    if attempts == [] then {first}
    else
      var last := attempts[|attempts| - 1];
      var before := Possible(first, attempts[..|attempts| - 1], w, id);
      if last.op.workspace != w || KeyOf(last.op) != id then before
      else if last.completed then {Ok(Outcome(last.op))}
      else before + {Ok(Outcome(last.op))}
  }

  lemma NoneStale(disk: Disk)
    requires NoBackups(disk)
    ensures forall w, paged :: NoStaleBackup(disk, w, paged)
  {
  }

  /** One more attempt adds the value it wants, or, completed, replaces all others by it. */
  lemma AttemptPossible(first: Disk, before: Disk, after: Disk, attempts: seq<Attempt>, next: Attempt)
    requires Effect(before, after, next.op, next.completed)
    requires forall w, id :: Get(before, w, id) in Possible(Get(first, w, id), attempts, w, id)
    ensures forall w, id :: Get(after, w, id) in Possible(Get(first, w, id), attempts + [next], w, id)
  {
    hide Get;
    assert (attempts + [next])[..|attempts|] == attempts;
  }

  /** A script of checkpoints and discards, any of which may fail at any file operation, or be cut
      off by a crash after any of them, from a store without backups. Crashes and failures never
      mix up drafts: each draft of each workspace reads as one of its own possible values. */
  method RunHistory(disk: Disk, script: seq<Op>) returns (store: DraftStore, ghost attempts: seq<Attempt>)
    requires Tidy(disk) && NoBackups(disk)
    ensures |attempts| == |script| && forall i :: 0 <= i < |script| ==> attempts[i].op == script[i]
    ensures forall w, id :: Get(store.files, w, id) in Possible(Get(disk, w, id), attempts, w, id)
    ensures fresh(store) && Tidy(store.files) && NoBackups(store.files)
  {
    hide Effect;
    hide Tidy;
    hide NoBackups;
    hide Get;
    store := new DraftStore(disk);
    attempts := [];
    var i := 0;
    while i < |script|
      invariant i == |attempts| <= |script| && forall k :: 0 <= k < i ==> attempts[k].op == script[k]
      invariant fresh(store) && Tidy(store.files) && NoBackups(store.files)
      invariant forall w, id :: Get(store.files, w, id) in Possible(Get(disk, w, id), attempts, w, id)
    {
      var faulty: bool, uuid: nat, uuid': nat := *, *, *;
      ghost var before := store.files;
      NoneStale(before);
      var start := |store.crashes|;
      var ok;
      ghost var swallowed;
      match script[i] {
        case Checkpoint(w, draft) => ok, swallowed := store.Checkpoint(w, draft, uuid, uuid', faulty);
        case Discard(w, id) => ok, swallowed := store.Discard(w, id, uuid, uuid', faulty);
      }
      var crash: nat := *;
      if start <= crash < |store.crashes| {
        store := new DraftStore(store.crashes[crash]);
        ok := false;
      }
      AttemptPossible(disk, before, store.files, attempts, Attempt(script[i], ok));
      attempts := attempts + [Attempt(script[i], ok)];
      i := i + 1;
    }
  }

  /** Why backups must not lie beside live files: a crash between the two deletions that empty a
      partition is harmless exactly if the backup repeats the deleted draft. */
  lemma BackupResurrects(a: Disk, w: Text, one: Draft)
    requires Tidy(a) && Read(a, w, true) == Ok([]) && File(w, false, Live) in a
    requires a[File(w, false, Live)] == Records([one])
    ensures var b := a - {File(w, false, Live)}; var bak := File(w, false, Bak);
      Effect(a, b, Op.Discard(w, one.id), false) <==>
      bak !in a || (a[bak].Records? && forall d :: d in a[bak].drafts ==> d == one)
  {
    var b, bak := a - {File(w, false, Live)}, File(w, false, Bak);
    assert Tidy(b);
    forall v, id
      ensures v != w ==> Get(b, v, id) == Get(a, v, id)
      ensures Get(a, w, id) == Ok(if id == one.id then Some(one) else None)
      ensures Get(b, w, id) == if Read(b, w, false).Err? then Err("parse") else Ok(Find(Read(b, w, false).value, id))
    {
      GetIs(a, v, id);
      GetIs(b, v, id);
      GetIs(a, w, id);
      GetIs(b, w, id);
      assert Read(b, w, true) == Ok([]);
    }
    if bak in a && a[bak].Torn? {
      assert Get(b, w, one.id).Err?;
    } else if bak in a {
      forall id ensures Get(b, w, id) == Ok(Find(a[bak].drafts, id)) {
        FindAbsent(a[bak].drafts, id);
      }
      if d :| d in a[bak].drafts && d != one {
        FindAbsent(a[bak].drafts, d.id);
        assert Get(b, w, d.id).value.Some?;
        FindUnique(a[bak].drafts, d);
      } else {
        forall id ensures Find(a[bak].drafts, id) == None || (id == one.id && Find(a[bak].drafts, id) == Some(one)) {
          FindAbsent(a[bak].drafts, id);
        }
      }
    }
  }

  lemma {:induction false} FindUnique(drafts: seq<Draft>, d: Draft)
    requires Distinct(drafts) && d in drafts
    ensures Find(drafts, d.id) == Some(d)
  {
    if drafts[0] != d {
      FindUnique(drafts[1..], d);
    }
  }
}
