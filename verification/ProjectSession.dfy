/** The project search of one connection: at most one current scan, older ones cancelled, and a
    finished one consumed by a single replacement. */
module ProjectSession {
  import opened Wrappers
  import opened SearchReview

  datatype FileResult = FileResult(id: string, matches: seq<Match>)

  datatype ScanResult = ScanResult(files: seq<FileResult>, cancelled: bool)

  /** A generation is the identity of one scan; request ids may repeat. */
  datatype Search = Search(id: string, workspace: string, root: string, generation: nat,
                           result: Option<ScanResult>)

  datatype FileSelection = FileSelection(fileId: string, indices: seq<nat>)

  class ProjectSession {
    var current: Option<Search>
    /** Generations whose cancel flag is set. */
    var cancelled: set<nat>
    var nextGeneration: nat
    /** What the scan of each generation found, and which ones a replacement took. */
    ghost var found: map<nat, ScanResult>
    ghost var consumed: seq<nat>

    /** Whatever is not current is cancelled; a stored result is its own scan's, not cut short;
        and no generation was consumed twice. */
    ghost predicate IsSession()
      reads this
    {
      && (forall g: nat :: g < nextGeneration ==>
            (g in cancelled <==> !(current.Some? && current.value.generation == g)))
      && (forall g :: g in cancelled ==> g < nextGeneration)
      && (forall g :: g in found ==> g < nextGeneration)
      && (current.Some? ==>
            && current.value.generation < nextGeneration
            && (current.value.result.Some? ==>
                  && current.value.generation in found
                  && current.value.result.value == found[current.value.generation]
                  && !current.value.result.value.cancelled))
      && (forall g :: g in consumed ==> g in cancelled && g in found)
      && (forall i, j :: 0 <= i < j < |consumed| ==> consumed[i] != consumed[j])
    }

    constructor ()
      ensures IsSession() && current == None && consumed == []
    {
      current, cancelled, nextGeneration := None, {}, 0;
      found, consumed := map[], [];
    }

    method Clear()
      requires IsSession()
      modifies this
      ensures IsSession() && current == None
      ensures found == old(found) && consumed == old(consumed) && nextGeneration == old(nextGeneration)
    {
      if current.Some? {
        cancelled := cancelled + {current.value.generation};
        current := None;
      }
    }

    method Cancel(id: string)
      requires IsSession()
      modifies this
      ensures IsSession() && found == old(found) && consumed == old(consumed)
      ensures current ==
        if old(current).Some? && old(current).value.id == id then None else old(current)
    {
      if current.Some? && current.value.id == id {
        cancelled := cancelled + {current.value.generation};
        current := None;
      }
    }

    /** A new search supersedes whatever ran before, even under the same id. */
    method Begin(id: string, workspace: string, root: string) returns (generation: nat)
      requires IsSession()
      modifies this
      ensures IsSession() && found == old(found) && consumed == old(consumed)
      ensures generation == old(nextGeneration) && nextGeneration == generation + 1
      ensures current == Some(Search(id, workspace, root, generation, None))
    {
      Clear();
      generation := nextGeneration;
      nextGeneration := nextGeneration + 1;
      current := Some(Search(id, workspace, root, generation, None));
    }

    /** A scan worker ends, at any time: only the current generation keeps its result. */
    method FinishScan(generation: nat, result: ScanResult)
      requires IsSession() && generation < nextGeneration && generation !in found
      modifies this
      ensures IsSession() && found == old(found)[generation := result] && consumed == old(consumed)
      ensures cancelled == old(cancelled) && nextGeneration == old(nextGeneration)
      ensures current ==
        if old(current).Some? && old(current).value.generation == generation && !result.cancelled
        then Some(old(current).value.(result := Some(result))) else old(current)
    {
      found := found[generation := result];
      if current.Some? && current.value.generation == generation && !result.cancelled {
        current := Some(current.value.(result := Some(result)));
      }
    }

    /** Take the finished scan; there is nothing left for a second replacement. */
    method TakeResult(searchId: string, workspace: string, root: string) returns (taken: Result<ScanResult, string>)
      requires IsSession()
      modifies this
      ensures IsSession() && found == old(found) && nextGeneration == old(nextGeneration)
      ensures taken.Ok? <==>
        && old(current).Some? && old(current).value.result.Some?
        && old(current).value.id == searchId && old(current).value.workspace == workspace
        && old(current).value.root == root
      ensures taken.Ok? ==>
        && current == None && consumed == old(consumed) + [old(current).value.generation]
        && taken.value == found[old(current).value.generation]
      ensures taken.Err? ==> current == old(current) && consumed == old(consumed) && cancelled == old(cancelled)
    {
      if current == None {
        return Err("Search expired; run it again");
      }
      var search := current.value;
      if search.id != searchId || search.workspace != workspace || search.root != root {
        return Err("Search scope changed; run it again");
      }
      if search.result == None {
        return Err("Search is still running or failed");
      }
      current := None;
      cancelled := cancelled + {search.generation};
      consumed := consumed + [search.generation];
      return Ok(search.result.value);
    }
  }

  // ---- Which edits a replacement asks for -------------------------------------------------

  function FindFile(files: seq<FileResult>, id: string): Option<FileResult> {
    if files == [] then None
    else if files[0].id == id then Some(files[0])
    else FindFile(files[1..], id)
  }

  /** The file of an id is the first one listed under it. */
  lemma {:induction false} FindFileIs(files: seq<FileResult>, id: string)
    ensures FindFile(files, id) == None <==> forall f :: f in files ==> f.id != id
    ensures forall i :: 0 <= i < |files| && files[i].id == id && (forall j :: 0 <= j < i ==> files[j].id != id) ==>
      FindFile(files, id) == Some(files[i])
  {
    if files != [] {
      FindFileIs(files[1..], id);
      assert forall i :: 0 < i < |files| ==> files[i] == files[1..][i - 1];
      if files[0].id != id {
        forall i | 0 <= i < |files| && files[i].id == id && (forall j :: 0 <= j < i ==> files[j].id != id)
          ensures FindFile(files, id) == Some(files[i])
        {
          assert forall j :: 0 <= j < i - 1 ==> files[1..][j].id != id;
        }
      }
    }
  }

  /** What one selection asks for, given the file ids selected before it. */
  predicate Accepts(files: seq<FileResult>, earlier: seq<FileSelection>, s: FileSelection) {
    && (forall e :: e in earlier ==> e.fileId != s.fileId)
    && FindFile(files, s.fileId).Some?
    && s.indices != [] && forall i :: i in s.indices ==> i < |FindFile(files, s.fileId).value.matches|
  }

  /** Per selection the edits of its chosen matches; a file selected twice is edited once. */
  method ReplacementEdits(files: seq<FileResult>, selections: seq<FileSelection>)
    returns (edits: seq<Selection>)
    ensures |edits| == |selections|
    ensures forall k :: 0 <= k < |selections| ==>
      (edits[k].Edits? <==> Accepts(files, selections[..k], selections[k]))
    ensures forall k :: 0 <= k < |selections| && edits[k].Edits? ==>
      && FindFile(files, selections[k].fileId).Some?
      && edits[k].edits == Descending(Chosen(FindFile(files, selections[k].fileId).value.matches,
                                             SetOf(selections[k].indices), 0))
  {
    hide Chosen;
    hide Descending;
    hide FindFile;
    edits := [];
    var seen: set<string> := {};
    var i := 0;
    while i < |selections|
      invariant i <= |selections| && |edits| == i
      invariant forall id :: id in seen <==> exists e :: e in selections[..i] && e.fileId == id
      invariant forall k :: 0 <= k < i ==> (edits[k].Edits? <==> Accepts(files, selections[..k], selections[k]))
      invariant forall k :: 0 <= k < i && edits[k].Edits? ==>
        && FindFile(files, selections[k].fileId).Some?
        && edits[k].edits == Descending(Chosen(FindFile(files, selections[k].fileId).value.matches,
                                               SetOf(selections[k].indices), 0))
    {
      var s := selections[i];
      assert selections[..i + 1] == selections[..i] + [s];
      var file := FindFile(files, s.fileId);
      var answer: Selection;
      if s.fileId in seen {
        answer := Rejected("Duplicate file selection");
      } else if file == None {
        answer := Rejected("Unknown search file");
      } else {
        answer := SelectedEdits(file.value.matches, s.indices);
      }
      seen := seen + {s.fileId};
      edits := edits + [answer];
      i := i + 1;
    }
  }

  /** A file is edited by at most one of the selections. */
  lemma EditedOnce(files: seq<FileResult>, selections: seq<FileSelection>, j: nat, k: nat)
    requires j < k < |selections| && Accepts(files, selections[..k], selections[k])
    ensures selections[j].fileId != selections[k].fileId
  {
    assert selections[j] in selections[..k];
  }
}
