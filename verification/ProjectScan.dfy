/** A search over the files of a workspace, with the open buffers laid over them and bounds on
    what is kept and sent. */
module ProjectScan {
  import opened Utf8
  import opened Wrappers
  import opened LspPosition

  const MAX_TOTAL_MATCHES: nat := 2000
  const MAX_FILE_BYTES: nat := 2 * 1024 * 1024
  const MAX_CACHE_BYTES: nat := 32 * 1024 * 1024
  const MAX_FILE_RESULT_BYTES: nat := 1024 * 1024

  datatype Hit = Hit(start: nat, end: nat, replacement: Text, preview: Text)

  /** Where a buffer lives: without a path, at a canonical path in the root, or outside. */
  datatype Home = Pathless | Inside(path: string) | Outside

  /** An open buffer; a paged one has no text to search. */
  datatype Buffer = Buffer(id: string, home: Home, text: Option<Text>)

  /** Where a searched text came from. */
  datatype Origin = FromBuffer(buffer: Buffer) | FromDisk(path: string)

  datatype Snapshot = Snapshot(origin: Origin, text: Text, hits: seq<Hit>)

  /** The tree as the walker and the reads see it, and what the search finds in a text. */
  datatype Workspace = Workspace(entries: seq<Option<string>>, existing: set<string>, disk: map<string, Text>,
                                 admitted: set<string>, hits: Text -> seq<Hit>)

  function Payload(hits: seq<Hit>): nat {
    if hits == [] then 0
    else Payload(hits[..|hits| - 1]) + |hits[|hits| - 1].replacement| + |hits[|hits| - 1].preview|
  }

  function Matches(files: seq<Snapshot>): nat {
    if files == [] then 0 else Matches(files[..|files| - 1]) + |files[|files| - 1].hits|
  }

  function CacheBytes(files: seq<Snapshot>): nat {
    if files == [] then 0
    else
      var last := files[|files| - 1];
      CacheBytes(files[..|files| - 1]) + |last.text| + Payload(last.hits)
  }

  lemma PayloadTotal(hits: seq<Hit>, h: Hit)
    ensures Payload(hits + [h]) == Payload(hits) + |h.replacement| + |h.preview| && Payload([]) == 0
  {
    assert (hits + [h])[..|hits|] == hits;
  }

  lemma Totals(files: seq<Snapshot>, s: Snapshot)
    ensures Matches([]) == CacheBytes([]) == 0
    ensures Matches(files + [s]) == Matches(files) + |s.hits|
    ensures CacheBytes(files + [s]) == CacheBytes(files) + |s.text| + Payload(s.hits)
  {
    assert (files + [s])[..|files|] == files;
  }

  predicate Searchable(text: Text) {
    |text| <= MAX_FILE_BYTES && 0 !in text
  }

  function Limited(hits: seq<Hit>, limit: nat): seq<Hit> {
    if |hits| <= limit then hits else hits[..limit]
  }

  /** A text of a size to search, and not binary. */
  predicate Textual(text: Text) {
    |text| <= MAX_FILE_BYTES && forall i :: 0 <= i < |text| ==> text[i] != 0
  }

  function OpenPaths(buffers: seq<Buffer>): set<string> {
    set b | b in buffers && b.home.Inside? :: b.home.path
  }

  /** A buffer the scan reaches: without a path; of a missing but admitted file; or the last one
      that holds an admitted path of the tree. */
  predicate Searched(w: Workspace, buffers: seq<Buffer>, b: Buffer) {
    match b.home
    case Pathless => true
    case Inside(p) =>
      && p in w.admitted
      && (p in w.existing ==> Some(p) in w.entries && exists i | 0 <= i < |buffers| :: HoldsLast(buffers, p, i, b))
    case Outside => false
  }

  /** A kept file is an open buffer's text, or the disk text of a path no buffer holds. */
  predicate Genuine(w: Workspace, buffers: seq<Buffer>, s: Snapshot) {
    && s.hits != [] && Textual(s.text)
    && |s.hits| <= |w.hits(s.text)| && s.hits == w.hits(s.text)[..|s.hits|]
    && match s.origin
       case FromBuffer(b) => b in buffers && b.text == Some(s.text) && Searched(w, buffers, b)
       case FromDisk(p) => p in w.disk && w.disk[p] == s.text && p in w.admitted && p !in OpenPaths(buffers)
  }

  /** One text more at most. */
  predicate Grown(before: seq<Snapshot>, after: seq<Snapshot>, origin: Origin, text: Text, hits: seq<Hit>) {
    after == before || (after == before + [Snapshot(origin, text, hits)] && hits != [])
  }

  /** Nothing found in this text was left out. */
  predicate Kept(w: Workspace, files: seq<Snapshot>, origin: Origin, text: Text) {
    Textual(text) && w.hits(text) != [] ==> Snapshot(origin, text, w.hits(text)) in files
  }

  predicate Detached(w: Workspace, b: Buffer) {
    b.home.Pathless? || (b.home.Inside? && b.home.path !in w.existing && b.home.path in w.admitted)
  }

  /** The buffer laid over each existing path: the last one that holds it. */
  function Overlays(buffers: seq<Buffer>, existing: set<string>): map<string, Buffer> {
    if buffers == [] then map[]
    else
      var before, b := Overlays(buffers[..|buffers| - 1], existing), buffers[|buffers| - 1];
      if b.home.Inside? && b.home.path in existing then before[b.home.path := b] else before
  }

  /** The last buffer that holds a path. */
  predicate LastHolder(buffers: seq<Buffer>, p: string, i: nat) {
    i < |buffers| && buffers[i].home == Inside(p) && forall j :: i < j < |buffers| ==> buffers[j].home != Inside(p)
  }

  predicate HoldsLast(buffers: seq<Buffer>, p: string, i: nat, b: Buffer) {
    LastHolder(buffers, p, i) && buffers[i] == b
  }

  /** Exactly the existing paths that some buffer holds are overlaid, each by its last holder. */
  lemma {:induction false} OverlaysAre(buffers: seq<Buffer>, existing: set<string>)
    ensures forall p :: p in Overlays(buffers, existing) <==>
      p in existing && exists b :: b in buffers && b.home == Inside(p)
    ensures forall p, i: nat {:trigger LastHolder(buffers, p, i)} :: p in existing && LastHolder(buffers, p, i) ==>
      p in Overlays(buffers, existing) && Overlays(buffers, existing)[p] == buffers[i]
    ensures forall p :: p in Overlays(buffers, existing) ==>
      var b := Overlays(buffers, existing)[p];
      b in buffers && b.home == Inside(p) && exists i | 0 <= i < |buffers| :: HoldsLast(buffers, p, i, b)
  {
    if buffers != [] {
      var n := |buffers| - 1;
      var init := buffers[..n];
      OverlaysAre(init, existing);
      assert buffers == init + [buffers[n]];
      forall p | p in Overlays(buffers, existing)
        ensures exists i | 0 <= i < |buffers| :: HoldsLast(buffers, p, i, Overlays(buffers, existing)[p])
      {
        if buffers[n].home == Inside(p) {
          assert HoldsLast(buffers, p, n, buffers[n]);
        } else {
          var i :| 0 <= i < |init| && HoldsLast(init, p, i, Overlays(init, existing)[p]);
          assert HoldsLast(buffers, p, i, init[i]);
        }
      }
      forall p, i: nat | p in existing && LastHolder(buffers, p, i)
        ensures p in Overlays(buffers, existing) && Overlays(buffers, existing)[p] == buffers[i]
      {
        if i < n {
          assert buffers[n].home != Inside(p);
          assert LastHolder(init, p, i);
        }
      }
    }
  }

  /** Every text that should have been searched was, with all its matches kept. */
  ghost predicate NothingMissed(w: Workspace, buffers: seq<Buffer>, files: seq<Snapshot>) {
    && (forall b :: b in buffers && Detached(w, b) && b.text.Some? ==> Kept(w, files, FromBuffer(b), b.text.value))
    && (forall p :: Some(p) in w.entries && p in w.admitted ==> EntryKept(w, buffers, files, p))
  }

  /** A path in the tree: the text of its last holder was searched if the path exists, or the disk
      when no buffer holds it. */
  ghost predicate EntryKept(w: Workspace, buffers: seq<Buffer>, files: seq<Snapshot>, p: string) {
    && (forall i: nat :: p in w.existing && LastHolder(buffers, p, i) && buffers[i].text.Some? ==>
          Kept(w, files, FromBuffer(buffers[i]), buffers[i].text.value))
    && ((forall b :: b in buffers ==> b.home != Inside(p)) && p in w.disk ==> Kept(w, files, FromDisk(p), w.disk[p]))
  }

  /** Buffers of existing files among the kept ones. */
  predicate Overlaid(w: Workspace, s: Snapshot) {
    s.origin.FromBuffer? && s.origin.buffer.home.Inside? && s.origin.buffer.home.path in w.existing
  }

  /** No overlay was searched twice. */
  predicate Once(w: Workspace, files: seq<Snapshot>) {
    forall i, j :: 0 <= i < j < |files| && Overlaid(w, files[i]) ==> files[i].origin != files[j].origin
  }

  predicate Unused(w: Workspace, files: seq<Snapshot>, overlays: map<string, Buffer>) {
    forall s :: s in files && Overlaid(w, s) ==> s.origin.buffer.home.path !in overlays
  }

  class Scan {
    const maxMatches: nat
    var files: seq<Snapshot>
    /** What was streamed to the client, in order. */
    var emitted: seq<Snapshot>
    var totalMatches: nat
    var cacheBytes: nat
    var truncated: bool
    var cancelled: bool
    var warnings: nat
    ghost var diskSearched: set<string>

    ghost predicate WithinBudget()
      reads this
    {
      && emitted == files
      && totalMatches == Matches(files) <= maxMatches <= MAX_TOTAL_MATCHES
      && cacheBytes == CacheBytes(files) <= MAX_CACHE_BYTES
    }

    constructor (requested: nat)
      ensures WithinBudget() && files == [] && diskSearched == {}
      ensures maxMatches == if requested < MAX_TOTAL_MATCHES then requested else MAX_TOTAL_MATCHES
    {
      maxMatches := if requested < MAX_TOTAL_MATCHES then requested else MAX_TOTAL_MATCHES;
      files, emitted, totalMatches, cacheBytes, truncated, cancelled, warnings := [], [], 0, 0, false, false, 0;
      diskSearched := {};
    }

    ghost predicate Whole()
      reads this
    {
      !truncated && !cancelled
    }

    /** Keep and send one file if the budgets allow; false ends the scan. */
    method CacheAndEmit(s: Snapshot) returns (goOn: bool)
      requires WithinBudget() && totalMatches + |s.hits| <= maxMatches && totalMatches < maxMatches
      modifies this
      ensures WithinBudget() && diskSearched == old(diskSearched)
      ensures if goOn then totalMatches < maxMatches else !Whole()
      ensures files == if Payload(s.hits) <= MAX_FILE_RESULT_BYTES
          && old(cacheBytes) + |s.text| + Payload(s.hits) <= MAX_CACHE_BYTES
        then old(files) + [s] else old(files)
      ensures Whole() ==> old(Whole()) && files == old(files) + [s] && totalMatches < maxMatches
      ensures truncated ==>
        || old(truncated) || Payload(s.hits) > MAX_FILE_RESULT_BYTES
        || old(cacheBytes) + |s.text| + Payload(s.hits) > MAX_CACHE_BYTES || totalMatches >= maxMatches
      ensures !goOn ==>
        || cancelled || totalMatches >= maxMatches
        || old(cacheBytes) + |s.text| + Payload(s.hits) > MAX_CACHE_BYTES
    {
      hide Matches;
      hide CacheBytes;
      hide Payload;
      Totals(files, s);
      var bytes := Payload(s.hits);
      if bytes > MAX_FILE_RESULT_BYTES {
        truncated, warnings := true, warnings + 1;
        return true;
      }
      if cacheBytes + |s.text| + bytes > MAX_CACHE_BYTES {
        truncated, warnings := true, warnings + 1;
        return false;
      }
      cacheBytes, totalMatches := cacheBytes + |s.text| + bytes, totalMatches + |s.hits|;
      files, emitted := files + [s], emitted + [s];
      var accepted: bool := *;
      if !accepted {
        cancelled := true;
        return false;
      }
      if totalMatches >= maxMatches {
        truncated := true;
        return false;
      }
      return true;
    }

    /** Search one text within what is left of the match budget. */
    method SearchText(w: Workspace, origin: Origin, text: Text) returns (goOn: bool)
      requires WithinBudget() && totalMatches < maxMatches
      modifies this
      ensures WithinBudget() && diskSearched == old(diskSearched)
      ensures if goOn then totalMatches < maxMatches else !Whole()
      ensures Grown(old(files), files, origin, text, Limited(w.hits(text), old(maxMatches - totalMatches)))
      ensures Whole() ==> old(Whole()) && Kept(w, files, origin, text)
    {
      var remaining := maxMatches - totalMatches;
      var hits := Limited(w.hits(text), remaining);
      if hits == [] {
        return true;
      }
      goOn := CacheAndEmit(Snapshot(origin, text, hits));
    }

    method SearchBuffer(w: Workspace, b: Buffer) returns (goOn: bool)
      requires WithinBudget() && totalMatches < maxMatches
      modifies this
      ensures WithinBudget() && diskSearched == old(diskSearched)
      ensures if goOn then totalMatches < maxMatches else !Whole()
      ensures files == old(files) || (b.text.Some? && Textual(b.text.value) && Grown(
        old(files), files, FromBuffer(b), b.text.value,
        Limited(w.hits(b.text.value), old(maxMatches - totalMatches))))
      ensures Whole() ==> old(Whole()) && (b.text.Some? ==> Kept(w, files, FromBuffer(b), b.text.value))
    {
      if b.text == None || |b.text.value| > MAX_FILE_BYTES {
        warnings := warnings + 1;
        return true;
      }
      if !Searchable(b.text.value) {
        return true;
      }
      goOn := SearchText(w, FromBuffer(b), b.text.value);
    }

    /** Buffers the walk cannot reach: without a path, or whose file is gone. */
    method SearchDetached(w: Workspace, buffers: seq<Buffer>) returns (goOn: bool)
      requires WithinBudget() && totalMatches < maxMatches && files == []
      modifies this
      ensures WithinBudget() && diskSearched == old(diskSearched)
      ensures if goOn then totalMatches < maxMatches else !Whole()
      ensures forall s :: s in files ==> Genuine(w, buffers, s)
      ensures forall s :: s in files ==> !Overlaid(w, s)
      ensures Whole() ==> forall b :: b in buffers && Detached(w, b) && b.text.Some? ==>
        Kept(w, files, FromBuffer(b), b.text.value)
    {
      hide Kept;
      hide Genuine;
      hide Grown;
      var i := 0;
      while i < |buffers|
        invariant i <= |buffers| && WithinBudget() && diskSearched == old(diskSearched) && totalMatches < maxMatches
        invariant forall s :: s in files ==> Genuine(w, buffers, s) && !Overlaid(w, s)
        invariant Whole() ==> forall b :: b in buffers[..i] && Detached(w, b) && b.text.Some? ==>
          Kept(w, files, FromBuffer(b), b.text.value)
      {
        var stop: bool := *;
        if stop {
          cancelled := true;
          return false;
        }
        var b := buffers[i];
        assert buffers[..i + 1] == buffers[..i] + [b];
        if b.home.Pathless? || (b.home.Inside? && b.home.path !in w.existing && b.home.path in w.admitted) {
          ghost var before, remaining := files, maxMatches - totalMatches;
          goOn := SearchBuffer(w, b);
          BufferGrows(w, buffers, before, files, b, remaining);
          DetachedStay(w, before, files, b);
          KeptStay(w, before, files);
          if !goOn {
            return false;
          }
        }
        i := i + 1;
      }
      assert buffers[..i] == buffers;
      return true;
    }

    /** One path of the tree; `left` are the overlays not yet used. */
    method SearchEntry(w: Workspace, buffers: seq<Buffer>, overlays: map<string, Buffer>, p: string)
      returns (goOn: bool, left: map<string, Buffer>)
      requires WithinBudget() && totalMatches < maxMatches && diskSearched !! OpenPaths(buffers)
      requires forall s :: s in files ==> Genuine(w, buffers, s)
      requires Some(p) in w.entries
      requires forall q :: q in overlays ==>
        q in Overlays(buffers, w.existing) && overlays[q] == Overlays(buffers, w.existing)[q]
      modifies this
      ensures WithinBudget() && diskSearched !! OpenPaths(buffers) && old(files) <= files
      ensures if goOn then totalMatches < maxMatches else !Whole()
      ensures forall s :: s in files ==> Genuine(w, buffers, s)
      ensures left == if p in OpenPaths(buffers) then overlays - {p} else overlays
      ensures |files| <= |old(files)| + 1
      ensures forall s :: s in files[|old(files)|..] ==>
        s.origin == FromDisk(p) || (p in overlays && s.origin == FromBuffer(overlays[p]))
      ensures Whole() ==> old(Whole())
      ensures Whole() && p in w.admitted && (p in OpenPaths(buffers) ==> p in overlays) ==>
        EntryKept(w, buffers, files, p)
    {
      hide Searched;
      hide LastHolder;
      hide EntryKept;
      hide Overlays;
      hide Kept;
      hide Textual;
      hide Genuine;
      hide Grown;
      hide Limited;
      hide OpenPaths;
      hide Searchable;
      left := overlays;
      if p in OpenPaths(buffers) {
        if p !in overlays {
          return true, left - {p};
        }
        var b := overlays[p];
        left := left - {p};
        if p !in w.admitted {
          return true, left;
        }
        ghost var before, remaining := files, maxMatches - totalMatches;
        OverlayReached(w, buffers, p);
        goOn := SearchBuffer(w, b);
        BufferGrows(w, buffers, before, files, b, remaining);
        EntryFromBuffer(w, buffers, files, p);
        return goOn, left;
      }
      if p !in w.admitted || p !in w.disk {
        EntryFromDisk(w, buffers, files, p);
        return true, left;
      }
      diskSearched := diskSearched + {p};
      NotTextual(w, files, FromDisk(p), w.disk[p]);
      if !Searchable(w.disk[p]) {
        EntryFromDisk(w, buffers, files, p);
        return true, left;
      }
      ghost var before, remaining := files, maxMatches - totalMatches;
      goOn := SearchText(w, FromDisk(p), w.disk[p]);
      DiskGrows(w, buffers, before, files, p, remaining);
      EntryFromDisk(w, buffers, files, p);
    }

    /** One pass over the tree; open files are read from their buffers only. */
    method SearchTree(w: Workspace, buffers: seq<Buffer>)
      requires WithinBudget() && totalMatches < maxMatches && diskSearched == {}
      requires forall s :: s in files ==> Genuine(w, buffers, s) && !Overlaid(w, s)
      modifies this
      ensures WithinBudget() && old(files) <= files && diskSearched !! OpenPaths(buffers)
      ensures Once(w, files)
      ensures forall s :: s in files ==> Genuine(w, buffers, s)
      ensures Whole() ==> old(Whole())
      ensures Whole() ==> forall p :: Some(p) in w.entries && p in w.admitted ==> EntryKept(w, buffers, files, p)
    {
      hide Kept;
      hide EntryKept;
      hide Genuine;
      hide OpenPaths;
      hide Overlaid;
      hide Once;
      hide Unused;
      var overlays := Overlays(buffers, w.existing);
      NoneUsed(w, files, overlays);
      var i := 0;
      while i < |w.entries|
        invariant i <= |w.entries| && WithinBudget() && totalMatches < maxMatches && old(files) <= files
        invariant diskSearched !! OpenPaths(buffers) && Once(w, files) && Unused(w, files, overlays)
        invariant forall s :: s in files ==> Genuine(w, buffers, s)
        invariant Whole() ==> old(Whole())
        invariant Whole() ==> forall p :: Some(p) in w.entries[..i] && p in w.admitted ==>
          EntryKept(w, buffers, files, p)
        invariant forall p :: p in overlays ==>
          p in Overlays(buffers, w.existing) && overlays[p] == Overlays(buffers, w.existing)[p]
        invariant forall p :: p in Overlays(buffers, w.existing) && p !in overlays ==> Some(p) in w.entries[..i]
      {
        var stop: bool := *;
        if stop {
          cancelled := true;
          return;
        }
        assert w.entries[..i + 1] == w.entries[..i] + [w.entries[i]];
        if w.entries[i].Some? {
          var p := w.entries[i].value;
          ghost var before := files;
          NotOverlaid(w, buffers, p);
          var goOn, left := SearchEntry(w, buffers, overlays, p);
          StillOnce(w, buffers, before, files, overlays, p);
          EntriesStay(w, buffers, before, files);
          if !goOn {
            return;
          }
          overlays := left;
        }
        i := i + 1;
      }
      assert w.entries[..i] == w.entries;
    }

    /** The whole scan: what it keeps is genuine, no open path is read from disk, and unless it
        says it was cut short nothing is missing. */
    method SearchWorkspace(w: Workspace, buffers: seq<Buffer>)
      requires WithinBudget() && files == [] && diskSearched == {} && Whole()
      modifies this
      ensures WithinBudget() && diskSearched !! OpenPaths(buffers) && Once(w, files)
      ensures forall s :: s in files ==> Genuine(w, buffers, s)
      ensures Whole() && maxMatches > 0 ==> NothingMissed(w, buffers, files)
    {
      hide Kept;
      hide EntryKept;
      hide Genuine;
      if maxMatches == 0 {
        return;
      }
      var goOn := SearchDetached(w, buffers);
      if !goOn {
        return;
      }
      ghost var before := files;
      SearchTree(w, buffers);
      KeptStay(w, before, files);
    }
  }

  lemma BufferGrows(w: Workspace, buffers: seq<Buffer>, before: seq<Snapshot>, after: seq<Snapshot>, b: Buffer,
                    remaining: nat)
    requires b in buffers && Searched(w, buffers, b) && forall s :: s in before ==> Genuine(w, buffers, s)
    requires after == before
      || (b.text.Some? && Textual(b.text.value) && Grown(
            before, after, FromBuffer(b), b.text.value, Limited(w.hits(b.text.value), remaining)))
    ensures before <= after && forall s :: s in after ==> Genuine(w, buffers, s)
    ensures |after| <= |before| + 1 && forall s :: s in after[|before|..] ==> s.origin == FromBuffer(b)
  {
  }

  lemma DetachedStay(w: Workspace, before: seq<Snapshot>, after: seq<Snapshot>, b: Buffer)
    requires before <= after && forall s :: s in after[|before|..] ==> s.origin == FromBuffer(b)
    requires forall s :: s in before ==> !Overlaid(w, s)
    requires b.home.Inside? ==> b.home.path !in w.existing
    ensures forall s :: s in after ==> !Overlaid(w, s)
  {
    assert after == before + after[|before|..];
  }

  lemma NoneUsed(w: Workspace, files: seq<Snapshot>, overlays: map<string, Buffer>)
    requires forall s :: s in files ==> !Overlaid(w, s)
    ensures Once(w, files) && Unused(w, files, overlays)
  {
    forall i | 0 <= i < |files| ensures !Overlaid(w, files[i]) {
      assert files[i] in files;
    }
  }

  /** An entry of the tree uses the overlay of its path at most, which none used before. */
  lemma StillOnce(w: Workspace, buffers: seq<Buffer>, before: seq<Snapshot>, after: seq<Snapshot>,
                  overlays: map<string, Buffer>, p: string)
    requires Once(w, before) && Unused(w, before, overlays) && before <= after && |after| <= |before| + 1
    requires forall s :: s in after[|before|..] ==>
      s.origin == FromDisk(p) || (p in overlays && s.origin == FromBuffer(overlays[p]))
    requires forall q :: q in overlays ==>
      q in Overlays(buffers, w.existing) && overlays[q] == Overlays(buffers, w.existing)[q]
    ensures Once(w, after)
    ensures Unused(w, after, if p in OpenPaths(buffers) then overlays - {p} else overlays)
  {
    OverlaysAre(buffers, w.existing);
    if after != before {
      var s := after[|before|];
      assert after == before + [s] && s in after[|before|..];
      forall i | 0 <= i < |before| && Overlaid(w, before[i]) ensures before[i].origin != s.origin {
        assert before[i] in before;
      }
    }
  }

  lemma DiskGrows(w: Workspace, buffers: seq<Buffer>, before: seq<Snapshot>, after: seq<Snapshot>, p: string,
                  remaining: nat)
    requires p in w.disk && p in w.admitted && p !in OpenPaths(buffers) && Searchable(w.disk[p])
    requires forall s :: s in before ==> Genuine(w, buffers, s)
    requires Grown(before, after, FromDisk(p), w.disk[p], Limited(w.hits(w.disk[p]), remaining))
    ensures before <= after && forall s :: s in after ==> Genuine(w, buffers, s)
    ensures |after| <= |before| + 1 && forall s :: s in after[|before|..] ==> s.origin == FromDisk(p)
  {
  }

  lemma NotTextual(w: Workspace, files: seq<Snapshot>, origin: Origin, text: Text)
    ensures !Searchable(text) ==> Kept(w, files, origin, text)
  {
  }

  /** The last holder of an admitted path of the tree is reached, and is all there is to keep. */
  lemma OverlayReached(w: Workspace, buffers: seq<Buffer>, p: string)
    requires p in Overlays(buffers, w.existing) && Some(p) in w.entries && p in w.admitted
    ensures Overlays(buffers, w.existing)[p] in buffers && Searched(w, buffers, Overlays(buffers, w.existing)[p])
  {
    OverlaysAre(buffers, w.existing);
  }

  lemma EntryFromBuffer(w: Workspace, buffers: seq<Buffer>, files: seq<Snapshot>, p: string)
    requires p in Overlays(buffers, w.existing)
    ensures var b := Overlays(buffers, w.existing)[p];
      (b.text.Some? ==> Kept(w, files, FromBuffer(b), b.text.value)) ==> EntryKept(w, buffers, files, p)
  {
    hide Kept;
    OverlaysAre(buffers, w.existing);
  }

  lemma EntryFromDisk(w: Workspace, buffers: seq<Buffer>, files: seq<Snapshot>, p: string)
    requires p !in OpenPaths(buffers)
    ensures (p in w.disk ==> Kept(w, files, FromDisk(p), w.disk[p])) ==> EntryKept(w, buffers, files, p)
  {
    hide Kept;
    forall b | b in buffers ensures b.home != Inside(p) {
    }
  }

  lemma KeptStay(w: Workspace, before: seq<Snapshot>, after: seq<Snapshot>)
    requires before <= after
    ensures forall origin, text :: Kept(w, before, origin, text) ==> Kept(w, after, origin, text)
  {
  }

  lemma EntriesStay(w: Workspace, buffers: seq<Buffer>, before: seq<Snapshot>, after: seq<Snapshot>)
    requires before <= after
    ensures forall p :: EntryKept(w, buffers, before, p) ==> EntryKept(w, buffers, after, p)
  {
    hide Kept;
    KeptStay(w, before, after);
  }

  /** An open path without overlay has nothing to be kept. */
  lemma NotOverlaid(w: Workspace, buffers: seq<Buffer>, p: string)
    ensures p in OpenPaths(buffers) && p !in Overlays(buffers, w.existing) ==>
      forall files :: EntryKept(w, buffers, files, p)
  {
    OverlaysAre(buffers, w.existing);
  }

  // ---- Lines and columns of matches ---------------------------------------------------

  /** Offsets of the line feeds, in order. */
  function Newlines(text: Text): (offsets: seq<nat>)
    ensures forall k :: 0 <= k < |offsets| ==> offsets[k] < |text| && text[offsets[k]] == LF
  {
    if text == [] then []
    else
      var last := |text| - 1;
      if text[last] == LF then Newlines(text[..last]) + [last] else Newlines(text[..last])
  }

  lemma {:induction false} NewlinesBefore(text: Text, start: nat)
    requires start <= |text|
    ensures Newlines(text[..start]) <= Newlines(text)
    ensures forall k :: |Newlines(text[..start])| <= k < |Newlines(text)| ==> Newlines(text)[k] >= start
  {
    if start < |text| {
      NewlinesBefore(text[..|text| - 1], start);
      assert text[..|text| - 1][..start] == text[..start];
    } else {
      assert text[..start] == text;
    }
  }

  /** One-based line and byte column of a match, from the number of line feeds before it. */
  method LineAndColumn(text: Text, start: nat) returns (line: nat, column: nat)
    requires start <= |text|
    ensures line >= 1 && 1 <= column <= start + 1
    ensures LineStart(text, line - 1) == Some(start - (column - 1))
    ensures forall k :: start - (column - 1) <= k < start ==> text[k] != LF
  {
    hide LineStart;
    var newlines := Newlines(text);
    NewlinesBefore(text, start);
    ghost var before := Newlines(text[..start]);
    assert forall k :: 0 <= k < |before| ==> newlines[k] == before[k] && before[k] < start;
    var preceding := 0;
    while preceding < |newlines| && newlines[preceding] < start
      invariant preceding <= |before|
    {
      preceding := preceding + 1;
    }
    var lineStart := if preceding == 0 then 0 else newlines[preceding - 1] + 1;
    LineStartIs(text[..start]);
    LineStartPrefix(text, start, preceding);
    return preceding + 1, start - lineStart + 1;
  }

  function LastLineStart(text: Text): (o: nat)
    ensures o <= |text|
  {
    var newlines := Newlines(text);
    if newlines == [] then 0 else newlines[|newlines| - 1] + 1
  }

  /** The last line of a text starts after its last line feed. */
  lemma {:induction false} LineStartIs(text: Text)
    ensures LineStart(text, |Newlines(text)|) == Some(LastLineStart(text))
    ensures forall k :: LastLineStart(text) <= k < |text| ==> text[k] != LF
  {
    if text != [] {
      var init, last := text[..|text| - 1], text[|text| - 1];
      LineStartIs(init);
      LineStartSnoc(init, last, |Newlines(init)|);
      assert text == init + [last];
      if last == LF {
        LineStartAtEnd(init);
      }
    }
  }

  lemma {:induction false} LineStartSnoc(t: Text, b: byte, n: nat)
    requires LineStart(t, n).Some?
    ensures LineStart(t + [b], n) == LineStart(t, n)
  {
    if n > 0 {
      assert (t + [b])[1..] == t[1..] + [b];
      LineStartSnoc(t[1..], b, if t[0] == LF then n - 1 else n);
    }
  }

  /** A line feed at the end opens one more line. */
  lemma {:induction false} LineStartAtEnd(t: Text)
    ensures LineStart(t + [LF], |Newlines(t)| + 1) == Some(|t| + 1)
  {
    if t == [] {
      assert (t + [LF])[1..] == [];
    } else {
      assert (t + [LF])[1..] == t[1..] + [LF];
      LineStartAtEnd(t[1..]);
      NewlinesCons(t);
    }
  }

  lemma {:induction false} NewlinesCons(t: Text)
    requires t != []
    ensures |Newlines(t)| == |Newlines(t[1..])| + if t[0] == LF then 1 else 0
  {
    if |t| > 1 {
      NewlinesCons(t[..|t| - 1]);
      assert t[..|t| - 1][1..] == t[1..][..|t| - 2];
    } else {
      assert t[..0] == [] && t[1..] == [];
    }
  }

  lemma LineStartPrefix(text: Text, start: nat, n: nat)
    requires start <= |text| && LineStart(text[..start], n).Some?
    ensures LineStart(text, n) == LineStart(text[..start], n)
    decreases |text| - start
  {
    if start < |text| {
      LineStartSnoc(text[..start], text[start], n);
      assert text[..start + 1] == text[..start] + [text[start]];
      LineStartPrefix(text, start + 1, n);
    } else {
      assert text[..start] == text;
    }
  }
}
