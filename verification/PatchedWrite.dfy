/** Saving by recipe: copied ranges of the source and inserted bytes are streamed into a
    temporary file, which then replaces the destination. */
module PatchedWrite {
  import opened Utf8
  import opened Wrappers
  import opened Seqs

  datatype WriteOp = Copy(offset: nat, len: nat) | Insert(data: Text)

  type Files = map<string, Text>

  const CHUNK: nat := 64 * 1024

  /** The bytes one operation contributes; a range past the end of the source has none. */
  function Piece(source: Text, op: WriteOp): Option<Text> {
    match op
    case Insert(data) => Some(data)
    case Copy(offset, len) =>
      if len == 0 then Some([])
      else if offset + len <= |source| then Some(source[offset..offset + len])
      else None
  }

  lemma PieceIs(source: Text, op: WriteOp)
    ensures op.Insert? ==> Piece(source, op) == Some(op.data)
    ensures op.Copy? ==> (Piece(source, op).Some? <==> op.len == 0 || op.offset + op.len <= |source|)
    ensures op.Copy? && Piece(source, op).Some? ==> |Piece(source, op).value| == op.len
    ensures op.Copy? && Piece(source, op).Some? ==>
      forall k :: 0 <= k < op.len ==> Piece(source, op).value[k] == source[op.offset + k]
  {
  }

  /** What the recipe describes, if the source holds every copied range. */
  function Output(source: Text, ops: seq<WriteOp>): Option<Text> {
    if ops == [] then Some([])
    else
      match (Output(source, ops[..|ops| - 1]), Piece(source, ops[|ops| - 1]))
      case (Some(before), Some(piece)) => Some(before + piece)
      case _ => None
  }

  predicate Copies(ops: seq<WriteOp>) {
    exists op :: op in ops && op.Copy?
  }

  lemma {:induction false} OutputPrefix(source: Text, ops: seq<WriteOp>, i: nat)
    requires i <= |ops| && Output(source, ops).Some?
    ensures Output(source, ops[..i]).Some?
    ensures i < |ops| ==> Piece(source, ops[i]).Some?
    decreases |ops|
  {
    if i < |ops| {
      var init := ops[..|ops| - 1];
      if i < |init| {
        OutputPrefix(source, init, i);
      }
      assert i <= |init| ==> init[..i] == ops[..i];
    } else {
      assert ops[..i] == ops;
    }
  }

  /** Every piece of the output is found whole, in order. */
  lemma {:induction false} OutputIsPieces(source: Text, ops: seq<WriteOp>)
    requires Output(source, ops).Some?
    ensures forall i :: 0 <= i < |ops| ==> Piece(source, ops[i]).Some?
    ensures Output(source, ops).value ==
      Flatten(seq(|ops|, i requires 0 <= i < |ops| && Piece(source, ops[i]).Some? => Piece(source, ops[i]).value))
  {
    forall i | 0 <= i < |ops| ensures Piece(source, ops[i]).Some? {
      OutputPrefix(source, ops, i);
    }
    var pieces := seq(|ops|, i requires 0 <= i < |ops| && Piece(source, ops[i]).Some? => Piece(source, ops[i]).value);
    if ops == [] {
      FlattenNone<byte>();
    } else {
      var n := |ops| - 1;
      OutputIsPieces(source, ops[..n]);
      var init := seq(n, i requires 0 <= i < n && Piece(source, ops[..n][i]).Some? => Piece(source, ops[..n][i]).value);
      assert pieces == init + [pieces[n]];
      FlattenConcat(init, [pieces[n]]);
      FlattenOne(pieces[n]);
    }
  }

  /** A hidden name beside the destination. */
  function PatchTempPath(directory: string, name: string, uuid: string): string {
    directory + "/." + name + "." + uuid + ".tmp"
  }

  lemma TempIsNotDestination(directory: string, name: string, uuid: string)
    ensures PatchTempPath(directory, name, uuid) != directory + "/" + name
  {
    assert |PatchTempPath(directory, name, uuid)| > |directory + "/" + name|;
  }

  /** Nothing but the temporary file differs. */
  predicate OnlyTemp(a: Files, b: Files, temp: string) {
    a - {temp} == b - {temp}
  }

  class EditorFileSystem {
    var files: Files
    /** Every state a crash could leave behind. */
    ghost var crashes: seq<Files>

    constructor (files: Files)
      ensures this.files == files && crashes == [files]
    {
      this.files := files;
      crashes := [files];
    }

    method Commit(next: Files)
      modifies this
      ensures files == next && crashes == old(crashes) + [next]
    {
      files := next;
      crashes := crashes + [next];
    }

    /** As many bytes as the system cares to give, at least one before the end. */
    method ReadSome(source: Text, at: nat, requested: nat) returns (count: nat)
      requires requested > 0
      ensures count <= requested && (at + count <= |source| || count == 0)
      ensures count == 0 <==> at >= |source|
    {
      if at >= |source| {
        return 0;
      }
      count := *;
      var most := if |source| - at < requested then |source| - at else requested;
      if count < 1 || count > most {
        count := most;
      }
    }

    /** Append one copied range to the temporary file, in reads of any size. */
    method StreamCopy(source: Text, temp: string, offset: nat, len: nat, faulty: bool) returns (ok: bool)
      requires temp in files
      modifies this
      ensures old(crashes) <= crashes
      ensures forall i :: |old(crashes)| <= i < |crashes| ==> OnlyTemp(old(files), crashes[i], temp)
      ensures OnlyTemp(old(files), files, temp) && temp in files
      ensures ok ==> len == 0 || offset + len <= |source|
      ensures ok && len > 0 ==> files[temp] == old(files)[temp] + source[offset..offset + len]
      ensures ok && len == 0 ==> files == old(files)
      ensures !faulty && offset + len <= |source| ==> ok
      ensures ok ==> Piece(source, Copy(offset, len)).Some?
      ensures ok ==> files[temp] == old(files)[temp] + Piece(source, Copy(offset, len)).value
      ensures !faulty && Piece(source, Copy(offset, len)).Some? ==> ok
    {
      var at: nat, remaining: nat := offset, len;
      ghost var copied: Text := [];
      while remaining > 0
        invariant remaining <= len && at == offset + (len - remaining)
        invariant remaining == len ==> files == old(files)
        invariant if remaining == len then copied == [] else at <= |source| && copied == source[offset..at]
        invariant old(crashes) <= crashes
        invariant forall i :: |old(crashes)| <= i < |crashes| ==> OnlyTemp(old(files), crashes[i], temp)
        invariant OnlyTemp(old(files), files, temp) && temp in files
        invariant files[temp] == old(files)[temp] + copied
      {
        var requested := if remaining < CHUNK then remaining else CHUNK;
        var fails := Fails(faulty);
        if fails {
          return false;
        }
        var count := ReadSome(source, at, requested);
        if count == 0 {
          return false;
        }
        fails := Fails(faulty);
        if fails {
          return false;
        }
        copied := copied + source[at..at + count];
        assert copied == source[offset..at + count];
        Commit(files[temp := files[temp] + source[at..at + count]]);
        at, remaining := at + count, remaining - count;
      }
      assert Piece(source, Copy(offset, len)) == Some(copied);
      return true;
    }

    /** Write the whole recipe to the temporary file. */
    method Stream(source: Text, temp: string, ops: seq<WriteOp>, faulty: bool) returns (ok: bool)
      requires temp in files && files[temp] == []
      modifies this
      ensures old(crashes) <= crashes
      ensures forall i :: |old(crashes)| <= i < |crashes| ==> OnlyTemp(old(files), crashes[i], temp)
      ensures OnlyTemp(old(files), files, temp) && temp in files
      ensures ok ==> Output(source, ops) == Some(files[temp])
      ensures !faulty && Output(source, ops).Some? ==> ok
    {
      var i := 0;
      while i < |ops|
        invariant old(crashes) <= crashes
        invariant forall k :: |old(crashes)| <= k < |crashes| ==> OnlyTemp(old(files), crashes[k], temp)
        invariant OnlyTemp(old(files), files, temp) && temp in files
        invariant i <= |ops| && Output(source, ops[..i]) == Some(files[temp])
      {
        assert ops[..i + 1][..i] == ops[..i];
        if Output(source, ops).Some? {
          OutputPrefix(source, ops, i);
        }
        match ops[i] {
          case Copy(offset, len) =>
            ok := StreamCopy(source, temp, offset, len, faulty);
            if !ok {
              return false;
            }
          case Insert(data) =>
            var fails := Fails(faulty);
            if fails {
              return false;
            }
            Commit(files[temp := files[temp] + data]);
        }
        i := i + 1;
      }
      assert ops[..i] == ops;
      return true;
    }

    /** Publish the recipe's output or leave the destination alone, at every possible crash. */
    method WritePatched(src: string, dst: string, temp: string, ops: seq<WriteOp>, faulty: bool) returns (ok: bool)
      requires temp != dst && temp != src && temp !in files
      modifies this
      ensures old(crashes) <= crashes
      ensures forall i :: |old(crashes)| <= i < |crashes| ==>
        OnlyTemp(old(files), crashes[i], temp) || (ok && i == |crashes| - 1)
      ensures var source := if src in old(files) then old(files)[src] else [];
        ok ==> Output(source, ops).Some? && files == old(files)[dst := Output(source, ops).value]
      ensures ok && Copies(ops) ==> src in old(files)
      ensures !ok ==> OnlyTemp(old(files), files, temp)
      ensures var source := if src in old(files) then old(files)[src] else [];
        !faulty && (Copies(ops) ==> src in old(files)) && Output(source, ops).Some? ==> ok
      ensures !faulty && !ok ==> files == old(files)
    {
      hide Output;
      var needsSource := exists op :: op in ops && op.Copy?;
      if needsSource && src !in files {
        return false;
      }
      var source := if src in files then files[src] else [];
      var fails := Fails(faulty);
      if fails {
        return false;
      }
      Commit(files[temp := []]);
      ok := Stream(source, temp, ops, faulty);
      if ok {
        fails := Fails(faulty);
        ok := !fails;
      }
      if !ok {
        fails := Fails(faulty);
        if !fails {
          Commit(files - {temp});
        }
        return false;
      }
      var output := files[temp];
      assert (files - {temp})[dst := output] == old(files)[dst := output];
      Commit((files - {temp})[dst := output]);
    }
  }
}
