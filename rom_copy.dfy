/**
 * The copy pass of `filter_roms`: every kept entry is extracted (archive)
 * or copied (loose file) into the `filtered` folder, and `kept_count`
 * counts the files actually written.
 */
module RomCopy {
  import opened Common
  import opened Text
  import opened RomScan

  /** A file written to the output folder. */
  datatype Output = Output(fileName: string, data: Bytes)

  /** What one iteration of the copy loop does. */
  datatype CopyResult =
    | Written(out: Output)  // a file was written; `kept_count` grows
    | NoRomEntry            // the archive no longer holds a ROM member: nothing happens
    | CopyFailed            // BadZipFile / IOError / OSError: reported and skipped

  /**
   * One iteration of the copy loop for the kept file `c`: extract the first
   * ROM member of an archive under its base name, or copy a loose file
   * under its own name.
   */
  function Materialise(c: Candidate, io: Io): (r: CopyResult)
    ensures r.Written? ==> c.destOk && c.atCopy.Some?
    ensures r.NoRomEntry? <==>
      IsArchiveName(c.name) && c.atCopy.Some? && io.unzip(c.atCopy.value).Some?
      && FirstRomEntry(io.unzip(c.atCopy.value).value).None?
    // an archive: written exactly when its first ROM member can be read, under that member's base name
    ensures IsArchiveName(c.name) ==>
      (r.Written? <==>
        && c.destOk && c.atCopy.Some? && io.unzip(c.atCopy.value).Some?
        && var es := io.unzip(c.atCopy.value).value;
           FirstRomEntry(es).Some? && es[FirstRomEntry(es).value].data.Some?)
    ensures IsArchiveName(c.name) && r.Written? ==>
      var es := io.unzip(c.atCopy.value).value;
      var e := es[FirstRomEntry(es).value];
      r.out == Output(BaseName(e.name), e.data.value)
    // a loose file: written exactly when it can be read and the destination written, under its own name
    ensures !IsArchiveName(c.name) ==> (r.Written? <==> c.atCopy.Some? && c.destOk)
    ensures !IsArchiveName(c.name) && r.Written? ==> r.out == Output(c.name, c.atCopy.value)
  {
    if IsArchiveName(c.name) then
      match c.atCopy
      case None => CopyFailed
      case Some(b) =>
        match io.unzip(b)
        case None => CopyFailed
        case Some(es) =>
          match FirstRomEntry(es)
          case None => NoRomEntry
          case Some(i) =>
            if es[i].data.Some? && c.destOk then Written(Output(BaseName(es[i].name), es[i].data.value)) else CopyFailed
    else
      match c.atCopy
      case None => CopyFailed
      case Some(b) => if c.destOk then Written(Output(c.name, b)) else CopyFailed
  }

  /**
   * When the file has not changed between scan and copy, the file written
   * has exactly the digest the scan matched: a copied loose file is the
   * source byte for byte, an extracted ROM is the member that was hashed.
   */
  lemma CopyPreservesDigest(c: Candidate, io: Io)
    requires c.atCopy == c.atScan
    requires Materialise(c, io).Written?
    ensures CandidateDigest(c, io) == Some(HexDigest(io, Materialise(c, io).out.data))
  {
  }

  /** Output files are flat: an extracted member loses its directory part. */
  lemma WrittenNameIsFlat(c: Candidate, io: Io)
    requires '/' !in c.name
    requires Materialise(c, io).Written?
    ensures '/' !in Materialise(c, io).out.fileName
  {
  }

  /** The copy step for a given environment, as a value the copy loop can be run with. */
  function CopyFn(io: Io): Candidate -> CopyResult {
    c => Materialise(c, io)
  }

  /** The file one iteration writes, if any. */
  function Emitted(r: CopyResult): (o: seq<Output>)
    ensures |o| <= 1
    ensures |o| == 1 <==> r.Written?
    ensures r.Written? ==> o == [r.out]
  {
    if r.Written? then [r.out] else []
  }

  /** The files the copy loop writes, in the order of `found_md5s`. */
  function Outputs(t: Table, copy: Candidate -> CopyResult): seq<Output> {
    if t == [] then []
    else Outputs(t[..|t| - 1], copy) + Emitted(copy(t[|t| - 1].found.file))
  }

  /**
   * A failing entry contributes nothing and does not stop the loop: the
   * outputs of two runs of entries are the outputs of each, in order.
   */
  lemma {:induction false} OutputsAppend(a: Table, b: Table, copy: Candidate -> CopyResult)
    ensures Outputs(a + b, copy) == Outputs(a, copy) + Outputs(b, copy)
    decreases |b|
  {
    if b != [] {
      var init := b[..|b| - 1];
      assert (a + b)[..|a + b| - 1] == a + init;
      assert (a + b)[|a + b| - 1] == b[|b| - 1];
      OutputsAppend(a, init, copy);
    } else {
      assert a + b == a;
    }
  }

  /**
   * At most one file per kept entry is written, and one for every entry
   * exactly when every entry's copy or extraction succeeds.
   */
  lemma {:induction false} OutputsBound(t: Table, copy: Candidate -> CopyResult)
    ensures |Outputs(t, copy)| <= |t|
    ensures |Outputs(t, copy)| == |t| <==> forall i :: 0 <= i < |t| ==> copy(t[i].found.file).Written?
  {
    if t != [] {
      var init := t[..|t| - 1];
      OutputsBound(init, copy);
      assert forall i :: 0 <= i < |init| ==> init[i] == t[i];
    }
  }

  /** The output folder after writing `outs` over its earlier contents `dest`. */
  function FolderOf(dest: map<string, Bytes>, outs: seq<Output>): map<string, Bytes> {
    if outs == [] then dest
    else FolderOf(dest, outs[..|outs| - 1])[outs[|outs| - 1].fileName := outs[|outs| - 1].data]
  }

  /** Writing one more file stores its data under its name. */
  lemma FolderOfSnoc(dest: map<string, Bytes>, outs: seq<Output>, o: Output)
    ensures FolderOf(dest, outs + [o]) == FolderOf(dest, outs)[o.fileName := o.data]
  {
    assert (outs + [o])[..|outs|] == outs;
  }

  /** Output `i` is the last one written under `name`. */
  predicate LastWritten(outs: seq<Output>, name: string, i: int) {
    0 <= i < |outs| && outs[i].fileName == name && forall j :: i < j < |outs| ==> outs[j].fileName != name
  }

  /**
   * The folder holds what it held before plus every written name; a name
   * written more than once holds the last data written under it.
   */
  lemma {:induction false} FolderOfSpec(dest: map<string, Bytes>, outs: seq<Output>)
    ensures forall n :: n in FolderOf(dest, outs) <==> n in dest || exists i :: 0 <= i < |outs| && outs[i].fileName == n
    ensures forall n :: n in FolderOf(dest, outs) && n !in dest ==>
      exists i :: LastWritten(outs, n, i) && FolderOf(dest, outs)[n] == outs[i].data
    ensures forall i :: 0 <= i < |outs| && LastWritten(outs, outs[i].fileName, i) ==> FolderOf(dest, outs)[outs[i].fileName] == outs[i].data
  {
    if outs != [] {
      var init, o := outs[..|outs| - 1], outs[|outs| - 1];
      assert outs == init + [o];
      FolderOfSpec(dest, init);
      forall n | n in dest || exists i :: 0 <= i < |outs| && outs[i].fileName == n
        ensures n in FolderOf(dest, outs)
      {
        if n != o.fileName && n !in dest {
          var i :| 0 <= i < |outs| && outs[i].fileName == n;
          assert init[i] == outs[i];
        }
      }
      forall n | n in FolderOf(dest, outs) && n !in dest
        ensures exists i :: LastWritten(outs, n, i) && FolderOf(dest, outs)[n] == outs[i].data
      {
        if n == o.fileName {
          assert LastWritten(outs, n, |outs| - 1);
        } else {
          var i :| LastWritten(init, n, i) && FolderOf(dest, init)[n] == init[i].data;
          assert LastWritten(outs, n, i);
        }
      }
      forall i | 0 <= i < |outs| && LastWritten(outs, outs[i].fileName, i)
        ensures FolderOf(dest, outs)[outs[i].fileName] == outs[i].data
      {
        if i < |init| {
          assert LastWritten(init, init[i].fileName, i);
        }
      }
    }
  }

  /** The outputs of one more entry. */
  lemma OutputsSnoc(t: Table, i: nat, copy: Candidate -> CopyResult)
    requires i < |t|
    ensures Outputs(t[..i + 1], copy) == Outputs(t[..i], copy) + Emitted(copy(t[i].found.file))
  {
    assert t[..i + 1][..i] == t[..i];
  }

  /**
   * The copy loop: `kept_count` grows once per file written, and an error
   * skips that game without stopping the loop.
   */
  method CopyAll(found: Table, copy: Candidate -> CopyResult, dest: map<string, Bytes>) returns (kept: nat, folder: map<string, Bytes>)
    ensures kept == |Outputs(found, copy)| <= |found|
    ensures folder == FolderOf(dest, Outputs(found, copy))
  {
    kept, folder := 0, dest;
    ghost var outs: seq<Output> := [];
    var i := 0;
    while i < |found|
      invariant 0 <= i <= |found|
      invariant outs == Outputs(found[..i], copy)
      invariant kept == |outs| <= i
      invariant folder == FolderOf(dest, outs)
    {
      var romFile := found[i].found.file;
      var result := copy(romFile);
      OutputsSnoc(found, i, copy);
      if result.Written? {
        folder := folder[result.out.fileName := result.out.data];
        kept := kept + 1;
        FolderOfSnoc(dest, outs, result.out);
        outs := outs + [result.out];
      } else {
        assert outs + Emitted(result) == outs;
      }
      i := i + 1;
    }
    assert found[..i] == found;
  }
}
