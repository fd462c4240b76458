/** `my_onedrive/my_onedrive.py`: the second copy of the client. Its
    metadata, `mkdir`, `mkdirs` and `delete` operations are those of
    `onedrive/api.py` with another base URL, which the model does not see,
    so they are the `Api` methods again. Its copy does not ensure the
    parent directories, and `onedrive_copy_if_same_hash` copies only a
    source whose remote hash equals a given local one. */
module MyOnedrive {
  import opened Python
  import opened Remote
  import opened Drive
  import Api

  /** `onedrive_get_metadata(file)`. */
  method GetMetadata(c: Connection, file: string) returns (m: Meta)
    modifies c
    ensures c.log == old(c.log) + [GetItem(file)]
    ensures m == c.server(old(c.log), GetItem(file)).body
  {
    m := Api.GetMetadata(c, file);
  }

  /** `onedrive_mkdir(parent, new_dir)`. */
  method Mkdir(c: Connection, parent: string, newDir: string) returns (r: Outcome<bool>)
    modifies c
    ensures c.log == old(c.log) + MkdirRun(c.server, old(c.log), parent, newDir).issued
    ensures r == MkdirRun(c.server, old(c.log), parent, newDir).result
  {
    r := Api.Mkdir(c, parent, newDir);
  }

  /** `onedrive_mkdirs(file)`. */
  method Mkdirs(c: Connection, file: string) returns (r: Outcome<bool>)
    modifies c
    ensures c.log == old(c.log) + MkdirsRun(c.server, old(c.log), file).issued
    ensures r == MkdirsRun(c.server, old(c.log), file).result
  {
    r := Api.Mkdirs(c, file);
  }

  /** `onedrive_delete(file)`. */
  method Delete(c: Connection, file: string) returns (b: bool)
    modifies c
    ensures c.log == old(c.log) + [DeleteItem(file)]
    ensures b <==> c.server(old(c.log), DeleteItem(file)).status == 204
  {
    b := Api.Delete(c, file);
  }

  /** `onedrive_copy(src, dst)`: resolve the conflict with an existing
      target and request the copy, without creating any directory. */
  method Copy(c: Connection, src: string, dst: string) returns (r: Outcome<Option<string>>)
    modifies c
    ensures c.log == old(c.log) + CopyRun(c.server, old(c.log), src, dst, false).issued
    ensures r == CopyRun(c.server, old(c.log), src, dst, false).result
  {
    ghost var h0 := c.log;
    var request := CopyRequest(src, dst);
    var dstMeta := GetMetadata(c, dst);
    var srcMeta := GetMetadata(c, src);
    ghost var probe := [GetItem(dst), GetItem(src)];
    assert c.log == h0 + probe;
    ghost var conflict := Resolve(dstMeta, srcMeta);
    assert conflict == CopyConflict(c.server, h0, src, dst);
    CopyProbes(c.server, h0, src, dst, false);
    if dstMeta.id.Some? {
      if !IsFile(dstMeta) {
        var _ := Delete(c, dst);
      } else {
        var srcSha := IndexSha1(srcMeta);
        if srcSha.Raised? {
          return Raised(srcSha.exc);
        }
        var dstSha := IndexSha1(dstMeta);
        if dstSha.Raised? {
          return Raised(dstSha.exc);
        }
        if srcSha.value == dstSha.value {
          return Ok(Some(dst));
        }
        var _ := Delete(c, dst);
      }
      assert conflict == Ok(Replace);
      Associative(h0, probe, [DeleteItem(dst)]);
    } else {
      assert conflict == Ok(NoTarget);
    }
    ghost var cleared := Cleared(conflict.value, src, dst);
    assert c.log == h0 + cleared;
    CopyLayoutWithoutParents(c.server, h0, src, dst);
    var reply := c.Send(request);
    Associative(h0, cleared, [request]);
    if reply.status != 202 {
      return Ok(None);
    }
    if reply.location.None? {
      return Raised(KeyError("Location"));
    }
    return Ok(reply.location);
  }

  /** `onedrive_copy_if_same_hash(src, dst, sha1_local)`: GET the source; no
      `file` raises KeyError, a false `file` gives None; a remote sha1 that
      is missing raises, one that differs from `sha1_local` after lowering
      gives None; otherwise `onedrive_mkdirs(dst)`, which must return True
      for `onedrive_copy(src, dst)` to follow and give the result. */
  function CopyIfSameHashRun(s: Server, h: seq<Request>, src: string, dst: string, sha1Local: string): (run: Run<Option<string>>)
    ensures |run.issued| >= 1 && run.issued[0] == GetItem(src)
  {
    var probe := [GetItem(src)];
    var meta := s(h, GetItem(src)).body;
    match meta.file
    case None => Run(probe, Raised(KeyError("file")))
    case Some(entry) =>
      if !Truthy(entry) then Run(probe, Ok(None))
      else
        match IndexSha1(meta)
        case Raised(e) => Run(probe, Raised(e))
        case Ok(remote) =>
          if sha1Local != Lower(remote) then Run(probe, Ok(None))
          else
            var dirs := MkdirsRun(s, h + probe, dst);
            if dirs.result.Raised? then Run(probe + dirs.issued, Raised(dirs.result.exc))
            else if dirs.result == Ok(false) then Run(probe + dirs.issued, Ok(None))
            else
              var copy := CopyRun(s, h + probe + dirs.issued, src, dst, false);
              Run(probe + dirs.issued + copy.issued, copy.result)
  }

  /** The remote sha1 of the source, if it can be read. */
  function RemoteSha1(s: Server, h: seq<Request>, src: string): Outcome<string> {
    IndexSha1(s(h, GetItem(src)).body)
  }

  /** Nothing but the GET of the source is sent unless the source is a
      file with a truthy facet whose sha1, lowered, is `sha1Local`. */
  lemma {:induction false} HashGate(s: Server, h: seq<Request>, src: string, dst: string, sha1Local: string)
    ensures var run := CopyIfSameHashRun(s, h, src, dst, sha1Local);
      var meta := s(h, GetItem(src)).body;
      |run.issued| > 1 ==>
        meta.file.Some? && Truthy(meta.file.value) &&
        RemoteSha1(s, h, src).Ok? && sha1Local == Lower(RemoteSha1(s, h, src).value)
  {
  }

  /** The ways `onedrive_copy_if_same_hash` ends before copying: KeyError
      for a source without `file`, None for a false `file`, the lookup's
      exception for a missing hash, None for a different hash, and after
      `onedrive_mkdirs(dst)` its exception or None when it returned False. */
  lemma CopyIfSameHashGates(s: Server, h: seq<Request>, src: string, dst: string, sha1Local: string)
    ensures var run := CopyIfSameHashRun(s, h, src, dst, sha1Local);
      var file := s(h, GetItem(src)).body.file;
      && (file.None? ==> run == Run([GetItem(src)], Raised(KeyError("file"))))
      && (file.Some? && !Truthy(file.value) ==> run == Run([GetItem(src)], Ok(None)))
      && (file.Some? && Truthy(file.value) && RemoteSha1(s, h, src).Raised? ==>
            run == Run([GetItem(src)], Raised(RemoteSha1(s, h, src).exc)))
      && (var remote := RemoteSha1(s, h, src);
          file.Some? && Truthy(file.value) && remote.Ok? && sha1Local != Lower(remote.value) ==>
            run == Run([GetItem(src)], Ok(None)))
    ensures var run := CopyIfSameHashRun(s, h, src, dst, sha1Local);
      var file := s(h, GetItem(src)).body.file;
      var dirs := MkdirsRun(s, h + [GetItem(src)], dst);
      file.Some? && Truthy(file.value) && RemoteSha1(s, h, src).Ok? &&
      sha1Local == Lower(RemoteSha1(s, h, src).value) ==>
        && (dirs.result.Raised? ==> run == Run([GetItem(src)] + dirs.issued, Raised(dirs.result.exc)))
        && (dirs.result == Ok(false) ==> run == Run([GetItem(src)] + dirs.issued, Ok(None)))
  {
  }

  /** The hash comparison is with the lowered remote hash, so a local hash
      with an upper-case letter never leads to a copy. */
  lemma UpperCaseLocalHashNeverCopies(s: Server, h: seq<Request>, src: string, dst: string, sha1Local: string, k: nat)
    requires k < |sha1Local| && IsUpper(sha1Local[k])
    ensures var run := CopyIfSameHashRun(s, h, src, dst, sha1Local);
      run.issued == [GetItem(src)] && (run.result.Ok? ==> run.result == Ok(None))
  {
    var remote := RemoteSha1(s, h, src);
    if remote.Ok? {
      var lowered := Lower(remote.value);
      assert |lowered| == |sha1Local| ==> !IsUpper(lowered[k]);
      assert sha1Local != lowered;
    }
  }

  /** `onedrive_copy` runs only after `onedrive_mkdirs(dst)` returned True,
      and then it decides the result. */
  lemma CopyAfterDirs(s: Server, h: seq<Request>, src: string, dst: string, sha1Local: string)
    ensures var run := CopyIfSameHashRun(s, h, src, dst, sha1Local);
      var dirs := MkdirsRun(s, h + [GetItem(src)], dst);
      |run.issued| > 1 + |dirs.issued| ==>
        dirs.result == Ok(true) &&
        run.issued == [GetItem(src)] + dirs.issued + CopyRun(s, h + [GetItem(src)] + dirs.issued, src, dst, false).issued &&
        run.result == CopyRun(s, h + [GetItem(src)] + dirs.issued, src, dst, false).result
  {
    var run := CopyIfSameHashRun(s, h, src, dst, sha1Local);
    var dirs := MkdirsRun(s, h + [GetItem(src)], dst);
    var meta := s(h, GetItem(src)).body;
    if |run.issued| > 1 + |dirs.issued| {
      HashGate(s, h, src, dst, sha1Local);
      assert meta.file.Some? && Truthy(meta.file.value) && IndexSha1(meta).Ok?;
      assert sha1Local == Lower(IndexSha1(meta).value);
      assert dirs.result.Ok? && dirs.result.value;
    }
  }

  /** ... and conversely, once the source is a truthy file whose lowered
      sha1 is `sha1Local` and `onedrive_mkdirs(dst)` returned True, the rest
      of the call is `onedrive_copy(src, dst)`, whose result it returns. */
  lemma CopyIfSameHashDelegates(s: Server, h: seq<Request>, src: string, dst: string, sha1Local: string)
    ensures var meta := s(h, GetItem(src)).body;
      var dirs := MkdirsRun(s, h + [GetItem(src)], dst);
      var copy := CopyRun(s, h + [GetItem(src)] + dirs.issued, src, dst, false);
      meta.file.Some? && Truthy(meta.file.value) && RemoteSha1(s, h, src).Ok? &&
      sha1Local == Lower(RemoteSha1(s, h, src).value) && dirs.result == Ok(true) ==>
        CopyIfSameHashRun(s, h, src, dst, sha1Local) == Run([GetItem(src)] + dirs.issued + copy.issued, copy.result)
  {
  }

  /** When the target already holds a file with the source's hash, the
      result is `dst` itself and no copy is requested, although the
      docstring promises None whenever no copy is triggered. */
  lemma AlreadyCopiedGivesTarget(s: Server, h: seq<Request>, src: string, dst: string, sha1Local: string)
    requires RemoteSha1(s, h, src).Ok? && sha1Local == Lower(RemoteSha1(s, h, src).value)
    requires Truthy(s(h, GetItem(src)).body.file.value)
    requires MkdirsRun(s, h + [GetItem(src)], dst).result == Ok(true)
    requires CopyConflict(s, h + [GetItem(src)] + MkdirsRun(s, h + [GetItem(src)], dst).issued, src, dst) == Ok(SameFile)
    ensures var run := CopyIfSameHashRun(s, h, src, dst, sha1Local);
      run.result == Ok(Some(dst)) && forall i | 0 <= i < |run.issued| :: !run.issued[i].CopyTo?
  {
    var dirs := MkdirsRun(s, h + [GetItem(src)], dst);
    var run := CopyIfSameHashRun(s, h, src, dst, sha1Local);
    var h2 := h + [GetItem(src)] + dirs.issued;
    CopyProbes(s, h2, src, dst, false);
    assert run.issued == [GetItem(src)] + dirs.issued + [GetItem(dst), GetItem(src)];
    MkdirsIssue(s, h + [GetItem(src)], dst);
    forall i | 0 <= i < |run.issued|
      ensures !run.issued[i].CopyTo?
    {
      if 1 <= i < 1 + |dirs.issued| {
        assert run.issued[i] == dirs.issued[i - 1];
      }
    }
  }

  method CopyIfSameHash(c: Connection, src: string, dst: string, sha1Local: string) returns (r: Outcome<Option<string>>)
    modifies c
    ensures c.log == old(c.log) + CopyIfSameHashRun(c.server, old(c.log), src, dst, sha1Local).issued
    ensures r == CopyIfSameHashRun(c.server, old(c.log), src, dst, sha1Local).result
  {
    ghost var h0 := c.log;
    var metaSrc := GetMetadata(c, src);
    if metaSrc.file.None? {
      return Raised(KeyError("file"));
    }
    if !Truthy(metaSrc.file.value) {
      return Ok(None);
    }
    var remote := IndexSha1(metaSrc);
    if remote.Raised? {
      return Raised(remote.exc);
    }
    if sha1Local != Lower(remote.value) {
      return Ok(None);
    }
    ghost var probe := [GetItem(src)];
    ghost var dirsRun := MkdirsRun(c.server, h0 + probe, dst);
    var dirsExist := Mkdirs(c, dst);
    Associative(h0, probe, dirsRun.issued);
    if dirsExist.Raised? {
      return Raised(dirsExist.exc);
    }
    if !dirsExist.value {
      return Ok(None);
    }
    ghost var copyRun := CopyRun(c.server, h0 + probe + dirsRun.issued, src, dst, false);
    r := Copy(c, src, dst);
    Associative(h0, probe + dirsRun.issued, copyRun.issued);
  }
}
