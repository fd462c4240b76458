/** `onedrive/api.py`: the client operations, each sending its requests
    through a `Connection` and proved to send exactly the requests of, and
    to end like, the run `Drive` describes for it. */
module Api {
  import opened Python
  import opened Remote
  import opened Drive

  /** `exists(file)`: one GET; True iff the status is 200. */
  method Exists(c: Connection, file: string) returns (b: bool)
    modifies c
    ensures c.log == old(c.log) + [GetItem(file)]
    ensures b <==> c.server(old(c.log), GetItem(file)).status == 200
  {
    var r := c.Send(GetItem(file));
    b := r.status == 200;
  }

  /** `get_metadata(file)`: one GET; the JSON body of the reply. */
  method GetMetadata(c: Connection, file: string) returns (m: Meta)
    modifies c
    ensures c.log == old(c.log) + [GetItem(file)]
    ensures m == c.server(old(c.log), GetItem(file)).body
  {
    var r := c.Send(GetItem(file));
    m := r.body;
  }

  /** `mkdir(parent, new_dir)`. */
  method Mkdir(c: Connection, parent: string, newDir: string) returns (r: Outcome<bool>)
    modifies c
    ensures c.log == old(c.log) + MkdirRun(c.server, old(c.log), parent, newDir).issued
    ensures r == MkdirRun(c.server, old(c.log), parent, newDir).result
  {
    var metaTarget := GetMetadata(c, parent + newDir);
    if metaTarget.folder {
      return Ok(true);
    }
    var metaParent := GetMetadata(c, parent);
    if metaParent.id.None? {
      return Raised(KeyError("id"));
    }
    assert c.log == old(c.log) + [GetItem(parent + newDir), GetItem(parent)];
    var reply := c.Send(CreateChild(metaParent.id.value, Remove(newDir, '/')));
    return Ok(reply.status == 201 && reply.body.id.Some?);
  }

  /** `mkdirs(file)`: one `mkdir` per component, from the root down,
      stopping at the first that does not return True. */
  method Mkdirs(c: Connection, file: string) returns (r: Outcome<bool>)
    modifies c
    ensures c.log == old(c.log) + MkdirsRun(c.server, old(c.log), file).issued
    ensures r == MkdirsRun(c.server, old(c.log), file).result
  {
    var parts := Components(file);
    ghost var h0 := c.log;
    ghost var done: seq<Run<bool>> := [];
    var path := "";
    var i := 0;
    while i < |parts|
      invariant MkdirsLoop(c.server, h0, parts, done, c.log, path, i)
    {
      var dir := "/" + parts[i];
      ghost var m := MkdirRun(c.server, c.log, path, dir);
      AttemptsStep(c.server, h0, parts, done, c.log, path, i, m);
      var success := Mkdir(c, path, dir);
      if success != Ok(true) {
        AttemptsStopped(c.server, h0, file, done, m);
        return success;
      }
      done := done + [m];
      path := path + dir;
      i := i + 1;
    }
    AttemptsDone(c.server, h0, file, done, c.log, path);
    return Ok(true);
  }

  /** `delete(file)`: one DELETE; True iff the status is 204. */
  method Delete(c: Connection, file: string) returns (b: bool)
    modifies c
    ensures c.log == old(c.log) + [DeleteItem(file)]
    ensures b <==> c.server(old(c.log), DeleteItem(file)).status == 204
  {
    var r := c.Send(DeleteItem(file));
    b := r.status == 204;
  }

  /** `m.get('file', {}).get('hashes', {}).get('sha1Hash')`: a missing level
      gives None, a `file` that is JSON null raises AttributeError. */
  function Sha1Field(m: Meta): (r: Outcome<Option<string>>)
    ensures r == Raised(AttributeError) <==> m.file == Some(Null)
    ensures r.Raised? ==> r == Raised(AttributeError)
    ensures r.Ok? && r.value.Some? <==> IndexSha1(m).Ok?
    ensures r.Ok? && r.value.Some? ==> r.value.value == IndexSha1(m).value
    ensures r == Ok(None) <==> IndexSha1(m).Raised? && IndexSha1(m).exc.KeyError?
    ensures m.file.None? ==> r == Ok(None)
    ensures IsFile(m) && (m.file.value.hashes.None? || m.file.value.hashes.value.sha1Hash.None?) ==>
      r == Ok(None)
  {
    match m.file
    case None => Ok(None)
    case Some(Null) => Raised(AttributeError)
    case Some(Facet(hashes, _)) =>
      match hashes
      case None => Ok(None)
      case Some(Hashes(sha1)) => Ok(sha1)
  }

  /** `get_sha1(file)`: one GET, then the optional lookup of the hash. */
  method GetSha1(c: Connection, file: string) returns (r: Outcome<Option<string>>)
    modifies c
    ensures c.log == old(c.log) + [GetItem(file)]
    ensures r == Sha1Field(c.server(old(c.log), GetItem(file)).body)
  {
    var m := GetMetadata(c, file);
    r := Sha1Field(m);
  }

  /** `copy(src, dst)`: resolve the conflict with an existing target,
      ensure the parents of `dst`, and request the copy. */
  method Copy(c: Connection, src: string, dst: string) returns (r: Outcome<Option<string>>)
    modifies c
    ensures c.log == old(c.log) + CopyRun(c.server, old(c.log), src, dst, true).issued
    ensures r == CopyRun(c.server, old(c.log), src, dst, true).result
  {
    ghost var h0 := c.log;
    var request := CopyRequest(src, dst);
    var dstMeta := GetMetadata(c, dst);
    var srcMeta := GetMetadata(c, src);
    ghost var probe := [GetItem(dst), GetItem(src)];
    assert c.log == h0 + probe;
    ghost var conflict := Resolve(dstMeta, srcMeta);
    assert conflict == CopyConflict(c.server, h0, src, dst);
    CopyProbes(c.server, h0, src, dst, true);
    if dstMeta.id.Some? {
      if !IsFile(dstMeta) {
        var _ := Delete(c, dst);
      } else {
        var srcSha := IndexSha1(srcMeta);
        if srcSha.Raised? {
          return Raised(srcSha.exc);
        }
        var dstSha := IndexSha1(dstMeta);
        if dstSha.Raised? {
          return Raised(dstSha.exc);
        }
        if srcSha.value == dstSha.value {
          return Ok(Some(dst));
        }
        var _ := Delete(c, dst);
      }
      assert conflict == Ok(Replace);
      Associative(h0, probe, [DeleteItem(dst)]);
    } else {
      assert conflict == Ok(NoTarget);
    }
    ghost var cleared := Cleared(conflict.value, src, dst);
    assert c.log == h0 + cleared;
    CopyLayout(c.server, h0, src, dst, true);
    ghost var dirsRun := MkdirsRun(c.server, h0 + cleared, dst);
    var dirs := Mkdirs(c, dst);
    Associative(h0, cleared, dirsRun.issued);
    if dirs.Raised? {
      return Raised(dirs.exc);
    }
    var reply := c.Send(request);
    Associative(h0, cleared + dirsRun.issued, [request]);
    if reply.status != 202 {
      return Ok(None);
    }
    if reply.location.None? {
      return Raised(KeyError("Location"));
    }
    return Ok(reply.location);
  }
}
