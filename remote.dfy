/** The drive as the client sees it over HTTP: the JSON metadata of an item,
    the four kinds of request the client issues, the server's replies, and a
    connection that records every request it sends.

    The server is an oracle: a total function from the requests sent so far
    and the next request to the reply. Any deterministic server, however its
    state evolves, is such a function, so nothing below depends on how the
    real service behaves. */
module Remote {
  import opened Python

  /** The `hashes` object of a file facet; only `sha1Hash` is read. */
  datatype Hashes = Hashes(sha1Hash: Option<string>)

  /** The value under the `file` key of an item: JSON `null`, or an object
      that may hold `hashes` and may hold keys the client never reads. */
  datatype FileEntry = Null | Facet(hashes: Option<Hashes>, otherKeys: bool)

  /** An item's metadata as returned by GET; `None` is a missing key.
      `folder` says the `folder` key is present and not `null`. */
  datatype Meta = Meta(id: Option<string>, folder: bool, file: Option<FileEntry>)

  /** Python truth value of the `file` entry: `null` and `{}` are false. */
  predicate Truthy(e: FileEntry) {
    e.Facet? && (e.hashes.Some? || e.otherKeys)
  }

  /** `m.get('file') is not None`, the client's test for "is a file". */
  predicate IsFile(m: Meta) {
    m.file.Some? && m.file.value.Facet?
  }

  /** `m['file']['hashes']['sha1Hash']`, with the exception each missing
      level raises. */
  function IndexSha1(m: Meta): (r: Outcome<string>)
    ensures r.Ok? <==> IsFile(m) && m.file.value.hashes.Some? && m.file.value.hashes.value.sha1Hash.Some?
    ensures r.Ok? ==> r.value == m.file.value.hashes.value.sha1Hash.value
    ensures r == Raised(KeyError("file")) <==> m.file.None?
    ensures r == Raised(TypeError) <==> m.file == Some(Null)
    ensures IsFile(m) && m.file.value.hashes.None? ==> r == Raised(KeyError("hashes"))
    ensures IsFile(m) && m.file.value.hashes.Some? && m.file.value.hashes.value.sha1Hash.None? ==>
      r == Raised(KeyError("sha1Hash"))
  {
    match m.file
    case None => Raised(KeyError("file"))
    case Some(Null) => Raised(TypeError)
    case Some(Facet(hashes, _)) =>
      match hashes
      case None => Raised(KeyError("hashes"))
      case Some(Hashes(sha1)) =>
        match sha1
        case None => Raised(KeyError("sha1Hash"))
        case Some(v) => Ok(v)
  }

  /** A request, by kind and by the path or name arguments it carries. */
  datatype Request =
    | GetItem(path: string)                                // GET /drive/root:<path>
    | CreateChild(parentId: string, name: string)         // POST /drive/items/<id>/children, a folder named <name>
    | DeleteItem(path: string)                             // DELETE /drive/root:<path>
    | CopyTo(src: string, parentPath: string, name: string) // POST /drive/root:<src>:/action.copy

  /** A reply: status code, JSON body, and the `Location` header if sent. */
  datatype Response = Response(status: int, body: Meta, location: Option<string>)

  type Server = (seq<Request>, Request) -> Response

  /** What one client operation did: the requests it issued, in order, and
      how it ended. */
  datatype Run<+T> = Run(issued: seq<Request>, result: Outcome<T>)

  /** The requests of several runs, one after the other. */
  function Issued(runs: seq<Run<bool>>): seq<Request>
    decreases |runs|
  {
    if runs == [] then [] else runs[0].issued + Issued(runs[1..])
  }

  lemma {:induction false} IssuedAppend(runs: seq<Run<bool>>, last: Run<bool>)
    ensures Issued(runs + [last]) == Issued(runs) + last.issued
    decreases |runs|
  {
    if runs == [] {
      assert [] + [last] == [last];
    } else {
      IssuedAppend(runs[1..], last);
      assert (runs + [last])[1..] == runs[1..] + [last];
    }
  }

  /** The HTTP session: every request goes through `Send`, which records it. */
  class Connection {
    const server: Server
    var log: seq<Request>

    constructor (server: Server)
      ensures this.server == server && log == []
    {
      this.server := server;
      log := [];
    }

    method Send(q: Request) returns (r: Response)
      modifies this
      ensures log == old(log) + [q]
      ensures r == server(old(log), q)
    {
      r := server(log, q);
      log := log + [q];
    }
  }
}
