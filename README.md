# OneDrive client: verified model of folder creation and server-side copy

This project models the client side of two small Python modules for the
OneDrive REST API:

- `onedrive/api.py` has `exists`, `get_metadata`, `mkdir`, `mkdirs`,
  `delete`, `get_sha1` and `copy`.
- `my_onedrive/my_onedrive.py` has a second copy of them (`onedrive_mkdir`,
  `onedrive_mkdirs`, `onedrive_delete`, `onedrive_copy`). It adds
  `onedrive_copy_if_same_hash`, which copies a remote file only when its
  SHA-1 matches one computed locally.

The model treats the drive as an oracle. A `Remote.Server` is a total
function from the requests sent so far and the next request to the reply:
status, JSON metadata body, and `Location` header. Every deterministic
server, whatever its internal state, is such a function, so the proofs
hold for any behaviour of the real service. A `Remote.Connection` object
carries the server and a log of the requests sent through it.

Each client operation is a method on a connection. It is proved to append
exactly the requests of a pure "run" function in module `Drive` (or
`MyOnedrive`) and to return that run's result. The run functions carry the
properties:

- which requests are sent and in which order;
- which names and parent paths the `mkdir` calls of `mkdirs` get;
- where a DELETE and the copy POST sit in the requests;
- when a copy is skipped, and what each operation returns.

Python exceptions are part of the result (`Python.Outcome.Raised`). A
missing `id` of the parent in `mkdir`, a missing hash in `copy`, or a
missing `Location` header on a 202 reply raises `KeyError`. A JSON `null`
under the source's `file` raises `TypeError` in the hash lookup of `copy`
(`src_meta['file'][...]`), and one under `file` raises `AttributeError` in
`get_sha1` (`None.get(...)`). Elsewhere a null `file` is not an error:
`copy` treats such a target as not a file and deletes it, and
`onedrive_copy_if_same_hash` returns None for a source whose `file` is
null or empty. These cases depend on
what the server answers, not on what the caller passes, so they are
modelled as outcomes rather than excluded by preconditions. No member has
a precondition on its client-facing inputs.

The string functions the client relies on are modelled in module
`Python`: `str.split`, `str.join`, `str.replace(ch, "")`, `str.lower`,
`str.rstrip` and `os.path.split`.

Notes on what the code does, as opposed to its comments:

- The docstring of `onedrive_copy_if_same_hash` promises None whenever no
  copy is triggered. When the target already holds a file with the
  source's hash, `onedrive_copy` returns `dst` and so does the caller
  (`MyOnedrive.AlreadyCopiedGivesTarget`).
- A source item without a `file` key (for instance the error body of a
  missing item) makes `onedrive_copy_if_same_hash` raise `KeyError`; it
  does not return None. The model follows the code.
- The dot filter of `mkdirs` drops every path element holding a dot, so a
  directory name with a dot is skipped as well, and the remaining folders
  are created one level higher (`Drive.DottedDirectoryDropped`).
- `copy` ignores the result of `mkdirs(dst)`, but not its exceptions.

## Model

| member | source | states |
|---|---|---|
| Python.Split | onedrive/api.py:58 | `file.split("/")` always has at least one piece and no piece contains the separator |
| Python.JoinSplit | onedrive/api.py:58 | joining the pieces of a split with the separator gives the string back |
| Python.SplitWithoutSeparator | onedrive/api.py:58 | a string without the separator splits into itself alone |
| Python.SplitAfterPiece | onedrive/api.py:58 | splitting `a + sep + b` gives `a` followed by the pieces of `b` when `a` has no separator |
| Python.SplitJoin | onedrive/api.py:58 | splitting undoes joining when no piece contains the separator |
| Python.Remove | onedrive/api.py:35 | `new_dir.replace("/", "")` holds no slash, keeps the count of every other character, and is the identity on slash-free names |
| Python.RemoveConcat | onedrive/api.py:35 | deleting a character commutes with concatenation, so the order of the other characters is kept |
| Python.Lower | my_onedrive/my_onedrive.py:148 | `.lower()` keeps the length, lowers each character in place and leaves no upper-case letter |
| Python.RStrip | onedrive/api.py:100 | stripping trailing slashes gives a prefix ending in some other character, with only slashes cut off |
| Python.AfterLastSlash | onedrive/api.py:100 | the index just past the last slash: no slash follows it and a slash precedes it unless it is 0 |
| Python.PathSplit | onedrive/api.py:100 | `os.path.split(dst)` gives a slash-free tail, the longest such suffix, and the preceding head with trailing slashes removed unless it is all slashes, in which case the head is everything before the tail; a slash-free path splits into `("", path)` |
| Remote.IndexSha1 | onedrive/api.py:115 | `m['file']['hashes']['sha1Hash']` is the hash iff every level is present, raises KeyError("file") iff `file` is absent, TypeError iff it is null, and KeyError("hashes") or KeyError("sha1Hash") for the first missing inner level |
| Remote.IssuedAppend | onedrive/api.py:64-69 | the requests of the loop's runs plus one more run are those runs' requests followed by its own |
| Remote.Connection.constructor | onedrive/api.py:15 | a new session against a server has sent nothing |
| Remote.Connection.Send | onedrive/api.py:15 | each request is answered by the server from the history and then appended to the log |
| Drive.Filter | onedrive/api.py:61 | the list comprehension keeps exactly the elements that are non-empty and dot-free, every kept element is one of the input elements, and nothing is added (order and repeats: `Drive.FilterConcat`) |
| Drive.Components | onedrive/api.py:58-61 | every component `mkdirs` walks is non-empty, dot-free and slash-free, and an element is a component iff it is a kept piece of the split (order and repeats: `Drive.ComponentsConcat`) |
| Drive.JoinedSnoc | onedrive/api.py:69 | `path += dir` over the first i+1 names is the path over the first i followed by `"/" + name` |
| Drive.MkdirsPlan | onedrive/api.py:63-69 | the i-th `mkdir` call gets parent = the joined first i components and new_dir = `"/" + component i`, one call per component |
| Drive.PlanShape | onedrive/api.py:63-69 | every new_dir is a slash and a non-empty dot-free, slash-free name; the first parent is the root `""`; each parent is the previous parent plus the previous new_dir |
| Drive.PlanParentsGrow | onedrive/api.py:63-69 | an earlier parent is a proper prefix of every later parent |
| Drive.JoinedIsJoin | onedrive/api.py:58-69 | the joined chain of names is `"/".join` of the names after an empty first piece |
| Drive.FilterKeepsAll | onedrive/api.py:61 | the filter is the identity on a list of kept elements |
| Drive.SplitJoined | onedrive/api.py:58 | splitting an absolute path of slash-free names gives `""` followed by those names |
| Drive.ComponentsOfJoined | onedrive/api.py:58-61 | on an absolute path whose names are all kept, `mkdirs` walks exactly those names |
| Drive.PlanEnd | onedrive/api.py:63-69 | when there is a component, the last call's parent plus new_dir is the whole chain of components |
| Drive.MkdirsReachesPath | onedrive/api.py:58-69 | on a dot-free absolute path, the last planned call creates the path itself |
| Drive.DottedDirectoryDropped | onedrive/api.py:60-61 | a directory name with a dot is dropped from the chain, so only the name under it is walked, directly below the root |
| Drive.DatedDirectoryDropped | onedrive/api.py:60-61 | `mkdirs("/2015.10.12 Eng/raw")` walks only `raw` |
| Drive.NothingToCreate | onedrive/api.py:58-71 | `"/"` and `"/foo.txt"` have no components, so `mkdirs` creates nothing |
| Drive.FilterConcat | onedrive/api.py:61 | the comprehension keeps order and repeats: filtering a concatenation is filtering each part, one after the other |
| Drive.ComponentsConcat | onedrive/api.py:58-61 | the names walked for `a + "/" + b` are those of `a` followed by those of `b`, in order and with repeats |
| Drive.RepeatedNameWalkedTwice | onedrive/api.py:58-69 | `mkdirs("/a/a")` walks `a` twice, root first |
| Python.SplitConcat | onedrive/api.py:58 | the pieces of `a + sep + b` are the pieces of `a` followed by those of `b` |
| Drive.Joined | onedrive/api.py:63-69 | the `path += dir` accumulator: the joined chain is empty iff there are no names, and otherwise starts with a slash |
| Drive.Created | onedrive/api.py:43 | the creation succeeded iff the status is 201 and the reply has an `id` |
| Remote.IsFile | onedrive/api.py:111 | `m.get('file') is not None`: a `file` key that is present and not null |
| Remote.Truthy | my_onedrive/my_onedrive.py:142 | the truth value of `meta_src['file']`: false for null and `{}` |
| Drive.CopyConflict | onedrive/api.py:108-110 | the conflict `copy` resolves from the replies to its GET of `dst` and then of `src` |
| Drive.Parents | onedrive/api.py:122-123 | ensuring the parents: `mkdirs(dst)` for `copy`, nothing for `onedrive_copy` |
| Drive.CopyRun | onedrive/api.py:108-133 | `copy` and `onedrive_copy` always start with the GETs of `dst` and `src`; its other properties are stated by `Drive.CopyProbes`, `Drive.CopyLayout`, `Drive.CopyDeletes`, `Drive.CopyReplaceDeletes` and `Drive.CopyPostsLast` |
| Drive.ComponentsOf | onedrive/api.py:58-61 | the components of a path joined from slash-free pieces are the kept pieces |
| Drive.MkdirRun | onedrive/api.py:25-48 | `mkdir` first GETs `parent + new_dir`; an existing folder gives True with nothing else sent; otherwise it GETs the parent, a missing id raises KeyError("id") after two requests, a parent with an id gets the creation of `new_dir` without slashes under that id as the third request, and no other creation is sent; True iff the folder exists or the creation reply has status 201 and an id |
| Drive.Attempts | onedrive/api.py:63-71 | the loop's `mkdir` runs: at most one per component, every run but the last returned True, and the loop ended early only after a run that did not |
| Drive.AttemptsAt | onedrive/api.py:63-69 | the i-th run is `mkdir` from the chain of the first i names, sent after all earlier runs' requests |
| Drive.AttemptsStep | onedrive/api.py:64-69 | one loop turn: a run that is not True ends the loop with all its requests; a True run extends the chain by its name and the loop invariant holds for the next turn |
| Drive.AttemptsDone | onedrive/api.py:64-71 | a loop that walked every component has sent the requests of `mkdirs` and returns True |
| Drive.AttemptsStopped | onedrive/api.py:66-68 | a loop that stopped after a run that was not True has sent the requests of `mkdirs` and returns that run's result |
| Drive.MkdirsRun | onedrive/api.py:51-71 | `mkdirs` sends the requests of its runs in order, returns True iff every component got a run and all returned True (vacuously with no component), and otherwise returns the last run's False or exception |
| Drive.MkdirsCall | onedrive/api.py:63-69 | the i-th `mkdir` call of `mkdirs(file)` gets exactly the i-th planned parent and new_dir |
| Drive.AttemptsIssue | onedrive/api.py:25-48 | the loop only sends GETs and folder creations, each creation named after one of the names walked |
| Drive.MkdirsIssue | onedrive/api.py:51-71 | `mkdirs` only reads and creates folders, each named after a component of the path |
| Drive.Resolve | onedrive/api.py:110-120 | no target id iff nothing to resolve; same file iff the target is a file and both hashes are read and equal; replace iff the target is not a file or both hashes are read and differ; otherwise the lookup raises, the source's exception first |
| Drive.CopyOutcome | onedrive/api.py:127-133 | None iff the status is not 202; the Location header iff the status is 202 and the header is sent; a 202 without it raises KeyError("Location") |
| Drive.CopyRequest | onedrive/api.py:100-106 | the copy POST carries the source, parent path `"/drive/root:" + head` and name = the slash-free tail of `os.path.split(dst)` |
| Drive.Cleared | onedrive/api.py:108-120 | after resolving, `copy` has sent the GET of `dst`, then the GET of `src`, then the DELETE of `dst` exactly when the target is replaced |
| Drive.CopyProbes | onedrive/api.py:108-117 | after the GETs of `dst` and `src`, a target with the same hash gives `dst` and a raising lookup gives its exception, with nothing else sent |
| Drive.CopyLayout | onedrive/api.py:110-133 | past the conflict, `copy` sends the cleared requests, then the parents' requests, then the POST, whose reply decides the result, unless ensuring parents raised |
| Drive.ParentsIssue | onedrive/api.py:122-123 | ensuring the parents only reads and creates folders, and sends nothing for `onedrive_copy` |
| Drive.CopyLayoutWithoutParents | my_onedrive/my_onedrive.py:101-125 | without `mkdirs`, the copy POST directly follows the cleared requests and its reply decides the result |
| Drive.PlacesInLayout | onedrive/api.py:108-126 | in the cleared requests followed by folder requests and copy POSTs, a DELETE can only be the third request, of `dst`, on a replace, and no copy POST precedes the folder requests |
| Drive.CopyDeletes | onedrive/api.py:110-120 | a DELETE sent by `copy` is the third request, deletes `dst`, and is sent only when the target is replaced |
| Drive.CopyReplaceDeletes | onedrive/api.py:110-120 | a target to be replaced is deleted as the third request, before `mkdirs` and the POST |
| Drive.CopyPostsLast | onedrive/api.py:122-133 | a copy POST sent by `copy` is its last request, is the `os.path.split` request, and its reply decides the result |
| Drive.CopyWithoutParentsCreatesNothing | my_onedrive/my_onedrive.py:101-118 | `onedrive_copy` never sends a folder creation |
| Drive.CopyIgnoresMkdirsResult | onedrive/api.py:122-126 | unless a lookup raised or the target is the same, the copy POST is sent whenever `mkdirs(dst)` returns, whether True or False |
| Api.Exists | onedrive/api.py:14-16 | one GET of the path; True iff its status is 200 |
| Api.GetMetadata | onedrive/api.py:19-22 | one GET of the path; the reply's body |
| Api.Mkdir | onedrive/api.py:25-48 | sends the requests of `Drive.MkdirRun` and returns its result |
| Api.Mkdirs | onedrive/api.py:51-71 | the loop sends the requests of `Drive.MkdirsRun` and returns its result |
| Api.Delete | onedrive/api.py:74-80 | one DELETE of the path; True iff its status is 204 |
| Api.Sha1Field | onedrive/api.py:85 | the chained `.get` gives the hash iff every level is present, None iff a level is absent (absent `file`, `hashes` or `sha1Hash`), and raises AttributeError iff `file` is null |
| Api.GetSha1 | onedrive/api.py:83-85 | one GET of the path, then the chained lookup on its body |
| Api.Copy | onedrive/api.py:88-133 | sends the requests of `Drive.CopyRun` with `mkdirs(dst)` and returns its result |
| MyOnedrive.GetMetadata | my_onedrive/my_onedrive.py:15-17 | one GET of the path; the reply's body |
| MyOnedrive.Mkdir | my_onedrive/my_onedrive.py:20-43 | sends the requests of `Drive.MkdirRun` and returns its result |
| MyOnedrive.Mkdirs | my_onedrive/my_onedrive.py:46-67 | sends the requests of `Drive.MkdirsRun` and returns its result |
| MyOnedrive.Delete | my_onedrive/my_onedrive.py:70-76 | one DELETE of the path; True iff its status is 204 |
| MyOnedrive.Copy | my_onedrive/my_onedrive.py:79-125 | sends the requests of `Drive.CopyRun` without `mkdirs` and returns its result |
| MyOnedrive.CopyIfSameHashRun | my_onedrive/my_onedrive.py:128-160 | `onedrive_copy_if_same_hash` always starts with the GET of the source |
| MyOnedrive.HashGate | my_onedrive/my_onedrive.py:139-151 | nothing beyond the GET of the source is sent unless its `file` is truthy and its remote sha1, lowered, equals `sha1_local` |
| MyOnedrive.CopyIfSameHashGates | my_onedrive/my_onedrive.py:141-157 | no `file` raises KeyError("file"), a false `file` gives None, a missing hash raises, a different hash gives None, each after the one GET; after `onedrive_mkdirs(dst)`, its exception is raised and its False gives None |
| MyOnedrive.UpperCaseLocalHashNeverCopies | my_onedrive/my_onedrive.py:148-151 | only the remote hash is lowered, so a local hash with an upper-case letter never goes past the GET and never gives anything but None or an exception |
| MyOnedrive.CopyAfterDirs | my_onedrive/my_onedrive.py:154-160 | `onedrive_copy` runs only after `onedrive_mkdirs(dst)` returned True, and its requests and result are exactly those of the whole call's rest |
| MyOnedrive.CopyIfSameHashDelegates | my_onedrive/my_onedrive.py:139-160 | a truthy source `file` whose lowered sha1 is `sha1_local`, followed by `onedrive_mkdirs(dst)` returning True, gives the requests and result of `onedrive_copy(src, dst)` after those of the GET and of `onedrive_mkdirs` |
| MyOnedrive.AlreadyCopiedGivesTarget | my_onedrive/my_onedrive.py:104-112 | when the hashes match, the folders exist and the target holds the same file, the result is `dst` and no copy is requested |
| MyOnedrive.CopyIfSameHash | my_onedrive/my_onedrive.py:128-160 | sends the requests of `MyOnedrive.CopyIfSameHashRun` and returns its result |

## Left out

- HTTP itself: URLs, headers, authentication, JSON encoding of request bodies and `json.loads` of replies. A reply body is already decoded metadata; a reply that is not a JSON object is not modelled.
- The base URLs. `onedrive/api.py` and `my_onedrive/my_onedrive.py` differ in them, so `MyOnedrive.GetMetadata`, `MyOnedrive.Mkdir`, `MyOnedrive.Mkdirs` and `MyOnedrive.Delete` are the `Api` methods again.
- Logging: the `logger` calls have no effect on the results.
- The JSON body of the folder creation is modelled by its name only; the `"folder": {}` facet is constant.
- Polling of the asynchronous copy job behind the `Location` URL; the client never does it.
- JSON `null` is modelled only for the `file` key. An `id`, `hashes` or `sha1Hash` that is present but null is treated as absent. In Python, a null parent id in `mkdir` raises TypeError rather than KeyError, a null `hashes` in `get_sha1` raises AttributeError, and two null hashes in `copy` compare equal.
- Python.Lower: lowers only the ASCII letters A to Z; the rest of Unicode case mapping is not modelled.
- Drive.CopyIgnoresMkdirsResult: covers only a `mkdirs` that returns; a `mkdirs` that raises ends `copy` with its exception, which `Drive.CopyLayout` states.
- Network failures of `requests` (connection errors, timeouts) are not modelled; every request gets a reply.
- The authentication module, the local hashing helper, JSON file helpers, the sample script and the tests are not part of this model. They do not decide what the client sends or returns.
