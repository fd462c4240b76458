/** The client-side decisions that `onedrive/api.py` and
    `my_onedrive/my_onedrive.py` share, written as functions of the server
    oracle and the requests sent before: which requests an operation issues,
    in which order, and how it ends.

    - directory-chain planning of `mkdirs` / `onedrive_mkdirs`;
    - single-folder creation of `mkdir` / `onedrive_mkdir`;
    - copy conflict resolution of `copy` / `onedrive_copy` (the two differ
      only in whether the parents of the target are ensured first). */
module Drive {
  import opened Python
  import opened Remote

  // ---------------------------------------------------------------------
  // Path components
  // ---------------------------------------------------------------------

  /** The element test of the list comprehension in `mkdirs`: not empty and
      without a dot (a directory name with a dot is dropped as well). */
  predicate Kept(e: string) {
    e != "" && '.' !in e
  }

  /** `[e for e in pieces if e != "" and "." not in e]` */
  function Filter(pieces: seq<string>): (r: seq<string>)
    ensures |r| <= |pieces|
    ensures forall i | 0 <= i < |r| :: Kept(r[i])
    ensures forall e :: e in r <==> e in pieces && Kept(e)
    decreases |pieces|
  {
    if pieces == [] then []
    else
      var rest := Filter(pieces[1..]);
      assert forall e :: e in pieces <==> e == pieces[0] || e in pieces[1..];
      if Kept(pieces[0]) then [pieces[0]] + rest else rest
  }

  /** The directory names `mkdirs(file)` walks through. */
  function Components(file: string): (parts: seq<string>)
    ensures forall i | 0 <= i < |parts| :: Kept(parts[i]) && '/' !in parts[i]
    ensures forall e :: e in parts <==> e in Split(file, '/') && Kept(e)
  {
    var pieces := Split(file, '/');
    var parts := Filter(pieces);
    assert forall i | 0 <= i < |parts| :: parts[i] in pieces;
    parts
  }

  /** The absolute path `"/" + parts[0] + "/" + parts[1] + ...`. */
  function Joined(parts: seq<string>): (path: string)
    ensures path == "" <==> parts == []
    ensures path != "" ==> path[0] == '/'
    decreases |parts|
  {
    if parts == [] then "" else "/" + parts[0] + Joined(parts[1..])
  }

  lemma {:induction false} JoinedSnoc(parts: seq<string>, i: nat)
    requires i < |parts|
    ensures Joined(parts[..i + 1]) == Joined(parts[..i]) + ("/" + parts[i])
    decreases i
  {
    if i == 0 {
      assert parts[..1][1..] == [];
    } else {
      JoinedSnoc(parts[1..], i - 1);
      assert parts[..i + 1][1..] == parts[1..][..i];
      assert parts[..i][1..] == parts[1..][..i - 1];
    }
  }

  /** The `(parent, new_dir)` arguments of the successive `mkdir` calls of
      `mkdirs(file)`, if every one of them succeeds. */
  function MkdirsPlan(file: string): (plan: seq<(string, string)>)
    ensures |plan| == |Components(file)|
    ensures forall i | 0 <= i < |plan| ::
      plan[i].1 == "/" + Components(file)[i] && plan[i].0 == Joined(Components(file)[..i])
  {
    var parts := Components(file);
    seq(|parts|, i requires 0 <= i < |parts| => (Joined(parts[..i]), "/" + parts[i]))
  }

  /** Every `new_dir` of the plan is a slash and a non-empty name without a
      dot or a slash; the first parent is the root `""`; and each parent is
      the previous parent followed by the previous `new_dir`. */
  lemma PlanShape(file: string)
    ensures forall i | 0 <= i < |MkdirsPlan(file)| ::
      var d := MkdirsPlan(file)[i].1;
      |d| >= 2 && d[0] == '/' && Kept(d[1..]) && '/' !in d[1..]
    ensures |MkdirsPlan(file)| > 0 ==> MkdirsPlan(file)[0].0 == ""
    ensures forall i | 0 <= i < |MkdirsPlan(file)| - 1 ::
      MkdirsPlan(file)[i + 1].0 == MkdirsPlan(file)[i].0 + MkdirsPlan(file)[i].1
  {
    var parts, plan := Components(file), MkdirsPlan(file);
    forall i | 0 <= i < |plan|
      ensures var d := plan[i].1; |d| >= 2 && d[0] == '/' && Kept(d[1..]) && '/' !in d[1..]
    {
      assert ("/" + parts[i])[1..] == parts[i];
    }
    forall i | 0 <= i < |plan| - 1
      ensures plan[i + 1].0 == plan[i].0 + plan[i].1
    {
      JoinedSnoc(parts, i);
    }
  }

  /** The parents form a strictly growing chain of prefixes: an earlier
      parent is a proper prefix of every later one. */
  lemma {:induction false} PlanParentsGrow(file: string, i: nat, j: nat)
    requires i < j < |MkdirsPlan(file)|
    ensures MkdirsPlan(file)[i].0 < MkdirsPlan(file)[j].0
    decreases j - i
  {
    var plan := MkdirsPlan(file);
    PlanShape(file);
    assert plan[j].0 == plan[j - 1].0 + plan[j - 1].1;
    if i < j - 1 {
      PlanParentsGrow(file, i, j - 1);
    }
  }

  lemma {:induction false} JoinedIsJoin(parts: seq<string>)
    ensures Joined(parts) == Join([""] + parts, '/')
    decreases |parts|
  {
    if parts != [] {
      JoinedIsJoin(parts[1..]);
      assert ([""] + parts)[1..] == parts;
      assert ([""] + parts[1..])[1..] == parts[1..];
      assert parts == [parts[0]] + parts[1..];
      if |parts| > 1 {
        assert ([""] + parts[1..])[0] == "";
        assert Join([parts[0]] + parts[1..], '/') == parts[0] + "/" + Join(parts[1..], '/');
      }
    }
  }

  lemma {:induction false} FilterKeepsAll(pieces: seq<string>)
    requires forall i | 0 <= i < |pieces| :: Kept(pieces[i])
    ensures Filter(pieces) == pieces
    decreases |pieces|
  {
    if pieces != [] {
      FilterKeepsAll(pieces[1..]);
    }
  }

  lemma SplitJoined(parts: seq<string>)
    requires forall i | 0 <= i < |parts| :: '/' !in parts[i]
    ensures Split(Joined(parts), '/') == [""] + parts
  {
    var pieces := [""] + parts;
    forall i | 0 <= i < |pieces|
      ensures '/' !in pieces[i]
    {
      if i > 0 {
        assert pieces[i] == parts[i - 1];
      }
    }
    JoinedIsJoin(parts);
    SplitJoin(pieces, '/');
  }

  /** On an absolute path whose names are all kept, `mkdirs` walks exactly
      those names. */
  lemma ComponentsOfJoined(parts: seq<string>)
    requires forall i | 0 <= i < |parts| :: Kept(parts[i]) && '/' !in parts[i]
    ensures Components(Joined(parts)) == parts
  {
    SplitJoined(parts);
    var pieces := [""] + parts;
    assert pieces[1..] == parts;
    assert Filter(pieces) == Filter(parts);
    FilterKeepsAll(parts);
  }

  /** The last `mkdir` call of the plan is given the whole chain. */
  lemma PlanEnd(file: string)
    requires Components(file) != []
    ensures var plan := MkdirsPlan(file);
      plan[|plan| - 1].0 + plan[|plan| - 1].1 == Joined(Components(file))
  {
    var parts := Components(file);
    var n := |parts|;
    JoinedSnoc(parts, n - 1);
    assert parts[..n] == parts;
  }

  /** ... and its last `mkdir` call is given the path itself: so
      `mkdirs(dst)` on a target without a dot also creates the target. */
  lemma MkdirsReachesPath(parts: seq<string>)
    requires parts != []
    requires forall i | 0 <= i < |parts| :: Kept(parts[i]) && '/' !in parts[i]
    ensures var plan := MkdirsPlan(Joined(parts));
      |plan| == |parts| && plan[|plan| - 1].0 + plan[|plan| - 1].1 == Joined(parts)
  {
    var file := Joined(parts);
    ComponentsOfJoined(parts);
    assert Components(file) == parts;
    PlanEnd(file);
    assert |MkdirsPlan(file)| == |parts|;
  }

  /** The dot filter as written: a directory whose name holds a dot is
      dropped from the chain, so `mkdirs("/" + dir + "/" + name)` walks
      `name` alone, right under the root. */
  lemma DottedDirectoryDropped(dir: string, name: string)
    requires '.' in dir && '/' !in dir
    requires Kept(name) && '/' !in name
    ensures Components("/" + dir + "/" + name) == [name]
  {
    assert Join([dir, name], '/') == dir + ['/'] + name;
    assert Join(["", dir, name], '/') == "" + ['/'] + (dir + ['/'] + name);
    assert "" + ['/'] + (dir + ['/'] + name) == "/" + dir + "/" + name;
    ComponentsOf(["", dir, name], "/" + dir + "/" + name);
    assert ["", dir, name] == [""] + [dir] + [name];
    FilterConcat([""] + [dir], [name]);
    FilterConcat([""], [dir]);
    assert Filter([name]) == [name] && Filter([dir]) == [] && Filter([""]) == [];
  }

  /** For instance, a dated directory "2015.10.12 Eng" is skipped. */
  lemma DatedDirectoryDropped()
    ensures Components("/2015.10.12 Eng/raw") == ["raw"]
  {
    var dated, raw := "2015.10.12 Eng", "raw";
    assert Kept(raw) by { assert raw == ['r', 'a', 'w']; }
    assert dated[4] == '.';
    DottedDirectoryDropped(dated, raw);
    DatedPath();
  }

  lemma DatedPath()
    ensures "/" + "2015.10.12 Eng" + "/" + "raw" == "/2015.10.12 Eng/raw"
  {
  }

  /** The root and a bare file name leave nothing to create. */
  lemma NothingToCreate()
    ensures Components("/") == []
    ensures Components("/foo.txt") == []
  {
    assert Components("/") == [] by {
      assert Join(["", ""], '/') == "/";
      ComponentsOf(["", ""], "/");
      assert ["", ""][1..] == [""] && [""][1..] == [];
    }
    assert Components("/foo.txt") == [] by {
      var name := "foo.txt";
      assert !Kept(name) by { assert name[3] == '.'; }
      assert Join(["", name], '/') == "/foo.txt";
      ComponentsOf(["", name], "/foo.txt");
      assert ["", name][1..] == [name] && [name][1..] == [];
    }
  }

  /** The comprehension keeps the order of the elements it keeps, and
      their repeats: filtering a concatenation filters each part. */
  lemma {:induction false} FilterConcat(a: seq<string>, b: seq<string>)
    ensures Filter(a + b) == Filter(a) + Filter(b)
    decreases |a|
  {
    if a == [] {
      assert a + b == b;
    } else {
      var ab := a + b;
      FilterConcat(a[1..], b);
      assert ab[0] == a[0] && ab[1..] == a[1..] + b;
      var fa, fb := Filter(a[1..]), Filter(b);
      if Kept(a[0]) {
        assert Filter(ab) == [a[0]] + (fa + fb);
        assert Filter(a) == [a[0]] + fa;
        Associative([a[0]], fa, fb);
      } else {
        assert Filter(ab) == fa + fb;
        assert Filter(a) == fa;
      }
    }
  }

  /** The names `mkdirs` walks for `a + "/" + b` are those of `a` followed by
      those of `b`, in order and with repeats. */
  lemma ComponentsConcat(a: string, b: string)
    ensures Components(a + "/" + b) == Components(a) + Components(b)
  {
    assert a + "/" + b == a + ['/'] + b;
    SplitConcat(a, b, '/');
    FilterConcat(Split(a, '/'), Split(b, '/'));
  }

  /** For instance, `mkdirs("/a/a")` walks `a` twice, root first. */
  lemma RepeatedNameWalkedTwice()
    ensures Components("/a/a") == ["a", "a"]
  {
    assert Kept("a") by { assert "a" == ['a']; }
    ComponentsOfJoined(["a", "a"]);
    assert Joined(["a", "a"]) == "/a" + Joined(["a"]);
    assert Joined(["a"]) == "/a" + Joined([]);
    TwoNamesPath();
  }

  lemma TwoNamesPath()
    ensures "/a" + ("/a" + "") == "/a/a"
  {
  }

  /** `Components(file)` from the pieces `file` is joined from. */
  lemma ComponentsOf(pieces: seq<string>, file: string)
    requires |pieces| >= 1 && Join(pieces, '/') == file
    requires forall i | 0 <= i < |pieces| :: '/' !in pieces[i]
    ensures Components(file) == Filter(pieces)
  {
    SplitJoin(pieces, '/');
  }

  // ---------------------------------------------------------------------
  // mkdir
  // ---------------------------------------------------------------------

  /** The creation request succeeded: status 201 and an `id` in the body. */
  predicate Created(r: Response) {
    r.status == 201 && r.body.id.Some?
  }

  /** `mkdir(parent, new_dir)`: GET the target; if it is a folder, done.
      Otherwise GET the parent for its id (a missing id raises KeyError) and
      POST a folder named `new_dir` without slashes under it. */
  function MkdirRun(s: Server, h: seq<Request>, parent: string, newDir: string): (run: Run<bool>)
    ensures 1 <= |run.issued| <= 3 && run.issued[0] == GetItem(parent + newDir)
    ensures s(h, GetItem(parent + newDir)).body.folder ==> run == Run([GetItem(parent + newDir)], Ok(true))
    ensures !s(h, GetItem(parent + newDir)).body.folder ==> |run.issued| >= 2 && run.issued[1] == GetItem(parent)
    ensures forall i | 0 <= i < |run.issued| :: run.issued[i].GetItem? || run.issued[i].CreateChild?
    ensures forall i | 0 <= i < |run.issued| :: run.issued[i].CreateChild? ==>
      i == 2 && run.issued[i].name == Remove(newDir, '/')
    ensures run.result == Ok(true) <==>
      s(h, GetItem(parent + newDir)).body.folder ||
      (|run.issued| == 3 && Created(s(h + run.issued[..2], run.issued[2])))
    ensures run.result.Raised? <==>
      !s(h, GetItem(parent + newDir)).body.folder && s(h + [GetItem(parent + newDir)], GetItem(parent)).body.id.None?
    ensures run.result.Raised? ==> run.result == Raised(KeyError("id")) && |run.issued| == 2
    ensures var parentMeta := s(h + [GetItem(parent + newDir)], GetItem(parent)).body;
      !s(h, GetItem(parent + newDir)).body.folder && parentMeta.id.Some? ==>
        |run.issued| == 3 && run.issued[2] == CreateChild(parentMeta.id.value, Remove(newDir, '/'))
  {
    var target := GetItem(parent + newDir);
    if s(h, target).body.folder then Run([target], Ok(true))
    else
      var parentMeta := s(h + [target], GetItem(parent)).body;
      match parentMeta.id
      case None => Run([target, GetItem(parent)], Raised(KeyError("id")))
      case Some(id) =>
        var create := CreateChild(id, Remove(newDir, '/'));
        var issued := [target, GetItem(parent), create];
        assert issued[..2] == [target, GetItem(parent)];
        Run(issued, Ok(Created(s(h + [target, GetItem(parent)], create))))
  }

  // ---------------------------------------------------------------------
  // mkdirs
  // ---------------------------------------------------------------------

  /** The runs of the `mkdir` calls of the loop of `mkdirs`, from parent
      `path` over the names `parts`, up to and including the first one that
      does not return True: every run but the last returned True, and the
      loop stopped early only after a call that did not. */
  function Attempts(s: Server, h: seq<Request>, path: string, parts: seq<string>): (a: seq<Run<bool>>)
    ensures |a| <= |parts|
    ensures parts != [] ==> a != []
    ensures forall i | 0 <= i < |a| - 1 :: a[i].result == Ok(true)
    ensures 0 < |a| < |parts| ==> a[|a| - 1].result != Ok(true)
    decreases |parts|
  {
    if parts == [] then []
    else
      var m := MkdirRun(s, h, path, "/" + parts[0]);
      if m.result != Ok(true) then [m]
      else [m] + Attempts(s, h + m.issued, path + ("/" + parts[0]), parts[1..])
  }

  lemma HistoryConsPrefix(h: seq<Request>, m: Run<bool>, rest: seq<Run<bool>>, i: nat)
    requires 0 < i <= |rest| + 1
    ensures h + Issued(([m] + rest)[..i]) == (h + m.issued) + Issued(rest[..i - 1])
  {
    assert ([m] + rest)[..i] == [m] + rest[..i - 1];
    assert ([m] + rest[..i - 1])[1..] == rest[..i - 1];
  }

  lemma PathConsPrefix(path: string, parts: seq<string>, i: nat)
    requires 0 < i <= |parts|
    ensures path + Joined(parts[..i]) == path + ("/" + parts[0]) + Joined(parts[1..][..i - 1])
  {
    assert parts[..i][1..] == parts[1..][..i - 1];
  }

  /** The i-th `mkdir` call of the loop gets parent `path` followed by the
      names before the i-th, and new_dir `"/" + parts[i]`, and it is sent
      after the requests of all earlier calls. */
  lemma {:induction false} AttemptsAt(s: Server, h: seq<Request>, path: string, parts: seq<string>, i: nat)
    requires i < |Attempts(s, h, path, parts)|
    ensures var a := Attempts(s, h, path, parts);
      a[i] == MkdirRun(s, h + Issued(a[..i]), path + Joined(parts[..i]), "/" + parts[i])
    decreases i
  {
    var a := Attempts(s, h, path, parts);
    if i == 0 {
      assert a[..0] == [] && parts[..0] == [];
      assert h + Issued(a[..0]) == h && path + Joined(parts[..0]) == path;
    } else {
      var m := MkdirRun(s, h, path, "/" + parts[0]);
      var h2, p2 := h + m.issued, path + ("/" + parts[0]);
      var rest := Attempts(s, h2, p2, parts[1..]);
      assert a == [m] + rest;
      AttemptsAt(s, h2, p2, parts[1..], i - 1);
      HistoryConsPrefix(h, m, rest, i);
      PathConsPrefix(path, parts, i);
      assert a[i] == rest[i - 1] && parts[i] == parts[1..][i - 1];
    }
  }

  /** The state of the loop of `mkdirs(file)` before its i-th turn, with
      history `h0` at the start: the `mkdir` runs `done` so far all
      returned True, their requests are all that was sent since `h0`, and
      the remaining attempts from `path` complete them. */
  ghost predicate MkdirsLoop(s: Server, h0: seq<Request>, parts: seq<string>,
                             done: seq<Run<bool>>, h: seq<Request>, path: string, i: nat)
  {
    && i <= |parts|
    && h == h0 + Issued(done)
    && Attempts(s, h0, "", parts) == done + Attempts(s, h, path, parts[i..])
    && (done != [] ==> done[|done| - 1].result == Ok(true))
  }

  /** One turn of the loop of `mkdirs`: after the `mkdir` run `m` of the
      i-th name, the loop either returns what `mkdirs` returns, or goes on
      from the next name with `m` added to the runs behind it. */
  lemma AttemptsStep(s: Server, h0: seq<Request>, parts: seq<string>,
                     done: seq<Run<bool>>, h: seq<Request>, path: string, i: nat, m: Run<bool>)
    requires MkdirsLoop(s, h0, parts, done, h, path, i) && i < |parts|
    requires m == MkdirRun(s, h, path, "/" + parts[i])
    ensures m.result != Ok(true) ==>
      h + m.issued == h0 + Issued(Attempts(s, h0, "", parts)) &&
      Attempts(s, h0, "", parts) == done + [m]
    ensures m.result == Ok(true) ==>
      MkdirsLoop(s, h0, parts, done + [m], h + m.issued, path + ("/" + parts[i]), i + 1)
  {
    IssuedAppend(done, m);
    Associative(h0, Issued(done), m.issued);
    assert parts[i..][0] == parts[i] && parts[i..][1..] == parts[i + 1..];
    if m.result == Ok(true) {
      var rest := Attempts(s, h + m.issued, path + ("/" + parts[i]), parts[i + 1..]);
      assert Attempts(s, h, path, parts[i..]) == [m] + rest;
      Associative(done, [m], rest);
    }
  }

  /** The loop of `mkdirs(file)` ends after its last turn with the requests
      and the result of `mkdirs`. */
  lemma AttemptsDone(s: Server, h0: seq<Request>, file: string, done: seq<Run<bool>>, h: seq<Request>, path: string)
    requires MkdirsLoop(s, h0, Components(file), done, h, path, |Components(file)|)
    ensures h == h0 + MkdirsRun(s, h0, file).issued && MkdirsRun(s, h0, file).result == Ok(true)
  {
    var parts := Components(file);
    assert parts[|parts|..] == [];
    assert Attempts(s, h0, "", parts) == done;
  }

  /** ... and after a turn that did not return True, with those of the
      turn. */
  lemma AttemptsStopped(s: Server, h0: seq<Request>, file: string, done: seq<Run<bool>>, m: Run<bool>)
    requires Attempts(s, h0, "", Components(file)) == done + [m]
    ensures MkdirsRun(s, h0, file).issued == Issued(done + [m])
    ensures m.result != Ok(true) ==> MkdirsRun(s, h0, file).result == m.result
  {
  }

  /** `mkdirs(file)`: the requests of all `mkdir` calls made, and True when
      no call was needed, otherwise what the last call made returned. */
  function MkdirsRun(s: Server, h: seq<Request>, file: string): (run: Run<bool>)
    ensures Components(file) == [] ==> run == Run([], Ok(true))
    ensures var a := Attempts(s, h, "", Components(file));
      && run.issued == Issued(a)
      && (run.result == Ok(true) <==>
           |a| == |Components(file)| && forall i | 0 <= i < |a| :: a[i].result == Ok(true))
      && (run.result != Ok(true) ==> |a| > 0 && run.result == a[|a| - 1].result)
  {
    var parts := Components(file);
    var a := Attempts(s, h, "", parts);
    if a == [] then
      assert parts == [];
      Run([], Ok(true))
    else
      var last := a[|a| - 1].result;
      assert last == Ok(true) ==> |a| == |parts|;
      assert forall i | 0 <= i < |a| - 1 :: a[i].result == Ok(true);
      Run(Issued(a), last)
  }

  /** The i-th `mkdir` call of `mkdirs(file)` is made with the i-th
      arguments of the plan. */
  lemma MkdirsCall(s: Server, h: seq<Request>, file: string, i: nat)
    requires i < |Attempts(s, h, "", Components(file))|
    ensures var a := Attempts(s, h, "", Components(file));
      i < |MkdirsPlan(file)| &&
      a[i] == MkdirRun(s, h + Issued(a[..i]), MkdirsPlan(file)[i].0, MkdirsPlan(file)[i].1)
  {
    AttemptsAt(s, h, "", Components(file), i);
    assert "" + Joined(Components(file)[..i]) == Joined(Components(file)[..i]);
  }

  /** Requests of `mkdirs`: only GETs and folder creations, each creation
      naming one of `names`. */
  predicate FolderRequests(q: seq<Request>, names: seq<string>) {
    forall i | 0 <= i < |q| :: (q[i].GetItem? || q[i].CreateChild?) && (q[i].CreateChild? ==> q[i].name in names)
  }

  lemma {:induction false} AttemptsIssue(s: Server, h: seq<Request>, path: string, parts: seq<string>)
    requires forall i | 0 <= i < |parts| :: '/' !in parts[i]
    ensures FolderRequests(Issued(Attempts(s, h, path, parts)), parts)
    decreases |parts|
  {
    if parts != [] {
      var m := MkdirRun(s, h, path, "/" + parts[0]);
      assert Remove("/" + parts[0], '/') == parts[0] by {
        assert ("/" + parts[0])[1..] == parts[0];
      }
      assert FolderRequests(m.issued, parts);
      var a := Attempts(s, h, path, parts);
      if m.result == Ok(true) {
        var rest := Attempts(s, h + m.issued, path + ("/" + parts[0]), parts[1..]);
        AttemptsIssue(s, h + m.issued, path + ("/" + parts[0]), parts[1..]);
        assert a == [m] + rest && a[1..] == rest;
        assert Issued(a) == m.issued + Issued(rest);
        var q := Issued(a);
        forall i | 0 <= i < |q|
          ensures (q[i].GetItem? || q[i].CreateChild?) && (q[i].CreateChild? ==> q[i].name in parts)
        {
          if i >= |m.issued| {
            assert q[i] == Issued(rest)[i - |m.issued|];
            if q[i].CreateChild? {
              assert q[i].name in parts[1..];
            }
          }
        }
      } else {
        assert a == [m];
        assert Issued(a) == m.issued + Issued([]);
      }
    }
  }

  /** `mkdirs` only reads and creates folders, and every folder it asks to
      create is named after a component of the path. */
  lemma MkdirsIssue(s: Server, h: seq<Request>, file: string)
    ensures FolderRequests(MkdirsRun(s, h, file).issued, Components(file))
  {
    AttemptsIssue(s, h, "", Components(file));
  }

  // ---------------------------------------------------------------------
  // copy
  // ---------------------------------------------------------------------

  /** What `copy` makes of an existing target. */
  datatype Conflict =
    | NoTarget   // the target has no `id`: nothing is there
    | SameFile   // a file with the source's sha1 is there: nothing to do
    | Replace    // a non-file, or a file with another sha1: delete it first

  /** The conflict test of `copy`: compare the target's `id` and `file`, then
      the two sha1 hashes (source first, each lookup may raise). */
  function Resolve(dst: Meta, src: Meta): (c: Outcome<Conflict>)
    ensures c == Ok(NoTarget) <==> dst.id.None?
    ensures c == Ok(SameFile) <==>
      dst.id.Some? && IsFile(dst) && IndexSha1(src).Ok? && IndexSha1(dst) == IndexSha1(src)
    ensures c == Ok(Replace) <==>
      dst.id.Some? &&
      (!IsFile(dst) || (IndexSha1(src).Ok? && IndexSha1(dst).Ok? && IndexSha1(dst) != IndexSha1(src)))
    ensures c.Raised? <==>
      dst.id.Some? && IsFile(dst) && (IndexSha1(src).Raised? || IndexSha1(dst).Raised?)
    ensures c.Raised? ==>
      c.exc == (if IndexSha1(src).Raised? then IndexSha1(src).exc else IndexSha1(dst).exc)
  {
    if dst.id.None? then Ok(NoTarget)
    else if !IsFile(dst) then Ok(Replace)
    else
      match IndexSha1(src)
      case Raised(e) => Raised(e)
      case Ok(srcSha) =>
        match IndexSha1(dst)
        case Raised(e) => Raised(e)
        case Ok(dstSha) => if srcSha == dstSha then Ok(SameFile) else Ok(Replace)
  }

  /** The result of the copy POST: the `Location` header iff status 202
      (reading a missing header raises KeyError), otherwise None. */
  function CopyOutcome(r: Response): (o: Outcome<Option<string>>)
    ensures o == Ok(None) <==> r.status != 202
    ensures o.Ok? && o.value.Some? <==> r.status == 202 && r.location.Some?
    ensures o.Ok? && o.value.Some? ==> o.value == r.location
    ensures o.Raised? ==> o == Raised(KeyError("Location"))
  {
    if r.status != 202 then Ok(None)
    else
      match r.location
      case None => Raised(KeyError("Location"))
      case Some(url) => Ok(Some(url))
  }

  /** The copy request for `dst`: its parent reference is
      `"/drive/root:" + head` and its name the tail of `os.path.split(dst)`. */
  function CopyRequest(src: string, dst: string): (q: Request)
    ensures q.CopyTo? && q.src == src && '/' !in q.name
    ensures q.parentPath == "/drive/root:" + PathSplit(dst).0 && q.name == PathSplit(dst).1
  {
    var ht := PathSplit(dst);
    CopyTo(src, "/drive/root:" + ht.0, ht.1)
  }

  /** The conflict `copy(src, dst)` finds, from the replies to its two GETs
      (target first, then source). */
  function CopyConflict(s: Server, h: seq<Request>, src: string, dst: string): Outcome<Conflict> {
    Resolve(s(h, GetItem(dst)).body, s(h + [GetItem(dst)], GetItem(src)).body)
  }

  /** The requests `copy` has sent once the conflict is dealt with: the two
      GETs, and the DELETE of a target that has to be replaced. */
  function Cleared(conflict: Conflict, src: string, dst: string): (q: seq<Request>)
    ensures |q| == if conflict == Replace then 3 else 2
    ensures q[..2] == [GetItem(dst), GetItem(src)]
    ensures conflict == Replace ==> q[2] == DeleteItem(dst)
  {
    [GetItem(dst), GetItem(src)] + (if conflict == Replace then [DeleteItem(dst)] else [])
  }

  /** What ensuring the parents of `dst` does after `cleared`: `mkdirs(dst)`
      for `copy`, nothing for `onedrive_copy`. */
  function Parents(s: Server, h: seq<Request>, dst: string, ensureParents: bool): Run<bool> {
    if ensureParents then MkdirsRun(s, h, dst) else Run([], Ok(true))
  }

  /** `copy` (with `ensureParents`) and `onedrive_copy` (without): GET the
      target and the source, resolve the conflict, delete a conflicting
      target (its result is ignored), possibly `mkdirs(dst)` (its result is
      ignored, its exceptions are not), then POST the copy. */
  function CopyRun(s: Server, h: seq<Request>, src: string, dst: string, ensureParents: bool): (run: Run<Option<string>>)
    ensures |run.issued| >= 2 && run.issued[..2] == [GetItem(dst), GetItem(src)]
  {
    var probe := [GetItem(dst), GetItem(src)];
    match CopyConflict(s, h, src, dst)
    case Raised(e) => Run(probe, Raised(e))
    case Ok(SameFile) => Run(probe, Ok(Some(dst)))
    case Ok(conflict) =>
      var cleared := Cleared(conflict, src, dst);
      var parents := Parents(s, h + cleared, dst, ensureParents);
      if parents.result.Raised? then
        Run(cleared + parents.issued, Raised(parents.result.exc))
      else
        var q := CopyRequest(src, dst);
        Run(cleared + parents.issued + [q], CopyOutcome(s(h + cleared + parents.issued, q)))
  }

  /** `copy` stops after its two GETs when the target already holds the
      source's content or a hash lookup raised. */
  lemma CopyProbes(s: Server, h: seq<Request>, src: string, dst: string, ensureParents: bool)
    ensures CopyConflict(s, h, src, dst) == Ok(SameFile) ==>
      CopyRun(s, h, src, dst, ensureParents) == Run([GetItem(dst), GetItem(src)], Ok(Some(dst)))
    ensures CopyConflict(s, h, src, dst).Raised? ==>
      CopyRun(s, h, src, dst, ensureParents) == Run([GetItem(dst), GetItem(src)], Raised(CopyConflict(s, h, src, dst).exc))
  {
    var c := CopyConflict(s, h, src, dst);
    if c.Ok? && c != Ok(SameFile) {
      var cleared := Cleared(c.value, src, dst);
      var parents := Parents(s, h + cleared, dst, ensureParents);
      var run := CopyRun(s, h, src, dst, ensureParents);
      assert run.issued[..2] == cleared[..2];
    }
  }

  /** The requests of `copy` past the probes: the cleared prefix, the
      requests of ensuring the parents, then possibly the POST. */
  lemma CopyLayout(s: Server, h: seq<Request>, src: string, dst: string, ensureParents: bool)
    requires CopyConflict(s, h, src, dst).Ok? && CopyConflict(s, h, src, dst) != Ok(SameFile)
    ensures var cleared := Cleared(CopyConflict(s, h, src, dst).value, src, dst);
      var parents := Parents(s, h + cleared, dst, ensureParents);
      var run := CopyRun(s, h, src, dst, ensureParents);
      if parents.result.Raised? then
        run == Run(cleared + parents.issued, Raised(parents.result.exc))
      else
        run.issued == cleared + parents.issued + [CopyRequest(src, dst)] &&
        run.result == CopyOutcome(s(h + cleared + parents.issued, CopyRequest(src, dst)))
  {
  }

  /** The requests of ensuring the parents only read and create folders. */
  lemma ParentsIssue(s: Server, h: seq<Request>, dst: string, ensureParents: bool)
    ensures var q := Parents(s, h, dst, ensureParents).issued;
      forall i | 0 <= i < |q| :: q[i].GetItem? || q[i].CreateChild?
    ensures !ensureParents ==> Parents(s, h, dst, ensureParents).issued == []
  {
    if ensureParents {
      MkdirsIssue(s, h, dst);
    }
  }

  /** Without ensuring the parents, the POST follows the cleared requests. */
  lemma CopyLayoutWithoutParents(s: Server, h: seq<Request>, src: string, dst: string)
    requires CopyConflict(s, h, src, dst).Ok? && CopyConflict(s, h, src, dst) != Ok(SameFile)
    ensures var cleared := Cleared(CopyConflict(s, h, src, dst).value, src, dst);
      CopyRun(s, h, src, dst, false) ==
        Run(cleared + [CopyRequest(src, dst)], CopyOutcome(s(h + cleared, CopyRequest(src, dst))))
  {
    var cleared := Cleared(CopyConflict(s, h, src, dst).value, src, dst);
    CopyLayout(s, h, src, dst, false);
    assert Parents(s, h + cleared, dst, false) == Run([], Ok(true));
    assert h + cleared + [] == h + cleared && cleared + [] == cleared;
  }

  /** Where a DELETE and a copy POST can sit in the cleared requests
      followed by requests that only read and create folders and then by
      copy POSTs. */
  lemma PlacesInLayout(conflict: Conflict, src: string, dst: string, mid: seq<Request>, tail: seq<Request>)
    requires forall i | 0 <= i < |mid| :: mid[i].GetItem? || mid[i].CreateChild?
    requires forall i | 0 <= i < |tail| :: tail[i].CopyTo?
    ensures var cleared := Cleared(conflict, src, dst);
      var q := cleared + mid + tail;
      forall i | 0 <= i < |q| ::
        && (q[i].DeleteItem? ==> i == 2 && q[i] == DeleteItem(dst) && conflict == Replace)
        && (q[i].CopyTo? ==> i >= |cleared| + |mid|)
  {
    var cleared := Cleared(conflict, src, dst);
    var q := cleared + mid + tail;
    forall i | 0 <= i < |q|
      ensures q[i].DeleteItem? ==> i == 2 && q[i] == DeleteItem(dst) && conflict == Replace
      ensures q[i].CopyTo? ==> i >= |cleared| + |mid|
    {
      if i < |cleared| {
        assert q[i] == cleared[i];
        if i < 2 {
          assert cleared[i] == cleared[..2][i];
        }
      } else if i < |cleared| + |mid| {
        assert q[i] == mid[i - |cleared|];
      } else {
        assert q[i] == tail[i - |cleared| - |mid|];
      }
    }
  }

  /** A DELETE, if `copy` sends one, is the third request, is of `dst`, and
      is sent only when the target has to be replaced. */
  lemma CopyDeletes(s: Server, h: seq<Request>, src: string, dst: string, ensureParents: bool)
    ensures var run := CopyRun(s, h, src, dst, ensureParents);
      forall i | 0 <= i < |run.issued| :: run.issued[i].DeleteItem? ==>
        i == 2 && run.issued[i] == DeleteItem(dst) && CopyConflict(s, h, src, dst) == Ok(Replace)
  {
    var c := CopyConflict(s, h, src, dst);
    if c.Ok? && c != Ok(SameFile) {
      var cleared := Cleared(c.value, src, dst);
      var parents := Parents(s, h + cleared, dst, ensureParents);
      CopyLayout(s, h, src, dst, ensureParents);
      ParentsIssue(s, h + cleared, dst, ensureParents);
      var tail := if parents.result.Raised? then [] else [CopyRequest(src, dst)];
      PlacesInLayout(c.value, src, dst, parents.issued, tail);
      assert CopyRun(s, h, src, dst, ensureParents).issued == cleared + parents.issued + tail;
    } else {
      CopyProbes(s, h, src, dst, ensureParents);
    }
  }

  /** ... and a target that has to be replaced is deleted: the DELETE of
      `dst` is the third request. */
  lemma CopyReplaceDeletes(s: Server, h: seq<Request>, src: string, dst: string, ensureParents: bool)
    requires CopyConflict(s, h, src, dst) == Ok(Replace)
    ensures var run := CopyRun(s, h, src, dst, ensureParents);
      |run.issued| >= 3 && run.issued[2] == DeleteItem(dst)
  {
    var cleared := Cleared(Replace, src, dst);
    var parents := Parents(s, h + cleared, dst, ensureParents);
    CopyLayout(s, h, src, dst, ensureParents);
    var run := CopyRun(s, h, src, dst, ensureParents);
    assert run.issued[..3] == cleared by {
      assert run.issued == cleared + (run.issued[|cleared|..]);
    }
    assert run.issued[2] == run.issued[..3][2];
  }

  /** The copy POST, if `copy` sends one, is its last request, is built
      from `os.path.split(dst)`, and its reply decides the result. */
  lemma CopyPostsLast(s: Server, h: seq<Request>, src: string, dst: string, ensureParents: bool)
    ensures var run := CopyRun(s, h, src, dst, ensureParents);
      forall i | 0 <= i < |run.issued| :: run.issued[i].CopyTo? ==>
        i == |run.issued| - 1 && run.issued[i] == CopyRequest(src, dst) &&
        run.result == CopyOutcome(s(h + run.issued[..i], run.issued[i]))
  {
    var run := CopyRun(s, h, src, dst, ensureParents);
    var c := CopyConflict(s, h, src, dst);
    if c.Ok? && c != Ok(SameFile) {
      var cleared := Cleared(c.value, src, dst);
      var parents := Parents(s, h + cleared, dst, ensureParents);
      CopyLayout(s, h, src, dst, ensureParents);
      ParentsIssue(s, h + cleared, dst, ensureParents);
      var tail := if parents.result.Raised? then [] else [CopyRequest(src, dst)];
      PlacesInLayout(c.value, src, dst, parents.issued, tail);
      assert run.issued == cleared + parents.issued + tail;
      if tail != [] {
        var n := |run.issued| - 1;
        assert run.issued[n] == CopyRequest(src, dst);
        assert run.issued[..n] == cleared + parents.issued;
        Associative(h, cleared, parents.issued);
      }
    } else {
      CopyProbes(s, h, src, dst, ensureParents);
    }
  }

  /** `onedrive_copy` never creates a folder. */
  lemma CopyWithoutParentsCreatesNothing(s: Server, h: seq<Request>, src: string, dst: string)
    ensures var run := CopyRun(s, h, src, dst, false);
      forall i | 0 <= i < |run.issued| :: !run.issued[i].CreateChild?
  {
    var run := CopyRun(s, h, src, dst, false);
    var c := CopyConflict(s, h, src, dst);
    if c.Ok? && c != Ok(SameFile) {
      var cleared := Cleared(c.value, src, dst);
      CopyLayout(s, h, src, dst, false);
      assert Parents(s, h + cleared, dst, false).issued == [];
      forall i | 0 <= i < |run.issued|
        ensures !run.issued[i].CreateChild?
      {
        if i < |cleared| {
          assert run.issued[i] == cleared[i];
          if i < 2 {
            assert cleared[i] == cleared[..2][i];
          }
        } else {
          assert run.issued[i] == CopyRequest(src, dst);
        }
      }
    } else {
      CopyProbes(s, h, src, dst, false);
    }
  }

  /** The result of `mkdirs(dst)` inside `copy` is ignored: unless the
      target is already there with the same hash or a lookup raised, the
      copy is requested whenever `mkdirs` returns, whether True or False. */
  lemma CopyIgnoresMkdirsResult(s: Server, h: seq<Request>, src: string, dst: string)
    requires CopyConflict(s, h, src, dst).Ok? && CopyConflict(s, h, src, dst) != Ok(SameFile)
    requires MkdirsRun(s, h + Cleared(CopyConflict(s, h, src, dst).value, src, dst), dst).result.Ok?
    ensures var run := CopyRun(s, h, src, dst, true);
      run.issued[|run.issued| - 1] == CopyRequest(src, dst)
  {
    CopyLayout(s, h, src, dst, true);
  }
}
