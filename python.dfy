/** The pieces of Python's runtime that the drive client relies on: `None`,
    the exceptions a dictionary lookup can raise, and the string functions
    `str.split`, `str.join`, `str.replace`, `str.lower`, `str.rstrip` and
    `os.path.split`, all on strings of characters. */
module Python {

  datatype Option<+T> = None | Some(value: T)

  /** The exceptions the client code can raise without catching them. */
  datatype Exc =
    | KeyError(key: string)   // `d[key]` on a dictionary without `key`
    | TypeError               // `None[key]`
    | AttributeError          // `None.get(key)`

  /** What a Python call ends with: a returned value or a raised exception. */
  datatype Outcome<+T> = Ok(value: T) | Raised(exc: Exc)

  /** Concatenation is associative (stated once, used where the solver
      would otherwise rediscover it in a crowded context). */
  lemma Associative<T>(a: seq<T>, b: seq<T>, c: seq<T>)
    ensures a + (b + c) == a + b + c
  {
  }

  // ---------------------------------------------------------------------
  // str.split and str.join with a one-character separator
  // ---------------------------------------------------------------------

  /** `sep.join(parts)`. */
  function Join(parts: seq<string>, sep: char): string
    requires |parts| >= 1
    decreases |parts|
  {
    if |parts| == 1 then parts[0] else parts[0] + [sep] + Join(parts[1..], sep)
  }

  /** `s.split(sep)`: the pieces between separators, empty pieces included,
      so there is always one more piece than there are separators. */
  function Split(s: string, sep: char): (parts: seq<string>)
    ensures |parts| >= 1
    ensures forall i | 0 <= i < |parts| :: sep !in parts[i]
    decreases |s|
  {
    if s == [] then [""]
    else
      var rest := Split(s[1..], sep);
      if s[0] == sep then [""] + rest
      else
        var parts := [[s[0]] + rest[0]] + rest[1..];
        assert parts[1..] == rest[1..];
        parts
  }

  /** Joining the pieces gives the string back. */
  lemma {:induction false} JoinSplit(s: string, sep: char)
    ensures Join(Split(s, sep), sep) == s
    decreases |s|
  {
    if s != [] {
      JoinSplit(s[1..], sep);
      var rest := Split(s[1..], sep);
      if s[0] == sep {
        assert ([""] + rest)[1..] == rest;
      } else {
        var parts := [[s[0]] + rest[0]] + rest[1..];
        assert parts[1..] == rest[1..];
        if |rest| > 1 {
          assert Join(rest, sep) == rest[0] + [sep] + Join(rest[1..], sep);
        }
      }
    }
  }

  lemma {:induction false} SplitWithoutSeparator(a: string, sep: char)
    requires sep !in a
    ensures Split(a, sep) == [a]
    decreases |a|
  {
    if a != [] {
      SplitWithoutSeparator(a[1..], sep);
      assert [a[0]] + a[1..] == a;
    }
  }

  lemma {:induction false} SplitAfterPiece(a: string, b: string, sep: char)
    requires sep !in a
    ensures Split(a + [sep] + b, sep) == [a] + Split(b, sep)
    decreases |a|
  {
    if a == [] {
      assert a + [sep] + b == [sep] + b;
      assert ([sep] + b)[1..] == b;
    } else {
      var s := a + [sep] + b;
      SplitAfterPiece(a[1..], b, sep);
      assert s[0] == a[0] && s[1..] == a[1..] + [sep] + b;
      assert [a[0]] + a[1..] == a;
    }
  }

  /** A separator splits where it stands: the pieces of `a + sep + b` are
      the pieces of `a` followed by those of `b`, in order. */
  lemma {:induction false} SplitConcat(a: string, b: string, sep: char)
    ensures Split(a + [sep] + b, sep) == Split(a, sep) + Split(b, sep)
    decreases |a|
  {
    var s := a + [sep] + b;
    if a == [] {
      assert s == [sep] + b;
      SplitAtSeparator(s, sep);
      assert s[1..] == b;
    } else {
      SplitConcat(a[1..], b, sep);
      assert s[0] == a[0] && s[1..] == a[1..] + [sep] + b;
      var left, right := Split(a[1..], sep), Split(b, sep);
      if a[0] == sep {
        SplitAtSeparator(s, sep);
        SplitAtSeparator(a, sep);
        Associative([""], left, right);
      } else {
        SplitAtChar(s, sep);
        SplitAtChar(a, sep);
        ConsPiece([a[0]], left, right);
      }
    }
  }

  lemma SplitAtSeparator(s: string, sep: char)
    requires s != [] && s[0] == sep
    ensures Split(s, sep) == [""] + Split(s[1..], sep)
  {
  }

  lemma SplitAtChar(s: string, sep: char)
    requires s != [] && s[0] != sep
    ensures var rest := Split(s[1..], sep);
      Split(s, sep) == [[s[0]] + rest[0]] + rest[1..]
  {
  }

  /** Prefixing the first piece of `left + right`, with `left` non-empty. */
  lemma ConsPiece(c: string, left: seq<string>, right: seq<string>)
    requires |left| >= 1
    ensures var both := left + right;
      [c + both[0]] + both[1..] == ([c + left[0]] + left[1..]) + right
  {
    var both := left + right;
    assert both[0] == left[0] && both[1..] == left[1..] + right;
    Associative([c + left[0]], left[1..], right);
  }

  /** Splitting undoes joining when no piece contains the separator
      (the other direction is `JoinSplit`). */
  lemma {:induction false} SplitJoin(parts: seq<string>, sep: char)
    requires |parts| >= 1
    requires forall i | 0 <= i < |parts| :: sep !in parts[i]
    ensures Split(Join(parts, sep), sep) == parts
    decreases |parts|
  {
    if |parts| == 1 {
      SplitWithoutSeparator(parts[0], sep);
    } else {
      SplitJoin(parts[1..], sep);
      SplitAfterPiece(parts[0], Join(parts[1..], sep), sep);
      assert [parts[0]] + parts[1..] == parts;
    }
  }

  // ---------------------------------------------------------------------
  // str.replace(ch, "")
  // ---------------------------------------------------------------------

  /** `s.replace(ch, "")`: `s` with every occurrence of `ch` deleted. */
  function Remove(s: string, ch: char): (r: string)
    ensures ch !in r
    ensures forall c | c != ch :: multiset(r)[c] == multiset(s)[c]
    ensures ch !in s ==> r == s
    decreases |s|
  {
    if s == [] then []
    else
      assert s == [s[0]] + s[1..];
      (if s[0] == ch then [] else [s[0]]) + Remove(s[1..], ch)
  }

  /** Deleting a character commutes with concatenation, so `Remove` keeps
      the order of the characters it does not delete. */
  lemma {:induction false} RemoveConcat(a: string, b: string, ch: char)
    ensures Remove(a + b, ch) == Remove(a, ch) + Remove(b, ch)
    decreases |a|
  {
    if a != [] {
      RemoveConcat(a[1..], b, ch);
      assert (a + b)[0] == a[0] && (a + b)[1..] == a[1..] + b;
      var head := if a[0] == ch then [] else [a[0]];
      assert Remove(a + b, ch) == head + Remove(a[1..] + b, ch);
      assert Remove(a, ch) == head + Remove(a[1..], ch);
      Associative(head, Remove(a[1..], ch), Remove(b, ch));
    } else {
      assert a + b == b;
    }
  }

  // ---------------------------------------------------------------------
  // str.lower
  // ---------------------------------------------------------------------

  predicate IsUpper(c: char) { 'A' <= c <= 'Z' }

  function LowerChar(c: char): char {
    if IsUpper(c) then (c as int + 32) as char else c
  }

  /** `s.lower()` on the ASCII letters (see README for the rest of Unicode). */
  function Lower(s: string): (r: string)
    ensures |r| == |s|
    ensures forall i | 0 <= i < |s| :: r[i] == LowerChar(s[i])
    ensures forall i | 0 <= i < |r| :: !IsUpper(r[i])
    decreases |s|
  {
    if s == [] then [] else [LowerChar(s[0])] + Lower(s[1..])
  }

  // ---------------------------------------------------------------------
  // os.path.split (posixpath)
  // ---------------------------------------------------------------------

  predicate AllSlashes(s: string) {
    forall k | 0 <= k < |s| :: s[k] == '/'
  }

  /** `s.rstrip(ch)`: `s` without its trailing run of `ch`. */
  function RStrip(s: string, ch: char): (r: string)
    ensures r <= s
    ensures r == [] || r[|r| - 1] != ch
    ensures forall k | |r| <= k < |s| :: s[k] == ch
    decreases |s|
  {
    if s != [] && s[|s| - 1] == ch then RStrip(s[..|s| - 1], ch) else s
  }

  /** `p.rfind('/') + 1`: the index just after the last slash, or 0. */
  function AfterLastSlash(p: string): (i: nat)
    ensures i <= |p|
    ensures '/' !in p[i..]
    ensures i == 0 || p[i - 1] == '/'
    decreases |p|
  {
    if p == [] then 0
    else if p[|p| - 1] == '/' then |p|
    else
      var i := AfterLastSlash(p[..|p| - 1]);
      assert p[i..] == p[..|p| - 1][i..] + [p[|p| - 1]];
      i
  }

  /** `os.path.split(p)` = (head, tail): the tail is the longest suffix of
      `p` without a slash; the head is what precedes it, without its
      trailing slashes unless it consists of slashes only. */
  function PathSplit(p: string): (ht: (string, string))
    ensures '/' !in ht.1
    ensures |ht.0| + |ht.1| <= |p|
    ensures ht.0 == p[..|ht.0|] && ht.1 == p[|p| - |ht.1|..]
    ensures |ht.1| == |p| || p[|p| - |ht.1| - 1] == '/'
    ensures forall k | |ht.0| <= k < |p| - |ht.1| :: p[k] == '/'
    ensures ht.0 == "" || AllSlashes(ht.0) || ht.0[|ht.0| - 1] != '/'
    ensures ht.0 == "" <==> '/' !in p
    ensures '/' !in p ==> ht == ("", p)
    ensures AllSlashes(ht.0) ==> |ht.0| + |ht.1| == |p|
  {
    var i := AfterLastSlash(p);
    var head, tail := p[..i], p[i..];
    assert p == head + tail;
    assert i == 0 || p[i - 1] in p;
    if head != "" && !AllSlashes(head) then
      var stripped := RStrip(head, '/');
      assert stripped != "";
      (stripped, tail)
    else
      (head, tail)
  }
}
