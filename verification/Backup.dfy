/** The backup stage: what is copied where, and what its report says when it stops. */
module Backup {
  import opened Wrappers
  import opened Text
  import opened Paths

  datatype Status = BackedUp | Absent | Failed | NotRun

  datatype Entry = Entry(path: string, status: Status, destination: Option<string>)

  /** What one copy finds: nothing there, a copy made, or an error. */
  datatype Copied = NothingThere | CopyMade | CopyError

  function Done(path: string, runDir: string, c: Copied): Entry {
    if c == NothingThere then Entry(path, Absent, None) else Entry(path, BackedUp, Some(runDir + path))
  }

  predicate DistinctPaths(paths: seq<string>) { forall i, j :: 0 <= i < j < |paths| ==> paths[i] != paths[j] }

  /** Every declared path once, in declaration order. */
  predicate ListsPaths(entries: seq<Entry>, paths: seq<string>) {
    |entries| == |paths| && forall i :: 0 <= i < |paths| ==> entries[i].path == paths[i]
  }

  /** The first `k` paths were copied or absent, and nothing was attempted after path `k`. */
  predicate StoppedAt(entries: seq<Entry>, paths: seq<string>, runDir: string, copy: string -> Copied, k: nat)
    requires ListsPaths(entries, paths) && k < |paths|
  {
    && (forall i :: 0 <= i < k ==> copy(paths[i]) != CopyError && entries[i] == Done(paths[i], runDir, copy(paths[i])))
    && copy(paths[k]) == CopyError && entries[k] == Entry(paths[k], Failed, None)
    && forall i :: k < i < |paths| ==> entries[i] == Entry(paths[i], NotRun, None)
  }

  /** The failure report: what was done, then the failed path, then what was not attempted. */
  method Report(paths: seq<string>, done: seq<Entry>, failed: Option<string>) returns (entries: seq<Entry>)
    requires |done| <= |paths|
    ensures |entries| == |paths| && entries[..|done|] == done
    ensures forall i :: |done| <= i < |paths| ==>
      entries[i] == Entry(paths[i], if failed == Some(paths[i]) then Failed else NotRun, None)
  {
    entries := done;
    for i := |done| to |paths|
      invariant |entries| == i && entries[..|done|] == done
      invariant forall j :: |done| <= j < i ==>
        entries[j] == Entry(paths[j], if failed == Some(paths[j]) then Failed else NotRun, None)
    {
      entries := entries + [Entry(paths[i], if failed == Some(paths[i]) then Failed else NotRun, None)];
    }
  }

  /** Check every path against the store, prepare the run directory, then copy path by path.
      The report is complete in every case. */
  method Perform(paths: seq<string>, root: string, runId: string, prepared: bool, copy: string -> Copied)
    returns (r: Result<seq<Entry>, seq<Entry>>)
    requires DistinctPaths(paths)
    ensures ListsPaths(if r.Ok? then r.value else r.error, paths)
    ensures
      var refused := !prepared || exists p :: p in paths && Overlaps(p, root);
      && (r.Ok? <==> !refused && forall p :: p in paths ==> copy(p) != CopyError)
      && (r.Ok? ==> Reported(r.value, paths, root + "/" + runId, copy))
      && (r.Err? && refused ==> forall i :: 0 <= i < |paths| ==> r.error[i] == Entry(paths[i], NotRun, None))
      && (r.Err? && !refused ==>
            exists k :: 0 <= k < |paths| && StoppedAt(r.error, paths, root + "/" + runId, copy, k))
  {
    for i := 0 to |paths|
      invariant forall j :: 0 <= j < i ==> !Overlaps(paths[j], root)
    {
      if Overlaps(paths[i], root) {
        assert paths[i] in paths;
        var entries := Report(paths, [], None);
        return Err(entries);
      }
    }
    assert forall p :: p in paths ==> !Overlaps(p, root);
    if !prepared {
      var entries := Report(paths, [], None);
      return Err(entries);
    }
    var runDir := root + "/" + runId;
    var done := [];
    for i := 0 to |paths|
      invariant |done| == i
      invariant forall j :: 0 <= j < i ==>
        copy(paths[j]) != CopyError && done[j] == Done(paths[j], runDir, copy(paths[j]))
    {
      if copy(paths[i]) == CopyError {
        var entries := Report(paths, done, Some(paths[i]));
        assert forall j :: 0 <= j < i ==> entries[j] == entries[..i][j];
        assert StoppedAt(entries, paths, runDir, copy, i);
        assert paths[i] in paths;
        return Err(entries);
      }
      done := done + [Done(paths[i], runDir, copy(paths[i]))];
    }
    return Ok(done);
  }

  // Where the copies go.

  /** The original path is reproduced below the run directory, component by component. */
  lemma Destination(runDir: string, path: string)
    requires ValidPath(runDir) && ValidPath(path) && runDir != "/" && path != "/"
    ensures ValidPath(runDir + path) && Components(runDir + path) == Components(runDir) + Components(path)
  {
    ValidHead(path);
    ValidHead(runDir);
    var rest := path[1..];
    assert path == ['/'] + rest;
    assert (runDir + path)[1..] == runDir[1..] + ['/'] + rest;
    SplitConcat(runDir[1..], '/', rest);
    assert (runDir + path)[|runDir + path| - 1] == path[|path| - 1];
  }

  /** No two paths share a copy, and copies nest exactly as their originals do. */
  lemma CopiesMirror(runDir: string, a: string, b: string)
    requires ValidPath(runDir) && runDir != "/"
    requires ValidPath(a) && a != "/" && ValidPath(b) && b != "/"
    ensures Components(runDir + a) <= Components(runDir + b) <==> Components(a) <= Components(b)
    ensures runDir + a == runDir + b <==> a == b
  {
    hide Components, ValidPath;
    Destination(runDir, a);
    Destination(runDir, b);
    SamePrefix(Components(runDir), Components(a), Components(b));
    assert (runDir + a)[|runDir|..] == a && (runDir + b)[|runDir|..] == b;
  }

  lemma SamePrefix(p: seq<string>, a: seq<string>, b: seq<string>)
    ensures p + a <= p + b <==> a <= b
  {
    if p + a <= p + b {
      assert (p + b)[..|p + a|] == p + a;
      assert a == (p + a)[|p|..] && b[..|a|] == (p + b)[|p|..|p + a|];
    }
    if a <= b {
      assert p + b == p + a + b[|a|..];
    }
  }

  /** Once the overlap check passed, no copy of any path lands on, in or above a path being backed up. */
  lemma CopiesAreOutside(root: string, runId: string, declared: string, copied: string)
    requires ValidPath(root) && root != "/" && IsComponent(runId)
    requires ValidPath(declared) && declared != "/" && ValidPath(copied) && copied != "/"
    requires !Overlaps(declared, root)
    ensures var to := Components(root + "/" + runId + copied);
      !(Components(declared) <= to) && !(to <= Components(declared))
  {
    hide Components, ValidPath, Overlaps;
    Child(root, runId);
    NotRoot(root, runId);
    Destination(root + "/" + runId, copied);
    OverlapExact(declared, root);
    var r, d := Components(root), Components(declared);
    var to := r + [runId] + Components(copied);
    assert to == r + ([runId] + Components(copied));
    if d <= to || to <= d {
      Comparable(d, r, [runId] + Components(copied));
      assert false;
    }
  }

  lemma NotRoot(root: string, name: string)
    requires ValidPath(root) && IsComponent(name)
    ensures root + "/" + name != "/"
  {
    assert |root + "/" + name| > 1;
  }

  lemma Comparable(d: seq<string>, r: seq<string>, rest: seq<string>)
    requires d <= r + rest || r + rest <= d
    ensures d <= r || r <= d
  {
    if |d| <= |r| {
      assert d == (r + rest)[..|d|] == r[..|d|];
    } else if d <= r + rest {
      assert d[..|r|] == (r + rest)[..|r|] == r;
    } else {
      assert d[..|r|] == d[..|r + rest|][..|r|] == r;
    }
  }

  /** Each declared path with what its copy found, as a run that stopped nowhere reports it. */
  predicate Reported(entries: seq<Entry>, paths: seq<string>, runDir: string, copy: string -> Copied) {
    && ListsPaths(entries, paths)
    && forall i :: 0 <= i < |paths| ==> copy(paths[i]) != CopyError && entries[i] == Done(paths[i], runDir, copy(paths[i]))
  }

  /** What a reported path tells: absent, or where its copy is, the original's place below the run directory. */
  lemma ReportTells(
      entries: seq<Entry>, paths: seq<string>, root: string, runId: string, copy: string -> Copied, i: nat)
    requires Reported(entries, paths, root + "/" + runId, copy) && i < |paths|
    requires ValidPath(root) && root != "/" && IsComponent(runId) && ValidPath(paths[i]) && paths[i] != "/"
    ensures var e := entries[i];
      && e.path == paths[i]
      && (e.status == Absent <==> copy(paths[i]) == NothingThere)
      && (e.status == BackedUp <==> copy(paths[i]) == CopyMade)
      && (e.destination.Some? <==> copy(paths[i]) == CopyMade)
      && (e.destination.Some? ==>
            && ValidPath(e.destination.value)
            && Components(e.destination.value) == Components(root) + [runId] + Components(paths[i]))
  {
    hide Components, ValidPath;
    Child(root, runId);
    NotRoot(root, runId);
    Destination(root + "/" + runId, paths[i]);
  }

  /** No reported copy is another's, and they nest exactly as the reported originals do. */
  lemma ReportMirrors(
      entries: seq<Entry>, paths: seq<string>, root: string, runId: string, copy: string -> Copied, i: nat, j: nat)
    requires Reported(entries, paths, root + "/" + runId, copy) && DistinctPaths(paths)
    requires i < |paths| && j < |paths| && entries[i].destination.Some? && entries[j].destination.Some?
    requires ValidPath(root) && root != "/" && IsComponent(runId)
    requires forall k :: k in {i, j} ==> ValidPath(paths[k]) && paths[k] != "/"
    ensures entries[i].destination == entries[j].destination <==> i == j
    ensures Components(entries[i].destination.value) <= Components(entries[j].destination.value)
      <==> Components(entries[i].path) <= Components(entries[j].path)
  {
    hide Components, ValidPath;
    Child(root, runId);
    NotRoot(root, runId);
    CopiesMirror(root + "/" + runId, paths[i], paths[j]);
  }
}
