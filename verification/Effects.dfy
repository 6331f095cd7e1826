/** Plan only: what the resources planned so far may change on the target. */
module Effects {
  import opened Wrappers
  import opened Model
  import opened Paths
  import opened Results

  datatype PathChange = PathChange(path: string, id: string)

  const BACKUP_STAGE := "the backup stage"

  datatype Observed = Directory | OtherKind | Absent | Unobservable

  /** A guard that planning a command found satisfied; aliased when an ancestor of its path is a
      link or cannot be inspected. */
  datatype Guard = Guard(path: string, aliased: bool)

  /** The recorded path changes, and the first resource whose changes plan cannot know. */
  datatype Planned = Planned(paths: seq<PathChange>, opaqueId: Option<string>) {
    function Record(res: Resource, r: ResourceResult): Planned {
      if r.change == Unchanged && !r.unknown then this
      else if res.kind in {"file", "directory", "link", "template"} && res.path.Some? then
        this.(paths := paths + [PathChange(res.path.value, res.id)])
      else if res.kind in {"group", "postgresql_role"} then this
      else if opaqueId.None? then this.(opaqueId := Some(res.id))
      else this
    }

    /** The first directory of the backup store's chain that apply will create. */
    function RecordStore(chain: seq<string>, observe: string -> Observed): Planned {
      if chain == [] then this
      else
        match observe(chain[0])
        case Directory => RecordStore(chain[1..], observe)
        case OtherKind => this
        case _ => this.(paths := paths + [PathChange(chain[0], BACKUP_STAGE)])
    }

    function GuardedCommandMayRun(commandId: string, guardPath: string): Planned {
      if Affecting(guardPath).Some? && opaqueId.None? then this.(opaqueId := Some(commandId)) else this
    }

    /** A satisfied guard may flip before apply: something planned reaches its path, or its path
        leads through links and some path change is planned at all. */
    function GuardMayFlip(commandId: string, guard: Guard): Planned {
      var p := GuardedCommandMayRun(commandId, guard.path);
      if p.opaqueId.None? && p.paths != [] && guard.aliased then p.(opaqueId := Some(commandId)) else p
    }

    /** The resource whose change may alter `path` or an ancestor of it. */
    function Affecting(path: string): Option<string> {
      if opaqueId.Some? then opaqueId else FirstChange(paths, path, false)
    }

    /** The same, or anything below `path`. */
    function AffectingSubtree(path: string): Option<string> {
      if Affecting(path).Some? then Affecting(path) else FirstChange(paths, path, true)
    }
  }

  predicate Touches(p: string, path: string, below: bool) {
    if below then path == "/" || BelowText(p, path)
    else p == path || p == "/" || BelowText(path, p)
  }

  predicate FirstTouching(paths: seq<PathChange>, path: string, below: bool, k: nat) {
    && k < |paths| && Touches(paths[k].path, path, below)
    && forall j :: 0 <= j < k ==> !Touches(paths[j].path, path, below)
  }

  function FirstChange(paths: seq<PathChange>, path: string, below: bool): (r: Option<string>)
    ensures r.None? <==> forall c :: c in paths ==> !Touches(c.path, path, below)
    ensures r.Some? ==> exists k :: 0 <= k < |paths| && FirstTouching(paths, path, below, k) && r.value == paths[k].id
  {
    if paths == [] then None
    else if Touches(paths[0].path, path, below) then
      assert FirstTouching(paths, path, below, 0);
      Some(paths[0].id)
    else
      var r := FirstChange(paths[1..], path, below);
      assert r.Some? ==> forall k :: 0 <= k < |paths| - 1 && FirstTouching(paths[1..], path, below, k) ==>
        FirstTouching(paths, path, below, k + 1) && paths[1..][k] == paths[k + 1];
      r
  }

  /** A result after which plan still knows what is at `path` and its ancestors: nothing changed,
      a change of no path at all, or of one that is not at or above it. */
  predicate Quiet(res: Resource, r: ResourceResult, path: string) {
    || (r.change == Unchanged && !r.unknown)
    || (PathKind(res) && !Touches(res.path.value, path, false))
    || (!PathKind(res) && res.kind in {"group", "postgresql_role"})
  }

  predicate PathKind(res: Resource) { res.kind in {"file", "directory", "link", "template"} && res.path.Some? }

  predicate AddsPath(res: Resource, r: ResourceResult) { !(r.change == Unchanged && !r.unknown) && PathKind(res) }

  lemma RecordExact(p: Planned, res: Resource, r: ResourceResult, path: string)
    ensures p.Record(res, r).Affecting(path).None? <==> p.Affecting(path).None? && Quiet(res, r, path)
    ensures p.Record(res, r).paths == [] <==> p.paths == [] && !AddsPath(res, r)
  {
    var after := p.Record(res, r);
    if AddsPath(res, r) {
      assert after.paths[|p.paths|] == PathChange(res.path.value, res.id);
    }
  }

  lemma GuardExact(p: Planned, commandId: string, guard: Guard, path: string)
    ensures p.GuardMayFlip(commandId, guard).Affecting(path).None? <==>
      p.Affecting(path).None? && p.Affecting(guard.path).None? && !(guard.aliased && p.paths != [])
    ensures p.GuardMayFlip(commandId, guard).paths == p.paths
  {
  }

  // -------------------------------------------------------- what changes can do

  /** A target's tree: what is at each component path. No component is a link here; what plan does about
      links is in the `aliased` of a `Guard`. */
  type Tree = map<seq<string>, nat>

  /** A change at `p` alters nothing outside the tree below `p`. */
  ghost predicate ChangesAt(before: Tree, after: Tree, p: seq<string>) {
    forall x :: !(p <= x) ==> Same(before, after, x)
  }

  predicate Same(before: Tree, after: Tree, x: seq<string>) {
    (x in before <==> x in after) && (x in before ==> before[x] == after[x])
  }

  /** `states` is a run of the recorded path changes, in order. */
  ghost predicate Runs(paths: seq<PathChange>, states: seq<Tree>) {
    && |states| == |paths| + 1
    && forall k :: 0 <= k < |paths| ==> ChangesAt(states[k], states[k + 1], Components(paths[k].path))
  }

  /** Every run leaves everything in `keep` as it was. */
  ghost predicate AllRunsKeep(paths: seq<PathChange>, keep: seq<string> -> bool) {
    forall states, x :: Runs(paths, states) && keep(x) ==> Same(states[0], states[|paths|], x)
  }

  ghost predicate ValidPaths(paths: seq<PathChange>) { forall c :: c in paths ==> ValidPath(c.path) }

  lemma {:induction false} UntouchedKept(paths: seq<PathChange>, states: seq<Tree>, x: seq<string>)
    requires Runs(paths, states)
    requires forall c :: c in paths ==> !(Components(c.path) <= x)
    ensures Same(states[0], states[|paths|], x)
  {
    if paths != [] {
      var n := |paths| - 1;
      assert paths[n] in paths;
      UntouchedKept(paths[..n], states[..n + 1], x);
      assert states[..n + 1][n] == states[n];
      assert ChangesAt(states[n], states[n + 1], Components(paths[n].path));
      assert Same(states[n], states[n + 1], x);
    }
  }

  /** A run in which only the `k`-th change does something: it writes at its own path. */
  lemma SomeRunChanges(paths: seq<PathChange>, k: nat, x: seq<string>) returns (states: seq<Tree>)
    requires k < |paths| && Components(paths[k].path) <= x
    ensures Runs(paths, states) && !Same(states[0], states[|paths|], x)
  {
    states := seq(|paths| + 1, i => if i <= k then map[] else map[x := 0]);
  }

  /** `affecting` says None exactly when no run of the recorded changes can alter the path or
      an ancestor, unknown changes aside. */
  lemma AffectingExact(p: Planned, path: string)
    requires ValidPaths(p.paths) && ValidPath(path)
    ensures p.Affecting(path).None? <==>
      p.opaqueId.None? && AllRunsKeep(p.paths, x => x <= Components(path))
  {
    var q := Components(path);
    var keep := (x: seq<string>) => x <= q;
    forall c | c in p.paths
      ensures Touches(c.path, path, false) <==> Components(c.path) <= q
    {
      PrefixTest(path, c.path);
    }
    if p.Affecting(path).None? {
      forall states, x | Runs(p.paths, states) && keep(x)
        ensures Same(states[0], states[|p.paths|], x)
      {
        UntouchedKept(p.paths, states, x);
      }
    } else if p.opaqueId.None? {
      var k :| 0 <= k < |p.paths| && Touches(p.paths[k].path, path, false);
      assert p.paths[k] in p.paths;
      var states := SomeRunChanges(p.paths, k, q);
      assert keep(q) && !AllRunsKeep(p.paths, keep);
    }
  }

  /** `affecting_subtree` the same, for the path, its ancestors and everything below it. */
  lemma AffectingSubtreeExact(p: Planned, path: string)
    requires ValidPaths(p.paths) && ValidPath(path)
    ensures p.AffectingSubtree(path).None? <==>
      p.opaqueId.None? && AllRunsKeep(p.paths, x => x <= Components(path) || Components(path) <= x)
  {
    var q := Components(path);
    var keep := (x: seq<string>) => x <= q || q <= x;
    forall c | c in p.paths
      ensures Touches(c.path, path, false) <==> Components(c.path) <= q
      ensures !Touches(c.path, path, false) ==> (Touches(c.path, path, true) <==> q <= Components(c.path))
    {
      PrefixTest(path, c.path);
      PrefixTest(c.path, path);
    }
    if p.AffectingSubtree(path).None? {
      forall states, x | Runs(p.paths, states) && keep(x)
        ensures Same(states[0], states[|p.paths|], x)
      {
        forall c | c in p.paths
          ensures !(Components(c.path) <= x)
        {
          PrefixesCompare(Components(c.path), q, x);
        }
        UntouchedKept(p.paths, states, x);
      }
    } else if p.opaqueId.None? {
      var k :| 0 <= k < |p.paths| && (Touches(p.paths[k].path, path, false) || Touches(p.paths[k].path, path, true));
      assert p.paths[k] in p.paths;
      var c := Components(p.paths[k].path);
      var x := if c <= q then q else c;
      var states := SomeRunChanges(p.paths, k, x);
      assert keep(x) && !AllRunsKeep(p.paths, keep);
    }
  }

  /** Two paths with a common extension, one is a prefix of the other. */
  lemma PrefixesCompare(c: seq<string>, q: seq<string>, x: seq<string>)
    ensures c <= x && (x <= q || q <= x) ==> c <= q || q <= c
  {
  }

  /** Planning more never takes a warning back, and one about unknown changes keeps naming its resource. */
  lemma AffectingStays(p: Planned, res: Resource, r: ResourceResult, commandId: string, guard: Guard, path: string)
    ensures p.Affecting(path).Some? ==>
      p.Record(res, r).Affecting(path).Some? && p.GuardMayFlip(commandId, guard).Affecting(path).Some?
    ensures p.AffectingSubtree(path).Some? ==>
      p.Record(res, r).AffectingSubtree(path).Some? && p.GuardMayFlip(commandId, guard).AffectingSubtree(path).Some?
    ensures p.opaqueId.Some? ==>
      && p.Affecting(path) == p.opaqueId
      && p.Record(res, r).opaqueId == p.GuardMayFlip(commandId, guard).opaqueId == p.opaqueId
  {
    var recorded := p.Record(res, r);
    assert forall c :: c in p.paths ==> c in recorded.paths;
  }

  predicate ToBeCreated(o: Observed) { o == Absent || o == Unobservable }

  /** A path in the backup store is warned about exactly when apply will create a directory of the
      store chain, or may: planning a resource there is uncertain until then. */
  lemma StoreWarned(p: Planned, sudo: bool, home: string, observe: string -> Observed, path: string)
    requires ValidPath(home) && ValidPath(path) && p.Affecting(path).None?
    requires Components(StoreRoot(sudo, home)) <= Components(path)
    ensures var chain := StoreChain(sudo, home);
      p.RecordStore(chain, observe).Affecting(path).Some? <==>
        ToBeCreated(observe(chain[0])) || (observe(chain[0]) == Directory && ToBeCreated(observe(chain[1])))
  {
    hide ValidPath, Components, StoreRoot, TrimSlashes, BelowText;
    var chain := StoreChain(sudo, home);
    StoreChainNested(sudo, home);
    assert Components(chain[0]) <= Components(chain[1]) <= Components(path);
    PrefixTest(path, chain[0]);
    PrefixTest(path, chain[1]);
    assert chain[1..] == [chain[1]];
    assert Touches(chain[0], path, false) && Touches(chain[1], path, false);
    RecordedLast(p, chain[0], path);
    RecordedLast(p, chain[1], path);
    OneDirectory(p, chain[1], observe);
  }

  lemma OneDirectory(p: Planned, at: string, observe: string -> Observed)
    ensures p.RecordStore([at], observe) ==
      if ToBeCreated(observe(at)) then p.(paths := p.paths + [PathChange(at, BACKUP_STAGE)]) else p
  {
    assert [at][1..] == [];
  }

  lemma RecordedLast(p: Planned, at: string, path: string)
    requires p.Affecting(path).None?
    ensures p.(paths := p.paths + [PathChange(at, BACKUP_STAGE)]).Affecting(path).Some? <==> Touches(at, path, false)
  {
    var more := p.paths + [PathChange(at, BACKUP_STAGE)];
    assert more[|p.paths|] == PathChange(at, BACKUP_STAGE);
  }

  /** The engine's record of planned changes: its methods only ever add. */
  class PlannedEffects {
    var paths: seq<PathChange>
    var opaqueId: Option<string>

    constructor ()
      ensures View() == Planned([], None)
    {
      paths := [];
      opaqueId := None;
    }

    constructor Starting(start: Planned)
      ensures View() == start
    {
      paths := start.paths;
      opaqueId := start.opaqueId;
    }

    function View(): Planned
      reads this
    {
      Planned(paths, opaqueId)
    }

    method Record(res: Resource, r: ResourceResult)
      modifies this
      ensures View() == old(View()).Record(res, r)
      ensures forall q :: View().Affecting(q).None? <==> old(View()).Affecting(q).None? && Quiet(res, r, q)
    {
      forall q ensures View().Record(res, r).Affecting(q).None? <==> View().Affecting(q).None? && Quiet(res, r, q) {
        RecordExact(View(), res, r, q);
      }
      if r.change == Unchanged && !r.unknown { return; }
      if res.kind in {"file", "directory", "link", "template"} && res.path.Some? {
        paths := paths + [PathChange(res.path.value, res.id)];
      } else if res.kind !in {"group", "postgresql_role"} {
        if opaqueId.None? { opaqueId := Some(res.id); }
      }
    }

    /** Apply creates the first missing directory of the store chain before any resource. */
    method RecordBackupStore(chain: seq<string>, observe: string -> Observed)
      modifies this
      ensures View() == old(View()).RecordStore(chain, observe)
    {
      for i := 0 to |chain|
        invariant View() == old(View())
        invariant View().RecordStore(chain, observe) == View().RecordStore(chain[i..], observe)
      {
        assert chain[i..][1..] == chain[i + 1..];
        match observe(chain[i]) {
          case Directory =>
          case OtherKind => return;
          case _ =>
            paths := paths + [PathChange(chain[i], BACKUP_STAGE)];
            return;
        }
      }
    }

    method GuardedCommandMayRun(commandId: string, guardPath: string)
      modifies this
      ensures View() == old(View()).GuardedCommandMayRun(commandId, guardPath)
      ensures forall q ::
        View().Affecting(q).None? <==> old(View()).Affecting(q).None? && old(View()).Affecting(guardPath).None?
    {
      if View().Affecting(guardPath).Some? && opaqueId.None? {
        opaqueId := Some(commandId);
      }
    }

    /** Planning a command whose guard is satisfied; `aliased` is asked only when it matters. */
    method GuardMayFlip(commandId: string, guard: Guard)
      modifies this
      ensures View() == old(View()).GuardMayFlip(commandId, guard)
      ensures forall q :: View().Affecting(q).None? <==>
        && old(View()).Affecting(q).None? && old(View()).Affecting(guard.path).None?
        && !(guard.aliased && old(View()).paths != [])
    {
      GuardedCommandMayRun(commandId, guard.path);
      if opaqueId.Some? || paths == [] { return; }
      if guard.aliased { opaqueId := Some(commandId); }
    }
  }
}
