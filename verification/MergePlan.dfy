/** Planning a three-way merge of manifests: the choice at each path, then grouping of
    everything that would put a file where another side has a directory. */
module MergePlan {
  import opened Common
  import opened WorkingTree

  /** Slash-separated paths have at least one component. */
  type Key = p: Path | |p| > 0 witness [""]

  datatype Policy = Admin | Restricted(code: nat)

  datatype FileEntry = FileEntry(
    path: Key, hash: Bytes, bytes: nat, executable: bool, symlink: bool, policy: Policy)

  datatype ConflictKind = BothModified | DeleteModify | AddAdd | FileDirectory

  datatype Pending = Pending(path: Key, kind: ConflictKind)

  datatype Plan = Plan(merged: seq<FileEntry>, conflicts: seq<Pending>)

  type Manifest = map<Key, FileEntry>

  ghost predicate Keyed(m: Manifest) {
    forall p :: p in m ==> m[p].path == p
  }

  /** A manifest list as a map: a later entry for a path wins. */
  function ManifestMap(files: seq<FileEntry>): Manifest {
    if files == [] then map[]
    else
      var last := files[|files| - 1];
      ManifestMap(files[..|files| - 1])[last.path := last]
  }

  lemma {:induction false} ManifestMapExactly(files: seq<FileEntry>)
    ensures Keyed(ManifestMap(files))
    ensures forall p :: p in ManifestMap(files) <==> exists f :: f in files && f.path == p
    ensures DistinctBy(files, FilePath) ==> forall f :: f in files <==> f.path in ManifestMap(files) && ManifestMap(files)[f.path] == f
  {
    if files != [] {
      var init, last := files[..|files| - 1], files[|files| - 1];
      ManifestMapExactly(init);
      assert files == init + [last];
    }
  }

  function EntryAt(m: Manifest, p: Key): Option<FileEntry> {
    if p in m then Some(m[p]) else None
  }

  // ------------------------------------------------------ distinct listings

  function FilePath(f: FileEntry): Key {
    f.path
  }

  function ConflictPath(c: Pending): Key {
    c.path
  }

  predicate DistinctBy<T>(s: seq<T>, key: T -> Key) {
    forall i, j :: 0 <= i < j < |s| ==> key(s[i]) != key(s[j])
  }

  function Retain<T(!new)>(s: seq<T>, keep: T -> bool): (r: seq<T>)
    ensures forall x :: x in r <==> x in s && keep(x)
  {
    if s == [] then []
    else
      var init := Retain(s[..|s| - 1], keep);
      if keep(s[|s| - 1]) then init + [s[|s| - 1]] else init
  }

  lemma {:induction false} RetainDistinct<T(!new)>(s: seq<T>, keep: T -> bool, key: T -> Key)
    requires DistinctBy(s, key)
    ensures DistinctBy(Retain(s, keep), key)
  {
    if s != [] {
      var init, last := s[..|s| - 1], s[|s| - 1];
      RetainDistinct(init, keep, key);
      if keep(last) { SnocDistinct(Retain(init, keep), last, key); }
    }
  }

  lemma SnocDistinct<T>(s: seq<T>, x: T, key: T -> Key)
    requires DistinctBy(s, key) && forall y :: y in s ==> key(y) != key(x)
    ensures DistinctBy(s + [x], key)
  {
  }

  function FilePaths(files: seq<FileEntry>): set<Key> {
    set f | f in files :: f.path
  }

  function ConflictPaths(conflicts: seq<Pending>): set<Key> {
    set c | c in conflicts :: c.path
  }

  function PathsOf(plan: Plan): set<Key> {
    FilePaths(plan.merged) + ConflictPaths(plan.conflicts)
  }

  // --------------------------------------------------- the choice at a path

  predicate SameFile(left: Option<FileEntry>, right: Option<FileEntry>) {
    match (left, right)
    case (None, None) => true
    case (Some(l), Some(r)) => l == r
    case _ => false
  }

  function KindFor(base: Option<FileEntry>, line: Option<FileEntry>, incoming: Option<FileEntry>): ConflictKind {
    match (base, line, incoming)
    case (None, Some(_), Some(_)) => AddAdd
    case (Some(_), None, Some(_)) => DeleteModify
    case (Some(_), Some(_), None) => DeleteModify
    case _ => BothModified
  }

  /** What a path comes to: a file or nothing, or a conflict. */
  datatype Choice = Take(entry: Option<FileEntry>) | Clash(kind: ConflictKind)

  function Decide(base: Option<FileEntry>, line: Option<FileEntry>, incoming: Option<FileEntry>): Choice {
    if SameFile(line, incoming) then Take(line)
    else
      match (!SameFile(base, line), !SameFile(base, incoming))
      case (false, true) => Take(incoming)
      case (true, false) => Take(line)
      case (false, false) => Take(base)
      case (true, true) => Clash(KindFor(base, line, incoming))
  }

  /** A change made on one side only, or made alike on both, is taken; a conflict
      arises exactly when both sides changed the path and not alike, and its kind says
      which of the three had a file there. */
  lemma DecideExactly(base: Option<FileEntry>, line: Option<FileEntry>, incoming: Option<FileEntry>)
    ensures line == incoming ==> Decide(base, line, incoming) == Take(line)
    ensures base == line ==> Decide(base, line, incoming) == Take(incoming)
    ensures base == incoming ==> Decide(base, line, incoming) == Take(line)
    ensures Decide(base, line, incoming).Clash? <==> base != line && base != incoming && line != incoming
    ensures Decide(base, incoming, line) == Decide(base, line, incoming)
    ensures Decide(base, line, incoming).Clash? ==>
      var kind := Decide(base, line, incoming).kind;
      && (kind == AddAdd <==> base == None)
      && (kind == DeleteModify <==> base != None && (line == None || incoming == None))
      && (kind == BothModified <==> base != None && line != None && incoming != None)
  {
  }

  // ------------------------------------------------------- before grouping

  function Chosen(base: Manifest, line: Manifest, incoming: Manifest, p: Key): Choice {
    Decide(EntryAt(base, p), EntryAt(line, p), EntryAt(incoming, p))
  }

  predicate Lists(base: Manifest, line: Manifest, incoming: Manifest, f: FileEntry) {
    Chosen(base, line, incoming, f.path) == Take(Some(f))
  }

  predicate Conflicts(base: Manifest, line: Manifest, incoming: Manifest, c: Pending) {
    Chosen(base, line, incoming, c.path) == Clash(c.kind)
  }

  /** The paths that end up with a file or a conflict. */
  ghost function Live(base: Manifest, line: Manifest, incoming: Manifest): set<Key> {
    set p | p in base.Keys + line.Keys + incoming.Keys && Chosen(base, line, incoming, p) != Take(None)
  }

  /** The lists before grouping, with the paths in `rest` still to come. */
  ghost predicate Listed(base: Manifest, line: Manifest, incoming: Manifest, plan: Plan, rest: set<Key>) {
    && DistinctBy(plan.merged, FilePath) && DistinctBy(plan.conflicts, ConflictPath)
    && (forall f :: f in plan.merged <==> Lists(base, line, incoming, f) && f.path !in rest)
    && (forall c :: c in plan.conflicts <==> Conflicts(base, line, incoming, c) && c.path !in rest)
  }

  lemma ChosenIsListed(base: Manifest, line: Manifest, incoming: Manifest, p: Key)
    requires Keyed(base) && Keyed(line) && Keyed(incoming)
    ensures Chosen(base, line, incoming, p) != Take(None) ==> p in base.Keys + line.Keys + incoming.Keys
    ensures var c := Chosen(base, line, incoming, p); c.Take? && c.entry.Some? ==> c.entry.value.path == p
  {
  }

  /** One path of the walk over all paths. */
  method PlanPath(base: Manifest, line: Manifest, incoming: Manifest, p: Key, plan: Plan, ghost rest: set<Key>) returns (plan': Plan)
    requires Keyed(base) && Keyed(line) && Keyed(incoming)
    requires Listed(base, line, incoming, plan, rest) && p in rest
    ensures Listed(base, line, incoming, plan', rest - {p})
  {
    ChosenIsListed(base, line, incoming, p);
    match Chosen(base, line, incoming, p)
    case Take(Some(file)) =>
      SnocDistinct(plan.merged, file, FilePath);
      return plan.(merged := plan.merged + [file]);
    case Take(None) =>
      return plan;
    case Clash(kind) =>
      SnocDistinct(plan.conflicts, Pending(p, kind), ConflictPath);
      return plan.(conflicts := plan.conflicts + [Pending(p, kind)]);
  }

  // --------------------------------------------------------------- grouping

  /** No other path above or below it. */
  ghost predicate Lone(paths: set<Key>, p: Key) {
    forall q :: q in paths ==> !(q < p) && !(p < q)
  }

  /** An uppermost path with another below it. */
  ghost predicate Top(paths: set<Key>, r: Key) {
    r in paths && (exists q :: q in paths && r < q) && forall q :: q in paths ==> !(q < r)
  }

  predicate Contains(root: Key, path: Key) {
    root <= path
  }

  method ShortestAncestor(paths: set<Key>, path: Key) returns (r: Option<Key>)
    ensures r.Some? ==> r.value in paths && r.value < path && forall q :: q in paths && q < path ==> r.value <= q
    ensures r.None? ==> forall q :: q in paths ==> !(q < path)
  {
    for k := 1 to |path|
      invariant forall q :: q in paths && q < path ==> |q| >= k
    {
      if path[..k] in paths { return Some(path[..k]); }
      forall q | q in paths && q < path
        ensures |q| > k
      {
        assert q == path[..|q|];
      }
    }
    return None;
  }

  lemma ShortestIsTop(paths: set<Key>, path: Key, r: Key)
    requires path in paths && r in paths && r < path && forall q :: q in paths && q < path ==> r <= q
    ensures Top(paths, r)
  {
    forall q | q in paths
      ensures !(q < r)
    {
      assert q < r ==> q < path;
    }
  }

  lemma TopIsShortest(paths: set<Key>, top: Key, path: Key, r: Key)
    requires Top(paths, top) && top < path && r in paths && r < path && forall q :: q in paths && q < path ==> r <= q
    ensures r == top
  {
    assert r <= top;
    assert !(r < top);
  }

  /** The first ancestor, for each path that has one. */
  method FindRoots(paths: set<Key>) returns (roots: set<Key>)
    ensures forall r :: r in roots <==> Top(paths, r)
  {
    roots := {};
    var rest := paths;
    while rest != {}
      invariant rest <= paths
      invariant forall r :: r in roots ==> Top(paths, r)
      invariant forall r: Key, q :: Top(paths, r) && q in paths && q !in rest && r < q ==> r in roots
    {
      var path :| path in rest;
      var r := ShortestAncestor(paths, path);
      if r.Some? {
        ShortestIsTop(paths, path, r.value);
        forall t: Key | Top(paths, t) && t < path
          ensures t == r.value
        {
          TopIsShortest(paths, t, path, r.value);
        }
        roots := roots + {r.value};
      }
      rest := rest - {path};
    }
  }

  /** Shortest prefixes exist: whatever has a path above it has an uppermost one. */
  lemma {:induction false} TopAbove(paths: set<Key>, q: Key, p: Key) returns (r: Key)
    requires p in paths && q in paths && q < p
    ensures Top(paths, r) && r <= q
    decreases |q|
  {
    if forall x :: x in paths ==> !(x < q) {
      r := q;
    } else {
      var x :| x in paths && x < q;
      r := TopAbove(paths, x, p);
    }
  }

  /** What survives grouping is what lies under no root. */
  lemma LoneIsRootless(paths: set<Key>, p: Key)
    requires p in paths
    ensures Lone(paths, p) <==> forall r :: Top(paths, r) ==> !Contains(r, p)
  {
    if !Lone(paths, p) {
      var q :| q in paths && (q < p || p < q);
      if q < p {
        var r := TopAbove(paths, q, p);
        assert Contains(r, p);
      } else {
        var r := TopAbove(paths, p, q);
        assert Contains(r, p);
      }
    }
  }

  ghost predicate RootFree(roots: set<Key>, p: Key) {
    forall r :: r in roots ==> !Contains(r, p)
  }

  /** The plan once the roots in `done` have been grouped. */
  ghost predicate Grouping(plan: Plan, roots: set<Key>, plan': Plan) {
    && DistinctBy(plan'.merged, FilePath) && DistinctBy(plan'.conflicts, ConflictPath)
    && (forall f :: f in plan'.merged <==> f in plan.merged && RootFree(roots, f.path))
    && (forall c :: c in plan'.conflicts <==>
          (c in plan.conflicts && RootFree(roots, c.path)) || (c.path in roots && c.kind == FileDirectory))
  }

  method GroupOne(ghost plan: Plan, ghost roots: set<Key>, current: Plan, root: Key) returns (plan': Plan)
    requires Grouping(plan, roots, current)
    requires forall r :: r in roots ==> !Contains(root, r) && !Contains(r, root)
    ensures Grouping(plan, roots + {root}, plan')
  {
    var merged := Retain(current.merged, (f: FileEntry) => !Contains(root, f.path));
    var conflicts := Retain(current.conflicts, (c: Pending) => !Contains(root, c.path));
    RetainDistinct(current.merged, (f: FileEntry) => !Contains(root, f.path), FilePath);
    RetainDistinct(current.conflicts, (c: Pending) => !Contains(root, c.path), ConflictPath);
    SnocDistinct(conflicts, Pending(root, FileDirectory), ConflictPath);
    assert forall p :: RootFree(roots + {root}, p) <==> RootFree(roots, p) && !Contains(root, p);
    return Plan(merged, conflicts + [Pending(root, FileDirectory)]);
  }

  /** What grouping leaves: paths with nothing above or below stay as they were, every
      other one is folded into a conflict at its uppermost path. */
  ghost predicate Grouped(plan: Plan, plan': Plan) {
    var paths := PathsOf(plan);
    && DistinctBy(plan'.merged, FilePath) && DistinctBy(plan'.conflicts, ConflictPath)
    && (forall f :: f in plan'.merged <==> f in plan.merged && Lone(paths, f.path))
    && (forall c :: c in plan'.conflicts <==>
          (c in plan.conflicts && Lone(paths, c.path)) || (Top(paths, c.path) && c.kind == FileDirectory))
  }

  method Group(plan: Plan) returns (plan': Plan)
    requires DistinctBy(plan.merged, FilePath) && DistinctBy(plan.conflicts, ConflictPath)
    ensures Grouped(plan, plan')
  {
    var roots := FindRoots(PathsOf(plan));
    plan' := GroupAt(plan, PathsOf(plan), roots);
    GroupingDone(plan, roots, plan');
  }

  lemma TopsApart(paths: set<Key>, r: Key, t: Key)
    requires Top(paths, r) && Top(paths, t) && Contains(r, t)
    ensures r == t
  {
    assert !(r < t);
    assert r == t[..|r|];
  }

  method GroupAt(plan: Plan, ghost paths: set<Key>, roots: set<Key>) returns (plan': Plan)
    requires DistinctBy(plan.merged, FilePath) && DistinctBy(plan.conflicts, ConflictPath)
    requires forall r :: r in roots ==> Top(paths, r)
    ensures Grouping(plan, roots, plan')
  {
    plan' := plan;
    ghost var done: set<Key> := {};
    var rest := roots;
    while rest != {}
      invariant rest <= roots && done == roots - rest && Grouping(plan, done, plan')
    {
      var root :| root in rest;
      forall r | r in done
        ensures !Contains(root, r) && !Contains(r, root)
      {
        if Contains(root, r) { TopsApart(paths, root, r); }
        if Contains(r, root) { TopsApart(paths, r, root); }
      }
      plan' := GroupOne(plan, done, plan', root);
      rest := rest - {root};
      done := done + {root};
    }
    assert done == roots;
  }

  lemma GroupingDone(plan: Plan, roots: set<Key>, plan': Plan)
    requires Grouping(plan, roots, plan') && forall r :: r in roots <==> Top(PathsOf(plan), r)
    ensures Grouped(plan, plan')
  {
    var paths := PathsOf(plan);
    forall p | p in paths
      ensures RootFree(roots, p) <==> Lone(paths, p)
    {
      LoneIsRootless(paths, p);
    }
    assert forall f :: f in plan.merged ==> f.path in paths;
    assert forall c :: c in plan.conflicts ==> c.path in paths;
  }

  // --------------------------------------------------------------- the plan

  /** No path of the plan equals, contains or lies under another. */
  ghost predicate Apart(plan: Plan) {
    && DistinctBy(plan.merged, FilePath) && DistinctBy(plan.conflicts, ConflictPath)
    && FilePaths(plan.merged) !! ConflictPaths(plan.conflicts)
    && forall p, q :: p in PathsOf(plan) && q in PathsOf(plan) ==> !(p < q)
  }

  lemma GroupedIsApart(plan: Plan, plan': Plan)
    requires Grouped(plan, plan') && FilePaths(plan.merged) !! ConflictPaths(plan.conflicts)
    ensures Apart(plan')
  {
    var paths := PathsOf(plan);
    forall p | p in PathsOf(plan')
      ensures p in paths && (Lone(paths, p) || Top(paths, p))
    {
    }
    forall f, c | f in plan'.merged && c in plan'.conflicts
      ensures f.path != c.path
    {
      assert f.path in FilePaths(plan.merged);
      if c in plan.conflicts { assert c.path in ConflictPaths(plan.conflicts); }
    }
  }

  /** What a merge plan says about each path: the result for every listed input. */
  ghost predicate Plans(base: Manifest, line: Manifest, incoming: Manifest, plan: Plan) {
    var live := Live(base, line, incoming);
    && Apart(plan)
    && (forall f :: f in plan.merged <==> Lists(base, line, incoming, f) && Lone(live, f.path))
    && (forall c :: c in plan.conflicts <==>
          (Conflicts(base, line, incoming, c) && Lone(live, c.path)) || (Top(live, c.path) && c.kind == FileDirectory))
  }

  lemma ListedPaths(base: Manifest, line: Manifest, incoming: Manifest, plan: Plan)
    requires Keyed(base) && Keyed(line) && Keyed(incoming) && Listed(base, line, incoming, plan, {})
    ensures PathsOf(plan) == Live(base, line, incoming)
    ensures FilePaths(plan.merged) !! ConflictPaths(plan.conflicts)
  {
    forall p
      ensures p in PathsOf(plan) <==> p in Live(base, line, incoming)
    {
      ChosenIsListed(base, line, incoming, p);
      match Chosen(base, line, incoming, p)
      case Take(None) =>
      case Take(Some(f)) => assert Lists(base, line, incoming, f) <==> f in plan.merged;
      case Clash(kind) => assert Conflicts(base, line, incoming, Pending(p, kind)) <==> Pending(p, kind) in plan.conflicts;
    }
  }

  lemma ListingStarts(base: Manifest, line: Manifest, incoming: Manifest)
    requires Keyed(base) && Keyed(line) && Keyed(incoming)
    ensures Listed(base, line, incoming, Plan([], []), base.Keys + line.Keys + incoming.Keys)
  {
  }

  /** Compares the three manifests path by path and groups the result. */
  method PlanMerge(base: seq<FileEntry>, line: seq<FileEntry>, incoming: seq<FileEntry>) returns (plan: Plan)
    ensures Plans(ManifestMap(base), ManifestMap(line), ManifestMap(incoming), plan)
  {
    var b, l, i := ManifestMap(base), ManifestMap(line), ManifestMap(incoming);
    ManifestMapExactly(base);
    ManifestMapExactly(line);
    ManifestMapExactly(incoming);
    var flat := Plan([], []);
    var rest := b.Keys + l.Keys + i.Keys;
    ListingStarts(b, l, i);
    while rest != {}
      invariant Listed(b, l, i, flat, rest)
    {
      var p :| p in rest;
      flat := PlanPath(b, l, i, p, flat, rest);
      rest := rest - {p};
    }
    ListedPaths(b, l, i, flat);
    plan := Group(flat);
    GroupedIsApart(flat, plan);
  }
}
