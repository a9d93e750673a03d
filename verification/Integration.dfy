/** From plan to tree: recorded resolutions and the final path check. */
module Integration {
  import opened Common
  import opened WorkingTree
  import opened MergePlan

  // ------------------------------------------------------- valid manifests

  predicate Unnested(files: seq<FileEntry>) {
    DistinctBy(files, FilePath) && forall f, g :: f in files && g in files ==> !(f.path < g.path)
  }

  predicate ManifestOk(files: seq<FileEntry>) {
    (forall f :: f in files ==> ValidKey(f.path)) && Unnested(files)
  }

  /** Unique safe paths, none of which is a directory another one needs. */
  method VerifyManifestPaths(files: seq<FileEntry>) returns (ok: bool)
    ensures ok <==> ManifestOk(files)
  {
    var paths: set<Key> := {};
    for i := 0 to |files|
      invariant paths == FilePaths(files[..i])
      invariant DistinctBy(files[..i], FilePath) && forall f :: f in files[..i] ==> ValidKey(f.path)
    {
      var f := files[i];
      assert f in files;
      if !ValidKey(f.path) { return false; }
      if f.path in paths {
        var j :| 0 <= j < i && files[j].path == f.path;
        assert FilePath(files[j]) == FilePath(files[i]);
        return false;
      }
      assert files[..i + 1] == files[..i] + [f];
      SnocDistinct(files[..i], f, FilePath);
      paths := paths + {f.path};
    }
    assert files[..|files|] == files;
    ok := NoAncestors(paths);
    assert forall f :: f in files ==> f.path in paths;
  }

  /** Walks up from every path. */
  method NoAncestors(paths: set<Key>) returns (ok: bool)
    ensures ok <==> forall p, q :: p in paths && q in paths ==> !(p < q)
  {
    var rest := paths;
    while rest != {}
      invariant rest <= paths
      invariant forall p, q :: p in paths && q in paths && q !in rest ==> !(p < q)
    {
      var path :| path in rest;
      var up := |path| - 1;
      while up > 0
        invariant 0 <= up < |path|
        invariant forall p :: p in paths && p < path ==> |p| <= up
      {
        if path[..up] in paths { return false; }
        forall p | p in paths && p < path
          ensures |p| < up
        {
          assert p == path[..|p|];
        }
        up := up - 1;
      }
      rest := rest - {path};
    }
    return true;
  }

  // ------------------------------------------- replacing a conflict by files

  lemma PrefixesCompare(p: Path, q: Path, f: Path)
    requires p <= f && q <= f
    ensures p <= q || q <= p
  {
    assert p == f[..|p|] && q == f[..|q|];
  }

  /** What is apart from a path is apart from everything under it. */
  lemma ApartBelow(p: Path, c: Path, f: Path)
    requires c <= f && !(p <= c) && !(c <= p)
    ensures !(p <= f) && !(f <= p)
  {
    if p <= f { PrefixesCompare(p, c, f); }
  }

  /** Safe paths, apart from each other. */
  ghost predicate PlanOk(plan: MergePlan.Plan) {
    Apart(plan) && forall p :: p in PathsOf(plan) ==> ValidKey(p)
  }

  lemma ApartFromHead(merged: seq<FileEntry>, c: Pending, rest: seq<Pending>, p: Key)
    requires Apart(Plan(merged, [c] + rest)) && p in PathsOf(Plan(merged, rest))
    ensures !(p <= c.path) && !(c.path <= p)
  {
    var plan := Plan(merged, [c] + rest);
    assert c in plan.conflicts && c.path in PathsOf(plan);
    assert forall d :: d in rest ==> d in plan.conflicts;
    assert p in PathsOf(plan);
    assert p != c.path by {
      if p in FilePaths(merged) {
        assert c.path in ConflictPaths(plan.conflicts);
      } else {
        var d :| d in rest && d.path == p;
        var j :| 0 <= j < |rest| && rest[j] == d;
        assert plan.conflicts[j + 1] == d && plan.conflicts[0] == c;
        assert ConflictPath(plan.conflicts[0]) != ConflictPath(plan.conflicts[j + 1]);
      }
    }
    if p <= c.path { EqualOrNested(p, c.path); }
    if c.path <= p { EqualOrNested(c.path, p); }
  }

  lemma EqualOrNested(p: Path, q: Path)
    requires p <= q
    ensures p == q || p < q
  {
    assert p == q[..|p|];
  }

  lemma TailApart(merged: seq<FileEntry>, c: Pending, rest: seq<Pending>)
    requires Apart(Plan(merged, [c] + rest))
    ensures Apart(Plan(merged, rest))
  {
    var plan := Plan(merged, [c] + rest);
    assert forall i :: 0 <= i < |rest| ==> rest[i] == plan.conflicts[i + 1];
    assert PathsOf(Plan(merged, rest)) <= PathsOf(plan);
  }

  /** Files that stay under a conflict's path can take its place. */
  lemma ReplaceConflict(merged: seq<FileEntry>, c: Pending, rest: seq<Pending>, files: seq<FileEntry>)
    requires Apart(Plan(merged, [c] + rest))
    requires Unnested(files) && forall f :: f in files ==> Contains(c.path, f.path)
    ensures Apart(Plan(merged + files, rest))
  {
    var before, after := Plan(merged, rest), Plan(merged + files, rest);
    TailApart(merged, c, rest);
    forall p, f | p in PathsOf(before) && f in files
      ensures !(p <= f.path) && !(f.path <= p)
    {
      ApartFromHead(merged, c, rest, p);
      ApartBelow(p, c.path, f.path);
    }
    assert forall g :: g in merged ==> g.path in PathsOf(before);
    assert forall d :: d in rest ==> d.path in PathsOf(before);
    assert FilePaths(merged + files) == FilePaths(merged) + FilePaths(files);
    assert PathsOf(after) == PathsOf(before) + FilePaths(files);
  }

  /** A conflict that stays moves to the end of the list. */
  lemma RotateConflict(merged: seq<FileEntry>, c: Pending, rest: seq<Pending>)
    requires Apart(Plan(merged, [c] + rest))
    ensures Apart(Plan(merged, rest + [c]))
  {
    var before, after := Plan(merged, [c] + rest), Plan(merged, rest + [c]);
    TailApart(merged, c, rest);
    forall d | d in rest
      ensures ConflictPath(d) != ConflictPath(c)
    {
      assert d.path in PathsOf(Plan(merged, rest));
      ApartFromHead(merged, c, rest, d.path);
    }
    SnocDistinct(rest, c, ConflictPath);
    assert forall d :: d in after.conflicts <==> d in before.conflicts;
    assert ConflictPaths(after.conflicts) == ConflictPaths(before.conflicts);
    assert PathsOf(after) == PathsOf(before);
    assert DistinctBy(after.conflicts, ConflictPath);
  }

  lemma ReplaceKeepsOk(merged: seq<FileEntry>, c: Pending, rest: seq<Pending>, files: seq<FileEntry>)
    requires PlanOk(Plan(merged, [c] + rest))
    requires ManifestOk(files) && forall f :: f in files ==> Contains(c.path, f.path)
    ensures PlanOk(Plan(merged + files, rest))
  {
    ReplaceConflict(merged, c, rest, files);
    forall p | p in PathsOf(Plan(merged + files, rest))
      ensures ValidKey(p)
    {
      assert p in PathsOf(Plan(merged, [c] + rest)) || p in FilePaths(files);
    }
  }

  lemma RotateKeepsOk(merged: seq<FileEntry>, c: Pending, rest: seq<Pending>)
    requires PlanOk(Plan(merged, [c] + rest))
    ensures PlanOk(Plan(merged, rest + [c]))
  {
    RotateConflict(merged, c, rest);
    assert PathsOf(Plan(merged, rest + [c])) == PathsOf(Plan(merged, [c] + rest));
  }

  lemma HeadIsValid(merged: seq<FileEntry>, c: Pending, rest: seq<Pending>)
    requires PlanOk(Plan(merged, [c] + rest))
    ensures ValidKey(c.path)
  {
    assert c in [c] + rest && c.path in PathsOf(Plan(merged, [c] + rest));
  }

  // ------------------------------------------------------------ resolutions

  datatype Decision = Custom | TakeBase | TakeLine | TakeIncoming | Delete

  /** A recorded conflict; `current` says that its sources are those being merged. */
  datatype Stored = Stored(
    path: Key, kind: ConflictKind, resolved: bool, current: bool, accessible: bool,
    resolution: Option<Decision>, replacement: Option<FileEntry>)

  /** The three snapshots' files; an absent snapshot has none. */
  datatype Sides = Sides(base: seq<FileEntry>, line: seq<FileEntry>, incoming: seq<FileEntry>)

  /** Grants and blob contents, decided elsewhere. */
  datatype World = World(sourcesOpen: bool, mayRead: FileEntry -> bool, blobOk: FileEntry -> bool)

  predicate VerifyFile(w: World, f: FileEntry) {
    ValidKey(f.path) && w.blobOk(f)
  }

  function Find(files: seq<FileEntry>, path: Key): (r: Option<FileEntry>)
    ensures r.Some? ==> r.value in files && r.value.path == path
  {
    if files == [] then None else if files[0].path == path then Some(files[0]) else Find(files[1..], path)
  }

  function ToList(f: Option<FileEntry>): seq<FileEntry> {
    if f.Some? then [f.value] else []
  }

  /** Content chosen from one side does not undo a restriction on another. */
  function Guarded(f: FileEntry, sides: seq<FileEntry>): FileEntry {
    if exists side :: side in sides && side.policy != f.policy then f.(policy := Admin) else f
  }

  function GuardAll(files: seq<FileEntry>, sides: seq<FileEntry>): (r: seq<FileEntry>)
    ensures |r| == |files| && forall i :: 0 <= i < |r| ==> r[i].path == files[i].path
  {
    seq(|files|, i requires 0 <= i < |files| => Guarded(files[i], sides))
  }

  predicate SomeClosed(w: World, sides: seq<FileEntry>) {
    exists f :: f in sides && !w.mayRead(f)
  }

  /** The file chosen for a conflict at one path; the outer `None` is an error. */
  function ResolvedFile(w: World, c: Stored, s: Sides, d: Decision): Option<seq<FileEntry>> {
    var base, line, incoming := Find(s.base, c.path), Find(s.line, c.path), Find(s.incoming, c.path);
    var sides := ToList(base) + ToList(line) + ToList(incoming);
    if !w.sourcesOpen || SomeClosed(w, sides) then None
    else
      match d
      case TakeBase => Some(GuardAll(ToList(base), sides))
      case TakeLine => Some(GuardAll(ToList(line), sides))
      case TakeIncoming => Some(GuardAll(ToList(incoming), sides))
      case Delete => Some([])
      case Custom =>
        if c.replacement.None? || !VerifyFile(w, c.replacement.value) || c.replacement.value.path != c.path
           || !w.mayRead(c.replacement.value)
        then None
        else Some(GuardAll([c.replacement.value], sides))
  }

  function Below(files: seq<FileEntry>, root: Key): seq<FileEntry> {
    Retain(files, (f: FileEntry) => Contains(root, f.path))
  }

  /** A file/directory conflict takes one side's whole subtree, which is verified. */
  function ResolvedTree(w: World, c: Stored, s: Sides, d: Decision): Option<seq<FileEntry>> {
    var base, line, incoming := Below(s.base, c.path), Below(s.line, c.path), Below(s.incoming, c.path);
    var sides := base + line + incoming;
    if d.Custom? || !w.sourcesOpen || SomeClosed(w, sides) then None
    else
      var chosen := GuardAll(if d.TakeBase? then base else if d.TakeLine? then line else if d.TakeIncoming? then incoming else [], sides);
      if !ManifestOk(chosen) || exists f :: f in chosen && !VerifyFile(w, f) then None else Some(chosen)
  }

  function ResolvedFiles(w: World, c: Stored, s: Sides, d: Decision): Option<seq<FileEntry>> {
    if c.kind.FileDirectory? then ResolvedTree(w, c, s, d) else ResolvedFile(w, c, s, d)
  }

  lemma ResolvedFileFits(w: World, c: Stored, s: Sides, d: Decision)
    requires ValidKey(c.path) && ResolvedFile(w, c, s, d).Some?
    ensures var files := ResolvedFile(w, c, s, d).value;
            ManifestOk(files) && |files| <= 1 && forall f :: f in files ==> f.path == c.path
  {
    var base, line, incoming := Find(s.base, c.path), Find(s.line, c.path), Find(s.incoming, c.path);
    var sides := ToList(base) + ToList(line) + ToList(incoming);
    match d
    case TakeBase => OneGuarded(base, sides, c.path);
    case TakeLine => OneGuarded(line, sides, c.path);
    case TakeIncoming => OneGuarded(incoming, sides, c.path);
    case Delete =>
    case Custom => OneGuarded(c.replacement, sides, c.path);
  }

  lemma OneGuarded(f: Option<FileEntry>, sides: seq<FileEntry>, path: Key)
    requires ValidKey(path) && (f.Some? ==> f.value.path == path)
    ensures var files := GuardAll(ToList(f), sides);
            ManifestOk(files) && |files| <= 1 && forall g :: g in files ==> g.path == path
  {
  }

  lemma ResolvedTreeFits(w: World, c: Stored, s: Sides, d: Decision)
    requires ResolvedTree(w, c, s, d).Some?
    ensures var files := ResolvedTree(w, c, s, d).value;
            ManifestOk(files) && forall f :: f in files ==> Contains(c.path, f.path)
  {
    var files := ResolvedTree(w, c, s, d).value;
    var chosen := if d.TakeBase? then Below(s.base, c.path) else if d.TakeLine? then Below(s.line, c.path)
                  else if d.TakeIncoming? then Below(s.incoming, c.path) else [];
    forall i | 0 <= i < |files|
      ensures Contains(c.path, files[i].path)
    {
      assert chosen[i] in chosen && files[i].path == chosen[i].path;
    }
  }

  /** Whatever the decision, the files stay under the conflict's path and do not
      collide. */
  lemma ResolvedFits(w: World, c: Stored, s: Sides, d: Decision)
    requires ValidKey(c.path) && ResolvedFiles(w, c, s, d).Some?
    ensures var files := ResolvedFiles(w, c, s, d).value;
            ManifestOk(files) && forall f :: f in files ==> Contains(c.path, f.path)
  {
    if c.kind.FileDirectory? { ResolvedTreeFits(w, c, s, d); } else { ResolvedFileFits(w, c, s, d); }
  }

  function Answers(stored: seq<Stored>, pending: Pending): (r: seq<Stored>)
    ensures forall c :: c in r ==> c.path == pending.path && c.kind == pending.kind
  {
    Retain(stored, (c: Stored) => c.resolved && c.path == pending.path && c.kind == pending.kind && c.current)
  }

  /** What one pending conflict comes to. */
  datatype Answer = Failed | Open | Closed(files: seq<FileEntry>)

  function AnswerTo(w: World, stored: seq<Stored>, s: Sides, pending: Pending): Answer {
    var found := Answers(stored, pending);
    if |found| > 1 then Failed
    else if |found| == 0 then Open
    else if !found[0].accessible || found[0].resolution.None? then Failed
    else
      var files := ResolvedFiles(w, found[0], s, found[0].resolution.value);
      if files.None? then Failed else Closed(files.value)
  }

  lemma AnswerFits(w: World, stored: seq<Stored>, s: Sides, pending: Pending)
    requires ValidKey(pending.path) && AnswerTo(w, stored, s, pending).Closed?
    ensures var files := AnswerTo(w, stored, s, pending).files;
            ManifestOk(files) && forall f :: f in files ==> Contains(pending.path, f.path)
  {
    var found := Answers(stored, pending);
    assert found[0] in found;
    ResolvedFits(w, found[0], s, found[0].resolution.value);
  }

  /** Takes each pending conflict's recorded resolution, or keeps it pending. */
  method ApplyResolutions(w: World, stored: seq<Stored>, s: Sides, plan: MergePlan.Plan) returns (r: Option<MergePlan.Plan>)
    ensures r.None? <==> exists c :: c in plan.conflicts && AnswerTo(w, stored, s, c).Failed?
    ensures r.Some? ==> Resolves(w, stored, s, plan, r.value)
    ensures r.Some? && PlanOk(plan) ==> PlanOk(r.value)
  {
    var merged, unresolved := plan.merged, [];
    ResolvingStarts(w, stored, s, plan);
    for i := 0 to |plan.conflicts|
      invariant Resolving(w, stored, s, plan, i, merged, unresolved)
    {
      var answer := AnswerTo(w, stored, s, plan.conflicts[i]);
      if answer.Failed? {
        assert plan.conflicts[i] in plan.conflicts;
        return None;
      }
      ResolvingStep(w, stored, s, plan, i, merged, unresolved);
      if answer.Closed? {
        merged := merged + answer.files;
      } else {
        unresolved := unresolved + [plan.conflicts[i]];
      }
    }
    ResolvingDone(w, stored, s, plan, merged, unresolved);
    return Some(Plan(merged, unresolved));
  }

  lemma ResolvingDone(w: World, stored: seq<Stored>, s: Sides, plan: MergePlan.Plan, merged: seq<FileEntry>, unresolved: seq<Pending>)
    requires Resolving(w, stored, s, plan, |plan.conflicts|, merged, unresolved)
    ensures Resolves(w, stored, s, plan, Plan(merged, unresolved))
    ensures PlanOk(plan) ==> PlanOk(Plan(merged, unresolved))
    ensures forall c :: c in plan.conflicts ==> !AnswerTo(w, stored, s, c).Failed?
  {
    assert plan.conflicts[..|plan.conflicts|] == plan.conflicts;
    assert plan.conflicts[|plan.conflicts|..] + unresolved == unresolved;
  }

  lemma ResolvingStarts(w: World, stored: seq<Stored>, s: Sides, plan: MergePlan.Plan)
    ensures Resolving(w, stored, s, plan, 0, plan.merged, [])
  {
    assert Plan(plan.merged, plan.conflicts[0..] + []) == plan;
  }

  /** The first `i` conflicts have been answered. */
  ghost predicate Resolving(w: World, stored: seq<Stored>, s: Sides, plan: MergePlan.Plan, i: int, merged: seq<FileEntry>, unresolved: seq<Pending>) {
    && 0 <= i <= |plan.conflicts|
    && plan.merged <= merged
    && (forall c :: c in plan.conflicts[..i] ==> !AnswerTo(w, stored, s, c).Failed?)
    && (forall c :: c in unresolved <==> c in plan.conflicts[..i] && AnswerTo(w, stored, s, c).Open?)
    && (forall f :: f in merged <==> f in plan.merged || Answered(w, stored, s, plan.conflicts[..i], f))
    && (PlanOk(plan) ==> PlanOk(Plan(merged, plan.conflicts[i..] + unresolved)))
  }

  lemma ResolvingStep(w: World, stored: seq<Stored>, s: Sides, plan: MergePlan.Plan, i: int, merged: seq<FileEntry>, unresolved: seq<Pending>)
    requires Resolving(w, stored, s, plan, i, merged, unresolved) && i < |plan.conflicts|
    ensures var answer := AnswerTo(w, stored, s, plan.conflicts[i]);
            && (answer.Closed? ==> Resolving(w, stored, s, plan, i + 1, merged + answer.files, unresolved))
            && (answer.Open? ==> Resolving(w, stored, s, plan, i + 1, merged, unresolved + [plan.conflicts[i]]))
  {
    AnsweredSnoc(w, stored, s, plan.conflicts, i);
    if PlanOk(plan) { AnswerKeepsOk(w, stored, s, merged, plan.conflicts[i..], unresolved); }
    assert plan.conflicts[i..][1..] == plan.conflicts[i + 1..];
  }

  /** Open conflicts stay, closed ones are replaced by their files, nothing else. */
  ghost predicate Resolves(w: World, stored: seq<Stored>, s: Sides, plan: MergePlan.Plan, plan': MergePlan.Plan) {
    && plan.merged <= plan'.merged
    && (forall c :: c in plan'.conflicts <==> c in plan.conflicts && AnswerTo(w, stored, s, c).Open?)
    && (forall f :: f in plan'.merged <==> f in plan.merged || Answered(w, stored, s, plan.conflicts, f))
  }

  ghost predicate Answered(w: World, stored: seq<Stored>, s: Sides, conflicts: seq<Pending>, f: FileEntry) {
    exists c :: c in conflicts && AnswerTo(w, stored, s, c).Closed? && f in AnswerTo(w, stored, s, c).files
  }

  lemma AnsweredSnoc(w: World, stored: seq<Stored>, s: Sides, conflicts: seq<Pending>, i: nat)
    requires i < |conflicts|
    ensures forall c :: c in conflicts[..i + 1] <==> c in conflicts[..i] || c == conflicts[i]
    ensures forall f :: Answered(w, stored, s, conflicts[..i + 1], f) <==>
      || Answered(w, stored, s, conflicts[..i], f)
      || (AnswerTo(w, stored, s, conflicts[i]).Closed? && f in AnswerTo(w, stored, s, conflicts[i]).files)
  {
    assert conflicts[..i + 1] == conflicts[..i] + [conflicts[i]];
  }

  lemma AnswerKeepsOk(w: World, stored: seq<Stored>, s: Sides, merged: seq<FileEntry>, todo: seq<Pending>, unresolved: seq<Pending>)
    requires todo != [] && PlanOk(Plan(merged, todo + unresolved))
    ensures var answer := AnswerTo(w, stored, s, todo[0]);
            && (answer.Closed? ==> PlanOk(Plan(merged + answer.files, todo[1..] + unresolved)))
            && (answer.Open? ==> PlanOk(Plan(merged, todo[1..] + (unresolved + [todo[0]]))))
  {
    var c, rest := todo[0], todo[1..] + unresolved;
    assert todo + unresolved == [c] + rest;
    HeadIsValid(merged, c, rest);
    var answer := AnswerTo(w, stored, s, c);
    if answer.Closed? {
      AnswerFits(w, stored, s, c);
      ReplaceKeepsOk(merged, c, rest, answer.files);
    }
    RotateKeepsOk(merged, c, rest);
    assert rest + [c] == todo[1..] + (unresolved + [c]);
  }
}
