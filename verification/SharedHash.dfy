/** An input on which the content check refuses a valid merge: a symbolic link whose
    target text is also the result of a text merge. */
module SharedHash {
  import opened Common
  import opened MergePlan
  import opened Integration
  import opened TextMerge
  import opened TextPass
  import opened LineIntegration

  const A: Bytes := [97, 10]
  const B: Bytes := [98, 10]
  const FOO: Bytes := [102, 111, 111]

  lemma OneEdit(base: seq<Bytes>, e: Edit<Bytes>, cursor: int)
    requires 0 <= cursor <= e.start <= e.end <= |base|
    ensures Ordered([e], cursor, |base|) && Spliced(base, [e], cursor) == base[cursor..e.start] + e.replacement + base[e.end..]
  {
    var none: seq<Edit<Bytes>> := [];
    assert [e][1..] == none && Ordered(none, e.end, |base|);
  }

  lemma TwoDeletions(base: seq<Bytes>, e: Edit<Bytes>, f: Edit<Bytes>)
    requires e == Edit(0, 1, []) && f == Edit(1, 2, []) && |base| == 3
    ensures Ordered([e], 0, 3) && Apply(base, [e]) == base[1..]
    ensures Ordered([f], 0, 3) && Apply(base, [f]) == [base[0], base[2]]
    ensures Ordered([e, f], 0, 3) && Apply(base, [e, f]) == [base[2]]
  {
    OneEdit(base, e, 0);
    OneEdit(base, f, 0);
    OneEdit(base, f, 1);
    assert [e, f][1..] == [f];
  }

  /** One side deletes the first line, the other the second: the edits touch, neither is
      an insertion, and what is left is the last line. */
  lemma TouchingDeletionsMerge(style: Style<Bytes>)
    requires StrictOrder(style.less) && style.width(FOO) <= TextMerge.FILE_LIMIT
    ensures var base, x, y := [A, B, FOO], [Edit(0, 1, [])], [Edit(1, 2, [])];
            && Script(base, [B, FOO], x) && Script(base, [A, FOO], y)
            && Merged(style, base, x, y) == Some([FOO])
  {
    var base := [A, B, FOO];
    var e, f: Edit<Bytes> := Edit(0, 1, []), Edit(1, 2, []);
    TwoDeletions(base, e, f);
    assert base[1..] == [B, FOO];
    CombinedExactly(style.less, [e], [f]);
    RisingIsUnique(style.less, Combined(style.less, [e], [f]), [e, f]);
    assert Width(style.width, [FOO]) == Width(style.width, []) + style.width(FOO);
  }

  const TEXT: Key := ["t"]
  const LINK: Key := ["l"]

  /** Three different versions of one text file, and a link that all three sides hold. */
  ghost predicate Scene(t: Texts, b: FileEntry, l: FileEntry, i: FileEntry, link: FileEntry) {
    && b.path == l.path == i.path == TEXT && b != l && b != i && l != i
    && Alike(b, b) && Alike(l, b) && Alike(i, b) && t.merge(b, l, i) == MergedText(FOO)
    && link.path == LINK && link.symlink && link.hash == t.hash(FOO) && link.bytes == |FOO|
  }

  function Scenes(b: FileEntry, l: FileEntry, i: FileEntry, link: FileEntry): Sides {
    Sides([b, link], [l, link], [i, link])
  }

  lemma SceneMap(f: FileEntry, link: FileEntry)
    requires f.path == TEXT && link.path == LINK
    ensures ManifestMap([f, link]) == map[TEXT := f, LINK := link]
  {
    assert [f, link][..1] == [f] && [f][..0] == [];
    assert ManifestMap([f]) == map[TEXT := f];
  }

  /** The plan: the link is merged, the text is the one conflict. */
  lemma ScenePlan(t: Texts, b: FileEntry, l: FileEntry, i: FileEntry, link: FileEntry, plan: Plan)
    requires Scene(t, b, l, i, link)
    requires var s := Scenes(b, l, i, link); Plans(ManifestMap(s.base), ManifestMap(s.line), ManifestMap(s.incoming), plan)
    ensures link in plan.merged
    ensures forall c :: c in plan.conflicts <==> c == Pending(TEXT, BothModified)
  {
    SceneMap(b, link);
    SceneMap(l, link);
    SceneMap(i, link);
    var base, line, incoming := map[TEXT := b, LINK := link], map[TEXT := l, LINK := link], map[TEXT := i, LINK := link];
    assert Chosen(base, line, incoming, TEXT) == Clash(BothModified);
    assert Chosen(base, line, incoming, LINK) == Take(Some(link));
    assert forall p: Key :: p != TEXT && p != LINK ==> Chosen(base, line, incoming, p) == Take(None);
    assert Live(base, line, incoming) == {TEXT, LINK};
    assert !(TEXT < LINK) && !(LINK < TEXT) by { assert TEXT[0] != LINK[0]; }
    assert !(TEXT < TEXT) && !(LINK < LINK);
  }

  lemma OneConflict(conflicts: seq<Pending>, c: Pending)
    requires DistinctBy(conflicts, ConflictPath) && forall d :: d in conflicts <==> d == c
    ensures conflicts == [c]
  {
    assert c in conflicts;
    if |conflicts| > 1 { TwoMembers(conflicts); }
  }

  lemma TwoMembers(conflicts: seq<Pending>)
    requires DistinctBy(conflicts, ConflictPath) && |conflicts| > 1
    ensures exists c, d :: c in conflicts && d in conflicts && c != d
  {
    assert ConflictPath(conflicts[0]) != ConflictPath(conflicts[1]);
    assert conflicts[0] in conflicts && conflicts[1] in conflicts;
  }

  lemma SomeMember(conflicts: seq<Pending>)
    requires conflicts != []
    ensures exists c :: c in conflicts
  {
    assert conflicts[0] in conflicts;
  }

  lemma SceneResolved(w: World, t: Texts, b: FileEntry, l: FileEntry, i: FileEntry, link: FileEntry, x: Stages)
    requires Scene(t, b, l, i, link)
    requires var s := Scenes(b, l, i, link);
             && Plans(ManifestMap(s.base), ManifestMap(s.line), ManifestMap(s.incoming), x.planned)
             && Resolves(w, [], s, x.planned, x.resolved) && PlanOk(x.resolved)
    ensures x.resolved.conflicts == [Pending(TEXT, BothModified)] && link in x.resolved.merged
  {
    ScenePlan(t, b, l, i, link, x.planned);
    NothingRecorded(w, Scenes(b, l, i, link));
    OneConflict(x.resolved.conflicts, Pending(TEXT, BothModified));
  }

  lemma NothingRecorded(w: World, s: Sides)
    ensures forall c :: AnswerTo(w, [], s, c).Open?
  {
  }

  /** Without resolutions nothing fails. */
  lemma SceneDoesNotFail(w: World, t: Texts, b: FileEntry, l: FileEntry, i: FileEntry, link: FileEntry, x: Stages)
    requires Scene(t, b, l, i, link)
    ensures !Fails(w, t, [], Scenes(b, l, i, link), x)
  {
    var s := Scenes(b, l, i, link);
    SceneIsSafe(b, l, i, link, t);
    NothingRecorded(w, s);
    SceneMerges(t, b, l, i, link);
    if Plans(ManifestMap(s.base), ManifestMap(s.line), ManifestMap(s.incoming), x.planned)
       && Resolves(w, [], s, x.planned, x.resolved) && PlanOk(x.resolved) {
      SceneResolved(w, t, b, l, i, link, x);
    }
  }

  /** The text merges and the link is refused. */
  lemma SceneIsRefused(w: World, t: Texts, b: FileEntry, l: FileEntry, i: FileEntry, link: FileEntry, x: Stages)
    requires Scene(t, b, l, i, link) && Staged(w, t, [], Scenes(b, l, i, link), x)
    ensures x.final.conflicts == [] && link in x.final.merged && !ContentOk(w, t, x.generated, link)
  {
    SceneIsSafe(b, l, i, link, t);
    SceneResolved(w, t, b, l, i, link, x);
    SceneMerges(t, b, l, i, link);
    if x.final.conflicts != [] { SomeMember(x.final.conflicts); }
  }

  lemma SceneIsSafe(b: FileEntry, l: FileEntry, i: FileEntry, link: FileEntry, t: Texts)
    requires Scene(t, b, l, i, link)
    ensures SafeSides(Scenes(b, l, i, link))
  {
  }

  lemma SceneMerges(t: Texts, b: FileEntry, l: FileEntry, i: FileEntry, link: FileEntry)
    requires Scene(t, b, l, i, link)
    ensures var m, cs := SourcesOf(Scenes(b, l, i, link)), [Pending(TEXT, BothModified)];
            && OutcomeAt(t, m, cs, 0) == MergedText(FOO)
            && ContentBefore(t, m, cs, 1, FOO)
            && forall c :: !PendingBefore(t, m, cs, 1, c)
  {
    SceneMap(b, link);
    SceneMap(l, link);
    SceneMap(i, link);
    var m, cs := SourcesOf(Scenes(b, l, i, link)), [Pending(TEXT, BothModified)];
    assert TotalBefore(t, m, cs, 0) == 0;
    assert Eligible(cs[0], m, 0);
  }

  /** The integration of that input is rejected, in every world: also where each of its
      files verifies. */
  method LinkIsRefused(w: World, t: Texts, b: FileEntry, l: FileEntry, i: FileEntry, link: FileEntry) returns (r: Outcome)
    requires Scene(t, b, l, i, link)
    ensures r.Rejected?
  {
    var x;
    r, x := Integrate(w, t, [], Scenes(b, l, i, link));
    SceneDoesNotFail(w, t, b, l, i, link, x);
    SceneIsRefused(w, t, b, l, i, link, x);
  }
}
