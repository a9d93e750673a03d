/** Laws of the merge plan: agreement of two inputs, and exchange of the two sides. */
module MergeLaws {
  import opened MergePlan

  ghost predicate Collisionless(m: Manifest) {
    forall p, q :: p in m && q in m ==> !(p < q)
  }

  ghost predicate IsManifest(plan: Plan, m: Manifest) {
    && plan.conflicts == [] && DistinctBy(plan.merged, FilePath)
    && forall f :: f in plan.merged <==> f.path in m && m[f.path] == f
  }

  /** If every path comes to what one manifest holds, the plan is that manifest, without
      conflict exactly when that manifest has no file where it needs a directory. */
  lemma OneSideDecides(base: Manifest, line: Manifest, incoming: Manifest, plan: Plan, side: Manifest)
    requires Keyed(side) && side.Keys <= base.Keys + line.Keys + incoming.Keys
    requires Plans(base, line, incoming, plan)
    requires forall p :: Chosen(base, line, incoming, p) == Take(EntryAt(side, p))
    ensures Collisionless(side) <==> plan.conflicts == []
    ensures Collisionless(side) ==> IsManifest(plan, side)
  {
    var live := Live(base, line, incoming);
    SideIsLive(base, line, incoming, side);
    assert plan.conflicts != [] ==> plan.conflicts[0] in plan.conflicts;
    if !Collisionless(side) {
      var p, q :| p in side && q in side && p < q;
      var r := TopAbove(live, p, q);
      assert Pending(r, FileDirectory) in plan.conflicts;
    }
  }

  lemma SideIsLive(base: Manifest, line: Manifest, incoming: Manifest, side: Manifest)
    requires Keyed(side) && side.Keys <= base.Keys + line.Keys + incoming.Keys
    requires forall p :: Chosen(base, line, incoming, p) == Take(EntryAt(side, p))
    ensures Live(base, line, incoming) == side.Keys
    ensures forall c :: !Conflicts(base, line, incoming, c)
    ensures forall f :: Lists(base, line, incoming, f) <==> f.path in side && side[f.path] == f
  {
  }

  /** When two of the three inputs agree the merge is the remaining side: no conflict
      can arise from a valid manifest. */
  lemma TwoAgree(base: Manifest, line: Manifest, incoming: Manifest, plan: Plan)
    requires Keyed(base) && Keyed(line) && Keyed(incoming) && Plans(base, line, incoming, plan)
    ensures line == incoming && Collisionless(line) ==> IsManifest(plan, line)
    ensures base == line && Collisionless(incoming) ==> IsManifest(plan, incoming)
    ensures base == incoming && Collisionless(line) ==> IsManifest(plan, line)
  {
    forall p { DecideExactly(EntryAt(base, p), EntryAt(line, p), EntryAt(incoming, p)); }
    if line == incoming || base == incoming {
      OneSideDecides(base, line, incoming, plan, line);
    }
    if base == line {
      OneSideDecides(base, line, incoming, plan, incoming);
    }
  }

  /** Exchanging the sides keeps the merged files, the conflict paths and the kinds. */
  lemma SidesExchange(base: Manifest, line: Manifest, incoming: Manifest, plan: Plan, swapped: Plan)
    requires Plans(base, line, incoming, plan) && Plans(base, incoming, line, swapped)
    ensures forall f :: f in plan.merged <==> f in swapped.merged
    ensures forall c :: c in plan.conflicts <==> c in swapped.conflicts
    ensures |plan.merged| == |swapped.merged| && |plan.conflicts| == |swapped.conflicts|
  {
    forall p
      ensures Chosen(base, line, incoming, p) == Chosen(base, incoming, line, p)
    {
      DecideExactly(EntryAt(base, p), EntryAt(line, p), EntryAt(incoming, p));
    }
    assert Live(base, line, incoming) == Live(base, incoming, line);
    SameLength(plan.merged, swapped.merged, FilePath);
    SameLength(plan.conflicts, swapped.conflicts, ConflictPath);
  }

  lemma SameLength<T(!new)>(a: seq<T>, b: seq<T>, key: T -> Key)
    requires DistinctBy(a, key) && DistinctBy(b, key) && forall x :: x in a <==> x in b
    ensures |a| == |b|
  {
    ListingSize(a, key);
    ListingSize(b, key);
    assert (set x | x in a) == (set x | x in b);
  }

  lemma {:induction false} ListingSize<T(!new)>(a: seq<T>, key: T -> Key)
    requires DistinctBy(a, key)
    ensures |a| == |set x | x in a|
  {
    if a != [] {
      var init, last := a[..|a| - 1], a[|a| - 1];
      ListingSize(init, key);
      assert last !in init;
      assert (set x | x in a) == (set x | x in init) + {last};
    }
  }
}
