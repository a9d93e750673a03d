/** Staging a checkout from one manifest to another.

    The checks run against the plan of all manifest paths, but only the paths that
    differ from their target are journaled, so commit later sees a smaller plan.
    The results here say that the smaller plan always passes commit, and that
    publishing it puts every manifest path on its target. */
module Checkout {
  import opened Common
  import opened WorkingTree
  import opened Publication
  import opened Transaction
  import CheckoutPaths

  datatype Entry = Entry(bytes: Bytes, executable: bool, symlink: bool)

  type Manifest = map<Path, Entry>

  function CheckoutPlan(before: Manifest, after: Manifest): Plan {
    map p | p in before.Keys + after.Keys :: Shape(p in before, p in after)
  }

  /** How a path reads when it is as the manifest says. */
  function Target(m: Manifest, p: Path): Current {
    if p in m then Current(Some(m[p].bytes), m[p].executable, m[p].symlink) else ABSENT
  }

  function UpdateTo(current: Current, target: Current): Update {
    Update(current.bytes, target.bytes,
           Some(current.executable), Some(target.executable),
           Some(current.symlink), Some(target.symlink))
  }

  ghost predicate PathAccepted(t: Tree, before: Manifest, after: Manifest, discard: bool, p: Path) {
    var current := CurrentAt(t, CheckoutPlan(before, after), p);
    && current.Some?
    && (p !in before ==> current.value.bytes.None?)
    && (!discard ==> current.value == Target(before, p))
    && (current.value != Target(after, p) && Target(after, p).symlink ==> ValidLink(Target(after, p).bytes))
  }

  /** All the checks of a checkout that is not refused. */
  ghost predicate Accepted(fold: Name -> Name, t: Tree, before: Manifest, after: Manifest, discard: bool) {
    var plan := CheckoutPlan(before, after);
    && ShapeOk(fold, plan) && ExistingOk(fold, t, plan)
    && forall p :: p in plan ==> PathAccepted(t, before, after, discard, p)
  }

  ghost predicate Differs(t: Tree, before: Manifest, after: Manifest, p: Path) {
    var plan := CheckoutPlan(before, after);
    p in plan && CurrentAt(t, plan, p).Some? && CurrentAt(t, plan, p).value != Target(after, p)
  }

  /** The updates an accepted checkout stages. */
  ghost function Staged(t: Tree, before: Manifest, after: Manifest): Updates {
    var plan := CheckoutPlan(before, after);
    map p | p in plan && Differs(t, before, after, p) :: UpdateTo(CurrentAt(t, plan, p).value, Target(after, p))
  }

  /** No target is an executable link, and a link on disk that is to change has a
      target that could be journaled. */
  ghost predicate SaneLinks(t: Tree, before: Manifest, after: Manifest) {
    && (forall p :: p in after && after[p].symlink ==> !after[p].executable)
    && (forall p :: p in CheckoutPlan(before, after) && IsLeaf(t, p) && t[p].Link? && Observe(t[p]) != Target(after, p) ==>
          ValidLink(Some(t[p].target)))
  }

  // -------------------------------------------- the smaller plan agrees

  /** A leaf in the way of a staged key is itself staged for removal. */
  lemma BlockerIsStaged(fold: Name -> Name, t: Tree, before: Manifest, after: Manifest, discard: bool, p: Path, k: Path)
    requires WellFormed(t) && Accepted(fold, t, before, after, discard)
    requires IsLeaf(t, p) && Under(p, k) && Differs(t, before, after, k)
    ensures Differs(t, before, after, p) && Observe(t[p]).bytes.Some?
    ensures CurrentAt(t, CheckoutPlan(before, after), k) == Some(ABSENT)
  {
    var plan := CheckoutPlan(before, after);
    assert Blocks(plan, p, k);
    assert PathAccepted(t, before, after, discard, p);
    assert p in AfterKeys(plan) <==> p in after;
    assert k in AfterKeys(plan) <==> k in after;
  }

  lemma SmallerShape(fold: Name -> Name, plan: Plan, small: Plan)
    requires ShapeOk(fold, plan) && small.Keys <= plan.Keys
    requires AfterKeys(small) <= AfterKeys(plan) && PrefixFree(BeforeKeys(small))
    ensures ShapeOk(fold, small)
  {
  }

  lemma LeavesDoNotNest(t: Tree, keys: set<Path>)
    requires WellFormed(t) && forall k :: k in keys ==> IsLeaf(t, k)
    ensures PrefixFree(keys)
  {
  }

  /** A staged path keeps its place in the plan, and was a leaf if it had bytes. */
  lemma StagedEntry(t: Tree, before: Manifest, after: Manifest, k: Path)
    requires k in Staged(t, before, after)
    ensures var shape := PlanOf(Staged(t, before, after))[k];
            k in CheckoutPlan(before, after) && (shape.after ==> k in after) && (shape.before ==> IsLeaf(t, k))
  {
  }

  lemma StagedShape(fold: Name -> Name, t: Tree, before: Manifest, after: Manifest, discard: bool)
    requires WellFormed(t) && Accepted(fold, t, before, after, discard)
    ensures ShapeOk(fold, PlanOf(Staged(t, before, after)))
  {
    var plan := CheckoutPlan(before, after);
    var small := PlanOf(Staged(t, before, after));
    forall k | k in small
      ensures k in plan && (small[k].after ==> plan[k].after) && (small[k].before ==> IsLeaf(t, k))
    {
      StagedEntry(t, before, after, k);
    }
    LeavesDoNotNest(t, BeforeKeys(small));
    SmallerShape(fold, plan, small);
  }

  lemma StagedExisting(fold: Name -> Name, t: Tree, before: Manifest, after: Manifest, discard: bool)
    requires WellFormed(t) && Accepted(fold, t, before, after, discard)
    ensures ExistingOk(fold, t, PlanOf(Staged(t, before, after)))
  {
    var small := PlanOf(Staged(t, before, after));
    assert small.Keys <= CheckoutPlan(before, after).Keys;
    forall k, p | k in small && IsLeaf(t, p) && Under(p, k)
      ensures p in small && (small[p].before || small[p].after)
    {
      BlockerIsStaged(fold, t, before, after, discard, p, k);
    }
  }

  lemma StagedReading(fold: Name -> Name, t: Tree, before: Manifest, after: Manifest, discard: bool, k: Path)
    requires WellFormed(t) && Accepted(fold, t, before, after, discard)
    requires Differs(t, before, after, k)
    ensures CurrentAt(t, PlanOf(Staged(t, before, after)), k) == CurrentAt(t, CheckoutPlan(before, after), k)
  {
    var plan := CheckoutPlan(before, after);
    var small := PlanOf(Staged(t, before, after));
    forall p | IsLeaf(t, p) && Under(p, k)
      ensures Blocks(small, p, k)
    {
      BlockerIsStaged(fold, t, before, after, discard, p, k);
    }
    if IsDir(t, k) && plan[k].after {
      forall p | p in t && Under(k, p) && !t[p].Dir?
        ensures p in small && small[p] == Shape(true, false)
      {
        assert plan[p] == Shape(true, false) && PathAccepted(t, before, after, discard, p);
        assert Differs(t, before, after, p);
      }
    }
  }

  /** A staged update is journaled exactly when its two links are sane. */
  lemma StagedIsValid(fold: Name -> Name, t: Tree, before: Manifest, after: Manifest, discard: bool, k: Path)
    requires WellFormed(t) && Accepted(fold, t, before, after, discard) && k in Staged(t, before, after)
    ensures ValidUpdate(Staged(t, before, after)[k]) <==>
      && (k in after && after[k].symlink ==> !after[k].executable)
      && (IsLeaf(t, k) && t[k].Link? ==> ValidLink(Some(t[k].target)))
  {
    assert PathAccepted(t, before, after, discard, k);
  }

  /** An executable link is never on target, so it is always staged. */
  lemma ExecutableLinkDiffers(fold: Name -> Name, t: Tree, before: Manifest, after: Manifest, discard: bool, p: Path)
    requires WellFormed(t) && Accepted(fold, t, before, after, discard)
    requires p in after && after[p].symlink && after[p].executable
    ensures p in Staged(t, before, after)
  {
    assert PathAccepted(t, before, after, discard, p);
  }

  /** A leaf off its target is staged. */
  lemma LeafDiffers(fold: Name -> Name, t: Tree, before: Manifest, after: Manifest, discard: bool, p: Path)
    requires WellFormed(t) && Accepted(fold, t, before, after, discard)
    requires p in CheckoutPlan(before, after) && IsLeaf(t, p)
    ensures p in Staged(t, before, after) <==> Observe(t[p]) != Target(after, p)
  {
    assert PathAccepted(t, before, after, discard, p);
  }

  lemma StagedAllValid(fold: Name -> Name, t: Tree, before: Manifest, after: Manifest, discard: bool)
    requires WellFormed(t) && Accepted(fold, t, before, after, discard)
    ensures ValidUpdates(Staged(t, before, after)) <==> SaneLinks(t, before, after)
  {
    var u := Staged(t, before, after);
    forall k | k in u
      ensures SaneLinks(t, before, after) ==> ValidUpdate(u[k])
    {
      StagedIsValid(fold, t, before, after, discard, k);
      if IsLeaf(t, k) { LeafDiffers(fold, t, before, after, discard, k); }
    }
    forall p | ValidUpdates(u) && p in after && after[p].symlink
      ensures !after[p].executable
    {
      if after[p].executable {
        ExecutableLinkDiffers(fold, t, before, after, discard, p);
        StagedIsValid(fold, t, before, after, discard, p);
      }
    }
    forall p | ValidUpdates(u) && p in CheckoutPlan(before, after) && IsLeaf(t, p) && t[p].Link? && Observe(t[p]) != Target(after, p)
      ensures ValidLink(Some(t[p].target))
    {
      LeafDiffers(fold, t, before, after, discard, p);
      StagedIsValid(fold, t, before, after, discard, p);
    }
  }

  /** What an accepted checkout stages passes the checks of commit exactly when its
      links are sane. */
  lemma CheckoutIsCommittable(fold: Name -> Name, t: Tree, before: Manifest, after: Manifest, discard: bool)
    requires WellFormed(t) && Accepted(fold, t, before, after, discard)
    ensures Committable(fold, t, Staged(t, before, after)) <==> SaneLinks(t, before, after)
  {
    var u := Staged(t, before, after);
    StagedShape(fold, t, before, after, discard);
    StagedExisting(fold, t, before, after, discard);
    StagedAllValid(fold, t, before, after, discard);
    forall k | k in u
      ensures KeyAccepted(t, u, k, true)
    {
      StagedReading(fold, t, before, after, discard, k);
      assert PathAccepted(t, before, after, discard, k);
    }
  }

  /** Such a checkout exists: an executable link is staged into an empty tree, and
      commit refuses it. */
  lemma ExecutableLinkIsRefused(fold: Name -> Name)
    ensures var t: Tree := map[];
            var after: Manifest := map[["a"] := Entry([1], true, true)];
            Accepted(fold, t, map[], after, false) && !Committable(fold, t, Staged(t, map[], after))
  {
    var t: Tree := map[];
    var after: Manifest := map[["a"] := Entry([1], true, true)];
    assert CheckoutPlan(map[], after).Keys == {["a"]};
    assert WellFormed(t);
    assert ValidKey(["a"]);
    assert CurrentAt(t, CheckoutPlan(map[], after), ["a"]) == Some(ABSENT);
    assert Accepted(fold, t, map[], after, false);
    CheckoutIsCommittable(fold, t, map[], after, false);
    assert after[["a"]].symlink && after[["a"]].executable;
  }

  // -------------------------------------------------- where it ends up

  ghost predicate OnTarget(t: Tree, after: Manifest, p: Path) {
    if p in after then IsLeaf(t, p) && Observe(t[p]) == Target(after, p) else !IsLeaf(t, p)
  }

  lemma UnstagedStays(fold: Name -> Name, t: Tree, before: Manifest, after: Manifest, discard: bool, p: Path)
    requires WellFormed(t) && Accepted(fold, t, before, after, discard)
    requires p in after && !Differs(t, before, after, p)
    ensures var u := Staged(t, before, after);
            IsLeaf(t, p) && Observe(t[p]) == Target(after, p) && FinalAt(t, u, p) == Some(t[p])
  {
    var plan := CheckoutPlan(before, after);
    var u := Staged(t, before, after);
    assert PathAccepted(t, before, after, discard, p);
    assert forall c :: Creates(u, c) ==> c in AfterKeys(plan);
    assert p in AfterKeys(plan);
    assert !AboveCreated(u, p) && !BelowCreated(u, p);
  }

  /** Publishing what was staged puts every path of either manifest on its target. */
  lemma CheckoutLands(fold: Name -> Name, t: Tree, before: Manifest, after: Manifest, discard: bool, t': Tree, p: Path)
    requires WellFormed(t) && Accepted(fold, t, before, after, discard) && SaneLinks(t, before, after)
    requires IsFinal(t, Staged(t, before, after), t')
    requires p in CheckoutPlan(before, after)
    ensures OnTarget(t', after, p)
  {
    var u := Staged(t, before, after);
    assert NodeAt(t', p) == FinalAt(t, u, p);
    assert PathAccepted(t, before, after, discard, p);
    if p in after {
      if Differs(t, before, after, p) {
        StagedSettles(t, before, after, p);
      } else {
        UnstagedStays(fold, t, before, after, discard, p);
      }
    }
  }

  /** A staged path with a target ends as a leaf that reads as the target. */
  lemma StagedSettles(t: Tree, before: Manifest, after: Manifest, p: Path)
    requires p in after && Differs(t, before, after, p)
    requires after[p].symlink ==> !after[p].executable && ValidLink(Some(after[p].bytes))
    ensures var n := FinalAt(t, Staged(t, before, after), p);
            n.Some? && !n.value.Dir? && Observe(n.value) == Target(after, p)
  {
    AfterNodeSettles(NodeAt(t, p), Staged(t, before, after)[p]);
  }

  // ------------------------------------------------------- the staging loop

  /** One iteration: checks a path and stages it if it is off its target. */
  method StageOne(tx: CommandTransaction, before: Manifest, after: Manifest, discard: bool, p: Path) returns (ok: bool)
    requires WellFormed(tx.dir.tree) && p in CheckoutPlan(before, after)
    modifies tx`working
    ensures ok <==> PathAccepted(tx.dir.tree, before, after, discard, p)
    ensures ok ==> tx.working == if Differs(tx.dir.tree, before, after, p)
                                 then old(tx.working)[p := Staged(tx.dir.tree, before, after)[p]]
                                 else old(tx.working)
  {
    var current := tx.dir.ReadCurrent(CheckoutPlan(before, after), p);
    if current.None? { return false; }
    if p !in before && current.value.bytes.Some? { return false; }
    if !discard && current.value != Target(before, p) { return false; }
    if current.value != Target(after, p) {
      ok := tx.StageWorking(p, UpdateTo(current.value, Target(after, p)));
      return;
    }
    return true;
  }

  method StageAll(tx: CommandTransaction, before: Manifest, after: Manifest, discard: bool) returns (ok: bool)
    requires WellFormed(tx.dir.tree)
    modifies tx`working
    ensures ok <==> forall p :: p in CheckoutPlan(before, after) ==> PathAccepted(tx.dir.tree, before, after, discard, p)
    ensures ok ==> tx.working == old(tx.working) + Staged(tx.dir.tree, before, after)
  {
    var keys := before.Keys + after.Keys;
    var rest := keys;
    while rest != {}
      invariant rest <= keys
      invariant forall p :: p in keys && p !in rest ==> PathAccepted(tx.dir.tree, before, after, discard, p)
      invariant tx.working == old(tx.working) + StagedPart(tx.dir.tree, before, after, keys - rest)
    {
      var p :| p in rest;
      StagedGrows(tx.dir.tree, before, after, old(tx.working), keys - rest, p);
      ok := StageOne(tx, before, after, discard, p);
      if !ok { return; }
      assert keys - (rest - {p}) == keys - rest + {p};
      rest := rest - {p};
    }
    StagedInFull(tx.dir.tree, before, after);
    assert keys - rest == keys;
    return true;
  }

  /** Checks every path of both manifests and stages those off their target. */
  method StageCheckout(tx: CommandTransaction, before: Manifest, after: Manifest, discard: bool) returns (ok: bool)
    requires WellFormed(tx.dir.tree)
    modifies tx`working
    ensures ok <==> Accepted(tx.fold, tx.dir.tree, before, after, discard)
    ensures ok ==> tx.working == old(tx.working) + Staged(tx.dir.tree, before, after)
  {
    var plan := CheckoutPlan(before, after);
    ok := CheckoutPaths.ValidateShape(tx.fold, plan);
    if !ok { return; }
    ok := CheckoutPaths.ValidateExisting(tx.fold, tx.dir.tree, plan);
    if !ok { return; }
    ok := StageAll(tx, before, after, discard);
  }

  lemma StagedInFull(t: Tree, before: Manifest, after: Manifest)
    ensures StagedPart(t, before, after, before.Keys + after.Keys) == Staged(t, before, after)
  {
  }

  ghost function StagedPart(t: Tree, before: Manifest, after: Manifest, done: set<Path>): Updates {
    Part(Staged(t, before, after), done)
  }

  lemma StagedGrows(t: Tree, before: Manifest, after: Manifest, w: Updates, done: set<Path>, p: Path)
    ensures w + StagedPart(t, before, after, done + {p}) ==
              if Differs(t, before, after, p)
              then (w + StagedPart(t, before, after, done))[p := Staged(t, before, after)[p]]
              else w + StagedPart(t, before, after, done)
  {
    var u := Staged(t, before, after);
    assert p in u <==> Differs(t, before, after, p);
    PartGrows(u, w, done, p);
  }

  lemma PartGrows(u: Updates, w: Updates, done: set<Path>, p: Path)
    ensures w + Part(u, done + {p}) == if p in u then (w + Part(u, done))[p := u[p]] else w + Part(u, done)
  {
    assert Part(u, done + {p}) == if p in u then Part(u, done)[p := u[p]] else Part(u, done);
  }

  ghost function Part(u: Updates, done: set<Path>): Updates {
    map k | k in u && k in done :: u[k]
  }
}
