/** What a checkout guarantees, told from trees and manifests alone: local work survives,
    a clean tree is accepted, and every path ends as its manifest says. */
module CheckoutGuarantees {
  import opened Common
  import opened WorkingTree
  import opened Publication
  import opened Checkout

  /** The node holds the entry: same bytes, same link kind, same executable flag. */
  predicate Is(n: Node, e: Entry) {
    match n
    case Dir => false
    case File(bytes, executable) => !e.symlink && bytes == e.bytes && executable == e.executable
    case Link(target) => e.symlink && !e.executable && target == e.bytes
  }

  lemma IsTarget(n: Node, m: Manifest, p: Path)
    requires !n.Dir? && p in m
    ensures Is(n, m[p]) <==> Observe(n) == Target(m, p)
  {
  }

  // --------------------------------------------------------- local work stays

  /** A leaf on a path of either manifest is tracked, and unless changes are discarded it
      is as it was recorded. */
  lemma AcceptedLeaf(fold: Name -> Name, t: Tree, before: Manifest, after: Manifest, discard: bool, p: Path)
    requires WellFormed(t) && Accepted(fold, t, before, after, discard)
    requires p in CheckoutPlan(before, after) && IsLeaf(t, p)
    ensures p in before && (!discard ==> Is(t[p], before[p]))
  {
    assert PathAccepted(t, before, after, discard, p);
    assert Observe(t[p]).bytes.Some?;
    if p in before { IsTarget(t[p], before, p); }
  }

  /** A leaf outside both manifests is not in the way of a staged path. */
  lemma UnplannedIsClear(fold: Name -> Name, t: Tree, before: Manifest, after: Manifest, discard: bool, p: Path, c: Path)
    requires WellFormed(t) && Accepted(fold, t, before, after, discard)
    requires IsLeaf(t, p) && p !in CheckoutPlan(before, after) && Creates(Staged(t, before, after), c)
    ensures !Under(p, c) && !Under(c, p)
  {
    if Under(p, c) { BlockerIsStaged(fold, t, before, after, discard, p, c); }
    assert PathAccepted(t, before, after, discard, c);
    assert Under(c, p) ==> IsDir(t, c);
  }

  lemma UnplannedStays(fold: Name -> Name, t: Tree, before: Manifest, after: Manifest, discard: bool, p: Path)
    requires WellFormed(t) && Accepted(fold, t, before, after, discard)
    requires IsLeaf(t, p) && p !in CheckoutPlan(before, after)
    ensures FinalAt(t, Staged(t, before, after), p) == Some(t[p])
  {
    var u := Staged(t, before, after);
    forall c | Creates(u, c)
      ensures !Under(p, c) && !Under(c, p)
    {
      UnplannedIsClear(fold, t, before, after, discard, p, c);
    }
  }

  /** After an accepted checkout every untracked file or link is still there, and without
      `discard` so is every tracked one that was changed locally. */
  lemma LocalWorkSurvives(fold: Name -> Name, t: Tree, before: Manifest, after: Manifest, discard: bool, t': Tree, p: Path)
    requires WellFormed(t) && Accepted(fold, t, before, after, discard) && IsFinal(t, Staged(t, before, after), t')
    requires IsLeaf(t, p) && (p !in before || (!discard && !Is(t[p], before[p])))
    ensures p in t' && t'[p] == t[p]
  {
    if p in CheckoutPlan(before, after) {
      AcceptedLeaf(fold, t, before, after, discard, p);
    } else {
      UnplannedStays(fold, t, before, after, discard, p);
      assert NodeAt(t', p) == FinalAt(t, Staged(t, before, after), p);
    }
  }

  // ------------------------------------------------------ where paths end up

  /** Every path of the new manifest holds its entry, and every path only the old one had
      holds no file or link any more. */
  lemma CheckoutIsExact(fold: Name -> Name, t: Tree, before: Manifest, after: Manifest, discard: bool, t': Tree, p: Path)
    requires WellFormed(t) && Accepted(fold, t, before, after, discard) && SaneLinks(t, before, after)
    requires IsFinal(t, Staged(t, before, after), t')
    ensures p in after ==> p in t' && Is(t'[p], after[p])
    ensures p in before && p !in after ==> !IsLeaf(t', p)
  {
    if p in before || p in after {
      CheckoutLands(fold, t, before, after, discard, t', p);
      if p in after { IsTarget(t'[p], after, p); }
    }
  }

  // ---------------------------------------------------- clean trees are accepted

  /** The tree's files and links are exactly the manifest's entries. */
  ghost predicate HoldsExactly(t: Tree, m: Manifest) {
    && (forall p :: IsLeaf(t, p) <==> p in m)
    && (forall p :: p in m ==> p in t && Is(t[p], m[p]))
    && (forall p :: p in t && t[p].Dir? ==> ValidKey(p))
  }

  lemma CleanCurrent(fold: Name -> Name, t: Tree, before: Manifest, after: Manifest, p: Path)
    requires WellFormed(t) && HoldsExactly(t, before) && ShapeOk(fold, CheckoutPlan(before, after))
    requires p in CheckoutPlan(before, after)
    ensures CurrentAt(t, CheckoutPlan(before, after), p) == Some(Target(before, p))
  {
    var plan := CheckoutPlan(before, after);
    forall q | IsLeaf(t, q) && Under(q, p)
      ensures Blocks(plan, q, p)
    {
      assert q in BeforeKeys(plan);
      assert p in before ==> p in BeforeKeys(plan);
    }
    forall q | q in t && Under(p, q) && p in after
      ensures ValidKey(q) && (t[q].Dir? || (q in plan && plan[q] == Shape(true, false)))
    {
      assert p in AfterKeys(plan);
      assert q in after ==> q in AfterKeys(plan);
      if !t[q].Dir? { assert q in before && ValidKey(q); }
    }
    if p in before { IsTarget(t[p], before, p); }
  }

  /** A tree that holds exactly the old manifest passes the check of every path, with or
      without `discard`, if the new links have targets. */
  lemma CleanTreePasses(fold: Name -> Name, t: Tree, before: Manifest, after: Manifest, discard: bool, p: Path)
    requires WellFormed(t) && HoldsExactly(t, before) && ShapeOk(fold, CheckoutPlan(before, after))
    requires forall q :: q in after && after[q].symlink ==> ValidLink(Some(after[q].bytes))
    requires p in CheckoutPlan(before, after)
    ensures PathAccepted(t, before, after, discard, p)
  {
    CleanCurrent(fold, t, before, after, p);
  }

  /** The checkout of a clean tree is accepted as a whole, if nothing on disk is spelled
      like a planned path with other letters. */
  lemma CleanTreeIsAccepted(fold: Name -> Name, t: Tree, before: Manifest, after: Manifest, discard: bool)
    requires WellFormed(t) && HoldsExactly(t, before) && ShapeOk(fold, CheckoutPlan(before, after))
    requires ExistingOk(fold, t, CheckoutPlan(before, after))
    requires forall q :: q in after && after[q].symlink ==> ValidLink(Some(after[q].bytes))
    ensures Accepted(fold, t, before, after, discard)
  {
    forall p | p in CheckoutPlan(before, after)
      ensures PathAccepted(t, before, after, discard, p)
    {
      CleanTreePasses(fold, t, before, after, discard, p);
    }
  }
}
