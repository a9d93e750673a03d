/** The checks that run before anything is journaled or published: portable
    aliases among the planned paths, file/directory collisions on either side,
    and alternate spellings already on disk. */
module CheckoutPaths {
  import opened WorkingTree

  ghost predicate Recorded(fold: Name -> Name, m: map<Path, Path>, done: set<Path>) {
    && (forall a, i :: a in done && 0 < i <= |a| ==> Records(fold, m, a[..i]))
    && (forall f :: f in m ==> FromSome(fold, done, f, m[f]))
  }

  ghost predicate Records(fold: Name -> Name, m: map<Path, Path>, p: Path) {
    FoldPath(fold, p) in m && m[FoldPath(fold, p)] == p
  }

  ghost predicate FromSome(fold: Name -> Name, done: set<Path>, f: Path, p: Path) {
    f == FoldPath(fold, p) && exists a, i :: a in done && 0 < i <= |a| && p == a[..i]
  }

  /** Inserts every prefix of one path; fails on a second spelling. */
  method InsertPrefixes(fold: Name -> Name, prefixes: map<Path, Path>, path: Path, ghost done: set<Path>)
    returns (ok: bool, m: map<Path, Path>)
    requires Recorded(fold, prefixes, done)
    ensures ok ==> Recorded(fold, m, done + {path})
    ensures !ok ==> exists b, i, j :: (
              && b in done + {path} && 0 < i <= |path| && 0 < j <= |b|
              && FoldPath(fold, path[..i]) == FoldPath(fold, b[..j]) && path[..i] != b[..j])
  {
    m := prefixes;
    ghost var all := done + {path};
    assert forall f :: f in m ==> FromSome(fold, all, f, m[f]);
    for n := 0 to |path|
      invariant forall a, i :: a in done && 0 < i <= |a| ==> Records(fold, m, a[..i])
      invariant forall i :: 0 < i <= n ==> Records(fold, m, path[..i])
      invariant forall f :: f in m ==> FromSome(fold, all, f, m[f])
    {
      var prefix := path[..n + 1];
      var folded := FoldPath(fold, prefix);
      if folded in m && m[folded] != prefix {
        assert FromSome(fold, all, folded, m[folded]);
        return false, m;
      }
      ghost var before := m;
      m := m[folded := prefix];
      assert FromSome(fold, all, folded, prefix);
      assert forall p :: Records(fold, before, p) ==> Records(fold, m, p);
      assert Records(fold, m, path[..n + 1]);
    }
    return true, m;
  }

  /** Every prefix is compared, not just whole names. */
  method ValidateAliases(fold: Name -> Name, keys: set<Path>) returns (ok: bool)
    ensures ok <==> (forall k :: k in keys ==> ValidKey(k)) && AliasFree(fold, keys)
  {
    var prefixes: map<Path, Path> := map[];
    var rest := keys;
    while rest != {}
      invariant rest <= keys
      invariant Recorded(fold, prefixes, keys - rest)
      invariant forall k :: k in keys - rest ==> ValidKey(k)
    {
      var path :| path in rest;
      if !ValidKey(path) { return false; }
      var fine;
      fine, prefixes := InsertPrefixes(fold, prefixes, path, keys - rest);
      if !fine { return false; }
      assert keys - rest + {path} == keys - (rest - {path});
      rest := rest - {path};
    }
    assert keys - rest == keys;
    forall a, b, i, j | a in keys && b in keys && 0 < i <= |a| && 0 < j <= |b|
                        && FoldPath(fold, a[..i]) == FoldPath(fold, b[..j])
      ensures a[..i] == b[..j]
    {
      assert Records(fold, prefixes, a[..i]) && Records(fold, prefixes, b[..j]);
    }
    return true;
  }

  /** No file of the set is a directory of another. */
  method CollisionFree(files: set<Path>) returns (ok: bool)
    ensures ok <==> PrefixFree(files)
  {
    var rest := files;
    while rest != {}
      invariant rest <= files
      invariant forall a, b :: a in files && b in files - rest ==> !Under(a, b)
    {
      var key :| key in rest;
      for i := 0 to |key|
        invariant forall j :: 0 <= j < i ==> key[..j] !in files
      {
        if key[..i] in files {
          assert Under(key[..i], key);
          return false;
        }
      }
      rest := rest - {key};
    }
    return true;
  }

  /** `ShapePlan::new`. */
  method ValidateShape(fold: Name -> Name, plan: Plan) returns (ok: bool)
    ensures ok <==> ShapeOk(fold, plan)
  {
    ok := ValidateAliases(fold, plan.Keys);
    if !ok { return; }
    ok := CollisionFree(BeforeKeys(plan));
    if !ok { return; }
    ok := CollisionFree(AfterKeys(plan));
  }

  method ValidateUpdates(u: Updates) returns (ok: bool)
    ensures ok <==> ValidUpdates(u)
  {
    var rest := u.Keys;
    while rest != {}
      invariant rest <= u.Keys
      invariant forall k :: k in u && k !in rest ==> ValidUpdate(u[k])
    {
      var k :| k in rest;
      if !ValidUpdate(u[k]) { return false; }
      rest := rest - {k};
    }
    return true;
  }

  ghost predicate KeyFits(fold: Name -> Name, t: Tree, plan: Plan, k: Path) {
    && (forall q :: q in t ==> Spelled(fold, q, k))
    && (forall p :: IsLeaf(t, p) && Under(p, k) ==> p in plan && (plan[p].before || plan[p].after))
  }

  /** `q` is not another spelling of a prefix of `k`. */
  predicate Spelled(fold: Name -> Name, q: Path, k: Path) {
    q != [] && |q| <= |k| && Parent(q) == k[..|q| - 1] && fold(q[|q| - 1]) == fold(k[|q| - 1])
    ==> q == k[..|q|]
  }

  /** No entry of this directory spells the key's next component differently. */
  predicate LevelOk(fold: Name -> Name, t: Tree, k: Path, i: nat)
    requires i < |k|
  {
    forall q | q in Children(t, k[..i]) :: fold(q[i]) == fold(k[i]) ==> q[i] == k[i]
  }

  lemma LevelIsSpelling(fold: Name -> Name, t: Tree, k: Path, i: nat)
    requires WellFormed(t) && i < |k|
    ensures LevelOk(fold, t, k, i) <==> forall q :: q in t && |q| == i + 1 ==> Spelled(fold, q, k)
  {
    var parent := k[..i];
    forall q | q in t && |q| == i + 1
      ensures (q in Children(t, parent) <==> Parent(q) == parent)
      ensures Parent(q) == parent ==> (q == k[..i + 1] <==> q[i] == k[i])
    {
      if Parent(q) == parent { assert q == parent + [q[i]] && k[..i + 1] == parent + [k[i]]; }
    }
  }

  /** Walks one key down through the existing directories. */
  method KeyFitsOnDisk(fold: Name -> Name, t: Tree, plan: Plan, k: Path) returns (ok: bool)
    requires WellFormed(t)
    ensures ok <==> KeyFits(fold, t, plan, k)
  {
    for i := 0 to |k|
      invariant IsDir(t, k[..i])
      invariant forall q :: q in t && |q| <= i ==> Spelled(fold, q, k)
      invariant forall p :: Under(p, k) && |p| <= i ==> !IsLeaf(t, p)
    {
      LevelIsSpelling(fold, t, k, i);
      if !LevelOk(fold, t, k, i) { return false; }
      var prefix := k[..i + 1];
      if !IsDir(t, prefix) {
        NothingSpelledBeyond(fold, t, k, i);
        if i + 1 == |k| || prefix !in t { return true; }
        assert Under(prefix, k) && IsLeaf(t, prefix);
        return prefix in plan && (plan[prefix].before || plan[prefix].after);
      }
    }
    return true;
  }

  /** Past a prefix that is no directory, nothing on disk concerns the key. */
  lemma NothingSpelledBeyond(fold: Name -> Name, t: Tree, k: Path, i: nat)
    requires WellFormed(t) && i < |k| && !IsDir(t, k[..i + 1])
    ensures forall q :: q in t && |q| > i + 1 ==> Spelled(fold, q, k)
    ensures forall p :: IsLeaf(t, p) && Under(p, k) && |p| > i ==> p == k[..i + 1]
  {
    var prefix := k[..i + 1];
    forall q | q in t && |q| > i + 1
      ensures Spelled(fold, q, k)
    {
      assert Parent(q)[..i + 1] == q[..i + 1];
      if |q| <= |k| && Parent(q) == k[..|q| - 1] {
        assert k[..|q| - 1][..i + 1] == prefix;
      }
      assert q[..i + 1] == prefix ==> Under(prefix, q);
    }
    forall p | IsLeaf(t, p) && Under(p, k) && |p| > i
      ensures p == prefix
    {
      assert p[..i + 1] == prefix;
      if |p| > i + 1 { assert Under(prefix, p); }
    }
  }

  method ValidateExisting(fold: Name -> Name, t: Tree, plan: Plan) returns (ok: bool)
    requires WellFormed(t)
    ensures ok <==> ExistingOk(fold, t, plan)
  {
    var rest := plan.Keys;
    while rest != {}
      invariant rest <= plan.Keys
      invariant forall k :: k in plan && k !in rest ==> KeyFits(fold, t, plan, k)
    {
      var k :| k in rest;
      var fits := KeyFitsOnDisk(fold, t, plan, k);
      if !fits { return false; }
      rest := rest - {k};
    }
    assert forall k, q :: k in plan && q in t ==> Spelled(fold, q, k);
    return true;
  }
}
