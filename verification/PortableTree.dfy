/** The portable-collision trie: the first pair of paths that cannot coexist in one tree
    on a file system that folds case. */
module PortableTree {
  import opened Common
  import opened WorkingTree

  type Fold = Name -> Name

  /** One path needs the other as a directory, or they part at two spellings of the
      same portable name. */
  ghost predicate Collide(fold: Fold, p: Path, q: Path) {
    || p <= q || q <= p
    || exists k :: 0 <= k < |p| && PartsAt(fold, p, q, k)
  }

  ghost predicate PartsAt(fold: Fold, p: Path, q: Path, k: int) {
    0 <= k < |p| && k < |q| && p[..k] == q[..k] && p[k] != q[k] && fold(p[k]) == fold(q[k])
  }

  ghost predicate Portable(fold: Fold, paths: seq<Path>) {
    forall p, q :: p in paths && q in paths && p != q ==> !Collide(fold, p, q)
  }

  datatype Node = Node(terminal: Option<Path>, children: map<Name, Child>)

  datatype Child = Child(spelling: Name, representative: Path, node: Node)

  const LEAF := Node(None, map[])

  /** The node for `prefix` holds exactly what the paths inserted so far say; paths
      have at most `depth` names. */
  ghost predicate Holds(fold: Fold, node: Node, prefix: Path, paths: seq<Path>, depth: nat)
    decreases depth - |prefix|, 1
  {
    && (node.terminal.Some? ==> node.terminal.value == prefix && node.children == map[])
    && (node.terminal.Some? <==> prefix in paths)
    && (forall f :: f in node.children ==> HoldsBelow(fold, f, node.children[f], prefix, paths, depth))
    && AllEntered(fold, node, prefix, paths)
  }

  ghost predicate HoldsBelow(fold: Fold, f: Name, c: Child, prefix: Path, paths: seq<Path>, depth: nat)
    decreases depth - |prefix|, 0
  {
    |prefix| < depth && HoldsChild(fold, f, c, prefix, paths) && Holds(fold, c.node, prefix + [c.spelling], paths, depth)
  }

  ghost predicate AllEntered(fold: Fold, node: Node, prefix: Path, paths: seq<Path>) {
    forall p :: p in paths && prefix < p ==> Entered(fold, node, |prefix|, p)
  }

  ghost predicate HoldsChild(fold: Fold, f: Name, c: Child, prefix: Path, paths: seq<Path>) {
    fold(c.spelling) == f && IsFirstUnder(paths, prefix + [c.spelling], c.representative)
  }

  /** The first path that was inserted below `prefix`. */
  ghost predicate IsFirstUnder(paths: seq<Path>, prefix: Path, first: Path) {
    exists i :: 0 <= i < |paths| && paths[i] == first && prefix <= first && forall j :: 0 <= j < i ==> !(prefix <= paths[j])
  }

  lemma FirstStays(paths: seq<Path>, path: Path, prefix: Path, first: Path)
    requires IsFirstUnder(paths, prefix, first)
    ensures IsFirstUnder(paths + [path], prefix, first)
  {
    var i :| 0 <= i < |paths| && paths[i] == first && prefix <= first && forall j :: 0 <= j < i ==> !(prefix <= paths[j]);
    var paths' := paths + [path];
    assert paths'[i] == first && forall j :: 0 <= j < i ==> paths'[j] == paths[j];
  }

  /** A path leaves the node through the child that spells its next name. */
  predicate Entered(fold: Fold, node: Node, at: nat, p: Path) {
    at < |p| && fold(p[at]) in node.children && node.children[fold(p[at])].spelling == p[at]
  }

  // ----------------------------------------------- what the trie guarantees

  lemma Extend(prefix: Path, p: Path)
    requires prefix < p
    ensures prefix + [p[|prefix|]] <= p
  {
    assert prefix == p[..|prefix|];
  }

  /** Two stored paths that part at one portable name would have entered one child. */
  lemma {:induction false} NoParting(fold: Fold, node: Node, prefix: Path, paths: seq<Path>, depth: nat, p: Path, q: Path, k: nat)
    requires Holds(fold, node, prefix, paths, depth) && p in paths && q in paths
    requires prefix <= p && prefix <= q && |prefix| <= k
    ensures !PartsAt(fold, p, q, k)
    decreases k - |prefix|
  {
    if PartsAt(fold, p, q, k) {
      assert prefix < p && prefix < q;
      if |prefix| < k {
        assert p[|prefix|] == p[..k][|prefix|] == q[|prefix|];
        Extend(prefix, p);
        Extend(prefix, q);
        NoParting(fold, node.children[fold(p[|prefix|])].node, prefix + [p[|prefix|]], paths, depth, p, q, k);
      }
    }
  }

  /** Below a stored path there is nothing. */
  lemma {:induction false} NoNesting(fold: Fold, node: Node, prefix: Path, paths: seq<Path>, depth: nat, p: Path, q: Path)
    requires Holds(fold, node, prefix, paths, depth) && p in paths && q in paths
    requires prefix <= p && p <= q
    ensures p == q
    decreases |p| - |prefix|
  {
    if prefix == p {
      assert p == q[..|p|];
      assert node.terminal.Some?;
    } else {
      assert prefix == p[..|prefix|];
      Extend(prefix, p);
      NoNesting(fold, node.children[fold(p[|prefix|])].node, prefix + [p[|prefix|]], paths, depth, p, q);
    }
  }

  lemma HeldIsPortable(fold: Fold, root: Node, paths: seq<Path>, depth: nat)
    requires Holds(fold, root, [], paths, depth)
    ensures Portable(fold, paths)
  {
    forall p, q | p in paths && q in paths && p != q
      ensures !Collide(fold, p, q)
    {
      if p <= q { NoNesting(fold, root, [], paths, depth, p, q); }
      if q <= p { NoNesting(fold, root, [], paths, depth, q, p); }
      forall k | 0 <= k < |p|
        ensures !PartsAt(fold, p, q, k)
      {
        NoParting(fold, root, [], paths, depth, p, q, k);
      }
    }
  }

  // ------------------------------------------------- who collides with a path

  /** The earliest inserted path that a new path collides with. */
  ghost predicate IsFirstCollider(fold: Fold, paths: seq<Path>, path: Path, first: Path) {
    exists i :: 0 <= i < |paths| && paths[i] == first && first != path && Collide(fold, first, path)
                && forall j :: 0 <= j < i ==> paths[j] == path || !Collide(fold, paths[j], path)
  }

  lemma PrefixesCompare(p: Path, q: Path, whole: Path)
    requires p <= whole && q <= whole
    ensures p <= q || q <= p
  {
    assert p == whole[..|p|] && q == whole[..|q|];
  }

  lemma PrefixAt(p: Path, q: Path, k: nat)
    requires p <= q && k <= |p|
    ensures p[..k] == q[..k] && (k < |p| ==> p[k] == q[k])
  {
    assert p == q[..|p|];
  }

  /** Whatever collides with a path collides with what is above that path. */
  lemma CollidesAbove(fold: Fold, ancestor: Path, path: Path, q: Path)
    requires ancestor < path && Collide(fold, q, path)
    ensures Collide(fold, q, ancestor)
  {
    if q <= path {
      PrefixesCompare(q, ancestor, path);
    } else if path <= q {
      PrefixAt(path, q, |ancestor|);
      PrefixAt(ancestor, path, |ancestor|);
      assert ancestor == q[..|ancestor|];
    } else {
      var k :| 0 <= k < |q| && PartsAt(fold, q, path, k);
      if k < |ancestor| {
        PrefixAt(ancestor, path, k);
        assert PartsAt(fold, q, ancestor, k);
      } else {
        PrefixAt(ancestor, path, |ancestor|);
        assert q[..|ancestor|] == q[..k][..|ancestor|] == path[..k][..|ancestor|] == ancestor;
      }
    }
  }

  /** Whatever collides with a path that parts from a stored one lies below the same
      spelling as that one, or collides with it. */
  lemma CollidesBeside(fold: Fold, stored: Path, path: Path, d: nat, q: Path)
    requires PartsAt(fold, stored, path, d) && Collide(fold, q, path)
    ensures stored[..d + 1] <= q || Collide(fold, q, stored)
  {
    if q <= path && |q| <= d {
      PrefixAt(q, path, |q|);
      assert q == path[..d][..|q|] == stored[..|q|];
    } else if q <= path {
      PrefixAt(q, path, d);
      assert PartsAt(fold, q, stored, d);
    } else if path <= q {
      PrefixAt(path, q, d);
      assert PartsAt(fold, q, stored, d);
    } else {
      var k :| 0 <= k < |q| && PartsAt(fold, q, path, k);
      PartingAgain(fold, stored, path, d, q, k);
    }
  }

  /** Two paths that part from a third one part from each other, unless they part from
      it at the same name with the same spelling. */
  lemma PartingAgain(fold: Fold, stored: Path, path: Path, d: nat, q: Path, k: nat)
    requires PartsAt(fold, stored, path, d) && PartsAt(fold, q, path, k)
    ensures PartsAt(fold, q, stored, k) || PartsAt(fold, q, stored, d) || stored[..d + 1] <= q
  {
    if k < d {
      assert stored[..k] == stored[..d][..k] == path[..d][..k] == q[..k];
      assert stored[k] == stored[..d][k] == path[..d][k] == path[k];
    } else if k > d {
      assert q[..d] == q[..k][..d] == path[..k][..d] == stored[..d];
      assert q[d] == q[..k][d] == path[..k][d] == path[d];
    } else if q[d] == stored[d] {
      assert q[..d + 1] == q[..d] + [q[d]] == stored[..d] + [stored[d]] == stored[..d + 1];
    }
  }

  lemma AncestorIsFirst(fold: Fold, paths: seq<Path>, ancestor: Path, path: Path)
    requires Portable(fold, paths) && ancestor in paths && ancestor < path
    ensures IsFirstCollider(fold, paths, path, ancestor)
  {
    var i := FirstIndex(paths, ancestor);
    forall j | 0 <= j < i
      ensures !Collide(fold, paths[j], path)
    {
      if Collide(fold, paths[j], path) { CollidesAbove(fold, ancestor, path, paths[j]); }
    }
  }

  lemma {:induction false} FirstIndex(paths: seq<Path>, p: Path) returns (i: nat)
    requires p in paths
    ensures i < |paths| && paths[i] == p && forall j :: 0 <= j < i ==> paths[j] != p
  {
    if paths[0] == p {
      i := 0;
    } else {
      assert p in paths[1..];
      var k := FirstIndex(paths[1..], p);
      i := k + 1;
      assert forall j :: 0 < j < i ==> paths[j] == paths[1..][j - 1];
    }
  }

  lemma SpelledTwice(fold: Fold, prefix: Path, c: Child, path: Path)
    requires prefix < path && prefix + [c.spelling] <= c.representative
    requires fold(c.spelling) == fold(path[|prefix|]) && c.spelling != path[|prefix|]
    ensures PartsAt(fold, c.representative, path, |prefix|)
    ensures c.representative[..|prefix| + 1] == prefix + [c.spelling]
  {
    FirstName(prefix, c.spelling, c.representative);
    assert c.representative[..|prefix|] == prefix == path[..|prefix|];
  }

  /** The representative of another spelling is the first path in the way. */
  lemma RepresentativeIsFirst(fold: Fold, paths: seq<Path>, prefix: Path, c: Child, path: Path)
    requires Portable(fold, paths) && prefix < path && IsFirstUnder(paths, prefix + [c.spelling], c.representative)
    requires fold(c.spelling) == fold(path[|prefix|]) && c.spelling != path[|prefix|]
    ensures IsFirstCollider(fold, paths, path, c.representative)
  {
    var below := prefix + [c.spelling];
    SpelledTwice(fold, prefix, c, path);
    var i :| 0 <= i < |paths| && paths[i] == c.representative && forall j :: 0 <= j < i ==> !(below <= paths[j]);
    forall j | 0 <= j < i
      ensures !Collide(fold, paths[j], path)
    {
      if Collide(fold, paths[j], path) { CollidesBeside(fold, c.representative, path, |prefix|, paths[j]); }
    }
    assert Collide(fold, c.representative, path);
  }

  // -------------------------------------------------------------- insertion

  datatype Inserted = Grown(node: Node) | Collision(earlier: Path, later: Path)

  /** A subtree the new path does not enter is not affected by it. */
  lemma {:induction false} Elsewhere(fold: Fold, node: Node, prefix: Path, paths: seq<Path>, depth: nat, path: Path)
    requires Holds(fold, node, prefix, paths, depth) && !(prefix <= path)
    ensures Holds(fold, node, prefix, paths + [path], depth)
    decreases depth - |prefix|
  {
    forall f | f in node.children
      ensures HoldsBelow(fold, f, node.children[f], prefix, paths + [path], depth)
    {
      var c := node.children[f];
      var below := prefix + [c.spelling];
      FirstStays(paths, path, below, c.representative);
      if below <= path { FirstName(prefix, c.spelling, path); }
      Elsewhere(fold, c.node, below, paths, depth, path);
    }
  }

  /** An unused name starts an empty subtree. */
  lemma NewSubtree(fold: Fold, node: Node, prefix: Path, paths: seq<Path>, depth: nat, name: Name)
    requires Holds(fold, node, prefix, paths, depth) && fold(name) !in node.children
    ensures Holds(fold, LEAF, prefix + [name], paths, depth)
    ensures forall p :: p in paths ==> !(prefix + [name] <= p)
  {
    var below := prefix + [name];
    forall p | p in paths
      ensures !(below <= p)
    {
      if below <= p { FirstName(prefix, name, p); }
    }
  }

  lemma FirstName(prefix: Path, name: Name, p: Path)
    requires prefix + [name] <= p
    ensures prefix < p && p[|prefix|] == name
  {
    var below := prefix + [name];
    assert below == p[..|below|];
    assert prefix == below[..|prefix|];
    assert p[|prefix|] == below[|prefix|];
  }

  lemma NewIsFirst(paths: seq<Path>, path: Path, prefix: Path)
    requires prefix <= path && forall p :: p in paths ==> !(prefix <= p)
    ensures IsFirstUnder(paths + [path], prefix, path)
  {
    var paths' := paths + [path];
    assert paths'[|paths|] == path && forall j :: 0 <= j < |paths| ==> paths'[j] in paths;
  }

  /** Children the new path does not go through stay as they are. */
  lemma SiblingStays(fold: Fold, node: Node, prefix: Path, paths: seq<Path>, depth: nat, path: Path, f: Name)
    requires Holds(fold, node, prefix, paths, depth) && prefix < path && f in node.children && f != fold(path[|prefix|])
    ensures HoldsBelow(fold, f, node.children[f], prefix, paths + [path], depth)
  {
    var c := node.children[f];
    FirstStays(paths, path, prefix + [c.spelling], c.representative);
    if prefix + [c.spelling] <= path { FirstName(prefix, c.spelling, path); }
    Elsewhere(fold, c.node, prefix + [c.spelling], paths, depth, path);
  }

  /** Putting the grown child back under its folded name. */
  lemma Rejoin(fold: Fold, node: Node, prefix: Path, paths: seq<Path>, depth: nat, path: Path, child: Child, grown: Node)
    requires Holds(fold, node, prefix, paths, depth) && prefix < path && |path| <= depth && node.terminal.None?
    requires child.spelling == path[|prefix|] && HoldsChild(fold, fold(child.spelling), child, prefix, paths + [path])
    requires fold(child.spelling) in node.children ==> node.children[fold(child.spelling)].spelling == child.spelling
    requires Holds(fold, grown, prefix + [child.spelling], paths + [path], depth)
    ensures Holds(fold, node.(children := node.children[fold(child.spelling) := child.(node := grown)]), prefix, paths + [path], depth)
  {
    var key := fold(child.spelling);
    var node' := node.(children := node.children[key := child.(node := grown)]);
    assert HoldsBelow(fold, key, node'.children[key], prefix, paths + [path], depth);
    forall f | f in node'.children
      ensures HoldsBelow(fold, f, node'.children[f], prefix, paths + [path], depth)
    {
      if f != key { SiblingStays(fold, node, prefix, paths, depth, path, f); }
    }
    RejoinEntered(fold, node, prefix, paths, path, child.(node := grown));
  }

  lemma RejoinEntered(fold: Fold, node: Node, prefix: Path, paths: seq<Path>, path: Path, child: Child)
    requires AllEntered(fold, node, prefix, paths) && prefix < path && child.spelling == path[|prefix|]
    requires fold(child.spelling) in node.children ==> node.children[fold(child.spelling)].spelling == child.spelling
    ensures AllEntered(fold, node.(children := node.children[fold(child.spelling) := child]), prefix, paths + [path])
  {
    var node' := node.(children := node.children[fold(child.spelling) := child]);
    forall p | p in paths + [path] && prefix < p
      ensures Entered(fold, node', |prefix|, p)
    {
      if p in paths { assert Entered(fold, node, |prefix|, p); }
    }
  }

  /** A reported pair: the new path with the first stored one it collides with, or with
      one below it. */
  ghost predicate Reported(fold: Fold, paths: seq<Path>, path: Path, r: Inserted) {
    r.Collision? ==>
      || (r.later == path && IsFirstCollider(fold, paths, path, r.earlier))
      || (r.earlier == path && r.later in paths && path < r.later)
  }

  /** Walks down the path's names, growing the trie, until something is in the way. */
  method Insert(fold: Fold, node: Node, prefix: Path, path: Path, ghost paths: seq<Path>, ghost depth: nat) returns (r: Inserted)
    requires Holds(fold, node, prefix, paths, depth) && prefix <= path && |path| <= depth && Portable(fold, paths)
    ensures Reported(fold, paths, path, r)
    ensures r.Grown? ==> Holds(fold, r.node, prefix, paths + [path], depth)
    decreases |path| - |prefix|
  {
    assert prefix == path[..|prefix|];
    if |prefix| == |path| {
      if f :| f in node.children {
        var c := node.children[f];
        FirstName(prefix, c.spelling, c.representative);
        return Collision(path, c.representative);
      }
      assert node.children == map[];
      return Grown(Node(Some(path), map[]));
    }
    if node.terminal.Some? {
      AncestorIsFirst(fold, paths, prefix, path);
      return Collision(node.terminal.value, path);
    }
    var name := path[|prefix|];
    Extend(prefix, path);
    if fold(name) in node.children {
      var child := node.children[fold(name)];
      if child.spelling != name {
        RepresentativeIsFirst(fold, paths, prefix, child, path);
        return Collision(child.representative, path);
      }
      var below := Insert(fold, child.node, prefix + [name], path, paths, depth);
      if below.Collision? { return below; }
      FirstStays(paths, path, prefix + [name], child.representative);
      Rejoin(fold, node, prefix, paths, depth, path, child, below.node);
      return Grown(node.(children := node.children[fold(name) := child.(node := below.node)]));
    } else {
      NewSubtree(fold, node, prefix, paths, depth, name);
      var child := Child(name, path, LEAF);
      var below := Insert(fold, LEAF, prefix + [name], path, paths, depth);
      if below.Collision? { return below; }
      NewIsFirst(paths, path, prefix + [name]);
      Rejoin(fold, node, prefix, paths, depth, path, child, below.node);
      return Grown(node.(children := node.children[fold(name) := child.(node := below.node)]));
    }
  }

  ghost function Longest(paths: seq<Path>): nat {
    if paths == [] then 0
    else
      var rest := Longest(paths[1..]);
      if |paths[0]| > rest then |paths[0]| else rest
  }

  lemma {:induction false} LongestBounds(paths: seq<Path>, i: nat)
    requires i < |paths|
    ensures |paths[i]| <= Longest(paths)
    decreases |paths|
  {
    if i > 0 { LongestBounds(paths[1..], i - 1); }
  }

  // ------------------------------------------------------------ key order

  /** Key order: name by name, a path before those below it. */
  ghost predicate KeyLess(less: (Name, Name) -> bool, p: Path, q: Path) {
    exists k :: 0 <= k <= |p| && k <= |q| && p[..k] == q[..k]
                && (if k < |p| then k < |q| && less(p[k], q[k]) else k < |q|)
  }

  ghost predicate InKeyOrder(less: (Name, Name) -> bool, entries: seq<Path>) {
    (forall n :: !less(n, n)) && forall i, j :: 0 <= i < j < |entries| ==> KeyLess(less, entries[i], entries[j])
  }

  /** In key order nothing comes after a path below it. */
  lemma PrefixComesFirst(less: (Name, Name) -> bool, entries: seq<Path>, i: nat, j: nat)
    requires InKeyOrder(less, entries) && i < j < |entries|
    ensures !(entries[j] < entries[i])
  {
    var p, q := entries[i], entries[j];
    var k: nat :| k <= |p| && k <= |q| && p[..k] == q[..k] && (if k < |p| then k < |q| && less(p[k], q[k]) else k < |q|);
    if q < p { PrefixAt(q, p, k); }
  }

  /** The pair with the earliest later entry, and for it the earliest other one. */
  ghost predicate IsFirstPair(fold: Fold, entries: seq<Path>, first: Path, second: Path) {
    exists j :: 0 <= j < |entries| && entries[j] == second
                && Portable(fold, entries[..j]) && IsFirstCollider(fold, entries[..j], second, first)
  }

  /** Finds a pair of paths that cannot coexist, if there is one; in key order, the
      first such pair. */
  method FirstPortableCollision(fold: Fold, entries: seq<Path>, ghost less: (Name, Name) -> bool) returns (r: Option<(Path, Path)>)
    ensures r.None? <==> Portable(fold, entries)
    ensures r.Some? ==>
      r.value.0 in entries && r.value.1 in entries && r.value.0 != r.value.1 && Collide(fold, r.value.0, r.value.1)
    ensures r.Some? && InKeyOrder(less, entries) ==> IsFirstPair(fold, entries, r.value.0, r.value.1)
  {
    var root := LEAF;
    ghost var depth := Longest(entries);
    for i := 0 to |entries|
      invariant Holds(fold, root, [], entries[..i], depth)
    {
      LongestBounds(entries, i);
      HeldIsPortable(fold, root, entries[..i], depth);
      var next := Insert(fold, root, [], entries[i], entries[..i], depth);
      if next.Collision? {
        CollisionInEntries(fold, entries, i, next, less);
        return Some((next.earlier, next.later));
      }
      root := next.node;
      assert entries[..i + 1] == entries[..i] + [entries[i]];
    }
    assert entries[..|entries|] == entries;
    HeldIsPortable(fold, root, entries, depth);
    return None;
  }

  lemma CollisionInEntries(fold: Fold, entries: seq<Path>, i: nat, r: Inserted, less: (Name, Name) -> bool)
    requires i < |entries| && r.Collision? && Reported(fold, entries[..i], entries[i], r) && Portable(fold, entries[..i])
    ensures r.earlier in entries && r.later in entries && r.earlier != r.later && Collide(fold, r.earlier, r.later)
    ensures InKeyOrder(less, entries) ==> IsFirstPair(fold, entries, r.earlier, r.later)
  {
    assert forall p :: p in entries[..i] ==> p in entries;
    if !(r.later == entries[i] && IsFirstCollider(fold, entries[..i], entries[i], r.earlier)) {
      var k :| 0 <= k < i && entries[..i][k] == r.later;
      if InKeyOrder(less, entries) { PrefixComesFirst(less, entries, k, i); }
    }
  }
}
