/** The working directory, the journaled updates, and what a validation pass sees.

    A tree maps component paths to nodes; the root is the empty path and is always
    a directory.  Keys are component sequences, so the '/'-joined keys of the
    program are these sequences joined. */
module WorkingTree {
  import opened Common

  type Name = string
  type Path = seq<Name>

  datatype Node = Dir | File(bytes: Bytes, executable: bool) | Link(target: Bytes)

  type Tree = map<Path, Node>

  /** `q` lies strictly below `p`. */
  predicate Under(p: Path, q: Path) {
    |p| < |q| && q[..|p|] == p
  }

  predicate IsDir(t: Tree, p: Path) {
    p == [] || (p in t && t[p].Dir?)
  }

  predicate IsLeaf(t: Tree, p: Path) {
    p in t && !t[p].Dir?
  }

  function Parent(p: Path): Path
    requires p != []
  {
    p[..|p| - 1]
  }

  /** Every entry other than the root sits in directories all the way up. */
  ghost predicate WellFormed(t: Tree) {
    && [] !in t
    && forall p, q :: q in t && Under(p, q) ==> IsDir(t, p)
  }

  function Children(t: Tree, d: Path): set<Path> {
    set p | p in t && |p| == |d| + 1 && Under(d, p)
  }

  predicate IsEmptyDir(t: Tree, d: Path) {
    forall p | p in t :: !Under(d, p)
  }

  // ---------------------------------------------------------------- keys

  function LowerChar(c: char): char {
    if 'A' <= c <= 'Z' then c + 32 as char else c
  }

  function Lower(s: string): string {
    seq(|s|, i requires 0 <= i < |s| => LowerChar(s[i]))
  }

  predicate ValidName(n: Name) {
    n != "" && '/' !in n && n != "." && n != ".." && Lower(n) != ".git" && Lower(n) != ".rgit"
  }

  predicate ValidKey(p: Path) {
    p != [] && forall i | 0 <= i < |p| :: ValidName(p[i])
  }

  // ------------------------------------------------------------- updates

  datatype Update = Update(
    before: Option<Bytes>, after: Option<Bytes>,
    beforeExecutable: Option<bool>, afterExecutable: Option<bool>,
    beforeSymlink: Option<bool>, afterSymlink: Option<bool>)

  type Updates = map<Path, Update>

  /** Whether a path is a leaf on the before side and on the after side. */
  datatype Shape = Shape(before: bool, after: bool)

  type Plan = map<Path, Shape>

  function PlanOf(u: Updates): (plan: Plan)
    ensures plan.Keys == u.Keys
  {
    map k | k in u :: Shape(u[k].before.Some?, u[k].after.Some?)
  }

  datatype Current = Current(bytes: Option<Bytes>, executable: bool, symlink: bool) {
    predicate Matches(expected: Option<Bytes>, executable': Option<bool>, symlink': Option<bool>) {
      && bytes == expected
      && (bytes.None? || (
            && (executable'.None? || executable'.value == executable)
            && (symlink'.None? || symlink'.value == symlink)))
    }

    predicate MatchesBefore(u: Update) {
      Matches(u.before, u.beforeExecutable, u.beforeSymlink)
    }

    predicate MatchesAfter(u: Update) {
      Matches(u.after, u.afterExecutable, u.afterSymlink)
    }
  }

  const ABSENT := Current(None, false, false)

  function Observe(n: Node): Current
    requires !n.Dir?
  {
    match n
    case File(bytes, executable) => Current(Some(bytes), executable, false)
    case Link(target) => Current(Some(target), false, true)
  }

  predicate ValidLink(bytes: Option<Bytes>) {
    bytes.Some? && bytes.value != [] && 0 !in bytes.value
  }

  predicate ValidSide(bytes: Option<Bytes>, executable: Option<bool>, symlink: Option<bool>) {
    symlink == Some(true) ==> ValidLink(bytes) && executable != Some(true)
  }

  predicate ValidUpdate(u: Update) {
    && ValidSide(u.before, u.beforeExecutable, u.beforeSymlink)
    && ValidSide(u.after, u.afterExecutable, u.afterSymlink)
  }

  predicate ValidUpdates(u: Updates) {
    forall k | k in u :: ValidUpdate(u[k])
  }

  // ---------------------------------------------------------- shape plan

  function FoldPath(fold: Name -> Name, p: Path): Path {
    seq(|p|, i requires 0 <= i < |p| => fold(p[i]))
  }

  /** No two prefixes of planned paths are different spellings of one portable path. */
  ghost predicate AliasFree(fold: Name -> Name, keys: set<Path>) {
    forall a, b, i, j ::
      (&& a in keys && b in keys && 0 < i <= |a| && 0 < j <= |b|
       && FoldPath(fold, a[..i]) == FoldPath(fold, b[..j])) ==> a[..i] == b[..j]
  }

  ghost predicate PrefixFree(keys: set<Path>) {
    forall a, b :: a in keys && b in keys ==> !Under(a, b)
  }

  function BeforeKeys(plan: Plan): set<Path> {
    set k | k in plan && plan[k].before
  }

  function AfterKeys(plan: Plan): set<Path> {
    set k | k in plan && plan[k].after
  }

  ghost predicate ShapeOk(fold: Name -> Name, plan: Plan) {
    && (forall k :: k in plan ==> ValidKey(k))
    && AliasFree(fold, plan.Keys)
    && PrefixFree(BeforeKeys(plan))
    && PrefixFree(AfterKeys(plan))
  }

  /** A planned leaf at `p` legitimately stands in the way of `k` on one side. */
  predicate Blocks(plan: Plan, p: Path, k: Path) {
    p in plan && k in plan && ((plan[p].before && !plan[k].before) || (plan[p].after && !plan[k].after))
  }

  /** Everything below `d` is a directory or a leaf the plan deletes. */
  ghost predicate Replaceable(t: Tree, plan: Plan, d: Path) {
    forall p :: p in t && Under(d, p) ==>
      ValidKey(p) && (t[p].Dir? || (p in plan && plan[p] == Shape(true, false)))
  }

  ghost predicate UnsafeParent(t: Tree, plan: Plan, k: Path) {
    exists p :: IsLeaf(t, p) && Under(p, k) && !Blocks(plan, p, k)
  }

  /** What is at `k`, or `None` when the plan refuses to look further. */
  ghost function CurrentAt(t: Tree, plan: Plan, k: Path): Option<Current> {
    if k !in plan || !ValidKey(k) || UnsafeParent(t, plan, k) then None
    else if k !in t then Some(ABSENT)
    else if !t[k].Dir? then Some(Observe(t[k]))
    else if plan[k].after && !Replaceable(t, plan, k) then None
    else Some(ABSENT)
  }

  /** No existing entry is another spelling of a planned prefix, and only planned
      leaves stand where a planned path needs a directory. */
  ghost predicate ExistingOk(fold: Name -> Name, t: Tree, plan: Plan) {
    && (forall k, q :: k in plan && q in t && q != [] && |q| <= |k|
                       && Parent(q) == k[..|q| - 1] && fold(q[|q| - 1]) == fold(k[|q| - 1])
                       ==> q == k[..|q|])
    && (forall k, p :: k in plan && IsLeaf(t, p) && Under(p, k)
                       ==> p in plan && (plan[p].before || plan[p].after))
  }

  predicate IsBefore(c: Option<Current>, u: Update) {
    c.Some? && c.value.MatchesBefore(u)
  }

  predicate IsAfter(c: Option<Current>, u: Update) {
    c.Some? && c.value.MatchesAfter(u)
  }

  /** Each key is in its before or its after state. */
  ghost predicate EachKnown(t: Tree, u: Updates) {
    forall k :: k in u ==>
      IsBefore(CurrentAt(t, PlanOf(u), k), u[k]) || IsAfter(CurrentAt(t, PlanOf(u), k), u[k])
  }

  /** What recovery checks before it touches anything. */
  ghost predicate Validated(fold: Name -> Name, t: Tree, u: Updates) {
    && WellFormed(t)
    && ShapeOk(fold, PlanOf(u))
    && ExistingOk(fold, t, PlanOf(u))
    && ValidUpdates(u)
    && EachKnown(t, u)
  }

  // ------------------------------------------------------- intended result

  /** The node publication writes at a key, given what is there now. */
  function AfterNode(now: Option<Node>, u: Update): Node
    requires u.after.Some?
  {
    if now.Some? && !now.value.Dir? && Observe(now.value).MatchesAfter(u) then now.value
    else if u.afterSymlink == Some(true) then Link(u.after.value)
    else File(u.after.value,
              if u.afterExecutable.Some? then u.afterExecutable.value
              else now.Some? && now.value.File? && now.value.executable)
  }

  function NodeAt(t: Tree, p: Path): Option<Node> {
    if p in t then Some(t[p]) else None
  }

  predicate Creates(u: Updates, k: Path) {
    k in u && u[k].after.Some?
  }

  ghost predicate AboveCreated(u: Updates, p: Path) {
    p != [] && exists c :: Creates(u, c) && Under(p, c)
  }

  ghost predicate BelowCreated(u: Updates, p: Path) {
    exists c :: Creates(u, c) && Under(c, p)
  }

  /** The node a finished publication leaves at `p`, read off the starting tree. */
  ghost function FinalAt(t: Tree, u: Updates, p: Path): Option<Node> {
    if Creates(u, p) then Some(AfterNode(NodeAt(t, p), u[p]))
    else if AboveCreated(u, p) then Some(Dir)
    else if BelowCreated(u, p) || (p in u && IsLeaf(t, p)) then None
    else NodeAt(t, p)
  }

  /** `t'` is the finished publication of `u` from `t`. */
  ghost predicate IsFinal(t: Tree, u: Updates, t': Tree) {
    forall p :: NodeAt(t', p) == FinalAt(t, u, p)
  }

  ghost predicate SameFinal(t: Tree, t': Tree, u: Updates) {
    forall p :: FinalAt(t, u, p) == FinalAt(t', u, p)
  }

  /** Every leaf that no update names is still there, unchanged. */
  ghost predicate Untouched(t: Tree, t': Tree, u: Updates) {
    forall p :: IsLeaf(t, p) && p !in u ==> p in t' && t'[p] == t[p]
  }
}
