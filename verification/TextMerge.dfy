/** Three-way text merging over line edits: only edits that keep clear of each other
    combine.  Lines are of any type; the line diff is given by its contract. */
module TextMerge {
  import opened Common

  /** Replace the base lines `start..end`. */
  datatype Edit<L> = Edit(start: int, end: int, replacement: seq<L>)

  const FILE_LIMIT := 1_048_576

  /** The text around the library calls: a byte length for each line, and the order in
      which replacements are sorted. */
  datatype Style<!L> = Style(width: L -> nat, less: (seq<L>, seq<L>) -> bool)

  ghost predicate StrictOrder<L(!new)>(less: (seq<L>, seq<L>) -> bool) {
    && (forall a :: !less(a, a))
    && (forall a, b :: a != b ==> less(a, b) || less(b, a))
    && (forall a, b, c :: less(a, b) && less(b, c) ==> less(a, c))
  }

  // ---------------------------------------------------------------- edits

  ghost predicate InBounds<L(!new)>(es: seq<Edit<L>>, size: nat) {
    forall e :: e in es ==> 0 <= e.start <= e.end <= size
  }

  /** From `cursor` on, each edit ends before the next begins. */
  predicate Ordered<L>(es: seq<Edit<L>>, cursor: int, size: int)
    decreases |es|
  {
    && 0 <= cursor <= size
    && (es == [] || (cursor <= es[0].start <= es[0].end && Ordered(es[1..], es[0].end, size)))
  }

  lemma {:induction false} OrderedPairs<L>(es: seq<Edit<L>>, cursor: int, size: int)
    requires Ordered(es, cursor, size)
    ensures forall i :: 0 <= i < |es| ==> cursor <= es[i].start <= es[i].end <= size
    ensures forall i, j :: 0 <= i < j < |es| ==> es[i].end <= es[j].start
    decreases |es|
  {
    if es != [] {
      OrderedPairs(es[1..], es[0].end, size);
      assert forall i :: 0 < i < |es| ==> es[i] == es[1..][i - 1];
    }
  }

  /** The text with the edits made, from line `cursor` of the base on. */
  function Spliced<L>(base: seq<L>, es: seq<Edit<L>>, cursor: int): seq<L>
    requires Ordered(es, cursor, |base|)
    decreases |es|
  {
    if es == [] then base[cursor..]
    else
      assert Ordered(es[1..], es[0].end, |base|);
      base[cursor..es[0].start] + es[0].replacement + Spliced(base, es[1..], es[0].end)
  }

  function Apply<L>(base: seq<L>, es: seq<Edit<L>>): seq<L>
    requires Ordered(es, 0, |base|)
  {
    Spliced(base, es, 0)
  }

  /** What the line diff promises: edits in order, in bounds, at least one kept line
      between two of them, and together they turn the base into the side. */
  ghost predicate Script<L>(base: seq<L>, side: seq<L>, es: seq<Edit<L>>) {
    && Ordered(es, 0, |base|)
    && (forall i, j :: 0 <= i < j < |es| ==> es[i].end < es[j].start)
    && Apply(base, es) == side
  }

  /** A diff keeps the contract and finds nothing between equal texts. */
  ghost predicate LawfulDiff<L(!new)>(diff: (seq<L>, seq<L>) -> seq<Edit<L>>) {
    && (forall base, side :: Script(base, side, diff(base, side)))
    && (forall text :: diff(text, text) == [])
  }

  // ------------------------------------------------------------- clear pairs

  predicate IsInsertion<L>(e: Edit<L>) {
    e.start == e.end
  }

  /** Two edits that can be made together: a kept line between them, or touching
      replacements; an insertion may touch nothing. */
  predicate Clear<L>(a: Edit<L>, b: Edit<L>) {
    || a.end < b.start || b.end < a.start
    || ((a.end == b.start || b.end == a.start) && !IsInsertion(a) && !IsInsertion(b))
  }

  ghost predicate AllClear<L(!new)>(es: seq<Edit<L>>) {
    forall a, b :: a in es && b in es && a != b ==> Clear(a, b)
  }

  // ------------------------------------------------------ sort and dedup

  predicate Less<L(==)>(less: (seq<L>, seq<L>) -> bool, a: Edit<L>, b: Edit<L>) {
    || a.start < b.start
    || (a.start == b.start && (a.end < b.end || (a.end == b.end && less(a.replacement, b.replacement))))
  }

  function Insert<L(==)>(less: (seq<L>, seq<L>) -> bool, e: Edit<L>, es: seq<Edit<L>>): seq<Edit<L>> {
    if es == [] || !Less(less, es[0], e) then [e] + es else [es[0]] + Insert(less, e, es[1..])
  }

  function Sort<L(==)>(less: (seq<L>, seq<L>) -> bool, es: seq<Edit<L>>): seq<Edit<L>> {
    if es == [] then [] else Insert(less, es[0], Sort(less, es[1..]))
  }

  /** Drops an edit equal to the one after it. */
  function Dedup<L(==)>(es: seq<Edit<L>>): seq<Edit<L>> {
    if |es| <= 1 then es
    else if es[0] == es[1] then Dedup(es[1..])
    else [es[0]] + Dedup(es[1..])
  }

  ghost predicate Rising<L>(less: (seq<L>, seq<L>) -> bool, es: seq<Edit<L>>) {
    forall i, j :: 0 <= i < j < |es| ==> Less(less, es[i], es[j])
  }

  ghost predicate NeverFalls<L>(less: (seq<L>, seq<L>) -> bool, es: seq<Edit<L>>) {
    forall i, j :: 0 <= i < j < |es| ==> !Less(less, es[j], es[i])
  }

  ghost predicate SameEdits<L(!new)>(a: seq<Edit<L>>, b: seq<Edit<L>>) {
    forall e :: e in a <==> e in b
  }

  lemma {:induction false} InsertKeeps<L(!new)>(less: (seq<L>, seq<L>) -> bool, e: Edit<L>, es: seq<Edit<L>>)
    requires StrictOrder(less) && NeverFalls(less, es)
    ensures NeverFalls(less, Insert(less, e, es))
    ensures forall x :: x in Insert(less, e, es) <==> x == e || x in es
  {
    if es != [] && Less(less, es[0], e) {
      var rest := Insert(less, e, es[1..]);
      InsertKeeps(less, e, es[1..]);
      assert es == [es[0]] + es[1..];
      forall j | 0 <= j < |rest|
        ensures !Less(less, rest[j], es[0])
      {
        assert rest[j] in rest;
      }
    } else if es != [] {
      forall j | 0 <= j < |es|
        ensures !Less(less, es[j], e)
      {
        assert j > 0 ==> !Less(less, es[j], es[0]);
      }
    }
  }

  lemma {:induction false} SortKeeps<L(!new)>(less: (seq<L>, seq<L>) -> bool, es: seq<Edit<L>>)
    requires StrictOrder(less)
    ensures NeverFalls(less, Sort(less, es)) && SameEdits(Sort(less, es), es)
  {
    if es != [] {
      SortKeeps(less, es[1..]);
      InsertKeeps(less, es[0], Sort(less, es[1..]));
      assert es == [es[0]] + es[1..];
    }
  }

  lemma {:induction false} DedupKeeps<L(!new)>(less: (seq<L>, seq<L>) -> bool, es: seq<Edit<L>>)
    requires StrictOrder(less) && NeverFalls(less, es)
    ensures Rising(less, Dedup(es)) && SameEdits(Dedup(es), es)
    ensures es != [] ==> Dedup(es) != [] && Dedup(es)[0] == es[0]
  {
    if |es| > 1 {
      var rest := Dedup(es[1..]);
      DedupKeeps(less, es[1..]);
      assert es == [es[0]] + es[1..];
      if es[0] != es[1] {
        assert Less(less, es[0], es[1]);
        forall j | 0 <= j < |rest|
          ensures Less(less, es[0], rest[j])
        {
        }
      }
    }
  }

  /** A rising list is determined by its edits. */
  lemma {:induction false} RisingIsUnique<L(!new)>(less: (seq<L>, seq<L>) -> bool, a: seq<Edit<L>>, b: seq<Edit<L>>)
    requires StrictOrder(less) && Rising(less, a) && Rising(less, b) && SameEdits(a, b)
    ensures a == b
    decreases |a|
  {
    assert a != [] ==> a[0] in a;
    assert b != [] ==> b[0] in b;
    if a != [] && b != [] {
      var i :| 0 <= i < |b| && b[i] == a[0];
      var j :| 0 <= j < |a| && a[j] == b[0];
      assert a[0] == b[0];
      RestSame(less, a, b);
      RisingIsUnique(less, a[1..], b[1..]);
    }
  }

  lemma RestSame<L(!new)>(less: (seq<L>, seq<L>) -> bool, a: seq<Edit<L>>, b: seq<Edit<L>>)
    requires StrictOrder(less) && Rising(less, a) && Rising(less, b) && SameEdits(a, b) && a != [] && b != [] && a[0] == b[0]
    ensures SameEdits(a[1..], b[1..])
  {
    assert a == [a[0]] + a[1..] && b == [b[0]] + b[1..];
    forall e
      ensures e in a[1..] <==> e in a && e != a[0]
      ensures e in b[1..] <==> e in b && e != b[0]
    {
      assert e in a[1..] ==> Less(less, a[0], e);
      assert e in b[1..] ==> Less(less, b[0], e);
    }
  }

  /** The sorted, deduplicated edits of both sides. */
  function Combined<L(==)>(less: (seq<L>, seq<L>) -> bool, x: seq<Edit<L>>, y: seq<Edit<L>>): seq<Edit<L>> {
    Dedup(Sort(less, x + y))
  }

  lemma CombinedExactly<L(!new)>(less: (seq<L>, seq<L>) -> bool, x: seq<Edit<L>>, y: seq<Edit<L>>)
    requires StrictOrder(less)
    ensures Rising(less, Combined(less, x, y))
    ensures forall e :: e in Combined(less, x, y) <==> e in x || e in y
  {
    SortKeeps(less, x + y);
    DedupKeeps(less, Sort(less, x + y));
  }

  /** The order of the two sides does not matter. */
  lemma CombinedSymmetric<L(!new)>(less: (seq<L>, seq<L>) -> bool, x: seq<Edit<L>>, y: seq<Edit<L>>)
    requires StrictOrder(less)
    ensures Combined(less, x, y) == Combined(less, y, x)
  {
    CombinedExactly(less, x, y);
    CombinedExactly(less, y, x);
    RisingIsUnique(less, Combined(less, x, y), Combined(less, y, x));
  }

  lemma ScriptRises<L(!new)>(less: (seq<L>, seq<L>) -> bool, base: seq<L>, side: seq<L>, es: seq<Edit<L>>)
    requires Script(base, side, es)
    ensures Rising(less, es) && InBounds(es, |base|) && AllClear(es)
  {
    OrderedPairs(es, 0, |base|);
  }

  /** Edits both sides share count once; a side without edits adds none. */
  lemma CombinedAbsorbs<L(!new)>(less: (seq<L>, seq<L>) -> bool, base: seq<L>, side: seq<L>, es: seq<Edit<L>>)
    requires StrictOrder(less) && Script(base, side, es)
    ensures Combined(less, es, es) == es && Combined(less, [], es) == es && Combined(less, es, []) == es
  {
    ScriptRises(less, base, side, es);
    CombinedExactly(less, es, es);
    CombinedExactly(less, [], es);
    CombinedExactly(less, es, []);
    RisingIsUnique(less, Combined(less, es, es), es);
    RisingIsUnique(less, Combined(less, [], es), es);
    RisingIsUnique(less, Combined(less, es, []), es);
  }

  // -------------------------------------------------------- neighbour check

  predicate NeighboursClash<L>(a: Edit<L>, b: Edit<L>) {
    a.end > b.start || (a.end == b.start && (a.start == a.end || b.start == b.end))
  }

  ghost predicate NeighboursClear<L>(es: seq<Edit<L>>) {
    forall i :: 0 <= i < |es| - 1 ==> !NeighboursClash(es[i], es[i + 1])
  }

  /** Neighbours that are clear keep any two edits clear. */
  lemma {:induction false} NeighboursSuffice<L>(es: seq<Edit<L>>, i: nat, j: nat)
    requires NeighboursClear(es) && i < j < |es| && forall k :: 0 <= k < |es| ==> es[k].start <= es[k].end
    ensures es[i].end <= es[j].start && !NeighboursClash(es[i], es[j])
    decreases j - i
  {
    assert !NeighboursClash(es[j - 1], es[j - 1 + 1]);
    if i < j - 1 { NeighboursSuffice(es, i, j - 1); }
  }

  lemma NeighboursMeanClear<L(!new)>(less: (seq<L>, seq<L>) -> bool, es: seq<Edit<L>>, size: nat)
    requires StrictOrder(less) && Rising(less, es) && InBounds(es, size)
    ensures NeighboursClear(es) <==> AllClear(es)
    ensures NeighboursClear(es) ==> Ordered(es, 0, size)
  {
    if NeighboursClear(es) {
      forall i, j | 0 <= i < j < |es|
        ensures Clear(es[i], es[j])
      {
        NeighboursSuffice(es, i, j);
      }
      NeighboursOrder(es, 0, size);
    }
    if AllClear(es) {
      forall i | 0 <= i < |es| - 1
        ensures !NeighboursClash(es[i], es[i + 1])
      {
        assert Less(less, es[i], es[i + 1]);
        assert es[i] in es && es[i + 1] in es && es[i] != es[i + 1];
      }
    }
  }

  lemma NeighboursTail<L>(es: seq<Edit<L>>)
    requires NeighboursClear(es) && es != []
    ensures NeighboursClear(es[1..])
  {
    var rest := es[1..];
    forall i | 0 <= i < |rest| - 1
      ensures !NeighboursClash(rest[i], rest[i + 1])
    {
      assert !NeighboursClash(es[i + 1], es[i + 1 + 1]);
    }
  }

  lemma {:induction false} NeighboursOrder<L>(es: seq<Edit<L>>, cursor: int, size: int)
    requires NeighboursClear(es) && 0 <= cursor <= size && (es != [] ==> cursor <= es[0].start)
    requires forall i :: 0 <= i < |es| ==> 0 <= es[i].start <= es[i].end <= size
    ensures Ordered(es, cursor, size)
    decreases |es|
  {
    if es != [] {
      NeighboursTail(es);
      if |es| > 1 { assert !NeighboursClash(es[0], es[0 + 1]); }
      NeighboursOrder(es[1..], es[0].end, size);
    }
  }

  // -------------------------------------------------------------- the merge

  function Width<L>(width: L -> nat, lines: seq<L>): nat {
    if lines == [] then 0 else Width(width, lines[..|lines| - 1]) + width(lines[|lines| - 1])
  }

  /** What a merge of two edit lists returns. */
  ghost function Merged<L(!new)>(style: Style<L>, base: seq<L>, x: seq<Edit<L>>, y: seq<Edit<L>>): Option<seq<L>> {
    var es := Combined(style.less, x, y);
    if !AllClear(es) || !Ordered(es, 0, |base|) then None
    else if Width(style.width, Apply(base, es)) > FILE_LIMIT then None
    else Some(Apply(base, es))
  }

  /** Makes the edits in one pass with a moving cursor. */
  method Splice<L>(base: seq<L>, es: seq<Edit<L>>) returns (result: seq<L>)
    requires Ordered(es, 0, |base|)
    ensures result == Apply(base, es)
  {
    result := [];
    var cursor: int := 0;
    for i := 0 to |es|
      invariant Ordered(es[i..], cursor, |base|)
      invariant result + Spliced(base, es[i..], cursor) == Apply(base, es)
    {
      SpliceStep(base, es, i, cursor, result);
      result := result + base[cursor..es[i].start] + es[i].replacement;
      cursor := es[i].end;
    }
    result := result + base[cursor..];
  }

  lemma SpliceStep<L>(base: seq<L>, es: seq<Edit<L>>, i: nat, cursor: int, result: seq<L>)
    requires i < |es| && Ordered(es[i..], cursor, |base|)
    ensures cursor <= es[i].start <= |base| && Ordered(es[i + 1..], es[i].end, |base|)
    ensures result + Spliced(base, es[i..], cursor)
         == result + base[cursor..es[i].start] + es[i].replacement + Spliced(base, es[i + 1..], es[i].end)
  {
    assert es[i..][1..] == es[i + 1..] && es[i..][0] == es[i];
  }

  /** Sorts and dedups the edits of both sides, refuses edits that are not clear,
      splices the rest, and refuses an oversized result. */
  method Merge<L(==, !new)>(style: Style<L>, base: seq<L>, x: seq<Edit<L>>, y: seq<Edit<L>>) returns (r: Option<seq<L>>)
    requires StrictOrder(style.less) && InBounds(x, |base|) && InBounds(y, |base|)
    ensures r == Merged(style, base, x, y)
  {
    var changes := Combined(style.less, x, y);
    CombinedExactly(style.less, x, y);
    NeighboursMeanClear(style.less, changes, |base|);
    var i := 0;
    while i + 1 < |changes|
      invariant 0 <= i && (i < |changes| || i == 0)
      invariant forall k :: 0 <= k < i ==> !NeighboursClash(changes[k], changes[k + 1])
    {
      if NeighboursClash(changes[i], changes[i + 1]) { return None; }
      i := i + 1;
    }
    var result := Splice(base, changes);
    return if Width(style.width, result) <= FILE_LIMIT then Some(result) else None;
  }
}
