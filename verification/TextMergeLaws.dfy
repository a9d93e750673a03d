/** The diamond: a merge equals the other side's remaining edits, moved to where their
    lines now are, made on this side's text. */
module TextMergeLaws {
  import opened Common
  import opened TextMerge

  // ------------------------------------------------- one side and the rest

  /** The edits of `es` that `own` has, in order. */
  ghost function Mine<L>(es: seq<Edit<L>>, own: seq<Edit<L>>): seq<Edit<L>> {
    if es == [] then []
    else if es[0] in own then [es[0]] + Mine(es[1..], own)
    else Mine(es[1..], own)
  }

  /** The edits of `es` that `own` lacks, in order. */
  ghost function Others<L>(es: seq<Edit<L>>, own: seq<Edit<L>>): seq<Edit<L>> {
    if es == [] then []
    else if es[0] in own then Others(es[1..], own)
    else [es[0]] + Others(es[1..], own)
  }

  lemma {:induction false} PartsExactly<L(!new)>(es: seq<Edit<L>>, own: seq<Edit<L>>)
    ensures forall e :: e in Mine(es, own) <==> e in es && e in own
    ensures forall e :: e in Others(es, own) <==> e in es && e !in own
  {
    if es != [] {
      PartsExactly(es[1..], own);
      assert es == [es[0]] + es[1..];
    }
  }

  lemma {:induction false} PartsRise<L(!new)>(less: (seq<L>, seq<L>) -> bool, es: seq<Edit<L>>, own: seq<Edit<L>>)
    requires Rising(less, es)
    ensures Rising(less, Mine(es, own)) && Rising(less, Others(es, own))
  {
    if es != [] {
      PartsRise(less, es[1..], own);
      PartsExactly(es[1..], own);
      assert forall e :: e in es[1..] ==> Less(less, es[0], e);
    }
  }

  lemma {:induction false} PartsOrdered<L>(es: seq<Edit<L>>, own: seq<Edit<L>>, cursor: int, size: int)
    requires Ordered(es, cursor, size)
    ensures Ordered(Mine(es, own), cursor, size) && Ordered(Others(es, own), cursor, size)
    decreases |es|
  {
    if es != [] {
      var mine, others := Mine(es[1..], own), Others(es[1..], own);
      PartsOrdered(es[1..], own, es[0].end, size);
      assert ([es[0]] + mine)[1..] == mine && ([es[0]] + others)[1..] == others;
    }
  }

  // ------------------------------------------------------ moved positions

  /** How many lines an edit adds. */
  function Growth<L>(e: Edit<L>): int {
    |e.replacement| - (e.end - e.start)
  }

  /** By how much the edits that end at or before a line move it. */
  function Offset<L>(es: seq<Edit<L>>, at: int): int {
    if es == [] then 0 else (if es[0].end <= at then Growth(es[0]) else 0) + Offset(es[1..], at)
  }

  function Move<L>(e: Edit<L>, offset: int): Edit<L> {
    Edit(e.start + offset, e.end + offset, e.replacement)
  }

  /** Edits on the base, moved to their place in the text that `own` produced. */
  function Shifted<L>(own: seq<Edit<L>>, es: seq<Edit<L>>): seq<Edit<L>> {
    if es == [] then [] else [Move(es[0], Offset(own, es[0].start))] + Shifted(own, es[1..])
  }

  /** The same, with the offset kept while walking all edits in order. */
  ghost function Rebased<L>(es: seq<Edit<L>>, own: seq<Edit<L>>, offset: int): seq<Edit<L>> {
    if es == [] then []
    else if es[0] in own then Rebased(es[1..], own, offset + Growth(es[0]))
    else [Move(es[0], offset)] + Rebased(es[1..], own, offset)
  }

  /** What is left of the merge, as seen on one side's text. */
  ghost predicate WalkedBoth<L>(base: seq<L>, es: seq<Edit<L>>, own: seq<Edit<L>>, cursor: int, text: seq<L>, at: int) {
    var r := Rebased(es, own, at - cursor);
    && Ordered(es, cursor, |base|) && Ordered(r, at, |text|)
    && Spliced(text, r, at) == Spliced(base, es, cursor)
  }

  ghost predicate OwnText<L>(base: seq<L>, es: seq<Edit<L>>, own: seq<Edit<L>>, cursor: int, text: seq<L>, at: int) {
    && Ordered(Mine(es, own), cursor, |base|) && 0 <= at <= |text|
    && text[at..] == Spliced(base, Mine(es, own), cursor)
  }

  /** Walking all edits in order: an own edit is already in the text, another is made
      there at the running offset. */
  lemma {:induction false} WalkBoth<L>(base: seq<L>, es: seq<Edit<L>>, own: seq<Edit<L>>, cursor: int, text: seq<L>, at: int)
    requires Ordered(es, cursor, |base|) && OwnText(base, es, own, cursor, text, at)
    ensures WalkedBoth(base, es, own, cursor, text, at)
    decreases |es|
  {
    if es != [] {
      HeadBounds(es, cursor, |base|);
      WalkDown(base, es, own, cursor, text, at);
      WalkBoth(base, es[1..], own, es[0].end, text, NextAt(es[0], own, cursor, at));
      WalkUp(base, es[0], es[1..], own, cursor, text, at);
    }
  }

  /** Where the walk stands in the text once it has passed an edit. */
  ghost function NextAt<L>(e: Edit<L>, own: seq<Edit<L>>, cursor: int, at: int): int {
    if e in own then at + (e.start - cursor) + |e.replacement| else at + (e.end - cursor)
  }

  /** What the text holds between the two places. */
  ghost predicate Here<L>(base: seq<L>, e: Edit<L>, own: seq<Edit<L>>, cursor: int, text: seq<L>, at: int) {
    && 0 <= cursor <= e.start <= e.end <= |base| && 0 <= at && NextAt(e, own, cursor, at) <= |text|
    && text[at..NextAt(e, own, cursor, at)] ==
         if e in own then base[cursor..e.start] + e.replacement else base[cursor..e.end]
  }

  lemma WalkDown<L>(base: seq<L>, es: seq<Edit<L>>, own: seq<Edit<L>>, cursor: int, text: seq<L>, at: int)
    requires Ordered(es, cursor, |base|) && OwnText(base, es, own, cursor, text, at) && es != []
    ensures OwnText(base, es[1..], own, es[0].end, text, NextAt(es[0], own, cursor, at))
    ensures Here(base, es[0], own, cursor, text, at)
  {
    HeadBounds(es, cursor, |base|);
    if es[0] in own { WalkOwn(base, es, own, cursor, text, at); } else { WalkOther(base, es, own, cursor, text, at); }
  }

  lemma WalkUp<L>(base: seq<L>, e: Edit<L>, rest: seq<Edit<L>>, own: seq<Edit<L>>, cursor: int, text: seq<L>, at: int)
    requires Here(base, e, own, cursor, text, at) && WalkedBoth(base, rest, own, e.end, text, NextAt(e, own, cursor, at))
    ensures WalkedBoth(base, [e] + rest, own, cursor, text, at)
  {
    var at' := NextAt(e, own, cursor, at);
    RebasedCons(e, rest, own, at - cursor);
    if e in own {
      OwnMade(base, e, rest, cursor, text, Rebased(rest, own, at' - e.end), at, at');
    } else {
      SamePrefix(text, at, at', base, cursor, e.end, e.start - cursor);
      OtherMade(base, e, rest, cursor, text, Move(e, at - cursor), Rebased(rest, own, at' - e.end), at);
    }
  }

  lemma WalkOwn<L>(base: seq<L>, es: seq<Edit<L>>, own: seq<Edit<L>>, cursor: int, text: seq<L>, at: int)
    requires Ordered(es, cursor, |base|) && OwnText(base, es, own, cursor, text, at) && es != [] && es[0] in own
    ensures var e := es[0];
            var at' := at + (e.start - cursor) + |e.replacement|;
            && OwnText(base, es[1..], own, e.end, text, at')
            && text[at..at'] == base[cursor..e.start] + e.replacement
  {
    var e, mine := es[0], Mine(es[1..], own);
    PartsOrdered(es[1..], own, e.end, |base|);
    HeadBounds(es, cursor, |base|);
    assert Mine(es, own) == [e] + mine;
    SplicedCons(base, e, mine, cursor);
    CutText(text, at, base[cursor..e.start] + e.replacement, Spliced(base, mine, e.end));
  }

  lemma SplicedCons<L>(base: seq<L>, e: Edit<L>, es: seq<Edit<L>>, cursor: int)
    requires 0 <= cursor <= e.start <= e.end && Ordered(es, e.end, |base|)
    ensures Ordered([e] + es, cursor, |base|) && e.end <= |base|
    ensures Spliced(base, [e] + es, cursor) == base[cursor..e.start] + e.replacement + Spliced(base, es, e.end)
  {
    assert ([e] + es)[0] == e && ([e] + es)[1..] == es;
  }

  lemma WalkOther<L>(base: seq<L>, es: seq<Edit<L>>, own: seq<Edit<L>>, cursor: int, text: seq<L>, at: int)
    requires Ordered(es, cursor, |base|) && OwnText(base, es, own, cursor, text, at) && es != [] && es[0] !in own
    ensures var e := es[0];
            var at' := at + (e.end - cursor);
            && OwnText(base, es[1..], own, e.end, text, at')
            && text[at..at'] == base[cursor..e.end]
  {
    var e, mine := es[0], Mine(es[1..], own);
    PartsOrdered(es[1..], own, e.end, |base|);
    assert Mine(es, own) == mine;
    LeadingKept(base, mine, cursor, e.end);
    CutText(text, at, base[cursor..e.end], Spliced(base, mine, e.end));
  }

  /** An own edit is in the text already: the walk goes on behind it. */
  lemma OwnMade<L>(base: seq<L>, e: Edit<L>, rest: seq<Edit<L>>, cursor: int, text: seq<L>, later: seq<Edit<L>>, at: int, at': int)
    requires 0 <= cursor <= e.start <= e.end && Ordered(rest, e.end, |base|) && 0 <= at <= at' && Ordered(later, at', |text|)
    requires e.end <= |base| && at' <= |text| && text[at..at'] == base[cursor..e.start] + e.replacement
    requires Spliced(text, later, at') == Spliced(base, rest, e.end)
    ensures Ordered(later, at, |text|) && Ordered([e] + rest, cursor, |base|)
    ensures Spliced(text, later, at) == Spliced(base, [e] + rest, cursor)
  {
    LeadingKept(text, later, at, at');
    SplicedCons(base, e, rest, cursor);
  }

  /** Another edit is made in the text where its lines now are. */
  lemma OtherMade<L>(base: seq<L>, e: Edit<L>, rest: seq<Edit<L>>, cursor: int, text: seq<L>, moved: Edit<L>, later: seq<Edit<L>>, at: int)
    requires 0 <= cursor <= e.start <= e.end && Ordered(rest, e.end, |base|) && e.end <= |base|
    requires 0 <= at <= moved.start <= moved.end && Ordered(later, moved.end, |text|) && moved.end <= |text|
    requires moved.replacement == e.replacement && text[at..moved.start] == base[cursor..e.start]
    requires Spliced(text, later, moved.end) == Spliced(base, rest, e.end)
    ensures Ordered([moved] + later, at, |text|) && Ordered([e] + rest, cursor, |base|)
    ensures Spliced(text, [moved] + later, at) == Spliced(base, [e] + rest, cursor)
  {
    SplicedCons(base, e, rest, cursor);
    SplicedCons(text, moved, later, at);
  }

  lemma RebasedCons<L>(e: Edit<L>, rest: seq<Edit<L>>, own: seq<Edit<L>>, offset: int)
    ensures Rebased([e] + rest, own, offset) ==
            if e in own then Rebased(rest, own, offset + Growth(e)) else [Move(e, offset)] + Rebased(rest, own, offset)
  {
    assert ([e] + rest)[0] == e && ([e] + rest)[1..] == rest;
  }

  lemma HeadBounds<L>(es: seq<Edit<L>>, cursor: int, size: int)
    requires Ordered(es, cursor, size) && es != []
    ensures es == [es[0]] + es[1..] && Ordered(es[1..], es[0].end, size)
    ensures 0 <= cursor <= es[0].start <= es[0].end <= size
  {
    OrderedPairs(es, cursor, size);
  }

  lemma SamePrefix<L>(s: seq<L>, a: int, b: int, t: seq<L>, c: int, d: int, n: int)
    requires 0 <= a <= b <= |s| && 0 <= c <= d <= |t| && s[a..b] == t[c..d] && 0 <= n <= b - a
    ensures n <= d - c && s[a..a + n] == t[c..c + n]
  {
    assert |s[a..b]| == |t[c..d]|;
    assert s[a..a + n] == s[a..b][..n] && t[c..c + n] == t[c..d][..n];
  }

  /** Lines before the first edit are kept as they are. */
  lemma LeadingKept<L>(base: seq<L>, es: seq<Edit<L>>, cursor: int, later: int)
    requires 0 <= cursor <= later && Ordered(es, later, |base|)
    ensures Ordered(es, cursor, |base|)
    ensures Spliced(base, es, cursor) == base[cursor..later] + Spliced(base, es, later)
  {
    if es == [] {
      assert base[cursor..] == base[cursor..later] + base[later..];
    } else {
      SplicedHead(base, es, later);
      SplicedHead(base, es, cursor);
      var start, tail := es[0].start, es[0].replacement + Spliced(base, es[1..], es[0].end);
      SliceJoin(base, cursor, later, start, tail);
    }
  }

  lemma SliceJoin<L>(s: seq<L>, a: int, b: int, c: int, tail: seq<L>)
    requires 0 <= a <= b <= c <= |s|
    ensures s[a..c] + tail == s[a..b] + (s[b..c] + tail)
  {
    assert s[a..c] == s[a..b] + s[b..c];
  }

  lemma SplicedHead<L>(base: seq<L>, es: seq<Edit<L>>, cursor: int)
    requires Ordered(es, cursor, |base|) && es != []
    ensures cursor <= es[0].start <= |base| && Ordered(es[1..], es[0].end, |base|)
    ensures Spliced(base, es, cursor) == base[cursor..es[0].start] + (es[0].replacement + Spliced(base, es[1..], es[0].end))
  {
    OrderedPairs(es, cursor, |base|);
  }

  lemma CutText<L>(text: seq<L>, at: int, head: seq<L>, tail: seq<L>)
    requires 0 <= at <= |text| && text[at..] == head + tail
    ensures at + |head| <= |text| && text[at..at + |head|] == head && text[at + |head|..] == tail
  {
    assert |text[at..]| == |head| + |tail|;
    assert text[at..at + |head|] == text[at..][..|head|];
    assert text[at + |head|..] == text[at..][|head|..];
  }

  // ------------------------------------------------- offsets agree with it

  lemma {:induction false} OffsetSplit<L>(a: seq<Edit<L>>, b: seq<Edit<L>>, at: int)
    ensures Offset(a + b, at) == Offset(a, at) + Offset(b, at)
  {
    if a == [] {
      assert a + b == b;
    } else {
      OffsetSplit(a[1..], b, at);
      assert (a + b)[1..] == a[1..] + b;
    }
  }

  lemma {:induction false} OffsetNone<L>(es: seq<Edit<L>>, at: int)
    requires forall i :: 0 <= i < |es| ==> es[i].end > at
    ensures Offset(es, at) == 0
  {
    if es != [] { OffsetNone(es[1..], at); }
  }

  /** Past all of them, the offset no longer depends on the line. */
  lemma {:induction false} OffsetAll<L>(es: seq<Edit<L>>, at: int, later: int)
    requires at <= later && forall i :: 0 <= i < |es| ==> es[i].end <= at
    ensures Offset(es, at) == Offset(es, later)
  {
    if es != [] { OffsetAll(es[1..], at, later); }
  }

  /** Where `own` splits into edits already passed and edits still to come. */
  ghost predicate Passing<L>(es: seq<Edit<L>>, own: seq<Edit<L>>, done: seq<Edit<L>>, cursor: int) {
    && NeighboursClear(es) && (forall i :: 0 <= i < |es| ==> cursor <= es[i].start <= es[i].end)
    && own == done + Mine(es, own) && (forall i :: 0 <= i < |done| ==> done[i].end <= cursor)
  }

  lemma LaterEnds<L>(es: seq<Edit<L>>)
    requires NeighboursClear(es) && es != [] && forall i :: 0 <= i < |es| ==> es[i].start <= es[i].end
    ensures forall i :: 0 < i < |es| ==> es[0].end <= es[i].start && es[i].end > es[0].start
  {
    forall i | 0 < i < |es|
      ensures es[0].end <= es[i].start && es[i].end > es[0].start
    {
      NeighboursSuffice(es, 0, i);
    }
  }

  lemma PassOne<L(!new)>(es: seq<Edit<L>>, own: seq<Edit<L>>, done: seq<Edit<L>>, cursor: int)
    requires Passing(es, own, done, cursor) && es != []
    ensures Passing(es[1..], own, if es[0] in own then done + [es[0]] else done, es[0].end)
  {
    var e, rest := es[0], es[1..];
    LaterEnds(es);
    NeighboursTail(es);
    assert forall i :: 0 <= i < |rest| ==> rest[i] == es[i + 1];
    if e in own {
      assert done + Mine(es, own) == (done + [e]) + Mine(rest, own);
    } else {
      assert Mine(es, own) == Mine(rest, own);
    }
  }

  /** The offset while passing is the declared offset of the next edit. */
  lemma OffsetAtNext<L(!new)>(es: seq<Edit<L>>, own: seq<Edit<L>>, done: seq<Edit<L>>, cursor: int)
    requires Passing(es, own, done, cursor) && es != [] && es[0] !in own
    ensures Offset(own, es[0].start) == Offset(done, cursor)
  {
    var e, rest := es[0], es[1..];
    LaterEnds(es);
    PartsExactly(rest, own);
    var mine := Mine(rest, own);
    assert Mine(es, own) == mine;
    OffsetSplit(done, mine, e.start);
    forall i | 0 <= i < |mine|
      ensures mine[i].end > e.start
    {
      assert mine[i] in rest;
    }
    OffsetNone(mine, e.start);
    OffsetAll(done, cursor, e.start);
  }

  lemma OffsetGrows<L>(done: seq<Edit<L>>, e: Edit<L>, cursor: int)
    requires cursor <= e.end && forall i :: 0 <= i < |done| ==> done[i].end <= cursor
    ensures Offset(done + [e], e.end) == Offset(done, cursor) + Growth(e)
  {
    var none: seq<Edit<L>> := [];
    OffsetAll(done, cursor, e.end);
    OffsetSplit(done, [e], e.end);
    assert [e][1..] == none;
  }

  /** Keeping a running offset gives every edit its declared shift. */
  lemma {:induction false} RebasedIsShifted<L(!new)>(es: seq<Edit<L>>, own: seq<Edit<L>>, done: seq<Edit<L>>, cursor: int)
    requires Passing(es, own, done, cursor)
    ensures Rebased(es, own, Offset(done, cursor)) == Shifted(own, Others(es, own))
    decreases |es|
  {
    if es != [] {
      var e, rest := es[0], es[1..];
      PassOne(es, own, done, cursor);
      if e in own {
        OffsetGrows(done, e, cursor);
        RebasedIsShifted(rest, own, done + [e], e.end);
      } else {
        OffsetAtNext(es, own, done, cursor);
        OffsetAll(done, cursor, e.end);
        RebasedIsShifted(rest, own, done, e.end);
        assert Others(es, own)[1..] == Others(rest, own);
      }
    }
  }

  // --------------------------------------------------------------- the laws

  lemma PartsOfCombined<L(!new)>(less: (seq<L>, seq<L>) -> bool, base: seq<L>, side: seq<L>, x: seq<Edit<L>>, y: seq<Edit<L>>)
    requires StrictOrder(less) && Script(base, side, x) && Rising(less, y)
    ensures Mine(Combined(less, x, y), x) == x && Others(Combined(less, x, y), x) == Others(y, x)
  {
    var es := Combined(less, x, y);
    CombinedExactly(less, x, y);
    PartsExactly(es, x);
    PartsExactly(y, x);
    PartsRise(less, es, x);
    PartsRise(less, y, x);
    ScriptRises(less, base, side, x);
    RisingIsUnique(less, Mine(es, x), x);
    RisingIsUnique(less, Others(es, x), Others(y, x));
  }

  /** One half of the diamond: a merge is the incoming side's remaining edits, moved,
      made on the line's text. */
  lemma Diamond<L(!new)>(style: Style<L>, base: seq<L>, line: seq<L>, incoming: seq<L>, x: seq<Edit<L>>, y: seq<Edit<L>>)
    requires StrictOrder(style.less) && Script(base, line, x) && Script(base, incoming, y)
    requires Merged(style, base, x, y).Some?
    ensures var moved := Shifted(x, Others(y, x));
            Ordered(moved, 0, |line|) && Merged(style, base, x, y) == Some(Apply(line, moved))
  {
    var es := Combined(style.less, x, y);
    CombinedIsOrdered(style, base, line, incoming, x, y);
    PartsOfCombined(style.less, base, line, x, y);
    assert line[0..] == line;
    WalkBoth(base, es, x, 0, line, 0);
    OrderedPairs(es, 0, |base|);
    RebasedIsShifted(es, x, [], 0);
  }

  lemma CombinedIsOrdered<L(!new)>(style: Style<L>, base: seq<L>, line: seq<L>, incoming: seq<L>, x: seq<Edit<L>>, y: seq<Edit<L>>)
    requires StrictOrder(style.less) && Script(base, line, x) && Script(base, incoming, y)
    ensures var es := Combined(style.less, x, y);
            && Rising(style.less, y)
            && (AllClear(es) <==> NeighboursClear(es)) && (AllClear(es) ==> Ordered(es, 0, |base|))
  {
    CombinedExactly(style.less, x, y);
    ScriptRises(style.less, base, line, x);
    ScriptRises(style.less, base, incoming, y);
    NeighboursMeanClear(style.less, Combined(style.less, x, y), |base|);
  }

  /** The other half, and symmetry: the sides can be exchanged. */
  lemma DiamondBothWays<L(!new)>(style: Style<L>, base: seq<L>, line: seq<L>, incoming: seq<L>, x: seq<Edit<L>>, y: seq<Edit<L>>)
    requires StrictOrder(style.less) && Script(base, line, x) && Script(base, incoming, y)
    ensures Merged(style, base, x, y) == Merged(style, base, y, x)
    ensures Merged(style, base, x, y).Some? ==>
      && Ordered(Shifted(x, Others(y, x)), 0, |line|) && Ordered(Shifted(y, Others(x, y)), 0, |incoming|)
      && Merged(style, base, x, y).value == Apply(line, Shifted(x, Others(y, x)))
      && Merged(style, base, x, y).value == Apply(incoming, Shifted(y, Others(x, y)))
  {
    CombinedSymmetric(style.less, x, y);
    if Merged(style, base, x, y).Some? {
      Diamond(style, base, line, incoming, x, y);
      Diamond(style, base, incoming, line, y, x);
    }
  }

  function WithinLimit<L>(style: Style<L>, text: seq<L>): Option<seq<L>> {
    if Width(style.width, text) <= FILE_LIMIT then Some(text) else None
  }

  /** With the diff of each side: if the sides agree, or one did not change, the merge
      is the side that did, size permitting. */
  lemma UncontestedIsTheSide<L(!new)>(style: Style<L>, diff: (seq<L>, seq<L>) -> seq<Edit<L>>, base: seq<L>, side: seq<L>)
    requires StrictOrder(style.less) && LawfulDiff(diff)
    ensures Merged(style, base, diff(base, side), diff(base, side)) == WithinLimit(style, side)
    ensures Merged(style, base, diff(base, base), diff(base, side)) == WithinLimit(style, side)
    ensures Merged(style, base, diff(base, side), diff(base, base)) == WithinLimit(style, side)
  {
    assert Script(base, side, diff(base, side));
    CombinedAbsorbs(style.less, base, side, diff(base, side));
    ScriptRises(style.less, base, side, diff(base, side));
  }

  /** A merge is refused exactly when two different edits are not clear, or the
      result is too large. */
  lemma RefusedExactly<L(!new)>(style: Style<L>, base: seq<L>, line: seq<L>, incoming: seq<L>, x: seq<Edit<L>>, y: seq<Edit<L>>)
    requires StrictOrder(style.less) && Script(base, line, x) && Script(base, incoming, y)
    ensures Merged(style, base, x, y).None? <==>
      || ClashAcross(x, y)
      || (Ordered(Combined(style.less, x, y), 0, |base|) && Width(style.width, Apply(base, Combined(style.less, x, y))) > FILE_LIMIT)
  {
    CombinedIsOrdered(style, base, line, incoming, x, y);
    UnclearAcross(style.less, base, line, incoming, x, y);
  }

  ghost predicate ClashAcross<L(!new)>(x: seq<Edit<L>>, y: seq<Edit<L>>) {
    exists a, b :: a in x && b in y && a != b && !Clear(a, b)
  }

  /** Edits are clear when no base line is replaced by both, and no insertion is inside
      the other edit or at its border. */
  lemma ClearExactly<L>(a: Edit<L>, b: Edit<L>)
    requires a.start <= a.end && b.start <= b.end
    ensures Clear(a, b) <==>
      && (forall n: int :: !(Replaces(a, n) && Replaces(b, n)))
      && (a.start == a.end ==> !(b.start <= a.start <= b.end))
      && (b.start == b.end ==> !(a.start <= b.start <= a.end))
  {
    var n := if a.start <= b.start then b.start else a.start;
    assert !Clear(a, b) && a.start < a.end && b.start < b.end ==> Replaces(a, n) && Replaces(b, n);
  }

  predicate Replaces<L>(e: Edit<L>, n: int) {
    e.start <= n < e.end
  }

  /** One edit cuts its lines out and puts its replacement there. */
  lemma OneEdit<L>(base: seq<L>, e: Edit<L>)
    requires 0 <= e.start <= e.end <= |base|
    ensures Ordered([e], 0, |base|) && Apply(base, [e]) == base[..e.start] + e.replacement + base[e.end..]
  {
    assert [e][1..] == [];
    assert Ordered(([e])[1..], e.end, |base|);
    assert Spliced(base, ([e])[1..], e.end) == base[e.end..];
  }

  /** Two edits that are not clear come from different sides. */
  lemma UnclearAcross<L(!new)>(less: (seq<L>, seq<L>) -> bool, base: seq<L>, line: seq<L>, incoming: seq<L>, x: seq<Edit<L>>, y: seq<Edit<L>>)
    requires StrictOrder(less) && Script(base, line, x) && Script(base, incoming, y)
    ensures AllClear(Combined(less, x, y)) <==> !ClashAcross(x, y)
  {
    var es := Combined(less, x, y);
    CombinedExactly(less, x, y);
    ScriptRises(less, base, line, x);
    ScriptRises(less, base, incoming, y);
    if !AllClear(es) {
      var a, b :| a in es && b in es && a != b && !Clear(a, b);
      assert !Clear(b, a);
      assert (a in x && b in y) || (b in x && a in y);
    }
  }
}
