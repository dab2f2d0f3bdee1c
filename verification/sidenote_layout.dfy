/**
 * Desktop placement of sidenotes in the margin (`positionSidenote` and
 * `repositionSidenotes`).
 *
 * Layout reads are parameters: `refTop` is the reference's viewport top from
 * `getBoundingClientRect`, `scrollY` the page's vertical scroll offset,
 * `parentOffset` the `offsetTop` of the note's parent (one per note in a
 * pass, `parentOffsets`), and the other notes
 * appear with the `offsetTop` and `offsetHeight` the script reads from them,
 * in document order. The numbers are taken as the script takes them: it
 * compares the other notes' `offsetTop` with a document-relative target.
 */
module SidenoteLayout {
  import opened Sidenotes

  /** Where a note would go with no collision: a fixed gap above its reference. */
  function TargetTop(refTop: int, scrollY: int): (r: int)
    ensures r + SidenoteOffset == refTop + scrollY
    ensures r < refTop + scrollY
  {
    refTop + scrollY - SidenoteOffset
  }

  /** The lowest top a note may take below `n`: its bottom plus the gap. */
  function Clearance(n: Note): int {
    n.top + n.height + SidenoteOffset
  }

  /** The notes whose top lies strictly above `target`, in document order. */
  function Above(others: seq<Note>, target: int): (r: seq<Note>)
    ensures |r| <= |others|
    ensures forall n :: n in r ==> n in others && n.top < target
    ensures forall j :: 0 <= j < |others| && others[j].top < target ==> others[j] in r
  {
    if others == [] then []
    else (if others[0].top < target then [others[0]] else []) + Above(others[1..], target)
  }

  /** The filter keeps document order: filtering a concatenation is
      concatenating the filtered parts. */
  lemma {:induction false} AboveKeepsOrder(a: seq<Note>, b: seq<Note>, target: int)
    ensures Above(a + b, target) == Above(a, target) + Above(b, target)
    decreases |a|
  {
    if a == [] {
      assert a + b == b;
    } else {
      var rest := a[1..];
      assert a == [a[0]] + rest;
      assert a + b == [a[0]] + (rest + b);
      AboveKeepsOrder(rest, b, target);
      AboveCons(a[0], rest + b, target);
      AboveCons(a[0], rest, target);
      var head := if a[0].top < target then [a[0]] else [];
      AppendAssoc(head, Above(rest, target), Above(b, target));
    }
  }

  lemma AppendAssoc(x: seq<Note>, y: seq<Note>, z: seq<Note>)
    ensures x + (y + z) == (x + y) + z
  {
  }

  /** One unfolding of the filter. */
  lemma AboveCons(n: Note, rest: seq<Note>, target: int)
    ensures Above([n] + rest, target) == (if n.top < target then [n] else []) + Above(rest, target)
  {
  }

  /** A single note is kept exactly when it lies above; with
      `AboveKeepsOrder` this determines the filter completely. */
  lemma AboveSingle(n: Note, target: int)
    ensures Above([n], target) == if n.top < target then [n] else []
  {
  }

  /** Index of the last note in document order whose top lies above
      `target`, or -1 when there is none. */
  function LastAbove(others: seq<Note>, target: int): (k: int)
    ensures -1 <= k < |others|
    ensures k == -1 ==> forall j :: 0 <= j < |others| ==> others[j].top >= target
    ensures 0 <= k ==> others[k].top < target && forall j :: k < j < |others| ==> others[j].top >= target
  {
    if others == [] then -1
    else
      var k := LastAbove(others[1..], target);
      if 0 <= k then k + 1
      else if others[0].top < target then 0
      else -1
  }

  /** The filtered list is empty exactly when no note lies above, and its
      last element is the note `LastAbove` finds. */
  lemma {:induction false} AboveEndsAtLastAbove(others: seq<Note>, target: int)
    ensures Above(others, target) == [] <==> LastAbove(others, target) == -1
    ensures Above(others, target) != [] ==>
      Above(others, target)[|Above(others, target)| - 1] == others[LastAbove(others, target)]
  {
    if others != [] {
      var rest := others[1..];
      AboveEndsAtLastAbove(rest, target);
      var head := if others[0].top < target then [others[0]] else [];
      var tail := Above(rest, target);
      assert Above(others, target) == head + tail;
      var kr := LastAbove(rest, target);
      if 0 <= kr {
        // the last note above lies in the rest, and so does the filter's end
        assert (head + tail)[|head + tail| - 1] == tail[|tail| - 1];
        assert rest[kr] == others[kr + 1];
      } else {
        assert head + tail == head;
      }
    }
  }

  /** The push-down rule: a target above the clearance of the last note of
      `above` moves down to that clearance. */
  function Clamp(target: int, above: seq<Note>): (r: int)
    ensures r >= target
    ensures above == [] ==> r == target
    ensures above != [] ==> r >= Clearance(above[|above| - 1])
    ensures above != [] ==> r == target || r == Clearance(above[|above| - 1])
  {
    if above == [] then target
    else
      var lastBottom := Clearance(above[|above| - 1]);
      if target < lastBottom then lastBottom else target
  }

  /** The document-relative top `positionSidenote` settles on. */
  function FinalTop(refTop: int, scrollY: int, others: seq<Note>): (r: int)
    ensures r >= TargetTop(refTop, scrollY)
    ensures var k := LastAbove(others, TargetTop(refTop, scrollY));
      && (k == -1 ==> r == TargetTop(refTop, scrollY))
      && (0 <= k ==> r >= Clearance(others[k]))
      && (0 <= k ==> r == TargetTop(refTop, scrollY) || r == Clearance(others[k]))
  {
    var target := TargetTop(refTop, scrollY);
    AboveEndsAtLastAbove(others, target);
    Clamp(target, Above(others, target))
  }

  /** All notes but the `i`-th, in document order. */
  function Others(notes: seq<Note>, i: nat): (r: seq<Note>)
    requires i < |notes|
    ensures |r| == |notes| - 1
    ensures forall j :: 0 <= j < i ==> r[j] == notes[j]
    ensures forall j :: i <= j < |r| ==> r[j] == notes[j + 1]
  {
    notes[..i] + notes[i + 1..]
  }

  /** Note `i` moved to the top `positionSidenote` writes for it: its final
      top, computed against all other notes, minus its parent's offset. */
  function Placed(notes: seq<Note>, i: nat, refTop: int, scrollY: int, parentOffset: int): (r: Note)
    requires i < |notes|
    ensures r.height == notes[i].height && r.active == notes[i].active
    ensures r.top + parentOffset == FinalTop(refTop, scrollY, Others(notes, i))
    ensures r.top + parentOffset >= TargetTop(refTop, scrollY)
  {
    notes[i].(top := FinalTop(refTop, scrollY, Others(notes, i)) - parentOffset)
  }

  /** `positionSidenote(ref, notes[i])`: on a narrow viewport nothing moves;
      otherwise only note `i` moves, its `style.top` being its final top
      minus its parent's offset. The note's read-back `offsetTop` is taken to
      be the `style.top` written. */
  function Position(innerWidth: int, notes: seq<Note>, i: nat, refTop: int, scrollY: int, parentOffset: int): (r: seq<Note>)
    requires i < |notes|
    ensures |r| == |notes|
    ensures IsMobile(innerWidth) ==> r == notes
    ensures !IsMobile(innerWidth) ==> forall j :: 0 <= j < |notes| && j != i ==> r[j] == notes[j]
    ensures !IsMobile(innerWidth) ==>
      r[i] == notes[i].(top := FinalTop(refTop, scrollY, Others(notes, i)) - parentOffset)
    ensures !IsMobile(innerWidth) ==> r[i].top + parentOffset >= TargetTop(refTop, scrollY)
  {
    if IsMobile(innerWidth) then notes
    else notes[i := Placed(notes, i, refTop, scrollY, parentOffset)]
  }

  /** The first `n` steps of `repositionSidenotes`, with the references'
      viewport tops `refTops` and each note's parent offset
      `parentOffsets`: step `i` positions note `i` against reference `i` when
      that note exists. */
  function RepositionSteps(innerWidth: int, refTops: seq<int>, notes: seq<Note>, scrollY: int, parentOffsets: seq<int>, n: nat): (r: seq<Note>)
    requires n <= |refTops| && |parentOffsets| == |notes|
    ensures |r| == |notes|
    ensures IsMobile(innerWidth) ==> r == notes
    ensures forall j :: 0 <= j < |notes| ==> r[j].height == notes[j].height && r[j].active == notes[j].active
    ensures forall j :: n <= j < |notes| ==> r[j] == notes[j]
    ensures !IsMobile(innerWidth) ==> forall j :: 0 <= j < |notes| && j < n ==>
      r[j].top + parentOffsets[j] >= TargetTop(refTops[j], scrollY)
  {
    if IsMobile(innerWidth) || n == 0 then notes
    else
      var before := RepositionSteps(innerWidth, refTops, notes, scrollY, parentOffsets, n - 1);
      if n - 1 < |notes| then Position(innerWidth, before, n - 1, refTops[n - 1], scrollY, parentOffsets[n - 1])
      else before
  }

  /** `repositionSidenotes`: every reference positions its note, in
      reference order, each note against its own parent's offset. Nothing
      moves on a narrow viewport, a note without a reference stays where it
      is, and heights and `active` flags are kept. */
  function Reposition(innerWidth: int, refTops: seq<int>, notes: seq<Note>, scrollY: int, parentOffsets: seq<int>): (r: seq<Note>)
    requires |parentOffsets| == |notes|
    ensures |r| == |notes|
    ensures IsMobile(innerWidth) ==> r == notes
    ensures forall j :: 0 <= j < |notes| ==> r[j].height == notes[j].height && r[j].active == notes[j].active
    ensures forall j :: |refTops| <= j < |notes| ==> r[j] == notes[j]
    ensures !IsMobile(innerWidth) ==> forall j :: 0 <= j < |notes| && j < |refTops| ==>
      r[j].top + parentOffsets[j] >= TargetTop(refTops[j], scrollY)
  {
    RepositionSteps(innerWidth, refTops, notes, scrollY, parentOffsets, |refTops|)
  }

  /** Step `n` (the one after the first `m = n - 1`) moves only note `m`,
      to where `positionSidenote` puts it. `n` is passed alongside `m`, tied by
      a precondition, so that neither side of the ensures mentions `m + 1` or
      `n - 1`, which keeps the unfolding of `RepositionSteps` cheap. */
  lemma StepMovesOnlyItsNote(innerWidth: int, refTops: seq<int>, notes: seq<Note>, scrollY: int, parentOffsets: seq<int>, m: nat, n: nat, j: nat)
    requires !IsMobile(innerWidth) && |parentOffsets| == |notes|
    requires n == m + 1 && n <= |refTops| && j <= m && j < |notes|
    ensures var prev := RepositionSteps(innerWidth, refTops, notes, scrollY, parentOffsets, m);
      RepositionSteps(innerWidth, refTops, notes, scrollY, parentOffsets, n)[j]
        == if j == m then Placed(prev, j, refTops[j], scrollY, parentOffsets[j]) else prev[j]
  {
    var prev := RepositionSteps(innerWidth, refTops, notes, scrollY, parentOffsets, m);
    if m < |notes| {
      assert RepositionSteps(innerWidth, refTops, notes, scrollY, parentOffsets, n)
        == Position(innerWidth, prev, m, refTops[m], scrollY, parentOffsets[m]);
    } else {
      assert RepositionSteps(innerWidth, refTops, notes, scrollY, parentOffsets, n) == prev;
    }
  }

  /** Each step of a pass fixes its note for good: after `n` steps note `j`
      (for `j < n`) is where step `j` put it, against the other notes as the
      first `j` steps left them. */
  lemma {:induction false} RepositionPlacesEach(innerWidth: int, refTops: seq<int>, notes: seq<Note>, scrollY: int, parentOffsets: seq<int>, n: nat, j: nat)
    requires !IsMobile(innerWidth) && |parentOffsets| == |notes|
    requires j < n <= |refTops| && j < |notes|
    ensures RepositionSteps(innerWidth, refTops, notes, scrollY, parentOffsets, n)[j]
      == Placed(RepositionSteps(innerWidth, refTops, notes, scrollY, parentOffsets, j), j, refTops[j], scrollY, parentOffsets[j])
    decreases n
  {
    var m: nat := n - 1;
    StepMovesOnlyItsNote(innerWidth, refTops, notes, scrollY, parentOffsets, m, n, j);
    if j < m {
      RepositionPlacesEach(innerWidth, refTops, notes, scrollY, parentOffsets, m, j);
    }
  }

  /** A second pass need not leave the notes where the first put them: the
      first pass reads a note's stale top, the second its new one. */
  lemma RepositionNotIdempotent()
    ensures var notes := [Note(1000, 10, false), Note(50, 500, false)];
      var once := Reposition(1400, [120, 330], notes, 0, [0, 0]);
      var twice := Reposition(1400, [120, 330], once, 0, [0, 0]);
      once[0].top == 570 && twice[0].top == 100
  {
    var notes := [Note(1000, 10, false), Note(50, 500, false)];
    var step1 := Position(1400, notes, 0, 120, 0, 0);
    assert Others(notes, 0) == [notes[1]];
    assert step1 == [Note(570, 10, false), notes[1]];
    var once := Position(1400, step1, 1, 330, 0, 0);
    assert Others(step1, 1) == [step1[0]];
    assert once == [Note(570, 10, false), Note(310, 500, false)];
    assert RepositionSteps(1400, [120, 330], notes, 0, [0, 0], 1) == step1;
    assert Reposition(1400, [120, 330], notes, 0, [0, 0]) == once;
    var again1 := Position(1400, once, 0, 120, 0, 0);
    assert Others(once, 0) == [once[1]];
    assert again1[0].top == 100;
    var twice := Position(1400, again1, 1, 330, 0, 0);
    assert twice[0] == again1[0];
    assert RepositionSteps(1400, [120, 330], once, 0, [0, 0], 1) == again1;
    assert Reposition(1400, [120, 330], once, 0, [0, 0]) == twice;
  }

  /** A whole pass with references in increasing order can still leave a
      note overlapping the one before it. */
  lemma RepositionMayOverlap()
    ensures var r := Reposition(1400, [120, 130], [Note(0, 10, false), Note(0, 200, false)], 0, [0, 0]);
      r[0].top == 220 && r[1].top == 110 && r[1].top < r[0].top < Clearance(r[1])
  {
    var notes := [Note(0, 10, false), Note(0, 200, false)];
    var step1 := Position(1400, notes, 0, 120, 0, 0);
    assert Others(notes, 0) == [notes[1]];
    assert step1 == [Note(220, 10, false), notes[1]];
    var once := Position(1400, step1, 1, 130, 0, 0);
    assert Others(step1, 1) == [step1[0]];
    assert once == [Note(220, 10, false), Note(110, 200, false)];
    assert RepositionSteps(1400, [120, 130], notes, 0, [0, 0], 1) == step1;
    assert Reposition(1400, [120, 130], notes, 0, [0, 0]) == once;
  }

  /** Notes that follow one another down the page with at least the gap
      between each and the next. */
  predicate Stacked(notes: seq<Note>) {
    forall j, k :: 0 <= j < k < |notes| ==> Clearance(notes[j]) <= notes[k].top
  }

  /** Against a stack of notes the push-down clears every note above the
      target, not only the last one. Notes starting at or below the target
      are not looked at (`StackedMayStillOverlap`). */
  lemma StackedClearsAllAbove(others: seq<Note>, refTop: int, scrollY: int)
    requires Stacked(others)
    ensures forall j :: 0 <= j < |others| && others[j].top < TargetTop(refTop, scrollY) ==>
      FinalTop(refTop, scrollY, others) >= Clearance(others[j])
  {
    var target := TargetTop(refTop, scrollY);
    var k := LastAbove(others, target);
    forall j | 0 <= j < |others| && others[j].top < target
      ensures FinalTop(refTop, scrollY, others) >= Clearance(others[j])
    {
      assert 0 <= k && j <= k;
      if j < k {
        assert Clearance(others[j]) <= others[k].top <= Clearance(others[k]);
      }
    }
  }

  /** Without the stack the push-down looks only at the last note above in
      document order and may leave a taller earlier note overlapping. */
  lemma UnstackedMayOverlap()
    ensures var others := [Note(0, 500, false), Note(10, 10, false)];
      FinalTop(120, 0, others) == 100 && FinalTop(120, 0, others) < Clearance(others[0])
  {
  }

  /** Notes starting at or below the target are never considered, so even a
      stack can be overlapped by the note being placed. */
  lemma StackedMayStillOverlap()
    ensures var others := [Note(100, 10, false)];
      Stacked(others) && FinalTop(120, 0, others) == 100
  {
  }
}
