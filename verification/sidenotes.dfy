/**
 * The sidenote system's bookkeeping: the viewport breakpoint, turning the
 * markers of the article into numbered notes, and the `active` flags that
 * show a note on a narrow viewport (the mobile toggle and the print
 * handlers).
 *
 * The DOM is replaced by values: an article is its remaining markers and
 * the notes created so far, a laid-out note is its top, height and `active`
 * class, and the viewport width is a parameter.
 */
module Sidenotes {
  import opened Wrappers

  /** Viewports narrower than this, in pixels, get the inline layout. */
  const MobileBreakpoint: int := 1400

  /** Vertical gap, in pixels, kept above a note and below the one it clears. */
  const SidenoteOffset: int := 20

  /** The inline (mobile) layout applies to viewports narrower than the
      breakpoint. */
  predicate IsMobile(innerWidth: int) {
    innerWidth < MobileBreakpoint
  }

  /** A `.sidenote-mark` element: its `data-content` attribute (absent =
      `None`) and its inner markup. */
  datatype Marker = Marker(dataContent: Option<string>, innerHtml: string)

  /** A created reference/note pair: the number both show and the note's text. */
  datatype Sidenote = Sidenote(number: nat, content: string)

  /** The article: markers not yet processed, and the notes created so far in
      creation order. */
  datatype Article = Article(markers: seq<Marker>, notes: seq<Sidenote>)

  /** A note as laid out on the page: its `offsetTop`, `offsetHeight` and
      whether it carries the `active` class. */
  datatype Note = Note(top: int, height: nat, active: bool)

  /** The text a marker contributes: a non-empty `data-content`, otherwise
      the inner markup. */
  function Payload(m: Marker): (s: string)
    ensures m.dataContent.Some? && m.dataContent.value != "" ==> s == m.dataContent.value
    ensures m.dataContent.None? || m.dataContent.value == "" ==> s == m.innerHtml
  {
    match m.dataContent
    case Some(c) => if c != "" then c else m.innerHtml
    case None => m.innerHtml
  }

  /** The notes made from `markers` when the first of them has index `base`
      in the scan: the marker at scan index k gets number k + 1. */
  function NumberFrom(markers: seq<Marker>, base: nat): (r: seq<Sidenote>)
    ensures |r| == |markers|
    ensures forall i :: 0 <= i < |markers| ==> r[i].number == base + i + 1 && r[i].content == Payload(markers[i])
  {
    if markers == [] then []
    else [Sidenote(base + 1, Payload(markers[0]))] + NumberFrom(markers[1..], base + 1)
  }

  /** `processSidenotes`: nothing happens without an article; otherwise every
      marker present is replaced, the i-th one (from 0) giving note i + 1. */
  function Process(article: Option<Article>): (r: Option<Article>)
    ensures article.None? ==> r.None?
    ensures article.Some? ==> r.Some? && r.value.markers == []
    ensures article.Some? ==> |r.value.notes| == |article.value.notes| + |article.value.markers|
    ensures article.Some? ==> r.value.notes[..|article.value.notes|] == article.value.notes
    ensures article.Some? ==> forall i :: 0 <= i < |article.value.markers| ==>
      r.value.notes[|article.value.notes| + i] == Sidenote(i + 1, Payload(article.value.markers[i]))
  {
    match article
    case None => None
    case Some(a) =>
      var created := NumberFrom(a.markers, 0);
      Some(Article([], a.notes + created))
  }

  /** `addSidenote`: a new marker carrying `content` as `data-content` (and no
      inner markup) is placed at position `at` among the unprocessed markers of
      the article, and the article is processed again. */
  function AddSidenote(a: Article, at: nat, content: string): (r: Article)
    requires at <= |a.markers|
    ensures r.markers == []
    ensures |r.notes| == |a.notes| + |a.markers| + 1
    ensures r.notes[..|a.notes|] == a.notes
    ensures r.notes[|a.notes| + at] == Sidenote(at + 1, content)
  {
    var marker := Marker(Some(content), "");
    Process(Some(a.(markers := a.markers[..at] + [marker] + a.markers[at..]))).value
  }

  /** Outcome of activating a reference on a narrow viewport. */
  datatype Toggled = Toggled(notes: seq<Note>, expanded: bool, scrolls: bool)

  /** `toggleMobileSidenote` for note `i`: every other note is closed, note
      `i` flips, `aria-expanded` becomes "was closed", and an opening note
      whose top (after the flip) lies below the viewport's height is scrolled
      into view. */
  function ToggleMobile(notes: seq<Note>, i: nat, viewportTop: int, innerHeight: int): (r: Toggled)
    requires i < |notes|
    ensures |r.notes| == |notes|
    ensures forall j :: 0 <= j < |notes| ==>
      r.notes[j].top == notes[j].top && r.notes[j].height == notes[j].height
    ensures forall j :: 0 <= j < |notes| && j != i ==> !r.notes[j].active
    ensures r.notes[i].active == !notes[i].active
    ensures r.expanded == !notes[i].active
    ensures r.scrolls <==> !notes[i].active && viewportTop > innerHeight
  {
    var wasActive := notes[i].active;
    var closed := seq(|notes|, j requires 0 <= j < |notes| => if j == i then notes[j] else notes[j].(active := false));
    var flipped := closed[i := closed[i].(active := !wasActive)];
    Toggled(flipped, !wasActive, !wasActive && viewportTop > innerHeight)
  }

  /** Activating reference `i` (click, Enter or Space): the mobile toggle on a
      narrow viewport; on a wide one only a timed opacity pulse, so the flags
      do not change. */
  function Activate(innerWidth: int, notes: seq<Note>, i: nat, viewportTop: int, innerHeight: int): (r: seq<Note>)
    requires i < |notes|
    ensures |r| == |notes|
    ensures forall j :: 0 <= j < |notes| ==> r[j].top == notes[j].top && r[j].height == notes[j].height
    ensures !IsMobile(innerWidth) ==> r == notes
    ensures IsMobile(innerWidth) ==> forall j :: 0 <= j < |notes| && j != i ==> !r[j].active
    ensures IsMobile(innerWidth) ==> r[i].active == !notes[i].active
  {
    if IsMobile(innerWidth) then ToggleMobile(notes, i, viewportTop, innerHeight).notes else notes
  }

  /** `beforeprint`: every note is shown. */
  function BeforePrint(notes: seq<Note>): (r: seq<Note>)
    ensures |r| == |notes|
    ensures forall j :: 0 <= j < |notes| ==> r[j] == notes[j].(active := true)
  {
    seq(|notes|, j requires 0 <= j < |notes| => notes[j].(active := true))
  }

  /** `afterprint`: on a narrow viewport every note is hidden again; on a wide
      one nothing changes. */
  function AfterPrint(innerWidth: int, notes: seq<Note>): (r: seq<Note>)
    ensures |r| == |notes|
    ensures IsMobile(innerWidth) ==> forall j :: 0 <= j < |notes| ==> r[j] == notes[j].(active := false)
    ensures !IsMobile(innerWidth) ==> r == notes
  {
    if IsMobile(innerWidth) then seq(|notes|, j requires 0 <= j < |notes| => notes[j].(active := false))
    else notes
  }
}
