/** Properties of sidenote numbering and of the `active` flags that relate
    several operations. */
module SidenotesProps {
  import opened Wrappers
  import opened Sidenotes

  /** A viewport exactly at the breakpoint is already wide, one pixel less is
      narrow, and narrowing a narrow viewport keeps it narrow. */
  lemma MobileBoundary(v: int, w: int)
    requires v <= w
    ensures IsMobile(1399) && !IsMobile(1400)
    ensures IsMobile(w) ==> IsMobile(v)
    ensures !IsMobile(v) ==> !IsMobile(w)
  {
  }

  /** The numbers of a list of notes. */
  function Numbers(notes: seq<Sidenote>): (r: seq<nat>)
    ensures |r| == |notes|
    ensures forall i :: 0 <= i < |notes| ==> r[i] == notes[i].number
  {
    if notes == [] then [] else [notes[0].number] + Numbers(notes[1..])
  }

  /** The numbers 1..k, in order. */
  function OneTo(k: nat): (r: seq<nat>)
    ensures |r| == k
    ensures forall i :: 0 <= i < k ==> r[i] == i + 1
  {
    if k == 0 then [] else OneTo(k - 1) + [k]
  }

  /** Processing an article with no notes yet numbers its k markers 1..k in
      marker order, each note carrying its marker's payload. */
  lemma ProcessNumbersOneToK(markers: seq<Marker>)
    ensures Numbers(Process(Some(Article(markers, []))).value.notes) == OneTo(|markers|)
    ensures forall i :: 0 <= i < |markers| ==>
      Process(Some(Article(markers, []))).value.notes[i].content == Payload(markers[i])
  {
    var created := NumberFrom(markers, 0);
    assert Process(Some(Article(markers, []))).value.notes == created by {
      assert [] + created == created;
    }
    var numbers := Numbers(created);
    var expected := OneTo(|markers|);
    assert forall i :: 0 <= i < |numbers| ==> numbers[i] == expected[i];
  }

  /** No number occurs twice among the notes of a first processing. */
  lemma ProcessNumbersDistinct(markers: seq<Marker>)
    ensures var r := Process(Some(Article(markers, []))).value.notes;
      forall i, j :: 0 <= i < j < |r| ==> r[i].number != r[j].number
  {
    var r := Process(Some(Article(markers, []))).value.notes;
    assert forall i :: 0 <= i < |markers| ==> r[0 + i] == Sidenote(i + 1, Payload(markers[i]));
  }

  /** Once processed, processing again changes nothing. */
  lemma ProcessIdempotent(article: Option<Article>)
    ensures Process(Process(article)) == Process(article)
  {
    if article.Some? {
      var a := Process(article).value;
      assert a.notes + NumberFrom([], 0) == a.notes;
    }
  }

  /** `addSidenote` on a processed article numbers the new note 1 again, so
      the page then shows two notes numbered 1. */
  lemma AddRestartsNumbering(a: Article, content: string)
    requires a.markers == []
    ensures AddSidenote(a, 0, content).notes == a.notes + [Sidenote(1, content)]
    ensures |a.notes| > 0 && a.notes[0].number == 1 ==>
      var r := AddSidenote(a, 0, content).notes; r[0].number == r[|r| - 1].number
  {
    var r := AddSidenote(a, 0, content);
    assert r.notes[..|a.notes|] == a.notes;
    assert r.notes[|a.notes|] == Sidenote(1, content);
    assert r.notes == r.notes[..|a.notes|] + [r.notes[|a.notes|]];
  }

  /** At most one note carries the `active` flag. */
  predicate AtMostOneActive(notes: seq<Note>) {
    forall j, k :: 0 <= j < |notes| && 0 <= k < |notes| && notes[j].active && notes[k].active ==> j == k
  }

  /** After any mobile toggle at most one note is open; toggling an open note
      closes them all, and toggling a closed one leaves exactly it open. */
  lemma ToggleLeavesAtMostOneOpen(notes: seq<Note>, i: nat, viewportTop: int, innerHeight: int)
    requires i < |notes|
    ensures AtMostOneActive(ToggleMobile(notes, i, viewportTop, innerHeight).notes)
    ensures notes[i].active ==> forall j :: 0 <= j < |notes| ==> !ToggleMobile(notes, i, viewportTop, innerHeight).notes[j].active
    ensures !notes[i].active ==> ToggleMobile(notes, i, viewportTop, innerHeight).notes[i].active
  {
  }

  /** Opening a second reference while a first note is open closes the first. */
  lemma SecondOpenClosesFirst(notes: seq<Note>, first: nat, second: nat, viewportTop: int, innerHeight: int)
    requires first < |notes| && second < |notes| && first != second
    requires notes[first].active && !notes[second].active
    ensures var r := ToggleMobile(notes, second, viewportTop, innerHeight).notes;
      !r[first].active && r[second].active
  {
  }

  /** A print on a narrow viewport ends with every note hidden, whatever was
      open before; on a wide one every note stays shown. */
  lemma PrintRoundTrip(innerWidth: int, notes: seq<Note>)
    ensures var r := AfterPrint(innerWidth, BeforePrint(notes));
      |r| == |notes|
      && (IsMobile(innerWidth) ==> forall j :: 0 <= j < |notes| ==> r[j] == notes[j].(active := false))
      && (!IsMobile(innerWidth) ==> forall j :: 0 <= j < |notes| ==> r[j] == notes[j].(active := true))
  {
  }
}
