/**
 * The scroll-spy classifier: given the live extents of the page's sections
 * in document order and the height of the sticky header, decide which
 * section id is "active".
 *
 * The reading line sits a fixed 18 pixels under the header. A section
 * straddles it when its top is at or above the line and its bottom is below
 * it. The first straddling section wins; failing that, the last section
 * whose top is at or above the line; failing that, the first section; and
 * with no sections at all, the empty id.
 */
module ScrollSpy {
  import opened Wrappers

  /** A `main section[id]` element with its bounding box relative to the viewport. */
  datatype Section = Section(id: string, top: real, bottom: real)

  /** Header height assumed when the page has no `.site-header`. */
  const DefaultHeaderHeight: nat := 80

  /** Distance of the reading line below the bottom of the header. */
  const ReadingLineOffset: nat := 18

  /** The reading line for a header of the given height, or for no header at all. */
  function ReadingLine(headerHeight: Option<nat>): (y: real)
    ensures headerHeight.None? ==> y == 98.0
    ensures headerHeight.Some? ==> y == headerHeight.value as real + 18.0
  {
    (headerHeight.GetOr(DefaultHeaderHeight) + ReadingLineOffset) as real
  }

  /** The section's extent contains the reading line. */
  predicate Straddles(s: Section, y: real) {
    s.top <= y && s.bottom > y
  }

  /** The section starts at or above the reading line: it has been scrolled to or past. */
  predicate Reached(s: Section, y: real) {
    s.top <= y
  }

  /** Section `i` straddles the line and no section before it does. */
  predicate IsFirstStraddling(secs: seq<Section>, y: real, i: int) {
    0 <= i < |secs| && Straddles(secs[i], y) &&
    forall j :: 0 <= j < i ==> !Straddles(secs[j], y)
  }

  /** Section `i` has been scrolled to and no section after it has. */
  predicate IsLastReached(secs: seq<Section>, y: real, i: int) {
    0 <= i < |secs| && Reached(secs[i], y) &&
    forall j :: i < j < |secs| ==> !Reached(secs[j], y)
  }

  /** Index of the first section that straddles the line, if any. */
  function FirstStraddling(secs: seq<Section>, y: real): (r: Option<nat>)
    ensures r.Some? ==> IsFirstStraddling(secs, y, r.value)
    ensures r.None? ==> forall j :: 0 <= j < |secs| ==> !Straddles(secs[j], y)
    decreases |secs|
  {
    if |secs| == 0 then None
    else if Straddles(secs[0], y) then Some(0)
    else
      match FirstStraddling(secs[1..], y)
      case None => None
      case Some(i) => Some(i + 1)
  }

  /** Index of the last section whose top is at or above the line, if any. */
  function LastReached(secs: seq<Section>, y: real): (r: Option<nat>)
    ensures r.Some? ==> IsLastReached(secs, y, r.value)
    ensures r.None? ==> forall j :: 0 <= j < |secs| ==> !Reached(secs[j], y)
    decreases |secs|
  {
    if |secs| == 0 then None
    else if Reached(secs[|secs| - 1], y) then Some(|secs| - 1)
    else LastReached(secs[..|secs| - 1], y)
  }

  /** The id chosen before any section is examined: the first section's, or "". */
  function InitialId(secs: seq<Section>): string {
    if |secs| == 0 then "" else secs[0].id
  }

  /**
   * The candidate held after examining the first `n` sections without
   * meeting a straddling one: the last of them scrolled to, else the initial id.
   */
  function Candidate(secs: seq<Section>, n: nat, y: real): string
    requires n <= |secs|
  {
    match LastReached(secs[..n], y)
    case Some(i) => secs[i].id
    case None => InitialId(secs)
  }

  /** Specification of the classifier: the id of the active section. */
  function ActiveSection(secs: seq<Section>, y: real): (r: string)
    ensures |secs| == 0 ==> r == ""
    ensures |secs| > 0 ==> exists i :: 0 <= i < |secs| && secs[i].id == r
  {
    match FirstStraddling(secs, y)
    case Some(i) => secs[i].id
    case None => Candidate(secs, |secs|, y)
  }

  /**
   * The classifier as the page runs it: one pass in document order that
   * keeps a candidate and stops at the first straddling section.
   */
  method ChooseActiveId(secs: seq<Section>, y: real) returns (chosen: string)
    ensures chosen == ActiveSection(secs, y)
  {
    chosen := InitialId(secs);
    var i := 0;
    while i < |secs|
      invariant 0 <= i <= |secs|
      invariant forall j :: 0 <= j < i ==> !Straddles(secs[j], y)
      invariant chosen == Candidate(secs, i, y)
    {
      var s := secs[i];
      if s.top <= y && s.bottom > y {
        chosen := s.id;
        break;
      }
      CandidateExtend(secs, i, y);
      if s.top <= y {
        chosen := s.id;
      }
      i := i + 1;
    }
  }

  /** How the fallback candidate moves when one more section is examined. */
  lemma CandidateExtend(secs: seq<Section>, i: nat, y: real)
    requires i < |secs|
    ensures Candidate(secs, i + 1, y)
         == if Reached(secs[i], y) then secs[i].id else Candidate(secs, i, y)
  {
  }

  /**
   * A straddling section is chosen whenever every section before it misses
   * the reading line, whatever the sections after it look like.
   */
  lemma StraddlingWins(secs: seq<Section>, y: real, i: nat)
    requires IsFirstStraddling(secs, y, i)
    ensures ActiveSection(secs, y) == secs[i].id
  {
  }

  /**
   * Once a prefix of the page holds a straddling section, appending more
   * sections below never changes the choice.
   */
  lemma LaterSectionsIrrelevant(prefix: seq<Section>, rest: seq<Section>, y: real)
    requires exists i :: 0 <= i < |prefix| && Straddles(prefix[i], y)
    ensures ActiveSection(prefix + rest, y) == ActiveSection(prefix, y)
  {
    var i :| 0 <= i < |prefix| && Straddles(prefix[i], y);
    var k := FirstStraddling(prefix, y).value;
    var all := prefix + rest;
    assert all[k] == prefix[k];
    forall j | 0 <= j < k
      ensures !Straddles(all[j], y)
    {
      assert all[j] == prefix[j];
    }
    StraddlingWins(all, y, k);
  }

  /**
   * With no straddling section the choice is the last section scrolled to,
   * else the first section, else "" for an empty page.
   */
  lemma NoStraddlingFallsBack(secs: seq<Section>, y: real)
    requires forall j :: 0 <= j < |secs| ==> !Straddles(secs[j], y)
    ensures |secs| == 0 ==> ActiveSection(secs, y) == ""
    ensures |secs| > 0 && (forall j :: 0 <= j < |secs| ==> !Reached(secs[j], y)) ==>
              ActiveSection(secs, y) == secs[0].id
    ensures forall i :: IsLastReached(secs, y, i) ==> ActiveSection(secs, y) == secs[i].id
  {
  }

  /**
   * Three stacked sections with the reading line inside the middle one:
   * the middle one is chosen.
   */
  lemma MiddleSectionScenario(a: Section, b: Section, c: Section, y: real)
    requires a.top <= a.bottom <= b.top <= b.bottom <= c.top <= c.bottom
    requires b.top <= y < b.bottom
    ensures ActiveSection([a, b, c], y) == b.id
  {
    StraddlingWins([a, b, c], y, 1);
  }

  /**
   * Scrolled past every section (all of them above the reading line): the
   * last section stays chosen.
   */
  lemma ScrolledPastAllScenario(secs: seq<Section>, y: real)
    requires |secs| > 0
    requires forall j :: 0 <= j < |secs| ==> secs[j].bottom <= y
    requires forall j :: 0 <= j < |secs| ==> secs[j].top <= secs[j].bottom
    ensures ActiveSection(secs, y) == secs[|secs| - 1].id
  {
  }
}
