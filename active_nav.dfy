/**
 * The navigation side of the scroll spy: the map from section id to nav
 * link built once at load, the cached active id with the links' "is-active"
 * flags, and the once-per-frame throttle guard of the scroll handler.
 *
 * Links are identified by their position in the `.nav-link` list; each
 * link is represented by its `href` attribute, a missing attribute being
 * the empty string.
 */
module ActiveNav {
  import opened Wrappers
  import ScrollSpy

  /** The section id a link points at: its href minus a leading '#', or "" for any other href. */
  function LinkKey(href: string): (key: string)
    ensures key != "" ==> href == "#" + key
    ensures key == "" <==> |href| <= 1 || href[0] != '#'
  {
    if |href| > 0 && href[0] == '#' then href[1..] else ""
  }

  /** Link `i` is the last link whose key is `key`, and `key` is not empty. */
  predicate IsLastLinkFor(hrefs: seq<string>, key: string, i: int) {
    key != "" && 0 <= i < |hrefs| && LinkKey(hrefs[i]) == key &&
    forall j :: i < j < |hrefs| ==> LinkKey(hrefs[j]) != key
  }

  /**
   * The `navById` table: links keyed by their section id, links with an
   * empty key dropped, and for a repeated key the later link wins.
   */
  function NavById(hrefs: seq<string>): (m: map<string, nat>)
    ensures "" !in m
    ensures forall key :: key in m ==> m[key] < |hrefs|
    decreases |hrefs|
  {
    if |hrefs| == 0 then map[]
    else
      var n := |hrefs| - 1;
      var earlier := NavById(hrefs[..n]);
      var key := LinkKey(hrefs[n]);
      if key == "" then earlier else earlier[key := n]
  }

  /** Every link with a non-empty key has its key in the table. */
  lemma {:induction false} NavByIdCovers(hrefs: seq<string>, i: nat)
    requires i < |hrefs| && LinkKey(hrefs[i]) != ""
    ensures LinkKey(hrefs[i]) in NavById(hrefs)
    decreases |hrefs|
  {
    var n := |hrefs| - 1;
    if i < n {
      var prefix := hrefs[..n];
      assert prefix[i] == hrefs[i];
      NavByIdCovers(prefix, i);
    }
  }

  /** Each key maps to the last link that carries it: for a repeated key the later link wins. */
  lemma {:induction false} NavByIdLastWins(hrefs: seq<string>, key: string)
    requires key in NavById(hrefs)
    ensures IsLastLinkFor(hrefs, key, NavById(hrefs)[key])
    decreases |hrefs|
  {
    var n := |hrefs| - 1;
    var prefix := hrefs[..n];
    if LinkKey(hrefs[n]) != key {
      assert NavById(hrefs)[key] == NavById(prefix)[key];
      NavByIdLastWins(prefix, key);
      var k := NavById(prefix)[key];
      assert prefix[k] == hrefs[k];
      forall j | k < j < |hrefs|
        ensures LinkKey(hrefs[j]) != key
      {
        if j < n {
          assert prefix[j] == hrefs[j];
        }
      }
    }
  }

  /** The cached active id and one "is-active" flag per nav link. */
  datatype NavState = NavState(activeId: string, flags: seq<bool>)

  /** Flags with exactly the link that `navById` maps `id` to set, if any. */
  function Highlighted(n: nat, navById: map<string, nat>, id: string): (flags: seq<bool>)
    ensures |flags| == n
    ensures forall k :: 0 <= k < n && flags[k] ==> id in navById && navById[id] == k
    ensures id in navById && navById[id] < n ==> flags[navById[id]]
  {
    seq(n, k => id in navById && navById[id] == k)
  }

  /**
   * `setActiveNav(id)`: skipped when `id` is empty or already active;
   * otherwise `id` becomes the cached id, every flag is cleared and the
   * flag of the link mapped to `id` is set.
   */
  function NextNav(s: NavState, navById: map<string, nat>, id: string): (t: NavState)
    ensures |t.flags| == |s.flags|
    ensures t.activeId == if id == "" then s.activeId else id
    ensures t.activeId == s.activeId ==> t == s
  {
    if id == "" || id == s.activeId then s
    else NavState(id, Highlighted(|s.flags|, navById, id))
  }

  /** Number of links whose flag is set. */
  function CountActive(flags: seq<bool>): (c: nat)
    ensures c <= |flags|
    decreases |flags|
  {
    if |flags| == 0 then 0
    else CountActive(flags[..|flags| - 1]) + (if flags[|flags| - 1] then 1 else 0)
  }

  /**
   * The flags agree with the cache: once an id has been made active, exactly
   * its link (if it has one) is flagged. Before that the flags are whatever
   * the page's markup said.
   */
  predicate Consistent(s: NavState, navById: map<string, nat>) {
    s.activeId == "" || s.flags == Highlighted(|s.flags|, navById, s.activeId)
  }

  /** Highlighting flags one link when `id` maps to a link in range, and none otherwise. */
  lemma {:induction false} HighlightedCount(n: nat, navById: map<string, nat>, id: string)
    ensures CountActive(Highlighted(n, navById, id))
         == if id in navById && navById[id] < n then 1 else 0
  {
    if n > 0 {
      var h := Highlighted(n, navById, id);
      assert h[..n - 1] == Highlighted(n - 1, navById, id);
      HighlightedCount(n - 1, navById, id);
    }
  }

  /** A repeated call with the same id changes nothing. */
  lemma NextNavIdempotent(s: NavState, navById: map<string, nat>, id: string)
    ensures NextNav(NextNav(s, navById, id), navById, id) == NextNav(s, navById, id)
  {
  }

  /** An empty id, or the id already cached, leaves the cache and every flag as they were. */
  lemma NextNavSkips(s: NavState, navById: map<string, nat>, id: string)
    requires id == "" || id == s.activeId
    ensures NextNav(s, navById, id) == s
  {
  }

  /**
   * After a new non-empty id the cache holds it and at most one link is
   * flagged: the one `navById` maps it to, or none if it has no link.
   */
  lemma NextNavMarksOne(s: NavState, navById: map<string, nat>, id: string)
    requires id != "" && id != s.activeId
    requires forall key :: key in navById ==> navById[key] < |s.flags|
    ensures NextNav(s, navById, id).activeId == id
    ensures CountActive(NextNav(s, navById, id).flags) == if id in navById then 1 else 0
    ensures id in navById ==> NextNav(s, navById, id).flags[navById[id]]
  {
    HighlightedCount(|s.flags|, navById, id);
  }

  /** Every update keeps the flags consistent with the cache. */
  lemma NextNavConsistent(s: NavState, navById: map<string, nat>, id: string)
    requires Consistent(s, navById)
    ensures Consistent(NextNav(s, navById, id), navById)
  {
  }

  /** Once an id is active, at most one link carries the active flag. */
  lemma AtMostOneActive(s: NavState, navById: map<string, nat>)
    requires Consistent(s, navById) && s.activeId != ""
    ensures CountActive(s.flags) <= 1
  {
    HighlightedCount(|s.flags|, navById, s.activeId);
  }

  /**
   * The nav links of the page together with the scroll spy's closure state:
   * the cached active id and the throttle flag.
   */
  class NavSpy {
    const hrefs: seq<string>
    const navById: map<string, nat>
    const isActive: array<bool>
    var activeId: string
    var spyTicking: bool

    /** The table is the one built from the links, and the flags agree with the cache. */
    ghost predicate Valid()
      reads this, isActive
    {
      isActive.Length == |hrefs| && navById == NavById(hrefs) && Consistent(State(), navById)
    }

    /** The cache and the flags as a value. */
    ghost function State(): NavState
      reads this, isActive
    {
      NavState(activeId, isActive[..])
    }

    /** Page load: links with their markup flags, nothing cached, no frame pending. */
    constructor (hrefs: seq<string>, markup: seq<bool>)
      requires |markup| == |hrefs|
      ensures Valid() && fresh(isActive)
      ensures this.hrefs == hrefs && State() == NavState("", markup) && !spyTicking
    {
      this.hrefs := hrefs;
      navById := NavById(hrefs);
      isActive := new bool[|markup|](k requires 0 <= k < |markup| => markup[k]);
      activeId := "";
      spyTicking := false;
      new;
      assert isActive[..] == markup;
    }

    /** `setActiveNav`: update the cache and the link flags for `id`. */
    method SetActiveNav(id: string)
      requires Valid()
      modifies this`activeId, isActive
      ensures Valid()
      ensures State() == NextNav(old(State()), navById, id)
    {
      if id == "" || id == activeId {
        return;
      }
      activeId := id;
      var k := 0;
      while k < isActive.Length
        invariant 0 <= k <= isActive.Length
        invariant forall j :: 0 <= j < k ==> !isActive[j]
        invariant forall j :: k <= j < isActive.Length ==> isActive[j] == old(isActive[j])
        modifies isActive
      {
        isActive[k] := false;
        k := k + 1;
      }
      if id in navById {
        isActive[navById[id]] := true;
      }
      assert isActive[..] == Highlighted(|hrefs|, navById, id);
    }

    /** `computeActiveSection`: classify the sections and highlight the winner. */
    method ComputeActiveSection(secs: seq<ScrollSpy.Section>, headerHeight: Option<nat>)
      requires Valid()
      modifies this`activeId, isActive
      ensures Valid()
      ensures State() == NextNav(old(State()), navById,
                                 ScrollSpy.ActiveSection(secs, ScrollSpy.ReadingLine(headerHeight)))
    {
      var y := ScrollSpy.ReadingLine(headerHeight);
      var chosen := ScrollSpy.ChooseActiveId(secs, y);
      SetActiveNav(chosen);
    }

    /**
     * `onSpyScroll`: a scroll or resize event schedules a classification
     * pass only when none is pending, and marks one as pending.
     */
    method OnSpyScroll() returns (scheduled: bool)
      modifies this`spyTicking
      ensures scheduled == !old(spyTicking)
      ensures spyTicking
    {
      if spyTicking {
        return false;
      }
      spyTicking := true;
      return true;
    }

    /** The scheduled pass: classify, then clear the pending flag. */
    method AnimationFrame(secs: seq<ScrollSpy.Section>, headerHeight: Option<nat>)
      requires Valid()
      modifies this`activeId, this`spyTicking, isActive
      ensures Valid() && !spyTicking
      ensures State() == NextNav(old(State()), navById,
                                 ScrollSpy.ActiveSection(secs, ScrollSpy.ReadingLine(headerHeight)))
    {
      ComputeActiveSection(secs, headerHeight);
      spyTicking := false;
    }
  }
}
