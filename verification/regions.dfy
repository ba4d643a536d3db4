/**
 * The editor's list of regions: what a new region looks like, how titles
 * are kept distinct (the list widget identifies its rows by title), and
 * the edits the "Regions" window makes to the list.
 */
module Regions {
  import opened Seqs
  import opened Viewport

  /** A region: its title, two corners in map space, and an RGB colour. */
  datatype Region = Region(title: string, a: Vec, b: Vec, color: seq<real>)

  const DEFAULT_TITLE: string := "Untitled region"
  const RAND_MAX: nat := 0x7FFF_FFFF
  const GRID_MIN: real := -32768.0
  const GRID_MAX: real := 32767.0

  /** A `rand()` result. */
  type Roll = x: int | 0 <= x <= 0x7FFF_FFFF

  /** The three `rand()` results a new region draws, in order: the hue, then one per shuffle step. */
  datatype Rolls = Rolls(hue: Roll, first: Roll, second: Roll)

  function Hue(rolls: Rolls): (h: real)
    ensures 0.0 <= h <= 1.0
  {
    rolls.hue as real / RAND_MAX as real
  }

  // ---------------------------------------------------------------------
  // A new region
  // ---------------------------------------------------------------------

  /**
   * The colour of a new region: the hue, full and none, shuffled by two
   * steps of Fisher-Yates (position 2 swaps with one of 0..2, then position
   * 1 with one of 0..1). The result is an arrangement of those three values.
   */
  function DefaultColor(rolls: Rolls): (c: seq<real>)
    ensures |c| == 3
    ensures multiset(c) == multiset{Hue(rolls), 1.0, 0.0}
  {
    var start := [Hue(rolls), 1.0, 0.0];
    var once := Swap(start, 2, rolls.first % 3);
    Swap(once, 1, rolls.second % 2)
  }

  /**
   * The shuffle reaches each of the six arrangements from exactly one pair
   * of choices: when the hue is neither 0 nor 1, different choices give
   * different colours.
   */
  lemma DefaultColorChoicesDistinct(r1: Rolls, r2: Rolls)
    requires r1.hue == r2.hue && Hue(r1) != 0.0 && Hue(r1) != 1.0
    requires r1.first % 3 != r2.first % 3 || r1.second % 2 != r2.second % 2
    ensures DefaultColor(r1) != DefaultColor(r2)
  {
    var h := Hue(r1);
    var c1, c2 := DefaultColor(r1), DefaultColor(r2);
    // Where the hue ends up, and which of the other two is first, pins the choices down.
    var f1, s1, f2, s2 := r1.first % 3, r1.second % 2, r2.first % 3, r2.second % 2;
    assert c1 == ArrangeBy(h, f1, s1) && c2 == ArrangeBy(h, f2, s2);
    ArrangementsDistinct(h, f1, s1, f2, s2);
  }

  /** The shuffle spelt out for one pair of choices. */
  function ArrangeBy(h: real, f: nat, s: nat): seq<real>
    requires f < 3 && s < 2
  {
    Swap(Swap([h, 1.0, 0.0], 2, f), 1, s)
  }

  lemma ArrangementsDistinct(h: real, f1: nat, s1: nat, f2: nat, s2: nat)
    requires f1 < 3 && s1 < 2 && f2 < 3 && s2 < 2 && h != 0.0 && h != 1.0
    requires f1 != f2 || s1 != s2
    ensures ArrangeBy(h, f1, s1) != ArrangeBy(h, f2, s2)
  {
  }

  /** `region_c()`: titled "Untitled region", 128 map units square about the origin, in a shuffled colour. */
  function DefaultRegion(rolls: Rolls): (r: Region)
    ensures r.title == DEFAULT_TITLE
    ensures r.a == Vec(-64.0, -64.0) && r.b == Vec(64.0, 64.0)
    ensures r.color == DefaultColor(rolls)
  {
    Region(DEFAULT_TITLE, Vec(-64.0, -64.0), Vec(64.0, 64.0), DefaultColor(rolls))
  }

  // ---------------------------------------------------------------------
  // Distinct titles
  // ---------------------------------------------------------------------

  function DigitChar(d: nat): char
    requires d < 10
  {
    "0123456789"[d]
  }

  /** `std::to_string` of a non-negative number: its decimal digits, no leading zeros. */
  function NatToString(n: nat): (s: string)
    ensures |s| >= 1
    ensures (|s| == 1) == (n < 10)
    decreases n
  {
    if n < 10 then [DigitChar(n)] else NatToString(n / 10) + [DigitChar(n % 10)]
  }

  /** Different numbers are written differently. */
  lemma {:induction false} NatToStringInjective(n: nat, m: nat)
    requires NatToString(n) == NatToString(m)
    ensures n == m
    decreases n
  {
    var s := NatToString(n);
    if n >= 10 && m >= 10 {
      assert s[..|s| - 1] == NatToString(n / 10) == NatToString(m / 10);
      NatToStringInjective(n / 10, m / 10);
      assert DigitChar(n % 10) == s[|s| - 1] == DigitChar(m % 10);
    }
  }

  /** The `n`-th title tried for `base`: the base itself, then "base (2)", "base (3)", and so on. */
  function Candidate(base: string, n: nat): string
  {
    if n <= 1 then base else base + " (" + NatToString(n) + ")"
  }

  /** Different attempts never produce the same title. */
  lemma CandidateInjective(base: string, n: nat, m: nat)
    requires n >= 1 && m >= 1 && Candidate(base, n) == Candidate(base, m)
    ensures n == m
  {
    if n >= 2 && m >= 2 {
      var c := Candidate(base, n);
      var p := base + " (";
      assert c == p + NatToString(n) + ")" == p + NatToString(m) + ")";
      assert c[|p|..|c| - 1] == NatToString(n);
      assert c[|p|..|c| - 1] == NatToString(m);
      NatToStringInjective(n, m);
    }
  }

  /** The titles of every region except the one at `id`. */
  function OtherTitles(regions: seq<Region>, id: int): set<string>
  {
    set i | 0 <= i < |regions| && i != id :: regions[i].title
  }

  /**
   * What disambiguating `base` against the titles `taken` should give: the
   * first of `base`, "base (2)", "base (3)", … that is not taken.
   */
  ghost predicate FirstFreeTitle(base: string, taken: set<string>, t: string)
  {
    exists n: nat :: n >= 1 && t == Candidate(base, n) && t !in taken
      && forall k: nat :: 1 <= k < n ==> Candidate(base, k) in taken
  }

  /** Only one title fits that description. */
  lemma FirstFreeTitleUnique(base: string, taken: set<string>, t1: string, t2: string)
    requires FirstFreeTitle(base, taken, t1) && FirstFreeTitle(base, taken, t2)
    ensures t1 == t2
  {
    var n1: nat :| n1 >= 1 && t1 == Candidate(base, n1) && t1 !in taken
      && forall k: nat :: 1 <= k < n1 ==> Candidate(base, k) in taken;
    var n2: nat :| n2 >= 1 && t2 == Candidate(base, n2) && t2 !in taken
      && forall k: nat :: 1 <= k < n2 ==> Candidate(base, k) in taken;
  }

  /** With no other titles about, the base title is taken as it is. */
  lemma FirstFreeAmongNone(base: string, t: string)
    requires FirstFreeTitle(base, {}, t)
    ensures t == base
  {
    assert Candidate(base, 1) == base;
    FirstFreeTitleUnique(base, {}, t, base);
  }

  /** When only the base title is taken, the next attempt, "base (2)", is the answer. */
  lemma FirstFreeAmongBase(base: string, t: string)
    requires FirstFreeTitle(base, {base}, t)
    ensures t == base + " (2)"
  {
    assert NatToString(2) == "2";
    assert Candidate(base, 1) == base;
    assert |Candidate(base, 2)| > |base|;
    assert FirstFreeTitle(base, {base}, Candidate(base, 2));
    FirstFreeTitleUnique(base, {base}, t, Candidate(base, 2));
  }

  /** Whatever the region at `id` holds is not among the other titles. */
  lemma OtherTitlesIgnoresOwn(regions: seq<Region>, id: nat, r: Region)
    requires id < |regions|
    ensures OtherTitles(regions[id := r], id) == OtherTitles(regions, id)
  {
    var updated := regions[id := r];
    forall t
      ensures t in OtherTitles(updated, id) <==> t in OtherTitles(regions, id)
    {
      if t in OtherTitles(updated, id) {
        var i :| 0 <= i < |updated| && i != id && updated[i].title == t;
        assert regions[i].title == t;
      }
      if t in OtherTitles(regions, id) {
        var i :| 0 <= i < |regions| && i != id && regions[i].title == t;
        assert updated[i].title == t;
      }
    }
  }

  /** The attempts made before the `n`-th. */
  ghost function CandidatesBelow(base: string, n: nat): set<string>
  {
    set k: nat | 1 <= k < n :: Candidate(base, k)
  }

  lemma CandidatesBelowStep(base: string, n: nat)
    requires n >= 1
    ensures CandidatesBelow(base, n + 1) == CandidatesBelow(base, n) + {Candidate(base, n)}
    ensures Candidate(base, n) !in CandidatesBelow(base, n)
  {
    if Candidate(base, n) in CandidatesBelow(base, n) {
      var k: nat :| 1 <= k < n && Candidate(base, k) == Candidate(base, n);
      CandidateInjective(base, k, n);
    }
  }

  lemma TakingOneMore(taken: set<string>, below: set<string>, c: string)
    requires c in taken && c !in below
    ensures |taken - (below + {c})| < |taken - below|
  {
    assert taken - (below + {c}) == (taken - below) - {c};
  }

  /** The inner loop of `ValidateRegionTitle`: does a region other than the one at `id` hold `title`? */
  method TitleTaken(regions: seq<Region>, id: int, title: string) returns (taken: bool)
    ensures taken <==> title in OtherTitles(regions, id)
  {
    var i := 0;
    while i < |regions|
      invariant 0 <= i <= |regions|
      invariant forall k :: 0 <= k < i && k != id ==> regions[k].title != title
    {
      if i != id && title == regions[i].title {
        return true;
      }
      i := i + 1;
    }
    return false;
  }

  /** Once every earlier attempt is taken and the `n`-th is free, the `n`-th is the first free title. */
  lemma FirstFreeFound(base: string, taken: set<string>, n: nat)
    requires n >= 1 && CandidatesBelow(base, n) <= taken && Candidate(base, n) !in taken
    ensures FirstFreeTitle(base, taken, Candidate(base, n))
    ensures base !in taken ==> Candidate(base, n) == base
  {
    forall k: nat | 1 <= k < n
      ensures Candidate(base, k) in taken
    {
      assert Candidate(base, k) in CandidatesBelow(base, n);
    }
    if n > 1 {
      assert Candidate(base, 1) in CandidatesBelow(base, n);
    }
  }

  /**
   * `ValidateRegionTitle`: tries `base`, then "base (2)", "base (3)", … and
   * settles on the first title no region other than the one at `id` holds.
   */
  method ValidateTitle(regions: seq<Region>, id: int, base: string) returns (title: string)
    ensures title !in OtherTitles(regions, id)
    ensures base !in OtherTitles(regions, id) ==> title == base
    ensures FirstFreeTitle(base, OtherTitles(regions, id), title)
  {
    ghost var taken := OtherTitles(regions, id);
    title := base;
    var appendNum: nat := 1;
    var valid := false;
    while !valid
      invariant appendNum >= 1 && title == Candidate(base, appendNum)
      invariant CandidatesBelow(base, appendNum) <= taken
      invariant valid ==> title !in taken
      decreases |taken - CandidatesBelow(base, appendNum)|, if valid then 0 else 1
    {
      var clash := TitleTaken(regions, id, title);
      valid := !clash;
      if clash {
        CandidatesBelowStep(base, appendNum);
        TakingOneMore(taken, CandidatesBelow(base, appendNum), title);
        appendNum := appendNum + 1;
        title := Candidate(base, appendNum);
      }
    }
    FirstFreeFound(base, taken, appendNum);
  }

  /** No two regions share a title. */
  predicate DistinctTitles(regions: seq<Region>)
  {
    forall i, j :: 0 <= i < j < |regions| ==> regions[i].title != regions[j].title
  }

  /** No two regions share a title, leaving the one at `id` out of account. */
  predicate DistinctExcept(regions: seq<Region>, id: int)
  {
    forall i, j :: 0 <= i < j < |regions| && i != id && j != id ==> regions[i].title != regions[j].title
  }

  /** Giving the region at `id` a title no other region holds makes every title distinct. */
  lemma ValidatedStaysDistinct(regions: seq<Region>, id: nat, title: string)
    requires id < |regions| && DistinctExcept(regions, id)
    requires title !in OtherTitles(regions, id)
    ensures DistinctTitles(regions[id := regions[id].(title := title)])
  {
    var r := regions[id := regions[id].(title := title)];
    forall i, j | 0 <= i < j < |r|
      ensures r[i].title != r[j].title
    {
      if i == id {
        assert regions[j].title in OtherTitles(regions, id);
      } else if j == id {
        assert regions[i].title in OtherTitles(regions, id);
      }
    }
  }

  /** `NewRegion`: appends a default region, with its title made distinct from every other region's. */
  method NewRegion(regions: seq<Region>, rolls: Rolls) returns (result: seq<Region>)
    ensures |result| == |regions| + 1 && result[..|regions|] == regions
    ensures result[|regions|] == DefaultRegion(rolls).(title := result[|regions|].title)
    ensures FirstFreeTitle(DEFAULT_TITLE, OtherTitles(result, |regions|), result[|regions|].title)
    ensures DistinctTitles(regions) ==> DistinctTitles(result)
  {
    var id := |regions|;
    var appended := regions + [DefaultRegion(rolls)];
    var title := ValidateTitle(appended, id, appended[id].title);
    result := appended[id := appended[id].(title := title)];
    assert result[..id] == regions;
    assert OtherTitles(result, id) == OtherTitles(appended, id);
    if DistinctTitles(regions) {
      ValidatedStaysDistinct(appended, id, title);
    }
  }

  lemma OtherTitlesOfOne(regions: seq<Region>)
    requires |regions| == 1
    ensures OtherTitles(regions, 0) == {}
  {
  }

  lemma OtherTitlesOfTwo(regions: seq<Region>)
    requires |regions| == 2
    ensures OtherTitles(regions, 1) == {regions[0].title}
  {
    assert regions[0].title in OtherTitles(regions, 1);
  }

  lemma TitleTwo(t: string)
    requires t == DEFAULT_TITLE + " (2)"
    ensures t == "Untitled region (2)"
  {
  }

  /** Starting from no regions, the second "New Region" is titled "Untitled region (2)". */
  method TwoNewRegions(rolls1: Rolls, rolls2: Rolls) returns (regions: seq<Region>)
    ensures |regions| == 2
    ensures regions[0].title == "Untitled region" && regions[1].title == "Untitled region (2)"
  {
    regions := NewRegion([], rolls1);
    OtherTitlesOfOne(regions);
    FirstFreeAmongNone(DEFAULT_TITLE, regions[0].title);
    var first := regions[0].title;
    regions := NewRegion(regions, rolls2);
    OtherTitlesOfTwo(regions);
    FirstFreeAmongBase(first, regions[1].title);
    TitleTwo(regions[1].title);
  }

  // ---------------------------------------------------------------------
  // Edits from the "Regions" window
  // ---------------------------------------------------------------------

  /**
   * Renaming the selected region: an empty entry or no valid selection
   * changes nothing; otherwise the selected region takes the entered title,
   * disambiguated against the others, and no other region changes.
   */
  method Rename(regions: seq<Region>, selected: int, input: string) returns (result: seq<Region>)
    ensures !(0 <= selected < |regions|) || |input| == 0 ==> result == regions
    ensures 0 <= selected < |regions| && |input| > 0 ==>
      |result| == |regions|
      && (forall i :: 0 <= i < |regions| && i != selected ==> result[i] == regions[i])
      && result[selected] == regions[selected].(title := result[selected].title)
      && FirstFreeTitle(input, OtherTitles(regions, selected), result[selected].title)
    ensures DistinctTitles(regions) ==> DistinctTitles(result)
  {
    if 0 <= selected < |regions| && |input| > 0 {
      var renamed := regions[selected := regions[selected].(title := input)];
      OtherTitlesIgnoresOwn(regions, selected, renamed[selected]);
      var title := ValidateTitle(renamed, selected, renamed[selected].title);
      result := renamed[selected := renamed[selected].(title := title)];
      assert result == regions[selected := regions[selected].(title := title)];
      if DistinctTitles(regions) {
        ValidatedStaysDistinct(regions, selected, title);
      }
    } else {
      result := regions;
    }
  }

  /**
   * Dragging the active row of the region list: the row moves one place up
   * (the drag points up) or down, swapping with its neighbour, and the
   * selection follows it; at either end of the list nothing changes.
   */
  function Reorder(regions: seq<Region>, selected: int, active: nat, dragY: real): (r: (seq<Region>, int))
    requires active < |regions|
    ensures |r.0| == |regions| && multiset(r.0) == multiset(regions)
    ensures var next := if dragY < 0.0 then active - 1 else active + 1;
      if 0 <= next < |regions| then
        r.1 == next && r.0[next] == regions[active] && r.0[active] == regions[next]
        && forall k :: 0 <= k < |regions| && k != active && k != next ==> r.0[k] == regions[k]
      else
        r == (regions, selected)
  {
    var next := active + (if dragY < 0.0 then -1 else 1);
    if 0 <= next < |regions| then (Swap(regions, active, next), next) else (regions, selected)
  }

  /** Moving rows around keeps the titles distinct. */
  lemma ReorderKeepsTitlesDistinct(regions: seq<Region>, selected: int, active: nat, dragY: real)
    requires active < |regions| && DistinctTitles(regions)
    ensures DistinctTitles(Reorder(regions, selected, active, dragY).0)
  {
    var r := Reorder(regions, selected, active, dragY).0;
    var next := if dragY < 0.0 then active - 1 else active + 1;
    forall i, j | 0 <= i < j < |r|
      ensures r[i].title != r[j].title
    {
      var from := (k: int) requires 0 <= k < |r| =>
        if 0 <= next < |regions| && k == active then next
        else if 0 <= next < |regions| && k == next then active
        else k;
      assert r[i] == regions[from(i)] && r[j] == regions[from(j)];
      assert from(i) != from(j);
    }
  }

  /** Editing the bounding box: every coordinate is clamped to the grid, [-32768, 32767]. */
  function ClampBox(region: Region): (r: Region)
    ensures r.title == region.title && r.color == region.color
    ensures GRID_MIN <= r.a.x <= GRID_MAX && GRID_MIN <= r.a.y <= GRID_MAX
    ensures GRID_MIN <= r.b.x <= GRID_MAX && GRID_MIN <= r.b.y <= GRID_MAX
    ensures r.a == Vec(Clamp(region.a.x, GRID_MIN, GRID_MAX), Clamp(region.a.y, GRID_MIN, GRID_MAX))
    ensures r.b == Vec(Clamp(region.b.x, GRID_MIN, GRID_MAX), Clamp(region.b.y, GRID_MIN, GRID_MAX))
  {
    region.(a := Vec(Clamp(region.a.x, GRID_MIN, GRID_MAX), Clamp(region.a.y, GRID_MIN, GRID_MAX)),
            b := Vec(Clamp(region.b.x, GRID_MIN, GRID_MAX), Clamp(region.b.y, GRID_MIN, GRID_MAX)))
  }

  predicate OnGrid(region: Region)
  {
    GRID_MIN <= region.a.x <= GRID_MAX && GRID_MIN <= region.a.y <= GRID_MAX
    && GRID_MIN <= region.b.x <= GRID_MAX && GRID_MIN <= region.b.y <= GRID_MAX
  }

  /** A box already on the grid is left exactly as it is, so clamping twice is clamping once. */
  lemma ClampBoxFixesGrid(region: Region)
    ensures OnGrid(region) <==> ClampBox(region) == region
    ensures ClampBox(ClampBox(region)) == ClampBox(region)
  {
  }
}
