/**
 * The rotation-to-selection mapping of the menu controller marker: a marker's
 * orientation, in degrees, is cut into as many equal sectors as there are menu
 * options, and the sector it points into is the selected option.
 */
module Selection {

  /** An orientation in degrees; the tracker reports angles in [0, 2*pi), so never negative. */
  type Degrees = d: real | 0.0 <= d

  /** The options around the menu, in the order of their sectors. */
  const MenuOptions: seq<string> := ["Login", "Info", "Fight", "Results"]

  /** The width of one sector: `360 / menuOptions.Count`, a C# integer division. */
  function SectorWidth(count: nat): (w: nat)
    requires 0 < count <= 360
    ensures 0 < w <= 360 && count * w <= 360
  {
    360 / count
  }

  /**
   * `(int)(deg / (360 / count)) % count`. The cast truncates toward zero, which
   * is the floor for a non-negative quotient, and `%` of a non-negative int is
   * the same in C# and in Dafny.
   */
  function SelectionIndex(deg: Degrees, count: nat): (r: nat)
    requires 0 < count <= 360
    ensures r < count
  {
    (deg / SectorWidth(count) as real).Floor % count
  }

  /** The index the four-option menu selects for `deg`: sectors of 90 degrees. */
  function MenuIndex(deg: Degrees): (r: nat)
    ensures r < |MenuOptions|
  {
    (deg / 90.0).Floor % 4
  }

  /**
   * The menu has four options, so each sector is `360 / 4 == 90` degrees wide,
   * and the general formula at that count is `MenuIndex`.
   */
  lemma MenuSectorWidth(deg: Degrees)
    ensures |MenuOptions| == 4 && SectorWidth(|MenuOptions|) == 90
    ensures SelectionIndex(deg, |MenuOptions|) == MenuIndex(deg)
  {
    assert |MenuOptions| == 4;
    var w := SectorWidth(4);
    assert w == 90;
    assert w as real == 90.0;
    assert deg / w as real == deg / 90.0;
  }

  /**
   * Within the first full turn the selected option is the sector the angle lies
   * in: `r * 90 <= deg < (r + 1) * 90`; a further full turn selects the same.
   */
  lemma MenuIndexInSector(deg: Degrees)
    ensures deg < 360.0 ==> (MenuIndex(deg) as real) * 90.0 <= deg < (MenuIndex(deg) as real + 1.0) * 90.0
    ensures MenuIndex(deg + 360.0) == MenuIndex(deg)
  {
    var k := (deg / 90.0).Floor;
    assert k as real <= deg / 90.0 < k as real + 1.0;
    var k2 := ((deg + 360.0) / 90.0).Floor;
    assert (deg + 360.0) / 90.0 == deg / 90.0 + 4.0;
    assert k2 == k + 4;
  }

  /** Only the sector `r` with `r * 90 <= deg < (r + 1) * 90` is selected there. */
  lemma MenuIndexUnique(deg: Degrees, r: int)
    requires 0 <= r < 4
    requires (r as real) * 90.0 <= deg < (r as real + 1.0) * 90.0
    ensures MenuIndex(deg) == r
  {
    var k := (deg / 90.0).Floor;
    assert r as real <= deg / 90.0 < r as real + 1.0;
    assert k == r;
  }

  /**
   * The examples of the four-option menu: 0 gives 0, 90 gives 1 (a boundary
   * belongs to the sector starting there), 91 gives 1, 359 gives 3, 360 gives 0.
   */
  lemma FourOptionExamples()
    ensures MenuIndex(0.0) == 0
    ensures MenuIndex(90.0) == 1
    ensures MenuIndex(91.0) == 1
    ensures MenuIndex(359.0) == 3
    ensures MenuIndex(360.0) == 0
  {
    MenuIndexUnique(0.0, 0);
    MenuIndexUnique(90.0, 1);
    MenuIndexUnique(91.0, 1);
    MenuIndexUnique(359.0, 3);
    MenuIndexInSector(0.0);
  }

  /** Turning the marker forward within the first full turn never moves the selection back. */
  lemma MenuIndexMonotone(d1: Degrees, d2: Degrees)
    requires d1 <= d2 < 360.0
    ensures MenuIndex(d1) <= MenuIndex(d2)
  {
    MenuIndexInSector(d1);
    MenuIndexInSector(d2);
  }

  /**
   * How often the debounced selection changes when a menu marker reports the
   * orientations `degs` in turn, starting from selection `sel`.
   */
  function SelectionChanges(sel: int, degs: seq<Degrees>): (n: nat)
    ensures n <= |degs|
    decreases degs
  {
    if degs == [] then 0
    else
      var next := MenuIndex(degs[0]);
      (if next != sel then 1 else 0) + SelectionChanges(next, degs[1..])
  }

  /** The indices that the orientations `degs` select. */
  function SelectedIndices(degs: seq<Degrees>): (s: set<nat>)
    ensures forall i :: i in s ==> i < |MenuOptions|
  {
    set d | d in degs :: MenuIndex(d)
  }

  /** The orientations select non-decreasing indices. */
  ghost predicate IndicesAscend(degs: seq<Degrees>) {
    forall i, j :: 0 <= i < j < |degs| ==> MenuIndex(degs[i]) <= MenuIndex(degs[j])
  }

  /** A forward sweep within the first full turn. */
  ghost predicate ForwardSweep(degs: seq<Degrees>) {
    (forall i, j :: 0 <= i < j < |degs| ==> degs[i] <= degs[j]) &&
    forall i :: 0 <= i < |degs| ==> degs[i] < 360.0
  }

  lemma ForwardSweepAscends(degs: seq<Degrees>)
    requires ForwardSweep(degs)
    ensures IndicesAscend(degs)
  {
    forall i, j | 0 <= i < j < |degs|
      ensures MenuIndex(degs[i]) <= MenuIndex(degs[j])
    {
      MenuIndexMonotone(degs[i], degs[j]);
    }
  }

  /** Adding a least element `next` to `s`, counted apart from `sel <= next`. */
  lemma CountNewIndex(s: set<nat>, next: nat, sel: nat)
    requires sel <= next && forall x :: x in s ==> next <= x
    ensures |({next} + s) - {sel}| == (if next != sel then 1 else 0) + |s - {next}|
  {
    if next == sel {
      assert ({next} + s) - {sel} == s - {next};
    } else {
      assert sel !in {next} + s;
      assert ({next} + s) - {sel} == {next} + (s - {next});
    }
  }

  /** The first orientation's index joined to those of the rest. */
  lemma SelectedIndicesCons(degs: seq<Degrees>)
    requires degs != []
    ensures SelectedIndices(degs) == {MenuIndex(degs[0])} + SelectedIndices(degs[1..])
  {
    assert degs == [degs[0]] + degs[1..];
    forall x | x in SelectedIndices(degs)
      ensures x in {MenuIndex(degs[0])} + SelectedIndices(degs[1..])
    {
      var d :| d in degs && x == MenuIndex(d);
      if d != degs[0] {
        assert d in degs[1..];
      }
    }
  }

  /** In ascending indices the rest ascends and selects nothing below the first index. */
  lemma AscendingRest(degs: seq<Degrees>)
    requires degs != [] && IndicesAscend(degs)
    ensures IndicesAscend(degs[1..])
    ensures forall x :: x in SelectedIndices(degs[1..]) ==> MenuIndex(degs[0]) <= x
  {
    var rest := degs[1..];
    forall i, j | 0 <= i < j < |rest|
      ensures MenuIndex(rest[i]) <= MenuIndex(rest[j])
    {
      assert rest[i] == degs[i + 1] && rest[j] == degs[j + 1];
    }
    forall x | x in SelectedIndices(rest)
      ensures MenuIndex(degs[0]) <= x
    {
      var d :| d in rest && x == MenuIndex(d);
      var j :| 0 <= j < |rest| && rest[j] == d;
      assert degs[j + 1] == d;
    }
  }

  /** Started at or below the first index, ascending indices change once per new index. */
  lemma {:induction false} AscendingChanges(sel: nat, degs: seq<Degrees>)
    requires IndicesAscend(degs)
    requires degs != [] ==> sel <= MenuIndex(degs[0])
    ensures SelectionChanges(sel, degs) == |SelectedIndices(degs) - {sel}|
    decreases degs
  {
    if degs != [] {
      var next := MenuIndex(degs[0]);
      var rest := degs[1..];
      AscendingRest(degs);
      if rest != [] {
        assert IndicesAscend(degs) && 0 < 1 < |degs|;
        assert degs[1] == rest[0];
      }
      AscendingChanges(next, rest);
      SelectedIndicesCons(degs);
      CountNewIndex(SelectedIndices(rest), next, sel);
    }
  }

  /**
   * In a forward sweep within one turn the selection changes exactly once for
   * every newly reached sector, and never on a repeated one.
   */
  lemma SweepChangesOncePerSector(sel: nat, degs: seq<Degrees>)
    requires ForwardSweep(degs)
    requires degs != [] ==> sel <= MenuIndex(degs[0])
    ensures SelectionChanges(sel, degs) == |SelectedIndices(degs) - {sel}|
  {
    ForwardSweepAscends(degs);
    AscendingChanges(sel, degs);
  }

  /** The selection after the updates `degs`, started from `sel`. */
  function FinalSelection(sel: int, degs: seq<Degrees>): int {
    if degs == [] then sel else MenuIndex(degs[|degs| - 1])
  }

  /** One more update adds one change exactly when it moves the selection reached so far. */
  lemma {:induction false} SelectionChangesSnoc(sel: int, degs: seq<Degrees>, d: Degrees)
    ensures SelectionChanges(sel, degs + [d]) ==
            SelectionChanges(sel, degs) + if MenuIndex(d) != FinalSelection(sel, degs) then 1 else 0
    decreases degs
  {
    if degs == [] {
      assert degs + [d] == [d];
      assert [d][1..] == [];
    } else {
      assert (degs + [d])[0] == degs[0];
      assert (degs + [d])[1..] == degs[1..] + [d];
      SelectionChangesSnoc(MenuIndex(degs[0]), degs[1..], d);
    }
  }
}
