/**
 * The scoring screen (`puntuacion_ui.py`): ten spin boxes give the points
 * for places 1 to 10, the places given more than zero points form the
 * scoring system handed to the club points query, and the club points and
 * club medal tables are shown with their 1-based position as "Lugar".
 */
module Scoring {
  import opened Wrappers
  import opened Sorting
  import opened Standings
  import opened Store
  import opened Reports

  /** The places that have a spin box: 1 to `Places`. */
  const Places: nat := 10

  /** A spin box ranges over 0 to `MaxPoints`. */
  const MaxPoints: int := 100

  /** `puntajes_defecto`: the points a place starts with (places 9 and 10 are missing). */
  const DefaultTable: map<int, int> := map[1 := 10, 2 := 8, 3 := 6, 4 := 5, 5 := 4, 6 := 3, 7 := 2, 8 := 1]

  /** `QSpinBox.setValue`: a value outside the box's range is moved to the nearest bound. */
  function Clamp(v: int): (r: int)
    ensures 0 <= r <= MaxPoints
    ensures 0 <= v <= MaxPoints ==> r == v
    ensures v < 0 ==> r == 0
    ensures v > MaxPoints ==> r == MaxPoints
  {
    if v < 0 then 0 else if v > MaxPoints then MaxPoints else v
  }

  /** The values of the ten spin boxes; `values[p - 1]` belongs to place `p`. */
  predicate Spinners(values: seq<int>) {
    |values| == Places && forall k :: 0 <= k < |values| ==> 0 <= values[k] <= MaxPoints
  }

  /**
   * The loop that builds the spin boxes: place `i` starts at
   * `puntajes_defecto.get(i, 0)`, set through the box's range.
   */
  method InitialSpinners() returns (values: seq<int>)
    ensures Spinners(values)
    ensures forall k :: 0 <= k < |values| ==> values[k] == Points(DefaultTable, k + 1)
  {
    values := [];
    for i := 1 to Places + 1
      invariant |values| == i - 1
      invariant forall k :: 0 <= k < |values| ==> values[k] == Points(DefaultTable, k + 1)
      invariant forall k :: 0 <= k < |values| ==> 0 <= values[k] <= MaxPoints
    {
      var start := Clamp(Points(DefaultTable, i));
      assert start == Points(DefaultTable, i);
      values := values + [start];
    }
  }

  /**
   * `sistema_puntuacion`: the places whose spin box shows more than zero,
   * each with its value.
   */
  function System(values: seq<int>): (system: map<int, int>)
    requires |values| == Places
    ensures forall p :: p in system ==> 1 <= p <= Places && values[p - 1] > 0 && system[p] == values[p - 1]
  {
    map p | 1 <= p <= Places && ValueOf(values, p) > 0 :: ValueOf(values, p)
  }

  /** The value of place `p`'s spin box. */
  function ValueOf(values: seq<int>, p: int): int
    requires |values| == Places && 1 <= p <= Places
  {
    values[p - 1]
  }

  /**
   * Leaving the zero places out changes nobody's points: under the system,
   * a place earns exactly what its spin box shows, and a place without a
   * box earns nothing.
   */
  lemma {:induction false} SystemScoresAsShown(values: seq<int>, place: int)
    requires Spinners(values)
    ensures Points(System(values), place) == if 1 <= place <= Places then values[place - 1] else 0
  {
    if 1 <= place <= Places && values[place - 1] > 0 {
      assert place in System(values);
    }
  }

  /** The system is empty, and the warning is shown, exactly when every spin box shows zero. */
  lemma {:induction false} EmptySystemIffAllZero(values: seq<int>)
    requires Spinners(values)
    ensures System(values) == map[] <==> forall k :: 0 <= k < Places ==> values[k] == 0
  {
    if exists k :: 0 <= k < Places && values[k] != 0 {
      var k :| 0 <= k < Places && values[k] != 0;
      assert k + 1 in System(values);
    }
  }

  /** Untouched spin boxes give back `puntajes_defecto` as the scoring system. */
  lemma {:induction false} DefaultSystem(values: seq<int>)
    requires |values| == Places
    requires forall k :: 0 <= k < |values| ==> values[k] == Points(DefaultTable, k + 1)
    ensures System(values) == DefaultTable
  {
    forall p | p in DefaultTable
      ensures p in System(values) && System(values)[p] == DefaultTable[p]
    {
      assert values[p - 1] == DefaultTable[p];
    }
    assert System(values).Keys == DefaultTable.Keys;
  }

  /** A line of the points table as shown: "Lugar", club, total. */
  datatype PointRow = PointRow(place: nat, club: string, points: int)

  /** A line of the medal table as shown: "Lugar", club, gold, silver, bronze. */
  datatype MedalRow = MedalRow(place: nat, club: string, gold: int, silver: int, bronze: int)

  /**
   * What the screen shows after "calculate": a warning, or the two tables.
   * `points` is `None` when the points table is not refilled and keeps
   * whatever it showed before.
   */
  datatype Screen = NoEvent | Shown(points: Option<seq<PointRow>>, medals: seq<MedalRow>)

  /** The table `calcular_puntuacion_clubes` returns for this event and system. */
  ghost predicate PointTableOf(db: Store, ev: nat, system: map<int, int>, table: seq<ClubScore>)
    reads db
  {
    && multiset(table) ==
       multiset(ClubPointsTable(ClubRows(db.registrations, db.athletes, db.clubs, db.validity, ev, false), system))
    && SortedBy(table, MorePoints)
  }

  /** The table `calcular_ranking_medallas` returns for this event. */
  ghost predicate MedalTableOf(db: Store, ev: nat, table: seq<ClubMedals>)
    reads db
  {
    && multiset(table) ==
       multiset(ClubMedalTable(ClubRows(db.registrations, db.athletes, db.clubs, db.validity, ev, true)))
    && SortedBy(table, MoreMedals)
  }

  /** The points table filled row by row: row `k` shows place `k + 1`, the club and its total; the logo is not shown. */
  method FillPoints(table: seq<ClubScore>) returns (rows: seq<PointRow>)
    ensures |rows| == |table|
    ensures forall k :: 0 <= k < |rows| ==> rows[k] == PointRow(k + 1, table[k].club, table[k].points)
  {
    rows := [];
    for k := 0 to |table|
      invariant |rows| == k
      invariant forall j :: 0 <= j < k ==> rows[j] == PointRow(j + 1, table[j].club, table[j].points)
    {
      rows := rows + [PointRow(k + 1, table[k].club, table[k].points)];
    }
  }

  /** The medal table filled row by row: row `k` shows place `k + 1`, the club and its three counts. */
  method FillMedals(table: seq<ClubMedals>) returns (rows: seq<MedalRow>)
    ensures |rows| == |table|
    ensures forall k :: 0 <= k < |rows| ==>
      rows[k] == MedalRow(k + 1, table[k].club, table[k].gold, table[k].silver, table[k].bronze)
  {
    rows := [];
    for k := 0 to |table|
      invariant |rows| == k
      invariant forall j :: 0 <= j < k ==>
        rows[j] == MedalRow(j + 1, table[j].club, table[j].gold, table[j].silver, table[j].bronze)
    {
      rows := rows + [MedalRow(k + 1, table[k].club, table[k].gold, table[k].silver, table[k].bronze)];
    }
  }

  /**
   * `calcular_y_mostrar_todo`: without an active event only a warning is
   * shown. Otherwise the points table is computed under the spin boxes'
   * system (with an empty system only a warning is shown and the points
   * table is left as it was) and the
   * medal table is computed in any case. `pointTable` and `medalTable` are
   * the tables the queries returned. A lower "Lugar" never shows fewer
   * points, nor a smaller medal triple.
   */
  method Calculate(db: Store, ev: Option<nat>, values: seq<int>)
    returns (screen: Screen, pointTable: seq<ClubScore>, medalTable: seq<ClubMedals>)
    requires Spinners(values)
    ensures screen.NoEvent? <==> ev.None?
    ensures screen.Shown? ==> (screen.points.None? <==> forall k :: 0 <= k < Places ==> values[k] == 0)
    ensures screen.Shown? && screen.points.Some? ==>
      && PointTableOf(db, ev.value, System(values), pointTable)
      && |screen.points.value| == |pointTable|
      && (forall k :: 0 <= k < |pointTable| ==>
            screen.points.value[k] == PointRow(k + 1, pointTable[k].club, pointTable[k].points))
      && (forall i, j :: 0 <= i < j < |pointTable| ==> screen.points.value[i].points >= screen.points.value[j].points)
    ensures screen.Shown? ==>
      && MedalTableOf(db, ev.value, medalTable)
      && |screen.medals| == |medalTable|
      && (forall k :: 0 <= k < |medalTable| ==>
            screen.medals[k] == MedalRow(k + 1, medalTable[k].club, medalTable[k].gold,
                                         medalTable[k].silver, medalTable[k].bronze))
      && (forall i, j :: 0 <= i < j < |medalTable| ==>
            MoreMedals(medalTable[i], medalTable[j]))
  {
    pointTable, medalTable := [], [];
    if ev.None? {
      return NoEvent, pointTable, medalTable;
    }
    var points: Option<seq<PointRow>> := None;
    var system := System(values);
    EmptySystemIffAllZero(values);
    if system != map[] {
      pointTable := ClubPointStandings(db, ev.value, system);
      var rows := FillPoints(pointTable);
      points := Some(rows);
    }
    medalTable := ClubMedalStandings(db, ev.value);
    var medals := FillMedals(medalTable);
    screen := Shown(points, medals);
  }
}
