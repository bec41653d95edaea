/**
 * The individual standings: `calcular_puntuacion_deportistas` and
 * `calcular_ranking_medallas_deportistas`, in `database_maraton.py` and in
 * the older copy `ranking_individual.py`. Every crew member of a counting
 * boat gets the boat's full points, or one medal of its place; an athlete's
 * name and club are looked up the first time the athlete is seen and kept.
 *
 * The two copies differ in three ways, gathered in a `Directory`: the older
 * one has no validity join in its query, keeps every non-NULL slot where the
 * newer one keeps the truthy ones (`filter(None, ...)` also drops id 0), and
 * does not fetch the club's logo.
 */
module Individual {
  import opened Wrappers
  import opened Sorting
  import opened Grouping
  import opened Records
  import opened Standings

  // ------------------------------------------------------------- the query

  /** `filter(None, [p1, p2, p3, p4])`: NULL and the falsy id 0 are dropped. */
  function Truthy(slots: seq<Option<nat>>): (ids: seq<nat>)
    ensures forall x :: x in ids <==> Some(x) in slots && x != 0
    decreases |slots|
  {
    if slots == [] then []
    else
      assert slots == [slots[0]] + slots[1..];
      (if slots[0].Some? && slots[0].value != 0 then [slots[0].value] else []) + Truthy(slots[1..])
  }

  /** `[p for p in [p1, p2, p3, p4] if p is not None]`. */
  function NotNull(slots: seq<Option<nat>>): (ids: seq<nat>)
    ensures forall x :: x in ids <==> Some(x) in slots
    decreases |slots|
  {
    if slots == [] then []
    else
      assert slots == [slots[0]] + slots[1..];
      (if slots[0].Some? then [slots[0].value] else []) + NotNull(slots[1..])
  }

  /** A row of the individual queries: the place and the four athlete columns. */
  datatype CrewRow = CrewRow(place: nat, slots: seq<Option<nat>>)

  /**
   * A registration reaches the individual queries when it belongs to the
   * event, is 'Finalizado' with a counting place and, when `checked`, its
   * category is validated.
   */
  predicate CrewEligible(r: Registration, validity: map<(nat, nat), bool>, ev: nat, podiumOnly: bool, checked: bool) {
    r.event == ev && r.status == Finalizado && PlaceCounts(r.rank, podiumOnly) && (checked ==> Validated(validity, r))
  }

  /** The rows of the individual queries, in table order. */
  function CrewRows(regs: seq<Registration>, validity: map<(nat, nat), bool>, ev: nat,
                    podiumOnly: bool, checked: bool): (rows: seq<CrewRow>)
    ensures |rows| <= |regs|
    ensures podiumOnly ==> forall k :: 0 <= k < |rows| ==> 1 <= rows[k].place <= 3
    decreases |regs|
  {
    if regs == [] then []
    else
      var r := regs[0];
      var rest := CrewRows(regs[1..], validity, ev, podiumOnly, checked);
      if CrewEligible(r, validity, ev, podiumOnly, checked) then [CrewRow(r.rank.value, Slots(r))] + rest
      else rest
  }

  // ------------------------------------------------------------ the lookup

  /** What the lookup query returns for one athlete. */
  datatype Info = Info(name: string, club: Option<string>, logo: Option<string>)

  /**
   * The tables the lookup reads and the two copies' differences: `withLogo`
   * fetches `c.logo_path`, `truthy` filters the slots with `filter(None, ...)`.
   */
  datatype Directory = Directory(athletes: map<nat, Athlete>, clubs: map<nat, Club>, withLogo: bool, truthy: bool)

  /** The slots a row credits. */
  function Pick(d: Directory, slots: seq<Option<nat>>): seq<nat> {
    if d.truthy then Truthy(slots) else NotNull(slots)
  }

  /**
   * `SELECT p.apellido || ', ' || p.nombre, c.nombre_club[, c.logo_path]
   * FROM participantes p LEFT JOIN clubes c ON p.club_id = c.id WHERE p.id = ?`:
   * no row for an unknown athlete; NULL club fields when the athlete has no
   * club or its club row is missing.
   */
  function Lookup(d: Directory, id: nat): Option<Info> {
    if id !in d.athletes then None
    else
      var a := d.athletes[id];
      if a.club.Some? && a.club.value in d.clubs then
        var c := d.clubs[a.club.value];
        Some(Info(a.lastName + ", " + a.firstName, Some(c.name), if d.withLogo then c.logo else None))
      else Some(Info(a.lastName + ", " + a.firstName, None, None))
  }

  // ------------------------------------------------------------- the seats

  /** One credit: an athlete found by the lookup, in a boat that finished at `place`. */
  datatype Seat = Seat(athlete: nat, info: Info, place: nat)

  function SeatAthlete(s: Seat): nat { s.athlete }
  function SeatInfo(s: Seat): Info { s.info }
  function SeatPoints(system: map<int, int>): Seat -> int {
    (s: Seat) => Points(system, s.place)
  }
  function SeatGold(s: Seat): int { if s.place == 1 then 1 else 0 }
  function SeatSilver(s: Seat): int { if s.place == 2 then 1 else 0 }
  function SeatBronze(s: Seat): int { if s.place == 3 then 1 else 0 }

  /** The crew members of one boat that the lookup finds, in slot order. */
  function CrewSeats(ids: seq<nat>, place: nat, d: Directory): seq<Seat>
    decreases |ids|
  {
    if ids == [] then []
    else
      var n := |ids| - 1;
      var o := Lookup(d, ids[n]);
      CrewSeats(ids[..n], place, d) + (if o.Some? then [Seat(ids[n], o.value, place)] else [])
  }

  /** The credits of the points loop: rows worth no points are skipped. */
  function PointSeats(rows: seq<CrewRow>, system: map<int, int>, d: Directory): seq<Seat>
    decreases |rows|
  {
    if rows == [] then []
    else
      var n := |rows| - 1;
      var row := rows[n];
      PointSeats(rows[..n], system, d)
      + (if Points(system, row.place) == 0 then [] else CrewSeats(Pick(d, row.slots), row.place, d))
  }

  /** The credits of the medal loop. */
  function MedalSeats(rows: seq<CrewRow>, d: Directory): seq<Seat>
    decreases |rows|
  {
    if rows == [] then []
    else
      var n := |rows| - 1;
      MedalSeats(rows[..n], d) + CrewSeats(Pick(d, rows[n].slots), rows[n].place, d)
  }

  // ------------------------------------------------------------ the tables

  /** A line of the individual points table; `athlete` is the dictionary key. */
  datatype AthleteScore = AthleteScore(athlete: nat, info: Info, points: int)

  /** A line of the individual medal table. */
  datatype AthleteMedals = AthleteMedals(athlete: nat, info: Info, gold: int, silver: int, bronze: int)

  /** One line per athlete in order of first credit, with the info of that credit and the sum of all. */
  function AthleteScores(heads: seq<Seat>, seats: seq<Seat>, system: map<int, int>): (t: seq<AthleteScore>)
    ensures |t| == |heads|
    ensures forall p :: 0 <= p < |heads| ==>
      t[p] == AthleteScore(heads[p].athlete, heads[p].info, Total(seats, SeatAthlete, heads[p].athlete, SeatPoints(system)))
    decreases |heads|
  {
    if heads == [] then []
    else
      [AthleteScore(heads[0].athlete, heads[0].info, Total(seats, SeatAthlete, heads[0].athlete, SeatPoints(system)))]
      + AthleteScores(heads[1..], seats, system)
  }

  function AthletePointsTable(rows: seq<CrewRow>, system: map<int, int>, d: Directory): seq<AthleteScore> {
    var seats := PointSeats(rows, system, d);
    AthleteScores(Firsts(seats, SeatAthlete), seats, system)
  }

  function AthleteMedalLines(heads: seq<Seat>, seats: seq<Seat>): (t: seq<AthleteMedals>)
    ensures |t| == |heads|
    ensures forall p :: 0 <= p < |heads| ==>
      t[p] == AthleteMedals(heads[p].athlete, heads[p].info, Total(seats, SeatAthlete, heads[p].athlete, SeatGold),
                            Total(seats, SeatAthlete, heads[p].athlete, SeatSilver),
                            Total(seats, SeatAthlete, heads[p].athlete, SeatBronze))
    decreases |heads|
  {
    if heads == [] then []
    else
      var a := heads[0].athlete;
      [AthleteMedals(a, heads[0].info, Total(seats, SeatAthlete, a, SeatGold), Total(seats, SeatAthlete, a, SeatSilver),
                     Total(seats, SeatAthlete, a, SeatBronze))]
      + AthleteMedalLines(heads[1..], seats)
  }

  function AthleteMedalTable(rows: seq<CrewRow>, d: Directory): seq<AthleteMedals> {
    var seats := MedalSeats(rows, d);
    AthleteMedalLines(Firsts(seats, SeatAthlete), seats)
  }

  /** `key=lambda item: item['puntos'], reverse=True`. */
  predicate MoreAthletePoints(a: AthleteScore, b: AthleteScore) { a.points >= b.points }

  /** `key=lambda item: (item['oro'], item['plata'], item['bronce']), reverse=True`. */
  predicate MoreAthleteMedals(a: AthleteMedals, b: AthleteMedals) {
    a.gold > b.gold || (a.gold == b.gold && (a.silver > b.silver || (a.silver == b.silver && a.bronze >= b.bronze)))
  }

  lemma {:induction false} AthleteOrdersTotal()
    ensures TotalPreorder(MoreAthletePoints) && TotalPreorder(MoreAthleteMedals)
  {
  }

  /** The athletes of some seats are all in the athlete table. */
  ghost predicate Known(seats: seq<Seat>, d: Directory) {
    forall s :: s in seats ==> s.athlete in d.athletes
  }

  /** The lookup finds exactly the athletes of the athlete table. */
  lemma {:induction false} LookupFinds(d: Directory, id: nat)
    ensures Lookup(d, id).Some? <==> id in d.athletes
  {
  }

  /** Every crew seat is a slot athlete the lookup finds, with what it returns, at the boat's place. */
  lemma {:induction false} CrewSeatsFacts(ids: seq<nat>, place: nat, d: Directory)
    ensures forall s :: s in CrewSeats(ids, place, d) ==>
      s.place == place && s.athlete in ids && Lookup(d, s.athlete) == Some(s.info)
    decreases |ids|
  {
    if ids != [] {
      var n := |ids| - 1;
      CrewSeatsFacts(ids[..n], place, d);
      assert forall x :: x in ids[..n] ==> x in ids;
    }
  }

  lemma {:induction false} CrewSeatsKnown(done: seq<Seat>, ids: seq<nat>, place: nat, d: Directory)
    requires Known(done, d)
    ensures Known(done + CrewSeats(ids, place, d), d)
  {
    CrewSeatsFacts(ids, place, d);
    forall s | s in CrewSeats(ids, place, d) ensures s.athlete in d.athletes {
      LookupFinds(d, s.athlete);
    }
  }

  lemma {:induction false} PointSeatsKnown(rows: seq<CrewRow>, system: map<int, int>, d: Directory)
    ensures Known(PointSeats(rows, system, d), d)
    decreases |rows|
  {
    if rows != [] {
      var n := |rows| - 1;
      PointSeatsKnown(rows[..n], system, d);
      CrewSeatsKnown(PointSeats(rows[..n], system, d), Pick(d, rows[n].slots), rows[n].place, d);
    }
  }

  lemma {:induction false} MedalSeatsKnown(rows: seq<CrewRow>, d: Directory)
    ensures Known(MedalSeats(rows, d), d)
    decreases |rows|
  {
    if rows != [] {
      var n := |rows| - 1;
      MedalSeatsKnown(rows[..n], d);
      CrewSeatsKnown(MedalSeats(rows[..n], d), Pick(d, rows[n].slots), rows[n].place, d);
    }
  }

  /** Every key of the dictionary of known seats is a known athlete. */
  lemma {:induction false} KnownKeys(seats: seq<Seat>, d: Directory)
    requires Known(seats, d)
    ensures forall k :: k in Keys(seats, SeatAthlete) ==> k in d.athletes
    decreases |seats|
  {
    if seats != [] {
      var n := |seats| - 1;
      assert forall s :: s in seats[..n] ==> s in seats;
      KnownKeys(seats[..n], d);
    }
  }

  // --------------------------------------------------------- points loop

  /** `calcular_puntuacion_deportistas` after its query: credit every crew member, then sort. */
  method TallyAthletePoints(rows: seq<CrewRow>, system: map<int, int>, d: Directory) returns (table: seq<AthleteScore>)
    ensures multiset(table) == multiset(AthletePointsTable(rows, system, d))
    ensures SortedBy(table, MoreAthletePoints)
  {
    var order, infos, points := CountAthletePoints(rows, system, d);
    AthletePointsRead(rows, system, d);
    var items := ScoreLines(order, infos, points);
    AthleteOrdersTotal();
    SortBySorted(items, MoreAthletePoints);
    table := SortBy(items, MoreAthletePoints);
  }

  /** The outer loop of the points table: rows worth no points are skipped (`continue`). */
  method CountAthletePoints(rows: seq<CrewRow>, system: map<int, int>, d: Directory)
    returns (order: seq<nat>, infos: map<nat, Info>, points: map<nat, int>)
    ensures order == Keys(PointSeats(rows[..|rows|], system, d), SeatAthlete)
    ensures infos == FirstMap(PointSeats(rows[..|rows|], system, d), SeatAthlete, SeatInfo)
    ensures points == Tally(PointSeats(rows[..|rows|], system, d), SeatAthlete, SeatPoints(system))
  {
    order, infos, points := [], map[], map[];
    for i := 0 to |rows|
      invariant order == Keys(PointSeats(rows[..i], system, d), SeatAthlete)
      invariant infos == FirstMap(PointSeats(rows[..i], system, d), SeatAthlete, SeatInfo)
      invariant points == Tally(PointSeats(rows[..i], system, d), SeatAthlete, SeatPoints(system))
    {
      var row := rows[i];
      var pts := Points(system, row.place);
      PointSeatsSnoc(rows, system, d, i);
      if pts == 0 {
        continue;
      }
      var ids := Pick(d, row.slots);
      PointSeatsKnown(rows[..i], system, d);
      order, infos, points := CreditCrewPoints(ids, row.place, pts, system, d, PointSeats(rows[..i], system, d),
                                               order, infos, points);
    }
  }

  lemma {:induction false} PointSeatsSnoc(rows: seq<CrewRow>, system: map<int, int>, d: Directory, i: nat)
    requires i < |rows|
    ensures PointSeats(rows[..i + 1], system, d) ==
      if Points(system, rows[i].place) == 0 then PointSeats(rows[..i], system, d)
      else PointSeats(rows[..i], system, d) + CrewSeats(Pick(d, rows[i].slots), rows[i].place, d)
  {
    assert rows[..i + 1][..i] == rows[..i];
    assert PointSeats(rows[..i], system, d) + [] == PointSeats(rows[..i], system, d);
  }

  /** The inner loop of the points table, over the crew of one boat worth `pts`. */
  method CreditCrewPoints(ids: seq<nat>, place: nat, pts: int, system: map<int, int>, d: Directory,
                          ghost done: seq<Seat>, order: seq<nat>, infos: map<nat, Info>, points: map<nat, int>)
    returns (order': seq<nat>, infos': map<nat, Info>, points': map<nat, int>)
    requires pts == Points(system, place) && Known(done, d)
    requires order == Keys(done, SeatAthlete)
    requires infos == FirstMap(done, SeatAthlete, SeatInfo)
    requires points == Tally(done, SeatAthlete, SeatPoints(system))
    ensures order' == Keys(done + CrewSeats(ids, place, d), SeatAthlete)
    ensures infos' == FirstMap(done + CrewSeats(ids, place, d), SeatAthlete, SeatInfo)
    ensures points' == Tally(done + CrewSeats(ids, place, d), SeatAthlete, SeatPoints(system))
  {
    order', infos', points' := order, infos, points;
    assert done + CrewSeats(ids[..0], place, d) == done;
    for j := 0 to |ids|
      invariant order' == Keys(done + CrewSeats(ids[..j], place, d), SeatAthlete)
      invariant infos' == FirstMap(done + CrewSeats(ids[..j], place, d), SeatAthlete, SeatInfo)
      invariant points' == Tally(done + CrewSeats(ids[..j], place, d), SeatAthlete, SeatPoints(system))
    {
      CrewSeatsSnoc(done, ids, j, place, d);
      CrewSeatsKnown(done, ids[..j], place, d);
      order', infos', points' := CreditMemberPoints(ids[j], place, pts, system, d, done + CrewSeats(ids[..j], place, d),
                                                    order', infos', points');
    }
    assert ids[..|ids|] == ids;
  }

  /** The seats after crediting athlete `a` of a boat at `place`: one more when the lookup finds it. */
  ghost function Credited(seen: seq<Seat>, a: nat, place: nat, d: Directory): seq<Seat> {
    var o := Lookup(d, a);
    if o.Some? then seen + [Seat(a, o.value, place)] else seen
  }

  /** The seats after one more crew member. */
  lemma {:induction false} CrewSeatsSnoc(done: seq<Seat>, ids: seq<nat>, j: nat, place: nat, d: Directory)
    requires j < |ids|
    ensures done + CrewSeats(ids[..j + 1], place, d) == Credited(done + CrewSeats(ids[..j], place, d), ids[j], place, d)
  {
    assert ids[..j + 1][..j] == ids[..j];
    assert CrewSeats(ids[..j], place, d) + [] == CrewSeats(ids[..j], place, d);
  }

  /** One turn of the inner points loop, stated on the seats credited before and after it. */
  method CreditMemberPoints(a: nat, place: nat, pts: int, system: map<int, int>, d: Directory,
                            ghost seen: seq<Seat>, order: seq<nat>, infos: map<nat, Info>, points: map<nat, int>)
    returns (order': seq<nat>, infos': map<nat, Info>, points': map<nat, int>)
    requires pts == Points(system, place) && Known(seen, d)
    requires order == Keys(seen, SeatAthlete)
    requires infos == FirstMap(seen, SeatAthlete, SeatInfo)
    requires points == Tally(seen, SeatAthlete, SeatPoints(system))
    ensures order' == Keys(Credited(seen, a, place, d), SeatAthlete)
    ensures infos' == FirstMap(Credited(seen, a, place, d), SeatAthlete, SeatInfo)
    ensures points' == Tally(Credited(seen, a, place, d), SeatAthlete, SeatPoints(system))
  {
    CreditFacts(seen, a, place, system, d);
    order', infos', points' := CreditAthletePoints(a, pts, d, order, infos, points);
  }

  /** What the body of the inner points loop needs to know about the dictionaries of the seats `seen`. */
  lemma {:induction false} CreditFacts(seen: seq<Seat>, a: nat, place: nat, system: map<int, int>, d: Directory)
    requires Known(seen, d)
    ensures var keys, infos, points := Keys(seen, SeatAthlete), FirstMap(seen, SeatAthlete, SeatInfo),
                                       Tally(seen, SeatAthlete, SeatPoints(system));
      && infos.Keys == points.Keys == KeySet(keys)
      && (forall k :: k in points ==> k in d.athletes)
      && (Lookup(d, a).Some? ==>
            var after := Credited(seen, a, place, d);
            && Keys(after, SeatAthlete) == Grown(keys, a)
            && FirstMap(after, SeatAthlete, SeatInfo) == (if a in infos then infos else infos[a := Lookup(d, a).value])
            && Tally(after, SeatAthlete, SeatPoints(system)) == points[a := Get(points, a) + Points(system, place)])
      && (Lookup(d, a).None? ==> Credited(seen, a, place, d) == seen)
  {
    TallyKeys(seen, SeatAthlete, SeatPoints(system));
    FirstMapKeys(seen, SeatAthlete, SeatInfo);
    KnownKeys(seen, d);
    if Lookup(d, a).Some? {
      CreditFound(seen, a, place, system, d);
    }
  }

  /** Crediting an athlete the lookup finds adds one seat to each dictionary. */
  lemma {:induction false} CreditFound(seen: seq<Seat>, a: nat, place: nat, system: map<int, int>, d: Directory)
    requires Lookup(d, a).Some?
    ensures var after := Credited(seen, a, place, d);
      && Keys(after, SeatAthlete) == Grown(Keys(seen, SeatAthlete), a)
      && FirstMap(after, SeatAthlete, SeatInfo) ==
           (var infos := FirstMap(seen, SeatAthlete, SeatInfo);
            if a in infos then infos else infos[a := Lookup(d, a).value])
      && Tally(after, SeatAthlete, SeatPoints(system)) ==
           (var points := Tally(seen, SeatAthlete, SeatPoints(system));
            points[a := Get(points, a) + Points(system, place)])
  {
    DictSnoc(seen, Seat(a, Lookup(d, a).value, place), SeatAthlete, SeatPoints(system), SeatInfo);
  }

  /**
   * The body of the inner points loop: an athlete not yet in the dictionary
   * is looked up, and opened at 0 if found; an athlete in the dictionary is
   * then credited. An athlete the lookup does not find changes nothing.
   */
  method CreditAthletePoints(a: nat, pts: int, d: Directory, order: seq<nat>, infos: map<nat, Info>, points: map<nat, int>)
    returns (order': seq<nat>, infos': map<nat, Info>, points': map<nat, int>)
    requires infos.Keys == points.Keys == KeySet(order)
    requires forall k :: k in points ==> k in d.athletes
    ensures Lookup(d, a).None? ==> order' == order && infos' == infos && points' == points
    ensures Lookup(d, a).Some? ==>
      && order' == Grown(order, a)
      && infos' == (if a in infos then infos else infos[a := Lookup(d, a).value])
      && points' == points[a := Get(points, a) + pts]
  {
    LookupFinds(d, a);
    order', infos', points' := order, infos, points;
    if a !in points' {
      var info := Lookup(d, a);
      if info.Some? {
        points' := points'[a := 0];
        infos' := infos'[a := info.value];
        order' := order' + [a];
      }
    }
    ghost var ready := points';
    if a in points' {
      points' := points'[a := points'[a] + pts];
    }
    if Lookup(d, a).Some? {
      OpenThenAdd(points, ready, points', a, pts, true);
    }
  }

  /** `puntuacion_por_deportista.values()`: the dictionary read out in key order. */
  function ScoreLines(order: seq<nat>, infos: map<nat, Info>, points: map<nat, int>): (t: seq<AthleteScore>)
    requires KeySet(order) <= infos.Keys && KeySet(order) <= points.Keys
    ensures |t| == |order|
  {
    seq(|order|, p requires 0 <= p < |order| => AthleteScore(order[p], infos[order[p]], points[order[p]]))
  }

  /** The dictionary of the points loop after all rows, read out, is the points table. */
  lemma {:induction false} AthletePointsRead(rows: seq<CrewRow>, system: map<int, int>, d: Directory)
    ensures var seats := PointSeats(rows[..|rows|], system, d);
      && KeySet(Keys(seats, SeatAthlete)) == FirstMap(seats, SeatAthlete, SeatInfo).Keys
      && KeySet(Keys(seats, SeatAthlete)) == Tally(seats, SeatAthlete, SeatPoints(system)).Keys
      && ScoreLines(Keys(seats, SeatAthlete), FirstMap(seats, SeatAthlete, SeatInfo),
                    Tally(seats, SeatAthlete, SeatPoints(system)))
         == AthletePointsTable(rows, system, d)
  {
    assert rows[..|rows|] == rows;
    var seats := PointSeats(rows, system, d);
    TallyFacts(seats, SeatAthlete, SeatPoints(system));
    FirstMapFacts(seats, SeatAthlete, SeatInfo);
  }

  // ---------------------------------------------------------- medal loop

  /** `calcular_ranking_medallas_deportistas` after its query: count every crew member's medals, then sort. */
  method TallyAthleteMedals(rows: seq<CrewRow>, d: Directory) returns (table: seq<AthleteMedals>)
    ensures multiset(table) == multiset(AthleteMedalTable(rows, d))
    ensures SortedBy(table, MoreAthleteMedals)
  {
    var order, infos, gold, silver, bronze := CountAthleteMedals(rows, d);
    AthleteMedalsRead(rows, d);
    var items := MedalCountLines(order, infos, gold, silver, bronze);
    AthleteOrdersTotal();
    SortBySorted(items, MoreAthleteMedals);
    table := SortBy(items, MoreAthleteMedals);
  }

  /** The outer loop of the medal table. */
  method CountAthleteMedals(rows: seq<CrewRow>, d: Directory)
    returns (order: seq<nat>, infos: map<nat, Info>, gold: map<nat, int>, silver: map<nat, int>, bronze: map<nat, int>)
    ensures order == Keys(MedalSeats(rows[..|rows|], d), SeatAthlete)
    ensures infos == FirstMap(MedalSeats(rows[..|rows|], d), SeatAthlete, SeatInfo)
    ensures gold == Tally(MedalSeats(rows[..|rows|], d), SeatAthlete, SeatGold)
    ensures silver == Tally(MedalSeats(rows[..|rows|], d), SeatAthlete, SeatSilver)
    ensures bronze == Tally(MedalSeats(rows[..|rows|], d), SeatAthlete, SeatBronze)
  {
    order, infos, gold, silver, bronze := [], map[], map[], map[], map[];
    for i := 0 to |rows|
      invariant order == Keys(MedalSeats(rows[..i], d), SeatAthlete)
      invariant infos == FirstMap(MedalSeats(rows[..i], d), SeatAthlete, SeatInfo)
      invariant gold == Tally(MedalSeats(rows[..i], d), SeatAthlete, SeatGold)
      invariant silver == Tally(MedalSeats(rows[..i], d), SeatAthlete, SeatSilver)
      invariant bronze == Tally(MedalSeats(rows[..i], d), SeatAthlete, SeatBronze)
    {
      var row := rows[i];
      assert rows[..i + 1][..i] == rows[..i];
      MedalSeatsKnown(rows[..i], d);
      var ids := Pick(d, row.slots);
      order, infos, gold, silver, bronze :=
        CreditCrewMedals(ids, row.place, d, MedalSeats(rows[..i], d), order, infos, gold, silver, bronze);
    }
  }

  /** The inner loop of the medal table, over the crew of one boat. */
  method CreditCrewMedals(ids: seq<nat>, place: nat, d: Directory, ghost done: seq<Seat>, order: seq<nat>,
                          infos: map<nat, Info>, gold: map<nat, int>, silver: map<nat, int>, bronze: map<nat, int>)
    returns (order': seq<nat>, infos': map<nat, Info>, gold': map<nat, int>, silver': map<nat, int>, bronze': map<nat, int>)
    requires Known(done, d)
    requires order == Keys(done, SeatAthlete)
    requires infos == FirstMap(done, SeatAthlete, SeatInfo)
    requires gold == Tally(done, SeatAthlete, SeatGold)
    requires silver == Tally(done, SeatAthlete, SeatSilver)
    requires bronze == Tally(done, SeatAthlete, SeatBronze)
    ensures order' == Keys(done + CrewSeats(ids, place, d), SeatAthlete)
    ensures infos' == FirstMap(done + CrewSeats(ids, place, d), SeatAthlete, SeatInfo)
    ensures gold' == Tally(done + CrewSeats(ids, place, d), SeatAthlete, SeatGold)
    ensures silver' == Tally(done + CrewSeats(ids, place, d), SeatAthlete, SeatSilver)
    ensures bronze' == Tally(done + CrewSeats(ids, place, d), SeatAthlete, SeatBronze)
  {
    order', infos', gold', silver', bronze' := order, infos, gold, silver, bronze;
    assert done + CrewSeats(ids[..0], place, d) == done;
    for j := 0 to |ids|
      invariant order' == Keys(done + CrewSeats(ids[..j], place, d), SeatAthlete)
      invariant infos' == FirstMap(done + CrewSeats(ids[..j], place, d), SeatAthlete, SeatInfo)
      invariant gold' == Tally(done + CrewSeats(ids[..j], place, d), SeatAthlete, SeatGold)
      invariant silver' == Tally(done + CrewSeats(ids[..j], place, d), SeatAthlete, SeatSilver)
      invariant bronze' == Tally(done + CrewSeats(ids[..j], place, d), SeatAthlete, SeatBronze)
    {
      CrewSeatsSnoc(done, ids, j, place, d);
      CrewSeatsKnown(done, ids[..j], place, d);
      order', infos', gold', silver', bronze' :=
        CreditMemberMedals(ids[j], place, d, done + CrewSeats(ids[..j], place, d), order', infos', gold', silver', bronze');
    }
    assert ids[..|ids|] == ids;
  }

  /** One turn of the inner medal loop, stated on the seats credited before and after it. */
  method CreditMemberMedals(a: nat, place: nat, d: Directory, ghost seen: seq<Seat>, order: seq<nat>,
                            infos: map<nat, Info>, gold: map<nat, int>, silver: map<nat, int>, bronze: map<nat, int>)
    returns (order': seq<nat>, infos': map<nat, Info>, gold': map<nat, int>, silver': map<nat, int>, bronze': map<nat, int>)
    requires Known(seen, d)
    requires order == Keys(seen, SeatAthlete)
    requires infos == FirstMap(seen, SeatAthlete, SeatInfo)
    requires gold == Tally(seen, SeatAthlete, SeatGold)
    requires silver == Tally(seen, SeatAthlete, SeatSilver)
    requires bronze == Tally(seen, SeatAthlete, SeatBronze)
    ensures order' == Keys(Credited(seen, a, place, d), SeatAthlete)
    ensures infos' == FirstMap(Credited(seen, a, place, d), SeatAthlete, SeatInfo)
    ensures gold' == Tally(Credited(seen, a, place, d), SeatAthlete, SeatGold)
    ensures silver' == Tally(Credited(seen, a, place, d), SeatAthlete, SeatSilver)
    ensures bronze' == Tally(Credited(seen, a, place, d), SeatAthlete, SeatBronze)
  {
    CreditFacts(seen, a, place, map[], d);
    MedalCreditFacts(seen, a, place, d);
    order', infos', gold', silver', bronze' := CreditAthleteMedal(a, place, d, order, infos, gold, silver, bronze);
  }

  /** The medal counters of the seats `seen`, and one more seat. */
  lemma {:induction false} MedalCreditFacts(seen: seq<Seat>, a: nat, place: nat, d: Directory)
    ensures var gold, silver, bronze := Tally(seen, SeatAthlete, SeatGold), Tally(seen, SeatAthlete, SeatSilver),
                                        Tally(seen, SeatAthlete, SeatBronze);
      && gold.Keys == silver.Keys == bronze.Keys == KeySet(Keys(seen, SeatAthlete))
      && (Lookup(d, a).Some? ==>
            var after := Credited(seen, a, place, d);
            && Tally(after, SeatAthlete, SeatGold) == gold[a := Get(gold, a) + (if place == 1 then 1 else 0)]
            && Tally(after, SeatAthlete, SeatSilver) == silver[a := Get(silver, a) + (if place == 2 then 1 else 0)]
            && Tally(after, SeatAthlete, SeatBronze) == bronze[a := Get(bronze, a) + (if place == 3 then 1 else 0)])
  {
    TallyKeys(seen, SeatAthlete, SeatGold);
    TallyKeys(seen, SeatAthlete, SeatSilver);
    TallyKeys(seen, SeatAthlete, SeatBronze);
    if Lookup(d, a).Some? {
      var x := Seat(a, Lookup(d, a).value, place);
      DictSnoc(seen, x, SeatAthlete, SeatGold, SeatInfo);
      DictSnoc(seen, x, SeatAthlete, SeatSilver, SeatInfo);
      DictSnoc(seen, x, SeatAthlete, SeatBronze, SeatInfo);
    }
  }

  /**
   * The body of the inner medal loop: open a new athlete's entry if the
   * lookup finds it, then count one gold, silver or bronze for places 1, 2, 3.
   */
  method CreditAthleteMedal(a: nat, place: nat, d: Directory, order: seq<nat>, infos: map<nat, Info>,
                            gold: map<nat, int>, silver: map<nat, int>, bronze: map<nat, int>)
    returns (order': seq<nat>, infos': map<nat, Info>, gold': map<nat, int>, silver': map<nat, int>, bronze': map<nat, int>)
    requires infos.Keys == gold.Keys == silver.Keys == bronze.Keys == KeySet(order)
    requires forall k :: k in gold ==> k in d.athletes
    ensures Lookup(d, a).None? ==> order' == order && infos' == infos && gold' == gold && silver' == silver && bronze' == bronze
    ensures Lookup(d, a).Some? ==>
      && order' == Grown(order, a)
      && infos' == (if a in infos then infos else infos[a := Lookup(d, a).value])
      && gold' == gold[a := Get(gold, a) + (if place == 1 then 1 else 0)]
      && silver' == silver[a := Get(silver, a) + (if place == 2 then 1 else 0)]
      && bronze' == bronze[a := Get(bronze, a) + (if place == 3 then 1 else 0)]
  {
    LookupFinds(d, a);
    order', infos', gold', silver', bronze' := order, infos, gold, silver, bronze;
    if a !in gold' {
      var info := Lookup(d, a);
      if info.Some? {
        gold', silver', bronze' := gold'[a := 0], silver'[a := 0], bronze'[a := 0];
        infos' := infos'[a := info.value];
        order' := order' + [a];
      }
    }
    ghost var gold1, silver1, bronze1 := gold', silver', bronze';
    if a in gold' {
      if place == 1 {
        gold' := gold'[a := gold'[a] + 1];
      } else if place == 2 {
        silver' := silver'[a := silver'[a] + 1];
      } else if place == 3 {
        bronze' := bronze'[a := bronze'[a] + 1];
      }
    }
    if Lookup(d, a).Some? {
      OpenThenAdd(gold, gold1, gold', a, if place == 1 then 1 else 0, place == 1);
      OpenThenAdd(silver, silver1, silver', a, if place == 2 then 1 else 0, place == 2);
      OpenThenAdd(bronze, bronze1, bronze', a, if place == 3 then 1 else 0, place == 3);
    }
  }

  /** `medallas_por_deportista.values()`: the dictionary read out in key order. */
  function MedalCountLines(order: seq<nat>, infos: map<nat, Info>, gold: map<nat, int>, silver: map<nat, int>,
                           bronze: map<nat, int>): (t: seq<AthleteMedals>)
    requires KeySet(order) <= infos.Keys && KeySet(order) <= gold.Keys
    requires KeySet(order) <= silver.Keys && KeySet(order) <= bronze.Keys
    ensures |t| == |order|
  {
    seq(|order|, p requires 0 <= p < |order| =>
      AthleteMedals(order[p], infos[order[p]], gold[order[p]], silver[order[p]], bronze[order[p]]))
  }

  /** The dictionary of the medal loop after all rows, read out, is the medal table. */
  lemma {:induction false} AthleteMedalsRead(rows: seq<CrewRow>, d: Directory)
    ensures var seats := MedalSeats(rows[..|rows|], d);
      && KeySet(Keys(seats, SeatAthlete)) == FirstMap(seats, SeatAthlete, SeatInfo).Keys
      && KeySet(Keys(seats, SeatAthlete)) == Tally(seats, SeatAthlete, SeatGold).Keys
      && KeySet(Keys(seats, SeatAthlete)) == Tally(seats, SeatAthlete, SeatSilver).Keys
      && KeySet(Keys(seats, SeatAthlete)) == Tally(seats, SeatAthlete, SeatBronze).Keys
      && MedalCountLines(Keys(seats, SeatAthlete), FirstMap(seats, SeatAthlete, SeatInfo), Tally(seats, SeatAthlete, SeatGold),
                         Tally(seats, SeatAthlete, SeatSilver), Tally(seats, SeatAthlete, SeatBronze))
         == AthleteMedalTable(rows, d)
  {
    assert rows[..|rows|] == rows;
    var seats := MedalSeats(rows, d);
    FirstMapFacts(seats, SeatAthlete, SeatInfo);
    TallyFacts(seats, SeatAthlete, SeatGold);
    TallyFacts(seats, SeatAthlete, SeatSilver);
    TallyFacts(seats, SeatAthlete, SeatBronze);
  }

  // ------------------------------------------------------ what is credited

  /** How many slots of a crew hold athlete `a`. */
  function Occurrences(ids: seq<nat>, a: nat): nat
    decreases |ids|
  {
    if ids == [] then 0
    else Occurrences(ids[..|ids| - 1], a) + (if ids[|ids| - 1] == a then 1 else 0)
  }

  /** The points athlete `a` is owed: every row credits its full value once per slot `a` holds. */
  function CrewCredit(rows: seq<CrewRow>, system: map<int, int>, d: Directory, a: nat): int
    decreases |rows|
  {
    if rows == [] then 0
    else
      var n := |rows| - 1;
      CrewCredit(rows[..n], system, d, a) + Points(system, rows[n].place) * Occurrences(Pick(d, rows[n].slots), a)
  }

  /** The medals of one place athlete `a` is owed: one per row at that place and slot `a` holds. */
  function PlaceCount(rows: seq<CrewRow>, d: Directory, a: nat, place: nat): nat
    decreases |rows|
  {
    if rows == [] then 0
    else
      var n := |rows| - 1;
      PlaceCount(rows[..n], d, a, place) + (if rows[n].place == place then Occurrences(Pick(d, rows[n].slots), a) else 0)
  }

  /** The athlete is listed in a table of lines keyed by athlete. */
  predicate ScoreListed(table: seq<AthleteScore>, a: nat) {
    exists p :: 0 <= p < |table| && table[p].athlete == a
  }

  predicate MedalsListed(table: seq<AthleteMedals>, a: nat) {
    exists p :: 0 <= p < |table| && table[p].athlete == a
  }

  /** The athlete sits in the crew of some row worth points. */
  predicate InScoringCrew(rows: seq<CrewRow>, system: map<int, int>, d: Directory, a: nat) {
    exists k :: 0 <= k < |rows| && Points(system, rows[k].place) != 0 && a in Pick(d, rows[k].slots)
  }

  predicate InSomeCrew(rows: seq<CrewRow>, d: Directory, a: nat) {
    exists k :: 0 <= k < |rows| && a in Pick(d, rows[k].slots)
  }

  /** One boat credits a found athlete the boat's value once per slot, and an unknown athlete nothing. */
  lemma {:induction false} CrewSeatsTotal(ids: seq<nat>, place: nat, d: Directory, a: nat, f: Seat -> int, v: int)
    requires forall s: Seat :: s.place == place ==> f(s) == v
    ensures Total(CrewSeats(ids, place, d), SeatAthlete, a, f) ==
      if Lookup(d, a).Some? then v * Occurrences(ids, a) else 0
    decreases |ids|
  {
    if ids != [] {
      var n := |ids| - 1;
      var prev := CrewSeats(ids[..n], place, d);
      CrewSeatsTotal(ids[..n], place, d, a, f, v);
      var o := Lookup(d, ids[n]);
      if o.Some? {
        TotalSnoc(prev, Seat(ids[n], o.value, place), SeatAthlete, a, f);
      } else {
        assert CrewSeats(ids, place, d) == prev + [];
        assert prev + [] == prev;
      }
      var occ := Occurrences(ids[..n], a);
      assert v * (occ + 1) == v * occ + v;
    }
  }

  /** A crew seat of a boat is a found athlete of its crew. */
  lemma {:induction false} CrewSeatsCover(ids: seq<nat>, place: nat, d: Directory, a: nat)
    requires a in ids && Lookup(d, a).Some?
    ensures exists s :: s in CrewSeats(ids, place, d) && s.athlete == a
    decreases |ids|
  {
    var n := |ids| - 1;
    if ids[n] == a {
      assert Seat(a, Lookup(d, a).value, place) in CrewSeats(ids, place, d);
    } else {
      assert a in ids[..n] by {
        var j :| 0 <= j < |ids| && ids[j] == a;
        assert ids[..n][j] == a;
      }
      CrewSeatsCover(ids[..n], place, d, a);
      var s :| s in CrewSeats(ids[..n], place, d) && s.athlete == a;
      assert s in CrewSeats(ids, place, d);
    }
  }

  /** The total credited to `a` by the points loop is its crew credit. */
  lemma {:induction false} PointSeatsTotal(rows: seq<CrewRow>, system: map<int, int>, d: Directory, a: nat)
    ensures Total(PointSeats(rows, system, d), SeatAthlete, a, SeatPoints(system)) ==
      if Lookup(d, a).Some? then CrewCredit(rows, system, d, a) else 0
    decreases |rows|
  {
    if rows != [] {
      var n := |rows| - 1;
      var row := rows[n];
      PointSeatsTotal(rows[..n], system, d, a);
      var pts := Points(system, row.place);
      if pts != 0 {
        TotalConcat(PointSeats(rows[..n], system, d), CrewSeats(Pick(d, row.slots), row.place, d), SeatAthlete, a,
                    SeatPoints(system));
        CrewSeatsTotal(Pick(d, row.slots), row.place, d, a, SeatPoints(system), pts);
      } else {
        assert PointSeats(rows, system, d) == PointSeats(rows[..n], system, d) + [];
        assert PointSeats(rows[..n], system, d) + [] == PointSeats(rows[..n], system, d);
      }
    }
  }

  /** The count of one place credited to `a` by the medal loop is its place count. */
  lemma {:induction false} MedalSeatsTotal(rows: seq<CrewRow>, d: Directory, a: nat, place: nat, f: Seat -> int)
    requires forall s: Seat :: f(s) == if s.place == place then 1 else 0
    ensures Total(MedalSeats(rows, d), SeatAthlete, a, f) == if Lookup(d, a).Some? then PlaceCount(rows, d, a, place) else 0
    decreases |rows|
  {
    if rows != [] {
      var n := |rows| - 1;
      var row := rows[n];
      MedalSeatsTotal(rows[..n], d, a, place, f);
      TotalConcat(MedalSeats(rows[..n], d), CrewSeats(Pick(d, row.slots), row.place, d), SeatAthlete, a, f);
      CrewSeatsTotal(Pick(d, row.slots), row.place, d, a, f, if row.place == place then 1 else 0);
    }
  }

  /** A seat of the points loop is a found athlete of a crew worth points. */
  lemma {:induction false} PointSeatFrom(rows: seq<CrewRow>, system: map<int, int>, d: Directory, s: Seat)
    requires s in PointSeats(rows, system, d)
    ensures Lookup(d, s.athlete) == Some(s.info) && InScoringCrew(rows, system, d, s.athlete)
    decreases |rows|
  {
    var n := |rows| - 1;
    var row := rows[n];
    if s in PointSeats(rows[..n], system, d) {
      PointSeatFrom(rows[..n], system, d, s);
      var k :| 0 <= k < n && Points(system, rows[..n][k].place) != 0 && s.athlete in Pick(d, rows[..n][k].slots);
      assert rows[..n][k] == rows[k];
    } else {
      CrewSeatsFacts(Pick(d, row.slots), row.place, d);
      assert Points(system, rows[n].place) != 0 && s.athlete in Pick(d, rows[n].slots);
    }
  }

  /** A found athlete of a crew worth points has a seat in the points loop. */
  lemma {:induction false} PointSeatCover(rows: seq<CrewRow>, system: map<int, int>, d: Directory, k: nat, a: nat)
    requires k < |rows| && Points(system, rows[k].place) != 0 && a in Pick(d, rows[k].slots) && Lookup(d, a).Some?
    ensures exists s :: s in PointSeats(rows, system, d) && s.athlete == a
    decreases |rows|
  {
    var n := |rows| - 1;
    var row := rows[n];
    var prev := PointSeats(rows[..n], system, d);
    assert PointSeats(rows, system, d) == prev + CrewSeats(Pick(d, row.slots), row.place, d) || Points(system, row.place) == 0;
    if k < n {
      assert rows[..n][k] == rows[k];
      PointSeatCover(rows[..n], system, d, k, a);
      var s :| s in prev && s.athlete == a;
      assert s in PointSeats(rows, system, d);
    } else {
      CrewSeatsCover(Pick(d, row.slots), row.place, d, a);
      var s :| s in CrewSeats(Pick(d, row.slots), row.place, d) && s.athlete == a;
      assert s in PointSeats(rows, system, d);
    }
  }

  /** A seat of the medal loop is a found athlete of some crew. */
  lemma {:induction false} MedalSeatFrom(rows: seq<CrewRow>, d: Directory, s: Seat)
    requires s in MedalSeats(rows, d)
    ensures Lookup(d, s.athlete) == Some(s.info) && InSomeCrew(rows, d, s.athlete)
    decreases |rows|
  {
    var n := |rows| - 1;
    var row := rows[n];
    if s in MedalSeats(rows[..n], d) {
      MedalSeatFrom(rows[..n], d, s);
      var k :| 0 <= k < n && s.athlete in Pick(d, rows[..n][k].slots);
      assert rows[..n][k] == rows[k];
    } else {
      CrewSeatsFacts(Pick(d, row.slots), row.place, d);
      assert s.athlete in Pick(d, rows[n].slots);
    }
  }

  /** A found athlete of some crew has a seat in the medal loop. */
  lemma {:induction false} MedalSeatCover(rows: seq<CrewRow>, d: Directory, k: nat, a: nat)
    requires k < |rows| && a in Pick(d, rows[k].slots) && Lookup(d, a).Some?
    ensures exists s :: s in MedalSeats(rows, d) && s.athlete == a
    decreases |rows|
  {
    var n := |rows| - 1;
    var row := rows[n];
    var prev := MedalSeats(rows[..n], d);
    assert MedalSeats(rows, d) == prev + CrewSeats(Pick(d, row.slots), row.place, d);
    if k < n {
      assert rows[..n][k] == rows[k];
      MedalSeatCover(rows[..n], d, k, a);
      var s :| s in prev && s.athlete == a;
      assert s in MedalSeats(rows, d);
    } else {
      CrewSeatsCover(Pick(d, row.slots), row.place, d, a);
      var s :| s in CrewSeats(Pick(d, row.slots), row.place, d) && s.athlete == a;
      assert s in MedalSeats(rows, d);
    }
  }

  /** An athlete with a seat heads a group of the seats. */
  lemma {:induction false} SeatHeadsGroup(seats: seq<Seat>, s: Seat)
    requires s in seats
    ensures exists q :: 0 <= q < |Firsts(seats, SeatAthlete)| && Firsts(seats, SeatAthlete)[q].athlete == s.athlete
  {
    var heads := Firsts(seats, SeatAthlete);
    FirstsFacts(seats, SeatAthlete);
    var i :| 0 <= i < |seats| && seats[i] == s;
    assert HasKey(heads, SeatAthlete, SeatAthlete(seats[i]));
    var y :| y in heads && SeatAthlete(y) == s.athlete;
    var q :| 0 <= q < |heads| && heads[q] == y;
  }

  function ScoreAthlete(e: AthleteScore): nat { e.athlete }
  function MedalsAthlete(e: AthleteMedals): nat { e.athlete }

  /** No athlete heads two lines of the points table. */
  lemma {:induction false} PointLinesDistinct(rows: seq<CrewRow>, system: map<int, int>, d: Directory, table: seq<AthleteScore>)
    requires multiset(table) == multiset(AthletePointsTable(rows, system, d))
    ensures forall p, q :: 0 <= p < q < |table| ==> table[p].athlete != table[q].athlete
  {
    var seats := PointSeats(rows, system, d);
    var heads := Firsts(seats, SeatAthlete);
    var t := AthletePointsTable(rows, system, d);
    FirstsFacts(seats, SeatAthlete);
    forall p, q | 0 <= p < q < |t| ensures ScoreAthlete(t[p]) != ScoreAthlete(t[q]) {
      assert SeatAthlete(heads[p]) != SeatAthlete(heads[q]);
    }
    PermutationDistinct(table, t, ScoreAthlete);
    assert forall p, q :: 0 <= p < q < |table| ==> ScoreAthlete(table[p]) != ScoreAthlete(table[q]);
  }

  /** A line of the points table: the athlete's info, its full credit, and a scoring crew it sits in. */
  lemma {:induction false} PointLineAt(rows: seq<CrewRow>, system: map<int, int>, d: Directory, table: seq<AthleteScore>, p: nat)
    requires multiset(table) == multiset(AthletePointsTable(rows, system, d)) && p < |table|
    ensures Lookup(d, table[p].athlete) == Some(table[p].info)
    ensures table[p].points == CrewCredit(rows, system, d, table[p].athlete)
    ensures InScoringCrew(rows, system, d, table[p].athlete)
  {
    var seats := PointSeats(rows, system, d);
    var heads := Firsts(seats, SeatAthlete);
    var t := AthletePointsTable(rows, system, d);
    assert table[p] in multiset(t);
    var q :| 0 <= q < |t| && t[q] == table[p];
    FirstsFacts(seats, SeatAthlete);
    PointSeatFrom(rows, system, d, heads[q]);
    PointSeatsTotal(rows, system, d, heads[q].athlete);
  }

  /** An athlete the lookup finds, sitting in a crew worth points, has a line. */
  lemma {:induction false} PointLineFor(rows: seq<CrewRow>, system: map<int, int>, d: Directory, table: seq<AthleteScore>, a: nat)
    requires multiset(table) == multiset(AthletePointsTable(rows, system, d))
    requires Lookup(d, a).Some? && InScoringCrew(rows, system, d, a)
    ensures ScoreListed(table, a)
  {
    var seats := PointSeats(rows, system, d);
    var heads := Firsts(seats, SeatAthlete);
    var t := AthletePointsTable(rows, system, d);
    FirstsFacts(seats, SeatAthlete);
    var k :| 0 <= k < |rows| && Points(system, rows[k].place) != 0 && a in Pick(d, rows[k].slots);
    PointSeatCover(rows, system, d, k, a);
    var s :| s in seats && s.athlete == a;
    SeatHeadsGroup(seats, s);
    var q :| 0 <= q < |heads| && heads[q].athlete == a;
    assert t[q] in multiset(table);
    var p :| 0 <= p < |table| && table[p] == t[q];
  }

  /**
   * The individual points table, whatever the order of its ties: each
   * athlete once; an athlete is listed exactly when the lookup finds it and
   * it sits in a crew worth points; its info is what the lookup returns and
   * its points are the full value of every such boat, never a share.
   */
  lemma {:induction false} AthletePointLines(rows: seq<CrewRow>, system: map<int, int>, d: Directory, table: seq<AthleteScore>)
    requires multiset(table) == multiset(AthletePointsTable(rows, system, d))
    ensures forall p, q :: 0 <= p < q < |table| ==> table[p].athlete != table[q].athlete
    ensures forall p :: 0 <= p < |table| ==>
      Lookup(d, table[p].athlete) == Some(table[p].info) && table[p].points == CrewCredit(rows, system, d, table[p].athlete)
    ensures forall a :: ScoreListed(table, a) <==> Lookup(d, a).Some? && InScoringCrew(rows, system, d, a)
  {
    PointLinesDistinct(rows, system, d, table);
    forall p | 0 <= p < |table|
      ensures Lookup(d, table[p].athlete) == Some(table[p].info)
      ensures table[p].points == CrewCredit(rows, system, d, table[p].athlete)
      ensures InScoringCrew(rows, system, d, table[p].athlete)
    {
      PointLineAt(rows, system, d, table, p);
    }
    forall a | Lookup(d, a).Some? && InScoringCrew(rows, system, d, a) ensures ScoreListed(table, a) {
      PointLineFor(rows, system, d, table, a);
    }
  }

  /** No athlete heads two lines of the medal table. */
  lemma {:induction false} MedalLinesDistinct(rows: seq<CrewRow>, d: Directory, table: seq<AthleteMedals>)
    requires multiset(table) == multiset(AthleteMedalTable(rows, d))
    ensures forall p, q :: 0 <= p < q < |table| ==> table[p].athlete != table[q].athlete
  {
    var seats := MedalSeats(rows, d);
    var heads := Firsts(seats, SeatAthlete);
    var t := AthleteMedalTable(rows, d);
    FirstsFacts(seats, SeatAthlete);
    forall p, q | 0 <= p < q < |t| ensures MedalsAthlete(t[p]) != MedalsAthlete(t[q]) {
      assert SeatAthlete(heads[p]) != SeatAthlete(heads[q]);
    }
    PermutationDistinct(table, t, MedalsAthlete);
    assert forall p, q :: 0 <= p < q < |table| ==> MedalsAthlete(table[p]) != MedalsAthlete(table[q]);
  }

  /** A line of the medal table: the athlete's info, one medal per podium boat, and a crew it sits in. */
  lemma {:induction false} MedalLineAt(rows: seq<CrewRow>, d: Directory, table: seq<AthleteMedals>, p: nat)
    requires multiset(table) == multiset(AthleteMedalTable(rows, d)) && p < |table|
    ensures Lookup(d, table[p].athlete) == Some(table[p].info)
    ensures table[p].gold == PlaceCount(rows, d, table[p].athlete, 1)
    ensures table[p].silver == PlaceCount(rows, d, table[p].athlete, 2)
    ensures table[p].bronze == PlaceCount(rows, d, table[p].athlete, 3)
    ensures InSomeCrew(rows, d, table[p].athlete)
  {
    var seats := MedalSeats(rows, d);
    var heads := Firsts(seats, SeatAthlete);
    var t := AthleteMedalTable(rows, d);
    assert table[p] in multiset(t);
    var q :| 0 <= q < |t| && t[q] == table[p];
    FirstsFacts(seats, SeatAthlete);
    var a := heads[q].athlete;
    MedalSeatFrom(rows, d, heads[q]);
    MedalSeatsTotal(rows, d, a, 1, SeatGold);
    MedalSeatsTotal(rows, d, a, 2, SeatSilver);
    MedalSeatsTotal(rows, d, a, 3, SeatBronze);
  }

  /** An athlete the lookup finds, sitting in some podium crew, has a line. */
  lemma {:induction false} MedalLineFor(rows: seq<CrewRow>, d: Directory, table: seq<AthleteMedals>, a: nat)
    requires multiset(table) == multiset(AthleteMedalTable(rows, d))
    requires Lookup(d, a).Some? && InSomeCrew(rows, d, a)
    ensures MedalsListed(table, a)
  {
    var seats := MedalSeats(rows, d);
    var heads := Firsts(seats, SeatAthlete);
    var t := AthleteMedalTable(rows, d);
    FirstsFacts(seats, SeatAthlete);
    var k :| 0 <= k < |rows| && a in Pick(d, rows[k].slots);
    MedalSeatCover(rows, d, k, a);
    var s :| s in seats && s.athlete == a;
    SeatHeadsGroup(seats, s);
    var q :| 0 <= q < |heads| && heads[q].athlete == a;
    assert t[q] in multiset(table);
    var p :| 0 <= p < |table| && table[p] == t[q];
  }

  /**
   * The individual medal table: each athlete once; listed exactly when the
   * lookup finds it and it sits in some podium crew; every crew member gets
   * one medal of the boat's place.
   */
  lemma {:induction false} AthleteMedalLinesAreCounts(rows: seq<CrewRow>, d: Directory, table: seq<AthleteMedals>)
    requires multiset(table) == multiset(AthleteMedalTable(rows, d))
    ensures forall p, q :: 0 <= p < q < |table| ==> table[p].athlete != table[q].athlete
    ensures forall p :: 0 <= p < |table| ==>
      && Lookup(d, table[p].athlete) == Some(table[p].info)
      && table[p].gold == PlaceCount(rows, d, table[p].athlete, 1)
      && table[p].silver == PlaceCount(rows, d, table[p].athlete, 2)
      && table[p].bronze == PlaceCount(rows, d, table[p].athlete, 3)
    ensures forall a :: MedalsListed(table, a) <==> Lookup(d, a).Some? && InSomeCrew(rows, d, a)
  {
    MedalLinesDistinct(rows, d, table);
    forall p | 0 <= p < |table|
      ensures Lookup(d, table[p].athlete) == Some(table[p].info)
      ensures table[p].gold == PlaceCount(rows, d, table[p].athlete, 1)
      ensures table[p].silver == PlaceCount(rows, d, table[p].athlete, 2)
      ensures table[p].bronze == PlaceCount(rows, d, table[p].athlete, 3)
      ensures InSomeCrew(rows, d, table[p].athlete)
    {
      MedalLineAt(rows, d, table, p);
    }
    forall a | Lookup(d, a).Some? && InSomeCrew(rows, d, a) ensures MedalsListed(table, a) {
      MedalLineFor(rows, d, table, a);
    }
  }

  // ----------------------------------------------------- the two copies

  /** When every registration of the event is validated, the checked and unchecked queries return the same rows. */
  lemma {:induction false} CheckedAgreesWhenValidated(regs: seq<Registration>, validity: map<(nat, nat), bool>,
                                                      ev: nat, podiumOnly: bool)
    requires forall k :: 0 <= k < |regs| && regs[k].event == ev ==> Validated(validity, regs[k])
    ensures CrewRows(regs, validity, ev, podiumOnly, true) == CrewRows(regs, validity, ev, podiumOnly, false)
    decreases |regs|
  {
    if regs != [] {
      assert forall k :: 0 <= k < |regs| - 1 ==> regs[1..][k] == regs[k + 1];
      CheckedAgreesWhenValidated(regs[1..], validity, ev, podiumOnly);
    }
  }

  /** With no slot holding the id 0, `filter(None, ...)` and the `is not None` filter keep the same ids. */
  lemma {:induction false} PickAgrees(slots: seq<Option<nat>>)
    requires forall k :: 0 <= k < |slots| ==> slots[k] != Some(0)
    ensures Truthy(slots) == NotNull(slots)
    decreases |slots|
  {
    if slots != [] {
      assert forall k :: 0 <= k < |slots| - 1 ==> slots[1..][k] == slots[k + 1];
      PickAgrees(slots[1..]);
    }
  }
}
