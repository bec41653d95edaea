/**
 * The event standings of `database_maraton.py`: club points and club medals,
 * credited to the club of the boat's first athlete, and individual points
 * and medals, credited in full to every crew member. Each standing is the
 * result of a query (a function of the tables), a dictionary accumulation
 * (a method with a loop) and a final sort.
 */
module Standings {
  import opened Wrappers
  import opened Sorting
  import opened Grouping
  import opened Records

  /** `sistema_puntuacion.get(lugar, 0)`. */
  function Points(system: map<int, int>, place: int): int {
    if place in system then system[place] else 0
  }

  /** The validity flag of the category is present and set (`JOIN ... AND ece.es_valida = 1`). */
  predicate Validated(validity: map<(nat, nat), bool>, r: Registration) {
    (r.event, r.category) in validity && validity[(r.event, r.category)]
  }

  /** The place filter of the queries: any place, or only 1, 2 and 3 for the medal tables. */
  predicate PlaceCounts(rank: Option<nat>, podiumOnly: bool) {
    rank.Some? && (podiumOnly ==> 1 <= rank.value <= 3)
  }

  // ---------------------------------------------------------------- clubs

  /** A result row of the club queries. */
  datatype ClubRow = ClubRow(club: string, logo: Option<string>, place: nat)

  /** A line of the club points table. */
  datatype ClubScore = ClubScore(club: string, logo: Option<string>, points: int)

  /** A line of the club medal table. */
  datatype ClubMedals = ClubMedals(club: string, logo: Option<string>, gold: int, silver: int, bronze: int)

  /**
   * A registration reaches the club queries when it belongs to the event, is
   * 'Finalizado' with a counting place, its category is validated, and its
   * first athlete exists and belongs to an existing club.
   */
  predicate ClubEligible(r: Registration, athletes: map<nat, Athlete>, clubs: map<nat, Club>,
                         validity: map<(nat, nat), bool>, ev: nat, podiumOnly: bool)
  {
    && r.event == ev && r.status == Finalizado && PlaceCounts(r.rank, podiumOnly)
    && Validated(validity, r)
    && r.athlete1 in athletes && athletes[r.athlete1].club.Some? && athletes[r.athlete1].club.value in clubs
  }

  /** The rows of the club queries, in table order. */
  function ClubRows(regs: seq<Registration>, athletes: map<nat, Athlete>, clubs: map<nat, Club>,
                    validity: map<(nat, nat), bool>, ev: nat, podiumOnly: bool): (rows: seq<ClubRow>)
    ensures podiumOnly ==> forall k :: 0 <= k < |rows| ==> 1 <= rows[k].place <= 3
    decreases |regs|
  {
    if regs == [] then []
    else
      var r := regs[0];
      var rest := ClubRows(regs[1..], athletes, clubs, validity, ev, podiumOnly);
      if ClubEligible(r, athletes, clubs, validity, ev, podiumOnly) then
        var club := clubs[athletes[r.athlete1].club.value];
        [ClubRow(club.name, club.logo, r.rank.value)] + rest
      else rest
  }

  function ClubName(r: ClubRow): string { r.club }

  function RowPoints(system: map<int, int>): ClubRow -> int {
    (r: ClubRow) => Points(system, r.place)
  }

  function IsGold(r: ClubRow): int { if r.place == 1 then 1 else 0 }
  function IsSilver(r: ClubRow): int { if r.place == 2 then 1 else 0 }
  function IsBronze(r: ClubRow): int { if r.place == 3 then 1 else 0 }

  /**
   * The club points table before sorting: one line per club in order of
   * first appearance, with the logo of its first row and the points of all
   * its rows.
   */
  function ClubScores(heads: seq<ClubRow>, rows: seq<ClubRow>, system: map<int, int>): (t: seq<ClubScore>)
    ensures |t| == |heads|
    ensures forall p :: 0 <= p < |heads| ==>
      t[p] == ClubScore(heads[p].club, heads[p].logo, Total(rows, ClubName, heads[p].club, RowPoints(system)))
    decreases |heads|
  {
    if heads == [] then []
    else
      [ClubScore(heads[0].club, heads[0].logo, Total(rows, ClubName, heads[0].club, RowPoints(system)))]
      + ClubScores(heads[1..], rows, system)
  }

  function ClubPointsTable(rows: seq<ClubRow>, system: map<int, int>): seq<ClubScore> {
    ClubScores(Firsts(rows, ClubName), rows, system)
  }

  /** The club medal table before sorting. */
  function ClubMedalLines(heads: seq<ClubRow>, rows: seq<ClubRow>): (t: seq<ClubMedals>)
    ensures |t| == |heads|
    ensures forall p :: 0 <= p < |heads| ==>
      t[p] == ClubMedals(heads[p].club, heads[p].logo, Total(rows, ClubName, heads[p].club, IsGold),
                         Total(rows, ClubName, heads[p].club, IsSilver), Total(rows, ClubName, heads[p].club, IsBronze))
    decreases |heads|
  {
    if heads == [] then []
    else
      var c := heads[0].club;
      [ClubMedals(c, heads[0].logo, Total(rows, ClubName, c, IsGold), Total(rows, ClubName, c, IsSilver),
                  Total(rows, ClubName, c, IsBronze))]
      + ClubMedalLines(heads[1..], rows)
  }

  function ClubMedalTable(rows: seq<ClubRow>): seq<ClubMedals> {
    ClubMedalLines(Firsts(rows, ClubName), rows)
  }

  /** `key=lambda item: item[1]['puntos'], reverse=True`. */
  predicate MorePoints(a: ClubScore, b: ClubScore) { a.points >= b.points }

  /** `key=lambda item: (item[2], item[3], item[4]), reverse=True`: the medal triple, compared lexicographically. */
  predicate MoreMedals(a: ClubMedals, b: ClubMedals) {
    a.gold > b.gold || (a.gold == b.gold && (a.silver > b.silver || (a.silver == b.silver && a.bronze >= b.bronze)))
  }

  lemma {:induction false} ClubOrdersTotal()
    ensures TotalPreorder(MorePoints) && TotalPreorder(MoreMedals)
  {
  }

  function ClubLogo(r: ClubRow): Option<string> { r.logo }

  /** `calcular_puntuacion_clubes` after its query: sum the points per club, then sort. */
  method TallyClubPoints(rows: seq<ClubRow>, system: map<int, int>) returns (table: seq<ClubScore>)
    ensures multiset(table) == multiset(ClubPointsTable(rows, system))
    ensures SortedBy(table, MorePoints)
  {
    var names, logos, points := CountClubPoints(rows, system);
    ClubPointsRead(rows, system);
    var items := PointLines(names, logos, points);
    ClubOrdersTotal();
    SortBySorted(items, MorePoints);
    table := SortBy(items, MorePoints);
  }

  /** The loop of `calcular_puntuacion_clubes`: one dictionary entry per club, in first-seen order. */
  method CountClubPoints(rows: seq<ClubRow>, system: map<int, int>)
    returns (names: seq<string>, logos: map<string, Option<string>>, points: map<string, int>)
    ensures names == Keys(rows[..|rows|], ClubName)
    ensures logos == FirstMap(rows[..|rows|], ClubName, ClubLogo)
    ensures points == Tally(rows[..|rows|], ClubName, RowPoints(system))
  {
    points, logos, names := map[], map[], [];
    for i := 0 to |rows|
      invariant names == Keys(rows[..i], ClubName)
      invariant points == Tally(rows[..i], ClubName, RowPoints(system))
      invariant logos == FirstMap(rows[..i], ClubName, ClubLogo)
    {
      names, logos, points := CountClubPoint(rows, i, system, names, logos, points);
    }
  }

  /**
   * The body of the points loop for row `i`: open the club's entry at 0 if
   * it is new, then add the row's points. It takes the dictionaries of the
   * rows before `i` to those of the rows up to `i`.
   */
  method CountClubPoint(rows: seq<ClubRow>, i: nat, system: map<int, int>, names: seq<string>,
                        logos: map<string, Option<string>>, points: map<string, int>)
    returns (names': seq<string>, logos': map<string, Option<string>>, points': map<string, int>)
    requires i < |rows|
    requires names == Keys(rows[..i], ClubName)
    requires points == Tally(rows[..i], ClubName, RowPoints(system))
    requires logos == FirstMap(rows[..i], ClubName, ClubLogo)
    ensures names' == Keys(rows[..i + 1], ClubName)
    ensures points' == Tally(rows[..i + 1], ClubName, RowPoints(system))
    ensures logos' == FirstMap(rows[..i + 1], ClubName, ClubLogo)
  {
    PrefixSnoc(rows, i, ClubName, RowPoints(system), ClubLogo);
    var row := rows[i];
    names', logos', points' := names, logos, points;
    if row.club !in points' {
      points' := points'[row.club := 0];
      logos' := logos'[row.club := row.logo];
      names' := names' + [row.club];
    }
    ghost var ready := points';
    points' := points'[row.club := points'[row.club] + Points(system, row.place)];
    OpenThenAdd(points, ready, points', row.club, Points(system, row.place), true);
  }

  /** `puntuacion_por_club.items()`: the dictionary read out in key order. */
  function PointLines(names: seq<string>, logos: map<string, Option<string>>, points: map<string, int>): (t: seq<ClubScore>)
    requires KeySet(names) <= logos.Keys && KeySet(names) <= points.Keys
    ensures |t| == |names|
  {
    seq(|names|, p requires 0 <= p < |names| => ClubScore(names[p], logos[names[p]], points[names[p]]))
  }

  /** The dictionary of the points loop after all rows, read out, is the points table. */
  lemma {:induction false} ClubPointsRead(rows: seq<ClubRow>, system: map<int, int>)
    ensures var done := rows[..|rows|];
      && KeySet(Keys(done, ClubName)) == FirstMap(done, ClubName, ClubLogo).Keys
      && KeySet(Keys(done, ClubName)) == Tally(done, ClubName, RowPoints(system)).Keys
      && PointLines(Keys(done, ClubName), FirstMap(done, ClubName, ClubLogo), Tally(done, ClubName, RowPoints(system)))
         == ClubPointsTable(rows, system)
  {
    assert rows[..|rows|] == rows;
    TallyFacts(rows, ClubName, RowPoints(system));
    FirstMapFacts(rows, ClubName, ClubLogo);
  }

  /** `calcular_ranking_medallas` after its query: count the medals per club, then sort. */
  method TallyClubMedals(rows: seq<ClubRow>) returns (table: seq<ClubMedals>)
    ensures multiset(table) == multiset(ClubMedalTable(rows))
    ensures SortedBy(table, MoreMedals)
  {
    var names, logos, gold, silver, bronze := CountClubMedals(rows);
    ClubMedalsRead(rows);
    var items := MedalLines(names, logos, gold, silver, bronze);
    ClubOrdersTotal();
    SortBySorted(items, MoreMedals);
    table := SortBy(items, MoreMedals);
  }

  /** The loop of `calcular_ranking_medallas`: one dictionary entry per club, in first-seen order. */
  method CountClubMedals(rows: seq<ClubRow>)
    returns (names: seq<string>, logos: map<string, Option<string>>,
             gold: map<string, int>, silver: map<string, int>, bronze: map<string, int>)
    ensures names == Keys(rows[..|rows|], ClubName)
    ensures logos == FirstMap(rows[..|rows|], ClubName, ClubLogo)
    ensures gold == Tally(rows[..|rows|], ClubName, IsGold)
    ensures silver == Tally(rows[..|rows|], ClubName, IsSilver)
    ensures bronze == Tally(rows[..|rows|], ClubName, IsBronze)
  {
    gold, silver, bronze, logos, names := map[], map[], map[], map[], [];
    for i := 0 to |rows|
      invariant names == Keys(rows[..i], ClubName)
      invariant logos == FirstMap(rows[..i], ClubName, ClubLogo)
      invariant gold == Tally(rows[..i], ClubName, IsGold)
      invariant silver == Tally(rows[..i], ClubName, IsSilver)
      invariant bronze == Tally(rows[..i], ClubName, IsBronze)
    {
      ClubMedalDictStep(rows, i);
      names, logos, gold, silver, bronze := CountClubMedal(rows[i], names, logos, gold, silver, bronze);
    }
  }

  /** What the medal loop body needs to know about the dictionaries after row `i`. */
  lemma {:induction false} ClubMedalDictStep(rows: seq<ClubRow>, i: nat)
    requires i < |rows|
    ensures var done, c := rows[..i], rows[i].club;
      && Keys(rows[..i + 1], ClubName) == Grown(Keys(done, ClubName), c)
      && FirstMap(rows[..i + 1], ClubName, ClubLogo) ==
         (if c in FirstMap(done, ClubName, ClubLogo) then FirstMap(done, ClubName, ClubLogo)
          else FirstMap(done, ClubName, ClubLogo)[c := rows[i].logo])
      && Tally(rows[..i + 1], ClubName, IsGold) == Tally(done, ClubName, IsGold)[c := Get(Tally(done, ClubName, IsGold), c) + IsGold(rows[i])]
      && Tally(rows[..i + 1], ClubName, IsSilver) == Tally(done, ClubName, IsSilver)[c := Get(Tally(done, ClubName, IsSilver), c) + IsSilver(rows[i])]
      && Tally(rows[..i + 1], ClubName, IsBronze) == Tally(done, ClubName, IsBronze)[c := Get(Tally(done, ClubName, IsBronze), c) + IsBronze(rows[i])]
      && Tally(done, ClubName, IsGold).Keys == Tally(done, ClubName, IsSilver).Keys == Tally(done, ClubName, IsBronze).Keys
         == FirstMap(done, ClubName, ClubLogo).Keys == KeySet(Keys(done, ClubName))
  {
    PrefixSnoc(rows, i, ClubName, IsGold, ClubLogo);
    PrefixSnoc(rows, i, ClubName, IsSilver, ClubLogo);
    PrefixSnoc(rows, i, ClubName, IsBronze, ClubLogo);
  }

  /** The body of the medal loop: open the club's entry if it is new, then count the row's medal. */
  method CountClubMedal(row: ClubRow, names: seq<string>, logos: map<string, Option<string>>,
                        gold: map<string, int>, silver: map<string, int>, bronze: map<string, int>)
    returns (names': seq<string>, logos': map<string, Option<string>>,
             gold': map<string, int>, silver': map<string, int>, bronze': map<string, int>)
    requires gold.Keys == silver.Keys == bronze.Keys == logos.Keys == KeySet(names)
    ensures names' == Grown(names, row.club)
    ensures logos' == if row.club in logos then logos else logos[row.club := row.logo]
    ensures gold' == gold[row.club := Get(gold, row.club) + IsGold(row)]
    ensures silver' == silver[row.club := Get(silver, row.club) + IsSilver(row)]
    ensures bronze' == bronze[row.club := Get(bronze, row.club) + IsBronze(row)]
  {
    var c := row.club;
    names', logos', gold', silver', bronze' := names, logos, gold, silver, bronze;
    if c !in gold' {
      gold', silver', bronze' := gold'[c := 0], silver'[c := 0], bronze'[c := 0];
      logos' := logos'[c := row.logo];
      names' := names' + [c];
    }
    ghost var gold1, silver1, bronze1 := gold', silver', bronze';
    if row.place == 1 {
      gold' := gold'[c := gold'[c] + 1];
    } else if row.place == 2 {
      silver' := silver'[c := silver'[c] + 1];
    } else if row.place == 3 {
      bronze' := bronze'[c := bronze'[c] + 1];
    }
    OpenThenAdd(gold, gold1, gold', c, IsGold(row), row.place == 1);
    OpenThenAdd(silver, silver1, silver', c, IsSilver(row), row.place == 2);
    OpenThenAdd(bronze, bronze1, bronze', c, IsBronze(row), row.place == 3);
  }

  /** `medallas_por_club.items()`: the dictionary read out in key order. */
  function MedalLines(names: seq<string>, logos: map<string, Option<string>>,
                      gold: map<string, int>, silver: map<string, int>, bronze: map<string, int>): (t: seq<ClubMedals>)
    requires KeySet(names) <= logos.Keys && KeySet(names) <= gold.Keys
    requires KeySet(names) <= silver.Keys && KeySet(names) <= bronze.Keys
    ensures |t| == |names|
  {
    seq(|names|, p requires 0 <= p < |names| =>
      ClubMedals(names[p], logos[names[p]], gold[names[p]], silver[names[p]], bronze[names[p]]))
  }

  /** The dictionary of the medal loop after all rows, read out, is the medal table. */
  lemma {:induction false} ClubMedalsRead(rows: seq<ClubRow>)
    ensures var done := rows[..|rows|];
      && KeySet(Keys(done, ClubName)) == FirstMap(done, ClubName, ClubLogo).Keys
      && KeySet(Keys(done, ClubName)) == Tally(done, ClubName, IsGold).Keys
      && KeySet(Keys(done, ClubName)) == Tally(done, ClubName, IsSilver).Keys
      && KeySet(Keys(done, ClubName)) == Tally(done, ClubName, IsBronze).Keys
      && MedalLines(Keys(done, ClubName), FirstMap(done, ClubName, ClubLogo), Tally(done, ClubName, IsGold),
                    Tally(done, ClubName, IsSilver), Tally(done, ClubName, IsBronze))
         == ClubMedalTable(rows)
  {
    assert rows[..|rows|] == rows;
    FirstMapFacts(rows, ClubName, ClubLogo);
    TallyFacts(rows, ClubName, IsGold);
    TallyFacts(rows, ClubName, IsSilver);
    TallyFacts(rows, ClubName, IsBronze);
  }

  // -------------------------------------------------------- club lemmas

  function ScoreClub(e: ClubScore): string { e.club }
  function MedalsClub(e: ClubMedals): string { e.club }

  /** The clubs of the unsorted table are its group heads' clubs. */
  lemma {:induction false} ClubHeads(rows: seq<ClubRow>, system: map<int, int>)
    ensures DistinctBy(ClubPointsTable(rows, system), ScoreClub)
    ensures DistinctBy(ClubMedalTable(rows), MedalsClub)
  {
    var heads := Firsts(rows, ClubName);
    FirstsFacts(rows, ClubName);
    var t, m := ClubPointsTable(rows, system), ClubMedalTable(rows);
    forall p, q | 0 <= p < q < |t| ensures ScoreClub(t[p]) != ScoreClub(t[q]) {
      assert ClubName(heads[p]) != ClubName(heads[q]);
    }
    forall p, q | 0 <= p < q < |m| ensures MedalsClub(m[p]) != MedalsClub(m[q]) {
      assert ClubName(heads[p]) != ClubName(heads[q]);
    }
  }

  /** Each club appears at most once in the sorted points table. */
  lemma {:induction false} ClubsListedOnce(rows: seq<ClubRow>, system: map<int, int>, table: seq<ClubScore>)
    requires multiset(table) == multiset(ClubPointsTable(rows, system))
    ensures forall p, q :: 0 <= p < q < |table| ==> table[p].club != table[q].club
  {
    ClubHeads(rows, system);
    PermutationDistinct(table, ClubPointsTable(rows, system), ScoreClub);
    assert forall p, q :: 0 <= p < q < |table| ==> ScoreClub(table[p]) != ScoreClub(table[q]);
  }

  /** Every club with a counting row is listed, even when its points are 0. */
  lemma {:induction false} ClubsAllListed(rows: seq<ClubRow>, system: map<int, int>, table: seq<ClubScore>)
    requires multiset(table) == multiset(ClubPointsTable(rows, system))
    ensures forall k :: 0 <= k < |rows| ==> exists p :: 0 <= p < |table| && table[p].club == rows[k].club
  {
    var heads := Firsts(rows, ClubName);
    var t := ClubPointsTable(rows, system);
    FirstsFacts(rows, ClubName);
    forall k | 0 <= k < |rows| ensures exists p :: 0 <= p < |table| && table[p].club == rows[k].club {
      assert HasKey(heads, ClubName, ClubName(rows[k]));
      var y :| y in heads && ClubName(y) == rows[k].club;
      var p :| 0 <= p < |heads| && heads[p] == y;
      assert t[p] in multiset(table);
      var q :| 0 <= q < |table| && table[q] == t[p];
    }
  }

  ghost predicate ClubLineIsTotal(rows: seq<ClubRow>, system: map<int, int>, e: ClubScore) {
    && e.points == Total(rows, ClubName, e.club, RowPoints(system))
    && exists j :: 0 <= j < |rows| && rows[j].club == e.club && rows[j].logo == e.logo &&
                   forall i :: 0 <= i < j ==> rows[i].club != e.club
  }

  /**
   * A listed club's points are the sum over its rows and its logo is that of
   * its first row; a listed club has at least one row.
   */
  lemma {:induction false} ClubLinesAreTotals(rows: seq<ClubRow>, system: map<int, int>, table: seq<ClubScore>)
    requires multiset(table) == multiset(ClubPointsTable(rows, system))
    ensures forall p :: 0 <= p < |table| ==> ClubLineIsTotal(rows, system, table[p])
  {
    var heads := Firsts(rows, ClubName);
    var t := ClubPointsTable(rows, system);
    forall p | 0 <= p < |table| ensures ClubLineIsTotal(rows, system, table[p]) {
      assert table[p] in multiset(t);
      var q :| 0 <= q < |t| && t[q] == table[p];
      FirstsAreEarliest(rows, ClubName, heads[q]);
    }
  }

  /** The medal table: each club once, and its counts are the podium places of its rows. */
  lemma {:induction false} ClubMedalLinesAreCounts(rows: seq<ClubRow>, table: seq<ClubMedals>)
    requires multiset(table) == multiset(ClubMedalTable(rows))
    ensures forall p, q :: 0 <= p < q < |table| ==> table[p].club != table[q].club
    ensures forall p :: 0 <= p < |table| ==>
      && table[p].gold == Total(rows, ClubName, table[p].club, IsGold)
      && table[p].silver == Total(rows, ClubName, table[p].club, IsSilver)
      && table[p].bronze == Total(rows, ClubName, table[p].club, IsBronze)
  {
    var t := ClubMedalTable(rows);
    ClubHeads(rows, map[]);
    PermutationDistinct(table, t, MedalsClub);
    assert forall p, q :: 0 <= p < q < |table| ==> MedalsClub(table[p]) != MedalsClub(table[q]);
    forall p | 0 <= p < |table|
      ensures && table[p].gold == Total(rows, ClubName, table[p].club, IsGold)
              && table[p].silver == Total(rows, ClubName, table[p].club, IsSilver)
              && table[p].bronze == Total(rows, ClubName, table[p].club, IsBronze)
    {
      assert table[p] in multiset(t);
    }
  }

  lemma {:induction false} ClubScoresSum(heads: seq<ClubRow>, rows: seq<ClubRow>, system: map<int, int>)
    ensures SumBy(ClubScores(heads, rows, system), (e: ClubScore) => e.points)
         == GroupSum(heads, rows, ClubName, RowPoints(system))
    decreases |heads|
  {
    if heads != [] {
      ClubScoresSum(heads[1..], rows, system);
    }
  }

  /**
   * Totals are sums: however the ties are ordered, the points of the sorted
   * club table add up to the points of all counting rows.
   */
  lemma {:induction false} ClubPointsConserved(rows: seq<ClubRow>, system: map<int, int>, table: seq<ClubScore>)
    requires multiset(table) == multiset(ClubPointsTable(rows, system))
    ensures SumBy(table, (e: ClubScore) => e.points) == SumBy(rows, RowPoints(system))
  {
    SumByPermutation(table, ClubPointsTable(rows, system), (e: ClubScore) => e.points);
    ClubScoresSum(Firsts(rows, ClubName), rows, system);
    TotalsAddUp(rows, ClubName, RowPoints(system));
  }

  lemma {:induction false} ClubMedalLinesSum(heads: seq<ClubRow>, rows: seq<ClubRow>)
    ensures SumBy(ClubMedalLines(heads, rows), (e: ClubMedals) => e.gold) == GroupSum(heads, rows, ClubName, IsGold)
    ensures SumBy(ClubMedalLines(heads, rows), (e: ClubMedals) => e.silver) == GroupSum(heads, rows, ClubName, IsSilver)
    ensures SumBy(ClubMedalLines(heads, rows), (e: ClubMedals) => e.bronze) == GroupSum(heads, rows, ClubName, IsBronze)
    decreases |heads|
  {
    if heads != [] {
      ClubMedalLinesSum(heads[1..], rows);
    }
  }

  lemma {:induction false} PodiumRowsCount(rows: seq<ClubRow>)
    requires forall k :: 0 <= k < |rows| ==> 1 <= rows[k].place <= 3
    ensures SumBy(rows, IsGold) + SumBy(rows, IsSilver) + SumBy(rows, IsBronze) == |rows|
    decreases |rows|
  {
    if rows != [] {
      PodiumRowsCount(rows[1..]);
    }
  }

  /** Medal counts add up: the medals of the table number exactly the podium rows. */
  lemma {:induction false} ClubMedalsConserved(rows: seq<ClubRow>, table: seq<ClubMedals>)
    requires forall k :: 0 <= k < |rows| ==> 1 <= rows[k].place <= 3
    requires multiset(table) == multiset(ClubMedalTable(rows))
    ensures SumBy(table, (e: ClubMedals) => e.gold) == SumBy(rows, IsGold)
    ensures SumBy(table, (e: ClubMedals) => e.silver) == SumBy(rows, IsSilver)
    ensures SumBy(table, (e: ClubMedals) => e.bronze) == SumBy(rows, IsBronze)
    ensures SumBy(table, (e: ClubMedals) => e.gold) + SumBy(table, (e: ClubMedals) => e.silver)
          + SumBy(table, (e: ClubMedals) => e.bronze) == |rows|
  {
    var t := ClubMedalTable(rows);
    SumByPermutation(table, t, (e: ClubMedals) => e.gold);
    SumByPermutation(table, t, (e: ClubMedals) => e.silver);
    SumByPermutation(table, t, (e: ClubMedals) => e.bronze);
    ClubMedalLinesSum(Firsts(rows, ClubName), rows);
    TotalsAddUp(rows, ClubName, IsGold);
    TotalsAddUp(rows, ClubName, IsSilver);
    TotalsAddUp(rows, ClubName, IsBronze);
    PodiumRowsCount(rows);
  }

  /** Only the first athlete counts for the club tables: slots 2..4 never affect them. */
  lemma {:induction false} ClubRowsIgnoreCrew(a: seq<Registration>, b: seq<Registration>,
                                              athletes: map<nat, Athlete>, clubs: map<nat, Club>,
                                              validity: map<(nat, nat), bool>, ev: nat, podiumOnly: bool)
    requires |a| == |b|
    requires forall k :: 0 <= k < |a| ==>
      a[k].(athlete2 := None, athlete3 := None, athlete4 := None) == b[k].(athlete2 := None, athlete3 := None, athlete4 := None)
    ensures ClubRows(a, athletes, clubs, validity, ev, podiumOnly) == ClubRows(b, athletes, clubs, validity, ev, podiumOnly)
    decreases |a|
  {
    if a != [] {
      var x, y := a[0], b[0];
      assert x.(athlete2 := None, athlete3 := None, athlete4 := None).athlete1 == x.athlete1;
      assert y.(athlete2 := None, athlete3 := None, athlete4 := None).athlete1 == y.athlete1;
      assert x.(athlete2 := None, athlete3 := None, athlete4 := None).rank == x.rank;
      assert y.(athlete2 := None, athlete3 := None, athlete4 := None).rank == y.rank;
      assert x.(athlete2 := None, athlete3 := None, athlete4 := None).status == x.status;
      assert y.(athlete2 := None, athlete3 := None, athlete4 := None).status == y.status;
      assert x.(athlete2 := None, athlete3 := None, athlete4 := None).event == x.event;
      assert y.(athlete2 := None, athlete3 := None, athlete4 := None).event == y.event;
      assert x.(athlete2 := None, athlete3 := None, athlete4 := None).category == x.category;
      assert y.(athlete2 := None, athlete3 := None, athlete4 := None).category == y.category;
      ClubRowsIgnoreCrew(a[1..], b[1..], athletes, clubs, validity, ev, podiumOnly);
    }
  }

  /** The club query over two runs of registrations is the query over each, in order. */
  lemma {:induction false} ClubRowsAppend(a: seq<Registration>, b: seq<Registration>, athletes: map<nat, Athlete>,
                                          clubs: map<nat, Club>, validity: map<(nat, nat), bool>, ev: nat, podiumOnly: bool)
    ensures ClubRows(a + b, athletes, clubs, validity, ev, podiumOnly) ==
      ClubRows(a, athletes, clubs, validity, ev, podiumOnly) + ClubRows(b, athletes, clubs, validity, ev, podiumOnly)
    decreases |a|
  {
    if a != [] {
      assert (a + b)[0] == a[0] && (a + b)[1..] == a[1..] + b;
      ClubRowsAppend(a[1..], b, athletes, clubs, validity, ev, podiumOnly);
    } else {
      assert a + b == b;
    }
  }

  /**
   * A boat whose category has no flag, or has the flag cleared, contributes
   * nothing to any club table, wherever it stands among the other boats.
   */
  lemma {:induction false} ClubRowsSkipUnvalidated(a: seq<Registration>, r: Registration, b: seq<Registration>,
                                                   athletes: map<nat, Athlete>, clubs: map<nat, Club>,
                                                   validity: map<(nat, nat), bool>, ev: nat, podiumOnly: bool)
    requires !Validated(validity, r)
    ensures ClubRows(a + [r] + b, athletes, clubs, validity, ev, podiumOnly) ==
      ClubRows(a + b, athletes, clubs, validity, ev, podiumOnly)
  {
    ClubRowsAppend(a + [r], b, athletes, clubs, validity, ev, podiumOnly);
    ClubRowsAppend(a, [r], athletes, clubs, validity, ev, podiumOnly);
    ClubRowsAppend(a, b, athletes, clubs, validity, ev, podiumOnly);
    assert ClubRows([r], athletes, clubs, validity, ev, podiumOnly) == [] by {
      assert [r][1..] == [];
    }
  }
}
