/**
 * The standings as the reports ask the store for them, and the list of an
 * athlete's boats shown by the athlete manager
 * (`obtener_inscripciones_de_deportista`).
 */
module Reports {
  import opened Wrappers
  import opened Text
  import opened Sorting
  import opened Records
  import opened Standings
  import opened Individual
  import opened Store

  /** `calcular_puntuacion_clubes`: the club points table, best first. */
  method ClubPointStandings(db: Store, ev: nat, system: map<int, int>) returns (table: seq<ClubScore>)
    ensures multiset(table) ==
      multiset(ClubPointsTable(ClubRows(db.registrations, db.athletes, db.clubs, db.validity, ev, false), system))
    ensures SortedBy(table, MorePoints)
  {
    table := TallyClubPoints(ClubRows(db.registrations, db.athletes, db.clubs, db.validity, ev, false), system);
  }

  /** `calcular_ranking_medallas`: the club medal table, by gold, silver, bronze. */
  method ClubMedalStandings(db: Store, ev: nat) returns (table: seq<ClubMedals>)
    ensures multiset(table) ==
      multiset(ClubMedalTable(ClubRows(db.registrations, db.athletes, db.clubs, db.validity, ev, true)))
    ensures SortedBy(table, MoreMedals)
  {
    table := TallyClubMedals(ClubRows(db.registrations, db.athletes, db.clubs, db.validity, ev, true));
  }

  /** The lookup of the store's own copy: truthy slots, club logo fetched. */
  function StoreDirectory(db: Store): Directory
    reads db
  {
    Directory(db.athletes, db.clubs, true, true)
  }

  /** The lookup of the older copy: non-NULL slots, no logo. */
  function LegacyDirectory(db: Store): Directory
    reads db
  {
    Directory(db.athletes, db.clubs, false, false)
  }

  /** `calcular_puntuacion_deportistas` of the store: validated categories only. */
  method AthletePointStandings(db: Store, ev: nat, system: map<int, int>) returns (table: seq<AthleteScore>)
    ensures multiset(table) ==
      multiset(AthletePointsTable(CrewRows(db.registrations, db.validity, ev, false, true), system, StoreDirectory(db)))
    ensures SortedBy(table, MoreAthletePoints)
  {
    table := TallyAthletePoints(CrewRows(db.registrations, db.validity, ev, false, true), system, StoreDirectory(db));
  }

  /** `calcular_ranking_medallas_deportistas` of the store. */
  method AthleteMedalStandings(db: Store, ev: nat) returns (table: seq<AthleteMedals>)
    ensures multiset(table) ==
      multiset(AthleteMedalTable(CrewRows(db.registrations, db.validity, ev, true, true), StoreDirectory(db)))
    ensures SortedBy(table, MoreAthleteMedals)
  {
    table := TallyAthleteMedals(CrewRows(db.registrations, db.validity, ev, true, true), StoreDirectory(db));
  }

  /**
   * `calcular_puntuacion_deportistas` of the older copy: no validity filter.
   * Its connection helper returns a context manager, not a connection, so
   * as written every call raises at `conn.cursor()`; this follows the query
   * as if a connection were returned, and `storeFailed` stands for the
   * `if not conn` and `sqlite3.Error` branches, which give the empty list.
   */
  method LegacyAthletePointStandings(db: Store, ev: nat, system: map<int, int>, storeFailed: bool)
    returns (table: seq<AthleteScore>)
    ensures storeFailed ==> table == []
    ensures !storeFailed ==> (multiset(table) ==
      multiset(AthletePointsTable(CrewRows(db.registrations, db.validity, ev, false, false), system, LegacyDirectory(db))))
    ensures SortedBy(table, MoreAthletePoints)
  {
    if storeFailed {
      return [];
    }
    table := TallyAthletePoints(CrewRows(db.registrations, db.validity, ev, false, false), system, LegacyDirectory(db));
  }

  /** `calcular_ranking_medallas_deportistas` of the older copy, with the same connection caveat. */
  method LegacyAthleteMedalStandings(db: Store, ev: nat, storeFailed: bool) returns (table: seq<AthleteMedals>)
    ensures storeFailed ==> table == []
    ensures !storeFailed ==> (multiset(table) ==
      multiset(AthleteMedalTable(CrewRows(db.registrations, db.validity, ev, true, false), LegacyDirectory(db))))
    ensures SortedBy(table, MoreAthleteMedals)
  {
    if storeFailed {
      return [];
    }
    table := TallyAthleteMedals(CrewRows(db.registrations, db.validity, ev, true, false), LegacyDirectory(db));
  }

  // ------------------------------------------------------- an athlete's boats

  const SoloBoat: string := "Bote individual"

  /** One line of the athlete manager's list of boats. */
  datatype Entry = Entry(registration: nat, category: string, bib: int, companions: string)

  /** `p.nombre || ' ' || p.apellido`. */
  function FullName(a: Athlete): string {
    a.firstName + " " + a.lastName
  }

  /** `name` is the joined name of a found crew mate other than `a`. */
  predicate Mate(slots: seq<Option<nat>>, athletes: map<nat, Athlete>, a: nat, name: string) {
    exists x :: Some(x) in slots && x != a && x in athletes && name == FullName(athletes[x])
  }

  /**
   * The crew mates named on the line: every slot whose athlete row exists
   * and is not the athlete asked about, in slot order. The joined name always
   * holds the space, so it is never empty.
   */
  function Companions(slots: seq<Option<nat>>, athletes: map<nat, Athlete>, a: nat): (names: seq<string>)
    ensures forall i :: 0 <= i < |names| ==> Mate(slots, athletes, a, names[i])
    ensures forall x :: Some(x) in slots && x != a && x in athletes ==> FullName(athletes[x]) in names
    decreases |slots|
  {
    if slots == [] then []
    else
      assert slots == [slots[0]] + slots[1..];
      var o := slots[0];
      var rest := Companions(slots[1..], athletes, a);
      assert forall n :: Mate(slots[1..], athletes, a, n) ==> Mate(slots, athletes, a, n);
      (if o.Some? && o.value != a && o.value in athletes then [FullName(athletes[o.value])] else []) + rest
  }

  /** The crew mates joined with " / ", or "Bote individual" when there are none. */
  function CompanionText(names: seq<string>): string {
    if names == [] then SoloBoat else Join(names, " / ")
  }

  /** A registration is listed when it is of the event, names the athlete in a slot, and its category exists. */
  predicate Lists(r: Registration, categories: map<nat, Category>, ev: nat, a: nat) {
    r.event == ev && Some(a) in Slots(r) && r.category in categories
  }

  /** The line of a listed registration. */
  function EntryOf(r: Registration, athletes: map<nat, Athlete>, categories: map<nat, Category>, a: nat): Entry
    requires r.category in categories
  {
    Entry(r.id, categories[r.category].name, r.bib, CompanionText(Companions(Slots(r), athletes, a)))
  }

  /** `obtener_inscripciones_de_deportista`, in table order. */
  function AthleteEntries(regs: seq<Registration>, athletes: map<nat, Athlete>, categories: map<nat, Category>,
                          ev: nat, a: nat): seq<Entry>
    decreases |regs|
  {
    if regs == [] then []
    else
      var r := regs[0];
      var rest := AthleteEntries(regs[1..], athletes, categories, ev, a);
      if Lists(r, categories, ev, a) then [EntryOf(r, athletes, categories, a)] + rest else rest
  }

  /** Line `i` of the list is the line of a listed registration. */
  predicate FromListed(regs: seq<Registration>, athletes: map<nat, Athlete>, categories: map<nat, Category>,
                       ev: nat, a: nat, e: Entry)
  {
    exists k :: 0 <= k < |regs| && Lists(regs[k], categories, ev, a) && e == EntryOf(regs[k], athletes, categories, a)
  }

  /** Every line of the list is the line of a listed registration, and there are no more lines than registrations. */
  lemma {:induction false} EntriesAreListed(regs: seq<Registration>, athletes: map<nat, Athlete>,
                                            categories: map<nat, Category>, ev: nat, a: nat)
    ensures |AthleteEntries(regs, athletes, categories, ev, a)| <= |regs|
    ensures forall e :: e in AthleteEntries(regs, athletes, categories, ev, a) ==>
      FromListed(regs, athletes, categories, ev, a, e)
    decreases |regs|
  {
    if regs != [] {
      var tail := regs[1..];
      EntriesAreListed(tail, athletes, categories, ev, a);
      forall e | FromListed(tail, athletes, categories, ev, a, e) ensures FromListed(regs, athletes, categories, ev, a, e) {
        var k :| 0 <= k < |tail| && Lists(tail[k], categories, ev, a) && e == EntryOf(tail[k], athletes, categories, a);
        assert regs[k + 1] == tail[k];
      }
      if Lists(regs[0], categories, ev, a) {
        assert FromListed(regs, athletes, categories, ev, a, EntryOf(regs[0], athletes, categories, a));
      }
    }
  }

  /** Every listed registration has its line in the list. */
  lemma {:induction false} ListedAreEntries(regs: seq<Registration>, athletes: map<nat, Athlete>,
                                            categories: map<nat, Category>, ev: nat, a: nat, k: nat)
    requires k < |regs| && Lists(regs[k], categories, ev, a)
    ensures EntryOf(regs[k], athletes, categories, a) in AthleteEntries(regs, athletes, categories, ev, a)
    decreases |regs|
  {
    if k > 0 {
      assert regs[1..][k - 1] == regs[k];
      ListedAreEntries(regs[1..], athletes, categories, ev, a, k - 1);
    }
  }

  /** "Bote individual" exactly when no other athlete of the crew is found. */
  lemma {:induction false} SoloExactly(slots: seq<Option<nat>>, athletes: map<nat, Athlete>, a: nat)
    ensures Companions(slots, athletes, a) == [] <==> forall x :: Some(x) in slots && x in athletes ==> x == a
  {
    var names := Companions(slots, athletes, a);
    if names != [] {
      assert Mate(slots, athletes, a, names[0]);
    }
  }
}
