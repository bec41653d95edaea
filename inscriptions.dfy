/**
 * The registrations screen (`inscripciones_ui.py`): the age check that
 * colours a boat whose crew does not fit the category, the edit of a bib
 * number, the checks before a boat is entered, and the padding of the
 * exported CSV rows. Dialogs and widgets become parameters: the value a
 * spin box or dialog returned, `None` when it was cancelled or empty.
 */
module Inscriptions {
  import opened Wrappers
  import opened Text
  import opened Records
  import opened Ranking
  import opened Store
  import Importer

  // ---------------------------------------------------------------------
  // Dates as `strptime(s, "%Y-%m-%d")` reads them

  datatype Date = Date(year: nat, month: nat, day: nat)

  predicate Leap(y: nat) {
    y % 4 == 0 && (y % 100 != 0 || y % 400 == 0)
  }

  function DaysIn(y: nat, m: nat): (n: nat)
    requires 1 <= m <= 12
    ensures 28 <= n <= 31
  {
    if m == 2 then (if Leap(y) then 29 else 28)
    else if m == 4 || m == 6 || m == 9 || m == 11 then 30
    else 31
  }

  /** The dates `datetime.date` accepts. */
  predicate ValidDate(d: Date) {
    1 <= d.year <= 9999 && 1 <= d.month <= 12 && 1 <= d.day <= DaysIn(d.year, d.month)
  }

  /** `%m` (`1[0-2]|0[1-9]|[1-9]`) standing between the two dashes. */
  function MonthField(t: string): (r: Option<nat>)
    ensures r.Some? ==> 1 <= r.value <= 12
  {
    if 1 <= |t| <= 2 && AllDigits(t) && 1 <= DigitsValue(t) <= 12 then Some(DigitsValue(t)) else None
  }

  /**
   * `%d` (`3[01]|[12]\d|0[1-9]|[1-9]| [1-9]`) followed by the end of the
   * text: one or two digits from 1 to 31, or a space and a non-zero digit.
   */
  function DayField(t: string): (r: Option<nat>)
    ensures r.Some? ==> 1 <= r.value <= 31
  {
    if 1 <= |t| <= 2 && AllDigits(t) && 1 <= DigitsValue(t) <= 31 then Some(DigitsValue(t))
    else if |t| == 2 && t[0] == ' ' && '1' <= t[1] <= '9' then Some(DigitValue(t[1]))
    else None
  }

  /**
   * `datetime.strptime(s, "%Y-%m-%d")`: four digits, a dash, the month,
   * a dash and the day, with nothing left over, naming a real date.
   */
  function ParseDate(s: string): (r: Option<Date>)
    ensures r.Some? ==> ValidDate(r.value)
  {
    if |s| < 5 || !AllDigits(s[..4]) || s[4] != '-' then None
    else
      var rest := s[5..];
      var cut := if |rest| >= 2 && rest[1] == '-' then 1 else if |rest| >= 3 && rest[2] == '-' then 2 else 0;
      if cut == 0 then None
      else
        var m, d := MonthField(rest[..cut]), DayField(rest[cut + 1..]);
        if m.None? || d.None? then None
        else
          var date := Date(DigitsValue(s[..4]), m.value, d.value);
          if ValidDate(date) then Some(date) else None
  }

  /** `date.strftime("%Y-%m-%d")`, the form in which birth dates are stored. */
  function FormatDate(d: Date): string {
    ZeroPad(NatToString(d.year), 4) + "-" + ZeroPad(NatToString(d.month), 2) + "-" + ZeroPad(NatToString(d.day), 2)
  }

  lemma {:induction false} DateGlue(y: string, m: string, d: string)
    requires |y| == 4 && |m| == 2 && |d| == 2
    ensures var s := y + "-" + m + "-" + d;
      && |s| == 10 && s[..4] == y && s[4] == '-'
      && s[5..][..2] == m && s[5..][2] == '-' && s[5..][3..] == d
  {
    var s := y + "-" + m + "-" + d;
    assert s[..4] == y;
    assert s[5..][..2] == m;
    assert s[5..][3..] == d;
  }

  /** A text of the stored shape reads field by field. */
  lemma {:induction false} ParseGlued(y: string, m: string, d: string)
    requires |y| == 4 && AllDigits(y) && |m| == 2 && AllDigits(m) && |d| == 2
    ensures MonthField(m).Some? && DayField(d).Some? && ValidDate(Date(DigitsValue(y), MonthField(m).value, DayField(d).value))
      ==> ParseDate(y + "-" + m + "-" + d) == Some(Date(DigitsValue(y), MonthField(m).value, DayField(d).value))
  {
    DateGlue(y, m, d);
    var s := y + "-" + m + "-" + d;
    assert s[5..][1] == m[1] && IsDigit(m[1]);
  }

  lemma {:induction false} ParseFields(d: Date, y: string, m: string, dd: string)
    requires ValidDate(d)
    requires |y| == 4 && AllDigits(y) && DigitsValue(y) == d.year
    requires |m| == 2 && AllDigits(m) && DigitsValue(m) == d.month
    requires |dd| == 2 && AllDigits(dd) && DigitsValue(dd) == d.day
    ensures ParseDate(y + "-" + m + "-" + dd) == Some(d)
  {
    ParseGlued(y, m, dd);
  }

  lemma {:induction false} PaddedValue(n: nat, w: nat)
    requires |NatToString(n)| <= w
    ensures var t := ZeroPad(NatToString(n), w);
      |t| == w && AllDigits(t) && DigitsValue(t) == n
  {
    ZeroPadRoundTrip(n, w);
  }

  /** Every valid date reads back from its stored form. */
  lemma {:induction false} ParseFormat(d: Date)
    requires ValidDate(d)
    ensures ParseDate(FormatDate(d)) == Some(d)
  {
    assert d.day <= 31;
    NatToStringWidth(d.year);
    PaddedValue(d.year, 4);
    PaddedValue(d.month, 2);
    PaddedValue(d.day, 2);
    ParseFields(d, ZeroPad(NatToString(d.year), 4), ZeroPad(NatToString(d.month), 2), ZeroPad(NatToString(d.day), 2));
  }

  // ---------------------------------------------------------------------
  // The age check of `cargar_tabla_inscripciones`

  /** The calendar age: the year of the event minus the year of birth. */
  function CalendarAge(eventYear: int, birth: Date): int {
    eventYear - birth.year
  }

  /**
   * The athlete exists, has a birth date that reads as a date, and the
   * category has both bounds with the calendar age between them, inclusive.
   * A missing bound makes the comparison raise, which counts as a failure.
   */
  predicate AgeFits(p: nat, athletes: map<nat, Athlete>, eventYear: int, minAge: Option<int>, maxAge: Option<int>) {
    && p in athletes
    && athletes[p].birthDate.Some? && athletes[p].birthDate.value != ""
    && ParseDate(athletes[p].birthDate.value).Some?
    && minAge.Some? && maxAge.Some?
    && minAge.value <= CalendarAge(eventYear, ParseDate(athletes[p].birthDate.value).value) <= maxAge.value
  }

  /** `filter(None, ...)` over the athlete slots: the ids that are set and not 0, in slot order. */
  function Truthy(slots: seq<Option<nat>>): (ids: seq<nat>)
    ensures forall i :: 0 <= i < |ids| ==> ids[i] != 0 && Some(ids[i]) in slots
    ensures forall s :: s in slots && s.Some? && s.value != 0 ==> s.value in ids
    decreases |slots|
  {
    if slots == [] then []
    else
      var rest := Truthy(slots[1..]);
      assert forall s :: s in slots[1..] ==> s in slots;
      if slots[0].Some? && slots[0].value != 0 then [slots[0].value] + rest else rest
  }

  /** The crew of a boat, as the age check visits it. */
  function Crew(r: Registration): seq<nat> {
    Truthy(Slots(r))
  }

  predicate CrewFits(ids: seq<nat>, athletes: map<nat, Athlete>, eventYear: int, minAge: Option<int>, maxAge: Option<int>) {
    forall i :: 0 <= i < |ids| ==> AgeFits(ids[i], athletes, eventYear, minAge, maxAge)
  }

  /** The loop over the crew: it stops at the first athlete who does not fit. */
  method CheckCrew(ids: seq<nat>, athletes: map<nat, Athlete>, eventYear: int, minAge: Option<int>, maxAge: Option<int>)
    returns (ok: bool)
    ensures ok <==> CrewFits(ids, athletes, eventYear, minAge, maxAge)
  {
    ok := true;
    for i := 0 to |ids|
      invariant ok && forall j :: 0 <= j < i ==> AgeFits(ids[j], athletes, eventYear, minAge, maxAge)
    {
      var p := ids[i];
      if p !in athletes || athletes[p].birthDate.None? || athletes[p].birthDate.value == "" {
        return false;
      }
      var birth := ParseDate(athletes[p].birthDate.value);
      if birth.None? {
        return false;
      }
      var age := eventYear - birth.value.year;
      if minAge.None? || !(minAge.value <= age) || maxAge.None? || !(age <= maxAge.value) {
        return false;
      }
    }
  }

  /**
   * `cargar_tabla_inscripciones` after its guards: `group` is the boats of
   * the category in display order, `eventDate` the event's date (`None`
   * when the event or its date is missing). Nothing is shown when the
   * category is missing or the event date does not read; otherwise each
   * boat is marked exactly when its crew does not fit. Nothing is written.
   */
  method MarkIneligible(group: seq<Registration>, eventDate: Option<string>, category: Option<Category>,
                        athletes: map<nat, Athlete>)
    returns (marks: Option<seq<bool>>)
    ensures marks.None? <==> category.None? || eventDate.None? || ParseDate(eventDate.value).None?
    ensures marks.Some? ==> |marks.value| == |group|
    ensures marks.Some? ==>
      forall k :: 0 <= k < |group| ==>
        (marks.value[k] <==> !CrewFits(Crew(group[k]), athletes, ParseDate(eventDate.value).value.year,
                                        category.value.minAge, category.value.maxAge))
  {
    if category.None? || eventDate.None? {
      return None;
    }
    var date := ParseDate(eventDate.value);
    if date.None? {
      return None;
    }
    var year := date.value.year;
    var flags: seq<bool> := [];
    for k := 0 to |group|
      invariant |flags| == k
      invariant forall j :: 0 <= j < k ==>
        (flags[j] <==> !CrewFits(Crew(group[j]), athletes, year, category.value.minAge, category.value.maxAge))
    {
      var ok := CheckCrew(Crew(group[k]), athletes, year, category.value.minAge, category.value.maxAge);
      flags := flags + [!ok];
    }
    marks := Some(flags);
  }

  /**
   * A crew whose members share one birth date fits the bounds exactly when
   * that one age lies within them (an empty crew always fits).
   */
  lemma {:induction false} SameAgeCrewFits(ids: seq<nat>, athletes: map<nat, Athlete>, eventYear: int, minAge: int,
                                           maxAge: int, birth: string)
    requires ParseDate(birth).Some?
    requires forall i :: 0 <= i < |ids| ==> ids[i] in athletes && athletes[ids[i]].birthDate == Some(birth)
    ensures var age := CalendarAge(eventYear, ParseDate(birth).value);
      minAge <= age <= maxAge ==> CrewFits(ids, athletes, eventYear, Some(minAge), Some(maxAge))
    ensures var age := CalendarAge(eventYear, ParseDate(birth).value);
      ids != [] && CrewFits(ids, athletes, eventYear, Some(minAge), Some(maxAge)) ==> minAge <= age <= maxAge
  {
    assert birth != "";
    if ids != [] {
      assert AgeFits(ids[0], athletes, eventYear, Some(minAge), Some(maxAge)) ==>
        minAge <= CalendarAge(eventYear, ParseDate(birth).value) <= maxAge;
    }
  }

  /** Without both age bounds, no crewed boat fits; a boat with an empty crew always does. */
  lemma {:induction false} MissingBoundFails(ids: seq<nat>, athletes: map<nat, Athlete>, eventYear: int, minAge: Option<int>, maxAge: Option<int>)
    ensures ids == [] ==> CrewFits(ids, athletes, eventYear, minAge, maxAge)
    ensures ids != [] && (minAge.None? || maxAge.None?) ==> !CrewFits(ids, athletes, eventYear, minAge, maxAge)
  {
    if ids != [] && (minAge.None? || maxAge.None?) {
      assert !AgeFits(ids[0], athletes, eventYear, minAge, maxAge);
    }
  }

  // ---------------------------------------------------------------------
  // Editing a bib: `editar_numero_competidor`

  datatype BibEdit = NoSelection | Kept | InUse | Changed | Refused

  /** `excluir_inscripcion_id` is tested for truth: id 0 excludes nothing. */
  function Excluding(id: nat): Option<nat> {
    if id == 0 then None else Some(id)
  }

  /**
   * `selected` is the registration picked in the table (`None`, or an id
   * that reads as false, when there is none), `current` the bib shown for
   * it, `chosen` what the dialog returned (`None` when cancelled). Without
   * a selection only a warning is shown; an unchanged number does nothing;
   * a number another boat of the group carries is refused before anything
   * is written; otherwise the store updates the bib.
   */
  method EditBib(db: Store, ev: nat, cat: nat, selected: Option<nat>, current: int, chosen: Option<int>)
    returns (result: BibEdit)
    requires db.Valid()
    requires chosen.Some? ==> 1 <= chosen.value <= 9999
    modifies db
    ensures db.Valid()
    ensures result == NoSelection <==> selected.None? || selected.value == 0
    ensures result == Kept <==> selected.Some? && selected.value != 0 && (chosen.None? || chosen.value == current)
    ensures result == InUse <==>
      && selected.Some? && selected.value != 0 && chosen.Some? && chosen.value != current
      && BibInUse(old(db.registrations), ev, cat, chosen.value, Excluding(selected.value))
    ensures result == Changed ==> db.registrations == WithBib(old(db.registrations), selected.value, chosen.value)
    ensures result != Changed ==> db.registrations == old(db.registrations)
    ensures db.athletes == old(db.athletes) && db.clubs == old(db.clubs) && db.categories == old(db.categories)
    ensures db.validity == old(db.validity) && db.programme == old(db.programme) && db.nextId == old(db.nextId)
  {
    if selected.None? || selected.value == 0 {
      return NoSelection;
    }
    var id := selected.value;
    if chosen.None? || chosen.value == current {
      return Kept;
    }
    if BibInUse(db.registrations, ev, cat, chosen.value, Excluding(id)) {
      return InUse;
    }
    var ok := db.UpdateBib(id, chosen.value);
    result := if ok then Changed else Refused;
  }

  /**
   * For a boat of the group shown (id not 0), the screen's own check
   * already rules out what the store's UNIQUE constraint would refuse.
   */
  lemma {:induction false} EditNeverRefused(rows: seq<Registration>, ev: nat, cat: nat, id: nat, bib: int)
    requires id != 0 && FindById(rows, id).Some? && InGroup(rows[FindById(rows, id).value], ev, cat)
    requires !BibInUse(rows, ev, cat, bib, Excluding(id))
    ensures var r := rows[FindById(rows, id).value];
      !BibInUse(rows, r.event, r.category, bib, Some(id))
  {
  }

  /** After a change, the boat carries the new number and no other boat of its group does. */
  lemma {:induction false} ChangedBibIsOwn(rows: seq<Registration>, ev: nat, cat: nat, id: nat, bib: int)
    requires id != 0 && !BibInUse(rows, ev, cat, bib, Excluding(id))
    requires exists k :: 0 <= k < |rows| && rows[k].id == id && InGroup(rows[k], ev, cat)
    ensures BibInUse(WithBib(rows, id, bib), ev, cat, bib, None)
    ensures !BibInUse(WithBib(rows, id, bib), ev, cat, bib, Some(id))
  {
    var k :| 0 <= k < |rows| && rows[k].id == id && InGroup(rows[k], ev, cat);
    assert WithBib(rows, id, bib)[k].bib == bib && InGroup(WithBib(rows, id, bib)[k], ev, cat);
  }

  // ---------------------------------------------------------------------
  // Entering a boat: `guardar_inscripcion`

  datatype Entry = NoEvent | NoCategory | NoFirstAthlete | Entered(id: nat, message: string) | NotEntered(message: string)

  /**
   * An event, a category and athlete 1 must be chosen, in that order of
   * checks; athletes 2 to 4 are `None` when not chosen. The store then
   * inserts the boat, or reports the taken bib (also for an id that names
   * no row).
   */
  method Enter(db: Store, ev: Option<nat>, cat: Option<nat>, p1: Option<nat>, p2: Option<nat>, p3: Option<nat>,
               p4: Option<nat>, bib: int) returns (e: Entry)
    requires db.Valid() && 1 <= bib <= 9999
    modifies db
    ensures db.Valid()
    ensures ev.None? ==> e == NoEvent
    ensures ev.Some? && cat.None? ==> e == NoCategory
    ensures ev.Some? && cat.Some? && p1.None? ==> e == NoFirstAthlete
    ensures !e.Entered? ==> db.registrations == old(db.registrations) && db.nextId == old(db.nextId)
    ensures e.Entered? <==>
      && ev.Some? && cat.Some? && p1.Some? && !BibInUse(old(db.registrations), ev.value, cat.value, bib, None)
      && RefsKnown(db.categories, db.athletes, cat.value, p1.value, p2, p3, p4)
    ensures e.Entered? ==> e.id == old(db.nextId)
    ensures e.Entered? ==>
      db.registrations == old(db.registrations) + [NewRegistration(e.id, ev.value, cat.value, p1.value, p2, p3, p4, bib)]
    ensures e.NotEntered? ==> e.message == BibTakenMessage
    ensures db.athletes == old(db.athletes) && db.clubs == old(db.clubs) && db.categories == old(db.categories)
    ensures db.validity == old(db.validity) && db.programme == old(db.programme)
  {
    if ev.None? {
      return NoEvent;
    }
    if cat.None? {
      return NoCategory;
    }
    if p1.None? {
      return NoFirstAthlete;
    }
    var id, message := db.Register(ev.value, cat.value, p1.value, p2, p3, p4, bib);
    if id.Some? {
      e := Entered(id.value, message);
    } else {
      e := NotEntered(message);
    }
  }

  // ---------------------------------------------------------------------
  // Exporting: `exportar_inscripciones_csv`

  /** The 22 columns of the export. */
  const ExportHeaders: seq<string> := [
    "Codigo Categoria", "Numero Competidor",
    "Nombre Completo P1", "RUT P1", "Fecha Nacimiento P1", "Genero P1", "Club P1",
    "Nombre Completo P2", "RUT P2", "Fecha Nacimiento P2", "Genero P2", "Club P2",
    "Nombre Completo P3", "RUT P3", "Fecha Nacimiento P3", "Genero P3", "Club P3",
    "Nombre Completo P4", "RUT P4", "Fecha Nacimiento P4", "Genero P4", "Club P4"]

  /** A value of an exported row: NULL, an INTEGER or a TEXT. */
  datatype Value = Null | Int(i: int) | Str(s: string)

  /** `str(n)` for any integer. */
  function IntText(n: int): string {
    if n < 0 then "-" + NatToString(-n) else NatToString(n)
  }

  /** `str(item) if item is not None else ""`. */
  function Cell(v: Value): (c: string)
    ensures v.Null? ==> c == []
    ensures v.Str? ==> c == v.s
    ensures v.Int? && v.i >= 0 ==> ParseNat(c) == Some(v.i)
  {
    match v
    case Null => ""
    case Int(n) => IntText(n)
    case Str(s) => s
  }

  /**
   * One written row: the values as text, then empty cells up to the width
   * of the header; a longer row is written whole.
   */
  function ExportRow(row: seq<Value>): (cells: seq<string>)
    ensures |cells| == if |row| >= |ExportHeaders| then |row| else |ExportHeaders|
    ensures forall i :: 0 <= i < |row| ==> cells[i] == Cell(row[i])
    ensures forall i :: |row| <= i < |cells| ==> cells[i] == ""
  {
    var padded := row + seq(if |row| >= |ExportHeaders| then 0 else |ExportHeaders| - |row|, _ => Null);
    seq(|padded|, i requires 0 <= i < |padded| => Cell(padded[i]))
  }

  /** The export's header row carries every column the CSV import requires, the bib column included. */
  lemma {:induction false} ExportIsImportable()
    ensures forall h :: h in Importer.RequiredHeaders ==> h in ExportHeaders
    ensures Importer.BibHeader in ExportHeaders
  {
    assert ExportHeaders[0] == Importer.RequiredHeaders[0] && ExportHeaders[2] == Importer.RequiredHeaders[1];
    assert ExportHeaders[3] == Importer.RequiredHeaders[2] && ExportHeaders[1] == Importer.BibHeader;
  }
}
