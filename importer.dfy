/**
 * The CSV importer (`importador_csv_ui.py`): the whole-file checks, the
 * per-row validation that turns one CSV row into one boat registration,
 * and the loop that imports every row and counts successes and failures.
 *
 * The two store lookups the importer relies on are parameters: `categoryOf`
 * stands for `obtener_categoria_por_codigo` and `personOf` for
 * `buscar_o_crear_participante`; `None` is "not found" or a raised error.
 */
module Importer {
  import opened Wrappers
  import opened Text
  import opened Records
  import opened Store

  /**
   * One CSV row as `csv.DictReader` yields it: the cells under the file's
   * header names, in column order, where a cell missing from a short row is
   * `None`; the cells of a long row beyond the header are filed under the
   * key `None`, which comes after every header (`rest`).
   */
  datatype RawRow = RawRow(cells: seq<(string, Option<string>)>, rest: Option<seq<string>>)

  /** One row after cleaning: stripped header to stripped value. */
  type Row = map<string, string>

  const CategoryHeader: string := "Codigo Categoria"
  const BibHeader: string := "Numero Competidor"
  const RequiredHeaders: seq<string> := [CategoryHeader, "Nombre Completo P1", "RUT P1"]

  /** What `strip` raises on `None`, a missing cell or the key of extra cells. */
  const NoneStripMessage: string := "'NoneType' object has no attribute 'strip'"
  const FatalPrefix: string := "No se pudo leer o procesar el archivo CSV.\nError: "
  const EmptyFileMessage: string := "El archivo CSV está vacío o no tiene un formato de tabla válido."
  const MissingHeadersPrefix: string := "Faltan las siguientes columnas obligatorias en el archivo CSV: "
  const NoCategoryMessage: string := "La columna 'Codigo Categoria' es obligatoria y no puede estar vacía."
  const NoParticipantMessage: string := "La inscripción no contiene ningún participante válido."

  function UnknownCategoryMessage(code: string): string {
    "La categoría con código '" + code + "' no fue encontrada en la base de datos. Por favor, créala primero."
  }

  function UnresolvedMessage(slot: nat, name: string): string {
    "No se pudo buscar o crear al participante " + NatToString(slot) + " (" + name + ")."
  }

  function BadBibMessage(text: string): string {
    "El 'Numero Competidor' ('" + text + "') no es un número válido."
  }

  // ---------------------------------------------------------------------
  // Cleaning and whole-file checks

  /** `fila.get(key)`. */
  function Get(row: Row, key: string): Option<string> {
    if key in row then Some(row[key]) else None
  }

  /** A value Python treats as true: present and not empty. */
  predicate Filled(v: Option<string>) {
    v.Some? && v.value != ""
  }

  /** A dictionary built from pairs in order: a later pair overwrites an earlier one with the same key. */
  function LastWins<K, V>(pairs: seq<(K, V)>): map<K, V>
    decreases |pairs|
  {
    if pairs == [] then map[] else LastWins(pairs[..|pairs| - 1])[pairs[|pairs| - 1].0 := pairs[|pairs| - 1].1]
  }

  /** No pair after pair i has its key. */
  predicate LastWithKey<K(==), V>(pairs: seq<(K, V)>, i: nat)
    requires i < |pairs|
  {
    forall j :: i < j < |pairs| ==> pairs[j].0 != pairs[i].0
  }

  lemma {:induction false} LastWinsHas<K, V>(pairs: seq<(K, V)>, i: nat)
    requires i < |pairs|
    ensures pairs[i].0 in LastWins(pairs)
    ensures LastWithKey(pairs, i) ==> LastWins(pairs)[pairs[i].0] == pairs[i].1
    decreases |pairs|
  {
    var n := |pairs| - 1;
    if i < n {
      var init := pairs[..n];
      assert init[i] == pairs[i];
      LastWinsHas(init, i);
      if LastWithKey(pairs, i) {
        forall j | i < j < n ensures init[j].0 != init[i].0 {
          assert init[j] == pairs[j];
        }
      }
    }
  }

  lemma {:induction false} LastWinsSource<K, V>(pairs: seq<(K, V)>, k: K) returns (i: nat)
    requires k in LastWins(pairs)
    ensures i < |pairs| && pairs[i].0 == k
    decreases |pairs|
  {
    var n := |pairs| - 1;
    if pairs[n].0 == k {
      i := n;
    } else {
      i := LastWinsSource(pairs[..n], k);
      assert pairs[..n][i] == pairs[i];
    }
  }

  /** A row with a missing cell or with extra cells: cleaning it raises. */
  predicate Ragged(raw: RawRow) {
    raw.rest.Some? || exists i :: 0 <= i < |raw.cells| && raw.cells[i].1.None?
  }

  /** Every header and value stripped. */
  function Stripped(cells: seq<(string, Option<string>)>): (pairs: seq<(string, string)>)
    requires forall i :: 0 <= i < |cells| ==> cells[i].1.Some?
    ensures |pairs| == |cells|
    ensures forall i :: 0 <= i < |cells| ==> pairs[i] == (Strip(cells[i].0), Strip(cells[i].1.value))
  {
    seq(|cells|, i requires 0 <= i < |cells| && cells[i].1.Some? => (Strip(cells[i].0), Strip(cells[i].1.value)))
  }

  /**
   * `{k.strip(): v.strip() for k, v in fila.items()}`: a ragged row makes
   * `strip` raise on `None`, any other row becomes its stripped dictionary.
   */
  function Clean(raw: RawRow): (r: Result<Row, string>)
    ensures r.Failure? <==> Ragged(raw)
    ensures r.Failure? ==> r.error == NoneStripMessage
  {
    if Ragged(raw) then Failure(NoneStripMessage) else Success(LastWins(Stripped(raw.cells)))
  }

  /**
   * Every stripped header is a key of the cleaned row, holding the stripped
   * value of the last column with that stripped header.
   */
  lemma {:induction false} CleanHas(raw: RawRow, i: nat)
    requires !Ragged(raw) && i < |raw.cells|
    ensures Clean(raw).Success? && Strip(raw.cells[i].0) in Clean(raw).value
    ensures (forall j :: i < j < |raw.cells| ==> Strip(raw.cells[j].0) != Strip(raw.cells[i].0)) ==>
      Clean(raw).value[Strip(raw.cells[i].0)] == Strip(raw.cells[i].1.value)
  {
    LastWinsHas(Stripped(raw.cells), i);
  }

  /** Every key of the cleaned row is the stripped header of some column. */
  lemma {:induction false} CleanSource(raw: RawRow, k: string) returns (i: nat)
    requires Clean(raw).Success? && k in Clean(raw).value
    ensures i < |raw.cells| && Strip(raw.cells[i].0) == k
  {
    i := LastWinsSource(Stripped(raw.cells), k);
  }

  /**
   * `[h.strip() for h in lector_csv[0].keys()]`: the stripped headers of
   * the first row; the `None` key of a long first row makes `strip` raise.
   */
  function Headers(first: RawRow): (r: Result<seq<string>, string>)
    ensures r.Failure? <==> first.rest.Some?
    ensures r.Failure? ==> r.error == NoneStripMessage
    ensures r.Success? ==>
      |r.value| == |first.cells| && forall i :: 0 <= i < |first.cells| ==> r.value[i] == Strip(first.cells[i].0)
  {
    if first.rest.Some? then Failure(NoneStripMessage)
    else Success(seq(|first.cells|, i requires 0 <= i < |first.cells| => Strip(first.cells[i].0)))
  }

  /** `[h for h in required_headers if h not in headers]`. */
  function MissingHeaders(headers: seq<string>): (m: seq<string>)
    ensures |m| <= |RequiredHeaders|
    ensures forall h :: h in m <==> h in RequiredHeaders && h !in headers
  {
    Absent(RequiredHeaders, headers)
  }

  function Absent(required: seq<string>, present: seq<string>): (m: seq<string>)
    ensures |m| <= |required|
    ensures forall h :: h in m <==> h in required && h !in present
    decreases |required|
  {
    if required == [] then []
    else (if required[0] in present then [] else [required[0]]) + Absent(required[1..], present)
  }

  /**
   * The checks made before any row is read: a file without rows, a long
   * first row, or a first row lacking a required header aborts the whole
   * import.
   */
  function CheckFile(file: seq<RawRow>): (r: Result<(), string>)
    ensures r.Success? <==> file != [] && file[0].rest.None? && MissingHeaders(Headers(file[0]).value) == []
    ensures file == [] ==> r == Failure(FatalPrefix + EmptyFileMessage)
    ensures file != [] && file[0].rest.Some? ==> r == Failure(FatalPrefix + NoneStripMessage)
    ensures file != [] && file[0].rest.None? && MissingHeaders(Headers(file[0]).value) != [] ==>
      r == Failure(FatalPrefix + MissingHeadersPrefix + Join(MissingHeaders(Headers(file[0]).value), ", "))
  {
    if file == [] then Failure(FatalPrefix + EmptyFileMessage)
    else match Headers(file[0])
      case Failure(e) => Failure(FatalPrefix + e)
      case Success(headers) =>
        var missing := MissingHeaders(headers);
        if missing != [] then Failure(FatalPrefix + MissingHeadersPrefix + Join(missing, ", "))
        else Success(())
  }

  /**
   * A file passes the checks iff it has a first row without extra cells
   * and every required header is the stripped name of one of its columns.
   */
  lemma {:induction false} CheckFileHeaders(file: seq<RawRow>)
    ensures CheckFile(file).Success? <==>
      && file != [] && file[0].rest.None?
      && forall h :: h in RequiredHeaders ==> exists i :: 0 <= i < |file[0].cells| && Strip(file[0].cells[i].0) == h
  {
    if file != [] && file[0].rest.None? {
      var headers := Headers(file[0]).value;
      if MissingHeaders(headers) != [] {
        var h := MissingHeaders(headers)[0];
        assert h in MissingHeaders(headers);
      } else {
        forall h | h in RequiredHeaders
          ensures exists i :: 0 <= i < |file[0].cells| && Strip(file[0].cells[i].0) == h
        {
          assert h in headers;
          var i :| 0 <= i < |headers| && headers[i] == h;
          assert Strip(file[0].cells[i].0) == h;
        }
      }
    }
  }

  // ---------------------------------------------------------------------
  // Participants

  /** What the importer passes to find-or-create for one participant. */
  datatype Person = Person(fullName: string, rut: string, birthDate: Option<string>, gender: Option<string>,
                           club: Option<string>)

  function Field(prefix: string, slot: nat): string {
    prefix + NatToString(slot)
  }

  /** Participant `slot` of the row, when both its full name and its RUT are given. */
  function SlotPerson(row: Row, slot: nat): Option<Person> {
    var name := Get(row, Field("Nombre Completo P", slot));
    var rut := Get(row, Field("RUT P", slot));
    if Filled(name) && Filled(rut) then
      Some(Person(name.value, rut.value, Get(row, Field("Fecha Nacimiento P", slot)),
                  Get(row, Field("Genero P", slot)), Get(row, Field("Club P", slot))))
    else None
  }

  /** A lookup answer the source accepts (`if participante_id`): found, and not 0. */
  predicate Resolved(id: Option<nat>) {
    id.Some? && id.value != 0
  }

  /**
   * The participant ids collected from slots 1..n in order, skipping the
   * slots without name and RUT; the first slot whose person cannot be
   * resolved fails the row.
   */
  function Collected(row: Row, personOf: Person -> Option<nat>, n: nat): Result<seq<nat>, string>
    requires n <= 4
  {
    if n == 0 then Success([])
    else match Collected(row, personOf, n - 1)
      case Failure(e) => Failure(e)
      case Success(ids) =>
        match SlotPerson(row, n)
        case None => Success(ids)
        case Some(p) =>
          if Resolved(personOf(p)) then Success(ids + [personOf(p).value])
          else Failure(UnresolvedMessage(n, p.fullName))
  }

  /** The slots among 1..n that name a participant, in order. */
  function Included(row: Row, n: nat): (slots: seq<nat>)
    ensures |slots| <= n
    ensures forall j :: 0 <= j < |slots| ==> 1 <= slots[j] <= n && SlotPerson(row, slots[j]).Some?
    ensures forall s :: 1 <= s <= n && SlotPerson(row, s).Some? ==> s in slots
  {
    if n == 0 then [] else Included(row, n - 1) + (if SlotPerson(row, n).Some? then [n] else [])
  }

  /** Every listed slot names a participant the lookup resolves. */
  predicate AllResolved(row: Row, personOf: Person -> Option<nat>, slots: seq<nat>) {
    forall j :: 0 <= j < |slots| ==> SlotPerson(row, slots[j]).Some? && Resolved(personOf(SlotPerson(row, slots[j]).value))
  }

  /** The ids the lookup gives for the listed slots, in order. */
  function IdsOf(row: Row, personOf: Person -> Option<nat>, slots: seq<nat>): (ids: seq<nat>)
    requires AllResolved(row, personOf, slots)
    ensures |ids| == |slots|
  {
    seq(|slots|, j requires 0 <= j < |slots| && AllResolved(row, personOf, slots) =>
      personOf(SlotPerson(row, slots[j]).value).value)
  }

  lemma {:induction false} ResolvedSnoc(row: Row, personOf: Person -> Option<nat>, slots: seq<nat>, s: nat)
    ensures AllResolved(row, personOf, slots + [s]) <==>
      AllResolved(row, personOf, slots) && SlotPerson(row, s).Some? && Resolved(personOf(SlotPerson(row, s).value))
    ensures AllResolved(row, personOf, slots + [s]) ==>
      IdsOf(row, personOf, slots + [s]) == IdsOf(row, personOf, slots) + [personOf(SlotPerson(row, s).value).value]
  {
    var t := slots + [s];
    assert t[|slots|] == s;
    assert forall j :: 0 <= j < |slots| ==> t[j] == slots[j];
  }

  /**
   * Compaction: the row is accepted iff every named participant resolves,
   * and then the k-th collected id is the id of the k-th named slot, so an
   * absent participant 1 moves participant 2 to the first position.
   */
  lemma {:induction false} Compaction(row: Row, personOf: Person -> Option<nat>, n: nat)
    requires n <= 4
    ensures Collected(row, personOf, n).Success? <==> AllResolved(row, personOf, Included(row, n))
    ensures Collected(row, personOf, n).Success? ==>
      Collected(row, personOf, n).value == IdsOf(row, personOf, Included(row, n))
  {
    if n > 0 {
      Compaction(row, personOf, n - 1);
      var prev := Included(row, n - 1);
      if SlotPerson(row, n).Some? {
        ResolvedSnoc(row, personOf, prev, n);
      }
    }
  }

  /** Participant 1 missing and participant 2 given: participant 2 takes the first slot. */
  lemma {:induction false} SecondMovesUp(row: Row, personOf: Person -> Option<nat>)
    requires SlotPerson(row, 1).None? && SlotPerson(row, 2).Some?
    requires Collected(row, personOf, 4).Success?
    ensures Resolved(personOf(SlotPerson(row, 2).value))
    ensures |Collected(row, personOf, 4).value| >= 1
    ensures Collected(row, personOf, 4).value[0] == personOf(SlotPerson(row, 2).value).value
  {
    Compaction(row, personOf, 4);
    assert Included(row, 2) == [2];
    assert Included(row, 4)[0] == 2;
  }

  /** A failure at slot n is the row's failure: later slots are not looked at. */
  lemma {:induction false} FailureSticks(row: Row, personOf: Person -> Option<nat>, n: nat, m: nat)
    requires n <= m <= 4 && Collected(row, personOf, n).Failure?
    ensures Collected(row, personOf, m) == Collected(row, personOf, n)
    decreases m
  {
    if m > n {
      FailureSticks(row, personOf, n, m - 1);
    }
  }

  /**
   * The ids the two lookups answer are rows of the store: the category is
   * read from it, and a participant is found in it or created in it before
   * the id is returned.
   */
  ghost predicate LookupsKnown(categories: map<nat, Category>, athletes: map<nat, Athlete>,
                         categoryOf: string -> Option<nat>, personOf: Person -> Option<nat>) {
    && (forall code :: Resolved(Answer(categoryOf, code)) ==> Answer(categoryOf, code).value in categories)
    && PersonsKnown(personOf, athletes)
  }

  ghost predicate PersonsKnown(personOf: Person -> Option<nat>, athletes: map<nat, Athlete>) {
    forall p :: Resolved(Answer(personOf, p)) ==> Answer(personOf, p).value in athletes
  }

  /**
   * What a lookup answers. The statements about every answer are phrased
   * with it, so that they are used only where a proof names an answer.
   */
  function Answer<T>(lookup: T -> Option<nat>, x: T): Option<nat> {
    lookup(x)
  }

  /** Every collected participant id names an athlete of the store. */
  lemma {:induction false} CollectedKnown(row: Row, personOf: Person -> Option<nat>, n: nat, athletes: map<nat, Athlete>)
    requires n <= 4 && PersonsKnown(personOf, athletes)
    requires Collected(row, personOf, n).Success?
    ensures forall j :: 0 <= j < |Collected(row, personOf, n).value| ==> Collected(row, personOf, n).value[j] in athletes
  {
    if n > 0 {
      CollectedKnown(row, personOf, n - 1, athletes);
      if SlotPerson(row, n).Some? {
        var p := SlotPerson(row, n).value;
        assert Answer(personOf, p) == personOf(p);
      }
    }
  }

  /** A known category and a crew of known athletes pass the store's foreign keys. */
  lemma {:induction false} CrewKnown(categories: map<nat, Category>, athletes: map<nat, Athlete>, cat: nat, crew: seq<nat>)
    requires cat in categories && crew != [] && forall j :: 0 <= j < |crew| ==> crew[j] in athletes
    ensures RefsKnown(categories, athletes, cat, crew[0], Slot(crew, 1), Slot(crew, 2), Slot(crew, 3))
  {
  }

  /** The loop over participants 1..4 of `procesar_fila`. */
  method CollectParticipants(row: Row, personOf: Person -> Option<nat>) returns (r: Result<seq<nat>, string>)
    ensures r == Collected(row, personOf, 4)
  {
    var ids: seq<nat> := [];
    for i := 1 to 5
      invariant Collected(row, personOf, i - 1) == Success(ids)
    {
      var name := Get(row, Field("Nombre Completo P", i));
      var rut := Get(row, Field("RUT P", i));
      if Filled(name) && Filled(rut) {
        var p := Person(name.value, rut.value, Get(row, Field("Fecha Nacimiento P", i)),
                        Get(row, Field("Genero P", i)), Get(row, Field("Club P", i)));
        var found := personOf(p);
        if Resolved(found) {
          ids := ids + [found.value];
        } else {
          FailureSticks(row, personOf, i, 4);
          return Failure(UnresolvedMessage(i, name.value));
        }
      }
    }
    return Success(ids);
  }

  // ---------------------------------------------------------------------
  // One row

  /** What a valid row asks to insert: the category, the compacted participants and the bib. */
  datatype Entry = Entry(category: nat, athletes: seq<nat>, bib: int)

  /** The optional slot `j` (0-based) of the compacted participants. */
  function Slot(ids: seq<nat>, j: nat): Option<nat> {
    if j < |ids| then Some(ids[j]) else None
  }

  /**
   * The validation of `procesar_fila`: category code present and known,
   * at least one participant, every named participant resolved, and a bib
   * that is either a number or absent (then the next free bib of the group).
   */
  function Plan(row: Row, ev: nat, regs: seq<Registration>, categoryOf: string -> Option<nat>,
                personOf: Person -> Option<nat>): (r: Result<Entry, string>)
    ensures !Filled(Get(row, CategoryHeader)) ==> r == Failure(NoCategoryMessage)
    ensures Filled(Get(row, CategoryHeader)) && !Resolved(categoryOf(row[CategoryHeader])) ==>
      r == Failure(UnknownCategoryMessage(row[CategoryHeader]))
    ensures r.Success? ==>
      && Resolved(categoryOf(row[CategoryHeader])) && r.value.category == categoryOf(row[CategoryHeader]).value
      && Collected(row, personOf, 4) == Success(r.value.athletes)
      && r.value.athletes != []
    ensures r.Success? && Filled(Get(row, BibHeader)) ==> ParseNat(row[BibHeader]) == Some(r.value.bib)
    ensures r.Success? && !Filled(Get(row, BibHeader)) ==> r.value.bib == NextBib(regs, ev, r.value.category)
  {
    var code := Get(row, CategoryHeader);
    if !Filled(code) then Failure(NoCategoryMessage)
    else if !Resolved(categoryOf(code.value)) then Failure(UnknownCategoryMessage(code.value))
    else
      var cat := categoryOf(code.value).value;
      match Collected(row, personOf, 4)
      case Failure(e) => Failure(e)
      case Success(ids) =>
        if ids == [] then Failure(NoParticipantMessage)
        else
          var bibText := Get(row, BibHeader);
          if Filled(bibText) then
            match ParseNat(bibText.value)
            case None => Failure(BadBibMessage(bibText.value))
            case Some(b) => Success(Entry(cat, ids, b))
          else Success(Entry(cat, ids, NextBib(regs, ev, cat)))
  }

  /** A valid row has between one and four participants. */
  lemma {:induction false} EntryHasCrew(row: Row, ev: nat, regs: seq<Registration>, categoryOf: string -> Option<nat>,
                     personOf: Person -> Option<nat>)
    requires Plan(row, ev, regs, categoryOf, personOf).Success?
    ensures 1 <= |Plan(row, ev, regs, categoryOf, personOf).value.athletes| <= 4
  {
    Compaction(row, personOf, 4);
  }

  /** The store after a row and what the row reports: the new registration id, or the error. */
  datatype Outcome = Outcome(result: Result<nat, string>, regs: seq<Registration>, nextId: nat)

  /**
   * One row against the registrations and the next id: an invalid row and
   * a bib already used in the group change nothing; a valid row is
   * appended with the next id.
   */
  function Applied(regs: seq<Registration>, nextId: nat, ev: nat, row: Row, categoryOf: string -> Option<nat>,
                   personOf: Person -> Option<nat>): (o: Outcome)
    ensures o.result.Failure? ==> o.regs == regs && o.nextId == nextId
    ensures o.result.Success? ==>
      o.result.value == nextId && o.nextId == nextId + 1 && |o.regs| == |regs| + 1 && o.regs[..|regs|] == regs
  {
    match Plan(row, ev, regs, categoryOf, personOf)
    case Failure(e) => Outcome(Failure(e), regs, nextId)
    case Success(en) =>
      if BibInUse(regs, ev, en.category, en.bib, None) then Outcome(Failure(BibTakenMessage), regs, nextId)
      else
        var ids := en.athletes;
        var added := NewRegistration(nextId, ev, en.category, ids[0], Slot(ids, 1), Slot(ids, 2), Slot(ids, 3), en.bib);
        assert (regs + [added])[..|regs|] == regs;
        Outcome(Success(nextId), regs + [added], nextId + 1)
  }

  /** "Error" does not occur in a text without the letter 'E'. */
  lemma {:induction false} NoCapitalE(s: string)
    requires forall i :: 0 <= i < |s| ==> s[i] != 'E'
    ensures !Contains(s, "Error")
    decreases |s|
  {
    if s != [] {
      assert s[0] != "Error"[0];
      NoCapitalE(s[1..]);
    }
  }

  /** The store's two answers to an insert: only the refusal reads as an error. */
  lemma {:induction false} InsertMessages()
    ensures Contains(BibTakenMessage, "Error")
    ensures !Contains(RegisteredMessage, "Error")
  {
    assert BibTakenMessage[..5] == "Error";
    assert forall i :: 0 <= i < |RegisteredMessage| ==> RegisteredMessage[i] != 'E';
    NoCapitalE(RegisteredMessage);
  }

  /**
   * `procesar_fila`: validate the row, then insert it; an insert whose
   * message contains "Error" fails the row.
   */
  method ProcessRow(db: Store, ev: nat, row: Row, categoryOf: string -> Option<nat>,
                    personOf: Person -> Option<nat>) returns (result: Result<nat, string>)
    requires db.Valid() && LookupsKnown(db.categories, db.athletes, categoryOf, personOf)
    modifies db
    ensures db.Valid()
    ensures var o := Applied(old(db.registrations), old(db.nextId), ev, row, categoryOf, personOf);
      result == o.result && db.registrations == o.regs && db.nextId == o.nextId
    ensures db.athletes == old(db.athletes) && db.clubs == old(db.clubs) && db.categories == old(db.categories)
    ensures db.validity == old(db.validity) && db.programme == old(db.programme)
  {
    var code := Get(row, CategoryHeader);
    if !Filled(code) {
      return Failure(NoCategoryMessage);
    }
    var cat := categoryOf(code.value);
    if !Resolved(cat) {
      return Failure(UnknownCategoryMessage(code.value));
    }
    var ids := CollectParticipants(row, personOf);
    if ids.Failure? {
      return Failure(ids.error);
    }
    if ids.value == [] {
      return Failure(NoParticipantMessage);
    }
    var bibText := Get(row, BibHeader);
    var bib: int;
    if Filled(bibText) {
      var parsed := ParseNat(bibText.value);
      if parsed.None? {
        return Failure(BadBibMessage(bibText.value));
      }
      bib := parsed.value;
    } else {
      bib := NextBib(db.registrations, ev, cat.value);
    }
    var crew := ids.value;
    assert Answer(categoryOf, code.value) == cat;
    CollectedKnown(row, personOf, 4, db.athletes);
    CrewKnown(db.categories, db.athletes, cat.value, crew);
    var id, message := db.Register(ev, cat.value, crew[0], Slot(crew, 1), Slot(crew, 2), Slot(crew, 3), bib);
    InsertMessages();
    if Contains(message, "Error") {
      return Failure(message);
    }
    return Success(id.value);
  }

  // ---------------------------------------------------------------------
  // The import loop

  /** The store and counters after importing some rows; failed rows are reported by file line (row index + 2). */
  datatype Progress = Progress(regs: seq<Registration>, nextId: nat, successes: nat, failedLines: seq<nat>)

  /** Import the rows in order, each against the store the earlier rows left. */
  function Run(regs: seq<Registration>, nextId: nat, ev: nat, rows: seq<Row>, categoryOf: string -> Option<nat>,
               personOf: Person -> Option<nat>): Progress
    decreases |rows|
  {
    if rows == [] then Progress(regs, nextId, 0, [])
    else
      var p := Run(regs, nextId, ev, rows[..|rows| - 1], categoryOf, personOf);
      var o := Applied(p.regs, p.nextId, ev, rows[|rows| - 1], categoryOf, personOf);
      if o.result.Success? then Progress(o.regs, o.nextId, p.successes + 1, p.failedLines)
      else Progress(o.regs, o.nextId, p.successes, p.failedLines + [|rows| + 1])
  }

  /**
   * Every row is either a success or a failure; only successes add
   * registrations, each at the end; failed lines are listed once each, in
   * order, between 2 and the last line of the file.
   */
  lemma {:induction false} RunCounts(regs: seq<Registration>, nextId: nat, ev: nat, rows: seq<Row>,
                                     categoryOf: string -> Option<nat>, personOf: Person -> Option<nat>)
    ensures var p := Run(regs, nextId, ev, rows, categoryOf, personOf);
      && p.successes + |p.failedLines| == |rows|
      && |p.regs| == |regs| + p.successes && p.regs[..|regs|] == regs
      && p.nextId == nextId + p.successes
      && (forall j :: 0 <= j < |p.failedLines| ==> 2 <= p.failedLines[j] <= |rows| + 1)
      && (forall i, j :: 0 <= i < j < |p.failedLines| ==> p.failedLines[i] < p.failedLines[j])
    decreases |rows|
  {
    if rows != [] {
      var init := rows[..|rows| - 1];
      RunCounts(regs, nextId, ev, init, categoryOf, personOf);
      var p := Run(regs, nextId, ev, init, categoryOf, personOf);
      var o := Applied(p.regs, p.nextId, ev, rows[|rows| - 1], categoryOf, personOf);
      assert o.regs[..|regs|] == regs by {
        if o.result.Success? {
          assert o.regs[..|p.regs|] == p.regs;
          assert o.regs[..|regs|] == o.regs[..|p.regs|][..|regs|];
        }
      }
    }
  }

  /** One more row: the progress over `rows + [row]` is `row` applied to the progress over `rows`. */
  lemma {:induction false} RunStep(regs: seq<Registration>, nextId: nat, ev: nat, rows: seq<Row>, row: Row,
                categoryOf: string -> Option<nat>, personOf: Person -> Option<nat>)
    ensures var p := Run(regs, nextId, ev, rows, categoryOf, personOf);
      var o := Applied(p.regs, p.nextId, ev, row, categoryOf, personOf);
      Run(regs, nextId, ev, rows + [row], categoryOf, personOf) ==
        if o.result.Success? then Progress(o.regs, o.nextId, p.successes + 1, p.failedLines)
        else Progress(o.regs, o.nextId, p.successes, p.failedLines + [|rows| + 2])
  {
    assert (rows + [row])[..|rows|] == rows;
  }

  /** The number of rows before the first ragged one: the rows the loop gets through. */
  function FirstRagged(file: seq<RawRow>): (k: nat)
    ensures k <= |file|
    ensures forall i :: 0 <= i < k ==> !Ragged(file[i])
    ensures k < |file| ==> Ragged(file[k])
    decreases |file|
  {
    if file == [] || Ragged(file[0]) then 0
    else
      var k := FirstRagged(file[1..]);
      assert forall i :: 1 <= i < k + 1 ==> file[i] == file[1..][i - 1];
      k + 1
  }

  /** The cleaned rows of a file without ragged rows. */
  function Cleaned(file: seq<RawRow>): (rows: seq<Row>)
    requires forall i :: 0 <= i < |file| ==> !Ragged(file[i])
    ensures |rows| == |file|
    ensures forall i :: 0 <= i < |file| ==> Clean(file[i]).Success? && rows[i] == Clean(file[i]).value
  {
    seq(|file|, i requires 0 <= i < |file| && !Ragged(file[i]) => Clean(file[i]).value)
  }

  lemma {:induction false} CleanedStep(file: seq<RawRow>, i: nat)
    requires i < |file| && forall j :: 0 <= j <= i ==> !Ragged(file[j])
    ensures Cleaned(file[..i + 1]) == Cleaned(file[..i]) + [Clean(file[i]).value]
  {
    assert file[..i + 1][..i] == file[..i];
  }

  /** One more row of the loop: row i, cleaned, applied to the progress over the rows before it. */
  lemma {:induction false} RunCleanedStep(regs: seq<Registration>, nextId: nat, ev: nat, file: seq<RawRow>, i: nat,
                                          categoryOf: string -> Option<nat>, personOf: Person -> Option<nat>)
    requires i < |file| && forall j :: 0 <= j <= i ==> !Ragged(file[j])
    ensures var p := Run(regs, nextId, ev, Cleaned(file[..i]), categoryOf, personOf);
      var o := Applied(p.regs, p.nextId, ev, Clean(file[i]).value, categoryOf, personOf);
      Run(regs, nextId, ev, Cleaned(file[..i + 1]), categoryOf, personOf) ==
        if o.result.Success? then Progress(o.regs, o.nextId, p.successes + 1, p.failedLines)
        else Progress(o.regs, o.nextId, p.successes, p.failedLines + [i + 2])
  {
    CleanedStep(file, i);
    RunStep(regs, nextId, ev, Cleaned(file[..i]), Clean(file[i]).value, categoryOf, personOf);
  }

  /** The summary shown at the end: rows processed, successes, failures and the failing lines. */
  datatype Summary = Summary(total: nat, successes: nat, failures: nat, failedLines: seq<nat>)

  /**
   * `iniciar_importacion`: check the file, then clean and process every
   * row, counting successes and failures; a failing row does not stop the
   * others. A ragged row makes the cleaning raise outside the per-row
   * `try`: the import stops with the fatal error, and the rows before it
   * stay registered.
   */
  method Import(db: Store, ev: nat, file: seq<RawRow>, categoryOf: string -> Option<nat>,
                personOf: Person -> Option<nat>) returns (summary: Result<Summary, string>)
    requires db.Valid() && LookupsKnown(db.categories, db.athletes, categoryOf, personOf)
    modifies db
    ensures db.Valid()
    ensures CheckFile(file).Failure? ==>
      summary == Failure(CheckFile(file).error)
      && db.registrations == old(db.registrations) && db.nextId == old(db.nextId)
    ensures CheckFile(file).Success? ==>
      var k := FirstRagged(file);
      var p := Run(old(db.registrations), old(db.nextId), ev, Cleaned(file[..k]), categoryOf, personOf);
      && db.registrations == p.regs && db.nextId == p.nextId
      && (k == |file| ==> summary == Success(Summary(|file|, p.successes, |p.failedLines|, p.failedLines)))
      && (k < |file| ==> summary == Failure(FatalPrefix + NoneStripMessage))
    ensures db.athletes == old(db.athletes) && db.clubs == old(db.clubs) && db.categories == old(db.categories)
    ensures db.validity == old(db.validity) && db.programme == old(db.programme)
  {
    var check := CheckFile(file);
    if check.Failure? {
      return Failure(check.error);
    }
    ghost var regs0, next0 := db.registrations, db.nextId;
    var successes, failures := 0, 0;
    var failedLines: seq<nat> := [];
    for i := 0 to |file|
      invariant i <= FirstRagged(file)
      invariant db.Valid()
      invariant var p := Run(regs0, next0, ev, Cleaned(file[..i]), categoryOf, personOf);
        && db.registrations == p.regs && db.nextId == p.nextId
        && successes == p.successes && failedLines == p.failedLines && failures == |failedLines|
      invariant db.athletes == old(db.athletes) && db.clubs == old(db.clubs) && db.categories == old(db.categories)
      invariant db.validity == old(db.validity) && db.programme == old(db.programme)
    {
      var row := Clean(file[i]);
      if row.Failure? {
        return Failure(FatalPrefix + row.error);
      }
      RunCleanedStep(regs0, next0, ev, file, i, categoryOf, personOf);
      var result := ProcessRow(db, ev, row.value, categoryOf, personOf);
      if result.Success? {
        successes := successes + 1;
      } else {
        failures := failures + 1;
        failedLines := failedLines + [i + 2];
      }
    }
    assert file[..|file|] == file;
    return Success(Summary(|file|, successes, failures, failedLines));
  }
}
