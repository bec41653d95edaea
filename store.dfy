/**
 * The regatta database as an object whose tables are fields, with the
 * operations of `database_maraton.py` that change it: registering a boat,
 * writing a result, recomputing the ranks of a group, the category-validity
 * flags, bib numbers and the event programme.
 */
module Store {
  import opened Wrappers
  import opened Text
  import opened Sorting
  import opened Records
  import opened Ranking

  /** The message of the refused insert; callers look for "Error" in it. */
  const BibTakenMessage: string := "Error" + ": El número de competidor ya está en uso."
  const RegisteredMessage: string := "Inscripción guardada."
  const ProgrammeSavedMessage: string := "Programa guardado correctamente."

  /**
   * `verificar_numero_competidor`: some boat of the group carries `bib`;
   * with `exclude`, that registration does not count.
   */
  predicate BibInUse(rows: seq<Registration>, ev: nat, cat: nat, bib: int, exclude: Option<nat>) {
    exists k :: 0 <= k < |rows| && InGroup(rows[k], ev, cat) && rows[k].bib == bib
                && (exclude.None? || rows[k].id != exclude.value)
  }

  /**
   * The foreign keys of an insert into `inscripciones` that have a table
   * here (`PRAGMA foreign_keys = ON`): the category and every athlete named
   * exist.
   */
  predicate RefsKnown(categories: map<nat, Category>, athletes: map<nat, Athlete>, cat: nat, p1: nat,
                      p2: Option<nat>, p3: Option<nat>, p4: Option<nat>) {
    && cat in categories && p1 in athletes
    && (p2.Some? ==> p2.value in athletes) && (p3.Some? ==> p3.value in athletes) && (p4.Some? ==> p4.value in athletes)
  }

  /** `UNIQUE (evento_id, categoria_id, numero_competidor)`. */
  predicate BibsUnique(rows: seq<Registration>) {
    forall i, j :: 0 <= i < j < |rows| && rows[i].event == rows[j].event && rows[i].category == rows[j].category
      ==> rows[i].bib != rows[j].bib
  }

  /** The AUTOINCREMENT primary key: ids are distinct, start at 1 and stay below the next id. */
  predicate IdsValid(rows: seq<Registration>, nextId: nat) {
    && 1 <= nextId
    && (forall k :: 0 <= k < |rows| ==> 1 <= rows[k].id < nextId)
    && (forall i, j :: 0 <= i < j < |rows| ==> rows[i].id != rows[j].id)
  }

  /** `UNIQUE (evento_id, categoria_id)` of `programa_pruebas`. */
  predicate ProgrammeKeysUnique(prog: seq<ProgrammeRow>) {
    forall i, j :: 0 <= i < j < |prog| ==>
      prog[i].event != prog[j].event || prog[i].category != prog[j].category
  }

  /** `SELECT MAX(numero_competidor)` over the group; `None` is SQL NULL (no boat). */
  function MaxBib(rows: seq<Registration>, ev: nat, cat: nat): (m: Option<int>)
    ensures m.None? <==> forall k :: 0 <= k < |rows| ==> !InGroup(rows[k], ev, cat)
    ensures m.Some? ==> exists k :: 0 <= k < |rows| && InGroup(rows[k], ev, cat) && rows[k].bib == m.value
    ensures m.Some? ==> forall k :: 0 <= k < |rows| && InGroup(rows[k], ev, cat) ==> rows[k].bib <= m.value
    decreases |rows|
  {
    if rows == [] then None
    else
      var n := |rows| - 1;
      var prefix := MaxBib(rows[..n], ev, cat);
      assert forall k :: 0 <= k < n ==> rows[..n][k] == rows[k];
      if !InGroup(rows[n], ev, cat) then prefix
      else if prefix.Some? && prefix.value >= rows[n].bib then prefix
      else Some(rows[n].bib)
  }

  /**
   * `obtener_siguiente_numero_competidor`: `(MAX or 0) + 1`. A maximum of 0
   * and no maximum both give 1, so the result is one more than the largest
   * bib of the group, or 1 for an empty group; it is never in use.
   */
  function NextBib(rows: seq<Registration>, ev: nat, cat: nat): (b: int)
    ensures !BibInUse(rows, ev, cat, b, None)
    ensures (forall k :: 0 <= k < |rows| ==> !InGroup(rows[k], ev, cat)) ==> b == 1
    ensures (exists k :: 0 <= k < |rows| && InGroup(rows[k], ev, cat)) ==>
      (exists k :: 0 <= k < |rows| && InGroup(rows[k], ev, cat) && rows[k].bib == b - 1)
      && forall k :: 0 <= k < |rows| && InGroup(rows[k], ev, cat) ==> rows[k].bib < b
  {
    match MaxBib(rows, ev, cat)
    case None => 0 + 1
    case Some(m) => (if m != 0 then m else 0) + 1
  }

  /** The new row `inscribir_embarcacion` inserts: no time, no laps, no rank, state 'Inscrito'. */
  function NewRegistration(id: nat, ev: nat, cat: nat, p1: nat, p2: Option<nat>, p3: Option<nat>,
                           p4: Option<nat>, bib: int): Registration
  {
    Registration(id, ev, cat, p1, p2, p3, p4, bib, None, None, None, Inscrito)
  }

  /** `actualizar_resultado_inscripcion`: the row with this id gets the time, state and laps. */
  function WithResult(rows: seq<Registration>, id: nat, time: Option<string>, status: Status,
                      laps: Option<string>): (r: seq<Registration>)
    ensures |r| == |rows|
  {
    seq(|rows|, k requires 0 <= k < |rows| =>
      if rows[k].id == id then rows[k].(finalTime := time, status := status, lapTimes := laps) else rows[k])
  }

  /** `actualizar_numero_competidor`: the row with this id gets the bib. */
  function WithBib(rows: seq<Registration>, id: nat, bib: int): (r: seq<Registration>)
    ensures |r| == |rows|
  {
    seq(|rows|, k requires 0 <= k < |rows| => if rows[k].id == id then rows[k].(bib := bib) else rows[k])
  }

  /** The programme rows of the other events (what `DELETE ... WHERE evento_id = ?` keeps). */
  function OtherEvents(prog: seq<ProgrammeRow>, ev: nat): (r: seq<ProgrammeRow>)
    ensures forall x :: x in r <==> x in prog && x.event != ev
    decreases |prog|
  {
    if prog == [] then []
    else (if prog[0].event != ev then [prog[0]] else []) + OtherEvents(prog[1..], ev)
  }

  /** The row with this id, if any. */
  function FindById(rows: seq<Registration>, id: nat): (k: Option<nat>)
    ensures k.Some? ==> k.value < |rows| && rows[k.value].id == id
    ensures k.None? ==> forall j :: 0 <= j < |rows| ==> rows[j].id != id
    decreases |rows|
  {
    if rows == [] then None
    else if rows[0].id == id then Some(0)
    else match FindById(rows[1..], id)
      case None => None
      case Some(j) => Some(j + 1)
  }

  class Store {
    var registrations: seq<Registration>
    var athletes: map<nat, Athlete>
    var clubs: map<nat, Club>
    var categories: map<nat, Category>
    var validity: map<(nat, nat), bool>
    var programme: seq<ProgrammeRow>
    var nextId: nat

    /** The table constraints the operations rely on and keep. */
    ghost predicate Valid()
      reads this
    {
      IdsValid(registrations, nextId) && BibsUnique(registrations) && ProgrammeKeysUnique(programme)
    }

    constructor (athletes: map<nat, Athlete>, clubs: map<nat, Club>, categories: map<nat, Category>)
      ensures Valid()
      ensures this.athletes == athletes && this.clubs == clubs && this.categories == categories
      ensures registrations == [] && validity == map[] && programme == [] && nextId == 1
    {
      this.athletes := athletes;
      this.clubs := clubs;
      this.categories := categories;
      registrations := [];
      validity := map[];
      programme := [];
      nextId := 1;
    }

    /**
     * `inscribir_embarcacion`: a bib already used in the group violates the
     * UNIQUE constraint, and a category or athlete that does not exist
     * violates a foreign key; either `IntegrityError` is reported with the
     * bib message and changes nothing. Otherwise the boat is appended with a
     * fresh id.
     */
    method Register(ev: nat, cat: nat, p1: nat, p2: Option<nat>, p3: Option<nat>, p4: Option<nat>, bib: int)
      returns (id: Option<nat>, message: string)
      requires Valid()
      modifies this
      ensures Valid()
      ensures athletes == old(athletes) && clubs == old(clubs) && categories == old(categories)
      ensures validity == old(validity) && programme == old(programme)
      ensures BibInUse(old(registrations), ev, cat, bib, None) || !RefsKnown(categories, athletes, cat, p1, p2, p3, p4) ==>
        id.None? && message == BibTakenMessage
        && registrations == old(registrations) && nextId == old(nextId)
      ensures !BibInUse(old(registrations), ev, cat, bib, None) && RefsKnown(categories, athletes, cat, p1, p2, p3, p4) ==>
        id == Some(old(nextId)) && message == RegisteredMessage
        && registrations == old(registrations) + [NewRegistration(old(nextId), ev, cat, p1, p2, p3, p4, bib)]
        && nextId == old(nextId) + 1
    {
      if BibInUse(registrations, ev, cat, bib, None) || !RefsKnown(categories, athletes, cat, p1, p2, p3, p4) {
        return None, BibTakenMessage;
      }
      var newId := nextId;
      RegisterKeepsBibsUnique(registrations, NewRegistration(newId, ev, cat, p1, p2, p3, p4, bib));
      registrations := registrations + [NewRegistration(newId, ev, cat, p1, p2, p3, p4, bib)];
      nextId := nextId + 1;
      id, message := Some(newId), RegisteredMessage;
    }

    /** `actualizar_resultado_inscripcion`; the store reports success whether or not the id exists. */
    method UpdateResult(id: nat, time: Option<string>, status: Status, laps: Option<string>) returns (ok: bool)
      requires Valid()
      modifies this
      ensures Valid() && ok
      ensures registrations == WithResult(old(registrations), id, time, status, laps)
      ensures athletes == old(athletes) && clubs == old(clubs) && categories == old(categories)
      ensures validity == old(validity) && programme == old(programme) && nextId == old(nextId)
    {
      WithResultSameKeys(registrations, id, time, status, laps);
      SameKeysKeepValid(registrations, WithResult(registrations, id, time, status, laps), nextId);
      registrations := WithResult(registrations, id, time, status, laps);
      ok := true;
    }

    /**
     * `recalcular_posiciones_categoria`: select the group's finishers in time
     * order, write rank i + 1 to the i-th one, then clear the rank of every
     * row of the group that is not 'Finalizado'.
     */
    method RecomputeRanks(ev: nat, cat: nat)
      requires Valid()
      modifies this
      ensures Valid()
      ensures registrations == Recomputed(old(registrations), ev, cat)
      ensures athletes == old(athletes) && clubs == old(clubs) && categories == old(categories)
      ensures validity == old(validity) && programme == old(programme) && nextId == old(nextId)
    {
      ghost var rows := registrations;
      var order := RankOrder(registrations, ev, cat);
      RankOrderIndices(registrations, ev, cat);
      var table := WriteRanks(registrations, order);
      registrations := ClearUnfinished(table, ev, cat);
      RecomputedKeepsKeys(rows, ev, cat);
      SameKeysKeepValid(rows, registrations, nextId);
    }

    /** `obtener_estado_categoria`: a missing flag is created as valid and reported as valid. */
    method CategoryValidity(ev: nat, cat: nat) returns (valid: bool)
      requires Valid()
      modifies this
      ensures Valid()
      ensures (ev, cat) in old(validity) ==> valid == old(validity)[(ev, cat)] && validity == old(validity)
      ensures (ev, cat) !in old(validity) ==> valid && validity == old(validity)[(ev, cat) := true]
      ensures registrations == old(registrations) && athletes == old(athletes) && clubs == old(clubs)
      ensures categories == old(categories) && programme == old(programme) && nextId == old(nextId)
    {
      if (ev, cat) !in validity {
        validity := validity[(ev, cat) := true];
        return true;
      }
      valid := validity[(ev, cat)];
    }

    /** `actualizar_estado_categoria`: INSERT OR REPLACE overwrites the flag. */
    method SetCategoryValidity(ev: nat, cat: nat, valid: bool)
      requires Valid()
      modifies this
      ensures Valid()
      ensures validity == old(validity)[(ev, cat) := valid]
      ensures registrations == old(registrations) && athletes == old(athletes) && clubs == old(clubs)
      ensures categories == old(categories) && programme == old(programme) && nextId == old(nextId)
    {
      validity := validity[(ev, cat) := valid];
    }

    /**
     * `actualizar_numero_competidor`. A bib that another boat of the same
     * group already carries violates the UNIQUE constraint; the update then
     * fails and nothing changes.
     */
    method UpdateBib(id: nat, bib: int) returns (ok: bool)
      requires Valid()
      modifies this
      ensures Valid()
      ensures ok ==> registrations == WithBib(old(registrations), id, bib)
      ensures !ok ==> registrations == old(registrations)
      ensures ok <==> (FindById(old(registrations), id).None? ||
        var r := old(registrations)[FindById(old(registrations), id).value];
        !BibInUse(old(registrations), r.event, r.category, bib, Some(id)))
      ensures athletes == old(athletes) && clubs == old(clubs) && categories == old(categories)
      ensures validity == old(validity) && programme == old(programme) && nextId == old(nextId)
    {
      var k := FindById(registrations, id);
      if k.Some? {
        var r := registrations[k.value];
        if BibInUse(registrations, r.event, r.category, bib, Some(id)) {
          return false;
        }
      }
      WithBibKeepsBibsUnique(registrations, id, bib);
      registrations := WithBib(registrations, id, bib);
      ok := true;
    }

    /**
     * `guardar_programa_pruebas`: delete the event's programme and insert the
     * new rows. A duplicated category breaks the UNIQUE constraint; the
     * transaction is then never committed and nothing changes.
     */
    method SaveProgramme(ev: nat, rows: seq<ProgrammeRow>) returns (ok: bool, message: string)
      requires Valid()
      modifies this
      ensures Valid()
      ensures ok <==> ProgrammeKeysUnique(OtherEvents(old(programme), ev) + rows)
      ensures ok ==> programme == OtherEvents(old(programme), ev) + rows && message == ProgrammeSavedMessage
      ensures !ok ==> programme == old(programme)
      ensures registrations == old(registrations) && athletes == old(athletes) && clubs == old(clubs)
      ensures categories == old(categories) && validity == old(validity) && nextId == old(nextId)
    {
      var kept := OtherEvents(programme, ev);
      if !ProgrammeKeysUnique(kept + rows) {
        return false, "";
      }
      programme := kept + rows;
      ok, message := true, ProgrammeSavedMessage;
    }
  }

  /** The loop of `recalcular_posiciones_categoria`: the `i`-th row of `order` gets rank `i + 1`. */
  method WriteRanks(rows: seq<Registration>, order: seq<Finisher>) returns (table: seq<Registration>)
    requires IndicesIn(order, |rows|)
    ensures table == ApplyRanks(rows, order, |order|)
  {
    table := rows;
    for i := 0 to |order|
      invariant table == ApplyRanks(rows, order, i)
    {
      var k := order[i].index;
      table := table[k := table[k].(rank := Some(i + 1))];
    }
  }

  /**
   * The recomputation is the rank loop followed by the clearing statement,
   * and it changes ranks only, so ids and bibs stay valid.
   */
  lemma {:induction false} RecomputedKeepsKeys(rows: seq<Registration>, ev: nat, cat: nat)
    ensures IndicesIn(RankOrder(rows, ev, cat), |rows|)
    ensures Recomputed(rows, ev, cat) ==
      ClearUnfinished(ApplyRanks(rows, RankOrder(rows, ev, cat), |RankOrder(rows, ev, cat)|), ev, cat)
    ensures SameKeys(rows, Recomputed(rows, ev, cat))
  {
    RankOrderIndices(rows, ev, cat);
    RecomputedFrame(rows, ev, cat);
  }

  lemma {:induction false} WithBibKeepsBibsUnique(rows: seq<Registration>, id: nat, bib: int)
    requires BibsUnique(rows) && (forall i, j :: 0 <= i < j < |rows| ==> rows[i].id != rows[j].id)
    requires FindById(rows, id).Some? ==>
      var r := rows[FindById(rows, id).value];
      !BibInUse(rows, r.event, r.category, bib, Some(id))
    ensures BibsUnique(WithBib(rows, id, bib))
  {
    var w := WithBib(rows, id, bib);
    var found := FindById(rows, id);
    forall i, j | 0 <= i < j < |w| && w[i].event == w[j].event && w[i].category == w[j].category
      ensures w[i].bib != w[j].bib
    {
      if found.Some? && (i == found.value || j == found.value) {
        var o := if i == found.value then j else i;
        var r := rows[found.value];
        assert rows[o].id != id;
        assert w[o] == rows[o];
        assert !InGroup(rows[o], r.event, r.category) || rows[o].bib != bib;
      }
    }
  }

  /** Two tables agree on every row's id, bib, event and category. */
  predicate SameKeys(a: seq<Registration>, b: seq<Registration>) {
    |a| == |b| &&
    forall k :: 0 <= k < |a| ==>
      a[k].id == b[k].id && a[k].bib == b[k].bib && a[k].event == b[k].event && a[k].category == b[k].category
  }

  lemma {:induction false} SameKeysKeepValid(a: seq<Registration>, b: seq<Registration>, nextId: nat)
    requires SameKeys(a, b) && IdsValid(a, nextId) && BibsUnique(a)
    ensures IdsValid(b, nextId) && BibsUnique(b)
  {
  }

  /** Writing a result touches neither ids nor bibs. */
  lemma {:induction false} WithResultSameKeys(rows: seq<Registration>, id: nat, time: Option<string>, status: Status,
                           laps: Option<string>)
    ensures SameKeys(rows, WithResult(rows, id, time, status, laps))
  {
  }

  /** A boat registered with the next bib is accepted, and the new boat is unranked. */
  lemma {:induction false} NextBibAccepted(rows: seq<Registration>, ev: nat, cat: nat)
    ensures !BibInUse(rows, ev, cat, NextBib(rows, ev, cat), None)
    ensures BibsUnique(rows) ==>
      BibsUnique(rows + [NewRegistration(0, ev, cat, 0, None, None, None, NextBib(rows, ev, cat))])
  {
    var b := NextBib(rows, ev, cat);
    var w := rows + [NewRegistration(0, ev, cat, 0, None, None, None, b)];
    if BibsUnique(rows) {
      forall i, j | 0 <= i < j < |w| && w[i].event == w[j].event && w[i].category == w[j].category
        ensures w[i].bib != w[j].bib
      {
        if j == |rows| {
          assert InGroup(rows[i], ev, cat);
        }
      }
    }
  }

  /** A registration is refused exactly when its bib is taken; the refusal leaves the group's bibs unique. */
  lemma {:induction false} RegisterKeepsBibsUnique(rows: seq<Registration>, r: Registration)
    requires BibsUnique(rows) && !BibInUse(rows, r.event, r.category, r.bib, None)
    ensures BibsUnique(rows + [r])
  {
    var w := rows + [r];
    forall i, j | 0 <= i < j < |w| && w[i].event == w[j].event && w[i].category == w[j].category
      ensures w[i].bib != w[j].bib
    {
      if j == |rows| {
        assert InGroup(rows[i], r.event, r.category);
      }
    }
  }
}
