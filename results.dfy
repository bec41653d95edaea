/**
 * The results screen (`resultados_ui.py`): entering a boat's final time,
 * directly or lap by lap, and changing its state. Each confirmed entry is
 * one write of (time, state, laps) to the registration, followed by the
 * rank recomputation of the same (event, category). The dialogs become
 * parameters: what the user typed, or `None` when the dialog was cancelled.
 */
module Results {
  import opened Wrappers
  import opened Text
  import opened Records
  import opened Ranking
  import opened Store
  import opened LapTimes

  /** What a confirmed dialog writes to the registration. */
  datatype Write = Write(time: Option<string>, status: Status, laps: Option<string>)

  /**
   * `not categoria_info or categoria_info.get("numero_vueltas", 0) < 1`
   * fails: the category is known and has at least one lap.
   */
  predicate TimedByLaps(lapCount: Option<int>) {
    lapCount.Some? && lapCount.value >= 1
  }

  /**
   * The single-time dialog: a confirmed, non-empty text (tested before
   * stripping) is written stripped, as 'Finalizado', without laps.
   */
  function TimeEntry(typed: Option<string>): (w: Option<Write>)
    ensures w.Some? <==> typed.Some? && typed.value != ""
    ensures w.Some? ==> w.value == Write(Some(Strip(typed.value)), Finalizado, None)
  {
    if typed.Some? && typed.value != "" then Some(Write(Some(Strip(typed.value)), Finalizado, None)) else None
  }

  /**
   * The lap dialog: when it is accepted and every lap reads, the computed
   * total is written as 'Finalizado' together with the JSON list of laps;
   * a lap that does not read writes nothing.
   */
  function LapEntry(fields: Option<seq<string>>): (w: Option<Write>)
    ensures w.Some? <==> fields.Some? && Times(fields.value).Success?
    ensures w.Some? ==>
      w.value == Write(Some(Times(fields.value).value.1), Finalizado, Some(Times(fields.value).value.0))
  {
    if fields.None? then None
    else match Times(fields.value)
      case Success((json, total)) => Some(Write(Some(total), Finalizado, Some(json)))
      case Failure(_) => None
  }

  /** The states the state dialog offers, in its order. */
  const States: seq<Status> := [Inscrito, Finalizado, DNS, DNF, DSQ]

  /** Their names as the dialog lists them. */
  const StateNames: seq<string> := ["Inscrito", "Finalizado", "DNS", "DNF", "DSQ"]

  /** `estados.index(estado_actual)`, or 0 when the shown text is not one of the states. */
  function Preselected(current: string): (i: nat)
    ensures i < |States| == |StateNames|
    ensures StatusName(States[i]) == StateNames[i]
    ensures current in StateNames ==> StateNames[i] == current && current !in StateNames[..i]
    ensures current !in StateNames ==> i == 0
  {
    if current == "Inscrito" then 0
    else if current == "Finalizado" then 1
    else if current == "DNS" then 2
    else if current == "DNF" then 3
    else if current == "DSQ" then 4
    else 0
  }

  /**
   * The state dialog: nothing is written when it is cancelled or the
   * current state is chosen again; 'Finalizado' keeps the shown time and
   * the stored laps; any other state clears both.
   */
  function StatusWrite(current: string, choice: Option<Status>, shownTime: string, storedLaps: Option<string>)
    : (w: Option<Write>)
    ensures w.None? <==> choice.None? || StatusName(choice.value) == current
    ensures w.Some? ==> w.value.status == choice.value
    ensures w.Some? && choice.value == Finalizado ==> w.value.time == Some(shownTime) && w.value.laps == storedLaps
    ensures w.Some? && choice.value != Finalizado ==> w.value.time.None? && w.value.laps.None?
  {
    if choice.None? || StatusName(choice.value) == current then None
    else if choice.value == Finalizado then Some(Write(Some(shownTime), Finalizado, storedLaps))
    else Some(Write(None, choice.value, None))
  }

  /** Some registration of the group carries this id. */
  predicate InGroupWithId(rows: seq<Registration>, ev: nat, cat: nat, id: nat) {
    exists k :: 0 <= k < |rows| && InGroup(rows[k], ev, cat) && rows[k].id == id
  }

  /**
   * `obtener_tiempos_vueltas_json`: walk the registrations of the group
   * and return the stored laps of the one with this id; `None` when no
   * registration of the group has it.
   */
  method FindLaps(rows: seq<Registration>, ev: nat, cat: nat, id: nat) returns (laps: Option<string>)
    ensures InGroupWithId(rows, ev, cat, id) ==>
      exists k :: 0 <= k < |rows| && InGroup(rows[k], ev, cat) && rows[k].id == id && laps == rows[k].lapTimes
    ensures !InGroupWithId(rows, ev, cat, id) ==> laps.None?
  {
    for i := 0 to |rows|
      invariant forall k :: 0 <= k < i ==> !(InGroup(rows[k], ev, cat) && rows[k].id == id)
    {
      if InGroup(rows[i], ev, cat) && rows[i].id == id {
        return rows[i].lapTimes;
      }
    }
    return None;
  }

  /** The table after a write to registration `id` and the recomputation that follows it. */
  function Written(rows: seq<Registration>, ev: nat, cat: nat, id: nat, w: Write): (r: seq<Registration>)
    ensures |r| == |rows|
  {
    Recomputed(WithResult(rows, id, w.time, w.status, w.laps), ev, cat)
  }

  /**
   * `abrir_dialogo_tiempos`: a category without laps asks for one time
   * (`typed`), a category with laps opens the lap dialog (`fields`, the
   * fields as confirmed). A confirmed entry is written and the group is
   * ranked again; otherwise nothing changes.
   */
  method EnterTime(db: Store, ev: nat, cat: nat, id: nat, lapCount: Option<int>,
                   typed: Option<string>, fields: Option<seq<string>>)
    requires db.Valid()
    modifies db
    ensures db.Valid()
    ensures var w := if TimedByLaps(lapCount) then LapEntry(fields) else TimeEntry(typed);
      && (w.None? ==> db.registrations == old(db.registrations))
      && (w.Some? ==> db.registrations == Written(old(db.registrations), ev, cat, id, w.value))
    ensures db.athletes == old(db.athletes) && db.clubs == old(db.clubs) && db.categories == old(db.categories)
    ensures db.validity == old(db.validity) && db.programme == old(db.programme) && db.nextId == old(db.nextId)
  {
    if !TimedByLaps(lapCount) {
      if typed.Some? && typed.value != "" {
        var ok := db.UpdateResult(id, Some(Strip(typed.value)), Finalizado, None);
        db.RecomputeRanks(ev, cat);
      }
      return;
    }
    if fields.Some? {
      var r := GetTimes(fields.value);
      if r.Success? {
        var ok := db.UpdateResult(id, Some(r.value.1), Finalizado, Some(r.value.0));
        db.RecomputeRanks(ev, cat);
      }
    }
  }

  /**
   * `cambiar_estado_inscripcion`: `current` is the state shown for the
   * boat, `choice` the state picked (`None` when cancelled) and `shownTime`
   * the time shown. A new state is written, then the group is ranked again.
   */
  method ChangeStatus(db: Store, ev: nat, cat: nat, id: nat, current: string, choice: Option<Status>,
                      shownTime: string)
    requires db.Valid()
    modifies db
    ensures db.Valid()
    ensures var w := StatusWrite(current, choice, shownTime, StoredLaps(old(db.registrations), ev, cat, id));
      && (w.None? ==> db.registrations == old(db.registrations))
      && (w.Some? ==> db.registrations == Written(old(db.registrations), ev, cat, id, w.value))
    ensures db.athletes == old(db.athletes) && db.clubs == old(db.clubs) && db.categories == old(db.categories)
    ensures db.validity == old(db.validity) && db.programme == old(db.programme) && db.nextId == old(db.nextId)
  {
    if choice.Some? && StatusName(choice.value) != current {
      var time: Option<string> := None;
      var laps: Option<string> := None;
      if choice.value == Finalizado {
        time := Some(shownTime);
        laps := FindLaps(db.registrations, ev, cat, id);
        StoredLapsUnique(db.registrations, ev, cat, id, laps);
      }
      var ok := db.UpdateResult(id, time, choice.value, laps);
      if ok {
        db.RecomputeRanks(ev, cat);
      }
    }
  }

  /** The stored laps of the group's registration with this id (ids are unique), or `None`. */
  ghost function StoredLaps(rows: seq<Registration>, ev: nat, cat: nat, id: nat): Option<string> {
    if InGroupWithId(rows, ev, cat, id) then
      var k :| 0 <= k < |rows| && InGroup(rows[k], ev, cat) && rows[k].id == id;
      rows[k].lapTimes
    else None
  }

  /** With unique ids, what `FindLaps` returns is the stored laps. */
  lemma {:induction false} StoredLapsUnique(rows: seq<Registration>, ev: nat, cat: nat, id: nat, laps: Option<string>)
    requires forall i, j :: 0 <= i < j < |rows| ==> rows[i].id != rows[j].id
    requires InGroupWithId(rows, ev, cat, id) ==>
      exists k :: 0 <= k < |rows| && InGroup(rows[k], ev, cat) && rows[k].id == id && laps == rows[k].lapTimes
    requires !InGroupWithId(rows, ev, cat, id) ==> laps.None?
    ensures laps == StoredLaps(rows, ev, cat, id)
  {
  }

  /**
   * A time written as 'Finalizado' to a boat of the group is ranked at
   * once when it is not empty, and the boat keeps the time and laps written.
   */
  lemma {:induction false} FinishedEntryIsRanked(rows: seq<Registration>, ev: nat, cat: nat, k: nat, t: string, laps: Option<string>)
    requires k < |rows| && InGroup(rows[k], ev, cat) && t != ""
    ensures var r := Written(rows, ev, cat, rows[k].id, Write(Some(t), Finalizado, laps));
      && r[k].status == Finalizado && r[k].finalTime == Some(t) && r[k].lapTimes == laps
      && r[k].rank.Some? && 1 <= r[k].rank.value <= FinisherCount(WithResult(rows, rows[k].id, Some(t), Finalizado, laps), ev, cat)
  {
    var w := WithResult(rows, rows[k].id, Some(t), Finalizado, laps);
    assert IsFinisher(w, ev, cat, k);
    RecomputedFrame(w, ev, cat);
  }

  /**
   * A state other than 'Finalizado' leaves the boat with no time, no laps
   * and no rank.
   */
  lemma {:induction false} UnfinishedEntryIsUnranked(rows: seq<Registration>, ev: nat, cat: nat, k: nat, s: Status)
    requires k < |rows| && InGroup(rows[k], ev, cat) && s != Finalizado
    ensures var r := Written(rows, ev, cat, rows[k].id, Write(None, s, None));
      && r[k].status == s && r[k].finalTime.None? && r[k].lapTimes.None? && r[k].rank.None?
  {
    RecomputedFrame(WithResult(rows, rows[k].id, None, s, None), ev, cat);
  }

  /** A write for one group leaves every registration of the other groups with another id as it was. */
  lemma {:induction false} WriteKeepsOtherGroups(rows: seq<Registration>, ev: nat, cat: nat, id: nat, w: Write, j: nat)
    requires j < |rows| && !InGroup(rows[j], ev, cat) && rows[j].id != id
    ensures Written(rows, ev, cat, id, w)[j] == rows[j]
  {
    RecomputedFrame(WithResult(rows, id, w.time, w.status, w.laps), ev, cat);
  }

  /** Blank typing is confirmed but stored as an empty time, which the ranking passes over. */
  lemma {:induction false} BlankTimeIsNotRanked(typed: string)
    requires typed != "" && forall i :: 0 <= i < |typed| ==> IsSpace(typed[i])
    ensures TimeEntry(Some(typed)) == Some(Write(Some(""), Finalizado, None))
  {
  }
}
