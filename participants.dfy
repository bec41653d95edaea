/**
 * The participant picker (`seleccionar_participante_dialog.py`): the
 * participants come from the store ordered by surname and first name; the
 * table shows those the search text matches, case-insensitively, in the
 * first name, the surname, the RUT or the club; accepting reads the hidden
 * id column and the two name columns of the selected row.
 */
module Participants {
  import opened Wrappers
  import opened Text

  /** One row of `obtener_participantes_con_club` as the dialog uses it (club by name, `None` without a club). */
  datatype Listed = Listed(id: nat, firstName: string, lastName: string, rut: Option<string>, club: Option<string>)

  /** Python truthiness of an optional text: present and not empty. */
  predicate Present(t: Option<string>) {
    t.Some? && t.value != ""
  }

  /**
   * The search test: the lower-cased search text occurs in the lower-cased
   * first name or surname, or in the RUT or the club when they are present.
   */
  predicate Matches(filter: string, p: Listed) {
    var f := Lower(filter);
    || Contains(Lower(p.firstName), f)
    || Contains(Lower(p.lastName), f)
    || (Present(p.rut) && Contains(Lower(p.rut.value), f))
    || (Present(p.club) && Contains(Lower(p.club.value), f))
  }

  /** `if filtro:` — an empty search text keeps every participant. */
  predicate Keep(filter: string, p: Listed) {
    filter == "" || Matches(filter, p)
  }

  /**
   * The query positions of the participants the search keeps, in query
   * order: every position listed is kept, positions increase, and every
   * kept position is listed.
   */
  function Picked(filter: string, ps: seq<Listed>): (idx: seq<nat>)
    ensures forall k :: 0 <= k < |idx| ==> idx[k] < |ps| && Keep(filter, ps[idx[k]])
    ensures forall k, l :: 0 <= k < l < |idx| ==> idx[k] < idx[l]
    ensures forall i :: 0 <= i < |ps| && Keep(filter, ps[i]) ==> i in idx
  {
    if ps == [] then []
    else
      var init := ps[..|ps| - 1];
      var rest := Picked(filter, init);
      assert forall k :: 0 <= k < |rest| ==> ps[rest[k]] == init[rest[k]];
      if Keep(filter, ps[|ps| - 1]) then rest + [|ps| - 1] else rest
  }

  /** The club shown for a participant without one. */
  const NoClub: string := "Sin Club"

  /** A row of the table as shown: the hidden id column as text, the names, the RUT and the club. */
  datatype TableRow = TableRow(id: string, firstName: string, lastName: string, rut: string, club: string)

  /**
   * The cells of one participant: `str(id)`, the names, `rut or ""` and
   * `club or "Sin Club"`. The id column reads back as the id.
   */
  function Display(p: Listed): (row: TableRow)
    ensures ParseNat(row.id) == Some(p.id)
    ensures row.firstName == p.firstName && row.lastName == p.lastName
    ensures Present(p.rut) ==> row.rut == p.rut.value
    ensures !Present(p.rut) ==> row.rut == ""
    ensures Present(p.club) ==> row.club == p.club.value
    ensures !Present(p.club) ==> row.club == NoClub
  {
    TableRow(NatToString(p.id), p.firstName, p.lastName,
             if Present(p.rut) then p.rut.value else "",
             if Present(p.club) then p.club.value else NoClub)
  }

  /** The table for a search: the kept participants' rows, in query order. */
  function Table(ps: seq<Listed>, filter: string): (rows: seq<TableRow>)
    ensures |rows| == |Picked(filter, ps)|
  {
    var idx := Picked(filter, ps);
    seq(|idx|, k requires 0 <= k < |idx| => Display(ps[idx[k]]))
  }

  /** Looking at one more participant adds its row exactly when the search keeps it. */
  lemma {:induction false} TableStep(ps: seq<Listed>, filter: string, i: nat)
    requires i < |ps|
    ensures Table(ps[..i + 1], filter) ==
            Table(ps[..i], filter) + if Keep(filter, ps[i]) then [Display(ps[i])] else []
  {
    var longer, shorter := ps[..i + 1], ps[..i];
    assert longer[..|longer| - 1] == shorter;
    var idx := Picked(filter, shorter);
    var a, b := Table(longer, filter), Table(shorter, filter) + if Keep(filter, ps[i]) then [Display(ps[i])] else [];
    assert |a| == |b|;
    forall k | 0 <= k < |a|
      ensures a[k] == b[k]
    {
      if k < |idx| {
        assert shorter[idx[k]] == longer[idx[k]];
      }
    }
  }

  /** An empty search text lists every participant, in query order. */
  lemma {:induction false} EmptyFilterShowsAll(ps: seq<Listed>)
    ensures |Picked("", ps)| == |ps|
    ensures forall k :: 0 <= k < |ps| ==> Picked("", ps)[k] == k
  {
    if ps != [] {
      EmptyFilterShowsAll(ps[..|ps| - 1]);
    }
  }

  lemma {:induction false} LowerCharTwice(c: char)
    ensures LowerChar(LowerChar(c)) == LowerChar(c)
  {
  }

  /** Lower-casing twice changes nothing more. */
  lemma {:induction false} LowerTwice(s: string)
    ensures Lower(Lower(s)) == Lower(s)
  {
    forall i | 0 <= i < |s|
      ensures Lower(Lower(s))[i] == Lower(s)[i]
    {
      LowerCharTwice(s[i]);
    }
  }

  /** The search ignores case: a search text and its lower-cased form keep the same participants. */
  lemma {:induction false} SearchIgnoresCase(filter: string, p: Listed)
    ensures Matches(filter, p) <==> Matches(Lower(filter), p)
  {
    LowerTwice(filter);
  }

  /** Lower-casing keeps an occurrence. */
  lemma {:induction false} ContainsLower(s: string, t: string)
    requires Contains(s, t)
    ensures Contains(Lower(s), Lower(t))
    decreases |s|
  {
    if StartsWith(s, t) {
      assert Lower(s)[..|t|] == Lower(s[..|t|]);
    } else {
      ContainsLower(s[1..], t);
      assert Lower(s)[1..] == Lower(s[1..]);
    }
  }

  /** Only a non-empty text contains a non-empty one. */
  lemma {:induction false} FoundInNonEmpty(s: string, t: string)
    requires Contains(s, t) && t != ""
    ensures s != ""
  {
  }

  /** Text typed exactly as it appears in a name, RUT or club always finds that participant. */
  lemma {:induction false} TypedFieldMatches(filter: string, p: Listed)
    requires || Contains(p.firstName, filter) || Contains(p.lastName, filter)
             || (p.rut.Some? && Contains(p.rut.value, filter))
             || (p.club.Some? && Contains(p.club.value, filter))
    requires filter != ""
    ensures Keep(filter, p)
  {
    if Contains(p.firstName, filter) {
      ContainsLower(p.firstName, filter);
    } else if Contains(p.lastName, filter) {
      ContainsLower(p.lastName, filter);
    } else if p.rut.Some? && Contains(p.rut.value, filter) {
      ContainsLower(p.rut.value, filter);
      FoundInNonEmpty(p.rut.value, filter);
    } else {
      ContainsLower(p.club.value, filter);
      FoundInNonEmpty(p.club.value, filter);
    }
  }

  /** What accepting a row hands back: the id and "first name surname". */
  datatype Selected = Selected(id: nat, name: string)

  /** The info built from a row: `int()` of the hidden id column and the two name columns joined by a space. */
  function Chosen(row: TableRow): Selected
    requires ParseNat(row.id).Some?
  {
    Selected(ParseNat(row.id).value, row.firstName + " " + row.lastName)
  }

  /** Accepting the `k`-th row of a search's table hands back that participant's id and full name. */
  lemma {:induction false} ChosenIsListed(ps: seq<Listed>, filter: string, k: nat)
    requires k < |Table(ps, filter)|
    ensures ParseNat(Table(ps, filter)[k].id).Some?
    ensures var p := ps[Picked(filter, ps)[k]];
      Chosen(Table(ps, filter)[k]) == Selected(p.id, p.firstName + " " + p.lastName)
  {
  }

  /** The dialog: its table, the info handed back and whether it was closed by accepting. */
  class Picker {
    var rows: seq<TableRow>
    var info: Option<Selected>
    var accepted: bool

    /** The dialog opens with every participant listed and nothing selected. */
    constructor(participants: seq<Listed>)
      ensures rows == Table(participants, "") && info.None? && !accepted
    {
      rows := [];
      info := None;
      accepted := false;
      new;
      Load(participants, "");
    }

    /**
     * `cargar_tabla_participantes`: the table is emptied and refilled with
     * the rows the search keeps, in query order.
     */
    method Load(participants: seq<Listed>, filter: string)
      modifies this
      ensures rows == Table(participants, filter)
      ensures info == old(info) && accepted == old(accepted)
    {
      rows := [];
      for i := 0 to |participants|
        invariant rows == Table(participants[..i], filter)
        invariant info == old(info) && accepted == old(accepted)
      {
        TableStep(participants, filter, i);
        var p := participants[i];
        if filter != "" {
          var f := Lower(filter);
          if !(|| Contains(Lower(p.firstName), f) || Contains(Lower(p.lastName), f)
               || (Present(p.rut) && Contains(Lower(p.rut.value), f))
               || (Present(p.club) && Contains(Lower(p.club.value), f))) {
            continue;
          }
        }
        rows := rows + [Display(p)];
      }
      assert participants[..|participants|] == participants;
    }

    /**
     * `accept`: with no row selected a warning is shown and nothing
     * changes; otherwise the selected row's info is kept and the dialog
     * closes.
     */
    method Accept(selection: Option<nat>)
      requires selection.Some? ==> selection.value < |rows| && ParseNat(rows[selection.value].id).Some?
      modifies this
      ensures rows == old(rows)
      ensures selection.None? ==> info == old(info) && accepted == old(accepted)
      ensures selection.Some? ==> info == Some(Chosen(rows[selection.value])) && accepted
    {
      if selection.None? {
        return;
      }
      var row := rows[selection.value];
      var id := ParseNat(row.id).value;
      info := Some(Selected(id, row.firstName + " " + row.lastName));
      accepted := true;
    }
  }
}
