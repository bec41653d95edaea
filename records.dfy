/**
 * The rows of the regatta database as typed records with named fields.
 * Nullable columns are `Option`s.
 */
module Records {
  import opened Wrappers

  /** The `estado` column of `inscripciones`; its CHECK constraint admits exactly these values. */
  datatype Status = Inscrito | Finalizado | DNS | DNF | DSQ

  /** The text stored in the `estado` column. */
  function StatusName(s: Status): string {
    match s
    case Inscrito => "Inscrito"
    case Finalizado => "Finalizado"
    case DNS => "DNS"
    case DNF => "DNF"
    case DSQ => "DSQ"
  }

  /**
   * One row of `inscripciones`: a boat entered in one category of one event.
   * `athlete1` is NOT NULL; slots 2..4 are optional. `finalTime` is the
   * formatted time text, `lapTimes` the JSON text of the lap list.
   */
  datatype Registration = Registration(
    id: nat,
    event: nat,
    category: nat,
    athlete1: nat,
    athlete2: Option<nat>,
    athlete3: Option<nat>,
    athlete4: Option<nat>,
    bib: int,
    finalTime: Option<string>,
    lapTimes: Option<string>,
    rank: Option<nat>,
    status: Status)

  /** The four athlete columns of a boat, in slot order. */
  function Slots(r: Registration): (slots: seq<Option<nat>>)
    ensures |slots| == 4 && slots[0] == Some(r.athlete1)
  {
    [Some(r.athlete1), r.athlete2, r.athlete3, r.athlete4]
  }

  /** One row of `participantes`. */
  datatype Athlete = Athlete(
    id: nat,
    firstName: string,
    lastName: string,
    rut: Option<string>,
    birthDate: Option<string>,
    club: Option<nat>)

  /** One row of `clubes` (club names are UNIQUE). */
  datatype Club = Club(id: nat, name: string, logo: Option<string>)

  /**
   * One row of `categorias`. The age bounds and the lap count are nullable
   * INTEGER columns.
   */
  datatype Category = Category(
    id: nat,
    name: string,
    code: Option<string>,
    minAge: Option<int>,
    maxAge: Option<int>,
    laps: Option<int>)

  /** One row of `programa_pruebas`. */
  datatype ProgrammeRow = ProgrammeRow(event: nat, category: nat, order: nat, startTime: Option<string>)
}
