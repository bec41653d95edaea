/**
 * The event-programme panel (`programa_ui.py`): two lists of categories,
 * those available and those in the programme, moved between with a
 * `"HH:MM - "` label prefix; start times spread at a fixed interval over the
 * programme; and the rows saved for the event.
 */
module Programme {
  import opened Wrappers
  import opened Text
  import opened Records
  import opened Store

  /** A list entry: the category it stands for (`Qt.UserRole`) and its text. */
  datatype Item = Item(category: nat, text: string)

  const Separator: string := " - "
  const NoTime: string := "HH:MM"
  const MinutesPerDay: nat := 1440

  /** `f"{nombre} ({codigo})"`; a NULL code prints as `None`. */
  function CategoryLabel(name: string, code: Option<string>): string {
    name + " (" + code.GetOr("None") + ")"
  }

  /** `f"{hora} - {texto}"`. */
  function Label(time: string, text: string): string {
    time + Separator + text
  }

  /** `hh:mm` as `strftime('%H:%M')` prints a time of day given in minutes after midnight. */
  function ClockOfDay(minutes: nat): (t: string)
    requires minutes < MinutesPerDay
    ensures |t| == 5 && t[2] == ':'
    ensures forall i :: 0 <= i < 5 && i != 2 ==> IsDigit(t[i])
  {
    var h, m := minutes / 60, minutes % 60;
    [DigitChar(h / 10), DigitChar(h % 10), ':', DigitChar(m / 10), DigitChar(m % 10)]
  }

  /** The printed time reads back as the hour (below 24) and the minute of the day. */
  lemma {:induction false} ClockReads(minutes: nat)
    requires minutes < MinutesPerDay
    ensures var t := ClockOfDay(minutes);
      && DigitValue(t[0]) * 10 + DigitValue(t[1]) == minutes / 60 < 24
      && DigitValue(t[3]) * 10 + DigitValue(t[4]) == minutes % 60
  {
    var h, m := minutes / 60, minutes % 60;
    assert h == h / 10 * 10 + h % 10;
    assert m == m / 10 * 10 + m % 10;
  }

  /**
   * So a time has no space (the first `" - "` of a label is the one after
   * the time) and is never the `HH:MM` placeholder.
   */
  lemma {:induction false} ClockHasNoSpace(minutes: nat)
    requires minutes < MinutesPerDay
    ensures ' ' !in ClockOfDay(minutes) && ClockOfDay(minutes) != NoTime
  {
    var t := ClockOfDay(minutes);
    forall i | 0 <= i < 5 ensures t[i] != ' ' {
      if i != 2 { assert IsDigit(t[i]); }
    }
    assert !IsDigit(NoTime[0]);
  }

  /** A label splits back into the time and the text it was made from. */
  lemma {:induction false} LabelSplits(time: string, text: string)
    requires ' ' !in time
    ensures SplitFirst(Label(time, text), Separator) == Halves(time, Some(text))
  {
    SplitFirstGlued(time, Separator, text);
  }

  // ---------------------------------------------------------------------
  // Loading the lists

  /** One saved programme row as the panel reads it: category, name, code and start time. */
  datatype Saved = Saved(category: nat, name: string, code: Option<string>, time: Option<string>)

  /** `f"{hora or 'HH:MM'} - {nombre} ({codigo})"`. */
  function SavedItem(s: Saved): Item {
    var time := if s.time.None? || s.time.value == "" then NoTime else s.time.value;
    Item(s.category, Label(time, CategoryLabel(s.name, s.code)))
  }

  /** The categories of `all` not in the saved programme, in their order. */
  function AvailableOf(all: seq<Category>, taken: set<nat>): (items: seq<Item>)
    ensures forall j :: 0 <= j < |items| ==> items[j].category !in taken
    ensures forall c :: 0 <= c < |all| && all[c].id !in taken ==> Item(all[c].id, CategoryLabel(all[c].name, all[c].code)) in items
    ensures forall x :: x in items ==> exists c :: 0 <= c < |all| && x == Item(all[c].id, CategoryLabel(all[c].name, all[c].code))
    decreases |all|
  {
    if all == [] then []
    else
      var n := |all| - 1;
      assert forall c :: 0 <= c < n ==> all[..n][c] == all[c];
      AvailableOf(all[..n], taken)
        + (if all[n].id in taken then [] else [Item(all[n].id, CategoryLabel(all[n].name, all[n].code))])
  }

  function SavedIds(saved: seq<Saved>): (ids: set<nat>)
    ensures forall c :: c in ids <==> exists k :: 0 <= k < |saved| && saved[k].category == c
  {
    set k | 0 <= k < |saved| :: saved[k].category
  }

  // ---------------------------------------------------------------------
  // Scheduling

  /**
   * The start time of the i-th category: the clock starts at `start` and
   * moves on by `interval` minutes per category, wrapping at midnight.
   */
  function StartOf(start: nat, interval: nat, i: nat): (m: nat)
    requires start < MinutesPerDay
    ensures m < MinutesPerDay
  {
    if i == 0 then start else (StartOf(start, interval, i - 1) + interval) % MinutesPerDay
  }

  /** The i-th start time is start + i × interval minutes, modulo a day. */
  lemma {:induction false} StartOfClosed(start: nat, interval: nat, i: nat)
    requires start < MinutesPerDay
    ensures StartOf(start, interval, i) == (start + i * interval) % MinutesPerDay
  {
    if i > 0 {
      StartOfClosed(start, interval, i - 1);
      var a := start + (i - 1) * interval;
      assert start + i * interval == a + interval;
      ModAdd(a, interval);
    }
  }

  lemma {:induction false} ModAdd(a: nat, b: nat)
    ensures (a % MinutesPerDay + b) % MinutesPerDay == (a + b) % MinutesPerDay
  {
  }

  /** The start times of two consecutive categories are `interval` minutes apart. */
  lemma {:induction false} StartOfShift(start: nat, interval: nat, i: nat)
    requires start < MinutesPerDay
    ensures StartOf((start + interval) % MinutesPerDay, interval, i) == StartOf(start, interval, i + 1)
  {
    if i > 0 {
      StartOfShift(start, interval, i - 1);
    }
  }

  /** The label has a `" - "`: `split(' - ', 1)[1]` does not raise. */
  predicate Labelled(x: Item) {
    Contains(x.text, Separator)
  }

  /** The item with the time before its first `" - "` replaced by the clock reading. */
  function Retimed(x: Item, clock: nat): Item
    requires clock < MinutesPerDay && Labelled(x)
  {
    SplitFirstFinds(x.text, Separator);
    Item(x.category, Label(ClockOfDay(clock), SplitFirst(x.text, Separator).tail.value))
  }

  /** The item with its time replaced by the i-th start time. */
  function Timed(x: Item, start: nat, interval: nat, i: nat): Item
    requires start < MinutesPerDay && Labelled(x)
  {
    Retimed(x, StartOf(start, interval, i))
  }

  // The loop of `calcular_horarios` is a sweep down a list: while the
  // current entry passes a test, it is rewritten at the current clock
  // reading and the clock moves on by the interval. The sweep is stated
  // for any test and rewrite, so its proofs never look inside the
  // label format.

  /** The number of leading entries that pass `keep`. */
  function Kept(xs: seq<Item>, keep: Item -> bool): (n: nat)
    ensures n <= |xs|
    ensures forall j :: 0 <= j < n ==> keep(xs[j])
    ensures n < |xs| ==> !keep(xs[n])
    decreases |xs|
  {
    if xs == [] || !keep(xs[0]) then 0
    else
      var n := Kept(xs[1..], keep);
      assert forall j :: 1 <= j < n + 1 ==> xs[1..][j - 1] == xs[j];
      n + 1
  }

  /** A rewrite defined for every kept entry at every time of day. */
  ghost predicate Rewrites(keep: Item -> bool, f: (Item, nat) --> Item) {
    forall x, c: nat :: keep(x) && c < MinutesPerDay ==> f.requires(x, c)
  }

  function Sweep(xs: seq<Item>, clock: nat, interval: nat, keep: Item -> bool, f: (Item, nat) --> Item): (out: seq<Item>)
    requires clock < MinutesPerDay && Rewrites(keep, f)
    ensures |out| == |xs|
    decreases |xs|
  {
    if xs == [] || !keep(xs[0]) then xs
    else [f(xs[0], clock)] + Sweep(xs[1..], (clock + interval) % MinutesPerDay, interval, keep, f)
  }

  /** Within the kept prefix, entry k is rewritten at the k-th clock reading; past it, entries stay. */
  lemma {:induction false} SweepAt(xs: seq<Item>, clock: nat, interval: nat, keep: Item -> bool, f: (Item, nat) --> Item, k: nat)
    requires clock < MinutesPerDay && Rewrites(keep, f) && k < |xs|
    ensures k < Kept(xs, keep) ==> Sweep(xs, clock, interval, keep, f)[k] == f(xs[k], StartOf(clock, interval, k))
    ensures k >= Kept(xs, keep) ==> Sweep(xs, clock, interval, keep, f)[k] == xs[k]
  {
    if xs != [] && keep(xs[0]) && k > 0 {
      SweepAt(xs[1..], (clock + interval) % MinutesPerDay, interval, keep, f, k - 1);
      StartOfShift(clock, interval, k - 1);
      assert xs[1..][k - 1] == xs[k];
    }
  }

  lemma {:induction false} DropStep<T>(s: seq<T>, i: nat)
    requires i < |s|
    ensures s[i..] == [s[i]] + s[i + 1..]
  {
  }

  lemma {:induction false} UpdateTake<T>(s: seq<T>, i: nat, x: T)
    requires i < |s|
    ensures s[i := x][..i + 1] == s[..i] + [x] && s[i := x][i + 1..] == s[i + 1..]
  {
  }

  lemma {:induction false} Regroup<T>(a: seq<T>, x: T, b: seq<T>)
    ensures (a + [x]) + b == a + ([x] + b)
  {
  }

  /** Rewriting entry i and moving the clock on keeps the loop's account of the finished list. */
  lemma {:induction false} SweepStep(xs: seq<Item>, out: seq<Item>, start: nat, interval: nat, keep: Item -> bool, f: (Item, nat) --> Item,
                     i: nat, clock: nat)
    requires start < MinutesPerDay && clock < MinutesPerDay && Rewrites(keep, f)
    requires i < |xs| == |out| && keep(xs[i])
    requires out[..i] + Sweep(xs[i..], clock, interval, keep, f) == Sweep(xs, start, interval, keep, f)
    ensures var next := out[i := f(xs[i], clock)];
      next[..i + 1] + Sweep(xs[i + 1..], (clock + interval) % MinutesPerDay, interval, keep, f)
        == Sweep(xs, start, interval, keep, f)
  {
    var x := f(xs[i], clock);
    var rest := Sweep(xs[i + 1..], (clock + interval) % MinutesPerDay, interval, keep, f);
    DropStep(xs, i);
    assert Sweep(xs[i..], clock, interval, keep, f) == [x] + rest;
    UpdateTake(out, i, x);
    Regroup(out[..i], x, rest);
  }

  /** An entry that fails the test ends the sweep: the rest of the list is as it was. */
  lemma {:induction false} SweepStop(xs: seq<Item>, out: seq<Item>, start: nat, interval: nat, keep: Item -> bool, f: (Item, nat) --> Item,
                     i: nat, clock: nat)
    requires start < MinutesPerDay && clock < MinutesPerDay && Rewrites(keep, f)
    requires i <= |xs| == |out| && (i < |xs| ==> !keep(xs[i])) && out[i..] == xs[i..]
    requires out[..i] + Sweep(xs[i..], clock, interval, keep, f) == Sweep(xs, start, interval, keep, f)
    ensures out == Sweep(xs, start, interval, keep, f)
  {
    if i < |xs| {
      DropStep(xs, i);
    }
    assert Sweep(xs[i..], clock, interval, keep, f) == xs[i..];
    assert out[..i] + out[i..] == out;
  }

  /** The number of leading programme entries with a `" - "` in their label. */
  function LabelledPrefix(items: seq<Item>): nat {
    Kept(items, Labelled)
  }

  /**
   * The programme as the loop of `calcular_horarios` leaves it, the first
   * entry at `start`: each labelled entry is retimed and the clock moves
   * on, until an entry without `" - "` stops the loop.
   */
  function TimedFrom(items: seq<Item>, start: nat, interval: nat): seq<Item>
    requires start < MinutesPerDay
  {
    Sweep(items, start, interval, Labelled, Retimed)
  }

  /**
   * Within the labelled prefix, entry k gets the k-th start time and keeps
   * its text after the first `" - "`; past it, every entry is left as it was.
   */
  lemma {:induction false} TimedFromAt(items: seq<Item>, start: nat, interval: nat, k: nat)
    requires start < MinutesPerDay && k < |items|
    ensures |TimedFrom(items, start, interval)| == |items|
    ensures k < LabelledPrefix(items) ==>
      Labelled(items[k]) && TimedFrom(items, start, interval)[k] == Timed(items[k], start, interval, k)
    ensures k >= LabelledPrefix(items) ==> TimedFrom(items, start, interval)[k] == items[k]
  {
    SweepAt(items, start, interval, Labelled, Retimed, k);
  }

  /**
   * The loop of `calcular_horarios`: entry i gets the i-th start time and
   * keeps the text after its first `" - "`. An entry without one makes the
   * split raise, which ends the loop with the entries before it relabelled.
   */
  method ScheduleItems(items: seq<Item>, start: nat, interval: nat) returns (out: seq<Item>)
    requires start < MinutesPerDay
    ensures out == TimedFrom(items, start, interval)
  {
    out := items;
    var clock: nat := start;
    for i: nat := 0 to |items|
      invariant clock < MinutesPerDay && |out| == |items|
      invariant out[i..] == items[i..]
      invariant out[..i] + Sweep(items[i..], clock, interval, Labelled, Retimed) == TimedFrom(items, start, interval)
    {
      if !Labelled(items[i]) {
        SweepStop(items, out, start, interval, Labelled, Retimed, i, clock);
        return;
      }
      SweepStep(items, out, start, interval, Labelled, Retimed, i, clock);
      SplitFirstFinds(items[i].text, Separator);
      var rest := SplitFirst(items[i].text, Separator).tail.value;
      out := out[i := Item(items[i].category, Label(ClockOfDay(clock), rest))];
      clock := (clock + interval) % MinutesPerDay;
    }
    SweepStop(items, out, start, interval, Labelled, Retimed, |items|, clock);
  }

  /** After scheduling, each relabelled item shows its start time and the text it had. */
  lemma {:induction false} ScheduledLabel(x: Item, start: nat, interval: nat, i: nat)
    requires start < MinutesPerDay && Labelled(x)
    ensures SplitFirst(Timed(x, start, interval, i).text, Separator) ==
      Halves(ClockOfDay(StartOf(start, interval, i)), SplitFirst(x.text, Separator).tail)
  {
    SplitFirstFinds(x.text, Separator);
    ClockHasNoSpace(StartOf(start, interval, i));
    LabelSplits(ClockOfDay(StartOf(start, interval, i)), SplitFirst(x.text, Separator).tail.value);
  }

  /** Scheduling twice with the same start and interval changes nothing more. */
  lemma {:induction false} ScheduleTwice(x: Item, start: nat, interval: nat, i: nat)
    requires start < MinutesPerDay && Labelled(x)
    ensures Labelled(Timed(x, start, interval, i))
    ensures Timed(Timed(x, start, interval, i), start, interval, i) == Timed(x, start, interval, i)
  {
    ScheduledLabel(x, start, interval, i);
    SplitFirstFinds(x.text, Separator);
    SplitFirstFinds(Timed(x, start, interval, i).text, Separator);
  }

  /**
   * Scheduling a programme a second time with the same start and interval
   * gives the same list: the retimed entries stay labelled, so the same
   * prefix is retimed again, each entry to the time it already shows.
   */
  lemma {:induction false} ScheduleListTwice(items: seq<Item>, start: nat, interval: nat)
    requires start < MinutesPerDay
    ensures TimedFrom(TimedFrom(items, start, interval), start, interval) == TimedFrom(items, start, interval)
  {
    var timed := TimedFrom(items, start, interval);
    var p := LabelledPrefix(items);
    forall k | 0 <= k < |items|
      ensures k < p ==> Labelled(timed[k]) && timed[k] == Timed(items[k], start, interval, k)
      ensures k >= p ==> timed[k] == items[k]
    {
      TimedFromAt(items, start, interval, k);
      if k < p {
        ScheduleTwice(items[k], start, interval, k);
      }
    }
    assert LabelledPrefix(timed) == p;
    var twice := TimedFrom(timed, start, interval);
    forall k | 0 <= k < |items|
      ensures twice[k] == timed[k]
    {
      TimedFromAt(timed, start, interval, k);
      if k < p {
        ScheduleTwice(items[k], start, interval, k);
      }
    }
  }

  // ---------------------------------------------------------------------
  // Saving

  /** The time `guardar_programa` saves for an item: the text before the first `" - "`, none for `HH:MM`. */
  function SavedTime(x: Item): Option<string> {
    var head := SplitFirst(x.text, Separator).head;
    if head == NoTime then None else Some(head)
  }

  /** The rows `guardar_programa` saves: row i is (event, category, i + 1, time) for the i-th entry. */
  function SaveRows(ev: nat, items: seq<Item>): (rows: seq<ProgrammeRow>)
    ensures |rows| == |items|
    ensures forall i :: 0 <= i < |items| ==>
      rows[i].event == ev && rows[i].category == items[i].category && rows[i].order == i + 1
      && rows[i].startTime == SavedTime(items[i])
  {
    seq(|items|, i requires 0 <= i < |items| => ProgrammeRow(ev, items[i].category, i + 1, SavedTime(items[i])))
  }

  /** Orders run 1, 2, ... in list order, so the saved rows have distinct orders. */
  lemma {:induction false} SaveRowsOrdered(ev: nat, items: seq<Item>)
    ensures forall i, j :: 0 <= i < j < |items| ==> SaveRows(ev, items)[i].order < SaveRows(ev, items)[j].order
  {
  }

  /** The loop of `guardar_programa`. */
  method ProgrammeRows(ev: nat, items: seq<Item>) returns (rows: seq<ProgrammeRow>)
    ensures rows == SaveRows(ev, items)
  {
    rows := [];
    for i := 0 to |items|
      invariant rows == SaveRows(ev, items[..i])
    {
      var time: Option<string> := Some(SplitFirst(items[i].text, Separator).head);
      if time.value == NoTime {
        time := None;
      }
      assert items[..i + 1][..i] == items[..i];
      rows := rows + [ProgrammeRow(ev, items[i].category, i + 1, time)];
    }
    assert items[..|items|] == items;
  }

  /** An item that was scheduled is saved with its start time; one just added is saved without a time. */
  lemma {:induction false} SavedTimes(x: Item, start: nat, interval: nat, i: nat, text: string, c: nat)
    requires start < MinutesPerDay && Labelled(x)
    ensures SavedTime(Timed(x, start, interval, i)) == Some(ClockOfDay(StartOf(start, interval, i)))
    ensures SavedTime(Item(c, Label(NoTime, text))) == None
  {
    ScheduledLabel(x, start, interval, i);
    ClockHasNoSpace(StartOf(start, interval, i));
    LabelSplits(NoTime, text);
  }

  /** The two list widgets of the panel and the active event. */
  class Panel {
    var event: Option<nat>
    var available: seq<Item>
    var programme: seq<Item>

    constructor ()
      ensures event.None? && available == [] && programme == []
    {
      event := None;
      available := [];
      programme := [];
    }

    /**
     * `cargar_listas`: with no active event both lists stay empty;
     * otherwise the saved programme in its order, then every category not
     * in it.
     */
    method Load(ev: Option<nat>, saved: seq<Saved>, all: seq<Category>)
      modifies this
      ensures event == ev
      ensures ev.None? ==> available == [] && programme == []
      ensures ev.Some? ==> |programme| == |saved| && (forall k :: 0 <= k < |saved| ==> programme[k] == SavedItem(saved[k]))
      ensures ev.Some? ==> available == AvailableOf(all, SavedIds(saved))
    {
      event := ev;
      available := [];
      programme := [];
      if ev.None? {
        return;
      }
      var taken := SavedIds(saved);
      for k := 0 to |saved|
        invariant event == ev && available == []
        invariant |programme| == k && forall j :: 0 <= j < k ==> programme[j] == SavedItem(saved[j])
      {
        programme := programme + [SavedItem(saved[k])];
      }
      for c := 0 to |all|
        invariant event == ev && |programme| == |saved|
        invariant forall j :: 0 <= j < |saved| ==> programme[j] == SavedItem(saved[j])
        invariant available == AvailableOf(all[..c], taken)
      {
        assert all[..c + 1][..c] == all[..c];
        if all[c].id !in taken {
          available := available + [Item(all[c].id, CategoryLabel(all[c].name, all[c].code))];
        }
      }
      assert all[..|all|] == all;
    }

    /**
     * `anadir_categoria_al_programa`: the selected available category moves
     * to the end of the programme with the `"HH:MM - "` prefix; with no
     * selection nothing happens.
     */
    method Add(selected: Option<nat>)
      requires selected.Some? ==> selected.value < |available|
      modifies this
      ensures event == old(event)
      ensures selected.None? ==> available == old(available) && programme == old(programme)
      ensures selected.Some? ==>
        var i := selected.value;
        && available == old(available[..i] + available[i + 1..])
        && programme == old(programme) + [Item(old(available[i]).category, Label(NoTime, old(available[i]).text))]
    {
      if selected.None? {
        return;
      }
      var i := selected.value;
      var item := available[i];
      available := available[..i] + available[i + 1..];
      programme := programme + [Item(item.category, Label(NoTime, item.text))];
    }

    /**
     * `quitar_categoria_del_programa`: the selected programme entry loses
     * everything up to its first `" - "` and goes to the end of the
     * available list. An entry without `" - "` makes the split raise after
     * the entry was taken out, so it is lost.
     */
    method Remove(selected: Option<nat>)
      requires selected.Some? ==> selected.value < |programme|
      modifies this
      ensures event == old(event)
      ensures selected.None? ==> available == old(available) && programme == old(programme)
      ensures selected.Some? ==>
        var i := selected.value;
        var x := old(programme[i]);
        var tail := SplitFirst(x.text, Separator).tail;
        && programme == old(programme[..i] + programme[i + 1..])
        && (tail.Some? ==> available == old(available) + [Item(x.category, tail.value)])
        && (tail.None? ==> available == old(available))
    {
      if selected.None? {
        return;
      }
      var i := selected.value;
      var item := programme[i];
      programme := programme[..i] + programme[i + 1..];
      var parts := SplitFirst(item.text, Separator);
      if parts.tail.None? {
        return;
      }
      available := available + [Item(item.category, parts.tail.value)];
    }

    /** `calcular_horarios`: the programme entries get their start times. */
    method Schedule(start: nat, interval: nat)
      requires start < MinutesPerDay
      modifies this
      ensures event == old(event) && available == old(available)
      ensures programme == TimedFrom(old(programme), start, interval)
    {
      programme := ScheduleItems(programme, start, interval);
    }

    /**
     * `guardar_programa`: with no active event nothing is saved; otherwise
     * the event's programme in the store is replaced by the rows of the list.
     */
    method Save(db: Store) returns (ok: bool)
      requires db.Valid()
      modifies db
      ensures db.Valid()
      ensures event.None? ==> !ok && db.programme == old(db.programme)
      ensures event.Some? ==>
        var rows := SaveRows(event.value, programme);
        && (ok <==> ProgrammeKeysUnique(OtherEvents(old(db.programme), event.value) + rows))
        && (ok ==> db.programme == OtherEvents(old(db.programme), event.value) + rows)
        && (!ok ==> db.programme == old(db.programme))
      ensures db.registrations == old(db.registrations) && db.validity == old(db.validity)
      ensures db.athletes == old(db.athletes) && db.clubs == old(db.clubs) && db.categories == old(db.categories)
      ensures db.nextId == old(db.nextId)
    {
      if event.None? {
        return false;
      }
      var rows := ProgrammeRows(event.value, programme);
      var message;
      ok, message := db.SaveProgramme(event.value, rows);
    }
  }

  /** Adding a category and removing it again gives back its text. */
  lemma {:induction false} AddThenRemove(x: Item)
    ensures Labelled(Item(x.category, Label(NoTime, x.text)))
    ensures SplitFirst(Label(NoTime, x.text), Separator).tail == Some(x.text)
  {
    LabelSplits(NoTime, x.text);
    SplitFirstFinds(Label(NoTime, x.text), Separator);
  }

  /** The two lists after loading share no category, and every category is in one of them. */
  lemma {:induction false} LoadPartitions(saved: seq<Saved>, all: seq<Category>, c: nat)
    requires c < |all|
    ensures var avail := AvailableOf(all, SavedIds(saved));
      && (all[c].id in SavedIds(saved) ==> exists k :: 0 <= k < |saved| && SavedItem(saved[k]).category == all[c].id)
      && (all[c].id !in SavedIds(saved) ==> Item(all[c].id, CategoryLabel(all[c].name, all[c].code)) in avail)
      && forall j :: 0 <= j < |avail| ==> forall k :: 0 <= k < |saved| ==> avail[j].category != saved[k].category
  {
  }
}
