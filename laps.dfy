/**
 * The lap-time dialog (`tiempos_vuelta_dialog_ui.py`): the stored JSON list
 * of lap times prefills one field per lap; on confirmation every non-blank
 * field must read as `H:M:S` or `H:M:S.f`, the laps are added up to the
 * microsecond, and the total is written back as `HH:MM:SS[.mmm]` beside the
 * JSON list of the laps that were typed.
 */
module LapTimes {
  import opened Wrappers
  import opened Text

  // ----------------------------------------------------------- reading a lap

  /** `h, m, s = map(int, text.split(':'))`: exactly three digit strings, as seconds. */
  function ParseClock(s: string): Option<nat> {
    var parts := SplitChar(s, ':');
    if |parts| != 3 then None
    else match (ParseNat(parts[0]), ParseNat(parts[1]), ParseNat(parts[2]))
      case (Some(h), Some(m), Some(sec)) => Some(h * 3600 + m * 60 + sec)
      case _ => None
  }

  /** `int(fraction.ljust(6, '0'))`: the fraction as microseconds; more than six digits are kept as typed. */
  function ParseFraction(f: string): Option<nat> {
    ParseNat(RightPad(f, 6))
  }

  /**
   * One lap in microseconds. Text holding a '.' must split into exactly two
   * parts, a clock and a fraction; text without one is a clock alone.
   */
  function ParseLap(t: string): Option<nat> {
    if '.' in t then
      var parts := SplitChar(t, '.');
      if |parts| != 2 then None
      else match (ParseClock(parts[0]), ParseFraction(parts[1]))
        case (Some(sec), Some(us)) => Some(sec * 1000000 + us)
        case _ => None
    else match ParseClock(t)
      case Some(sec) => Some(sec * 1000000)
      case None => None
  }

  // ---------------------------------------------------------- writing a total

  /** `f"{n:02}"`. */
  function TwoDigits(n: nat): string {
    ZeroPad(NatToString(n), 2)
  }

  /** The clock part of the total: `divmod` by 3600, then by 60, of the whole seconds. */
  function ClockText(secs: nat): string {
    Clock(secs / 3600, secs % 3600 / 60, secs % 3600 % 60)
  }

  /** `f"{hours:02}:{minutes:02}:{seconds:02}"`. */
  function Clock(hours: nat, minutes: nat, seconds: nat): string {
    TwoDigits(hours) + ":" + TwoDigits(minutes) + ":" + TwoDigits(seconds)
  }

  /** The total as `HH:MM:SS`, followed by `.mmm` (milliseconds, truncated) when a fraction of a second remains. */
  function FormatTotal(us: nat): string {
    Stamp(us / 1000000, us % 1000000 / 1000, us % 1000000 > 0)
  }

  /** The clock of the whole seconds, with the milliseconds after a '.' when there is a fraction. */
  function Stamp(secs: nat, ms: nat, fraction: bool): string {
    if fraction then ClockText(secs) + "." + ZeroPad(NatToString(ms), 3) else ClockText(secs)
  }

  // ------------------------------------------------------------ the lap list

  /** A lap that could not be read: its 1-based number and its stripped text. */
  datatype LapError = LapError(lap: nat, text: string)

  /**
   * The loop of `get_tiempos` over the fields, for a way `read` of reading
   * one lap (the dialog reads with ParseLap): blank fields are skipped, the
   * first unreadable one stops everything, the others are kept and summed.
   */
  function Scan(read: string -> Option<nat>, fields: seq<string>): Result<(seq<string>, nat), LapError>
    decreases |fields|
  {
    if fields == [] then Success(([], 0))
    else Step(read, Scan(read, fields[..|fields| - 1]), fields[|fields| - 1], |fields|)
  }

  /** One turn of the loop, on field number `lap`. */
  function Step(read: string -> Option<nat>, acc: Result<(seq<string>, nat), LapError>, field: string, lap: nat)
    : Result<(seq<string>, nat), LapError>
  {
    match acc
    case Failure(e) => Failure(e)
    case Success((kept, total)) =>
      var t := Strip(field);
      if t == "" then Success((kept, total))
      else match read(t)
        case None => Failure(LapError(lap, t))
        case Some(us) => Success((kept + [t], total + us))
  }

  /** The non-blank fields, stripped, in order. */
  function Filled(fields: seq<string>): (laps: seq<string>)
    ensures forall i :: 0 <= i < |laps| ==> laps[i] != ""
    decreases |fields|
  {
    if fields == [] then []
    else
      var n := |fields| - 1;
      var t := Strip(fields[n]);
      Filled(fields[..n]) + (if t == "" then [] else [t])
  }

  predicate AllRead(read: string -> Option<nat>, laps: seq<string>) {
    forall i :: 0 <= i < |laps| ==> read(laps[i]).Some?
  }

  /** The sum of the laps in microseconds. */
  function LapSum(read: string -> Option<nat>, laps: seq<string>): nat
    requires AllRead(read, laps)
    decreases |laps|
  {
    if laps == [] then 0
    else
      var n := |laps| - 1;
      LapSum(read, laps[..n]) + read(laps[n]).value
  }

  /** What the dialog returns: the JSON list of the kept laps and the formatted total, or the failing lap. */
  function Times(fields: seq<string>): Result<(string, string), LapError> {
    match Scan(ParseLap, fields)
    case Failure(e) => Failure(e)
    case Success((kept, total)) => Success((EncodeList(kept), FormatTotal(total)))
  }

  /** `get_tiempos`. */
  method GetTimes(fields: seq<string>) returns (r: Result<(string, string), LapError>)
    ensures r == Times(fields)
  {
    var kept: seq<string> := [];
    var total: nat := 0;
    for i := 0 to |fields|
      invariant Scan(ParseLap, fields[..i]).Success?
      invariant Scan(ParseLap, fields[..i]).value.0 == kept && Scan(ParseLap, fields[..i]).value.1 == total
    {
      assert fields[..i + 1][..i] == fields[..i];
      var t := Strip(fields[i]);
      if t != "" {
        var lap := ParseLap(t);
        if lap.None? {
          assert Scan(ParseLap, fields[..i + 1]) == Failure(LapError(i + 1, t));
          ScanStops(ParseLap, fields, i + 1);
          return Failure(LapError(i + 1, t));
        }
        kept := kept + [t];
        total := total + lap.value;
      }
    }
    assert fields[..|fields|] == fields;
    r := Success((EncodeList(kept), FormatTotal(total)));
  }

  /** Once a lap fails, the fields after it are not looked at. */
  lemma {:induction false} ScanStops(read: string -> Option<nat>, fields: seq<string>, i: nat)
    requires i <= |fields| && Scan(read, fields[..i]).Failure?
    ensures Scan(read, fields) == Scan(read, fields[..i])
    decreases |fields| - i
  {
    if i < |fields| {
      assert fields[..i + 1][..i] == fields[..i];
      assert Scan(read, fields[..i + 1]) == Step(read, Scan(read, fields[..i]), fields[i], i + 1);
      ScanStops(read, fields, i + 1);
    } else {
      assert fields[..i] == fields;
    }
  }

  // ------------------------------------------------------------------ JSON

  function Quote(t: string): string {
    "\"" + t + "\""
  }

  function Quoted(laps: seq<string>): (q: seq<string>)
    ensures |q| == |laps| && forall i :: 0 <= i < |laps| ==> q[i] == Quote(laps[i])
  {
    seq(|laps|, i requires 0 <= i < |laps| => Quote(laps[i]))
  }

  /**
   * `json.dumps(laps)` for laps written with digits, ':' and '.' only, which
   * need no escaping: `["a", "b"]`.
   */
  function EncodeList(laps: seq<string>): string {
    "[" + Join(Quoted(laps), ", ") + "]"
  }

  /** A string the encoder copies as it is: no quote, no backslash. */
  predicate Plain(t: string) {
    '"' !in t && '\\' !in t
  }

  /** The string items between the quotes: `a`, then `, ` and another item, ..., then nothing. */
  function DecodeItems(parts: seq<string>): Option<seq<string>>
    decreases |parts|
  {
    if |parts| == 2 && parts[1] == "" && '\\' !in parts[0] then Some([parts[0]])
    else if |parts| >= 4 && parts[1] == ", " && '\\' !in parts[0] then
      match DecodeItems(parts[2..])
      case Some(rest) => Some([parts[0]] + rest)
      case None => None
    else None
  }

  /**
   * `json.loads` on the lists the dialog writes: `[]` or `["a", "b", ...]`
   * with unescaped items. Any other text is read as no list.
   */
  function DecodeList(s: string): Option<seq<string>> {
    if |s| < 2 || s[0] != '[' || s[|s| - 1] != ']' then None
    else
      var inner := s[1..|s| - 1];
      if inner == "" then Some([])
      else
        var parts := SplitChar(inner, '"');
        if parts[0] != "" then None else DecodeItems(parts[1..])
  }

  /** What follows the opening quote of the first item. */
  function Body(laps: seq<string>): string
    requires laps != []
    decreases |laps|
  {
    if |laps| == 1 then laps[0] + "\"" else laps[0] + "\", \"" + Body(laps[1..])
  }

  lemma {:induction false} JoinQuoted(laps: seq<string>)
    requires laps != []
    ensures Join(Quoted(laps), ", ") == "\"" + Body(laps)
    decreases |laps|
  {
    if |laps| > 1 {
      JoinQuoted(laps[1..]);
      assert Quoted(laps)[1..] == Quoted(laps[1..]);
    }
  }

  lemma {:induction false} BodyItems(laps: seq<string>)
    requires laps != [] && forall i :: 0 <= i < |laps| ==> Plain(laps[i])
    ensures DecodeItems(SplitChar(Body(laps), '"')) == Some(laps)
    decreases |laps|
  {
    var a := laps[0];
    if |laps| == 1 {
      LastItem(a);
      assert laps == [a];
    } else {
      var rest := Body(laps[1..]);
      NextItem(a, rest);
      HeadRest(laps);
      BodyItems(laps[1..]);
    }
  }

  /** The last item and its closing quote split into the item and nothing. */
  lemma {:induction false} LastItem(a: string)
    requires Plain(a)
    ensures SplitChar(a + "\"", '"') == [a, ""]
  {
    SplitCharFirst(a, '"', "");
    assert a + "\"" == a + ['"'] + "";
    assert SplitChar("", '"') == [""];
  }

  /** An item, its closing quote, the separator and the next opening quote split into the item and the separator. */
  lemma {:induction false} NextItem(a: string, rest: string)
    requires Plain(a)
    ensures SplitChar(a + "\", \"" + rest, '"') == [a, ", "] + SplitChar(rest, '"')
  {
    var after := ", " + ['"'] + rest;
    assert a + "\", \"" + rest == a + ['"'] + after;
    SplitCharFirst(a, '"', after);
    SplitCharFirst(", ", '"', rest);
    ConsTwo(a, ", ", SplitChar(rest, '"'));
  }

  lemma {:induction false} ConsTwo(a: string, b: string, r: seq<string>)
    ensures [a] + ([b] + r) == [a, b] + r
  {
  }

  /** The prefill reads back exactly the laps the dialog wrote. */
  lemma {:induction false} EncodeDecode(laps: seq<string>)
    requires forall i :: 0 <= i < |laps| ==> Plain(laps[i])
    ensures DecodeList(EncodeList(laps)) == Some(laps)
  {
    var s := EncodeList(laps);
    if laps == [] {
      assert s == "[]";
    } else {
      JoinQuoted(laps);
      var j := Join(Quoted(laps), ", ");
      assert s[1..|s| - 1] == j;
      SplitCharFirst("", '"', Body(laps));
      assert j == "" + ['"'] + Body(laps);
      BodyItems(laps);
    }
  }

  // --------------------------------------------------------------- prefill

  /** `tiempos_existentes`: the decoded stored list; no text, or text that is not such a list, gives none. */
  function Stored(laps: Option<string>): seq<string> {
    if laps.None? || laps.value == "" then []
    else DecodeList(laps.value).GetOr([])
  }

  /** The fields the dialog opens with: field i shows stored lap i when there is one. */
  function Prefill(count: nat, laps: Option<string>): (fields: seq<string>)
    ensures |fields| == count
    ensures forall i :: 0 <= i < count ==> fields[i] == if i < |Stored(laps)| then Stored(laps)[i] else ""
  {
    seq(count, i requires 0 <= i < count => if i < |Stored(laps)| then Stored(laps)[i] else "")
  }

  // ------------------------------------------------------------ properties

  lemma {:induction false} AllReadSnoc(read: string -> Option<nat>, laps: seq<string>, t: string)
    ensures AllRead(read, laps + [t]) <==> AllRead(read, laps) && read(t).Some?
    ensures AllRead(read, laps + [t]) ==> LapSum(read, laps + [t]) == LapSum(read, laps) + read(t).value
  {
    assert forall i :: 0 <= i < |laps| ==> (laps + [t])[i] == laps[i];
    assert (laps + [t])[|laps|] == t;
    assert (laps + [t])[..|laps|] == laps;
  }

  /** All or nothing: the dialog succeeds exactly when every non-blank field reads as a lap. */
  lemma {:induction false} ScanSucceeds(read: string -> Option<nat>, fields: seq<string>)
    ensures Scan(read, fields).Success? <==> AllRead(read, Filled(fields))
    decreases |fields|
  {
    if fields != [] {
      var n := |fields| - 1;
      var t := Strip(fields[n]);
      var before := Filled(fields[..n]);
      ScanSucceeds(read, fields[..n]);
      AllReadSnoc(read, before, t);
      if t == "" {
        assert Filled(fields) == before;
      } else {
        assert Filled(fields) == before + [t];
      }
    }
  }

  /** On success the dialog keeps the non-blank fields, stripped and in order, and their sum. */
  lemma {:induction false} ScanKeeps(read: string -> Option<nat>, fields: seq<string>)
    requires Scan(read, fields).Success?
    ensures AllRead(read, Filled(fields))
    ensures Scan(read, fields).value.0 == Filled(fields)
    ensures Scan(read, fields).value.1 == LapSum(read, Filled(fields))
    decreases |fields|
  {
    if fields != [] {
      var n := |fields| - 1;
      var prefix := fields[..n];
      ScanKeeps(read, prefix);
      var before := Filled(prefix);
      StepKeeps(read, before, Scan(read, prefix).value.1, fields[n], n + 1);
    }
  }

  /** One successful turn keeps the stripped field when it is not blank and adds its time. */
  lemma {:induction false} StepKeeps(read: string -> Option<nat>, kept: seq<string>, total: nat, field: string, lap: nat)
    requires AllRead(read, kept) && total == LapSum(read, kept)
    requires Step(read, Success((kept, total)), field, lap).Success?
    ensures var r := Step(read, Success((kept, total)), field, lap).value;
      && r.0 == kept + (if Strip(field) == "" then [] else [Strip(field)])
      && AllRead(read, r.0) && r.1 == LapSum(read, r.0)
  {
    var t := Strip(field);
    if t != "" {
      AllReadSnoc(read, kept, t);
    } else {
      assert kept + [] == kept;
    }
  }

  /** A failing turn passes an earlier failure on, or fails on its own field. */
  lemma {:induction false} StepFails(read: string -> Option<nat>, acc: Result<(seq<string>, nat), LapError>, field: string, lap: nat)
    requires Step(read, acc, field, lap).Failure?
    ensures acc.Failure? ==> Step(read, acc, field, lap) == acc
    ensures acc.Success? ==> var e := Step(read, acc, field, lap).error;
      && e.lap == lap && e.text == Strip(field) && e.text != "" && read(e.text).None?
  {
  }

  lemma {:induction false} TakeOfTake(s: seq<string>, n: nat, k: nat)
    requires k <= n <= |s|
    ensures s[..n][..k] == s[..k]
  {
  }

  lemma {:induction false} HeadRest(s: seq<string>)
    requires s != []
    ensures [s[0]] + s[1..] == s
    ensures forall i :: 0 <= i < |s| - 1 ==> s[1..][i] == s[i + 1]
  {
  }

  lemma {:induction false} InitLast(s: seq<string>)
    requires s != []
    ensures s[..|s| - 1] + [s[|s| - 1]] == s
  {
  }

  /** On failure the dialog names a non-blank text that does not read. */
  lemma {:induction false} ScanFails(read: string -> Option<nat>, fields: seq<string>)
    requires Scan(read, fields).Failure?
    ensures Scan(read, fields).error.text != "" && read(Scan(read, fields).error.text).None?
    decreases |fields|
  {
    var prefix := fields[..|fields| - 1];
    StepFails(read, Scan(read, prefix), fields[|fields| - 1], |fields|);
    if Scan(read, prefix).Failure? {
      ScanFails(read, prefix);
    }
  }

  /** The text the dialog names is the stripped field at the lap it names. */
  lemma {:induction false} ScanFailsAt(read: string -> Option<nat>, fields: seq<string>)
    requires Scan(read, fields).Failure?
    ensures var e := Scan(read, fields).error;
      1 <= e.lap <= |fields| && e.text == Strip(fields[e.lap - 1])
    decreases |fields|, 1
  {
    var n := |fields| - 1;
    StepFails(read, Scan(read, fields[..n]), fields[n], n + 1);
    if Scan(read, fields[..n]).Failure? {
      EarlierFailure(read, fields);
    } else {
      assert Scan(read, fields).error.lap - 1 == n;
    }
  }

  /** A failure already met among the earlier fields is the one the dialog names. */
  lemma {:induction false} EarlierFailure(read: string -> Option<nat>, fields: seq<string>)
    requires fields != [] && Scan(read, fields[..|fields| - 1]).Failure?
    ensures Scan(read, fields) == Scan(read, fields[..|fields| - 1])
    ensures var e := Scan(read, fields).error;
      1 <= e.lap <= |fields| && e.text == Strip(fields[e.lap - 1])
    decreases |fields|, 0
  {
    var prefix := fields[..|fields| - 1];
    ScanFailsAt(read, prefix);
    var j := Scan(read, prefix).error.lap - 1;
    assert fields[j] == prefix[j];
  }

  /** The field the dialog names is the first one that does not read: the fields before it read. */
  lemma {:induction false} ScanFailsFirst(read: string -> Option<nat>, fields: seq<string>)
    requires Scan(read, fields).Failure?
    ensures 1 <= Scan(read, fields).error.lap <= |fields|
    ensures Scan(read, fields[..Scan(read, fields).error.lap - 1]).Success?
    decreases |fields|
  {
    var n := |fields| - 1;
    var prefix := fields[..n];
    StepFails(read, Scan(read, prefix), fields[n], n + 1);
    if Scan(read, prefix).Failure? {
      ScanFailsFirst(read, prefix);
      var k := Scan(read, prefix).error.lap - 1;
      assert Scan(read, fields).error.lap - 1 == k;
      TakeOfTake(fields, n, k);
      assert fields[..Scan(read, fields).error.lap - 1] == prefix[..k];
    } else {
      assert Scan(read, fields).error.lap - 1 == n;
      assert fields[..Scan(read, fields).error.lap - 1] == prefix;
    }
  }

  /** A lap that reads is made of digits, ':' and '.' only. */
  lemma {:induction false} ClockChars(s: string)
    requires ParseClock(s).Some?
    ensures forall k :: 0 <= k < |s| ==> IsDigit(s[k]) || s[k] == ':'
  {
    var parts := SplitChar(s, ':');
    forall k | 0 <= k < |s| && s[k] != ':' ensures IsDigit(s[k]) {
      SplitCharCovers(s, ':', k);
      var j :| 0 <= j < |parts| && s[k] in parts[j];
      var x :| 0 <= x < |parts[j]| && parts[j][x] == s[k];
    }
  }

  lemma {:induction false} LapChars(t: string)
    requires ParseLap(t).Some?
    ensures t != [] && forall k :: 0 <= k < |t| ==> IsDigit(t[k]) || t[k] == ':' || t[k] == '.'
  {
    if '.' in t {
      var parts := SplitChar(t, '.');
      ClockChars(parts[0]);
      assert RightPad(parts[1], 6)[..|parts[1]|] == parts[1];
      assert AllDigits(parts[1]) by {
        forall x | 0 <= x < |parts[1]| ensures IsDigit(parts[1][x]) {
          assert parts[1][x] == RightPad(parts[1], 6)[x];
        }
      }
      forall k | 0 <= k < |t| && t[k] != '.' ensures IsDigit(t[k]) || t[k] == ':' {
        SplitCharCovers(t, '.', k);
        var j :| 0 <= j < |parts| && t[k] in parts[j];
        var x :| 0 <= x < |parts[j]| && parts[j][x] == t[k];
      }
    } else {
      ClockChars(t);
    }
  }

  /** A lap that reads is left as it is by strip and by the JSON encoder. */
  lemma {:induction false} LapIsClean(t: string)
    requires ParseLap(t).Some?
    ensures t != "" && Strip(t) == t && Plain(t)
  {
    LapChars(t);
    StripUnpadded(t);
  }

  /** ".5" and ".500" are both half a second: zeros after the last digit of a fraction of up to six digits do not count. */
  lemma {:induction false} FractionTrailingZero(f: string)
    requires |f| < 6
    ensures ParseFraction(f + "0") == ParseFraction(f)
  {
    var a, b := RightPad(f + "0", 6), RightPad(f, 6);
    assert |a| == |b| == 6;
    forall i | 0 <= i < 6 ensures a[i] == b[i] {
      if i < |f| {
        assert a[..|f| + 1][i] == (f + "0")[i];
        assert b[..|f|][i] == f[i];
      } else if i == |f| {
        assert a[..|f| + 1][i] == '0';
      }
    }
    assert a == b;
  }

  lemma {:induction false} DigitsHaveNoSeparator(s: string)
    requires AllDigits(s)
    ensures ':' !in s && '.' !in s && '"' !in s
  {
  }

  lemma {:induction false} ClockArith(secs: nat)
    ensures (secs / 3600) * 3600 + (secs % 3600 / 60) * 60 + secs % 3600 % 60 == secs
  {
  }

  lemma {:induction false} MillisArith(us: nat)
    ensures (us / 1000000) * 1000000 + (us % 1000000 / 1000) * 1000 == us - us % 1000
  {
    var q, r := us / 1000, us % 1000;
    assert us == q * 1000 + r;
    assert us / 1000000 == q / 1000;
    assert us % 1000000 == (q % 1000) * 1000 + r;
    assert us % 1000000 / 1000 == q % 1000;
    assert (q / 1000) * 1000000 + (q % 1000) * 1000 == (q / 1000 * 1000 + q % 1000) * 1000;
  }

  lemma {:induction false} TwoDigitsFacts(n: nat)
    ensures AllDigits(TwoDigits(n)) && ParseNat(TwoDigits(n)) == Some(n)
    ensures ':' !in TwoDigits(n) && '.' !in TwoDigits(n)
  {
    ZeroPadRoundTrip(n, 2);
    DigitsHaveNoSeparator(TwoDigits(n));
  }

  /** Three colon-free parts glued with colons split back apart. */
  lemma {:induction false} SplitThree(h: string, m: string, s: string)
    requires ':' !in h && ':' !in m && ':' !in s
    ensures SplitChar(h + ":" + m + ":" + s, ':') == [h, m, s]
  {
    assert h + ":" + m + ":" + s == h + [':'] + (m + [':'] + s);
    SplitCharFirst(h, ':', m + [':'] + s);
    SplitCharFirst(m, ':', s);
    SplitCharNone(s, ':');
  }

  lemma {:induction false} ClockFieldsReadBack(hours: nat, minutes: nat, seconds: nat)
    ensures ParseClock(Clock(hours, minutes, seconds)).Some?
    ensures ParseClock(Clock(hours, minutes, seconds)).value == hours * 3600 + minutes * 60 + seconds
  {
    var h, m, s := TwoDigits(hours), TwoDigits(minutes), TwoDigits(seconds);
    TwoDigitsFacts(hours);
    TwoDigitsFacts(minutes);
    TwoDigitsFacts(seconds);
    SplitThree(h, m, s);
  }

  lemma {:induction false} ClockHasNoDot(hours: nat, minutes: nat, seconds: nat)
    ensures '.' !in Clock(hours, minutes, seconds)
  {
    var h, m, s := TwoDigits(hours), TwoDigits(minutes), TwoDigits(seconds);
    TwoDigitsFacts(hours);
    TwoDigitsFacts(minutes);
    TwoDigitsFacts(seconds);
    assert '.' !in h + ":" + m;
  }

  /** The clock part of the total reads back as the whole seconds it was made from. */
  lemma {:induction false} ClockReadsBack(secs: nat)
    ensures ParseClock(ClockText(secs)) == Some(secs)
    ensures '.' !in ClockText(secs)
  {
    ClockFieldsReadBack(secs / 3600, secs % 3600 / 60, secs % 3600 % 60);
    ClockHasNoDot(secs / 3600, secs % 3600 / 60, secs % 3600 % 60);
    ClockArith(secs);
  }

  /** `str(ms).zfill(3)` for a count of milliseconds reads back, as a fraction, as that many thousand microseconds. */
  lemma {:induction false} MillisReadBack(ms: nat)
    requires ms < 1000
    ensures ParseFraction(ZeroPad(NatToString(ms), 3)).Some? && ParseFraction(ZeroPad(NatToString(ms), 3)).value == ms * 1000
    ensures '.' !in ZeroPad(NatToString(ms), 3)
  {
    var f := ZeroPad(NatToString(ms), 3);
    assert AllDigits(f) && f != [] && DigitsValue(f) == ms && |f| == 3 by {
      ZeroPadRoundTrip(ms, 3);
    }
    assert RightPad(f, 6) == f + "000" by {
      PadToSix(f);
    }
    ThousandFold(f);
    DigitsHaveNoSeparator(f);
  }

  lemma {:induction false} PadToSix(f: string)
    requires |f| == 3
    ensures RightPad(f, 6) == f + "000"
  {
  }


  /** A clock and a fraction glued by '.' split back apart. */
  lemma {:induction false} SplitAtDot(head: string, f: string)
    requires '.' !in head && '.' !in f
    ensures '.' in head + "." + f
    ensures SplitChar(head + "." + f, '.') == [head, f]
  {
    assert (head + "." + f)[|head|] == '.';
    assert head + "." + f == head + ['.'] + f;
    SplitCharFirst(head, '.', f);
    SplitCharNone(f, '.');
  }

  lemma {:induction false} LapWithFraction(t: string, head: string, f: string, secs: nat, fr: nat)
    requires t == head + "." + f && '.' !in head && '.' !in f
    requires ParseClock(head) == Some(secs) && ParseFraction(f) == Some(fr)
    ensures ParseLap(t).Some? && ParseLap(t).value == secs * 1000000 + fr
  {
    SplitAtDot(head, f);
  }

  lemma {:induction false} LapWithoutFraction(t: string, secs: nat)
    requires '.' !in t && ParseClock(t) == Some(secs)
    ensures ParseLap(t).Some? && ParseLap(t).value == secs * 1000000
  {
  }

  lemma {:induction false} WithFractionReadsBack(secs: nat, ms: nat)
    requires ms < 1000
    ensures var t := ClockText(secs) + "." + ZeroPad(NatToString(ms), 3);
      ParseLap(t).Some? && ParseLap(t).value == secs * 1000000 + ms * 1000
  {
    var head, f := ClockText(secs), ZeroPad(NatToString(ms), 3);
    assert ParseClock(head) == Some(secs) && '.' !in head by {
      ClockReadsBack(secs);
    }
    var fr := ms * 1000;
    assert ParseFraction(f) == Some(fr) && '.' !in f by {
      MillisReadBack(ms);
    }
    LapWithFraction(head + "." + f, head, f, secs, fr);
  }

  lemma {:induction false} WholeReadsBack(secs: nat)
    ensures ParseLap(ClockText(secs)).Some? && ParseLap(ClockText(secs)).value == secs * 1000000
  {
    var head := ClockText(secs);
    assert ParseClock(head) == Some(secs) && '.' !in head by {
      ClockReadsBack(secs);
    }
    LapWithoutFraction(head, secs);
  }

  lemma {:induction false} StampReadsBack(secs: nat, ms: nat, fraction: bool)
    requires ms < 1000
    ensures ParseLap(Stamp(secs, ms, fraction)).Some?
    ensures ParseLap(Stamp(secs, ms, fraction)).value == secs * 1000000 + if fraction then ms * 1000 else 0
  {
    if fraction {
      WithFractionReadsBack(secs, ms);
    } else {
      WholeReadsBack(secs);
    }
  }

  /** Reading a written total back gives it to the millisecond: the format truncates the microseconds. */
  lemma {:induction false} FormatReadsBack(us: nat)
    ensures ParseLap(FormatTotal(us)).Some? && ParseLap(FormatTotal(us)).value == us - us % 1000
  {
    var secs, ms, fraction := us / 1000000, us % 1000000 / 1000, us % 1000000 > 0;
    StampReadsBack(secs, ms, fraction);
    assert secs * 1000000 + (if fraction then ms * 1000 else 0) == us - us % 1000 by {
      MillisArith(us);
    }
  }

  /** Less than a millisecond past the whole seconds still shows a fraction, written ".000". */
  lemma {:induction false} SubMillisecondShowsZeros(us: nat)
    requires 0 < us % 1000000 < 1000
    ensures FormatTotal(us) == ClockText(us / 1000000) + ".000"
  {
    var secs, ms := us / 1000000, us % 1000000 / 1000;
    assert ms == 0;
    ZeroMillisStamp(secs, ms);
  }

  lemma {:induction false} ZeroMillisStamp(secs: nat, ms: nat)
    requires ms == 0
    ensures Stamp(secs, ms, true) == ClockText(secs) + ".000"
  {
    ZeroMillis();
    AppendMillis(ClockText(secs), ZeroPad(NatToString(ms), 3));
  }

  lemma {:induction false} AppendMillis(clock: string, millis: string)
    requires millis == "000"
    ensures clock + "." + millis == clock + ".000"
  {
    assert "." + millis == ".000";
  }

  lemma {:induction false} ZeroMillis()
    ensures ZeroPad(NatToString(0), 3) == "000"
  {
    assert NatToString(0) == [DigitChar(0)];
    assert Repeat('0', 2) == "00";
  }

  /** Non-blank text that stripping leaves alone. */
  predicate Clean(t: string) {
    t != "" && Strip(t) == t
  }

  /** Fields that are already clean laps are kept as they are. */
  lemma {:induction false} FilledClean(laps: seq<string>)
    requires forall i :: 0 <= i < |laps| ==> Clean(laps[i])
    ensures Filled(laps) == laps
    decreases |laps|
  {
    if laps != [] {
      var n := |laps| - 1;
      var t := laps[n];
      assert Clean(t);
      assert Filled(laps) == Filled(laps[..n]) + [t];
      assert forall i :: 0 <= i < n ==> laps[..n][i] == laps[i];
      FilledClean(laps[..n]);
      InitLast(laps);
    }
  }

  /** Blank fields after the laps leave exactly the laps. */
  lemma {:induction false} FilledSkipsBlanks(laps: seq<string>, fields: seq<string>)
    requires |laps| <= |fields| && fields[..|laps|] == laps
    requires forall i :: 0 <= i < |laps| ==> Clean(laps[i])
    requires forall i :: |laps| <= i < |fields| ==> fields[i] == ""
    ensures Filled(fields) == laps
    decreases |fields|
  {
    if |fields| == |laps| {
      TakeAll(fields);
      FilledClean(laps);
    } else {
      var n := |fields| - 1;
      assert Filled(fields) == Filled(fields[..n]) by {
        assert fields[n] == "";
      }
      TakeOfTake(fields, n, |laps|);
      FilledSkipsBlanks(laps, fields[..n]);
    }
  }

  lemma {:induction false} TakeAll(s: seq<string>)
    ensures s[..|s|] == s
  {
  }


  /**
   * Reopening the dialog on the laps it stored and confirming it unchanged
   * stores the same laps and the same total.
   */
  lemma {:induction false} ReopenKeepsLaps(fields: seq<string>, count: nat)
    requires Scan(ParseLap, fields).Success? && |Filled(fields)| <= count
    ensures Times(Prefill(count, Some(EncodeList(Filled(fields))))) == Times(fields)
  {
    var kept := Filled(fields);
    KeptAreClean(fields);
    var again := Prefill(count, Some(EncodeList(kept)));
    ReopenFilled(kept, count);
    assert Scan(ParseLap, again) == Scan(ParseLap, fields) by {
      ScanKeeps(ParseLap, fields);
      ScanSucceeds(ParseLap, again);
      ScanKeeps(ParseLap, again);
    }
    SameScanSameTimes(again, fields);
  }

  /** The laps the dialog keeps are clean, quote-free text. */
  lemma {:induction false} KeptAreClean(fields: seq<string>)
    requires Scan(ParseLap, fields).Success?
    ensures forall i :: 0 <= i < |Filled(fields)| ==> Clean(Filled(fields)[i]) && Plain(Filled(fields)[i])
  {
    var kept := Filled(fields);
    assert AllRead(ParseLap, kept) by {
      ScanKeeps(ParseLap, fields);
    }
    forall i | 0 <= i < |kept| ensures Clean(kept[i]) && Plain(kept[i]) {
      assert ParseLap(kept[i]).Some?;
      LapIsClean(kept[i]);
    }
  }

  /** Stored laps fill the first fields and leave the others blank. */
  lemma {:induction false} ReopenFilled(kept: seq<string>, count: nat)
    requires |kept| <= count && forall i :: 0 <= i < |kept| ==> Clean(kept[i]) && Plain(kept[i])
    ensures Filled(Prefill(count, Some(EncodeList(kept)))) == kept
  {
    assert Stored(Some(EncodeList(kept))) == kept by {
      EncodeDecode(kept);
      assert EncodeList(kept) != "";
    }
    var again := Prefill(count, Some(EncodeList(kept)));
    assert again[..|kept|] == kept;
    FilledSkipsBlanks(kept, again);
  }

  lemma {:induction false} SameScanSameTimes(a: seq<string>, b: seq<string>)
    requires Scan(ParseLap, a) == Scan(ParseLap, b)
    ensures Times(a) == Times(b)
  {
  }

  /** Fields that are all blank are skipped: nothing is kept and the sum is zero. */
  lemma {:induction false} BlankScan(read: string -> Option<nat>, fields: seq<string>)
    requires forall i :: 0 <= i < |fields| ==> Strip(fields[i]) == ""
    ensures Scan(read, fields) == Success(([], 0))
    decreases |fields|
  {
    if fields != [] {
      var n := |fields| - 1;
      var init := fields[..n];
      assert forall i :: 0 <= i < |init| ==> init[i] == fields[i];
      BlankScan(read, init);
      BlankStep(read, fields[n], |fields|);
    }
  }

  lemma {:induction false} BlankStep(read: string -> Option<nat>, field: string, lap: nat)
    requires Strip(field) == ""
    ensures Step(read, Success(([], 0)), field, lap) == Success(([], 0))
  {
  }

  /** With every field blank the dialog writes the empty list and a total of "00:00:00". */
  lemma {:induction false} AllBlankTotal(fields: seq<string>)
    requires forall i :: 0 <= i < |fields| ==> Strip(fields[i]) == ""
    ensures Times(fields) == Success(("[]", "00:00:00"))
  {
    BlankScan(ParseLap, fields);
    ZeroTotal();
    assert EncodeList([]) == "[]";
  }

  lemma {:induction false} ZeroTotal()
    ensures FormatTotal(0) == "00:00:00"
  {
    ClockTextOf(0, "00:00:00");
  }

  /** Ten minutes and twelve and a half minutes add up to "00:22:30.500". */
  lemma {:induction false} TwoLapsTotal(a: string, b: string)
    requires a == "00:10:00" && b == "00:12:30.500"
    ensures Times([a, b]) == Success(("[\"00:10:00\", \"00:12:30.500\"]", "00:22:30.500"))
  {
    TwoLapsAnswer(a, b, "[\"00:10:00\", \"00:12:30.500\"]", "00:22:30.500");
  }

  lemma {:induction false} TwoLapsAnswer(a: string, b: string, list: string, text: string)
    requires a == "00:10:00" && b == "00:12:30.500"
    requires list == "[\"00:10:00\", \"00:12:30.500\"]" && text == "00:22:30.500"
    ensures Times([a, b]) == Success((list, text))
  {
    TwoLapsRead(a, b);
    TwoLapsText(1350500000, [a, b]);
    TimesOf([a, b], [a, b], 1350500000, list, text);
  }

  lemma {:induction false} TwoLapsRead(a: string, b: string)
    requires a == "00:10:00" && b == "00:12:30.500"
    ensures Scan(ParseLap, [a, b]) == Success(([a, b], 1350500000))
  {
    TenMinutes(a);
    TwelveAndAHalf(b);
    var total := TwoLapsScan(a, b);
  }

  /** Two clean laps of 600 s and 750.5 s are both kept, and add up to 1350.5 seconds. */
  lemma {:induction false} TwoLapsScan(a: string, b: string) returns (total: nat)
    requires Clean(a) && ParseLap(a).Some? && ParseLap(a).value == 600000000
    requires Clean(b) && ParseLap(b).Some? && ParseLap(b).value == 750500000
    ensures total == 1350500000
    ensures Scan(ParseLap, [a, b]) == Success(([a, b], total))
  {
    ScanTwo(ParseLap, a, b);
    total := ParseLap(a).value + ParseLap(b).value;
  }

  /** The dialog's answer once the scan, the list text and the total text are known. */
  lemma {:induction false} TimesOf(fields: seq<string>, kept: seq<string>, total: nat, list: string, text: string)
    requires Scan(ParseLap, fields) == Success((kept, total))
    requires EncodeList(kept) == list && FormatTotal(total) == text
    ensures Times(fields) == Success((list, text))
  {
  }

  /** Two clean laps that read are both kept, and their times added. */
  lemma {:induction false} ScanTwo(read: string -> Option<nat>, a: string, b: string)
    requires Clean(a) && Clean(b) && read(a).Some? && read(b).Some?
    ensures Scan(read, [a, b]) == Success(([a, b], read(a).value + read(b).value))
  {
    var fields := [a, b];
    assert fields[..1] == [a];
    assert [a][..0] == [];
    assert Scan(read, [a]) == Step(read, Success(([], 0)), a, 1);
    assert [] + [a] == [a] && [a] + [b] == [a, b];
    assert Scan(read, fields) == Step(read, Scan(read, [a]), b, 2);
  }

  /** The two digits of a number below 100. */
  lemma {:induction false} TwoDigitsOf(n: nat)
    requires n < 100
    ensures TwoDigits(n) == [DigitChar(n / 10), DigitChar(n % 10)]
  {
    var t := NatToString(n);
    if n < 10 {
      assert t == [DigitChar(n)];
      assert n / 10 == 0 && n % 10 == n;
      assert ZeroPad(t, 2) == Repeat('0', 1) + t;
      assert Repeat('0', 1) == [DigitChar(0)];
    } else {
      var q := n / 10;
      assert q < 10;
      assert NatToString(q) == [DigitChar(q)];
      assert t == NatToString(q) + [DigitChar(n % 10)];
      assert ZeroPad(t, 2) == t;
    }
  }

  lemma {:induction false} ClockDigits(h: nat, m: nat, s: nat)
    requires h < 100 && m < 100 && s < 100
    ensures Clock(h, m, s) ==
      [DigitChar(h / 10), DigitChar(h % 10), ':', DigitChar(m / 10), DigitChar(m % 10), ':',
       DigitChar(s / 10), DigitChar(s % 10)]
  {
    TwoDigitsOf(h);
    TwoDigitsOf(m);
    TwoDigitsOf(s);
    GlueClock(TwoDigits(h), TwoDigits(m), TwoDigits(s));
  }

  lemma {:induction false} GlueClock(x: string, y: string, z: string)
    requires |x| == 2 && |y| == 2 && |z| == 2
    ensures x + ":" + y + ":" + z == [x[0], x[1], ':', y[0], y[1], ':', z[0], z[1]]
  {
  }

  lemma {:induction false} FiveHundredMillis()
    ensures ZeroPad(NatToString(500), 3) == "500"
  {
    assert NatToString(500) == NatToString(50) + [DigitChar(0)];
    assert NatToString(50) == NatToString(5) + [DigitChar(0)];
  }

  lemma {:induction false} TenMinutes(a: string)
    requires a == "00:10:00"
    ensures Clean(a) && ParseLap(a).Some? && ParseLap(a).value == 600000000
  {
    TenMinutesReads(a);
    StripUnpadded(a);
  }

  lemma {:induction false} TenMinutesReads(a: string)
    requires a == "00:10:00"
    ensures ParseLap(a).Some? && ParseLap(a).value == 600000000
  {
    TenMinutesClock();
    WholeReadsBack(600);
  }

  lemma {:induction false} TenMinutesClock()
    ensures ClockText(600) == "00:10:00"
  {
    ClockTextOf(600, "00:10:00");
  }

  lemma {:induction false} TwelveAndAHalf(b: string)
    requires b == "00:12:30.500"
    ensures Clean(b) && ParseLap(b).Some? && ParseLap(b).value == 750500000
  {
    TwelveAndAHalfReads(b);
    StripUnpadded(b);
  }

  lemma {:induction false} TwelveAndAHalfReads(b: string)
    requires b == "00:12:30.500"
    ensures ParseLap(b).Some? && ParseLap(b).value == 750500000
  {
    TwelveThirty();
    WithFractionReadsBack(750, 500);
  }

  lemma {:induction false} TwelveThirty()
    ensures ClockText(750) + "." + ZeroPad(NatToString(500), 3) == "00:12:30.500"
  {
    TwelveThirtyClock();
    FiveHundredMillis();
    TwelveThirtyGlued();
  }

  lemma {:induction false} TwelveThirtyClock()
    ensures ClockText(750) == "00:12:30"
  {
    ClockTextOf(750, "00:12:30");
  }

  lemma {:induction false} TwelveThirtyGlued()
    ensures "00:12:30" + "." + "500" == "00:12:30.500"
  {
  }

  lemma {:induction false} TwoLapsText(us: nat, laps: seq<string>)
    requires us == 1350500000 && laps == ["00:10:00", "00:12:30.500"]
    ensures FormatTotal(us) == "00:22:30.500"
    ensures EncodeList(laps) == "[\"00:10:00\", \"00:12:30.500\"]"
  {
    TwoLapsTotalText(us);
    TwoLapsList(laps);
  }

  lemma {:induction false} TwoLapsTotalText(us: nat)
    requires us == 1350500000
    ensures FormatTotal(us) == "00:22:30.500"
  {
    var secs, ms := us / 1000000, us % 1000000 / 1000;
    assert secs == 1350 && ms == 500 && us % 1000000 > 0;
    TwentyTwoThirty();
  }

  lemma {:induction false} TwoLapsList(laps: seq<string>)
    requires laps == ["00:10:00", "00:12:30.500"]
    ensures EncodeList(laps) == "[\"00:10:00\", \"00:12:30.500\"]"
  {
    EncodeTwo(laps[0], laps[1]);
    assert laps == [laps[0], laps[1]];
    TwoLapsGlued();
  }

  /** Two laps are written as `["a", "b"]`. */
  lemma {:induction false} EncodeTwo(a: string, b: string)
    ensures EncodeList([a, b]) == "[" + Quote(a) + ", " + Quote(b) + "]"
  {
    var q := Quoted([a, b]);
    assert q[1..] == [Quote(b)];
    assert Join(q, ", ") == Quote(a) + ", " + Quote(b);
  }

  lemma {:induction false} TwoLapsGlued()
    ensures "[" + Quote("00:10:00") + ", " + Quote("00:12:30.500") + "]" == "[\"00:10:00\", \"00:12:30.500\"]"
  {
  }

  lemma {:induction false} TwentyTwoThirty()
    ensures ClockText(1350) + "." + ZeroPad(NatToString(500), 3) == "00:22:30.500"
  {
    TwentyTwoThirtyClock();
    FiveHundredMillis();
    TwentyTwoThirtyGlued();
  }

  lemma {:induction false} TwentyTwoThirtyClock()
    ensures ClockText(1350) == "00:22:30"
  {
    ClockTextOf(1350, "00:22:30");
  }

  lemma {:induction false} TwentyTwoThirtyGlued()
    ensures "00:22:30" + "." + "500" == "00:22:30.500"
  {
  }

  /** The clock of a number of seconds below 100 hours, written out. */
  lemma {:induction false} ClockTextOf(secs: nat, text: string)
    requires secs < 360000
    requires var h, m, s := secs / 3600, secs % 3600 / 60, secs % 3600 % 60;
      text == [DigitChar(h / 10), DigitChar(h % 10), ':', DigitChar(m / 10), DigitChar(m % 10), ':',
               DigitChar(s / 10), DigitChar(s % 10)]
    ensures ClockText(secs) == text
  {
    ClockDigits(secs / 3600, secs % 3600 / 60, secs % 3600 % 60);
  }
}
