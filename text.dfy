/**
 * Text primitives the core relies on: Python's `str.strip`, `str.split`,
 * `str.lower`, substring tests, `int()` on digit strings, the
 * zero-padded number formatting of f-strings, and the byte-wise ordering
 * SQLite applies to TEXT columns.
 */
module Text {
  import opened Wrappers

  // ---------------------------------------------------------------------
  // Whitespace and strip

  /** The ASCII characters `str.isspace()` accepts (tab, LF, VT, FF, CR, FS..US, space). */
  predicate IsSpace(c: char) {
    var n := c as int;
    n == 32 || (9 <= n <= 13) || (28 <= n <= 31)
  }

  function TrimLeft(s: string): (r: string)
    ensures |r| <= |s| && r == s[|s| - |r|..]
    ensures forall i :: 0 <= i < |s| - |r| ==> IsSpace(s[i])
    ensures r != [] ==> !IsSpace(r[0])
  {
    if s != [] && IsSpace(s[0]) then
      var r := TrimLeft(s[1..]);
      assert s[1..][|s| - 1 - |r|..] == s[|s| - |r|..];
      assert forall i :: 1 <= i < |s| - |r| ==> s[1..][i - 1] == s[i];
      r
    else s
  }

  function TrimRight(s: string): (r: string)
    ensures |r| <= |s| && r == s[..|r|]
    ensures forall i :: |r| <= i < |s| ==> IsSpace(s[i])
    ensures r != [] ==> !IsSpace(r[|r| - 1])
  {
    if s != [] && IsSpace(s[|s| - 1]) then TrimRight(s[..|s| - 1]) else s
  }

  /** Python's `s.strip()`: leading and trailing whitespace removed. */
  function Strip(s: string): (r: string)
    ensures |r| <= |s|
    ensures r != [] ==> !IsSpace(r[0]) && !IsSpace(r[|r| - 1])
    ensures r == [] <==> forall i :: 0 <= i < |s| ==> IsSpace(s[i])
  {
    TrimRight(TrimLeft(s))
  }

  /**
   * What Strip keeps: the slice of `s` that starts after the leading
   * whitespace. Everything before and after that slice is whitespace, and
   * the slice neither starts nor ends with whitespace, so it is the longest
   * such slice.
   */
  lemma {:induction false} StripSlice(s: string)
    ensures var r, i := Strip(s), |s| - |TrimLeft(s)|;
      && i + |r| <= |s| && r == s[i..i + |r|]
      && (forall k :: 0 <= k < i ==> IsSpace(s[k]))
      && (forall k :: i + |r| <= k < |s| ==> IsSpace(s[k]))
  {
    var t := TrimLeft(s);
    TrimmedSlice(s, t, TrimRight(t));
  }

  /** A prefix of a suffix, followed only by whitespace within the suffix, is a slice followed by whitespace. */
  lemma {:induction false} TrimmedSlice(s: string, t: string, r: string)
    requires |t| <= |s| && t == s[|s| - |t|..]
    requires |r| <= |t| && r == t[..|r|]
    requires forall k :: |r| <= k < |t| ==> IsSpace(t[k])
    ensures var i := |s| - |t|;
      && r == s[i..i + |r|]
      && forall k :: i + |r| <= k < |s| ==> IsSpace(s[k])
  {
    var i := |s| - |t|;
    assert s[i..][..|r|] == s[i..i + |r|];
    forall k | i + |r| <= k < |s|
      ensures IsSpace(s[k])
    {
      assert s[k] == t[k - i];
    }
  }

  /** Text without surrounding whitespace is left as it is by Strip. */
  lemma {:induction false} StripUnpadded(s: string)
    requires s != [] ==> !IsSpace(s[0]) && !IsSpace(s[|s| - 1])
    ensures Strip(s) == s
  {
  }

  // ---------------------------------------------------------------------
  // Byte-wise order (SQLite BINARY collation)

  /**
   * SQLite compares TEXT with memcmp on the UTF-8 bytes, a proper prefix
   * first. UTF-8 byte order coincides with code point order, so the model
   * compares characters.
   */
  predicate Less(a: string, b: string)
    decreases |a|
  {
    if a == [] then b != []
    else if b == [] then false
    else if a[0] != b[0] then a[0] < b[0]
    else Less(a[1..], b[1..])
  }

  predicate LessEq(a: string, b: string) {
    a == b || Less(a, b)
  }

  lemma {:induction false} LessIrreflexive(a: string)
    ensures !Less(a, a)
    decreases |a|
  {
    if a != [] {
      LessIrreflexive(a[1..]);
    }
  }

  lemma {:induction false} LessTotal(a: string, b: string)
    ensures a == b || Less(a, b) || Less(b, a)
    decreases |a|
  {
    if a != [] && b != [] && a[0] == b[0] {
      LessTotal(a[1..], b[1..]);
      if a[1..] == b[1..] {
        assert a == [a[0]] + a[1..] && b == [b[0]] + b[1..];
      }
    }
  }

  lemma {:induction false} LessAsymmetric(a: string, b: string)
    ensures !(Less(a, b) && Less(b, a))
    decreases |a|
  {
    if a != [] && b != [] && a[0] == b[0] {
      LessAsymmetric(a[1..], b[1..]);
    }
  }

  lemma {:induction false} LessTransitive(a: string, b: string, c: string)
    requires Less(a, b) && Less(b, c)
    ensures Less(a, c)
    decreases |a|
  {
    if a != [] && a[0] == b[0] && b[0] == c[0] {
      LessTransitive(a[1..], b[1..], c[1..]);
    }
  }

  lemma {:induction false} LessEqTransitive(a: string, b: string, c: string)
    requires LessEq(a, b) && LessEq(b, c)
    ensures LessEq(a, c)
  {
    if a != b && b != c {
      LessTransitive(a, b, c);
    }
  }

  // ---------------------------------------------------------------------
  // Searching and splitting

  predicate StartsWith(s: string, p: string) {
    |p| <= |s| && s[..|p|] == p
  }

  /** Python's `p in s` on strings. */
  predicate Contains(s: string, p: string)
    decreases |s|
  {
    StartsWith(s, p) || (s != [] && Contains(s[1..], p))
  }

  /**
   * Python's `s.split(sep, 1)`: the text before the first occurrence of a
   * non-empty separator and, when there is one, the text after it.
   */
  datatype Halves = Halves(head: string, tail: Option<string>)

  function SplitFirst(s: string, sep: string): (h: Halves)
    requires sep != []
    ensures h.tail.None? ==> h.head == s
    ensures h.tail.Some? ==> s == h.head + sep + h.tail.value
    ensures h.tail.Some? ==> forall i :: 0 <= i < |h.head| ==> !StartsWith(s[i..], sep)
    decreases |s|
  {
    if |sep| > |s| then Halves(s, None)
    else if StartsWith(s, sep) then
      PrefixGlue(s, |sep|);
      Halves([], Some(s[|sep|..]))
    else
      var rest := SplitFirst(s[1..], sep);
      if rest.tail.None? then Halves(s, None)
      else
        ConsGlue(s, rest.head, sep, rest.tail.value);
        assert forall i :: 1 <= i <= |rest.head| ==> s[i..] == s[1..][i - 1..];
        Halves([s[0]] + rest.head, rest.tail)
  }

  /** The split finds a separator exactly when the text contains one. */
  lemma {:induction false} SplitFirstFinds(s: string, sep: string)
    requires sep != []
    ensures SplitFirst(s, sep).tail.Some? <==> Contains(s, sep)
    decreases |s|
  {
    if |sep| <= |s| && !StartsWith(s, sep) {
      SplitFirstFinds(s[1..], sep);
    } else if |sep| > |s| {
      NoRoom(s, sep);
    }
  }

  lemma {:induction false} NoRoom(s: string, p: string)
    requires |p| > |s|
    ensures !Contains(s, p)
    decreases |s|
  {
    if s != [] {
      NoRoom(s[1..], p);
    }
  }

  lemma {:induction false} PrefixGlue(s: string, n: nat)
    requires n <= |s|
    ensures s == [] + s[..n] + s[n..]
  {
  }

  lemma {:induction false} ConsGlue(s: string, a: string, b: string, c: string)
    requires s != [] && s[1..] == a + b + c
    ensures s == [s[0]] + a + b + c
  {
    assert s == [s[0]] + s[1..];
  }

  /** A lead glued to a text by a separator that the lead does not contain is split back apart. */
  lemma {:induction false} SplitFirstGlued(lead: string, sep: string, text: string)
    requires sep != [] && sep[0] !in lead
    ensures SplitFirst(lead + sep + text, sep) == Halves(lead, Some(text))
    decreases |lead|
  {
    var s := lead + sep + text;
    if lead == [] {
      assert s == sep + text;
      assert s[..|sep|] == sep;
      assert s[|sep|..] == text;
    } else {
      assert s[0] == lead[0] != sep[0];
      assert s[..|sep|] != sep by { assert s[..|sep|][0] != sep[0]; }
      assert s[1..] == lead[1..] + sep + text;
      SplitFirstGlued(lead[1..], sep, text);
      assert [lead[0]] + lead[1..] == lead;
    }
  }

  /** Python's `s.split(c)` for a one-character separator. */
  function SplitChar(s: string, c: char): (parts: seq<string>)
    ensures |parts| >= 1
    decreases |s|
  {
    if s == [] then [[]]
    else
      var rest := SplitChar(s[1..], c);
      if s[0] == c then [[]] + rest else [[s[0]] + rest[0]] + rest[1..]
  }

  lemma {:induction false} SplitCharNone(s: string, c: char)
    requires c !in s
    ensures SplitChar(s, c) == [s]
    decreases |s|
  {
    if s != [] {
      SplitCharNone(s[1..], c);
      assert [s[0]] + s[1..] == s;
    }
  }

  lemma {:induction false} SplitCharFirst(a: string, c: char, b: string)
    requires c !in a
    ensures SplitChar(a + [c] + b, c) == [a] + SplitChar(b, c)
    decreases |a|
  {
    var s := a + [c] + b;
    if a == [] {
      assert s[1..] == b;
    } else {
      assert s[1..] == a[1..] + [c] + b;
      SplitCharFirst(a[1..], c, b);
      assert [a[0]] + a[1..] == a;
    }
  }

  /** Every character of the text other than the separator lies in one of the parts. */
  lemma {:induction false} SplitCharCovers(s: string, c: char, i: nat)
    requires i < |s| && s[i] != c
    ensures exists j :: 0 <= j < |SplitChar(s, c)| && s[i] in SplitChar(s, c)[j]
    decreases |s|
  {
    var rest := SplitChar(s[1..], c);
    if i == 0 {
      assert s[0] in SplitChar(s, c)[0];
    } else {
      SplitCharCovers(s[1..], c, i - 1);
      var j :| 0 <= j < |rest| && s[1..][i - 1] in rest[j];
      if s[0] == c {
        assert SplitChar(s, c)[j + 1] == rest[j];
      } else if j == 0 {
        assert s[i] in SplitChar(s, c)[0];
      } else {
        assert SplitChar(s, c)[j] == rest[j];
      }
    }
  }

  // ---------------------------------------------------------------------
  // Case mapping

  /**
   * `lower()` on one character, for the ASCII letters and the Latin-1
   * capitals (`À`..`Þ` except `×`), which is where Spanish names live.
   */
  function LowerChar(c: char): char {
    if 'A' <= c <= 'Z' || ('\U{C0}' <= c <= '\U{DE}' && c != '\U{D7}') then (c as int + 32) as char else c
  }

  /** Python's `s.lower()` for the letters `LowerChar` maps. */
  function Lower(s: string): (r: string)
    ensures |r| == |s| && forall i :: 0 <= i < |s| ==> r[i] == LowerChar(s[i])
  {
    seq(|s|, i requires 0 <= i < |s| => LowerChar(s[i]))
  }

  // ---------------------------------------------------------------------
  // Decimal digits

  predicate IsDigit(c: char) {
    '0' <= c <= '9'
  }

  predicate AllDigits(s: string) {
    forall i :: 0 <= i < |s| ==> IsDigit(s[i])
  }

  function DigitValue(c: char): nat
    requires IsDigit(c)
  {
    c as int - '0' as int
  }

  function DigitChar(d: nat): (c: char)
    requires d < 10
    ensures IsDigit(c) && DigitValue(c) == d
  {
    ('0' as int + d) as char
  }

  /** The number an all-digit string denotes (no sign, no separators). */
  function DigitsValue(s: string): nat
    requires AllDigits(s)
    decreases |s|
  {
    if s == [] then 0 else DigitsValue(s[..|s| - 1]) * 10 + DigitValue(s[|s| - 1])
  }

  /** `int(s)` restricted to ASCII digit strings; anything else is rejected. */
  function ParseNat(s: string): (r: Option<nat>)
    ensures r.Some? <==> s != [] && AllDigits(s)
  {
    if s != [] && AllDigits(s) then Some(DigitsValue(s)) else None
  }

  /** `str(n)` for a natural number. */
  function NatToString(n: nat): (s: string)
    ensures s != [] && AllDigits(s) && DigitsValue(s) == n
    ensures n < 10 ==> |s| == 1
    ensures n < 100 ==> |s| <= 2
    ensures n < 1000 ==> |s| <= 3
  {
    if n < 10 then [DigitChar(n)]
    else
      var q, d := n / 10, n % 10;
      assert n == q * 10 + d;
      assert n < 100 ==> q < 10;
      assert n < 1000 ==> q < 100;
      var p := NatToString(q);
      var s := p + [DigitChar(d)];
      assert s[..|s| - 1] == p;
      s
  }

  /** Four digits at most below 10000. */
  lemma {:induction false} NatToStringWidth(n: nat)
    requires n < 10000
    ensures |NatToString(n)| <= 4
  {
    if n >= 10 {
      assert n / 10 < 1000;
    }
  }

  function Repeat(c: char, k: nat): (r: string)
    ensures |r| == k && forall i :: 0 <= i < k ==> r[i] == c
  {
    if k == 0 then [] else [c] + Repeat(c, k - 1)
  }

  /** `s.zfill(w)` / the `:0w` format on a digit string: zeros added on the left up to width w. */
  function ZeroPad(s: string, w: nat): (r: string)
    ensures |r| == if |s| >= w then |s| else w
    ensures r[|r| - |s|..] == s
    ensures forall i :: 0 <= i < |r| - |s| ==> r[i] == '0'
  {
    if |s| >= w then s else Repeat('0', w - |s|) + s
  }

  /** `s.ljust(w, '0')`: zeros added on the right up to width w. */
  function RightPad(s: string, w: nat): (r: string)
    ensures |r| == if |s| >= w then |s| else w
    ensures r[..|s|] == s
    ensures forall i :: |s| <= i < |r| ==> r[i] == '0'
  {
    if |s| >= w then s else s + Repeat('0', w - |s|)
  }

  lemma {:induction false} LeadingZeros(k: nat, s: string)
    requires AllDigits(s)
    ensures AllDigits(Repeat('0', k) + s)
    ensures DigitsValue(Repeat('0', k) + s) == DigitsValue(s)
    decreases |s|
  {
    var z := Repeat('0', k);
    if s == [] {
      assert z + s == z;
      AllZeros(k);
    } else {
      var t := z + s;
      assert t[..|t| - 1] == z + s[..|s| - 1];
      LeadingZeros(k, s[..|s| - 1]);
    }
  }

  lemma {:induction false} AllZeros(k: nat)
    ensures AllDigits(Repeat('0', k)) && DigitsValue(Repeat('0', k)) == 0
  {
    if k > 0 {
      AllZeros(k - 1);
      var z := Repeat('0', k);
      assert z == Repeat('0', k - 1) + ['0'] by {
        assert forall i :: 0 <= i < k ==> z[i] == (Repeat('0', k - 1) + ['0'])[i];
      }
      assert z[..k - 1] == Repeat('0', k - 1);
    }
  }

  /** A zero-padded decimal reads back as the number it was made from. */
  lemma {:induction false} ZeroPadRoundTrip(n: nat, w: nat)
    ensures ParseNat(ZeroPad(NatToString(n), w)) == Some(n)
    ensures AllDigits(ZeroPad(NatToString(n), w))
  {
    var s := NatToString(n);
    if |s| < w {
      LeadingZeros(w - |s|, s);
    }
  }

  lemma {:induction false} AppendDigit(t: string, d: char)
    requires AllDigits(t) && IsDigit(d)
    ensures AllDigits(t + [d]) && DigitsValue(t + [d]) == DigitsValue(t) * 10 + DigitValue(d)
  {
    assert (t + [d])[..|t|] == t;
  }

  /** Three zeros added on the right multiply the value by a thousand (milliseconds to microseconds). */
  lemma {:induction false} ThousandFold(s: string)
    requires AllDigits(s)
    ensures AllDigits(s + "000") && DigitsValue(s + "000") == DigitsValue(s) * 1000
  {
    AppendDigit(s, '0');
    AppendDigit(s + "0", '0');
    AppendDigit(s + "00", '0');
    assert s + "0" + "0" == s + "00";
    assert s + "00" + "0" == s + "000";
  }

  // ---------------------------------------------------------------------
  // Joining

  /** Python's `sep.join(parts)`. */
  function Join(parts: seq<string>, sep: string): string
    decreases |parts|
  {
    if parts == [] then ""
    else if |parts| == 1 then parts[0]
    else parts[0] + sep + Join(parts[1..], sep)
  }
}
