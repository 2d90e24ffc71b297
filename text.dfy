/** The string operations of Python 2 that the RUM scripts build on:
    `str.split` with a separator and a maximum number of splits, `str(int)`
    and `int(str)` in base 10; `Join` is the inverse of `split` that the
    round-trip statements use. */
module Text {
  import opened Wrappers

  /** The `maxsplit` value that means "no limit", as in Python. */
  const NoLimit: int := -1

  /** `sep` occurs in `s` starting at index `i`. */
  predicate OccursAt(s: string, sep: string, i: nat)
  {
    i + |sep| <= |s| && s[i..i + |sep|] == sep
  }

  /** The leftmost occurrence of `sep` in `s` at or after `from`, as `str.find`. */
  function FindFrom(s: string, sep: string, from: nat): (r: Option<nat>)
    requires |sep| > 0
    ensures r.Some? ==> from <= r.value && OccursAt(s, sep, r.value)
    ensures r.Some? ==> forall j: nat :: from <= j < r.value ==> !OccursAt(s, sep, j)
    ensures r.None? ==> forall j: nat :: from <= j ==> !OccursAt(s, sep, j)
    decreases |s| - from
  {
    if from + |sep| > |s| then None
    else if s[from..from + |sep|] == sep then Some(from)
    else FindFrom(s, sep, from + 1)
  }

  /** `s.split(sep, maxsplit)`: cut at the leftmost occurrences of `sep`, at
      most `maxsplit` times (no limit when `maxsplit` is negative). */
  function Split(s: string, sep: string, maxsplit: int): (parts: seq<string>)
    requires |sep| > 0
    ensures |parts| >= 1
    ensures maxsplit >= 0 ==> |parts| <= maxsplit + 1
    ensures Join(parts, sep) == s
    decreases |s|
  {
    if maxsplit == 0 then [s]
    else match FindFrom(s, sep, 0)
      case None => [s]
      case Some(i) =>
        assert s == s[..i] + sep + s[i + |sep|..];
        [s[..i]] + Split(s[i + |sep|..], sep, if maxsplit > 0 then maxsplit - 1 else maxsplit)
  }

  /** Cutting at a one-character separator: no piece before the last holds
      the separator, nor does the last one when there is no limit. */
  lemma {:induction false} SplitPiecesFree(s: string, c: char, maxsplit: int)
    ensures forall k :: 0 <= k < |Split(s, [c], maxsplit)| - 1 ==> c !in Split(s, [c], maxsplit)[k]
    ensures maxsplit < 0 ==> c !in Split(s, [c], maxsplit)[|Split(s, [c], maxsplit)| - 1]
    decreases |s|
  {
    if maxsplit != 0 {
      match FindFrom(s, [c], 0)
      case None =>
        NoCharWithoutOccurrence(s, c, |s|);
      case Some(i) =>
        NoCharWithoutOccurrence(s, c, i);
        var next := if maxsplit > 0 then maxsplit - 1 else maxsplit;
        var tail := Split(s[i + 1..], [c], next);
        SplitPiecesFree(s[i + 1..], c, next);
        assert Split(s, [c], maxsplit) == [s[..i]] + tail;
        PrependFree(s[..i], tail, c);
    }
  }

  /** No occurrence of `[c]` before `i` means no `c` before `i`. */
  lemma NoCharWithoutOccurrence(s: string, c: char, i: nat)
    requires i <= |s|
    requires forall j: nat :: j < i ==> !OccursAt(s, [c], j)
    ensures c !in s[..i]
  {
    forall j | 0 <= j < i ensures s[j] != c {
      assert !OccursAt(s, [c], j);
      assert s[j..j + 1] == [s[j]];
    }
  }

  /** One more free piece in front keeps every piece but the last free. */
  lemma PrependFree(p: string, tail: seq<string>, c: char)
    requires |tail| >= 1 && c !in p
    requires forall k :: 0 <= k < |tail| - 1 ==> c !in tail[k]
    ensures forall k :: 0 <= k < |[p] + tail| - 1 ==> c !in ([p] + tail)[k]
    ensures ([p] + tail)[|[p] + tail| - 1] == tail[|tail| - 1]
  {
    forall k | 0 <= k < |[p] + tail| - 1 ensures c !in ([p] + tail)[k] {
      if k > 0 {
        assert ([p] + tail)[k] == tail[k - 1];
      }
    }
  }

  lemma ConcatAssoc(a: string, b: string, c: string)
    ensures (a + b) + c == a + (b + c)
  {
  }

  /** `sep.join(parts)`. */
  function Join(parts: seq<string>, sep: string): string
  {
    if |parts| == 0 then ""
    else if |parts| == 1 then parts[0]
    else parts[0] + sep + Join(parts[1..], sep)
  }

  /** A string none of whose characters starts `sep` has no occurrence of it. */
  lemma NoOccurrenceWithoutFirstChar(s: string, sep: string)
    requires |sep| > 0 && sep[0] !in s
    ensures forall j: nat :: !OccursAt(s, sep, j)
  {
    forall j: nat ensures !OccursAt(s, sep, j) {
      if j + |sep| <= |s| {
        assert s[j..j + |sep|][0] == s[j];
      }
    }
  }

  lemma JoinAppend(parts: seq<string>, last: string, sep: string)
    requires |parts| >= 1
    ensures Join(parts + [last], sep) == Join(parts, sep) + sep + last
  {
    if |parts| > 1 {
      assert (parts + [last])[1..] == parts[1..] + [last];
      JoinAppend(parts[1..], last, sep);
    }
  }

  /** A character in neither the pieces nor the separator is not in the join. */
  lemma JoinCharAbsent(parts: seq<string>, sep: string, c: char)
    requires c !in sep
    requires forall k :: 0 <= k < |parts| ==> c !in parts[k]
    ensures c !in Join(parts, sep)
  {
    if |parts| > 1 {
      JoinCharAbsent(parts[1..], sep, c);
    }
  }

  /** Splitting undoes joining when no piece but perhaps an unsplit last one
      holds the separator's first character. */
  lemma {:induction false} SplitJoin(parts: seq<string>, sep: string, maxsplit: int)
    requires |parts| >= 1 && |sep| > 0
    requires maxsplit < 0 || maxsplit == |parts| - 1
    requires forall k :: 0 <= k < |parts| - 1 ==> sep[0] !in parts[k]
    requires maxsplit < 0 ==> sep[0] !in parts[|parts| - 1]
    ensures Split(Join(parts, sep), sep, maxsplit) == parts
  {
    var s := Join(parts, sep);
    if |parts| == 1 {
      if maxsplit != 0 {
        NoOccurrenceWithoutFirstChar(s, sep);
      }
    } else {
      var p, rest := parts[0], Join(parts[1..], sep);
      assert s == p + sep + rest;
      assert s[|p|..|p| + |sep|] == sep;
      assert OccursAt(s, sep, |p|);
      forall j: nat | j < |p| ensures !OccursAt(s, sep, j) {
        assert s[j] == p[j];
        assert j + |sep| <= |s| ==> s[j..j + |sep|][0] == s[j];
      }
      assert s[..|p|] == p;
      assert s[|p| + |sep|..] == rest;
      SplitJoin(parts[1..], sep, if maxsplit > 0 then maxsplit - 1 else maxsplit);
    }
  }

  predicate IsDigit(c: char) { '0' <= c <= '9' }

  predicate AllDigits(s: string) { forall k :: 0 <= k < |s| ==> IsDigit(s[k]) }

  /** The value of a string of decimal digits, as `int` gives it. */
  function DigitsValue(s: string): nat
    requires AllDigits(s)
  {
    if |s| == 0 then 0
    else 10 * DigitsValue(s[..|s| - 1]) + (s[|s| - 1] as int - '0' as int)
  }

  /** The length of the run of digits that starts at `from`; the regular
      expression `\d+` consumes exactly this run. */
  function DigitRun(s: string, from: nat): (n: nat)
    requires from <= |s|
    ensures from + n <= |s|
    ensures forall k :: from <= k < from + n ==> IsDigit(s[k])
    ensures from + n == |s| || !IsDigit(s[from + n])
    decreases |s| - from
  {
    if from < |s| && IsDigit(s[from]) then 1 + DigitRun(s, from + 1) else 0
  }

  /** A run of exactly `len` digits followed by a non-digit or the end is
      what `DigitRun` measures. */
  lemma {:induction false} DigitRunExact(s: string, from: nat, len: nat)
    requires from + len <= |s|
    requires forall k :: from <= k < from + len ==> IsDigit(s[k])
    requires from + len == |s| || !IsDigit(s[from + len])
    ensures DigitRun(s, from) == len
    decreases len
  {
    if len > 0 {
      DigitRunExact(s, from + 1, len - 1);
    }
  }

  /** `str(n)` for a natural number. */
  function NatToString(n: nat): string
  {
    var d := [('0' as int + n % 10) as char];
    if n < 10 then d else NatToString(n / 10) + d
  }

  /** `str(n)` is the shortest decimal numeral of `n`. */
  lemma {:induction false} NatToStringDigits(n: nat)
    ensures |NatToString(n)| >= 1 && AllDigits(NatToString(n)) && DigitsValue(NatToString(n)) == n
    ensures NatToString(n)[0] == '0' ==> NatToString(n) == "0"
  {
    if n >= 10 {
      NatToStringDigits(n / 10);
      var prefix := NatToString(n / 10);
      var s := NatToString(n);
      assert s[..|prefix|] == prefix;
    }
  }

  /** `str(x)` for an integer. */
  function IntToString(x: int): string
  {
    if x < 0 then "-" + NatToString(-x) else NatToString(x)
  }

  /** The characters Python 2 treats as white space around a numeral. */
  predicate IsSpace(c: char)
  {
    c == ' ' || c == '\t' || c == '\n' || c == '\r' || c as int == 11 || c as int == 12
  }

  function TrimStart(s: string): string
  {
    if |s| > 0 && IsSpace(s[0]) then TrimStart(s[1..]) else s
  }

  function TrimEnd(s: string): string
  {
    if |s| > 0 && IsSpace(s[|s| - 1]) then TrimEnd(s[..|s| - 1]) else s
  }

  /** `int(s)` in base 10: optional white space around an optionally signed
      run of decimal digits; Python 2 also skips white space between the
      sign and the digits. */
  function ParseInt(s: string): Option<int>
  {
    var t := TrimEnd(TrimStart(s));
    if |t| >= 1 && (t[0] == '+' || t[0] == '-') then
      var digits := TrimStart(t[1..]);
      if |digits| >= 1 && AllDigits(digits) then
        var magnitude: int := DigitsValue(digits);
        Some(if t[0] == '-' then -magnitude else magnitude)
      else None
    else if |t| >= 1 && AllDigits(t) then Some(DigitsValue(t))
    else None
  }

  /** `int(str(x)) == x`. */
  lemma ParseIntToString(x: int)
    ensures ParseInt(IntToString(x)) == Some(x)
  {
    var s := IntToString(x);
    NatToStringDigits(if x < 0 then -x else x);
    var digits := NatToString(if x < 0 then -x else x);
    assert s[|s| - 1] == digits[|digits| - 1];
    assert TrimStart(s) == s;
    assert TrimEnd(s) == s;
    if x < 0 {
      assert s[1..] == digits;
    }
  }

  /** As in Python 2, white space between the sign and the digits is
      skipped: `int("- 5") == -5`. */
  lemma ParseIntSpaceAfterSign(sign: char, ws: string, n: nat)
    requires sign == '+' || sign == '-'
    requires forall k :: 0 <= k < |ws| ==> IsSpace(ws[k])
    ensures ParseInt([sign] + ws + NatToString(n)) == Some(if sign == '-' then -(n as int) else n as int)
  {
    var digits := NatToString(n);
    NatToStringDigits(n);
    var s := [sign] + ws + digits;
    assert s[|s| - 1] == digits[|digits| - 1];
    assert TrimStart(s) == s;
    assert TrimEnd(s) == s;
    assert s[1..] == ws + digits;
    TrimStartSpaces(ws, digits);
  }

  /** `TrimStart` drops a run of white space before a non-space. */
  lemma {:induction false} TrimStartSpaces(ws: string, rest: string)
    requires forall k :: 0 <= k < |ws| ==> IsSpace(ws[k])
    requires |rest| > 0 && !IsSpace(rest[0])
    ensures TrimStart(ws + rest) == rest
  {
    if |ws| == 0 {
      assert ws + rest == rest;
    } else {
      assert (ws + rest)[1..] == ws[1..] + rest;
      TrimStartSpaces(ws[1..], rest);
    }
  }

  /** The characters `IntToString` may produce. */
  lemma IntToStringChars(x: int)
    ensures forall k :: 0 <= k < |IntToString(x)| ==> IsDigit(IntToString(x)[k]) || IntToString(x)[k] == '-'
    ensures x >= 0 ==> AllDigits(IntToString(x))
  {
    NatToStringDigits(if x < 0 then -x else x);
  }
}
