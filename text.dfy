/** String primitives the handlers rely on: decimal formatting (`String(n)`),
    `padStart`, `Number(...)` on digit strings, `indexOf` and `split`. */
module Text {
  import opened Wrappers

  predicate IsDigit(c: char) {
    '0' <= c <= '9'
  }

  predicate AllDigits(s: string) {
    forall i :: 0 <= i < |s| ==> IsDigit(s[i])
  }

  function DigitChar(d: nat): (c: char)
    requires d < 10
    ensures IsDigit(c) && DigitValue(c) == d
  {
    "0123456789"[d]
  }

  function DigitValue(c: char): (d: nat)
    requires IsDigit(c)
    ensures d < 10
  {
    (c as int) - ('0' as int)
  }

  function Pow10(k: nat): (p: nat)
    ensures p >= 1
  {
    if k == 0 then 1 else 10 * Pow10(k - 1)
  }

  /** `String(n)` for a non-negative integer: its decimal digits, no leading zero. */
  function NatToString(n: nat): (s: string)
    ensures |s| >= 1 && AllDigits(s)
    ensures |s| > 1 ==> s[0] != '0'
  {
    if n < 10 then [DigitChar(n)] else NatToString(n / 10) + [DigitChar(n % 10)]
  }

  /** `String(i)` for any integer. */
  function IntToString(i: int): string {
    if i < 0 then "-" + NatToString(-i) else NatToString(i)
  }

  /** The value of a string of decimal digits (the empty string reads as 0). */
  function ParseNat(s: string): nat
    requires AllDigits(s)
  {
    if s == [] then 0 else ParseNat(s[..|s| - 1]) * 10 + DigitValue(s[|s| - 1])
  }

  /** `Number(s)` restricted to the forms the model produces: an optional
      minus sign followed by decimal digits; the empty string is 0. */
  function JsNumber(s: string): Option<int> {
    if AllDigits(s) then Some(ParseNat(s))
    else if |s| >= 2 && s[0] == '-' && AllDigits(s[1..]) then Some(0 - ParseNat(s[1..]) as int)
    else None
  }

  lemma {:induction false} ParseNatToString(n: nat)
    ensures ParseNat(NatToString(n)) == n
  {
    if n >= 10 {
      var s := NatToString(n);
      ParseNatToString(n / 10);
      assert s[..|s| - 1] == NatToString(n / 10);
    }
  }

  /** Leading zeros do not change the value of a digit string. */
  lemma {:induction false} ParseNatLeadingZero(s: string)
    requires AllDigits(s)
    ensures AllDigits("0" + s) && ParseNat("0" + s) == ParseNat(s)
    decreases |s|
  {
    if s != [] {
      var t := "0" + s;
      assert t[..|t| - 1] == "0" + s[..|s| - 1];
      ParseNatLeadingZero(s[..|s| - 1]);
    }
  }

  /** The decimal string of n has exactly k digits when 10^(k-1) <= n < 10^k. */
  lemma {:induction false} NatToStringLength(n: nat, k: nat)
    requires k >= 1 && n < Pow10(k) && (k == 1 || Pow10(k - 1) <= n)
    ensures |NatToString(n)| == k
  {
    if k > 1 {
      assert Pow10(k) == 10 * Pow10(k - 1);
      assert Pow10(k - 1) == 10 * Pow10(k - 2) || k == 2;
      NatToStringLength(n / 10, k - 1);
    }
  }

  function Repeat(c: char, k: nat): (r: string)
    ensures |r| == k && forall i :: 0 <= i < k ==> r[i] == c
  {
    if k == 0 then [] else [c] + Repeat(c, k - 1)
  }

  /** `s.padStart(width, fill)` with a one-character fill string. */
  function PadStart(s: string, width: nat, fill: char): (r: string)
    ensures |r| == if |s| >= width then |s| else width
    ensures r[|r| - |s|..] == s
    ensures forall i :: 0 <= i < |r| - |s| ==> r[i] == fill
  {
    if |s| >= width then s else Repeat(fill, width - |s|) + s
  }

  /** `String(x).padStart(2, '0')`. */
  function Pad2(x: int): string {
    PadStart(IntToString(x), 2, '0')
  }

  /** Pad2 of a single digit: a leading zero and the digit. */
  lemma Pad2OneDigit(d: nat)
    requires d < 10
    ensures Pad2(d) == ['0', DigitChar(d)]
  {
    assert IntToString(d) == [DigitChar(d)];
    assert Repeat('0', 1) == ['0'];
  }

  /** Pad2 of a two-digit value: its two digits. */
  lemma Pad2TwoDigits(n: nat)
    requires 10 <= n < 100
    ensures Pad2(n) == [DigitChar(n / 10), DigitChar(n % 10)]
  {
    assert NatToString(n / 10) == [DigitChar(n / 10)];
    assert NatToString(n) == NatToString(n / 10) + [DigitChar(n % 10)];
  }

  /** The value of a two-digit string. */
  lemma ParseTwoDigits(a: char, b: char)
    requires IsDigit(a) && IsDigit(b)
    ensures AllDigits([a, b]) && ParseNat([a, b]) == 10 * DigitValue(a) + DigitValue(b)
  {
    assert [a, b][..1] == [a];
    assert [a][..0] == [];
    assert ParseNat([a]) == DigitValue(a);
    assert ParseNat([a, b]) == ParseNat([a]) * 10 + DigitValue(b);
  }

  /** Pad2 of a value in 0..99 is exactly two digits that read back as the value. */
  lemma Pad2Digits(x: int)
    requires 0 <= x < 100
    ensures |Pad2(x)| == 2 && AllDigits(Pad2(x)) && ParseNat(Pad2(x)) == x
  {
    if x < 10 {
      Pad2OneDigitValue(x);
    } else {
      Pad2TwoDigitValue(x);
    }
  }

  lemma Pad2OneDigitValue(x: int)
    requires 0 <= x < 10
    ensures |Pad2(x)| == 2 && AllDigits(Pad2(x)) && ParseNat(Pad2(x)) == x
  {
    Pad2OneDigit(x);
    ParseTwoDigits('0', DigitChar(x));
  }

  lemma Pad2TwoDigitValue(x: int)
    requires 10 <= x < 100
    ensures |Pad2(x)| == 2 && AllDigits(Pad2(x)) && ParseNat(Pad2(x)) == x
  {
    Pad2TwoDigits(x);
    ParseTwoDigits(DigitChar(x / 10), DigitChar(x % 10));
  }

  /** `Number(String(x).padStart(2, '0'))` recovers x, whatever its sign. */
  lemma JsNumberPad2(x: int)
    ensures JsNumber(Pad2(x)) == Some(x)
  {
    if 0 <= x < 100 {
      Pad2Digits(x);
    } else {
      var s := IntToString(x);
      assert |s| >= 2 by {
        if x < 0 { assert s == "-" + NatToString(-x); }
        else { assert NatToString(x) == NatToString(x / 10) + [DigitChar(x % 10)]; }
      }
      assert Pad2(x) == s;
      JsNumberIntToString(x);
    }
  }

  lemma JsNumberIntToString(x: int)
    ensures JsNumber(IntToString(x)) == Some(x)
  {
    if x < 0 {
      JsNumberNegative(x);
    } else {
      ParseNatToString(x);
    }
  }

  lemma JsNumberNegative(x: int)
    requires x < 0
    ensures JsNumber(IntToString(x)) == Some(x)
  {
    ParseNatToString(-x);
    JsNumberMinus(NatToString(-x), -x);
  }

  /** A minus sign followed by the digits of v reads as -v. */
  lemma JsNumberMinus(digits: string, v: nat)
    requires |digits| >= 1 && AllDigits(digits) && ParseNat(digits) == v
    ensures JsNumber("-" + digits) == Some(-(v as int))
  {
    var s := "-" + digits;
    assert s[1..] == digits;
    assert !IsDigit(s[0]);
  }

  // --- Searching and splitting ---

  predicate OccursAt(s: string, pat: string, i: nat) {
    i + |pat| <= |s| && s[i..i + |pat|] == pat
  }

  /** `s.indexOf(pat, k)`: the first index at or after k where pat occurs. */
  function FindFrom(s: string, pat: string, k: nat): (r: Option<nat>)
    requires k <= |s| + 1
    ensures r.Some? ==> k <= r.value && OccursAt(s, pat, r.value)
    ensures r.Some? ==> forall j :: k <= j < r.value ==> !OccursAt(s, pat, j)
    ensures r.None? ==> forall j :: k <= j ==> !OccursAt(s, pat, j)
    decreases |s| + 1 - k
  {
    if k + |pat| > |s| then None
    else if s[k..k + |pat|] == pat then Some(k)
    else FindFrom(s, pat, k + 1)
  }

  /** `s.indexOf(pat)`. */
  function FindFirst(s: string, pat: string): Option<nat> {
    FindFrom(s, pat, 0)
  }

  /** `s.split(sep)` for a non-empty separator. */
  function Split(s: string, sep: string): (parts: seq<string>)
    requires |sep| > 0
    ensures |parts| >= 1
    decreases |s|
  {
    match FindFirst(s, sep)
    case None => [s]
    case Some(i) => [s[..i]] + Split(s[i + |sep|..], sep)
  }

  /** The element `Array.prototype.pop()` returns on a `split` result. */
  function Last(parts: seq<string>): string
    requires |parts| >= 1
  {
    parts[|parts| - 1]
  }

  /** The last part of a split on a one-character separator holds no
      separator. */
  lemma {:induction false} SplitLastFree(s: string, c: char)
    ensures c !in Last(Split(s, [c]))
    decreases |s|
  {
    match FindFirst(s, [c])
    case None =>
      forall j | 0 <= j < |s| ensures s[j] != c {
        assert !OccursAt(s, [c], j);
        assert s[j..j + 1] == [s[j]];
      }
    case Some(i) =>
      SplitLastFree(s[i + 1..], c);
  }

  /** The part at index k of a split, or None where JavaScript yields `undefined`. */
  function Part(parts: seq<string>, k: nat): Option<string> {
    if k < |parts| then Some(parts[k]) else None
  }

  /** A string that does not contain the separator splits into itself. */
  lemma SplitNoSep(s: string, sep: string)
    requires |sep| > 0
    requires forall j :: !OccursAt(s, sep, j)
    ensures Split(s, sep) == [s]
  {
  }

  /** Splitting `a + c + b` on the one-character separator c, where a has no c,
      yields a followed by the parts of b. */
  lemma {:induction false} SplitCons(a: string, c: char, b: string)
    requires c !in a
    ensures Split(a + [c] + b, [c]) == [a] + Split(b, [c])
  {
    var s := a + [c] + b;
    assert OccursAt(s, [c], |a|);
    forall j | 0 <= j < |a| ensures !OccursAt(s, [c], j) {
      assert s[j] == a[j];
    }
    assert FindFirst(s, [c]) == Some(|a|);
    assert s[..|a|] == a;
    assert s[|a| + 1..] == b;
  }

  /** A one-character separator absent from s gives back [s]. */
  lemma SplitSingle(s: string, c: char)
    requires c !in s
    ensures Split(s, [c]) == [s]
  {
    forall j: nat ensures !OccursAt(s, [c], j) {
      if j + 1 <= |s| {
        assert s[j..j + 1] == [s[j]];
        assert s[j] in s;
      }
    }
    SplitNoSep(s, [c]);
  }

  /** Splitting `sep + k` on sep, where sep does not occur in k, yields ["", k]. */
  lemma SplitAfterPrefix(sep: string, k: string)
    requires |sep| > 0
    requires forall j :: !OccursAt(k, sep, j)
    ensures Split(sep + k, sep) == ["", k]
  {
    var s := sep + k;
    assert OccursAt(s, sep, 0);
    assert FindFirst(s, sep) == Some(0);
    assert s[|sep|..] == k;
    SplitNoSep(k, sep);
  }

  /** `fields.join(c)`. */
  function Join(fields: seq<string>, c: char): string
    requires |fields| >= 1
  {
    if |fields| == 1 then fields[0] else fields[0] + [c] + Join(fields[1..], c)
  }

  /** Fields none of which contains the one-character separator split back
      out of their join. */
  lemma {:induction false} SplitJoin(fields: seq<string>, c: char)
    requires |fields| >= 1 && forall i :: 0 <= i < |fields| ==> c !in fields[i]
    ensures Split(Join(fields, c), [c]) == fields
  {
    if |fields| == 1 {
      SplitSingle(fields[0], c);
    } else {
      SplitCons(fields[0], c, Join(fields[1..], c));
      SplitJoin(fields[1..], c);
    }
  }

  /** Joining three fields. */
  lemma JoinThree(a: string, b: string, d: string, c: char)
    ensures Join([a, b, d], c) == a + [c] + b + [c] + d
  {
    assert [a, b, d][1..] == [b, d];
    assert [b, d][1..] == [d];
    assert Join([b, d], c) == b + [c] + d;
    assert Join([a, b, d], c) == a + [c] + (b + [c] + d);
  }

  /** Padding with a fill character adds no other character. */
  lemma PadStartLacks(s: string, width: nat, fill: char, c: char)
    requires c !in s && c != fill
    ensures c !in PadStart(s, width, fill)
  {
    var r := PadStart(s, width, fill);
    if |s| < width {
      var z := Repeat(fill, width - |s|);
      assert r == z + s;
      assert c !in z;
    }
  }

  /** `String(x)` and its padded form hold only digits and '-'. */
  lemma NumberLacks(x: int, c: char)
    requires !IsDigit(c) && c != '-'
    ensures c !in IntToString(x) && c !in Pad2(x)
  {
    if x < 0 {
      assert IntToString(x) == "-" + NatToString(-x);
      DigitsLackChar(NatToString(-x), c);
    } else {
      DigitsLackChar(NatToString(x), c);
    }
    PadStartLacks(IntToString(x), 2, '0', c);
  }

  /** A digit string contains no separator character such as '_', '-' or '/'. */
  lemma DigitsLackChar(s: string, c: char)
    requires AllDigits(s) && !IsDigit(c)
    ensures c !in s
  {
  }
}
