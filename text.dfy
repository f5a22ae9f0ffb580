/** String helpers shared by the models: decimal digits, `padStart(2, '0')`
    and the "text before the first separator" half of JavaScript's `split`. */
module Text {
  import opened Wrappers

  predicate IsDigit(c: char) {
    '0' <= c <= '9'
  }

  predicate AllDigits(s: string) {
    forall i :: 0 <= i < |s| ==> IsDigit(s[i])
  }

  function DigitChar(d: nat): (c: char)
    requires d < 10
    ensures IsDigit(c) && c as int - '0' as int == d
  {
    (('0' as int) + d) as char
  }

  function DigitValue(c: char): nat
    requires IsDigit(c)
  {
    c as int - '0' as int
  }

  /** The value of a string of decimal digits, most significant first; "" is 0. */
  function DigitsValue(s: string): nat
    requires AllDigits(s)
  {
    if s == [] then 0 else DigitsValue(s[..|s| - 1]) * 10 + DigitValue(s[|s| - 1])
  }

  /** JavaScript's `String(n)` for a non-negative integer. */
  function NatToString(n: nat): (s: string)
    ensures 1 <= |s| && AllDigits(s)
    ensures s[0] == '0' ==> n == 0
  {
    if n < 10 then [DigitChar(n)] else NatToString(n / 10) + [DigitChar(n % 10)]
  }

  /** JavaScript's `String(n)` for any integer. */
  function IntToString(i: int): (s: string)
    ensures ':' !in s && ' ' !in s
  {
    if i < 0 then "-" + NatToString(-i) else NatToString(i)
  }

  lemma {:induction false} NatToStringValue(n: nat)
    ensures DigitsValue(NatToString(n)) == n
  {
    var s := NatToString(n);
    if n >= 10 {
      NatToStringValue(n / 10);
      assert s[..|s| - 1] == NatToString(n / 10);
    }
  }

  lemma {:induction false} LeadingZero(s: string)
    requires AllDigits(s)
    ensures AllDigits("0" + s) && DigitsValue("0" + s) == DigitsValue(s)
  {
    if s != [] {
      LeadingZero(s[..|s| - 1]);
      assert ("0" + s)[..|s|] == "0" + s[..|s| - 1];
    }
  }

  /** JavaScript's `s.padStart(2, '0')`. */
  function PadStart2(s: string): (r: string)
    ensures |r| == if |s| >= 2 then |s| else 2
    ensures r[|r| - |s|..] == s
    ensures forall i :: 0 <= i < |r| - |s| ==> r[i] == '0'
  {
    if |s| >= 2 then s else if |s| == 1 then "0" + s else "00"
  }

  /** Zero-padding a decimal numeral does not change its value. */
  lemma PaddedValue(n: nat)
    ensures AllDigits(PadStart2(NatToString(n)))
    ensures DigitsValue(PadStart2(NatToString(n))) == n
  {
    var s := NatToString(n);
    NatToStringValue(n);
    if |s| < 2 {
      assert PadStart2(s) == "0" + s;
      LeadingZero(s);
    }
  }

  /** The text before the first `c`: element 0 of `s.split(c)`. */
  function TakeUntil(s: string, c: char): string {
    if s == [] || s[0] == c then [] else [s[0]] + TakeUntil(s[1..], c)
  }

  /** The text after the first `c`, or None when `s` holds no `c`. */
  function After(s: string, c: char): Option<string> {
    if s == [] then None else if s[0] == c then Some(s[1..]) else After(s[1..], c)
  }

  /** TakeUntil gives the longest prefix without `c`; After gives what follows the `c`
      that ends it. */
  lemma {:induction false} SplitSpec(s: string, c: char)
    ensures var r := TakeUntil(s, c);
      && |r| <= |s| && r == s[..|r|] && c !in r
      && (|r| < |s| ==> s[|r|] == c)
      && (After(s, c).None? <==> c !in s)
      && (After(s, c).Some? ==> |r| < |s| && After(s, c).value == s[|r| + 1..])
  {
    if s != [] && s[0] != c {
      SplitSpec(s[1..], c);
      assert s == [s[0]] + s[1..];
    }
  }

  /** Splitting at a separator that `a` does not contain gives back `a` and `b`. */
  lemma {:induction false} SplitAt(a: string, c: char, b: string)
    requires c !in a
    ensures TakeUntil(a + [c] + b, c) == a
    ensures After(a + [c] + b, c) == Some(b)
  {
    if a != [] {
      assert (a + [c] + b)[1..] == a[1..] + [c] + b;
      SplitAt(a[1..], c, b);
    }
  }

  /** Text without the separator is its own first field. */
  lemma {:induction false} TakeUntilWhole(a: string, c: char)
    requires c !in a
    ensures TakeUntil(a, c) == a && After(a, c) == None
  {
    if a != [] {
      TakeUntilWhole(a[1..], c);
    }
  }

  /** The hour text of a time string `raw`: the part before the first ':' of the part before the first space. */
  function HourText(raw: string): string {
    TakeUntil(TakeUntil(raw, ' '), ':')
  }

  /** The minute text of `raw`, or None when it has no ':' (JavaScript's `undefined`). */
  function MinuteText(raw: string): Option<string> {
    match After(TakeUntil(raw, ' '), ':')
    case None => None
    case Some(rest) => Some(TakeUntil(rest, ':'))
  }

  /** The minute text holds neither separator. */
  lemma MinuteTextSeparators(raw: string)
    ensures MinuteText(raw).Some? ==> ' ' !in MinuteText(raw).value && ':' !in MinuteText(raw).value
  {
    var token := TakeUntil(raw, ' ');
    SplitSpec(raw, ' ');
    NoneInSuffix(token, ':', ' ');
    if After(token, ':').Some? {
      SplitSpec(After(token, ':').value, ':');
    }
  }

  /** The fields are read from the text before the first space only. */
  lemma FieldsIgnoreAnnotation(time: string, note: string)
    requires ' ' !in time
    ensures HourText(time + " " + note) == HourText(time)
    ensures MinuteText(time + " " + note) == MinuteText(time)
  {
    assert time + " " + note == time + [' '] + note;
    SplitAt(time, ' ', note);
    TakeUntilWhole(time, ' ');
  }

  /** "hh:mm" splits into `hh` and `mm`. */
  lemma FieldsOfTime(hh: string, mm: string)
    requires ':' !in hh && ':' !in mm && ' ' !in hh && ' ' !in mm
    ensures HourText(hh + ":" + mm) == hh
    ensures MinuteText(hh + ":" + mm) == Some(mm)
  {
    var time := hh + [':'] + mm;
    assert hh + ":" + mm == time;
    assert ' ' !in time by {
      assert forall i :: 0 <= i < |time| ==> time[i] == ':' || time[i] in hh || time[i] in mm;
    }
    TakeUntilWhole(time, ' ');
    SplitAt(hh, ':', mm);
    TakeUntilWhole(mm, ':');
  }

  /** What follows the first `c` holds no character that the whole text lacks. */
  lemma NoneInSuffix(s: string, c: char, x: char)
    requires x !in s
    ensures After(s, c).Some? ==> x !in After(s, c).value
  {
    SplitSpec(s, c);
    if After(s, c).Some? {
      var rest := After(s, c).value;
      assert rest == s[|TakeUntil(s, c)| + 1..];
      assert forall i :: 0 <= i < |rest| ==> rest[i] == s[|TakeUntil(s, c)| + 1 + i];
    }
  }
}
