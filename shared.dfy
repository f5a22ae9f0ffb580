/** Model of js/shared.js: Bengali digits, the 24-hour to 12-hour clock
    conversion and the saved-setting readers with their defaults. */
module Shared {
  import opened Wrappers
  import opened Text

  // ---------------------------------------------------------------- toBnNum

  /** The Bengali digit for `d`: the `d`-th character of "০১২৩৪৫৬৭৮৯" (U+09E6 .. U+09EF). */
  function BnDigit(d: nat): (c: char)
    requires d < 10
    ensures IsBnDigit(c) && c as int - 0x09E6 == d
  {
    (0x09E6 + d) as char
  }

  predicate IsBnDigit(c: char) {
    '\U{09E6}' <= c <= '\U{09EF}'
  }

  /** One character of `toBnNum`: ASCII digits are replaced, everything else is kept. */
  function BnChar(c: char): (r: char)
    ensures IsDigit(c) ==> IsBnDigit(r) && r as int - 0x09E6 == DigitValue(c)
    ensures !IsDigit(c) ==> r == c
  {
    if IsDigit(c) then BnDigit(DigitValue(c)) else c
  }

  /** `toBnNum` on the text of its argument (`String(n)`). */
  function ToBnNum(s: string): (r: string)
    ensures |r| == |s|
    ensures forall i :: 0 <= i < |s| ==> r[i] == BnChar(s[i])
  {
    if s == [] then [] else [BnChar(s[0])] + ToBnNum(s[1..])
  }

  /** The reverse replacement: Bengali digits back to ASCII digits. */
  function FromBnNum(s: string): (r: string)
    ensures |r| == |s|
  {
    if s == [] then []
    else [if IsBnDigit(s[0]) then DigitChar(s[0] as int - 0x09E6) else s[0]] + FromBnNum(s[1..])
  }

  /** `toBnNum` leaves no ASCII digit behind. */
  lemma ToBnNumHasNoAsciiDigit(s: string)
    ensures forall i :: 0 <= i < |s| ==> !IsDigit(ToBnNum(s)[i])
  {
  }

  /** On text that holds no Bengali digit, `toBnNum` is undone by FromBnNum. */
  lemma {:induction false} BnRoundTrip(s: string)
    requires forall i :: 0 <= i < |s| ==> !IsBnDigit(s[i])
    ensures FromBnNum(ToBnNum(s)) == s
  {
    if s != [] {
      BnRoundTrip(s[1..]);
      assert ToBnNum(s) == [BnChar(s[0])] + ToBnNum(s[1..]);
    }
  }

  /** Hence distinct inputs (without Bengali digits) give distinct outputs. */
  lemma ToBnNumInjective(s: string, t: string)
    requires forall i :: 0 <= i < |s| ==> !IsBnDigit(s[i])
    requires forall i :: 0 <= i < |t| ==> !IsBnDigit(t[i])
    requires ToBnNum(s) == ToBnNum(t)
    ensures s == t
  {
    BnRoundTrip(s);
    BnRoundTrip(t);
  }

  // ------------------------------------------------------------------ to12h

  /** The longest run of decimal digits at the start of `s`. */
  function LeadingDigits(s: string): (r: string)
    ensures |r| <= |s| && r == s[..|r|] && AllDigits(r)
    ensures |r| < |s| ==> !IsDigit(s[|r|])
  {
    if s == [] || !IsDigit(s[0]) then [] else [s[0]] + LeadingDigits(s[1..])
  }

  /** `parseInt(s)`: an optional sign and then the leading digits; None is NaN. */
  function ParseInt(s: string): Option<int> {
    var digits := LeadingDigits(Unsigned(s));
    if digits == [] then None
    else if Negative(s) then Some(-(DigitsValue(digits) as int))
    else Some(DigitsValue(digits))
  }

  /** `parseInt` is NaN exactly when no digit follows the optional sign. */
  lemma ParseIntNaN(s: string)
    ensures ParseInt(s).None? <==> Unsigned(s) == [] || !IsDigit(Unsigned(s)[0])
  {
  }

  /** The maximal digit run of digits followed by a non-digit (or nothing) is those digits. */
  lemma {:induction false} LeadingDigitsOf(d: string, rest: string)
    requires AllDigits(d) && (rest == [] || !IsDigit(rest[0]))
    ensures LeadingDigits(d + rest) == d
  {
    if d != [] {
      assert (d + rest)[1..] == d[1..] + rest;
      assert AllDigits(d[1..]) by {
        assert forall i :: 0 <= i < |d[1..]| ==> d[1..][i] == d[i + 1];
      }
      LeadingDigitsOf(d[1..], rest);
    }
  }

  /** `parseInt` reads back the number `String(n)` wrote, whatever non-digit text follows. */
  lemma ParseIntRoundTrip(n: int, rest: string)
    requires rest == [] || !IsDigit(rest[0])
    ensures ParseInt(IntToString(n) + rest) == Some(n)
  {
    if n < 0 {
      NegativeRoundTrip(n, rest);
    } else {
      NaturalRoundTrip(n, rest);
    }
  }

  lemma NaturalRoundTrip(n: nat, rest: string)
    requires rest == [] || !IsDigit(rest[0])
    ensures ParseInt(IntToString(n) + rest) == Some(n)
  {
    var digits := NatToString(n);
    assert IntToString(n) == digits;
    NatToStringValue(n);
    ParseIntOfUnsigned(digits, rest);
  }

  lemma NegativeRoundTrip(n: int, rest: string)
    requires n < 0 && (rest == [] || !IsDigit(rest[0]))
    ensures ParseInt(IntToString(n) + rest) == Some(n)
  {
    var digits := NatToString(-n);
    assert IntToString(n) == "-" + digits;
    assert IntToString(n) + rest == "-" + (digits + rest);
    NatToStringValue(-n);
    ParseIntOfNegative(digits, rest);
  }

  /** Digits followed by a non-digit (or nothing) read as their value. */
  lemma ParseIntOfUnsigned(d: string, rest: string)
    requires d != [] && AllDigits(d) && (rest == [] || !IsDigit(rest[0]))
    ensures ParseInt(d + rest) == Some(DigitsValue(d))
  {
    var t := d + rest;
    assert IsDigit(t[0]);
    assert Unsigned(t) == t && !Negative(t);
    LeadingDigitsOf(d, rest);
    ParseIntOfLeading(t, d);
  }

  /** A minus sign, then digits followed by a non-digit (or nothing), read as the negated value. */
  lemma ParseIntOfNegative(d: string, rest: string)
    requires d != [] && AllDigits(d) && (rest == [] || !IsDigit(rest[0]))
    ensures ParseInt("-" + (d + rest)) == Some(-(DigitsValue(d) as int))
  {
    var t := "-" + (d + rest);
    assert t[0] == '-' && t[1..] == d + rest;
    assert Unsigned(t) == d + rest && Negative(t);
    LeadingDigitsOf(d, rest);
    ParseIntOfLeading(t, d);
  }

  lemma ParseIntOfLeading(s: string, d: string)
    requires LeadingDigits(Unsigned(s)) == d && d != []
    ensures Negative(s) ==> ParseInt(s) == Some(-(DigitsValue(d) as int))
    ensures !Negative(s) ==> ParseInt(s) == Some(DigitsValue(d))
  {
  }

  /** On a non-empty run of digits, such as a zero-padded hour, `parseInt` is its value. */
  lemma ParseIntOfDigits(d: string)
    requires d != [] && AllDigits(d)
    ensures ParseInt(d) == Some(DigitsValue(d))
  {
    ParseIntOfUnsigned(d, []);
    assert d + [] == d;
  }

  /** `s` without its leading sign, if any. */
  function Unsigned(s: string): string {
    if s != [] && (s[0] == '-' || s[0] == '+') then s[1..] else s
  }

  predicate Negative(s: string) {
    s != [] && s[0] == '-'
  }

  /** JavaScript's `%`, which truncates toward zero. */
  function TruncRem(a: int, b: int): (r: int)
    requires b > 0
    ensures a >= 0 ==> r == a % b
    ensures -b < r < b
  {
    if a >= 0 then a % b else -((-a) % b)
  }

  /** `h % 12 || 12`: zero and NaN are both falsy and become 12. */
  function Hour12(h: Option<int>): (r: int)
    ensures r != 0 && -12 < r <= 12
    ensures h.None? || h.value >= 0 ==> 1 <= r <= 12
  {
    match h
    case None => 12
    case Some(v) => if TruncRem(v, 12) == 0 then 12 else TruncRem(v, 12)
  }

  function Meridiem(h: Option<int>): (r: string)
    ensures r == "PM" || r == "AM"
    ensures r == "PM" <==> h.Some? && h.value >= 12
  {
    if h.Some? && h.value >= 12 then "PM" else "AM"
  }

  /** The minute text as it is interpolated: a missing field prints as "undefined". */
  function ShownMinutes(raw: string): string {
    match MinuteText(raw) case None => "undefined" case Some(m) => m
  }

  /** `to12h(raw)`: "HH:MM (TZ)" in 24-hour form to "h:mm AM/PM". */
  function To12h(raw: string): string {
    var h := ParseInt(HourText(raw));
    IntToString(Hour12(h)) + ":" + ShownMinutes(raw) + " " + Meridiem(h)
  }

  /** The suffix is "PM" exactly when the parsed hour is at least 12. */
  lemma To12hMeridiem(raw: string)
    ensures var r := To12h(raw);
      |r| >= 2 && (r[|r| - 2..] == "PM" <==> exists h :: ParseInt(HourText(raw)) == Some(h) && h >= 12)
  {
    var r := To12h(raw);
    assert r[|r| - 2..] == Meridiem(ParseInt(HourText(raw)));
  }

  /** A non-negative hour becomes 1..12: 0 and 12 (and every multiple of 12) become 12,
      others become `h mod 12`. */
  lemma Hour12Range(h: nat)
    ensures 1 <= Hour12(Some(h)) <= 12
    ensures h % 12 == 0 ==> Hour12(Some(h)) == 12
    ensures h % 12 != 0 ==> Hour12(Some(h)) == h % 12
  {
  }

  /** For an hour of the day, the 12-hour reading and the meridiem give the hour back. */
  lemma Hour12Inverse(h: nat)
    requires h < 24
    ensures Hour12(Some(h)) % 12 + (if Meridiem(Some(h)) == "PM" then 12 else 0) == h
  {
  }

  /** The output is the 12-hour hour, ':', the minute text copied verbatim, ' ', the meridiem. */
  lemma To12hFields(raw: string)
    ensures TakeUntil(To12h(raw), ':') == IntToString(Hour12(ParseInt(HourText(raw))))
    ensures After(To12h(raw), ':') == Some(ShownMinutes(raw) + " " + Meridiem(ParseInt(HourText(raw))))
    ensures TakeUntil(ShownMinutes(raw) + " " + Meridiem(ParseInt(HourText(raw))), ' ') == ShownMinutes(raw)
  {
    var h := ParseInt(HourText(raw));
    var hour, mm, ampm := IntToString(Hour12(h)), ShownMinutes(raw), Meridiem(h);
    MinuteTextSeparators(raw);
    var tail := mm + " " + ampm;
    calc {
      To12h(raw);
      hour + ":" + mm + " " + ampm;
      { assert hour + ":" + mm + " " + ampm == hour + [':'] + tail; }
      hour + [':'] + tail;
    }
    SplitAt(hour, ':', tail);
    assert tail == mm + [' '] + ampm;
    SplitAt(mm, ' ', ampm);
  }

  /** Everything after the first space is ignored. */
  lemma To12hIgnoresAnnotation(time: string, note: string)
    requires ' ' !in time
    ensures To12h(time + " " + note) == To12h(time)
  {
    FieldsIgnoreAnnotation(time, note);
  }

  lemma MorningFields()
    ensures HourText("05:12") == "05" && ShownMinutes("05:12") == "12"
    ensures ParseInt("05") == Some(5)
  {
    assert "05:12" == "05" + [':'] + "12";
    SplitAt("05", ':', "12");
    TakeUntilWhole("05:12", ' ');
    TakeUntilWhole("12", ':');
    ParseIntOfDigits("05");
    assert DigitsValue("05") == 5;
  }

  lemma MorningText()
    ensures "05:12 (PKT)" == "05:12" + " " + "(PKT)"
    ensures IntToString(5) + ":" + "12" + " " + "AM" == "5:12 AM"
  {
  }

  lemma To12hMorningExample()
    ensures To12h("05:12 (PKT)") == "5:12 AM"
  {
    MorningText();
    To12hIgnoresAnnotation("05:12", "(PKT)");
    MorningFields();
  }

  // ------------------------------------------------------- saved settings

  /** `localStorage.getItem(key) || fallback`: a missing (None) or empty entry gives the fallback. */
  function SavedOr(stored: Option<string>, fallback: string): (r: string)
    ensures stored.Some? && stored.value != "" ==> r == stored.value
    ensures stored.None? || stored.value == "" ==> r == fallback
  {
    if stored.Some? && stored.value != "" then stored.value else fallback
  }

  /** `getSavedLang`, given what is stored under 'selected_lang'. */
  function SavedLang(stored: Option<string>): (r: string)
    ensures r != ""
    ensures stored.Some? && stored.value != "" ==> r == stored.value
    ensures stored.None? || stored.value == "" ==> r == "bn"
  {
    SavedOr(stored, "bn")
  }

  /** `getSavedCity`, given what is stored under 'selected_city'. */
  function SavedCity(stored: Option<string>): (r: string)
    ensures r != ""
    ensures stored.Some? && stored.value != "" ==> r == stored.value
    ensures stored.None? || stored.value == "" ==> r == "Dhaka"
  {
    SavedOr(stored, "Dhaka")
  }

  /** Storing the setting that was read and reading it again gives the same setting. */
  lemma SavedSettingsStable(lang: Option<string>, city: Option<string>)
    ensures SavedLang(Some(SavedLang(lang))) == SavedLang(lang)
    ensures SavedCity(Some(SavedCity(city))) == SavedCity(city)
  {
  }
}
