/**
 * The update-mode value type of a feed and its string form, as stored in the
 * `update_mode` column of the feed table (UpdateModes.kt).
 */
module UpdateModes {
  import opened Common

  /** Kotlin `Int`. */
  newtype Int32 = x: int | -0x8000_0000 <= x < 0x8000_0000

  /**
   * The sealed class `UpdateMode`. `Repeating(minutes)` also stands for the
   * `EveryNMinutes` / `EveryNHours` objects the scheduler matches on, and
   * `OnAppLaunch` is the scheduler's update-on-launch mode, which has no
   * serial form in UpdateModes.kt.
   */
  datatype UpdateMode = Adaptive | Default | Disabled | OnAppLaunch | Repeating(minutes: Int32)

  const ADAPTIVE: string := "ADAPTIVE"
  const DEFAULT: string := "DEFAULT"
  const DISABLED: string := "DISABLED"
  const REPEATING: string := "REPEATING"

  /** The modes that `serialize` is defined for. */
  predicate HasSerialForm(m: UpdateMode) {
    !m.OnAppLaunch?
  }

  // ---------------------------------------------------------------------
  // Decimal text of an Int (Kotlin string templates) and String.toInt
  // ---------------------------------------------------------------------

  predicate IsDigit(c: char) {
    '0' <= c <= '9'
  }

  predicate AllDigits(s: string) {
    forall i :: 0 <= i < |s| ==> IsDigit(s[i])
  }

  function DigitChar(d: nat): (c: char)
    requires d < 10
    ensures IsDigit(c) && c as int - '0' as int == d
  {
    (d + '0' as int) as char
  }

  /** Decimal digits of a natural number, without leading zeros. */
  function NatToString(n: nat): (s: string)
    ensures |s| > 0 && AllDigits(s)
    ensures s[0] == '0' ==> n == 0
    decreases n
  {
    if n < 10 then [DigitChar(n)] else NatToString(n / 10) + [DigitChar(n % 10)]
  }

  /** `"$i"` for a Kotlin Int: a minus sign for negatives, then the digits. */
  function IntToString(i: int): string {
    if i < 0 then "-" + NatToString(-i) else NatToString(i)
  }

  /** The value of a string of decimal digits, most significant first. */
  function DigitsValue(s: string): nat
    requires AllDigits(s)
  {
    if s == [] then 0
    else DigitsValue(s[..|s| - 1]) * 10 + (s[|s| - 1] as int - '0' as int)
  }

  /**
   * Kotlin `String.toInt`: an optional `+` or `-`, at least one decimal digit,
   * and a value in the Int range; anything else raises NumberFormatException,
   * modelled as `None`.
   */
  function ParseInt(s: string): (r: Option<Int32>)
    ensures r.Some? ==> |s| > 0
  {
    if |s| == 0 then None
    else
      var negative := s[0] == '-';
      var digits := if s[0] == '-' || s[0] == '+' then s[1..] else s;
      if |digits| == 0 || !AllDigits(digits) then None
      else
        var v: int := if negative then -(DigitsValue(digits) as int) else DigitsValue(digits);
        if -0x8000_0000 <= v < 0x8000_0000 then Some(v as Int32) else None
  }

  lemma {:induction false} DigitsValueOfNatToString(n: nat)
    ensures DigitsValue(NatToString(n)) == n
    decreases n
  {
    var s := NatToString(n);
    if n >= 10 {
      var p := NatToString(n / 10);
      assert s == p + [DigitChar(n % 10)];
      assert s[..|s| - 1] == p;
      DigitsValueOfNatToString(n / 10);
    }
  }

  /** `toInt` reads back every Int that a string template writes. */
  lemma ParseIntToString(i: Int32)
    ensures ParseInt(IntToString(i as int)) == Some(i)
  {
    if i < 0 {
      var d := NatToString(-(i as int));
      assert IntToString(i as int) == "-" + d;
      assert ("-" + d)[1..] == d;
      DigitsValueOfNatToString(-(i as int));
    } else {
      DigitsValueOfNatToString(i as int);
    }
  }

  // ---------------------------------------------------------------------
  // String.split(':', limit)
  // ---------------------------------------------------------------------

  /** Index of the first occurrence of `c` in `s`, if any. */
  function IndexOf(s: string, c: char): (r: Option<nat>)
    ensures r.None? <==> c !in s
    ensures r.Some? ==> r.value < |s| && s[r.value] == c && c !in s[..r.value]
  {
    if s == [] then None
    else if s[0] == c then Some(0)
    else
      match IndexOf(s[1..], c)
      case None => None
      case Some(i) =>
        assert s[..i + 1] == [s[0]] + s[1..][..i];
        Some(i + 1)
  }

  /**
   * Kotlin `CharSequence.split(delimiter, limit = limit)`: at most `limit`
   * parts (no bound when `limit` is 0); the last part keeps the rest of the
   * text, delimiters included.
   */
  function Split(s: string, sep: char, limit: nat): (parts: seq<string>)
    ensures 1 <= |parts|
    ensures limit > 0 ==> |parts| <= limit
    decreases |s|
  {
    if limit == 1 then [s]
    else
      match IndexOf(s, sep)
      case None => [s]
      case Some(i) => [s[..i]] + Split(s[i + 1..], sep, if limit == 0 then 0 else limit - 1)
  }

  /** With `limit = 1` nothing is ever split off: the one part is the whole text. */
  lemma SplitLimitOneIsWhole(s: string, sep: char)
    ensures Split(s, sep, 1) == [s]
  {
  }

  /** With `limit = 2` the text is cut at its first delimiter, if there is one. */
  lemma SplitLimitTwo(s: string, sep: char)
    ensures sep !in s ==> Split(s, sep, 2) == [s]
    ensures sep in s ==>
              && |Split(s, sep, 2)| == 2
              && Split(s, sep, 2)[0] + [sep] + Split(s, sep, 2)[1] == s
              && sep !in Split(s, sep, 2)[0]
  {
    match IndexOf(s, sep)
    case None =>
    case Some(i) =>
      assert s[..i] + [sep] + s[i + 1..] == s;
  }

  // ---------------------------------------------------------------------
  // serialize / deserialize
  // ---------------------------------------------------------------------

  /** `UpdateMode.serialize()`. */
  function Serialize(m: UpdateMode): (s: string)
    requires HasSerialForm(m)
    ensures m.Adaptive? ==> s == ADAPTIVE
    ensures m.Default? ==> s == DEFAULT
    ensures m.Disabled? ==> s == DISABLED
    ensures m.Repeating? ==> s == REPEATING + ":" + IntToString(m.minutes as int)
  {
    match m
    case Adaptive => ADAPTIVE
    case Default => DEFAULT
    case Disabled => DISABLED
    case Repeating(minutes) => REPEATING + ":" + IntToString(minutes as int)
  }

  /** The `when (name)` of `deserialize`, given the name and the optional parameter text. */
  function FromParts(name: string, params: Option<string>): (r: Result<UpdateMode>)
    ensures name != REPEATING ==> r.Ok?
    ensures name !in {ADAPTIVE, DEFAULT, DISABLED, REPEATING} ==> r == Ok(Disabled)
  {
    if name == ADAPTIVE then Ok(Adaptive)
    else if name == DEFAULT then Ok(Default)
    else if name == DISABLED then Ok(Disabled)
    else if name == REPEATING then
      match ParseInt(params.GetOr("60"))
      case Some(n) => Ok(Repeating(n))
      case None => Err("NumberFormatException")
    else Ok(Disabled)
  }

  /** The name and parameter text of a split serial form. */
  function NameAndParams(parts: seq<string>): (string, Option<string>)
    requires |parts| >= 1
  {
    (parts[0], if |parts| == 2 then Some(parts[1]) else None)
  }

  /**
   * `UpdateMode.deserialize` AS WRITTEN: `value.split(':', limit = 1)` always
   * yields the whole text as the name, so the parameters are always null.
   */
  function DeserializeAsWritten(value: string): (r: Result<UpdateMode>)
    ensures r.Ok?
    ensures value == REPEATING ==> r == Ok(Repeating(60))
    ensures value !in {ADAPTIVE, DEFAULT, DISABLED, REPEATING} ==> r == Ok(Disabled)
  {
    var parts := Split(value, ':', 1);
    assert parts == [value];
    var (name, params) := NameAndParams(parts);
    assert ParseInt("60") == Some(60 as Int32) by {
      SixtyText();
      ParseIntToString(60 as Int32);
    }
    FromParts(name, params)
  }

  /**
   * `UpdateMode.deserialize` as evidently intended: `split(':', limit = 2)`
   * separates the name from its parameters. A malformed number raises, as
   * `toInt` does.
   */
  function Deserialize(value: string): (r: Result<UpdateMode>)
    ensures ':' !in value ==> r == DeserializeAsWritten(value)
  {
    var parts := Split(value, ':', 2);
    var (name, params) := NameAndParams(parts);
    FromParts(name, params)
  }

  /** Any text whose name is not one of the four known names reads as Disabled. */
  lemma UnknownNameIsDisabled(value: string)
    requires Split(value, ':', 2)[0] !in {ADAPTIVE, DEFAULT, DISABLED, REPEATING}
    ensures Deserialize(value) == Ok(Disabled)
  {
  }

  /** The constant modes survive a round trip through the code as written. */
  lemma ConstantRoundTripAsWritten(m: UpdateMode)
    requires m.Adaptive? || m.Default? || m.Disabled?
    ensures DeserializeAsWritten(Serialize(m)) == Ok(m)
  {
  }

  /** A repeating mode does NOT survive the round trip as written: it reads back as Disabled. */
  lemma RepeatingRoundTripFailsAsWritten(minutes: Int32)
    ensures DeserializeAsWritten(Serialize(Repeating(minutes))) == Ok(Disabled)
  {
    var s := Serialize(Repeating(minutes));
    assert |s| > |REPEATING|;
    assert s != REPEATING && s != ADAPTIVE && s != DEFAULT && s != DISABLED;
  }

  /** The concrete input of the finding: "REPEATING:30" reads back as Disabled. */
  lemma Repeating30AsWritten()
    ensures Serialize(Repeating(30)) == "REPEATING:30"
    ensures DeserializeAsWritten("REPEATING:30") == Ok(Disabled)
  {
    RepeatingRoundTripFailsAsWritten(30);
    assert DigitChar(3) == '3' && DigitChar(0) == '0';
    assert NatToString(30) == NatToString(3) + [DigitChar(0)];
  }

  lemma SixtyText()
    ensures IntToString(60) == "60"
  {
    assert DigitChar(6) == '6' && DigitChar(0) == '0';
    assert NatToString(60) == NatToString(6) + [DigitChar(0)];
  }

  /** `deserialize(m.serialize()) == m` for every mode with a serial form (corrected split). */
  lemma RoundTrip(m: UpdateMode)
    requires HasSerialForm(m)
    ensures Deserialize(Serialize(m)) == Ok(m)
  {
    if m.Repeating? {
      RepeatingRoundTrip(m.minutes);
    } else {
      assert ':' !in Serialize(m);
      ConstantRoundTripAsWritten(m);
    }
  }

  lemma RepeatingRoundTrip(minutes: Int32)
    ensures Deserialize(Serialize(Repeating(minutes))) == Ok(Repeating(minutes))
  {
    var digits := IntToString(minutes as int);
    SplitRepeatingText(minutes);
    ParseIntToString(minutes);
    assert NameAndParams([REPEATING, digits]) == (REPEATING, Some(digits));
  }

  lemma NoColonInIntText(i: int)
    ensures ':' !in IntToString(i)
  {
    var d := NatToString(if i < 0 then -i else i);
    assert forall k :: 0 <= k < |d| ==> d[k] != ':';
    if i < 0 {
      assert IntToString(i) == "-" + d;
      assert forall k :: 0 <= k < |"-" + d| ==> ("-" + d)[k] != ':';
    }
  }

  lemma SplitRepeatingText(minutes: Int32)
    ensures Split(Serialize(Repeating(minutes)), ':', 2) == [REPEATING, IntToString(minutes as int)]
  {
    var digits := IntToString(minutes as int);
    var s := Serialize(Repeating(minutes));
    NoColonInIntText(minutes as int);
    assert ':' !in REPEATING;
    assert s == REPEATING + [':'] + digits;
    IndexOfAfterPrefix(REPEATING, ':', digits);
    assert s[..|REPEATING|] == REPEATING;
    assert s[|REPEATING| + 1..] == digits;
    assert Split(digits, ':', 1) == [digits];
  }

  lemma IndexOfAfterPrefix(p: string, c: char, t: string)
    requires c !in p
    ensures IndexOf(p + [c] + t, c) == Some(|p|)
  {
    var s := p + [c] + t;
    assert s[|p|] == c;
    assert s[..|p|] == p;
  }

  /** The corrected reader never fails on a serial form written by `Serialize`. */
  lemma DeserializeIsTotalOnSerialForms(m: UpdateMode)
    requires HasSerialForm(m)
    ensures Deserialize(Serialize(m)).Ok?
  {
    RoundTrip(m);
  }
}
