/**
 * The dashboard's formatting helpers: fixed-point rendering of 18-decimal
 * token amounts and the short "1d 2h" rendering of a countdown.
 */
module Utils {
  import opened Options
  import opened Arithmetic
  import opened Decimal
  import opened JsString

  /** The token has 18 decimals: one whole token is 10^18 base units. */
  const ETHER_DECIMALS: nat := 18
  /** The largest digit count `Number.prototype.toFixed` accepts. */
  const TO_FIXED_MAX_DIGITS: nat := 100

  /** `Number(0).toFixed(decimals)`. */
  function ZeroToFixed(decimals: nat): (s: string)
    requires decimals <= TO_FIXED_MAX_DIGITS
  {
    if decimals == 0 then "0" else "0." + Zeros(decimals)
  }

  /** The whole-token part of an amount of base units, as a numeral. */
  function WholeDigits(amount: nat): (s: string)
    ensures s != [] && AllDigits(s)
  {
    DivMod(amount, Pow10(ETHER_DECIMALS));
    NatToString(amount / Pow10(ETHER_DECIMALS))
  }

  /** The sub-token part of an amount of base units, as exactly 18 digits. */
  function FractionDigits(amount: nat): (s: string)
    ensures |s| == ETHER_DECIMALS && AllDigits(s)
  {
    DivMod(amount, Pow10(ETHER_DECIMALS));
    FixedDigits(amount % Pow10(ETHER_DECIMALS), ETHER_DECIMALS)
  }

  /**
   * viem's `formatEther` on a non-negative amount: the whole part, then, when
   * the 18-digit fraction is not all zeros, a '.' and that fraction without its
   * trailing zeros.
   */
  function FormatEther(amount: nat): string {
    var fraction := StripTrailingZeros(FractionDigits(amount));
    WholeDigits(amount) + (if fraction == [] then [] else "." + fraction)
  }

  /**
   * `formatTokenAmount(amount, decimals)`: `formatEther`'s output split at '.',
   * the fraction cut to `decimals` characters and padded back to `decimals`
   * with '0'.
   */
  function FormatTokenAmount(amount: Option<nat>, decimals: nat): (s: string)
    requires amount.None? ==> decimals <= TO_FIXED_MAX_DIGITS
    ensures amount.Some? || decimals >= 1 ==> |s| > decimals && s[|s| - decimals - 1] == '.'
  {
    match amount
    case None => ZeroToFixed(decimals)
    case Some(a) =>
      var pieces := SplitOn(FormatEther(a), '.');
      var integer := pieces[0];
      var fraction := if |pieces| > 1 then pieces[1] else [];
      if fraction != [] then
        integer + "." + PadEnd(fraction[..Min(decimals, |fraction|)], decimals, '0')
      else
        integer + "." + PadEnd([], decimals, '0')
  }

  /** The base units an 18-decimal numeral `integer.fraction` denotes. */
  function FixedPointValue(integer: string, fraction: string): nat
    requires AllDigits(integer) && AllDigits(fraction) && |fraction| <= ETHER_DECIMALS
  {
    ScaledValue(integer, fraction, ETHER_DECIMALS)
  }

  /** The units of 10^-n a numeral `integer.fraction` with at most `n` fraction digits denotes. */
  function ScaledValue(integer: string, fraction: string, n: nat): nat
    requires AllDigits(integer) && AllDigits(fraction) && |fraction| <= n
  {
    var whole, part := ValueOf(integer), ValueOf(fraction);
    var scale, partScale := Pow10(n), Pow10(n - |fraction|);
    MulNonNegative(whole, scale);
    MulNonNegative(part, partScale);
    whole * scale + part * partScale
  }

  /**
   * viem's `parseEther` on an unsigned numeral: digits, then optionally '.'
   * and more digits, either side possibly empty. As in viem, the fraction's
   * trailing zeros are dropped before its length is checked against 18.
   * None stands for text viem rejects (a second '.', a character other than a
   * digit) and also for what this model does not cover: a leading '-', and a
   * fraction with more than 18 significant digits, which viem rounds.
   */
  function ParseEther(s: string): Option<nat> {
    var pieces := SplitOn(s, '.');
    var integer := pieces[0];
    var digits := if |pieces| > 1 then pieces[1] else [];
    if |pieces| > 2 || !AllDigits(integer) || !AllDigits(digits) then None
    else
      var fraction := StripTrailingZeros(digits);
      StrippedDigits(digits);
      if |fraction| > ETHER_DECIMALS then None
      else Some(FixedPointValue(integer, fraction))
  }

  /** A numeral without a point denotes that many whole tokens. */
  lemma ParseWholeTokens(s: string)
    requires AllDigits(s)
    ensures ParseEther(s) == Some(ValueOf(s) * Pow10(ETHER_DECIMALS))
  {
    NoDotInDigits(s);
    SplitOnWithoutSeparator(s, '.');
    assert StripTrailingZeros([]) == [];
    ScaledValueWhole(s, ETHER_DECIMALS);
  }

  /** `integer.fraction` reads back as its fixed-point value. */
  lemma ParseNumeral(integer: string, fraction: string)
    requires AllDigits(integer) && AllDigits(fraction) && |fraction| <= ETHER_DECIMALS
    ensures ParseEther(integer + "." + fraction) == Some(FixedPointValue(integer, fraction))
  {
    NoDotInDigits(integer);
    NoDotInDigits(fraction);
    assert integer + "." + fraction == integer + ['.'] + fraction;
    SplitOnFirstSeparator(integer, fraction, '.');
    SplitOnWithoutSeparator(fraction, '.');
    assert SplitOn(integer + "." + fraction, '.') == [integer, fraction];
    var significant := StripTrailingZeros(fraction);
    StrippedDigits(fraction);
    ScaledValueTrailingZeros(integer, significant, |fraction| - |significant|, ETHER_DECIMALS);
    assert ParseEther(integer + "." + fraction) == Some(FixedPointValue(integer, significant));
  }

  /** Zeros appended to the fraction do not change the value a numeral denotes. */
  lemma ScaledValueTrailingZeros(integer: string, fraction: string, k: nat, n: nat)
    requires AllDigits(integer) && AllDigits(fraction) && |fraction| + k <= n
    ensures AllDigits(fraction + Zeros(k))
    ensures ScaledValue(integer, fraction + Zeros(k), n) == ScaledValue(integer, fraction, n)
  {
    var padded := fraction + Zeros(k);
    ValueOfZeros(k);
    ValueOfConcat(fraction, Zeros(k));
    var v, m := ValueOf(fraction), n - |padded|;
    assert ValueOf(padded) == v * Pow10(k);
    assert n - |fraction| == m + k;
    Pow10Add(m, k);
    MulRegroup(v, Pow10(k), Pow10(m));
  }

  /** A numeral without fraction digits denotes its whole part scaled by 10^n. */
  lemma ScaledValueWhole(integer: string, n: nat)
    requires AllDigits(integer)
    ensures ScaledValue(integer, [], n) == ValueOf(integer) * Pow10(n)
  {
    assert ValueOf([]) == 0;
  }

  lemma NoDotInDigits(s: string)
    requires AllDigits(s)
    ensures '.' !in s
  {
    forall i | 0 <= i < |s| ensures s[i] != '.' {
      assert IsDigit(s[i]);
    }
  }

  /** Splitting `formatEther`'s output at '.' gives the whole part and the stripped fraction. */
  lemma {:induction false} FormatEtherSplit(a: nat)
    ensures var pieces := SplitOn(FormatEther(a), '.');
            && pieces[0] == WholeDigits(a)
            && (if |pieces| > 1 then pieces[1] else []) == StripTrailingZeros(FractionDigits(a))
  {
    var whole, digits := WholeDigits(a), FractionDigits(a);
    var stripped := StripTrailingZeros(digits);
    NoDotInDigits(whole);
    if stripped == [] {
      assert FormatEther(a) == whole;
      SplitOnWithoutSeparator(whole, '.');
    } else {
      assert digits == stripped + Zeros(ETHER_DECIMALS - |stripped|);
      assert AllDigits(stripped) by {
        assert forall i :: 0 <= i < |stripped| ==> stripped[i] == digits[i];
      }
      NoDotInDigits(stripped);
      assert FormatEther(a) == whole + ['.'] + stripped;
      SplitOnFirstSeparator(whole, stripped, '.');
      SplitOnWithoutSeparator(stripped, '.');
    }
  }

  /** Cutting the stripped fraction to `d` characters and padding with '0' gives the first `d` digits. */
  lemma PadStripped(digits: string, stripped: string, d: nat)
    requires |stripped| <= |digits| && digits == stripped + Zeros(|digits| - |stripped|)
    ensures d <= |digits| ==> PadEnd(stripped[..Min(d, |stripped|)], d, '0') == digits[..d]
    ensures d > |digits| ==> PadEnd(stripped[..Min(d, |stripped|)], d, '0') == digits + Zeros(d - |digits|)
  {
  }

  /**
   * A defined amount renders as its whole part, '.', and exactly `decimals`
   * fraction digits: the leading `decimals` of the 18-digit fraction, then zeros.
   */
  lemma {:induction false} FormatTokenAmountShape(a: nat, decimals: nat)
    ensures decimals <= ETHER_DECIMALS ==>
      FormatTokenAmount(Some(a), decimals) == WholeDigits(a) + "." + FractionDigits(a)[..decimals]
    ensures decimals > ETHER_DECIMALS ==>
      FormatTokenAmount(Some(a), decimals)
        == WholeDigits(a) + "." + FractionDigits(a) + Zeros(decimals - ETHER_DECIMALS)
  {
    var digits := FractionDigits(a);
    var stripped := StripTrailingZeros(digits);
    FormatEtherSplit(a);
    PadStripped(digits, stripped, decimals);
    var padded := PadEnd(stripped[..Min(decimals, |stripped|)], decimals, '0');
    if stripped == [] {
      assert stripped[..Min(decimals, |stripped|)] == [];
    }
    assert FormatTokenAmount(Some(a), decimals) == WholeDigits(a) + "." + padded;
    if decimals <= ETHER_DECIMALS {
      assert padded == digits[..decimals];
    } else {
      assert padded == digits + Zeros(decimals - ETHER_DECIMALS);
    }
  }

  /** An undefined amount renders as zero with `decimals` zero digits after the point. */
  lemma UndefinedAmountIsZero(decimals: nat)
    requires 1 <= decimals <= TO_FIXED_MAX_DIGITS
    ensures FormatTokenAmount(None, decimals) == "0." + Zeros(decimals)
    ensures ParseEther(FormatTokenAmount(None, decimals)) == Some(0)
  {
    ZeroNumeral(decimals);
  }

  /** "0." followed by any number of zeros reads as 0, however many zeros there are. */
  lemma ZeroNumeral(k: nat)
    ensures ParseEther("0." + Zeros(k)) == Some(0)
  {
    var zeros := Zeros(k);
    ValueOfZeros(k);
    NoDotInDigits(zeros);
    assert "0." + zeros == "0" + ['.'] + zeros;
    SplitOnFirstSeparator("0", zeros, '.');
    SplitOnWithoutSeparator(zeros, '.');
    assert SplitOn("0." + zeros, '.') == ["0", zeros];
    StripZeros(k);
    assert ValueOf("0") == 0;
    ScaledValueWhole("0", ETHER_DECIMALS);
  }

  /** The whole part and the 18 fraction digits together denote the amount. */
  lemma AmountFromDigits(a: nat)
    ensures ValueOf(WholeDigits(a)) * Pow10(ETHER_DECIMALS) + ValueOf(FractionDigits(a)) == a
  {
    DivMod(a, Pow10(ETHER_DECIMALS));
  }

  /** The digits dropped by the cut are worth less than one unit of the last digit kept. */
  lemma {:induction false} CutDigits(digits: string, k: nat, n: nat)
    requires AllDigits(digits) && |digits| == n && k <= n
    ensures AllDigits(digits[..k]) && AllDigits(digits[k..])
    ensures ValueOf(digits) == ValueOf(digits[..k]) * Pow10(n - k) + ValueOf(digits[k..])
    ensures ValueOf(digits[k..]) < Pow10(n - k)
  {
    var head, tail := digits[..k], digits[k..];
    assert digits == head + tail;
    assert forall i :: 0 <= i < k ==> head[i] == digits[i];
    assert forall i :: 0 <= i < n - k ==> tail[i] == digits[k + i];
    assert |tail| == n - k;
    ValueOfConcat(head, tail);
  }

  /**
   * With at most 18 decimals the rendering truncates: read back as an 18-decimal
   * number it is the largest multiple of 10^(18 - decimals) not above the amount,
   * so it never shows more than the amount.
   */
  lemma {:induction false} FormatTokenAmountTruncates(a: nat, decimals: nat)
    requires decimals <= ETHER_DECIMALS
    ensures ParseEther(FormatTokenAmount(Some(a), decimals)).Some?
    ensures RoundedDown(ParseEther(FormatTokenAmount(Some(a), decimals)).value, a, Pow10(ETHER_DECIMALS - decimals))
  {
    ShownValue(a, decimals);
    KeptDigitsValue(a, decimals);
  }

  /**
   * The whole part and the first `decimals` fraction digits, scaled back to base
   * units, are the amount rounded down to a multiple of 10^(18 - decimals).
   */
  lemma KeptDigitsValue(a: nat, decimals: nat)
    requires decimals <= ETHER_DECIMALS
    ensures AllDigits(FractionDigits(a)[..decimals])
    ensures |FractionDigits(a)[..decimals]| == decimals
    ensures RoundedDown(FixedPointValue(WholeDigits(a), FractionDigits(a)[..decimals]), a, Pow10(ETHER_DECIMALS - decimals))
  {
    AmountFromDigits(a);
    CutValue(a, WholeDigits(a), FractionDigits(a), decimals, ETHER_DECIMALS);
  }

  /**
   * For `a` written as a whole part and `n` fraction digits, keeping the first
   * `decimals` fraction digits rounds `a` down to a multiple of 10^(n - decimals).
   */
  lemma CutValue(a: nat, whole: string, digits: string, decimals: nat, n: nat)
    requires AllDigits(whole) && AllDigits(digits) && |digits| == n && decimals <= n
    requires ValueOf(whole) * Pow10(n) + ValueOf(digits) == a
    ensures AllDigits(digits[..decimals]) && |digits[..decimals]| == decimals
    ensures RoundedDown(ScaledValue(whole, digits[..decimals], n), a, Pow10(n - decimals))
  {
    CutDigits(digits, decimals, n);
    Pow10Split(n, decimals);
    TruncationArithmetic(ValueOf(whole), ValueOf(digits[..decimals]), ValueOf(digits[decimals..]),
                         Pow10(n - decimals), Pow10(decimals), Pow10(n), a);
  }

  /** Read back, the rendering is the fixed-point value of the whole part and the kept fraction digits. */
  lemma ShownValue(a: nat, decimals: nat)
    requires decimals <= ETHER_DECIMALS
    ensures AllDigits(FractionDigits(a)[..decimals])
    ensures ParseEther(FormatTokenAmount(Some(a), decimals)).Some?
    ensures ParseEther(FormatTokenAmount(Some(a), decimals)).value
         == FixedPointValue(WholeDigits(a), FractionDigits(a)[..decimals])
  {
    var whole, head := WholeDigits(a), FractionDigits(a)[..decimals];
    assert AllDigits(head) by {
      forall i | 0 <= i < decimals ensures IsDigit(head[i]) {
        assert head[i] == FractionDigits(a)[i];
      }
    }
    FormatTokenAmountShape(a, decimals);
    ParseNumeral(whole, head);
  }

  /** `shown` is `a` rounded down to a multiple of `step`. */
  predicate RoundedDown(shown: int, a: int, step: int) {
    shown <= a && a - shown < step && shown % step == 0
  }

  /** `w * e + h * p` with `e` a multiple of `p` is a multiple of `p`, and `r < p` below `w * e + h * p + r`. */
  lemma TruncationArithmetic(w: nat, h: nat, r: nat, p: nat, q: nat, e: nat, a: nat)
    requires p > 0 && e == p * q && r < p
    requires a == w * e + (h * p + r)
    ensures RoundedDown(w * e + h * p, a, p)
  {
    var k := w * q + h;
    assert w * e + h * p == k * p;
    MultipleMod(k, p);
  }

  /**
   * The "Max" button's round trip: rendered with all 18 decimals and read back
   * as an 18-decimal number, an amount comes back unchanged.
   */
  lemma MaxRenderingRoundTrip(a: nat)
    ensures ParseEther(FormatTokenAmount(Some(a), ETHER_DECIMALS)) == Some(a)
  {
    FormatTokenAmountTruncates(a, ETHER_DECIMALS);
    var shown := ParseEther(FormatTokenAmount(Some(a), ETHER_DECIMALS)).value;
    assert Pow10(0) == 1;
    assert shown <= a && a - shown < 1;
  }

  /** The day, hour and minute fields of a date-fns `Duration`; an absent field is 0. */
  datatype Duration = Duration(days: nat, hours: nat, minutes: nat)

  /** The units `formatDuration` lists for a decomposed interval, largest first, zero units skipped. */
  function DurationParts(d: Duration): seq<string> {
    (if d.days > 0 then [NatToString(d.days) + "d"] else [])
    + (if d.hours > 0 then [NatToString(d.hours) + "h"] else [])
    + (if d.minutes > 0 then [NatToString(d.minutes) + "m"] else [])
  }

  /**
   * `formatDuration(seconds)`. `decompose` stands for date-fns'
   * `intervalToDuration` from the epoch: it maps a number of seconds to its
   * day, hour and minute fields.
   */
  function FormatDuration(seconds: int, decompose: nat -> Duration): (s: string)
    ensures s != [] && IsUnit(s[|s| - 1])
  {
    var clamped: nat := if seconds < 0 then 0 else seconds;
    var parts := DurationParts(decompose(clamped));
    if parts == [] && clamped > 0 then "< 1m"
    else if parts == [] && clamped == 0 then "0m"
    else
      DurationPartsEndInUnits(decompose(clamped));
      JoinEndsLikeLastPart(parts[..Min(2, |parts|)], " ");
      Join(parts[..Min(2, |parts|)], " ")
  }

  /** The unit letters a rendered duration can end in. */
  predicate IsUnit(c: char) {
    c == 'd' || c == 'h' || c == 'm'
  }

  /** Every listed unit is a numeral followed by its unit letter. */
  lemma DurationPartsEndInUnits(d: Duration)
    ensures forall i :: 0 <= i < |DurationParts(d)| ==>
      DurationParts(d)[i] != [] && IsUnit(DurationParts(d)[i][|DurationParts(d)[i]| - 1])
  {
  }

  /** Joining non-empty pieces ends with the last piece's last character. */
  lemma {:induction false} JoinEndsLikeLastPart(parts: seq<string>, sep: string)
    requires parts != [] && forall i :: 0 <= i < |parts| ==> parts[i] != []
    ensures var j := Join(parts, sep); j != [] && j[|j| - 1] == parts[|parts| - 1][|parts[|parts| - 1]| - 1]
  {
    if |parts| > 1 {
      JoinEndsLikeLastPart(parts[1..], sep);
    }
  }

  /**
   * At most two units are shown, in the order days, hours, minutes, skipping
   * zero units; with none to show, a positive interval is "< 1m" and an empty
   * or negative one "0m".
   */
  lemma FormatDurationUnits(seconds: int, decompose: nat -> Duration)
    ensures seconds < 0 ==> FormatDuration(seconds, decompose) == FormatDuration(0, decompose)
    ensures var d := decompose(if seconds < 0 then 0 else seconds);
            var s := FormatDuration(seconds, decompose);
            var days, hours, minutes := NatToString(d.days) + "d", NatToString(d.hours) + "h", NatToString(d.minutes) + "m";
            && (d.days > 0 && d.hours > 0 ==> s == days + " " + hours)
            && (d.days > 0 && d.hours == 0 && d.minutes > 0 ==> s == days + " " + minutes)
            && (d.days > 0 && d.hours == 0 && d.minutes == 0 ==> s == days)
            && (d.days == 0 && d.hours > 0 && d.minutes > 0 ==> s == hours + " " + minutes)
            && (d.days == 0 && d.hours > 0 && d.minutes == 0 ==> s == hours)
            && (d.days == 0 && d.hours == 0 && d.minutes > 0 ==> s == minutes)
            && (d.days == 0 && d.hours == 0 && d.minutes == 0 ==> s == if seconds > 0 then "< 1m" else "0m")
  {
    var d := decompose(if seconds < 0 then 0 else seconds);
    var days, hours, minutes := NatToString(d.days) + "d", NatToString(d.hours) + "h", NatToString(d.minutes) + "m";
    var parts := DurationParts(d);
    if d.days > 0 && d.hours > 0 {
      assert parts[..Min(2, |parts|)] == [days, hours];
      JoinPair(days, hours);
    } else if d.days > 0 && d.minutes > 0 {
      assert parts == [days, minutes] && parts[..Min(2, |parts|)] == parts;
      JoinPair(days, minutes);
    } else if d.hours > 0 && d.minutes > 0 {
      assert parts == [hours, minutes] && parts[..Min(2, |parts|)] == parts;
      JoinPair(hours, minutes);
    } else if d.days > 0 {
      assert parts == [days];
    } else if d.hours > 0 {
      assert parts == [hours];
    } else if d.minutes > 0 {
      assert parts == [minutes];
    } else {
      assert parts == [];
    }
  }

  lemma JoinPair(x: string, y: string)
    ensures Join([x, y], " ") == x + " " + y
  {
    assert [x, y][1..] == [y];
  }

  const SECONDS_PER_MINUTE: nat := 60
  const SECONDS_PER_HOUR: nat := 3600
  const SECONDS_PER_DAY: nat := 86400

  /**
   * An interval split arithmetically into whole days, hours and minutes. It is
   * what `intervalToDuration` gives for an interval under a day, where no
   * calendar month or daylight-saving shift arises, and the lemmas below use
   * it only there.
   */
  function ShortIntervalDuration(seconds: nat): Duration {
    Duration(seconds / SECONDS_PER_DAY, seconds % SECONDS_PER_DAY / SECONDS_PER_HOUR,
             seconds % SECONDS_PER_HOUR / SECONDS_PER_MINUTE)
  }

  /** With nothing to show, a positive interval under a minute is "< 1m" and an empty or negative one "0m". */
  lemma ShortIntervalUnderAMinute(seconds: int)
    ensures seconds <= 0 ==> FormatDuration(seconds, ShortIntervalDuration) == "0m"
    ensures 0 < seconds < SECONDS_PER_MINUTE ==> FormatDuration(seconds, ShortIntervalDuration) == "< 1m"
  {
    if seconds < SECONDS_PER_MINUTE {
      var clamped: nat := if seconds < 0 then 0 else seconds;
      assert ShortIntervalDuration(clamped) == Duration(0, 0, 0);
      assert DurationParts(ShortIntervalDuration(clamped)) == [];
    }
  }

  /** Between a minute and an hour, only whole minutes are shown. */
  lemma ShortIntervalUnderAnHour(seconds: int)
    requires SECONDS_PER_MINUTE <= seconds < SECONDS_PER_HOUR
    ensures FormatDuration(seconds, ShortIntervalDuration) == NatToString(seconds / SECONDS_PER_MINUTE) + "m"
  {
    var minutes := NatToString(seconds / SECONDS_PER_MINUTE) + "m";
    assert ShortIntervalDuration(seconds) == Duration(0, 0, seconds / SECONDS_PER_MINUTE);
    var parts := DurationParts(ShortIntervalDuration(seconds));
    assert parts == [minutes] && parts[..Min(2, |parts|)] == [minutes];
  }

  /** Between an hour and a day, hours and then minutes are shown when there are minutes. */
  lemma ShortIntervalUnderADay(seconds: int)
    requires SECONDS_PER_HOUR <= seconds < SECONDS_PER_DAY && seconds % SECONDS_PER_HOUR >= SECONDS_PER_MINUTE
    ensures FormatDuration(seconds, ShortIntervalDuration)
         == NatToString(seconds / SECONDS_PER_HOUR) + "h " + NatToString(seconds % SECONDS_PER_HOUR / SECONDS_PER_MINUTE) + "m"
  {
    var hours := NatToString(seconds / SECONDS_PER_HOUR) + "h";
    var minutes := NatToString(seconds % SECONDS_PER_HOUR / SECONDS_PER_MINUTE) + "m";
    assert ShortIntervalDuration(seconds)
        == Duration(0, seconds / SECONDS_PER_HOUR, seconds % SECONDS_PER_HOUR / SECONDS_PER_MINUTE);
    var parts := DurationParts(ShortIntervalDuration(seconds));
    assert parts == [hours, minutes] && parts[..Min(2, |parts|)] == [hours, minutes];
    JoinPair(hours, minutes);
  }
}
