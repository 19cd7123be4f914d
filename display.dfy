/**
 * The two display helpers of the timer window: the countdown shown as
 * "MM:SS" and the session length shown as "Hh Mm" or "Mm". Both are
 * defined on every integer with JavaScript's semantics; the lemmas state
 * what they promise for the non-negative durations the timer produces,
 * by reading the text back with a parser.
 */
module Display {
  import opened Wrappers
  import opened JsText

  /** Zero-padded two-column field, as `x.toString().padStart(2, "0")`. */
  function Field(x: int): string {
    PadStart(IntToString(x), 2, '0')
  }

  /** formatTime: whole seconds by floor, then minutes and seconds. */
  function FormatTime(ms: int): string {
    var totalSeconds := FloorDiv(ms, 1000);
    var minutes := FloorDiv(totalSeconds, 60);
    var seconds := JsRem(totalSeconds, 60);
    Field(minutes) + ":" + Field(seconds)
  }

  /** formatSessionTime: whole minutes by floor, then hours and minutes;
      the hours part is shown only when it is positive. The floor of
      ms / 1000 / 60 is the floor of ms / 60000. */
  function FormatSessionTime(ms: int): string {
    var totalMinutes := FloorDiv(ms, 1000 * 60);
    var hours := FloorDiv(totalMinutes, 60);
    var minutes := JsRem(totalMinutes, 60);
    if hours > 0 then IntToString(hours) + "h " + IntToString(minutes) + "m"
    else IntToString(minutes) + "m"
  }

  // ---------------------------------------------------------------------
  // Reading the text back

  /** "M..M:SS": at least two minute digits, a colon, two second digits
      below 60. */
  predicate IsClockText(s: string) {
    && |s| >= 5 && s[|s| - 3] == ':'
    && AllDigits(s[..|s| - 3]) && AllDigits(s[|s| - 2..]) && ParseNat(s[|s| - 2..]) < 60
  }

  /** Whole seconds shown by clock text. */
  function ParseClock(s: string): Option<nat> {
    if IsClockText(s) then Some(ParseNat(s[..|s| - 3]) * 60 + ParseNat(s[|s| - 2..])) else None
  }

  /** Value of the digits a string starts with. */
  function LeadingNumber(s: string): nat {
    ParseNat(s[..DigitPrefixLen(s)])
  }

  /** "Mm": one or more minute digits and the letter m. */
  predicate IsMinutesText(s: string) {
    var k := DigitPrefixLen(s);
    0 < k && |s| == k + 1 && s[k] == 'm'
  }

  /** "Hh Mm": a positive hour count, "h ", then minutes below 60 as above. */
  predicate IsHoursText(s: string) {
    var k := DigitPrefixLen(s);
    && 0 < k && |s| >= k + 4 && s[k] == 'h' && s[k + 1] == ' ' && IsMinutesText(s[k + 2..])
    && LeadingNumber(s) > 0 && LeadingNumber(s[k + 2..]) < 60
  }

  /** Whole minutes shown by session-length text. */
  function ParseSessionTime(s: string): Option<nat> {
    if IsMinutesText(s) then Some(LeadingNumber(s))
    else if IsHoursText(s) then Some(LeadingNumber(s) * 60 + LeadingNumber(s[DigitPrefixLen(s) + 2..]))
    else None
  }

  // ---------------------------------------------------------------------
  // Where the parts of the texts lie (plain sequence facts)

  lemma ClockLayout(fm: string, fs: string)
    requires |fs| == 2
    ensures var s := fm + ":" + fs;
      |s| == |fm| + 3 && s[|s| - 3] == ':' && s[..|s| - 3] == fm && s[|s| - 2..] == fs
  {
  }

  lemma MinutesLayout(mt: string)
    ensures var s := mt + "m";
      |s| == |mt| + 1 && s[|s| - 1] == 'm' && s[..|s| - 1] == mt
  {
  }

  lemma HoursLayout(hs: string, mt: string)
    ensures var s, k := hs + "h " + mt + "m", |hs|;
      && |s| == k + 3 + |mt| && s[k] == 'h' && s[k + 1] == ' '
      && s[..k] == hs && s[k + 2..] == mt + "m" && s[k + 2..|s| - 1] == mt && s == hs + s[k..]
  {
    var s, k := hs + "h " + mt + "m", |hs|;
    assert s[k + 2..] == mt + "m";
    assert s[k + 2..|s| - 1] == mt;
  }

  // ---------------------------------------------------------------------
  // The parsers accept what the formatters produce

  lemma ParseClockOf(fm: string, fs: string, t: nat)
    requires AllDigits(fm) && AllDigits(fs) && |fm| >= 2 && |fs| == 2
    requires ParseNat(fs) < 60 && ParseNat(fm) * 60 + ParseNat(fs) == t
    ensures ParseClock(fm + ":" + fs) == Some(t)
  {
    ClockTextAccepted(fm, fs);
    ParseClockText(fm + ":" + fs, ParseNat(fm), ParseNat(fs), t);
  }

  lemma ClockTextAccepted(fm: string, fs: string)
    requires AllDigits(fm) && AllDigits(fs) && |fm| >= 2 && |fs| == 2 && ParseNat(fs) < 60
    ensures var s := fm + ":" + fs;
      IsClockText(s) && s[..|s| - 3] == fm && s[|s| - 2..] == fs
  {
    ClockLayout(fm, fs);
  }

  lemma ParseClockText(s: string, m: nat, sec: nat, t: nat)
    requires IsClockText(s) && ParseNat(s[..|s| - 3]) == m && ParseNat(s[|s| - 2..]) == sec
    requires m * 60 + sec == t
    ensures ParseClock(s) == Some(t)
  {
  }

  lemma MinutesTextAccepted(mt: string)
    requires AllDigits(mt) && |mt| >= 1
    ensures IsMinutesText(mt + "m") && LeadingNumber(mt + "m") == ParseNat(mt)
  {
    DigitPrefixOfConcat(mt, "m");
    assert (mt + "m")[..|mt|] == mt;
  }

  lemma ParseMinutesOf(mt: string, t: nat)
    requires AllDigits(mt) && |mt| >= 1 && ParseNat(mt) == t
    ensures ParseSessionTime(mt + "m") == Some(t)
  {
    MinutesTextAccepted(mt);
  }

  lemma HoursTextAccepted(hs: string, mt: string)
    requires AllDigits(hs) && AllDigits(mt) && |hs| >= 1 && |mt| >= 1
    requires ParseNat(hs) > 0 && ParseNat(mt) < 60
    ensures var s := hs + "h " + mt + "m";
      && !IsMinutesText(s) && IsHoursText(s) && DigitPrefixLen(s) == |hs|
      && LeadingNumber(s) == ParseNat(hs) && LeadingNumber(s[|hs| + 2..]) == ParseNat(mt)
  {
    var s, k := hs + "h " + mt + "m", |hs|;
    HoursLayout(hs, mt);
    DigitPrefixOfConcat(hs, s[k..]);
    MinutesTextAccepted(mt);
  }

  lemma ParseHoursMinutesOf(hs: string, mt: string)
    requires AllDigits(hs) && AllDigits(mt) && |hs| >= 1 && |mt| >= 1
    requires ParseNat(hs) > 0 && ParseNat(mt) < 60
    ensures ParseSessionTime(hs + "h " + mt + "m") == Some(ParseNat(hs) * 60 + ParseNat(mt))
  {
    HoursTextAccepted(hs, mt);
    ParseHoursText(hs + "h " + mt + "m", |hs|, ParseNat(hs), ParseNat(mt));
  }

  lemma ParseHoursText(s: string, k: nat, h: nat, m: nat)
    requires !IsMinutesText(s) && IsHoursText(s) && DigitPrefixLen(s) == k
    requires LeadingNumber(s) == h && LeadingNumber(s[k + 2..]) == m
    ensures ParseSessionTime(s) == Some(h * 60 + m)
  {
  }

  /** The text of a non-negative field: zero-padded digits that read back as x. */
  lemma FieldDigits(x: nat)
    ensures |Field(x)| >= 2 && AllDigits(Field(x)) && ParseNat(Field(x)) == x
    ensures x < 100 ==> |Field(x)| == 2
  {
    PaddedRoundTrip(x, 2);
  }

  /** formatTime of a non-negative duration in terms of its whole seconds t. */
  lemma FormatTimeFields(ms: int)
    requires ms >= 0
    ensures var t := ms / 1000;
      FormatTime(ms) == Field(t / 60) + ":" + Field(t % 60) && t == t / 60 * 60 + t % 60
  {
  }

  /** For a non-negative duration, formatTime shows the whole seconds
      floor(ms / 1000) as minutes and seconds: seconds below 60, each field
      padded to at least two digits, and the text reads back exactly. */
  lemma FormatTimeRoundTrip(ms: int)
    requires ms >= 0
    ensures ParseClock(FormatTime(ms)) == Some(ms / 1000)
  {
    FormatTimeFields(ms);
    ClockOfSeconds(ms / 1000);
  }

  /** Minutes and seconds of t, as formatTime lays them out, read back as t. */
  lemma ClockOfSeconds(t: nat)
    ensures ParseClock(Field(t / 60) + ":" + Field(t % 60)) == Some(t)
  {
    var m, sec := t / 60, t % 60;
    SplitSixty(t);
    FieldDigits(m);
    FieldDigits(sec);
    ParseClockOf(Field(m), Field(sec), t);
  }

  lemma SplitSixty(t: nat)
    ensures t == t / 60 * 60 + t % 60 && t % 60 < 60
  {
  }

  /** Two durations display the same countdown exactly when they have the
      same number of whole seconds. */
  lemma FormatTimeSameIff(a: int, b: int)
    requires a >= 0 && b >= 0
    ensures FormatTime(a) == FormatTime(b) <==> a / 1000 == b / 1000
  {
    FormatTimeRoundTrip(a);
    FormatTimeRoundTrip(b);
  }

  /** Any duration below 100 minutes is shown in exactly five characters, "MM:SS". */
  lemma FormatTimeWidth(ms: int)
    requires 0 <= ms < 100 * 60 * 1000
    ensures |FormatTime(ms)| == 5 && FormatTime(ms)[2] == ':'
  {
    var t := ms / 1000;
    FormatTimeFields(ms);
    assert t < 6000;
    var m, sec := t / 60, t % 60;
    assert m < 100;
    FieldDigits(m);
    FieldDigits(sec);
    ClockLayout(Field(m), Field(sec));
  }

  /** formatSessionTime of a non-negative duration in terms of its whole minutes t. */
  lemma FormatSessionTimeFields(ms: int)
    requires ms >= 0
    ensures var t := ms / 60000;
      && t == t / 60 * 60 + t % 60
      && (t / 60 > 0 ==> FormatSessionTime(ms) == NatToString(t / 60) + "h " + NatToString(t % 60) + "m")
      && (t / 60 == 0 ==> FormatSessionTime(ms) == NatToString(t) + "m")
  {
  }

  /** For a non-negative duration, formatSessionTime shows the whole minutes
      floor(ms / 60000), and the text reads back exactly. */
  lemma FormatSessionTimeRoundTrip(ms: int)
    requires ms >= 0
    ensures ParseSessionTime(FormatSessionTime(ms)) == Some(ms / 60000)
  {
    var t := ms / 60000;
    FormatSessionTimeFields(ms);
    if t / 60 > 0 {
      HoursTextOfMinutes(t);
    } else {
      ParseNatToString(t);
      ParseMinutesOf(NatToString(t), t);
    }
  }

  /** Hours and minutes of t, as formatSessionTime lays them out, read back as t. */
  lemma HoursTextOfMinutes(t: nat)
    requires t / 60 > 0
    ensures ParseSessionTime(NatToString(t / 60) + "h " + NatToString(t % 60) + "m") == Some(t)
  {
    var h, m := t / 60, t % 60;
    SplitSixty(t);
    ParseNatToString(h);
    ParseNatToString(m);
    ParseHoursMinutesOf(NatToString(h), NatToString(m));
  }

  /** The hours part appears exactly when the duration is at least one hour. */
  lemma FormatSessionTimeHoursIff(ms: int)
    requires ms >= 0
    ensures 'h' in FormatSessionTime(ms) <==> ms >= 60 * 60 * 1000
  {
    var t := ms / 60000;
    FormatSessionTimeFields(ms);
    if t / 60 > 0 {
      var hs := NatToString(t / 60);
      HoursLayout(hs, NatToString(t % 60));
    } else {
      var ts := NatToString(t);
      MinutesLayout(ts);
      assert forall i :: 0 <= i < |ts| ==> ts[i] != 'h';
    }
  }

  // ---------------------------------------------------------------------
  // Concrete values

  lemma SmallNatToString(n: nat)
    requires n < 10
    ensures NatToString(n) == [DigitChar(n)]
  {
  }

  lemma FormatTimeExample()
    ensures FormatTime(125000) == "02:05"
  {
    SmallNatToString(2);
    SmallNatToString(5);
    assert Field(2) == "02";
    assert Field(5) == "05";
  }

  lemma FormatTimeFullPhase()
    ensures FormatTime(20 * 60 * 1000) == "20:00"
  {
    assert FloorDiv(20 * 60 * 1000, 1000) == 1200;
    assert FloorDiv(1200, 60) == 20 && JsRem(1200, 60) == 0;
    SmallNatToString(2);
    SmallNatToString(0);
    assert NatToString(20) == "20";
    assert Field(20) == "20";
    assert Field(0) == "00";
  }

  /** A negative duration keeps JavaScript's signs: floor gives -1 minute and
      the truncating remainder -1 second. */
  lemma FormatTimeNegative()
    ensures FormatTime(-1) == "-1:-1"
  {
    SmallNatToString(1);
    assert Field(-1) == "-1";
  }

  lemma FormatSessionTimeExample()
    ensures FormatSessionTime(5400000) == "1h 30m"
  {
    assert FloorDiv(5400000, 1000 * 60) == 90;
    assert FloorDiv(90, 60) == 1 && JsRem(90, 60) == 30;
    SmallNatToString(1);
    SmallNatToString(3);
    SmallNatToString(0);
    assert IntToString(1) == "1";
    assert IntToString(30) == "30";
    assert FormatSessionTime(5400000) == "1" + "h " + "30" + "m";
  }

  lemma FormatSessionTimeZero()
    ensures FormatSessionTime(0) == "0m"
  {
    SmallNatToString(0);
  }

  /** A negative duration: floor gives -1 minute and -1 hour, so only the
      truncating remainder -1 is shown. */
  lemma FormatSessionTimeMinusOne()
    ensures FormatSessionTime(-1) == "-1m"
  {
    assert FloorDiv(-1, 1000 * 60) == -1;
    assert FloorDiv(-1, 60) == -1 && JsRem(-1, 60) == -1;
    SmallNatToString(1);
    assert IntToString(-1) == "-1";
  }

  lemma FormatSessionTimeMinutesOnly()
    ensures FormatSessionTime(120000) == "2m"
  {
    assert FloorDiv(120000, 1000 * 60) == 2;
    assert FloorDiv(2, 60) == 0 && JsRem(2, 60) == 2;
    SmallNatToString(2);
    assert IntToString(2) == "2";
  }
}
