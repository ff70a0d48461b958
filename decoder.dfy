/** The sentence decoder of the PA1010 driver: the two patterns
    `GGA_DECODE` and `RMC_DECODE`, the fix record as a value, and what
    `_set_data_from_gga`, `_set_data_from_rmc`, `_decode_sentence` and the
    loop of `update` do to it.

    Field ownership: a GGA sentence writes only `satellites` and
    `altitude`; an RMC sentence writes `valid` and every time, date,
    position, speed and heading field, all from the one sentence. */
module Decoder {
  import opened Text
  import opened Grammar

  // ------------------------------------------------------------- patterns

  /** The GGA pattern: the tag, the time as hhmmss, a point and three
      digits, latitude and hemisphere, longitude and hemisphere, the
      one-digit fix quality, the satellite count, the HDOP (any comma-free
      text, not captured) and the altitude as digits and points, each
      followed by a comma. */
  const GGA_DECODE: Pattern := [
    Lit("$GNGGA,"), Digits(2), Digits(2), Digits(2), Lit("."), Digits(3), Lit(","),
    Dec, Lit(","), OneOf("NS"), Lit(","), Dec, Lit(","), OneOf("EW"), Lit(","),
    Digits(1), Lit(","), Many(Digit), Lit(","), Many(NotComma), Lit(","),
    Many(DigitOrDot), Lit(",")]

  /** The RMC pattern: the tag, the time as hhmmss, a point and three
      digits, the status letter A or V, latitude and hemisphere, longitude
      and hemisphere, speed and heading as digits and points, and the date
      as ddmmyy, each followed by a comma. */
  const RMC_DECODE: Pattern := [
    Lit("$GNRMC,"), Digits(2), Digits(2), Digits(2), Lit("."), Digits(3), Lit(","),
    OneOf("AV"), Lit(","), Dec, Lit(","), OneOf("NS"), Lit(","), Dec, Lit(","),
    OneOf("EW"), Lit(","), Many(DigitOrDot), Lit(","), Many(DigitOrDot), Lit(","),
    Digits(2), Digits(2), Digits(2), Lit(",")]

  lemma PatternsWellFormed()
    ensures WellFormed(GGA_DECODE) && WellFormed(RMC_DECODE)
  {
  }

  // -------------------------------------------------------------- records

  /** The groups of a GGA match (the HDOP text is matched, not captured). */
  datatype Gga = Gga(hh: string, mm: string, ss: string, sss: string,
                     lat: string, latNS: string, lon: string, lonEW: string,
                     quality: string, satellites: string, hdop: string,
                     altitude: string)

  /** The groups of an RMC match. */
  datatype Rmc = Rmc(hh: string, mm: string, ss: string, sss: string,
                     status: string, lat: string, latNS: string,
                     lon: string, lonEW: string, speed: string,
                     heading: string, dd: string, mo: string, yy: string)

  function GgaTexts(g: Gga): seq<string> {
    ["$GNGGA,", g.hh, g.mm, g.ss, ".", g.sss, ",", g.lat, ",", g.latNS, ",",
     g.lon, ",", g.lonEW, ",", g.quality, ",", g.satellites, ",", g.hdop, ",",
     g.altitude, ","]
  }

  function RmcTexts(r: Rmc): seq<string> {
    ["$GNRMC,", r.hh, r.mm, r.ss, ".", r.sss, ",", r.status, ",", r.lat, ",",
     r.latNS, ",", r.lon, ",", r.lonEW, ",", r.speed, ",", r.heading, ",",
     r.dd, r.mo, r.yy, ","]
  }

  /** The sentence prefix a GGA record is matched from. */
  function RenderGga(g: Gga): string { Concat(GgaTexts(g)) }

  function RenderRmc(r: Rmc): string { Concat(RmcTexts(r)) }

  /** A GGA record some sentence could match to; its satellite count is a
      digit string. */
  predicate GgaOk(g: Gga) { Fits(GGA_DECODE, GgaTexts(g)) && AllDigits(g.satellites) }

  /** An RMC record some sentence could match to; its time and date
      groups are digit strings. */
  predicate RmcOk(r: Rmc) {
    Fits(RMC_DECODE, RmcTexts(r)) &&
    AllDigits(r.hh) && AllDigits(r.mm) && AllDigits(r.ss) && AllDigits(r.sss) &&
    AllDigits(r.dd) && AllDigits(r.mo) && AllDigits(r.yy)
  }

  lemma GgaDigits(g: Gga)
    requires Fits(GGA_DECODE, GgaTexts(g))
    ensures AllDigits(g.satellites) && g.satellites != []
  {
    assert InField(GGA_DECODE[17], GgaTexts(g)[17]);
  }

  lemma RmcDigits(r: Rmc)
    requires Fits(RMC_DECODE, RmcTexts(r))
    ensures |r.hh| == 2 && |r.mm| == 2 && |r.ss| == 2 && |r.sss| == 3
    ensures |r.dd| == 2 && |r.mo| == 2 && |r.yy| == 2
    ensures AllDigits(r.hh) && AllDigits(r.mm) && AllDigits(r.ss) && AllDigits(r.sss)
    ensures AllDigits(r.dd) && AllDigits(r.mo) && AllDigits(r.yy)
    ensures r.status == "A" || r.status == "V"
    ensures TimeTexts(RmcTexts(r))
  {
    var t := RmcTexts(r);
    assert InField(RMC_DECODE[1], t[1]) && InField(RMC_DECODE[2], t[2]);
    assert InField(RMC_DECODE[3], t[3]) && InField(RMC_DECODE[5], t[5]);
    assert InField(RMC_DECODE[7], t[7]);
    assert InField(RMC_DECODE[21], t[21]) && InField(RMC_DECODE[22], t[22]);
    assert InField(RMC_DECODE[23], t[23]);
    assert r.status == [r.status[0]];
  }

  /** `GGA_DECODE.match(s)` */
  function MatchGga(s: string): (r: Option<Gga>)
    ensures r.Some? ==> GgaOk(r.value) && RenderGga(r.value) <= s
  {
    var caps :- Matches(GGA_DECODE, s);
    MatchesSound(GGA_DECODE, s);
    var g := Gga(caps[1], caps[2], caps[3], caps[5], caps[7], caps[9], caps[11],
                 caps[13], caps[15], caps[17], caps[19], caps[21]);
    GgaTextsOf(caps, g);
    GgaDigits(g);
    Some(g)
  }

  /** `RMC_DECODE.match(s)` */
  function MatchRmc(s: string): (r: Option<Rmc>)
    ensures r.Some? ==> RmcOk(r.value) && RenderRmc(r.value) <= s
  {
    var caps :- Matches(RMC_DECODE, s);
    MatchesSound(RMC_DECODE, s);
    var m := Rmc(caps[1], caps[2], caps[3], caps[5], caps[7], caps[9], caps[11],
                 caps[13], caps[15], caps[17], caps[19], caps[21], caps[22], caps[23]);
    RmcTextsOf(caps, m);
    RmcDigits(m);
    Some(m)
  }

  lemma MatchesSound(p: Pattern, s: string)
    requires p == GGA_DECODE || p == RMC_DECODE
    requires Matches(p, s).Some?
    ensures Fits(p, Matches(p, s).value) && Concat(Matches(p, s).value) <= s
  {
    PatternsWellFormed();
    MatchIff(p, s, Matches(p, s).value);
  }

  lemma GgaTextsOf(caps: seq<string>, g: Gga)
    requires Fits(GGA_DECODE, caps)
    requires g == Gga(caps[1], caps[2], caps[3], caps[5], caps[7], caps[9], caps[11],
                      caps[13], caps[15], caps[17], caps[19], caps[21])
    ensures GgaTexts(g) == caps
  {
    GgaLiterals(caps);
  }

  /** The literal fields of a GGA match are the pattern's literals. */
  lemma GgaLiterals(caps: seq<string>)
    requires Fits(GGA_DECODE, caps)
    ensures |caps| == 23 && caps[0] == "$GNGGA," && caps[4] == "." && caps[6] == "," &&
            caps[8] == "," && caps[10] == "," && caps[12] == "," && caps[14] == "," &&
            caps[16] == "," && caps[18] == "," && caps[20] == "," && caps[22] == ","
  {
    assert InField(GGA_DECODE[0], caps[0]) && InField(GGA_DECODE[4], caps[4]);
    assert InField(GGA_DECODE[6], caps[6]) && InField(GGA_DECODE[8], caps[8]);
    assert InField(GGA_DECODE[10], caps[10]) && InField(GGA_DECODE[12], caps[12]);
    assert InField(GGA_DECODE[14], caps[14]) && InField(GGA_DECODE[16], caps[16]);
    assert InField(GGA_DECODE[18], caps[18]) && InField(GGA_DECODE[20], caps[20]);
    assert InField(GGA_DECODE[22], caps[22]);
  }

  lemma RmcTextsOf(caps: seq<string>, m: Rmc)
    requires Fits(RMC_DECODE, caps)
    requires m == Rmc(caps[1], caps[2], caps[3], caps[5], caps[7], caps[9], caps[11],
                      caps[13], caps[15], caps[17], caps[19], caps[21], caps[22], caps[23])
    ensures RmcTexts(m) == caps
  {
    RmcLiterals(caps);
  }

  /** The literal fields of an RMC match are the pattern's literals. */
  lemma RmcLiterals(caps: seq<string>)
    requires Fits(RMC_DECODE, caps)
    ensures |caps| == 25 && caps[0] == "$GNRMC," && caps[4] == "." && caps[6] == "," &&
            caps[8] == "," && caps[10] == "," && caps[12] == "," && caps[14] == "," &&
            caps[16] == "," && caps[18] == "," && caps[20] == "," && caps[24] == ","
  {
    assert InField(RMC_DECODE[0], caps[0]) && InField(RMC_DECODE[4], caps[4]);
    assert InField(RMC_DECODE[6], caps[6]) && InField(RMC_DECODE[8], caps[8]);
    assert InField(RMC_DECODE[10], caps[10]) && InField(RMC_DECODE[12], caps[12]);
    assert InField(RMC_DECODE[14], caps[14]) && InField(RMC_DECODE[16], caps[16]);
    assert InField(RMC_DECODE[18], caps[18]) && InField(RMC_DECODE[20], caps[20]);
    assert InField(RMC_DECODE[24], caps[24]);
  }

  lemma RenderTags(g: Gga, m: Rmc)
    ensures |RenderGga(g)| >= 7 && RenderGga(g)[..7] == "$GNGGA,"
    ensures |RenderRmc(m)| >= 7 && RenderRmc(m)[..7] == "$GNRMC,"
  {
    ConcatCons(GgaTexts(g));
    ConcatCons(RmcTexts(m));
  }

  /** `GGA_DECODE.match(s)` finds g exactly when g is a well-formed GGA
      record and s starts with its text: matching and rendering are
      inverse. */
  lemma MatchGgaIff(s: string, g: Gga)
    ensures MatchGga(s) == Some(g) <==> GgaOk(g) && RenderGga(g) <= s
  {
    if GgaOk(g) && RenderGga(g) <= s {
      PatternsWellFormed();
      MatchIff(GGA_DECODE, s, GgaTexts(g));
      assert Matches(GGA_DECODE, s) == Some(GgaTexts(g));
    }
  }

  /** `RMC_DECODE.match(s)` finds m exactly when m is a well-formed RMC
      record and s starts with its text. */
  lemma MatchRmcIff(s: string, m: Rmc)
    ensures MatchRmc(s) == Some(m) <==> RmcOk(m) && RenderRmc(m) <= s
  {
    if RmcOk(m) && RenderRmc(m) <= s {
      RmcRendered(s, m);
    }
  }

  lemma RmcRendered(s: string, m: Rmc)
    requires RmcOk(m) && RenderRmc(m) <= s
    ensures MatchRmc(s) == Some(m)
  {
    RmcTextsMatch(s, RmcTexts(m));
    RmcOfTexts(m);
  }

  /** The record is read back from its own texts. */
  lemma RmcOfTexts(m: Rmc)
    ensures var c := RmcTexts(m);
            Rmc(c[1], c[2], c[3], c[5], c[7], c[9], c[11],
                c[13], c[15], c[17], c[19], c[21], c[22], c[23]) == m
  {
  }

  lemma RmcTextsMatch(s: string, caps: seq<string>)
    requires Fits(RMC_DECODE, caps) && Concat(caps) <= s
    ensures Matches(RMC_DECODE, s) == Some(caps)
  {
    PatternsWellFormed();
    MatchIff(RMC_DECODE, s, caps);
  }

  /** The tag, then hhmmss as three two-digit texts, a point and three
      digits. */
  predicate TimeTexts(t: seq<string>) {
    |t| >= 6 && |t[0]| == 7 && t[4] == "." &&
    |t[1]| == 2 && |t[2]| == 2 && |t[3]| == 2 && |t[5]| == 3 &&
    AllDigits(t[1]) && AllDigits(t[2]) && AllDigits(t[3]) && AllDigits(t[5])
  }

  /** The time field of a matched sentence is six digits, a point and
      exactly three digits: a sentence whose seconds carry two fractional
      digits matches neither pattern. */
  lemma TimeLayout(s: string)
    requires MatchGga(s).Some? || MatchRmc(s).Some?
    ensures |s| >= 17 && AllDigits(s[7..13]) && s[13] == '.' && AllDigits(s[14..17])
  {
    if MatchGga(s).Some? {
      var g := MatchGga(s).value;
      GgaTimeDigits(g);
      TextsTimeLayout(GgaTexts(g), s);
    } else {
      var m := MatchRmc(s).value;
      RmcDigits(m);
      TextsTimeLayout(RmcTexts(m), s);
    }
  }

  lemma TextsTimeLayout(t: seq<string>, s: string)
    requires TimeTexts(t) && Concat(t) <= s
    ensures |s| >= 17 && AllDigits(s[7..13]) && s[13] == '.' && AllDigits(s[14..17])
  {
    TimeTextsAt(t, s);
    forall i | 7 <= i < 13 ensures IsDigit(s[i]) {
      if i < 9 { assert s[i] == s[7..9][i - 7]; }
      else if i < 11 { assert s[i] == s[9..11][i - 9]; }
      else { assert s[i] == s[11..13][i - 11]; }
    }
    forall i | 14 <= i < 17 ensures IsDigit(s[i]) {
      assert s[i] == s[14..17][i - 14];
    }
  }

  /** Where the texts of the tag and the time lie in the sentence. */
  lemma TimeTextsAt(t: seq<string>, s: string)
    requires TimeTexts(t) && Concat(t) <= s
    ensures |s| >= 17 && s[7..9] == t[1] && s[9..11] == t[2] && s[11..13] == t[3] &&
            s[13] == '.' && s[14..17] == t[5]
  {
    assert t[0..] == t && s[0..] == s;
    ConcatStep(t, s, 0, 0);
    ConcatStep(t, s, 1, 7);
    ConcatStep(t, s, 2, 9);
    ConcatStep(t, s, 3, 11);
    ConcatStep(t, s, 4, 13);
    ConcatStep(t, s, 5, 14);
    assert s[13..14] == ".";
  }

  lemma GgaTimeDigits(g: Gga)
    requires GgaOk(g)
    ensures TimeTexts(GgaTexts(g))
  {
    var t := GgaTexts(g);
    assert InField(GGA_DECODE[1], t[1]) && InField(GGA_DECODE[2], t[2]);
    assert InField(GGA_DECODE[3], t[3]) && InField(GGA_DECODE[5], t[5]);
  }

  /** A sentence GGA_DECODE matches starts with the GGA tag. */
  lemma GgaTagged(s: string)
    requires MatchGga(s).Some?
    ensures |s| >= 7 && s[..7] == "$GNGGA,"
  {
    var g := MatchGga(s).value;
    RenderTags(g, Rmc("", "", "", "", "", "", "", "", "", "", "", "", "", ""));
    assert s[..7] == RenderGga(g)[..7];
  }

  /** The latitude group of the RMC pattern opens with a digit, and the
      fields before it have fixed widths, so a sentence that matches has a
      digit at offset 20. */
  lemma RmcLatitudeLeads(s: string)
    requires MatchRmc(s).Some?
    ensures |s| > 20 && IsDigit(s[20])
  {
    var m := MatchRmc(s).value;
    RmcDigits(m);
    RmcLatitudeText(m);
    DecLeads(m.lat);
    RmcFieldsBeforeLatitude(m, s);
    assert s[20] == s[20..20 + |m.lat|][0];
  }

  lemma RmcLatitudeText(m: Rmc)
    requires Fits(RMC_DECODE, RmcTexts(m))
    ensures InField(Dec, m.lat)
  {
    assert RmcTexts(m)[9] == m.lat;
    assert InField(RMC_DECODE[9], RmcTexts(m)[9]);
  }

  lemma DecLeads(t: string)
    requires InField(Dec, t)
    ensures t != [] && IsDigit(t[0])
  {
    assert Run(t, 0, Digit) > 0;
  }

  lemma RmcFieldsBeforeLatitude(m: Rmc, s: string)
    requires RenderRmc(m) <= s
    requires |m.hh| == 2 && |m.mm| == 2 && |m.ss| == 2 && |m.sss| == 3 && |m.status| == 1
    ensures 20 + |m.lat| <= |s| && s[20..20 + |m.lat|] == m.lat
  {
    var t := RmcTexts(m);
    assert |t| == 25 && t[9] == m.lat;
    assert |t[0]| == 7 && |t[1]| == 2 && |t[2]| == 2 && |t[3]| == 2 && |t[4]| == 1;
    assert |t[5]| == 3 && |t[6]| == 1 && |t[7]| == 1 && |t[8]| == 1;
    TenthTextAt(t, s);
  }

  /** With the first nine texts 20 characters long in all, the tenth text
      starts at offset 20. */
  lemma TenthTextAt(t: seq<string>, s: string)
    requires |t| == 25 && Concat(t) <= s
    requires |t[0]| == 7 && |t[1]| == 2 && |t[2]| == 2 && |t[3]| == 2 && |t[4]| == 1
    requires |t[5]| == 3 && |t[6]| == 1 && |t[7]| == 1 && |t[8]| == 1
    ensures 20 + |t[9]| <= |s| && s[20..20 + |t[9]|] == t[9]
  {
    assert t[0..] == t && s[0..] == s;
    ConcatStep(t, s, 0, 0);
    ConcatStep(t, s, 1, 7);
    ConcatStep(t, s, 2, 9);
    ConcatStep(t, s, 3, 11);
    ConcatStep(t, s, 4, 13);
    ConcatStep(t, s, 5, 14);
    ConcatStep(t, s, 6, 17);
    ConcatStep(t, s, 7, 18);
    ConcatStep(t, s, 8, 19);
    ConcatStep(t, s, 9, 20);
  }

  /** A sentence RMC_DECODE matches starts with the RMC tag. */
  lemma RmcTagged(s: string)
    requires MatchRmc(s).Some?
    ensures |s| >= 7 && s[..7] == "$GNRMC,"
  {
    var m := MatchRmc(s).value;
    RenderTags(Gga("", "", "", "", "", "", "", "", "", "", "", ""), m);
    assert s[..7] == RenderRmc(m)[..7];
  }

  lemma TagsDiffer(t: string)
    ensures !(t == "$GNGGA," && t == "$GNRMC,")
  {
    if t == "$GNGGA," {
      assert t[3] == 'G';
    }
  }

  /** No sentence is both a GGA and an RMC sentence, so the order in which
      `_decode_sentence` tries the two patterns never matters. */
  lemma GgaRmcExclusive(s: string)
    ensures !(MatchGga(s).Some? && MatchRmc(s).Some?)
  {
    var gga, rmc := MatchGga(s).Some?, MatchRmc(s).Some?;
    if gga {
      GgaTagged(s);
    }
    if rmc {
      RmcTagged(s);
    }
    if |s| >= 7 {
      TagsDiffer(s[..7]);
    }
  }

  // ------------------------------------------------------------ the record

  /** The fix fields of a `PA1010` object. Speed, heading and altitude are
      kept as the matched text `float()` was given; `altitude` starts as
      the text of the integer 0. */
  datatype Fix = Fix(valid: bool, satellites: nat, altitude: string,
                     hour: nat, minute: nat, second: nat, milli: nat,
                     lat: string, latNS: string, lon: string, lonEW: string,
                     speed: string, heading: string,
                     day: nat, month: nat, year: nat)

  /** The fields an RMC sentence writes are the same in a and b. */
  predicate SameRmcPart(a: Fix, b: Fix) {
    a.valid == b.valid && a.hour == b.hour && a.minute == b.minute &&
    a.second == b.second && a.milli == b.milli && a.lat == b.lat &&
    a.latNS == b.latNS && a.lon == b.lon && a.lonEW == b.lonEW &&
    a.speed == b.speed && a.heading == b.heading && a.day == b.day &&
    a.month == b.month && a.year == b.year
  }

  /** The fields a GGA sentence writes are the same in a and b. */
  predicate SameGgaPart(a: Fix, b: Fix) {
    a.satellites == b.satellites && a.altitude == b.altitude
  }

  /** The time, validity and position fields are the same in a and b. */
  predicate SameTimePosition(a: Fix, b: Fix) {
    a.valid == b.valid && a.hour == b.hour && a.minute == b.minute &&
    a.second == b.second && a.milli == b.milli && a.lat == b.lat &&
    a.latNS == b.latNS && a.lon == b.lon && a.lonEW == b.lonEW
  }

  /** The date fields are the same in a and b. */
  predicate SameDate(a: Fix, b: Fix) {
    a.day == b.day && a.month == b.month && a.year == b.year
  }

  /** The two parts cover the whole record. */
  lemma PartsCover(a: Fix, b: Fix)
    requires SameRmcPart(a, b) && SameGgaPart(a, b)
    ensures a == b
  {
  }

  /** Python's `float()` on a `[0-9.]+` text succeeds exactly when the text
      holds a digit and at most one point; otherwise it raises ValueError. */
  predicate FloatText(t: string) {
    (exists i :: 0 <= i < |t| && IsDigit(t[i])) && multiset(t)['.'] <= 1
  }

  /** The record after a setter: `Ok` when it returned, `Raised` when
      `float()` raised ValueError part-way, with the fields assigned before
      the failing statement already written. */
  datatype Step = Ok(fix: Fix) | Raised(fix: Fix)

  /** `_set_data_from_gga`: the satellite count, then the altitude. */
  function ApplyGga(f: Fix, g: Gga): (r: Step)
    requires GgaOk(g)
    ensures SameRmcPart(r.fix, f)
    ensures r.Ok? <==> FloatText(g.altitude)
    ensures r.fix.satellites == DigitsValue(g.satellites)
    ensures r.fix.altitude == (if r.Ok? then g.altitude else f.altitude)
  {
    var f1 := f.(satellites := DigitsValue(g.satellites));
    if FloatText(g.altitude) then Ok(f1.(altitude := g.altitude)) else Raised(f1)
  }

  /** `_set_data_from_rmc`: time, validity and position, then speed, then
      heading, then the date with the two-digit year moved into 2000-2099. */
  function ApplyRmc(f: Fix, m: Rmc): (r: Step)
    requires RmcOk(m)
    ensures SameGgaPart(r.fix, f)
    ensures r.Ok? <==> FloatText(m.speed) && FloatText(m.heading)
    ensures r.fix.valid <==> m.status == "A"
    ensures r.fix.hour == DigitsValue(m.hh) && r.fix.minute == DigitsValue(m.mm) &&
            r.fix.second == DigitsValue(m.ss) && r.fix.milli == DigitsValue(m.sss)
    ensures r.fix.hour < 100 && r.fix.minute < 100 && r.fix.second < 100 && r.fix.milli < 1000
    ensures r.fix.lat == m.lat && r.fix.latNS == m.latNS &&
            r.fix.lon == m.lon && r.fix.lonEW == m.lonEW
    ensures r.fix.speed == (if FloatText(m.speed) then m.speed else f.speed)
    ensures r.fix.heading == (if r.Ok? then m.heading else f.heading)
    ensures r.Ok? ==> r.fix.day == DigitsValue(m.dd) && r.fix.month == DigitsValue(m.mo) &&
                      r.fix.year == DigitsValue(m.yy) + 2000
    ensures r.Ok? ==> 2000 <= r.fix.year < 2100 && r.fix.month < 100 && r.fix.day < 100
    ensures r.Raised? ==> SameDate(r.fix, f)
  {
    var f1 := RmcTimePosition(f, m);
    if !FloatText(m.speed) then Raised(f1)
    else
      var f2 := f1.(speed := m.speed);
      if !FloatText(m.heading) then Raised(f2)
      else Ok(RmcDate(f2.(heading := m.heading), m))
  }

  /** The first statements of `_set_data_from_rmc`: time, validity,
      position. */
  function RmcTimePosition(f: Fix, m: Rmc): (r: Fix)
    requires RmcOk(m)
    ensures r.valid <==> m.status == "A"
    ensures r.hour == DigitsValue(m.hh) && r.minute == DigitsValue(m.mm) &&
            r.second == DigitsValue(m.ss) && r.milli == DigitsValue(m.sss)
    ensures r.hour < 100 && r.minute < 100 && r.second < 100 && r.milli < 1000
    ensures r.lat == m.lat && r.latNS == m.latNS && r.lon == m.lon && r.lonEW == m.lonEW
    ensures SameGgaPart(r, f) && SameDate(r, f) && r.speed == f.speed && r.heading == f.heading
  {
    RmcDigits(m);
    assert Pow10(2) == 100 && Pow10(3) == 1000;
    f.(hour := DigitsValue(m.hh), minute := DigitsValue(m.mm),
       second := DigitsValue(m.ss), milli := DigitsValue(m.sss),
       valid := m.status == "A",
       lat := m.lat, latNS := m.latNS, lon := m.lon, lonEW := m.lonEW)
  }

  /** The last statements of `_set_data_from_rmc`: the date. */
  function RmcDate(f: Fix, m: Rmc): (r: Fix)
    requires RmcOk(m)
    ensures r.day == DigitsValue(m.dd) && r.month == DigitsValue(m.mo) &&
            r.year == DigitsValue(m.yy) + 2000
    ensures 2000 <= r.year < 2100 && r.month < 100 && r.day < 100
    ensures SameGgaPart(r, f) && SameTimePosition(r, f) && r.speed == f.speed && r.heading == f.heading
  {
    RmcDigits(m);
    assert Pow10(2) == 100;
    f.(day := DigitsValue(m.dd), month := DigitsValue(m.mo),
       year := DigitsValue(m.yy) + 2000)
  }

  /** What an RMC sentence writes depends on the sentence alone, not on
      the record it is written into. */
  lemma RmcOverwrites(f: Fix, g: Fix, m: Rmc)
    requires RmcOk(m)
    ensures ApplyRmc(f, m).Ok? == ApplyRmc(g, m).Ok?
    ensures ApplyRmc(f, m).Ok? ==> SameRmcPart(ApplyRmc(f, m).fix, ApplyRmc(g, m).fix)
  {
  }

  /** What a GGA sentence writes depends on the sentence alone. */
  lemma GgaOverwrites(f: Fix, h: Fix, g: Gga)
    requires GgaOk(g)
    ensures ApplyGga(f, g).Ok? ==> SameGgaPart(ApplyGga(f, g).fix, ApplyGga(h, g).fix)
  {
  }

  /** A sentence that starts with neither tag, such as a GSA or GSV
      sentence or a command acknowledgement. */
  predicate Untagged(s: string) {
    !("$GNGGA," <= s) && !("$GNRMC," <= s)
  }

  /** `_decode_sentence`: GGA is tried first, then RMC. A GGA sentence
      touches only the GGA part, an RMC sentence only the RMC part, only
      those two can raise, and an untagged sentence changes nothing. */
  function Decoded(f: Fix, s: string): (r: Step)
    ensures MatchGga(s).Some? ==> SameRmcPart(r.fix, f)
    ensures MatchRmc(s).Some? ==> SameGgaPart(r.fix, f)
    ensures r.Raised? ==> MatchGga(s).Some? || MatchRmc(s).Some?
    ensures Untagged(s) ==> r == Ok(f)
    ensures MatchGga(s).None? && MatchRmc(s).None? ==> r == Ok(f)
  {
    GgaRmcExclusive(s);
    match MatchGga(s)
    case Some(g) => GgaTagged(s); ApplyGga(f, g)
    case None =>
      match MatchRmc(s)
      case Some(m) => RmcTagged(s); ApplyRmc(f, m)
      case None => Ok(f)
  }

  /** The loop of `update`: decode each sentence in turn; a ValueError ends
      the loop and escapes with the record as far as it got. */
  function Drain(f: Fix, ss: seq<string>): (r: Step)
    ensures (forall i :: 0 <= i < |ss| ==> Untagged(ss[i])) ==> r == Ok(f)
  {
    if ss == [] then Ok(f)
    else
      match Drain(f, ss[..|ss| - 1])
      case Raised(h) => Raised(h)
      case Ok(h) => Decoded(h, ss[|ss| - 1])
  }

  /** Draining two batches is draining the first, then the second. */
  lemma {:induction false} DrainAppend(f: Fix, a: seq<string>, b: seq<string>)
    ensures Drain(f, a + b) ==
            (match Drain(f, a) case Raised(h) => Raised(h) case Ok(h) => Drain(h, b))
  {
    if b == [] {
      assert a + b == a;
    } else {
      DrainAppend(f, a, b[..|b| - 1]);
      assert (a + b)[..|a + b| - 1] == a + b[..|b| - 1];
    }
  }

  /** The last RMC sentence of a batch. */
  function LastRmc(ss: seq<string>): (r: Option<Rmc>)
    ensures r.Some? ==> RmcOk(r.value)
  {
    if ss == [] then None
    else match MatchRmc(ss[|ss| - 1])
      case Some(m) => Some(m)
      case None => LastRmc(ss[..|ss| - 1])
  }

  /** The last GGA sentence of a batch. */
  function LastGga(ss: seq<string>): (r: Option<Gga>)
    ensures r.Some? ==> GgaOk(r.value)
  {
    if ss == [] then None
    else match MatchGga(ss[|ss| - 1])
      case Some(g) => Some(g)
      case None => LastGga(ss[..|ss| - 1])
  }

  /** Latest wins, per part: after a batch that raised nothing, the RMC part
      of the record is what the last RMC sentence wrote (or what it was
      before, if there was none), and the GGA part likewise. */
  lemma {:induction false} DrainLastWins(f: Fix, ss: seq<string>)
    requires Drain(f, ss).Ok?
    ensures LastRmc(ss).None? ==> SameRmcPart(Drain(f, ss).fix, f)
    ensures LastRmc(ss).Some? ==> SameRmcPart(Drain(f, ss).fix, ApplyRmc(f, LastRmc(ss).value).fix)
    ensures LastGga(ss).None? ==> SameGgaPart(Drain(f, ss).fix, f)
    ensures LastGga(ss).Some? ==> SameGgaPart(Drain(f, ss).fix, ApplyGga(f, LastGga(ss).value).fix)
  {
    if ss != [] {
      var front, s := ss[..|ss| - 1], ss[|ss| - 1];
      DrainLastWins(f, front);
      var h := Drain(f, front).fix;
      GgaRmcExclusive(s);
      match MatchGga(s)
      case Some(g) => GgaOverwrites(h, f, g);
      case None =>
        match MatchRmc(s)
        case Some(m) => RmcOverwrites(h, f, m);
        case None =>
    }
  }

  /** A batch that raised nothing leaves the record as if only its last
      RMC sentence, and then its last GGA sentence, had been decoded. */
  lemma DrainLastOnly(f: Fix, ss: seq<string>)
    requires Drain(f, ss).Ok?
    ensures var h := if LastRmc(ss).Some? then ApplyRmc(f, LastRmc(ss).value).fix else f;
            Drain(f, ss).fix == (if LastGga(ss).Some? then ApplyGga(h, LastGga(ss).value).fix else h)
  {
    DrainLastWins(f, ss);
    var h := if LastRmc(ss).Some? then ApplyRmc(f, LastRmc(ss).value).fix else f;
    var e := if LastGga(ss).Some? then ApplyGga(h, LastGga(ss).value).fix else h;
    PartsCover(Drain(f, ss).fix, e);
  }

  /** What `update` returns: the status letter of the last sentence that
      matches RMC_DECODE, or the previous validity if none does; an RMC
      sentence the pattern rejects leaves the flag alone. */
  lemma DrainValid(f: Fix, ss: seq<string>)
    requires Drain(f, ss).Ok?
    ensures Drain(f, ss).fix.valid ==
            (if LastRmc(ss).Some? then LastRmc(ss).value.status == "A" else f.valid)
  {
    DrainLastWins(f, ss);
  }
}
