/** The command encoder of the PA1010 receiver: NMEA 0183 framing of an
    ASCII payload with its XOR checksum, and the MediaTek PMTK commands the
    driver builds on top of it (pulse-per-second, update rate, periodic
    mode, normal mode, cold boot, sentence-output selection). The bytes
    that would be written to the bus are returned. */
module Command {
  import opened Text

  const DOLLAR: byte := 0x24
  const STAR: byte := 0x2A
  const CR: byte := 0x0D
  const LF: byte := 0x0A

  // ------------------------------------------------------------- checksum

  /** The NMEA checksum: XOR of all payload bytes, first to last. */
  function XorAll(p: seq<byte>): byte {
    if p == [] then 0 else XorAll(p[..|p| - 1]) ^ p[|p| - 1]
  }

  /** The checksum of a concatenation combines the checksums of the parts,
      so a receiver can check a sentence incrementally. */
  lemma {:induction false} XorAllAppend(p: seq<byte>, q: seq<byte>)
    ensures XorAll(p + q) == XorAll(p) ^ XorAll(q)
  {
    if q == [] {
      assert p + q == p;
    } else {
      var q' := q[..|q| - 1];
      assert (p + q)[..|p + q| - 1] == p + q';
      XorAllAppend(p, q');
    }
  }

  // ------------------------------------------------------------------ hex

  predicate IsUpperHex(c: byte) {
    (0x30 <= c <= 0x39) || (0x41 <= c <= 0x46)
  }

  function HexDigit(n: byte): (c: byte)
    requires n < 16
    ensures IsUpperHex(c)
  {
    if n < 10 then 0x30 + n else 0x41 + (n - 10)
  }

  /** `"{:02X}".format(b)`: two upper-case hexadecimal digits. */
  function Hex2(b: byte): (h: seq<byte>)
    ensures |h| == 2 && IsUpperHex(h[0]) && IsUpperHex(h[1])
  {
    [HexDigit(b >> 4), HexDigit(b & 0xF)]
  }

  /** Value of one upper-case hexadecimal digit; anything else is refused. */
  function HexValue(c: byte): (r: Option<byte>)
    ensures r.Some? <==> IsUpperHex(c)
    ensures r.Some? ==> r.value < 16 && HexDigit(r.value) == c
  {
    if 0x30 <= c <= 0x39 then Some(c - 0x30)
    else if 0x41 <= c <= 0x46 then Some(c - 0x41 + 10)
    else None
  }

  function ParseHex2(h: seq<byte>): Option<byte>
    requires |h| == 2
  {
    var hi :- HexValue(h[0]);
    var lo :- HexValue(h[1]);
    Some((hi << 4) | lo)
  }

  /** The two hex digits read back as exactly the byte they render, and
      they are the only pair that does. */
  lemma Hex2Inverse(b: byte, h: seq<byte>)
    requires |h| == 2
    ensures ParseHex2(Hex2(b)) == Some(b)
    ensures ParseHex2(h) == Some(b) ==> h == Hex2(b)
  {
    assert ((b >> 4) << 4) | (b & 0xF) == b;
    if ParseHex2(h) == Some(b) {
      var hi, lo := HexValue(h[0]).value, HexValue(h[1]).value;
      assert (hi << 4) | lo == b;
      assert b >> 4 == hi && b & 0xF == lo;
    }
  }

  // ---------------------------------------------------------------- frame

  /** The buffer `send_command` writes: `$`, the payload, optionally `*`
      and the checksum in two hex digits, then CR LF. */
  function Frame(p: seq<byte>, addChecksum: bool): (r: seq<byte>)
    ensures |r| == |p| + (if addChecksum then 6 else 3)
  {
    [DOLLAR] + p + (if addChecksum then [STAR] + Hex2(XorAll(p)) else []) + [CR, LF]
  }

  /** The layout of a frame: `$` first, the payload from index 1, then `*`
      and the checksum digits or nothing, CR LF last; without a checksum
      the frame holds a `*` only where the payload does. */
  lemma FrameLayout(p: seq<byte>, addChecksum: bool)
    ensures var r := Frame(p, addChecksum);
            r[0] == DOLLAR && r[1..|p| + 1] == p && r[|r| - 2..] == [CR, LF] &&
            (addChecksum ==> r[|p| + 1] == STAR && r[|p| + 2..|p| + 4] == Hex2(XorAll(p))) &&
            (!addChecksum ==> (STAR in r <==> STAR in p))
  {
    var r := Frame(p, addChecksum);
    if !addChecksum {
      assert r == [DOLLAR] + p + [CR, LF];
      if STAR in r {
        var i :| 0 <= i < |r| && r[i] == STAR;
        assert 1 <= i <= |p| && r[i] == p[i - 1];
      }
      if STAR in p {
        var i :| 0 <= i < |p| && p[i] == STAR;
        assert r[i + 1] == STAR;
      }
    }
  }

  /** What a receiver does with a checksummed frame: check the delimiters,
      recompute the checksum over the payload and compare it with the two
      transmitted digits. */
  function Unframe(buf: seq<byte>): Option<seq<byte>> {
    if |buf| >= 6 && buf[0] == DOLLAR && buf[|buf| - 5] == STAR && buf[|buf| - 2..] == [CR, LF] then
      var sum :- ParseHex2(buf[|buf| - 4..|buf| - 2]);
      var p := buf[1..|buf| - 5];
      if XorAll(p) == sum then Some(p) else None
    else None
  }

  /** Every checksummed frame is accepted with its payload, and a buffer is
      accepted only if it is exactly the frame of the payload it yields. */
  lemma FrameInverse(p: seq<byte>, buf: seq<byte>)
    ensures Unframe(Frame(p, true)) == Some(p)
    ensures Unframe(buf).Some? ==> buf == Frame(Unframe(buf).value, true)
  {
    var f := Frame(p, true);
    FrameLayout(p, true);
    assert f[1..|f| - 5] == p;
    Hex2Inverse(XorAll(p), f[|f| - 4..|f| - 2]);
    if Unframe(buf).Some? {
      var q := Unframe(buf).value;
      var h := buf[|buf| - 4..|buf| - 2];
      Hex2Inverse(XorAll(q), h);
      var g := Frame(q, true);
      FrameLayout(q, true);
      assert |g| == |buf|;
      forall i | 0 <= i < |buf| ensures g[i] == buf[i] {
        if i == 0 {
        } else if i <= |q| {
          assert g[i] == g[1..|q| + 1][i - 1];
        } else if i == |q| + 1 {
        } else if i < |q| + 4 {
          assert g[i] == g[|q| + 2..|q| + 4][i - |q| - 2];
          assert buf[i] == h[i - |q| - 2];
        } else {
          assert g[i] == g[|g| - 2..][i - |g| + 2];
          assert buf[i] == buf[|buf| - 2..][i - |buf| + 2];
        }
      }
    }
  }

  /** `send_command` given a string: ASCII-encode it, then frame it. */
  method SendCommand(command: string, addChecksum: bool) returns (buf: seq<byte>)
    requires IsAscii(command)
    ensures buf == Frame(Encode(command), addChecksum)
  {
    buf := SendBytes(Encode(command), addChecksum);
  }

  /** `send_command` given bytes: put `$` in front, compute the XOR
      checksum byte by byte when asked to and append it after `*`, end with
      CR LF. The buffer that would be written to the bus is returned. */
  method SendBytes(cmd: seq<byte>, addChecksum: bool) returns (buf: seq<byte>)
    ensures buf == Frame(cmd, addChecksum)
  {
    buf := [DOLLAR] + cmd;
    if addChecksum {
      var checksum: byte := 0;
      for i := 0 to |cmd|
        invariant checksum == XorAll(cmd[..i])
      {
        assert cmd[..i + 1][..i] == cmd[..i];
        checksum := checksum ^ cmd[i];
      }
      assert cmd[..|cmd|] == cmd;
      buf := buf + [STAR] + Hex2(checksum);
    }
    buf := buf + [CR, LF];
  }

  // ------------------------------------------------------ payload fields

  function IndexOfComma(s: string): (i: nat)
    ensures i <= |s| && ',' !in s[..i]
    ensures i < |s| ==> s[i] == ','
  {
    if s == [] || s[0] == ',' then 0
    else
      var j := IndexOfComma(s[1..]);
      assert s[..j + 1] == [s[0]] + s[1..][..j];
      j + 1
  }

  /** The comma-separated fields of a PMTK payload. */
  function Split(s: string): (fs: seq<string>)
    ensures |fs| >= 1
    decreases |s|
  {
    var i := IndexOfComma(s);
    if i == |s| then [s] else [s[..i]] + Split(s[i + 1..])
  }

  /** Fields joined by commas, as the format strings of the PMTK setters
      lay them out. */
  function Join(fs: seq<string>): string
    requires |fs| >= 1
  {
    if |fs| == 1 then fs[0] else fs[0] + "," + Join(fs[1..])
  }

  lemma {:induction false} JoinAscii(fs: seq<string>)
    requires |fs| >= 1
    requires forall i :: 0 <= i < |fs| ==> IsAscii(fs[i])
    ensures IsAscii(Join(fs))
  {
    if |fs| > 1 {
      assert forall i :: 0 <= i < |fs[1..]| ==> IsAscii(fs[1..][i]) by {
        forall i | 0 <= i < |fs[1..]| ensures IsAscii(fs[1..][i]) { assert fs[1..][i] == fs[i + 1]; }
      }
      JoinAscii(fs[1..]);
      AsciiAppend(fs[0], ",");
      AsciiAppend(fs[0] + ",", Join(fs[1..]));
    }
  }

  lemma {:induction false} SplitJoin(fs: seq<string>)
    requires |fs| >= 1
    requires forall i :: 0 <= i < |fs| ==> ',' !in fs[i]
    ensures Split(Join(fs)) == fs
  {
    if |fs| > 1 {
      var s := Join(fs);
      var f := fs[0];
      assert s == f + ([','] + Join(fs[1..]));
      FirstComma(f, [','] + Join(fs[1..]));
      assert s[|f| + 1..] == Join(fs[1..]);
      assert s[..|f|] == f;
      SplitJoin(fs[1..]);
    }
  }

  lemma FirstComma(f: string, rest: string)
    requires ',' !in f && rest != [] && rest[0] == ','
    ensures IndexOfComma(f + rest) == |f|
  {
    var s := f + rest;
    var i := IndexOfComma(s);
    assert s[..|f|] == f;
    assert s[|f|] == ',';
  }

  // --------------------------------------------------------- PMTK setters

  function Dist(a: int, b: int): nat {
    if a >= b then a - b else b - a
  }

  /** The two-sided clamp of the rate setters: the value in [lo, hi]
      nearest to x. */
  function Clamp(x: int, lo: int, hi: int): (r: int)
    requires lo <= hi
    ensures lo <= r <= hi
    ensures forall v :: lo <= v <= hi ==> Dist(r, x) <= Dist(v, x)
  {
    if x < lo then lo else if x > hi then hi else x
  }

  const PPS_ON := "PMTK285,2,100"
  const PPS_OFF := "PMTK285,0,100"
  const NORMAL_MODE := "PMTK225,0"
  const COLD_BOOT := "PMTK103"
  /** Sentence-output selection: only GGA and RMC. */
  const OUTPUT_GGA_RMC := "PMTK314,0,1,0,3,0,0,0,0,0,0,0,0,0,0,0,0,0,0,0,0"

  lemma OutputSelectionIsAscii()
    ensures IsAscii(OUTPUT_GGA_RMC)
  {
    var a, b, c := "PMTK314,0,1,0,3,", "0,0,0,0,0,0,0,0", ",0,0,0,0,0,0,0,0";
    assert OUTPUT_GGA_RMC == a + b + c;
    AsciiAppend(a, b);
    AsciiAppend(a + b, c);
  }

  /** Python's `int()` of a number: truncation toward zero. */
  function Trunc(x: real): (n: int)
    ensures x >= 0.0 ==> n >= 0 && n as real <= x < n as real + 1.0
    ensures x < 0.0 ==> n <= 0 && n as real - 1.0 < x <= n as real
  {
    if x >= 0.0 then x.Floor else -((-x).Floor)
  }

  const MIN_UPDATE_MS := 1000
  const MAX_UPDATE_MS := 10000
  const MIN_PERIOD_S := 15
  const MAX_PERIOD_S := 300
  const SHORT_NAV_ACQUISITION := 7000
  const LONG_NAV_ACQUISITION := 30000

  function RatePayload(ms: nat): (s: string)
    ensures IsAscii(s)
  {
    JoinAscii(["PMTK220", Decimal(ms), "0", "0", "0", "0"]);
    Join(["PMTK220", Decimal(ms), "0", "0", "0", "0"])
  }

  /** The milliseconds per update that `set_update_rate` sends: the
      interval in whole milliseconds, clamped to [1000, 10000]. */
  function UpdateRateMs(seconds: real): (r: nat)
    ensures MIN_UPDATE_MS <= r <= MAX_UPDATE_MS
    ensures MIN_UPDATE_MS <= Trunc(seconds * 1000.0) <= MAX_UPDATE_MS ==>
              r == Trunc(seconds * 1000.0)
  {
    Clamp(Trunc(seconds * 1000.0), MIN_UPDATE_MS, MAX_UPDATE_MS)
  }

  /** The period `set_periodic_mode` works with: clamped to [15, 300] s. */
  function PeriodSeconds(seconds: real): (r: real)
    ensures MIN_PERIOD_S as real <= r <= MAX_PERIOD_S as real
    ensures MIN_PERIOD_S as real <= seconds <= MAX_PERIOD_S as real ==> r == seconds
    ensures seconds < MIN_PERIOD_S as real ==> r == MIN_PERIOD_S as real
    ensures seconds > MAX_PERIOD_S as real ==> r == MAX_PERIOD_S as real
  {
    if seconds < MIN_PERIOD_S as real then MIN_PERIOD_S as real
    else if seconds > MAX_PERIOD_S as real then MAX_PERIOD_S as real
    else seconds
  }

  /** The sleep time `set_periodic_mode` sends twice (short and long
      navigation sleep): the clamped period in whole milliseconds less the
      7 s acquisition. */
  function PeriodicSleepMs(seconds: real): (r: nat)
    ensures 8000 <= r <= 293000
    ensures r + SHORT_NAV_ACQUISITION == Trunc(PeriodSeconds(seconds) * 1000.0)
  {
    Trunc(PeriodSeconds(seconds) * 1000.0) - SHORT_NAV_ACQUISITION
  }

  function PeriodicPayload(sleepMs: nat): (s: string)
    ensures IsAscii(s)
  {
    var fs := ["PMTK225", "2", Decimal(SHORT_NAV_ACQUISITION), Decimal(sleepMs),
               Decimal(LONG_NAV_ACQUISITION), Decimal(sleepMs)];
    JoinAscii(fs);
    Join(fs)
  }

  method SetPps(enable: bool) returns (buf: seq<byte>)
    ensures Unframe(buf) == Some(Encode(if enable then PPS_ON else PPS_OFF))
  {
    if enable {
      buf := SendCommand(PPS_ON, true);
    } else {
      buf := SendCommand(PPS_OFF, true);
    }
    FrameInverse(Encode(if enable then PPS_ON else PPS_OFF), buf);
  }

  /** `set_update_rate`, given the requested interval in seconds. */
  method SetUpdateRate(secondsPerUpdate: real) returns (buf: seq<byte>)
    ensures buf == Frame(Encode(RatePayload(UpdateRateMs(secondsPerUpdate))), true)
  {
    var ms := Trunc(secondsPerUpdate * 1000.0);
    if ms < MIN_UPDATE_MS { ms := MIN_UPDATE_MS; }
    if ms > MAX_UPDATE_MS { ms := MAX_UPDATE_MS; }
    buf := SendCommand(RatePayload(ms), true);
  }

  /** The frame `set_update_rate` sends is accepted by a receiver, and its
      payload is a PMTK220 command whose interval field reads back as the
      milliseconds it was built from. */
  lemma RateCommandReadsBack(ms: nat)
    ensures var p := RatePayload(ms);
            Unframe(Frame(Encode(p), true)) == Some(Encode(p))
    ensures Split(RatePayload(ms)) == ["PMTK220", Decimal(ms), "0", "0", "0", "0"]
    ensures DigitsValue(Decimal(ms)) == ms
  {
    var fs := ["PMTK220", Decimal(ms), "0", "0", "0", "0"];
    var p := Join(fs);
    assert p == RatePayload(ms);
    FrameInverse(Encode(p), []);
    assert forall i :: 0 <= i < |fs| ==> ',' !in fs[i];
    SplitJoin(fs);
    DecimalRoundTrip(ms);
  }

  /** The update rate clamps whole milliseconds into [1000, 10000]: an
      interval of 0.1 s is sent as 1000 ms, 2.5 s as 2500 ms, a minute as
      10000 ms, and a fraction of a millisecond is dropped. */
  lemma UpdateRateExamples()
    ensures UpdateRateMs(0.1) == 1000
    ensures UpdateRateMs(2.5) == 2500
    ensures UpdateRateMs(2.0005) == 2000
    ensures UpdateRateMs(60.0) == 10000
    ensures UpdateRateMs(-3.0) == 1000
  {
    assert Trunc(2.5 * 1000.0) == 2500;
    assert Trunc(2.0005 * 1000.0) == 2000;
  }

  /** `set_periodic_mode`, given the period in seconds: first the
      1-second update rate, then the PMTK225 periodic-mode command. The
      wait for the rate acknowledgement between the two is not modelled. */
  method SetPeriodicMode(seconds: real) returns (sent: seq<seq<byte>>)
    ensures |sent| == 2
    ensures sent[0] == Frame(Encode(RatePayload(1000)), true)
    ensures sent[1] == Frame(Encode(PeriodicPayload(PeriodicSleepMs(seconds))), true)
  {
    var s := seconds;
    if s < MIN_PERIOD_S as real { s := MIN_PERIOD_S as real; }
    if s > MAX_PERIOD_S as real { s := MAX_PERIOD_S as real; }
    var msPerUpdate := Trunc(s * 1000.0);
    var shortNavSleep := msPerUpdate - SHORT_NAV_ACQUISITION;
    var longNavSleep := shortNavSleep;
    assert s == PeriodSeconds(seconds);
    assert shortNavSleep == longNavSleep == PeriodicSleepMs(seconds);
    var rate := SetUpdateRate(1.0);
    assert UpdateRateMs(1.0) == 1000;
    var periodic := SendCommand(PeriodicPayload(shortNavSleep), true);
    sent := [rate, periodic];
  }

  /** Periods below 15 s sleep 8 s, periods above 300 s sleep 293 s, and a
      one-minute period sleeps 53 s between 7 s acquisitions. */
  lemma PeriodicSleepExamples()
    ensures PeriodicSleepMs(5.0) == 8000
    ensures PeriodicSleepMs(60.0) == 53000
    ensures PeriodicSleepMs(3600.0) == 293000
  {
    assert Trunc(60.0 * 1000.0) == 60000;
  }

  /** The periodic-mode payload reads back as PMTK225 mode 2 with a 7 s
      short and 30 s long acquisition and equal short and long sleeps in
      [8000, 293000] ms. */
  lemma PeriodicCommandFields(seconds: real)
    ensures var fs := Split(PeriodicPayload(PeriodicSleepMs(seconds)));
            |fs| == 6 && fs[0] == "PMTK225" && fs[1] == "2" &&
            AllDigits(fs[2]) && DigitsValue(fs[2]) == 7000 &&
            AllDigits(fs[4]) && DigitsValue(fs[4]) == 30000 &&
            fs[3] == fs[5] && AllDigits(fs[3]) &&
            8000 <= DigitsValue(fs[3]) <= 293000
    ensures var fs := Split(PeriodicPayload(PeriodicSleepMs(seconds)));
            |fs| == 6 && fs[3] == Decimal(PeriodicSleepMs(seconds)) &&
            DigitsValue(fs[3]) == PeriodicSleepMs(seconds)
  {
    var sleep := PeriodicSleepMs(seconds);
    SplitJoin(["PMTK225", "2", Decimal(SHORT_NAV_ACQUISITION), Decimal(sleep),
               Decimal(LONG_NAV_ACQUISITION), Decimal(sleep)]);
    DecimalRoundTrip(SHORT_NAV_ACQUISITION);
    DecimalRoundTrip(LONG_NAV_ACQUISITION);
    DecimalRoundTrip(sleep);
  }

  method SetNormalMode() returns (buf: seq<byte>)
    ensures Unframe(buf) == Some(Encode(NORMAL_MODE))
  {
    buf := SendCommand(NORMAL_MODE, true);
    FrameInverse(Encode(NORMAL_MODE), buf);
  }

  method ColdBoot() returns (buf: seq<byte>)
    ensures Unframe(buf) == Some(Encode(COLD_BOOT))
  {
    buf := SendCommand(COLD_BOOT, true);
    FrameInverse(Encode(COLD_BOOT), buf);
  }

  /** The commands the constructor writes once the module answers: resume
      normal mode, then restrict the output to GGA and RMC sentences. */
  method StartupCommands() returns (sent: seq<seq<byte>>)
    ensures |sent| == 2
    ensures Unframe(sent[0]) == Some(Encode(NORMAL_MODE))
    ensures IsAscii(OUTPUT_GGA_RMC) && Unframe(sent[1]) == Some(Encode(OUTPUT_GGA_RMC))
  {
    var normal := SetNormalMode();
    OutputSelectionIsAscii();
    var select := SendCommand(OUTPUT_GGA_RMC, true);
    FrameInverse(Encode(OUTPUT_GGA_RMC), select);
    sent := [normal, select];
  }
}
