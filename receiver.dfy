/** The `PA1010` object: the fix fields it exposes, the setters the decoder
    calls, and `update`, which decodes every sentence the bus delivers until
    a read times out or the bus fails.

    The bus is passed to `Update` as the bytes the module would deliver;
    the object's I2C handle is not modelled. */
module Receiver {
  import opened Text
  import opened Reader
  import opened Decoder

  /** The timeout `update` gives each `read_sentence` call. */
  const UPDATE_TIMEOUT := 50

  /** How `update` ends: it returns the validity flag when a read times
      out or the bus fails, and lets a ValueError from `float()` escape. */
  datatype UpdateResult = Returned(valid: bool) | ValueError

  /** The sentences `update` reads from the bus, in order: each read starts
      where the previous one stopped, and the first timeout or bus error
      ends the run. */
  function Sentences(bus: seq<byte>): (r: seq<string>)
    ensures 2 * |r| <= |bus|
    decreases |bus|
  {
    match ReadSpec(bus, UPDATE_TIMEOUT)
    case Sentence(t, used) => [t] + Sentences(bus[used..])
    case _ => []
  }

  /** Every sentence `update` sees starts with `$`, holds no line feed and
      has no trailing whitespace. */
  lemma {:induction false} SentencesShape(bus: seq<byte>)
    ensures forall i :: 0 <= i < |Sentences(bus)| ==> SentenceShaped(Sentences(bus)[i])
    decreases |bus|
  {
    var r := ReadSpec(bus, UPDATE_TIMEOUT);
    SentencesStep(bus);
    if r.Sentence? {
      SentenceFraming(bus, UPDATE_TIMEOUT);
      assert SentenceShaped(r.text);
      var rest := Sentences(bus[r.used..]);
      SentencesShape(bus[r.used..]);
      AllShapedCons(r.text, rest);
    }
  }

  /** What every sentence `read_sentence` returns looks like. */
  predicate SentenceShaped(t: string) {
    t != [] && t[0] == '$' && '\n' !in t && !IsSpace(t[|t| - 1])
  }

  lemma AllShapedCons(t: string, rest: seq<string>)
    requires SentenceShaped(t)
    requires forall i :: 0 <= i < |rest| ==> SentenceShaped(rest[i])
    ensures forall i :: 0 <= i < |[t] + rest| ==> SentenceShaped(([t] + rest)[i])
  {
    forall i | 0 <= i < |[t] + rest| ensures SentenceShaped(([t] + rest)[i]) {
      if i > 0 {
        assert ([t] + rest)[i] == rest[i - 1];
      }
    }
  }

  /** The drain of a batch extended by one sentence, when the batch raised
      nothing. */
  lemma DrainStep(f: Fix, done: seq<string>, s: string)
    requires Drain(f, done).Ok?
    ensures Drain(f, done + [s]) == Decoded(Drain(f, done).fix, s)
  {
    assert (done + [s])[..|done|] == done;
  }

  class PA1010 {
    var valid: bool
    var satellites: nat
    /** The text `float()` parsed for the altitude; "0" before any GGA. */
    var altitude: string
    var hour: nat
    var minute: nat
    var second: nat
    var milli: nat
    var lat: string
    var latNS: string
    var lon: string
    var lonEW: string
    /** The text `float()` parsed for the speed. */
    var speed: string
    /** The text `float()` parsed for the heading. */
    var heading: string
    var day: nat
    var month: nat
    var year: nat

    /** The fix fields as one value. */
    function State(): Fix
      reads this
    {
      Fix(valid, satellites, altitude, hour, minute, second, milli,
          lat, latNS, lon, lonEW, speed, heading, day, month, year)
    }

    /** `__init__`: no fix yet, no satellites, altitude 0; the time, date
        and position fields are not set until the first RMC sentence. */
    constructor ()
      ensures !valid && satellites == 0 && altitude == "0"
    {
      valid := false;
      satellites := 0;
      altitude := "0";
    }

    /** `_set_data_from_gga`: the satellite count, then the altitude; a
        `float()` failure leaves the count written and raises. */
    method SetDataFromGga(g: Gga) returns (raised: bool)
      requires GgaOk(g)
      modifies this
      ensures ApplyGga(old(State()), g) == (if raised then Raised(State()) else Ok(State()))
    {
      satellites := DigitsValue(g.satellites);
      if !FloatText(g.altitude) {
        return true;
      }
      altitude := g.altitude;
      return false;
    }

    /** `_set_data_from_rmc`: time, validity and position, then speed,
        heading and date, in the order the source assigns them. */
    method SetDataFromRmc(m: Rmc) returns (raised: bool)
      requires RmcOk(m)
      modifies this
      ensures ApplyRmc(old(State()), m) == (if raised then Raised(State()) else Ok(State()))
    {
      WriteTimePosition(m);
      if !FloatText(m.speed) {
        return true;
      }
      speed := m.speed;
      if !FloatText(m.heading) {
        return true;
      }
      heading := m.heading;
      WriteDate(m);
      return false;
    }

    /** The hour, minute, second, millisecond, validity and position
        assignments of `_set_data_from_rmc`. */
    method WriteTimePosition(m: Rmc)
      requires RmcOk(m)
      modifies this
      ensures State() == RmcTimePosition(old(State()), m)
    {
      RmcDigits(m);
      hour, minute, second, milli :=
        DigitsValue(m.hh), DigitsValue(m.mm), DigitsValue(m.ss), DigitsValue(m.sss);
      valid := m.status == "A";
      lat, latNS, lon, lonEW := m.lat, m.latNS, m.lon, m.lonEW;
    }

    /** The date assignments of `_set_data_from_rmc`, with the year moved
        into this century. */
    method WriteDate(m: Rmc)
      requires RmcOk(m)
      modifies this
      ensures State() == RmcDate(old(State()), m)
    {
      RmcDigits(m);
      day, month, year := DigitsValue(m.dd), DigitsValue(m.mo), DigitsValue(m.yy);
      year := year + 2000;
    }

    /** `_decode_sentence`: GGA first, then RMC, anything else ignored. */
    method DecodeSentence(s: string) returns (raised: bool)
      modifies this
      ensures Decoded(old(State()), s) == (if raised then Raised(State()) else Ok(State()))
    {
      var gga := MatchGga(s);
      if gga.Some? {
        raised := SetDataFromGga(gga.value);
      } else {
        var rmc := MatchRmc(s);
        if rmc.Some? {
          raised := SetDataFromRmc(rmc.value);
        } else {
          raised := false;
        }
      }
    }

    /** One pass of `update`'s loop, `self._decode_sentence(self.read_sentence())`:
        `read` is false when the read timed out or the bus failed (the loop's
        exit), otherwise `text` is the head of the run of sentences and
        `next` the bytes after it. */
    method ReadAndDecode(rem: seq<byte>)
      returns (read: bool, next: seq<byte>, raised: bool, ghost text: string)
      modifies this
      ensures !read ==> Sentences(rem) == [] && State() == old(State()) && !raised
      ensures read ==> |next| < |rem| && Sentences(rem) == [text] + Sentences(next)
      ensures read ==> Decoded(old(State()), text) ==
                       (if raised then Raised(State()) else Ok(State()))
    {
      var r := ReadSentence(rem, UPDATE_TIMEOUT);
      SentencesStep(rem);
      if !r.Sentence? {
        return false, rem, false, [];
      }
      raised := DecodeSentence(r.text);
      return true, rem[r.used..], raised, r.text;
    }

    /** `update`: read and decode sentences until a read times out or the
        bus fails, then return the validity flag; the record ends as the
        drain of every sentence read, and a ValueError stops the run. */
    method Update(bus: seq<byte>) returns (result: UpdateResult)
      modifies this
      ensures var d := Drain(old(State()), Sentences(bus));
              State() == d.fix &&
              result == (if d.Ok? then Returned(d.fix.valid) else ValueError)
    {
      var rem := bus;
      ghost var done: seq<string> := [];
      while true
        invariant done + Sentences(rem) == Sentences(bus)
        invariant Drain(old(State()), done) == Ok(State())
        decreases |rem|
      {
        ghost var before := State();
        var read, next, raised, text := ReadAndDecode(rem);
        if !read {
          assert done + [] == done;
          return Returned(valid);
        }
        DrainStep(old(State()), done, text);
        RunStep(done, text, Sentences(rem), Sentences(next), Sentences(bus));
        done := done + [text];
        if raised {
          DrainRaisedStays(old(State()), done, Sentences(next));
          return ValueError;
        }
        rem := next;
      }
    }
  }

  lemma RunStep(done: seq<string>, text: string, here: seq<string>, after: seq<string>, all: seq<string>)
    requires done + here == all && here == [text] + after
    ensures (done + [text]) + after == all
  {
  }

  /** One read of `update`'s loop: a sentence is the head of the run and
      the rest of the run comes from the bytes after it; anything else ends
      the run. */
  lemma SentencesStep(bus: seq<byte>)
    ensures var r := ReadSpec(bus, UPDATE_TIMEOUT);
            if r.Sentence?
            then r.used <= |bus| && Sentences(bus) == [r.text] + Sentences(bus[r.used..])
            else Sentences(bus) == []
  {
  }

  /** Once a ValueError has escaped, later sentences change nothing: they
      are never read. */
  lemma DrainRaisedStays(f: Fix, a: seq<string>, b: seq<string>)
    requires Drain(f, a).Raised?
    ensures Drain(f, a + b) == Drain(f, a)
  {
    DrainAppend(f, a, b);
  }
}
