/** Sentences as a receiver sends them, run through the decoder. */
module Scenarios {
  import opened Text
  import opened Decoder

  const RMC_HEAD := "$GNRMC,123519.00,"

  /** An RMC sentence with two fractional digits in its time. */
  const RMC_TWO_DIGIT_FRACTION := RMC_HEAD + "A,4807.038,N,01131.000,E,022.4,084.4,230394,,*XX"

  const GGA_HEAD := "$GNGGA,123519.00,"

  /** A GGA sentence with two fractional digits in its time. */
  const GGA_TWO_DIGIT_FRACTION := GGA_HEAD + "4807.038,N,01131.000,E,1,08,0.9,545.4,M,46.9,M,,*XX"

  /** Both patterns demand three fractional digits, so these sentences are
      ignored and the record keeps every field. */
  lemma TwoDigitFractionIgnored(f: Fix)
    ensures Decoded(f, RMC_TWO_DIGIT_FRACTION) == Ok(f)
    ensures Decoded(f, GGA_TWO_DIGIT_FRACTION) == Ok(f)
  {
    var r, g := RMC_TWO_DIGIT_FRACTION, GGA_TWO_DIGIT_FRACTION;
    assert r[16] == RMC_HEAD[16] == ',';
    assert g[16] == GGA_HEAD[16] == ',';
    if MatchGga(r).Some? || MatchRmc(r).Some? {
      TimeLayout(r);
      assert false;
    }
    if MatchGga(g).Some? || MatchRmc(g).Some? {
      TimeLayout(g);
      assert false;
    }
  }

  /** A void RMC sentence from a receiver without a fix: status V and
      empty position fields. */
  const RMC_VOID := "$GNRMC,123519.000,V,,,,,0.00,0.00,230394,,,N*XX"

  /** The latitude group needs digits, so a void RMC sentence without a
      position matches neither pattern: the record, and with it the
      validity flag `update` returns, stays as it was. */
  lemma VoidRmcIgnored(f: Fix)
    ensures Decoded(f, RMC_VOID) == Ok(f)
    ensures Drain(f, [RMC_VOID]) == Ok(f)
  {
    var v := RMC_VOID;
    assert v[3] == 'R' && v[20] == ',';
    NoLatitudeNoMatch(v);
    assert [v][..0] == [];
  }

  /** A sentence with the RMC letter in its tag and no digit where the
      RMC latitude starts matches neither pattern. */
  lemma NoLatitudeNoMatch(s: string)
    requires |s| > 20 && s[3] == 'R' && !IsDigit(s[20])
    ensures MatchGga(s).None? && MatchRmc(s).None?
  {
    if MatchRmc(s).Some? {
      RmcLatitudeLeads(s);
      assert false;
    }
    if MatchGga(s).Some? {
      GgaTagged(s);
      assert false;
    }
  }
}
