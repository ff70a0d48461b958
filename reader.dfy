/** The sentence reader of the PA1010 driver (`read_sentence`): bytes are
    pulled one at a time from the bus; bytes before the first `$` are
    dropped; once the `$` arrives the deadline is extended by a fixed grace
    period; bytes are appended until the buffer ends in CR LF; the text is
    returned stripped of surrounding whitespace and of every LF.

    The bus is the sequence of bytes the module would deliver; reading past
    its end is the bus error (`OSError`). The clock is a tick budget: every
    byte read costs one tick, and the loop stops once the elapsed ticks
    reach the deadline. */
module Reader {
  import opened Text
  import opened Command

  /** Extra ticks granted once a sentence has started. */
  const GRACE := 100

  datatype ReadOutcome =
    | Sentence(text: string, used: nat)   // a complete sentence; `used` bytes consumed
    | Timeout(used: nat)                  // GPSTimeoutError; partial data dropped
    | BusError                            // the transport failed (OSError)

  /** Index of the first `$` on the bus, or its length if there is none. */
  function FirstDollar(s: seq<byte>): (k: nat)
    ensures k <= |s|
    ensures k < |s| ==> s[k] == DOLLAR
    ensures forall i :: 0 <= i < k ==> s[i] != DOLLAR
  {
    if s == [] || s[0] == DOLLAR then 0 else 1 + FirstDollar(s[1..])
  }

  /** Bytes i - 1 and i of the bus are CR LF. */
  predicate CrLfAt(s: seq<byte>, i: nat)
    requires 1 <= i < |s|
  {
    s[i - 1] == CR && s[i] == LF
  }

  /** Index of the LF of the first CR LF pair that ends after position k,
      or the length of the bus if none does. */
  function LineEnd(s: seq<byte>, k: nat): (j: nat)
    requires k < |s|
    ensures k < j <= |s|
    ensures j < |s| ==> CrLfAt(s, j)
    ensures forall i :: k < i < j ==> !CrLfAt(s, i)
  {
    PairFrom(s, k + 1)
  }

  function PairFrom(s: seq<byte>, i: nat): (j: nat)
    requires 1 <= i <= |s|
    ensures i <= j <= |s|
    ensures j < |s| ==> CrLfAt(s, j)
    ensures forall m :: i <= m < j ==> !CrLfAt(s, m)
    decreases |s| - i
  {
    if i == |s| || CrLfAt(s, i) then i else PairFrom(s, i + 1)
  }

  /** The text of a sentence buffer: decoded, stripped of surrounding
      whitespace, with every line feed removed. */
  function Clean(buf: seq<byte>): (t: string)
    ensures '\n' !in t && |t| <= |buf|
  {
    RemoveLF(Strip(Decode(buf)))
  }

  /** What one call of `read_sentence(timeout)` yields on the bus `s`:
      with k the first `$` and j the LF that completes the first CR LF
      after it, a sentence if k is reached within the deadline and j within
      the extended deadline; a timeout at whichever deadline passes first;
      a bus error if the bus runs dry before either. */
  function ReadSpec(s: seq<byte>, timeout: nat): (r: ReadOutcome)
    ensures r.Sentence? ==> 2 <= r.used <= |s|
    ensures r.Timeout? ==> r.used <= |s|
  {
    var k := FirstDollar(s);
    if timeout <= k then Timeout(timeout)
    else if k == |s| then BusError
    else
      var j := LineEnd(s, k);
      if timeout + GRACE <= j then Timeout(timeout + GRACE)
      else if j == |s| then BusError
      else SentenceOf(s, k, j)
  }

  /** The sentence whose `$` is at k and whose final LF is at j. */
  function SentenceOf(s: seq<byte>, k: nat, j: nat): ReadOutcome
    requires k < j < |s|
  {
    Sentence(Clean(s[k..j + 1]), j + 1)
  }

  /** `read_sentence`: the framing loop, one byte per tick. */
  method ReadSentence(bus: seq<byte>, timeout: nat) returns (r: ReadOutcome)
    ensures r == ReadSpec(bus, timeout)
  {
    var buf: seq<byte> := [];
    var deadline := timeout;
    var elapsed := 0;
    ghost var k := FirstDollar(bus);
    while elapsed < deadline
      invariant elapsed <= |bus| && elapsed <= deadline
      invariant buf == [] ==> deadline == timeout && k >= elapsed
      invariant buf != [] ==> k < elapsed && k < timeout && deadline == timeout + GRACE
      invariant buf != [] ==> buf == bus[k..elapsed] && LineEnd(bus, k) >= elapsed
      decreases |bus| - elapsed
    {
      if elapsed == |bus| {
        BusDry(bus, timeout, k, elapsed, buf != []);
        return BusError;
      }
      var c := bus[elapsed];
      elapsed := elapsed + 1;
      if |buf| == 0 && c != DOLLAR {
        continue;
      } else if |buf| == 0 {
        // a sentence has started: give it more time
        FirstDollarAt(bus, elapsed - 1);
        deadline := deadline + GRACE;
      }
      BufferGrows(bus, k, elapsed, buf);
      buf := buf + [c];
      if |buf| >= 2 && buf[|buf| - 2..] == [CR, LF] {
        // the sentence ends here
        LineEndsAt(bus, k, elapsed, buf);
        SpecSentence(bus, timeout, k, elapsed - 1);
        return SentenceOf(bus, elapsed - |buf|, elapsed - 1);
      }
      LineOpen(bus, k, elapsed, buf);
    }
    TimedOut(bus, timeout, k, elapsed, buf != []);
    return Timeout(elapsed);
  }

  /** The bus runs dry before the deadline: a bus error. */
  lemma BusDry(s: seq<byte>, timeout: nat, k: nat, elapsed: nat, started: bool)
    requires k == FirstDollar(s) && elapsed == |s|
    requires !started ==> elapsed < timeout && k >= elapsed
    requires started ==> k < elapsed && k < timeout &&
                         elapsed < timeout + GRACE && LineEnd(s, k) >= elapsed
    ensures ReadSpec(s, timeout) == BusError
  {
  }

  /** The deadline passes: a timeout at the ticks elapsed. */
  lemma TimedOut(s: seq<byte>, timeout: nat, k: nat, elapsed: nat, started: bool)
    requires k == FirstDollar(s) && elapsed <= |s|
    requires !started ==> elapsed == timeout && k >= elapsed
    requires started ==> k < elapsed && k < timeout &&
                         elapsed == timeout + GRACE && LineEnd(s, k) >= elapsed
    ensures ReadSpec(s, timeout) == Timeout(elapsed)
  {
  }

  /** A `$` read while no `$` has been seen yet is the first one. */
  lemma FirstDollarAt(s: seq<byte>, i: nat)
    requires i < |s| && s[i] == DOLLAR && FirstDollar(s) >= i
    ensures FirstDollar(s) == i
  {
  }

  /** Appending the byte just read keeps the buffer equal to the bus from
      the first `$` on. */
  lemma BufferGrows(s: seq<byte>, k: nat, elapsed: nat, buf: seq<byte>)
    requires k < elapsed <= |s|
    requires buf == [] ==> k == elapsed - 1
    requires buf != [] ==> buf == s[k..elapsed - 1]
    ensures buf + [s[elapsed - 1]] == s[k..elapsed]
  {
  }

  /** With the first `$` at k before the deadline and the first CR LF after
      it ending at j before the extended deadline, the read is a sentence. */
  lemma SpecSentence(s: seq<byte>, timeout: nat, k: nat, j: nat)
    requires k == FirstDollar(s) && k < timeout
    requires k < j < |s| && j == LineEnd(s, k) && j < timeout + GRACE
    ensures ReadSpec(s, timeout) == SentenceOf(s, k, j)
  {
  }

  /** A CR LF pair completed by the byte just read is the first one. */
  lemma LineEndsAt(s: seq<byte>, k: nat, elapsed: nat, buf: seq<byte>)
    requires k < elapsed <= |s| && buf == s[k..elapsed] && LineEnd(s, k) >= elapsed - 1
    requires |buf| >= 2 && buf[|buf| - 2..] == [CR, LF]
    ensures |buf| == elapsed - k && k < elapsed - 1 && LineEnd(s, k) == elapsed - 1
  {
    PairEnds(s, k, elapsed, buf);
  }

  /** A buffer read from the bus ends in CR LF exactly when the bus has a
      CR LF pair at its last byte. */
  lemma PairEnds(s: seq<byte>, k: nat, elapsed: nat, buf: seq<byte>)
    requires k < elapsed <= |s| && buf == s[k..elapsed]
    ensures (|buf| >= 2 && buf[|buf| - 2..] == [CR, LF]) <==> (elapsed - 1 > k && CrLfAt(s, elapsed - 1))
  {
    if elapsed - 1 > k {
      assert buf[|buf| - 2..] == [s[elapsed - 2], s[elapsed - 1]];
    }
  }

  /** The byte just read does not complete a CR LF pair: the line goes on. */
  lemma LineOpen(s: seq<byte>, k: nat, elapsed: nat, buf: seq<byte>)
    requires k < elapsed <= |s|
    requires buf == s[k..elapsed] && LineEnd(s, k) >= elapsed - 1
    requires !(|buf| >= 2 && buf[|buf| - 2..] == [CR, LF])
    ensures LineEnd(s, k) >= elapsed
  {
    PairEnds(s, k, elapsed, buf);
  }

  // ------------------------------------------------------------ properties

  lemma {:induction false} RemoveLFKeepsFirst(x: string)
    requires x != [] && x[0] != '\n'
    ensures RemoveLF(x) != [] && RemoveLF(x)[0] == x[0]
  {
    if |x| > 1 {
      var front := x[..|x| - 1];
      RemoveLFKeepsFirst(front);
    }
  }

  /** Cleaning a buffer that starts with `$` gives text that starts with
      `$`, holds no LF and does not end in whitespace. */
  lemma CleanShape(buf: seq<byte>)
    requires buf != [] && buf[0] == DOLLAR
    ensures var t := Clean(buf);
            t != [] && t[0] == '$' && '\n' !in t && !IsSpace(t[|t| - 1])
  {
    var d := Decode(buf);
    assert d[0] == '$';
    var e := Strip(d);
    assert TrimStart(d) == d;
    TrimEndSpec(d);
    assert e != [] && e[0] == '$';
    RemoveLFKeepsFirst(e);
    assert RemoveLF(e) == RemoveLF(e[..|e| - 1]) + [e[|e| - 1]];
  }

  /** A sentence is only returned once the bytes read end in CR LF; it
      comes from the first `$` on, every byte before it being dropped, and
      the text starts with `$`, holds no LF and has no trailing
      whitespace. */
  lemma SentenceFraming(s: seq<byte>, timeout: nat)
    requires ReadSpec(s, timeout).Sentence?
    ensures var k := FirstDollar(s);
            k < ReadSpec(s, timeout).used && s[k] == DOLLAR &&
            forall i :: 0 <= i < k ==> s[i] != DOLLAR
    ensures var used := ReadSpec(s, timeout).used;
            s[used - 2..used] == [CR, LF] &&
            ReadSpec(s, timeout).text == Clean(s[FirstDollar(s)..used])
    ensures var t := ReadSpec(s, timeout).text;
            t != [] && t[0] == '$' && '\n' !in t && !IsSpace(t[|t| - 1])
  {
    SentenceAt(s, timeout);
    var k := FirstDollar(s);
    SentenceShape(s, k, LineEnd(s, k));
  }

  /** The sentence framed by a `$` at k and a CR LF ending at j. */
  lemma SentenceShape(s: seq<byte>, k: nat, j: nat)
    requires k < j < |s| && s[k] == DOLLAR && CrLfAt(s, j)
    ensures var r := SentenceOf(s, k, j);
            r.used == j + 1 && s[r.used - 2..r.used] == [CR, LF] &&
            r.text == Clean(s[k..r.used])
    ensures var t := SentenceOf(s, k, j).text;
            t != [] && t[0] == '$' && '\n' !in t && !IsSpace(t[|t| - 1])
  {
    SentenceOfText(s, k, j);
    PairSlice(s, j);
    CleanShape(s[k..j + 1]);
  }

  lemma SentenceOfText(s: seq<byte>, k: nat, j: nat)
    requires k < j < |s| && s[k] == DOLLAR
    ensures SentenceOf(s, k, j).text == Clean(s[k..j + 1]) && SentenceOf(s, k, j).used == j + 1
    ensures s[k..j + 1] != [] && s[k..j + 1][0] == DOLLAR
  {
  }

  lemma PairSlice(s: seq<byte>, j: nat)
    requires 1 <= j < |s| && CrLfAt(s, j)
    ensures s[j - 1..j + 1] == [CR, LF]
  {
  }

  /** A sentence is the cleaned bytes from the first `$` through the LF
      of the first CR LF after it. */
  lemma SentenceAt(s: seq<byte>, timeout: nat)
    requires ReadSpec(s, timeout).Sentence?
    ensures FirstDollar(s) < |s| && LineEnd(s, FirstDollar(s)) < |s|
    ensures CrLfAt(s, LineEnd(s, FirstDollar(s)))
    ensures ReadSpec(s, timeout) == SentenceOf(s, FirstDollar(s), LineEnd(s, FirstDollar(s)))
  {
  }

  /** The deadline grows by exactly GRACE, once: a sentence is returned
      only if its `$` arrived before the original deadline and its CR LF
      before the extended one, and a timeout comes either at the original
      deadline with no `$` read, or at the extended one with the sentence
      still open (its partial text is dropped). */
  lemma ReadDeadline(s: seq<byte>, timeout: nat)
    ensures var r := ReadSpec(s, timeout);
            var k := FirstDollar(s);
            (r.Sentence? ==> k < timeout && r.used <= timeout + GRACE) &&
            (r.Timeout? ==>
              (r.used == timeout && forall i :: 0 <= i < timeout ==> s[i] != DOLLAR) ||
              (r.used == timeout + GRACE && k < timeout &&
               forall i :: k < i < r.used ==> !CrLfAt(s, i)))
  {
  }

  /** A line feed that does not follow a carriage return never ends a
      sentence: inside the bytes consumed, only the last pair is CR LF. */
  lemma BareLineFeedKept(s: seq<byte>, timeout: nat)
    requires ReadSpec(s, timeout).Sentence?
    ensures var r := ReadSpec(s, timeout);
            forall i :: FirstDollar(s) < i < r.used - 1 ==> !CrLfAt(s, i)
  {
  }

  lemma TrimEndSuffix(x: string, y: string)
    requires x != [] && !IsSpace(x[|x| - 1])
    requires forall i :: 0 <= i < |y| ==> IsSpace(y[i])
    ensures TrimEnd(x + y) == x
  {
    TrimEndSpec(x + y);
    assert (x + y)[..|x|] == x;
  }

  lemma FirstDollarAfterNoise(noise: seq<byte>, s: seq<byte>)
    requires DOLLAR !in noise && |noise| < |s| && s[..|noise|] == noise && s[|noise|] == DOLLAR
    ensures FirstDollar(s) == |noise|
  {
    assert forall i :: 0 <= i < |noise| ==> s[i] == noise[i];
  }

  /** In a checksummed frame the only CR LF pair is the final one. */
  lemma FrameLineEnd(p: seq<byte>, n: nat, s: seq<byte>)
    requires LF !in p
    requires n + |p| + 6 <= |s| && s[n..n + |p| + 6] == Frame(p, true)
    ensures LineEnd(s, n) == n + |p| + 5
  {
    var f := Frame(p, true);
    FrameLayout(p, true);
    var e := n + |p| + 5;
    assert s[e - 1] == f[|p| + 4] && s[e] == f[|p| + 5];
    assert CrLfAt(s, e);
    forall i | n < i < e ensures !CrLfAt(s, i) {
      assert s[i] == f[i - n];
      if i <= n + |p| {
        assert f[i - n] == f[1..|p| + 1][i - n - 1] == p[i - n - 1];
      } else if n + |p| + 2 <= i < n + |p| + 4 {
        assert f[i - n] == f[|p| + 2..|p| + 4][i - n - |p| - 2];
      }
    }
  }

  /** Cleaning a checksummed frame removes just its CR LF. */
  lemma CleanFrame(p: seq<byte>)
    requires LF !in p
    ensures var f := Frame(p, true); Clean(f) == Decode(f[..|p| + 4])
  {
    var f := Frame(p, true);
    FrameLayout(p, true);
    var body := Decode(f[..|p| + 4]);
    assert f == f[..|p| + 4] + [CR, LF];
    assert Decode(f) == body + "\r\n";
    assert body[|body| - 1] as int == f[|p| + 3] as int;
    assert f[|p| + 3] == f[|p| + 2..|p| + 4][1];
    assert TrimStart(Decode(f)) == Decode(f);
    TrimEndSuffix(body, "\r\n");
    forall i | 0 <= i < |body| ensures body[i] != '\n' {
      if 1 <= i <= |p| {
        assert f[i] == f[1..|p| + 1][i - 1] == p[i - 1];
      } else if i >= |p| + 2 {
        assert f[i] == f[|p| + 2..|p| + 4][i - |p| - 2];
      }
    }
  }

  /** A command framed by the encoder, arriving after noise that holds no
      `$` and within the deadlines, is read back as exactly its text up to
      the checksum, provided the payload holds no LF. */
  lemma FrameReadBack(noise: seq<byte>, p: seq<byte>, rest: seq<byte>, timeout: nat)
    requires DOLLAR !in noise && LF !in p
    requires |noise| < timeout && |noise| + |p| + 5 < timeout + GRACE
    ensures var f := Frame(p, true);
            ReadSpec(noise + f + rest, timeout) ==
            Sentence(Decode(f[..|p| + 4]), |noise| + |f|)
  {
    var f := Frame(p, true);
    FrameLayout(p, true);
    var s := noise + f + rest;
    var n := |noise|;
    assert s[..n] == noise && s[n] == DOLLAR;
    FirstDollarAfterNoise(noise, s);
    assert s[n..n + |f|] == f;
    FrameLineEnd(p, n, s);
    SpecSentence(s, timeout, n, n + |p| + 5);
    CleanFrame(p);
  }
}
