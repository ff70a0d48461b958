/** The regular expressions the driver matches sentences with, written as
    explicit field matchers. A pattern is a list of fields (a literal, a
    fixed number of digits, one character from a bracket set, a greedy
    non-empty run of a character class, or `\d+\.\d+`); matching is
    anchored at the start and not at the end, like Python's `re.match`,
    and yields the text of every field.

    Greedy runs never need to give back characters in these patterns,
    because each one is followed by a literal whose first character the
    run cannot consume (`WellFormed`). Under that condition the matcher
    finds a split exactly when the pattern's language has one, and the
    split is unique (`MatchIff`). */
module Grammar {
  import opened Text

  /** The character classes of the variable-width groups: `\d`, `[0-9.]`
      and `[^,]`. */
  datatype Class = Digit | DigitOrDot | NotComma

  predicate InClass(c: char, k: Class) {
    match k
    case Digit => IsDigit(c)
    case DigitOrDot => IsDigit(c) || c == '.'
    case NotComma => c != ','
  }

  datatype Field =
    | Lit(w: string)       // literal text
    | Digits(n: nat)       // \d repeated exactly n times
    | OneOf(cs: string)    // [cs]
    | Many(k: Class)       // k+, greedy
    | Dec                  // \d+\.\d+

  type Pattern = seq<Field>

  datatype Tok = Tok(text: string, next: nat)

  datatype Match = Match(caps: seq<string>, next: nat)

  // -------------------------------------------------------- the language

  /** t is a text the field can match on its own. */
  predicate InField(f: Field, t: string) {
    match f
    case Lit(w) => t == w
    case Digits(n) => |t| == n && AllDigits(t)
    case OneOf(cs) => |t| == 1 && t[0] in cs
    case Many(k) => |t| > 0 && forall m :: 0 <= m < |t| ==> InClass(t[m], k)
    case Dec =>
      var d := Run(t, 0, Digit);
      0 < d && d + 1 < |t| && t[d] == '.' && AllDigits(t[d + 1..])
  }

  /** c cannot extend the text of field f. */
  predicate Stops(f: Field, c: char) {
    match f
    case Many(k) => !InClass(c, k)
    case Dec => !IsDigit(c)
    case _ => true
  }

  predicate StoppedAt(p: Pattern, i: nat)
    requires i < |p|
  {
    (p[i].Many? || p[i].Dec?) ==>
      i + 1 < |p| && p[i + 1].Lit? && p[i + 1].w != [] && Stops(p[i], p[i + 1].w[0])
  }

  /** Every greedy field is followed by a literal that stops it. */
  predicate WellFormed(p: Pattern) {
    forall i :: 0 <= i < |p| ==> StoppedAt(p, i)
  }

  /** caps holds one text per field, each in its field's language. */
  predicate Fits(p: Pattern, caps: seq<string>) {
    |caps| == |p| && forall i :: 0 <= i < |p| ==> InField(p[i], caps[i])
  }

  function Concat(caps: seq<string>): string {
    if caps == [] then [] else caps[0] + Concat(caps[1..])
  }

  // ---------------------------------------------------------- the matcher

  /** The end of the longest run of class-k characters from position i. */
  function Run(s: string, i: nat, k: Class): (j: nat)
    requires i <= |s|
    ensures i <= j <= |s|
    ensures forall m :: i <= m < j ==> InClass(s[m], k)
    ensures j < |s| ==> !InClass(s[j], k)
    decreases |s| - i
  {
    if i < |s| && InClass(s[i], k) then Run(s, i + 1, k) else i
  }

  /** Run is the only position with its two properties. */
  lemma RunIs(s: string, i: nat, j: nat, k: Class)
    requires i <= j <= |s|
    requires forall m :: i <= m < j ==> InClass(s[m], k)
    requires j < |s| ==> !InClass(s[j], k)
    ensures Run(s, i, k) == j
  {
  }

  lemma DecText(s: string, i: nat, d: nat, e: nat)
    requires i < d < |s| && s[d] == '.' && d + 1 < e <= |s|
    requires forall m :: i <= m < d ==> IsDigit(s[m])
    requires forall m :: d + 1 <= m < e ==> IsDigit(s[m])
    ensures InField(Dec, s[i..e])
  {
    var t := s[i..e];
    RunIs(t, 0, d - i, Digit);
    var u := t[d - i + 1..];
    assert AllDigits(u) by {
      forall m | 0 <= m < |u| ensures IsDigit(u[m]) {
        assert u[m] == s[d + 1 + m];
      }
    }
  }

  /** The text one field matches at position i, and where matching goes
      on; what is matched lies in the field's language. */
  function MatchField(f: Field, s: string, i: nat): (r: Option<Tok>)
    requires i <= |s|
    ensures r.Some? ==> r.value.next == i + |r.value.text| <= |s| &&
                        s[i..r.value.next] == r.value.text && InField(f, r.value.text)
  {
    match f
    case Lit(w) =>
      if i + |w| <= |s| && s[i..i + |w|] == w then Some(Tok(w, i + |w|)) else None
    case Digits(n) =>
      if i + n <= |s| && AllDigits(s[i..i + n]) then Some(Tok(s[i..i + n], i + n)) else None
    case OneOf(cs) =>
      if i < |s| && s[i] in cs then Some(Tok([s[i]], i + 1)) else None
    case Many(k) =>
      var j := Run(s, i, k);
      if i < j then Some(Tok(s[i..j], j)) else None
    case Dec =>
      var d := Run(s, i, Digit);
      if i < d < |s| && s[d] == '.' then
        var e := Run(s, d + 1, Digit);
        if d + 1 < e then DecText(s, i, d, e); Some(Tok(s[i..e], e)) else None
      else None
  }

  /** `re.match`: the fields one after the other from position i. */
  function MatchFrom(p: Pattern, s: string, i: nat): Option<Match>
    requires i <= |s|
    decreases |p|
  {
    if p == [] then Some(Match([], i))
    else
      var t :- MatchField(p[0], s, i);
      var rest :- MatchFrom(p[1..], s, t.next);
      Some(Match([t.text] + rest.caps, rest.next))
  }

  /** The texts of the fields when s matches p from its start. */
  function Matches(p: Pattern, s: string): Option<seq<string>> {
    var m :- MatchFrom(p, s, 0);
    Some(m.caps)
  }

  // -------------------------------------------------------- correctness

  /** A field's text followed by a character that stops it is matched as
      exactly that text. */
  lemma MatchFieldComplete(f: Field, s: string, i: nat, t: string)
    requires i + |t| <= |s| && s[i..i + |t|] == t && InField(f, t)
    requires i + |t| < |s| ==> Stops(f, s[i + |t|])
    ensures MatchField(f, s, i) == Some(Tok(t, i + |t|))
  {
    var e := i + |t|;
    forall m | i <= m < e ensures s[m] == t[m - i] {
      assert s[i..e][m - i] == s[m];
    }
    match f
    case Lit(w) =>
    case Digits(n) =>
    case OneOf(cs) =>
      assert t == [s[i]];
    case Many(k) =>
      RunIs(s, i, e, k);
    case Dec =>
      DecComplete(s, i, t);
  }

  /** A decimal's text followed by a non-digit is matched as exactly that
      text. */
  lemma DecComplete(s: string, i: nat, t: string)
    requires i + |t| <= |s| && InField(Dec, t)
    requires forall m :: i <= m < i + |t| ==> s[m] == t[m - i]
    requires i + |t| < |s| ==> Stops(Dec, s[i + |t|])
    ensures MatchField(Dec, s, i) == Some(Tok(t, i + |t|))
  {
    var e := i + |t|;
    var d := Run(t, 0, Digit);
    RunIs(s, i, i + d, Digit);
    forall m | i + d + 1 <= m < e ensures IsDigit(s[m]) {
      assert t[d + 1..][m - i - d - 1] == t[m - i];
    }
    RunIs(s, i + d + 1, e, Digit);
    assert s[i..e] == t;
  }

  lemma ConcatCons(caps: seq<string>)
    requires caps != []
    ensures Concat(caps) == caps[0] + Concat(caps[1..])
  {
  }

  lemma ConcatDrop(caps: seq<string>, k: nat)
    requires k < |caps|
    ensures Concat(caps[k..]) == caps[k] + Concat(caps[k + 1..])
  {
    ConcatCons(caps[k..]);
    assert caps[k..][1..] == caps[k + 1..];
  }

  /** Reading a concatenation field by field: when the texts from field k
      on start s at offset o, field k sits at o and the rest follows it. */
  lemma ConcatStep(caps: seq<string>, s: string, k: nat, o: nat)
    requires k < |caps| && o <= |s| && Concat(caps[k..]) <= s[o..]
    ensures o + |caps[k]| <= |s| && s[o..o + |caps[k]|] == caps[k]
    ensures Concat(caps[k + 1..]) <= s[o + |caps[k]|..]
  {
    ConcatDrop(caps, k);
    var c, rest, u := caps[k], Concat(caps[k + 1..]), s[o..];
    assert c + rest <= u;
    assert u[..|c|] == c;
    assert s[o..o + |c|] == u[..|c|];
    forall i | 0 <= i < |rest| ensures rest[i] == s[o + |c|..][i] {
      assert rest[i] == (c + rest)[|c| + i] == u[|c| + i];
    }
  }

  lemma FitsTail(p: Pattern, caps: seq<string>)
    requires p != [] && Fits(p, caps)
    ensures Fits(p[1..], caps[1..]) && InField(p[0], caps[0])
  {
    forall i | 0 <= i < |p| - 1 ensures InField(p[1..][i], caps[1..][i]) {
      assert InField(p[i + 1], caps[i + 1]);
    }
  }

  lemma WellFormedTail(p: Pattern)
    requires p != [] && WellFormed(p)
    ensures WellFormed(p[1..]) && StoppedAt(p, 0)
  {
    forall i | 0 <= i < |p| - 1 ensures StoppedAt(p[1..], i) {
      assert StoppedAt(p, i + 1);
    }
  }

  /** Soundness: what the matcher returns is one text per field, each in
      its field's language, and together they spell the input from i. */
  lemma {:induction false} MatchFromSound(p: Pattern, s: string, i: nat)
    requires i <= |s| && MatchFrom(p, s, i).Some?
    ensures var m := MatchFrom(p, s, i).value;
            Fits(p, m.caps) && m.next == i + |Concat(m.caps)| <= |s| &&
            s[i..m.next] == Concat(m.caps)
  {
    if p != [] {
      var t := MatchField(p[0], s, i).value;
      MatchFromSound(p[1..], s, t.next);
      var rest := MatchFrom(p[1..], s, t.next).value;
      var m := MatchFrom(p, s, i).value;
      assert m.caps == [t.text] + rest.caps;
      assert m.caps[1..] == rest.caps;
      ConcatCons(m.caps);
      assert s[i..m.next] == s[i..t.next] + s[t.next..m.next];
      forall j | 0 <= j < |p| ensures InField(p[j], m.caps[j]) {
        if j > 0 { assert InField(p[1..][j - 1], rest.caps[j - 1]); }
      }
    }
  }

  /** In a well-formed pattern the character after a greedy field's text
      is the first character of the literal that follows it. */
  lemma NextStops(p: Pattern, caps: seq<string>, s: string, i: nat)
    requires p != [] && WellFormed(p) && Fits(p, caps)
    requires i + |Concat(caps)| <= |s| && s[i..i + |Concat(caps)|] == Concat(caps)
    ensures i + |caps[0]| < |s| ==> Stops(p[0], s[i + |caps[0]|])
  {
    WellFormedTail(p);
    if p[0].Many? || p[0].Dec? {
      FitsTail(p, caps);
      var all := Concat(caps);
      ConcatCons(caps);
      ConcatCons(caps[1..]);
      assert caps[1] == p[1].w;
      assert all[|caps[0]|] == p[1].w[0];
      assert s[i + |caps[0]|] == s[i..i + |all|][|caps[0]|];
    }
  }

  /** The first field of a split is matched as its text, and the rest of
      the split is a split of the rest of the pattern. */
  lemma FirstField(p: Pattern, s: string, i: nat, caps: seq<string>)
    requires p != [] && WellFormed(p) && Fits(p, caps)
    requires i + |Concat(caps)| <= |s| && s[i..i + |Concat(caps)|] == Concat(caps)
    ensures var e := i + |caps[0]|;
            MatchField(p[0], s, i) == Some(Tok(caps[0], e)) &&
            WellFormed(p[1..]) && Fits(p[1..], caps[1..]) &&
            e + |Concat(caps[1..])| == i + |Concat(caps)| &&
            s[e..e + |Concat(caps[1..])|] == Concat(caps[1..])
  {
    var all := Concat(caps);
    var t := caps[0];
    var tail := Concat(caps[1..]);
    ConcatCons(caps);
    FitsTail(p, caps);
    WellFormedTail(p);
    NextStops(p, caps, s, i);
    var e := i + |t|;
    assert s[i..e] == all[..|t|] == t;
    MatchFieldComplete(p[0], s, i, t);
    assert s[e..e + |tail|] == all[|t|..] == tail;
  }

  /** Completeness: in a well-formed pattern, any split of the input into
      field texts is the one the matcher finds. */
  lemma {:induction false} MatchFromComplete(p: Pattern, s: string, i: nat, caps: seq<string>)
    requires WellFormed(p) && Fits(p, caps)
    requires i + |Concat(caps)| <= |s| && s[i..i + |Concat(caps)|] == Concat(caps)
    ensures MatchFrom(p, s, i) == Some(Match(caps, i + |Concat(caps)|))
  {
    if p != [] {
      FirstField(p, s, i, caps);
      var e := i + |caps[0]|;
      var n := e + |Concat(caps[1..])|;
      var t, rest := Tok(caps[0], e), Match(caps[1..], n);
      assert MatchField(p[0], s, i) == Some(t);
      MatchFromComplete(p[1..], s, e, caps[1..]);
      assert MatchFrom(p[1..], s, t.next) == Some(rest);
      MatchFromStep(p, s, i, t, rest);
      assert [caps[0]] + caps[1..] == caps;
    }
  }

  /** One step of the matcher: the first field, then the rest. */
  lemma MatchFromStep(p: Pattern, s: string, i: nat, t: Tok, rest: Match)
    requires p != [] && i <= |s| && MatchField(p[0], s, i) == Some(t)
    requires MatchFrom(p[1..], s, t.next) == Some(rest)
    ensures MatchFrom(p, s, i) == Some(Match([t.text] + rest.caps, rest.next))
  {
  }

  /** `re.match` semantics: a well-formed pattern matches s with field
      texts caps exactly when the texts fit the fields and spell a prefix
      of s. */
  lemma MatchIff(p: Pattern, s: string, caps: seq<string>)
    requires WellFormed(p)
    ensures Matches(p, s) == Some(caps) <==> Fits(p, caps) && Concat(caps) <= s
  {
    if Matches(p, s) == Some(caps) {
      MatchFromSound(p, s, 0);
    }
    if Fits(p, caps) && Concat(caps) <= s {
      assert s[0..|Concat(caps)|] == Concat(caps);
      MatchFromComplete(p, s, 0, caps);
    }
  }
}
