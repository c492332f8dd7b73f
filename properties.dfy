/**
 * What parsing does with text made of digit runs and separators as `Format`
 * writes them, whole or cut short, and with the other inputs the codec
 * distinguishes: the round trip, the consumed count, the error kinds and
 * where they are reported, separator guessing and whitespace.
 */
module ParseProperties {
  import opened Ascii
  import opened Rbxver

  /** The bytes of `b` from position `i` on begin with `t`. */
  predicate At(b: seq<byte>, i: nat, t: seq<byte>) {
    i + |t| <= |b| && b[i..i + |t|] == t
  }

  /** The separator byte a format's text carries, once the space of `", "` is set aside. */
  function SepLit(f: Format): seq<byte> {
    if f.Comma? || f.CommaSpace? then "," else "."
  }

  /** `sep` accepts the separator `Format(f)` writes: it is the initial state or that byte. */
  predicate SepFits(sep: Sep, f: Format) {
    sep == InitialSep(f) || sep == Expect(SepLit(f))
  }

  /** A component's text: a non-empty digit run whose value fits in an `int`. */
  predicate Run(d: seq<byte>) {
    |d| > 0 && DigitsIn(d, 0, |d|) && DecimalValue(d) <= MaxInt
  }

  predicate Runs(ds: seq<seq<byte>>) {
    forall j | 0 <= j < |ds| :: Run(ds[j])
  }

  /** The runs from `ds[k]` on, separated by `s`. */
  function Join(ds: seq<seq<byte>>, s: seq<byte>, k: nat): seq<byte>
    requires k < |ds|
    decreases |ds| - k
  {
    if k == |ds| - 1 then ds[k] else ds[k] + s + Join(ds, s, k + 1)
  }

  /** `w` with components `k` on set to the values of the runs `ds[k..]`. */
  function Fill(w: Version, ds: seq<seq<byte>>, k: nat): Version
    requires k <= |ds| <= 4 && Runs(ds)
    decreases |ds| - k
  {
    if k == |ds| then w else Fill(w.With(k, DecimalValue(ds[k]) as int64), ds, k + 1)
  }

  /** The four component texts `Format` writes for `v`. */
  function Parts(v: Version): seq<seq<byte>> {
    [FormatInt(v.major), FormatInt(v.minor), FormatInt(v.patch), FormatInt(v.maint)]
  }

  /** What follows component `m`, read up to position `e`: its separator, then component `m + 1` on. */
  function Continue(u: Version, sep: Sep, ws: bool, b: seq<byte>, e: nat, m: nat): Stop
    requires m < 3 && ValidSep(sep) && e <= |b|
  {
    match ScanSep(sep, ws, b, e)
    case Halt(j, err) => Stop(u, j, Some(err))
    case Next(sep2, j) => Components(u, sep2, ws, b, j, m + 1)
  }

  /** Where the parse ends once component `m` has been read up to position `e`. */
  function After(u: Version, sep: Sep, ws: bool, b: seq<byte>, e: nat, m: nat): Stop
    requires m < 4 && ValidSep(sep) && e <= |b|
  {
    if m == 3 then Stop(u, Skip(ws, b, e), None) else Continue(u, sep, ws, b, e, m)
  }

  /** Every component is non-negative, as every component `Parse` reads is. */
  predicate Natural(v: Version) {
    v.major >= 0 && v.minor >= 0 && v.patch >= 0 && v.maint >= 0
  }

  /** Where the first component may start: at 0, or after leading whitespace when `f` allows it. */
  predicate Lead(b: seq<byte>, f: Format, i: nat) {
    i == 0 || (AllowsSpace(f) && SpacesIn(b, 0, i))
  }

  /** The separator states `Parse` can be in: guessing, or expecting `.` or `,`. */
  predicate SourceSep(sep: Sep) {
    sep == Guess || sep == Expect(".") || sep == Expect(",")
  }

  /** The separator state once `m` components of text that follows `f` have been read. */
  function SepState(f: Format, m: nat): (sep: Sep)
    ensures ValidSep(sep) && SepFits(sep, f) && SourceSep(sep)
  {
    if m <= 1 then InitialSep(f) else Expect(SepLit(f))
  }

  /** The one-byte separator state `sep` takes `c` as the separator. */
  predicate Accepts(sep: Sep, c: byte) {
    if sep.Guess? then c == '.' || c == ',' else sep.lit == [c]
  }

  // ---------------------------------------------------------------------------
  // The text, piece by piece

  lemma AtConcat(b: seq<byte>, i: nat, x: seq<byte>, y: seq<byte>)
    requires At(b, i, x + y)
    ensures At(b, i, x) && At(b, i + |x|, y)
  {
    var s := b[i..i + |x| + |y|];
    assert b[i..i + |x|] == s[..|x|] && s[..|x|] == x;
    assert b[i + |x|..i + |x| + |y|] == s[|x|..] && s[|x|..] == y;
  }

  lemma AtMiddle(w: seq<byte>, t: seq<byte>, r: seq<byte>)
    ensures At(w + t + r, |w|, t)
  {
    assert (w + t + r)[|w|..|w| + |t|] == t;
  }

  lemma AtFirst(b: seq<byte>, i: nat, t: seq<byte>)
    requires At(b, i, t) && |t| > 0
    ensures b[i] == t[0]
  {
    assert b[i..i + |t|][0] == b[i];
  }

  /** The first run of a join at `i`, its separator at `j` and the rest of the join at `j2`. */
  lemma JoinSplit(ds: seq<seq<byte>>, s: seq<byte>, k: nat, b: seq<byte>, i: nat, j: nat, j2: nat)
    requires k + 1 < |ds| && Runs(ds) && |s| > 0 && At(b, i, Join(ds, s, k))
    requires j == i + |ds[k]| && j2 == j + |s|
    ensures |Join(ds, s, k)| == |ds[k]| + |s| + |Join(ds, s, k + 1)|
    ensures At(b, i, ds[k]) && At(b, j, s) && b[j] == s[0]
    ensures At(b, j2, Join(ds, s, k + 1))
    ensures j2 < |b| && IsDigit(b[j2])
  {
    var d, rest := ds[k], Join(ds, s, k + 1);
    assert Join(ds, s, k) == d + (s + rest);
    AtConcat(b, i, d, s + rest);
    AtConcat(b, j, s, rest);
    AtFirst(b, j, s);
    assert |ds[k + 1]| > 0 && rest[0] == ds[k + 1][0];
    assert IsDigit(ds[k + 1][0]);
    AtFirst(b, j2, rest);
  }

  /** Four runs joined, written out. */
  lemma JoinFour(a: seq<byte>, b: seq<byte>, c: seq<byte>, d: seq<byte>, s: seq<byte>)
    ensures Join([a, b, c, d], s, 0) == a + s + b + s + c + s + d
  {
    var ds := [a, b, c, d];
    assert Join(ds, s, 3) == d;
    assert Join(ds, s, 2) == c + s + d;
    assert Join(ds, s, 1) == b + s + (c + s + d);
    assert Join(ds, s, 0) == a + s + (b + s + (c + s + d));
  }

  /** `Format`'s text is the join of its four component texts. */
  lemma TextIsJoin(v: Version, f: Format)
    ensures v.Text(f) == Join(Parts(v), Separator(f), 0)
  {
    JoinFour(FormatInt(v.major), FormatInt(v.minor), FormatInt(v.patch), FormatInt(v.maint), Separator(f));
  }

  lemma {:induction false} FillField(w: Version, ds: seq<seq<byte>>, k: nat, j: nat)
    requires k <= |ds| <= 4 && Runs(ds) && j < 4
    ensures Fill(w, ds, k).Field(j) == if k <= j < |ds| then DecimalValue(ds[j]) else w.Field(j)
    decreases |ds| - k
  {
    if k < |ds| {
      FillField(w.With(k, DecimalValue(ds[k]) as int64), ds, k + 1, j);
    }
  }

  /** The component texts of `v` are runs, and they read back as `v` clamped. */
  lemma PartsReadBack(v: Version)
    ensures Runs(Parts(v)) && Fill(Zero, Parts(v), 0) == v.Clamped()
  {
    var ds := Parts(v);
    var u := Fill(Zero, ds, 0);
    FillField(Zero, ds, 0, 0);
    FillField(Zero, ds, 0, 1);
    FillField(Zero, ds, 0, 2);
    FillField(Zero, ds, 0, 3);
    assert u.major == u.Field(0) && u.minor == u.Field(1) && u.patch == u.Field(2) && u.maint == u.Field(3);
  }

  // ---------------------------------------------------------------------------
  // One step at a time
  //
  // Positions are passed as parameters rather than written as sums in the
  // calls of the scanning functions: the solver then matches the terms of one
  // step against the next directly.

  /** A run in place, not followed by another digit, is read whole with its value. */
  lemma ScanIntOfRun(b: seq<byte>, i: nat, d: seq<byte>, e: nat)
    requires Run(d) && At(b, i, d) && e == i + |d|
    requires e == |b| || !IsDigit(b[e])
    ensures ScanInt(b, i) == Next(DecimalValue(d) as int64, e)
  {
    forall k | i <= k < e
      ensures b[k] == d[0 + k - i]
    {
      assert b[i..e][k - i] == b[k];
    }
    ValueOfCopy(d, 0, b, i, |d|);
    DigitEndAt(b, i, e);
  }

  /** A separator as `Format` writes it is accepted, whitespace and all, and fixes a guessed separator. */
  lemma ScanSepOfFormatted(sep: Sep, f: Format, b: seq<byte>, j: nat, j2: nat)
    requires SepFits(sep, f) && At(b, j, Separator(f)) && j2 == j + |Separator(f)|
    requires j2 < |b| && IsDigit(b[j2])
    ensures ValidSep(sep)
    ensures ScanSep(sep, AllowsSpace(f), b, j) == Next(Expect(SepLit(f)), j2)
  {
    var s := Separator(f);
    AtFirst(b, j, s);
    assert b[j..j + 1] == [b[j]] == SepLit(f);
    SpaceEndAt(b, j, j);
    if f.CommaSpace? {
      assert b[j + 1] == b[j..j + 2][1] == ' ';
      SpaceEndAt(b, j + 1, j2);
    } else {
      SpaceEndAt(b, j + 1, j2);
    }
  }

  // How one step of `Components` unfolds once its component has been read.

  lemma ComponentThenAfter(w: Version, sep: Sep, ws: bool, b: seq<byte>, i: nat, k: nat, x: int64, j: nat)
    requires k < 4 && ValidSep(sep) && i <= |b| && ScanInt(b, i) == Next(x, j)
    ensures j <= |b|
    ensures Components(w, sep, ws, b, i, k) == After(w.With(k, x), sep, ws, b, j, k)
  {
  }

  /**
   * A run of a join followed by its separator is read as a component, and the
   * parse goes on at the next run, from position `j2`, with the separator
   * fixed to the one `Format` writes.
   */
  lemma JoinStep(w: Version, sep: Sep, f: Format, b: seq<byte>, i: nat, k: nat, ds: seq<seq<byte>>, j2: nat)
    requires k + 1 < |ds| <= 4 && Runs(ds) && SepFits(sep, f) && At(b, i, Join(ds, Separator(f), k))
    requires j2 == i + |ds[k]| + |Separator(f)|
    ensures ValidSep(sep) && j2 <= |b|
    ensures |Join(ds, Separator(f), k)| == |ds[k]| + |Separator(f)| + |Join(ds, Separator(f), k + 1)|
    ensures At(b, j2, Join(ds, Separator(f), k + 1))
    ensures Components(w, sep, AllowsSpace(f), b, i, k)
            == Components(w.With(k, DecimalValue(ds[k]) as int64), Expect(SepLit(f)), AllowsSpace(f), b, j2, k + 1)
  {
    var ws, s, d := AllowsSpace(f), Separator(f), ds[k];
    var j := i + |d|;
    JoinSplit(ds, s, k, b, i, j, j2);
    assert ScanSep(sep, ws, b, j) == Next(Expect(SepLit(f)), j2) by {
      ScanSepOfFormatted(sep, f, b, j, j2);
    }
    assert ScanInt(b, i) == Next(DecimalValue(d) as int64, j) by {
      ScanIntOfRun(b, i, d, j);
    }
    ComponentThenNext(w, sep, ws, b, i, k, DecimalValue(d) as int64, j, Expect(SepLit(f)), j2);
  }

  /**
   * Reading runs `ds[k..]` joined by `Separator(f)` from position `i` to `e`
   * fills components `k` to `|ds| - 1` with their values and stops at `e`:
   * the parse succeeds there when that was the fourth component, and
   * otherwise goes on with the separator that follows.  The byte at `e` must
   * not continue the last digit run.
   */
  lemma {:induction false} ComponentsOfJoin(w: Version, sep: Sep, f: Format, b: seq<byte>, i: nat, k: nat,
                                            ds: seq<seq<byte>>, e: nat)
    requires k < |ds| <= 4 && Runs(ds) && SepFits(sep, f) && At(b, i, Join(ds, Separator(f), k))
    requires e == i + |Join(ds, Separator(f), k)|
    requires e == |b| || !IsDigit(b[e])
    ensures ValidSep(sep) && e <= |b|
    ensures Components(w, sep, AllowsSpace(f), b, i, k)
            == After(Fill(w, ds, k), if k == |ds| - 1 then sep else Expect(SepLit(f)), AllowsSpace(f), b, e, |ds| - 1)
    decreases |ds| - k
  {
    if k == |ds| - 1 {
      LastRunOfJoin(w, sep, f, b, i, ds, e);
    } else {
      var w1 := w.With(k, DecimalValue(ds[k]) as int64);
      var j2 := i + |ds[k]| + |Separator(f)|;
      assert Fill(w, ds, k) == Fill(w1, ds, k + 1);
      JoinStep(w, sep, f, b, i, k, ds, j2);
      ComponentsOfJoin(w1, Expect(SepLit(f)), f, b, j2, k + 1, ds, e);
    }
  }

  /** The last run of a join: read it, then finish or go on to its separator. */
  lemma LastRunOfJoin(w: Version, sep: Sep, f: Format, b: seq<byte>, i: nat, ds: seq<seq<byte>>, e: nat)
    requires 0 < |ds| <= 4 && Runs(ds) && SepFits(sep, f) && At(b, i, Join(ds, Separator(f), |ds| - 1))
    requires e == i + |Join(ds, Separator(f), |ds| - 1)|
    requires e == |b| || !IsDigit(b[e])
    ensures ValidSep(sep) && e <= |b|
    ensures Components(w, sep, AllowsSpace(f), b, i, |ds| - 1)
            == After(Fill(w, ds, |ds| - 1), sep, AllowsSpace(f), b, e, |ds| - 1)
  {
    var k := |ds| - 1;
    var d := ds[k];
    var x := DecimalValue(d) as int64;
    assert Join(ds, Separator(f), k) == d;
    assert Fill(w, ds, k) == Fill(w.With(k, x), ds, k + 1);
    ScanIntOfRun(b, i, d, e);
    ComponentThenAfter(w, sep, AllowsSpace(f), b, i, k, x, e);
  }

  // ---------------------------------------------------------------------------
  // What each scanning step does, whatever the input

  /**
   * `ScanInt` either reads the maximal digit run at `i`, which is non-empty and
   * fits in an `int`, or reports a syntax error without consuming anything.
   */
  lemma ScanIntOutcome(b: seq<byte>, i: nat)
    requires i <= |b|
    ensures ScanInt(b, i).Halt? ==> ScanInt(b, i) == Halt(i, ErrSyntax)
    ensures ScanInt(b, i).Next? ==>
              var e := ScanInt(b, i).end;
              i < e && DigitsIn(b, i, e) && (e == |b| || !IsDigit(b[e]))
              && ScanInt(b, i).value as int == Value(b, i, e) <= MaxInt
  {
  }

  /** No digit at `i`: a syntax error there. */
  lemma NoDigitRejected(b: seq<byte>, i: nat)
    requires i <= |b| && (i == |b| || !IsDigit(b[i]))
    ensures ScanInt(b, i) == Halt(i, ErrSyntax)
  {
    DigitEndAt(b, i, i);
  }

  /** A digit run whose value exceeds MaxInt: a syntax error that consumes nothing. */
  lemma OverflowRejected(b: seq<byte>, i: nat, d: seq<byte>, e: nat)
    requires DigitsIn(d, 0, |d|) && DecimalValue(d) > MaxInt && At(b, i, d) && e == i + |d|
    requires e == |b| || !IsDigit(b[e])
    ensures ScanInt(b, i) == Halt(i, ErrSyntax)
  {
    forall k | i <= k < e
      ensures b[k] == d[0 + k - i]
    {
      assert b[i..e][k - i] == b[k];
    }
    ValueOfCopy(d, 0, b, i, |d|);
    DigitEndAt(b, i, e);
  }

  /**
   * A one-byte separator state after optional whitespace: end of input is
   * `ErrUnexpectedEOF`, an accepted byte fixes the separator and is consumed
   * with the whitespace after it, any other byte is `ErrSyntax` where it stands.
   */
  lemma ScanSepOutcome(sep: Sep, ws: bool, b: seq<byte>, i: nat, j: nat)
    requires ValidSep(sep) && (sep.Expect? ==> |sep.lit| == 1) && i <= |b| && j == Skip(ws, b, i)
    ensures j == |b| ==> ScanSep(sep, ws, b, i) == Halt(j, ErrUnexpectedEOF)
    ensures j < |b| && Accepts(sep, b[j]) ==> ScanSep(sep, ws, b, i) == Next(Expect([b[j]]), Skip(ws, b, j + 1))
    ensures j < |b| && !Accepts(sep, b[j]) ==> ScanSep(sep, ws, b, i) == Halt(j, ErrSyntax)
  {
    if j < |b| {
      assert b[j..j + 1] == [b[j]];
    }
  }

  /** Without whitespace skipping, a space where a separator is due is a syntax error. */
  lemma SpaceNotSkipped(sep: Sep, b: seq<byte>, i: nat)
    requires SourceSep(sep) && i < |b| && IsSpace(b[i])
    ensures ScanSep(sep, false, b, i) == Halt(i, ErrSyntax)
  {
    ScanSepOutcome(sep, false, b, i, i);
  }

  /** With whitespace skipping, spaces on both sides of a separator are consumed with it. */
  lemma SpacesAroundSeparator(sep: Sep, b: seq<byte>, i: nat, j: nat, k: nat)
    requires SourceSep(sep)
    requires SpacesIn(b, i, j) && j < |b| && Accepts(sep, b[j])
    requires SpacesIn(b, j + 1, k) && (k == |b| || !IsSpace(b[k]))
    ensures ScanSep(sep, true, b, i) == Next(Expect([b[j]]), k)
  {
    SpaceEndAt(b, i, j);
    SpaceEndAt(b, j + 1, k);
    ScanSepOutcome(sep, true, b, i, j);
  }

  // ---------------------------------------------------------------------------
  // Whole inputs

  /** Where the first component starts, `Parse` reads the four components from there. */
  lemma ParsedAt(b: seq<byte>, f: Format, i: nat)
    requires i == Skip(AllowsSpace(f), b, 0) && i < |b|
    ensures Parsed(b, f) == Report(Components(Zero, InitialSep(f), AllowsSpace(f), b, i, 0))
  {
  }

  /** Once past the leading whitespace, `Parse` reads the first component at `i`. */
  lemma ParsedFrom(b: seq<byte>, f: Format, i: nat)
    requires Lead(b, f, i) && i < |b| && !IsSpace(b[i])
    ensures Parsed(b, f) == Report(Components(Zero, InitialSep(f), AllowsSpace(f), b, i, 0))
  {
    if AllowsSpace(f) {
      assert SpacesIn(b, 0, i);
      SpaceEndAt(b, 0, i);
    }
    ParsedAt(b, f, i);
  }

  lemma JoinStartsWithRun(ds: seq<seq<byte>>, s: seq<byte>, k: nat)
    requires k < |ds| && Runs(ds)
    ensures |Join(ds, s, k)| > 0 && IsDigit(Join(ds, s, k)[0])
  {
    assert Run(ds[k]);
  }

  /**
   * Runs `ds` joined as `Format(f)` joins components, from position `i` to
   * `e`, after whitespace `f` allows: the parse fills the first `|ds|`
   * components with their values and continues at `e`.
   */
  lemma ParsedOfJoin(b: seq<byte>, f: Format, ds: seq<seq<byte>>, i: nat, e: nat)
    requires 0 < |ds| <= 4 && Runs(ds) && Lead(b, f, i) && At(b, i, Join(ds, Separator(f), 0))
    requires e == i + |Join(ds, Separator(f), 0)| && (e == |b| || !IsDigit(b[e]))
    ensures e <= |b|
    ensures Parsed(b, f) == Report(After(Fill(Zero, ds, 0), SepState(f, |ds|), AllowsSpace(f), b, e, |ds| - 1))
  {
    JoinStartsWithRun(ds, Separator(f), 0);
    AtFirst(b, i, Join(ds, Separator(f), 0));
    ParsedFrom(b, f, i);
    ComponentsOfJoin(Zero, InitialSep(f), f, b, i, 0, ds, e);
  }

  /** `Format`'s text for `v` at `i`, not followed by a digit: the parse succeeds with `v` clamped, up to `e` and the whitespace `f` allows after it. */
  lemma ParsedOfText(b: seq<byte>, f: Format, v: Version, i: nat, e: nat)
    requires Lead(b, f, i) && At(b, i, v.Text(f)) && e == i + |v.Text(f)| && (e == |b| || !IsDigit(b[e]))
    ensures Parsed(b, f) == Result(v.Clamped(), Skip(AllowsSpace(f), b, e), None)
  {
    TextIsJoin(v, f);
    PartsReadBack(v);
    ParsedOfJoin(b, f, Parts(v), i, e);
  }

  /** Parsing what `Format` writes gives back the version, negative components read as 0, and consumes all of it. */
  lemma RoundTrip(v: Version, f: Format)
    ensures Parsed(v.Text(f), f) == Result(v.Clamped(), |v.Text(f)|, None)
    ensures ParseString(v.Text(f), f) == v.Clamped()
  {
    var b := v.Text(f);
    assert At(b, 0, b);
    ParsedOfText(b, f, v, 0, |b|);
    if AllowsSpace(f) {
      SpaceEndAt(b, |b|, |b|);
    }
  }

  /** A version with no negative component survives formatting and strict parsing unchanged. */
  lemma RoundTripNatural(v: Version, f: Format)
    requires Natural(v)
    ensures ParseString(v.Text(f), f) == v
  {
    RoundTrip(v, f);
  }

  /** `String` writes text that `ParseString` reads back under `Any`, `Dot` and their whitespace variants. */
  lemma StringRoundTrip(v: Version)
    ensures ParseString(v.String(), Any) == v.Clamped() && ParseString(v.String(), Dot) == v.Clamped()
    ensures ParseString(v.String(), AnySpace) == v.Clamped() && ParseString(v.String(), DotSpace) == v.Clamped()
  {
    RoundTrip(v, Any);
    RoundTrip(v, Dot);
    RoundTrip(v, AnySpace);
    RoundTrip(v, DotSpace);
  }

  /** Whitespace around a text stays whitespace once the three are put together. */
  lemma SpacesAround(w: seq<byte>, x: seq<byte>, t: seq<byte>)
    requires SpacesIn(w, 0, |w|) && SpacesIn(t, 0, |t|)
    ensures SpacesIn(w + x + t, 0, |w|) && SpacesIn(w + x + t, |w| + |x|, |w| + |x| + |t|)
  {
    var b := w + x + t;
    assert forall k | 0 <= k < |w| :: b[k] == w[k];
    assert forall k | |w| + |x| <= k < |b| :: b[k] == t[k - |w| - |x|];
  }

  /**
   * Bytes after a complete version that are not part of it are left
   * unconsumed without an error, and make `ParseString` return the zero
   * version.
   */
  lemma TrailingDataLeft(w: seq<byte>, v: Version, t: seq<byte>, f: Format)
    requires w == [] || (AllowsSpace(f) && SpacesIn(w, 0, |w|))
    requires |t| > 0 && !IsDigit(t[0]) && !(AllowsSpace(f) && IsSpace(t[0]))
    ensures Parsed(w + v.Text(f) + t, f) == Result(v.Clamped(), |w| + |v.Text(f)|, None)
    ensures ParseString(w + v.Text(f) + t, f) == Zero
  {
    var b, e := w + v.Text(f) + t, |w| + |v.Text(f)|;
    AtMiddle(w, v.Text(f), t);
    assert b[e] == t[0];
    SpacesAround(w, v.Text(f), []);
    ParsedOfText(b, f, v, |w|, e);
    if AllowsSpace(f) {
      SpaceEndAt(b, e, e);
    }
  }

  /** Under a whitespace format, whitespace before and after a complete version is consumed with it. */
  lemma SurroundingSpaceTaken(w: seq<byte>, v: Version, t: seq<byte>, f: Format)
    requires AllowsSpace(f) && SpacesIn(w, 0, |w|) && SpacesIn(t, 0, |t|)
    ensures Parsed(w + v.Text(f) + t, f) == Result(v.Clamped(), |w| + |v.Text(f)| + |t|, None)
    ensures ParseString(w + v.Text(f) + t, f) == v.Clamped()
  {
    var b, e := w + v.Text(f) + t, |w| + |v.Text(f)|;
    AtMiddle(w, v.Text(f), t);
    SpacesAround(w, v.Text(f), t);
    SpaceEndAt(b, e, |b|);
    ParsedOfText(b, f, v, |w|, e);
  }

  // ---------------------------------------------------------------------------
  // Inputs that stop early

  /** Nothing but the whitespace the format allows: `ErrUnexpectedEOF` with every byte consumed. */
  lemma EmptyOrBlank(b: seq<byte>, f: Format)
    requires SpacesIn(b, 0, |b|) && (b == [] || AllowsSpace(f))
    ensures Parsed(b, f) == Result(Zero, |b|, Some(ErrUnexpectedEOF))
  {
    if AllowsSpace(f) {
      SpaceEndAt(b, 0, |b|);
    }
  }

  /** A first component that cannot be read is `ErrSyntax` at its start, with nothing filled in. */
  lemma FirstComponentRejected(b: seq<byte>, f: Format, i: nat)
    requires i == Skip(AllowsSpace(f), b, 0) && i < |b| && ScanInt(b, i).Halt?
    ensures Parsed(b, f) == Result(Zero, i, Some(ErrSyntax))
  {
    ComponentRejected(Zero, InitialSep(f), AllowsSpace(f), b, i, 0);
  }

  /**
   * Under a format without whitespace, input that does not start with a digit
   * (a space, a sign, a separator) is `ErrSyntax` at position 0.
   */
  lemma NonDigitStartRejected(b: seq<byte>, f: Format)
    requires !AllowsSpace(f) && |b| > 0 && !IsDigit(b[0])
    ensures Parsed(b, f) == Result(Zero, 0, Some(ErrSyntax))
  {
    NoDigitRejected(b, 0);
    FirstComponentRejected(b, f, 0);
  }

  /** A first component too large for an `int` is `ErrSyntax` at its start. */
  lemma FirstComponentOverflow(b: seq<byte>, f: Format, d: seq<byte>, i: nat, e: nat)
    requires Lead(b, f, i) && DigitsIn(d, 0, |d|) && |d| > 0 && DecimalValue(d) > MaxInt && At(b, i, d)
    requires e == i + |d| && (e == |b| || !IsDigit(b[e]))
    ensures Parsed(b, f) == Result(Zero, i, Some(ErrSyntax))
  {
    AtFirst(b, i, d);
    ParsedFrom(b, f, i);
    OverflowRejected(b, i, d, e);
    ComponentRejected(Zero, InitialSep(f), AllowsSpace(f), b, i, 0);
  }

  /**
   * Fewer than four runs, then nothing but whitespace the format allows: the
   * parse runs out where a separator is due, with those components filled
   * in and every byte consumed.
   */
  lemma TruncatedAtSeparator(b: seq<byte>, f: Format, ds: seq<seq<byte>>, i: nat, e: nat)
    requires 0 < |ds| < 4 && Runs(ds) && Lead(b, f, i) && At(b, i, Join(ds, Separator(f), 0))
    requires e == i + |Join(ds, Separator(f), 0)| && SpacesIn(b, e, |b|) && (e == |b| || AllowsSpace(f))
    ensures Parsed(b, f) == Result(Fill(Zero, ds, 0), |b|, Some(ErrUnexpectedEOF))
  {
    var ws := AllowsSpace(f);
    if e < |b| {
      assert IsSpace(b[e]);
      SpaceEndAt(b, e, |b|);
    }
    ParsedOfJoin(b, f, ds, i, e);
    ScanSepOutcome(SepState(f, |ds|), ws, b, e, |b|);
  }

  /**
   * Fewer than four runs, then (after whitespace the format allows) a byte
   * that the separator state does not accept: `ErrSyntax` at that byte, with
   * those components filled in.
   */
  lemma SeparatorRejected(b: seq<byte>, f: Format, ds: seq<seq<byte>>, i: nat, e: nat, j: nat)
    requires 0 < |ds| < 4 && Runs(ds) && Lead(b, f, i) && At(b, i, Join(ds, Separator(f), 0))
    requires e == i + |Join(ds, Separator(f), 0)| && (e == |b| || !IsDigit(b[e]))
    requires j == Skip(AllowsSpace(f), b, e) && j < |b| && !Accepts(SepState(f, |ds|), b[j])
    ensures Parsed(b, f) == Result(Fill(Zero, ds, 0), j, Some(ErrSyntax))
  {
    ParsedOfJoin(b, f, ds, i, e);
    ScanSepOutcome(SepState(f, |ds|), AllowsSpace(f), b, e, j);
  }

  /**
   * Fewer than four runs and an accepted separator, then (after whitespace
   * the format allows) no component that can be read, whether a non-digit,
   * the end of the input or an overflowing run: `ErrSyntax` where that
   * component should start.
   */
  lemma ComponentMissing(b: seq<byte>, f: Format, ds: seq<seq<byte>>, i: nat, e: nat, j: nat, j2: nat)
    requires 0 < |ds| < 4 && Runs(ds) && Lead(b, f, i) && At(b, i, Join(ds, Separator(f), 0))
    requires e == i + |Join(ds, Separator(f), 0)| && (e == |b| || !IsDigit(b[e]))
    requires j == Skip(AllowsSpace(f), b, e) && j < |b| && Accepts(SepState(f, |ds|), b[j])
    requires j2 == Skip(AllowsSpace(f), b, j + 1) && ScanInt(b, j2).Halt?
    ensures Parsed(b, f) == Result(Fill(Zero, ds, 0), j2, Some(ErrSyntax))
  {
    var ws := AllowsSpace(f);
    ParsedOfJoin(b, f, ds, i, e);
    ScanSepOutcome(SepState(f, |ds|), ws, b, e, j);
    ComponentRejected(Fill(Zero, ds, 0), Expect([b[j]]), ws, b, j2, |ds|);
  }

  // ---------------------------------------------------------------------------
  // Every input

  /**
   * From component `k` on, every component read is non-negative; a parse that
   * fails never reaches the fourth component; one that succeeds has read at
   * least one digit per component and one byte per separator.
   */
  lemma {:induction false} ComponentsFacts(v: Version, sep: Sep, ws: bool, b: seq<byte>, i: nat, k: nat)
    requires k < 4 && ValidSep(sep) && i <= |b| && Natural(v) && v.maint == 0
    ensures Natural(Components(v, sep, ws, b, i, k).v)
    ensures Components(v, sep, ws, b, i, k).err.Some? ==> Components(v, sep, ws, b, i, k).v.maint == 0
    ensures Components(v, sep, ws, b, i, k).err.None? ==> Components(v, sep, ws, b, i, k).end >= i + 7 - 2 * k
    decreases 4 - k
  {
    ScanIntOutcome(b, i);
    match ScanInt(b, i)
    case Halt(_, _) =>
    case Next(x, j) =>
      var v1 := v.With(k, x);
      assert v1.major == v1.Field(0) && v1.minor == v1.Field(1) && v1.patch == v1.Field(2) && v1.maint == v1.Field(3);
      if k < 3 {
        match ScanSep(sep, ws, b, j)
        case Halt(_, _) =>
        case Next(sep2, j2) =>
          ComponentsFacts(v1, sep2, ws, b, j2, k + 1);
      }
  }

  /**
   * What `Parse` returns for any input: no negative component; on failure the
   * fourth component is still 0; on success at least the seven bytes of
   * the shortest version `0.0.0.0` were consumed.
   */
  lemma ParsedFacts(b: seq<byte>, f: Format)
    ensures Natural(Parsed(b, f).v)
    ensures Parsed(b, f).err.Some? ==> Parsed(b, f).v.maint == 0
    ensures Parsed(b, f).err.None? ==> 7 <= Parsed(b, f).n <= |b|
  {
    var i := Skip(AllowsSpace(f), b, 0);
    if i < |b| {
      ComponentsFacts(Zero, InitialSep(f), AllowsSpace(f), b, i, 0);
    }
  }

  /** Where the separator after the component at `i` is looked for: past its digits and, when `ws`, whitespace. */
  function SepPos(ws: bool, b: seq<byte>, i: nat): (j: nat)
    requires i <= |b|
    ensures i <= j <= |b|
  {
    Skip(ws, b, ScanInt(b, i).end)
  }

  /** The separator `Guess` settles on after the component at `i`: `,` when that byte is there, else `.`. */
  function Guessed(ws: bool, b: seq<byte>, i: nat): Sep
    requires i <= |b|
  {
    var j := SepPos(ws, b, i);
    if j < |b| && b[j] == ',' then Expect(",") else Expect(".")
  }

  /**
   * Guessing the separator: until the first separator is read, the guessing
   * state and the expecting states behave alike; at the first separator,
   * guessing becomes whichever of `.` and `,` is there, and any other byte
   * is a syntax error under every state.
   */
  lemma GuessAtComponent(v: Version, ws: bool, b: seq<byte>, i: nat, k: nat)
    requires k < 4 && i <= |b|
    ensures Components(v, Guess, ws, b, i, k) == Components(v, Guessed(ws, b, i), ws, b, i, k)
    ensures Components(v, Guess, ws, b, i, k) == Components(v, Expect("."), ws, b, i, k)
            || Components(v, Guess, ws, b, i, k) == Components(v, Expect(","), ws, b, i, k)
    ensures Components(v, Expect("."), ws, b, i, k).err.None?
            ==> Components(v, Guess, ws, b, i, k) == Components(v, Expect("."), ws, b, i, k)
    ensures Components(v, Expect(","), ws, b, i, k).err.None?
            ==> Components(v, Guess, ws, b, i, k) == Components(v, Expect(","), ws, b, i, k)
  {
    match ScanInt(b, i)
    case Halt(_, _) =>
    case Next(x, j) =>
      if k < 3 {
        var j1 := Skip(ws, b, j);
        ScanSepOutcome(Guess, ws, b, j, j1);
        ScanSepOutcome(Expect("."), ws, b, j, j1);
        ScanSepOutcome(Expect(","), ws, b, j, j1);
        if j1 < |b| && b[j1] == '.' {
          assert [b[j1]] == ".";
        } else if j1 < |b| && b[j1] == ',' {
          assert [b[j1]] == ",";
        }
      }
  }

  /**
   * `Any` parses exactly as `Comma` when the byte at its first separator is
   * `,`, and exactly as `Dot` otherwise; likewise `AnySpace` with `CommaSpace`
   * and `DotSpace`.  This fixes the outcome of every failure after the guess
   * too.  `g` is the format whose separator the guess settles on.
   */
  lemma AnyFollowsFirstSeparator(b: seq<byte>, f: Format, g: Format, i: nat)
    requires f == Any || f == AnySpace
    requires g != Any && g != AnySpace && AllowsSpace(g) == AllowsSpace(f)
    requires i == Skip(AllowsSpace(f), b, 0) && InitialSep(g) == Guessed(AllowsSpace(f), b, i)
    ensures Parsed(b, f) == Parsed(b, g)
  {
    if i < |b| {
      ParsedAt(b, f, i);
      ParsedAt(b, g, i);
      GuessAtComponent(Zero, AllowsSpace(f), b, i, 0);
    }
  }

  /** The same, for each of the two guessing formats and each byte the guess can settle on. */
  lemma AnyAsGuessed(b: seq<byte>)
    ensures Guessed(false, b, 0) == Expect(",") ==> Parsed(b, Any) == Parsed(b, Comma)
    ensures Guessed(false, b, 0) == Expect(".") ==> Parsed(b, Any) == Parsed(b, Dot)
    ensures Guessed(true, b, SpaceEnd(b, 0)) == Expect(",") ==> Parsed(b, AnySpace) == Parsed(b, CommaSpace)
    ensures Guessed(true, b, SpaceEnd(b, 0)) == Expect(".") ==> Parsed(b, AnySpace) == Parsed(b, DotSpace)
  {
    var i := SpaceEnd(b, 0);
    if Guessed(false, b, 0) == Expect(",") {
      AnyFollowsFirstSeparator(b, Any, Comma, 0);
    } else {
      AnyFollowsFirstSeparator(b, Any, Dot, 0);
    }
    if Guessed(true, b, i) == Expect(",") {
      AnyFollowsFirstSeparator(b, AnySpace, CommaSpace, i);
    } else {
      AnyFollowsFirstSeparator(b, AnySpace, DotSpace, i);
    }
  }

  /** Wherever a fixed-separator format succeeds, the guessing format with the same whitespace rule agrees with it. */
  lemma FixedSeparatorWins(b: seq<byte>, f: Format, g: Format, i: nat)
    requires f == Any || f == AnySpace
    requires g != Any && g != AnySpace && AllowsSpace(g) == AllowsSpace(f)
    requires i == Skip(AllowsSpace(f), b, 0)
    ensures Parsed(b, g).err.None? ==> Parsed(b, f) == Parsed(b, g)
  {
    if i < |b| {
      ParsedAt(b, f, i);
      ParsedAt(b, g, i);
      GuessAtComponent(Zero, AllowsSpace(f), b, i, 0);
    }
  }

  /**
   * `Any` parses as `Dot` or as `Comma`, whichever separator comes first, and
   * exactly as either one wherever that one succeeds; likewise `AnySpace`
   * with `DotSpace` and `CommaSpace`.
   */
  lemma AnyIsDotOrComma(b: seq<byte>)
    ensures Parsed(b, Any) == Parsed(b, Dot) || Parsed(b, Any) == Parsed(b, Comma)
    ensures Parsed(b, Dot).err.None? ==> Parsed(b, Any) == Parsed(b, Dot)
    ensures Parsed(b, Comma).err.None? ==> Parsed(b, Any) == Parsed(b, Comma)
    ensures Parsed(b, AnySpace) == Parsed(b, DotSpace) || Parsed(b, AnySpace) == Parsed(b, CommaSpace)
    ensures Parsed(b, DotSpace).err.None? ==> Parsed(b, AnySpace) == Parsed(b, DotSpace)
    ensures Parsed(b, CommaSpace).err.None? ==> Parsed(b, AnySpace) == Parsed(b, CommaSpace)
    ensures Parsed(b, Any) == Parsed(b, if Guessed(false, b, 0) == Expect(",") then Comma else Dot)
    ensures Parsed(b, AnySpace)
            == Parsed(b, if Guessed(true, b, SpaceEnd(b, 0)) == Expect(",") then CommaSpace else DotSpace)
  {
    AnyAsGuessed(b);
    var i := SpaceEnd(b, 0);
    FixedSeparatorWins(b, Any, Dot, 0);
    FixedSeparatorWins(b, Any, Comma, 0);
    FixedSeparatorWins(b, AnySpace, DotSpace, i);
    FixedSeparatorWins(b, AnySpace, CommaSpace, i);
  }

  /** Text written in the `Comma` format also parses under `Any`, which guesses the comma. */
  lemma CommaTextUnderAny(v: Version)
    ensures Parsed(v.Text(Comma), Any) == Result(v.Clamped(), |v.Text(Comma)|, None)
    ensures ParseString(v.Text(Comma), Any) == v.Clamped()
  {
    RoundTrip(v, Comma);
    AnyIsDotOrComma(v.Text(Comma));
  }
}
