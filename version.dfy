/**
 * The Roblox version codec: a version is four integer components; it is
 * parsed from bytes under one of six formats (which separator, whether
 * whitespace is allowed) and rendered back to text under the same formats.
 *
 * Parsing is given twice: as specification functions that thread the
 * position reached in the input through each step (`ScanInt`, `ScanSep`,
 * `Components`, `Parsed`), and as methods that mirror the source step by step
 * (`ParseInt`, `ParseSep`, `Parse`), each proved to compute exactly what its
 * specification function gives.  Where the source reslices its input
 * (`*b = (*b)[i:]`), the model advances an offset into the original bytes.
 */
module Rbxver {
  import opened Ascii

  /** The largest Go `int`, for a 64-bit `strconv.IntSize`. */
  const MaxInt: int := 0x7FFF_FFFF_FFFF_FFFF

  /** Go's `int` on a 64-bit platform. */
  type int64 = x: int | -0x8000_0000_0000_0000 <= x <= 0x7FFF_FFFF_FFFF_FFFF

  datatype Option<T> = None | Some(value: T)

  /** How a version is parsed and formatted. */
  datatype Format = Any | Dot | Comma | AnySpace | DotSpace | CommaSpace

  /** The formats that allow whitespace around separators and at both ends. */
  predicate AllowsSpace(f: Format) {
    f.AnySpace? || f.DotSpace? || f.CommaSpace?
  }

  /** The separator `Format` writes between two components. */
  function Separator(f: Format): seq<byte> {
    match f
    case Any | Dot | AnySpace | DotSpace => "."
    case Comma => ","
    case CommaSpace => ", "
  }

  /** A component as `formatInt` writes it: `0` for anything not positive. */
  function FormatInt(i: int): (r: seq<byte>)
    ensures Canonical(r)
    ensures DecimalValue(r) == if i <= 0 then 0 else i
  {
    if i <= 0 then
      assert Value("0", 0, 0) == 0;
      "0"
    else
      Decimal(i)
  }

  /** What `formatInt` makes of a component's value once it is read back. */
  function Clamp(x: int64): int64 {
    if x <= 0 then 0 else x
  }

  /** The version of a Roblox build; versions compare by value. */
  datatype Version = Version(major: int64, minor: int64, patch: int64, maint: int64) {

    /** Component `k`, counting from 0 (major) to 3 (maint). */
    function Field(k: nat): int64
      requires k < 4
    {
      match k
      case 0 => major
      case 1 => minor
      case 2 => patch
      case _ => maint
    }

    /** This version with component `k` set to `x`. */
    function With(k: nat, x: int64): (u: Version)
      requires k < 4
      ensures u.Field(k) == x
      ensures forall j | 0 <= j < 4 && j != k :: u.Field(j) == Field(j)
    {
      match k
      case 0 => this.(major := x)
      case 1 => this.(minor := x)
      case 2 => this.(patch := x)
      case _ => this.(maint := x)
    }

    /** This version with every negative component replaced by 0. */
    function Clamped(): Version {
      Version(Clamp(major), Clamp(minor), Clamp(patch), Clamp(maint))
    }

    /** The text `Format(f)` produces. */
    function Text(f: Format): seq<byte> {
      var sep := Separator(f);
      FormatInt(major) + sep + FormatInt(minor) + sep + FormatInt(patch) + sep + FormatInt(maint)
    }

    /** Writes the four components into a builder, separated according to `f`. */
    method Format(f: Format) returns (s: seq<byte>)
      ensures s == Text(f)
    {
      var sep := Separator(f);
      var a, b, c, d := FormatInt(major), FormatInt(minor), FormatInt(patch), FormatInt(maint);
      var buf: seq<byte> := [];
      buf := buf + a;
      assert buf == a;
      buf := buf + sep;
      buf := buf + b;
      buf := buf + sep;
      buf := buf + c;
      buf := buf + sep;
      buf := buf + d;
      s := buf;
    }

    /** The default rendering, `Format(Any)`, which separates with dots. */
    function String(): (s: seq<byte>)
      ensures s == Text(Dot) && s == Text(DotSpace)
    {
      Text(Any)
    }

    /** The comparison as the source writes it: true as soon as ANY component is smaller. */
    function Less(u: Version): (r: bool)
      ensures r <==> exists k | 0 <= k < 4 :: Field(k) < u.Field(k)
    {
      if major < u.major then assert Field(0) < u.Field(0); true
      else if minor < u.minor then assert Field(1) < u.Field(1); true
      else if patch < u.patch then assert Field(2) < u.Field(2); true
      else if maint < u.maint then assert Field(3) < u.Field(3); true
      else false
    }

    /** Lexicographic comparison: the first component in which the two differ decides. */
    function LexLess(u: Version): (r: bool)
      ensures r <==> exists k | 0 <= k < 4 ::
                       Field(k) < u.Field(k) && forall j | 0 <= j < k :: Field(j) == u.Field(j)
    {
      if major != u.major then
        assert Field(0) != u.Field(0);
        major < u.major
      else if minor != u.minor then
        assert Field(0) == u.Field(0) && Field(1) != u.Field(1);
        minor < u.minor
      else if patch != u.patch then
        assert Field(0) == u.Field(0) && Field(1) == u.Field(1) && Field(2) != u.Field(2);
        patch < u.patch
      else
        assert forall j | 0 <= j < 3 :: Field(j) == u.Field(j);
        assert Field(3) == maint && u.Field(3) == u.maint;
        maint < u.maint
    }
  }

  /** The zero version, returned by `ParseString` on any failure. */
  const Zero := Version(0, 0, 0, 0)

  // ---------------------------------------------------------------------------
  // Parsing: specification

  /** The two ways parsing fails: `io.ErrUnexpectedEOF` and `ErrSyntax`. */
  datatype Error = ErrUnexpectedEOF | ErrSyntax

  /**
   * The separator state: `Guess` while nothing has been seen (Go's nil slice),
   * `Expect(lit)` once the separator bytes are known.
   */
  datatype Sep = Guess | Expect(lit: seq<byte>)

  /** Every separator the source can hold is at least one byte long. */
  predicate ValidSep(sep: Sep) {
    sep.Expect? ==> |sep.lit| > 0
  }

  /** The separator state `Parse` starts from. */
  function InitialSep(f: Format): (sep: Sep)
    ensures ValidSep(sep)
  {
    match f
    case Any | AnySpace => Guess
    case Dot | DotSpace => Expect(".")
    case Comma | CommaSpace => Expect(",")
  }

  /** Where the input continues: past leading whitespace when `ws` holds. */
  function Skip(ws: bool, b: seq<byte>, i: nat): (j: nat)
    requires i <= |b|
    ensures i <= j <= |b|
  {
    if ws then SpaceEnd(b, i) else i
  }

  /** One step of a parse: a value and the position after it, or an error and the position reached. */
  datatype Step<T> = Next(value: T, end: nat) | Halt(end: nat, err: Error)

  /**
   * `parseInt` at position `i`: the maximal digit run there, read in base 10.
   * An empty run, or one whose value exceeds MaxInt, is a syntax error and
   * consumes nothing.
   */
  function ScanInt(b: seq<byte>, i: nat): (r: Step<int64>)
    requires i <= |b|
    ensures i <= r.end <= |b|
  {
    var j := DigitEnd(b, i);
    if j == i || Value(b, i, j) > MaxInt then Halt(i, ErrSyntax)
    else Next(Value(b, i, j) as int64, j)
  }

  /**
   * `parseSep` at position `i`: optional whitespace, the separator, optional
   * whitespace.  Under `Guess` the first byte must be `.` or `,` and becomes
   * the expected separator; under `Expect(lit)` the bytes must be `lit`.  On
   * an error the whitespace already skipped stays consumed.
   */
  function ScanSep(sep: Sep, ws: bool, b: seq<byte>, i: nat): (r: Step<Sep>)
    requires ValidSep(sep) && i <= |b|
    ensures i <= r.end <= |b|
    ensures r.Next? ==> i < r.end && r.value.Expect? && |r.value.lit| > 0
    ensures r.Next? && sep.Expect? ==> r.value == sep
    ensures r.Halt? && !ws ==> r.end == i
  {
    var j := Skip(ws, b, i);
    if j == |b| then
      Halt(j, ErrUnexpectedEOF)
    else
      match sep
      case Guess =>
        if b[j] == '.' || b[j] == ',' then Next(Expect(b[j..j + 1]), Skip(ws, b, j + 1))
        else Halt(j, ErrSyntax)
      case Expect(lit) =>
        if |b| - j < |lit| then Halt(j, ErrUnexpectedEOF)
        else if b[j..j + |lit|] != lit then Halt(j, ErrSyntax)
        else Next(sep, Skip(ws, b, j + |lit|))
  }

  /** Where a parse stopped: the version so far, the position reached, and the error if any. */
  datatype Stop = Stop(v: Version, end: nat, err: Option<Error>)

  /**
   * Components `k` to 3 of a version under construction, read from position
   * `i`, each but the last followed by a separator; after the last one,
   * optional whitespace.
   */
  function Components(v: Version, sep: Sep, ws: bool, b: seq<byte>, i: nat, k: nat): (s: Stop)
    requires k < 4 && ValidSep(sep) && i <= |b|
    ensures i <= s.end <= |b|
    decreases 4 - k
  {
    match ScanInt(b, i)
    case Halt(_, _) => Stop(v, i, Some(ErrSyntax))
    case Next(x, j) =>
      var v1 := v.With(k, x);
      if k == 3 then
        Stop(v1, Skip(ws, b, j), None)
      else
        match ScanSep(sep, ws, b, j)
        case Halt(j2, e) => Stop(v1, j2, Some(e))
        case Next(sep2, j2) => Components(v1, sep2, ws, b, j2, k + 1)
  }

  // How one step of `Components` unfolds, by the outcome of that step.

  /** A component that cannot be read stops the parse with a syntax error at its start. */
  lemma ComponentRejected(w: Version, sep: Sep, ws: bool, b: seq<byte>, i: nat, k: nat)
    requires k < 4 && ValidSep(sep) && i <= |b| && ScanInt(b, i).Halt?
    ensures Components(w, sep, ws, b, i, k) == Stop(w, i, Some(ErrSyntax))
  {
  }

  /** A separator that cannot be read stops the parse where `parseSep` stopped, keeping the component. */
  lemma SeparatorHalted(w: Version, sep: Sep, ws: bool, b: seq<byte>, i: nat, k: nat, x: int64, j: nat,
                        j2: nat, e: Error)
    requires k < 3 && ValidSep(sep) && i <= |b| && ScanInt(b, i) == Next(x, j)
    requires ScanSep(sep, ws, b, j) == Halt(j2, e)
    ensures Components(w, sep, ws, b, i, k) == Stop(w.With(k, x), j2, Some(e))
  {
  }

  /** A component and its separator read, the parse goes on at the next component. */
  lemma ComponentThenNext(w: Version, sep: Sep, ws: bool, b: seq<byte>, i: nat, k: nat, x: int64, j: nat,
                          sep2: Sep, j2: nat)
    requires k < 3 && ValidSep(sep) && i <= |b| && ScanInt(b, i) == Next(x, j)
    requires ScanSep(sep, ws, b, j) == Next(sep2, j2)
    ensures ValidSep(sep2) && j2 <= |b|
    ensures Components(w, sep, ws, b, i, k) == Components(w.With(k, x), sep2, ws, b, j2, k + 1)
  {
  }

  /** The fourth component read, the parse succeeds after the whitespace the format allows. */
  lemma LastComponent(w: Version, sep: Sep, ws: bool, b: seq<byte>, i: nat, x: int64, j: nat)
    requires ValidSep(sep) && i <= |b| && ScanInt(b, i) == Next(x, j)
    ensures j <= |b|
    ensures Components(w, sep, ws, b, i, 3) == Stop(w.With(3, x), Skip(ws, b, j), None)
  {
  }

  /** The outcome of `Parse`: the version, the number of bytes consumed, the error if any. */
  datatype Result = Result(v: Version, n: nat, err: Option<Error>)

  /** The result `Parse` reports for a stop. */
  function Report(s: Stop): Result {
    Result(s.v, s.end, s.err)
  }

  /** What `Parse(b, f)` returns; the count never exceeds the input. */
  function Parsed(b: seq<byte>, f: Format): (r: Result)
    ensures r.n <= |b|
  {
    var ws := AllowsSpace(f);
    var i := Skip(ws, b, 0);
    var s := if i == |b| then Stop(Zero, i, Some(ErrUnexpectedEOF))
             else Components(Zero, InitialSep(f), ws, b, i, 0);
    Report(s)
  }

  /** `ParseString`: the parsed version if all of `s` was consumed without error, else the zero version. */
  function ParseString(s: seq<byte>, f: Format): (v: Version)
    ensures v == Zero || (Parsed(s, f).err.None? && Parsed(s, f).n == |s| && Parsed(s, f).v == v)
    ensures Parsed(s, f).err.None? && Parsed(s, f).n == |s| ==> v == Parsed(s, f).v
  {
    var r := Parsed(s, f);
    if r.err.None? && r.n == |s| then r.v else Zero
  }

  // ---------------------------------------------------------------------------
  // Parsing: the source's step-by-step methods

  /** `parseInt`: scans the digit run, then converts it; on failure nothing is consumed. */
  method ParseInt(b: seq<byte>, i: nat) returns (ok: bool, comp: int64, j: nat)
    requires i <= |b|
    ensures ScanInt(b, i) == if ok then Next(comp, j) else Halt(j, ErrSyntax)
  {
    var e := i;
    while e < |b| && IsDigit(b[e])
      invariant DigitsIn(b, i, e)
    {
      e := e + 1;
    }
    DigitEndAt(b, i, e);
    // The base-10 conversion `strconv.ParseInt` performs, with its range check.
    var x := 0;
    var k := i;
    while k < e
      invariant i <= k <= e
      invariant x == Value(b, i, k)
    {
      x := 10 * x + DigitValue(b[k]);
      k := k + 1;
    }
    if e == i || x > MaxInt {
      return false, 0, i;
    }
    return true, x, e;
  }

  /** `parseSep`: reads one separator, guessing it under `Guess`, with whitespace around it when `ws`. */
  method ParseSep(sep: Sep, ws: bool, b: seq<byte>, i: nat) returns (err: Option<Error>, sep': Sep, j: nat)
    requires ValidSep(sep) && i <= |b|
    ensures ScanSep(sep, ws, b, i) == if err.None? then Next(sep', j) else Halt(j, err.value)
  {
    sep', j := sep, i;
    if ws {
      j := SpaceEnd(b, j);
    }
    if j == |b| {
      return Some(ErrUnexpectedEOF), sep', j;
    }
    if sep'.Guess? {
      if b[j] == '.' || b[j] == ',' {
        sep' := Expect(b[j..j + 1]);
      } else {
        return Some(ErrSyntax), sep', j;
      }
    } else {
      if |b| - j < |sep'.lit| {
        return Some(ErrUnexpectedEOF), sep', j;
      }
      if b[j..j + |sep'.lit|] != sep'.lit {
        return Some(ErrSyntax), sep', j;
      }
    }
    j := j + |sep'.lit|;
    if ws {
      j := SpaceEnd(b, j);
    }
    return None, sep', j;
  }

  /**
   * One of the three `parseInt`, `parseSep` pairs of `Parse`: component `k`
   * is read into the version, then the separator after it.  `goal` is the
   * outcome the whole parse reaches from here: this step either stops with
   * it or leaves the same outcome to the steps after it.
   */
  method ParseStep(v: Version, sep: Sep, ws: bool, b: seq<byte>, i: nat, k: nat, ghost goal: Stop)
    returns (v': Version, sep': Sep, j: nat, err: Option<Error>)
    requires k < 3 && ValidSep(sep) && i <= |b| && goal == Components(v, sep, ws, b, i, k)
    ensures ValidSep(sep') && j <= |b|
    ensures err.Some? ==> goal == Stop(v', j, err)
    ensures err.None? ==> goal == Components(v', sep', ws, b, j, k + 1)
  {
    var ok, x, q := ParseInt(b, i);
    if !ok {
      ComponentRejected(v, sep, ws, b, i, k);
      return v, sep, q, Some(ErrSyntax);
    }
    v' := v.With(k, x);
    err, sep', j := ParseSep(sep, ws, b, q);
    if err.Some? {
      SeparatorHalted(v, sep, ws, b, i, k, x, q, j, err.value);
      sep' := sep;
    } else {
      ComponentThenNext(v, sep, ws, b, i, k, x, q, sep', j);
    }
  }

  /** The last `parseInt` of `Parse`, then the trailing whitespace the format allows. */
  method ParseLast(v: Version, sep: Sep, ws: bool, b: seq<byte>, i: nat, ghost goal: Stop)
    returns (v': Version, j: nat, err: Option<Error>)
    requires ValidSep(sep) && i <= |b| && goal == Components(v, sep, ws, b, i, 3)
    ensures goal == Stop(v', j, err)
  {
    var ok, x;
    ok, x, j := ParseInt(b, i);
    if !ok {
      ComponentRejected(v, sep, ws, b, i, 3);
      return v, j, Some(ErrSyntax);
    }
    LastComponent(v, sep, ws, b, i, x, j);
    v' := v.(maint := x);
    if ws {
      j := SpaceEnd(b, j);
    }
    err := None;
  }

  /**
   * `Parse`: the grammar INT SEP INT SEP INT SEP INT, filling the version field
   * by field; `n` counts the bytes consumed, on failure as well as on success.
   */
  method Parse(b: seq<byte>, f: Format) returns (v: Version, n: nat, err: Option<Error>)
    ensures Result(v, n, err) == Parsed(b, f)
  {
    var sep, ws := InitialSep(f), AllowsSpace(f);
    v := Zero;
    var i := 0;
    if ws {
      i := SpaceEnd(b, i);
    }
    if i == |b| {
      assert Parsed(b, f) == Result(v, i, Some(ErrUnexpectedEOF));
      return v, i, Some(ErrUnexpectedEOF);
    }
    assert Parsed(b, f) == Report(Components(v, sep, ws, b, i, 0));
    v, n, err := ParseComponents(sep, ws, b, i);
  }

  /**
   * The components of `Parse` from the first one: major, its separator,
   * minor, its separator, then the rest by `ParseTail`.
   */
  method ParseComponents(sep: Sep, ws: bool, b: seq<byte>, i: nat) returns (v: Version, n: nat, err: Option<Error>)
    requires ValidSep(sep) && i <= |b|
    ensures Report(Components(Zero, sep, ws, b, i, 0)) == Result(v, n, err)
  {
    v := Zero;
    // The outcome the specification gives, handed from step to step.
    ghost var goal := Components(v, sep, ws, b, i, 0);
    var j: nat, s := i, sep;
    var e;
    v, s, j, e := ParseStep(v, s, ws, b, j, 0, goal);
    if e.Some? {
      return v, j, e;
    }
    v, s, j, e := ParseStep(v, s, ws, b, j, 1, goal);
    if e.Some? {
      return v, j, e;
    }
    v, n, err := ParseTail(v, s, ws, b, j, goal);
  }

  /** The patch component, its separator, then the maint component and the trailing trim. */
  method ParseTail(v: Version, sep: Sep, ws: bool, b: seq<byte>, i: nat, ghost goal: Stop)
    returns (v': Version, j: nat, err: Option<Error>)
    requires ValidSep(sep) && i <= |b| && goal == Components(v, sep, ws, b, i, 2)
    ensures goal == Stop(v', j, err)
  {
    var s;
    v', s, j, err := ParseStep(v, sep, ws, b, i, 2, goal);
    if err.Some? {
      return;
    }
    v', j, err := ParseLast(v', s, ws, b, j, goal);
  }
}
