/**
 * Byte-level helpers the version codec is built on: the ASCII whitespace and
 * digit classes, skipping whitespace or digits from a position of a byte
 * string, the value of a digit run and the canonical decimal rendering of a
 * natural number.  They stand in for the parts of Go's `bytes`, `unicode`
 * and `strconv` packages that the codec uses.
 *
 * Positions are offsets into one byte string: a Go slice that has been
 * resliced past its first `i` bytes is the pair (`b`, `i`).
 */
module Ascii {

  /** One byte of a Go string or byte slice; the code point is the byte value. */
  type byte = c: char | c as int < 256

  /** Whitespace as `unicode.IsSpace` sees a single ASCII byte. */
  predicate IsSpace(c: byte) {
    c == ' ' || c == '\t' || c == '\n' || c == '\U{000B}' || c == '\U{000C}' || c == '\r'
  }

  predicate IsDigit(c: byte) {
    '0' <= c <= '9'
  }

  function DigitValue(c: byte): (d: nat)
    requires IsDigit(c)
    ensures d < 10
  {
    c as int - '0' as int
  }

  function DigitChar(d: nat): (c: byte)
    requires d < 10
    ensures IsDigit(c) && DigitValue(c) == d
  {
    (d + '0' as int) as char
  }

  /** Bytes `i` to `j` of `b` are all whitespace. */
  predicate SpacesIn(b: seq<byte>, i: nat, j: nat) {
    i <= j <= |b| && forall k | i <= k < j :: IsSpace(b[k])
  }

  /** Bytes `i` to `j` of `b` are all decimal digits. */
  predicate DigitsIn(b: seq<byte>, i: nat, j: nat) {
    i <= j <= |b| && forall k | i <= k < j :: IsDigit(b[k])
  }

  /**
   * Where `bytes.TrimLeftFunc(b[i:], unicode.IsSpace)` starts: the first
   * position at or after `i` that does not hold whitespace.
   */
  function SpaceEnd(b: seq<byte>, i: nat): (j: nat)
    requires i <= |b|
    ensures SpacesIn(b, i, j)
    ensures j == |b| || !IsSpace(b[j])
    decreases |b| - i
  {
    if i < |b| && IsSpace(b[i]) then SpaceEnd(b, i + 1) else i
  }

  /** The end of the run of decimal digits that starts at position `i`. */
  function DigitEnd(b: seq<byte>, i: nat): (j: nat)
    requires i <= |b|
    ensures DigitsIn(b, i, j)
    ensures j == |b| || !IsDigit(b[j])
    decreases |b| - i
  {
    if i < |b| && IsDigit(b[i]) then DigitEnd(b, i + 1) else i
  }

  /** The base-10 value of the digits from `i` to `j`, most significant digit first. */
  function Value(b: seq<byte>, i: nat, j: nat): nat
    requires DigitsIn(b, i, j)
    decreases j
  {
    if j == i then 0 else 10 * Value(b, i, j - 1) + DigitValue(b[j - 1])
  }

  /** A whole digit string's value. */
  function DecimalValue(d: seq<byte>): nat
    requires DigitsIn(d, 0, |d|)
  {
    Value(d, 0, |d|)
  }

  /** A decimal rendering without superfluous leading zeros. */
  predicate Canonical(d: seq<byte>) {
    |d| > 0 && DigitsIn(d, 0, |d|) && (|d| > 1 ==> d[0] != '0')
  }

  /** The canonical decimal rendering of `n` (`strconv.AppendInt(nil, n, 10)` for n >= 0). */
  function Decimal(n: nat): (d: seq<byte>)
    ensures Canonical(d) && DecimalValue(d) == n
  {
    if n < 10 then
      var d := [DigitChar(n)];
      assert Value(d, 0, 0) == 0;
      d
    else
      var p := Decimal(n / 10);
      var d := p + [DigitChar(n % 10)];
      ValueOfCopy(d, 0, p, 0, |p|);
      d
  }

  // ---------------------------------------------------------------------------
  // Lemmas

  /** The value of a digit run depends only on its bytes, not on where it sits. */
  lemma {:induction false} ValueOfCopy(a: seq<byte>, p: nat, c: seq<byte>, q: nat, len: nat)
    requires DigitsIn(a, p, p + len) && q + len <= |c|
    requires forall k | q <= k < q + len :: c[k] == a[p + k - q]
    ensures DigitsIn(c, q, q + len) && Value(a, p, p + len) == Value(c, q, q + len)
  {
    if len > 0 {
      ValueOfCopy(a, p, c, q, len - 1);
      assert a[p + len - 1] == c[q + len - 1];
    }
  }

  /** A digit run that starts with a non-zero digit has a positive value. */
  lemma {:induction false} LeadingDigitPositive(b: seq<byte>, i: nat, j: nat)
    requires DigitsIn(b, i, j) && i < j && b[i] != '0'
    ensures Value(b, i, j) >= 1
  {
    if j > i + 1 {
      LeadingDigitPositive(b, i, j - 1);
    }
  }

  /** Rendering inverts evaluation on canonical digit strings: `Decimal` is a bijection onto them. */
  lemma {:induction false} DecimalOfCanonical(d: seq<byte>)
    requires Canonical(d)
    ensures Decimal(DecimalValue(d)) == d
  {
    if |d| == 1 {
      assert Decimal(DecimalValue(d)) == [d[0]];
    } else {
      var p := d[..|d| - 1];
      ValueOfCopy(d, 0, p, 0, |p|);
      LeadingDigitPositive(d, 0, |p|);
      DecimalOfCanonical(p);
      var n := DecimalValue(d);
      assert n / 10 == DecimalValue(p) && n % 10 == DigitValue(d[|d| - 1]);
      assert d == p + [d[|d| - 1]];
    }
  }

  /** The digit run at `i` is exactly as long as the digits there, followed by a non-digit or the end. */
  lemma {:induction false} DigitEndAt(b: seq<byte>, i: nat, j: nat)
    requires DigitsIn(b, i, j)
    requires j == |b| || !IsDigit(b[j])
    ensures DigitEnd(b, i) == j
    decreases j - i
  {
    if i < j {
      DigitEndAt(b, i + 1, j);
    }
  }

  /** Whitespace skipping stops exactly at the first non-space after a run of spaces. */
  lemma {:induction false} SpaceEndAt(b: seq<byte>, i: nat, j: nat)
    requires SpacesIn(b, i, j)
    requires j == |b| || !IsSpace(b[j])
    ensures SpaceEnd(b, i) == j
    decreases j - i
  {
    if i < j {
      SpaceEndAt(b, i + 1, j);
    }
  }
}
