/** Decimal strings: internal/proto/dec.go and `itoa` of internal/hub/middleware.go. */
module Decimal {
  import opened Bytes

  const MAX_UINT64: nat := 0xFFFF_FFFF_FFFF_FFFF
  const MAX_INT64: int := 0x7FFF_FFFF_FFFF_FFFF

  /** An unsigned 64-bit value that crosses the wire as a decimal string. */
  type Dec = n: nat | n <= MAX_UINT64

  datatype DecError = NotCanonical | OutOfRange | NotPositive

  predicate IsDigit(b: byte) { 48 <= b <= 57 }

  predicate AllDigits(s: bytes) { forall i :: 0 <= i < |s| ==> IsDigit(s[i]) }

  predicate IsCanonicalDecimal(s: bytes) {
    && s != []
    && (s == [48] || (s[0] != 48 && AllDigits(s)))
  }

  /** The number a digit string denotes, of any length. */
  function Value(s: bytes): nat
    requires AllDigits(s)
  {
    if s == [] then 0 else 10 * Value(s[..|s| - 1]) + (s[|s| - 1] - 48)
  }

  /** `strconv.ParseUint` on a canonical string fails only when the value needs more than 64 bits. */
  function ParseDec(s: bytes): Result<Dec, DecError> {
    if !IsCanonicalDecimal(s) then Err(NotCanonical)
    else if Value(s) > MAX_UINT64 then Err(OutOfRange)
    else Ok(Value(s))
  }

  function ParseDecPositive(s: bytes): Result<Dec, DecError> {
    match ParseDec(s)
    case Err(e) => Err(e)
    case Ok(0) => Err(NotPositive)
    case Ok(d) => Ok(d)
  }

  /** `Dec.String`: base 10, most significant digit first. */
  function Print(n: nat): (s: bytes)
    ensures s != [] && AllDigits(s)
  {
    if n < 10 then [48 + n] else Print(n / 10) + [48 + n % 10]
  }

  /** `Dec.Int64`: a value SQLite cannot store is an error, not a negative number. */
  function Int64(d: Dec): Option<int> {
    if d > MAX_INT64 then None else Some(d)
  }

  lemma {:induction false} PrintIsCanonical(n: nat)
    ensures IsCanonicalDecimal(Print(n))
    ensures Value(Print(n)) == n
    ensures n > 0 ==> Print(n)[0] != 48
  {
    if n < 10 {
      assert Print(n)[..0] == [];
    } else {
      PrintIsCanonical(n / 10);
      assert Print(n)[..|Print(n)| - 1] == Print(n / 10);
    }
  }

  lemma {:induction false} PrintOfValue(s: bytes)
    requires IsCanonicalDecimal(s)
    ensures Print(Value(s)) == s
    ensures Value(s) == 0 <==> s == [48]
  {
    var init := s[..|s| - 1];
    assert s == init + [s[|s| - 1]];
    if |s| == 1 {
      assert Value(init) == 0;
    } else {
      PrintOfValue(init);
      assert Value(s) / 10 == Value(init) && Value(s) % 10 == s[|s| - 1] - 48;
    }
  }

  /**
   * Parsing and printing are inverse to each other: exactly one string is accepted for each of the
   * 2^64 values, so uniqueness of the text is uniqueness of the number.
   */
  lemma ParsePrintInverse(s: bytes, d: Dec)
    ensures ParseDec(s) == Ok(d) <==> s == Print(d)
    ensures ParseDecPositive(s) == Ok(d) <==> s == Print(d) && d > 0
  {
    PrintIsCanonical(d);
    if ParseDec(s) == Ok(d) {
      PrintOfValue(s);
    }
  }

  /** The same, for every value at once: a string is refused when it is the printing of no value. */
  lemma ParsesExactlyPrinted(s: bytes)
    ensures ParseDec(s).Ok? ==> s == Print(ParseDec(s).value)
    ensures ParseDec(s).Err? ==> forall d: Dec :: s != Print(d)
    ensures ParseDecPositive(s).Ok? ==> ParseDecPositive(s).value > 0 && s == Print(ParseDecPositive(s).value)
    ensures ParseDecPositive(s).Err? ==> forall d: Dec :: d > 0 ==> s != Print(d)
  {
    forall d: Dec { ParsePrintInverse(s, d); }
  }

  /** The printing of a number is parsed up to 2^64 - 1 and out of range above; 0 is not positive. */
  lemma ParsesSixtyFourBits(n: nat)
    ensures ParseDec(Print(n)) == if n <= 18_446_744_073_709_551_615 then Ok(n) else Err(OutOfRange)
    ensures ParseDecPositive([48]) == Err(NotPositive)
  {
    PrintIsCanonical(n);
    assert Value([48]) == 10 * Value([48][..0]) && [48][..0] == [];
  }

  lemma PrintInjective(m: nat, n: nat)
    requires Print(m) == Print(n)
    ensures m == n
  {
    PrintIsCanonical(m);
    PrintIsCanonical(n);
  }

  function Pow10(k: nat): nat {
    if k == 0 then 1 else 10 * Pow10(k - 1)
  }

  lemma {:induction false} PrintLength(n: nat, k: nat)
    requires k > 0 && n < Pow10(k)
    ensures |Print(n)| <= k
  {
    if n >= 10 {
      assert Pow10(1) == 10;
      PrintLength(n / 10, k - 1);
    }
  }

  lemma Pow10Facts()
    ensures Pow10(19) == 10_000_000_000_000_000_000
    ensures Pow10(20) == 100_000_000_000_000_000_000
  {
    assert Pow10(4) == 10_000;
    assert Pow10(8) == 100_000_000;
    assert Pow10(12) == 1_000_000_000_000;
    assert Pow10(16) == 10_000_000_000_000_000;
  }

  /** Every stored sequence or timestamp prints in at most 19 bytes, every Dec in at most 20. */
  lemma DecLength(d: Dec)
    ensures |Print(d)| <= 20
    ensures d <= MAX_INT64 ==> |Print(d)| <= 19
  {
    Pow10Facts();
    PrintLength(d, 20);
    if d <= MAX_INT64 { PrintLength(d, 19); }
  }

  /** The key `Push` caches by: the entity id, a NUL byte, the printed revision. */
  function Key(id: bytes, rev: Dec): bytes {
    id + [0] + Print(rev)
  }

  /** The NUL that ends the id is the last one, so the split point can be found again. */
  lemma KeyLastNul(id: bytes, rev: Dec)
    ensures Key(id, rev)[|id|] == 0
    ensures forall j :: |id| < j < |Key(id, rev)| ==> Key(id, rev)[j] != 0
  {
    forall j | |id| < j < |Key(id, rev)| ensures Key(id, rev)[j] != 0 {
      assert Key(id, rev)[j] == Print(rev)[j - |id| - 1];
    }
  }

  /** No two (id, rev) pairs share a key, whatever bytes an id holds, NUL bytes included. */
  lemma KeyInjective(id: bytes, rev: Dec, id': bytes, rev': Dec)
    requires Key(id, rev) == Key(id', rev')
    ensures id == id' && rev == rev'
  {
    var k, k' := Key(id, rev), Key(id', rev');
    KeyLastNul(id, rev);
    KeyLastNul(id', rev');
    assert id == k[..|id|] && id' == k'[..|id'|];
    assert Print(rev) == k[|id| + 1..] && Print(rev') == k'[|id'| + 1..];
    PrintInjective(rev, rev');
  }

  /**
   * `itoa` fills a fixed 20-byte buffer from its end. It never runs out of buffer, and prints the
   * same digits as Dec.String; a negative argument gives the empty string.
   */
  method Itoa(n: int) returns (s: bytes)
    requires 0 - MAX_INT64 - 1 <= n <= MAX_INT64
    ensures n >= 0 ==> s == Print(n)
    ensures n < 0 ==> s == []
  {
    if n == 0 {
      return [48];
    }
    var buf := new byte[20](_ => 0);
    var i, m := 20, n;
    if n > 0 { DecLength(n); }
    while m > 0
      invariant 0 <= i <= 20
      invariant m <= n
      invariant m > 0 ==> Print(n) == Print(m) + buf[i..]
      invariant n > 0 && m <= 0 ==> Print(n) == buf[i..]
      invariant n < 0 ==> i == 20 && m == n
      decreases m
    {
      assert |Print(n)| == |Print(m)| + (20 - i);
      ghost var suffix := buf[i..];
      i := i - 1;
      buf[i] := 48 + m % 10;
      assert buf[i..] == [48 + m % 10] + suffix;
      m := m / 10;
    }
    return buf[i..];
  }
}
