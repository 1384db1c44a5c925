/**
 * UTF-8 and UTF-16, as Go's `utf8.DecodeRune`, `utf8.AppendRune` and `utf16.DecodeRune` do them
 * (sections 3 and 4 of RFC 3629, section 2.2 of RFC 2781).
 */
module Unicode {
  import opened Bytes

  type unit = u: int | 0 <= u < 0x1_0000
  type rune = r: int | 0 <= r <= 0x10_FFFF && !(0xD800 <= r < 0xE000)

  const REPLACEMENT: rune := 0xFFFD

  predicate High(u: int) { 0xD800 <= u < 0xDC00 }
  predicate Low(u: int) { 0xDC00 <= u < 0xE000 }
  predicate Surrogate(u: int) { 0xD800 <= u < 0xE000 }

  function Combine(hi: unit, lo: unit): (r: rune)
    requires High(hi) && Low(lo)
    ensures r >= 0x1_0000
  {
    (hi - 0xD800) * 0x400 + (lo - 0xDC00) + 0x1_0000
  }

  /** The UTF-16 code units of one scalar value. */
  function Split(r: rune): (us: seq<unit>)
    ensures 1 <= |us| <= 2
    ensures !Low(us[0])
    ensures |us| == 2 ==> High(us[0]) && Low(us[1]) && Combine(us[0], us[1]) == r
    ensures |us| == 1 ==> us[0] == r && !Surrogate(r)
  {
    if r < 0x1_0000 then [r]
    else [0xD800 + (r - 0x1_0000) / 0x400, 0xDC00 + (r - 0x1_0000) % 0x400]
  }

  lemma SplitOfCombine(hi: unit, lo: unit)
    requires High(hi) && Low(lo)
    ensures Split(Combine(hi, lo)) == [hi, lo]
  {
    var h, l := hi - 0xD800, lo - 0xDC00;
    assert 0 <= l < 0x400 && Combine(hi, lo) - 0x1_0000 == h * 0x400 + l;
  }

  /** Surrogates are paired from left to right; every unpaired one becomes U+FFFD. */
  function Pair(us: seq<unit>): seq<rune> {
    if us == [] then []
    else if |us| >= 2 && High(us[0]) && Low(us[1]) then [Combine(us[0], us[1])] + Pair(us[2..])
    else if Surrogate(us[0]) then [REPLACEMENT] + Pair(us[1..])
    else [us[0]] + Pair(us[1..])
  }

  /** The UTF-8 encoding of one scalar value. */
  function Encode(r: rune): (b: bytes)
    ensures 1 <= |b| <= 4
    ensures r < 0x80 ==> b == [r]
    ensures r >= 0x80 ==> forall i :: 0 <= i < |b| ==> b[i] >= 0x80
    ensures |b| == 4 <==> r >= 0x1_0000
  {
    if r < 0x80 then [r]
    else if r < 0x800 then [0xC0 + r / 0x40, 0x80 + r % 0x40]
    else if r < 0x1_0000 then [0xE0 + r / 0x1000, 0x80 + r / 0x40 % 0x40, 0x80 + r % 0x40]
    else [0xF0 + r / 0x4_0000, 0x80 + r / 0x1000 % 0x40, 0x80 + r / 0x40 % 0x40, 0x80 + r % 0x40]
  }

  function EncodeAll(rs: seq<rune>): bytes {
    if rs == [] then [] else Encode(rs[0]) + EncodeAll(rs[1..])
  }

  /** The six payload bits of a continuation byte. */
  function Tail(b: int): int { b - 0x80 }

  predicate Continuation(b: byte) { 0x80 <= b <= 0xBF }

  /** The range of a legal second byte after lead byte `b0` (Table 3-7 of the Unicode standard). */
  predicate SecondByte(b0: int, b1: int) {
    && (if b0 == 0xE0 then 0xA0 <= b1 else if b0 == 0xF0 then 0x90 <= b1 else 0x80 <= b1)
    && (if b0 == 0xED then b1 <= 0x9F else if b0 == 0xF4 then b1 <= 0x8F else b1 <= 0xBF)
  }

  /** `utf8.DecodeRune`: U+FFFD with width 1 stands for an invalid byte. */
  function DecodeRune(s: bytes): (d: (rune, nat))
    requires s != []
    ensures 1 <= d.1 <= |s|
  {
    var b0: int := s[0];
    if b0 < 0x80 then (b0, 1)
    else if 0xC2 <= b0 <= 0xDF && |s| >= 2 && Continuation(s[1]) then
      ((b0 - 0xC0) * 0x40 + Tail(s[1]), 2)
    else if 0xE0 <= b0 <= 0xEF && |s| >= 3 && SecondByte(b0, s[1]) && Continuation(s[2]) then
      ((b0 - 0xE0) * 0x1000 + Tail(s[1]) * 0x40 + Tail(s[2]), 3)
    else if 0xF0 <= b0 <= 0xF4 && |s| >= 4 && SecondByte(b0, s[1]) && Continuation(s[2]) && Continuation(s[3]) then
      ((b0 - 0xF0) * 0x4_0000 + Tail(s[1]) * 0x1000 + Tail(s[2]) * 0x40 + Tail(s[3]), 4)
    else (REPLACEMENT, 1)
  }

  predicate Invalid(s: bytes)
    requires s != []
  {
    s[0] >= 0x80 && DecodeRune(s).1 == 1
  }

  lemma LastGroup(q: nat, d: nat, r: nat)
    requires d < 0x40 && r == q * 0x40 + d
    ensures r / 0x40 == q && r % 0x40 == d
  {
  }

  lemma DropGroups(r: nat)
    ensures r / 0x1000 == r / 0x40 / 0x40 && r / 0x4_0000 == r / 0x1000 / 0x40
  {
  }

  /** Six-bit groups can be taken out of a number again. */
  lemma Groups(a: nat, b: nat, c: nat, d: nat, r: nat)
    requires b < 0x40 && c < 0x40 && d < 0x40 && r == a * 0x4_0000 + b * 0x1000 + c * 0x40 + d
    ensures r % 0x40 == d && r / 0x40 % 0x40 == c && r / 0x1000 % 0x40 == b && r / 0x4_0000 == a
    ensures r / 0x1000 == a * 0x40 + b && r / 0x40 == a * 0x1000 + b * 0x40 + c
  {
    LastGroup(a * 0x1000 + b * 0x40 + c, d, r);
    LastGroup(a * 0x40 + b, c, a * 0x1000 + b * 0x40 + c);
    LastGroup(a, b, a * 0x40 + b);
    DropGroups(r);
  }

  // The bytes of a sequence of each length, from the groups they carry.

  lemma EncodeTwo(a: nat, b: nat, r: rune)
    requires 2 <= a < 0x20 && b < 0x40 && r == a * 0x40 + b
    ensures Encode(r) == [0xC0 + a, 0x80 + b]
  {
    Groups(0, 0, a, b, r);
  }

  lemma EncodeThree(a: nat, b: nat, c: nat, r: rune)
    requires a < 0x10 && b < 0x40 && c < 0x40 && r == a * 0x1000 + b * 0x40 + c && r >= 0x800
    ensures Encode(r) == [0xE0 + a, 0x80 + b, 0x80 + c]
  {
    Groups(0, a, b, c, r);
  }

  lemma EncodeFour(a: nat, b: nat, c: nat, d: nat, r: rune)
    requires a < 5 && b < 0x40 && c < 0x40 && d < 0x40
    requires r == a * 0x4_0000 + b * 0x1000 + c * 0x40 + d && r >= 0x1_0000
    ensures Encode(r) == [0xF0 + a, 0x80 + b, 0x80 + c, 0x80 + d]
  {
    Groups(a, b, c, d, r);
  }

  /** A valid sequence is the only encoding of the value it decodes to. */
  lemma EncodeOfDecode(s: bytes)
    requires s != [] && !Invalid(s)
    ensures Encode(DecodeRune(s).0) == s[..DecodeRune(s).1]
    ensures s[0] >= 0x80 ==> DecodeRune(s).0 >= 0x80
  {
    var (r, size) := DecodeRune(s);
    var b0: int := s[0];
    if size == 1 {
    } else if size == 2 {
      EncodeTwo(b0 - 0xC0, Tail(s[1]), r);
    } else if size == 3 {
      EncodeThree(b0 - 0xE0, Tail(s[1]), Tail(s[2]), r);
    } else {
      EncodeFour(b0 - 0xF0, Tail(s[1]), Tail(s[2]), Tail(s[3]), r);
    }
  }

  lemma DecodeFour(r: rune, s: bytes)
    requires r >= 0x1_0000 && |s| >= 4 && s[..4] == Encode(r)
    ensures DecodeRune(s) == (r, 4)
  {
    var q := r / 0x40;
    var p := q / 0x40;
    assert r / 0x1000 == p && r / 0x4_0000 == p / 0x40;
    assert s[0] == s[..4][0] && s[1] == s[..4][1] && s[2] == s[..4][2] && s[3] == s[..4][3];
  }

  lemma DecodeThree(r: rune, s: bytes)
    requires 0x800 <= r < 0x1_0000 && |s| >= 3 && s[..3] == Encode(r)
    ensures DecodeRune(s) == (r, 3)
  {
    var q := r / 0x40;
    assert r / 0x1000 == q / 0x40;
    assert s[0] == s[..3][0] && s[1] == s[..3][1] && s[2] == s[..3][2];
  }

  /** The decoder finds an encoded value again, whatever follows it. */
  lemma DecodeOfEncode(r: rune, rest: bytes)
    ensures DecodeRune(Encode(r) + rest) == (r, |Encode(r)|)
  {
    var s := Encode(r) + rest;
    assert s[..|Encode(r)|] == Encode(r);
    if r < 0x80 {
    } else if r < 0x800 {
      assert 0xC2 <= s[0] <= 0xDF;
    } else if r < 0x1_0000 {
      DecodeThree(r, s);
    } else {
      DecodeFour(r, s);
    }
  }

  /** Splitting a value into units and pairing them again gives it back. */
  lemma PairOfSplit(r: rune, us: seq<unit>)
    ensures Pair(Split(r) + us) == [r] + Pair(us)
  {
    var all := Split(r) + us;
    assert all[|Split(r)|..] == us;
  }
}
