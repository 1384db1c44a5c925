/** What an operation digest looks like: internal/proto/digest.go. SHA-256 itself is not part of this model. */
module Digest {
  import opened Bytes

  // ----- The code -----

  predicate DigestByte(c: byte) {
    65 <= c <= 90 || 97 <= c <= 122 || 48 <= c <= 57 || c == 45 || c == 95
  }

  /** `ValidDigest`. */
  predicate ValidDigest(s: bytes) { |s| == 43 && forall c | c in s :: DigestByte(c) }

  // ----- What it is for -----

  /** The alphabet of base64url, in the order of its values (table 2 of RFC 4648). */
  function Alphabet(): (s: bytes)
    ensures |s| == 64
  {
    Ascii("ABCDEFGHIJKLMNOPQRSTUVWXYZ") + Ascii("abcdefghijklmnopqrstuvwxyz") + Ascii("0123456789-_")
  }

  type sextet = n: int | 0 <= n < 64

  /** Three bytes are four groups of six bits; a remainder of one or two bytes is two or three, filled up with 0. */
  function Sextets(b: bytes): (s: seq<sextet>)
    ensures |s| == |b| / 3 * 4 + (if |b| % 3 == 0 then 0 else |b| % 3 + 1)
  {
    if b == [] then []
    else if |b| == 1 then [b[0] / 4, b[0] % 4 * 16]
    else if |b| == 2 then [b[0] / 4, b[0] % 4 * 16 + b[1] / 16, b[1] % 16 * 4]
    else [b[0] / 4, b[0] % 4 * 16 + b[1] / 16, b[1] % 16 * 4 + b[2] / 64, b[2] % 64] + Sextets(b[3..])
  }

  /** The number four digits denote in some base. */
  function Number(a: int, b: int, c: int, d: int, base: int): int { ((a * base + b) * base + c) * base + d }

  // The groups are the digits of the same bits in base 64, the most significant first.

  lemma OneByte(x: byte, s: int, t: int)
    requires s == x / 4 && t == x % 4 * 16
    ensures Number(0, 0, s, t, 64) == Number(0, 0, 0, x, 256) * 16
  {
  }

  lemma TwoBytes(x: byte, y: byte, s: int, t: int, u: int)
    requires s == x / 4 && t == x % 4 * 16 + y / 16 && u == y % 16 * 4
    ensures Number(0, s, t, u, 64) == Number(0, 0, x, y, 256) * 4
  {
  }

  lemma ThreeBytes(x: byte, y: byte, z: byte, s: int, t: int, u: int, v: int)
    requires s == x / 4 && t == x % 4 * 16 + y / 16 && u == y % 16 * 4 + z / 64 && v == z % 64
    ensures Number(s, t, u, v, 64) == Number(0, x, y, z, 256)
  {
  }

  lemma SextetsMean(b: bytes)
    requires |b| >= 3
    ensures Number(Sextets(b)[0], Sextets(b)[1], Sextets(b)[2], Sextets(b)[3], 64) == Number(0, b[0], b[1], b[2], 256)
    ensures Sextets(b)[4..] == Sextets(b[3..])
  {
    var s := Sextets(b);
    ThreeBytes(b[0], b[1], b[2], s[0], s[1], s[2], s[3]);
  }

  /** A remainder is filled up with zeros. */
  lemma RemainderMeans(x: byte, y: byte)
    ensures Number(0, 0, Sextets([x])[0], Sextets([x])[1], 64) == Number(0, 0, 0, x, 256) * 16
    ensures Number(0, Sextets([x, y])[0], Sextets([x, y])[1], Sextets([x, y])[2], 64) == Number(0, 0, x, y, 256) * 4
  {
    var s, t := Sextets([x]), Sextets([x, y]);
    OneByte(x, s[0], s[1]);
    TwoBytes(x, y, t[0], t[1], t[2]);
  }

  /** `base64.RawURLEncoding`. */
  function Base64Url(b: bytes): (s: bytes)
    ensures |s| == |Sextets(b)|
  {
    seq(|Sextets(b)|, i requires 0 <= i < |Sextets(b)| => Alphabet()[Sextets(b)[i]])
  }

  lemma Upper(i: nat)
    requires i < 26
    ensures Ascii("ABCDEFGHIJKLMNOPQRSTUVWXYZ")[i] == 65 + i
  {
  }

  lemma Lower(i: nat)
    requires i < 26
    ensures Ascii("abcdefghijklmnopqrstuvwxyz")[i] == 97 + i
  {
  }

  /** The characters by their codes: upper case, lower case, figures, minus and underscore. */
  lemma AlphabetAt(i: sextet)
    ensures Alphabet()[i] == if i < 26 then 65 + i else if i < 52 then 71 + i else if i < 62 then i - 4
                             else if i == 62 then 45 else 95
  {
    if i < 26 {
      Upper(i);
    } else if i < 52 {
      Lower(i - 26);
    } else {
      assert Alphabet()[i] == Ascii("0123456789-_")[i - 52];
    }
  }

  lemma DigestByteIff(c: byte)
    ensures DigestByte(c) <==> c in Alphabet()
  {
    forall i | 0 <= i < 64 ensures DigestByte(Alphabet()[i]) { AlphabetAt(i); }
    if DigestByte(c) {
      var i := if c == 45 then 62 else if c == 95 then 63 else if c >= 97 then c - 71 else if c >= 65 then c - 65
               else c + 4;
      AlphabetAt(i);
    }
  }

  /** A digest is valid if and only if it is 43 characters of the alphabet. */
  lemma ValidDigestIff(s: bytes)
    ensures ValidDigest(s) <==> |s| == 43 && forall c | c in s :: c in Alphabet()
  {
    forall c: byte { DigestByteIff(c); }
  }

  /** What `Digest` returns is valid, whatever the 32 bytes of the hash are. */
  lemma DigestsAreValid(hash: bytes)
    requires |hash| == 32
    ensures ValidDigest(Base64Url(hash))
  {
    var s := Base64Url(hash);
    forall c | c in s ensures c in Alphabet() {
      var i :| 0 <= i < |s| && s[i] == c;
      assert Alphabet()[Sextets(hash)[i]] == c;
    }
    ValidDigestIff(s);
  }

  lemma SameAlphabet(i: sextet, j: sextet)
    requires Alphabet()[i] == Alphabet()[j]
    ensures i == j
  {
    AlphabetAt(i);
    AlphabetAt(j);
  }

  lemma SameFirst(x: byte, y: byte, x': byte, y': byte)
    requires x / 4 == x' / 4 && x % 4 * 16 + y / 16 == x' % 4 * 16 + y' / 16
    ensures x == x' && y / 16 == y' / 16
  {
    assert y / 16 < 16 && y' / 16 < 16;
  }

  lemma SameSecond(x: byte, y: byte, x': byte, y': byte)
    requires x / 16 == x' / 16 && x % 16 * 4 + y / 64 == x' % 16 * 4 + y' / 64
    ensures x == x' && y / 64 == y' / 64
  {
    assert y / 64 < 4 && y' / 64 < 4;
  }

  lemma SameGroup(x: byte, y: byte, z: byte, x': byte, y': byte, z': byte)
    requires x / 4 == x' / 4 && x % 4 * 16 + y / 16 == x' % 4 * 16 + y' / 16
    requires y % 16 * 4 + z / 64 == y' % 16 * 4 + z' / 64 && z % 64 == z' % 64
    ensures x == x' && y == y' && z == z'
  {
    SameFirst(x, y, x', y');
    SameSecond(y, z, y', z');
  }

  lemma {:induction false} SextetsDiffer(a: bytes, b: bytes)
    requires |a| == |b| && Sextets(a) == Sextets(b)
    ensures a == b
  {
    var s, t := Sextets(a), Sextets(b);
    if |a| == 1 {
      assert s[0] == t[0] && s[1] == t[1];
    } else if |a| == 2 {
      assert s[0] == t[0] && s[1] == t[1] && s[2] == t[2];
      SameFirst(a[0], a[1], b[0], b[1]);
    } else if |a| > 2 {
      assert s[0] == t[0] && s[1] == t[1] && s[2] == t[2] && s[3] == t[3];
      SameGroup(a[0], a[1], a[2], b[0], b[1], b[2]);
      assert Sextets(a[3..]) == s[4..] && Sextets(b[3..]) == t[4..];
      SextetsDiffer(a[3..], b[3..]);
      assert a == a[..3] + a[3..] && b == b[..3] + b[3..];
    }
  }

  /** Different hashes have different digests, so comparing digests is comparing hashes. */
  lemma DigestsDiffer(a: bytes, b: bytes)
    requires |a| == |b| && Base64Url(a) == Base64Url(b)
    ensures a == b
  {
    forall i | 0 <= i < |Sextets(a)| ensures Sextets(a)[i] == Sextets(b)[i] {
      assert Base64Url(a)[i] == Base64Url(b)[i];
      SameAlphabet(Sextets(a)[i], Sextets(b)[i]);
    }
    SextetsDiffer(a, b);
  }
}
