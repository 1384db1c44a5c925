/**
 * JSON string literals: internal/proto/unquote.go.
 *
 * The specification is staged: `Units` reads escapes and raw UTF-8 into UTF-16 code units,
 * `Unicode.Pair` pairs surrogates, `Unicode.EncodeAll` writes UTF-8. The code is one fused pass.
 */
module JsonString {
  import opened Bytes
  import opened Unicode

  // ----- The staged specification -----

  function HexDigit(b: byte): Option<nat> {
    if 0x30 <= b <= 0x39 then Some(b - 0x30)
    else if 0x61 <= b <= 0x66 then Some(b - 0x61 + 10)
    else if 0x41 <= b <= 0x46 then Some(b - 0x41 + 10)
    else None
  }

  /** The code unit four hexadecimal digits stand for. */
  function HexUnit(b: bytes): Option<unit>
    requires |b| == 4
  {
    if exists i :: 0 <= i < 4 && HexDigit(b[i]).None? then None
    else Some(0x1000 * HexDigit(b[0]).value + 0x100 * HexDigit(b[1]).value
              + 0x10 * HexDigit(b[2]).value + HexDigit(b[3]).value)
  }

  /** The character a two-character escape stands for (section 7 of RFC 8259). */
  function SimpleEscape(e: byte): Option<byte> {
    if e == QUOTE || e == BACKSLASH || e == 0x2F then Some(e)
    else if e == 0x62 then Some(8)
    else if e == 0x66 then Some(12)
    else if e == 0x6E then Some(10)
    else if e == 0x72 then Some(13)
    else if e == 0x74 then Some(9)
    else None
  }

  function Cons(us: seq<unit>, rest: Option<seq<unit>>): Option<seq<unit>> {
    match rest
    case None => None
    case Some(vs) => Some(us + vs)
  }

  /** The UTF-16 code units of the interior of a literal; an invalid raw byte is one U+FFFD. */
  function Units(s: bytes): Option<seq<unit>> {
    if s == [] then Some([])
    else if s[0] == QUOTE || s[0] < 0x20 then None
    else if s[0] == BACKSLASH then
      if |s| < 2 then None
      else if s[1] == 0x75 then
        if |s| < 6 then None
        else match HexUnit(s[2..6])
             case None => None
             case Some(u) => Cons([u], Units(s[6..]))
      else match SimpleEscape(s[1])
           case None => None
           case Some(c) => Cons([c], Units(s[2..]))
    else
      var (r, size) := DecodeRune(s);
      Cons(Split(r), Units(s[size..]))
  }

  function Utf8(us: seq<unit>): bytes { EncodeAll(Pair(us)) }

  function Decode(s: bytes): Option<bytes> {
    match Units(s)
    case None => None
    case Some(us) => Some(Utf8(us))
  }

  predicate Quoted(literal: bytes) {
    |literal| >= 2 && literal[0] == QUOTE && literal[|literal| - 1] == QUOTE
  }

  function Interior(literal: bytes): bytes
    requires Quoted(literal)
  {
    literal[1..|literal| - 1]
  }

  function Enquote(interior: bytes): (literal: bytes)
    ensures Quoted(literal) && Interior(literal) == interior
  {
    [QUOTE] + interior + [QUOTE]
  }

  /** What the decoder must return for every byte string: None where it must reject. */
  function Unquote(literal: bytes): Option<bytes> {
    if Quoted(literal) then Decode(Interior(literal)) else None
  }

  predicate Accepted(literal: bytes) { Unquote(literal).Some? }

  // ----- One fused step -----

  predicate LowEscape(s: bytes) {
    && |s| >= 6 && s[0] == BACKSLASH && s[1] == 0x75
    && HexUnit(s[2..6]).Some? && Low(HexUnit(s[2..6]).value)
  }

  /** `decodeUnicodeEscape`: the scalar value and the width, where `s` starts with a backslash and a u. */
  function EscapedRune(s: bytes): (r: Option<(rune, nat)>)
    ensures r.Some? ==> 6 <= r.value.1 <= 12 && r.value.1 <= |s|
  {
    if |s| < 6 then None
    else match HexUnit(s[2..6])
         case None => None
         case Some(u) =>
           if !Surrogate(u) then Some((u, 6))
           else if High(u) && LowEscape(s[6..]) then Some((Combine(u, HexUnit(s[6..][2..6]).value), 12))
           else Some((REPLACEMENT, 6))
  }

  /** The scalar value the next token stands for, and its width. */
  function Token(s: bytes): (t: Option<(rune, nat)>)
    requires s != []
    ensures t.Some? ==> 1 <= t.value.1 <= |s|
  {
    if s[0] == QUOTE || s[0] < 0x20 then None
    else if s[0] == BACKSLASH then
      if |s| < 2 then None
      else if s[1] == 0x75 then EscapedRune(s)
      else match SimpleEscape(s[1])
           case None => None
           case Some(c) => Some((c, 2))
    else Some(DecodeRune(s))
  }

  function After(out: bytes, rest: Option<bytes>): Option<bytes> {
    match rest
    case None => None
    case Some(d) => Some(out + d)
  }

  /** Only an escape can put a low surrogate first, so an escaped high surrogate pairs with nothing else. */
  lemma LowFirst(s: bytes)
    requires Units(s).Some? && Units(s).value != [] && Low(Units(s).value[0])
    ensures LowEscape(s)
  {
  }

  lemma Utf8Cons(r: rune, us: seq<unit>, all: seq<unit>)
    requires Pair(all) == [r] + Pair(us)
    ensures Utf8(all) == Encode(r) + Utf8(us)
  {
    assert ([r] + Pair(us))[1..] == Pair(us);
  }

  lemma UnitsOfEscape(s: bytes)
    requires |s| >= 6 && s[0] == BACKSLASH && s[1] == 0x75 && HexUnit(s[2..6]).Some?
    ensures Units(s) == Cons([HexUnit(s[2..6]).value], Units(s[6..]))
  {
  }

  lemma Utf8OfPair(high: unit, low: unit, us: seq<unit>)
    requires High(high) && Low(low)
    ensures Utf8([high] + ([low] + us)) == Encode(Combine(high, low)) + Utf8(us)
  {
    var all := [high] + ([low] + us);
    assert all[2..] == us;
    Utf8Cons(Combine(high, low), us, all);
  }

  /** An escape that pairs with the next one. */
  lemma DecodePair(s: bytes, u: unit)
    requires |s| >= 6 && s[0] == BACKSLASH && s[1] == 0x75 && HexUnit(s[2..6]) == Some(u)
    requires High(u) && LowEscape(s[6..])
    ensures Decode(s) == After(Encode(Combine(u, HexUnit(s[6..][2..6]).value)), Decode(s[12..]))
  {
    UnitsOfEscape(s);
    UnitsOfEscape(s[6..]);
    assert s[6..][6..] == s[12..];
    if Units(s[12..]).Some? { Utf8OfPair(u, HexUnit(s[6..][2..6]).value, Units(s[12..]).value); }
  }

  /** Any other escape stands for itself, or for U+FFFD. */
  lemma DecodeSingle(s: bytes, u: unit)
    requires |s| >= 6 && s[0] == BACKSLASH && s[1] == 0x75 && HexUnit(s[2..6]) == Some(u)
    requires !(High(u) && LowEscape(s[6..]))
    ensures Decode(s) == After(Encode(EscapedRune(s).value.0), Decode(s[6..]))
  {
    var rest := s[6..];
    if Units(rest).Some? {
      var us := Units(rest).value;
      if us != [] && Low(us[0]) { LowFirst(rest); }
      assert ([u] + us)[1..] == us;
      Utf8Cons(if Surrogate(u) then REPLACEMENT else u, us, [u] + us);
    }
  }

  lemma DecodeEscape(s: bytes)
    requires |s| >= 2 && s[0] == BACKSLASH && s[1] == 0x75
    ensures match EscapedRune(s)
            case None => Decode(s) == None
            case Some(t) => Decode(s) == After(Encode(t.0), Decode(s[t.1..]))
  {
    if |s| >= 6 && HexUnit(s[2..6]).Some? {
      var u := HexUnit(s[2..6]).value;
      if High(u) && LowEscape(s[6..]) {
        DecodePair(s, u);
      } else {
        DecodeSingle(s, u);
      }
    }
  }

  /** The staged meaning of a literal is the meaning of its first token followed by the rest's. */
  lemma DecodeToken(s: bytes)
    requires s != []
    ensures match Token(s)
            case None => Decode(s) == None
            case Some(t) => Decode(s) == After(Encode(t.0), Decode(s[t.1..]))
  {
    if s[0] == QUOTE || s[0] < 0x20 {
    } else if s[0] == BACKSLASH {
      if |s| >= 2 && s[1] == 0x75 {
        DecodeEscape(s);
      } else if |s| >= 2 && SimpleEscape(s[1]).Some? && Units(s[2..]).Some? {
        var c := SimpleEscape(s[1]).value;
        var us := Units(s[2..]).value;
        assert ([c] + us)[1..] == us;
        Utf8Cons(c, us, [c] + us);
      }
    } else {
      var (r, size) := DecodeRune(s);
      if Units(s[size..]).Some? {
        var us := Units(s[size..]).value;
        PairOfSplit(r, us);
        Utf8Cons(r, us, Split(r) + us);
      }
    }
  }

  /** The whole fused pass, token by token. */
  function Fused(s: bytes): Option<bytes> {
    if s == [] then Some([])
    else match Token(s)
         case None => None
         case Some(t) => After(Encode(t.0), Fused(s[t.1..]))
  }

  /** One fused pass computes what the three stages compute. */
  lemma {:induction false} FusedIsStaged(s: bytes)
    ensures Fused(s) == Decode(s)
    decreases |s|
  {
    if s != [] {
      DecodeToken(s);
      if Token(s).Some? { FusedIsStaged(s[Token(s).value.1..]); }
    }
  }

  lemma AfterAssociative(a: bytes, b: bytes, rest: Option<bytes>)
    ensures After(a, After(b, rest)) == After(a + b, rest)
    ensures After([], rest) == rest
    ensures After(a, Some([])) == Some(a)
  {
    assert a + [] == a;
    if rest.Some? {
      assert a + (b + rest.value) == (a + b) + rest.value;
      assert [] + rest.value == rest.value;
    }
  }

  /** The loop's invariant: `out` holds what the first `i` bytes stand for. */
  ghost predicate Progress(s: bytes, out: bytes, i: nat) {
    i <= |s| && Decode(s) == After(out, Decode(s[i..]))
  }

  lemma ProgressStart(s: bytes)
    ensures Progress(s, [], 0)
  {
    assert s[0..] == s;
    AfterAssociative([], [], Decode(s));
  }

  lemma ProgressStep(s: bytes, before: bytes, i: nat, piece: bytes, size: nat, after: bytes)
    requires Progress(s, before, i) && i + size <= |s| && after == before + piece
    requires Decode(s[i..]) == After(piece, Decode(s[i..][size..]))
    ensures Progress(s, after, i + size)
  {
    Slices(s, i, size);
    AfterAssociative(before, piece, Decode(s[i + size..]));
  }

  lemma ProgressEnd(s: bytes, out: bytes)
    requires Progress(s, out, |s|)
    ensures Decode(s) == Some(out)
  {
    AfterAssociative(out, [], Some([]));
  }

  /** What the token of a raw multi-byte sequence appends: the sequence itself, or U+FFFD for an invalid byte. */
  lemma RawToken(s: bytes)
    requires s != [] && s[0] >= 0x80
    ensures Token(s) == Some(DecodeRune(s))
    ensures Encode(DecodeRune(s).0) ==
            if DecodeRune(s) == (REPLACEMENT, 1) then Encode(REPLACEMENT) else s[..DecodeRune(s).1]
  {
    if !Invalid(s) { EncodeOfDecode(s); }
  }

  // ----- The code -----

  /** `hex4`: four hexadecimal digits, accumulated in a loop. */
  method Hex4(b: bytes) returns (v: nat, ok: bool)
    ensures ok <==> |b| >= 4 && HexUnit(b[..4]).Some?
    ensures ok ==> HexUnit(b[..4]) == Some(v)
  {
    if |b| < 4 {
      return 0, false;
    }
    v := 0;
    for i := 0 to 4
      invariant forall j :: 0 <= j < i ==> HexDigit(b[j]).Some?
      invariant v == Nibbles(b, i)
    {
      var c := b[i];
      var d: nat;
      if 0x30 <= c <= 0x39 {
        d := c - 0x30;
      } else if 0x61 <= c <= 0x66 {
        d := c - 0x61 + 10;
      } else if 0x41 <= c <= 0x46 {
        d := c - 0x41 + 10;
      } else {
        assert HexDigit(b[..4][i]).None?;
        return 0, false;
      }
      v := 16 * v + d; // v<<4 | d, d being below 16
    }
    ok := true;
    assert Nibbles(b, 4) == 16 * Nibbles(b, 3) + HexDigit(b[3]).value;
    assert Nibbles(b, 2) == 16 * Nibbles(b, 1) + HexDigit(b[1]).value;
  }

  ghost function Nibbles(b: bytes, i: nat): nat
    requires i <= |b|
    requires forall j :: 0 <= j < i ==> HexDigit(b[j]).Some?
  {
    if i == 0 then 0 else 16 * Nibbles(b, i - 1) + HexDigit(b[i - 1]).value
  }

  /** The rune a \u escape stands for and the bytes it takes, pairing two escapes where it can. */
  method DecodeUnicodeEscape(b: bytes) returns (r: rune, size: nat, ok: bool)
    requires |b| >= 2 && b[0] == BACKSLASH && b[1] == 0x75
    ensures EscapedRune(b) == if ok then Some((r, size)) else None
  {
    r, size := 0, 0;
    if |b| < 6 {
      return 0, 0, false;
    }
    var r1, ok1 := Hex4(b[2..6]);
    assert b[2..6][..4] == b[2..6];
    if !ok1 {
      return 0, 0, false;
    }
    if !Surrogate(r1) {
      return r1, 6, true;
    }
    if |b| >= 12 && b[6] == BACKSLASH && b[7] == 0x75 {
      var r2, ok2 := Hex4(b[8..12]);
      assert b[8..12][..4] == b[8..12] == b[6..][2..6];
      if ok2 && High(r1) && Low(r2) {
        return Combine(r1, r2), 12, true;
      }
    }
    return REPLACEMENT, 6, true;
  }

  /** The `switch esc` of the loop: what the escape at the head of `b` appends, and its width. */
  method UnquoteEscape(b: bytes) returns (r: rune, size: nat, ok: bool)
    requires b != [] && b[0] == BACKSLASH
    ensures Token(b) == if ok then Some((r, size)) else None
  {
    r, size := 0, 0;
    if |b| < 2 {
      return 0, 0, false;
    }
    if b[1] == 0x75 {
      r, size, ok := DecodeUnicodeEscape(b);
    } else {
      var simple := SimpleEscape(b[1]);
      if simple.None? {
        return 0, 0, false;
      }
      return simple.value, 2, true;
    }
  }

  /** The other two branches: an ASCII byte is copied, a multi-byte sequence is copied or replaced. */
  method UnquoteRaw(b: bytes) returns (piece: bytes, size: nat)
    requires b != [] && b[0] >= 0x20 && b[0] != QUOTE && b[0] != BACKSLASH
    ensures size == DecodeRune(b).1 && Token(b) == Some(DecodeRune(b))
    ensures piece == Encode(DecodeRune(b).0)
  {
    if b[0] < 0x80 {
      return [b[0]], 1;
    }
    RawToken(b);
    var (r, width) := DecodeRune(b);
    if r == REPLACEMENT && width <= 1 {
      return Encode(REPLACEMENT), 1;
    }
    return b[..width], width;
  }

  /** One turn of the loop: what the token at the head of `b` appends, and its width. */
  method UnquoteToken(b: bytes) returns (piece: bytes, size: nat, ok: bool)
    requires b != []
    ensures ok ==> 1 <= size <= |b| && Decode(b) == After(piece, Decode(b[size..]))
    ensures !ok ==> Decode(b) == None
  {
    DecodeToken(b);
    piece, size, ok := [], 0, false;
    var c := b[0];
    if c == QUOTE || c < 0x20 {
      return;
    }
    if c == BACKSLASH {
      var r;
      r, size, ok := UnquoteEscape(b);
      piece := Encode(r);
    } else {
      piece, size := UnquoteRaw(b);
      ok := true;
    }
  }

  /** The loop: the fused pass over an interior computes the staged meaning. */
  method UnquoteInterior(input: bytes) returns (r: Option<bytes>)
    ensures r == Decode(input)
  {
    var out: bytes := [];
    var i := 0;
    ProgressStart(input);
    while i < |input|
      invariant Progress(input, out, i)
    {
      var piece, size, ok := UnquoteToken(input[i..]);
      if !ok {
        return None;
      }
      ghost var before := out;
      out := out + piece;
      ProgressStep(input, before, i, piece, size, out);
      i := i + size;
    }
    ProgressEnd(input, out);
    r := Some(out);
  }

  /** `UnquoteJSONString`, for every byte string. */
  method UnquoteJSONString(literal: bytes) returns (r: Option<bytes>)
    ensures r == Unquote(literal)
  {
    if |literal| < 2 || literal[0] != QUOTE || literal[|literal| - 1] != QUOTE {
      return None;
    }
    r := UnquoteInterior(literal[1..|literal| - 1]);
  }

  // ----- What the accepted language is like -----

  function Shift(n: Option<nat>, k: nat): Option<nat> {
    if n.None? then None else Some(n.value + k)
  }

  /** Where the string whose interior starts at the head of `s` ends: its first unescaped quote. */
  function CloseQuote(s: bytes): (n: Option<nat>)
    ensures n.Some? ==> n.value < |s| && s[n.value] == QUOTE
  {
    if s == [] then None
    else if s[0] == QUOTE then Some(0)
    else if s[0] != BACKSLASH then Shift(CloseQuote(s[1..]), 1)
    else if |s| < 2 then None
    else Shift(CloseQuote(s[2..]), 2)
  }

  predicate Plain(s: bytes) { forall b | b in s :: b != QUOTE && b != BACKSLASH }

  lemma {:induction false} SkipPlain(p: bytes, tail: bytes)
    requires Plain(p)
    ensures CloseQuote(p + tail) == Shift(CloseQuote(tail), |p|)
  {
    if p == [] {
      assert p + tail == tail;
    } else {
      assert p[0] in p && forall b :: b in p[1..] ==> b in p;
      SkipPlain(p[1..], tail);
      assert (p + tail)[1..] == p[1..] + tail;
    }
  }

  lemma CloseQuoteEscape(s: bytes)
    requires |s| >= 2 && s[0] == BACKSLASH
    ensures CloseQuote(s) == Shift(CloseQuote(s[2..]), 2)
  {
  }

  lemma SkipEscape(q: bytes, tail: bytes)
    requires |q| >= 2 && q[0] == BACKSLASH && Plain(q[2..])
    ensures CloseQuote(q + tail) == Shift(CloseQuote(tail), |q|)
  {
    calc {
      CloseQuote(q + tail);
    == { CloseQuoteEscape(q + tail); }
      Shift(CloseQuote((q + tail)[2..]), 2);
    == { assert (q + tail)[2..] == q[2..] + tail; }
      Shift(CloseQuote(q[2..] + tail), 2);
    == { SkipPlain(q[2..], tail); }
      Shift(Shift(CloseQuote(tail), |q| - 2), 2);
    }
  }

  lemma HexIsPlain(b: bytes)
    requires |b| == 4 && HexUnit(b).Some?
    ensures Plain(b)
  {
    forall i | 0 <= i < 4 ensures b[i] != QUOTE && b[i] != BACKSLASH {
      assert HexDigit(b[i]).Some?;
    }
  }

  lemma SkipUnicodeEscape(s: bytes, tail: bytes)
    requires |s| >= 6 && s[0] == BACKSLASH && s[1] == 0x75 && HexUnit(s[2..6]).Some?
    ensures CloseQuote(s + tail) == Shift(CloseQuote(s[6..] + tail), 6)
  {
    HexIsPlain(s[2..6]);
    assert s[..6][2..] == s[2..6];
    SkipEscape(s[..6], s[6..] + tail);
    assert s + tail == s[..6] + (s[6..] + tail);
  }

  lemma RawIsPlain(s: bytes)
    requires s != [] && s[0] != QUOTE && s[0] != BACKSLASH
    ensures Plain(s[..DecodeRune(s).1])
  {
    var (r, size) := DecodeRune(s);
    if size > 1 {
      EncodeOfDecode(s);
      forall b | b in s[..size] ensures b >= 0x80 { assert b in Encode(r); }
    }
  }

  lemma SkipRaw(s: bytes, size: nat, tail: bytes)
    requires size <= |s| && Plain(s[..size])
    ensures CloseQuote(s + tail) == Shift(CloseQuote(s[size..] + tail), size)
  {
    SkipPlain(s[..size], s[size..] + tail);
    assert s + tail == s[..size] + (s[size..] + tail);
  }

  lemma SkipToken(s: bytes, tail: bytes)
    requires s != [] && Token(s).Some?
    ensures CloseQuote(s + tail) == Shift(CloseQuote(s[Token(s).value.1..] + tail), Token(s).value.1)
  {
    if s[0] != BACKSLASH {
      RawIsPlain(s);
      SkipRaw(s, DecodeRune(s).1, tail);
    } else if s[1] == 0x75 {
      SkipUnicodeEscape(s, tail);
      if Token(s).value.1 == 12 {
        SkipUnicodeEscape(s[6..], tail);
        assert s[6..][6..] == s[12..];
      }
    } else {
      SkipEscape(s[..2], s[2..] + tail);
      assert s + tail == s[..2] + (s[2..] + tail);
    }
  }

  lemma SkipFused(s: bytes, tail: bytes) returns (k: nat)
    requires s != [] && Fused(s).Some?
    ensures 1 <= k <= |s| && Fused(s[k..]).Some?
    ensures CloseQuote(s + tail) == Shift(CloseQuote(s[k..] + tail), k)
  {
    k := Token(s).value.1;
    SkipToken(s, tail);
  }

  /**
   * Framing: in a literal the decoder accepts, the first unescaped quote after the opening one is
   * its last byte. A reader that scans for the closing quote finds the whole literal, whatever
   * bytes come after it.
   */
  lemma {:induction false} Framing(s: bytes, tail: bytes)
    requires Fused(s).Some?
    requires tail != [] && tail[0] == QUOTE
    ensures CloseQuote(s + tail) == Some(|s|)
    decreases |s|
  {
    if s == [] {
      assert s + tail == tail;
    } else {
      var k := SkipFused(s, tail);
      Framing(s[k..], tail);
    }
  }

  /** A quoted string that ends where a scan for its closing quote says it does. */
  predicate Framed(literal: bytes) {
    Quoted(literal) && CloseQuote(literal[1..]) == Some(|literal| - 2)
  }

  lemma DecodedIsFramed(s: bytes)
    requires Decode(s).Some?
    ensures CloseQuote(s + [QUOTE]) == Some(|s|)
  {
    FusedIsStaged(s);
    Framing(s, [QUOTE]);
  }

  lemma AcceptedIsFramed(literal: bytes)
    requires Accepted(literal)
    ensures Framed(literal)
  {
    assert literal[1..] == Interior(literal) + [QUOTE];
    DecodedIsFramed(Interior(literal));
  }

  lemma {:induction false} CloseQuoteOfPrefix(s: bytes, tail: bytes)
    requires CloseQuote(s).Some?
    ensures CloseQuote(s + tail) == CloseQuote(s)
  {
    if s[0] == QUOTE {
    } else {
      var k := if s[0] == BACKSLASH then 2 else 1;
      CloseQuoteOfPrefix(s[k..], tail);
      assert (s + tail)[k..] == s[k..] + tail;
    }
  }

  /** An interior is at most six times what it decodes to, and that at most three times the interior. */
  lemma {:induction false} SizeBounds(s: bytes)
    requires Decode(s).Some?
    ensures |s| <= 6 * |Decode(s).value|
    ensures |Decode(s).value| <= 3 * |s|
    decreases |s|
  {
    if s == [] {
    } else {
      DecodeToken(s);
      var (r, size) := Token(s).value;
      SizeBounds(s[size..]);
      assert size <= 6 * |Encode(r)| && |Encode(r)| <= 3 * size by {
        if s[0] == BACKSLASH {
        } else if size > 1 {
          EncodeOfDecode(s);
        }
      }
      assert Decode(s).value == Encode(r) + Decode(s[size..]).value;
    }
  }

  // ----- JSON.stringify -----

  function LowerHexDigit(d: nat): byte
    requires d < 16
  {
    if d < 10 then 0x30 + d else 0x61 + (d - 10)
  }

  function UnicodeEscape(u: unit): bytes {
    [BACKSLASH, 0x75, LowerHexDigit(u / 0x1000), LowerHexDigit(u / 0x100 % 16),
     LowerHexDigit(u / 0x10 % 16), LowerHexDigit(u % 16)]
  }

  /** How one unpaired code unit is written. */
  function StringifyUnit(u: unit): bytes {
    if u == 0x22 || u == 0x5C then [BACKSLASH, u]
    else if u == 8 then [BACKSLASH, 0x62]
    else if u == 12 then [BACKSLASH, 0x66]
    else if u == 10 then [BACKSLASH, 0x6E]
    else if u == 13 then [BACKSLASH, 0x72]
    else if u == 9 then [BACKSLASH, 0x74]
    else if u < 0x20 || Surrogate(u) then UnicodeEscape(u)
    else Encode(u)
  }

  /** The interior `JSON.stringify` writes for a string of UTF-16 code units. */
  function Stringify(us: seq<unit>): bytes {
    if us == [] then []
    else if |us| >= 2 && High(us[0]) && Low(us[1]) then Encode(Combine(us[0], us[1])) + Stringify(us[2..])
    else StringifyUnit(us[0]) + Stringify(us[1..])
  }

  lemma HexRoundTrip(u: unit)
    ensures HexUnit(UnicodeEscape(u)[2..6]) == Some(u)
  {
    var b := UnicodeEscape(u)[2..6];
    assert HexDigit(b[0]) == Some(u / 0x1000) && HexDigit(b[1]) == Some(u / 0x100 % 16);
    assert HexDigit(b[2]) == Some(u / 0x10 % 16) && HexDigit(b[3]) == Some(u % 16);
    var q := u / 0x10;
    var p := q / 0x10;
    assert u / 0x100 == p && u / 0x1000 == p / 16;
  }

  lemma UnitsOfEncode(r: rune, rest: bytes)
    requires r >= 0x20 && r != 0x22 && r != 0x5C
    ensures Units(Encode(r) + rest) == Cons(Split(r), Units(rest))
  {
    DecodeOfEncode(r, rest);
    assert (Encode(r) + rest)[|Encode(r)|..] == rest;
  }

  lemma UnitsOfStringifyUnit(u: unit, rest: bytes)
    ensures Units(StringifyUnit(u) + rest) == Cons([u], Units(rest))
  {
    var s := StringifyUnit(u) + rest;
    assert s[|StringifyUnit(u)|..] == rest;
    if u in {8, 9, 10, 12, 13, 0x22, 0x5C} {
    } else if u < 0x20 || Surrogate(u) {
      assert s[2..6] == UnicodeEscape(u)[2..6];
      HexRoundTrip(u);
    } else {
      UnitsOfEncode(u, rest);
    }
  }

  lemma UnitsOfStringifiedPair(high: unit, low: unit, rest: bytes)
    requires High(high) && Low(low)
    ensures Units(Encode(Combine(high, low)) + rest) == Cons([high, low], Units(rest))
  {
    UnitsOfEncode(Combine(high, low), rest);
    SplitOfCombine(high, low);
  }

  lemma StringifyPairStep(us: seq<unit>, rest: bytes)
    requires |us| >= 2 && High(us[0]) && Low(us[1])
    requires Units(rest) == Some(us[2..])
    ensures Units(Encode(Combine(us[0], us[1])) + rest) == Some(us)
  {
    UnitsOfStringifiedPair(us[0], us[1], rest);
    assert us == [us[0], us[1]] + us[2..];
  }

  lemma StringifyUnitStep(us: seq<unit>, rest: bytes)
    requires us != [] && Units(rest) == Some(us[1..])
    ensures Units(StringifyUnit(us[0]) + rest) == Some(us)
  {
    UnitsOfStringifyUnit(us[0], rest);
    assert us == [us[0]] + us[1..];
  }

  lemma {:induction false} UnitsOfStringify(us: seq<unit>)
    ensures Units(Stringify(us)) == Some(us)
  {
    if us == [] {
    } else if |us| >= 2 && High(us[0]) && Low(us[1]) {
      UnitsOfStringify(us[2..]);
      StringifyPairStep(us, Stringify(us[2..]));
    } else {
      UnitsOfStringify(us[1..]);
      StringifyUnitStep(us, Stringify(us[1..]));
    }
  }

  /**
   * The decoder reads back what JSON.stringify wrote, unit for unit, lone surrogates included; so
   * the bytes it returns are the bytes Node hashes: the string's UTF-8 with U+FFFD for each of them.
   */
  lemma StringifyRoundTrip(us: seq<unit>)
    ensures Units(Stringify(us)) == Some(us)
    ensures Unquote(Enquote(Stringify(us))) == Some(Utf8(us))
  {
    UnitsOfStringify(us);
  }

  // ----- Every spelling, byte by byte -----

  /** A hexadecimal digit, of either case. */
  ghost predicate IsHex(c: byte, d: int) {
    || (0x30 <= c <= 0x39 && d == c - 0x30)
    || (0x61 <= c <= 0x66 && d == c - 0x57)
    || (0x41 <= c <= 0x46 && d == c - 0x37)
  }

  ghost predicate SpellsHex(s: bytes, u: unit) {
    && |s| == 6 && s[0] == 0x5C && s[1] == 0x75
    && exists a, b, c, d :: IsHex(s[2], a) && IsHex(s[3], b) && IsHex(s[4], c) && IsHex(s[5], d)
                            && u == 0x1000 * a + 0x100 * b + 0x10 * c + d
  }

  /** The spellings of one code unit that section 7 of RFC 8259 allows, the raw one in UTF-8. */
  ghost predicate Spells(s: bytes, u: unit) {
    || (s == [0x5C, 0x22] && u == 0x22)
    || (s == [0x5C, 0x5C] && u == 0x5C)
    || (s == [0x5C, 0x2F] && u == 0x2F)
    || (s == [0x5C, 0x62] && u == 0x08)
    || (s == [0x5C, 0x66] && u == 0x0C)
    || (s == [0x5C, 0x6E] && u == 0x0A)
    || (s == [0x5C, 0x72] && u == 0x0D)
    || (s == [0x5C, 0x74] && u == 0x09)
    || SpellsHex(s, u)
    || (u >= 0x20 && u != 0x22 && u != 0x5C && !(0xD800 <= u <= 0xDFFF) && s == Encode(u))
  }

  /** The literal continues with `rest` and stands for these units in front of the ones of `rest`. */
  predicate ReadsAs(s: bytes, us: seq<unit>, rest: bytes) {
    if Units(rest).None? then Units(s).None? else Units(s) == Some(us + Units(rest).value)
  }

  lemma HexMeans(h: bytes, a: int, b: int, c: int, d: int)
    requires |h| == 4 && IsHex(h[0], a) && IsHex(h[1], b) && IsHex(h[2], c) && IsHex(h[3], d)
    ensures HexUnit(h) == Some(0x1000 * a + 0x100 * b + 0x10 * c + d)
  {
    assert HexDigit(h[0]) == Some(a) && HexDigit(h[1]) == Some(b);
    assert HexDigit(h[2]) == Some(c) && HexDigit(h[3]) == Some(d);
  }

  lemma HexReads(s: bytes, u: unit, rest: bytes)
    requires SpellsHex(s, u)
    ensures ReadsAs(s + rest, [u], rest)
  {
    var x := s + rest;
    var a, b, c, d :| IsHex(s[2], a) && IsHex(s[3], b) && IsHex(s[4], c) && IsHex(s[5], d)
                      && u == 0x1000 * a + 0x100 * b + 0x10 * c + d;
    HexMeans(s[2..6], a, b, c, d);
    assert x[2..6] == s[2..6] && x[6..] == rest;
    UnitsOfEscape(x);
  }

  lemma ShortEscapeReads(e: byte, u: unit, rest: bytes)
    requires e != 0x75 && Spells([0x5C, e], u)
    ensures ReadsAs([0x5C, e] + rest, [u], rest)
  {
    var x := [0x5C, e] + rest;
    assert x[0] == 0x5C && x[1] == e && x[2..] == rest;
  }

  /** Whatever way a code unit is spelled, it is read as that unit, and then the rest is read. */
  lemma SpellingReads(s: bytes, u: unit, rest: bytes)
    requires Spells(s, u)
    ensures ReadsAs(s + rest, [u], rest)
  {
    if SpellsHex(s, u) {
      HexReads(s, u, rest);
    } else if |s| == 2 && s[0] == 0x5C {
      assert s == [0x5C, s[1]];
      ShortEscapeReads(s[1], u, rest);
    } else {
      UnitsOfEncode(u, rest);
    }
  }

  /** A character above the basic plane is read as its two surrogates. */
  lemma SupplementaryReads(r: rune, rest: bytes)
    requires r >= 0x1_0000
    ensures ReadsAs(Encode(r) + rest, [0xD800 + (r - 0x1_0000) / 0x400, 0xDC00 + (r - 0x1_0000) % 0x400], rest)
  {
    UnitsOfEncode(r, rest);
  }

  /** No character's UTF-8 starts here. */
  ghost predicate NoCharacter(s: bytes) { forall r: rune :: !(Encode(r) <= s) }

  lemma InvalidIffNoCharacter(s: bytes)
    requires s != []
    ensures Invalid(s) <==> NoCharacter(s)
  {
    var (r, size) := DecodeRune(s);
    forall q: rune | Encode(q) <= s ensures !Invalid(s) {
      DecodeOfEncode(q, s[|Encode(q)|..]);
      assert s == Encode(q) + s[|Encode(q)|..];
    }
    if !Invalid(s) {
      EncodeOfDecode(s);
      assert Encode(r) <= s;
    }
  }

  /** A byte that starts no character is read as U+FFFD, by itself. */
  lemma InvalidByteReads(s: bytes)
    requires s != [] && NoCharacter(s)
    ensures ReadsAs(s, [0xFFFD], s[1..])
  {
    InvalidIffNoCharacter(s);
  }

  /** The first thing in the text is a spelling of a unit, a character above the basic plane, or no character. */
  ghost predicate Starts(s: bytes, k: nat) {
    && k <= |s|
    && ((exists u: unit :: Spells(s[..k], u)) || (exists r: rune :: r >= 0x1_0000 && s[..k] == Encode(r))
        || (k == 1 && NoCharacter(s)))
  }

  lemma EscapeStarts(s: bytes) returns (k: nat)
    requires s != [] && s[0] == 0x5C && Units(s).Some?
    ensures Starts(s, k)
  {
    if s[1] == 0x75 {
      k := 6;
      var h := s[2..6];
      var a, b, c, d := HexDigit(h[0]), HexDigit(h[1]), HexDigit(h[2]), HexDigit(h[3]);
      assert IsHex(s[2], a.value) && IsHex(s[3], b.value) && IsHex(s[4], c.value) && IsHex(s[5], d.value);
      assert SpellsHex(s[..6], HexUnit(h).value);
      assert Spells(s[..6], HexUnit(h).value);
    } else {
      k := 2;
      assert s[..2] == [0x5C, s[1]];
      assert Spells(s[..2], SimpleEscape(s[1]).value);
    }
  }

  /**
   * And nothing else is read: a bare quote, a control character, a backslash before any other byte
   * and an escape cut short are refused wherever they come.
   */
  lemma ReadIsSpelled(s: bytes) returns (k: nat)
    requires s != [] && Units(s).Some?
    ensures Starts(s, k)
  {
    if s[0] == 0x5C {
      k := EscapeStarts(s);
    } else {
      var (r, size) := DecodeRune(s);
      k := size;
      InvalidIffNoCharacter(s);
      if !Invalid(s) {
        EncodeOfDecode(s);
        if r < 0x1_0000 { assert Spells(s[..size], r); }
      }
    }
  }

  /** Units are paired and written as UTF-8, an unpaired surrogate as the three bytes of U+FFFD. */
  lemma UnitsAreWritten(u: unit, us: seq<unit>)
    ensures Utf8([]) == []
    ensures !(0xD800 <= u <= 0xDFFF) ==> Utf8([u] + us) == Encode(u) + Utf8(us)
    ensures 0xDC00 <= u <= 0xDFFF ==> Utf8([u] + us) == [0xEF, 0xBF, 0xBD] + Utf8(us)
    ensures 0xD800 <= u <= 0xDBFF && (us == [] || !(0xDC00 <= us[0] <= 0xDFFF)) ==>
              Utf8([u] + us) == [0xEF, 0xBF, 0xBD] + Utf8(us)
    ensures 0xD800 <= u <= 0xDBFF && us != [] && 0xDC00 <= us[0] <= 0xDFFF ==>
              Utf8([u] + us) == Encode(0x1_0000 + (u - 0xD800) * 0x400 + (us[0] - 0xDC00)) + Utf8(us[1..])
  {
    var all := [u] + us;
    assert all[1..] == us;
    if 0xD800 <= u <= 0xDBFF && us != [] && 0xDC00 <= us[0] <= 0xDFFF {
      assert all[2..] == us[1..];
      Utf8Cons(Combine(u, us[0]), us[1..], all);
    } else {
      Utf8Cons(if Surrogate(u) then REPLACEMENT else u, us, all);
    }
  }

  /** A literal has its quotes, and between them an interior that can be read. */
  lemma UnquoteMeans(literal: bytes)
    ensures Unquote(literal).Some? <==>
              && |literal| >= 2 && literal[0] == 0x22 && literal[|literal| - 1] == 0x22
              && Units(literal[1..|literal| - 1]).Some?
    ensures Unquote(literal).Some? ==> Unquote(literal).value == Utf8(Units(literal[1..|literal| - 1]).value)
  {
  }

  /**
   * What JSON.stringify escapes and how (section 25.5.4.3 of ECMA-262): quotes, backslashes and
   * control characters, the common ones by a letter, the others and lone surrogates in lower-case
   * hexadecimal digits; everything else stays as it is.
   */
  lemma StringifyEscapes(u: unit)
    ensures u == 0x22 ==> StringifyUnit(u) == [0x5C, 0x22]
    ensures u == 0x5C ==> StringifyUnit(u) == [0x5C, 0x5C]
    ensures u == 0x08 ==> StringifyUnit(u) == [0x5C, 0x62]
    ensures u == 0x09 ==> StringifyUnit(u) == [0x5C, 0x74]
    ensures u == 0x0A ==> StringifyUnit(u) == [0x5C, 0x6E]
    ensures u == 0x0C ==> StringifyUnit(u) == [0x5C, 0x66]
    ensures u == 0x0D ==> StringifyUnit(u) == [0x5C, 0x72]
    ensures (u < 0x20 && u !in {0x08, 0x09, 0x0A, 0x0C, 0x0D}) || 0xD800 <= u <= 0xDFFF ==>
              SpellsHex(StringifyUnit(u), u) && forall c | c in StringifyUnit(u) :: !(0x41 <= c <= 0x46)
    ensures u >= 0x20 && u != 0x22 && u != 0x5C && !(0xD800 <= u <= 0xDFFF) ==> StringifyUnit(u) == Encode(u)
  {
    if (u < 0x20 && u !in {0x08, 0x09, 0x0A, 0x0C, 0x0D}) || 0xD800 <= u <= 0xDFFF {
      UnicodeEscapeSpells(u);
    }
  }

  lemma UnicodeEscapeSpells(u: unit)
    ensures SpellsHex(UnicodeEscape(u), u) && forall c | c in UnicodeEscape(u) :: !(0x41 <= c <= 0x46)
  {
    var s, h := UnicodeEscape(u), UnicodeEscape(u)[2..6];
    HexRoundTrip(u);
    assert h[0] == s[2] && h[1] == s[3] && h[2] == s[4] && h[3] == s[5];
    assert IsHex(s[2], HexDigit(h[0]).value) && IsHex(s[3], HexDigit(h[1]).value);
    assert IsHex(s[4], HexDigit(h[2]).value) && IsHex(s[5], HexDigit(h[3]).value);
  }

  /** A surrogate pair is written as the one character it stands for. */
  lemma StringifyPair(high: unit, low: unit, us: seq<unit>)
    requires 0xD800 <= high <= 0xDBFF && 0xDC00 <= low <= 0xDFFF
    ensures Stringify([high, low] + us) ==
            Encode(0x1_0000 + (high - 0xD800) * 0x400 + (low - 0xDC00)) + Stringify(us)
  {
    var all := [high, low] + us;
    assert all[0] == high && all[1] == low && all[2..] == us;
  }

  /** Any other unit is written by itself. */
  lemma StringifyOne(u: unit, us: seq<unit>)
    requires !(0xD800 <= u <= 0xDBFF && us != [] && 0xDC00 <= us[0] <= 0xDFFF)
    ensures Stringify([u] + us) == StringifyUnit(u) + Stringify(us)
  {
    var all := [u] + us;
    assert all[0] == u && all[1..] == us && (us != [] ==> all[1] == us[0]);
  }
}
