/**
 * `strconv.Quote`, which the hub uses to print ids and digests into JSON. `graphic` stands for
 * `strconv.IsPrint` above ASCII, a table of the Unicode version Go was built with.
 */
module GoQuote {
  import opened Bytes
  import opened Unicode
  import opened JsonString

  predicate Printable(graphic: rune -> bool, r: rune) {
    if r < 0x80 then 0x20 <= r < 0x7F else graphic(r)
  }

  function HexByte(b: byte): bytes {
    [BACKSLASH, 0x78, LowerHexDigit(b / 16), LowerHexDigit(b % 16)]
  }

  function QuoteRune(graphic: rune -> bool, r: rune): (q: bytes)
    ensures q != []
  {
    if r == 0x22 || r == 0x5C then [BACKSLASH, r]
    else if Printable(graphic, r) then Encode(r)
    else if r == 7 then [BACKSLASH, 0x61]
    else if r == 8 then [BACKSLASH, 0x62]
    else if r == 12 then [BACKSLASH, 0x66]
    else if r == 10 then [BACKSLASH, 0x6E]
    else if r == 13 then [BACKSLASH, 0x72]
    else if r == 9 then [BACKSLASH, 0x74]
    else if r == 11 then [BACKSLASH, 0x76]
    else if r < 0x20 || r == 0x7F then HexByte(r)
    else if r < 0x1_0000 then UnicodeEscape(r)
    else [BACKSLASH, 0x55, 0x30, 0x30, LowerHexDigit(r / 0x10_0000), LowerHexDigit(r / 0x1_0000 % 16),
          LowerHexDigit(r / 0x1000 % 16), LowerHexDigit(r / 0x100 % 16), LowerHexDigit(r / 0x10 % 16),
          LowerHexDigit(r % 16)]
  }

  function QuoteInterior(graphic: rune -> bool, s: bytes): bytes {
    if s == [] then []
    else if Invalid(s) then HexByte(s[0]) + QuoteInterior(graphic, s[1..])
    else
      var (r, size) := DecodeRune(s);
      QuoteRune(graphic, r) + QuoteInterior(graphic, s[size..])
  }

  function Quote(graphic: rune -> bool, s: bytes): bytes {
    Enquote(QuoteInterior(graphic, s))
  }

  /** The runes whose Go spelling is also a JSON spelling: no \a, \v, \x or \U. */
  predicate ReadableRune(graphic: rune -> bool, r: rune) {
    r == 0x22 || r == 0x5C || Printable(graphic, r) || r in {8, 9, 10, 12, 13} || 0x80 <= r < 0x1_0000
  }

  predicate Readable(graphic: rune -> bool, s: bytes) {
    s != [] ==>
      && !Invalid(s)
      && ReadableRune(graphic, DecodeRune(s).0)
      && Readable(graphic, s[DecodeRune(s).1..])
  }

  lemma TokenOfQuotedRune(graphic: rune -> bool, r: rune, rest: bytes)
    ensures Token(QuoteRune(graphic, r) + rest) ==
            if ReadableRune(graphic, r) then Some((r, |QuoteRune(graphic, r)|)) else None
  {
    var q := QuoteRune(graphic, r);
    var s := q + rest;
    assert s[0] == q[0];
    if r == 0x22 || r == 0x5C {
    } else if Printable(graphic, r) {
      DecodeOfEncode(r, rest);
    } else if r < 0x20 || r == 0x7F {
      assert s[1] == q[1];
    } else if r < 0x1_0000 {
      assert s[2..6] == UnicodeEscape(r)[2..6];
      HexRoundTrip(r);
    } else {
      assert s[1] == q[1];
    }
  }

  /** A byte that is not UTF-8 is printed as \\x, which no JSON reader accepts. */
  lemma HexByteRejected(b: byte, rest: bytes)
    ensures Fused(HexByte(b) + rest) == None
  {
    var q := HexByte(b) + rest;
    assert q[0] == BACKSLASH && q[1] == 0x78;
  }

  lemma FusedOfQuotedRune(graphic: rune -> bool, r: rune, rest: bytes)
    ensures Fused(QuoteRune(graphic, r) + rest) ==
            if ReadableRune(graphic, r) then After(Encode(r), Fused(rest)) else None
  {
    var q := QuoteRune(graphic, r);
    TokenOfQuotedRune(graphic, r, rest);
    assert (q + rest)[|q|..] == rest;
  }

  /** A decoded rune and what follows it make up the string again. */
  lemma Reassembled(s: bytes)
    requires s != [] && !Invalid(s)
    ensures After(Encode(DecodeRune(s).0), Some(s[DecodeRune(s).1..])) == Some(s)
  {
    EncodeOfDecode(s);
    assert s == s[..DecodeRune(s).1] + s[DecodeRune(s).1..];
  }

  lemma {:induction false} QuoteFused(graphic: rune -> bool, s: bytes)
    ensures Fused(QuoteInterior(graphic, s)) == if Readable(graphic, s) then Some(s) else None
    decreases |s|
  {
    if s == [] {
    } else if Invalid(s) {
      HexByteRejected(s[0], QuoteInterior(graphic, s[1..]));
    } else {
      var (r, size) := DecodeRune(s);
      QuoteFused(graphic, s[size..]);
      FusedOfQuotedRune(graphic, r, QuoteInterior(graphic, s[size..]));
      Reassembled(s);
    }
  }

  /**
   * A string printed by `strconv.Quote` is a JSON literal for the same bytes exactly when all its
   * runes are readable; any other one is a literal no JSON reader accepts.
   */
  lemma QuoteIsJsonIff(graphic: rune -> bool, s: bytes)
    ensures Unquote(Quote(graphic, s)) == if Readable(graphic, s) then Some(s) else None
  {
    QuoteFused(graphic, s);
    FusedIsStaged(QuoteInterior(graphic, s));
  }

  /** A byte in two hexadecimal digits, as it is printed when it is no UTF-8, or a control character. */
  ghost predicate SpellsByte(q: bytes, b: byte) {
    |q| == 4 && q[0] == 0x5C && q[1] == 0x78 && IsHex(q[2], b / 16) && IsHex(q[3], b % 16)
  }

  ghost predicate SpellsLong(q: bytes, r: rune) {
    && |q| == 10 && q[0] == 0x5C && q[1] == 0x55
    && exists a, b, c, d, e, f ::
         IsHex(q[2], 0) && IsHex(q[3], 0) && IsHex(q[4], a) && IsHex(q[5], b) && IsHex(q[6], c) && IsHex(q[7], d)
         && IsHex(q[8], e) && IsHex(q[9], f)
         && r == 0x10_0000 * a + 0x1_0000 * b + 0x1000 * c + 0x100 * d + 0x10 * e + f
  }

  /** How Go prints each rune: printable ones as they are, others by letter or in hexadecimal digits. */
  lemma RuneSpellings(graphic: rune -> bool, r: rune)
    ensures r == 0x22 || r == 0x5C ==> QuoteRune(graphic, r) == [0x5C, r]
    ensures 0x20 <= r <= 0x7E && r != 0x22 && r != 0x5C ==> QuoteRune(graphic, r) == [r]
    ensures r == 0x07 ==> QuoteRune(graphic, r) == [0x5C, 0x61]
    ensures r == 0x08 ==> QuoteRune(graphic, r) == [0x5C, 0x62]
    ensures r == 0x09 ==> QuoteRune(graphic, r) == [0x5C, 0x74]
    ensures r == 0x0A ==> QuoteRune(graphic, r) == [0x5C, 0x6E]
    ensures r == 0x0B ==> QuoteRune(graphic, r) == [0x5C, 0x76]
    ensures r == 0x0C ==> QuoteRune(graphic, r) == [0x5C, 0x66]
    ensures r == 0x0D ==> QuoteRune(graphic, r) == [0x5C, 0x72]
    ensures (r < 0x20 && !(0x07 <= r <= 0x0D)) || r == 0x7F ==> SpellsByte(QuoteRune(graphic, r), r)
    ensures r >= 0x80 && graphic(r) ==> QuoteRune(graphic, r) == Encode(r)
    ensures 0x80 <= r <= 0xFFFF && !graphic(r) ==> SpellsHex(QuoteRune(graphic, r), r)
    ensures r > 0xFFFF && !graphic(r) ==> SpellsLong(QuoteRune(graphic, r), r)
  {
    if 0x80 <= r <= 0xFFFF && !graphic(r) {
      UnicodeEscapeSpells(r);
    } else if r > 0xFFFF && !graphic(r) {
      LongSpells(graphic, r);
    }
  }

  lemma LowerHexIsHex(d: nat)
    requires d < 16
    ensures IsHex(LowerHexDigit(d), d)
  {
  }

  lemma LongSpells(graphic: rune -> bool, r: rune)
    requires r > 0xFFFF && !graphic(r)
    ensures SpellsLong(QuoteRune(graphic, r), r)
  {
    var q := QuoteRune(graphic, r);
    var a, b, c := r / 0x10_0000, r / 0x1_0000 % 16, r / 0x1000 % 16;
    var d, e, f := r / 0x100 % 16, r / 0x10 % 16, r % 16;
    HexGroups(r);
    assert 0 <= a <= 1;
    assert IsHex(q[2], 0) && IsHex(q[3], 0) && IsHex(q[4], a);
    LowerHexIsHex(b);
    LowerHexIsHex(c);
    LowerHexIsHex(d);
    LowerHexIsHex(e);
    LowerHexIsHex(f);
    assert IsHex(q[5], b) && IsHex(q[6], c) && IsHex(q[7], d) && IsHex(q[8], e) && IsHex(q[9], f);
  }

  lemma HexGroups(r: nat)
    ensures r == 0x10_0000 * (r / 0x10_0000) + 0x1_0000 * (r / 0x1_0000 % 16) + 0x1000 * (r / 0x1000 % 16)
                 + 0x100 * (r / 0x100 % 16) + 0x10 * (r / 0x10 % 16) + r % 16
  {
    assert r / 0x100 == r / 0x10 / 16 && r / 0x1000 == r / 0x100 / 16;
    assert r / 0x1_0000 == r / 0x1000 / 16 && r / 0x10_0000 == r / 0x1_0000 / 16;
  }

  /** And a byte that starts no rune. */
  lemma InvalidSpelling(graphic: rune -> bool, s: bytes)
    requires s != [] && NoCharacter(s)
    ensures SpellsByte(HexByte(s[0]), s[0])
    ensures QuoteInterior(graphic, s) == HexByte(s[0]) + QuoteInterior(graphic, s[1..])
  {
    InvalidIffNoCharacter(s);
  }

  /** A spelling a scan for the closing quote passes over. */
  predicate Piece(q: bytes) {
    if q != [] && q[0] == BACKSLASH then |q| >= 2 && Plain(q[2..]) else Plain(q)
  }

  lemma SkipPiece(q: bytes, tail: bytes)
    requires Piece(q)
    ensures CloseQuote(q + tail) == Shift(CloseQuote(tail), |q|)
  {
    if q != [] && q[0] == BACKSLASH {
      SkipEscape(q, tail);
    } else {
      SkipPlain(q, tail);
    }
  }

  lemma QuotedRuneIsPiece(graphic: rune -> bool, r: rune)
    ensures Piece(QuoteRune(graphic, r))
  {
    var q := QuoteRune(graphic, r);
    if r != 0x22 && r != 0x5C && Printable(graphic, r) {
      assert Plain(Encode(r));
    } else {
      assert Plain(q[2..]);
    }
  }

  lemma HexByteIsPiece(b: byte)
    ensures Piece(HexByte(b))
  {
    assert Plain(HexByte(b)[2..]);
  }

  lemma QuoteInteriorStep(graphic: rune -> bool, s: bytes) returns (q: bytes, rest: bytes)
    requires s != []
    ensures Piece(q) && |rest| < |s|
    ensures QuoteInterior(graphic, s) == q + QuoteInterior(graphic, rest)
  {
    var (r, size) := DecodeRune(s);
    QuotedRuneIsPiece(graphic, r);
    HexByteIsPiece(s[0]);
    q, rest := if Invalid(s) then HexByte(s[0]) else QuoteRune(graphic, r), s[size..];
  }

  /** Readable or not, the literal ends where a scan for its closing quote ends. */
  lemma {:induction false} QuoteScan(graphic: rune -> bool, s: bytes, tail: bytes)
    requires tail != [] && tail[0] == QUOTE
    ensures CloseQuote(QuoteInterior(graphic, s) + tail) == Some(|QuoteInterior(graphic, s)|)
    decreases |s|
  {
    if s == [] {
      assert [] + tail == tail;
    } else {
      var q, rest := QuoteInteriorStep(graphic, s);
      QuoteScan(graphic, rest, tail);
      SkipPiece(q, QuoteInterior(graphic, rest) + tail);
      Parts(q, QuoteInterior(graphic, rest), tail, []);
    }
  }

  lemma QuoteIsFramed(graphic: rune -> bool, s: bytes)
    ensures Framed(Quote(graphic, s))
  {
    QuoteScan(graphic, s, [QUOTE]);
    assert Quote(graphic, s)[1..] == QuoteInterior(graphic, s) + [QUOTE];
  }

  /** ASCII text with nothing to escape. */
  predicate PlainText(s: bytes) {
    forall i :: 0 <= i < |s| ==> 0x20 <= s[i] < 0x7F && s[i] != QUOTE && s[i] != BACKSLASH
  }

  lemma {:induction false} PlainTextQuotes(graphic: rune -> bool, s: bytes)
    requires PlainText(s)
    ensures QuoteInterior(graphic, s) == s && Readable(graphic, s)
  {
    if s != [] {
      PlainTextQuotes(graphic, s[1..]);
      assert s == [s[0]] + s[1..];
    }
  }

  /** Digits, digests and key names: the quoted text is the text between quotes. */
  lemma PlainTextLiteral(s: bytes)
    requires PlainText(s)
    ensures Unquote(Enquote(s)) == Some(s) && Framed(Enquote(s))
    ensures forall graphic :: Quote(graphic, s) == Enquote(s)
  {
    forall graphic: rune -> bool ensures Quote(graphic, s) == Enquote(s) {
      PlainTextQuotes(graphic, s);
    }
    var none := (r: rune) => false;
    PlainTextQuotes(none, s);
    QuoteIsJsonIff(none, s);
    QuoteIsFramed(none, s);
  }

  /** An id holding a BEL byte is printed with \\a, which no JSON reader accepts. */
  lemma UnreadableId(graphic: rune -> bool)
    ensures Quote(graphic, [7]) == [QUOTE, BACKSLASH, 0x61, QUOTE] && Unquote(Quote(graphic, [7])) == None
  {
    assert QuoteInterior(graphic, [7]) == QuoteRune(graphic, 7) + QuoteInterior(graphic, []);
    QuoteIsJsonIff(graphic, [7]);
  }
}
