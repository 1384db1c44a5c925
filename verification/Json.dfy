/**
 * A reader for the JSON the hub writes by hand: no white space, string literals kept verbatim,
 * numbers that are unsigned integers. It knows nothing of the hub's messages.
 */
module Json {
  import opened Bytes
  import Decimal
  import opened JsonString

  datatype Value =
    | Null
    | Bool(b: bool)
    | Number(n: nat)
    | Str(literal: bytes)
    | Arr(elems: seq<Value>)
    | Obj(members: seq<Member>)

  datatype Member = Member(key: bytes, value: Value)

  const COMMA: byte := 0x2C
  const COLON: byte := 0x3A

  // ----- Printing -----

  function Print(j: Value): bytes
    decreases j
  {
    match j
    case Null => Ascii("null")
    case Bool(b) => if b then Ascii("true") else Ascii("false")
    case Number(n) => Decimal.Print(n)
    case Str(l) => l
    case Arr(es) => [0x5B] + PrintElems(es) + [0x5D]
    case Obj(ms) => [0x7B] + PrintMembers(ms) + [0x7D]
  }

  function PrintElems(es: seq<Value>): bytes
    decreases es
  {
    if es == [] then []
    else if |es| == 1 then Print(es[0])
    else Print(es[0]) + [COMMA] + PrintElems(es[1..])
  }

  function PrintMember(m: Member): bytes
    decreases m
  {
    m.key + [COLON] + Print(m.value)
  }

  function PrintMembers(ms: seq<Member>): bytes
    decreases ms
  {
    if ms == [] then []
    else if |ms| == 1 then PrintMember(ms[0])
    else PrintMember(ms[0]) + [COMMA] + PrintMembers(ms[1..])
  }

  /** Every string in the value satisfies `framed`, which must mean that a scan finds its end. */
  predicate WellFormed(framed: bytes -> bool, j: Value)
    decreases j
  {
    match j
    case Str(l) => framed(l)
    case Arr(es) => forall e | e in es :: WellFormed(framed, e)
    case Obj(ms) => forall m | m in ms :: framed(m.key) && WellFormed(framed, m.value)
    case _ => true
  }

  // ----- Reading -----

  /** What was read from the front of the input, and what is left. */
  datatype Parsed<+T> = Fail | Done(value: T, rest: bytes)

  predicate StartsWith(s: bytes, prefix: bytes) {
    |prefix| <= |s| && s[..|prefix|] == prefix
  }

  function DigitRun(s: bytes): (n: nat)
    ensures n <= |s| && Decimal.AllDigits(s[..n])
    ensures n < |s| ==> !Decimal.IsDigit(s[n])
  {
    if s == [] || !Decimal.IsDigit(s[0]) then 0
    else
      var n := DigitRun(s[1..]) + 1;
      assert forall i :: 0 < i < n ==> s[..n][i] == s[1..][..n - 1][i - 1];
      n
  }

  function ParseString(s: bytes): (p: Parsed<bytes>)
    ensures p.Done? ==> |p.rest| < |s|
  {
    if s == [] || s[0] != QUOTE then Fail
    else match CloseQuote(s[1..])
         case None => Fail
         case Some(n) => Done(s[..n + 2], s[n + 2..])
  }

  function Parse(s: bytes): (p: Parsed<Value>)
    ensures p.Done? ==> |p.rest| < |s|
    decreases |s|, 0
  {
    if s == [] then Fail
    else if s[0] == QUOTE then
      match ParseString(s)
      case Fail => Fail
      case Done(l, rest) => Done(Str(l), rest)
    else if s[0] == 0x5B then
      if |s| >= 2 && s[1] == 0x5D then Done(Arr([]), s[2..])
      else match ParseElems(s[1..])
           case Fail => Fail
           case Done(es, rest) => Done(Arr(es), rest)
    else if s[0] == 0x7B then
      if |s| >= 2 && s[1] == 0x7D then Done(Obj([]), s[2..])
      else match ParseMembers(s[1..])
           case Fail => Fail
           case Done(ms, rest) => Done(Obj(ms), rest)
    else if Decimal.IsDigit(s[0]) then
      var n := DigitRun(s);
      if Decimal.IsCanonicalDecimal(s[..n]) then Done(Number(Decimal.Value(s[..n])), s[n..]) else Fail
    else if StartsWith(s, Ascii("null")) then Done(Null, s[4..])
    else if StartsWith(s, Ascii("true")) then Done(Bool(true), s[4..])
    else if StartsWith(s, Ascii("false")) then Done(Bool(false), s[5..])
    else Fail
  }

  /** One or more elements and the closing bracket. */
  function ParseElems(s: bytes): (p: Parsed<seq<Value>>)
    ensures p.Done? ==> |p.rest| < |s|
    decreases |s|, 1
  {
    match Parse(s)
    case Fail => Fail
    case Done(e, rest) =>
      if rest == [] then Fail
      else if rest[0] == 0x5D then Done([e], rest[1..])
      else if rest[0] == COMMA then
        match ParseElems(rest[1..])
        case Fail => Fail
        case Done(es, rest') => Done([e] + es, rest')
      else Fail
  }

  function ParseMember(s: bytes): (p: Parsed<Member>)
    ensures p.Done? ==> |p.rest| < |s|
    decreases |s|, 1
  {
    match ParseString(s)
    case Fail => Fail
    case Done(key, rest) =>
      if rest == [] || rest[0] != COLON then Fail
      else match Parse(rest[1..])
           case Fail => Fail
           case Done(v, rest') => Done(Member(key, v), rest')
  }

  /** One or more members and the closing brace. */
  function ParseMembers(s: bytes): (p: Parsed<seq<Member>>)
    ensures p.Done? ==> |p.rest| < |s|
    decreases |s|, 2
  {
    match ParseMember(s)
    case Fail => Fail
    case Done(m, rest) =>
      if rest == [] then Fail
      else if rest[0] == 0x7D then Done([m], rest[1..])
      else if rest[0] == COMMA then
        match ParseMembers(rest[1..])
        case Fail => Fail
        case Done(ms, rest') => Done([m] + ms, rest')
      else Fail
  }

  /** A whole document: one value and nothing after it. */
  function Read(s: bytes): Option<Value> {
    match Parse(s)
    case Done(j, rest) => if rest == [] then Some(j) else None
    case Fail => None
  }

  // ----- The reader undoes the printer -----

  lemma ParseStringLiteral(l: bytes, tail: bytes)
    requires Framed(l)
    ensures ParseString(l + tail) == Done(l, tail)
  {
    var s := l + tail;
    CloseQuoteOfPrefix(l[1..], tail);
    assert s[1..] == l[1..] + tail;
    assert s[..|l|] == l && s[|l|..] == tail;
  }

  lemma {:induction false} DigitRunPrefix(d: bytes, tail: bytes)
    requires Decimal.AllDigits(d)
    requires tail == [] || !Decimal.IsDigit(tail[0])
    ensures DigitRun(d + tail) == |d|
  {
    if d == [] {
      assert d + tail == tail;
    } else {
      DigitRunPrefix(d[1..], tail);
      assert (d + tail)[1..] == d[1..] + tail;
    }
  }

  lemma ParseNumber(n: nat, tail: bytes)
    requires tail == [] || !Decimal.IsDigit(tail[0])
    ensures Parse(Decimal.Print(n) + tail) == Done(Number(n), tail)
  {
    var d := Decimal.Print(n);
    var s := d + tail;
    DigitRunPrefix(d, tail);
    Decimal.PrintIsCanonical(n);
    assert s[..|d|] == d && s[|d|..] == tail;
    assert Decimal.IsDigit(s[0]);
  }

  lemma ParseWord(w: bytes, tail: bytes)
    requires w == Ascii("null") || w == Ascii("true") || w == Ascii("false")
    ensures Parse(w + tail) == Done(if w[0] == 0x6E then Null else Bool(w[0] == 0x74), tail)
  {
    var s := w + tail;
    assert s[..|w|] == w && s[|w|..] == tail;
    assert s[0] == w[0];
    assert Ascii("null")[0] == 0x6E && Ascii("true")[0] == 0x74 && Ascii("false")[0] == 0x66;
    if StartsWith(s, Ascii("null")) { assert s[0] == s[..4][0]; }
    if StartsWith(s, Ascii("true")) { assert s[0] == s[..4][0]; }
  }

  // One lemma for each way the reader can take a step.

  lemma ArrStep(s: bytes, es: seq<Value>, rest: bytes)
    requires s != [] && s[0] != 0x5D && ParseElems(s) == Done(es, rest)
    ensures Parse([0x5B] + s) == Done(Arr(es), rest)
  {
    assert ([0x5B] + s)[1..] == s;
  }

  lemma ObjStep(s: bytes, ms: seq<Member>, rest: bytes)
    requires s != [] && s[0] != 0x7D && ParseMembers(s) == Done(ms, rest)
    ensures Parse([0x7B] + s) == Done(Obj(ms), rest)
  {
    assert ([0x7B] + s)[1..] == s;
  }

  lemma EmptyStep(rest: bytes)
    ensures Parse([0x5B, 0x5D] + rest) == Done(Arr([]), rest)
    ensures Parse([0x7B, 0x7D] + rest) == Done(Obj([]), rest)
  {
    assert ([0x5B, 0x5D] + rest)[2..] == rest && ([0x7B, 0x7D] + rest)[2..] == rest;
  }

  lemma LastElem(s: bytes, e: Value, rest: bytes)
    requires Parse(s) == Done(e, [0x5D] + rest)
    ensures ParseElems(s) == Done([e], rest)
  {
    assert ([0x5D] + rest)[1..] == rest;
  }

  lemma NextElem(s: bytes, e: Value, rest: bytes, es: seq<Value>, rest': bytes)
    requires Parse(s) == Done(e, [COMMA] + rest) && ParseElems(rest) == Done(es, rest')
    ensures ParseElems(s) == Done([e] + es, rest')
  {
    assert ([COMMA] + rest)[1..] == rest;
  }

  lemma MemberStep(s: bytes, key: bytes, rest: bytes, v: Value, rest': bytes)
    requires ParseString(s) == Done(key, [COLON] + rest) && Parse(rest) == Done(v, rest')
    ensures ParseMember(s) == Done(Member(key, v), rest')
  {
    assert ([COLON] + rest)[1..] == rest;
  }

  lemma LastMember(s: bytes, m: Member, rest: bytes)
    requires ParseMember(s) == Done(m, [0x7D] + rest)
    ensures ParseMembers(s) == Done([m], rest)
  {
    assert ([0x7D] + rest)[1..] == rest;
  }

  lemma NextMember(s: bytes, m: Member, rest: bytes, ms: seq<Member>, rest': bytes)
    requires ParseMember(s) == Done(m, [COMMA] + rest) && ParseMembers(rest) == Done(ms, rest')
    ensures ParseMembers(s) == Done([m] + ms, rest')
  {
    assert ([COMMA] + rest)[1..] == rest;
  }

  lemma StrStep(l: bytes, rest: bytes)
    requires Framed(l)
    ensures Parse(l + rest) == Done(Str(l), rest)
  {
    ParseStringLiteral(l, rest);
  }

  lemma FirstByte(framed: bytes -> bool, j: Value)
    requires forall l :: framed(l) ==> Framed(l)
    requires WellFormed(framed, j)
    ensures Print(j) != [] && Print(j)[0] != 0x5D && Print(j)[0] != 0x7D
  {
  }

  lemma {:induction false} ParsePrint(framed: bytes -> bool, j: Value, tail: bytes)
    requires forall l :: framed(l) ==> Framed(l)
    requires WellFormed(framed, j)
    requires tail == [] || !Decimal.IsDigit(tail[0])
    ensures Parse(Print(j) + tail) == Done(j, tail)
    decreases j
  {
    match j
    case Null => ParseWord(Print(j), tail);
    case Bool(b) => ParseWord(Print(j), tail);
    case Number(n) => ParseNumber(n, tail);
    case Str(l) => StrStep(l, tail);
    case Arr(es) =>
      if es == [] {
        EmptyStep(tail);
        assert Print(j) == [0x5B, 0x5D];
      } else {
        ParsePrintElems(framed, es, tail);
        var s := PrintElems(es) + ([0x5D] + tail);
        ArrStep(s, es, tail);
        Regroup([0x5B], PrintElems(es), [0x5D], tail);
      }
    case Obj(ms) =>
      if ms == [] {
        EmptyStep(tail);
        assert Print(j) == [0x7B, 0x7D];
      } else {
        ParsePrintMembers(framed, ms, tail);
        var s := PrintMembers(ms) + ([0x7D] + tail);
        ObjStep(s, ms, tail);
        Regroup([0x7B], PrintMembers(ms), [0x7D], tail);
      }
  }

  lemma {:induction false} ParsePrintElems(framed: bytes -> bool, es: seq<Value>, tail: bytes)
    requires forall l :: framed(l) ==> Framed(l)
    requires es != [] && forall e | e in es :: WellFormed(framed, e)
    ensures PrintElems(es) != [] && PrintElems(es)[0] != 0x5D
    ensures ParseElems(PrintElems(es) + ([0x5D] + tail)) == Done(es, tail)
    decreases es
  {
    FirstByte(framed, es[0]);
    if |es| == 1 {
      ParsePrint(framed, es[0], [0x5D] + tail);
      LastElem(Print(es[0]) + ([0x5D] + tail), es[0], tail);
      assert [es[0]] == es;
    } else {
      var rest := PrintElems(es[1..]) + ([0x5D] + tail);
      ParsePrint(framed, es[0], [COMMA] + rest);
      ParsePrintElems(framed, es[1..], tail);
      NextElem(Print(es[0]) + ([COMMA] + rest), es[0], rest, es[1..], tail);
      Regroup(Print(es[0]), [COMMA], PrintElems(es[1..]), [0x5D] + tail);
      assert [es[0]] + es[1..] == es;
    }
  }

  lemma {:induction false} ParsePrintMember(framed: bytes -> bool, m: Member, tail: bytes)
    requires forall l :: framed(l) ==> Framed(l)
    requires framed(m.key) && WellFormed(framed, m.value)
    requires tail == [] || !Decimal.IsDigit(tail[0])
    ensures ParseMember(PrintMember(m) + tail) == Done(m, tail)
    decreases m
  {
    var rest := Print(m.value) + tail;
    ParsePrint(framed, m.value, tail);
    ParseStringLiteral(m.key, [COLON] + rest);
    MemberStep(m.key + ([COLON] + rest), m.key, rest, m.value, tail);
    Regroup(m.key, [COLON], Print(m.value), tail);
  }

  lemma {:induction false} ParsePrintMembers(framed: bytes -> bool, ms: seq<Member>, tail: bytes)
    requires forall l :: framed(l) ==> Framed(l)
    requires ms != [] && forall m | m in ms :: framed(m.key) && WellFormed(framed, m.value)
    ensures PrintMembers(ms) != [] && PrintMembers(ms)[0] != 0x7D
    ensures ParseMembers(PrintMembers(ms) + ([0x7D] + tail)) == Done(ms, tail)
    decreases ms
  {
    assert PrintMember(ms[0])[0] == ms[0].key[0] == QUOTE;
    if |ms| == 1 {
      ParsePrintMember(framed, ms[0], [0x7D] + tail);
      LastMember(PrintMember(ms[0]) + ([0x7D] + tail), ms[0], tail);
      assert [ms[0]] == ms;
    } else {
      var rest := PrintMembers(ms[1..]) + ([0x7D] + tail);
      ParsePrintMember(framed, ms[0], [COMMA] + rest);
      ParsePrintMembers(framed, ms[1..], tail);
      NextMember(PrintMember(ms[0]) + ([COMMA] + rest), ms[0], rest, ms[1..], tail);
      Regroup(PrintMember(ms[0]), [COMMA], PrintMembers(ms[1..]), [0x7D] + tail);
      assert [ms[0]] + ms[1..] == ms;
    }
  }

  /** Reading what was printed gives the value back, literals byte for byte. */
  lemma ReadPrint(framed: bytes -> bool, j: Value)
    requires forall l :: framed(l) ==> Framed(l)
    requires WellFormed(framed, j)
    ensures Read(Print(j)) == Some(j)
  {
    ParsePrint(framed, j, []);
    NoTail(Print(j));
  }
}
