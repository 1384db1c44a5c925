/** Byte strings, as Go's `string` and `[]byte`, and the two result types the models share. */
module Bytes {
  type byte = b: int | 0 <= b < 256
  type bytes = seq<byte>

  datatype Option<+T> = None | Some(value: T)

  datatype Result<+T, +E> = Ok(value: T) | Err(error: E)

  const QUOTE: byte := 0x22
  const BACKSLASH: byte := 0x5C

  /** The bytes of an ASCII string constant. */
  function Ascii(s: string): (b: bytes)
    requires forall i :: 0 <= i < |s| ==> s[i] as int < 128
    ensures |b| == |s|
    ensures forall i :: 0 <= i < |s| ==> b[i] == s[i] as int
  {
    seq(|s|, i requires 0 <= i < |s| => s[i] as int)
  }

  lemma Slices<T>(s: seq<T>, i: nat, k: nat)
    requires i + k <= |s|
    ensures s[i..i + k] == s[i..][..k]
    ensures s[i + k..] == s[i..][k..]
  {
  }

  lemma Regroup<T>(a: seq<T>, b: seq<T>, c: seq<T>, d: seq<T>)
    ensures a + b + c + d == a + (b + (c + d))
  {
  }

  lemma NoHead<T>(a: seq<T>)
    ensures [] + a == a
  {
  }

  lemma NoTail<T>(a: seq<T>)
    ensures a + [] == a
  {
  }

  /** Appending a concatenation is appending its parts in turn. */
  lemma Parts<T>(d: seq<T>, a: seq<T>, b: seq<T>, c: seq<T>)
    ensures d + (a + b) == d + a + b
    ensures d + (a + b + c) == d + a + b + c
  {
  }

  lemma Parts5<T>(d: seq<T>, a: seq<T>, b: seq<T>, c: seq<T>, e: seq<T>, f: seq<T>)
    ensures d + (a + b + c + e) == d + a + b + c + e
    ensures d + (a + b + c + e + f) == d + a + b + c + e + f
  {
    Parts(d, a, b, c);
    Parts(d, a + b + c, e, f);
  }
}
