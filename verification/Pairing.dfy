/**
 * One pairing window used by one process at a time: internal/pair/codes.go and the sequential
 * behaviour of internal/pair/window_file.go. Both are proved against one small reference window.
 * The races of the file-backed one are in `PairingRace`.
 */
module Pairing {
  import opened Bytes

  const MAX_ATTEMPTS: nat := 5

  /** Clock readings are nanoseconds since 1970, as Go keeps them. */
  function UnixMilli(t: int): int { t / 1_000_000 }

  datatype Verdict = NoWindow | BadCode | TooManyAttempts | Released

  // ----- Codes -----

  predicate IsNumeral(b: byte) { 48 <= b <= 57 }

  /** The digits of what was typed. */
  function Digits(code: bytes): bytes {
    if code == [] then []
    else if IsNumeral(code[0]) then [code[0]] + Digits(code[1..])
    else Digits(code[1..])
  }

  lemma {:induction false} DigitsConcat(a: bytes, b: bytes)
    ensures Digits(a + b) == Digits(a) + Digits(b)
  {
    if a == [] {
      assert a + b == b;
    } else {
      DigitsConcat(a[1..], b);
      assert (a + b)[1..] == a[1..] + b;
    }
  }

  lemma {:induction false} DigitsOfDigits(code: bytes)
    ensures Digits(Digits(code)) == Digits(code)
    ensures (forall b | b in code :: IsNumeral(b)) ==> Digits(code) == code
  {
    if code != [] {
      DigitsOfDigits(code[1..]);
      assert code == [code[0]] + code[1..];
      if IsNumeral(code[0]) { assert Digits(code)[1..] == Digits(code[1..]); }
    }
  }

  /** The characters 0 to 9 are kept, in order, and nothing else is. */
  lemma DigitsKeepNumerals(c: byte, rest: bytes)
    ensures Digits([]) == []
    ensures Digits([c] + rest) == (if '0' as int <= c <= '9' as int then [c] else []) + Digits(rest)
  {
    assert ([c] + rest)[1..] == rest;
  }

  method Normalise(code: bytes) returns (out: bytes)
    ensures out == Digits(code)
  {
    out := [];
    for i := 0 to |code|
      invariant out == Digits(code[..i])
    {
      DigitsConcat(code[..i], [code[i]]);
      assert code[..i + 1] == code[..i] + [code[i]];
      if IsNumeral(code[i]) {
        out := out + [code[i]];
      }
    }
    assert code[..|code|] == code;
  }

  /** `newCode` from nine random digits, shown in three groups. */
  function NewCode(digits: bytes): bytes
    requires |digits| == 9
  {
    digits[0..3] + [45] + digits[3..6] + [45] + digits[6..9]
  }

  lemma DashIsDropped(a: bytes, b: bytes)
    ensures Digits(a + [45] + b) == Digits(a) + Digits(b)
  {
    DigitsConcat(a + [45], b);
    DigitsConcat(a, [45]);
  }

  lemma GroupsAreDigits(a: bytes, b: bytes, c: bytes)
    requires forall x | x in a + b + c :: IsNumeral(x)
    ensures Digits(a + [45] + b + [45] + c) == a + b + c
  {
    DashIsDropped(a + [45] + b, c);
    DashIsDropped(a, b);
    assert forall x :: x in a || x in b || x in c ==> x in a + b + c;
    DigitsOfDigits(a);
    DigitsOfDigits(b);
    DigitsOfDigits(c);
  }

  /** However the digits are grouped when they are typed in, the code is recognised. */
  lemma GroupingIsIgnored(digits: bytes)
    requires |digits| == 9 && forall b | b in digits :: IsNumeral(b)
    ensures Digits(NewCode(digits)) == digits && NewCode(digits) != []
    ensures NewCode(digits) == digits[..3] + Ascii("-") + digits[3..6] + Ascii("-") + digits[6..]
  {
    assert Ascii("-") == [45];
    assert digits == digits[0..3] + digits[3..6] + digits[6..9];
    GroupsAreDigits(digits[0..3], digits[3..6], digits[6..9]);
  }

  // ----- The reference window -----

  /** A window is closed, or open for a code after some wrong guesses. */
  datatype Abstract = Closed | Open(code: bytes, attempts: nat)

  /** What a guess does, given whether the window is judged to have expired. */
  function Guess(w: Abstract, digits: bytes, expired: bool): (Abstract, Verdict) {
    match w
    case Closed => (Closed, NoWindow)
    case Open(code, attempts) =>
      if expired then (Closed, NoWindow)
      else if attempts >= MAX_ATTEMPTS then (Closed, TooManyAttempts)
      else if digits == code then (Closed, Released)
      else if attempts + 1 >= MAX_ATTEMPTS then (Closed, TooManyAttempts)
      else (Open(code, attempts + 1), BadCode)
  }

  /** An open window has guesses left, unless a full one could not be removed. */
  predicate Proper(w: Abstract) { w.Open? ==> w.attempts < MAX_ATTEMPTS }

  /** The verdicts on a series of guesses, each with its expiry judgement. */
  function Play(w: Abstract, guesses: seq<(bytes, bool)>): (vs: seq<Verdict>)
    ensures |vs| == |guesses|
    decreases |guesses|
  {
    if guesses == [] then []
    else
      var (w', v) := Guess(w, guesses[0].0, guesses[0].1);
      [v] + Play(w', guesses[1..])
  }

  function Wrong(vs: seq<Verdict>): nat {
    if vs == [] then 0 else (if vs[0] == BadCode || vs[0] == TooManyAttempts then 1 else 0) + Wrong(vs[1..])
  }

  function Releases(vs: seq<Verdict>): nat {
    if vs == [] then 0 else (if vs[0] == Released then 1 else 0) + Releases(vs[1..])
  }

  // Both count places in the series.

  function WrongAt(vs: seq<Verdict>): set<nat> {
    set i: nat | i < |vs| && (vs[i] == BadCode || vs[i] == TooManyAttempts)
  }

  function ReleasedAt(vs: seq<Verdict>): set<nat> { set i: nat | i < |vs| && vs[i] == Released }

  lemma {:induction false} CountsArePlaces(vs: seq<Verdict>)
    ensures Wrong(vs) == |WrongAt(vs)| && Releases(vs) == |ReleasedAt(vs)|
  {
    if vs == [] {
      assert WrongAt(vs) == {} && ReleasedAt(vs) == {};
    } else {
      CountsArePlaces(vs[1..]);
      Shifted(WrongAt(vs), WrongAt(vs[1..]), vs[0] == BadCode || vs[0] == TooManyAttempts);
      Shifted(ReleasedAt(vs), ReleasedAt(vs[1..]), vs[0] == Released);
    }
  }

  /** A set of places one further on, and 0 if it is one. */
  lemma Shifted(a: set<nat>, b: set<nat>, zero: bool)
    requires 0 in a <==> zero
    requires forall i: nat :: i + 1 in a <==> i in b
    ensures |a| == |b| + if zero then 1 else 0
  {
    var up := set i | i in b :: i + 1;
    SameSize(b, up);
    assert a == up + if zero then {0} else {} by {
      forall x | x in a && x != 0 ensures x in up { assert x - 1 in b && x == x - 1 + 1; }
      forall x | x in up ensures x in a { var i :| i in b && x == i + 1; }
    }
  }

  lemma {:induction false} SameSize(b: set<nat>, up: set<nat>)
    requires up == set i | i in b :: i + 1
    ensures |up| == |b|
    decreases |b|
  {
    if b == {} {
      assert up == {};
    } else {
      var i :| i in b;
      var rest := set j | j in b - {i} :: j + 1;
      SameSize(b - {i}, rest);
      forall x ensures x in up <==> x in rest || x == i + 1 {
        if x in up {
          var j :| j in b && x == j + 1;
          assert j == i || j in b - {i};
        }
      }
      assert up == rest + {i + 1} && i + 1 !in rest;
    }
  }

  lemma {:induction false} ClosedForGood(guesses: seq<(bytes, bool)>)
    ensures Wrong(Play(Closed, guesses)) == 0 && Releases(Play(Closed, guesses)) == 0
    decreases |guesses|
  {
    if guesses != [] {
      ClosedForGood(guesses[1..]);
      assert Play(Closed, guesses)[1..] == Play(Closed, guesses[1..]);
    }
  }

  /**
   * Whatever is guessed: at most five wrong codes are looked at, the key is released at most once,
   * and never in a series that used up the five.
   */
  lemma {:induction false} Budget(w: Abstract, guesses: seq<(bytes, bool)>)
    requires Proper(w)
    ensures Releases(Play(w, guesses)) <= 1
    ensures w.Open? ==> w.attempts + Wrong(Play(w, guesses)) + Releases(Play(w, guesses)) <= 5
    decreases |guesses|
  {
    if guesses != [] {
      var (w', v) := Guess(w, guesses[0].0, guesses[0].1);
      assert Play(w, guesses)[1..] == Play(w', guesses[1..]);
      Budget(w', guesses[1..]);
      ClosedForGood(guesses[1..]);
    }
  }

  lemma {:induction false} ClosedReleasesNothing(guesses: seq<(bytes, bool)>, i: nat)
    requires i < |guesses|
    ensures Play(Closed, guesses)[i] == NoWindow
    decreases |guesses|
  {
    if i > 0 { ClosedReleasesNothing(guesses[1..], i - 1); }
  }

  /**
   * A guess gets the key exactly if it is the right code, nothing up to it was judged too late, it is
   * the first right one, and fewer than five wrong ones came before it.
   */
  lemma {:induction false} ReleasedExactlyWhen(code: bytes, attempts: nat, guesses: seq<(bytes, bool)>, i: nat)
    requires i < |guesses|
    ensures Play(Open(code, attempts), guesses)[i] == Released <==>
            && guesses[i].0 == code
            && (forall k :: 0 <= k <= i ==> !guesses[k].1)
            && (forall k :: 0 <= k < i ==> guesses[k].0 != code)
            && attempts + i < 5
    decreases |guesses|
  {
    var (w', v) := Guess(Open(code, attempts), guesses[0].0, guesses[0].1);
    var rest := guesses[1..];
    if i > 0 {
      assert Play(Open(code, attempts), guesses)[i] == Play(w', rest)[i - 1];
      assert forall k :: 0 <= k < |rest| ==> rest[k] == guesses[k + 1];
      if w'.Closed? {
        ClosedReleasesNothing(rest, i - 1);
      } else {
        ReleasedExactlyWhen(code, attempts + 1, rest, i - 1);
        assert forall k :: 0 < k <= i ==> guesses[k] == rest[k - 1];
      }
    }
  }

  // ----- The window in memory -----

  class Window {
    var code: bytes
    var psk: bytes
    var expires: int
    var attempts: int
    var redeemed: bool

    ghost predicate Valid()
      reads this
    {
      attempts >= 0
    }

    ghost function View(): Abstract
      reads this
      requires Valid()
    {
      if redeemed || code == [] then Closed else Open(Digits(code), attempts)
    }

    constructor (psk: bytes, digits: bytes, expires: int)
      requires |digits| == 9 && forall b | b in digits :: IsNumeral(b)
      ensures Valid() && View() == Open(digits, 0) && this.psk == psk && this.expires == expires
    {
      this.code, this.psk, this.expires := NewCode(digits), psk, expires;
      attempts, redeemed := 0, false;
      GroupingIsIgnored(digits);
    }

    /** `Redeem`: the verdict, and the key exactly when it is released. */
    method Redeem(guess: bytes, now: int) returns (v: Verdict, key: Option<bytes>)
      requires Valid()
      modifies this
      ensures Valid() && psk == old(psk) && expires == old(expires)
      ensures (View(), v) == Guess(old(View()), Digits(guess), now > expires)
      ensures key == if v == Released then Some(psk) else None
    {
      if redeemed || code == [] {
        return NoWindow, None;
      }
      if now > expires {
        code := [];
        return NoWindow, None;
      }
      if attempts >= MAX_ATTEMPTS {
        code := [];
        return TooManyAttempts, None;
      }
      var given := Normalise(guess);
      var wanted := Normalise(code);
      if given != wanted {
        attempts := attempts + 1;
        if attempts >= MAX_ATTEMPTS {
          code := [];
          return TooManyAttempts, None;
        }
        return BadCode, None;
      }
      redeemed := true;
      return Released, Some(psk);
    }
  }

  // ----- The window in a file -----

  /** Which of the file operations of one call fail. */
  datatype Faults = Faults(write: bool, remove: bool, load: bool)

  const NO_FAULTS: Faults := Faults(false, false, false)

  /** A verdict, or the error of a file operation; no key then. */
  datatype FileVerdict = Judged(verdict: Verdict) | FileError

  /**
   * A guess when file operations may fail. A failed removal leaves an expired or used-up window where
   * it is, a failed write forgets a wrong guess, and the key is released only if the keys were loaded
   * and the window is gone.
   */
  function GuessFaulty(w: Abstract, digits: bytes, expired: bool, f: Faults): (Abstract, FileVerdict) {
    var (w', v) := Guess(w, digits, expired);
    match w
    case Closed => (w', Judged(v))
    case Open(code, attempts) =>
      match v
      case NoWindow => (if f.remove then w else w', Judged(v))
      case Released => if f.load || f.remove then (w, FileError) else (w', Judged(v))
      case BadCode => (if f.write then w else w', Judged(v))
      case TooManyAttempts =>
        (if !f.remove then w' else if f.write || attempts >= MAX_ATTEMPTS then w else Open(code, attempts + 1),
         Judged(v))
  }

  /** Without faults it is the reference window; with any, no wrong code or late guess gets the key. */
  lemma FaultsReleaseNothing(w: Abstract, digits: bytes, expired: bool, f: Faults)
    ensures GuessFaulty(w, digits, expired, NO_FAULTS) ==
            (Guess(w, digits, expired).0, Judged(Guess(w, digits, expired).1))
    ensures GuessFaulty(w, digits, expired, f).1 == Judged(Released) ==>
              Guess(w, digits, expired) == (Closed, Released) && GuessFaulty(w, digits, expired, f).0 == Closed
  {
  }

  /** The window file: a hash, a deadline in milliseconds and the wrong guesses so far. */
  datatype WindowState = WindowState(codeHash: bytes, expiresAt: int, attempts: int)

  class FileWindow {
    /** SHA-256 of the prefixed digits; the calls see only that. */
    const hash: bytes -> bytes
    var file: Option<WindowState>
    var psk: bytes
    /** The code the open window was made for; nothing in the file can be turned back into it. */
    ghost var code: bytes

    ghost predicate Valid()
      reads this
    {
      file.Some? ==> file.value.codeHash == hash(code) && file.value.attempts >= 0
    }

    ghost function View(): Abstract
      reads this
      requires Valid()
    {
      if file.None? then Closed else Open(code, file.value.attempts)
    }

    constructor (hash: bytes -> bytes, psk: bytes)
      ensures Valid() && View() == Closed && this.hash == hash && this.psk == psk
    {
      this.hash, this.psk, this.file := hash, psk, None;
      code := [];
    }

    /** `Open`: an earlier window is replaced, or, if the file cannot be written, left as it is. */
    method OpenWindow(digits: bytes, expires: int, fails: bool) returns (shown: Option<bytes>)
      requires Valid() && |digits| == 9 && forall b | b in digits :: IsNumeral(b)
      modifies this`file, this`code
      ensures Valid() && shown == if fails then None else Some(NewCode(digits))
      ensures fails ==> file == old(file) && View() == old(View())
      ensures !fails ==> View() == Open(Digits(shown.value), 0) && Digits(shown.value) == digits
      ensures !fails ==> file.value.expiresAt == UnixMilli(expires) == expires / 1_000_000
      ensures !fails ==> shown.value == digits[..3] + Ascii("-") + digits[3..6] + Ascii("-") + digits[6..]
    {
      GroupingIsIgnored(digits);
      var normalised := Normalise(NewCode(digits));
      WriteAtomic(WindowState(hash(normalised), UnixMilli(expires), 0), fails);
      if fails {
        return None;
      }
      code := digits;
      return Some(NewCode(digits));
    }

    method Close(fails: bool) returns (ok: bool)
      modifies this`file
      ensures ok == !fails && file == if fails then old(file) else None
    {
      if !fails {
        file := None;
      }
      return !fails;
    }

    /** `writeAtomic`: the whole new state or, on a failure, the old one. */
    method WriteAtomic(state: WindowState, fails: bool)
      modifies this`file
      ensures file == if fails then old(file) else Some(state)
    {
      if !fails {
        file := Some(state);
      }
    }

    /** `Redeem`, whichever file operations fail: judged by whole milliseconds, compared by hash. */
    method Redeem(guess: bytes, now: int, f: Faults) returns (v: FileVerdict, key: Option<bytes>)
      requires Valid()
      requires hash(Digits(guess)) == hash(code) ==> Digits(guess) == code
      modifies this`file
      ensures Valid()
      ensures (View(), v) ==
              GuessFaulty(old(View()), Digits(guess), old(file).Some? && UnixMilli(now) > old(file).value.expiresAt, f)
      ensures key == if v == Judged(Released) then Some(psk) else None
      ensures file.Some? ==> old(file).Some? && file.value.expiresAt == old(file).value.expiresAt
    {
      if file.None? {
        return Judged(NoWindow), None;
      }
      var state := file.value;
      if UnixMilli(now) > state.expiresAt {
        var _ := Close(f.remove);
        return Judged(NoWindow), None;
      }
      if state.attempts >= MAX_ATTEMPTS {
        var _ := Close(f.remove);
        return Judged(TooManyAttempts), None;
      }
      var given := Normalise(guess);
      if hash(given) != state.codeHash {
        state := state.(attempts := state.attempts + 1);
        WriteAtomic(state, f.write);
        if state.attempts >= MAX_ATTEMPTS {
          var _ := Close(f.remove);
          return Judged(TooManyAttempts), None;
        }
        return Judged(BadCode), None;
      }
      if f.load {
        return FileError, None;
      }
      var ok := Close(f.remove);
      if !ok {
        return FileError, None;
      }
      return Judged(Released), Some(psk);
    }
  }

  // ----- The two windows are twins -----

  /** A guess and the clock reading it is made at. */
  type Input = (bytes, int)

  /** The guesses with the in-memory judgement, and with the file's, which drops the sub-millisecond part. */
  function Exact(inputs: seq<Input>, expires: int): (gs: seq<(bytes, bool)>)
    ensures |gs| == |inputs|
    ensures forall i :: 0 <= i < |inputs| ==> gs[i] == (Digits(inputs[i].0), inputs[i].1 > expires)
  {
    seq(|inputs|, i requires 0 <= i < |inputs| => (Digits(inputs[i].0), inputs[i].1 > expires))
  }

  function Rounded(inputs: seq<Input>, expires: int): (gs: seq<(bytes, bool)>)
    ensures |gs| == |inputs|
    ensures forall i :: 0 <= i < |inputs| ==>
              gs[i] == (Digits(inputs[i].0), UnixMilli(inputs[i].1) > UnixMilli(expires))
  {
    seq(|inputs|, i requires 0 <= i < |inputs| => (Digits(inputs[i].0), UnixMilli(inputs[i].1) > UnixMilli(expires)))
  }

  /** At no reading made while the window is open do the two judgements differ. */
  predicate AgreeWhileOpen(w: Abstract, inputs: seq<Input>, expires: int)
    decreases |inputs|
  {
    inputs != [] && w.Open? ==>
      var (guess, now) := inputs[0];
      && (now > expires <==> UnixMilli(now) > UnixMilli(expires))
      && AgreeWhileOpen(Guess(w, Digits(guess), now > expires).0, inputs[1..], expires)
  }

  lemma {:induction false} ClosedPlays(gs: seq<(bytes, bool)>, hs: seq<(bytes, bool)>)
    requires |gs| == |hs|
    ensures Play(Closed, gs) == Play(Closed, hs)
    decreases |gs|
  {
    if gs != [] { ClosedPlays(gs[1..], hs[1..]); }
  }

  /**
   * Both windows give the same verdicts on every series of guesses and readings, in any order and
   * with the clock running backwards too, exactly when no reading falls into the one millisecond
   * in which they judge the deadline differently.
   */
  lemma {:induction false} TwinsAgreeIff(w: Abstract, inputs: seq<Input>, expires: int)
    ensures Play(w, Exact(inputs, expires)) == Play(w, Rounded(inputs, expires)) <==> AgreeWhileOpen(w, inputs, expires)
    decreases |inputs|
  {
    var gs, hs := Exact(inputs, expires), Rounded(inputs, expires);
    if w.Closed? {
      ClosedPlays(gs, hs);
    } else if inputs != [] {
      var (w1, v1) := Guess(w, gs[0].0, gs[0].1);
      var (w2, v2) := Guess(w, hs[0].0, hs[0].1);
      TwinsAgreeIff(w1, inputs[1..], expires);
      assert gs[1..] == Exact(inputs[1..], expires) && hs[1..] == Rounded(inputs[1..], expires);
      assert Play(w, gs) == [v1] + Play(w1, gs[1..]) && Play(w, hs) == [v2] + Play(w2, hs[1..]);
      assert Play(w, gs)[0] == v1 && Play(w, hs)[0] == v2;
      assert Play(w, gs)[1..] == Play(w1, gs[1..]) && Play(w, hs)[1..] == Play(w2, hs[1..]);
    }
  }

  /** With whole-millisecond clocks that is always so. */
  lemma {:induction false} WholeMillisecondsAgree(w: Abstract, inputs: seq<Input>, expires: int)
    requires expires % 1_000_000 == 0 && forall input | input in inputs :: input.1 % 1_000_000 == 0
    ensures AgreeWhileOpen(w, inputs, expires)
    decreases |inputs|
  {
    if inputs != [] && w.Open? {
      var (guess, now) := inputs[0];
      assert inputs[0] in inputs;
      assert now == 1_000_000 * UnixMilli(now) && expires == 1_000_000 * UnixMilli(expires);
      WholeMillisecondsAgree(Guess(w, Digits(guess), now > expires).0, inputs[1..], expires);
    }
  }

  /**
   * One nanosecond after a deadline that does not end its millisecond, the window in memory refuses
   * the right code and the one in the file releases the key, whatever the code.
   */
  lemma SubMillisecondDisagreement(digits: bytes, expires: int)
    requires |digits| == 9 && forall b | b in digits :: IsNumeral(b)
    requires UnixMilli(expires + 1) == UnixMilli(expires)
    ensures Play(Open(digits, 0), Exact([(digits, expires + 1)], expires)) == [NoWindow]
    ensures Play(Open(digits, 0), Rounded([(digits, expires + 1)], expires)) == [Released]
  {
    DigitsOfDigits(digits);
    var gs, hs := Exact([(digits, expires + 1)], expires), Rounded([(digits, expires + 1)], expires);
    assert gs[0] == (digits, true) && hs[0] == (digits, false);
    assert gs[1..] == [] && hs[1..] == [];
  }

  /** The same guess on both, at the same reading. */
  method GuessBoth(m: Window, f: FileWindow, guess: bytes, now: int) returns (a: Verdict, b: Verdict)
    requires m.Valid() && f.Valid()
    requires f.file.Some? ==> f.file.value.expiresAt == UnixMilli(m.expires)
    requires f.hash(Digits(guess)) == f.hash(f.code) ==> Digits(guess) == f.code
    modifies m, f`file
    ensures m.Valid() && f.Valid() && m.expires == old(m.expires)
    ensures f.file.Some? ==> f.file.value.expiresAt == UnixMilli(m.expires)
    ensures (m.View(), a) == Guess(old(m.View()), Digits(guess), now > m.expires)
    ensures (f.View(), b) == Guess(old(f.View()), Digits(guess), UnixMilli(now) > UnixMilli(m.expires))
  {
    ghost var w := f.View();
    var v, _ := m.Redeem(guess, now);
    var v', _ := f.Redeem(guess, now, NO_FAULTS);
    FaultsReleaseNothing(w, Digits(guess), UnixMilli(now) > UnixMilli(m.expires), NO_FAULTS);
    return v, v'.verdict;
  }

  /** The verdicts so far and those still to come are the ones of the whole series. */
  ghost predicate PlayedTo(w: Abstract, gs: seq<(bytes, bool)>, now: Abstract, i: nat, sofar: seq<Verdict>) {
    i <= |gs| && Play(w, gs) == sofar + Play(now, gs[i..])
  }

  lemma PlayedNext(w: Abstract, gs: seq<(bytes, bool)>, now: Abstract, i: nat, sofar: seq<Verdict>)
    requires i < |gs| && PlayedTo(w, gs, now, i, sofar)
    ensures var (next, v) := Guess(now, gs[i].0, gs[i].1);
            PlayedTo(w, gs, next, i + 1, sofar + [v])
  {
    PlayNext(now, gs, i, sofar);
  }

  lemma PlayedAll(w: Abstract, gs: seq<(bytes, bool)>, now: Abstract, sofar: seq<Verdict>)
    requires PlayedTo(w, gs, now, |gs|, sofar)
    ensures Play(w, gs) == sofar
  {
  }

  lemma PlayedNothing(w: Abstract, gs: seq<(bytes, bool)>)
    ensures PlayedTo(w, gs, w, 0, [])
  {
    assert gs[0..] == gs;
  }

  /** Both windows run on the same inputs. */
  method RunTwins(m: Window, f: FileWindow, inputs: seq<Input>) returns (a: seq<Verdict>, b: seq<Verdict>)
    requires m.Valid() && f.Valid() && m.View() == f.View() && f.View().Open?
    requires f.file.value.expiresAt == UnixMilli(m.expires)
    requires forall input | input in inputs :: f.hash(Digits(input.0)) == f.hash(f.code) ==> Digits(input.0) == f.code
    modifies m, f`file
    ensures a == Play(old(m.View()), Exact(inputs, old(m.expires)))
    ensures b == Play(old(m.View()), Rounded(inputs, old(m.expires)))
    ensures AgreeWhileOpen(old(m.View()), inputs, old(m.expires)) <==> a == b
  {
    a, b := [], [];
    ghost var w, expires := m.View(), m.expires;
    ghost var gs, hs := Exact(inputs, expires), Rounded(inputs, expires);
    PlayedNothing(w, gs);
    PlayedNothing(w, hs);
    for i := 0 to |inputs|
      invariant m.Valid() && f.Valid() && m.expires == expires && f.code == old(f.code)
      invariant f.file.Some? ==> f.file.value.expiresAt == UnixMilli(expires)
      invariant PlayedTo(w, gs, m.View(), i, a) && PlayedTo(w, hs, f.View(), i, b)
    {
      var (guess, now) := inputs[i];
      assert inputs[i] in inputs;
      PlayedNext(w, gs, m.View(), i, a);
      PlayedNext(w, hs, f.View(), i, b);
      var v, v' := GuessBoth(m, f, guess, now);
      a, b := a + [v], b + [v'];
    }
    PlayedAll(w, gs, m.View(), a);
    PlayedAll(w, hs, f.View(), b);
    TwinsAgreeIff(w, inputs, expires);
  }

  lemma PlayNext(w: Abstract, gs: seq<(bytes, bool)>, i: nat, sofar: seq<Verdict>)
    requires i < |gs|
    ensures var (w', v) := Guess(w, gs[i].0, gs[i].1);
            sofar + Play(w, gs[i..]) == sofar + [v] + Play(w', gs[i + 1..])
    ensures w.Closed? ==> Guess(w, gs[i].0, true) == Guess(w, gs[i].0, false)
  {
    var rest := gs[i..];
    assert rest[0] == gs[i] && rest[1..] == gs[i + 1..];
  }
}
