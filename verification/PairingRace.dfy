/**
 * The file-backed pairing window under concurrency: internal/pair/window_file.go as the interleaved
 * file operations of any number of processes, with failing writes, failing removals, unlocked
 * closes, crashes and lock timeouts.
 */
module PairingRace {
  import opened Bytes
  import Pairing

  /** A process, or one request inside a process. */
  type Pid = nat

  /** A window; `id` tells windows made at different times apart and is not in the file. */
  datatype Window = Window(id: nat, codeHash: bytes, expiresAt: int, attempts: nat)

  datatype Outcome = NoWindow | BadCode | TooManyAttempts | Released | Opened | Failed

  /** Where a process is in `Redeem` or `Open`. */
  datatype Pc =
    | Idle
    | WantRedeem(guess: bytes)                 // trying to take the lock
    | WantOpen(window: Window)
    | Entered(guess: bytes)                    // holds the lock, will read the file
    | HasRead(guess: bytes, window: Window)    // holds the file's contents, will judge them
    | Recording(window: Window)                // counted a wrong guess, will write the file
    | Removing(outcome: Outcome)               // will remove the file, whatever comes of it
    // matched by this guess, judged at this time: will load the keys
    | LoadingKey(guess: bytes, at: int, window: Window)
    // has the keys, will remove the file and only then return them
    | Consuming(guess: bytes, at: int, window: Window)
    | Writing(window: Window)                  // opener, will write the file
    | Leaving(outcome: Outcome)                // will release the lock and return

  datatype Event =
    | StartRedeem(p: Pid, guess: bytes)
    | StartOpen(p: Pid, codeHash: bytes, expiresAt: int)
    | Acquire(p: Pid)
    | GiveUp(p: Pid)
    | ReadFile(p: Pid, readable: bool)
    | Judge(p: Pid, now: int)
    | Record(p: Pid, ok: bool)
    | Remove(p: Pid, ok: bool)
    | LoadKey(p: Pid, ok: bool)
    | Consume(p: Pid, ok: bool)
    | WriteWindow(p: Pid, ok: bool)
    | Unlock(p: Pid, ok: bool)
    /** `Close`, which is exported and takes no lock, from outside `Redeem`. */
    | CloseFile
    | Crash(p: Pid)
    /** A waiting process removes a lock it takes for abandoned. */
    | Steal

  /**
   * The two files, the processes, every window made so far, and what happened to each: wrong codes
   * looked at, attempts that were not written down, keys released.
   */
  datatype State = State(
    file: Option<Window>,
    lock: Option<Pid>,
    pcs: map<Pid, Pc>,
    made: seq<Window>,
    tally: Tally)

  datatype Tally = Tally(wrong: map<nat, nat>, lost: map<nat, nat>, released: map<nat, nat>)

  function PcOf(s: State, p: Pid): Pc { if p in s.pcs then s.pcs[p] else Idle }

  function Count(m: map<nat, nat>, id: nat): nat { if id in m then m[id] else 0 }

  function Bump(m: map<nat, nat>, id: nat): map<nat, nat> { m[id := Count(m, id) + 1] }

  function CountWrong(s: State, id: nat): State { s.(tally := s.tally.(wrong := Bump(s.tally.wrong, id))) }

  function CountLost(s: State, id: nat): State { s.(tally := s.tally.(lost := Bump(s.tally.lost, id))) }

  function CountReleased(s: State, id: nat): State { s.(tally := s.tally.(released := Bump(s.tally.released, id))) }

  function Init(): State { State(None, None, map[], [], Tally(map[], map[], map[])) }

  predicate InCs(pc: Pc) { !pc.Idle? && !pc.WantRedeem? && !pc.WantOpen? }

  predicate Enabled(s: State, e: Event) {
    match e
    case StartRedeem(p, _) => PcOf(s, p).Idle?
    case StartOpen(p, _, _) => PcOf(s, p).Idle?
    case Acquire(p) => (PcOf(s, p).WantRedeem? || PcOf(s, p).WantOpen?) && s.lock.None?
    case GiveUp(p) => PcOf(s, p).WantRedeem? || PcOf(s, p).WantOpen?
    case ReadFile(p, _) => PcOf(s, p).Entered?
    case Judge(p, _) => PcOf(s, p).HasRead?
    case Record(p, _) => PcOf(s, p).Recording?
    case Remove(p, _) => PcOf(s, p).Removing?
    case LoadKey(p, _) => PcOf(s, p).LoadingKey?
    case Consume(p, _) => PcOf(s, p).Consuming?
    case WriteWindow(p, _) => PcOf(s, p).Writing?
    case Unlock(p, _) => PcOf(s, p).Leaving?
    case CloseFile => true
    case Crash(_) => true
    case Steal => s.lock.Some?
  }

  function At(s: State, p: Pid, pc: Pc): State { s.(pcs := s.pcs[p := pc]) }

  /** What a process does with the contents it has read. */
  function Judged(s: State, hash: bytes -> bytes, p: Pid, now: int): State
    requires PcOf(s, p).HasRead?
  {
    var (guess, w) := (PcOf(s, p).guess, PcOf(s, p).window);
    if now > w.expiresAt then At(s, p, Removing(NoWindow))
    else if w.attempts >= Pairing.MAX_ATTEMPTS then At(s, p, Removing(TooManyAttempts))
    else if hash(Pairing.Digits(guess)) != w.codeHash then
      At(CountWrong(s, w.id), p, Recording(w.(attempts := w.attempts + 1)))
    else At(s, p, LoadingKey(guess, now, w))
  }

  function Apply(s: State, hash: bytes -> bytes, e: Event): State
    requires Enabled(s, e)
  {
    match e
    case StartRedeem(p, guess) => At(s, p, WantRedeem(guess))
    case StartOpen(p, codeHash, expiresAt) =>
      var w := Window(|s.made|, codeHash, expiresAt, 0);
      At(s.(made := s.made + [w]), p, WantOpen(w))
    case Acquire(p) =>
      var pc := PcOf(s, p);
      At(s.(lock := Some(p)), p, if pc.WantRedeem? then Entered(pc.guess) else Writing(pc.window))
    case GiveUp(p) => At(s, p, Idle)
    case ReadFile(p, readable) =>
      At(s, p, if s.file.None? || !readable then Leaving(NoWindow) else HasRead(PcOf(s, p).guess, s.file.value))
    case Judge(p, now) => Judged(s, hash, p, now)
    case Record(p, ok) =>
      var w := PcOf(s, p).window;
      At(if ok then s.(file := Some(w)) else CountLost(s, w.id), p,
         if w.attempts >= Pairing.MAX_ATTEMPTS then Removing(TooManyAttempts) else Leaving(BadCode))
    case Remove(p, ok) => At(if ok then s.(file := None) else s, p, Leaving(PcOf(s, p).outcome))
    case LoadKey(p, ok) =>
      var pc := PcOf(s, p);
      At(s, p, if ok then Consuming(pc.guess, pc.at, pc.window) else Leaving(Failed))
    case Consume(p, ok) =>
      var w := PcOf(s, p).window;
      if ok then At(CountReleased(s.(file := None), w.id), p, Leaving(Released))
      else At(s, p, Leaving(Failed))
    case WriteWindow(p, ok) =>
      At(if ok then s.(file := Some(PcOf(s, p).window)) else s, p, Leaving(if ok then Opened else Failed))
    case Unlock(p, ok) => At(if ok then s.(lock := None) else s, p, Idle)
    case CloseFile => s.(file := None)
    case Crash(p) =>
      var pc := PcOf(s, p);
      At(if pc.Recording? then CountLost(s, pc.window.id) else s, p, Idle)
    case Steal => s.(lock := None)
  }

  /**
   * A file operation that fails leaves both files as they are and releases nothing; an attempt that
   * could not be written is counted as lost, and a window that could not be written is not opened.
   */
  lemma FailuresLeaveFiles(s: State, hash: bytes -> bytes, e: Event)
    requires Enabled(s, e)
    requires e.Record? || e.Remove? || e.LoadKey? || e.Consume? || e.WriteWindow? || e.Unlock?
    requires !e.ok
    ensures var s' := Apply(s, hash, e);
            && s'.file == s.file && s'.lock == s.lock
            && s'.tally.wrong == s.tally.wrong && s'.tally.released == s.tally.released
            && s'.tally.lost == (if e.Record? then Bump(s.tally.lost, PcOf(s, e.p).window.id) else s.tally.lost)
            && (e.LoadKey? || e.Consume? || e.WriteWindow? ==> PcOf(s', e.p) == Leaving(Failed))
            && (e.Unlock? ==> PcOf(s', e.p) == Idle)
  {
  }

  /** The events can happen one after another from this state. */
  predicate Possible(s: State, hash: bytes -> bytes, es: seq<Event>)
    decreases |es|
  {
    es != [] ==> Enabled(s, es[0]) && Possible(Apply(s, hash, es[0]), hash, es[1..])
  }

  function After(s: State, hash: bytes -> bytes, es: seq<Event>): State
    requires Possible(s, hash, es)
    decreases |es|
  {
    if es == [] then s else After(Apply(s, hash, es[0]), hash, es[1..])
  }

  // ----- The invariant -----

  /** A window as a process read it: what its counter says is what was looked at and written down. */
  predicate Current(t: Tally, w: Window) {
    Count(t.released, w.id) == 0 && Count(t.wrong, w.id) - Count(t.lost, w.id) == w.attempts
  }

  /** A window that was made up but never written has no history, and is not the one in the file. */
  predicate Fresh(t: Tally, file: Option<Window>, w: Window) {
    && w.attempts == 0
    && Count(t.wrong, w.id) == 0 && Count(t.lost, w.id) == 0 && Count(t.released, w.id) == 0
    && (file.Some? ==> file.value.id != w.id)
  }

  predicate Opening(pc: Pc) { pc.WantOpen? || pc.Writing? }

  predicate Holding(pc: Pc) { Opening(pc) || pc.HasRead? || pc.Recording? || pc.LoadingKey? || pc.Consuming? }

  /** The window is one that was made, with the code and the deadline it was made with. */
  predicate Known(made: seq<Window>, w: Window) {
    w.id < |made| && made[w.id].codeHash == w.codeHash && made[w.id].expiresAt == w.expiresAt
  }

  /** The guess was right and in time. */
  predicate Earned(hash: bytes -> bytes, guess: bytes, at: int, w: Window) {
    hash(Pairing.Digits(guess)) == w.codeHash && at <= w.expiresAt
  }

  /** What the file can be while a process in the critical section has a window on its hands. */
  predicate Unless(file: Option<Window>, w: Window) { file.Some? ==> file.value == w }

  predicate PcOk(hash: bytes -> bytes, t: Tally, made: seq<Window>, file: Option<Window>, pc: Pc) {
    && (Holding(pc) ==> Known(made, pc.window))
    && match pc
       case WantOpen(w) => Fresh(t, file, w)
       case Writing(w) => Fresh(t, file, w)
       case HasRead(_, w) => Current(t, w) && Unless(file, w)
       case Recording(w) =>
         Current(t, w) && 1 <= w.attempts <= Pairing.MAX_ATTEMPTS && Unless(file, w.(attempts := w.attempts - 1))
       case LoadingKey(guess, at, w) =>
         Current(t, w) && w.attempts < Pairing.MAX_ATTEMPTS && Unless(file, w) && Earned(hash, guess, at, w)
       case Consuming(guess, at, w) =>
         Current(t, w) && w.attempts < Pairing.MAX_ATTEMPTS && Unless(file, w) && Earned(hash, guess, at, w)
       case _ => true
  }

  /** A new window on one process's hands is on no other's. */
  predicate Apart(pc: Pc, pc': Pc) {
    (Opening(pc) && Holding(pc')) || (Holding(pc) && Opening(pc')) ==> pc.window.id != pc'.window.id
  }

  /** Nothing has happened to windows that do not exist yet. */
  ghost predicate Unborn(t: Tally, made: seq<Window>) {
    forall id: nat | id >= |made| :: Count(t.wrong, id) == 0 && Count(t.lost, id) == 0 && Count(t.released, id) == 0
  }

  /**
   * No window was looked at wrongly more than five times beyond its lost records, none was released
   * twice, and one that was released had not used up its five.
   */
  predicate WithinBudget(t: Tally, id: nat) {
    && Count(t.wrong, id) <= 5 + Count(t.lost, id)
    && Count(t.released, id) <= 1
    && (Count(t.released, id) == 1 ==> Count(t.wrong, id) < 5 + Count(t.lost, id))
  }

  /** The window in the file, unless the holder of the lock is about to write a new count into it. */
  predicate FileOk(t: Tally, made: seq<Window>, file: Option<Window>, recording: bool) {
    file.Some? ==> Known(made, file.value) && file.value.attempts <= Pairing.MAX_ATTEMPTS
                   && (recording || Current(t, file.value))
  }

  /** Only the holder of the lock is in the critical section. */
  ghost predicate Exclusive(pcs: map<Pid, Pc>, lock: Option<Pid>) {
    forall p | p in pcs :: InCs(pcs[p]) ==> lock == Some(p)
  }

  ghost predicate AllOk(hash: bytes -> bytes, t: Tally, made: seq<Window>, file: Option<Window>, pcs: map<Pid, Pc>) {
    forall p | p in pcs :: PcOk(hash, t, made, file, pcs[p])
  }

  ghost predicate AllApart(pcs: map<Pid, Pc>) {
    forall p, q | p in pcs && q in pcs && p != q :: Apart(pcs[p], pcs[q])
  }

  predicate BeingRecorded(s: State) { s.lock.Some? && PcOf(s, s.lock.value).Recording? }

  ghost predicate Inv(hash: bytes -> bytes, s: State) {
    && Exclusive(s.pcs, s.lock)
    && AllOk(hash, s.tally, s.made, s.file, s.pcs)
    && AllApart(s.pcs)
    && FileOk(s.tally, s.made, s.file, BeingRecorded(s))
    && Unborn(s.tally, s.made)
    && forall id: nat :: WithinBudget(s.tally, id)
  }

  lemma InitHolds(hash: bytes -> bytes)
    ensures Inv(hash, Init())
  {
  }

  /**
   * Everything but process p: whatever p does in the critical section to the tally of its window
   * and to the file, the processes waiting outside are not disturbed.
   */
  lemma OthersUndisturbed(hash: bytes -> bytes, s: State, p: Pid, id: nat, t: Tally, file: Option<Window>)
    requires Inv(hash, s) && InCs(PcOf(s, p))
    requires forall q | q in s.pcs && q != p && Opening(s.pcs[q]) :: s.pcs[q].window.id != id
    requires forall i: nat | i != id :: SameCounts(t, s.tally, i)
    requires file.Some? ==> file.value.id == id || file == s.file
    ensures AllOk(hash, t, s.made, file, s.pcs - {p})
  {
    var rest := s.pcs - {p};
    forall q | q in rest ensures PcOk(hash, t, s.made, file, rest[q]) {
      assert PcOk(hash, s.tally, s.made, s.file, s.pcs[q]) && !InCs(s.pcs[q]);
      if Opening(s.pcs[q]) { assert SameCounts(t, s.tally, s.pcs[q].window.id); }
    }
  }

  predicate SameCounts(t: Tally, u: Tally, id: nat) {
    Count(t.wrong, id) == Count(u.wrong, id) && Count(t.lost, id) == Count(u.lost, id)
      && Count(t.released, id) == Count(u.released, id)
  }

  /** The new state of p fits in with the others. */
  lemma PutBack(hash: bytes -> bytes, pcs: map<Pid, Pc>, p: Pid, pc: Pc, t: Tally, made: seq<Window>,
                file: Option<Window>, lock: Option<Pid>)
    requires AllOk(hash, t, made, file, pcs - {p}) && PcOk(hash, t, made, file, pc)
    requires AllApart(pcs) && forall q | q in pcs && q != p :: Apart(pc, pcs[q])
    requires Exclusive(pcs - {p}, lock) && (InCs(pc) ==> lock == Some(p))
    ensures AllOk(hash, t, made, file, pcs[p := pc]) && AllApart(pcs[p := pc]) && Exclusive(pcs[p := pc], lock)
  {
    var pcs', rest := pcs[p := pc], pcs - {p};
    forall q | q in pcs' ensures PcOk(hash, t, made, file, pcs'[q]) && (InCs(pcs'[q]) ==> lock == Some(q)) {
      if q != p { assert q in rest; }
    }
    forall q, r | q in pcs' && r in pcs' && q != r ensures Apart(pcs'[q], pcs'[r]) {
      if q != p && r != p { assert Apart(pcs[q], pcs[r]); }
    }
  }

  /** Nobody else is about to open window `id`. */
  ghost predicate Taken(s: State, p: Pid, id: nat) {
    forall q | q in s.pcs && q != p && Opening(s.pcs[q]) :: s.pcs[q].window.id != id
  }

  lemma Others(hash: bytes -> bytes, s: State, p: Pid)
    requires Inv(hash, s) && Holding(PcOf(s, p))
    ensures Taken(s, p, PcOf(s, p).window.id)
  {
    forall q | q in s.pcs && q != p && Opening(s.pcs[q]) ensures s.pcs[q].window.id != PcOf(s, p).window.id {
      assert Apart(s.pcs[q], s.pcs[p]);
    }
  }

  /** One step of the process that holds the lock, concerning window `id`. */
  lemma HolderStep(hash: bytes -> bytes, s: State, p: Pid, id: nat, s': State, pc: Pc)
    requires Inv(hash, s) && InCs(PcOf(s, p)) && Taken(s, p, id)
    requires s'.pcs == s.pcs[p := pc] && s'.made == s.made
    requires s'.lock == s.lock || (s'.lock == None && !InCs(pc))
    requires Holding(pc) ==> pc.window.id == id && !Opening(pc)
    requires !pc.WantRedeem? && PcOk(hash, s'.tally, s'.made, s'.file, pc)
    requires s'.file.Some? ==> s'.file.value.id == id || s'.file == s.file
    requires FileOk(s'.tally, s'.made, s'.file, pc.Recording?)
    requires forall i: nat | i != id :: SameCounts(s'.tally, s.tally, i)
    requires id >= |s.made| ==> SameCounts(s'.tally, s.tally, id)
    requires WithinBudget(s'.tally, id)
    ensures Inv(hash, s')
  {
    assert s.lock == Some(p);
    OthersUndisturbed(hash, s, p, id, s'.tally, s'.file);
    forall q | q in s.pcs && q != p ensures Apart(pc, s.pcs[q]) && !InCs(s.pcs[q]) {}
    PutBack(hash, s.pcs, p, pc, s'.tally, s.made, s'.file, s'.lock);
    forall i: nat ensures WithinBudget(s'.tally, i) {
      assert WithinBudget(s.tally, i);
      if i != id { assert SameCounts(s'.tally, s.tally, i); }
    }
    forall i: nat | i >= |s.made|
      ensures Count(s'.tally.wrong, i) == 0 && Count(s'.tally.lost, i) == 0 && Count(s'.tally.released, i) == 0
    {
      assert SameCounts(s'.tally, s.tally, i);
    }
    if s.file.Some? && s'.file == s.file && !pc.Recording? { assert Current(s'.tally, s'.file.value); }
  }

  // ----- One lemma for each event -----

  /** Outside the critical section: a process waits for the lock, gives up, or takes it. */
  lemma WaitingStep(hash: bytes -> bytes, s: State, p: Pid, s': State, pc: Pc)
    requires Inv(hash, s) && !InCs(PcOf(s, p))
    requires s' == s.(pcs := s.pcs[p := pc], lock := s'.lock, made := s'.made) && s.made <= s'.made
    requires s'.lock == s.lock || (s.lock == None && s'.lock == Some(p))
    requires InCs(pc) ==> s'.lock == Some(p)
    requires PcOk(hash, s.tally, s'.made, s.file, pc) && !pc.Recording?
    requires forall q | q in s.pcs && q != p :: Apart(pc, s.pcs[q])
    ensures Inv(hash, s')
  {
    forall q | q in s.pcs && q != p ensures PcOk(hash, s.tally, s'.made, s.file, s.pcs[q]) {
      assert PcOk(hash, s.tally, s.made, s.file, s.pcs[q]);
    }
    PutBack(hash, s.pcs, p, pc, s.tally, s'.made, s.file, s'.lock);
    if BeingRecorded(s') { assert BeingRecorded(s); }
  }

  lemma StartStep(s: State, hash: bytes -> bytes, e: Event)
    requires Inv(hash, s) && Enabled(s, e) && (e.StartRedeem? || e.StartOpen?)
    ensures Inv(hash, Apply(s, hash, e))
  {
    var s' := Apply(s, hash, e);
    forall q | q in s.pcs && q != e.p ensures Apart(s'.pcs[e.p], s.pcs[q]) {
      assert PcOk(hash, s.tally, s.made, s.file, s.pcs[q]);
    }
    WaitingStep(hash, s, e.p, s', s'.pcs[e.p]);
  }

  lemma AcquireStep(s: State, hash: bytes -> bytes, e: Event)
    requires Inv(hash, s) && Enabled(s, e) && (e.Acquire? || e.GiveUp?)
    ensures Inv(hash, Apply(s, hash, e))
  {
    var s' := Apply(s, hash, e);
    assert PcOk(hash, s.tally, s.made, s.file, s.pcs[e.p]);
    forall q | q in s.pcs && q != e.p ensures Apart(s'.pcs[e.p], s.pcs[q]) { assert Apart(s.pcs[e.p], s.pcs[q]); }
    WaitingStep(hash, s, e.p, s', s'.pcs[e.p]);
  }

  lemma ReadFileStep(s: State, hash: bytes -> bytes, e: Event)
    requires Inv(hash, s) && Enabled(s, e) && e.ReadFile?
    ensures Inv(hash, Apply(s, hash, e))
  {
    var s' := Apply(s, hash, e);
    var id := if s.file.Some? then s.file.value.id else |s.made|;
    forall q | q in s.pcs && q != e.p && Opening(s.pcs[q]) ensures s.pcs[q].window.id != id {
      assert PcOk(hash, s.tally, s.made, s.file, s.pcs[q]);
    }
    assert WithinBudget(s.tally, id);
    HolderStep(hash, s, e.p, id, s', s'.pcs[e.p]);
  }

  lemma JudgeStep(s: State, hash: bytes -> bytes, e: Event)
    requires Inv(hash, s) && Enabled(s, e) && e.Judge?
    ensures Inv(hash, Apply(s, hash, e))
  {
    var s' := Apply(s, hash, e);
    var w := PcOf(s, e.p).window;
    assert PcOk(hash, s.tally, s.made, s.file, s.pcs[e.p]) && WithinBudget(s.tally, w.id);
    Others(hash, s, e.p);
    HolderStep(hash, s, e.p, w.id, s', s'.pcs[e.p]);
  }

  lemma RecordStep(s: State, hash: bytes -> bytes, e: Event)
    requires Inv(hash, s) && Enabled(s, e) && e.Record?
    ensures Inv(hash, Apply(s, hash, e))
  {
    var s' := Apply(s, hash, e);
    var w := PcOf(s, e.p).window;
    assert PcOk(hash, s.tally, s.made, s.file, s.pcs[e.p]) && WithinBudget(s.tally, w.id);
    Others(hash, s, e.p);
    HolderStep(hash, s, e.p, w.id, s', s'.pcs[e.p]);
  }

  lemma KeyStep(s: State, hash: bytes -> bytes, e: Event)
    requires Inv(hash, s) && Enabled(s, e) && (e.LoadKey? || e.Consume? || e.WriteWindow?)
    ensures Inv(hash, Apply(s, hash, e))
  {
    var s' := Apply(s, hash, e);
    var w := PcOf(s, e.p).window;
    assert PcOk(hash, s.tally, s.made, s.file, s.pcs[e.p]) && WithinBudget(s.tally, w.id);
    Others(hash, s, e.p);
    HolderStep(hash, s, e.p, w.id, s', s'.pcs[e.p]);
  }

  lemma NobodyHasNext(hash: bytes -> bytes, s: State, p: Pid)
    requires Inv(hash, s)
    ensures Taken(s, p, |s.made|) && WithinBudget(s.tally, |s.made|)
  {
    forall q | q in s.pcs && q != p && Opening(s.pcs[q]) ensures s.pcs[q].window.id != |s.made| {
      assert PcOk(hash, s.tally, s.made, s.file, s.pcs[q]);
    }
  }

  lemma LeaveStep(s: State, hash: bytes -> bytes, e: Event)
    requires Inv(hash, s) && Enabled(s, e) && (e.Remove? || e.Unlock?)
    ensures Inv(hash, Apply(s, hash, e))
  {
    var s' := Apply(s, hash, e);
    NobodyHasNext(hash, s, e.p);
    HolderStep(hash, s, e.p, |s.made|, s', s'.pcs[e.p]);
  }

  lemma CloseFileStep(s: State, hash: bytes -> bytes, e: Event)
    requires Inv(hash, s) && Enabled(s, e) && e.CloseFile?
    ensures Inv(hash, Apply(s, hash, e))
  {
    forall q | q in s.pcs ensures PcOk(hash, s.tally, s.made, None, s.pcs[q]) {
      assert PcOk(hash, s.tally, s.made, s.file, s.pcs[q]);
    }
  }

  lemma CrashStep(s: State, hash: bytes -> bytes, e: Event)
    requires Inv(hash, s) && Enabled(s, e) && e.Crash?
    ensures Inv(hash, Apply(s, hash, e))
  {
    var s', pc := Apply(s, hash, e), PcOf(s, e.p);
    if !InCs(pc) {
      WaitingStep(hash, s, e.p, s', Idle);
    } else if pc.Recording? {
      assert PcOk(hash, s.tally, s.made, s.file, s.pcs[e.p]) && WithinBudget(s.tally, pc.window.id);
      Others(hash, s, e.p);
      HolderStep(hash, s, e.p, pc.window.id, s', Idle);
    } else {
      NobodyHasNext(hash, s, e.p);
      HolderStep(hash, s, e.p, |s.made|, s', Idle);
    }
  }

  /** The lock of a process that is not, or no longer, between taking and releasing it. */
  predicate Orphaned(s: State) { s.lock.Some? && !InCs(PcOf(s, s.lock.value)) }

  lemma OrphanKeepsInv(s: State, hash: bytes -> bytes)
    requires Inv(hash, s) && Orphaned(s)
    ensures Inv(hash, Apply(s, hash, Steal))
  {
  }

  lemma StepKeepsInv(s: State, hash: bytes -> bytes, e: Event)
    requires Inv(hash, s) && Enabled(s, e) && (e.Steal? ==> Orphaned(s))
    ensures Inv(hash, Apply(s, hash, e))
  {
    match e
    case StartRedeem(_, _) => StartStep(s, hash, e);
    case StartOpen(_, _, _) => StartStep(s, hash, e);
    case Acquire(_) => AcquireStep(s, hash, e);
    case GiveUp(_) => AcquireStep(s, hash, e);
    case ReadFile(_, _) => ReadFileStep(s, hash, e);
    case Judge(_, _) => JudgeStep(s, hash, e);
    case Record(_, _) => RecordStep(s, hash, e);
    case Remove(_, _) => LeaveStep(s, hash, e);
    case LoadKey(_, _) => KeyStep(s, hash, e);
    case Consume(_, _) => KeyStep(s, hash, e);
    case WriteWindow(_, _) => KeyStep(s, hash, e);
    case Unlock(_, _) => LeaveStep(s, hash, e);
    case CloseFile => CloseFileStep(s, hash, e);
    case Crash(_) => CrashStep(s, hash, e);
    case Steal => OrphanKeepsInv(s, hash);
  }

  /** A run that can happen and in which locks are removed only from processes outside the critical section. */
  predicate Lawful(s: State, hash: bytes -> bytes, es: seq<Event>)
    decreases |es|
  {
    es != [] ==>
      Enabled(s, es[0]) && (es[0].Steal? ==> Orphaned(s)) && Lawful(Apply(s, hash, es[0]), hash, es[1..])
  }

  lemma {:induction false} LawfulIsPossible(s: State, hash: bytes -> bytes, es: seq<Event>)
    requires Lawful(s, hash, es)
    ensures Possible(s, hash, es)
    decreases |es|
  {
    if es != [] { LawfulIsPossible(Apply(s, hash, es[0]), hash, es[1..]); }
  }

  lemma {:induction false} RunKeepsInv(s: State, hash: bytes -> bytes, es: seq<Event>)
    requires Inv(hash, s) && Lawful(s, hash, es)
    ensures Possible(s, hash, es) && Inv(hash, After(s, hash, es))
    decreases |es|
  {
    if es != [] {
      StepKeepsInv(s, hash, es[0]);
      RunKeepsInv(Apply(s, hash, es[0]), hash, es[1..]);
    }
  }

  // ----- Main results -----

  /**
   * However any number of redeemers, openers, closers, crashes and removals of abandoned locks
   * interleave, as long as no lock is taken from a process inside its critical section: a window has
   * at most five wrong codes looked at, plus one for each attempt that could not be written down; its
   * key is released at most once; and never if the five are used up, whether before or after.
   */
  lemma BudgetHolds(hash: bytes -> bytes, es: seq<Event>, id: nat)
    requires Lawful(Init(), hash, es) && Possible(Init(), hash, es)
    ensures var t := After(Init(), hash, es).tally;
            && Count(t.wrong, id) <= 5 + Count(t.lost, id)
            && Count(t.released, id) <= 1
            && (Count(t.released, id) == 1 ==> Count(t.wrong, id) < 5 + Count(t.lost, id))
  {
    InitHolds(hash);
    RunKeepsInv(Init(), hash, es);
    assert WithinBudget(After(Init(), hash, es).tally, id);
  }

  /**
   * A process that is about to release the key of a window was given that window's own code, and
   * judged its deadline not to have passed; the code and the deadline are those it was made with,
   * however often the file was rewritten in between.
   */
  lemma ReleasesAreEarned(hash: bytes -> bytes, es: seq<Event>, p: Pid)
    requires Lawful(Init(), hash, es) && Possible(Init(), hash, es)
    requires PcOf(After(Init(), hash, es), p).Consuming?
    ensures var s, pc := After(Init(), hash, es), PcOf(After(Init(), hash, es), p);
            && pc.window.id < |s.made|
            && hash(Pairing.Digits(pc.guess)) == s.made[pc.window.id].codeHash
            && pc.at <= s.made[pc.window.id].expiresAt
  {
    InitHolds(hash);
    RunKeepsInv(Init(), hash, es);
    var s := After(Init(), hash, es);
    assert PcOk(hash, s.tally, s.made, s.file, s.pcs[p]);
  }

  /** At any moment at most one process is between taking and releasing the lock. */
  lemma MutualExclusion(hash: bytes -> bytes, es: seq<Event>, p: Pid, q: Pid)
    requires Lawful(Init(), hash, es) && Possible(Init(), hash, es)
    requires InCs(PcOf(After(Init(), hash, es), p)) && InCs(PcOf(After(Init(), hash, es), q))
    ensures p == q
  {
    InitHolds(hash);
    RunKeepsInv(Init(), hash, es);
  }

  // ----- Linearizability -----

  /** What a visit to the window does, in terms of the reference window. */
  datatype Action = Try(digits: bytes, expired: bool) | OpenFor(code: bytes)

  function OutcomeOf(v: Pairing.Verdict): Outcome {
    match v
    case NoWindow => NoWindow
    case BadCode => BadCode
    case TooManyAttempts => TooManyAttempts
    case Released => Released
  }

  function Serve(w: Pairing.Abstract, a: Action): (Pairing.Abstract, Outcome) {
    match a
    case OpenFor(code) => (Pairing.Open(code, 0), Opened)
    case Try(digits, expired) =>
      var (w', v) := Pairing.Guess(w, digits, expired);
      (w', OutcomeOf(v))
  }

  /** The outcomes of actions done one after another, and the window they leave. */
  function Serial(w: Pairing.Abstract, acts: seq<Action>): seq<Outcome>
    decreases |acts|
  {
    if acts == [] then [] else [Serve(w, acts[0]).1] + Serial(Serve(w, acts[0]).0, acts[1..])
  }

  function SerialEnd(w: Pairing.Abstract, acts: seq<Action>): Pairing.Abstract
    decreases |acts|
  {
    if acts == [] then w else SerialEnd(Serve(w, acts[0]).0, acts[1..])
  }

  /** The action an event completes: a judgement, finding no window, or writing a new one. */
  function Acted(s: State, hash: bytes -> bytes, e: Event): seq<Action>
    requires Enabled(s, e)
  {
    match e
    case Judge(p, now) => [Try(hash(Pairing.Digits(PcOf(s, p).guess)), now > PcOf(s, p).window.expiresAt)]
    case ReadFile(p, _) => if s.file.None? then [Try(hash(Pairing.Digits(PcOf(s, p).guess)), false)] else []
    case WriteWindow(p, _) => [OpenFor(PcOf(s, p).window.codeHash)]
    case _ => []
  }

  /** The outcome an event returns to a caller. */
  function Returned(s: State, e: Event): seq<Outcome>
    requires Enabled(s, e)
  {
    match e
    case Unlock(p, _) => [PcOf(s, p).outcome]
    case _ => []
  }

  function Actions(s: State, hash: bytes -> bytes, es: seq<Event>): seq<Action>
    requires Possible(s, hash, es)
    decreases |es|
  {
    if es == [] then [] else Acted(s, hash, es[0]) + Actions(Apply(s, hash, es[0]), hash, es[1..])
  }

  /** In lock order, since a caller returns when it releases the lock. */
  function Outcomes(s: State, hash: bytes -> bytes, es: seq<Event>): seq<Outcome>
    requires Possible(s, hash, es)
    decreases |es|
  {
    if es == [] then [] else Returned(s, es[0]) + Outcomes(Apply(s, hash, es[0]), hash, es[1..])
  }

  /** The process at work, or none. */
  function Holder(s: State): Pc { if s.lock.Some? && InCs(PcOf(s, s.lock.value)) then PcOf(s, s.lock.value) else Idle }

  function OfFile(file: Option<Window>): Pairing.Abstract {
    match file
    case None => Pairing.Closed
    case Some(w) => Pairing.Open(w.codeHash, w.attempts)
  }

  /** The window as it will be once the process at work has done what it has already decided on. */
  function Settled(s: State): Pairing.Abstract {
    match Holder(s)
    case Recording(w) => if w.attempts >= Pairing.MAX_ATTEMPTS then Pairing.Closed else OfFile(Some(w))
    case Removing(_) => Pairing.Closed
    case LoadingKey(_, _, _) => Pairing.Closed
    case Consuming(_, _, _) => Pairing.Closed
    case _ => OfFile(s.file)
  }

  /** The outcome that process will return, if it has decided on one. */
  function Due(s: State): seq<Outcome> {
    match Holder(s)
    case Recording(w) => [if w.attempts >= Pairing.MAX_ATTEMPTS then TooManyAttempts else BadCode]
    case Removing(o) => [o]
    case LoadingKey(_, _, _) => [Released]
    case Consuming(_, _, _) => [Released]
    case Leaving(o) => [o]
    case _ => []
  }

  /** No file operation fails, nobody closes from outside, and a process dies only before it has judged. */
  predicate Smooth(s: State, e: Event) {
    match e
    case ReadFile(_, readable) => readable
    case Record(_, ok) => ok
    case Remove(_, ok) => ok
    case LoadKey(_, ok) => ok
    case Consume(_, ok) => ok
    case WriteWindow(_, ok) => ok
    case Unlock(_, ok) => ok
    case CloseFile => false
    case Crash(p) => InCs(PcOf(s, p)) ==> Due(s) == []
    case Steal => Orphaned(s)
    case _ => true
  }

  predicate SmoothRun(s: State, hash: bytes -> bytes, es: seq<Event>)
    decreases |es|
  {
    es != [] ==> Enabled(s, es[0]) && Smooth(s, es[0]) && SmoothRun(Apply(s, hash, es[0]), hash, es[1..])
  }

  lemma {:induction false} SmoothIsLawful(s: State, hash: bytes -> bytes, es: seq<Event>)
    requires SmoothRun(s, hash, es)
    ensures Lawful(s, hash, es) && Possible(s, hash, es)
    decreases |es|
  {
    if es != [] { SmoothIsLawful(Apply(s, hash, es[0]), hash, es[1..]); }
  }

  /** What the process at work has read is what the file says. */
  predicate Firm(s: State) { Holder(s).HasRead? ==> s.file == Some(Holder(s).window) }

  /** Who acts in the critical section is the holder of the lock. */
  lemma ActsAlone(s: State, hash: bytes -> bytes, p: Pid)
    requires Inv(hash, s) && InCs(PcOf(s, p))
    ensures s.lock == Some(p) && Holder(s) == PcOf(s, p)
  {
  }

  /** A step outside the critical section, or into it, changes nothing that is settled. */
  lemma QuietStep(s: State, hash: bytes -> bytes, e: Event)
    requires Inv(hash, s) && Firm(s) && Enabled(s, e) && Smooth(s, e)
    requires e.StartRedeem? || e.StartOpen? || e.Acquire? || e.GiveUp? || e.Steal? || e.Crash?
    ensures var s' := Apply(s, hash, e);
            Firm(s') && Settled(s') == Settled(s) && Due(s') == Due(s)
  {
    if e.Crash? { QuietCrash(s, hash, e); }
  }

  lemma QuietCrash(s: State, hash: bytes -> bytes, e: Event)
    requires Inv(hash, s) && Firm(s) && Enabled(s, e) && Smooth(s, e) && e.Crash?
    ensures var s' := Apply(s, hash, e);
            Firm(s') && Settled(s') == Settled(s) && Due(s') == Due(s)
  {
    if InCs(PcOf(s, e.p)) { ActsAlone(s, hash, e.p); }
  }

  /** What the event decides is what the reference window decides. */
  ghost predicate Decides(s: State, hash: bytes -> bytes, e: Event)
    requires Enabled(s, e)
  {
    var s' := Apply(s, hash, e);
    && Firm(s') && |Acted(s, hash, e)| == |Due(s')| == 1
    && Returned(s, e) == [] && Due(s) == []
    && Serve(Settled(s), Acted(s, hash, e)[0]) == (Settled(s'), Due(s')[0])
  }

  lemma JudgingDecides(s: State, hash: bytes -> bytes, e: Event)
    requires Inv(hash, s) && Firm(s) && Enabled(s, e) && e.Judge?
    ensures Decides(s, hash, e)
  {
    ActsAlone(s, hash, e.p);
    assert PcOk(hash, s.tally, s.made, s.file, s.pcs[e.p]);
  }

  /** A step of the process at work that decides an outcome: it is what the reference window decides. */
  lemma DecidingStep(s: State, hash: bytes -> bytes, e: Event)
    requires Inv(hash, s) && Firm(s) && Enabled(s, e) && Smooth(s, e) && Acted(s, hash, e) != []
    ensures Decides(s, hash, e)
  {
    if e.Judge? {
      JudgingDecides(s, hash, e);
    } else {
      ActsAlone(s, hash, e.p);
      assert PcOk(hash, s.tally, s.made, s.file, s.pcs[e.p]);
    }
  }

  /** Any other step of the process at work carries out what was decided. */
  lemma CarryingStep(s: State, hash: bytes -> bytes, e: Event)
    requires Inv(hash, s) && Firm(s) && Enabled(s, e) && Smooth(s, e) && Acted(s, hash, e) == []
    requires e.ReadFile? || e.Record? || e.Remove? || e.LoadKey? || e.Consume? || e.Unlock?
    ensures var s' := Apply(s, hash, e);
            Firm(s') && Settled(s') == Settled(s) && Due(s) == Returned(s, e) + Due(s')
  {
    ActsAlone(s, hash, e.p);
    assert PcOk(hash, s.tally, s.made, s.file, s.pcs[e.p]);
  }

  lemma SerialSplit(w: Pairing.Abstract, a: seq<Action>, b: seq<Action>)
    requires |a| <= 1
    ensures a == [] ==> Serial(w, a + b) == Serial(w, b) && SerialEnd(w, a + b) == SerialEnd(w, b)
    ensures a != [] ==> Serial(w, a + b) == [Serve(w, a[0]).1] + Serial(Serve(w, a[0]).0, b)
    ensures a != [] ==> SerialEnd(w, a + b) == SerialEnd(Serve(w, a[0]).0, b)
  {
    if a == [] { assert a + b == b; } else { assert (a + b)[1..] == b; }
  }

  /** One event: what was due and what is served from here equals what is returned and what is due then. */
  lemma EventIsServed(s: State, hash: bytes -> bytes, e: Event, rest: seq<Action>)
    requires Inv(hash, s) && Firm(s) && Enabled(s, e) && Smooth(s, e)
    ensures var s' := Apply(s, hash, e);
            && Firm(s')
            && Due(s) + Serial(Settled(s), Acted(s, hash, e) + rest) ==
               Returned(s, e) + (Due(s') + Serial(Settled(s'), rest))
            && SerialEnd(Settled(s), Acted(s, hash, e) + rest) == SerialEnd(Settled(s'), rest)
  {
    var s', acts := Apply(s, hash, e), Acted(s, hash, e);
    if e.StartRedeem? || e.StartOpen? || e.Acquire? || e.GiveUp? || e.Steal? || e.Crash? {
      QuietStep(s, hash, e);
    } else if acts == [] {
      CarryingStep(s, hash, e);
    } else {
      DecidingStep(s, hash, e);
    }
    SerialSplit(Settled(s), acts, rest);
    Assemble(Due(s), Returned(s, e), Due(s'), Serial(Settled(s'), rest));
  }

  lemma Assemble<T>(due: seq<T>, returned: seq<T>, due': seq<T>, served: seq<T>)
    ensures due == returned + due' ==> due + served == returned + (due' + served)
    ensures due == [] && returned == [] && |due'| == 1 ==> due + ([due'[0]] + served) == returned + (due' + served)
  {
    if |due'| == 1 { assert due' == [due'[0]]; }
  }

  lemma {:induction false} RunIsServed(s: State, hash: bytes -> bytes, es: seq<Event>)
    requires Inv(hash, s) && Firm(s) && SmoothRun(s, hash, es) && Possible(s, hash, es)
    ensures Due(s) + Serial(Settled(s), Actions(s, hash, es)) == Outcomes(s, hash, es) + Due(After(s, hash, es))
    ensures SerialEnd(Settled(s), Actions(s, hash, es)) == Settled(After(s, hash, es))
    decreases |es|
  {
    if es != [] {
      var s', rest := Apply(s, hash, es[0]), es[1..];
      StepKeepsInv(s, hash, es[0]);
      EventIsServed(s, hash, es[0], Actions(s', hash, rest));
      RunIsServed(s', hash, rest);
      Parts(Returned(s, es[0]), Outcomes(s', hash, rest), Due(After(s, hash, es)), []);
    }
  }

  /**
   * The file-backed window is linearizable. In every run in which no file operation fails, the
   * outcomes, in the order the lock was released, are those the reference window gives to the same
   * guesses and openings done one at a time, up to the one the process at work still owes; and the
   * file is the window they leave.
   */
  lemma Linearizable(hash: bytes -> bytes, es: seq<Event>)
    requires SmoothRun(Init(), hash, es) && Possible(Init(), hash, es)
    ensures Serial(Pairing.Closed, Actions(Init(), hash, es)) ==
            Outcomes(Init(), hash, es) + Due(After(Init(), hash, es))
    ensures SerialEnd(Pairing.Closed, Actions(Init(), hash, es)) == Settled(After(Init(), hash, es))
  {
    InitHolds(hash);
    RunIsServed(Init(), hash, es);
    var served := Serial(Pairing.Closed, Actions(Init(), hash, es));
    NoHead(served);
  }

  /** Comparing hashes is comparing codes, as long as no other code has the hash of the right one. */
  lemma HashedGuess(hash: bytes -> bytes, code: bytes, attempts: nat, digits: bytes, expired: bool)
    requires hash(digits) == hash(code) ==> digits == code
    ensures var (w, v) := Pairing.Guess(Pairing.Open(code, attempts), digits, expired);
            Pairing.Guess(Pairing.Open(hash(code), attempts), hash(digits), expired) ==
            (if w.Open? then Pairing.Open(hash(w.code), w.attempts) else w, v)
  {
  }

  // ----- What taking the lock of a working process breaks -----

  /** A code as it is shown or typed without its grouping. */
  predicate IsCode(code: bytes) { |code| == 9 && Pairing.Digits(code) == code }

  lemma NineDigitsAreACode(code: bytes)
    requires |code| == 9 && forall b | b in code :: Pairing.IsNumeral(b)
    ensures IsCode(code)
  {
    Pairing.DigitsOfDigits(code);
  }

  lemma Prepend(s: State, hash: bytes -> bytes, e: Event, es: seq<Event>)
    requires Enabled(s, e) && Possible(Apply(s, hash, e), hash, es)
    ensures Possible(s, hash, [e] + es) && After(s, hash, [e] + es) == After(Apply(s, hash, e), hash, es)
  {
    assert ([e] + es)[1..] == es;
  }

  lemma {:induction false} Chain(s: State, hash: bytes -> bytes, a: seq<Event>, b: seq<Event>)
    requires Possible(s, hash, a) && Possible(After(s, hash, a), hash, b)
    ensures Possible(s, hash, a + b) && After(s, hash, a + b) == After(After(s, hash, a), hash, b)
    decreases |a|
  {
    if a == [] {
      assert a + b == b;
    } else {
      Chain(Apply(s, hash, a[0]), hash, a[1..], b);
      assert (a + b)[1..] == a[1..] + b;
    }
  }

  lemma Three(s: State, hash: bytes -> bytes, e1: Event, e2: Event, e3: Event)
    requires Enabled(s, e1) && Enabled(Apply(s, hash, e1), e2)
    requires Enabled(Apply(Apply(s, hash, e1), hash, e2), e3)
    ensures Possible(s, hash, [e1, e2, e3])
    ensures After(s, hash, [e1, e2, e3]) == Apply(Apply(Apply(s, hash, e1), hash, e2), hash, e3)
  {
    var s1 := Apply(s, hash, e1);
    var s2 := Apply(s1, hash, e2);
    Prepend(s2, hash, e3, []);
    Prepend(s1, hash, e2, [e3]);
    Prepend(s, hash, e1, [e2, e3]);
    assert [e3] + [] == [e3] && [e2] + [e3] == [e2, e3] && [e1] + [e2, e3] == [e1, e2, e3];
  }

  predicate NoSteal(es: seq<Event>) { forall e | e in es :: !e.Steal? }

  lemma {:induction false} NoStealIsLawful(s: State, hash: bytes -> bytes, es: seq<Event>)
    requires Possible(s, hash, es) && NoSteal(es)
    ensures Lawful(s, hash, es)
    decreases |es|
  {
    if es != [] {
      assert es[0] in es && forall e | e in es[1..] :: e in es;
      NoStealIsLawful(Apply(s, hash, es[0]), hash, es[1..]);
    }
  }

  /** The state after one, or two, events that can happen. */
  lemma One(s: State, hash: bytes -> bytes, e: Event)
    requires Enabled(s, e)
    ensures Possible(s, hash, [e]) && After(s, hash, [e]) == Apply(s, hash, e)
  {
    Prepend(s, hash, e, []);
    assert [e] + [] == [e];
  }

  lemma Two(s: State, hash: bytes -> bytes, e1: Event, e2: Event)
    requires Enabled(s, e1) && Enabled(Apply(s, hash, e1), e2)
    ensures Possible(s, hash, [e1, e2])
    ensures After(s, hash, [e1, e2]) == Apply(Apply(s, hash, e1), hash, e2)
  {
    One(Apply(s, hash, e1), hash, e2);
    Prepend(s, hash, e1, [e2]);
    assert [e1] + [e2] == [e1, e2];
  }

  /** Everybody but p is where he was, and no key was released. */
  predicate OnlyMoved(s: State, s': State, p: Pid) {
    && s'.made == s.made && s'.tally.released == s.tally.released
    && s'.pcs.Keys - {p} == s.pcs.Keys - {p}
    && forall q | q in s.pcs && q != p :: PcOf(s', q) == PcOf(s, q)
  }

  /** A process at work, one of whose operations may fail, can come to the point of releasing the lock it lost. */
  lemma ComesToLeave(s: State, hash: bytes -> bytes, p: Pid) returns (es: seq<Event>)
    requires InCs(PcOf(s, p)) && s.lock.None?
    ensures Possible(s, hash, es) && NoSteal(es)
    ensures var s' := After(s, hash, es);
            PcOf(s', p).Leaving? && s'.lock.None? && OnlyMoved(s, s', p)
  {
    match PcOf(s, p)
    case Entered(_) =>
      One(s, hash, ReadFile(p, false));
      es := [ReadFile(p, false)];
    case HasRead(_, w) =>
      Two(s, hash, Judge(p, w.expiresAt + 1), Remove(p, false));
      es := [Judge(p, w.expiresAt + 1), Remove(p, false)];
    case Recording(w) =>
      if w.attempts >= Pairing.MAX_ATTEMPTS {
        Two(s, hash, Record(p, false), Remove(p, false));
        es := [Record(p, false), Remove(p, false)];
      } else {
        One(s, hash, Record(p, false));
        es := [Record(p, false)];
      }
    case Removing(_) =>
      One(s, hash, Remove(p, false));
      es := [Remove(p, false)];
    case LoadingKey(_, _, _) =>
      One(s, hash, LoadKey(p, false));
      es := [LoadKey(p, false)];
    case Consuming(_, _, _) =>
      One(s, hash, Consume(p, false));
      es := [Consume(p, false)];
    case Writing(_) =>
      One(s, hash, WriteWindow(p, false));
      es := [WriteWindow(p, false)];
    case Leaving(_) =>
      es := [];
  }

  /** A process nobody has heard of. */
  lemma Newcomer(used: set<Pid>) returns (q: Pid)
    ensures q !in used
  {
    q := 0;
    var rest := used;
    while q in rest
      invariant forall r | r in used && r !in rest :: r < q
      invariant rest <= used
      decreases rest
    {
      ghost var before := rest;
      rest := set r | r in rest && r > q;
      assert q in before && q !in rest;
      q := q + 1;
    }
  }

  predicate IsFresh(w: Window, id: nat, hash: bytes -> bytes, code: bytes) { w == Window(id, hash(code), 10, 0) }

  /** A newcomer opens a window and closes the door behind it. */
  lemma OpensAnew(s: State, hash: bytes -> bytes, q: Pid, code: bytes) returns (es: seq<Event>)
    requires q !in s.pcs && s.lock.None?
    ensures Possible(s, hash, es) && NoSteal(es)
    ensures var s' := After(s, hash, es);
            && s'.lock == Some(q) && PcOf(s', q) == Leaving(Opened)
            && s'.file.Some? && IsFresh(s'.file.value, |s.made|, hash, code)
            && s'.tally == s.tally && s'.pcs == s.pcs[q := Leaving(Opened)]
  {
    es := [StartOpen(q, hash(code), 10), Acquire(q), WriteWindow(q, true)];
    Three(s, hash, es[0], es[1], es[2]);
  }

  /** It comes back with the code and reads the window. */
  lemma ComesBack(s: State, hash: bytes -> bytes, q: Pid, code: bytes, w: Window) returns (es: seq<Event>)
    requires s.lock == Some(q) && PcOf(s, q).Leaving? && s.file == Some(w)
    ensures Possible(s, hash, es) && NoSteal(es)
    ensures var s' := After(s, hash, es);
            && s'.lock == Some(q) && s'.file == Some(w) && s'.tally == s.tally
            && s'.pcs == s.pcs[q := HasRead(code, w)]
  {
    var a := [Unlock(q, true), StartRedeem(q, code)];
    var b := [Acquire(q), ReadFile(q, true)];
    var mid := At(s.(lock := None), q, WantRedeem(code));
    Two(s, hash, a[0], a[1]);
    assert After(s, hash, a) == mid;
    Two(mid, hash, b[0], b[1]);
    Chain(s, hash, a, b);
    es := a + b;
  }

  /** The process that lost its lock removes the one of its successor, and another newcomer slips in. */
  lemma SlipsIn(s: State, hash: bytes -> bytes, p: Pid, r: Pid, code: bytes, w: Window) returns (es: seq<Event>)
    requires PcOf(s, p).Leaving? && r !in s.pcs && s.file == Some(w)
    ensures Possible(s, hash, es) && NoSteal(es)
    ensures var s' := After(s, hash, es);
            s'.file == Some(w) && s'.tally == s.tally && s'.pcs == s.pcs[p := Idle][r := HasRead(code, w)]
  {
    var a := [Unlock(p, true), StartRedeem(r, code)];
    var b := [Acquire(r), ReadFile(r, true)];
    var mid := At(At(s.(lock := None), p, Idle), r, WantRedeem(code));
    Two(s, hash, a[0], a[1]);
    assert After(s, hash, a) == mid;
    Two(mid, hash, b[0], b[1]);
    Chain(s, hash, a, b);
    es := a + b;
  }

  /** A process that has read a window and holds its code gets the key. */
  lemma GetsTheKey(s: State, hash: bytes -> bytes, q: Pid, code: bytes, w: Window) returns (es: seq<Event>)
    requires IsCode(code) && IsFresh(w, w.id, hash, code) && PcOf(s, q) == HasRead(code, w)
    ensures Possible(s, hash, es) && NoSteal(es)
    ensures var s' := After(s, hash, es);
            && Count(s'.tally.released, w.id) == Count(s.tally.released, w.id) + 1
            && s'.pcs == s.pcs[q := Leaving(Released)]
  {
    es := [Judge(q, 0), LoadKey(q, true), Consume(q, true)];
    Three(s, hash, es[0], es[1], es[2]);
  }

  lemma NoStealConcat(a: seq<Event>, b: seq<Event>)
    requires NoSteal(a) && NoSteal(b)
    ensures NoSteal(a + b)
  {
  }

  lemma Continue(s: State, hash: bytes -> bytes, a: seq<Event>, b: seq<Event>)
    requires Possible(s, hash, a) && Possible(After(s, hash, a), hash, b) && NoSteal(a) && NoSteal(b)
    ensures Possible(s, hash, a + b) && After(s, hash, a + b) == After(After(s, hash, a), hash, b) && NoSteal(a + b)
  {
    Chain(s, hash, a, b);
    NoStealConcat(a, b);
  }

  /** Two newcomers both read a window that one of them opened. */
  lemma TwoComeIn(s: State, hash: bytes -> bytes, p: Pid, q: Pid, r: Pid, code: bytes)
    returns (es: seq<Event>, w: Window)
    requires PcOf(s, p).Leaving? && s.lock.None? && q !in s.pcs && r !in s.pcs && q != r
    ensures Possible(s, hash, es) && NoSteal(es) && IsFresh(w, w.id, hash, code)
    ensures var s' := After(s, hash, es);
            PcOf(s', q) == HasRead(code, w) && PcOf(s', r) == HasRead(code, w)
  {
    var a := OpensAnew(s, hash, q, code);
    var s1 := After(s, hash, a);
    w := s1.file.value;
    var b := ComesBack(s1, hash, q, code, w);
    var s2 := After(s1, hash, b);
    var c := SlipsIn(s2, hash, p, r, code, w);
    Continue(s1, hash, b, c);
    Continue(s, hash, a, b + c);
    es := a + (b + c);
  }

  lemma BothGetTheKey(s: State, hash: bytes -> bytes, q: Pid, r: Pid, code: bytes, w: Window) returns (es: seq<Event>)
    requires IsCode(code) && IsFresh(w, w.id, hash, code) && q != r
    requires PcOf(s, q) == HasRead(code, w) && PcOf(s, r) == HasRead(code, w)
    ensures Possible(s, hash, es) && NoSteal(es) && Count(After(s, hash, es).tally.released, w.id) >= 2
  {
    var a := GetsTheKey(s, hash, q, code, w);
    var s1 := After(s, hash, a);
    assert PcOf(s1, r) == PcOf(s, r);
    var b := GetsTheKey(s1, hash, r, code, w);
    Continue(s, hash, a, b);
    es := a + b;
  }

  /**
   * Whatever the state, if the lock of a process between taking and releasing it is removed, then
   * without another removal some window's key can be released twice, for every hash and every code.
   */
  lemma StolenLockReleasesTwice(s: State, hash: bytes -> bytes, code: bytes) returns (es: seq<Event>, id: nat)
    requires s.lock.Some? && InCs(PcOf(s, s.lock.value))
    requires |code| == 9 && forall b | b in code :: Pairing.IsNumeral(b)
    ensures Possible(Apply(s, hash, Steal), hash, es) && NoSteal(es)
    ensures Count(After(Apply(s, hash, Steal), hash, es).tally.released, id) >= 2
  {
    NineDigitsAreACode(code);
    var p, s0 := s.lock.value, Apply(s, hash, Steal);
    var a := ComesToLeave(s0, hash, p);
    var s1 := After(s0, hash, a);
    var q := Newcomer(s1.pcs.Keys);
    var r := Newcomer(s1.pcs.Keys + {q});
    var b, w := TwoComeIn(s1, hash, p, q, r, code);
    var c := BothGetTheKey(After(s1, hash, b), hash, q, r, code, w);
    Continue(s1, hash, b, c);
    Continue(s0, hash, a, b + c);
    es, id := a + (b + c), w.id;
  }

  /** No lawful continuation breaks the budget of any window. */
  ghost predicate SafeFrom(s: State, hash: bytes -> bytes) {
    forall es, id: nat | Lawful(s, hash, es) && Possible(s, hash, es) :: WithinBudget(After(s, hash, es).tally, id)
  }

  /**
   * Removing a lock taken for abandoned is safe, for the budget itself and in every continuation, if
   * and only if its process is not between taking and releasing it.
   */
  lemma StealIsSafeIff(s: State, hash: bytes -> bytes)
    requires Inv(hash, s) && s.lock.Some?
    ensures SafeFrom(Apply(s, hash, Steal), hash) <==> Orphaned(s)
  {
    var s0 := Apply(s, hash, Steal);
    if Orphaned(s) {
      OrphanKeepsInv(s, hash);
      forall es, id: nat | Lawful(s0, hash, es) && Possible(s0, hash, es)
        ensures WithinBudget(After(s0, hash, es).tally, id)
      {
        RunKeepsInv(s0, hash, es);
      }
    } else {
      var es, id := StolenLockReleasesTwice(s, hash, [49, 50, 51, 52, 53, 54, 55, 56, 57]);
      NoStealIsLawful(s0, hash, es);
      assert !WithinBudget(After(s0, hash, es).tally, id);
    }
  }
}
