/**
 * Requeueing a client's existing rows and undoing it: internal/clientdb/backfill.go. The three
 * tables are one map keyed by table and row id; SQL predicates are three-valued.
 */
module Backfill {
  import opened Bytes
  import Decimal

  /** The replicating tables, each with the kind its rows have in the baseline. */
  datatype Kind = Observation | Summary | Prompt

  const SYNC_TABLES: seq<Kind> := [Observation, Summary, Prompt]

  /**
   * `project` is the column of observations and summaries, `session` the one of prompts; `size` is
   * the length of the text columns a backfill measures in the row's table.
   */
  datatype Row = Row(origin: Option<bytes>, syncedAt: Option<int>, project: Option<bytes>, session: Option<int>,
                     size: nat)

  type Key = (Kind, nat)

  /** A key of the baseline: `CAST(id AS TEXT)`. */
  type TextKey = (Kind, bytes)

  type Rows = map<Key, Row>
  type Baseline = map<TextKey, bytes>

  datatype Opts = Opts(dryRun: bool, force: bool, project: bytes, excluded: seq<bytes>)

  datatype Error = WorkerRunning | NothingToBackfill | NothingToUndo | Failed

  // ----- Scope -----

  datatype Tri = True | False | Unknown

  function And(a: Tri, b: Tri): Tri {
    if a == False || b == False then False else if a == Unknown || b == Unknown then Unknown else True
  }

  function Of(b: bool): Tri { if b then True else False }

  /** One conjunct of a WHERE clause over the project expression. */
  datatype Clause = Always | ProjectIs(p: bytes) | ProjectIsNot(p: bytes)

  /** Comparing NULL with `=` is unknown; the other comparison is made on COALESCE(project, ''). */
  function Eval(c: Clause, project: Option<bytes>): Tri {
    match c
    case Always => True
    case ProjectIs(p) => (match project case None => Unknown case Some(q) => Of(q == p))
    case ProjectIsNot(p) => Of((match project case None => [] case Some(q) => q) != p)
  }

  function EvalAll(cs: seq<Clause>, project: Option<bytes>): Tri {
    if cs == [] then True else And(EvalAll(cs[..|cs| - 1], project), Eval(cs[|cs| - 1], project))
  }

  /** A WHERE clause keeps the rows for which it is true, not those for which it is unknown. */
  predicate Where(cs: seq<Clause>, project: Option<bytes>) { EvalAll(cs, project) == True }

  /** What the user asked for. A row without a project is outside every named project, and excluded by none. */
  predicate InScope(o: Opts, trim: bytes -> bytes, project: Option<bytes>) {
    && (o.project != [] ==> project == Some(o.project))
    && forall x | x in o.excluded :: trim(x) != [] ==> project != Some(trim(x))
  }

  lemma EvalAllAppend(cs: seq<Clause>, c: Clause, project: Option<bytes>)
    ensures Where(cs + [c], project) <==> Where(cs, project) && Eval(c, project) == True
  {
    assert (cs + [c])[..|cs|] == cs;
  }

  /** The clauses keep exactly the rows in scope, whatever their project, NULL included. */
  ghost predicate Keeps(cs: seq<Clause>, o: Opts, trim: bytes -> bytes) {
    forall project :: Where(cs, project) <==> InScope(o, trim, project)
  }

  function Excluding(o: Opts, i: nat): Opts
    requires i <= |o.excluded|
  {
    o.(excluded := o.excluded[..i])
  }

  lemma KeepsProject(o: Opts, trim: bytes -> bytes)
    ensures Keeps(if o.project == [] then [Always] else [Always] + [ProjectIs(o.project)], Excluding(o, 0), trim)
  {
    forall project ensures Where([Always], project) { EvalAllAppend([], Always, project); }
    forall project { EvalAllAppend([Always], ProjectIs(o.project), project); }
  }

  lemma ScopeNext(o: Opts, trim: bytes -> bytes, i: nat, project: Option<bytes>)
    requires i < |o.excluded|
    ensures InScope(Excluding(o, i + 1), trim, project) <==>
            InScope(Excluding(o, i), trim, project)
            && (trim(o.excluded[i]) != [] ==> project != Some(trim(o.excluded[i])))
  {
    assert o.excluded[..i + 1] == o.excluded[..i] + [o.excluded[i]];
  }

  lemma KeepsNext(cs: seq<Clause>, o: Opts, trim: bytes -> bytes, i: nat)
    requires i < |o.excluded| && Keeps(cs, Excluding(o, i), trim)
    ensures var ex := trim(o.excluded[i]);
            Keeps(if ex == [] then cs else cs + [ProjectIsNot(ex)], Excluding(o, i + 1), trim)
  {
    var ex := trim(o.excluded[i]);
    var next := if ex == [] then cs else cs + [ProjectIsNot(ex)];
    forall project ensures Where(next, project) <==> InScope(Excluding(o, i + 1), trim, project) {
      ScopeNext(o, trim, i, project);
      EvalAllAppend(cs, ProjectIsNot(ex), project);
    }
  }

  /** `filterFor`: the clauses built keep exactly the rows in scope, whatever their project, NULL included. */
  method FilterFor(o: Opts, trim: bytes -> bytes) returns (clauses: seq<Clause>)
    ensures forall project :: Where(clauses, project) <==> InScope(o, trim, project)
  {
    clauses := [Always];
    if o.project != [] {
      clauses := clauses + [ProjectIs(o.project)];
    }
    KeepsProject(o, trim);
    for i := 0 to |o.excluded|
      invariant Keeps(clauses, Excluding(o, i), trim)
    {
      KeepsNext(clauses, o, trim, i);
      var ex := trim(o.excluded[i]);
      if ex != [] {
        clauses := clauses + [ProjectIsNot(ex)];
      }
    }
    assert Excluding(o, |o.excluded|) == o;
  }

  // ----- The database as a value -----

  /** `saved` is the undo table, if it exists. */
  datatype Db = Db(rows: Rows, sessions: map<int, Option<bytes>>, baseline: Baseline, saved: Option<Baseline>)

  /** The project expression: a column, or for prompts a subquery that is NULL when it finds nothing. */
  function ProjectOf(sessions: map<int, Option<bytes>>, k: Kind, r: Row): Option<bytes> {
    if k != Prompt then r.project
    else if r.session.Some? && r.session.value in sessions then sessions[r.session.value]
    else None
  }

  function Text(key: Key): TextKey { (key.0, Decimal.Print(key.1)) }

  function Texts(sel: set<Key>): set<TextKey> { set key | key in sel :: Text(key) }

  /** The locally authored rows in scope. */
  function Selection(db: Db, o: Opts, trim: bytes -> bytes): set<Key> {
    set key | key in db.rows && db.rows[key].origin.None?
              && InScope(o, trim, ProjectOf(db.sessions, key.0, db.rows[key]))
  }

  function Unstamped(rows: Rows, sel: set<Key>): Rows {
    map key | key in rows :: if key in sel then rows[key].(syncedAt := None) else rows[key]
  }

  function Restrict(m: Baseline, keys: set<TextKey>): Baseline {
    map key | key in m && key in keys :: m[key]
  }

  function SavedOf(db: Db): Baseline { if db.saved.Some? then db.saved.value else map[] }

  /** Requeueing a selection: its baseline entries move to the undo table, which keeps what it has. */
  function Requeued(db: Db, sel: set<Key>): Db {
    Db(Unstamped(db.rows, sel), db.sessions, db.baseline - Texts(sel),
       Some(Restrict(db.baseline, Texts(sel)) + SavedOf(db)))
  }

  /** Undoing: the saved entries go back, except where there is one again, and their unstamped rows are stamped. */
  function Undone(db: Db, now: int): Db
    requires db.saved.Some?
  {
    Db(map key | key in db.rows :: Restamped(db.saved.value, key, db.rows[key], now), db.sessions,
       db.saved.value + db.baseline, None)
  }

  function Restamped(saved: Baseline, key: Key, r: Row, now: int): Row {
    if r.syncedAt.None? && r.origin.None? && Text(key) in saved then r.(syncedAt := Some(now)) else r
  }

  /** The row's project: its own column, or for a prompt the one of its session. NULL is no project. */
  ghost predicate HasProject(db: Db, key: Key, p: bytes)
    requires key in db.rows
  {
    match key.0
    case Observation => db.rows[key].project == Some(p)
    case Summary => db.rows[key].project == Some(p)
    case Prompt =>
      db.rows[key].session.Some? && db.rows[key].session.value in db.sessions
      && db.sessions[db.rows[key].session.value] == Some(p)
  }

  /**
   * Which rows a run selects: the local ones of the project it names, if it names one, that are of no
   * excluded project once the names are trimmed and the empty ones dropped.
   */
  lemma SelectedIff(db: Db, o: Opts, trim: bytes -> bytes, key: Key)
    ensures key in Selection(db, o, trim) <==>
              && key in db.rows && db.rows[key].origin == None
              && (o.project != [] ==> HasProject(db, key, o.project))
              && forall x | x in o.excluded && trim(x) != [] :: !HasProject(db, key, trim(x))
  {
    if key in db.rows {
      forall p ensures HasProject(db, key, p) <==> ProjectOf(db.sessions, key.0, db.rows[key]) == Some(p) {}
    }
  }

  /** The baseline entry is the one of a row in the selection: its kind and its id in decimal. */
  ghost predicate EntryOf(t: TextKey, sel: set<Key>) {
    exists k: Kind, n: nat :: (k, n) in sel && t == (k, Decimal.Print(n))
  }

  lemma EntryOfIff(t: TextKey, sel: set<Key>)
    ensures EntryOf(t, sel) <==> t in Texts(sel)
  {
    if t in Texts(sel) {
      var key :| key in sel && Text(key) == t;
      assert (key.0, key.1) in sel && t == (key.0, Decimal.Print(key.1));
    }
    if EntryOf(t, sel) {
      var k: Kind, n: nat :| (k, n) in sel && t == (k, Decimal.Print(n));
      assert Text((k, n)) == t;
    }
  }

  /**
   * What requeueing does, row by row and entry by entry: the stamps of the selected rows are cleared,
   * and their baseline entries are moved to the undo table unless it has one already.
   */
  lemma RequeuedMeans(db: Db, sel: set<Key>, key: Key, t: TextKey)
    ensures var next := Requeued(db, sel);
            && next.sessions == db.sessions && next.saved.Some?
            && (key in next.rows <==> key in db.rows)
            && (key in db.rows ==>
                  next.rows[key] == if key in sel then db.rows[key].(syncedAt := None) else db.rows[key])
            && (t in next.baseline <==> t in db.baseline && !EntryOf(t, sel))
            && (t in next.baseline ==> next.baseline[t] == db.baseline[t])
            && (t in next.saved.value <==>
                  (t in db.baseline && EntryOf(t, sel)) || (db.saved.Some? && t in db.saved.value))
            && (t in next.saved.value ==>
                  next.saved.value[t] ==
                  if db.saved.Some? && t in db.saved.value then db.saved.value[t] else db.baseline[t])
  {
    EntryOfIff(t, sel);
    var next, moved := Requeued(db, sel), Restrict(db.baseline, Texts(sel));
    assert t in moved <==> t in db.baseline && EntryOf(t, sel);
    assert next.saved.value == moved + SavedOf(db);
    assert t in SavedOf(db) <==> db.saved.Some? && t in db.saved.value;
  }

  /**
   * And what undoing does: saved entries return unless there is one again, and the unstamped local
   * rows that a saved entry covers are stamped with the time of the undo.
   */
  lemma UndoneMeans(db: Db, now: int, k: Kind, n: nat, t: TextKey)
    requires db.saved.Some?
    ensures var next := Undone(db, now);
            && next.sessions == db.sessions && next.saved == None
            && ((k, n) in next.rows <==> (k, n) in db.rows)
            && ((k, n) in db.rows ==>
                  var r := db.rows[(k, n)];
                  next.rows[(k, n)] ==
                  if r.syncedAt == None && r.origin == None && (k, Decimal.Print(n)) in db.saved.value
                  then Row(r.origin, Some(now), r.project, r.session, r.size) else r)
            && (t in next.baseline <==> t in db.baseline || t in db.saved.value)
            && (t in next.baseline ==>
                  next.baseline[t] == if t in db.baseline then db.baseline[t] else db.saved.value[t])
  {
  }

  lemma TextInjective(a: Key, b: Key)
    requires Text(a) == Text(b)
    ensures a == b
  {
    Decimal.PrintInjective(a.1, b.1);
  }

  lemma InTexts(sel: set<Key>, key: Key)
    ensures Text(key) in Texts(sel) <==> key in sel
  {
    if Text(key) in Texts(sel) {
      var k :| k in sel && Text(k) == Text(key);
      TextInjective(k, key);
    }
  }

  // ----- A series of backfills is one backfill -----

  lemma TextsUnion(a: set<Key>, b: set<Key>)
    ensures Texts(a + b) == Texts(a) + Texts(b)
  {
    forall t | t in Texts(a) + Texts(b) ensures t in Texts(a + b) {
      if t in Texts(a) {
        var key :| key in a && Text(key) == t;
        assert key in a + b;
      } else {
        var key :| key in b && Text(key) == t;
        assert key in a + b;
      }
    }
  }

  /** Moving entries twice is moving them at once. */
  lemma MoveTwice(base: Baseline, saved: Baseline, a: set<TextKey>, b: set<TextKey>)
    ensures base - a - b == base - (a + b)
    ensures Restrict(base - a, b) + (Restrict(base, a) + saved) == Restrict(base, a + b) + saved
  {
    var x, y := Restrict(base - a, b) + (Restrict(base, a) + saved), Restrict(base, a + b) + saved;
    assert x.Keys == y.Keys;
    forall key | key in x ensures x[key] == y[key] {
      if key !in saved { assert key in base && x[key] == base[key] && y[key] == base[key]; }
    }
  }

  lemma UnstampTwice(rows: Rows, a: set<Key>, b: set<Key>)
    ensures Unstamped(Unstamped(rows, a), b) == Unstamped(rows, a + b)
  {
    var x, y := Unstamped(Unstamped(rows, a), b), Unstamped(rows, a + b);
    assert x.Keys == rows.Keys == y.Keys;
    forall key | key in rows ensures x[key] == y[key] {}
  }

  lemma RequeueTwice(db: Db, a: set<Key>, b: set<Key>)
    ensures Requeued(Requeued(db, a), b) == Requeued(db, a + b)
  {
    TextsUnion(a, b);
    MoveTwice(db.baseline, SavedOf(db), Texts(a), Texts(b));
    UnstampTwice(db.rows, a, b);
  }

  /** Requeueing leaves every later selection what it was: scope does not depend on the stamps. */
  lemma SelectionStable(db: Db, sel: set<Key>, o: Opts, trim: bytes -> bytes)
    ensures Selection(Requeued(db, sel), o, trim) == Selection(db, o, trim)
  {
  }

  function Series(db: Db, runs: seq<Opts>, trim: bytes -> bytes): Db
    decreases |runs|
  {
    if runs == [] then db else Series(Requeued(db, Selection(db, runs[0], trim)), runs[1..], trim)
  }

  function Selections(db: Db, runs: seq<Opts>, trim: bytes -> bytes): set<Key> {
    if runs == [] then {} else Selection(db, runs[0], trim) + Selections(db, runs[1..], trim)
  }

  lemma {:induction false} SelectionsStable(db: Db, sel: set<Key>, runs: seq<Opts>, trim: bytes -> bytes)
    ensures Selections(Requeued(db, sel), runs, trim) == Selections(db, runs, trim)
  {
    if runs != [] {
      SelectionStable(db, sel, runs[0], trim);
      SelectionsStable(db, sel, runs[1..], trim);
    }
  }

  /** Any series of runs, with any scopes in any order, does what one run over all their rows does. */
  lemma {:induction false} SeriesIsOneRun(db: Db, runs: seq<Opts>, trim: bytes -> bytes)
    requires runs != []
    ensures Series(db, runs, trim) == Requeued(db, Selections(db, runs, trim))
    decreases |runs|
  {
    var a := Selection(db, runs[0], trim);
    if |runs| == 1 {
      assert runs[1..] == [];
      assert Selections(db, runs, trim) == a;
    } else {
      SeriesIsOneRun(Requeued(db, a), runs[1..], trim);
      SelectionsStable(db, a, runs[1..], trim);
      RequeueTwice(db, a, Selections(db, runs[1..], trim));
    }
  }

  // ----- Main results -----

  lemma SelectedByOneRun(db: Db, runs: seq<Opts>, trim: bytes -> bytes, key: Key)
    ensures key in Selections(db, runs, trim) <==> exists o :: o in runs && key in Selection(db, o, trim)
  {
    if runs != [] {
      SelectedByOneRun(db, runs[1..], trim, key);
      assert forall o :: o in runs <==> o == runs[0] || o in runs[1..];
    }
  }

  /** No series of runs ever touches a foreign row, or a row out of every run's scope. */
  lemma OthersUntouched(db: Db, runs: seq<Opts>, trim: bytes -> bytes, key: Key)
    requires key in db.rows
    requires db.rows[key].origin.Some?
             || forall o | o in runs :: !InScope(o, trim, ProjectOf(db.sessions, key.0, db.rows[key]))
    ensures key in Series(db, runs, trim).rows && Series(db, runs, trim).rows[key] == db.rows[key]
  {
    if runs != [] {
      SeriesIsOneRun(db, runs, trim);
      SelectedByOneRun(db, runs, trim, key);
    }
  }

  /** A prompt whose project is NULL is left alone by every run that names a project, and by no other. */
  lemma PromptWithoutProject(db: Db, o: Opts, trim: bytes -> bytes, key: Key)
    requires key in db.rows && key.0 == Prompt && db.rows[key].origin.None?
    requires db.rows[key].session.Some? ==> db.rows[key].session.value !in db.sessions
    ensures key in Selection(db, o, trim) <==> o.project == []
  {
  }

  /** What a run takes from the baseline it puts into the undo table. */
  lemma Moved(base: Baseline, saved: Baseline, sel: set<TextKey>)
    requires saved.Keys !! base.Keys
    ensures (Restrict(base, sel) + saved).Keys !! (base - sel).Keys
    ensures Restrict(base, sel) + saved + (base - sel) == saved + base
  {
    var x, y := Restrict(base, sel) + saved + (base - sel), saved + base;
    assert x.Keys == y.Keys;
    forall key | key in x ensures x[key] == y[key] {
      if key in base { assert key !in saved; }
    }
  }

  /**
   * Baseline and undo table never share a key and together always hold the original baseline, so
   * no insert-or-ignore ever drops a row.
   */
  lemma BaselineIsConserved(db: Db, runs: seq<Opts>, trim: bytes -> bytes)
    requires SavedOf(db).Keys !! db.baseline.Keys
    ensures SavedOf(Series(db, runs, trim)).Keys !! Series(db, runs, trim).baseline.Keys
    ensures SavedOf(Series(db, runs, trim)) + Series(db, runs, trim).baseline == SavedOf(db) + db.baseline
  {
    if runs != [] {
      SeriesIsOneRun(db, runs, trim);
      Moved(db.baseline, SavedOf(db), Texts(Selections(db, runs, trim)));
    }
  }

  /** One undo after any series of runs restores the baseline; what it inserts is all that was saved. */
  lemma UndoRestoresBaseline(db: Db, runs: seq<Opts>, trim: bytes -> bytes, now: int)
    requires db.saved.None? && runs != []
    ensures Series(db, runs, trim).saved.Some?
    ensures Undone(Series(db, runs, trim), now).baseline == db.baseline
    ensures Restored(Series(db, runs, trim)) == |Series(db, runs, trim).saved.value|
  {
    SeriesIsOneRun(db, runs, trim);
    BaselineIsConserved(db, runs, trim);
    EmptyPlus(db.baseline);
    NothingIgnored(Series(db, runs, trim).saved.value, Series(db, runs, trim).baseline);
  }

  lemma NothingIgnored(saved: Baseline, base: Baseline)
    requires saved.Keys !! base.Keys
    ensures |saved.Keys - base.Keys| == |saved|
  {
    assert saved.Keys - base.Keys == saved.Keys;
    SameSize(saved);
  }

  lemma EmptyPlus(m: Baseline)
    ensures map[] + m == m
  {
  }

  lemma SameSize(m: Baseline)
    ensures |m.Keys| == |m|
  {
  }

  /** The count an undo reports: the entries it inserts and does not ignore. */
  function Restored(db: Db): nat
    requires db.saved.Some?
  {
    |db.saved.value.Keys - db.baseline.Keys|
  }

  predicate Queued(r: Row) { r.syncedAt.None? && r.origin.None? }

  /** The client's push queue. */
  function Pending(db: Db): set<Key> {
    set key | key in db.rows && Queued(db.rows[key])
  }

  /** The row was stamped exactly if the baseline covers it, as migration v47 leaves every local row. */
  predicate Covered(db: Db, key: Key)
    requires key in db.rows
  {
    db.rows[key].syncedAt.Some? <==> Text(key) in db.baseline
  }

  /**
   * What any series of runs and one undo leave of each row: only the stamp of a selected row can
   * differ, and it is the time of the undo or nothing, as the baseline has an entry for it or not.
   */
  lemma RowAfterUndo(db: Db, runs: seq<Opts>, trim: bytes -> bytes, now: int, key: Key)
    requires db.saved.None? && runs != [] && key in db.rows
    ensures Series(db, runs, trim).saved.Some? && key in Undone(Series(db, runs, trim), now).rows
    ensures Undone(Series(db, runs, trim), now).rows[key] ==
            if key !in Selections(db, runs, trim) then db.rows[key]
            else db.rows[key].(syncedAt := if Text(key) in db.baseline then Some(now) else None)
    ensures key in Selections(db, runs, trim) ==> db.rows[key].origin.None?
  {
    SeriesIsOneRun(db, runs, trim);
    SelectedByOneRun(db, runs, trim, key);
    InTexts(Selections(db, runs, trim), key);
  }

  /**
   * A series of runs followed by one undo restores the push queue if and only if every local row in
   * the scope of some run was stamped exactly when it had a baseline entry.
   */
  lemma UndoRestoresQueueIff(db: Db, runs: seq<Opts>, trim: bytes -> bytes, now: int)
    requires db.saved.None? && runs != []
    ensures Series(db, runs, trim).saved.Some?
    ensures Pending(Undone(Series(db, runs, trim), now)) == Pending(db)
            <==> forall key | key in Selections(db, runs, trim) && key in db.rows :: Covered(db, key)
  {
    SeriesIsOneRun(db, runs, trim);
    var final := Undone(Series(db, runs, trim), now);
    forall key | key in db.rows
      ensures key in Pending(final) <==>
              if key in Selections(db, runs, trim) then Text(key) !in db.baseline else Queued(db.rows[key])
      ensures key in Selections(db, runs, trim) ==> db.rows[key].origin.None?
    {
      RowAfterUndo(db, runs, trim, now, key);
    }
    assert forall key :: key in Pending(final) ==> key in db.rows;
    if Pending(final) == Pending(db) {
      forall key | key in Selections(db, runs, trim) && key in db.rows ensures Covered(db, key) {
        assert key in Pending(final) <==> key in Pending(db);
      }
    }
  }

  /** Running the same backfill again changes nothing. */
  lemma BackfillIsIdempotent(db: Db, o: Opts, trim: bytes -> bytes)
    ensures Series(db, [o, o], trim) == Series(db, [o], trim)
  {
    SeriesIsOneRun(db, [o, o], trim);
    SeriesIsOneRun(db, [o], trim);
    assert [o, o][1..] == [o] && [o][1..] == [];
    assert Selections(db, [o], trim) == Selection(db, o, trim) + Selections(db, [], trim);
    assert Selections(db, [o, o], trim) == Selection(db, o, trim) + Selections(db, [o], trim);
    assert Selections(db, [o, o], trim) == Selections(db, [o], trim);
  }

  /**
   * A row the worker has stamped after it uploaded it was never in the baseline: a backfill queues it
   * again and an undo leaves it queued, although docs/backfill.md says that `--undo` puts it back.
   */
  lemma UndoLeavesUploadedRowsQueued(row: Row, o: Opts, trim: bytes -> bytes, now: int)
    requires row.origin.None? && row.syncedAt.Some? && InScope(o, trim, row.project)
    ensures var db := Db(map[(Observation, 1) := row], map[], map[], None);
            && Pending(db) == {}
            && Series(db, [o], trim).saved.Some?
            && Pending(Undone(Series(db, [o], trim), now)) == {(Observation, 1)}
  {
    var key: Key := (Observation, 1);
    var db := Db(map[key := row], map[], map[], None);
    assert key in Selection(db, o, trim);
    SelectedByOneRun(db, [o], trim, key);
    RowAfterUndo(db, [o], trim, now, key);
    SeriesIsOneRun(db, [o], trim);
  }

  // ----- With the worker uploading in between -----

  /** A backfill, or the worker stamping some of the queued rows it has uploaded. */
  datatype Event = Run(o: Opts) | Upload(keys: set<Key>, at: int)

  function Uploaded(rows: Rows, keys: set<Key>, at: int): Rows {
    map key | key in rows :: if key in keys && Queued(rows[key]) then rows[key].(syncedAt := Some(at)) else rows[key]
  }

  function Happens(db: Db, e: Event, trim: bytes -> bytes): Db {
    match e
    case Run(o) => Requeued(db, Selection(db, o, trim))
    case Upload(keys, at) => db.(rows := Uploaded(db.rows, keys, at))
  }

  function After(db: Db, es: seq<Event>, trim: bytes -> bytes): Db
    decreases |es|
  {
    if es == [] then db else After(Happens(db, es[0], trim), es[1..], trim)
  }

  /** The rows that some run selects. */
  function Chosen(db: Db, es: seq<Event>, trim: bytes -> bytes): set<Key> {
    if es == [] then {}
    else (if es[0].Run? then Selection(db, es[0].o, trim) else {}) + Chosen(db, es[1..], trim)
  }

  /** Whether a row is in the queue after these events: the last of them that concerns it decides. */
  predicate QueuedAfter(db: Db, es: seq<Event>, trim: bytes -> bytes, key: Key, queued: bool)
    decreases |es|
  {
    if es == [] then queued
    else match es[0]
         case Run(o) => QueuedAfter(db, es[1..], trim, key, queued || key in Selection(db, o, trim))
         case Upload(keys, _) => QueuedAfter(db, es[1..], trim, key, queued && key !in keys)
  }

  /** Two databases that differ in stamps, baseline and undo table at most. */
  predicate SameButStamps(a: Db, b: Db) {
    && a.sessions == b.sessions && a.rows.Keys == b.rows.Keys
    && forall key | key in a.rows :: a.rows[key].(syncedAt := None) == b.rows[key].(syncedAt := None)
  }

  lemma HappensKeepsRows(db: Db, e: Event, trim: bytes -> bytes)
    ensures SameButStamps(db, Happens(db, e, trim))
  {
  }

  lemma SameSelection(a: Db, b: Db, o: Opts, trim: bytes -> bytes)
    requires SameButStamps(a, b)
    ensures Selection(a, o, trim) == Selection(b, o, trim)
  {
    forall key | key in a.rows
      ensures a.rows[key].origin == b.rows[key].origin
      ensures ProjectOf(a.sessions, key.0, a.rows[key]) == ProjectOf(b.sessions, key.0, b.rows[key])
    {
      assert a.rows[key].(syncedAt := None) == b.rows[key].(syncedAt := None);
    }
  }

  lemma {:induction false} SameChoice(a: Db, b: Db, es: seq<Event>, trim: bytes -> bytes, key: Key, queued: bool)
    requires SameButStamps(a, b)
    ensures Chosen(a, es, trim) == Chosen(b, es, trim)
    ensures QueuedAfter(a, es, trim, key, queued) == QueuedAfter(b, es, trim, key, queued)
    decreases |es|
  {
    if es != [] {
      match es[0]
      case Run(o) =>
        SameSelection(a, b, o, trim);
        SameChoice(a, b, es[1..], trim, key, queued || key in Selection(a, o, trim));
      case Upload(keys, _) =>
        SameChoice(a, b, es[1..], trim, key, queued && key !in keys);
    }
  }

  lemma QueuedNext(db: Db, e: Event, trim: bytes -> bytes, key: Key)
    requires key in db.rows && db.rows[key].origin.None?
    ensures key in Happens(db, e, trim).rows && Happens(db, e, trim).rows[key].origin.None?
    ensures Queued(Happens(db, e, trim).rows[key]) <==>
            match e
            case Run(o) => Queued(db.rows[key]) || key in Selection(db, o, trim)
            case Upload(keys, _) => Queued(db.rows[key]) && key !in keys
  {
  }

  lemma {:induction false} RowAfterEvents(db: Db, es: seq<Event>, trim: bytes -> bytes, key: Key)
    requires key in db.rows && db.rows[key].origin.None?
    ensures key in After(db, es, trim).rows && After(db, es, trim).rows[key].origin.None?
    ensures Queued(After(db, es, trim).rows[key]) <==> QueuedAfter(db, es, trim, key, Queued(db.rows[key]))
    decreases |es|
  {
    if es != [] {
      var next := Happens(db, es[0], trim);
      QueuedNext(db, es[0], trim, key);
      HappensKeepsRows(db, es[0], trim);
      SameChoice(db, next, es[1..], trim, key, Queued(next.rows[key]));
      RowAfterEvents(next, es[1..], trim, key);
    }
  }

  lemma {:induction false} RowsAfterEvents(db: Db, es: seq<Event>, trim: bytes -> bytes)
    ensures SameButStamps(db, After(db, es, trim))
    decreases |es|
  {
    if es != [] {
      HappensKeepsRows(db, es[0], trim);
      RowsAfterEvents(Happens(db, es[0], trim), es[1..], trim);
      ChainStamps(db, Happens(db, es[0], trim), After(db, es, trim));
    }
  }

  lemma ChainStamps(a: Db, b: Db, c: Db)
    requires SameButStamps(a, b) && SameButStamps(b, c)
    ensures SameButStamps(a, c)
  {
    forall key | key in a.rows ensures a.rows[key].(syncedAt := None) == c.rows[key].(syncedAt := None) {
      assert b.rows[key].(syncedAt := None) == c.rows[key].(syncedAt := None);
    }
  }

  /** Uploads leave baseline and undo table alone, so these are what the runs alone would leave. */
  lemma {:induction false} BaselineAfterEvents(db: Db, es: seq<Event>, trim: bytes -> bytes)
    ensures After(db, es, trim).baseline == db.baseline - Texts(Chosen(db, es, trim))
    ensures SavedOf(After(db, es, trim)) == Restrict(db.baseline, Texts(Chosen(db, es, trim))) + SavedOf(db)
    ensures After(db, es, trim).saved.Some? <==> db.saved.Some? || exists e :: e in es && e.Run?
    decreases |es|
  {
    if es == [] {
      assert Texts({}) == {} && Restrict(db.baseline, {}) == map[] && db.baseline - {} == db.baseline;
      EmptyPlus(SavedOf(db));
    } else {
      var next := Happens(db, es[0], trim);
      var a := if es[0].Run? then Selection(db, es[0].o, trim) else {};
      BaselineAfterEvents(next, es[1..], trim);
      HappensKeepsRows(db, es[0], trim);
      SameChoice(db, next, es[1..], trim, (Observation, 0), false);
      TextsUnion(a, Chosen(db, es[1..], trim));
      BaselineNext(db, es[0], trim);
      MoveTwice(db.baseline, SavedOf(db), Texts(a), Texts(Chosen(db, es[1..], trim)));
      assert forall e :: e in es <==> e == es[0] || e in es[1..];
    }
  }

  lemma BaselineNext(db: Db, e: Event, trim: bytes -> bytes)
    ensures var a := if e.Run? then Selection(db, e.o, trim) else {};
            && Happens(db, e, trim).baseline == db.baseline - Texts(a)
            && SavedOf(Happens(db, e, trim)) == Restrict(db.baseline, Texts(a)) + SavedOf(db)
    ensures Happens(db, e, trim).saved.Some? <==> db.saved.Some? || e.Run?
  {
    if e.Upload? {
      assert Texts({}) == {} && Restrict(db.baseline, {}) == map[] && db.baseline - {} == db.baseline;
      EmptyPlus(SavedOf(db));
    }
  }

  /**
   * The exact queue after any interleaving of backfills and uploads and one undo: a local row is in
   * it if the last event that concerned it left it there, unless some run selected it and the
   * baseline has an entry for it. The baseline is the original one.
   */
  lemma QueueAfterEventsAndUndo(db: Db, es: seq<Event>, trim: bytes -> bytes, now: int, key: Key)
    requires db.saved.None? && key in db.rows && exists e :: e in es && e.Run?
    ensures After(db, es, trim).saved.Some?
    ensures Undone(After(db, es, trim), now).baseline == db.baseline
    ensures key in Pending(Undone(After(db, es, trim), now)) <==>
            && db.rows[key].origin.None?
            && QueuedAfter(db, es, trim, key, Queued(db.rows[key]))
            && !(key in Chosen(db, es, trim) && Text(key) in db.baseline)
  {
    var d := After(db, es, trim);
    BaselineAfterEvents(db, es, trim);
    Moved(db.baseline, map[], Texts(Chosen(db, es, trim)));
    EmptyPlus(db.baseline);
    RowsAfterEvents(db, es, trim);
    InTexts(Chosen(db, es, trim), key);
    assert d.rows[key].(syncedAt := None) == db.rows[key].(syncedAt := None);
    if db.rows[key].origin.None? { RowAfterEvents(db, es, trim, key); }
  }

  lemma {:induction false} LeftByUpload(db: Db, es: seq<Event>, trim: bytes -> bytes, key: Key)
    requires !QueuedAfter(db, es, trim, key, true)
    ensures exists e :: e in es && e.Upload? && key in e.keys
    decreases |es|
  {
    if es[0].Upload? && key in es[0].keys {
      assert es[0] in es;
    } else {
      LeftByUpload(db, es[1..], trim, key);
      assert forall e :: e in es[1..] ==> e in es;
    }
  }

  lemma {:induction false} UnchosenNeverQueued(db: Db, es: seq<Event>, trim: bytes -> bytes, key: Key)
    requires key !in Chosen(db, es, trim)
    ensures !QueuedAfter(db, es, trim, key, false)
    decreases |es|
  {
    if es != [] { UnchosenNeverQueued(db, es[1..], trim, key); }
  }

  /**
   * From a database as migration v47 leaves it, backfills and uploads in any order and one undo add
   * nothing to the queue, and take from it only rows that were uploaded.
   */
  lemma OnlyUploadsEmptyTheQueue(db: Db, es: seq<Event>, trim: bytes -> bytes, now: int, key: Key)
    requires db.saved.None? && exists e :: e in es && e.Run?
    requires key in db.rows && (db.rows[key].origin.None? ==> Covered(db, key))
    ensures After(db, es, trim).saved.Some?
    ensures key in Pending(Undone(After(db, es, trim), now)) ==> key in Pending(db)
    ensures key in Pending(db) && key !in Pending(Undone(After(db, es, trim), now)) ==>
              exists e :: e in es && e.Upload? && key in e.keys
  {
    QueueAfterEventsAndUndo(db, es, trim, now, key);
    if db.rows[key].origin.None? {
      if Queued(db.rows[key]) {
        if !QueuedAfter(db, es, trim, key, true) { LeftByUpload(db, es, trim, key); }
      } else if key !in Chosen(db, es, trim) {
        UnchosenNeverQueued(db, es, trim, key);
      }
    }
  }

  // ----- Sizes -----

  /** What the selected rows hold, the sum a backfill reports. */
  ghost function TotalSize(rows: Rows, sel: set<Key>): nat
    requires sel <= rows.Keys
    decreases |sel|
  {
    if sel == {} then 0
    else
      var key :| key in sel;
      rows[key].size + TotalSize(rows, sel - {key})
  }

  lemma {:induction false} TotalSizeWithout(rows: Rows, sel: set<Key>, key: Key)
    requires sel <= rows.Keys && key in sel
    ensures TotalSize(rows, sel) == rows[key].size + TotalSize(rows, sel - {key})
    decreases |sel|
  {
    var first :| first in sel && TotalSize(rows, sel) == rows[first].size + TotalSize(rows, sel - {first});
    if first != key {
      TotalSizeWithout(rows, sel - {first}, key);
      TotalSizeWithout(rows, sel - {key}, first);
      assert sel - {first} - {key} == sel - {key} - {first};
    }
  }

  lemma {:induction false} TotalSizeUnion(rows: Rows, a: set<Key>, b: set<Key>)
    requires a <= rows.Keys && b <= rows.Keys && a !! b
    ensures TotalSize(rows, a + b) == TotalSize(rows, a) + TotalSize(rows, b)
    decreases |a|
  {
    if a == {} {
      assert a + b == b;
    } else {
      var key :| key in a;
      TotalSizeWithout(rows, a, key);
      TotalSizeWithout(rows, a + b, key);
      assert a + b - {key} == (a - {key}) + b;
      TotalSizeUnion(rows, a - {key}, b);
    }
  }

  method SumSizes(rows: Rows, sel: set<Key>) returns (total: nat)
    requires sel <= rows.Keys
    ensures total == TotalSize(rows, sel)
  {
    total := 0;
    var left := sel;
    while left != {}
      invariant left <= sel && total + TotalSize(rows, left) == TotalSize(rows, sel)
      decreases |left|
    {
      var key :| key in left;
      TotalSizeWithout(rows, left, key);
      total, left := total + rows[key].size, left - {key};
    }
  }

  // ----- The operations -----

  /** The rows of one table a statement's WHERE clause keeps. */
  function Kept(db: Db, k: Kind, clauses: seq<Clause>): set<Key> {
    set key | key in db.rows && key.0 == k && db.rows[key].origin.None?
              && Where(clauses, ProjectOf(db.sessions, k, db.rows[key]))
  }

  function OfKinds(sel: set<Key>, ks: seq<Kind>): set<Key> { set key | key in sel && key.0 in ks }

  lemma KeptIsSelected(db: Db, done: set<Key>, o: Opts, trim: bytes -> bytes, k: Kind, clauses: seq<Clause>)
    requires forall project :: Where(clauses, project) <==> InScope(o, trim, project)
    ensures Kept(Requeued(db, done), k, clauses) == OfKinds(Selection(db, o, trim), [k])
  {
  }

  lemma AllKinds(sel: set<Key>)
    ensures OfKinds(sel, SYNC_TABLES) == sel
  {
    forall key | key in sel ensures key.0 in SYNC_TABLES { var _ := Position(key.0); }
  }

  lemma Position(k: Kind) returns (j: nat)
    ensures j < |SYNC_TABLES| && SYNC_TABLES[j] == k && k in SYNC_TABLES
  {
    j := match k case Observation => 0 case Summary => 1 case Prompt => 2;
  }

  lemma NextKind(sel: set<Key>, i: nat)
    requires i < |SYNC_TABLES|
    ensures OfKinds(sel, SYNC_TABLES[..i + 1]) == OfKinds(sel, SYNC_TABLES[..i]) + OfKinds(sel, [SYNC_TABLES[i]])
  {
    assert SYNC_TABLES[..i + 1] == SYNC_TABLES[..i] + [SYNC_TABLES[i]];
  }

  lemma KindsApart(sel: set<Key>, i: nat)
    requires i < |SYNC_TABLES|
    ensures OfKinds(sel, SYNC_TABLES[..i]) !! OfKinds(sel, [SYNC_TABLES[i]])
    ensures OfKinds(sel, SYNC_TABLES[..i + 1]) == OfKinds(sel, SYNC_TABLES[..i]) + OfKinds(sel, [SYNC_TABLES[i]])
  {
    NextKind(sel, i);
    assert SYNC_TABLES[0] == Observation && SYNC_TABLES[1] == Summary && SYNC_TABLES[2] == Prompt;
    assert SYNC_TABLES[i] !in SYNC_TABLES[..i];
  }

  /** `backup` is the copy taken before anything is changed; a dry run takes none. */
  datatype Report = Report(perTable: map<Kind, nat>, bytes: nat, backup: Option<Db>, exclusions: int)

  class ClientDb {
    var rows: Rows
    var sessions: map<int, Option<bytes>>
    var baseline: Baseline
    var saved: Option<Baseline>

    function View(): Db
      reads this
    {
      Db(rows, sessions, baseline, saved)
    }

    /** The counts and the size that a dry run and a real run report. */
    method Measure(o: Opts, trim: bytes -> bytes) returns (perTable: map<Kind, nat>, bytes: nat)
      ensures forall k :: k in perTable && perTable[k] == |OfKinds(Selection(View(), o, trim), [k])|
      ensures bytes == TotalSize(rows, Selection(View(), o, trim))
    {
      perTable, bytes := map[], 0;
      ghost var db, all := View(), Selection(View(), o, trim);
      assert OfKinds(all, SYNC_TABLES[..0]) == {};
      for i := 0 to |SYNC_TABLES|
        invariant forall j :: 0 <= j < i ==>
                    SYNC_TABLES[j] in perTable && perTable[SYNC_TABLES[j]] == |OfKinds(all, [SYNC_TABLES[j]])|
        invariant bytes == TotalSize(rows, OfKinds(all, SYNC_TABLES[..i]))
      {
        var count, size := MeasureTable(o, trim, SYNC_TABLES[i]);
        KindsApart(all, i);
        TotalSizeUnion(rows, OfKinds(all, SYNC_TABLES[..i]), OfKinds(all, [SYNC_TABLES[i]]));
        perTable, bytes := perTable[SYNC_TABLES[i] := count], bytes + size;
      }
      assert SYNC_TABLES[..|SYNC_TABLES|] == SYNC_TABLES;
      AllKinds(all);
      forall k ensures k in perTable && perTable[k] == |OfKinds(all, [k])| { var _ := Position(k); }
    }

    /** `SELECT COUNT(*), SUM(...)` of one table. */
    method MeasureTable(o: Opts, trim: bytes -> bytes, k: Kind) returns (count: nat, size: nat)
      ensures count == |OfKinds(Selection(View(), o, trim), [k])|
      ensures size == TotalSize(rows, OfKinds(Selection(View(), o, trim), [k]))
    {
      var clauses := FilterFor(o, trim);
      var kept := Kept(View(), k, clauses);
      assert kept == OfKinds(Selection(View(), o, trim), [k]);
      count := |kept|;
      size := SumSizes(rows, kept);
    }

    /** The three statements for one table, on the tables as the transaction sees them. */
    method RequeueTable(db: Db, o: Opts, trim: bytes -> bytes, k: Kind, ghost start: Db, ghost done: set<Key>)
      returns (next: Db, inserted: nat)
      requires db == Requeued(start, done)
      ensures next == Requeued(start, done + OfKinds(Selection(start, o, trim), [k]))
      ensures inserted == |SavedOf(next)| - |SavedOf(db)|
    {
      var clauses := FilterFor(o, trim);
      KeptIsSelected(start, done, o, trim, k, clauses);
      var sel := Kept(db, k, clauses);
      var consumed := Restrict(db.baseline, Texts(sel));
      inserted := |consumed.Keys - SavedOf(db).Keys|;
      next := Db(Unstamped(db.rows, sel), db.sessions, db.baseline - Texts(sel), Some(consumed + SavedOf(db)));
      RequeueTwice(start, done, sel);
      InsertedCount(consumed, SavedOf(db));
    }

    /** The loop over the tables. */
    method RequeueTables(start: Db, o: Opts, trim: bytes -> bytes) returns (db: Db, exclusions: int)
      ensures db == Requeued(start, Selection(start, o, trim))
      ensures exclusions == |SavedOf(db)| - |SavedOf(start)|
    {
      ghost var all := Selection(start, o, trim);
      db, exclusions := start.(saved := Some(SavedOf(start))), 0;
      NothingRequeued(start, all);
      for i := 0 to |SYNC_TABLES|
        invariant db == Requeued(start, OfKinds(all, SYNC_TABLES[..i]))
        invariant exclusions == |SavedOf(db)| - |SavedOf(start)|
      {
        var next, inserted := RequeueTable(db, o, trim, SYNC_TABLES[i], start, OfKinds(all, SYNC_TABLES[..i]));
        NextKind(all, i);
        db, exclusions := next, exclusions + inserted;
      }
      assert SYNC_TABLES[..|SYNC_TABLES|] == SYNC_TABLES;
      AllKinds(all);
    }

    /**
     * `Backfill`. It refuses beside a running worker and without migration v47; a dry run only
     * measures; a run whose backup or transaction fails changes nothing; any other takes a backup of
     * everything, requeues exactly the local rows in scope, and reports how many they are, how large,
     * and how many entries the undo table gained.
     */
    method Backfill(o: Opts, workerRunning: bool, hasV47: bool, backupFails: bool, fails: bool, trim: bytes -> bytes)
      returns (r: Result<Report, Error>)
      modifies this`rows, this`baseline, this`saved
      ensures r == Err(WorkerRunning) <==> !o.force && workerRunning
      ensures r == Err(NothingToBackfill) <==> (o.force || !workerRunning) && !hasV47
      ensures r == Err(Failed) <==> (o.force || !workerRunning) && hasV47 && !o.dryRun && (backupFails || fails)
      ensures r.Err? || o.dryRun ==> View() == old(View())
      ensures r.Ok? ==> forall k :: k in r.value.perTable
                                    && r.value.perTable[k] == |OfKinds(Selection(old(View()), o, trim), [k])|
      ensures r.Ok? ==> r.value.bytes == TotalSize(old(rows), Selection(old(View()), o, trim))
      ensures r.Ok? ==> r.value.backup == if o.dryRun then None else Some(old(View()))
      ensures r.Ok? && !o.dryRun ==> View() == Requeued(old(View()), Selection(old(View()), o, trim))
      ensures r.Ok? && !o.dryRun ==> r.value.exclusions == |SavedOf(View())| - |SavedOf(old(View()))|
      ensures r.Ok? && o.dryRun ==> r.value.exclusions == 0
    {
      if !o.force && workerRunning {
        return Err(WorkerRunning);
      }
      if !hasV47 {
        return Err(NothingToBackfill);
      }
      var perTable, bytes := Measure(o, trim);
      if o.dryRun {
        return Ok(Report(perTable, bytes, None, 0));
      }
      var backup := View();
      if backupFails {
        return Err(Failed);
      }
      var db, exclusions := RequeueTables(View(), o, trim);
      if fails {
        return Err(Failed);
      }
      rows, baseline, saved := db.rows, db.baseline, db.saved;
      assert View() == db;
      return Ok(Report(perTable, bytes, Some(backup), exclusions));
    }

    /** The loop over the tables that stamps what the undo table covers. */
    method RestampTables(rows: Rows, saved: Baseline, now: int) returns (stamped: Rows)
      ensures stamped == map key | key in rows :: Restamped(saved, key, rows[key], now)
    {
      stamped := rows;
      for i := 0 to |SYNC_TABLES|
        invariant stamped == RestampedIn(SYNC_TABLES[..i], rows, saved, now)
      {
        assert SYNC_TABLES[..i + 1] == SYNC_TABLES[..i] + [SYNC_TABLES[i]];
        stamped := RestampedIn([SYNC_TABLES[i]], stamped, saved, now);
        RestampNext(rows, saved, now, SYNC_TABLES[..i], SYNC_TABLES[i]);
      }
      assert SYNC_TABLES[..|SYNC_TABLES|] == SYNC_TABLES;
      forall key | key in rows ensures key.0 in SYNC_TABLES { var _ := Position(key.0); }
    }

    /** `UndoBackfill`: an error without an undo table, and otherwise the undo and the entries it put back. */
    method UndoBackfill(now: int, fails: bool) returns (r: Result<nat, Error>)
      modifies this`rows, this`baseline, this`saved
      ensures r == Err(NothingToUndo) <==> old(saved).None?
      ensures r.Err? <==> old(saved).None? || fails
      ensures r.Err? ==> View() == old(View())
      ensures r.Ok? ==> !fails && View() == Undone(old(View()), now) && r.value == Restored(old(View()))
    {
      if saved.None? {
        return Err(NothingToUndo);
      }
      var restored := |saved.value.Keys - baseline.Keys|;
      var stamped := RestampTables(rows, saved.value, now);
      if fails {
        return Err(Failed);
      }
      rows, baseline, saved := stamped, saved.value + baseline, None;
      return Ok(restored);
    }

    /** `Pending`: the size of the push queue, table by table. */
    method CountPending() returns (counts: map<Kind, nat>)
      ensures forall k :: k in counts && counts[k] == |OfKinds(Pending(View()), [k])|
      ensures forall key :: key in Pending(View()) <==>
                key in rows && rows[key].syncedAt == None && rows[key].origin == None
    {
      counts := map[];
      for i := 0 to |SYNC_TABLES|
        invariant forall j :: 0 <= j < i ==>
                    SYNC_TABLES[j] in counts && counts[SYNC_TABLES[j]] == |OfKinds(Pending(View()), [SYNC_TABLES[j]])|
      {
        var queued := set key | key in rows && key.0 == SYNC_TABLES[i] && Queued(rows[key]);
        assert queued == OfKinds(Pending(View()), [SYNC_TABLES[i]]);
        counts := counts[SYNC_TABLES[i] := |queued|];
      }
      forall k ensures k in counts && counts[k] == |OfKinds(Pending(View()), [k])| { var _ := Position(k); }
    }
  }

  function RestampedIn(ks: seq<Kind>, rows: Rows, saved: Baseline, now: int): Rows {
    map key | key in rows :: if key.0 in ks then Restamped(saved, key, rows[key], now) else rows[key]
  }

  lemma RestampNext(rows: Rows, saved: Baseline, now: int, ks: seq<Kind>, k: Kind)
    ensures RestampedIn([k], RestampedIn(ks, rows, saved, now), saved, now) == RestampedIn(ks + [k], rows, saved, now)
  {
    var x := RestampedIn([k], RestampedIn(ks, rows, saved, now), saved, now);
    var y := RestampedIn(ks + [k], rows, saved, now);
    assert x.Keys == rows.Keys == y.Keys;
    forall key | key in rows ensures x[key] == y[key] {}
  }

  lemma NothingRequeued(db: Db, sel: set<Key>)
    ensures Requeued(db, OfKinds(sel, SYNC_TABLES[..0])) == db.(saved := Some(SavedOf(db)))
  {
    assert OfKinds(sel, SYNC_TABLES[..0]) == {};
    assert Texts({}) == {};
    assert Restrict(db.baseline, {}) == map[];
    assert Unstamped(db.rows, {}) == db.rows;
    EmptyPlus(SavedOf(db));
  }

  lemma InsertedCount(consumed: Baseline, saved: Baseline)
    ensures |consumed.Keys - saved.Keys| == |consumed + saved| - |saved|
  {
    var inserted := consumed.Keys - saved.Keys;
    assert (consumed + saved).Keys == inserted + saved.Keys;
    assert inserted !! saved.Keys;
    SameSize(consumed + saved);
    SameSize(saved);
  }
}
