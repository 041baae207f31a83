/** The operation log's persist queue: appends and rewrites in a row, while memory keeps changing. */
module Oplog {
  import opened Base
  import opened Vault

  // ------------------------------------------------------------- the journal file

  /** A line of the journal file: an operation, or the proper prefix of one a crash left. */
  datatype Line = Whole(op: Op) | Torn

  type File = seq<Line>

  /** The operations a reload parses; what does not parse is skipped. */
  function Readable(file: File): seq<Op> {
    if file == [] then []
    else (if file[0].Whole? then [file[0].op] else []) + Readable(file[1..])
  }

  function Lines(ops: seq<Op>): File {
    seq(|ops|, k requires 0 <= k < |ops| => Whole(ops[k]))
  }

  /** A torn line ends the file without a newline, so an append continues it: the line stays unreadable. */
  predicate TornTail(file: File) {
    file != [] && file[|file| - 1].Torn?
  }

  function AppendTo(file: File, ops: seq<Op>): File {
    if ops == [] then file
    else if TornTail(file) then file + Lines(ops[1..])
    else file + Lines(ops)
  }

  lemma {:induction false} ReadableAppend(xs: File, ys: File)
    ensures Readable(xs + ys) == Readable(xs) + Readable(ys)
  {
    if xs == [] {
      assert xs + ys == ys;
    } else {
      var head := if xs[0].Whole? then [xs[0].op] else [];
      assert (xs + ys)[1..] == xs[1..] + ys && (xs + ys)[0] == xs[0];
      ReadableAppend(xs[1..], ys);
      ConcatAssociative(head, Readable(xs[1..]), Readable(ys));
    }
  }

  lemma {:induction false} ReadableLines(ops: seq<Op>)
    ensures Readable(Lines(ops)) == ops
  {
    if ops != [] {
      assert Lines(ops)[1..] == Lines(ops[1..]);
      ReadableLines(ops[1..]);
    }
  }

  /** An append adds exactly the operations written, if and only if the file does not end torn. */
  lemma AppendReadsBack(file: File, ops: seq<Op>)
    requires ops != []
    ensures Readable(AppendTo(file, ops)) == Readable(file) + ops <==> !TornTail(file)
  {
    ReadableAppend(file, Lines(ops));
    ReadableLines(ops);
    ReadableAppend(file, Lines(ops[1..]));
    ReadableLines(ops[1..]);
    if TornTail(file) {
      assert |Readable(file) + ops| != |Readable(file) + ops[1..]|;
    }
  }

  // --------------------------------------------------------------------- identity

  ghost predicate DistinctIds(ops: seq<Op>) {
    forall i, j :: 0 <= i < j < |ops| ==> ops[i].id != ops[j].id
  }

  predicate HasId(ops: seq<Op>, id: string) {
    exists k :: 0 <= k < |ops| && ops[k].id == id
  }

  /** What replay keeps: of each id, the first line. */
  function FirstOf(ops: seq<Op>, seen: set<string>): seq<Op> {
    if ops == [] then []
    else if ops[0].id in seen then FirstOf(ops[1..], seen)
    else [ops[0]] + FirstOf(ops[1..], seen + {ops[0].id})
  }

  /** Replay keeps one line of every id, in order of first appearance, and only lines it read. */
  lemma {:induction false} FirstOfHeals(ops: seq<Op>, seen: set<string>)
    ensures DistinctIds(FirstOf(ops, seen))
    ensures forall id :: HasId(FirstOf(ops, seen), id) <==> HasId(ops, id) && id !in seen
    ensures forall op :: op in FirstOf(ops, seen) ==> op in ops
  {
    if ops != [] {
      var rest := ops[1..];
      assert ops == [ops[0]] + rest;
      if ops[0].id in seen {
        FirstOfHeals(rest, seen);
        forall id ensures HasId(ops, id) <==> HasId(rest, id) || id == ops[0].id {
          HasIdCons(ops[0], rest, id);
        }
      } else {
        var more := FirstOf(rest, seen + {ops[0].id});
        FirstOfHeals(rest, seen + {ops[0].id});
        forall id
          ensures HasId(ops, id) <==> HasId(rest, id) || id == ops[0].id
          ensures HasId([ops[0]] + more, id) <==> HasId(more, id) || id == ops[0].id
        {
          HasIdCons(ops[0], rest, id);
          HasIdCons(ops[0], more, id);
        }
        assert !HasId(more, ops[0].id);
        DistinctCons(ops[0], more);
      }
    }
  }

  lemma HasIdCons(op: Op, rest: seq<Op>, id: string)
    ensures HasId([op] + rest, id) <==> op.id == id || HasId(rest, id)
  {
    var all := [op] + rest;
    assert all[0] == op;
    if k :| 0 <= k < |rest| && rest[k].id == id {
      assert all[k + 1].id == id;
    }
    if k :| 0 <= k < |all| && all[k].id == id {
      assert k > 0 ==> rest[k - 1].id == id;
    }
  }

  lemma DistinctCons(op: Op, rest: seq<Op>)
    requires DistinctIds(rest) && !HasId(rest, op.id)
    ensures DistinctIds([op] + rest)
  {
  }

  /** A journal without duplicates replays as it is. */
  lemma {:induction false} FirstOfDistinct(ops: seq<Op>, seen: set<string>)
    requires DistinctIds(ops) && forall op :: op in ops ==> op.id !in seen
    ensures FirstOf(ops, seen) == ops
  {
    if ops != [] {
      var rest := ops[1..];
      assert forall i :: 0 <= i < |rest| ==> rest[i] == ops[i + 1];
      assert ops == [ops[0]] + rest && ops[0] in ops;
      FirstOfDistinct(rest, seen + {ops[0].id});
    }
  }

  // ------------------------------------------------------------------- the queue

  datatype Work = AppendWork | RewriteWork

  /** The persist that holds the queue, and how far it got between its awaits. */
  datatype Flight =
    | Idle
    | Appending(delta: seq<Op>, appended: bool)
    | Preparing                                  // a rewrite ensuring the directory; nothing read yet
    | Rewriting(data: seq<Op>, rewritten: bool)

  datatype Log = Log(
    pending: seq<Op>, persisted: nat, file: File, queue: seq<Work>, flight: Flight, issued: set<string>)

  datatype Event =
    | Record(op: Op)          // push and ask for an append
    | Push(op: Op)            // push only; a checkpoint asks later
    | Checkpoint              // ask for an append
    | Clear
    | PrunePair(fileId: string)
    | Begin                   // the next queued persist starts
    | ReadPending             // a rewrite takes its copy
    | Write                   // the disk call takes effect
    | Reject                  // an append fails, leaving the file as it was
    | Finish                  // the persist resumes, moves the marker, and leaves the queue

  function WithoutFile(ops: seq<Op>, fileId: string): seq<Op> {
    if ops == [] then []
    else (if ops[0].fileId == fileId then [] else [ops[0]]) + WithoutFile(ops[1..], fileId)
  }

  predicate PendingCreate(ops: seq<Op>, fileId: string) {
    exists k :: 0 <= k < |ops| && ops[k].fileId == fileId && ops[k].kind == Create
  }

  /** What can happen next: new operations carry new ids, and the persist steps follow each other. */
  ghost predicate Enabled(s: Log, e: Event) {
    match e
    case Record(op) => op.id !in s.issued
    case Push(op) => op.id !in s.issued
    case Checkpoint => true
    case Clear => true
    case PrunePair(fileId) => true
    case Begin => s.flight.Idle? && s.queue != []
    case ReadPending => s.flight.Preparing?
    case Write => (s.flight.Appending? && !s.flight.appended) || (s.flight.Rewriting? && !s.flight.rewritten)
    case Reject => s.flight.Appending? && !s.flight.appended
    case Finish => (s.flight.Appending? && s.flight.appended) || (s.flight.Rewriting? && s.flight.rewritten)
  }

  function Tail(ops: seq<Op>, from: nat): seq<Op> {
    if from <= |ops| then ops[from..] else []
  }

  function Pushed(s: Log, op: Op): Log {
    s.(pending := s.pending + [op], issued := s.issued + {op.id})
  }

  function Shrunk(s: Log, rest: seq<Op>): Log {
    s.(pending := rest, queue := s.queue + [RewriteWork])
  }

  ghost function Step(s: Log, e: Event): Log
    requires Enabled(s, e)
  {
    match e
    case Record(op) => Pushed(s, op).(queue := s.queue + [AppendWork])
    case Push(op) => Pushed(s, op)
    case Checkpoint => s.(queue := s.queue + [AppendWork])
    case Clear => Shrunk(s, [])
    case PrunePair(fileId) =>
      if PendingCreate(s.pending, fileId) then Shrunk(s, WithoutFile(s.pending, fileId)) else s
    case Begin =>
      s.(queue := s.queue[1..],
         flight := if s.queue[0].AppendWork? then Appending(Tail(s.pending, s.persisted), false) else Preparing)
    case ReadPending => s.(flight := Rewriting(s.pending, false))
    case Write =>
      if s.flight.Appending? then
        s.(file := AppendTo(s.file, s.flight.delta), flight := Appending(s.flight.delta, true))
      else s.(file := Lines(s.flight.data), flight := Rewriting(s.flight.data, true))
    case Reject => s.(flight := Idle)
    case Finish =>
      if s.flight.Appending? then s.(persisted := s.persisted + |s.flight.delta|, flight := Idle)
      else s.(persisted := |s.flight.data|, flight := Idle)
  }

  // --------------------------------------------------------------- the invariant

  /** A rewrite that will read memory is still to come: memory shrank since the journal was in step. */
  predicate RewriteDue(s: Log) {
    RewriteWork in s.queue || s.flight.Preparing?
  }

  /** Journal ids are distinct, nothing at or past the mark is on disk, and in step it is the prefix. */
  ghost predicate JournalFits(pending: seq<Op>, mark: nat, journal: seq<Op>, due: bool) {
    && DistinctIds(journal)
    && (forall i :: mark <= i < |pending| ==> !HasId(journal, pending[i].id))
    && (!due ==> mark <= |pending| && journal == pending[..mark])
  }

  ghost predicate Issued(ops: seq<Op>, issued: set<string>) {
    forall op :: op in ops ==> op.id in issued
  }

  /** The journal and the mark as they stand now, and as the persist in flight will leave them. */
  ghost predicate Inv(s: Log) {
    && DistinctIds(s.pending) && Issued(s.pending, s.issued) && Issued(Readable(s.file), s.issued)
    && !TornTail(s.file)
    && match s.flight
       case Idle => JournalFits(s.pending, s.persisted, Readable(s.file), RewriteDue(s))
       case Preparing => JournalFits(s.pending, s.persisted, Readable(s.file), true)
       case Appending(delta, appended) =>
         && Issued(delta, s.issued)
         && (if appended then JournalFits(s.pending, s.persisted + |delta|, Readable(s.file), RewriteDue(s))
             else
               && JournalFits(s.pending, s.persisted + |delta|, Readable(s.file) + delta, RewriteDue(s))
               && JournalFits(s.pending, s.persisted, Readable(s.file), RewriteDue(s)))
       case Rewriting(data, rewritten) =>
         && Issued(data, s.issued) && DistinctIds(Readable(s.file))
         && JournalFits(s.pending, |data|, data, RewriteDue(s))
         && (rewritten ==> Readable(s.file) == data)
         && (!rewritten ==> JournalFits(s.pending, s.persisted, Readable(s.file), true))
  }

  lemma FitsPush(pending: seq<Op>, mark: nat, journal: seq<Op>, due: bool, op: Op)
    requires JournalFits(pending, mark, journal, due) && !HasId(journal, op.id)
    ensures JournalFits(pending + [op], mark, journal, due)
  {
  }

  lemma UnissuedIsAbsent(ops: seq<Op>, issued: set<string>, id: string)
    requires Issued(ops, issued) && id !in issued
    ensures !HasId(ops, id)
  {
    forall k | 0 <= k < |ops| ensures ops[k].id != id {
      assert ops[k] in ops;
    }
  }

  lemma PushKeeps(s: Log, op: Op)
    requires Inv(s) && op.id !in s.issued
    ensures Inv(Pushed(s, op))
  {
    UnissuedIsAbsent(s.pending, s.issued, op.id);
    UnissuedIsAbsent(Readable(s.file), s.issued, op.id);
    var journal := Readable(s.file);
    match s.flight
    case Idle => FitsPush(s.pending, s.persisted, journal, RewriteDue(s), op);
    case Preparing => FitsPush(s.pending, s.persisted, journal, true, op);
    case Appending(delta, appended) =>
      UnissuedIsAbsent(delta, s.issued, op.id);
      if appended {
        FitsPush(s.pending, s.persisted + |delta|, journal, RewriteDue(s), op);
      } else {
        AbsentConcat(journal, delta, op.id);
        FitsPush(s.pending, s.persisted + |delta|, journal + delta, RewriteDue(s), op);
        FitsPush(s.pending, s.persisted, journal, RewriteDue(s), op);
      }
    case Rewriting(data, rewritten) =>
      UnissuedIsAbsent(data, s.issued, op.id);
      FitsPush(s.pending, |data|, data, RewriteDue(s), op);
      if !rewritten {
        FitsPush(s.pending, s.persisted, journal, true, op);
      }
  }

  lemma AbsentConcat(xs: seq<Op>, ys: seq<Op>, id: string)
    ensures HasId(xs + ys, id) <==> HasId(xs, id) || HasId(ys, id)
  {
    var all := xs + ys;
    if k :| 0 <= k < |xs| && xs[k].id == id {
      assert all[k].id == id;
    }
    if k :| 0 <= k < |ys| && ys[k].id == id {
      assert all[|xs| + k].id == id;
    }
  }

  /** `rest` is `ops` with some operations left out. */
  ghost predicate Drops(ops: seq<Op>, rest: seq<Op>) {
    && DistinctIds(rest)
    && forall i: nat :: i < |rest| ==> OccursFrom(ops, rest[i], i)
  }

  ghost predicate OccursFrom(ops: seq<Op>, op: Op, i: nat) {
    exists k :: i <= k < |ops| && ops[k] == op
  }

  lemma {:induction false} WithoutFileOccurs(ops: seq<Op>, fileId: string, i: nat)
    requires i < |WithoutFile(ops, fileId)|
    ensures OccursFrom(ops, WithoutFile(ops, fileId)[i], i)
  {
    var rest := ops[1..];
    if ops[0].fileId == fileId {
      assert WithoutFile(ops, fileId) == WithoutFile(rest, fileId);
      WithoutFileOccurs(rest, fileId, i);
      OccursLater(ops, WithoutFile(ops, fileId)[i], i, i);
    } else if i > 0 {
      WithoutFileOccurs(rest, fileId, i - 1);
      OccursLater(ops, WithoutFile(ops, fileId)[i], i - 1, i);
    } else {
      assert ops[0] == WithoutFile(ops, fileId)[0];
    }
  }

  lemma OccursLater(ops: seq<Op>, op: Op, j: nat, i: nat)
    requires ops != [] && OccursFrom(ops[1..], op, j) && i <= j + 1
    ensures OccursFrom(ops, op, i)
  {
    var k :| j <= k < |ops[1..]| && ops[1..][k] == op;
    assert ops[k + 1] == op;
  }

  lemma {:induction false} WithoutFileMembers(ops: seq<Op>, fileId: string)
    ensures forall op :: op in WithoutFile(ops, fileId) <==> op in ops && op.fileId != fileId
  {
    if ops != [] {
      WithoutFileMembers(ops[1..], fileId);
      assert ops == [ops[0]] + ops[1..];
    }
  }

  lemma {:induction false} WithoutDistinct(ops: seq<Op>, fileId: string)
    requires DistinctIds(ops)
    ensures DistinctIds(WithoutFile(ops, fileId))
  {
    if ops != [] {
      var rest := ops[1..];
      assert forall i :: 0 <= i < |rest| ==> rest[i] == ops[i + 1];
      WithoutDistinct(rest, fileId);
      if ops[0].fileId != fileId {
        var tail := WithoutFile(rest, fileId);
        forall j | 0 <= j < |tail| ensures tail[j].id != ops[0].id {
          WithoutFileOccurs(rest, fileId, j);
        }
        assert !HasId(tail, ops[0].id);
        DistinctCons(ops[0], tail);
      }
    }
  }

  lemma WithoutDrops(ops: seq<Op>, fileId: string)
    requires DistinctIds(ops)
    ensures Drops(ops, WithoutFile(ops, fileId))
    ensures forall op :: op in WithoutFile(ops, fileId) <==> op in ops && op.fileId != fileId
  {
    WithoutFileMembers(ops, fileId);
    WithoutDistinct(ops, fileId);
    forall i: nat | i < |WithoutFile(ops, fileId)| ensures OccursFrom(ops, WithoutFile(ops, fileId)[i], i) {
      WithoutFileOccurs(ops, fileId, i);
    }
  }

  lemma FitsDrop(pending: seq<Op>, mark: nat, journal: seq<Op>, due: bool, rest: seq<Op>)
    requires JournalFits(pending, mark, journal, due) && Drops(pending, rest)
    ensures JournalFits(rest, mark, journal, true)
  {
    forall i: nat | mark <= i < |rest| ensures !HasId(journal, rest[i].id) {
      assert OccursFrom(pending, rest[i], i);
      var k :| i <= k < |pending| && pending[k] == rest[i];
    }
  }

  lemma ShrinkKeeps(s: Log, rest: seq<Op>)
    requires Inv(s) && Drops(s.pending, rest)
    ensures Inv(Shrunk(s, rest))
  {
    var journal := Readable(s.file);
    assert RewriteWork in s.queue + [RewriteWork] by {
      assert (s.queue + [RewriteWork])[|s.queue|] == RewriteWork;
    }
    forall op | op in rest ensures op.id in s.issued {
      var i: nat :| i < |rest| && rest[i] == op;
      assert OccursFrom(s.pending, rest[i], i);
      var k :| i <= k < |s.pending| && s.pending[k] == rest[i];
      assert s.pending[k] in s.pending;
    }
    match s.flight
    case Idle => FitsDrop(s.pending, s.persisted, journal, RewriteDue(s), rest);
    case Preparing => FitsDrop(s.pending, s.persisted, journal, true, rest);
    case Appending(delta, appended) =>
      if appended {
        FitsDrop(s.pending, s.persisted + |delta|, journal, RewriteDue(s), rest);
      } else {
        FitsDrop(s.pending, s.persisted + |delta|, journal + delta, RewriteDue(s), rest);
        FitsDrop(s.pending, s.persisted, journal, RewriteDue(s), rest);
      }
    case Rewriting(data, rewritten) =>
      FitsDrop(s.pending, |data|, data, RewriteDue(s), rest);
      if !rewritten {
        FitsDrop(s.pending, s.persisted, journal, true, rest);
      }
  }

  /** The captured tail continues the journal without repeating an id. */
  lemma TailContinues(pending: seq<Op>, mark: nat, journal: seq<Op>, due: bool)
    requires JournalFits(pending, mark, journal, due) && DistinctIds(pending)
    ensures JournalFits(pending, mark + |Tail(pending, mark)|, journal + Tail(pending, mark), due)
  {
    var delta := Tail(pending, mark);
    var all := journal + delta;
    forall i, j | 0 <= i < j < |all| ensures all[i].id != all[j].id {
      if i < |journal| <= j {
        assert all[j] == pending[mark + (j - |journal|)];
      }
    }
    if !due {
      assert journal + delta == pending;
    }
  }

  lemma EnqueueAppendKeeps(s: Log)
    requires Inv(s)
    ensures Inv(s.(queue := s.queue + [AppendWork]))
  {
    assert RewriteWork in s.queue + [AppendWork] <==> RewriteWork in s.queue;
  }

  lemma BeginKeeps(s: Log)
    requires Inv(s) && Enabled(s, Begin)
    ensures Inv(Step(s, Begin))
  {
    assert s.queue == [s.queue[0]] + s.queue[1..];
    if s.queue[0].AppendWork? {
      assert RewriteDue(Step(s, Begin)) == RewriteDue(s);
      TailContinues(s.pending, s.persisted, Readable(s.file), RewriteDue(s));
    }
  }

  lemma WriteKeeps(s: Log)
    requires Inv(s) && Enabled(s, Write)
    ensures Inv(Step(s, Write))
  {
    match s.flight
    case Appending(delta, appended) =>
      if delta != [] {
        AppendReadsBack(s.file, delta);
        NoTornTail(s.file, delta);
      } else {
        assert Readable(s.file) + delta == Readable(s.file);
      }
    case Rewriting(data, rewritten) =>
      ReadableLines(data);
  }

  lemma NoTornTail(file: File, ops: seq<Op>)
    requires !TornTail(file)
    ensures !TornTail(AppendTo(file, ops)) && !TornTail(Lines(ops))
  {
  }

  lemma StepKeeps(s: Log, e: Event)
    requires Inv(s) && Enabled(s, e)
    ensures Inv(Step(s, e))
  {
    match e
    case Record(op) =>
      PushKeeps(s, op);
      EnqueueAppendKeeps(Pushed(s, op));
    case Push(op) => PushKeeps(s, op);
    case Checkpoint => EnqueueAppendKeeps(s);
    case Clear => ShrinkKeeps(s, []);
    case PrunePair(fileId) =>
      if PendingCreate(s.pending, fileId) {
        WithoutDrops(s.pending, fileId);
        ShrinkKeeps(s, WithoutFile(s.pending, fileId));
      }
    case Begin => BeginKeeps(s);
    case ReadPending => SnapshotFits(s);
    case Write => WriteKeeps(s);
    case Reject =>
    case Finish =>
  }

  lemma SnapshotFits(s: Log)
    requires Inv(s) && Enabled(s, ReadPending)
    ensures Inv(Step(s, ReadPending))
  {
    assert s.pending[..|s.pending|] == s.pending;
  }

  // ------------------------------------------------------------------- whole runs

  ghost predicate Runs(s: Log, events: seq<Event>)
    decreases |events|
  {
    events == [] || (Enabled(s, events[0]) && Runs(Step(s, events[0]), events[1..]))
  }

  ghost function Run(s: Log, events: seq<Event>): Log
    requires Runs(s, events)
    decreases |events|
  {
    if events == [] then s else Run(Step(s, events[0]), events[1..])
  }

  /**
   * Over every interleaving of pushes, clears, prunes, failing appends and successful rewrites: the
   * journal's ids are distinct; between persists no operation at or past the persisted count is on
   * disk (while one is in flight, `Inv` says so of what it will leave); and with no persist in flight
   * and no rewrite queued the journal is exactly the persisted prefix of the pending operations.
   */
  lemma {:induction false} EveryRunKeepsStep(s: Log, events: seq<Event>)
    requires Inv(s) && Runs(s, events)
    ensures var t := Run(s, events); var journal := Readable(t.file);
      && Inv(t)
      && DistinctIds(journal)
      && (t.flight.Idle? ==> forall i :: t.persisted <= i < |t.pending| ==> !HasId(journal, t.pending[i].id))
      && (t.flight.Idle? && RewriteWork !in t.queue ==>
            t.persisted <= |t.pending| && journal == t.pending[..t.persisted])
    decreases |events|
  {
    if events != [] {
      StepKeeps(s, events[0]);
      EveryRunKeepsStep(Step(s, events[0]), events[1..]);
    } else {
      JournalIsDistinct(s);
    }
  }

  lemma JournalIsDistinct(s: Log)
    requires Inv(s)
    ensures DistinctIds(Readable(s.file))
  {
  }

  /** The next queued persist runs to its end, and succeeds. */
  ghost function PersistNext(s: Log): Log
    requires s.flight.Idle? && s.queue != []
  {
    var a := Step(s, Begin);
    var b := if a.flight.Preparing? then Step(a, ReadPending) else a;
    Step(Step(b, Write), Finish)
  }

  lemma PersistNextKeeps(s: Log)
    requires Inv(s) && s.flight.Idle? && s.queue != []
    ensures var t := PersistNext(s);
      && Inv(t) && t.flight.Idle? && t.queue == s.queue[1..] && t.pending == s.pending
      && (RewriteWork !in t.queue ==> t.persisted == |t.pending|)
  {
    StepKeeps(s, Begin);
    var a := Step(s, Begin);
    if a.flight.Preparing? {
      StepKeeps(a, ReadPending);
      WriteThenFinish(Step(a, ReadPending));
    } else {
      AppendCoversAll(s);
      WriteThenFinish(a);
    }
  }

  lemma WriteThenFinish(b: Log)
    requires Inv(b) && Enabled(b, Write)
    ensures var t := Step(Step(b, Write), Finish);
      && Inv(t) && t.flight.Idle? && t.queue == b.queue && t.pending == b.pending
      && t.persisted == if b.flight.Appending? then b.persisted + |b.flight.delta| else |b.flight.data|
  {
    StepKeeps(b, Write);
    StepKeeps(Step(b, Write), Finish);
  }

  lemma WriteKeepsPending(s: Log)
    requires Enabled(s, Write)
    ensures Step(s, Write).pending == s.pending && Step(Step(s, Write), Finish).pending == s.pending
    ensures Step(Step(s, Write), Finish).file == Step(s, Write).file
    ensures Step(s, Write).issued == s.issued && Step(Step(s, Write), Finish).issued == s.issued
  {
  }

  /** With no rewrite due, an append takes everything that is left. */
  lemma AppendCoversAll(s: Log)
    requires Inv(s) && s.flight.Idle? && s.queue != [] && s.queue[0].AppendWork?
    ensures RewriteWork !in s.queue[1..] ==> s.persisted + |Tail(s.pending, s.persisted)| == |s.pending|
  {
    assert s.queue == [s.queue[0]] + s.queue[1..];
  }

  ghost function Drain(s: Log): Log
    requires s.flight.Idle?
    decreases |s.queue|
  {
    if s.queue == [] then s else Drain(PersistNext(s))
  }

  /** When the queue has drained with nothing pushed meanwhile, the journal is the pending log. */
  lemma {:induction false} DrainedIsPending(s: Log)
    requires Inv(s) && s.flight.Idle? && s.queue != []
    ensures Readable(Drain(s).file) == s.pending && Drain(s).pending == s.pending
    ensures Drain(s).persisted == |s.pending|
    decreases |s.queue|
  {
    PersistNextKeeps(s);
    var t := PersistNext(s);
    if t.queue != [] {
      DrainedIsPending(t);
    } else {
      assert t.pending[..t.persisted] == t.pending;
    }
  }

  /** Recording, clearing and pruning, once the queue has drained, are on disk. */
  lemma RequestsReachDisk(s: Log, op: Op, fileId: string)
    requires Inv(s) && s.flight.Idle? && op.id !in s.issued
    ensures var t := Step(s, Record(op)); t.queue != [] && Readable(Drain(t).file) == s.pending + [op]
    ensures var t := Step(s, Clear); t.queue != [] && Readable(Drain(t).file) == []
    ensures (exists made :: made in s.pending && made.fileId == fileId && made.kind == Create) ==>
      var t := Step(s, PrunePair(fileId));
      t.queue != [] && forall x :: x in Readable(Drain(t).file) <==> x in s.pending && x.fileId != fileId
  {
    StepKeeps(s, Record(op));
    DrainedIsPending(Step(s, Record(op)));
    StepKeeps(s, Clear);
    DrainedIsPending(Step(s, Clear));
    StepKeeps(s, PrunePair(fileId));
    WithoutDrops(s.pending, fileId);
    if made :| made in s.pending && made.fileId == fileId && made.kind == Create {
      var k: nat :| k < |s.pending| && s.pending[k] == made;
      DrainedIsPending(Step(s, PrunePair(fileId)));
    }
  }

  // --------------------------------------------------------- nothing is left behind

  /** A request to write: an append or a rewrite is queued. */
  predicate Asks(e: Event) {
    e.Record? || e.Checkpoint? || e.Clear?
  }

  /** An operation pushed for a later checkpoint, or an append that failed: nothing is queued for it. */
  predicate Owes(e: Event) {
    e.Push? || e.Reject?
  }

  /** What is owed is asked for later. */
  ghost predicate Repaid(events: seq<Event>) {
    forall i :: 0 <= i < |events| && Owes(events[i]) ==> exists j :: i < j < |events| && Asks(events[j])
  }

  ghost predicate StillAsks(events: seq<Event>) {
    exists j :: 0 <= j < |events| && Asks(events[j])
  }

  /** Each pending operation is on disk, in the persist in flight, or will be read by one that is queued. */
  predicate Covered(s: Log) {
    s.queue == [] ==>
      match s.flight
      case Idle => s.persisted == |s.pending|
      case Preparing => true
      case Appending(delta, appended) => s.persisted + |delta| == |s.pending|
      case Rewriting(data, rewritten) => data == s.pending
  }

  lemma StepCovers(s: Log, e: Event)
    requires Inv(s) && Enabled(s, e)
    ensures Asks(e) ==> Covered(Step(s, e))
    ensures Covered(s) && !Owes(e) ==> Covered(Step(s, e))
  {
    if e.Begin? && s.queue[0].AppendWork? {
      assert s.queue == [s.queue[0]] + s.queue[1..];
    }
  }

  lemma RepaidTail(events: seq<Event>)
    requires events != [] && Repaid(events)
    ensures Repaid(events[1..])
    ensures Owes(events[0]) || (StillAsks(events) && !Asks(events[0])) ==> StillAsks(events[1..])
  {
    var rest := events[1..];
    forall i | 0 <= i < |rest| && Owes(rest[i]) ensures exists j :: i < j < |rest| && Asks(rest[j]) {
      assert Owes(events[i + 1]);
      var j :| i + 1 < j < |events| && Asks(events[j]);
      assert Asks(rest[j - 1]);
    }
    if Owes(events[0]) {
      var j :| 0 < j < |events| && Asks(events[j]);
      assert Asks(rest[j - 1]);
    } else if StillAsks(events) && !Asks(events[0]) {
      var j :| 0 <= j < |events| && Asks(events[j]);
      assert Asks(rest[j - 1]);
    }
  }

  lemma {:induction false} RunCovers(s: Log, events: seq<Event>)
    requires Inv(s) && Runs(s, events) && Repaid(events) && (Covered(s) || StillAsks(events))
    ensures Inv(Run(s, events)) && Covered(Run(s, events))
    decreases |events|
  {
    if events != [] {
      StepKeeps(s, events[0]);
      StepCovers(s, events[0]);
      RepaidTail(events);
      RunCovers(Step(s, events[0]), events[1..]);
    }
  }

  /**
   * Over every interleaving in which each push, and each append that failed, is followed by a request:
   * once nothing is queued and nothing in flight, the journal is the pending log. So no operation is
   * left behind in memory.
   */
  lemma NothingIsLeftBehind(s: Log, events: seq<Event>)
    requires Inv(s) && Covered(s) && Runs(s, events) && Repaid(events)
    ensures var t := Run(s, events);
      t.flight.Idle? && t.queue == [] ==> Readable(t.file) == t.pending && t.persisted == |t.pending|
  {
    RunCovers(s, events);
    var t := Run(s, events);
    if t.flight.Idle? && t.queue == [] {
      assert t.pending[..t.persisted] == t.pending;
    }
  }

  // ---------------------------------------------------------------------- crashes

  /** What a crash can leave of the file: whole lines of the append in flight, and a torn one. */
  ghost predicate CrashFile(s: Log, file: File) {
    || file == s.file
    || (&& s.flight.Appending? && !s.flight.appended
        && exists k :: 0 <= k <= |s.flight.delta| && (
             || file == s.file + Lines(s.flight.delta[..k])
             || (k < |s.flight.delta| && file == s.file + Lines(s.flight.delta[..k]) + [Torn])))
  }

  /** A reload after a crash finds the journal and a prefix of the append in flight, nothing twice. */
  lemma CrashRecovers(s: Log, file: File) returns (k: nat)
    requires Inv(s) && CrashFile(s, file)
    ensures var delta := if s.flight.Appending? && !s.flight.appended then s.flight.delta else [];
      && k <= |delta| && Readable(file) == Readable(s.file) + delta[..k]
      && FirstOf(Readable(file), {}) == Readable(file)
  {
    k := 0;
    assert Readable(s.file) + [] == Readable(s.file);
    JournalIsDistinct(s);
    if file != s.file {
      var delta := s.flight.delta;
      k :| 0 <= k <= |delta| && (file == s.file + Lines(delta[..k])
        || (k < |delta| && file == s.file + Lines(delta[..k]) + [Torn]));
      PartlyAppended(s.file, delta[..k]);
      DistinctPrefix(Readable(s.file), delta, k);
    }
    FirstOfDistinct(Readable(file), {});
  }

  lemma PartlyAppended(file: File, ops: seq<Op>)
    ensures Readable(file + Lines(ops)) == Readable(file) + ops
    ensures Readable(file + Lines(ops) + [Torn]) == Readable(file) + ops
  {
    ReadableAppend(file, Lines(ops));
    ReadableLines(ops);
    ReadableAppend(file + Lines(ops), [Torn]);
    assert [Torn][1..] == [];
  }

  lemma DistinctPrefix(journal: seq<Op>, delta: seq<Op>, k: nat)
    requires DistinctIds(journal + delta) && k <= |delta|
    ensures DistinctIds(journal + delta[..k])
  {
    var all, some := journal + delta, journal + delta[..k];
    assert forall i :: 0 <= i < |some| ==> some[i] == all[i];
  }

  // -------------------------------------------------------------- the logger itself

  /** The replay loop after `k` lines. */
  ghost predicate Replayed(raw: File, k: nat, ops: seq<Op>, seen: set<string>, duplicates: nat)
    requires k <= |raw|
  {
    && FirstOf(Readable(raw), {}) == ops + FirstOf(Readable(raw[k..]), seen)
    && |ops| + duplicates + |Readable(raw[k..])| == |Readable(raw)|
    && (duplicates == 0 ==> ops + Readable(raw[k..]) == Readable(raw))
  }

  lemma ReplayStep(raw: File, k: nat, ops: seq<Op>, seen: set<string>, duplicates: nat)
    requires k < |raw| && Replayed(raw, k, ops, seen, duplicates)
    ensures raw[k].Torn? ==> Replayed(raw, k + 1, ops, seen, duplicates)
    ensures raw[k].Whole? && raw[k].op.id in seen ==> Replayed(raw, k + 1, ops, seen, duplicates + 1)
    ensures raw[k].Whole? && raw[k].op.id !in seen ==>
      Replayed(raw, k + 1, ops + [raw[k].op], seen + {raw[k].op.id}, duplicates)
  {
    var rest := Readable(raw[k + 1..]);
    assert raw[k..][1..] == raw[k + 1..];
    if raw[k].Torn? {
      assert Readable(raw[k..]) == rest;
    } else {
      var op := raw[k].op;
      assert Readable(raw[k..]) == [op] + rest && ([op] + rest)[1..] == rest;
      ConcatAssociative(ops, [op], rest);
      ConcatAssociative(ops, [op], FirstOf(rest, seen + {op.id}));
    }
  }

  method Replay(raw: File) returns (ops: seq<Op>, duplicates: nat)
    ensures ops == FirstOf(Readable(raw), {})
    ensures duplicates == |Readable(raw)| - |ops| && (duplicates == 0 ==> ops == Readable(raw))
  {
    ops, duplicates := [], 0;
    var seenIds: set<string> := {};
    assert raw[0..] == raw && [] + Readable(raw) == Readable(raw);
    assert [] + FirstOf(Readable(raw), {}) == FirstOf(Readable(raw), {});
    for k := 0 to |raw|
      invariant Replayed(raw, k, ops, seenIds, duplicates)
    {
      ReplayStep(raw, k, ops, seenIds, duplicates);
      if raw[k].Whole? {
        if raw[k].op.id in seenIds {
          duplicates := duplicates + 1;
        } else {
          seenIds := seenIds + {raw[k].op.id};
          ops := ops + [raw[k].op];
        }
      }
    }
    assert raw[|raw|..] == [] && ops + [] == ops;
  }

  class OperationLogger {
    var pendingOps: seq<Op>
    var persistedCount: nat
    var file: File              // the journal on disk
    var persistQueue: seq<Work>
    var flight: Flight
    ghost var issued: set<string>

    ghost function State(): Log
      reads this
    {
      Log(pendingOps, persistedCount, file, persistQueue, flight, issued)
    }

    /** Replay the journal; duplicates are dropped and, if there were any, the file is rewritten. */
    constructor Load(raw: File)
      ensures pendingOps == FirstOf(Readable(raw), {}) && persistedCount == |pendingOps|
      ensures file == if pendingOps == Readable(raw) then raw else Lines(pendingOps)
      ensures persistQueue == [] && flight == Idle
      ensures Readable(file) == pendingOps && DistinctIds(pendingOps)
      ensures Inv(State()) <==> !TornTail(file)
      ensures Covered(State())
    {
      var ops, duplicates := Replay(raw);
      FirstOfHeals(Readable(raw), {});
      ReadableLines(ops);
      pendingOps, persistedCount, persistQueue, flight := ops, |ops|, [], Idle;
      file := if duplicates > 0 then Lines(ops) else raw;
      issued := set op | op in ops :: op.id;
      new;
      assert pendingOps[..persistedCount] == pendingOps;
    }

    /** Each step of the log's code is a step of the model, so a run of steps keeps the invariant. */
    method RecordOp(op: Op)
      requires Inv(State()) && op.id !in issued
      modifies this
      ensures State() == Step(old(State()), Record(op)) && Inv(State())
      ensures Covered(State()) && persistQueue != [] && pendingOps == old(pendingOps) + [op]
    {
      StepKeeps(State(), Record(op));
      pendingOps := pendingOps + [op];
      issued := issued + {op.id};
      persistQueue := persistQueue + [AppendWork];
    }

    method PushOp(op: Op)
      requires Inv(State()) && op.id !in issued
      modifies this
      ensures State() == Step(old(State()), Push(op)) && Inv(State())
    {
      StepKeeps(State(), Push(op));
      pendingOps := pendingOps + [op];
      issued := issued + {op.id};
    }

    method AppendOpLog()
      requires Inv(State())
      modifies this
      ensures State() == Step(old(State()), Checkpoint) && Inv(State())
      ensures Covered(State()) && persistQueue != [] && pendingOps == old(pendingOps)
    {
      StepKeeps(State(), Checkpoint);
      persistQueue := persistQueue + [AppendWork];
    }

    method ClearOps()
      requires Inv(State())
      modifies this
      ensures State() == Step(old(State()), Clear) && Inv(State())
      ensures Covered(State()) && persistQueue != [] && pendingOps == []
    {
      StepKeeps(State(), Clear);
      pendingOps := [];
      persistQueue := persistQueue + [RewriteWork];
    }

    /** Cancel a file created and deleted before any sync; says whether there was such a create. */
    method PruneCreateDeletePair(fileId: string) returns (pruned: bool)
      requires Inv(State())
      modifies this
      ensures State() == Step(old(State()), PrunePair(fileId)) && Inv(State())
      ensures pruned <==> exists op :: op in old(pendingOps) && op.fileId == fileId && op.kind == Create
      ensures if pruned then persistQueue != [] else pendingOps == old(pendingOps)
      ensures pruned ==> forall op :: op in pendingOps <==> op in old(pendingOps) && op.fileId != fileId
    {
      StepKeeps(State(), PrunePair(fileId));
      WithoutDrops(pendingOps, fileId);
      pruned := PendingCreate(pendingOps, fileId);
      assert forall k :: 0 <= k < |pendingOps| ==> pendingOps[k] in pendingOps;
      if pruned {
        pendingOps := WithoutFile(pendingOps, fileId);
        persistQueue := persistQueue + [RewriteWork];
      }
    }

    method BeginPersist()
      requires Inv(State()) && flight == Idle && persistQueue != []
      modifies this
      ensures State() == Step(old(State()), Begin) && Inv(State())
    {
      StepKeeps(State(), Begin);
      flight := if persistQueue[0].AppendWork? then Appending(Tail(pendingOps, persistedCount), false) else Preparing;
      persistQueue := persistQueue[1..];
    }

    method TakeCopy()
      requires Inv(State()) && flight.Preparing?
      modifies this
      ensures State() == Step(old(State()), ReadPending) && Inv(State())
    {
      StepKeeps(State(), ReadPending);
      flight := Rewriting(pendingOps, false);
    }

    method DiskWrite()
      requires Inv(State()) && Enabled(State(), Write)
      modifies this
      ensures State() == Step(old(State()), Write) && Inv(State())
    {
      StepKeeps(State(), Write);
      if flight.Appending? {
        file := AppendTo(file, flight.delta);
        flight := Appending(flight.delta, true);
      } else {
        file := Lines(flight.data);
        flight := Rewriting(flight.data, true);
      }
    }

    method RejectAppend()
      requires Inv(State()) && Enabled(State(), Reject)
      modifies this
      ensures State() == Step(old(State()), Reject) && Inv(State())
    {
      StepKeeps(State(), Reject);
      flight := Idle;
    }

    method FinishPersist()
      requires Inv(State()) && Enabled(State(), Finish)
      modifies this
      ensures State() == Step(old(State()), Finish) && Inv(State())
    {
      StepKeeps(State(), Finish);
      if flight.Appending? {
        persistedCount := persistedCount + |flight.delta|;
      } else {
        persistedCount := |flight.data|;
      }
      flight := Idle;
    }
  }
}
