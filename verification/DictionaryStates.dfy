/** The steps of the persistent dictionary: operations logged before they take effect, checkpoints that
    swap in a fresh snapshot, and a crash possible between any two steps or in the middle of a write. */
module DictionaryStates {
  import opened Options
  import opened BitStream
  import opened WriteAheadLog
  import opened TornTail

  datatype Op<K> = Add(key: K, value: seq<byte>) | Update(key: K, value: seq<byte>) | Remove(key: K)

  function EntryOf<K>(f: Format<K>, op: Op<K>): Entry {
    match op
    case Add(k, v) => Entry(ADD, f.encode(k), v)
    case Update(k, v) => Entry(UPDATE, f.encode(k), v)
    case Remove(k) => Entry(REMOVE, f.encode(k), [])
  }

  /** What the operation means to the caller. */
  function Apply<K(==)>(op: Op<K>, d: map<K, seq<byte>>): map<K, seq<byte>> {
    match op
    case Add(k, v) => d[k := v]
    case Update(k, v) => d[k := v]
    case Remove(k) => d - {k}
  }

  /** The operation passes its own check of the key. */
  predicate Allowed<K(==)>(op: Op<K>, d: map<K, seq<byte>>) {
    match op
    case Add(k, _) => k !in d
    case Update(_, _) => true
    case Remove(k) => k in d
  }

  ghost predicate StorableOp<K>(f: Format<K>, op: Op<K>) {
    Storable(f, op.key, if op.Remove? then [] else op.value)
  }

  function Logged<K>(f: Format<K>, op: Op<K>): seq<byte> {
    Record(f, EntryOf(f, op))
  }

  // ---- The steps --------------------------------------------------------------------------

  /** How far the process is. Down: not running. Moved, Restored, Open: inside the constructor.
      Cleared, Saving, Saved, Deleted, Swapped: inside a checkpoint. Appending: n bytes of the pending
      operation's record are in the log. Jammed: in use, but n bytes of a failed record could not be cut
      off the log. Closed: in use, but without a log to append to. Broken: the replay failed. */
  datatype Phase<K> =
    | Down | Moved | Restored | Open | Ready
    | Cleared | Saving(order: seq<K>, n: nat) | Saved | Deleted | Swapped
    | Appending(n: nat) | Jammed(n: nat) | Closed | Broken

  /** The two files, the process, the phase a failing checkpoint goes back to, and what the callers were
      told: the dictionary after the completed operations, and the operation in flight or left in the log
      by a failed append. */
  datatype State<K> = State(
    snap: Option<seq<byte>>, temp: Option<seq<byte>>,
    phase: Phase<K>, back: Phase<K>, dict: map<K, seq<byte>>, length: nat,
    committed: map<K, seq<byte>>, pending: Option<Op<K>>)

  datatype Event<K> =
    | Internal | Begin(op: Op<K>) | Return | Throw | Jam | Refuse | Clear | Settle | Crash | Reopen

  ghost predicate Initial<K>(s: State<K>) {
    s == State(None, None, Down, Ready, map[], 0, map[], None)
  }

  /** The constructor moves a finished snapshot into place when the snapshot is missing. */
  ghost predicate MoveStep<K>(s: State<K>, t: State<K>) {
    && s.phase.Down?
    && t == if s.temp.Some? && s.snap.None? then s.(snap := s.temp, temp := None, phase := Moved)
            else s.(phase := Moved)
  }

  function LoadFile<K(==)>(f: Format<K>, file: Option<seq<byte>>): Loaded<K> {
    if file.None? then Loaded(map[], true) else Load(f, file.value)
  }

  /** The constructor replays the snapshot; from here on the callers see the outcome. */
  ghost predicate LoadStep<K>(f: Format<K>, s: State<K>, t: State<K>) {
    && s.phase.Moved?
    && match LoadFile(f, s.snap)
       case Failed => t == s.(phase := Broken)
       case Loaded(d, _) => t == s.(phase := Restored, dict := d, length := 0, back := Ready, committed := d, pending := None)
  }

  function Opened(file: Option<seq<byte>>): seq<byte> {
    if file.Some? then file.value else []
  }

  /** The constructor opens the log, creating it if needed; a log that is not empty is checkpointed. */
  ghost predicate OpenStep<K>(s: State<K>, t: State<K>) {
    && s.phase.Restored?
    && var file := Opened(s.snap);
       t == s.(snap := Some(file), length := |file|, back := Ready, phase := if |file| > 0 then Open else Ready)
  }

  /** A checkpoint begins: whatever temporary file there is goes. */
  ghost predicate ClearStep<K>(s: State<K>, t: State<K>) {
    && (s.phase.Ready? || s.phase.Open? || s.phase.Jammed? || s.phase.Closed?)
    && t == s.(temp := None, back := s.phase, phase := Cleared)
  }

  ghost predicate CreateStep<K>(s: State<K>, t: State<K>) {
    && s.phase.Cleared? && t.phase.Saving? && Enumerates(t.phase.order, s.dict)
    && t == s.(temp := Some([]), phase := Saving(t.phase.order, 0))
  }

  /** Any number of further bytes of the snapshot reach the temporary file. */
  ghost predicate SaveStep<K>(f: Format<K>, s: State<K>, t: State<K>) {
    && s.phase.Saving? && t.phase.Saving? && (forall k :: k in s.phase.order ==> k in s.dict)
    && s.temp.Some? && s.phase.n <= t.phase.n <= |Snapshot(f, s.phase.order, s.dict)|
    && t == s.(temp := Some(s.temp.value + Snapshot(f, s.phase.order, s.dict)[s.phase.n..t.phase.n]),
               phase := Saving(s.phase.order, t.phase.n))
  }

  /** An exception while the temporary file is made, which may be cut back: the dictionary stays in use as
      it was, unless it is being constructed. */
  ghost predicate SaveFails<K>(s: State<K>, t: State<K>) {
    && (s.phase.Cleared? || s.phase.Saving?)
    && (t.temp == s.temp || (s.temp.Some? && t.temp.Some? && t.temp.value <= s.temp.value))
    && t == s.(temp := t.temp, phase := if s.back.Open? then Down else s.back, back := Ready)
  }

  ghost predicate CloseStep<K>(f: Format<K>, s: State<K>, t: State<K>) {
    && s.phase.Saving? && (forall k :: k in s.phase.order ==> k in s.dict)
    && s.phase.n == |Snapshot(f, s.phase.order, s.dict)|
    && t == s.(phase := Saved)
  }

  /** The old log goes, and with it what a failed append has left there. */
  ghost predicate DeleteStep<K>(s: State<K>, t: State<K>) {
    s.phase.Saved? && t == s.(snap := None, pending := None, phase := Deleted)
  }

  ghost predicate SwapStep<K>(s: State<K>, t: State<K>) {
    s.phase.Deleted? && t == s.(snap := s.temp, temp := None, phase := Swapped)
  }

  ghost predicate ResumeStep<K>(s: State<K>, t: State<K>) {
    && s.phase.Swapped?
    && var file := Opened(s.snap);
       t == s.(snap := Some(file), length := |file|, phase := Ready, back := Ready)
  }

  /** An exception while the log is closed, deleted, replaced or opened again: the dictionary stays in use with
      its log closed, unless it is being constructed. */
  ghost predicate ReplaceFails<K>(s: State<K>, t: State<K>) {
    && (s.phase.Saved? || s.phase.Deleted? || s.phase.Swapped?)
    && t == s.(phase := if s.back.Open? then Down else Closed, back := Ready)
  }

  /** An append to a closed log throws before anything is written. */
  ghost predicate RefuseStep<K>(s: State<K>, t: State<K>) {
    s.phase.Closed? && t == s
  }

  /** Any number of further bytes of the pending record reach the log. */
  ghost predicate WriteStep<K>(f: Format<K>, s: State<K>, t: State<K>) {
    && s.phase.Appending? && t.phase.Appending? && s.pending.Some? && s.snap.Some?
    && s.phase.n <= t.phase.n <= |Logged(f, s.pending.value)|
    && t == s.(snap := Some(s.snap.value + Logged(f, s.pending.value)[s.phase.n..t.phase.n]),
               phase := Appending(t.phase.n))
  }

  ghost predicate BeginStep<K>(f: Format<K>, s: State<K>, op: Op<K>, t: State<K>) {
    && (s.phase.Ready? || s.phase.Jammed?) && Allowed(op, s.dict) && StorableOp(f, op)
    && t == s.(phase := Appending(0), pending := Some(op))
  }

  /** The record is whole: the dictionary in memory follows, and the caller is told. */
  ghost predicate ReturnStep<K>(f: Format<K>, s: State<K>, t: State<K>) {
    && s.phase.Appending? && s.pending.Some? && s.phase.n == |Logged(f, s.pending.value)|
    && t == s.(phase := Ready, dict := Apply(s.pending.value, s.dict), length := s.length + s.phase.n,
               committed := Apply(s.pending.value, s.committed), pending := None)
  }

  /** The log is cut back to its length and the caller gets the exception. */
  ghost predicate ThrowStep<K>(s: State<K>, t: State<K>) {
    && s.phase.Appending? && s.snap.Some? && s.length <= |s.snap.value|
    && t == s.(snap := Some(s.snap.value[..s.length]), phase := Ready, pending := None)
  }

  /** The log cannot be cut back: the caller gets another exception, and the bytes written stay. */
  ghost predicate JamStep<K>(s: State<K>, t: State<K>) {
    s.phase.Appending? && s.phase.n > 0 && t == s.(phase := Jammed(s.phase.n))
  }

  ghost predicate Next<K>(f: Format<K>, s: State<K>, e: Event<K>, t: State<K>) {
    match e
    case Internal =>
      || MoveStep(s, t) || OpenStep(s, t) || CreateStep(s, t) || SaveStep(f, s, t) || SaveFails(s, t)
      || CloseStep(f, s, t) || SwapStep(s, t) || ResumeStep(s, t) || ReplaceFails(s, t) || WriteStep(f, s, t)
    case Begin(op) => BeginStep(f, s, op, t)
    case Return => ReturnStep(f, s, t)
    case Throw => ThrowStep(s, t)
    case Jam => JamStep(s, t)
    case Refuse => RefuseStep(s, t)
    case Clear => ClearStep(s, t)
    case Settle => DeleteStep(s, t)
    case Crash => t == s.(phase := Down)
    case Reopen => LoadStep(f, s, t)
  }

  // ---- The invariant ----------------------------------------------------------------------

  /** What a restart would find. */
  function Recover<K(==)>(f: Format<K>, s: State<K>): Loaded<K> {
    LoadFile(f, if s.snap.Some? then s.snap else s.temp)
  }

  /** A restart brings back the completed operations, and of the pending one all or nothing. */
  ghost predicate Recoverable<K>(f: Format<K>, s: State<K>) {
    && Recover(f, s).Loaded?
    && (Recover(f, s).dict == s.committed
        || (s.pending.Some? && Recover(f, s).dict == Apply(s.pending.value, s.committed)))
  }

  /** What the callers may still get to see can be stored. */
  ghost predicate Stored<K>(f: Format<K>, s: State<K>) {
    && AllStorable(f, s.committed)
    && (s.pending.Some? ==> StorableOp(f, s.pending.value) && Allowed(s.pending.value, s.committed))
  }

  ghost predicate Settled<K>(f: Format<K>, s: State<K>) {
    s.dict == s.committed && s.pending.None?
  }

  /** The log file holds the committed dictionary in whole records. */
  ghost predicate Clean<K>(f: Format<K>, s: State<K>) {
    s.snap.Some? && Load(f, s.snap.value) == Loaded(s.committed, true) && s.length == |s.snap.value|
  }

  /** Behind the committed dictionary the log holds n bytes of the pending operation's record. */
  ghost predicate Tail<K>(f: Format<K>, s: State<K>, n: nat) {
    && s.pending.Some? && s.snap.Some? && n <= |Logged(f, s.pending.value)| && |s.snap.value| == s.length + n
    && Load(f, s.snap.value[..s.length]) == Loaded(s.committed, true)
    && s.snap.value[s.length..] == Logged(f, s.pending.value)[..n]
  }

  /** The log in a phase in which a checkpoint can begin, and until it replaces the log. */
  ghost predicate LogInv<K>(f: Format<K>, s: State<K>, phase: Phase<K>) {
    match phase
    case Open => Settled(f, s) && s.snap.Some? && Load(f, s.snap.value).Loaded?
      && Load(f, s.snap.value).dict == s.committed && s.length == |s.snap.value|
    case Ready => Settled(f, s) && Clean(f, s)
    case Jammed(n) => s.dict == s.committed && Tail(f, s, n) && n > 0
    case Closed => s.dict == s.committed && NothingToLose(s) && Recoverable(f, s.(temp := None))
      && (s.snap.None? ==> s.pending.None?)
    case _ => false
  }

  /** What a caller can look up before a checkpoint: there is a log file, or there are no entries. */
  ghost predicate NothingToLose<K>(s: State<K>) {
    s.snap.Some? || s.dict == map[]
  }

  ghost predicate Complete<K>(f: Format<K>, file: Option<seq<byte>>, d: map<K, seq<byte>>) {
    file.Some? && Load(f, file.value) == Loaded(d, true)
  }

  ghost predicate PhaseInv<K>(f: Format<K>, s: State<K>) {
    match s.phase
    case Down => Recoverable(f, s)
    case Moved => Recoverable(f, s) && (s.snap.None? ==> s.temp.None?)
    case Restored => Settled(f, s) && LoadFile(f, s.snap).Loaded? && LoadFile(f, s.snap).dict == s.committed
      && (s.snap.None? ==> s.temp.None?)
    case Open => LogInv(f, s, s.phase)
    case Ready => LogInv(f, s, s.phase)
    case Jammed(_) => LogInv(f, s, s.phase)
    case Cleared => LogInv(f, s, s.back) && s.temp.None?
    case Saving(order, n) => LogInv(f, s, s.back) && Enumerates(order, s.dict)
      && n <= |Snapshot(f, order, s.dict)| && s.temp == Some(Snapshot(f, order, s.dict)[..n])
    case Saved => LogInv(f, s, s.back) && Complete(f, s.temp, s.committed)
    case Deleted => Settled(f, s) && s.snap.None? && Complete(f, s.temp, s.committed)
    case Swapped => Settled(f, s) && Complete(f, s.snap, s.committed)
    case Appending(n) => s.dict == s.committed && Tail(f, s, n)
    case Closed => s.dict == s.committed && Recoverable(f, s) && (s.snap.None? ==> s.pending.None?)
    case Broken => false
  }

  ghost predicate Inv<K>(f: Format<K>, s: State<K>) {
    Stored(f, s) && PhaseInv(f, s)
  }

  lemma InitialInv<K>(f: Format<K>, s: State<K>)
    requires Initial(s)
    ensures Inv(f, s)
  {
  }

  lemma AppliesLogged<K>(f: Format<K>, op: Op<K>, d: map<K, seq<byte>>)
    requires StorableOp(f, op) && Allowed(op, d)
    ensures ApplyEntry(f, d, EntryOf(f, op)) == Some(Apply(op, d)) && Fits(EntryOf(f, op))
  {
  }

  lemma ApplyStorable<K>(f: Format<K>, op: Op<K>, d: map<K, seq<byte>>)
    requires StorableOp(f, op) && AllStorable(f, d)
    ensures AllStorable(f, Apply(op, d))
  {
  }

  /** A log with a part of a record at its end loads the old dictionary, and the new one once the last byte
      is there. */
  lemma LoadTail<K>(f: Format<K>, s: State<K>, n: nat)
    requires Stored(f, s) && Tail(f, s, n)
    ensures Load(f, s.snap.value) == (if n < |Logged(f, s.pending.value)| then Loaded(s.committed, n == 0)
      else Loaded(Apply(s.pending.value, s.committed), true))
  {
    var op := s.pending.value;
    AppliesLogged(f, op, s.committed);
    LoadAppended(f, s.snap.value[..s.length], EntryOf(f, op), n, s.committed);
    assert s.snap.value == s.snap.value[..s.length] + s.snap.value[s.length..];
  }

  lemma EmptySnapshot<K>(f: Format<K>, order: seq<K>, d: map<K, seq<byte>>)
    requires Enumerates(order, d) && d == map[]
    ensures Snapshot(f, order, d) == [] && Load(f, []) == Loaded(map[], true)
  {
    LoadsNothing(f);
  }

  /** A crash in any phase leaves files a restart can work with. */
  lemma AlwaysRecoverable<K>(f: Format<K>, s: State<K>)
    requires Inv(f, s)
    ensures Recoverable(f, s)
    ensures s.phase.Appending? || s.phase.Jammed? ==>
      Recover(f, s).dict ==
        if s.phase.n == |Logged(f, s.pending.value)| then Apply(s.pending.value, s.committed) else s.committed
    ensures s.phase.Ready? || s.phase.Deleted? || s.phase.Swapped? ==> Recover(f, s).dict == s.dict
  {
    hide Load, Record;
    if s.phase.Appending? || s.phase.Jammed? {
      LoadTail(f, s, s.phase.n);
    } else if s.phase.Cleared? || s.phase.Saving? || s.phase.Saved? {
      if s.back.Jammed? {
        LoadTail(f, s, s.back.n);
      } else if s.phase.Saving? && s.back.Closed? && s.snap.None? {
        EmptySnapshot(f, s.phase.order, s.dict);
        assert s.temp.value == [];
      }
    }
  }

  // ---- Every step keeps the invariant and is a step of the dictionary -------------------------

  /** What a step means to the callers. */
  datatype Abstract<K> = Abstract(committed: map<K, seq<byte>>, pending: Option<Op<K>>)

  function AbstractOf<K>(s: State<K>): Abstract<K> {
    Abstract(s.committed, s.pending)
  }

  /** Internal steps, the checkpoint's among them, and crashes change nothing; a return makes the
      operation permanent, an exception drops it, or leaves it open if the log could not be cut back, and a
      restart settles the one in flight. The checkpoint that replaces the log drops what was left open. */
  ghost predicate AbstractNext<K>(a: Abstract<K>, e: Event<K>, b: Abstract<K>) {
    match e
    case Internal => b == a
    case Crash => b == a
    case Jam => a.pending.Some? && b == a
    case Refuse => b == a
    case Clear => b == a
    case Settle => b == Abstract(a.committed, None)
    case Begin(op) => a.pending.None? && Allowed(op, a.committed) && b == Abstract(a.committed, Some(op))
    case Return => a.pending.Some? && b == Abstract(Apply(a.pending.value, a.committed), None)
    case Throw => a.pending.Some? && b == Abstract(a.committed, None)
    case Reopen =>
      || b == Abstract(a.committed, None)
      || (a.pending.Some? && b == Abstract(Apply(a.pending.value, a.committed), None))
  }

  lemma ConstructorKeeps<K>(f: Format<K>, s: State<K>, t: State<K>)
    requires Inv(f, s) && (MoveStep(s, t) || LoadStep(f, s, t) || OpenStep(s, t))
    ensures Inv(f, t)
  {
    hide Record, Replay;
    if LoadStep(f, s, t) && s.pending.Some? {
      ApplyStorable(f, s.pending.value, s.committed);
    }
    LoadsNothing(f);
  }

  lemma CheckPointKeeps<K>(f: Format<K>, s: State<K>, t: State<K>)
    requires Inv(f, s)
    requires ClearStep(s, t) || CreateStep(s, t) || SaveFails(s, t) || DeleteStep(s, t) || SwapStep(s, t)
      || ResumeStep(s, t) || ReplaceFails(s, t) || RefuseStep(s, t)
    requires ClearStep(s, t) && s.phase.Closed? ==> NothingToLose(s)
    ensures Inv(f, t)
  {
    hide Record, Load, Snapshot;
    if CreateStep(s, t) || SaveFails(s, t) {
      SavingKeeps(f, s, t);
    } else {
      hide CreateStep, SaveFails;
      AlwaysRecoverable(f, s);
    }
  }

  /** The temporary file is made, or not. */
  lemma SavingKeeps<K>(f: Format<K>, s: State<K>, t: State<K>)
    requires Inv(f, s) && (CreateStep(s, t) || SaveFails(s, t))
    ensures Inv(f, t)
  {
    hide Record, Load, Snapshot;
    AlwaysRecoverable(f, s);
    if s.phase.Saving? && s.back.Closed? && s.snap.None? {
      EmptySnapshot(f, s.phase.order, s.dict);
      assert s.temp.value == [];
    }
  }

  lemma SaveKeeps<K>(f: Format<K>, s: State<K>, t: State<K>)
    requires Inv(f, s) && (SaveStep(f, s, t) || CloseStep(f, s, t))
    ensures Inv(f, t)
  {
    hide Record, Load, Snapshot;
    var order := s.phase.order;
    var whole := Snapshot(f, order, s.dict);
    LoadsFullSnapshot(f, order, s.dict);
    if SaveStep(f, s, t) {
      assert whole[..s.phase.n] + whole[s.phase.n..t.phase.n] == whole[..t.phase.n];
    } else {
      assert whole[..s.phase.n] == whole;
    }
  }

  /** What the source asserts before each append: the log is as long as recorded, nothing of a failed record
      is left at its end. */
  ghost predicate LogAtLength<K>(s: State<K>) {
    s.snap.Some? && |s.snap.value| == s.length
  }

  lemma WriteKeeps<K>(f: Format<K>, s: State<K>, t: State<K>)
    requires Inv(f, s) && WriteStep(f, s, t)
    ensures Inv(f, t)
  {
    hide Record, Load, Snapshot;
    var r, log := Logged(f, s.pending.value), s.snap.value;
    assert t.snap.value[..s.length] == log[..s.length];
    assert t.snap.value[s.length..] == log[s.length..] + r[s.phase.n..t.phase.n];
    assert r[..s.phase.n] + r[s.phase.n..t.phase.n] == r[..t.phase.n];
  }

  lemma OperationKeeps<K>(f: Format<K>, s: State<K>, e: Event<K>, t: State<K>)
    requires Inv(f, s) && (e.Begin? || e.Return? || e.Throw? || e.Jam?) && Next(f, s, e, t)
    requires e.Begin? ==> LogAtLength(s)
    ensures Inv(f, t)
  {
    hide Record, Load, Snapshot;
    match e {
      case Begin(op) =>
        assert s.snap.value[..s.length] == s.snap.value;
      case Return =>
        LoadTail(f, s, s.phase.n);
        ApplyStorable(f, s.pending.value, s.committed);
      case Throw =>
      case Jam =>
    }
  }

  /** What the run theorem asks of the callers: an append finds the log at its recorded length, and a
      checkpoint that begins with the log closed finds a log file or no entries. */
  ghost predicate CarefulStep<K>(s: State<K>, e: Event<K>) {
    && (e.Begin? ==> LogAtLength(s))
    && (e.Clear? && s.phase.Closed? ==> NothingToLose(s))
  }

  /** One step of the process: the invariant stays, and the callers see a step of the dictionary. */
  lemma StepRefines<K>(f: Format<K>, s: State<K>, e: Event<K>, t: State<K>)
    requires Inv(f, s) && Next(f, s, e, t) && CarefulStep(s, e)
    ensures Inv(f, t) && AbstractNext(AbstractOf(s), e, AbstractOf(t))
  {
    hide Record, Load, Snapshot;
    match e {
      case Internal =>
        if MoveStep(s, t) || OpenStep(s, t) {
          ConstructorKeeps(f, s, t);
        } else if SaveStep(f, s, t) || CloseStep(f, s, t) {
          SaveKeeps(f, s, t);
        } else if WriteStep(f, s, t) {
          WriteKeeps(f, s, t);
        } else {
          CheckPointKeeps(f, s, t);
        }
      case Begin(_) => OperationKeeps(f, s, e, t);
      case Return => OperationKeeps(f, s, e, t);
      case Throw => OperationKeeps(f, s, e, t);
      case Jam => OperationKeeps(f, s, e, t);
      case Refuse => CheckPointKeeps(f, s, t);
      case Clear => CheckPointKeeps(f, s, t);
      case Settle => CheckPointKeeps(f, s, t);
      case Crash => AlwaysRecoverable(f, s);
      case Reopen => ConstructorKeeps(f, s, t);
    }
  }

  ghost predicate IsRun<K>(f: Format<K>, states: seq<State<K>>, events: seq<Event<K>>) {
    && |states| == |events| + 1 && Initial(states[0])
    && forall i :: 0 <= i < |events| ==> Next(f, states[i], events[i], states[i + 1])
  }

  /** No operation is begun while a part of a failed record is left in the log, and no checkpoint where it would
      delete the only copy of the entries. */
  ghost predicate Careful<K>(states: seq<State<K>>, events: seq<Event<K>>)
    requires |states| == |events| + 1
  {
    forall i :: 0 <= i < |events| ==> CarefulStep(states[i], events[i])
  }

  /** Every careful run, whatever operations, checkpoints, exceptions and crashes it consists of: the replay
      never fails, a restart at any moment loses no completed operation and takes the one in flight as a
      whole or not at all, and a dictionary in use shows exactly the completed operations. */
  lemma {:induction false} EveryRun<K>(f: Format<K>, states: seq<State<K>>, events: seq<Event<K>>, i: nat)
    requires IsRun(f, states, events) && Careful(states, events) && i < |states|
    ensures Inv(f, states[i]) && Recoverable(f, states[i]) && !states[i].phase.Broken?
    ensures InUse(states[i].phase) ==> states[i].dict == states[i].committed
    ensures i > 0 ==> AbstractNext(AbstractOf(states[i - 1]), events[i - 1], AbstractOf(states[i]))
  {
    hide Inv, Next, AbstractNext, Recoverable, CarefulStep;
    if i == 0 {
      InitialInv(f, states[0]);
    } else {
      EveryRun(f, states, events, i - 1);
      StepRefines(f, states[i - 1], events[i - 1], states[i]);
    }
    AlwaysRecoverable(f, states[i]);
    NeverBroken(f, states[i]);
  }

  /** Its callers can look at the dictionary and call it. */
  predicate InUse<K>(phase: Phase<K>) {
    phase.Ready? || phase.Jammed? || phase.Closed?
  }

  lemma NeverBroken<K>(f: Format<K>, s: State<K>)
    requires Inv(f, s)
    ensures !s.phase.Broken? && (InUse(s.phase) ==> s.dict == s.committed)
  {
  }

  // ---- A second checkpoint after an exception in the replacement of the log --------------------------

  /** Where a snapshot breaks off, the last key is missing. */
  lemma {:induction false} LoadsPart<K>(f: Format<K>, order: seq<K>, d: map<K, seq<byte>>, n: nat)
    requires AllStorable(f, d) && forall k :: k in order ==> k in d
    requires forall i, j :: 0 <= i < j < |order| ==> order[i] != order[j]
    requires n <= |Snapshot(f, order, d)|
    ensures var r := Load(f, Snapshot(f, order, d)[..n]);
      && r.Loaded? && (forall k :: k in r.dict ==> k in order)
      && (n < |Snapshot(f, order, d)| ==> order != [] && order[|order| - 1] !in r.dict)
  {
    hide ReadAt, Record, Load;
    if order == [] {
      LoadsNothing(f);
    } else {
      var front, k := order[..|order| - 1], order[|order| - 1];
      var base, e := Snapshot(f, front, d), Entry(ADD, f.encode(k), d[k]);
      assert k !in front && Storable(f, k, d[k]);
      if n < |base| {
        LoadsPart(f, front, d, n);
        assert Snapshot(f, order, d)[..n] == base[..n];
      } else {
        LoadsSnapshot(f, front, d);
        LoadAppended(f, base, e, n - |base|, Restricted(front, d));
        assert Snapshot(f, order, d)[..n] == base + Record(f, e)[..n - |base|];
      }
    }
  }

  /** A checkpoint that begins with the log closed leaves nothing lost behind its first step if and only if
      there is a log file or there are no entries. */
  lemma ClearsSafely<K>(f: Format<K>, s: State<K>, t: State<K>)
    requires Inv(f, s) && s.phase.Closed? && ClearStep(s, t)
    ensures Recoverable(f, t) <==> NothingToLose(s)
  {
    hide Record, Load, Snapshot;
    LoadsNothing(f);
  }

  /** It stays so until the last byte of the new snapshot is there. */
  lemma PartSaved<K>(f: Format<K>, s: State<K>, order: seq<K>, n: nat)
    requires Inv(f, s) && s.phase.Closed? && Enumerates(order, s.dict) && n <= |Snapshot(f, order, s.dict)|
    ensures Recoverable(f, s.(temp := Some(Snapshot(f, order, s.dict)[..n]), back := Closed, phase := Saving(order, n))) <==>
      NothingToLose(s) || n == |Snapshot(f, order, s.dict)|
  {
    hide Record, Load, Snapshot;
    var whole := Snapshot(f, order, s.dict);
    if s.snap.None? {
      LoadsPart(f, order, s.dict, n);
      LoadsFullSnapshot(f, order, s.dict);
      assert whole[..|whole|] == whole;
      if s.dict == map[] {
        EmptySnapshot(f, order, s.dict);
      }
    }
  }

  lemma Extend<K>(f: Format<K>, states: seq<State<K>>, events: seq<Event<K>>, e: Event<K>, t: State<K>)
    requires IsRun(f, states, events) && Next(f, states[|states| - 1], e, t)
    ensures IsRun(f, states + [t], events + [e])
  {
    hide Next;
  }

  /** Where the caller does not look, a crash right behind that first step loses every entry. */
  lemma SecondCheckPointLoses<K>(f: Format<K>, states: seq<State<K>>, events: seq<Event<K>>)
    returns (lost: seq<State<K>>)
    requires IsRun(f, states, events)
    requires var s := states[|states| - 1]; s.phase.Closed? && !NothingToLose(s)
    ensures |lost| == 4 && IsRun(f, states + lost, events + [Clear, Crash, Internal, Reopen])
    ensures lost[3].phase.Restored? && lost[3].dict == map[]
  {
    var s := states[|states| - 1];
    hide Record, Load, Snapshot, IsRun;
    var t := s.(temp := None, back := Closed, phase := Cleared);
    var u, v := t.(phase := Down), t.(phase := Moved);
    var w := v.(phase := Restored, dict := map[], length := 0, back := Ready, committed := map[], pending := None);
    Extend(f, states, events, Clear, t);
    Extend(f, states + [t], events + [Clear], Crash, u);
    Extend(f, states + [t] + [u], events + [Clear] + [Crash], Internal, v);
    Extend(f, states + [t] + [u] + [v], events + [Clear] + [Crash] + [Internal], Reopen, w);
    lost := [t, u, v, w];
    assert states + [t] + [u] + [v] + [w] == states + lost;
    assert events + [Clear] + [Crash] + [Internal] + [Reopen] == events + [Clear, Crash, Internal, Reopen];
  }

  /** A dictionary in use gets there by a checkpoint that deletes the log and then fails to move the snapshot. */
  lemma FailedReplacement<K>(f: Format<K>, states: seq<State<K>>, events: seq<Event<K>>, order: seq<K>)
    returns (more: seq<State<K>>)
    requires IsRun(f, states, events) && states[|states| - 1].phase.Ready?
    requires Enumerates(order, states[|states| - 1].dict)
    ensures |more| == 6
    ensures IsRun(f, states + more, events + [Clear, Internal, Internal, Internal, Settle, Internal])
    ensures var s, t := states[|states| - 1], more[5]; t.phase.Closed? && t.snap.None? && t.dict == s.dict
  {
    var s := states[|states| - 1];
    var first := WholeSnapshot(f, states, events, order);
    hide Record, Load, Snapshot, IsRun, Enumerates;
    hide MoveStep, OpenStep, CreateStep, SaveStep, SaveFails, SwapStep, ResumeStep, WriteStep;
    var before, sofar := states + first, events + [Clear, Internal, Internal];
    var w := first[2].(phase := Saved);
    var x := w.(snap := None, pending := None, phase := Deleted);
    var y := x.(phase := Closed);
    Extend(f, before, sofar, Internal, w);
    Extend(f, before + [w], sofar + [Internal], Settle, x);
    Extend(f, before + [w] + [x], sofar + [Internal] + [Settle], Internal, y);
    more := first + [w, x, y];
    assert before + [w] + [x] + [y] == states + more;
    assert sofar + [Internal] + [Settle] + [Internal] == events + [Clear, Internal, Internal, Internal, Settle, Internal];
  }

  lemma WholeSnapshot<K>(f: Format<K>, states: seq<State<K>>, events: seq<Event<K>>, order: seq<K>)
    returns (more: seq<State<K>>)
    requires IsRun(f, states, events) && states[|states| - 1].phase.Ready?
    requires Enumerates(order, states[|states| - 1].dict)
    ensures |more| == 3 && IsRun(f, states + more, events + [Clear, Internal, Internal])
    ensures var s := states[|states| - 1]; var n := |Snapshot(f, order, s.dict)|;
      more[2].phase == Saving(order, n) && more[2].dict == s.dict && more[2].back.Ready?
  {
    var s := states[|states| - 1];
    hide Record, Load, Snapshot, IsRun;
    hide MoveStep, OpenStep, SaveFails, SwapStep, ResumeStep, ReplaceFails, WriteStep;
    var whole := Snapshot(f, order, s.dict);
    var t := s.(temp := None, back := Ready, phase := Cleared);
    var u := t.(temp := Some([]), phase := Saving(order, 0));
    var v := u.(temp := Some([] + whole), phase := Saving(order, |whole|));
    assert whole[0..|whole|] == whole;
    assert ClearStep(s, t) && CreateStep(t, u) && SaveStep(f, u, v);
    hide ClearStep, CreateStep, SaveStep, Enumerates;
    Extend(f, states, events, Clear, t);
    Extend(f, states + [t], events + [Clear], Internal, u);
    Extend(f, states + [t] + [u], events + [Clear] + [Internal], Internal, v);
    more := [t, u, v];
    assert states + [t] + [u] + [v] == states + more;
    assert events + [Clear] + [Internal] + [Internal] == events + [Clear, Internal, Internal];
  }

  /** The first addition of a fresh dictionary. */
  lemma FirstAddition<K>(f: Format<K>, k: K, v: seq<byte>) returns (states: seq<State<K>>)
    requires Storable(f, k, v)
    ensures |states| == 7 && IsRun(f, states, [Internal, Reopen, Internal, Begin(Op.Add(k, v)), Internal, Return])
    ensures var s := states[6]; s.phase.Ready? && s.dict == s.committed == map[k := v]
  {
    hide Record, Load, Snapshot;
    LoadsNothing(f);
    var op := Op.Add(k, v);
    var r := Logged(f, op);
    var s := State(None, None, Down, Ready, map[], 0, map[], None);
    var t := s.(phase := Moved);
    var u := s.(phase := Restored);
    var w := s.(snap := Some([]), phase := Ready);
    var x := w.(phase := Appending(0), pending := Some(op));
    var y := x.(snap := Some([] + r), phase := Appending(|r|));
    var z := y.(phase := Ready, dict := map[k := v], length := |r|, committed := map[k := v], pending := None);
    assert r[0..|r|] == r;
    states := [s, t, u, w, x, y, z];
    assert MoveStep(s, t) && LoadStep(f, t, u) && OpenStep(u, w) && BeginStep(f, w, op, x);
    assert WriteStep(f, x, y) && ReturnStep(f, y, z);
  }

  /** A run in which a completed addition is lost, without any append that fails. */
  lemma CompletedThenLost<K>(f: Format<K>, k: K, v: seq<byte>) returns (states: seq<State<K>>, events: seq<Event<K>>)
    requires Storable(f, k, v)
    ensures IsRun(f, states, events) && |states| == 17
    ensures events == [Internal, Reopen, Internal, Begin(Op.Add(k, v)), Internal, Return]
      + [Clear, Internal, Internal, Internal, Settle, Internal] + [Clear, Crash, Internal, Reopen]
    ensures states[6].committed == map[k := v] && states[16].phase.Restored? && states[16].dict == map[]
  {
    hide Record, Load, Snapshot, IsRun;
    states := FirstAddition(f, k, v);
    events := [Internal, Reopen, Internal, Begin(Op.Add(k, v)), Internal, Return];
    var more := FailedReplacement(f, states, events, [k]);
    states, events := states + more, events + [Clear, Internal, Internal, Internal, Settle, Internal];
    assert k in map[k := v];
    var lost := SecondCheckPointLoses(f, states, events);
    states, events := states + lost, events + [Clear, Crash, Internal, Reopen];
  }

  // ---- Going on after a failed append that could not be cut back --------------------------------

  /** The state after one more operation, written whole behind whatever is at the end of the log. */
  function After<K(==)>(f: Format<K>, s: State<K>, op: Op<K>): State<K> {
    var r := Logged(f, op);
    s.(snap := Some(Opened(s.snap) + r), phase := Ready, dict := Apply(op, s.dict), length := s.length + |r|,
       committed := Apply(op, s.committed), pending := None)
  }

  /** The steps allow it, and its caller is told that the operation is done. */
  lemma GoesOn<K>(f: Format<K>, s: State<K>, op: Op<K>)
    requires s.phase.Jammed? && s.snap.Some? && Allowed(op, s.dict) && StorableOp(f, op)
    ensures exists t, u :: Next(f, s, Begin(op), t) && Next(f, t, Internal, u) && Next(f, u, Return, After(f, s, op))
  {
    hide Record, Load, Snapshot;
    var r := Logged(f, op);
    var t := s.(phase := Appending(0), pending := Some(op));
    var u := t.(snap := Some(s.snap.value + r), phase := Appending(|r|));
    assert r[0..|r|] == r;
    assert Next(f, s, Begin(op), t) && WriteStep(f, t, u) && Next(f, u, Return, After(f, s, op));
  }

  /** A restart then finds the operation, alone or together with the failed one. */
  ghost predicate Kept<K>(f: Format<K>, s: State<K>, op: Op<K>)
    requires s.pending.Some?
  {
    var r := Recover(f, After(f, s, op));
    || r == Loaded(Apply(op, s.committed), true)
    || r == Loaded(Apply(op, Apply(s.pending.value, s.committed)), true)
  }

  /** Appending behind what a failed record has left keeps every next operation if and only if the record is
      there to its last byte and its key was in the dictionary already. */
  lemma SafeToGoOn<K>(f: Format<K>, s: State<K>, k: K)
    requires Inv(f, s) && s.phase.Jammed? && OneEncoding(f, k) && Storable(f, k, [])
    ensures (forall op :: Allowed(op, s.dict) && StorableOp(f, op) ==> Kept(f, s, op)) <==>
      s.phase.n == |Logged(f, s.pending.value)| && s.pending.value.key in s.committed
  {
    hide Record, Load, Snapshot;
    var failed := s.pending.value;
    if s.phase.n < |Logged(f, failed)| {
      TornNotKept(f, s, k);
    } else if failed.key in s.committed {
      forall op | Allowed(op, s.dict) && StorableOp(f, op)
        ensures Kept(f, s, op)
      {
        LoadsWholeTail(f, s, op);
      }
    } else {
      var again := Op.Add(failed.key, []);
      LoadsWholeTail(f, s, again);
      assert Allowed(again, s.dict) && StorableOp(f, again) && !Kept(f, s, again);
    }
  }

  /** Behind a whole record: an operation that adds the failed one's key again makes every replay fail, all
      others are kept together with it. */
  lemma LoadsWholeTail<K>(f: Format<K>, s: State<K>, op: Op<K>)
    requires Inv(f, s) && s.phase.Jammed? && s.phase.n == |Logged(f, s.pending.value)|
    requires Allowed(op, s.dict) && StorableOp(f, op)
    ensures Recover(f, After(f, s, op)) ==
      if op.Add? && op.key in Apply(s.pending.value, s.committed) then Failed
      else Loaded(Apply(op, Apply(s.pending.value, s.committed)), true)
  {
    hide Record, Load, Snapshot;
    var failed, base := s.pending.value, s.snap.value[..s.length];
    AppliesLogged(f, failed, s.committed);
    assert Fits(EntryOf(f, op));
    WholeTail(f, base, s.committed, EntryOf(f, failed), EntryOf(f, op));
    assert s.snap.value == base + s.snap.value[s.length..];
    assert Logged(f, failed)[..s.phase.n] == Logged(f, failed);
    hide Storable;
  }

  /** Behind a torn record some update is not kept. */
  lemma TornNotKept<K>(f: Format<K>, s: State<K>, k: K)
    requires Inv(f, s) && s.phase.Jammed? && s.phase.n < |Logged(f, s.pending.value)|
    requires OneEncoding(f, k) && Storable(f, k, [])
    ensures exists op :: Allowed(op, s.dict) && StorableOp(f, op) && !Kept(f, s, op)
  {
    hide Record, Load, Snapshot, OneEncoding;
    var failed, base := s.pending.value, s.snap.value[..s.length];
    AppliesLogged(f, failed, s.committed);
    assert s.snap.value == base + s.snap.value[s.length..];
    TornLoses(f, base, s.committed, EntryOf(f, failed), s.phase.n, k);
    var v :| |v| <= 10 && Lost(f, s.snap.value, k, v);
    var op := Op.Update(k, v);
    assert Allowed(op, s.dict) && StorableOp(f, op) && !Kept(f, s, op);
  }
}
