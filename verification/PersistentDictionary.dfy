/** The persistent dictionary as the object its callers use. Its history of states is a run of the steps of
    DictionaryStates, so what holds in every run holds at every moment inside its methods. */
module PersistentDictionary {
  import opened Numerals
  import opened Options
  import opened BitStream
  import opened WriteAheadLog
  import opened DictionaryStates

  datatype Outcome = Done | Refused | Thrown | Corrupted

  /** What goes wrong while a record is written: the bytes that have reached the log at the exception, all of
      the record's if it has no more, and whether the log can be cut back. */
  datatype Fault = NoFault | Fault(written: nat, cutBack: bool)

  /** How far the replacement of the log has come. */
  datatype Reached = LogClosed | LogDeleted | SnapshotMoved

  /** What goes wrong in a checkpoint: an exception in the entry after that many whole ones, of which so many
      bytes reach the temporary file, which can be cut back or not; or one while the log is replaced. */
  datatype Trouble = Smooth | WhileSaving(entries: nat, bytes: nat, cutBack: bool) | WhileReplacing(reached: Reached)

  class PersistentDictionary<K(==)> {
    const f: Format<K>
    var snap: Option<seq<byte>>
    var temp: Option<seq<byte>>
    var dict: map<K, seq<byte>>
    var length: nat
    var open: bool
    ghost var states: seq<State<K>>
    ghost var events: seq<Event<K>>

    ghost predicate At(phase: Phase<K>, back: Phase<K>, pending: Option<Op<K>>)
      reads this
    {
      && IsRun(f, states, events) && Careful(states, events)
      && states[|states| - 1] == State(snap, temp, phase, back, dict, length, dict, pending)
    }

    ghost predicate Valid()
      reads this
    {
      open && At(Ready, Ready, None)
    }

    /** In use, but the log is closed, after an exception while it was replaced. */
    ghost predicate Shut()
      reads this
    {
      !open && states != [] && At(Closed, Ready, states[|states| - 1].pending)
    }

    ghost predicate InUse()
      reads this
    {
      if open then Valid() else Shut()
    }

    /** The dictionary is in use or under construction, and a checkpoint would not delete the only copy of the
        entries. */
    ghost predicate CanCheckPoint(from: Phase<K>, pending: Option<Op<K>>)
      reads this
    {
      && At(from, Ready, pending) && (from.Ready? || from.Open? || from.Jammed? || from.Closed?)
      && (open <==> !from.Closed?) && (open || snap.Some? || dict == map[])
    }

    /** No longer in use; its files can be opened again. */
    ghost predicate Stopped()
      reads this
    {
      && IsRun(f, states, events) && Careful(states, events)
      && var s := states[|states| - 1]; s.phase.Down? && s.snap == snap && s.temp == temp
    }

    ghost method Step(e: Event<K>, t: State<K>)
      requires IsRun(f, states, events) && Careful(states, events) && Next(f, states[|states| - 1], e, t)
      requires CarefulStep(states[|states| - 1], e)
      modifies this`states, this`events
      ensures IsRun(f, states, events) && Careful(states, events)
      ensures states == old(states) + [t] && events == old(events) + [e]
    {
      hide Next, CarefulStep;
      states := states + [t];
      events := events + [e];
    }

    /** The invariant of every run holds now. */
    lemma Now()
      requires IsRun(f, states, events) && Careful(states, events)
      ensures Inv(f, states[|states| - 1])
    {
      EveryRun(f, states, events, |states| - 1);
    }

    /** Start on the files a run has left behind. */
    constructor (f: Format<K>, snap: Option<seq<byte>>, temp: Option<seq<byte>>,
      ghost past: seq<State<K>>, ghost pastEvents: seq<Event<K>>)
      requires IsRun(f, past, pastEvents) && Careful(past, pastEvents)
      requires var s := past[|past| - 1]; s.phase.Down? && s.snap == snap && s.temp == temp
      ensures this.f == f && Valid() && past <= states && pastEvents <= events
      ensures var r := Recover(f, past[|past| - 1]); r.Loaded? && dict == r.dict
      ensures var s := past[|past| - 1]; dict == s.committed || (s.pending.Some? && dict == Apply(s.pending.value, s.committed))
    {
      this.f := f;
      this.snap := snap;
      this.temp := temp;
      dict := map[];
      length := 0;
      open := false;
      states := past;
      events := pastEvents;
      new;
      hide Load, Snapshot, Record;
      ghost var s := past[|past| - 1];
      Now();
      MoveSnapshot(s);
      LoadDictionary();
      ghost var d := dict;
      OpenWriter(false, Ready);
      if length > 0 {
        var _ := CheckPoint(Smooth, Open, None);
      }
      assert dict == d;
    }

    method MoveSnapshot(ghost s: State<K>)
      requires IsRun(f, states, events) && Careful(states, events) && states[|states| - 1] == s
      requires s.phase.Down? && s.snap == snap && s.temp == temp
      modifies this`snap, this`temp, this`states, this`events
      ensures IsRun(f, states, events) && Careful(states, events) && old(states) <= states && old(events) <= events
      ensures states[|states| - 1] == s.(snap := snap, temp := temp, phase := Moved)
      ensures LoadFile(f, snap) == Recover(f, s)
    {
      hide Load, Record, Snapshot, IsRun;
      hide OpenStep, ClearStep, CreateStep, SaveStep, SaveFails, CloseStep, DeleteStep, SwapStep, ResumeStep,
        ReplaceFails,
        WriteStep, LoadStep, BeginStep, ReturnStep, ThrowStep;
      if temp.Some? && snap.None? {
        snap := temp;
        temp := None;
      }
      Step(Internal, s.(snap := snap, temp := temp, phase := Moved));
    }

    method LoadDictionary()
      requires IsRun(f, states, events) && Careful(states, events)
      requires var s := states[|states| - 1]; s.phase.Moved? && s.snap == snap && s.temp == temp && length == 0
      modifies this`dict, this`states, this`events
      ensures old(states) <= states && old(events) <= events
      ensures At(Restored, Ready, None)
      ensures LoadFile(f, snap).Loaded? && dict == LoadFile(f, snap).dict
    {
      hide Load, Record, Snapshot;
      hide MoveStep, OpenStep, ClearStep, CreateStep, SaveStep, SaveFails, CloseStep, DeleteStep, SwapStep,
        ResumeStep, WriteStep, BeginStep, ReturnStep, ThrowStep;
      ghost var s := states[|states| - 1];
      Now();
      dict := map[];
      if snap.Some? {
        var r := LoadSnapshot(f, snap.value);
        dict := r.dict;
      }
      Step(Reopen, State(snap, temp, Restored, Ready, dict, 0, dict, None));
    }

    /** Open the log for appending, in the constructor or after a checkpoint. */
    method OpenWriter(ghost swapped: bool, ghost back: Phase<K>)
      requires At(if swapped then Swapped else Restored, back, None)
      modifies this`snap, this`length, this`open, this`states, this`events
      ensures old(states) <= states && old(events) <= events && open
      ensures At(if swapped || length == 0 then Ready else Open, Ready, None)
      ensures snap == Some(Opened(old(snap))) && length == |snap.value|
    {
      hide Load, Record, Snapshot, IsRun;
      hide MoveStep, ClearStep, CreateStep, SaveStep, SaveFails, CloseStep, DeleteStep, SwapStep, WriteStep,
        LoadStep, BeginStep, ReturnStep, ThrowStep;
      if snap.None? {
        snap := Some([]);
      }
      length := |snap.value|;
      open := true;
      Step(Internal, State(snap, temp, if swapped || length == 0 then Ready else Open, Ready, dict, length, dict, None));
    }

    /** Write a snapshot beside the log and put it in the place of the log. The log may end with what a failed
        append has left; that goes with it. */
    method CheckPoint(trouble: Trouble, ghost from: Phase<K>, ghost pending: Option<Op<K>>) returns (ok: bool)
      requires CanCheckPoint(from, pending)
      modifies this`snap, this`temp, this`length, this`open, this`states, this`events
      ensures old(states) <= states && old(events) <= events && (ok <==> trouble.Smooth?)
      ensures ok ==> Valid() && temp.None? && snap.Some? && length == |snap.value|
      ensures ok ==> exists order :: Enumerates(order, dict) && snap == Some(Snapshot(f, order, dict))
      ensures trouble.WhileSaving? ==> snap == old(snap) && length == old(length) && open == old(open)
      ensures trouble.WhileSaving? && !from.Open? ==> At(from, Ready, pending)
      ensures trouble.WhileReplacing? && !from.Open? ==> Shut()
      ensures trouble.WhileReplacing? ==>
        exists order :: Enumerates(order, dict) && Replaced(trouble.reached, old(snap), Snapshot(f, order, dict))
      ensures !ok && from.Open? ==> Stopped()
    {
      hide Load, Record, Snapshot, IsRun, Careful;
      hide MoveStep, OpenStep, CreateStep, SaveStep, SaveFails, CloseStep, DeleteStep, SwapStep, ResumeStep,
        ReplaceFails, WriteStep, LoadStep, BeginStep, ReturnStep, ThrowStep, JamStep;
      if temp.Some? {
        temp := None;
      }
      Step(Clear, State(snap, temp, Cleared, from, dict, length, dict, pending));
      var order;
      order, ok := CreateSnapshot(trouble, from, pending);
      if !ok {
        return;
      }
      ghost var log := snap;
      ReplaceLog(order, trouble, from, pending);
      assert trouble.WhileReplacing? ==> Replaced(trouble.reached, log, Snapshot(f, order, dict));
      ok := trouble.Smooth?;
    }

    /** The two files where an exception leaves them: the old log and the new snapshot beside it, the snapshot
        alone, or the snapshot in the place of the log. */
    ghost predicate Replaced(reached: Reached, log: Option<seq<byte>>, snapshot: seq<byte>)
      reads this
    {
      match reached
      case LogClosed => snap == log && temp == Some(snapshot)
      case LogDeleted => snap == None && temp == Some(snapshot)
      case SnapshotMoved => snap == Some(snapshot) && temp == None
    }

    /** Put the finished snapshot in the place of the log. */
    method ReplaceLog(order: seq<K>, trouble: Trouble, ghost from: Phase<K>, ghost pending: Option<Op<K>>)
      requires !trouble.WhileSaving? && Enumerates(order, dict) && temp == Some(Snapshot(f, order, dict))
      requires At(Saving(order, |temp.value|), from, pending)
      modifies this`snap, this`temp, this`length, this`open, this`states, this`events
      ensures old(states) <= states && old(events) <= events
      ensures trouble.Smooth? ==> Valid() && temp.None? && snap == old(temp) && length == |snap.value|
      ensures trouble.WhileReplacing? ==> Replaced(trouble.reached, old(snap), old(temp.value))
      ensures trouble.WhileReplacing? ==> if from.Open? then Stopped() else Shut()
    {
      hide Load, Record, Snapshot, IsRun, Careful;
      hide MoveStep, OpenStep, ClearStep, CreateStep, SaveStep, SaveFails, ReplaceFails, SwapStep, ResumeStep,
        WriteStep,
        LoadStep, BeginStep, ReturnStep, ThrowStep, JamStep;
      Step(Internal, State(snap, temp, Saved, from, dict, length, dict, pending));
      open := false;
      if trouble == WhileReplacing(LogClosed) {
        LeaveClosed(Saved, from, pending);
        return;
      }
      snap := None;
      Step(Settle, State(snap, temp, Deleted, from, dict, length, dict, None));
      MoveIntoPlace(trouble, from);
    }

    /** Give the snapshot the name of the log and open it. */
    method MoveIntoPlace(trouble: Trouble, ghost from: Phase<K>)
      requires trouble.Smooth? || (trouble.WhileReplacing? && !trouble.reached.LogClosed?)
      requires !open && snap.None? && temp.Some? && At(Deleted, from, None)
      modifies this`snap, this`temp, this`length, this`open, this`states, this`events
      ensures old(states) <= states && old(events) <= events
      ensures trouble.Smooth? ==> Valid() && temp.None? && snap == old(temp) && length == |snap.value|
      ensures trouble.WhileReplacing? ==> Replaced(trouble.reached, None, old(temp.value))
      ensures trouble.WhileReplacing? ==> if from.Open? then Stopped() else Shut()
    {
      hide Load, Record, Snapshot, IsRun, Careful;
      hide MoveStep, OpenStep, ClearStep, CreateStep, SaveStep, SaveFails, CloseStep, DeleteStep, ReplaceFails,
        ResumeStep, WriteStep, LoadStep, BeginStep, ReturnStep, ThrowStep, JamStep;
      if trouble == WhileReplacing(LogDeleted) {
        LeaveClosed(Deleted, from, None);
        return;
      }
      snap := temp;
      temp := None;
      Step(Internal, State(snap, temp, Swapped, from, dict, length, dict, None));
      if trouble == WhileReplacing(SnapshotMoved) {
        LeaveClosed(Swapped, from, None);
        return;
      }
      OpenWriter(true, from);
    }

    /** The exception leaves the log closed. */
    ghost method LeaveClosed(phase: Phase<K>, from: Phase<K>, pending: Option<Op<K>>)
      requires !open && At(phase, from, pending) && (phase.Saved? || phase.Deleted? || phase.Swapped?)
      modifies this`states, this`events
      ensures old(states) <= states && old(events) <= events
      ensures if from.Open? then Stopped() else Shut()
    {
      hide Load, Record, Snapshot, IsRun, Careful;
      hide MoveStep, OpenStep, ClearStep, CreateStep, SaveStep, SaveFails, CloseStep, DeleteStep, SwapStep,
        ResumeStep, WriteStep, LoadStep, BeginStep, ReturnStep, ThrowStep, JamStep;
      Step(Internal, State(snap, temp, if from.Open? then Down else Closed, Ready, dict, length, dict, pending));
    }

    /** Add every entry to the temporary file. */
    method CreateSnapshot(trouble: Trouble, ghost back: Phase<K>, ghost pending: Option<Op<K>>)
      returns (order: seq<K>, ok: bool)
      requires At(Cleared, back, pending) && temp.None?
      modifies this`temp, this`states, this`events
      ensures old(states) <= states && old(events) <= events && Enumerates(order, dict)
      ensures ok <==> !trouble.WhileSaving?
      ensures ok ==> temp == Some(Snapshot(f, order, dict)) && At(Saving(order, |temp.value|), back, pending)
      ensures !ok ==> At(if back.Open? then Down else back, Ready, pending)
    {
      hide Load, Record, Snapshot, IsRun, Careful, Next;
      order := KeysOf(dict);
      BeginSnapshot(order, back, pending);
      SnapshotPrefix(f, order, dict, 0);
      for i := 0 to |order|
        invariant old(states) <= states && old(events) <= events
        invariant temp == Some(Snapshot(f, order[..i], dict)) && At(Saving(order, |temp.value|), back, pending)
      {
        if trouble.WhileSaving? && i == trouble.entries {
          BreakOff(order, i, trouble.bytes, trouble.cutBack, back, pending);
          return order, false;
        }
        SaveEntry(order, i, |Record(f, Entry(ADD, f.encode(order[i]), dict[order[i]]))|, back, pending);
      }
      assert order[..|order|] == order;
      ok := true;
      if trouble.WhileSaving? {
        ok := false;
        FailSaving(|temp.value|, order, back, pending);
      }
    }

    /** The temporary file is there, with nothing in it. */
    method BeginSnapshot(order: seq<K>, ghost back: Phase<K>, ghost pending: Option<Op<K>>)
      requires At(Cleared, back, pending) && temp.None? && Enumerates(order, dict)
      modifies this`temp, this`states, this`events
      ensures old(states) <= states && old(events) <= events
      ensures temp == Some([]) && At(Saving(order, 0), back, pending)
    {
      hide Load, Record, Snapshot, IsRun, Careful;
      hide MoveStep, OpenStep, ClearStep, SaveStep, SaveFails, CloseStep, DeleteStep, SwapStep, ResumeStep, WriteStep,
        LoadStep, BeginStep, ReturnStep, ThrowStep, JamStep;
      temp := Some([]);
      Step(Internal, State(snap, temp, Saving(order, 0), back, dict, length, dict, pending));
    }

    /** An exception in the middle of an entry. */
    method BreakOff(order: seq<K>, i: nat, bytes: nat, cutBack: bool, ghost back: Phase<K>,
      ghost pending: Option<Op<K>>)
      requires i < |order| && Enumerates(order, dict)
      requires temp == Some(Snapshot(f, order[..i], dict)) && At(Saving(order, |temp.value|), back, pending)
      modifies this`temp, this`states, this`events
      ensures old(states) <= states && old(events) <= events
      ensures At(if back.Open? then Down else back, Ready, pending)
    {
      hide Load, Record, Snapshot, IsRun, Careful;
      hide Next;
      var n := |temp.value|;
      var r := |Record(f, Entry(ADD, f.encode(order[i]), dict[order[i]]))|;
      SaveEntry(order, i, Min(bytes, r), back, pending);
      FailSaving(if cutBack then n else |temp.value|, order, back, pending);
    }

    /** The exception leaves the temporary file, perhaps cut back. */
    method FailSaving(n: nat, order: seq<K>, ghost back: Phase<K>, ghost pending: Option<Op<K>>)
      requires temp.Some? && n <= |temp.value| && At(Saving(order, |temp.value|), back, pending)
      modifies this`temp, this`states, this`events
      ensures old(states) <= states && old(events) <= events
      ensures At(if back.Open? then Down else back, Ready, pending)
    {
      hide Load, Record, Snapshot, IsRun, Careful;
      hide MoveStep, OpenStep, ClearStep, CreateStep, SaveStep, CloseStep, DeleteStep, SwapStep, ResumeStep,
        WriteStep, LoadStep, BeginStep, ReturnStep, ThrowStep, JamStep;
      temp := Some(temp.value[..n]);
      Step(Internal, State(snap, temp, if back.Open? then Down else back, Ready, dict, length, dict, pending));
    }

    /** Any number of bytes of the next entry. */
    method SaveEntry(order: seq<K>, i: nat, n: nat, ghost back: Phase<K>, ghost pending: Option<Op<K>>)
      requires i < |order| && Enumerates(order, dict)
      requires n <= |Record(f, Entry(ADD, f.encode(order[i]), dict[order[i]]))|
      requires temp == Some(Snapshot(f, order[..i], dict)) && At(Saving(order, |temp.value|), back, pending)
      modifies this`temp, this`states, this`events
      ensures old(states) <= states && old(events) <= events
      ensures temp.Some? && At(Saving(order, |temp.value|), back, pending) && |temp.value| == |old(temp.value)| + n
      ensures n == |Record(f, Entry(ADD, f.encode(order[i]), dict[order[i]]))| ==>
        temp == Some(Snapshot(f, order[..i + 1], dict))
    {
      hide Load, Record, Snapshot, IsRun, Careful;
      hide MoveStep, OpenStep, CreateStep, ClearStep, SaveFails, CloseStep, DeleteStep, SwapStep, ResumeStep,
        WriteStep, LoadStep, BeginStep, ReturnStep, ThrowStep, JamStep;
      var k := order[i];
      var r := Record(f, Entry(ADD, f.encode(k), dict[k]));
      SnapshotChunk(f, order, dict, i);
      ghost var whole, at := Snapshot(f, order, dict), |temp.value|;
      assert whole[at..at + n] == whole[at..at + |r|][..n];
      assert n == |r| ==> r[..n] == r;
      temp := Some(temp.value + r[..n]);
      Step(Internal, State(snap, temp, Saving(order, |temp.value|), back, dict, length, dict, pending));
    }

    /** What the caller of an append gets to see. */
    function Outcomes(fault: Fault): Outcome
      reads this
    {
      if !open then Corrupted else if fault.NoFault? then Done else if fault.cutBack then Thrown else Corrupted
    }

    /** Write the pending operation's record to the log, all of it or up to a fault; after a fault the log
        is cut back, if it can be. A closed log throws before anything is written. */
    method Append(e: Entry, fault: Fault, ghost op: Op<K>) returns (r: Outcome)
      requires e == EntryOf(f, op) && if open then At(Appending(0), Ready, Some(op)) else Shut()
      modifies this`snap, this`length, this`states, this`events
      ensures old(states) <= states && old(events) <= events && (open ==> old(snap).Some?)
      ensures r == Outcomes(fault)
      ensures !open ==> Shut() && length == old(length) && snap == old(snap)
      ensures r.Thrown? ==> Valid() && length == old(length) && snap == old(snap)
      ensures r.Corrupted? && open ==> Left(Min(fault.written, |Record(f, e)|), op) && length == old(length)
      ensures r.Corrupted? && open ==>
        snap == Some(old(snap.value) + Record(f, e)[..Min(fault.written, |Record(f, e)|)])
      ensures r.Done? ==> snap == Some(old(snap.value) + Record(f, e)) && length == old(length) + |Record(f, e)|
      ensures r.Done? ==> IsRun(f, states, events) && Careful(states, events)
      ensures r.Done? ==>
        states[|states| - 1] == State(snap, temp, Appending(|Record(f, e)|), Ready, dict, old(length), dict, Some(op))
    {
      hide Load, Record, Snapshot, IsRun, Careful;
      hide MoveStep, OpenStep, ClearStep, CreateStep, SaveStep, SaveFails, CloseStep, DeleteStep, SwapStep,
        ResumeStep, ReplaceFails, LoadStep, BeginStep, ReturnStep, ThrowStep, JamStep;
      if !open {
        Step(Refuse, states[|states| - 1]);
        return Corrupted;
      }
      Now();
      ghost var log := snap.value;
      assert log[..length] == log;
      var record := Record(f, e);
      var n := if fault.NoFault? then |record| else Min(fault.written, |record|);
      assert record[0..n] == record[..n];
      snap := Some(snap.value + record[..n]);
      Step(Internal, State(snap, temp, Appending(n), Ready, dict, length, dict, Some(op)));
      if fault.NoFault? {
        assert record[..n] == record;
        length := length + (8 + 1 + 4 + |e.key| + 4 + |e.value|);
        r := Done;
      } else {
        r := BreakOffAppend(n, fault.cutBack, op);
      }
    }

    /** An exception after n bytes of the record: they are cut off the log, if they can be. */
    method BreakOffAppend(n: nat, cutBack: bool, ghost op: Op<K>) returns (r: Outcome)
      requires open && At(Appending(n), Ready, Some(op)) && snap.Some? && |snap.value| == length + n
      modifies this`snap, this`states, this`events
      ensures old(states) <= states && old(events) <= events
      ensures r == if cutBack then Thrown else Corrupted
      ensures r.Thrown? ==> Valid() && snap == Some(old(snap.value)[..length])
      ensures r.Corrupted? ==> Left(n, op) && snap == old(snap)
    {
      hide Load, Record, Snapshot, IsRun, Careful;
      hide MoveStep, OpenStep, ClearStep, CreateStep, SaveStep, SaveFails, CloseStep, DeleteStep, SwapStep,
        ResumeStep, ReplaceFails, WriteStep, LoadStep, BeginStep, ReturnStep;
      if cutBack {
        snap := Some(snap.value[..length]);
        Step(Throw, State(snap, temp, Ready, Ready, dict, length, dict, None));
        r := Thrown;
      } else {
        r := Corrupted;
        if n == 0 {
          assert snap.value[..length] == snap.value;
          Step(Throw, State(snap, temp, Ready, Ready, dict, length, dict, None));
        } else {
          Step(Jam, State(snap, temp, Jammed(n), Ready, dict, length, dict, Some(op)));
        }
      }
    }

    /** In use, with n bytes of the failed operation's record in the log. */
    ghost predicate Left(n: nat, op: Op<K>)
      reads this
    {
      if n == 0 then Valid() else open && At(Jammed(n), Ready, Some(op))
    }

    /** Log the operation, then apply it in memory. */
    method Perform(op: Op<K>, fault: Fault) returns (r: Outcome)
      requires InUse() && Allowed(op, dict) && StorableOp(f, op)
      modifies this`snap, this`dict, this`length, this`states, this`events
      ensures old(states) <= states && old(events) <= events
      ensures r == Outcomes(fault)
      ensures r.Done? ==> Valid() && dict == Apply(op, old(dict))
      ensures !r.Done? ==> dict == old(dict)
      ensures r.Thrown? || !open ==> InUse() && snap == old(snap)
      ensures r.Corrupted? && open ==> Left(Min(fault.written, |Logged(f, op)|), op)
    {
      hide Load, Record, Snapshot, IsRun, Careful;
      hide MoveStep, OpenStep, ClearStep, CreateStep, SaveStep, SaveFails, CloseStep, DeleteStep, SwapStep,
        ResumeStep, ReplaceFails, WriteStep, LoadStep, ReturnStep, ThrowStep, JamStep;
      Now();
      if open {
        Step(Begin(op), State(snap, temp, Appending(0), Ready, dict, length, dict, Some(op)));
      }
      r := Append(EntryOf(f, op), fault, op);
      if r.Done? {
        Take(op, old(length));
      }
    }

    /** The record is whole: the dictionary follows. */
    method Take(op: Op<K>, ghost before: nat)
      requires open && IsRun(f, states, events) && Careful(states, events) && length == before + |Logged(f, op)|
      requires states[|states| - 1] ==
        State(snap, temp, Appending(|Logged(f, op)|), Ready, dict, before, dict, Some(op))
      modifies this`dict, this`states, this`events
      ensures old(states) <= states && old(events) <= events
      ensures Valid() && dict == Apply(op, old(dict))
    {
      hide Load, Record, Snapshot, IsRun, Careful;
      match op {
        case Add(k, v) => dict := dict[k := v];
        case Update(k, v) => dict := dict[k := v];
        case Remove(k) => dict := dict - {k};
      }
      Step(Return, State(snap, temp, Ready, Ready, dict, length, dict, None));
    }

    method Add(key: K, value: seq<byte>, fault: Fault) returns (r: Outcome)
      requires InUse() && Storable(f, key, value)
      modifies this`snap, this`dict, this`length, this`states, this`events
      ensures old(states) <= states && old(events) <= events
      ensures r == if key in old(dict) then Refused else Outcomes(fault)
      ensures r.Done? ==> Valid() && dict == old(dict)[key := value]
      ensures !r.Done? ==> dict == old(dict)
      ensures r.Refused? || r.Thrown? || !open ==> InUse() && snap == old(snap)
      ensures r.Corrupted? && open ==>
        var op := Op.Add(key, value);
        Left(Min(fault.written, |Logged(f, op)|), op)
    {
      if key in dict {
        return Refused;
      }
      r := Perform(Op.Add(key, value), fault);
    }

    method Set(key: K, value: seq<byte>, fault: Fault) returns (r: Outcome)
      requires InUse() && Storable(f, key, value)
      modifies this`snap, this`dict, this`length, this`states, this`events
      ensures old(states) <= states && old(events) <= events
      ensures r == Outcomes(fault)
      ensures r.Done? ==> Valid() && dict == old(dict)[key := value]
      ensures !r.Done? ==> dict == old(dict)
      ensures r.Thrown? || !open ==> InUse() && snap == old(snap)
      ensures r.Corrupted? && open ==>
        var op := Op.Update(key, value);
        Left(Min(fault.written, |Logged(f, op)|), op)
    {
      r := Perform(Op.Update(key, value), fault);
    }

    method Remove(key: K, fault: Fault) returns (r: Outcome)
      requires InUse() && Storable(f, key, [])
      modifies this`snap, this`dict, this`length, this`states, this`events
      ensures old(states) <= states && old(events) <= events
      ensures r == if key !in old(dict) then Refused else Outcomes(fault)
      ensures r.Done? ==> Valid() && dict == old(dict) - {key}
      ensures !r.Done? ==> dict == old(dict)
      ensures r.Refused? || r.Thrown? || !open ==> InUse() && snap == old(snap)
      ensures r.Corrupted? && open ==>
        var op := Op.Remove(key);
        Left(Min(fault.written, |Logged(f, op)|), op)
    {
      if key !in dict {
        return Refused;
      }
      r := Perform(Op.Remove(key), fault);
    }

    /** The log is closed; the files can be opened again. */
    method Dispose()
      requires IsRun(f, states, events) && Careful(states, events)
      requires var s := states[|states| - 1]; s.snap == snap && s.temp == temp
      modifies this`open, this`states, this`events
      ensures old(states) <= states && old(events) <= events && Stopped() && !open
    {
      hide Load, Record, Snapshot;
      Step(Crash, states[|states| - 1].(phase := Down));
      open := false;
    }
  }

  /** The keys in some order. */
  method KeysOf<K(==)>(d: map<K, seq<byte>>) returns (order: seq<K>)
    ensures Enumerates(order, d)
  {
    order := [];
    var rest := d.Keys;
    while rest != {}
      invariant rest <= d.Keys && forall k :: k in d.Keys ==> (k in order <==> k !in rest)
      invariant forall k :: k in order ==> k in d
      invariant forall i, j :: 0 <= i < j < |order| ==> order[i] != order[j]
      decreases rest
    {
      var k :| k in rest;
      order := order + [k];
      rest := rest - {k};
    }
  }

  lemma SnapshotPrefix<K>(f: Format<K>, order: seq<K>, d: map<K, seq<byte>>, i: nat)
    requires (forall k :: k in order ==> k in d) && i <= |order|
    ensures i == 0 ==> Snapshot(f, order[..i], d) == []
    ensures i > 0 ==>
      var k := order[i - 1];
      Snapshot(f, order[..i], d) == Snapshot(f, order[..i - 1], d) + Record(f, Entry(ADD, f.encode(k), d[k]))
    ensures Snapshot(f, order[..i], d) <= Snapshot(f, order, d)
    decreases |order| - i
  {
    hide Record;
    if i > 0 {
      assert order[..i][..i - 1] == order[..i - 1];
    }
    if i == |order| {
      assert order[..i] == order;
    } else {
      SnapshotPrefix(f, order, d, i + 1);
    }
  }

  /** The snapshot of one more key is the next bytes of the whole. */
  lemma SnapshotChunk<K>(f: Format<K>, order: seq<K>, d: map<K, seq<byte>>, i: nat)
    requires (forall k :: k in order ==> k in d) && i < |order|
    ensures var e := Record(f, Entry(ADD, f.encode(order[i]), d[order[i]]));
      var s, t, whole := Snapshot(f, order[..i], d), Snapshot(f, order[..i + 1], d), Snapshot(f, order, d);
      t == s + e && |t| <= |whole| && whole[|s|..|t|] == e
  {
    hide Record, Snapshot;
    SnapshotPrefix(f, order, d, i + 1);
  }
}
