/** The rendezvous channel: senders take turns under a mutex, two semaphores hand the turn to a receiver
    and back. Any number of calls run at once, one atomic step at a time. */
module Channel2 {
  import opened Numerals
  import opened Options

  type data = seq<int>

  /** How far a call of send has come: up to the lock, the two shared fields, the first semaphore, the wait
      for the second one, and the unlock. */
  datatype SendAt = AtLock | AtPtr | AtSize | AtSignal | AtWait | AtUnlock | Sent

  /** How far a call of receive has come. */
  datatype ReceiveAt = AtWaitSent | AtMin | AtCopy | AtStore | AtSignalBack | Received

  /** A call with its local variables. */
  datatype Call =
    | Send(bytes: data, size: nat, at: SendAt)
    | Receive(room: nat, got: nat, buf: data, pc: ReceiveAt)

  /** Whose turn it is: of nobody, of a sender that still writes, of a sender that offers, of a receiver
      that takes, of a sender whose receiver is done, and of a sender about to unlock. */
  datatype Turn =
    | Free | Writing(g: nat) | Offered(g: nat) | Taken(g: nat, r: nat) | Returned(g: nat, r: nat) | Closing(g: nat, r: nat)

  /** The mutex, the semaphores and the two shared pointers; a pointer into a call's frame is the call's
      number. Beside them a record, which no step depends on, of the turn and of who took from whom. */
  datatype State = State(
    calls: seq<Call>, holder: Option<nat>, ptr: nat, sizePtr: nat, sent: nat, received: nat,
    turn: Turn, taker: map<nat, nat>, giver: map<nat, nat>)

  ghost predicate Initial(s: State) {
    s.calls == [] && s.holder == None && s.sent == 0 && s.received == 0
    && s.turn == Free && s.taker == map[] && s.giver == map[]
  }

  // ---- The steps --------------------------------------------------------------------------

  /** One more call starts. */
  ghost predicate Invoke(s: State, t: State) {
    exists c :: Starts(c) && t == s.(calls := s.calls + [c])
  }

  ghost predicate Starts(c: Call) {
    match c
    case Send(bytes, size, at) => at == AtLock && size == |bytes|
    case Receive(room, got, buf, pc) => pc == AtWaitSent && buf == []
  }

  function TurnAfterSend(turn: Turn, i: nat, at: SendAt): Turn {
    match at
    case AtLock => Writing(i)
    case AtSignal => Offered(i)
    case AtWait => if turn.Returned? then Closing(turn.g, turn.r) else turn
    case AtUnlock => Free
    case _ => turn
  }

  /** The next step of send in call i. */
  ghost predicate SendStep(s: State, i: nat, t: State)
    requires i < |s.calls| && s.calls[i].Send?
  {
    var c := s.calls[i];
    var turn := TurnAfterSend(s.turn, i, c.at);
    match c.at
    case AtLock => s.holder == None && t == s.(holder := Some(i), turn := turn, calls := s.calls[i := c.(at := AtPtr)])
    case AtPtr => t == s.(ptr := i, calls := s.calls[i := c.(at := AtSize)])
    case AtSize => t == s.(sizePtr := i, calls := s.calls[i := c.(at := AtSignal)])
    case AtSignal => t == s.(sent := s.sent + 1, turn := turn, calls := s.calls[i := c.(at := AtWait)])
    case AtWait => s.received > 0 && t == s.(received := s.received - 1, turn := turn, calls := s.calls[i := c.(at := AtUnlock)])
    case AtUnlock => t == s.(holder := None, turn := turn, calls := s.calls[i := c.(at := Sent)])
    case Sent => false
  }

  /** The size variable of a call, reached through the shared pointer. */
  function SizeOf(c: Call): nat { if c.Send? then c.size else c.got }

  function WithSize(c: Call, n: nat): Call { if c.Send? then c.(size := n) else c.(got := n) }

  /** The first n bytes behind the shared pointer. */
  function BytesOf(c: Call, n: nat): data {
    var b := if c.Send? then c.bytes else c.buf;
    if n <= |b| then b[..n] else b
  }

  /** The next step of receive in call i. */
  ghost predicate ReceiveStep(s: State, i: nat, t: State)
    requires i < |s.calls| && s.calls[i].Receive?
  {
    var c := s.calls[i];
    match c.pc
    case AtWaitSent =>
      s.sent > 0
      && t == s.(sent := s.sent - 1, calls := s.calls[i := c.(pc := AtMin)],
                 turn := if s.turn.Offered? then Taken(s.turn.g, i) else s.turn,
                 taker := if s.turn.Offered? then s.taker[s.turn.g := i] else s.taker,
                 giver := if s.turn.Offered? then s.giver[i := s.turn.g] else s.giver)
    case AtMin => s.sizePtr < |s.calls|
      && t == s.(calls := s.calls[i := c.(got := Min(c.room, SizeOf(s.calls[s.sizePtr])), pc := AtCopy)])
    case AtCopy => s.ptr < |s.calls|
      && t == s.(calls := s.calls[i := c.(buf := if c.got > 0 then BytesOf(s.calls[s.ptr], c.got) else c.buf, pc := AtStore)])
    case AtStore => s.sizePtr < |s.calls|
      && var calls := s.calls[i := c.(pc := AtSignalBack)];
         t == s.(calls := calls[s.sizePtr := WithSize(calls[s.sizePtr], c.got)])
    case AtSignalBack => t == s.(received := s.received + 1, calls := s.calls[i := c.(pc := Received)],
                                 turn := if s.turn.Taken? then Returned(s.turn.g, s.turn.r) else s.turn)
    case Received => false
  }

  ghost predicate StepOf(s: State, i: nat, t: State) {
    i < |s.calls| && if s.calls[i].Send? then SendStep(s, i, t) else ReceiveStep(s, i, t)
  }

  ghost predicate Next(s: State, t: State) {
    Invoke(s, t) || exists i: nat :: StepOf(s, i, t)
  }

  // ---- The invariant ----------------------------------------------------------------------

  /** The receiver has what the sender gave: as many bytes as both sizes allow, and both know how many. */
  ghost predicate Delivered(g: Call, r: Call) {
    && g.Send? && r.Receive? && r.pc == Received
    && r.got == g.size == Min(r.room, |g.bytes|) && r.buf == g.bytes[..r.got]
  }

  ghost predicate IsSend(s: State, g: nat) {
    g < |s.calls| && s.calls[g].Send?
  }

  /** The sender whose turn it is waits, and the shared pointers lead to it. */
  ghost predicate Blocked(s: State, g: nat) {
    IsSend(s, g) && s.calls[g].at == AtWait && s.holder == Some(g) && s.ptr == s.sizePtr == g
  }

  /** What the receiver whose turn it is has done so far. */
  ghost predicate Serving(g: Call, c: Call) {
    && g.Send? && c.Receive? && c.pc != AtWaitSent && c.pc != Received
    && (c.pc == AtMin || c.pc == AtCopy ==> c.buf == [])
    && (c.pc == AtCopy || c.pc == AtStore || c.pc == AtSignalBack ==> c.got == Min(c.room, |g.bytes|))
    && (c.pc == AtStore || c.pc == AtSignalBack ==> c.buf == g.bytes[..c.got])
    && g.size == if c.pc == AtSignalBack then c.got else |g.bytes|
  }

  ghost predicate TurnInv(s: State) {
    match s.turn
    case Free => s.holder == None && s.sent == 0 && s.received == 0
    case Writing(g) =>
      && IsSend(s, g) && s.holder == Some(g) && s.sent == 0 && s.received == 0
      && var c := s.calls[g];
         && (c.at == AtPtr || c.at == AtSize || c.at == AtSignal) && c.size == |c.bytes| && g !in s.taker
         && (c.at != AtPtr ==> s.ptr == g) && (c.at == AtSignal ==> s.sizePtr == g)
    case Offered(g) =>
      && Blocked(s, g) && s.sent == 1 && s.received == 0 && s.calls[g].size == |s.calls[g].bytes| && g !in s.taker
    case Taken(g, r) =>
      && Blocked(s, g) && s.sent == 0 && s.received == 0
      && r < |s.calls| && g in s.taker && s.taker[g] == r && Serving(s.calls[g], s.calls[r])
    case Returned(g, r) =>
      Blocked(s, g) && s.sent == 0 && s.received == 1 && g in s.taker && s.taker[g] == r
    case Closing(g, r) =>
      && IsSend(s, g) && s.calls[g].at == AtUnlock && s.holder == Some(g) && s.sent == 0 && s.received == 0
      && g in s.taker && s.taker[g] == r
  }

  ghost predicate HasTurn(turn: Turn, i: nat) {
    (!turn.Free? && turn.g == i) || (turn.Taken? && turn.r == i)
  }

  /** A call that has not got the turn is at its start or at its end. */
  ghost predicate CallInv(s: State, i: nat) {
    i < |s.calls| && !HasTurn(s.turn, i) ==>
      var c := s.calls[i];
      match c
      case Send(bytes, size, at) => if at == Sent then i in s.taker else at == AtLock && size == |bytes| && i !in s.taker
      case Receive(room, got, buf, pc) => if pc == Received then i in s.giver else pc == AtWaitSent && buf == [] && i !in s.giver
  }

  /** Who took from whom: each from one, and delivered unless it is still the receiver's turn. */
  ghost predicate PairInv(s: State, r: nat) {
    r in s.giver ==>
      var g := s.giver[r];
      && r < |s.calls| && g < |s.calls| && g in s.taker && s.taker[g] == r
      && (s.turn == Taken(g, r) || Delivered(s.calls[g], s.calls[r]))
  }

  ghost predicate TakerInv(s: State, g: nat) {
    g in s.taker ==> s.taker[g] in s.giver && s.giver[s.taker[g]] == g
  }

  ghost predicate Inv(s: State) {
    && TurnInv(s) && (forall i: nat :: CallInv(s, i)) && (forall r: nat :: PairInv(s, r)) && forall g: nat :: TakerInv(s, g)
  }

  lemma InitialInv(s: State)
    requires Initial(s)
    ensures Inv(s)
  {
  }

  lemma InvokeKeeps(s: State, t: State)
    requires Inv(s) && Invoke(s, t)
    ensures Inv(t)
  {
    var c :| Starts(c) && t == s.(calls := s.calls + [c]);
    var n := |s.calls|;
    assert PairInv(s, n) && TakerInv(s, n);
    assert n in s.taker ==> PairInv(s, s.taker[n]);
    forall i: nat
      ensures CallInv(t, i) && PairInv(t, i) && TakerInv(t, i)
    {
      assert CallInv(s, i) && PairInv(s, i) && TakerInv(s, i);
    }
  }

  lemma SendTurn(s: State, i: nat, t: State)
    requires Inv(s) && i < |s.calls| && s.calls[i].Send? && SendStep(s, i, t)
    ensures TurnInv(t)
    ensures s.calls[i].at == AtLock || (!s.turn.Free? && s.turn.g == i)
    ensures s.calls[i].at == AtWait ==> s.turn.Returned?
  {
    assert CallInv(s, i);
  }

  lemma SendKeeps(s: State, i: nat, t: State)
    requires Inv(s) && i < |s.calls| && s.calls[i].Send? && SendStep(s, i, t)
    ensures Inv(t)
  {
    SendTurn(s, i, t);
    assert CallInv(s, i) && TakerInv(s, i);
    forall j: nat
      ensures CallInv(t, j) && PairInv(t, j) && TakerInv(t, j)
    {
      assert CallInv(s, j) && PairInv(s, j) && TakerInv(s, j);
    }
  }

  lemma ReceiveTurn(s: State, i: nat, t: State)
    requires Inv(s) && i < |s.calls| && s.calls[i].Receive? && ReceiveStep(s, i, t)
    ensures TurnInv(t)
    ensures s.calls[i].pc == AtWaitSent || (s.turn.Taken? && s.turn.r == i)
    ensures s.calls[i].pc == AtWaitSent ==> s.turn.Offered?
  {
    assert CallInv(s, i);
  }

  lemma ReceiveKeeps(s: State, i: nat, t: State)
    requires Inv(s) && i < |s.calls| && s.calls[i].Receive? && ReceiveStep(s, i, t)
    ensures Inv(t)
  {
    ReceiveTurn(s, i, t);
    assert CallInv(s, i) && PairInv(s, i) && TakerInv(s, s.turn.g);
    forall j: nat
      ensures CallInv(t, j) && PairInv(t, j) && TakerInv(t, j)
    {
      assert CallInv(s, j) && PairInv(s, j) && TakerInv(s, j);
    }
  }

  ghost predicate IsRun(states: seq<State>) {
    |states| > 0 && Initial(states[0]) && forall k :: 0 <= k < |states| - 1 ==> Next(states[k], states[k + 1])
  }

  lemma StepKeeps(s: State, t: State)
    requires Inv(s) && Next(s, t)
    ensures Inv(t)
  {
    if Invoke(s, t) {
      InvokeKeeps(s, t);
    } else {
      var i: nat :| StepOf(s, i, t);
      if s.calls[i].Send? {
        SendKeeps(s, i, t);
      } else {
        ReceiveKeeps(s, i, t);
      }
    }
  }

  lemma {:induction false} EveryRun(states: seq<State>, k: nat)
    requires IsRun(states) && k < |states|
    ensures Inv(states[k])
  {
    hide Inv, Next;
    if k == 0 {
      InitialInv(states[0]);
    } else {
      EveryRun(states, k - 1);
      StepKeeps(states[k - 1], states[k]);
    }
  }

  // ---- What callers see -------------------------------------------------------------------

  /** A finished send was taken by exactly one receive, which is finished too, has the bytes of this send
      up to the smaller size, and returned the same size. */
  lemma FinishedSend(states: seq<State>, k: nat, g: nat)
    requires IsRun(states) && k < |states| && IsSend(states[k], g) && states[k].calls[g].at == Sent
    ensures var s := states[k]; g in s.taker && s.taker[g] < |s.calls| && Delivered(s.calls[g], s.calls[s.taker[g]])
    ensures var s := states[k]; forall r :: r in s.giver && s.giver[r] == g ==> r == s.taker[g]
  {
    EveryRun(states, k);
    var s := states[k];
    assert CallInv(s, g) && TakerInv(s, g);
    assert PairInv(s, s.taker[g]);
    forall r | r in s.giver && s.giver[r] == g
      ensures r == s.taker[g]
    {
      assert PairInv(s, r);
    }
  }

  /** A finished receive took from exactly one send and has its bytes up to the smaller size. */
  lemma FinishedReceive(states: seq<State>, k: nat, r: nat)
    requires IsRun(states) && k < |states| && r < |states[k].calls|
    requires states[k].calls[r].Receive? && states[k].calls[r].pc == Received
    ensures var s := states[k]; r in s.giver && s.giver[r] < |s.calls| && Delivered(s.calls[s.giver[r]], s.calls[r])
    ensures var s := states[k]; forall g :: g in s.taker && s.taker[g] == r ==> g == s.giver[r]
  {
    EveryRun(states, k);
    var s := states[k];
    assert CallInv(s, r) && PairInv(s, r);
    forall g | g in s.taker && s.taker[g] == r
      ensures g == s.giver[r]
    {
      assert TakerInv(s, g);
    }
  }

  /** A receiver reads and writes through the shared pointers only while the sender they lead to is
      blocked, and it is the only receiver that does. */
  lemma CopiesWhileBlocked(states: seq<State>, k: nat, r: nat)
    requires IsRun(states) && k < |states| && r < |states[k].calls|
    requires var c := states[k].calls[r]; c.Receive? && c.pc != AtWaitSent && c.pc != Received
    ensures var s := states[k]; s.turn.Taken? && s.turn.r == r && Blocked(s, s.turn.g) && r in s.giver && s.giver[r] == s.turn.g
    ensures var s := states[k]; forall q :: 0 <= q < |s.calls| && q != r && s.calls[q].Receive? ==>
      s.calls[q].pc == AtWaitSent || s.calls[q].pc == Received
  {
    EveryRun(states, k);
    var s := states[k];
    assert CallInv(s, r) && TakerInv(s, s.turn.g);
    forall q | 0 <= q < |s.calls| && q != r && s.calls[q].Receive?
      ensures s.calls[q].pc == AtWaitSent || s.calls[q].pc == Received
    {
      assert CallInv(s, q);
    }
  }

  /** As long as a send and a receive are both unfinished, some call can go on. */
  lemma NeverStuck(states: seq<State>, k: nat, g: nat, r: nat) returns (i: nat, t: State)
    requires IsRun(states) && k < |states| && IsSend(states[k], g) && states[k].calls[g].at != Sent
    requires r < |states[k].calls| && states[k].calls[r].Receive? && states[k].calls[r].pc != Received
    ensures StepOf(states[k], i, t)
  {
    EveryRun(states, k);
    var s := states[k];
    assert CallInv(s, g) && CallInv(s, r);
    match s.turn
    case Free => i, t := Go(s, g);
    case Writing(h) => i, t := Go(s, h);
    case Offered(h) => i, t := Go(s, r);
    case Taken(h, q) => i, t := Go(s, q);
    case Returned(h, q) => i, t := Go(s, h);
    case Closing(h, q) => i, t := Go(s, h);
  }

  /** Nothing a call waits for is missing. */
  ghost predicate CanGo(s: State, i: nat) {
    && i < |s.calls|
    && match s.calls[i]
       case Send(_, _, at) => at != Sent && (at == AtLock ==> s.holder == None) && (at == AtWait ==> s.received > 0)
       case Receive(_, _, _, pc) => pc != Received && (pc == AtWaitSent ==> s.sent > 0) && s.ptr < |s.calls| && s.sizePtr < |s.calls|
  }

  lemma Go(s: State, i: nat) returns (j: nat, t: State)
    requires CanGo(s, i)
    ensures j == i && StepOf(s, i, t)
  {
    j := i;
    var c := s.calls[i];
    if c.Send? {
      var turn := TurnAfterSend(s.turn, i, c.at);
      match c.at {
        case AtLock => t := s.(holder := Some(i), turn := turn, calls := s.calls[i := c.(at := AtPtr)]);
        case AtPtr => t := s.(ptr := i, calls := s.calls[i := c.(at := AtSize)]);
        case AtSize => t := s.(sizePtr := i, calls := s.calls[i := c.(at := AtSignal)]);
        case AtSignal => t := s.(sent := s.sent + 1, turn := turn, calls := s.calls[i := c.(at := AtWait)]);
        case AtWait => t := s.(received := s.received - 1, turn := turn, calls := s.calls[i := c.(at := AtUnlock)]);
        case AtUnlock => t := s.(holder := None, turn := turn, calls := s.calls[i := c.(at := Sent)]);
      }
    } else {
      match c.pc {
        case AtWaitSent =>
          t := s.(sent := s.sent - 1, calls := s.calls[i := c.(pc := AtMin)],
                  turn := if s.turn.Offered? then Taken(s.turn.g, i) else s.turn,
                  taker := if s.turn.Offered? then s.taker[s.turn.g := i] else s.taker,
                  giver := if s.turn.Offered? then s.giver[i := s.turn.g] else s.giver);
        case AtMin =>
          t := s.(calls := s.calls[i := c.(got := Min(c.room, SizeOf(s.calls[s.sizePtr])), pc := AtCopy)]);
        case AtCopy =>
          t := s.(calls := s.calls[i := c.(buf := if c.got > 0 then BytesOf(s.calls[s.ptr], c.got) else c.buf, pc := AtStore)]);
        case AtStore =>
          var calls := s.calls[i := c.(pc := AtSignalBack)];
          t := s.(calls := calls[s.sizePtr := WithSize(calls[s.sizePtr], c.got)]);
        case AtSignalBack =>
          t := s.(received := s.received + 1, calls := s.calls[i := c.(pc := Received)],
                  turn := if s.turn.Taken? then Returned(s.turn.g, s.turn.r) else s.turn);
      }
    }
  }
}
