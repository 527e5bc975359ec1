/** The ring, its payloads and its receivers as a state machine.

One sender and any number of receivers share a segment.  Every action is one
atomic operation of one of them, so that a run is any interleaving of the
sender's payload write and push with the receivers' drains.  The receivers are
attached from the start, when the two counters are equal.  Any of them may die at
any point; if it dies owning the mutex, the mutex is free again for the next, as
its lock makes sure.  Operations are taken as sequentially consistent.
*/
module Protocol {
  import opened Words

  /** A payload block in shared memory: its use counter and its bytes. */
  datatype Payload = Payload(count: nat, data: Bytes)

  /** A message as the sender wrote it: cnt is the count its payload starts from. */
  datatype Message = Message(desc: Descriptor, cnt: nat, data: Bytes)

  /** Where the sender is in Ipc::write and Content::push. */
  datatype SenderPc =
    | Idle
    | Written(msg: Message)                 // payload stored, push not begun
    | LoadedW(msg: Message, slot: nat)      // w_ loaded
    | Passed(msg: Message, slot: nat)       // r_ loaded and the ring was not full
    | Stored(msg: Message)                  // slot written, w_ not yet advanced

  /** Where a receiver is in Waiter::wait_for and in the drain it runs. */
  datatype ReceiverPc =
    | Outside                               // not in wait_for
    | Locked                                // owns the mutex, has not waited
    | Waiting                               // inside the condition wait, mutex given up
    | AtEmpty                               // about to evaluate QueueBase::empty
    | AtPop                                 // about to evaluate pop's own empty test
    | AtBump                                // about to compute the slot index and advance the cursor
    | AtCopy(idx: nat)                      // about to copy the slot out
    | AtRead(desc: Descriptor)              // about to look up the payload
    | AtDecrement(desc: Descriptor, seen: Bytes)  // the callback has seen these bytes
    | AtLoad(desc: Descriptor)              // decremented, about to load the count again
    | AtRelease(desc: Descriptor)           // found zero, about to advance r_
    | Leaving                               // about to unlock

  /** A dead receiver leaves an orphan if it died between finding that its message was due
      to be released, or being about to find it, and the release. */
  datatype Life = Alive | Dead(orphan: bool)

  /** cursor is the 32-bit word the receiver keeps; a dead one's pc is where it died.  taken
      and done are its history: taken holds the descriptors it copied out, done what became
      of each of them, Some of the bytes its callback saw or None where the read returned
      false early. */
  datatype Receiver = Receiver(pc: ReceiverPc, cursor: nat, taken: seq<Descriptor>,
                               done: seq<Option<Bytes>>, life: Life)

  /** Shared memory and the program counters, followed by the history of the run:
      the value the counters started from, the messages pushed, and for each advance
      of r_ the index of the message whose reader advanced it. */
  datatype State = State(
    slots: seq<Descriptor>,
    r: nat,
    w: nat,
    pool: map<Descriptor, Payload>,
    mutex: Option<nat>,
    sender: SenderPc,
    recvs: seq<Receiver>,
    base: nat,
    hist: seq<Message>,
    releases: seq<int>)

  datatype Action =
    | SendWrite(msg: Message)
    | SendLoadW
    | SendLoadR
    | SendStore
    | SendCommit
    | Recv(i: nat, ok: bool)
    | Die(i: nat)

  function NewReceiver(base: nat): Receiver {
    Receiver(Outside, Wrap32(base), [], [], Alive)
  }

  function Start(n: nat, base: nat, slots: seq<Descriptor>): State {
    State(slots, Wrap32(base), Wrap32(base), map[], None, Idle,
          seq(n, i => NewReceiver(base)), base, [], [])
  }

  /** Whether an action can be taken.  ok resolves what a receiver does not decide
      itself: whether wait_for was given no timeout, whether the condition wait was
      woken in time, and whether the payload's shared memory could be opened. */
  predicate Enabled(s: State, a: Action) {
    match a
    case SendWrite(msg) => s.sender.Idle? && msg.desc !in s.pool && msg.cnt < WORD
    case SendLoadW => s.sender.Written?
    case SendLoadR => s.sender.LoadedW?
    case SendStore => s.sender.Passed? && s.sender.slot < |s.slots|
    case SendCommit => s.sender.Stored?
    case Recv(i, ok) => i < |s.recvs| && s.recvs[i].life.Alive? && RecvEnabled(s, s.recvs[i].pc, ok)
    case Die(i) => i < |s.recvs| && s.recvs[i].life.Alive?
  }

  predicate RecvEnabled(s: State, pc: ReceiverPc, ok: bool) {
    match pc
    case Outside => s.mutex.None?
    case Waiting => s.mutex.None?
    case AtCopy(idx) => idx < |s.slots|
    case AtRead(d) => ok ==> d in s.pool
    case AtDecrement(d, _) => d in s.pool
    case AtLoad(d) => d in s.pool
    case _ => true
  }

  function Apply(s: State, a: Action): State
    requires Enabled(s, a)
  {
    match a
    case SendWrite(msg) =>
      s.(pool := s.pool[msg.desc := Payload(msg.cnt, msg.data)], sender := Written(msg))
    case SendLoadW =>
      s.(sender := LoadedW(s.sender.msg, Low8(s.w)))
    case SendLoadR =>
      if s.sender.slot == Low8(Wrap32(s.r - 1)) then s.(sender := Idle)
      else s.(sender := Passed(s.sender.msg, s.sender.slot))
    case SendStore =>
      s.(slots := s.slots[s.sender.slot := s.sender.msg.desc], sender := Stored(s.sender.msg))
    case SendCommit =>
      s.(w := Wrap32(s.w + 1), hist := s.hist + [s.sender.msg], sender := Idle)
    case Recv(i, ok) => RecvApply(s, i, ok)
    case Die(i) => DieApply(s, i)
  }

  predicate Holding(rv: Receiver) {
    rv.life.Alive? && !rv.pc.Outside? && !rv.pc.Waiting?
  }

  /** The message that this receiver has counted down is due, or would be found to be, and
      nobody but this receiver will release it. */
  predicate LeavesOrphan(s: State, rv: Receiver) {
    rv.pc.AtRelease? || (rv.pc.AtLoad? && rv.pc.desc in s.pool && s.pool[rv.pc.desc].count == 0)
  }

  function DieApply(s: State, i: nat): State
    requires i < |s.recvs|
  {
    var rv := s.recvs[i];
    SetRecv(s, i, rv.(life := Dead(LeavesOrphan(s, rv)))).(mutex := if Holding(rv) then None else s.mutex)
  }

  function SetRecv(s: State, i: nat, rv: Receiver): State
    requires i < |s.recvs|
  {
    s.(recvs := s.recvs[i := rv])
  }

  function Goto(s: State, i: nat, pc: ReceiverPc): State
    requires i < |s.recvs|
  {
    SetRecv(s, i, s.recvs[i].(pc := pc))
  }

  function RecvApply(s: State, i: nat, ok: bool): State
    requires i < |s.recvs| && RecvEnabled(s, s.recvs[i].pc, ok)
  {
    var rv := s.recvs[i];
    match rv.pc
    case Outside => Goto(s, i, Locked).(mutex := Some(i))
    case Locked => if ok then Goto(s, i, AtEmpty) else Goto(s, i, Waiting).(mutex := None)
    case Waiting => Goto(s, i, if ok then AtEmpty else Leaving).(mutex := Some(i))
    case AtEmpty => Goto(s, i, if rv.cursor == s.w then Leaving else AtPop)
    case AtPop => Goto(s, i, if EmptyTest8(rv.cursor, s.w) then Leaving else AtBump)
    case AtBump => SetRecv(s, i, rv.(pc := AtCopy(Low8(rv.cursor)), cursor := Wrap32(rv.cursor + 1)))
    case AtCopy(idx) => SetRecv(s, i, rv.(pc := AtRead(s.slots[idx]), taken := rv.taken + [s.slots[idx]]))
    case AtRead(d) =>
      if ok then Goto(s, i, AtDecrement(d, s.pool[d].data))
      else SetRecv(s, i, rv.(pc := AtEmpty, done := rv.done + [None]))
    case AtDecrement(d, seen) =>
      SetRecv(s, i, rv.(pc := AtLoad(d), done := rv.done + [Some(seen)]))
        .(pool := s.pool[d := Payload(Wrap32(s.pool[d].count - 1), s.pool[d].data)])
    case AtLoad(d) => Goto(s, i, if s.pool[d].count == 0 then AtRelease(d) else AtEmpty)
    case AtRelease(d) =>
      Goto(s, i, AtEmpty).(r := Wrap32(s.r + 1), releases := s.releases + [|rv.done| - 1])
    case Leaving => Goto(s, i, Outside).(mutex := None)
  }

  /** s' is reached from s by taking the actions in order. */
  ghost predicate Runs(s: State, acts: seq<Action>, s': State)
    decreases |acts|
  {
    if acts == [] then s == s'
    else Enabled(s, acts[0]) && Runs(Apply(s, acts[0]), acts[1..], s')
  }

  /** A count that a message may carry when n receivers will read it: none, which is
      never released, or at least one for each of them. */
  predicate Fits(cnt: nat, n: nat) {
    cnt == 0 || n <= cnt
  }

  predicate ActionFits(a: Action, n: nat) {
    a.SendWrite? ==> Fits(a.msg.cnt, n)
  }
}
