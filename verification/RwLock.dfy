/** The reader-writer spin lock at the granularity of its atomic operations.

The lock is one 32-bit word: the top bit says that a writer owns it or is waiting out the
readers, the other bits count the readers inside.  Every action is one atomic operation of
one thread, sequentially consistent.  A spin that changes nothing is a step too.
*/
module RwLock {
  import opened Words
  import opened Sets

  const W_FLAG: nat := 0x8000_0000

  predicate HasFlag(word: nat) {
    word / W_FLAG % 2 == 1
  }

  function OrFlag(word: nat): nat {
    if HasFlag(word) then word else word + W_FLAG
  }

  function ReaderBits(word: nat): nat {
    word % W_FLAG
  }

  datatype Pc =
    | Idle
    | AtOr               // lock: about to fetch_or
    | Draining           // lock: flag set, waiting for the readers to leave
    | Writing            // between lock and unlock
    | AtLoad             // lock_shared: about to load
    | AtCas(seen: nat)    // lock_shared: holds a loaded value
    | Reading            // between lock_shared and unlock_shared

  datatype State = State(word: nat, threads: seq<Pc>)

  /** Thread i takes its next step.  choice decides what the lock does not: whether an
      idle thread wants to write, and whether a weak compare-exchange may succeed. */
  datatype Action = Step(i: nat, choice: bool)

  function Apply(s: State, a: Action): State
    requires a.i < |s.threads|
  {
    match s.threads[a.i]
    case Idle => Move(s, a.i, s.word, if a.choice then AtOr else AtLoad)
    case AtOr =>
      Move(s, a.i, OrFlag(s.word),
           if s.word == 0 then Writing else if !HasFlag(s.word) then Draining else AtOr)
    case Draining => Move(s, a.i, s.word, if ReaderBits(s.word) == 0 then Writing else Draining)
    case Writing => Move(s, a.i, 0, Idle)
    case AtLoad => Move(s, a.i, s.word, AtCas(s.word))
    case AtCas(seen) =>
      if !HasFlag(seen) && s.word == seen && a.choice then Move(s, a.i, Wrap32(seen + 1), Reading)
      else Move(s, a.i, s.word, AtCas(s.word))
    case Reading => Move(s, a.i, Wrap32(s.word - 1), Idle)
  }

  function Move(s: State, i: nat, word: nat, pc: Pc): State
    requires i < |s.threads|
  {
    State(word, s.threads[i := pc])
  }

  ghost predicate Runs(s: State, acts: seq<Action>, t: State)
    decreases |acts|
  {
    if acts == [] then s == t
    else acts[0].i < |s.threads| && Runs(Apply(s, acts[0]), acts[1..], t)
  }

  function Unlocked(n: nat): State {
    State(0, seq(n, i => Idle))
  }

  // ----- invariant

  predicate Owns(pc: Pc) {
    pc.Draining? || pc.Writing?
  }

  ghost function Owners(s: State): set<nat> {
    set i: nat | i < |s.threads| && Owns(s.threads[i])
  }

  ghost function Inside(s: State): set<nat> {
    set i: nat | i < |s.threads| && s.threads[i].Reading?
  }

  /** The word is the owner's flag plus the number of readers inside. */
  ghost predicate Inv(s: State) {
    && |s.threads| < W_FLAG
    && s.word == (if Owners(s) == {} then 0 else W_FLAG) + |Inside(s)|
    && (forall i: nat, j: nat :: i in Owners(s) && j in Owners(s) ==> i == j)
    && (forall i: nat :: i < |s.threads| && s.threads[i].Writing? ==> Inside(s) == {})
  }

  lemma WordParts(s: State)
    requires Inv(s)
    ensures |Inside(s)| < W_FLAG
    ensures HasFlag(s.word) <==> Owners(s) != {}
    ensures ReaderBits(s.word) == |Inside(s)|
    ensures s.word == 0 <==> Owners(s) == {} && Inside(s) == {}
  {
    SizeBelow(Inside(s), |s.threads|);
  }

  lemma MovedSets(s: State, i: nat, word: nat, pc: Pc)
    requires i < |s.threads|
    ensures var t := Move(s, i, word, pc);
      && Owners(t) == (if Owns(pc) then Owners(s) + {i} else Owners(s) - {i})
      && Inside(t) == (if pc.Reading? then Inside(s) + {i} else Inside(s) - {i})
  {
  }

  /** What a move must bring for the invariant to survive it. */
  lemma MoveKeepsInv(s: State, i: nat, word: nat, pc: Pc)
    requires Inv(s) && i < |s.threads|
    requires Owns(pc) ==> Owners(s) <= {i}
    requires pc.Writing? ==> Inside(s) == {}
    requires pc.Reading? ==> Owners(s) == {}
    requires var t := Move(s, i, word, pc);
      word == (if Owners(t) == {} then 0 else W_FLAG) + |Inside(t)|
    ensures Inv(Move(s, i, word, pc))
  {
    var t := Move(s, i, word, pc);
    MovedSets(s, i, word, pc);
    forall j: nat | j < |t.threads| && t.threads[j].Writing?
      ensures Inside(t) == {}
    {
      assert j in Owners(t);
      assert j != i ==> s.threads[j].Writing? && j in Owners(s);
      assert j == i || Inside(s) == {};
    }
  }

  /** A move that changes neither the word nor who is inside or owns. */
  lemma IdleMove(s: State, i: nat, pc: Pc)
    requires Inv(s) && i < |s.threads|
    requires !Owns(s.threads[i]) && !Owns(pc) && !s.threads[i].Reading? && !pc.Reading?
    ensures Inv(Move(s, i, s.word, pc))
  {
    MovedSets(s, i, s.word, pc);
    assert i !in Owners(s) && i !in Inside(s);
    assert Owners(Move(s, i, s.word, pc)) == Owners(s) && Inside(Move(s, i, s.word, pc)) == Inside(s);
    MoveKeepsInv(s, i, s.word, pc);
  }

  lemma OrStep(s: State, a: Action)
    requires Inv(s) && a.i < |s.threads| && s.threads[a.i].AtOr?
    ensures Inv(Apply(s, a))
  {
    WordParts(s);
    if HasFlag(s.word) {
      IdleMove(s, a.i, AtOr);
    } else {
      var pc := if s.word == 0 then Writing else Draining;
      MovedSets(s, a.i, OrFlag(s.word), pc);
      assert a.i !in Inside(s);
      assert Inside(s) - {a.i} == Inside(s);
      assert a.i in Owners(s) + {a.i};
      MoveKeepsInv(s, a.i, OrFlag(s.word), pc);
    }
  }

  lemma OwnerStep(s: State, a: Action)
    requires Inv(s) && a.i < |s.threads| && Owns(s.threads[a.i])
    ensures Inv(Apply(s, a))
  {
    WordParts(s);
    var t := Apply(s, a);
    MovedSets(s, a.i, t.word, t.threads[a.i]);
    assert a.i in Owners(s) && Owners(s) == {a.i};
    assert a.i !in Inside(s);
    assert Inside(s) - {a.i} == Inside(s);
    MoveKeepsInv(s, a.i, t.word, t.threads[a.i]);
  }

  lemma CasStep(s: State, a: Action)
    requires Inv(s) && a.i < |s.threads| && s.threads[a.i].AtCas?
    ensures Inv(Apply(s, a))
  {
    var t := Apply(s, a);
    if t.threads[a.i].Reading? {
      WordParts(s);
      MovedSets(s, a.i, t.word, Reading);
      assert a.i !in Inside(s) && a.i !in Owners(s);
      assert |Inside(s) + {a.i}| == |Inside(s)| + 1;
      SizeBelow(Inside(t), |t.threads|);
      MoveKeepsInv(s, a.i, t.word, Reading);
    } else {
      IdleMove(s, a.i, t.threads[a.i]);
    }
  }

  lemma LeaveStep(s: State, a: Action)
    requires Inv(s) && a.i < |s.threads| && s.threads[a.i].Reading?
    ensures Inv(Apply(s, a))
  {
    WordParts(s);
    var t := Apply(s, a);
    MovedSets(s, a.i, t.word, Idle);
    assert a.i in Inside(s) && a.i !in Owners(s);
    assert |Inside(s) - {a.i}| == |Inside(s)| - 1;
    assert Owners(s) - {a.i} == Owners(s);
    MoveKeepsInv(s, a.i, t.word, Idle);
  }

  lemma StepKeepsInv(s: State, a: Action)
    requires Inv(s) && a.i < |s.threads|
    ensures Inv(Apply(s, a)) && |Apply(s, a).threads| == |s.threads|
  {
    match s.threads[a.i]
    case Idle => IdleMove(s, a.i, Apply(s, a).threads[a.i]);
    case AtOr => OrStep(s, a);
    case Draining => OwnerStep(s, a);
    case Writing => OwnerStep(s, a);
    case AtLoad => IdleMove(s, a.i, AtCas(s.word));
    case AtCas(_) => CasStep(s, a);
    case Reading => LeaveStep(s, a);
  }

  lemma {:induction false} RunKeepsInv(s: State, acts: seq<Action>, t: State)
    requires Inv(s) && Runs(s, acts, t)
    ensures Inv(t) && |t.threads| == |s.threads|
    decreases |acts|
  {
    if acts != [] {
      StepKeepsInv(s, acts[0]);
      RunKeepsInv(Apply(s, acts[0]), acts[1..], t);
    }
  }

  ghost predicate Reachable(n: nat, s: State) {
    exists acts: seq<Action> :: Runs(Unlocked(n), acts, s)
  }

  lemma ReachableInv(n: nat, s: State)
    requires n < W_FLAG && Reachable(n, s)
    ensures Inv(s) && |s.threads| == n
  {
    var acts: seq<Action> :| Runs(Unlocked(n), acts, s);
    assert Owners(Unlocked(n)) == {} && Inside(Unlocked(n)) == {};
    RunKeepsInv(Unlocked(n), acts, s);
  }

  // ----- what the lock promises

  /** A writer inside is alone inside. */
  lemma WriterIsAlone(n: nat, s: State, i: nat, j: nat)
    requires n < W_FLAG && Reachable(n, s) && i < n && j < n && i != j
    ensures |s.threads| == n
    ensures s.threads[i].Writing? ==> !s.threads[j].Writing? && !s.threads[j].Reading?
  {
    ReachableInv(n, s);
    assert s.threads[i].Writing? ==> i in Owners(s);
    assert s.threads[j].Writing? ==> j in Owners(s);
    assert s.threads[j].Reading? ==> j in Inside(s);
  }

  /** The word is exactly the flag of the one owner plus the number of readers inside,
      which never reaches the flag. */
  lemma WordMeaning(n: nat, s: State)
    requires n < W_FLAG && Reachable(n, s)
    ensures s.word == (if Owners(s) == {} then 0 else W_FLAG) + |Inside(s)|
    ensures |Owners(s)| <= 1 && |Inside(s)| < W_FLAG
  {
    ReachableInv(n, s);
    WordParts(s);
    if Owners(s) != {} {
      var i :| i in Owners(s);
      assert Owners(s) == {i};
    }
  }

  /** Once a writer has set the flag, no step but its own unlock lets a reader in: the
      number of readers inside is a measure of its wait. */
  lemma ReadersOnlyLeave(n: nat, s: State, a: Action)
    requires n < W_FLAG && Reachable(n, s) && a.i < n && HasFlag(s.word)
    ensures |s.threads| == n
    ensures !s.threads[a.i].Writing? ==> Inside(Apply(s, a)) <= Inside(s) && HasFlag(Apply(s, a).word)
    ensures s.threads[a.i].Reading? ==> |Inside(Apply(s, a))| < |Inside(s)|
  {
    ReachableInv(n, s);
    FlaggedStep(s, a);
  }

  lemma FlaggedStep(s: State, a: Action)
    requires Inv(s) && a.i < |s.threads| && HasFlag(s.word)
    ensures var t := Apply(s, a);
      && (!s.threads[a.i].Writing? ==> Inside(t) <= Inside(s) && HasFlag(t.word))
      && (s.threads[a.i].Reading? ==> |Inside(t)| < |Inside(s)|)
  {
    var t := Apply(s, a);
    var pc := s.threads[a.i];
    WordParts(s);
    MovedSets(s, a.i, t.word, t.threads[a.i]);
    if pc.Reading? {
      assert a.i in Inside(s);
      StepKeepsInv(s, a);
      WordParts(t);
      assert Owners(t) == Owners(s) - {a.i} && a.i !in Owners(s);
    } else if !pc.Writing? {
      assert t.word == s.word && !t.threads[a.i].Reading?;
    }
  }

  // ----- what each operation does

  /** lock: its first operation leaves the flag set, whatever it finds.  It gets the lock if
      nobody is inside, waits for the readers if they are all there is, and repeats as long as
      somebody owns the lock.  The wait ends when the last reader is gone. */
  lemma LockSteps(n: nat, s: State, a: Action)
    requires n < W_FLAG && Reachable(n, s) && a.i < n
    ensures |s.threads| == n
    ensures s.threads[a.i].AtOr? ==> var t := Apply(s, a); var pc := t.threads[a.i];
      && HasFlag(t.word) && Inside(t) == Inside(s)
      && (pc.Writing? <==> Owners(s) == {} && Inside(s) == {})
      && (pc.Draining? <==> Owners(s) == {} && Inside(s) != {})
      && (pc.AtOr? <==> Owners(s) != {})
    ensures s.threads[a.i].Draining? ==> var t := Apply(s, a); var pc := t.threads[a.i];
      t.word == s.word && (if Inside(s) == {} then pc.Writing? else pc.Draining?)
  {
    ReachableInv(n, s);
    WordParts(s);
    if s.threads[a.i].AtOr? {
      OrFinds(s, a);
    }
  }

  lemma OrFinds(s: State, a: Action)
    requires Inv(s) && a.i < |s.threads| && s.threads[a.i].AtOr?
    ensures var t := Apply(s, a);
      && HasFlag(t.word) && Inside(t) == Inside(s)
      && t.threads[a.i] == if Owners(s) != {} then AtOr else if Inside(s) != {} then Draining else Writing
  {
    WordParts(s);
    var t := Apply(s, a);
    MovedSets(s, a.i, t.word, t.threads[a.i]);
    assert a.i !in Inside(s);
  }

  /** lock_shared: a reader gets in exactly if nobody owns the lock and as many readers are
      inside as when it last looked, unless the weak exchange fails by itself; otherwise it has
      looked again. */
  lemma LockSharedSteps(n: nat, s: State, a: Action)
    requires n < W_FLAG && Reachable(n, s) && a.i < n
    ensures |s.threads| == n
    ensures s.threads[a.i].AtLoad? ==> Apply(s, a) == s.(threads := s.threads[a.i := AtCas(s.word)])
    ensures s.threads[a.i].AtCas? ==> var t := Apply(s, a);
      if a.choice && Owners(s) == {} && s.threads[a.i].seen == |Inside(s)| then
        t.threads[a.i].Reading? && Inside(t) == Inside(s) + {a.i} && Owners(t) == {}
      else
        t == s.(threads := s.threads[a.i := AtCas(s.word)])
  {
    ReachableInv(n, s);
    WordParts(s);
    var t := Apply(s, a);
    MovedSets(s, a.i, t.word, t.threads[a.i]);
    if s.threads[a.i].AtCas? {
      assert a.i !in Owners(s);
      assert Owners(s) - {a.i} == Owners(s);
    }
  }

  /** unlock leaves the lock free, and unlock_shared takes just this reader out. */
  lemma UnlockSteps(n: nat, s: State, a: Action)
    requires n < W_FLAG && Reachable(n, s) && a.i < n
    ensures |s.threads| == n
    ensures s.threads[a.i].Writing? ==> var t := Apply(s, a);
      t.word == 0 && Owners(t) == {} && Inside(t) == {} && t.threads[a.i].Idle?
    ensures s.threads[a.i].Reading? ==> var t := Apply(s, a);
      Owners(t) == Owners(s) && Inside(t) == Inside(s) - {a.i} && t.threads[a.i].Idle?
  {
    ReachableInv(n, s);
    WordParts(s);
    var t := Apply(s, a);
    MovedSets(s, a.i, t.word, t.threads[a.i]);
    if s.threads[a.i].Writing? {
      assert a.i in Owners(s);
      assert Owners(t) == {} && Inside(t) == {};
    } else if s.threads[a.i].Reading? {
      assert a.i !in Owners(s);
      assert Owners(t) == Owners(s);
    }
  }

  /** Calls that are not interrupted, while nobody owns the lock: a writer has it after two
      operations if nobody is inside, and otherwise keeps others out; a reader is inside after two. */
  lemma CallsAlone(n: nat, s: State, i: nat)
    requires n < W_FLAG && Reachable(n, s) && i < |s.threads| && s.threads[i].Idle? && Owners(s) == {}
    ensures var pc := if Inside(s) == {} then Writing else Draining;
      Runs(s, [Step(i, true), Step(i, true)], Move(s, i, s.word + W_FLAG, pc))
    ensures Runs(s, [Step(i, false), Step(i, false), Step(i, true)], Move(s, i, s.word + 1, Reading))
  {
    ReachableInv(n, s);
    WriterAlone(s, i);
    ReaderAlone(s, i);
  }

  lemma WriterAlone(s: State, i: nat)
    requires Inv(s) && i < |s.threads| && s.threads[i].Idle? && Owners(s) == {}
    ensures var pc := if Inside(s) == {} then Writing else Draining;
      Runs(s, [Step(i, true), Step(i, true)], Move(s, i, s.word + W_FLAG, pc))
  {
    WordParts(s);
    var v := Move(s, i, s.word, AtOr);
    assert Apply(v, Step(i, true)) ==
           Move(s, i, s.word + W_FLAG, if Inside(s) == {} then Writing else Draining);
    RunsTwo(s, Step(i, true), Step(i, true));
  }

  lemma ReaderAlone(s: State, i: nat)
    requires Inv(s) && i < |s.threads| && s.threads[i].Idle? && Owners(s) == {}
    ensures Runs(s, [Step(i, false), Step(i, false), Step(i, true)], Move(s, i, s.word + 1, Reading))
  {
    WordParts(s);
    assert i !in Inside(s);
    SizeBelow(Inside(s), |s.threads|);
    var u := Move(s, i, s.word, AtLoad);
    var t := Move(s, i, s.word, AtCas(s.word));
    assert Apply(u, Step(i, false)) == t;
    assert Apply(t, Step(i, true)) == Move(s, i, s.word + 1, Reading);
    RunsTwo(u, Step(i, false), Step(i, true));
    assert [Step(i, false), Step(i, false), Step(i, true)][1..] == [Step(i, false), Step(i, true)];
  }

  lemma RunsTwo(s: State, a: Action, b: Action)
    requires a.i < |s.threads| && b.i < |Apply(s, a).threads|
    ensures Runs(s, [a, b], Apply(Apply(s, a), b))
  {
    var t := Apply(Apply(s, a), b);
    assert [a, b][1..] == [b] && [b][1..] == [];
    assert Runs(t, [], t);
    assert Runs(Apply(s, a), [b], t);
  }

  /** Thread i does not unlock what it has locked as a writer. */
  ghost predicate NoUnlock(s: State, acts: seq<Action>, i: nat)
    decreases |acts|
  {
    acts != [] && acts[0].i < |s.threads| ==>
      && (acts[0].i == i ==> !s.threads[i].Writing?)
      && NoUnlock(Apply(s, acts[0]), acts[1..], i)
  }

  /** From the moment a writer has found readers inside, or none, until its own unlock, nobody
      comes in: not a reader, nor another writer. */
  lemma NobodyComesIn(n: nat, s: State, i: nat, acts: seq<Action>, t: State)
    requires n < W_FLAG && Reachable(n, s) && i < |s.threads| && Owns(s.threads[i])
    requires Runs(s, acts, t) && NoUnlock(s, acts, i)
    ensures Inside(t) <= Inside(s) && Owners(t) == {i}
  {
    ReachableInv(n, s);
    ClosedRun(s, i, acts, t);
  }

  lemma {:induction false} ClosedRun(s: State, i: nat, acts: seq<Action>, t: State)
    requires Inv(s) && i < |s.threads| && Owns(s.threads[i])
    requires Runs(s, acts, t) && NoUnlock(s, acts, i)
    ensures Inside(t) <= Inside(s) && Owners(t) == {i}
    decreases |acts|
  {
    assert i in Owners(s);
    if acts == [] {
      assert Owners(s) == {i};
    } else {
      var u := Apply(s, acts[0]);
      WordParts(s);
      FlaggedStep(s, acts[0]);
      StepKeepsInv(s, acts[0]);
      assert acts[0].i != i ==> acts[0].i !in Owners(s) && u.threads[i] == s.threads[i];
      ClosedRun(u, i, acts[1..], t);
    }
  }

  // ----- progress

  /** Steps a thread needs before it is idle, when nobody else is in its way. */
  function Distance(pc: Pc): nat {
    match pc
    case Idle => 0
    case Writing => 1
    case Reading => 1
    case Draining => 2
    case AtCas(seen) => if seen == 0 then 2 else 3
    case AtOr => 3
    case AtLoad => 4
  }

  function Total(threads: seq<Pc>): nat {
    if threads == [] then 0 else Distance(threads[0]) + Total(threads[1..])
  }

  lemma {:induction false} TotalUpdate(threads: seq<Pc>, i: nat, pc: Pc)
    requires i < |threads|
    ensures Total(threads[i := pc]) == Total(threads) - Distance(threads[i]) + Distance(pc)
  {
    var u := threads[i := pc];
    if i == 0 {
      assert u[1..] == threads[1..];
    } else {
      assert u[1..] == threads[1..][i - 1 := pc];
      TotalUpdate(threads[1..], i - 1, pc);
    }
  }

  lemma {:induction false} TotalZero(threads: seq<Pc>)
    requires forall i :: 0 <= i < |threads| ==> threads[i].Idle?
    ensures Total(threads) == 0
  {
    if threads != [] {
      TotalZero(threads[1..]);
    }
  }

  /** Unless all threads are idle, one of them can take a step that brings it closer to
      being so. */
  lemma SomeoneAdvances(s: State) returns (a: Action)
    requires Inv(s) && exists i :: 0 <= i < |s.threads| && !s.threads[i].Idle?
    ensures a.i < |s.threads| && Distance(Apply(s, a).threads[a.i]) < Distance(s.threads[a.i])
  {
    WordParts(s);
    var i :| 0 <= i < |s.threads| && !s.threads[i].Idle?;
    if Inside(s) != {} {
      var r :| r in Inside(s);
      a := Step(r, true);
    } else if Owners(s) != {} {
      var o :| o in Owners(s);
      a := Step(o, true);
    } else {
      assert i !in Owners(s) && i !in Inside(s);
      a := Step(i, true);
    }
  }

  /** From every reachable state some schedule brings every thread out of the lock and
      leaves it free: it cannot deadlock. */
  lemma NoDeadlock(n: nat, s: State)
    requires n < W_FLAG && Reachable(n, s)
    ensures exists acts: seq<Action> :: Runs(s, acts, Unlocked(n))
  {
    ReachableInv(n, s);
    var acts := Schedule(s);
  }

  lemma {:induction false} Schedule(s: State) returns (acts: seq<Action>)
    requires Inv(s)
    ensures Runs(s, acts, Unlocked(|s.threads|))
    decreases Total(s.threads)
  {
    if forall i :: 0 <= i < |s.threads| ==> s.threads[i].Idle? {
      assert Owners(s) == {} && Inside(s) == {};
      assert s.threads == Unlocked(|s.threads|).threads;
      acts := [];
    } else {
      var a := SomeoneAdvances(s);
      StepKeepsInv(s, a);
      var t := Apply(s, a);
      TotalUpdate(s.threads, a.i, t.threads[a.i]);
      var rest := Schedule(t);
      acts := [a] + rest;
      assert acts[1..] == rest;
    }
  }

  // ----- the bound on the number of threads

  ghost predicate Entered(s: State, n: nat, k: nat) {
    && s.word == k && |s.threads| == n
    && (forall i :: 0 <= i < n ==> s.threads[i] == if i < k then Reading else Idle)
  }

  lemma {:induction false} RunsAppend(s: State, acts: seq<Action>, t: State, a: Action)
    requires Runs(s, acts, t) && a.i < |t.threads|
    ensures Runs(s, acts + [a], Apply(t, a))
    decreases |acts|
  {
    var more := acts + [a];
    if acts == [] {
      assert more[1..] == [];
    } else {
      RunsAppend(Apply(s, acts[0]), acts[1..], t, a);
      assert more[1..] == acts[1..] + [a];
    }
  }

  lemma {:induction false} ReadersEnter(n: nat, k: nat) returns (acts: seq<Action>, s: State)
    requires k <= n && k <= W_FLAG
    ensures Runs(Unlocked(n), acts, s) && Entered(s, n, k)
  {
    if k == 0 {
      acts, s := [], Unlocked(n);
    } else {
      acts, s := ReadersEnter(n, k - 1);
      var a := Step(k - 1, false);
      RunsAppend(Unlocked(n), acts, s, a);
      acts, s := acts + [a], Apply(s, a);
      RunsAppend(Unlocked(n), acts, s, a);
      acts, s := acts + [a], Apply(s, a);
      var b := Step(k - 1, true);
      RunsAppend(Unlocked(n), acts, s, b);
      acts, s := acts + [b], Apply(s, b);
    }
  }

  /** The flag means that a writer owns the lock, in every run, if and only if there are
      fewer threads than the flag's value: one more reader would carry into it. */
  lemma FlagMeansOwnerIff(n: nat)
    ensures (forall s :: Reachable(n, s) ==> (HasFlag(s.word) <==> Owners(s) != {})) <==> n < W_FLAG
  {
    if n < W_FLAG {
      forall s | Reachable(n, s)
        ensures HasFlag(s.word) <==> Owners(s) != {}
      {
        ReachableInv(n, s);
        WordParts(s);
      }
    } else {
      var acts, s := ReadersEnter(n, W_FLAG);
      assert Reachable(n, s);
      assert Owners(s) == {};
    }
  }
}
