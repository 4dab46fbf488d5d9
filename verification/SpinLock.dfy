/**
 The spin semaphore and spin lock (kernel/machine/synchronization/synchs.c) as
 a step system: any number of threads, each atomic operation one step, in any
 order. A thread that is through synchs_lock_acquire works on shared data in
 small steps of its own and then releases.
 */
module SpinLock {
  import opened Pages

  /** The code between acquire and release: one function for each access to the shared data. */
  type Section<!D> = seq<D -> D>

  datatype Pc<!D> =
    | Idle
    | Loading(section: Section<D>)
    | Loaded(section: Section<D>, value: nat)
    | Holding(section: Section<D>, done: nat)

  /** `log` only records which sections are complete, in the order of their releases. */
  datatype State<!D> = State(value: nat, data: D, threads: seq<Pc<D>>, log: seq<Section<D>>)

  datatype Action<!D> = Call(section: Section<D>) | Load | CasSucceeds | CasFails | Work | Release

  /** Thread t takes one step; a weak compare-and-exchange may fail for no reason. */
  ghost predicate Next<D(!new)>(s: State<D>, t: nat, a: Action<D>, s': State<D>) {
    && t < |s.threads|
    && var pc := s.threads[t];
       match a
       case Call(section) =>
         && pc.Idle?
         && s' == s.(threads := s.threads[t := Loading(section)])
       case Load =>
         && pc.Loading?
         && s' == if s.value == 0 then s else s.(threads := s.threads[t := Loaded(pc.section, s.value)])
       case CasSucceeds =>
         && pc.Loaded? && s.value == pc.value
         && s' == s.(value := (pc.value - 1) % TWO_TO_32, threads := s.threads[t := Holding(pc.section, 0)])
       case CasFails =>
         && pc.Loaded?
         && s' == s.(threads := s.threads[t := Loading(pc.section)])
       case Work =>
         && pc.Holding? && pc.done < |pc.section|
         && s' == s.(data := pc.section[pc.done](s.data), threads := s.threads[t := Holding(pc.section, pc.done + 1)])
       case Release =>
         && pc.Holding? && pc.done == |pc.section|
         && s' == s.(value := (s.value + 1) % TWO_TO_32, threads := s.threads[t := Idle], log := s.log + [pc.section])
  }

  ghost predicate Initial<D(!new)>(s: State<D>, value: nat) {
    s.value == value < TWO_TO_32 && s.log == [] && forall t :: 0 <= t < |s.threads| ==> s.threads[t].Idle?
  }

  ghost predicate SomeThreadSteps<D(!new)>(s: State<D>, s': State<D>) {
    exists t: nat, a :: Next(s, t, a, s')
  }

  /** Some thread steps from each state to the next. */
  ghost predicate Execution<D(!new)>(states: seq<State<D>>, value: nat) {
    && |states| > 0 && Initial(states[0], value)
    && forall i :: 0 <= i < |states| - 1 ==> SomeThreadSteps(states[i], states[i + 1])
  }

  lemma BeforeLast<D(!new)>(states: seq<State<D>>, value: nat)
    requires Execution(states, value) && |states| > 1
    ensures Execution(states[..|states| - 1], value)
  {
    hide SomeThreadSteps;
    var before := states[..|states| - 1];
    forall i | 0 <= i < |before| - 1
      ensures SomeThreadSteps(before[i], before[i + 1])
    {
      assert SomeThreadSteps(states[i], states[i + 1]);
    }
  }

  function Holders<D>(threads: seq<Pc<D>>): (r: nat) {
    if threads == [] then 0 else (if threads[0].Holding? then 1 else 0) + Holders(threads[1..])
  }

  lemma {:induction false} HoldersChange<D>(threads: seq<Pc<D>>, t: nat, pc: Pc<D>)
    requires t < |threads|
    ensures Holders(threads[t := pc]) + (if threads[t].Holding? then 1 else 0)
         == Holders(threads) + (if pc.Holding? then 1 else 0)
  {
    if t > 0 {
      HoldersChange(threads[1..], t - 1, pc);
      assert threads[t := pc][1..] == threads[1..][t - 1 := pc];
    } else {
      assert threads[0 := pc][1..] == threads[1..];
    }
  }

  lemma {:induction false} HolderCounts<D>(threads: seq<Pc<D>>, t: nat)
    requires t < |threads| && threads[t].Holding?
    ensures Holders(threads) >= 1
  {
    if t > 0 {
      HolderCounts(threads[1..], t - 1);
    }
  }

  lemma {:induction false} TwoHolders<D>(threads: seq<Pc<D>>, t: nat, u: nat)
    requires t < u < |threads| && threads[t].Holding? && threads[u].Holding?
    ensures Holders(threads) >= 2
  {
    if t > 0 {
      TwoHolders(threads[1..], t - 1, u - 1);
    } else {
      HolderCounts(threads[1..], u - 1);
    }
  }

  lemma {:induction false} NoHolders<D>(threads: seq<Pc<D>>)
    requires forall t :: 0 <= t < |threads| ==> !threads[t].Holding?
    ensures Holders(threads) == 0
  {
    if threads != [] {
      NoHolders(threads[1..]);
    }
  }

  /** The slots taken and the slots left make up the initial value; a value loaded to be taken from is not zero. */
  ghost predicate Balanced<D(!new)>(s: State<D>, initial: nat) {
    && s.value + Holders(s.threads) == initial
    && forall t :: 0 <= t < |s.threads| && s.threads[t].Loaded? ==> 0 < s.threads[t].value
  }

  lemma StepKeepsBalance<D(!new)>(s: State<D>, t: nat, a: Action<D>, s': State<D>, initial: nat)
    requires Balanced(s, initial) && initial < TWO_TO_32 && Next(s, t, a, s')
    ensures Balanced(s', initial)
  {
    HoldersChange(s.threads, t, s'.threads[t]);
    assert s'.threads == s.threads[t := s'.threads[t]];
    if a.Release? {
      HolderCounts(s.threads, t);
    }
  }

  /** The semaphore never gives out more slots than it has, and its counter never wraps around. */
  lemma {:induction false} SemaphoreConserves<D(!new)>(states: seq<State<D>>, initial: nat)
    requires Execution(states, initial)
    ensures Balanced(states[|states| - 1], initial)
  {
    hide Next;
    var last := |states| - 1;
    if last == 0 {
      NoHolders(states[0].threads);
    } else {
      BeforeLast(states, initial);
      SemaphoreConserves(states[..last], initial);
      assert SomeThreadSteps(states[last - 1], states[last]);
      var t: nat, a :| Next(states[last - 1], t, a, states[last]);
      StepKeepsBalance(states[last - 1], t, a, states[last], initial);
    }
  }

  /** At most one thread holds a lock. */
  lemma MutualExclusion<D(!new)>(states: seq<State<D>>, t: nat, u: nat)
    requires Execution(states, 1)
    requires var threads := states[|states| - 1].threads;
             t < |threads| && u < |threads| && threads[t].Holding? && threads[u].Holding?
    ensures t == u
  {
    SemaphoreConserves(states, 1);
    var threads := states[|states| - 1].threads;
    if t < u {
      TwoHolders(threads, t, u);
    } else if u < t {
      TwoHolders(threads, u, t);
    }
  }

  /** The first n steps of a section, without interruption. */
  ghost function Partial<D>(section: Section<D>, n: nat, d: D): (r: D)
    requires n <= |section|
  {
    if n == 0 then d else section[n - 1](Partial(section, n - 1, d))
  }

  /** Whole sections, one after the other. */
  ghost function InSequence<D>(log: seq<Section<D>>, d: D): (r: D) {
    if log == [] then d
    else
      var last := log[|log| - 1];
      Partial(last, |last|, InSequence(log[..|log| - 1], d))
  }

  /**
   * The shared data is what the complete sections make of the initial data, run one
   * after the other, and then the part of its section that the holder has done.
   */
  ghost predicate Serial<D(!new)>(s: State<D>, d: D) {
    && (forall t :: 0 <= t < |s.threads| && s.threads[t].Holding? ==>
          && s.threads[t].done <= |s.threads[t].section|
          && s.data == Partial(s.threads[t].section, s.threads[t].done, InSequence(s.log, d)))
    && (Free(s) ==> s.data == InSequence(s.log, d))
  }

  /** Nobody holds the lock. */
  ghost predicate Free<D(!new)>(s: State<D>) {
    forall t :: 0 <= t < |s.threads| ==> !s.threads[t].Holding?
  }

  lemma FreeWhenAvailable<D(!new)>(s: State<D>)
    requires Balanced(s, 1)
    ensures Free(s) <==> s.value == 1
    ensures forall t, u :: 0 <= t < |s.threads| && 0 <= u < |s.threads| ==>
              s.threads[t].Holding? && s.threads[u].Holding? ==> t == u
  {
    if Free(s) {
      NoHolders(s.threads);
    } else {
      var t :| 0 <= t < |s.threads| && s.threads[t].Holding?;
      HolderCounts(s.threads, t);
    }
    forall t, u | 0 <= t < u < |s.threads|
      ensures !(s.threads[t].Holding? && s.threads[u].Holding?)
    {
      if s.threads[t].Holding? && s.threads[u].Holding? {
        TwoHolders(s.threads, t, u);
      }
    }
  }

  lemma FreeWhenTaken<D(!new)>(s: State<D>, t: nat)
    requires Balanced(s, 1) && t < |s.threads| && s.threads[t].Loaded? && s.value == s.threads[t].value
    ensures Free(s)
  {
    FreeWhenAvailable(s);
  }

  lemma OneMoreSection<D>(log: seq<Section<D>>, section: Section<D>, d: D)
    ensures InSequence(log + [section], d) == Partial(section, |section|, InSequence(log, d))
  {
    assert (log + [section])[..|log|] == log;
  }

  lemma StepKeepsSerial<D(!new)>(s: State<D>, t: nat, a: Action<D>, s': State<D>, d: D)
    requires Balanced(s, 1) && Serial(s, d) && Next(s, t, a, s')
    ensures Serial(s', d)
  {
    hide Balanced, InSequence;
    FreeWhenAvailable(s);
    StepKeepsBalance(s, t, a, s', 1);
    FreeWhenAvailable(s');
    match a
    case Call(_) =>
    case Load =>
    case CasSucceeds =>
      FreeWhenTaken(s, t);
    case CasFails =>
    case Work =>
    case Release =>
      OneMoreSection(s.log, s.threads[t].section, d);
  }

  /** No update is lost: every reachable state is that of a serial execution of the complete sections. */
  lemma {:induction false} EveryStateIsSerial<D(!new)>(states: seq<State<D>>)
    requires Execution(states, 1)
    ensures Serial(states[|states| - 1], states[0].data)
  {
    hide Next, Serial;
    var last := |states| - 1;
    if last == 0 {
      StartIsSerial(states[0]);
    } else {
      BeforeLast(states, 1);
      EveryStateIsSerial(states[..last]);
      SemaphoreConserves(states[..last], 1);
      assert SomeThreadSteps(states[last - 1], states[last]);
      var t: nat, a :| Next(states[last - 1], t, a, states[last]);
      StepKeepsSerial(states[last - 1], t, a, states[last], states[0].data);
    }
  }

  lemma StartIsSerial<D(!new)>(s: State<D>)
    requires Initial(s, 1)
    ensures Serial(s, s.data)
  {
  }

  ghost function Whole<D>(section: Section<D>, d: D): (r: D) {
    Partial(section, |section|, d)
  }

  /** Sections that get the lock are legal for the data they find. */
  ghost predicate LegalEntries<D(!new)>(states: seq<State<D>>, legal: (Section<D>, D) -> bool) {
    forall i, t {:trigger states[i].threads[t]} :: 0 <= i < |states| - 1 && 0 <= t < |states[i].threads| ==>
      Next(states[i], t, CasSucceeds, states[i + 1]) ==> legal(states[i].threads[t].section, states[i].data)
  }

  /** Each complete section, and the one under way, was legal at its place in the serial order. */
  ghost predicate LegalInSequence<D(!new)>(s: State<D>, d: D, legal: (Section<D>, D) -> bool) {
    && (forall i :: 0 <= i < |s.log| ==> legal(s.log[i], InSequence(s.log[..i], d)))
    && (forall t :: 0 <= t < |s.threads| && s.threads[t].Holding? ==>
          legal(s.threads[t].section, InSequence(s.log, d)))
  }

  lemma StepKeepsLegal<D(!new)>(s: State<D>, t: nat, a: Action<D>, s': State<D>, d: D, legal: (Section<D>, D) -> bool)
    requires Balanced(s, 1) && Serial(s, d) && Next(s, t, a, s') && LegalInSequence(s, d, legal)
    requires a.CasSucceeds? ==> legal(s.threads[t].section, s.data)
    ensures LegalInSequence(s', d, legal)
  {
    FreeWhenAvailable(s);
    match a
    case Release =>
      assert s'.log[..|s.log|] == s.log;
      forall i | 0 <= i < |s.log|
        ensures s'.log[..i] == s.log[..i]
      {
      }
    case CasSucceeds =>
      assert Free(s);
    case _ =>
  }

  lemma {:induction false} EverySectionIsLegal<D(!new)>(states: seq<State<D>>, legal: (Section<D>, D) -> bool)
    requires Execution(states, 1) && LegalEntries(states, legal)
    ensures LegalInSequence(states[|states| - 1], states[0].data, legal)
  {
    hide Next, Serial, LegalInSequence;
    var last := |states| - 1;
    if last == 0 {
      StartIsLegal(states[0], legal);
    } else {
      BeforeLast(states, 1);
      LegalBeforeLast(states, legal);
      EverySectionIsLegal(states[..last], legal);
      SemaphoreConserves(states[..last], 1);
      EveryStateIsSerial(states[..last]);
      assert SomeThreadSteps(states[last - 1], states[last]);
      var t: nat, a :| Next(states[last - 1], t, a, states[last]);
      StepHasThread(states[last - 1], t, a, states[last]);
      StepKeepsLegal(states[last - 1], t, a, states[last], states[0].data, legal);
    }
  }

  lemma StartIsLegal<D(!new)>(s: State<D>, legal: (Section<D>, D) -> bool)
    requires Initial(s, 1)
    ensures LegalInSequence(s, s.data, legal)
  {
  }

  lemma StepHasThread<D(!new)>(s: State<D>, t: nat, a: Action<D>, s': State<D>)
    requires Next(s, t, a, s')
    ensures t < |s.threads|
  {
  }

  lemma LegalBeforeLast<D(!new)>(states: seq<State<D>>, legal: (Section<D>, D) -> bool)
    requires LegalEntries(states, legal) && |states| > 1
    ensures LegalEntries(states[..|states| - 1], legal)
  {
    hide Next;
  }

  lemma {:induction false} KeptInSequence<D(!new)>(log: seq<Section<D>>, d: D, legal: (Section<D>, D) -> bool,
                                                   kept: D -> bool)
    requires kept(d) && forall section, e :: legal(section, e) && kept(e) ==> kept(Whole(section, e))
    requires forall i :: 0 <= i < |log| ==> legal(log[i], InSequence(log[..i], d))
    ensures kept(InSequence(log, d))
  {
    if log != [] {
      var before := log[..|log| - 1];
      forall i | 0 <= i < |before|
        ensures legal(before[i], InSequence(before[..i], d))
      {
        assert before[..i] == log[..i];
      }
      KeptInSequence(before, d, legal, kept);
      assert legal(log[|log| - 1], InSequence(before, d));
      assert InSequence(log, d) == Whole(log[|log| - 1], InSequence(before, d));
    }
  }

  /**
   * What every legal section keeps when it runs alone holds whenever nobody holds the
   * lock, however the threads' steps interleave.
   */
  lemma KeptWhenFree<D(!new)>(states: seq<State<D>>, legal: (Section<D>, D) -> bool, kept: D -> bool)
    requires Execution(states, 1) && LegalEntries(states, legal)
    requires kept(states[0].data)
    requires forall section, d :: legal(section, d) && kept(d) ==> kept(Whole(section, d))
    ensures Free(states[|states| - 1]) ==> kept(states[|states| - 1].data)
  {
    hide Next, SomeThreadSteps, LegalEntries;
    EverySectionIsLegal(states, legal);
    EveryStateIsSerial(states);
    KeptInSequence(states[|states| - 1].log, states[0].data, legal, kept);
  }

  /** The only sections that threads ever run are of one kind. */
  ghost predicate OnlySections<D(!new)>(states: seq<State<D>>, allowed: Section<D> -> bool) {
    forall i, t {:trigger states[i].threads[t]} :: 0 <= i < |states| && 0 <= t < |states[i].threads| ==>
      !states[i].threads[t].Idle? ==> allowed(states[i].threads[t].section)
  }

  lemma OnlySectionsAreLegal<D(!new)>(states: seq<State<D>>, allowed: Section<D> -> bool,
                                      legal: (Section<D>, D) -> bool)
    requires OnlySections(states, allowed) && forall section, d :: allowed(section) ==> legal(section, d)
    ensures LegalEntries(states, legal)
  {
  }

  /** A thread that wants a slot can always take one when there is one, in two steps of its own. */
  lemma CanTakeSlot<D(!new)>(s: State<D>, t: nat, initial: nat) returns (between: State<D>, after: State<D>)
    requires Balanced(s, initial) && Holders(s.threads) < initial < TWO_TO_32
    requires t < |s.threads| && s.threads[t].Loading?
    ensures Next(s, t, Load, between) && Next(between, t, CasSucceeds, after) && after.threads[t].Holding?
  {
    between := s.(threads := s.threads[t := Loaded(s.threads[t].section, s.value)]);
    after := between.(value := (s.value - 1) % TWO_TO_32,
                      threads := between.threads[t := Holding(s.threads[t].section, 0)]);
  }

  // No call is lost.

  /** A thread with a call keeps it until its section is complete and it releases the lock. */
  lemma CallsStay<D(!new)>(s: State<D>, t: nat, a: Action<D>, s': State<D>, u: nat)
    requires Next(s, t, a, s') && u < |s.threads| && !s.threads[u].Idle?
    ensures |s'.threads| == |s.threads|
    ensures !s'.threads[u].Idle? ==> s'.threads[u].section == s.threads[u].section
    ensures s'.threads[u].Idle? ==>
              && a.Release? && u == t
              && s.threads[u].Holding? && s.threads[u].done == |s.threads[u].section|
              && s'.log == s.log + [s.threads[u].section]
  {
  }

  /** A thread without a call can start any. */
  lemma AnyCallCanStart<D(!new)>(s: State<D>, t: nat, section: Section<D>) returns (s': State<D>)
    requires t < |s.threads| && s.threads[t].Idle?
    ensures Next(s, t, Call(section), s') && s'.threads[t] == Loading(section)
  {
    s' := s.(threads := s.threads[t := Loading(section)]);
  }

  /** Each thread with a call can take a step of its own, whatever the others do: none is ever stuck. */
  lemma NobodyIsStuck<D(!new)>(s: State<D>, t: nat) returns (a: Action<D>, s': State<D>)
    requires t < |s.threads| && !s.threads[t].Idle?
    requires s.threads[t].Holding? ==> s.threads[t].done <= |s.threads[t].section|
    ensures Next(s, t, a, s')
  {
    var pc := s.threads[t];
    match pc {
      case Loading(section) =>
        a := Load;
        s' := if s.value == 0 then s else s.(threads := s.threads[t := Loaded(section, s.value)]);
      case Loaded(section, _) =>
        a := CasFails;
        s' := s.(threads := s.threads[t := Loading(section)]);
      case Holding(section, done) =>
        if done < |section| {
          a := Work;
          s' := s.(data := section[done](s.data), threads := s.threads[t := Holding(section, done + 1)]);
        } else {
          a := Release;
          s' := s.(value := (s.value + 1) % TWO_TO_32, threads := s.threads[t := Idle], log := s.log + [section]);
        }
    }
  }

  /** The sections that the calls among these actions are for, in order. */
  ghost function Calls<D(!new)>(actions: seq<Action<D>>): (sections: seq<Section<D>>) {
    if actions == [] then []
    else
      var last := actions[|actions| - 1];
      Calls(actions[..|actions| - 1]) + if last.Call? then [last.section] else []
  }

  ghost function CallOf<D(!new)>(pc: Pc<D>): (sections: multiset<Section<D>>) {
    if pc.Idle? then multiset{} else multiset{pc.section}
  }

  /** The sections of the calls that are under way. */
  ghost function Pending<D(!new)>(threads: seq<Pc<D>>): (sections: multiset<Section<D>>) {
    if threads == [] then multiset{} else CallOf(threads[0]) + Pending(threads[1..])
  }

  lemma {:induction false} PendingChanges<D(!new)>(threads: seq<Pc<D>>, t: nat, pc: Pc<D>)
    requires t < |threads|
    ensures Pending(threads[t := pc]) + CallOf(threads[t]) == Pending(threads) + CallOf(pc)
  {
    hide CallOf;
    if t > 0 {
      PendingChanges(threads[1..], t - 1, pc);
      assert threads[t := pc][1..] == threads[1..][t - 1 := pc];
      Around(CallOf(threads[0]), Pending(threads[1..][t - 1 := pc]), CallOf(threads[t]), Pending(threads[1..]),
             CallOf(pc));
    } else {
      assert threads[0 := pc][1..] == threads[1..];
    }
  }

  lemma Around<T>(m: multiset<T>, a: multiset<T>, b: multiset<T>, c: multiset<T>, d: multiset<T>)
    requires a + b == c + d
    ensures (m + a) + b == (m + c) + d
  {
    assert (m + a) + b == m + (a + b);
  }

  lemma {:induction false} NothingPending<D(!new)>(threads: seq<Pc<D>>)
    requires forall t :: 0 <= t < |threads| ==> threads[t].Idle?
    ensures Pending(threads) == multiset{}
  {
    if threads != [] {
      NothingPending(threads[1..]);
    }
  }

  /** An execution, step by step with its threads and actions. */
  ghost predicate Trace<D(!new)>(states: seq<State<D>>, who: seq<nat>, actions: seq<Action<D>>, value: nat) {
    && |states| == |who| + 1 == |actions| + 1 && Initial(states[0], value)
    && forall i :: 0 <= i < |actions| ==> Next(states[i], who[i], actions[i], states[i + 1])
  }

  /** Every execution has a trace. */
  lemma {:induction false} ExecutionsHaveTraces<D(!new)>(states: seq<State<D>>, value: nat)
    returns (who: seq<nat>, actions: seq<Action<D>>)
    requires Execution(states, value)
    ensures Trace(states, who, actions, value)
  {
    hide Next;
    var last := |states| - 1;
    if last == 0 {
      who, actions := [], [];
    } else {
      BeforeLast(states, value);
      who, actions := ExecutionsHaveTraces(states[..last], value);
      assert SomeThreadSteps(states[last - 1], states[last]);
      var t: nat, a :| Next(states[last - 1], t, a, states[last]);
      who, actions := who + [t], actions + [a];
    }
  }

  lemma Combine<T>(log: multiset<T>, log': multiset<T>, pending: multiset<T>, pending': multiset<T>,
                   before: multiset<T>, after: multiset<T>, called: multiset<T>)
    requires log' + after == log + before + called && pending' + before == pending + after
    ensures log' + pending' == log + pending + called
  {
    assert (log' + after) + (pending' + before) == (log + before + called) + (pending + after);
    var both := before + after;
    assert log' + pending' == ((log' + after) + (pending' + before)) - both;
    assert log + pending + called == ((log + before + called) + (pending + after)) - both;
  }

  lemma StepLogs<D(!new)>(s: State<D>, t: nat, a: Action<D>, s': State<D>)
    requires Next(s, t, a, s')
    ensures s'.threads == s.threads[t := s'.threads[t]]
    ensures multiset(s'.log) + CallOf(s'.threads[t])
         == multiset(s.log) + CallOf(s.threads[t]) + if a.Call? then multiset{a.section} else multiset{}
  {
  }

  lemma StepAccounts<D(!new)>(s: State<D>, t: nat, a: Action<D>, s': State<D>)
    requires Next(s, t, a, s')
    ensures multiset(s'.log) + Pending(s'.threads)
         == multiset(s.log) + Pending(s.threads) + if a.Call? then multiset{a.section} else multiset{}
  {
    hide Pending, CallOf;
    StepLogs(s, t, a, s');
    PendingChanges(s.threads, t, s'.threads[t]);
    Combine(multiset(s.log), multiset(s'.log), Pending(s.threads), Pending(s'.threads), CallOf(s.threads[t]),
            CallOf(s'.threads[t]), if a.Call? then multiset{a.section} else multiset{});
  }

  /** Each call of an execution has been completed, once, or is still under way, and nothing else has. */
  lemma {:induction false} EveryCallCounts<D(!new)>(states: seq<State<D>>, who: seq<nat>, actions: seq<Action<D>>,
                                                    value: nat)
    requires Trace(states, who, actions, value)
    ensures var s := states[|states| - 1];
            multiset(Calls(actions)) == multiset(s.log) + Pending(s.threads)
  {
    hide Next, Pending;
    var n := |actions|;
    if n == 0 {
      NothingPending(states[0].threads);
    } else {
      EveryCallCounts(states[..n], who[..n - 1], actions[..n - 1], value);
      StepAccounts(states[n - 1], who[n - 1], actions[n - 1], states[n]);
    }
  }
}
