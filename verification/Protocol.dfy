/**
  Leases, contexts and threads: every interleaving of getting a lease, serializing, closing, `WafContext.run` and
  `WafContext.close`, in steps as small as the accesses to what threads share.
  */
module Protocol {
  import opened Common

  // ---------------------------------------------------------------- states

  /** Who got a lease, and alone closes it: a thread that asked for it, a call of `run`, or a context. */
  datatype Owner = OfThread(thread: nat) | OfCall(thread: nat) | OfContext(context: nat)

  /** How far `close` of a lease has come: `closeCalled`, then `reset`, then `addFirst`. */
  datatype Stage = Open | Called | Cleared | Back

  /** A lease; handed counts how often its arena was given back for it. */
  datatype Lease = Lease(arena: nat, owner: Owner, stage: Stage, handed: nat)

  datatype Context = Context(online: bool, lease: nat, monitor: Option<nat>)

  datatype Job = RunJob(persistent: bool, ephemeral: bool) | CloseJob

  /** Where a thread is. From Checking to Releasing it is inside the monitor of the context. */
  datatype Pc =
    | Idle
    | Waiting(context: nat, job: Job)
    | Checking(context: nat, job: Job)
    | Persisting(context: nat, ephemeral: bool)
    | Leasing(context: nat)
    | Encoding(context: nat, lease: nat)
    | Calling(context: nat, call: Option<nat>)
    | Finally(context: nat, call: Option<nat>)
    | Clearing(context: nat)
    | Closing(after: Option<nat>, lease: nat)
    | Releasing(context: nat)

  /** The arena holds something that was written through the lease. */
  datatype Mark = Mark(arena: nat, lease: nat)

  /** An access to the arena of a lease, by whom, and how far the lease's close had come. */
  datatype Touch = Touch(user: Owner, lease: nat, stage: Stage)

  /** A call of the native library: by whom, in which context, and how far the closes of the leases it reads had come. */
  datatype NativeCall = NativeCall(thread: nat, context: nat, persistent: Stage, ephemeral: Option<Stage>)

  /**
    The pool, the number of arenas made so far, what the arenas hold, the leases, contexts and threads, and a record of
    all accesses to arenas and of all native calls.
    */
  datatype State = State(pool: seq<nat>, made: nat, written: set<Mark>, leases: seq<Lease>, contexts: seq<Context>,
                         threads: seq<Pc>, touches: seq<Touch>, calls: seq<NativeCall>)

  /**
    What an idle thread may begin. UseLease is one access of a serialization to the arena, by any thread and however far
    the close has come: nothing in the code prevents it. A serialization is any number of accesses.
    */
  datatype Event =
    | NewContext
    | NewLease
    | UseLease(lease: nat)
    | CloseLease(lease: nat)
    | StartRun(context: nat, persistent: bool, ephemeral: bool)
    | StartClose(context: nat)
    | Continue(throws: bool)

  // ---------------------------------------------------------------- steps

  function At(s: State, t: nat, pc: Pc): State
    requires t < |s.threads|
  {
    s.(threads := s.threads[t := pc])
  }

  function OnLease(s: State, l: nat, stage: Stage): State
    requires l < |s.leases|
  {
    s.(leases := s.leases[l := s.leases[l].(stage := stage)])
  }

  /** `getLease`: `pollFirst`, or a new arena. The lease is the last of s.leases. */
  function Leased(s: State, owner: Owner): State {
    if s.pool == [] then
      s.(made := s.made + 1, leases := s.leases + [Lease(s.made, owner, Open, 0)])
    else
      s.(pool := s.pool[1..], leases := s.leases + [Lease(s.pool[0], owner, Open, 0)])
  }

  /** A new context with its lease. */
  function WithContext(s: State): State {
    Leased(s, OfContext(|s.contexts|)).(contexts := s.contexts + [Context(true, |s.leases|, None)])
  }

  /** The state once a call has its ephemeral lease. */
  function CallLeased(s: State, t: nat, c: nat): State
    requires t < |s.threads|
  {
    At(Leased(s, OfCall(t)), t, Encoding(c, |s.leases|))
  }

  /** A serialization on the lease, whether or not it throws. */
  function Used(s: State, user: Owner, l: nat): State
    requires l < |s.leases|
  {
    s.(written := s.written + {Mark(s.leases[l].arena, l)}, touches := s.touches + [Touch(user, l, s.leases[l].stage)])
  }

  /** `runWafContext`: the native library reads what the leases' arenas hold. */
  function NativeRun(s: State, t: nat, c: nat, call: Option<nat>): State
    requires c < |s.contexts| && s.contexts[c].lease < |s.leases| && (call.Some? ==> call.value < |s.leases|)
  {
    var ephemeral := if call.Some? then Some(s.leases[call.value].stage) else None;
    s.(calls := s.calls + [NativeCall(t, c, s.leases[s.contexts[c].lease].stage, ephemeral)])
  }

  /** The start of `close` of a lease: nothing when it was closed before. */
  function CloseCalled(s: State, t: nat, l: nat, after: Option<nat>): State
    requires t < |s.threads| && l < |s.leases|
  {
    if s.leases[l].stage == Open then At(OnLease(s, l, Called), t, Closing(after, l))
    else At(s, t, AfterClose(after))
  }

  function AfterClose(after: Option<nat>): Pc {
    match after case None => Idle case Some(c) => Releasing(c)
  }

  /** `arena.reset()`. */
  function ResetArena(s: State, l: nat): State
    requires l < |s.leases|
  {
    OnLease(s, l, Cleared).(written := set m | m in s.written && m.arena != s.leases[l].arena)
  }

  /** `arenas.addFirst(arena)`. */
  function GiveBack(s: State, t: nat, l: nat, after: Option<nat>): State
    requires t < |s.threads| && l < |s.leases|
  {
    var lease := s.leases[l];
    At(s, t, AfterClose(after)).(
      pool := [lease.arena] + s.pool,
      leases := s.leases[l := lease.(stage := Back, handed := lease.handed + 1)])
  }

  function Locked(s: State, t: nat, c: nat, job: Job): State
    requires t < |s.threads| && c < |s.contexts|
  {
    At(s, t, Checking(c, job)).(contexts := s.contexts[c := s.contexts[c].(monitor := Some(t))])
  }

  function Unlocked(s: State, t: nat, c: nat): State
    requires t < |s.threads| && c < |s.contexts|
  {
    At(s, t, Idle).(contexts := s.contexts[c := s.contexts[c].(monitor := None)])
  }

  function Offline(s: State, t: nat, c: nat): State
    requires t < |s.threads| && c < |s.contexts|
  {
    At(s, t, Clearing(c)).(contexts := s.contexts[c := s.contexts[c].(online := false)])
  }

  /** After `checkOnline`. */
  function Checked(job: Job, c: nat): Pc {
    if job.CloseJob? then Clearing(c)
    else if job.persistent then Persisting(c, job.ephemeral)
    else if job.ephemeral then Leasing(c)
    else Calling(c, None)
  }

  /** An idle thread begins something; None where it may not. */
  function Begin(s: State, t: nat, e: Event): Option<State>
    requires t < |s.threads|
  {
    match e
    case NewContext => Some(WithContext(s))
    case NewLease => Some(Leased(s, OfThread(t)))
    case UseLease(l) => if l < |s.leases| then Some(Used(s, OfThread(t), l)) else None
    case CloseLease(l) =>
      if l < |s.leases| && s.leases[l].owner == OfThread(t) then Some(CloseCalled(s, t, l, None)) else None
    case StartRun(c, p, q) => if c < |s.contexts| then Some(At(s, t, Waiting(c, RunJob(p, q)))) else None
    case StartClose(c) => if c < |s.contexts| then Some(At(s, t, Waiting(c, CloseJob))) else None
    case Continue(_) => None
  }

  /** The next access of a thread that is not idle; None while it waits. */
  function Proceed(s: State, t: nat, throws: bool): Option<State>
    requires t < |s.threads|
  {
    match s.threads[t]
    case Idle => None
    case Waiting(c, job) =>
      if c < |s.contexts| && s.contexts[c].monitor == None then Some(Locked(s, t, c, job)) else None
    case Checking(c, job) =>
      if c >= |s.contexts| then None
      else if !s.contexts[c].online then Some(At(s, t, Releasing(c)))
      else if job.CloseJob? then Some(Offline(s, t, c))
      else Some(At(s, t, Checked(job, c)))
    case Persisting(c, ephemeral) =>
      if c >= |s.contexts| || s.contexts[c].lease >= |s.leases| then None
      else Some(At(Used(s, OfContext(c), s.contexts[c].lease), t,
                   if throws then Finally(c, None) else if ephemeral then Leasing(c) else Calling(c, None)))
    case Leasing(c) => Some(CallLeased(s, t, c))
    case Encoding(c, l) =>
      if l >= |s.leases| then None
      else Some(At(Used(s, OfCall(t), l), t, if throws then Finally(c, Some(l)) else Calling(c, Some(l))))
    case Calling(c, call) =>
      if c >= |s.contexts| || s.contexts[c].lease >= |s.leases| || (call.Some? && call.value >= |s.leases|) then None
      else Some(At(NativeRun(s, t, c, call), t, Finally(c, call)))
    case Finally(c, call) =>
      (match call
       case None => Some(At(s, t, Releasing(c)))
       case Some(l) => if l < |s.leases| then Some(CloseCalled(s, t, l, Some(c))) else None)
    case Clearing(c) =>
      if c >= |s.contexts| || s.contexts[c].lease >= |s.leases| then None
      else Some(CloseCalled(s, t, s.contexts[c].lease, Some(c)))
    case Closing(after, l) =>
      if l >= |s.leases| then None
      else if s.leases[l].stage == Called then Some(ResetArena(s, l))
      else if s.leases[l].stage == Cleared then Some(GiveBack(s, t, l, after))
      else None
    case Releasing(c) => if c < |s.contexts| then Some(Unlocked(s, t, c)) else None
  }

  function Next(s: State, t: nat, e: Event): Option<State> {
    if t >= |s.threads| then None
    else if e.Continue? then Proceed(s, t, e.throws)
    else if s.threads[t] == Idle then Begin(s, t, e)
    else None
  }

  /** A thread's event; one that is not enabled has no effect. */
  function Step(s: State, e: (nat, Event)): State {
    match Next(s, e.0, e.1) case None => s case Some(s') => s'
  }

  /** A run: the threads' events in the order in which they happen. */
  function Run(s: State, es: seq<(nat, Event)>): State
    decreases |es|
  {
    if es == [] then s else Run(Step(s, es[0]), es[1..])
  }

  function Initial(threads: nat): State {
    State([], 0, {}, [], [], seq(threads, i => Idle), [], [])
  }

  // ---------------------------------------------------------------- the invariant

  /** The context whose monitor a thread at pc is in. */
  function Inside(pc: Pc): Option<nat> {
    match pc
    case Idle => None
    case Waiting(_, _) => None
    case Checking(c, _) => Some(c)
    case Persisting(c, _) => Some(c)
    case Leasing(c) => Some(c)
    case Encoding(c, _) => Some(c)
    case Calling(c, _) => Some(c)
    case Finally(c, _) => Some(c)
    case Clearing(c) => Some(c)
    case Closing(after, _) => after
    case Releasing(c) => Some(c)
  }

  /** A call of `run` between its check and the end of its `finally`. */
  predicate Running(pc: Pc) {
    pc.Persisting? || pc.Leasing? || pc.Encoding? || pc.Calling? || pc.Finally?
  }

  /** The ephemeral lease of a call that is still to be closed. */
  function Ephemeral(pc: Pc): Option<nat> {
    match pc
    case Encoding(_, l) => Some(l)
    case Calling(_, call) => call
    case Finally(_, call) => call
    case _ => None
  }

  /** Arenas are nowhere twice. */
  ghost predicate ArenasOk(s: State) {
    && (forall i :: 0 <= i < |s.pool| ==> s.pool[i] < s.made)
    && (forall i, j :: 0 <= i < j < |s.pool| ==> s.pool[i] != s.pool[j])
    && (forall l :: 0 <= l < |s.leases| ==> s.leases[l].arena < s.made)
    && (forall l, k :: 0 <= l < k < |s.leases| && s.leases[l].stage != Back && s.leases[k].stage != Back ==>
          s.leases[l].arena != s.leases[k].arena)
    && (forall l :: 0 <= l < |s.leases| && s.leases[l].stage != Back ==> s.leases[l].arena !in s.pool)
  }

  ghost predicate LeaseFine(s: State, l: nat)
    requires l < |s.leases|
  {
    var x := s.leases[l];
    && x.handed == (if x.stage == Back then 1 else 0)
    && (match x.owner
        case OfThread(t) =>
          t < |s.threads| && (x.stage == Called || x.stage == Cleared ==> s.threads[t] == Closing(None, l))
        case OfCall(t) =>
          && t < |s.threads|
          && (x.stage == Open ==> Ephemeral(s.threads[t]) == Some(l))
          && (x.stage == Called || x.stage == Cleared ==>
                s.threads[t].Closing? && s.threads[t].lease == l && s.threads[t].after.Some?)
        case OfContext(c) =>
          && c < |s.contexts| && s.contexts[c].lease == l
          && (x.stage != Open ==> !s.contexts[c].online)
          && (x.stage == Called || x.stage == Cleared ==>
                && s.contexts[c].monitor.Some? && s.contexts[c].monitor.value < |s.threads|
                && s.threads[s.contexts[c].monitor.value] == Closing(Some(c), l)))
  }

  ghost predicate ThreadFine(s: State, t: nat)
    requires t < |s.threads|
  {
    var pc := s.threads[t];
    && (Inside(pc).Some? ==> Inside(pc).value < |s.contexts| && s.contexts[Inside(pc).value].monitor == Some(t))
    && (pc.Waiting? ==> pc.context < |s.contexts|)
    && (Running(pc) ==> pc.context < |s.contexts| && s.contexts[pc.context].online)
    && (Ephemeral(pc).Some? ==>
          var l := Ephemeral(pc).value;
          l < |s.leases| && s.leases[l].owner == OfCall(t) && s.leases[l].stage == Open)
    && (pc.Closing? ==>
          pc.lease < |s.leases| && (s.leases[pc.lease].stage == Called || s.leases[pc.lease].stage == Cleared)
          && s.leases[pc.lease].owner == (
               if pc.after == None then OfThread(t)
               else if pc.lease == s.contexts[pc.after.value].lease then OfContext(pc.after.value)
               else OfCall(t)))
    && (pc.Clearing? ==>
          var c := s.contexts[pc.context]; !c.online && c.lease < |s.leases| && s.leases[c.lease].stage == Open)
  }

  ghost predicate ContextFine(s: State, c: nat)
    requires c < |s.contexts|
  {
    var x := s.contexts[c];
    && x.lease < |s.leases| && s.leases[x.lease].owner == OfContext(c)
    && (x.monitor.Some? ==> x.monitor.value < |s.threads| && Inside(s.threads[x.monitor.value]) == Some(c))
    && (!x.online && s.leases[x.lease].stage == Open ==>
          x.monitor.Some? && s.threads[x.monitor.value] == Clearing(c))
  }

  ghost predicate LeasesOk(s: State) { forall l :: 0 <= l < |s.leases| ==> LeaseFine(s, l) }
  ghost predicate ThreadsOk(s: State) { forall t :: 0 <= t < |s.threads| ==> ThreadFine(s, t) }
  ghost predicate ContextsOk(s: State) { forall c :: 0 <= c < |s.contexts| ==> ContextFine(s, c) }

  ghost predicate Inv(s: State) { ArenasOk(s) && LeasesOk(s) && ThreadsOk(s) && ContextsOk(s) }

  // ---------------------------------------------------------------- every step keeps it

  /** A thread moves on inside the same monitor, with the same ephemeral lease, and closes nothing. */
  lemma MovedKeeps(s: State, t: nat, pc: Pc)
    requires Inv(s) && t < |s.threads|
    requires pc.Waiting? ==> pc.context < |s.contexts|
    requires Inside(pc) == Inside(s.threads[t]) && Ephemeral(pc) == Ephemeral(s.threads[t])
    requires !pc.Closing? && !s.threads[t].Closing? && !pc.Clearing? && !s.threads[t].Clearing?
    requires Running(pc) ==> pc.context < |s.contexts| && s.contexts[pc.context].online && Inside(pc) == Some(pc.context)
    ensures Inv(At(s, t, pc))
  {
    var s' := At(s, t, pc);
    forall l | 0 <= l < |s'.leases| ensures LeaseFine(s', l) {
      assert LeaseFine(s, l);
    }
    forall u | 0 <= u < |s'.threads| ensures ThreadFine(s', u) {
      assert ThreadFine(s, u);
    }
    forall c | 0 <= c < |s'.contexts| ensures ContextFine(s', c) {
      assert ContextFine(s, c);
    }
  }

  /** The record of accesses has no influence on what comes after. */
  lemma UsedKeeps(s: State, user: Owner, l: nat)
    requires Inv(s) && l < |s.leases|
    ensures Inv(Used(s, user, l))
  {
    var s' := Used(s, user, l);
    forall k | 0 <= k < |s'.leases| ensures LeaseFine(s', k) {
      assert LeaseFine(s, k);
    }
    forall u | 0 <= u < |s'.threads| ensures ThreadFine(s', u) {
      assert ThreadFine(s, u);
    }
    forall c | 0 <= c < |s'.contexts| ensures ContextFine(s', c) {
      assert ContextFine(s, c);
    }
  }

  lemma NativeRunKeeps(s: State, t: nat, c: nat, call: Option<nat>)
    requires Inv(s) && c < |s.contexts| && s.contexts[c].lease < |s.leases| && (call.Some? ==> call.value < |s.leases|)
    ensures Inv(NativeRun(s, t, c, call))
  {
    var s' := NativeRun(s, t, c, call);
    forall k | 0 <= k < |s'.leases| ensures LeaseFine(s', k) {
      assert LeaseFine(s, k);
    }
    forall u | 0 <= u < |s'.threads| ensures ThreadFine(s', u) {
      assert ThreadFine(s, u);
    }
    forall d | 0 <= d < |s'.contexts| ensures ContextFine(s', d) {
      assert ContextFine(s, d);
    }
  }

  lemma LockedKeeps(s: State, t: nat, c: nat, job: Job)
    requires Inv(s) && t < |s.threads| && s.threads[t].Waiting? && c < |s.contexts| && s.contexts[c].monitor == None
    ensures Inv(Locked(s, t, c, job))
  {
    var s' := Locked(s, t, c, job);
    forall k | 0 <= k < |s'.leases| ensures LeaseFine(s', k) {
      assert LeaseFine(s, k);
    }
    forall u | 0 <= u < |s'.threads| ensures ThreadFine(s', u) {
      assert ThreadFine(s, u);
    }
    forall d | 0 <= d < |s'.contexts| ensures ContextFine(s', d) {
      assert ContextFine(s, d);
    }
  }

  lemma SameArenas(s: State, s': State)
    requires ArenasOk(s) && s'.pool == s.pool && s'.made == s.made && s'.leases == s.leases
    ensures ArenasOk(s')
  {
  }

  lemma UnlockedThread(s: State, t: nat, c: nat, u: nat)
    requires ThreadsOk(s) && t < |s.threads| && s.threads[t] == Releasing(c) && c < |s.contexts| && u < |s.threads|
    ensures ThreadFine(Unlocked(s, t, c), u)
  {
    assert ThreadFine(s, t) && ThreadFine(s, u);
  }

  lemma UnlockedKeeps(s: State, t: nat, c: nat)
    requires Inv(s) && t < |s.threads| && s.threads[t] == Releasing(c) && c < |s.contexts|
    ensures Inv(Unlocked(s, t, c))
  {
    hide ArenasOk;
    var s' := Unlocked(s, t, c);
    SameArenas(s, s');
    assert ThreadFine(s, t);
    forall k | 0 <= k < |s'.leases| ensures LeaseFine(s', k) {
      assert LeaseFine(s, k);
    }
    forall u | 0 <= u < |s'.threads| ensures ThreadFine(s', u) {
      UnlockedThread(s, t, c, u);
    }
    forall d | 0 <= d < |s'.contexts| ensures ContextFine(s', d) {
      assert ContextFine(s, d);
    }
  }

  lemma OfflineKeeps(s: State, t: nat, c: nat)
    requires Inv(s) && t < |s.threads| && s.threads[t].Checking? && s.threads[t].context == c && c < |s.contexts|
    requires s.contexts[c].online
    ensures Inv(Offline(s, t, c))
  {
    var s' := Offline(s, t, c);
    assert ArenasOk(s') && ThreadFine(s, t) && ContextFine(s, c);
    assert LeaseFine(s, s.contexts[c].lease);
    hide ArenasOk;
    forall k | 0 <= k < |s'.leases| ensures LeaseFine(s', k) {
      assert LeaseFine(s, k);
    }
    forall u | 0 <= u < |s'.threads| ensures ThreadFine(s', u) {
      assert ThreadFine(s, u);
    }
    forall d | 0 <= d < |s'.contexts| ensures ContextFine(s', d) {
      assert ContextFine(s, d);
    }
  }

  /** A new lease has an arena that no other open lease has. */
  lemma LeasedArenas(s: State, owner: Owner)
    requires ArenasOk(s)
    ensures ArenasOk(Leased(s, owner))
  {
    var s' := Leased(s, owner);
    if s.pool != [] {
      assert s.pool[0] in s.pool && s'.pool == s.pool[1..];
      assert forall i :: 0 <= i < |s'.pool| ==> s'.pool[i] == s.pool[i + 1] && s.pool[i + 1] != s.pool[0];
      assert forall a :: a in s'.pool ==> a in s.pool;
    }
  }

  lemma NewLeaseKeeps(s: State, t: nat)
    requires Inv(s) && t < |s.threads| && s.threads[t] == Idle
    ensures Inv(Leased(s, OfThread(t)))
  {
    var s' := Leased(s, OfThread(t));
    LeasedArenas(s, OfThread(t));
    forall k | 0 <= k < |s'.leases| ensures LeaseFine(s', k) {
      if k < |s.leases| {
        assert LeaseFine(s, k);
      }
    }
    forall u | 0 <= u < |s'.threads| ensures ThreadFine(s', u) {
      assert ThreadFine(s, u);
    }
    forall d | 0 <= d < |s'.contexts| ensures ContextFine(s', d) {
      if d < |s.contexts| {
        assert ContextFine(s, d);
      }
    }
  }

  lemma CallLeaseLease(s: State, t: nat, c: nat, k: nat)
    requires Inv(s) && t < |s.threads| && s.threads[t] == Leasing(c) && k <= |s.leases|
    ensures LeaseFine(CallLeased(s, t, c), k)
  {
    if k < |s.leases| {
      assert LeaseFine(s, k);
    }
  }

  lemma CallLeaseThread(s: State, t: nat, c: nat, u: nat)
    requires Inv(s) && t < |s.threads| && s.threads[t] == Leasing(c) && u < |s.threads|
    ensures ThreadFine(CallLeased(s, t, c), u)
  {
    assert ThreadFine(s, u);
    if s.threads[u].Clearing? {
      assert ContextFine(s, s.threads[u].context);
    }
    hide Inv;
  }

  lemma CallLeaseContext(s: State, t: nat, c: nat, d: nat)
    requires Inv(s) && t < |s.threads| && s.threads[t] == Leasing(c) && d < |s.contexts|
    ensures ContextFine(CallLeased(s, t, c), d)
  {
    assert ContextFine(s, d);
    hide Inv;
  }

  lemma CallLeaseKeeps(s: State, t: nat, c: nat)
    requires Inv(s) && t < |s.threads| && s.threads[t] == Leasing(c)
    ensures Inv(CallLeased(s, t, c))
  {
    var s' := CallLeased(s, t, c);
    LeasedArenas(s, OfCall(t));
    assert ArenasOk(s') && |s'.leases| == |s.leases| + 1;
    hide ArenasOk, LeaseFine, ThreadFine, ContextFine;
    forall k | 0 <= k < |s'.leases| ensures LeaseFine(s', k) {
      CallLeaseLease(s, t, c, k);
    }
    forall u | 0 <= u < |s'.threads| ensures ThreadFine(s', u) {
      CallLeaseThread(s, t, c, u);
    }
    forall d | 0 <= d < |s'.contexts| ensures ContextFine(s', d) {
      CallLeaseContext(s, t, c, d);
    }
  }

  lemma NewContextLease(s: State, k: nat)
    requires LeasesOk(s) && k <= |s.leases|
    ensures LeaseFine(WithContext(s), k)
  {
    if k < |s.leases| {
      assert LeaseFine(s, k);
    }
  }

  lemma NewContextThread(s: State, u: nat)
    requires ThreadsOk(s) && ContextsOk(s) && u < |s.threads|
    ensures ThreadFine(WithContext(s), u)
  {
    assert ThreadFine(s, u);
    if s.threads[u].Clearing? {
      assert ContextFine(s, s.threads[u].context);
    }
  }

  lemma NewContextContext(s: State, d: nat)
    requires ContextsOk(s) && d <= |s.contexts|
    ensures ContextFine(WithContext(s), d)
  {
    if d < |s.contexts| {
      assert ContextFine(s, d);
    }
  }

  lemma WithContextIs(s: State)
    ensures var s' := WithContext(s);
      && |s'.leases| == |s.leases| + 1 && |s'.contexts| == |s.contexts| + 1 && s'.threads == s.threads
      && (ArenasOk(s) ==> ArenasOk(s'))
  {
    if ArenasOk(s) {
      LeasedArenas(s, OfContext(|s.contexts|));
    }
  }

  lemma NewContextKeeps(s: State, t: nat)
    requires Inv(s) && t < |s.threads|
    ensures Inv(WithContext(s))
  {
    hide ArenasOk, LeaseFine, ThreadFine, ContextFine, WithContext;
    WithContextIs(s);
    var s' := WithContext(s);
    forall k | 0 <= k < |s'.leases| ensures LeaseFine(s', k) {
      NewContextLease(s, k);
    }
    forall u | 0 <= u < |s'.threads| ensures ThreadFine(s', u) {
      NewContextThread(s, u);
    }
    forall d | 0 <= d < |s'.contexts| ensures ContextFine(s', d) {
      NewContextContext(s, d);
    }
  }

  /** Who calls `close` of a lease: its thread, the `finally` of its call, or its context. */
  ghost predicate Closes(s: State, t: nat, l: nat, after: Option<nat>)
    requires t < |s.threads| && l < |s.leases|
  {
    match s.threads[t]
    case Idle => after == None && s.leases[l].owner == OfThread(t)
    case Finally(c, call) => after == Some(c) && call == Some(l)
    case Clearing(c) => after == Some(c) && c < |s.contexts| && s.contexts[c].lease == l
    case _ => false
  }

  /** A lease about to be closed is open, unless its thread closed it before, and is the closer's own. */
  lemma CloserOwns(s: State, t: nat, l: nat, after: Option<nat>)
    requires Inv(s) && t < |s.threads| && l < |s.leases| && Closes(s, t, l, after)
    ensures s.leases[l].stage == Open || after == None
    ensures s.leases[l].owner == (match s.threads[t]
                                  case Clearing(c) => OfContext(c)
                                  case Finally(c, _) => OfCall(t)
                                  case _ => OfThread(t))
    ensures after.Some? ==> after.value < |s.contexts| && s.contexts[after.value].monitor == Some(t)
    ensures s.threads[t].Clearing? ==> !s.contexts[after.value].online && s.contexts[after.value].lease == l
    ensures s.threads[t].Finally? ==> s.contexts[after.value].lease != l
  {
    assert ThreadFine(s, t);
    if after.Some? {
      assert ContextFine(s, after.value);
    }
  }

  lemma CloseCalledLease(s: State, t: nat, l: nat, after: Option<nat>, k: nat)
    requires Inv(s) && t < |s.threads| && l < |s.leases| && Closes(s, t, l, after) && s.leases[l].stage == Open
    requires k < |s.leases|
    ensures LeaseFine(CloseCalled(s, t, l, after), k)
  {
    CloserOwns(s, t, l, after);
    assert LeaseFine(s, k);
    hide Inv, Closes;
  }

  lemma CloseCalledThread(s: State, t: nat, l: nat, after: Option<nat>, u: nat)
    requires Inv(s) && t < |s.threads| && l < |s.leases| && Closes(s, t, l, after) && s.leases[l].stage == Open
    requires u < |s.threads|
    ensures ThreadFine(CloseCalled(s, t, l, after), u)
  {
    CloserOwns(s, t, l, after);
    assert ThreadFine(s, u);
    if s.threads[u].Clearing? {
      assert ContextFine(s, s.threads[u].context);
    }
    hide Inv, Closes;
  }

  lemma CloseCalledContext(s: State, t: nat, l: nat, after: Option<nat>, c: nat)
    requires Inv(s) && t < |s.threads| && l < |s.leases| && Closes(s, t, l, after) && s.leases[l].stage == Open
    requires c < |s.contexts|
    ensures ContextFine(CloseCalled(s, t, l, after), c)
  {
    CloserOwns(s, t, l, after);
    assert ContextFine(s, c);
    hide Inv, Closes;
  }

  lemma CloseCalledKeeps(s: State, t: nat, l: nat, after: Option<nat>)
    requires Inv(s) && t < |s.threads| && l < |s.leases| && Closes(s, t, l, after)
    ensures Inv(CloseCalled(s, t, l, after))
  {
    var s' := CloseCalled(s, t, l, after);
    if s.leases[l].stage != Open {
      CloserOwns(s, t, l, after);
      assert s' == s;
      return;
    }
    assert ArenasOk(s');
    hide ArenasOk, LeaseFine, ThreadFine, ContextFine, Closes;
    forall k | 0 <= k < |s'.leases| ensures LeaseFine(s', k) {
      CloseCalledLease(s, t, l, after, k);
    }
    forall u | 0 <= u < |s'.threads| ensures ThreadFine(s', u) {
      CloseCalledThread(s, t, l, after, u);
    }
    forall c | 0 <= c < |s'.contexts| ensures ContextFine(s', c) {
      CloseCalledContext(s, t, l, after, c);
    }
  }

  lemma ResetKeeps(s: State, t: nat, l: nat)
    requires Inv(s) && t < |s.threads| && l < |s.leases| && s.threads[t].Closing? && s.threads[t].lease == l
    requires s.leases[l].stage == Called
    ensures Inv(ResetArena(s, l))
  {
    var s' := ResetArena(s, l);
    forall k | 0 <= k < |s'.leases| ensures LeaseFine(s', k) {
      assert LeaseFine(s, k);
    }
    forall u | 0 <= u < |s'.threads| ensures ThreadFine(s', u) {
      assert ThreadFine(s, u);
    }
    forall d | 0 <= d < |s'.contexts| ensures ContextFine(s', d) {
      assert ContextFine(s, d);
    }
  }

  lemma GiveBackArenas(s: State, t: nat, l: nat, after: Option<nat>)
    requires ArenasOk(s) && LeasesOk(s) && t < |s.threads| && l < |s.leases| && s.leases[l].stage == Cleared
    ensures ArenasOk(GiveBack(s, t, l, after))
  {
    assert LeaseFine(s, l);
    var s' := GiveBack(s, t, l, after);
    assert forall i :: 1 <= i < |s'.pool| ==> s'.pool[i] == s.pool[i - 1];
    assert forall i :: 0 <= i < |s.pool| ==> s.pool[i] in s.pool;
  }

  lemma GiveBackLeases(s: State, t: nat, l: nat, after: Option<nat>)
    requires Inv(s) && t < |s.threads| && l < |s.leases| && s.threads[t] == Closing(after, l)
    requires s.leases[l].stage == Cleared
    ensures LeasesOk(GiveBack(s, t, l, after))
  {
    var s' := GiveBack(s, t, l, after);
    assert ThreadFine(s, t) && LeaseFine(s, l);
    hide ArenasOk, ContextFine;
    forall k | 0 <= k < |s'.leases| ensures LeaseFine(s', k) {
      assert LeaseFine(s, k);
    }
  }

  lemma GiveBackRest(s: State, t: nat, l: nat, after: Option<nat>)
    requires Inv(s) && t < |s.threads| && l < |s.leases| && s.threads[t] == Closing(after, l)
    requires s.leases[l].stage == Cleared
    ensures var s' := GiveBack(s, t, l, after); LeasesOk(s') && ThreadsOk(s') && ContextsOk(s')
  {
    var s' := GiveBack(s, t, l, after);
    GiveBackLeases(s, t, l, after);
    assert ThreadFine(s, t) && LeaseFine(s, l);
    hide ArenasOk, LeasesOk;
    forall u | 0 <= u < |s'.threads| ensures ThreadFine(s', u) {
      assert ThreadFine(s, u);
    }
    forall d | 0 <= d < |s'.contexts| ensures ContextFine(s', d) {
      assert ContextFine(s, d);
    }
  }

  lemma GiveBackKeeps(s: State, t: nat, l: nat, after: Option<nat>)
    requires Inv(s) && t < |s.threads| && l < |s.leases| && s.threads[t] == Closing(after, l)
    requires s.leases[l].stage == Cleared
    ensures Inv(GiveBack(s, t, l, after))
  {
    hide ArenasOk, LeasesOk, ThreadsOk, ContextsOk;
    GiveBackArenas(s, t, l, after);
    GiveBackRest(s, t, l, after);
  }

  lemma BeginKeeps(s: State, t: nat, e: Event)
    requires Inv(s) && t < |s.threads| && s.threads[t] == Idle && Begin(s, t, e).Some?
    ensures Inv(Begin(s, t, e).value)
  {
    hide Inv, Leased, Used, CloseCalled;
    match e {
      case NewContext => NewContextKeeps(s, t);
      case NewLease => NewLeaseKeeps(s, t);
      case UseLease(l) => UsedKeeps(s, OfThread(t), l);
      case CloseLease(l) => CloseCalledKeeps(s, t, l, None);
      case StartRun(c, p, q) => MovedKeeps(s, t, Waiting(c, RunJob(p, q)));
      case StartClose(c) => MovedKeeps(s, t, Waiting(c, CloseJob));
      case Continue(_) =>
    }
  }

  /** Where a thread stands, by the invariant. */
  lemma ThreadIs(s: State, t: nat)
    requires Inv(s) && t < |s.threads|
    ensures ThreadFine(s, t)
    ensures Inside(s.threads[t]).Some? ==>
      var c := Inside(s.threads[t]).value;
      && c < |s.contexts| && s.contexts[c].lease < |s.leases|
      && (s.contexts[c].online ==> s.leases[s.contexts[c].lease].stage == Open)
    ensures Ephemeral(s.threads[t]).Some? ==> Ephemeral(s.threads[t]).value < |s.leases|
  {
    assert ThreadFine(s, t);
    if Inside(s.threads[t]).Some? {
      var c := Inside(s.threads[t]).value;
      assert ContextFine(s, c);
      assert LeaseFine(s, s.contexts[c].lease);
    }
  }

  lemma ProceedKeeps(s: State, t: nat, throws: bool)
    requires Inv(s) && t < |s.threads| && Proceed(s, t, throws).Some?
    ensures Inv(Proceed(s, t, throws).value)
  {
    if Running(s.threads[t]) {
      ProceedInRun(s, t, throws);
    } else {
      ProceedElsewhere(s, t, throws);
    }
    hide *;
  }

  lemma ProceedElsewhere(s: State, t: nat, throws: bool)
    requires Inv(s) && t < |s.threads| && Proceed(s, t, throws).Some? && !Running(s.threads[t])
    ensures Inv(Proceed(s, t, throws).value)
  {
    hide Inv, Leased, CloseCalled, ResetArena, GiveBack, Offline, Locked, Unlocked;
    ThreadIs(s, t);
    match s.threads[t] {
      case Idle =>
      case Waiting(c, job) => LockedKeeps(s, t, c, job);
      case Checking(c, job) =>
        if !s.contexts[c].online {
          MovedKeeps(s, t, Releasing(c));
        } else if job.CloseJob? {
          OfflineKeeps(s, t, c);
        } else {
          MovedKeeps(s, t, Checked(job, c));
        }
      case Clearing(c) => CloseCalledKeeps(s, t, s.contexts[c].lease, Some(c));
      case Closing(after, l) =>
        if s.leases[l].stage == Called {
          ResetKeeps(s, t, l);
        } else {
          GiveBackKeeps(s, t, l, after);
        }
      case Releasing(c) => UnlockedKeeps(s, t, c);
      case _ =>
    }
  }

  lemma ProceedInRun(s: State, t: nat, throws: bool)
    requires Inv(s) && t < |s.threads| && Proceed(s, t, throws).Some? && Running(s.threads[t])
    ensures Inv(Proceed(s, t, throws).value)
  {
    hide Inv, Leased, CloseCalled, ResetArena, GiveBack, Offline, Locked, Unlocked;
    ThreadIs(s, t);
    match s.threads[t] {
      case Persisting(c, ephemeral) =>
        UsedKeeps(s, OfContext(c), s.contexts[c].lease);
        MovedKeeps(Used(s, OfContext(c), s.contexts[c].lease), t,
                   if throws then Finally(c, None) else if ephemeral then Leasing(c) else Calling(c, None));
      case Leasing(c) => CallLeaseKeeps(s, t, c);
      case Encoding(c, l) =>
        UsedKeeps(s, OfCall(t), l);
        MovedKeeps(Used(s, OfCall(t), l), t, if throws then Finally(c, Some(l)) else Calling(c, Some(l)));
      case Calling(c, call) =>
        NativeRunKeeps(s, t, c, call);
        MovedKeeps(NativeRun(s, t, c, call), t, Finally(c, call));
      case Finally(c, call) =>
        if call.None? {
          MovedKeeps(s, t, Releasing(c));
        } else {
          CloseCalledKeeps(s, t, call.value, Some(c));
        }
      case _ =>
    }
  }

  lemma InitialInv(threads: nat)
    ensures Inv(Initial(threads))
  {
  }

  lemma StepKeeps(s: State, e: (nat, Event))
    requires Inv(s)
    ensures Inv(Step(s, e))
  {
    hide Inv, Begin, Proceed;
    if Next(s, e.0, e.1).Some? {
      if e.1.Continue? {
        ProceedKeeps(s, e.0, e.1.throws);
      } else {
        BeginKeeps(s, e.0, e.1);
      }
    }
  }

  /** The invariant holds after every run of any number of threads. */
  lemma {:induction false} RunKeeps(s: State, es: seq<(nat, Event)>)
    requires Inv(s)
    ensures Inv(Run(s, es))
    decreases |es|
  {
    hide Inv, Step;
    if es != [] {
      StepKeeps(s, es[0]);
      RunKeeps(Step(s, es[0]), es[1..]);
    }
  }

  // ---------------------------------------------------------------- what follows

  function Reached(threads: nat, es: seq<(nat, Event)>): State {
    Run(Initial(threads), es)
  }

  lemma ReachedInv(threads: nat, es: seq<(nat, Event)>)
    ensures Inv(Reached(threads, es))
  {
    InitialInv(threads);
    RunKeeps(Initial(threads), es);
  }

  /** No arena belongs to two leases that are not back, or to one and to the pool, or is twice in the pool. */
  lemma ArenasAreExclusive(threads: nat, es: seq<(nat, Event)>)
    ensures ArenasOk(Reached(threads, es))
  {
    ReachedInv(threads, es);
    hide *;
    InvParts(Reached(threads, es));
  }

  lemma InvParts(s: State)
    requires Inv(s)
    ensures ArenasOk(s) && LeasesOk(s) && ThreadsOk(s) && ContextsOk(s)
  {
    hide ArenasOk, LeasesOk, ThreadsOk, ContextsOk;
  }

  /** However its call of `run` ended, an ephemeral lease has been given back exactly once when the thread is idle. */
  lemma EphemeralComesBackOnce(threads: nat, es: seq<(nat, Event)>, l: nat)
    requires var s := Reached(threads, es);
      l < |s.leases| && s.leases[l].owner.OfCall?
      && (s.leases[l].owner.thread < |s.threads| ==> s.threads[s.leases[l].owner.thread] == Idle)
    ensures Reached(threads, es).leases[l].handed == 1
  {
    ReachedInv(threads, es);
    hide Run, Initial;
    assert LeaseFine(Reached(threads, es), l);
  }

  /**
    The lease of a context has been given back at most once, and only after the context went offline; once no thread is
    inside an offline context, it is back.
    */
  lemma ContextLease(threads: nat, es: seq<(nat, Event)>, c: nat)
    requires c < |Reached(threads, es).contexts|
    ensures var s := Reached(threads, es); var x := s.contexts[c];
      && x.lease < |s.leases| && s.leases[x.lease].handed <= 1
      && (s.leases[x.lease].handed == 1 ==> !x.online)
      && (!x.online && x.monitor == None ==> s.leases[x.lease].handed == 1)
  {
    ReachedInv(threads, es);
    hide Run, Initial;
    var s := Reached(threads, es);
    assert ContextFine(s, c);
    assert LeaseFine(s, s.contexts[c].lease);
  }

  /** The monitor: at most one thread is inside a context, and one is if and only if the monitor says so. */
  lemma MonitorExcludes(threads: nat, es: seq<(nat, Event)>, c: nat, t: nat)
    requires var s := Reached(threads, es); c < |s.contexts| && t < |s.threads|
    ensures var s := Reached(threads, es); s.contexts[c].monitor == Some(t) <==> Inside(s.threads[t]) == Some(c)
  {
    ReachedInv(threads, es);
    hide Run, Initial;
    var s := Reached(threads, es);
    assert ContextFine(s, c) && ThreadFine(s, t);
  }

  /** A thread in the middle of something can always go on, unless it waits for a monitor that another thread is in. */
  lemma NeverStuck(threads: nat, es: seq<(nat, Event)>, t: nat, throws: bool)
    requires t < |Reached(threads, es).threads| && Reached(threads, es).threads[t] != Idle
    ensures var s := Reached(threads, es);
      Proceed(s, t, throws).Some? <==>
      !(s.threads[t].Waiting? && exists u | 0 <= u < |s.threads| :: Inside(s.threads[u]) == Some(s.threads[t].context))
  {
    ReachedInv(threads, es);
    hide Run, Initial;
    var s := Reached(threads, es);
    ThreadIs(s, t);
    if s.threads[t].Waiting? {
      var c := s.threads[t].context;
      assert ContextFine(s, c);
      if u :| 0 <= u < |s.threads| && Inside(s.threads[u]) == Some(c) {
        assert ThreadFine(s, u);
      }
    }
  }

  /** Repeated `close`: whatever the lease, its arena is given back at most once for it. */
  lemma GivenBackAtMostOnce(threads: nat, es: seq<(nat, Event)>, l: nat)
    requires l < |Reached(threads, es).leases|
    ensures var x := Reached(threads, es).leases[l]; x.handed <= 1 && (x.handed == 1 <==> x.stage == Back)
  {
    ReachedInv(threads, es);
    hide Run, Initial;
    assert LeaseFine(Reached(threads, es), l);
  }

  // ---------------------------------------------------------------- nothing is lost

  /** l is a lease that has arena a and has not given it back. */
  predicate Holds(s: State, l: nat, a: nat) {
    l < |s.leases| && s.leases[l].arena == a && s.leases[l].stage != Back
  }

  ghost predicate Kept(s: State, a: nat) {
    a in s.pool || exists l :: Holds(s, l, a)
  }

  /** From s to s', no lease comes to its end, and what was in the pool is in the pool or leased. */
  ghost predicate Moves(s: State, s': State) {
    && s.made <= s'.made <= s.made + 1
    && (forall l, a :: Holds(s, l, a) ==> a in s'.pool || Holds(s', l, a))
    && (forall a :: a in s.pool ==> a in s'.pool || Holds(s', |s.leases|, a))
    && (s.made < s'.made ==> Holds(s', |s.leases|, s.made))
  }

  lemma BeginMoves(s: State, t: nat, e: Event)
    requires t < |s.threads| && Begin(s, t, e).Some?
    ensures Moves(s, Begin(s, t, e).value)
  {
  }

  lemma GiveBackMoves(s: State, t: nat, l: nat, after: Option<nat>)
    requires t < |s.threads| && l < |s.leases|
    ensures Moves(s, GiveBack(s, t, l, after))
  {
    var s' := GiveBack(s, t, l, after);
    assert s'.pool[0] in s'.pool;
    assert forall i :: 0 <= i < |s.pool| ==> s.pool[i] == s'.pool[i + 1];
  }

  lemma ProceedMoves(s: State, t: nat, throws: bool)
    requires t < |s.threads| && Proceed(s, t, throws).Some?
    ensures Moves(s, Proceed(s, t, throws).value)
  {
    hide GiveBack;
    if s.threads[t].Closing? && s.leases[s.threads[t].lease].stage == Cleared {
      GiveBackMoves(s, t, s.threads[t].lease, s.threads[t].after);
    }
  }

  lemma StepLosesNone(s: State, e: (nat, Event), a: nat)
    requires a < s.made ==> Kept(s, a)
    ensures a < Step(s, e).made ==> Kept(Step(s, e), a)
  {
    hide Begin, Proceed, Holds;
    if Next(s, e.0, e.1).Some? {
      if e.1.Continue? {
        ProceedMoves(s, e.0, e.1.throws);
      } else {
        BeginMoves(s, e.0, e.1);
      }
    }
  }

  lemma {:induction false} RunLosesNone(s: State, es: seq<(nat, Event)>, a: nat)
    requires a < s.made ==> Kept(s, a)
    ensures a < Run(s, es).made ==> Kept(Run(s, es), a)
    decreases |es|
  {
    hide Step, Kept;
    if es != [] {
      StepLosesNone(s, es[0], a);
      RunLosesNone(Step(s, es[0]), es[1..], a);
    }
  }

  /** Every arena ever made is in the pool or in a lease that is still to give it back. */
  lemma NoArenaIsLost(threads: nat, es: seq<(nat, Event)>, a: nat)
    requires a < Reached(threads, es).made
    ensures Kept(Reached(threads, es), a)
  {
    RunLosesNone(Initial(threads), es, a);
  }

  // ---------------------------------------------------------------- what the arenas hold

  /** Pooled arenas are reset, and what an arena in a lease holds was written through that lease. */
  ghost predicate Unmixed(s: State) {
    && (forall m :: m in s.written ==> m.arena !in s.pool)
    && (forall m, k :: m in s.written && Holds(s, k, m.arena) ==> k == m.lease)
  }

  /** No access came after `arena.reset()`. */
  ghost predicate NoneAfterReset(s: State) {
    forall i :: 0 <= i < |s.touches| ==> s.touches[i].stage == Open || s.touches[i].stage == Called
  }

  /** No access came after `close` had begun. */
  ghost predicate NoneAfterClose(s: State) {
    forall i :: 0 <= i < |s.touches| ==> s.touches[i].stage == Open
  }

  /** A thread uses only the leases it got; calls and contexts use their own. */
  ghost predicate OwnTouches(s: State) {
    forall i :: 0 <= i < |s.touches| ==>
      s.touches[i].lease < |s.leases| && s.leases[s.touches[i].lease].owner == s.touches[i].user
  }

  /** What is in an arena was written through a lease that has it and has not reset it. */
  ghost predicate Live(s: State) {
    forall m :: m in s.written ==>
      && m.lease < |s.leases| && s.leases[m.lease].arena == m.arena
      && (s.leases[m.lease].stage == Open || s.leases[m.lease].stage == Called)
  }

  lemma LiveIsUnmixed(s: State)
    requires Live(s) && ArenasOk(s)
    ensures Unmixed(s)
  {
  }

  /** From s to s', leases keep their owners and arenas, and accesses are only added. */
  ghost predicate Follows(s: State, s': State) {
    && |s.leases| <= |s'.leases| && |s.touches| <= |s'.touches|
    && (forall l :: 0 <= l < |s.leases| ==> s'.leases[l].owner == s.leases[l].owner)
    && (forall i :: 0 <= i < |s.touches| ==> s'.touches[i] == s.touches[i])
  }

  lemma BeginFollows(s: State, t: nat, e: Event)
    requires t < |s.threads| && Begin(s, t, e).Some?
    ensures Follows(s, Begin(s, t, e).value)
  {
  }

  lemma ProceedFollows(s: State, t: nat, throws: bool)
    requires t < |s.threads| && Proceed(s, t, throws).Some?
    ensures Follows(s, Proceed(s, t, throws).value)
  {
  }

  lemma StepFollows(s: State, e: (nat, Event))
    ensures Follows(s, Step(s, e))
  {
    hide Begin, Proceed;
    if Next(s, e.0, e.1).Some? {
      if e.1.Continue? {
        ProceedFollows(s, e.0, e.1.throws);
      } else {
        BeginFollows(s, e.0, e.1);
      }
    }
  }

  lemma {:induction false} RunFollows(s: State, es: seq<(nat, Event)>)
    ensures Follows(s, Run(s, es))
    decreases |es|
  {
    hide Step;
    if es != [] {
      StepFollows(s, es[0]);
      RunFollows(Step(s, es[0]), es[1..]);
    }
  }

  /** Only an access writes anything, and only a close moves a lease on. */
  lemma BeginLive(s: State, t: nat, e: Event)
    requires t < |s.threads| && Live(s) && Begin(s, t, e).Some? && NoneAfterReset(Begin(s, t, e).value)
    ensures Live(Begin(s, t, e).value)
  {
    if e.UseLease? {
      UsedLive(s, OfThread(t), e.lease);
    }
  }

  lemma UsedLive(s: State, user: Owner, l: nat)
    requires l < |s.leases| && Live(s) && NoneAfterReset(Used(s, user, l))
    ensures Live(Used(s, user, l))
  {
    assert Used(s, user, l).touches[|s.touches|].stage == s.leases[l].stage;
  }

  lemma AtLive(s: State, t: nat, pc: Pc)
    requires t < |s.threads|
    ensures Live(At(s, t, pc)) <==> Live(s)
    ensures NoneAfterReset(At(s, t, pc)) <==> NoneAfterReset(s)
  {
  }

  lemma ProceedLive(s: State, t: nat, throws: bool)
    requires t < |s.threads| && Live(s) && Proceed(s, t, throws).Some? && NoneAfterReset(Proceed(s, t, throws).value)
    ensures Live(Proceed(s, t, throws).value)
  {
    match s.threads[t] {
      case Persisting(c, ephemeral) =>
        var pc := if throws then Finally(c, None) else if ephemeral then Leasing(c) else Calling(c, None);
        AtLive(Used(s, OfContext(c), s.contexts[c].lease), t, pc);
        UsedLive(s, OfContext(c), s.contexts[c].lease);
      case Encoding(c, l) =>
        AtLive(Used(s, OfCall(t), l), t, if throws then Finally(c, Some(l)) else Calling(c, Some(l)));
        UsedLive(s, OfCall(t), l);
      case _ =>
    }
  }

  lemma StepLive(s: State, e: (nat, Event))
    requires Live(s) && NoneAfterReset(Step(s, e))
    ensures Live(Step(s, e))
  {
    hide Live, NoneAfterReset, Begin, Proceed;
    if Next(s, e.0, e.1).Some? {
      if e.1.Continue? {
        ProceedLive(s, e.0, e.1.throws);
      } else {
        BeginLive(s, e.0, e.1);
      }
    }
  }

  /** Without an access after a reset, nothing is mixed up, in whatever way the threads share leases. */
  lemma {:induction false} RunLive(s: State, es: seq<(nat, Event)>)
    requires Live(s) && NoneAfterReset(Run(s, es))
    ensures Live(Run(s, es))
    decreases |es|
  {
    hide Step, Live;
    if es != [] {
      RunFollows(Step(s, es[0]), es[1..]);
      StepLive(s, es[0]);
      RunLive(Step(s, es[0]), es[1..]);
    }
  }

  lemma RunSplit(s: State, es: seq<(nat, Event)>, n: nat)
    requires n <= |es|
    ensures Run(s, es) == Run(Run(s, es[..n]), es[n..])
    decreases n
  {
    hide Step;
    if n == 0 {
      assert es[n..] == es;
    } else {
      RunSplit(Step(s, es[0]), es[1..], n - 1);
      assert es[1..][..n - 1] == es[..n][1..] && es[1..][n - 1..] == es[n..];
    }
  }

  /** The accesses of a run include those of every prefix of it. */
  lemma PrefixTouches(s: State, es: seq<(nat, Event)>, n: nat)
    requires n <= |es|
    ensures Follows(Run(s, es[..n]), Run(s, es))
  {
    RunSplit(s, es, n);
    RunFollows(Run(s, es[..n]), es[n..]);
    hide *;
  }

  /**
    In whatever way threads share leases: while no access has come after a reset, pooled arenas are reset, and each
    leased arena holds only what was written through its lease.
    */
  lemma NoneAfterResetUnmixed(threads: nat, es: seq<(nat, Event)>, n: nat)
    requires n <= |es| && NoneAfterReset(Reached(threads, es))
    ensures Unmixed(Reached(threads, es[..n]))
  {
    var s := Initial(threads);
    PrefixTouches(s, es, n);
    assert NoneAfterReset(Run(s, es[..n]));
    RunLive(s, es[..n]);
    ReachedInv(threads, es[..n]);
    LiveIsUnmixed(Run(s, es[..n]));
  }

  // ---------------------------------------------------------------- each thread its own leases

  /** The owner of a lease finds it open or already given back: in between it is busy closing it. */
  lemma OwnerFinds(s: State, t: nat, l: nat)
    requires Inv(s) && t < |s.threads| && s.threads[t] == Idle && l < |s.leases| && s.leases[l].owner == OfThread(t)
    ensures s.leases[l].stage == Open || s.leases[l].stage == Back
  {
    assert LeaseFine(s, l);
  }

  /** The access of one step, if it makes one. */
  function Access(s: State, e: (nat, Event)): Option<Touch> {
    var s' := Step(s, e);
    if |s'.touches| > |s.touches| then Some(s'.touches[|s.touches|]) else None
  }

  ghost predicate AllKept(s: State) { forall a: nat :: a < s.made ==> Kept(s, a) }

  /** What an access leaves behind. */
  lemma AccessIs(s: State, e: (nat, Event))
    requires Inv(s)
    ensures var s' := Step(s, e);
      if Access(s, e).None? then s'.touches == s.touches
      else
        var x := Access(s, e).value;
        && s'.touches == s.touches + [x] && x.lease < |s.leases| && x.stage == s.leases[x.lease].stage
        && s'.leases == s.leases && Mark(s.leases[x.lease].arena, x.lease) in s'.written
        && (x.user == s.leases[x.lease].owner ==> x.stage == Open || x.stage == Back)
  {
    var (t, ev) := e;
    if t < |s.threads| {
      ThreadIs(s, t);
      if ev.UseLease? && s.threads[t] == Idle && ev.lease < |s.leases| && s.leases[ev.lease].owner == OfThread(t) {
        OwnerFinds(s, t, ev.lease);
      }
    }
    hide Inv, ThreadFine;
  }

  /** An access to a lease that is back shows: its arena is in the pool, or another lease has it. */
  lemma LateShows(s: State, e: (nat, Event))
    requires Inv(s) && AllKept(Step(s, e)) && Access(s, e).Some? && Access(s, e).value.stage == Back
    ensures !Unmixed(Step(s, e))
  {
    hide Step, Access;
    AccessIs(s, e);
    StepKeeps(s, e);
    var s', l := Step(s, e), Access(s, e).value.lease;
    var m := Mark(s.leases[l].arena, l);
    assert m in s'.written && Kept(s', m.arena);
    if m.arena !in s'.pool {
      var k :| Holds(s', k, m.arena);
      assert k != m.lease;
    }
  }

  /** One more step of a run in which each uses its own leases and nothing is mixed up. */
  lemma StepInTime(s: State, e: (nat, Event))
    requires Inv(s) && NoneAfterClose(s) && OwnTouches(Step(s, e)) && Unmixed(Step(s, e)) && AllKept(Step(s, e))
    ensures NoneAfterClose(Step(s, e))
  {
    AccessIs(s, e);
    if Access(s, e).Some? {
      var s', x := Step(s, e), Access(s, e).value;
      assert s'.touches[|s.touches|] == x;
      if x.stage == Back {
        LateShows(s, e);
        assert false;
      }
    }
    hide Step, Unmixed, AllKept, Inv, Access;
  }

  lemma PrefixStep(s: State, es: seq<(nat, Event)>, n: nat)
    requires n < |es|
    ensures Run(s, es[..n + 1]) == Step(Run(s, es[..n]), es[n])
  {
    hide Step;
    RunSplit(s, es[..n + 1], n);
    var last: seq<(nat, Event)> := es[..n + 1][n..];
    assert es[..n + 1][..n] == es[..n] && |last| == 1 && last[0] == es[n];
  }

  lemma AllAreKept(threads: nat, es: seq<(nat, Event)>)
    ensures AllKept(Reached(threads, es))
  {
    hide Kept;
    forall a: nat | a < Reached(threads, es).made ensures Kept(Reached(threads, es), a) {
      NoArenaIsLost(threads, es, a);
    }
  }

  lemma PrefixOwn(s: State, s': State)
    requires Follows(s, s') && OwnTouches(s') && forall i :: 0 <= i < |s.touches| ==> s.touches[i].lease < |s.leases|
    ensures OwnTouches(s)
  {
    assert forall i :: 0 <= i < |s.touches| ==> s'.touches[i] == s.touches[i];
  }

  /** Every recorded access is to a lease there is. */
  lemma {:induction false} TouchesExist(s: State, es: seq<(nat, Event)>)
    requires Inv(s) && forall i :: 0 <= i < |s.touches| ==> s.touches[i].lease < |s.leases|
    ensures forall i :: 0 <= i < |Run(s, es).touches| ==> Run(s, es).touches[i].lease < |Run(s, es).leases|
    decreases |es|
  {
    hide Step, Inv, Access;
    if es != [] {
      AccessIs(s, es[0]);
      StepFollows(s, es[0]);
      StepKeeps(s, es[0]);
      TouchesExist(Step(s, es[0]), es[1..]);
    }
  }

  lemma {:induction false} UnmixedInTime(threads: nat, es: seq<(nat, Event)>, n: nat)
    requires n <= |es| && OwnTouches(Reached(threads, es))
    requires forall k :: 0 <= k <= |es| ==> Unmixed(Reached(threads, es[..k]))
    ensures NoneAfterClose(Reached(threads, es[..n]))
    decreases n
  {
    var s := Initial(threads);
    if n > 0 {
      var before := es[..n - 1];
      UnmixedInTime(threads, es, n - 1);
      PrefixStep(s, es, n - 1);
      ReachedInv(threads, before);
      AllAreKept(threads, es[..n]);
      InitialInv(threads);
      TouchesExist(s, es[..n]);
      PrefixTouches(s, es, n);
      PrefixOwn(Run(s, es[..n]), Run(s, es));
      StepInTime(Run(s, before), es[n - 1]);
    }
  }

  /**
    When each thread uses only the leases it got: in every prefix of a run pooled arenas are reset and leased arenas
    hold only what was written through their lease, if and only if no lease is used once its close has begun.
    */
  lemma UnmixedIff(threads: nat, es: seq<(nat, Event)>)
    requires OwnTouches(Reached(threads, es))
    ensures (forall n :: 0 <= n <= |es| ==> Unmixed(Reached(threads, es[..n]))) <==> NoneAfterClose(Reached(threads, es))
  {
    hide Unmixed, OwnTouches, Run, Initial;
    assert es[..|es|] == es;
    if forall n :: 0 <= n <= |es| ==> Unmixed(Reached(threads, es[..n])) {
      UnmixedInTime(threads, es, |es|);
    }
    if NoneAfterClose(Reached(threads, es)) {
      forall n | 0 <= n <= |es| ensures Unmixed(Reached(threads, es[..n])) {
        NoneAfterResetUnmixed(threads, es, n);
      }
    }
  }

  // ---------------------------------------------------------------- late uses, step by step

  lemma RunOfFive(s: State, es: seq<(nat, Event)>)
    requires |es| == 5
    ensures Run(s, es) == Step(Step(Step(Step(Step(s, es[0]), es[1]), es[2]), es[3]), es[4])
  {
    hide Step;
    PrefixStep(s, es, 4);
    PrefixStep(s, es, 3);
    PrefixStep(s, es, 2);
    PrefixStep(s, es, 1);
    PrefixStep(s, es, 0);
    assert es[..5] == es && es[..0] == [];
  }

  /** One lease of thread 0 on arena 0, at the given stage. */
  function Alone(threads: nat, stage: Stage, pc: Pc): State
    requires threads > 0
  {
    State([], 1, {}, [Lease(0, OfThread(0), stage, 0)], [], [pc] + seq(threads - 1, i => Idle), [], [])
  }

  lemma LeaseAndClose(threads: nat)
    requires threads > 0
    ensures Step(Initial(threads), (0, NewLease)) == Alone(threads, Open, Idle)
    ensures Step(Alone(threads, Open, Idle), (0, CloseLease(0))) == Alone(threads, Called, Closing(None, 0))
    ensures Step(Alone(threads, Called, Closing(None, 0)), (0, Continue(false))) == Alone(threads, Cleared, Closing(None, 0))
    ensures Step(Alone(threads, Cleared, Closing(None, 0)), (0, Continue(false)))
         == Alone(threads, Back, Idle).(pool := [0], leases := [Lease(0, OfThread(0), Back, 1)])
  {
    assert Initial(threads).threads == [Idle] + seq(threads - 1, i => Idle);
  }

  /** A thread that goes on using its lease after closing it: the arena in the pool is not reset. */
  lemma LateUseDirtiesPool()
    ensures var s := Reached(1, [(0, NewLease), (0, CloseLease(0)), (0, Continue(false)), (0, Continue(false)), (0, UseLease(0))]);
      OwnTouches(s) && s.pool == [0] && Mark(0, 0) in s.written
  {
    hide Initial, Run;
    var es: seq<(nat, Event)> :=
      [(0, NewLease), (0, CloseLease(0)), (0, Continue(false)), (0, Continue(false)), (0, UseLease(0))];
    RunOfFive(Initial(1), es);
    LeaseAndClose(1);
  }

  lemma UsedWhileCleared(s: State)
    requires s == Alone(2, Cleared, Closing(None, 0))
    ensures var s' := Step(Step(s, (1, UseLease(0))), (0, Continue(false))); s'.pool == [0] && Mark(0, 0) in s'.written
  {
    assert Step(s, (1, UseLease(0))) == Used(s, OfThread(1), 0);
  }

  /** Another thread that uses the lease between `arena.reset()` and `addFirst`: the same. */
  lemma RacingUseDirtiesPool()
    ensures var s := Reached(2, [(0, NewLease), (0, CloseLease(0)), (0, Continue(false)), (1, UseLease(0)), (0, Continue(false))]);
      s.pool == [0] && Mark(0, 0) in s.written
  {
    hide Initial, Run, Step, Alone;
    var es: seq<(nat, Event)> :=
      [(0, NewLease), (0, CloseLease(0)), (0, Continue(false)), (1, UseLease(0)), (0, Continue(false))];
    RunOfFive(Initial(2), es);
    LeaseAndClose(2);
    UsedWhileCleared(Alone(2, Cleared, Closing(None, 0)));
  }

  ghost predicate PoolReset(s: State) {
    forall m :: m in s.written ==> m.arena !in s.pool
  }

  /**
    The pool alone does not tell: when the arena is leased again before the late use, all pooled arenas are reset in
    every prefix, but the new lease has an arena with what was written through the old one.
    */
  lemma LateUseReachesOther(es: seq<(nat, Event)>)
    requires es == [(0, NewLease), (0, CloseLease(0)), (0, Continue(false)), (0, Continue(false)), (0, NewLease), (0, UseLease(0))]
    ensures forall n :: 0 <= n <= |es| ==> PoolReset(Reached(1, es[..n]))
    ensures var s := Reached(1, es); OwnTouches(s) && !NoneAfterClose(s) && Holds(s, 1, 0) && Mark(0, 0) in s.written
  {
    LeasedAgain(es);
    hide Reached;
    var s := Reached(1, es);
    assert s.touches[0].stage == Back;
    forall n | 0 <= n <= |es| ensures PoolReset(Reached(1, es[..n])) {
      assert n == |es| ==> es[..n] == es;
    }
  }

  lemma LeasedAgain(es: seq<(nat, Event)>)
    requires es == [(0, NewLease), (0, CloseLease(0)), (0, Continue(false)), (0, Continue(false)), (0, NewLease), (0, UseLease(0))]
    ensures forall n :: 0 <= n < |es| ==> Reached(1, es[..n]).written == {}
    ensures Reached(1, es) == TwoLeases({Mark(0, 0)}, [Touch(OfThread(0), 0, Back)])
  {
    hide Initial, Run, Step, TwoLeases;
    LeaseAndClose(1);
    LeaseAgain();
    PrefixesOfSix(Initial(1), es);
    forall n | 0 <= n < |es| ensures Reached(1, es[..n]).written == {} {
      assert n in {0, 1, 2, 3, 4, 5};
    }
  }

  lemma PrefixesOfSix(s: State, es: seq<(nat, Event)>)
    requires |es| == 6
    ensures Run(s, es[..0]) == s && Run(s, es) == Step(Run(s, es[..5]), es[5])
    ensures Run(s, es[..1]) == Step(s, es[0])
    ensures Run(s, es[..2]) == Step(Run(s, es[..1]), es[1])
    ensures Run(s, es[..3]) == Step(Run(s, es[..2]), es[2])
    ensures Run(s, es[..4]) == Step(Run(s, es[..3]), es[3])
    ensures Run(s, es[..5]) == Step(Run(s, es[..4]), es[4])
  {
    hide Run, Step;
    PrefixStep(s, es, 0);
    PrefixStep(s, es, 1);
    PrefixStep(s, es, 2);
    PrefixStep(s, es, 3);
    PrefixStep(s, es, 4);
    PrefixStep(s, es, 5);
    NoSteps(s);
    assert es[..6] == es && es[..0] == [];
  }

  /** The lease of thread 0 is back, and it has another one on the same arena. */
  function TwoLeases(written: set<Mark>, touches: seq<Touch>): State {
    State([], 1, written, [Lease(0, OfThread(0), Back, 1), Lease(0, OfThread(0), Open, 0)], [], [Idle], touches, [])
  }

  lemma LeaseAgain()
    ensures Step(Alone(1, Back, Idle).(pool := [0], leases := [Lease(0, OfThread(0), Back, 1)]), (0, NewLease)) == TwoLeases({}, [])
    ensures Step(TwoLeases({}, []), (0, UseLease(0))) == TwoLeases({Mark(0, 0)}, [Touch(OfThread(0), 0, Back)])
    ensures TwoLeases({}, []).written == {} && Initial(1).written == {}
  {
  }

  lemma NoSteps(s: State)
    ensures Run(s, []) == s
  {
  }

  // ---------------------------------------------------------------- native calls

  /** No lease that a native call reads had begun to close. */
  ghost predicate CallsOpen(s: State) {
    forall i :: 0 <= i < |s.calls| ==>
      s.calls[i].persistent == Open && (s.calls[i].ephemeral.Some? ==> s.calls[i].ephemeral.value == Open)
  }

  lemma BeginCalls(s: State, t: nat, e: Event)
    requires t < |s.threads| && Begin(s, t, e).Some?
    ensures Begin(s, t, e).value.calls == s.calls
  {
  }

  lemma ProceedCalls(s: State, t: nat, throws: bool)
    requires t < |s.threads| && Proceed(s, t, throws).Some? && !s.threads[t].Calling?
    ensures Proceed(s, t, throws).value.calls == s.calls
  {
  }

  lemma CallingOpen(s: State, t: nat, throws: bool)
    requires Inv(s) && CallsOpen(s) && t < |s.threads| && Proceed(s, t, throws).Some? && s.threads[t].Calling?
    ensures CallsOpen(Proceed(s, t, throws).value)
  {
    hide Inv, LeaseFine, ContextFine;
    ThreadIs(s, t);
  }

  lemma StepCallsOpen(s: State, e: (nat, Event))
    requires Inv(s) && CallsOpen(s)
    ensures CallsOpen(Step(s, e))
  {
    hide Inv, Begin, Proceed;
    if Next(s, e.0, e.1).Some? {
      if !e.1.Continue? {
        BeginCalls(s, e.0, e.1);
      } else if s.threads[e.0].Calling? {
        CallingOpen(s, e.0, e.1.throws);
      } else {
        ProceedCalls(s, e.0, e.1.throws);
      }
    }
  }

  lemma {:induction false} RunCallsOpen(s: State, es: seq<(nat, Event)>)
    requires Inv(s) && CallsOpen(s)
    ensures CallsOpen(Run(s, es))
    decreases |es|
  {
    hide Inv, Step, CallsOpen;
    if es != [] {
      StepKeeps(s, es[0]);
      StepCallsOpen(s, es[0]);
      RunCallsOpen(Step(s, es[0]), es[1..]);
    }
  }

  /** Whatever the interleaving, the native library is called on leases whose close has not begun. */
  lemma NativeReadsOpenLeases(threads: nat, es: seq<(nat, Event)>)
    ensures CallsOpen(Reached(threads, es))
  {
    InitialInv(threads);
    RunCallsOpen(Initial(threads), es);
  }

  // ---------------------------------------------------------------- one call from its start to its end

  /** The arena given back last is leased first. */
  lemma LastBackFirstOut(s: State, t: nat, l: nat, after: Option<nat>, owner: Owner)
    requires t < |s.threads| && l < |s.leases|
    ensures var s' := Leased(GiveBack(s, t, l, after), owner);
      s'.pool == s.pool && s'.made == s.made && s'.leases[|s.leases|].arena == s.leases[l].arena
  {
  }

  /** What a thread does on its own until it is idle, at most n steps; its serializations throw or not as given. */
  function Finish(s: State, t: nat, first: bool, second: bool, n: nat): State
    decreases n
  {
    if n == 0 || t >= |s.threads| || s.threads[t] == Idle then s
    else Finish(Step(s, (t, Continue(Throws(s.threads[t], first, second)))), t, first, second, n - 1)
  }

  function Throws(pc: Pc, first: bool, second: bool): bool {
    if pc.Persisting? then first else if pc.Encoding? then second else false
  }

  lemma FinishStep(s: State, t: nat, first: bool, second: bool, n: nat)
    requires n > 0 && t < |s.threads| && s.threads[t] != Idle
    ensures Finish(s, t, first, second, n)
         == Finish(Step(s, (t, Continue(Throws(s.threads[t], first, second)))), t, first, second, n - 1)
  {
    hide Step;
  }

  lemma Finished(s: State, t: nat, first: bool, second: bool, n: nat)
    requires t < |s.threads| && s.threads[t] == Idle
    ensures Finish(s, t, first, second, n) == s
  {
    hide Step;
  }

  /** The next step of a thread that can go on. */
  lemma Goes(s: State, t: nat, first: bool, second: bool, n: nat, s': State)
    requires n > 0 && t < |s.threads| && s.threads[t] != Idle
    requires Proceed(s, t, Throws(s.threads[t], first, second)) == Some(s')
    ensures Finish(s, t, first, second, n) == Finish(s', t, first, second, n - 1)
  {
    hide Proceed, Begin, Finish;
    FinishStep(s, t, first, second, n);
  }

  /** The end of a call: the monitor is given up. */
  lemma Release(s: State, t: nat, c: nat, first: bool, second: bool, n: nat)
    requires n >= 1 && t < |s.threads| && c < |s.contexts| && s.threads[t] == Releasing(c)
    ensures Finish(s, t, first, second, n) == Unlocked(s, t, c)
  {
    hide Finish;
    Goes(s, t, first, second, n, Unlocked(s, t, c));
    Finished(Unlocked(s, t, c), t, first, second, n - 1);
  }

  /** A lease closed and the monitor given up. */
  function Closed(s: State, t: nat, c: nat, l: nat): State
    requires t < |s.threads| && l < |s.leases| && c < |s.contexts|
  {
    var lease := s.leases[l];
    s.(pool := [lease.arena] + s.pool,
       written := (set m | m in s.written && m.arena != lease.arena),
       leases := s.leases[l := lease.(stage := Back, handed := lease.handed + 1)],
       contexts := s.contexts[c := s.contexts[c].(monitor := None)],
       threads := s.threads[t := Idle])
  }

  lemma CloseAndRelease(s: State, t: nat, c: nat, l: nat, first: bool, second: bool, n: nat)
    requires n >= 4 && t < |s.threads| && c < |s.contexts| && l < |s.leases| && s.leases[l].stage == Open
    requires s.threads[t] == Finally(c, Some(l)) || (s.threads[t] == Clearing(c) && s.contexts[c].lease == l)
    ensures Finish(s, t, first, second, n) == Closed(s, t, c, l)
  {
    hide Finish, Closed;
    var s1 := CloseCalled(s, t, l, Some(c));
    Goes(s, t, first, second, n, s1);
    var s2 := ResetArena(s1, l);
    Goes(s1, t, first, second, n - 1, s2);
    var s3 := GiveBack(s2, t, l, Some(c));
    Goes(s2, t, first, second, n - 2, s3);
    Release(s3, t, c, first, second, n - 3);
    ClosedIs(s, t, c, l);
  }

  lemma ClosedIs(s: State, t: nat, c: nat, l: nat)
    requires t < |s.threads| && c < |s.contexts| && l < |s.leases| && s.leases[l].stage == Open
    ensures Closed(s, t, c, l) ==
      Unlocked(GiveBack(ResetArena(CloseCalled(s, t, l, Some(c)), l), t, l, Some(c)), t, c)
  {
  }

  lemma NothingToClose(s: State, t: nat, c: nat, first: bool, second: bool, n: nat)
    requires n >= 2 && t < |s.threads| && c < |s.contexts| && s.threads[t] == Finally(c, None)
    ensures Finish(s, t, first, second, n)
         == s.(threads := s.threads[t := Idle], contexts := s.contexts[c := s.contexts[c].(monitor := None)])
  {
    hide Finish;
    var s1 := At(s, t, Releasing(c));
    Goes(s, t, first, second, n, s1);
    Release(s1, t, c, first, second, n - 1);
  }

  /** `close` from its start to its end: the context is offline, and its lease is back if it was online before. */
  lemma CloseEffect(s: State, t: nat, c: nat)
    requires Inv(s) && t < |s.threads| && c < |s.contexts| && s.contexts[c].monitor == None && s.threads[t] == Idle
    ensures s.contexts[c].lease < |s.leases|
    ensures Finish(Step(s, (t, StartClose(c))), t, false, false, 10) ==
      if s.contexts[c].online then Closed(s.(contexts := s.contexts[c := s.contexts[c].(online := false)]), t, c, s.contexts[c].lease)
      else s
  {
    hide Finish, Inv;
    ContextStands(s, c);
    var s' := At(s, t, Waiting(c, CloseJob));
    StepKeeps(s, (t, StartClose(c)));
    assert Step(s, (t, StartClose(c))) == s';
    CloseWaiting(s', t, c);
    var off := s.contexts[c := s.contexts[c].(online := false)];
    assert s'.threads[t := Idle] == s.threads;
    if s.contexts[c].online {
      SameClosed(s'.(contexts := off), s.(contexts := off), t, c, s.contexts[c].lease);
    }
  }

  lemma SameClosed(s: State, s': State, t: nat, c: nat, l: nat)
    requires t < |s.threads| == |s'.threads| && l < |s.leases| && c < |s.contexts|
    requires s' == s.(threads := s'.threads) && s.threads[t := Idle] == s'.threads[t := Idle]
    ensures Closed(s, t, c, l) == Closed(s', t, c, l)
  {
  }

  lemma CloseWaiting(s: State, t: nat, c: nat)
    requires Inv(s) && t < |s.threads| && c < |s.contexts| && s.contexts[c].monitor == None
    requires s.threads[t] == Waiting(c, CloseJob)
    ensures s.contexts[c].lease < |s.leases|
    ensures Finish(s, t, false, false, 10) ==
      if s.contexts[c].online then Closed(s.(contexts := s.contexts[c := s.contexts[c].(online := false)]), t, c, s.contexts[c].lease)
      else s.(threads := s.threads[t := Idle])
  {
    hide Finish, Inv;
    ContextStands(s, c);
    var s1 := Locked(s, t, c, CloseJob);
    Goes(s, t, false, false, 10, s1);
    if s.contexts[c].online {
      var s2 := Offline(s1, t, c);
      Goes(s1, t, false, false, 9, s2);
      CloseAndRelease(s2, t, c, s.contexts[c].lease, false, false, 8);
    } else {
      var s2 := At(s1, t, Releasing(c));
      Goes(s1, t, false, false, 9, s2);
      Release(s2, t, c, false, false, 8);
    }
  }

  lemma ContextStands(s: State, c: nat)
    requires Inv(s) && c < |s.contexts|
    ensures s.contexts[c].lease < |s.leases| && (s.contexts[c].online ==> s.leases[s.contexts[c].lease].stage == Open)
  {
    assert ContextFine(s, c);
    assert LeaseFine(s, s.contexts[c].lease);
  }

  /** From the native call on, without an ephemeral lease. */
  lemma CallAndRelease(s: State, t: nat, c: nat, first: bool, second: bool, n: nat)
    requires n >= 3 && t < |s.threads| && c < |s.contexts| && s.contexts[c].lease < |s.leases|
    requires s.leases[s.contexts[c].lease].stage == Open && s.threads[t] == Calling(c, None)
    ensures Finish(s, t, first, second, n)
         == s.(calls := s.calls + [NativeCall(t, c, Open, None)], threads := s.threads[t := Idle],
               contexts := s.contexts[c := s.contexts[c].(monitor := None)])
  {
    hide Finish;
    var s1 := At(NativeRun(s, t, c, None), t, Finally(c, None));
    Goes(s, t, first, second, n, s1);
    NothingToClose(s1, t, c, first, second, n - 1);
  }

  /** The arena that the next lease gets. */
  function NextArena(s: State): nat { if s.pool == [] then s.made else s.pool[0] }

  /** An ephemeral lease got, used and given back, with the native call in between unless serializing throws. */
  function EphemeralEffect(s: State, t: nat, c: nat, second: bool): State
    requires t < |s.threads| && c < |s.contexts|
  {
    var arena := NextArena(s);
    s.(pool := if s.pool == [] then [s.made] else s.pool,
       made := if s.pool == [] then s.made + 1 else s.made,
       written := (set m | m in s.written && m.arena != arena),
       leases := s.leases + [Lease(arena, OfCall(t), Back, 1)],
       contexts := s.contexts[c := s.contexts[c].(monitor := None)],
       threads := s.threads[t := Idle],
       touches := s.touches + [Touch(OfCall(t), |s.leases|, Open)],
       calls := if second then s.calls else s.calls + [NativeCall(t, c, Open, Some(Open))])
  }

  lemma LeaseAndCall(s: State, t: nat, c: nat, first: bool, second: bool, n: nat)
    requires n >= 7 && t < |s.threads| && c < |s.contexts| && s.contexts[c].lease < |s.leases|
    requires s.leases[s.contexts[c].lease].stage == Open && s.threads[t] == Leasing(c)
    ensures Finish(s, t, first, second, n) == EphemeralEffect(s, t, c, second)
  {
    hide Finish, Closed, EphemeralEffect;
    var l := |s.leases|;
    var s1 := CallLeased(s, t, c);
    Goes(s, t, first, second, n, s1);
    var s2 := At(Used(s1, OfCall(t), l), t, if second then Finally(c, Some(l)) else Calling(c, Some(l)));
    Goes(s1, t, first, second, n - 1, s2);
    if second {
      CloseAndRelease(s2, t, c, l, first, second, n - 2);
      EphemeralIs(s, t, c, second, s2);
    } else {
      var s3 := At(NativeRun(s2, t, c, Some(l)), t, Finally(c, Some(l)));
      Goes(s2, t, first, second, n - 2, s3);
      CloseAndRelease(s3, t, c, l, first, second, n - 3);
      EphemeralIs(s, t, c, second, s3);
    }
  }

  lemma EphemeralIs(s: State, t: nat, c: nat, second: bool, s': State)
    requires t < |s.threads| && c < |s.contexts| && |s'.threads| == |s.threads| && |s'.leases| == |s.leases| + 1
    requires var u := Used(Leased(s, OfCall(t)), OfCall(t), |s.leases|);
      && s'.pool == u.pool && s'.made == u.made && s'.written == u.written && s'.leases == u.leases && s'.touches == u.touches
      && s'.contexts == s.contexts && s'.threads[t := Idle] == s.threads[t := Idle]
      && s'.calls == if second then s.calls else s.calls + [NativeCall(t, c, Open, Some(Open))]
    ensures Closed(s', t, c, |s.leases|) == EphemeralEffect(s, t, c, second)
  {
    var l, arena := |s.leases|, NextArena(s);
    assert s'.leases == s.leases + [Lease(arena, OfCall(t), Open, 0)];
    assert s'.leases[l := Lease(arena, OfCall(t), Back, 1)] == s.leases + [Lease(arena, OfCall(t), Back, 1)];
    assert [arena] + s'.pool == if s.pool == [] then [s.made] else s.pool;
  }

  /**
    What a call of `run` does from its start to its end: it serializes on the context's lease if there are persistent
    data; then, unless that throws, on an ephemeral lease of its own if there are ephemeral data; then, unless that
    throws, it calls the native library; the ephemeral lease is back in the end.
    */
  function RunEffect(s: State, t: nat, c: nat, persistent: bool, ephemeral: bool, first: bool, second: bool): State
    requires t < |s.threads| && c < |s.contexts| && s.contexts[c].lease < |s.leases|
  {
    var l := s.contexts[c].lease;
    var u := if persistent then
               s.(written := s.written + {Mark(s.leases[l].arena, l)}, touches := s.touches + [Touch(OfContext(c), l, Open)])
             else s;
    if persistent && first then u.(threads := u.threads[t := Idle])
    else if ephemeral then EphemeralEffect(u, t, c, second)
    else u.(calls := u.calls + [NativeCall(t, c, Open, None)], threads := u.threads[t := Idle])
  }

  /** A call of `run` on a context that is online, with no one inside it, has that effect. */
  lemma WholeRun(s: State, t: nat, c: nat, persistent: bool, ephemeral: bool, first: bool, second: bool)
    requires Inv(s) && t < |s.threads| && c < |s.contexts| && s.contexts[c].monitor == None && s.contexts[c].online
    requires s.threads[t] == Idle
    ensures s.contexts[c].lease < |s.leases|
    ensures Finish(Step(s, (t, StartRun(c, persistent, ephemeral))), t, first, second, 10)
         == RunEffect(s, t, c, persistent, ephemeral, first, second)
  {
    hide Finish, Inv, EphemeralEffect;
    ContextStands(s, c);
    var s' := At(s, t, Waiting(c, RunJob(persistent, ephemeral)));
    StepKeeps(s, (t, StartRun(c, persistent, ephemeral)));
    assert Step(s, (t, StartRun(c, persistent, ephemeral))) == s';
    RunWaiting(s', t, c, persistent, ephemeral, first, second);
    assert s'.threads[t := Idle] == s.threads;
    SameRun(s', s, t, c, persistent, ephemeral, first, second);
  }

  lemma SameRun(s: State, s': State, t: nat, c: nat, persistent: bool, ephemeral: bool, first: bool, second: bool)
    requires t < |s.threads| == |s'.threads| && c < |s.contexts| && s.contexts[c].lease < |s.leases|
    requires s' == s.(threads := s'.threads) && s.threads[t := Idle] == s'.threads[t := Idle]
    ensures RunEffect(s, t, c, persistent, ephemeral, first, second) == RunEffect(s', t, c, persistent, ephemeral, first, second)
  {
  }

  lemma RunWaiting(s: State, t: nat, c: nat, persistent: bool, ephemeral: bool, first: bool, second: bool)
    requires Inv(s) && t < |s.threads| && c < |s.contexts| && s.contexts[c].monitor == None && s.contexts[c].online
    requires s.threads[t] == Waiting(c, RunJob(persistent, ephemeral))
    ensures s.contexts[c].lease < |s.leases|
    ensures Finish(s, t, first, second, 10) == RunEffect(s, t, c, persistent, ephemeral, first, second)
  {
    hide Finish, Inv, EphemeralEffect;
    ContextStands(s, c);
    var job := RunJob(persistent, ephemeral);
    var s1 := Locked(s, t, c, job);
    Goes(s, t, first, second, 10, s1);
    var s2 := At(s1, t, Checked(job, c));
    Goes(s1, t, first, second, 9, s2);
    var l := s.contexts[c].lease;
    if persistent {
      var s3 := At(Used(s2, OfContext(c), l), t,
                   if first then Finally(c, None) else if ephemeral then Leasing(c) else Calling(c, None));
      Goes(s2, t, first, second, 8, s3);
      RestOfRun(s, s3, t, c, persistent, ephemeral, first, second, 7);
    } else {
      RestOfRun(s, s2, t, c, persistent, ephemeral, first, second, 8);
    }
  }

  /** The rest of the call, after the serialization on the context's lease if there is one. */
  lemma RestOfRun(s: State, s': State, t: nat, c: nat, persistent: bool, ephemeral: bool, first: bool, second: bool, n: nat)
    requires n >= 7 && t < |s.threads| && c < |s.contexts| && s.contexts[c].lease < |s.leases|
    requires s.contexts[c].monitor == None && s.leases[s.contexts[c].lease].stage == Open
    requires var l := s.contexts[c].lease;
      && s'.pool == s.pool && s'.made == s.made && s'.leases == s.leases && s'.calls == s.calls
      && s'.contexts == s.contexts[c := s.contexts[c].(monitor := Some(t))]
      && s'.written == (if persistent then s.written + {Mark(s.leases[l].arena, l)} else s.written)
      && s'.touches == (if persistent then s.touches + [Touch(OfContext(c), l, Open)] else s.touches)
      && s'.threads == s.threads[t := if persistent && first then Finally(c, None)
                                      else if ephemeral then Leasing(c) else Calling(c, None)]
    ensures Finish(s', t, first, second, n) == RunEffect(s, t, c, persistent, ephemeral, first, second)
  {
    hide Finish;
    var unlocked := s'.contexts[c := s'.contexts[c].(monitor := None)];
    assert unlocked == s.contexts && s.contexts[c := s.contexts[c].(monitor := None)] == s.contexts;
    if persistent && first {
      NothingToClose(s', t, c, first, second, n);
    } else if ephemeral {
      LeaseAndCall(s', t, c, first, second, n);
    } else {
      CallAndRelease(s', t, c, first, second, n);
    }
  }

  /** A new context is online, and has a lease of its own that is open. */
  lemma NewContextEffect(s: State, t: nat)
    requires t < |s.threads| && s.threads[t] == Idle
    ensures Step(s, (t, NewContext)) ==
      s.(pool := if s.pool == [] then [] else s.pool[1..],
         made := if s.pool == [] then s.made + 1 else s.made,
         leases := s.leases + [Lease(NextArena(s), OfContext(|s.contexts|), Open, 0)],
         contexts := s.contexts + [Context(true, |s.leases|, None)])
  {
  }

  /** `run` on a context that is offline does nothing but throw. */
  lemma RunOffline(s: State, t: nat, c: nat, persistent: bool, ephemeral: bool)
    requires Inv(s) && t < |s.threads| && c < |s.contexts| && s.contexts[c].monitor == None && !s.contexts[c].online
    requires s.threads[t] == Idle
    ensures Finish(Step(s, (t, StartRun(c, persistent, ephemeral))), t, false, false, 10) == s
  {
    hide Finish, Inv;
    var job := RunJob(persistent, ephemeral);
    var s0 := At(s, t, Waiting(c, job));
    assert Step(s, (t, StartRun(c, persistent, ephemeral))) == s0;
    var s1 := Locked(s0, t, c, job);
    Goes(s0, t, false, false, 10, s1);
    var s2 := At(s1, t, Releasing(c));
    Goes(s1, t, false, false, 9, s2);
    Release(s2, t, c, false, false, 8);
    assert s.threads[t := Idle] == s.threads && s.contexts[c := s.contexts[c].(monitor := None)] == s.contexts;
  }
}
