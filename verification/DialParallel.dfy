/** dialParallel of internal/dial/dial.go as a transition system over all interleavings of its
    goroutines: the spawner, one dialer per address, the closer and the caller. Timers, dial results
    and the caller's context are nondeterministic. */
module DialParallel {
  import opened Collections

  /** A dialer: not started; dialing; about to close currFailed; about to send its error; holding an
      open connection; having handed it over, about to cancel; finished. */
  datatype DialerPc = Idle | Dialing | Erring | SendingErr | Holding | Cancelling | Finished

  /** The loop over the addresses: waiting before address i, or about to start it. */
  datatype SpawnerPc = Waiting(i: nat) | Starting(i: nat) | Spawned

  /** The goroutine that waits for all the others, closes both channels and drains connCh. */
  datatype CloserPc = AwaitAll | CloseErrs | Draining | Closed

  datatype Outcome = Conn(c: nat) | CtxError | Errors(count: nat)

  datatype MainPc = Selecting | CheckingCtx | Collecting(count: nat) | Returning(o: Outcome) | Returned(o: Outcome)

  datatype Slot = Empty | Full(c: nat)

  datatype State = State(
    ctxDone: bool,           // the caller's context
    cancelled: bool,         // the derived context, by cancel()
    spawner: SpawnerPc,
    dialers: seq<DialerPc>,
    closer: CloserPc,
    main: MainPc,
    buffer: Slot,            // connCh, capacity 1
    connClosed: bool,
    errs: nat,               // errCh, capacity |dialers|
    errClosed: bool,
    prevFailed: set<nat>,    // closed currFailed channels
    conns: set<nat>,        // connections ever opened, named by their dialer
    closes: map<nat, nat>,   // how often each connection was closed
    sentErr: set<nat>)       // dialers that sent an error

  function Init(n: nat): State {
    State(false, false, Starting(0), seq(n, _ => Idle), AwaitAll, Selecting, Empty, false, 0, false, {}, {}, map[], {})
  }

  datatype SpawnerAct = TimerFires | PrevFailedSeen | SpawnerStops | StartDial

  datatype DialerAct = DialSucceeds | DialFails | CloseFailed | SendErr | Offer | Cancel

  datatype CloserAct = CloseConnCh | CloseErrCh | Drain

  datatype MainAct = Receive | ReceiveClosed | SeeCtx | CheckCtx | Collect | Return

  datatype Action =
    | CtxEnds
    | Spawner(sa: SpawnerAct)
    | Dialer(d: nat, da: DialerAct)
    | Closer(ca: CloserAct)
    | Main(ma: MainAct)

  function Count(closes: map<nat, nat>, c: nat): nat {
    if c in closes then closes[c] else 0
  }

  function Bump(closes: map<nat, nat>, c: nat): map<nat, nat> {
    closes[c := Count(closes, c) + 1]
  }

  predicate DialCtxDone(s: State) {
    s.ctxDone || s.cancelled
  }

  predicate Quiet(p: DialerPc) {
    p == Idle || p == Finished
  }

  predicate DialerAt(s: State, d: nat, p: DialerPc) {
    d < |s.dialers| && s.dialers[d] == p
  }

  function Move(s: State, d: nat, p: DialerPc): State
    requires d < |s.dialers|
  {
    s.(dialers := s.dialers[d := p])
  }

  predicate SpawnerCan(s: State, a: SpawnerAct) {
    match a
    case TimerFires => s.spawner.Waiting?
    case PrevFailedSeen => s.spawner.Waiting? && s.spawner.i > 0 && s.spawner.i - 1 in s.prevFailed
    case SpawnerStops => s.spawner.Waiting? && DialCtxDone(s)
    case StartDial => s.spawner.Starting?
  }

  function SpawnerStep(s: State, a: SpawnerAct): State
    requires SpawnerCan(s, a)
  {
    match a
    case TimerFires => s.(spawner := Starting(s.spawner.i))
    case PrevFailedSeen => s.(spawner := Starting(s.spawner.i))
    case SpawnerStops => s.(spawner := Spawned)
    case StartDial =>
      var i := s.spawner.i;
      if i >= |s.dialers| || DialCtxDone(s) then s.(spawner := Spawned)
      else Move(s, i, Dialing).(spawner := if i + 1 < |s.dialers| then Waiting(i + 1) else Spawned)
  }

  predicate DialerCan(s: State, d: nat, a: DialerAct) {
    match a
    case DialSucceeds => DialerAt(s, d, Dialing)
    case DialFails => DialerAt(s, d, Dialing)
    case CloseFailed => DialerAt(s, d, Erring)
    case SendErr => DialerAt(s, d, SendingErr) && s.errs < |s.dialers|
    case Offer => DialerAt(s, d, Holding)
    case Cancel => DialerAt(s, d, Cancelling)
  }

  function DialerStep(s: State, d: nat, a: DialerAct): State
    requires DialerCan(s, d, a)
  {
    match a
    case DialSucceeds => Move(s, d, Holding).(conns := s.conns + {d})
    case DialFails => Move(s, d, Erring)
    case CloseFailed => Move(s, d, SendingErr).(prevFailed := s.prevFailed + {d})
    case SendErr => Move(s, d, Finished).(errs := s.errs + 1, sentErr := s.sentErr + {d})
    case Offer =>
      if s.buffer == Empty then Move(s, d, Cancelling).(buffer := Full(d))
      else Move(s, d, Finished).(closes := Bump(s.closes, d))
    case Cancel => Move(s, d, Finished).(cancelled := true)
  }

  predicate AllQuiet(s: State) {
    s.spawner == Spawned && forall d :: 0 <= d < |s.dialers| ==> Quiet(s.dialers[d])
  }

  predicate CloserCan(s: State, a: CloserAct) {
    match a
    case CloseConnCh => s.closer == AwaitAll && AllQuiet(s)
    case CloseErrCh => s.closer == CloseErrs
    case Drain => s.closer == Draining
  }

  function CloserStep(s: State, a: CloserAct): State
    requires CloserCan(s, a)
  {
    match a
    case CloseConnCh => s.(connClosed := true, closer := CloseErrs)
    case CloseErrCh => s.(errClosed := true, closer := Draining)
    case Drain =>
      if s.buffer.Full? then s.(closes := Bump(s.closes, s.buffer.c), buffer := Empty)
      else s.(closer := Closed)
  }

  predicate MainCan(s: State, a: MainAct) {
    match a
    case Receive => s.main == Selecting && s.buffer.Full?
    case ReceiveClosed => s.main == Selecting && s.buffer == Empty && s.connClosed
    case SeeCtx => s.main == Selecting && s.ctxDone
    case CheckCtx => s.main == CheckingCtx
    case Collect => s.main.Collecting? && (s.errs > 0 || s.errClosed)
    case Return => s.main.Returning?
  }

  function MainStep(s: State, a: MainAct): State
    requires MainCan(s, a)
  {
    match a
    case Receive => s.(main := Returning(Conn(s.buffer.c)), buffer := Empty)
    case ReceiveClosed => s.(main := CheckingCtx)
    case SeeCtx => s.(main := Returning(CtxError))
    case CheckCtx => s.(main := if s.ctxDone then Returning(CtxError) else Collecting(0))
    case Collect =>
      if s.errs > 0 then s.(errs := s.errs - 1, main := Collecting(s.main.count + 1))
      else s.(main := Returning(Errors(s.main.count)))
    case Return => s.(main := Returned(s.main.o), cancelled := true)
  }

  predicate Enabled(s: State, a: Action) {
    match a
    case CtxEnds => !s.ctxDone
    case Spawner(sa) => SpawnerCan(s, sa)
    case Dialer(d, da) => DialerCan(s, d, da)
    case Closer(ca) => CloserCan(s, ca)
    case Main(ma) => MainCan(s, ma)
  }

  function Apply(s: State, a: Action): State
    requires Enabled(s, a)
  {
    match a
    case CtxEnds => s.(ctxDone := true)
    case Spawner(sa) => SpawnerStep(s, sa)
    case Dialer(d, da) => DialerStep(s, d, da)
    case Closer(ca) => CloserStep(s, ca)
    case Main(ma) => MainStep(s, ma)
  }

  /** The states after each of a list of steps. */
  ghost predicate Run(n: nat, acts: seq<Action>, states: seq<State>) {
    && |states| == |acts| + 1 && states[0] == Init(n)
    && forall k :: 0 <= k < |acts| ==> Enabled(states[k], acts[k]) && states[k + 1] == Apply(states[k], acts[k])
  }

  ghost predicate Reachable(n: nat, s: State) {
    exists acts, states :: Run(n, acts, states) && states[|acts|] == s
  }

  // ---- The invariant -------------------------------------------------------------------------

  predicate HandedOut(s: State, c: nat) {
    (s.main.Returning? || s.main.Returned?) && s.main.o == Conn(c)
  }

  function One(b: bool): nat {
    if b then 1 else 0
  }

  /** Connection c is nowhere if it was never opened, else in exactly one place. */
  ghost predicate PlaceOk(s: State, c: nat) {
    var held, buffered := DialerAt(s, c, Holding), s.buffer == Full(c);
    var out, closes := HandedOut(s, c), Count(s.closes, c);
    if c !in s.conns then !held && !buffered && !out && closes == 0
    else if held then !buffered && !out && closes == 0
    else if buffered then !out && closes == 0
    else if out then closes == 0
    else closes == 1
  }

  ghost predicate Conserved(s: State) {
    forall c: nat :: PlaceOk(s, c)
  }

  function Collected(s: State): nat {
    match s.main
    case Collecting(k) => k
    case Returning(Errors(k)) => k
    case Returned(Errors(k)) => k
    case _ => 0
  }

  function NextAddr(s: State): nat {
    match s.spawner
    case Waiting(i) => i
    case Starting(i) => i
    case Spawned => |s.dialers|
  }

  ghost predicate DialersOk(s: State) {
    (forall d: nat :: DialerOk(s, d)) && s.errs + Collected(s) == |s.sentErr|
  }

  /** Both channels are closed only when nobody sends any more. */
  ghost predicate ChannelsOk(s: State) {
    && (s.connClosed <==> s.closer != AwaitAll)
    && (s.errClosed <==> s.closer in {Draining, Closed})
    && (s.closer != AwaitAll ==> AllQuiet(s))
    && (s.closer == Closed ==> s.buffer == Empty)
    && (s.main.CheckingCtx? || s.main.Collecting? ==> s.connClosed && s.buffer == Empty)
    && ((s.main.Returning? || s.main.Returned?) && s.main.o.Errors? ==>
          s.connClosed && s.errClosed && s.errs == 0)
  }

  ghost predicate Inv(s: State) {
    Conserved(s) && DialersOk(s) && ChannelsOk(s)
  }

  lemma InitInv(n: nat)
    ensures Inv(Init(n))
  {
  }

  /** Each step moves a connection from at most one place to another. */
  lemma DialerPlaces(s: State, d: nat, a: DialerAct, c: nat)
    requires DialerCan(s, d, a) && PlaceOk(s, c)
    requires a.DialSucceeds? ==> d !in s.conns
    ensures PlaceOk(DialerStep(s, d, a), c)
  {
  }

  lemma SpawnerPlaces(s: State, a: SpawnerAct, c: nat)
    requires SpawnerCan(s, a) && PlaceOk(s, c)
    requires NextAddr(s) < |s.dialers| ==> s.dialers[NextAddr(s)] == Idle
    ensures PlaceOk(SpawnerStep(s, a), c)
  {
  }

  lemma CloserPlaces(s: State, a: CloserAct, c: nat)
    requires CloserCan(s, a) && PlaceOk(s, c)
    ensures PlaceOk(CloserStep(s, a), c)
  {
  }

  lemma MainPlaces(s: State, a: MainAct, c: nat)
    requires MainCan(s, a) && PlaceOk(s, c)
    ensures PlaceOk(MainStep(s, a), c)
  {
  }

  lemma StepPlaces(s: State, a: Action, c: nat)
    requires Inv(s) && Enabled(s, a)
    ensures PlaceOk(Apply(s, a), c)
  {
    assert PlaceOk(s, c);
    match a
    case CtxEnds =>
    case Spawner(sa) =>
      assert DialerOk(s, NextAddr(s));
      SpawnerPlaces(s, sa, c);
    case Dialer(d, da) =>
      assert DialerOk(s, d);
      DialerPlaces(s, d, da, c);
    case Closer(ca) => CloserPlaces(s, ca, c);
    case Main(ma) => MainPlaces(s, ma, c);
  }

  lemma StepConserves(s: State, a: Action)
    requires Inv(s) && Enabled(s, a)
    ensures Conserved(Apply(s, a))
  {
    forall c: nat
      ensures PlaceOk(Apply(s, a), c)
    {
      StepPlaces(s, a, c);
    }
  }

  ghost predicate DialerOk(s: State, d: nat) {
    && (d in s.conns ==> d < |s.dialers|)
    && (d in s.sentErr ==> d < |s.dialers|)
    && (d < |s.dialers| ==>
          && (d in s.conns <==> s.dialers[d] in {Holding, Cancelling} || (s.dialers[d] == Finished && d !in s.sentErr))
          && (d in s.sentErr ==> s.dialers[d] == Finished)
          && (NextAddr(s) <= d ==> s.dialers[d] == Idle))
  }

  lemma DialerStepOk(s: State, e: nat, a: DialerAct, d: nat)
    requires DialerCan(s, e, a) && DialerOk(s, d)
    ensures DialerOk(DialerStep(s, e, a), d)
  {
  }

  lemma SpawnerStepOk(s: State, a: SpawnerAct, d: nat)
    requires SpawnerCan(s, a) && DialerOk(s, d)
    ensures DialerOk(SpawnerStep(s, a), d)
  {
  }

  /** The other goroutines leave dialers, spawner and their bookkeeping alone. */
  lemma OtherStepOk(s: State, a: Action, d: nat)
    requires Enabled(s, a) && (a.Closer? || a.Main? || a.CtxEnds?) && DialerOk(s, d)
    ensures DialerOk(Apply(s, a), d)
  {
    var s' := Apply(s, a);
    assert s'.dialers == s.dialers && s'.spawner == s.spawner && s'.conns == s.conns && s'.sentErr == s.sentErr;
  }

  lemma StepDialersOk(s: State, a: Action)
    requires Inv(s) && Enabled(s, a)
    ensures DialersOk(Apply(s, a))
  {
    forall d: nat
      ensures DialerOk(Apply(s, a), d)
    {
      assert DialerOk(s, d);
      if a.Dialer? {
        DialerStepOk(s, a.d, a.da, d);
      } else if a.Spawner? {
        SpawnerStepOk(s, a.sa, d);
      } else {
        OtherStepOk(s, a, d);
      }
    }
    if a.Dialer? {
      assert DialerOk(s, a.d);
    }
    SentErrors(s, a);
  }

  lemma SentErrors(s: State, a: Action)
    requires Enabled(s, a) && s.errs + Collected(s) == |s.sentErr|
    requires ChannelsOk(s) && (a.Dialer? ==> DialerOk(s, a.d))
    ensures Apply(s, a).errs + Collected(Apply(s, a)) == |Apply(s, a).sentErr|
  {
    match a
    case CtxEnds =>
    case Spawner(sa) =>
    case Dialer(d, da) => DialerSentErrors(s, d, da);
    case Closer(ca) =>
    case Main(ma) => MainSentErrors(s, ma);
  }

  lemma DialerSentErrors(s: State, d: nat, a: DialerAct)
    requires DialerCan(s, d, a) && DialerOk(s, d)
    ensures DialerStep(s, d, a).errs - s.errs == |DialerStep(s, d, a).sentErr| - |s.sentErr|
    ensures DialerStep(s, d, a).main == s.main
  {
    if a.SendErr? {
      assert d !in s.sentErr;
    } else {
      assert DialerStep(s, d, a).errs == s.errs && DialerStep(s, d, a).sentErr == s.sentErr;
    }
  }

  lemma MainSentErrors(s: State, a: MainAct)
    requires MainCan(s, a) && ChannelsOk(s)
    ensures MainStep(s, a).errs + Collected(MainStep(s, a)) == s.errs + Collected(s)
    ensures MainStep(s, a).sentErr == s.sentErr
  {
  }

  lemma StepChannelsOk(s: State, a: Action)
    requires ChannelsOk(s) && Enabled(s, a)
    ensures ChannelsOk(Apply(s, a))
  {
    match a
    case CtxEnds =>
    case Spawner(sa) =>
    case Dialer(d, da) => DialerChannelsOk(s, d, da);
    case Closer(ca) =>
    case Main(ma) => MainChannelsOk(s, ma);
  }

  lemma DialerChannelsOk(s: State, d: nat, a: DialerAct)
    requires ChannelsOk(s) && DialerCan(s, d, a)
    ensures ChannelsOk(DialerStep(s, d, a))
  {
  }

  lemma MainChannelsOk(s: State, a: MainAct)
    requires ChannelsOk(s) && MainCan(s, a)
    ensures ChannelsOk(MainStep(s, a))
  {
  }

  lemma StepInv(s: State, a: Action)
    requires Inv(s) && Enabled(s, a)
    ensures Inv(Apply(s, a)) && |Apply(s, a).dialers| == |s.dialers|
  {
    StepConserves(s, a);
    StepDialersOk(s, a);
    StepChannelsOk(s, a);
  }

  lemma {:induction false} RunInv(n: nat, acts: seq<Action>, states: seq<State>, k: nat)
    requires Run(n, acts, states) && k <= |acts|
    ensures Inv(states[k]) && |states[k].dialers| == n
  {
    if k == 0 {
      InitInv(n);
    } else {
      RunInv(n, acts, states, k - 1);
      StepInv(states[k - 1], acts[k - 1]);
    }
  }

  lemma ReachableInv(n: nat, s: State)
    requires Reachable(n, s)
    ensures Inv(s) && |s.dialers| == n
  {
    var acts, states :| Run(n, acts, states) && states[|acts|] == s;
    RunInv(n, acts, states, |acts|);
  }

  // ---- Main results ----------------------------------------------------------------------------

  /** In every reachable state each connection ever opened is in exactly one place: held by its
      dialer, in the channel, with the caller, or closed once. */
  lemma ConnectionsConserved(n: nat, s: State, c: nat)
    requires Reachable(n, s)
    ensures One(DialerAt(s, c, Holding)) + One(s.buffer == Full(c)) + One(HandedOut(s, c)) + Count(s.closes, c) ==
            if c in s.conns then 1 else 0
  {
    ReachableInv(n, s);
    assert PlaceOk(s, c);
  }

  /** No goroutine sends on a closed channel, and no send of an error has to wait for room. */
  lemma SendsAreSafe(n: nat, s: State, d: nat)
    requires Reachable(n, s) && d < n
    ensures DialerAt(s, d, Holding) ==> !s.connClosed
    ensures DialerAt(s, d, SendingErr) ==> !s.errClosed && s.errs < n
  {
    ReachableInv(n, s);
    if DialerAt(s, d, SendingErr) {
      assert DialerOk(s, d);
      ErrorsFit(s, d);
    }
  }

  lemma ErrorsFit(s: State, d: nat)
    requires Inv(s) && d < |s.dialers| && d !in s.sentErr
    ensures s.errs < |s.dialers|
  {
    var all := Below(|s.dialers|);
    forall i | i in s.sentErr ensures i in all {
      assert DialerOk(s, i);
    }
    SubsetSize(s.sentErr, all - {d});
  }

  ghost function Below(n: nat): (r: set<nat>)
    ensures |r| == n && forall i: nat :: i in r <==> i < n
  {
    if n == 0 then {} else Below(n - 1) + {n - 1}
  }

  predicate Terminal(s: State) {
    && s.spawner == Spawned && s.closer == Closed && s.main.Returned?
    && forall d :: 0 <= d < |s.dialers| ==> Quiet(s.dialers[d])
  }

  /** A dialer that has not finished can always move on. */
  lemma DialerMoves(s: State, d: nat) returns (a: Action)
    requires Inv(s) && d < |s.dialers| && !Quiet(s.dialers[d])
    ensures Enabled(s, a) && !a.CtxEnds?
  {
    match s.dialers[d]
    case Dialing => a := Dialer(d, DialFails);
    case Erring => a := Dialer(d, CloseFailed);
    case SendingErr =>
      assert DialerOk(s, d);
      ErrorsFit(s, d);
      a := Dialer(d, SendErr);
    case Holding => a := Dialer(d, Offer);
    case Cancelling => a := Dialer(d, Cancel);
  }

  /** No deadlock: until everything has finished, some goroutine can move without outside help. */
  lemma SomeoneMoves(s: State) returns (a: Action)
    requires Inv(s) && !Terminal(s)
    ensures Enabled(s, a) && !a.CtxEnds?
  {
    if s.spawner.Waiting? {
      a := Spawner(TimerFires);
    } else if s.spawner.Starting? {
      a := Spawner(StartDial);
    } else if exists d :: 0 <= d < |s.dialers| && !Quiet(s.dialers[d]) {
      var d :| 0 <= d < |s.dialers| && !Quiet(s.dialers[d]);
      a := DialerMoves(s, d);
    } else if s.closer == AwaitAll {
      a := Closer(CloseConnCh);
    } else if s.closer == CloseErrs {
      a := Closer(CloseErrCh);
    } else if s.closer == Draining {
      a := Closer(Drain);
    } else if s.main == Selecting {
      a := Main(ReceiveClosed);
    } else if s.main == CheckingCtx {
      a := Main(CheckCtx);
    } else if s.main.Collecting? {
      a := Main(Collect);
    } else {
      a := Main(Return);
    }
  }

  // ---- Termination ---------------------------------------------------------------------------

  function DialerRank(p: DialerPc): nat {
    match p
    case Idle => 6
    case Dialing => 5
    case Erring => 4
    case SendingErr => 3
    case Holding => 4
    case Cancelling => 1
    case Finished => 0
  }

  function SumRanks(ds: seq<DialerPc>): nat {
    if ds == [] then 0 else DialerRank(ds[0]) + SumRanks(ds[1..])
  }

  function SpawnerRank(s: State): nat {
    match s.spawner
    case Waiting(i) => if i <= |s.dialers| then 2 * (|s.dialers| - i) + 2 else 2
    case Starting(i) => if i <= |s.dialers| then 2 * (|s.dialers| - i) + 1 else 1
    case Spawned => 0
  }

  function CloserRank(p: CloserPc): nat {
    match p
    case AwaitAll => 3
    case CloseErrs => 2
    case Draining => 1
    case Closed => 0
  }

  function MainRank(p: MainPc): nat {
    match p
    case Selecting => 4
    case CheckingCtx => 3
    case Collecting(_) => 2
    case Returning(_) => 1
    case Returned(_) => 0
  }

  function Rank(s: State): nat {
    One(!s.ctxDone) + SpawnerRank(s) + SumRanks(s.dialers) + CloserRank(s.closer) + MainRank(s.main) +
    One(s.buffer.Full?) + s.errs
  }

  lemma {:induction false} SumAfterMove(ds: seq<DialerPc>, d: nat, p: DialerPc)
    requires d < |ds|
    ensures SumRanks(ds[d := p]) + DialerRank(ds[d]) == SumRanks(ds) + DialerRank(p)
  {
    if d == 0 {
      assert ds[d := p][1..] == ds[1..];
    } else {
      SumAfterMove(ds[1..], d - 1, p);
      assert ds[d := p][1..] == ds[1..][d - 1 := p];
    }
  }

  /** What one dialer step does to the parts that are ranked. */
  lemma DialerStepLocal(s: State, d: nat, a: DialerAct)
    requires DialerCan(s, d, a)
    ensures var s' := DialerStep(s, d, a);
            && d < |s.dialers| == |s'.dialers| && s'.dialers == s.dialers[d := s'.dialers[d]]
            && s'.ctxDone == s.ctxDone && s'.spawner == s.spawner && s'.closer == s.closer && s'.main == s.main
            && DialerRank(s'.dialers[d]) + s'.errs + One(s'.buffer.Full?) <
               DialerRank(s.dialers[d]) + s.errs + One(s.buffer.Full?)
  {
  }

  lemma DialerStepDecreases(s: State, d: nat, a: DialerAct)
    requires DialerCan(s, d, a)
    ensures Rank(DialerStep(s, d, a)) < Rank(s)
  {
    DialerStepLocal(s, d, a);
    SumAfterMove(s.dialers, d, DialerStep(s, d, a).dialers[d]);
  }

  lemma CloserStepDecreases(s: State, a: CloserAct)
    requires CloserCan(s, a)
    ensures Rank(CloserStep(s, a)) < Rank(s)
  {
  }

  lemma MainStepDecreases(s: State, a: MainAct)
    requires MainCan(s, a)
    ensures Rank(MainStep(s, a)) < Rank(s)
  {
  }

  lemma SpawnerStepDecreases(s: State, a: SpawnerAct)
    requires SpawnerCan(s, a) && (NextAddr(s) < |s.dialers| ==> s.dialers[NextAddr(s)] == Idle)
    ensures Rank(SpawnerStep(s, a)) < Rank(s)
  {
    if NextAddr(s) < |s.dialers| {
      SumAfterMove(s.dialers, NextAddr(s), Dialing);
    }
  }

  /** Every step uses up some of a finite budget, so every run ends, and by SomeoneMoves it ends with
      all goroutines finished. */
  lemma StepDecreasesRank(s: State, a: Action)
    requires Inv(s) && Enabled(s, a)
    ensures Rank(Apply(s, a)) < Rank(s)
  {
    match a
    case CtxEnds =>
    case Spawner(sa) =>
      assert DialerOk(s, NextAddr(s));
      SpawnerStepDecreases(s, sa);
    case Dialer(d, da) => DialerStepDecreases(s, d, da);
    case Closer(ca) => CloserStepDecreases(s, ca);
    case Main(ma) => MainStepDecreases(s, ma);
  }

  lemma RankFalls(n: nat, acts: seq<Action>, states: seq<State>, k: nat)
    requires Run(n, acts, states) && k < |acts|
    ensures Rank(states[k + 1]) < Rank(states[k])
  {
    RunInv(n, acts, states, k);
    StepDecreasesRank(states[k], acts[k]);
  }

  lemma {:induction false} Falling(ranks: seq<nat>, k: nat)
    requires k < |ranks| && forall i :: 0 <= i < |ranks| - 1 ==> ranks[i + 1] < ranks[i]
    ensures k + ranks[k] <= ranks[0]
  {
    if k > 0 {
      Falling(ranks, k - 1);
      assert ranks[k - 1 + 1] < ranks[k - 1];
    }
  }

  lemma RunIsShort(n: nat, acts: seq<Action>, states: seq<State>, k: nat)
    requires Run(n, acts, states) && k <= |acts|
    ensures k + Rank(states[k]) <= Rank(Init(n))
  {
    var ranks: seq<nat> := seq(|states|, i requires 0 <= i < |states| => Rank(states[i]));
    forall i | 0 <= i < |ranks| - 1 ensures ranks[i + 1] < ranks[i] {
      RankFalls(n, acts, states, i);
    }
    Falling(ranks, k);
  }

  /** When all is over, each connection ever opened was either returned or closed, once. */
  lemma NothingLeaks(n: nat, s: State, c: nat)
    requires Reachable(n, s) && Terminal(s) && c in s.conns
    ensures if s.main.o == Conn(c) then Count(s.closes, c) == 0 else Count(s.closes, c) == 1
  {
    ReachableInv(n, s);
    assert PlaceOk(s, c);
    assert DialerOk(s, c);
  }

  // ---- Errors --------------------------------------------------------------------------------

  predicate Failing(m: MainPc) {
    m.Collecting? || ((m.Returning? || m.Returned?) && m.o.Errors?)
  }

  /** While nobody gave up and nothing opened, the spawner skips no address; a caller that collects
      errors without a connection in sight has seen every dial finish. */
  ghost predicate TurnsOk(s: State) {
    && (s.cancelled ==> s.conns != {} || s.main.Returned?)
    && (!s.ctxDone && s.conns == {} && !s.main.Returned? ==>
          forall d :: 0 <= d < |s.dialers| && d < NextAddr(s) ==> s.dialers[d] != Idle)
    && (s.conns == {} && Failing(s.main) ==> forall d :: 0 <= d < |s.dialers| ==> s.dialers[d] == Finished)
  }

  lemma StepTurns(s: State, a: Action)
    requires Inv(s) && TurnsOk(s) && Enabled(s, a)
    ensures TurnsOk(Apply(s, a))
  {
    match a
    case CtxEnds =>
    case Spawner(sa) => SpawnerTurns(s, sa);
    case Dialer(d, da) => DialerTurns(s, d, da);
    case Closer(ca) =>
    case Main(ma) => MainTurns(s, ma);
  }

  lemma SpawnerTurns(s: State, a: SpawnerAct)
    requires ChannelsOk(s) && TurnsOk(s) && SpawnerCan(s, a)
    ensures TurnsOk(SpawnerStep(s, a))
  {
  }

  lemma DialerTurns(s: State, d: nat, a: DialerAct)
    requires ChannelsOk(s) && TurnsOk(s) && DialerCan(s, d, a) && DialerOk(s, d)
    ensures TurnsOk(DialerStep(s, d, a))
  {
    var s' := DialerStep(s, d, a);
    assert a.DialSucceeds? ==> d in s'.conns;
    assert forall e :: 0 <= e < |s.dialers| && s'.dialers[e] == Idle ==> s.dialers[e] == Idle;
  }

  lemma MainTurns(s: State, a: MainAct)
    requires ChannelsOk(s) && TurnsOk(s) && MainCan(s, a)
    ensures TurnsOk(MainStep(s, a))
  {
  }

  lemma {:induction false} RunTurns(n: nat, acts: seq<Action>, states: seq<State>, k: nat)
    requires Run(n, acts, states) && k <= |acts|
    ensures TurnsOk(states[k])
  {
    if k > 0 {
      RunTurns(n, acts, states, k - 1);
      RunInv(n, acts, states, k - 1);
      StepTurns(states[k - 1], acts[k - 1]);
    }
  }

  /** If no dial ever succeeded, a joined error holds one error per address. */
  lemma AllErrorsJoined(n: nat, s: State, count: nat)
    requires Reachable(n, s) && s.main == Returned(Errors(count)) && s.conns == {}
    ensures count == n
  {
    ReachableInv(n, s);
    var acts, states :| Run(n, acts, states) && states[|acts|] == s;
    RunTurns(n, acts, states, |acts|);
    AllSent(s);
  }

  lemma AllSent(s: State)
    requires DialersOk(s) && s.conns == {} && forall d :: 0 <= d < |s.dialers| ==> s.dialers[d] == Finished
    ensures |s.sentErr| == |s.dialers|
  {
    var n := |s.dialers|;
    forall d: nat ensures d in s.sentErr <==> d in Below(n) {
      assert DialerOk(s, d);
    }
    assert s.sentErr == Below(n);
  }

  lemma ReachableInit(n: nat)
    ensures Reachable(n, Init(n))
  {
    assert Run(n, [], [Init(n)]);
  }

  lemma ReachableStep(n: nat, s: State, a: Action)
    requires Reachable(n, s) && Enabled(s, a)
    ensures Reachable(n, Apply(s, a))
  {
    var acts, states :| Run(n, acts, states) && states[|acts|] == s;
    var acts', states' := acts + [a], states + [Apply(s, a)];
    assert Run(n, acts', states') && states'[|acts'|] == Apply(s, a);
  }

  // ---- When a successful dial reaches the caller ---------------------------------------------

  /** The step that loses a winner: the closer takes a connection out of the channel that the caller is
      still waiting for. */
  ghost predicate DrainsWinner(s: State, a: Action) {
    a == Closer(Drain) && s.buffer.Full? && s.main == Selecting
  }

  ghost predicate SomeoneHolds(s: State) {
    exists d :: 0 <= d < |s.dialers| && s.dialers[d] == Holding
  }

  /** A connection that was opened is still on its way to the caller, or the caller has one or gave up. */
  ghost predicate WinnerKept(s: State) {
    match s.main
    case Selecting => s.conns == {} || s.buffer.Full? || SomeoneHolds(s)
    case CheckingCtx => s.conns == {}
    case Collecting(_) => s.conns == {}
    case Returning(o) => o.Errors? ==> s.conns == {}
    case Returned(o) => o.Errors? ==> s.conns == {}
  }

  lemma DialerKeepsWinner(s: State, d: nat, a: DialerAct)
    requires WinnerKept(s) && ChannelsOk(s) && DialerCan(s, d, a)
    ensures WinnerKept(DialerStep(s, d, a))
  {
    var s' := DialerStep(s, d, a);
    if a == DialSucceeds {
      assert s'.dialers[d] == Holding;
    } else if a != Offer && s.main == Selecting && SomeoneHolds(s) {
      var e :| 0 <= e < |s.dialers| && s.dialers[e] == Holding;
      assert s'.dialers[e] == Holding;
    }
  }

  lemma SpawnerKeepsWinner(s: State, a: SpawnerAct)
    requires WinnerKept(s) && SpawnerCan(s, a)
    requires NextAddr(s) < |s.dialers| ==> s.dialers[NextAddr(s)] == Idle
    ensures WinnerKept(SpawnerStep(s, a))
  {
    if s.main == Selecting && SomeoneHolds(s) {
      var e :| 0 <= e < |s.dialers| && s.dialers[e] == Holding;
      assert SpawnerStep(s, a).dialers[e] == Holding;
    }
  }

  lemma MainKeepsWinner(s: State, a: MainAct)
    requires WinnerKept(s) && ChannelsOk(s) && MainCan(s, a)
    ensures WinnerKept(MainStep(s, a))
  {
  }

  lemma StepKeepsWinner(s: State, a: Action)
    requires WinnerKept(s) && Inv(s) && Enabled(s, a) && !DrainsWinner(s, a)
    ensures WinnerKept(Apply(s, a))
  {
    match a
    case CtxEnds =>
    case Spawner(sa) =>
      assert DialerOk(s, NextAddr(s));
      SpawnerKeepsWinner(s, sa);
    case Dialer(d, da) => DialerKeepsWinner(s, d, da);
    case Closer(ca) =>
      if s.main == Selecting && SomeoneHolds(s) {
        var e :| 0 <= e < |s.dialers| && s.dialers[e] == Holding;
        assert Apply(s, a).dialers[e] == Holding;
      }
    case Main(ma) => MainKeepsWinner(s, ma);
  }

  lemma {:induction false} RunKeepsWinner(n: nat, acts: seq<Action>, states: seq<State>, k: nat)
    requires Run(n, acts, states) && k <= |acts|
    requires forall j :: 0 <= j < k ==> !DrainsWinner(states[j], acts[j])
    ensures WinnerKept(states[k])
  {
    if k > 0 {
      RunKeepsWinner(n, acts, states, k - 1);
      RunInv(n, acts, states, k - 1);
      StepKeepsWinner(states[k - 1], acts[k - 1]);
    }
  }

  /** The channel is closed and empty and the caller has no connection: it will never have one. */
  ghost predicate WinnerLost(s: State) {
    && (s.closer == Draining || s.closer == Closed) && s.buffer == Empty
    && (s.main.Returning? || s.main.Returned? ==> !s.main.o.Conn?)
  }

  lemma StepKeepsLost(s: State, a: Action)
    requires WinnerLost(s) && ChannelsOk(s) && Enabled(s, a)
    ensures WinnerLost(Apply(s, a))
  {
  }

  lemma {:induction false} RunKeepsLost(n: nat, acts: seq<Action>, states: seq<State>, j: nat, k: nat)
    requires Run(n, acts, states) && j < k <= |acts| && DrainsWinner(states[j], acts[j])
    ensures WinnerLost(states[k])
  {
    RunInv(n, acts, states, k - 1);
    if k > j + 1 {
      RunKeepsLost(n, acts, states, j, k - 1);
      StepKeepsLost(states[k - 1], acts[k - 1]);
    }
  }

  /** The caller reports the end of its context only when it has ended. */
  ghost predicate CtxOk(s: State) {
    (s.main.Returning? || s.main.Returned?) && s.main.o == CtxError ==> s.ctxDone
  }

  lemma StepCtxOk(s: State, a: Action)
    requires CtxOk(s) && Enabled(s, a)
    ensures CtxOk(Apply(s, a))
  {
    match a
    case CtxEnds =>
    case Spawner(sa) =>
      assert SpawnerStep(s, sa).main == s.main && SpawnerStep(s, sa).ctxDone == s.ctxDone;
    case Dialer(d, da) =>
      assert DialerStep(s, d, da).main == s.main && DialerStep(s, d, da).ctxDone == s.ctxDone;
    case Closer(ca) =>
      assert CloserStep(s, ca).main == s.main && CloserStep(s, ca).ctxDone == s.ctxDone;
    case Main(ma) =>
  }

  lemma {:induction false} RunCtxOk(n: nat, acts: seq<Action>, states: seq<State>, k: nat)
    requires Run(n, acts, states) && k <= |acts|
    ensures CtxOk(states[k])
  {
    if k > 0 {
      RunCtxOk(n, acts, states, k - 1);
      StepCtxOk(states[k - 1], acts[k - 1]);
    }
  }

  /** When some dial has succeeded, the caller of a finished run was handed a connection if and only if the
      closer never drained the channel under its select, unless its own context ended. */
  lemma WinnerReturnedIff(n: nat, acts: seq<Action>, states: seq<State>)
    requires Run(n, acts, states) && Terminal(states[|acts|]) && states[|acts|].conns != {}
    ensures var o := states[|acts|].main.o;
            && (o.Conn? <==> !o.CtxError? && forall k :: 0 <= k < |acts| ==> !DrainsWinner(states[k], acts[k]))
            && (o.CtxError? ==> states[|acts|].ctxDone)
  {
    RunCtxOk(n, acts, states, |acts|);
    if k :| 0 <= k < |acts| && DrainsWinner(states[k], acts[k]) {
      RunKeepsLost(n, acts, states, k, |acts|);
    } else {
      RunKeepsWinner(n, acts, states, |acts|);
    }
  }

  // ---- No number of addresses helps ----------------------------------------------------------

  /** All but the first of n dialers idle. */
  function FirstOf(n: nat, first: DialerPc): seq<DialerPc>
    requires n >= 2
  {
    [first] + seq(n - 1, _ => Idle)
  }

  /** Before the spawner has given up: the first address is the only one that was dialled. */
  function OnTheWay(n: nat, first: DialerPc, buffer: Slot, conns: set<nat>, cancelled: bool): State
    requires n >= 2
  {
    State(false, cancelled, Waiting(1), FirstOf(n, first), AwaitAll, Selecting, buffer, false, 0, false, {}, conns,
          map[], {})
  }

  /** The connection of the first address waits in the channel and nothing else runs. */
  function Won(n: nat): State
    requires n >= 2
  {
    OnTheWay(n, Finished, Full(0), {0}, true).(spawner := Spawned)
  }

  lemma FirstDialStarts(n: nat)
    requires n >= 2
    ensures Reachable(n, OnTheWay(n, Dialing, Empty, {}, false))
  {
    ReachableInit(n);
    ReachableStep(n, Init(n), Spawner(StartDial));
    assert Init(n).dialers[0 := Dialing] == FirstOf(n, Dialing);
    assert Apply(Init(n), Spawner(StartDial)) == OnTheWay(n, Dialing, Empty, {}, false);
  }

  lemma FirstDialMoves(n: nat, s: State, a: DialerAct, p: DialerPc, t: State)
    requires n >= 2 && Reachable(n, s) && DialerCan(s, 0, a) && |s.dialers| == n
    requires s.dialers == FirstOf(n, s.dialers[0])
    requires DialerStep(s, 0, a) == t.(dialers := s.dialers[0 := p]) && t.dialers == FirstOf(n, p)
    ensures Reachable(n, t)
  {
    assert s.dialers[0 := p] == FirstOf(n, p);
    assert Apply(s, Dialer(0, a)) == t;
    ReachableStep(n, s, Dialer(0, a));
  }

  lemma WonIsReachable(n: nat)
    requires n >= 2
    ensures Reachable(n, Won(n))
  {
    FirstDialStarts(n);
    var s1 := OnTheWay(n, Dialing, Empty, {}, false);
    var s2 := OnTheWay(n, Holding, Empty, {0}, false);
    FirstDialMoves(n, s1, DialSucceeds, Holding, s2);
    var s3 := OnTheWay(n, Cancelling, Full(0), {0}, false);
    FirstDialMoves(n, s2, Offer, Cancelling, s3);
    var s4 := OnTheWay(n, Finished, Full(0), {0}, true);
    FirstDialMoves(n, s3, Cancel, Finished, s4);
    ReachableStep(n, s4, Spawner(SpawnerStops));
    assert Apply(s4, Spawner(SpawnerStops)) == Won(n);
  }

  /** A dial that succeeds need not be returned, however many addresses there are: the closer may drain the
      winner from the channel before the caller looks, who then gets an empty list of errors. */
  lemma WinnerMayBeDrained(n: nat)
    requires n >= 2
    ensures exists s :: Reachable(n, s) && Terminal(s) && s.main == Returned(Errors(0)) && !s.ctxDone && s.conns == {0}
  {
    WonIsReachable(n);
    var s0 := Won(n);
    assert AllQuiet(s0);
    var s1 := s0.(connClosed := true, closer := CloseErrs);
    ReachableStep(n, s0, Closer(CloseConnCh));
    var s2 := s1.(errClosed := true, closer := Draining);
    ReachableStep(n, s1, Closer(CloseErrCh));
    var s3 := s2.(closes := Bump(map[], 0), buffer := Empty);
    ReachableStep(n, s2, Closer(Drain));
    var s4 := s3.(closer := Closed);
    ReachableStep(n, s3, Closer(Drain));
    ReachableStep(n, s4, Main(ReceiveClosed));
    ReachableStep(n, s4.(main := CheckingCtx), Main(CheckCtx));
    ReachableStep(n, s4.(main := Collecting(0)), Main(Collect));
    ReachableStep(n, s4.(main := Returning(Errors(0))), Main(Return));
    var s := s4.(main := Returned(Errors(0)), cancelled := true);
    assert Reachable(n, s) && Terminal(s) && s.conns == {0};
  }
}
