/** Group.Do and doCall of internal/singleflight/singleflight.go as a transition system: any number of
    invocations of Do, each a thread, interleaved at the critical sections of the group's mutex. */
module SingleFlight {
  import opened Wrappers

  /** How fn ended: with its values, by a panic, or by runtime.Goexit. */
  datatype Outcome<R, P> = Normal(r: R) | Panic(p: P) | Goexit

  /** call[T]; followers is the history behind dups. */
  datatype Call<K, R, P> =
    Call(key: K, leader: nat, outcome: Option<Outcome<R, P>>, done: bool, dups: nat, followers: set<nat>)

  datatype Pc<R, P> =
    | Entering
    | Running(c: nat)      // leader, inside fn
    | Finishing(c: nat)    // leader, val and err set, about to take the lock
    | Reading(c: nat)      // leader, about to read dups
    | Waiting(c: nat)      // follower, in wg.Wait
    | Ended(c: nat, o: Outcome<R, P>, shared: bool)

  datatype State<!K, R, P> = State(keys: seq<K>, pcs: seq<Pc<R, P>>, m: map<K, nat>, calls: seq<Call<K, R, P>>)

  function Init<K, R, P>(keys: seq<K>): State<K, R, P> {
    State(keys, seq(|keys|, _ => Entering), map[], [])
  }

  datatype Action<R, P> =
    | Enter(t: nat)
    | FnEnds(t: nat, o: Outcome<R, P>)
    | Finish(t: nat)
    | ReadShared(t: nat)
    | Wake(t: nat)

  predicate Sized<K, R, P>(s: State<K, R, P>, t: nat) {
    t < |s.pcs| == |s.keys|
  }

  predicate CallAt<K, R, P>(s: State<K, R, P>, c: nat) {
    c < |s.calls|
  }

  predicate Enabled<K(==), R, P>(s: State<K, R, P>, a: Action<R, P>) {
    Sized(s, a.t) &&
    match a
    case Enter(t) => s.pcs[t].Entering? && (s.keys[t] in s.m ==> CallAt(s, s.m[s.keys[t]]))
    case FnEnds(t, _) => s.pcs[t].Running? && CallAt(s, s.pcs[t].c)
    case Finish(t) => s.pcs[t].Finishing? && CallAt(s, s.pcs[t].c) && s.calls[s.pcs[t].c].outcome.Some?
    case ReadShared(t) => s.pcs[t].Reading? && CallAt(s, s.pcs[t].c) && s.calls[s.pcs[t].c].outcome.Some?
    case Wake(t) => s.pcs[t].Waiting? && CallAt(s, s.pcs[t].c) && s.calls[s.pcs[t].c].done &&
                    s.calls[s.pcs[t].c].outcome.Some?
  }

  function Apply<K(==), R, P>(s: State<K, R, P>, a: Action<R, P>): State<K, R, P>
    requires Enabled(s, a)
  {
    match a
    case Enter(t) =>
      var key := s.keys[t];
      if key in s.m then
        var c := s.m[key];
        var call := s.calls[c];
        s.(pcs := s.pcs[t := Waiting(c)],
           calls := s.calls[c := call.(dups := call.dups + 1, followers := call.followers + {t})])
      else
        var c := |s.calls|;
        s.(pcs := s.pcs[t := Running(c)],
           calls := s.calls + [Call(key, t, None, false, 0, {})],
           m := s.m[key := c])
    case FnEnds(t, o) =>
      var c := s.pcs[t].c;
      s.(pcs := s.pcs[t := Finishing(c)], calls := s.calls[c := s.calls[c].(outcome := Some(o))])
    case Finish(t) =>
      var c := s.pcs[t].c;
      var call := s.calls[c];
      var o := call.outcome.value;
      s.(pcs := s.pcs[t := if o.Normal? then Reading(c) else Ended(c, o, false)],
         calls := s.calls[c := call.(done := true)],
         m := if call.key in s.m && s.m[call.key] == c then s.m - {call.key} else s.m)
    case ReadShared(t) =>
      var c := s.pcs[t].c;
      s.(pcs := s.pcs[t := Ended(c, s.calls[c].outcome.value, s.calls[c].dups > 0)])
    case Wake(t) =>
      var c := s.pcs[t].c;
      s.(pcs := s.pcs[t := Ended(c, s.calls[c].outcome.value, true)])
  }

  ghost predicate Run<K, R, P>(keys: seq<K>, acts: seq<Action<R, P>>, states: seq<State<K, R, P>>) {
    && |states| == |acts| + 1 && states[0] == Init(keys)
    && forall k :: 0 <= k < |acts| ==> Enabled(states[k], acts[k]) && states[k + 1] == Apply(states[k], acts[k])
  }

  ghost predicate Reachable<K(!new), R(!new), P(!new)>(keys: seq<K>, s: State<K, R, P>) {
    exists acts, states :: Run(keys, acts, states) && states[|acts|] == s
  }

  // ---- The invariant -------------------------------------------------------------------------

  /** The map holds exactly the calls that are not done. */
  ghost predicate MapOk<K, R, P>(s: State<K, R, P>) {
    && (forall k :: k in s.m ==> s.m[k] < |s.calls| && s.calls[s.m[k]].key == k && !s.calls[s.m[k]].done)
    && (forall c :: 0 <= c < |s.calls| && !s.calls[c].done ==> s.calls[c].key in s.m && s.m[s.calls[c].key] == c)
  }

  /** A call, its leader and its stage belong together. */
  ghost predicate CallOk<K, R, P>(s: State<K, R, P>, c: nat)
    requires c < |s.calls|
  {
    var call := s.calls[c];
    && call.leader < |s.pcs| == |s.keys| && s.keys[call.leader] == call.key
    && call.dups == |call.followers| && call.leader !in call.followers
    && (match s.pcs[call.leader]
        case Running(d) => d == c && call.outcome.None? && !call.done
        case Finishing(d) => d == c && call.outcome.Some? && !call.done
        case Reading(d) => d == c && call.outcome.Some? && call.outcome.value.Normal? && call.done
        case Ended(d, o, shared) =>
          && d == c && call.done && call.outcome == Some(o)
          && (o.Normal? ==> (shared <==> call.followers != {}))
        case _ => false)
  }

  /** A thread is the leader of its call or one of its followers. */
  ghost predicate ThreadOk<K, R, P>(s: State<K, R, P>, t: nat)
    requires t < |s.pcs| == |s.keys|
  {
    match s.pcs[t]
    case Entering => true
    case Running(c) => c < |s.calls| && s.calls[c].leader == t
    case Finishing(c) => c < |s.calls| && s.calls[c].leader == t
    case Reading(c) => c < |s.calls| && s.calls[c].leader == t
    case Waiting(c) => c < |s.calls| && s.calls[c].key == s.keys[t] && t in s.calls[c].followers
    case Ended(c, o, shared) =>
      && c < |s.calls| && s.calls[c].key == s.keys[t] && s.calls[c].outcome == Some(o) && s.calls[c].done
      && (s.calls[c].leader == t || (t in s.calls[c].followers && shared))
  }

  /** Followers have entered. */
  ghost predicate FollowersOk<K, R, P>(s: State<K, R, P>, c: nat, t: nat)
    requires c < |s.calls|
  {
    t in s.calls[c].followers ==> t < |s.pcs| && (s.pcs[t] == Waiting(c) || (s.pcs[t].Ended? && s.pcs[t].c == c))
  }

  ghost predicate Inv<K, R, P>(s: State<K, R, P>) {
    && |s.pcs| == |s.keys|
    && MapOk(s)
    && (forall c :: 0 <= c < |s.calls| ==> CallOk(s, c))
    && (forall t :: 0 <= t < |s.pcs| ==> ThreadOk(s, t))
    && (forall c, t: nat :: 0 <= c < |s.calls| ==> FollowersOk(s, c, t))
  }

  lemma StepMapOk<K, R, P>(s: State<K, R, P>, a: Action<R, P>)
    requires Inv(s) && Enabled(s, a)
    ensures MapOk(Apply(s, a))
  {
  }

  lemma StepCallOk<K, R, P>(s: State<K, R, P>, a: Action<R, P>, c: nat)
    requires Inv(s) && Enabled(s, a) && c < |Apply(s, a).calls|
    ensures CallOk(Apply(s, a), c)
  {
    assert ThreadOk(s, a.t);
    if c < |s.calls| {
      assert CallOk(s, c) && FollowersOk(s, c, a.t);
    }
  }

  lemma StepThreadOk<K, R, P>(s: State<K, R, P>, a: Action<R, P>, t: nat)
    requires Inv(s) && Enabled(s, a) && t < |s.pcs|
    ensures ThreadOk(Apply(s, a), t)
  {
    assert ThreadOk(s, a.t) && ThreadOk(s, t);
    var c := if s.pcs[a.t].Entering? then if s.keys[a.t] in s.m then s.m[s.keys[a.t]] else 0 else s.pcs[a.t].c;
    if c < |s.calls| {
      assert CallOk(s, c);
    }
  }

  lemma StepFollowersOk<K, R, P>(s: State<K, R, P>, a: Action<R, P>, c: nat, t: nat)
    requires Inv(s) && Enabled(s, a) && c < |Apply(s, a).calls|
    ensures FollowersOk(Apply(s, a), c, t)
  {
    assert ThreadOk(s, a.t);
    if c < |s.calls| {
      assert CallOk(s, c) && FollowersOk(s, c, t) && FollowersOk(s, c, a.t);
    }
  }

  lemma StepInv<K, R, P>(s: State<K, R, P>, a: Action<R, P>)
    requires Inv(s) && Enabled(s, a)
    ensures Inv(Apply(s, a)) && Apply(s, a).keys == s.keys
  {
    StepMapOk(s, a);
    var s' := Apply(s, a);
    forall c | 0 <= c < |s'.calls| ensures CallOk(s', c) {
      StepCallOk(s, a, c);
    }
    forall t | 0 <= t < |s'.pcs| ensures ThreadOk(s', t) {
      StepThreadOk(s, a, t);
    }
    forall c, t: nat | 0 <= c < |s'.calls| ensures FollowersOk(s', c, t) {
      StepFollowersOk(s, a, c, t);
    }
  }

  lemma {:induction false} RunInv<K, R, P>(keys: seq<K>, acts: seq<Action<R, P>>, states: seq<State<K, R, P>>, k: nat)
    requires Run(keys, acts, states) && k <= |acts|
    ensures Inv(states[k]) && states[k].keys == keys
  {
    if k > 0 {
      RunInv(keys, acts, states, k - 1);
      StepInv(states[k - 1], acts[k - 1]);
    }
  }

  lemma ReachableInv<K(!new), R(!new), P(!new)>(keys: seq<K>, s: State<K, R, P>)
    requires Reachable(keys, s)
    ensures Inv(s) && s.keys == keys
  {
    var acts: seq<Action<R, P>>, states :| Run(keys, acts, states) && states[|acts|] == s;
    RunInv(keys, acts, states, |acts|);
  }

  // ---- Main results ----------------------------------------------------------------------------

  /** At most one fn runs per key at any time. */
  lemma OneFnPerKey<K(!new), R(!new), P(!new)>(keys: seq<K>, s: State<K, R, P>, t: nat, u: nat)
    requires Reachable(keys, s) && t < |keys| && u < |keys| && |s.pcs| == |keys|
    requires s.pcs[t].Running? && s.pcs[u].Running? && keys[t] == keys[u]
    ensures t == u
  {
    ReachableInv(keys, s);
    assert ThreadOk(s, t) && ThreadOk(s, u);
    assert CallOk(s, s.pcs[t].c) && CallOk(s, s.pcs[u].c);
  }

  /** The map holds a call exactly until it is done: what can be joined is never completed, and no
      outcome, not even a panic, leaves its key behind. */
  lemma MappedIffNotDone<K(!new), R(!new), P(!new)>(keys: seq<K>, s: State<K, R, P>, c: nat)
    requires Reachable(keys, s) && c < |s.calls|
    ensures (exists k :: k in s.m && s.m[k] == c) <==> !s.calls[c].done
  {
    ReachableInv(keys, s);
    if !s.calls[c].done {
      assert s.calls[c].key in s.m && s.m[s.calls[c].key] == c;
    }
  }

  /** A follower ends as its leader's fn did, for the same key, and the leader is told of sharing
      exactly when someone followed. */
  lemma FollowersGetLeadersOutcome<K(!new), R(!new), P(!new)>(keys: seq<K>, s: State<K, R, P>, t: nat)
    requires Reachable(keys, s) && t < |keys| && |s.pcs| == |keys| && s.pcs[t].Ended?
    ensures var c := s.pcs[t].c;
            && c < |s.calls| && s.calls[c].key == keys[t] && s.calls[c].leader < |keys|
            && var l := s.calls[c].leader;
            && s.calls[c].outcome == Some(s.pcs[t].o)
            && (s.pcs[l].Ended? ==> s.pcs[l].c == c && s.pcs[l].o == s.pcs[t].o)
            && (t != l ==> s.pcs[t].shared && t in s.calls[c].followers)
            && (t == l && s.pcs[t].o.Normal? ==> (s.pcs[t].shared <==> s.calls[c].followers != {}))
  {
    ReachableInv(keys, s);
    assert ThreadOk(s, t) && CallOk(s, s.pcs[t].c);
  }

  /** Whoever waits, waits for a leader that is still at work on the same key, or can wake at once. */
  lemma WaitersHaveLeaders<K(!new), R(!new), P(!new)>(keys: seq<K>, s: State<K, R, P>, t: nat)
    requires Reachable(keys, s) && t < |keys| && |s.pcs| == |keys| && s.pcs[t].Waiting?
    ensures var c := s.pcs[t].c;
            && c < |s.calls| && s.calls[c].leader < |keys| && keys[s.calls[c].leader] == keys[t]
            && s.calls[c].leader != t
            && if s.calls[c].done then Enabled(s, Wake(t))
               else s.pcs[s.calls[c].leader] == Running(c) || s.pcs[s.calls[c].leader] == Finishing(c)
  {
    ReachableInv(keys, s);
    assert ThreadOk(s, t) && CallOk(s, s.pcs[t].c);
  }

  /** No deadlock: a thread that has not ended can move, or it waits for one that can. */
  lemma SomeoneMoves<K(!new), R(!new), P(!new)>(keys: seq<K>, s: State<K, R, P>, t: nat, o: Outcome<R, P>)
    returns (a: Action<R, P>)
    requires Reachable(keys, s) && t < |keys| && |s.pcs| == |keys| && !s.pcs[t].Ended?
    ensures Enabled(s, a) && keys[a.t] == keys[t]
  {
    ReachableInv(keys, s);
    assert ThreadOk(s, t);
    if s.pcs[t].Entering? {
      return Enter(t);
    }
    var c := s.pcs[t].c;
    assert CallOk(s, c);
    var l := if s.pcs[t].Waiting? && !s.calls[c].done then s.calls[c].leader else t;
    match s.pcs[l]
    case Running(_) => a := FnEnds(l, o);
    case Finishing(_) => a := Finish(l);
    case Reading(_) => a := ReadShared(l);
    case Waiting(_) => a := Wake(l);
  }

  function PcRank<R, P>(p: Pc<R, P>): nat {
    match p
    case Entering => 4
    case Running(_) => 3
    case Finishing(_) => 2
    case Reading(_) => 1
    case Waiting(_) => 1
    case Ended(_, _, _) => 0
  }

  /** Every step brings the thread that takes it nearer to its end. */
  lemma StepAdvances<K, R, P>(s: State<K, R, P>, a: Action<R, P>)
    requires Enabled(s, a)
    ensures var s' := Apply(s, a);
            && |s'.pcs| == |s.pcs| && PcRank(s'.pcs[a.t]) < PcRank(s.pcs[a.t])
            && forall t :: 0 <= t < |s.pcs| && t != a.t ==> s'.pcs[t] == s.pcs[t]
  {
  }
}
