// The rewind buffer of rednose/helpers/ekf_sym.cc: late observations roll the filter back to a
// checkpoint and are replayed in time order. The numeric predict and update steps are arbitrary.

module Ekf {
  import opened Words

  const REWIND_TO_KEEP: nat := 512

  /** `kind`, and one (z, R, extra_args) triple per measurement of the batch. */
  datatype Observation<M> = Observation(t: real, kind: int, batch: seq<M>)

  /** The numeric steps, each with its quaternion normalisation; S is the pair (x, P). */
  datatype Model<!S, !M> = Model(predict: (S, real) -> S, update: (S, int, M) -> S)

  /** `time` is None where the code has NAN. */
  datatype Filter<S> = Filter(time: Option<real>, state: S)

  datatype Estimate<S> = Estimate(t: real, kind: int, predicted: S, updated: S)

  // ---- In-order processing

  function Predicted<S, M>(model: Model<S, M>, f: Filter<S>, t: real): S {
    model.predict(f.state, if f.time.None? then 0.0 else t - f.time.value)
  }

  function Updates<S, M>(model: Model<S, M>, s: S, kind: int, batch: seq<M>): S {
    if |batch| == 0 then s
    else model.update(Updates(model, s, kind, batch[..|batch| - 1]), kind, batch[|batch| - 1])
  }

  function Step<S, M>(model: Model<S, M>, f: Filter<S>, o: Observation<M>): Filter<S> {
    Filter(Some(o.t), Updates(model, Predicted(model, f, o.t), o.kind, o.batch))
  }

  /** One observation after the other, no rewinding. */
  function Fold<S, M>(model: Model<S, M>, f: Filter<S>, log: seq<Observation<M>>): (r: Filter<S>)
    ensures log != [] ==> r.time == Some(log[|log| - 1].t)
    ensures log == [] ==> r == f
  {
    if |log| == 0 then f else Step(model, Fold(model, f, log[..|log| - 1]), log[|log| - 1])
  }

  function EstimateOf<S, M>(model: Model<S, M>, f: Filter<S>, o: Observation<M>): Estimate<S> {
    Estimate(o.t, o.kind, Predicted(model, f, o.t), Step(model, f, o).state)
  }

  // ---- What the numeric steps are given

  /** A measurement, and the time the predictions had reached when it was applied. */
  datatype Applied<M> = Applied(at: real, kind: int, m: M)

  /** A filter state that only keeps the time, the number of predictions, and what was applied when. */
  datatype Clock<M> = Clock(now: real, predictions: nat, applied: seq<Applied<M>>)

  function ClockModel<M>(): Model<Clock<M>, M> {
    Model((s: Clock<M>, dt: real) => s.(now := s.now + dt, predictions := s.predictions + 1),
          (s: Clock<M>, kind: int, m: M) => s.(applied := s.applied + [Applied(s.now, kind, m)]))
  }

  /** Every measurement of an observation, at its own time and with its kind. */
  function Measured<M>(o: Observation<M>): seq<Applied<M>> {
    seq(|o.batch|, i requires 0 <= i < |o.batch| => Applied(o.t, o.kind, o.batch[i]))
  }

  function AllMeasured<M>(log: seq<Observation<M>>): seq<Applied<M>> {
    if |log| == 0 then [] else AllMeasured(log[..|log| - 1]) + Measured(log[|log| - 1])
  }

  /** When the clock starts: with the filter's own time, or else with the first observation. */
  function StartTime<S, M>(origin: Filter<S>, log: seq<Observation<M>>): real
    requires log != []
  {
    if origin.time.Some? then origin.time.value else log[0].t
  }

  lemma {:induction false} UpdatesClock<M>(s: Clock<M>, o: Observation<M>, n: nat)
    requires n <= |o.batch| && s.now == o.t
    ensures Updates(ClockModel(), s, o.kind, o.batch[..n])
         == s.(applied := s.applied + Measured(o)[..n])
  {
    if n == 0 {
      assert s.applied + Measured(o)[..0] == s.applied;
    } else {
      UpdatesClock(s, o, n - 1);
      assert o.batch[..n][..n - 1] == o.batch[..n - 1];
      assert Measured(o)[..n] == Measured(o)[..n - 1] + [Applied(o.t, o.kind, o.batch[n - 1])];
      AppendTwice(s.applied, Measured(o)[..n - 1], [Applied(o.t, o.kind, o.batch[n - 1])]);
    }
  }

  lemma AppendTwice<T>(a: seq<T>, b: seq<T>, c: seq<T>)
    ensures a + (b + c) == a + b + c
  {
  }

  /** One observation: one prediction, up to its time, and then its measurements in order. */
  lemma StepClock<M>(f: Filter<Clock<M>>, o: Observation<M>)
    requires f.state.now == (if f.time.Some? then f.time.value else o.t)
    ensures EstimateOf(ClockModel(), f, o)
         == Estimate(o.t, o.kind, f.state.(now := o.t, predictions := f.state.predictions + 1),
                     Clock(o.t, f.state.predictions + 1, f.state.applied + Measured(o)))
    ensures Step(ClockModel(), f, o)
         == Filter(Some(o.t), Clock(o.t, f.state.predictions + 1, f.state.applied + Measured(o)))
  {
    UpdatesClock(f.state.(now := o.t, predictions := f.state.predictions + 1), o, |o.batch|);
    assert o.batch[..|o.batch|] == o.batch && Measured(o)[..|o.batch|] == Measured(o);
  }

  /**
   * In-order processing predicts once for each observation, exactly up to its
   * time, and applies each measurement at the time of its observation.
   */
  lemma {:induction false} FoldClock<M>(origin: Filter<Clock<M>>, log: seq<Observation<M>>)
    requires log != [] && origin.state == Clock(StartTime(origin, log), 0, [])
    ensures Fold(ClockModel(), origin, log).state == Clock(log[|log| - 1].t, |log|, AllMeasured(log))
  {
    var init, o := log[..|log| - 1], log[|log| - 1];
    if init == [] {
      StepClock(origin, o);
      assert AllMeasured(init) == [];
    } else {
      FoldClock(origin, init);
      StepClock(Fold(ClockModel(), origin, init), o);
    }
  }

  /** A prediction over no time changes nothing, and two predictions make one over both times. */
  ghost predicate Additive<S(!new), M(!new)>(model: Model<S, M>) {
    && (forall s {:trigger model.predict(s, 0.0)} :: model.predict(s, 0.0) == s)
    && (forall s, a, b {:trigger model.predict(model.predict(s, a), b)} ::
          model.predict(model.predict(s, a), b) == model.predict(s, a + b))
  }

  /** Observations without measurements only move the time on. */
  lemma {:induction false} FoldPredicts<S(!new), M(!new)>(model: Model<S, M>, origin: Filter<S>,
                                                          log: seq<Observation<M>>)
    requires Additive(model) && log != [] && forall i :: 0 <= i < |log| ==> log[i].batch == []
    ensures Fold(model, origin, log).state
         == model.predict(origin.state, log[|log| - 1].t - StartTime(origin, log))
  {
    hide Additive, Step;
    var init, o := log[..|log| - 1], log[|log| - 1];
    StepPredicts(model, Fold(model, origin, init), o);
    if init != [] {
      FoldPredicts(model, origin, init);
      PredictTwice(model, origin.state, init[|init| - 1].t - StartTime(origin, log), o.t - init[|init| - 1].t);
    }
  }

  lemma StepPredicts<S, M>(model: Model<S, M>, f: Filter<S>, o: Observation<M>)
    requires o.batch == []
    ensures Step(model, f, o).state == model.predict(f.state, if f.time.None? then 0.0 else o.t - f.time.value)
  {
  }

  lemma PredictTwice<S(!new), M(!new)>(model: Model<S, M>, s: S, a: real, b: real)
    requires Additive(model)
    ensures model.predict(model.predict(s, a), b) == model.predict(s, a + b)
  {
  }

  // ---- Stable order by time

  ghost predicate Sorted<M>(log: seq<Observation<M>>) {
    forall i, j :: 0 <= i < j < |log| ==> log[i].t <= log[j].t
  }

  /** Where an observation of time `t` belongs: after every earlier or simultaneous one. */
  function Place<M>(log: seq<Observation<M>>, t: real): (k: nat)
    ensures k <= |log|
    ensures k > 0 ==> log[k - 1].t <= t
    ensures forall i :: k <= i < |log| ==> log[i].t > t
  {
    if |log| == 0 || log[|log| - 1].t <= t then |log| else Place(log[..|log| - 1], t)
  }

  lemma PlaceIs<M>(log: seq<Observation<M>>, t: real, k: nat)
    requires Sorted(log) && k <= |log|
    requires k > 0 ==> log[k - 1].t <= t
    requires forall i :: k <= i < |log| ==> log[i].t > t
    ensures Place(log, t) == k
  {
  }

  function Insert<M>(log: seq<Observation<M>>, o: Observation<M>): seq<Observation<M>> {
    log[..Place(log, o.t)] + [o] + log[Place(log, o.t)..]
  }

  lemma InsertSplits<M>(log: seq<Observation<M>>, o: Observation<M>)
    ensures Insert(log, o) == log[..Place(log, o.t)] + [o] + log[Place(log, o.t)..]
  {
  }

  function SortByTime<M>(s: seq<Observation<M>>): seq<Observation<M>> {
    if |s| == 0 then [] else Insert(SortByTime(s[..|s| - 1]), s[|s| - 1])
  }

  /** The observations of time `t`, in order. */
  function AtTime<M>(s: seq<Observation<M>>, t: real): seq<Observation<M>> {
    if |s| == 0 then []
    else AtTime(s[..|s| - 1], t) + if s[|s| - 1].t == t then [s[|s| - 1]] else []
  }

  lemma {:induction false} AtTimeConcat<M>(a: seq<Observation<M>>, b: seq<Observation<M>>, t: real)
    ensures AtTime(a + b, t) == AtTime(a, t) + AtTime(b, t)
    decreases |b|
  {
    if |b| == 0 {
      assert a + b == a;
    } else {
      assert (a + b)[..|a + b| - 1] == a + b[..|b| - 1];
      AtTimeConcat(a, b[..|b| - 1], t);
    }
  }

  lemma {:induction false} AtTimeNone<M>(s: seq<Observation<M>>, t: real)
    requires forall i :: 0 <= i < |s| ==> s[i].t != t
    ensures AtTime(s, t) == []
  {
    if |s| > 0 {
      AtTimeNone(s[..|s| - 1], t);
    }
  }

  lemma InsertKeepsOrder<M>(log: seq<Observation<M>>, o: Observation<M>)
    requires Sorted(log)
    ensures Sorted(Insert(log, o))
  {
  }

  lemma InsertKeepsAll<M>(log: seq<Observation<M>>, o: Observation<M>)
    ensures multiset(Insert(log, o)) == multiset(log) + multiset{o}
  {
    var k := Place(log, o.t);
    assert log == log[..k] + log[k..];
  }

  lemma InsertIsStable<M>(log: seq<Observation<M>>, o: Observation<M>, t: real)
    ensures AtTime(Insert(log, o), t) == AtTime(log + [o], t)
  {
    hide AtTime, Place;
    var k := Place(log, o.t);
    var a, b := log[..k], log[k..];
    AtTimeInsert(a, o, b, t);
    assert log == a + b;
    if t != o.t {
      AtTimeNone([o], t);
      assert AtTime(a, t) + [] + AtTime(b, t) == AtTime(a, t) + AtTime(b, t) + [];
    } else {
      AtTimeNone(b, t);
      assert AtTime(a, t) + AtTime([o], t) + [] == AtTime(a, t) + [] + AtTime([o], t);
    }
  }

  lemma AtTimeInsert<M>(a: seq<Observation<M>>, o: Observation<M>, b: seq<Observation<M>>, t: real)
    ensures AtTime(a + [o] + b, t) == AtTime(a, t) + AtTime([o], t) + AtTime(b, t)
    ensures AtTime(a + b + [o], t) == AtTime(a, t) + AtTime(b, t) + AtTime([o], t)
  {
    AtTimeConcat(a + [o], b, t);
    AtTimeConcat(a, [o], t);
    AtTimeConcat(a + b, [o], t);
    AtTimeConcat(a, b, t);
  }

  /** SortByTime is the stable sort: ordered, a permutation, and simultaneous observations keep their order. */
  lemma {:induction false} SortByTimeIsStable<M>(s: seq<Observation<M>>, t: real)
    ensures Sorted(SortByTime(s))
    ensures multiset(SortByTime(s)) == multiset(s)
    ensures AtTime(SortByTime(s), t) == AtTime(s, t)
  {
    if |s| > 0 {
      var init, last := s[..|s| - 1], s[|s| - 1];
      assert s == init + [last];
      SortByTimeIsStable(init, t);
      InsertKeepsOrder(SortByTime(init), last);
      InsertKeepsAll(SortByTime(init), last);
      InsertIsStable(SortByTime(init), last, t);
      AtTimeConcat(SortByTime(init), [last], t);
      AtTimeConcat(init, [last], t);
    }
  }

  lemma {:induction false} SortedIsFixed<M>(s: seq<Observation<M>>)
    requires Sorted(s)
    ensures SortByTime(s) == s
  {
    if |s| > 0 {
      SortedIsFixed(s[..|s| - 1]);
      assert s == s[..|s| - 1] + [s[|s| - 1]];
    }
  }

  // ---- What a bounded history accepts

  /** Accepted observations in stable time order, the last `kept` of them with a checkpoint. */
  datatype History<M> = History(log: seq<Observation<M>>, kept: nat)

  ghost predicate WellKept<M>(h: History<M>) {
    h.kept <= |h.log| && (h.log != [] ==> h.kept > 0) && h.kept <= REWIND_TO_KEEP
  }

  predicate Accepts<S, M>(origin: Filter<S>, h: History<M>, maxAge: real, t: real)
    requires h.kept <= |h.log| && (h.log != [] ==> h.kept > 0)
  {
    if h.log == [] then origin.time.None? || origin.time.value <= t
    else
      var back := h.log[|h.log| - 1].t;
      back <= t || (h.log[|h.log| - h.kept].t <= t && back - maxAge <= t)
  }

  function Clip(n: nat): nat {
    if n < REWIND_TO_KEEP then n else REWIND_TO_KEEP
  }

  function Receive<S, M>(origin: Filter<S>, h: History<M>, maxAge: real, o: Observation<M>): (h': History<M>)
    requires WellKept(h)
    ensures WellKept(h')
  {
    if Accepts(origin, h, maxAge, o.t)
    then History(Insert(h.log, o), Clip(h.kept + 1))
    else h
  }

  function Run<S, M>(origin: Filter<S>, maxAge: real, arrivals: seq<Observation<M>>): (h: History<M>)
    ensures WellKept(h)
  {
    if |arrivals| == 0 then History([], 0)
    else Receive(origin, Run(origin, maxAge, arrivals[..|arrivals| - 1]), maxAge, arrivals[|arrivals| - 1])
  }

  /** The accepted arrivals, in arrival order. */
  function Accepted<S, M>(origin: Filter<S>, maxAge: real, arrivals: seq<Observation<M>>): seq<Observation<M>> {
    if |arrivals| == 0 then []
    else
      var earlier, o := arrivals[..|arrivals| - 1], arrivals[|arrivals| - 1];
      Accepted(origin, maxAge, earlier)
      + if Accepts(origin, Run(origin, maxAge, earlier), maxAge, o.t) then [o] else []
  }

  /** The history is the stable sort of what was accepted. */
  lemma {:induction false} RunSortsAccepted<S, M>(origin: Filter<S>, maxAge: real, arrivals: seq<Observation<M>>)
    ensures Run(origin, maxAge, arrivals).log == SortByTime(Accepted(origin, maxAge, arrivals))
    ensures Run(origin, maxAge, arrivals).kept == Clip(|Accepted(origin, maxAge, arrivals)|)
  {
    if |arrivals| > 0 {
      var earlier, o := arrivals[..|arrivals| - 1], arrivals[|arrivals| - 1];
      RunSortsAccepted(origin, maxAge, earlier);
      var acc := Accepted(origin, maxAge, earlier);
      assert (acc + [o])[..|acc + [o]| - 1] == acc;
      assert acc + [] == acc;
    }
  }

  /**
   * Which observations are taken after some arrivals: any that is not earlier
   * than the newest, and a late one that is at most maxAge older than the newest
   * and not older than the oldest of the 512 newest.
   */
  lemma AcceptsIff<S, M>(origin: Filter<S>, maxAge: real, arrivals: seq<Observation<M>>, t: real)
    ensures var h := Run(origin, maxAge, arrivals);
            Accepts(origin, h, maxAge, t) <==>
              if h.log == [] then origin.time.Some? ==> t >= origin.time.value
              else
                var newest, n := h.log[|h.log| - 1].t, |h.log|;
                t >= newest || (newest - t <= maxAge && t >= h.log[if n <= 512 then 0 else n - 512].t)
  {
    hide Run, Place;
    RunKeeps(origin, maxAge, arrivals);
  }

  lemma {:induction false} RunKeeps<S, M>(origin: Filter<S>, maxAge: real, arrivals: seq<Observation<M>>)
    ensures var h := Run(origin, maxAge, arrivals); h.kept == if |h.log| < 512 then |h.log| else 512
  {
    hide Place;
    if |arrivals| > 0 {
      RunKeeps(origin, maxAge, arrivals[..|arrivals| - 1]);
    }
  }

  /** Observations in time order, none before the filter's own time. */
  ghost predicate InOrder<S, M>(origin: Filter<S>, s: seq<Observation<M>>) {
    Sorted(s) && (origin.time.Some? ==> forall i :: 0 <= i < |s| ==> origin.time.value <= s[i].t)
  }

  lemma InOrderPrefix<S, M>(origin: Filter<S>, s: seq<Observation<M>>, n: nat)
    requires InOrder(origin, s) && n <= |s|
    ensures InOrder(origin, s[..n]) && Sorted(s)
  {
  }

  /** Everything in order is accepted and stays in that order. */
  lemma {:induction false} InOrderIsAccepted<S, M>(origin: Filter<S>, maxAge: real, s: seq<Observation<M>>)
    requires InOrder(origin, s)
    ensures Run(origin, maxAge, s).log == s
  {
    hide Receive;
    if |s| > 0 {
      var init := s[..|s| - 1];
      InOrderIsAccepted(origin, maxAge, init);
      LastIsAccepted(origin, Run(origin, maxAge, init), maxAge, s);
    }
  }

  lemma LastIsAccepted<S, M>(origin: Filter<S>, h: History<M>, maxAge: real, s: seq<Observation<M>>)
    requires InOrder(origin, s) && s != [] && WellKept(h) && h.log == s[..|s| - 1]
    ensures Receive(origin, h, maxAge, s[|s| - 1]).log == s
  {
    hide Place;
    PlaceIs(h.log, s[|s| - 1].t, |h.log|);
    assert s == h.log + [s[|s| - 1]];
  }

  lemma {:induction false} RunIsInOrder<S, M>(origin: Filter<S>, maxAge: real, arrivals: seq<Observation<M>>)
    ensures InOrder(origin, Run(origin, maxAge, arrivals).log)
  {
    if |arrivals| > 0 {
      RunIsInOrder(origin, maxAge, arrivals[..|arrivals| - 1]);
      ReceiveKeepsOrder(origin, Run(origin, maxAge, arrivals[..|arrivals| - 1]), maxAge, arrivals[|arrivals| - 1]);
    }
  }

  lemma ReceiveKeepsOrder<S, M>(origin: Filter<S>, h: History<M>, maxAge: real, o: Observation<M>)
    requires WellKept(h) && InOrder(origin, h.log)
    ensures InOrder(origin, Receive(origin, h, maxAge, o).log)
  {
    if Accepts(origin, h, maxAge, o.t) {
      InsertKeepsOrder(h.log, o);
      var log := Insert(h.log, o);
      if h.log != [] {
        assert h.log[0] == log[0] || log[0] == o;
      }
    }
  }

  /** Late arrivals end where feeding the accepted observations in time order ends. */
  lemma LateEqualsInOrder<S, M>(model: Model<S, M>, origin: Filter<S>, maxAge: real, arrivals: seq<Observation<M>>)
    ensures var sorted := SortByTime(Accepted(origin, maxAge, arrivals));
            && Run(origin, maxAge, sorted).log == sorted
            && Fold(model, origin, Run(origin, maxAge, arrivals).log)
                == Fold(model, origin, Run(origin, maxAge, sorted).log)
  {
    RunSortsAccepted(origin, maxAge, arrivals);
    RunIsInOrder(origin, maxAge, arrivals);
    InOrderIsAccepted(origin, maxAge, SortByTime(Accepted(origin, maxAge, arrivals)));
  }

  lemma FoldSnoc<S, M>(model: Model<S, M>, f: Filter<S>, log: seq<Observation<M>>, o: Observation<M>)
    ensures Fold(model, f, log + [o]) == Step(model, Fold(model, f, log), o)
  {
    assert (log + [o])[..|log + [o]| - 1] == log;
  }

  lemma NextInOrder<S, M>(model: Model<S, M>, origin: Filter<S>, log: seq<Observation<M>>, left: seq<Observation<M>>)
    requires InOrder(origin, log + left) && left != []
    ensures var f := Fold(model, origin, log); f.time.None? || f.time.value <= left[0].t
    ensures InOrder(origin, log + [left[0]])
    ensures log + left == log + [left[0]] + left[1..]
  {
    var all := log + left;
    assert all[|log|] == left[0];
    assert log != [] ==> all[|log| - 1] == log[|log| - 1];
    InOrderPrefix(origin, all, |log| + 1);
    assert all[..|log| + 1] == log + [left[0]];
  }

  // ---- Checkpoints

  /** The k-th checkpoint is the in-order state right after the k-th of the last log entries. */
  ghost predicate Checkpoints<S(!new), M(!new)>(model: Model<S, M>, origin: Filter<S>, log: seq<Observation<M>>,
                                                ts: seq<real>, states: seq<S>, obs: seq<Observation<M>>)
    ensures Checkpoints(model, origin, log, ts, states, obs) ==> |ts| == |states| == |obs| <= |log|
  {
    && |ts| == |states| == |obs| <= |log|
    && obs == log[|log| - |obs|..]
    && (forall k :: 0 <= k < |ts| ==> ts[k] == obs[k].t)
    && (forall k :: 0 <= k < |states| ==> states[k] == Fold(model, origin, log[..|log| - |states| + k + 1]).state)
  }

  lemma PopBack<T>(s: seq<T>, n: nat)
    requires 0 < n <= |s|
    ensures s[..n][..n - 1] == s[..n - 1] && s[..n][n - 1] == s[n - 1]
    ensures s[n - 1..] == [s[n - 1]] + s[n..]
  {
  }

  lemma CheckpointTimes<S(!new), M(!new)>(model: Model<S, M>, origin: Filter<S>, log: seq<Observation<M>>,
                                          ts: seq<real>, states: seq<S>, obs: seq<Observation<M>>)
    requires Checkpoints(model, origin, log, ts, states, obs) && ts != []
    ensures ts[0] == log[|log| - |ts|].t && ts[|ts| - 1] == log[|log| - 1].t
  {
    assert obs[0] == log[|log| - |ts|] && obs[|obs| - 1] == log[|log| - 1];
  }

  lemma CheckpointsExtend<S(!new), M(!new)>(model: Model<S, M>, origin: Filter<S>, log: seq<Observation<M>>,
                                            ts: seq<real>, states: seq<S>, obs: seq<Observation<M>>, o: Observation<M>)
    requires Checkpoints(model, origin, log, ts, states, obs)
    ensures Checkpoints(model, origin, log + [o], ts + [o.t],
                        states + [Step(model, Fold(model, origin, log), o).state], obs + [o])
  {
    hide Step;
    var log', states' := log + [o], states + [Step(model, Fold(model, origin, log), o).state];
    assert log'[..|log|] == log;
    forall k | 0 <= k < |states'|
      ensures states'[k] == Fold(model, origin, log'[..|log'| - |states'| + k + 1]).state
    {
      if k < |states| {
        assert log'[..|log'| - |states'| + k + 1] == log[..|log| - |states| + k + 1];
      } else {
        assert log'[..|log'| - |states'| + k + 1] == log';
      }
    }
  }

  lemma CheckpointsDropFirst<S(!new), M(!new)>(model: Model<S, M>, origin: Filter<S>, log: seq<Observation<M>>,
                                               ts: seq<real>, states: seq<S>, obs: seq<Observation<M>>)
    requires Checkpoints(model, origin, log, ts, states, obs) && |ts| > 0
    ensures Checkpoints(model, origin, log, ts[1..], states[1..], obs[1..])
  {
    hide Fold;
    assert forall k :: 0 <= k < |states[1..]| ==> states[1..][k] == states[k + 1];
  }

  lemma CheckpointsCut<S(!new), M(!new)>(model: Model<S, M>, origin: Filter<S>, log: seq<Observation<M>>,
                                         ts: seq<real>, states: seq<S>, obs: seq<Observation<M>>, n: nat)
    requires Checkpoints(model, origin, log, ts, states, obs) && n <= |ts|
    ensures Checkpoints(model, origin, log[..|log| - |ts| + n], ts[..n], states[..n], obs[..n])
  {
    hide Step;
    var keep := |log| - |ts| + n;
    forall k | 0 <= k < n
      ensures states[..n][k] == Fold(model, origin, log[..keep][..keep - n + k + 1]).state
    {
      assert log[..keep][..keep - n + k + 1] == log[..|log| - |states| + k + 1];
    }
  }

  /** The checkpoint the filter returns to is the in-order state before every later observation. */
  lemma CutPoint<S(!new), M(!new)>(model: Model<S, M>, origin: Filter<S>, log: seq<Observation<M>>,
                                   ts: seq<real>, states: seq<S>, obs: seq<Observation<M>>, n: nat, t: real)
    requires Checkpoints(model, origin, log, ts, states, obs) && InOrder(origin, log) && 0 < n <= |ts|
    requires ts[n - 1] <= t && forall k :: n <= k < |ts| ==> ts[k] > t
    ensures var keep := |log| - |ts| + n;
            && Place(log, t) == keep && log[keep..] == obs[n..]
            && Filter(Some(ts[n - 1]), states[n - 1]) == Fold(model, origin, log[..keep])
  {
    hide Fold, Place;
    var keep := |log| - |ts| + n;
    assert obs[n - 1] == log[keep - 1];
    forall i | keep <= i < |log|
      ensures log[i].t > t
    {
      assert obs[i - keep + n] == log[i];
    }
    PlaceIs(log, t, keep);
  }

  // ---- The filter object

  class EKFSym<S(!new), M(!new)> {
    const model: Model<S, M>
    const maxRewindAge: real
    var state: S
    var filterTime: Option<real>
    var rewindT: seq<real>
    var rewindStates: seq<S>
    var rewindObscache: seq<Observation<M>>
    ghost var origin: Filter<S>
    ghost var log: seq<Observation<M>>

    ghost function Now(): Filter<S>
      reads this
    {
      Filter(filterTime, state)
    }

    ghost function Past(): History<M>
      reads this
    {
      History(log, |rewindT|)
    }

    ghost predicate Valid()
      reads this
    {
      && Checkpoints(model, origin, log, rewindT, rewindStates, rewindObscache)
      && WellKept(Past())
      && InOrder(origin, log)
      && Now() == Fold(model, origin, log)
    }

    constructor (model: Model<S, M>, initial: S, maxRewindAge: real)
      ensures Valid() && log == [] && origin == Filter(None, initial)
      ensures this.model == model && this.maxRewindAge == maxRewindAge
    {
      this.model := model;
      this.maxRewindAge := maxRewindAge;
      state, filterTime := initial, None;
      rewindT, rewindStates, rewindObscache := [], [], [];
      origin, log := Filter(None, initial), [];
    }

    method InitState(initial: S, time: Option<real>)
      modifies this
      ensures Valid() && log == [] && origin == Filter(time, initial)
    {
      state, filterTime := initial, time;
      rewindT, rewindStates, rewindObscache := [], [], [];
      origin, log := Filter(time, initial), [];
    }

    method Predict(t: real)
      requires filterTime.None? || filterTime.value <= t
      modifies this`state, this`filterTime
      ensures Now() == Filter(Some(t), Predicted(model, old(Now()), t))
    {
      if filterTime.None? {
        filterTime := Some(t);
      }
      var dt := t - filterTime.value;
      assert dt >= 0.0;
      state := model.predict(state, dt);
      filterTime := Some(t);
    }

    /** `longer` is the log that `o` completes. */
    method Checkpoint(o: Observation<M>, ghost longer: seq<Observation<M>>)
      requires filterTime.Some? && |rewindT| == |rewindStates| == |rewindObscache| <= REWIND_TO_KEEP
      requires Checkpoints(model, origin, longer, rewindT + [filterTime.value],
                           rewindStates + [state], rewindObscache + [o])
      modifies this`rewindT, this`rewindStates, this`rewindObscache
      ensures Checkpoints(model, origin, longer, rewindT, rewindStates, rewindObscache)
      ensures |rewindT| == Clip(old(|rewindT|) + 1)
    {
      hide Checkpoints;
      rewindT := rewindT + [filterTime.value];
      rewindStates := rewindStates + [state];
      rewindObscache := rewindObscache + [o];
      if |rewindT| > REWIND_TO_KEEP {
        CheckpointsDropFirst(model, origin, longer, rewindT, rewindStates, rewindObscache);
        rewindT := rewindT[1..];
        rewindStates := rewindStates[1..];
        rewindObscache := rewindObscache[1..];
      }
    }

    /** The overload taking an Observation: one in-order step and its checkpoint. */
    method StepObservation(o: Observation<M>) returns (res: Estimate<S>)
      requires Valid()
      requires filterTime.None? || filterTime.value <= o.t
      modifies this`state, this`filterTime, this`rewindT, this`rewindStates, this`rewindObscache, this`log
      ensures Valid() && log == old(log) + [o]
      ensures |rewindT| == Clip(old(|rewindT|) + 1)
      ensures res == EstimateOf(model, old(Now()), o)
    {
      hide Checkpoints, Fold, Place;
      CheckpointsExtend(model, origin, log, rewindT, rewindStates, rewindObscache, o);
      ghost var before := Now();
      Predict(o.t);
      var predicted := state;
      for i := 0 to |o.batch|
        modifies this`state
        invariant state == Updates(model, predicted, o.kind, o.batch[..i])
      {
        assert o.batch[..i + 1][..i] == o.batch[..i];
        state := model.update(state, o.kind, o.batch[i]);
      }
      assert o.batch[..|o.batch|] == o.batch;
      assert Now() == Step(model, before, o);
      res := Estimate(o.t, o.kind, predicted, state);
      Checkpoint(o, log + [o]);
      FoldSnoc(model, origin, log, o);
      log := log + [o];
    }

    /** Pops the checkpoints later than `t`. */
    method PopLater(t: real) returns (rewound: seq<Observation<M>>)
      requires |rewindT| == |rewindStates| == |rewindObscache| > 0 && rewindT[0] <= t
      modifies this`rewindT, this`rewindStates, this`rewindObscache
      ensures 0 < |rewindT| <= |old(rewindT)| && rewindT[|rewindT| - 1] <= t
      ensures rewindT == old(rewindT)[..|rewindT|] && rewindStates == old(rewindStates)[..|rewindT|]
      ensures rewindObscache == old(rewindObscache)[..|rewindT|] && rewound == old(rewindObscache)[|rewindT|..]
      ensures forall k :: |rewindT| <= k < |old(rewindT)| ==> old(rewindT)[k] > t
    {
      rewound := [];
      while rewindT[|rewindT| - 1] > t
        invariant 0 < |rewindT| <= |old(rewindT)|
        invariant rewindT == old(rewindT)[..|rewindT|]
        invariant rewindStates == old(rewindStates)[..|rewindT|]
        invariant rewindObscache == old(rewindObscache)[..|rewindT|]
        invariant rewound == old(rewindObscache)[|rewindT|..]
        invariant forall k :: |rewindT| <= k < |old(rewindT)| ==> old(rewindT)[k] > t
        decreases |rewindT|
      {
        PopBack(old(rewindT), |rewindT|);
        PopBack(old(rewindStates), |rewindT|);
        PopBack(old(rewindObscache), |rewindT|);
        rewound := [rewindObscache[|rewindObscache| - 1]] + rewound;
        rewindT := rewindT[..|rewindT| - 1];
        rewindStates := rewindStates[..|rewindStates| - 1];
        rewindObscache := rewindObscache[..|rewindObscache| - 1];
      }
    }

    method Rewind(t: real) returns (rewound: seq<Observation<M>>)
      requires Valid() && |rewindT| > 0 && rewindT[0] <= t
      modifies this`state, this`filterTime, this`rewindT, this`rewindStates, this`rewindObscache, this`log
      ensures Valid() && |rewindT| > 0
      ensures log == old(log)[..Place(old(log), t)] && rewound == old(log)[Place(old(log), t)..]
      ensures |rewindT| + |rewound| == old(|rewindT|)
    {
      hide Checkpoints, Fold, Place, InOrder, Sorted;
      rewound := PopLater(t);
      filterTime := Some(rewindT[|rewindT| - 1]);
      state := rewindStates[|rewindStates| - 1];
      ghost var keep := |log| - |rewound|;
      CheckpointsCut(model, origin, log, old(rewindT), old(rewindStates), old(rewindObscache), |rewindT|);
      CutPoint(model, origin, log, old(rewindT), old(rewindStates), old(rewindObscache), |rewindT|, t);
      InOrderPrefix(origin, log, keep);
      log := log[..keep];
    }

    /** The fast forward. */
    method Replay(rewound: seq<Observation<M>>)
      requires Valid() && InOrder(origin, log + rewound)
      modifies this`state, this`filterTime, this`rewindT, this`rewindStates, this`rewindObscache, this`log
      ensures Valid() && log == old(log) + rewound
      ensures |rewindT| == Clip(old(|rewindT|) + |rewound|)
    {
      hide Checkpoints, Fold, InOrder;
      var left := rewound;
      while left != []
        invariant Valid() && |left| <= |rewound|
        invariant log + left == old(log) + rewound
        invariant |rewindT| == Clip(old(|rewindT|) + |rewound| - |left|)
        decreases |left|
      {
        NextInOrder(model, origin, log, left);
        var _ := StepObservation(left[0]);
        left := left[1..];
      }
      assert log + [] == log;
    }

    /** The public overload. */
    method PredictAndUpdateBatch(t: real, kind: int, batch: seq<M>) returns (res: Option<Estimate<S>>)
      requires Valid()
      modifies this
      ensures Valid() && origin == old(origin)
      ensures Past() == Receive(origin, old(Past()), maxRewindAge, Observation(t, kind, batch))
      ensures res.Some? <==> Accepts(origin, old(Past()), maxRewindAge, t)
      ensures res.Some? ==>
        res.value == EstimateOf(model, Fold(model, origin, old(log)[..Place(old(log), t)]), Observation(t, kind, batch))
    {
      hide Checkpoints, Fold, Place, EstimateOf, InOrder, Insert;
      ghost var place := Place(log, t);
      if rewindT != [] {
        CheckpointTimes(model, origin, log, rewindT, rewindStates, rewindObscache);
      }
      var o := Observation(t, kind, batch);
      var rewound := [];
      if filterTime.Some? && t < filterTime.value {
        if rewindT == [] || t < rewindT[0] || t < rewindT[|rewindT| - 1] - maxRewindAge {
          return None;
        }
        rewound := Rewind(t);
      }
      assert log == old(log)[..place] && rewound == old(log)[place..];
      var est := StepObservation(o);
      ReceiveKeepsOrder(origin, old(Past()), maxRewindAge, o);
      InsertSplits(old(log), o);
      Replay(rewound);
      res := Some(est);
    }

    /** Any run after InitState, in any arrival order, ends in the fold of the accepted observations in time order. */
    method ProcessRun(arrivals: seq<Observation<M>>)
      requires Valid() && log == []
      modifies this
      ensures Valid() && origin == old(origin)
      ensures log == SortByTime(Accepted(origin, maxRewindAge, arrivals))
      ensures Now() == Fold(model, origin, SortByTime(Accepted(origin, maxRewindAge, arrivals)))
    {
      hide Checkpoints, Fold, InOrder, Accepts, Receive, Accepted, SortByTime, WellKept;
      for i := 0 to |arrivals|
        invariant Valid() && origin == old(origin)
        invariant Past() == Run(origin, maxRewindAge, arrivals[..i])
      {
        assert arrivals[..i + 1][..i] == arrivals[..i];
        var o := arrivals[i];
        var _ := PredictAndUpdateBatch(o.t, o.kind, o.batch);
      }
      assert arrivals[..|arrivals|] == arrivals;
      RunSortsAccepted(origin, maxRewindAge, arrivals);
    }
  }

  /**
   * A filter that only keeps the clock, run over any arrivals: the accepted
   * observations were predicted to one by one and applied at their own times,
   * in time order, however late they came.
   */
  method ClockedRun<M(!new)>(start: real, maxRewindAge: real, arrivals: seq<Observation<M>>)
    returns (state: Clock<M>)
    ensures var sorted := SortByTime(Accepted(Filter(Some(start), state), maxRewindAge, arrivals));
            state == if sorted == [] then Clock(start, 0, [])
                     else Clock(sorted[|sorted| - 1].t, |sorted|, AllMeasured(sorted))
  {
    hide Fold, SortByTime, Accepted, AllMeasured;
    var initial: Clock<M> := Clock(start, 0, []);
    var filter := new EKFSym(ClockModel(), initial, maxRewindAge);
    filter.InitState(initial, Some(start));
    filter.ProcessRun(arrivals);
    state := filter.state;
    ghost var sorted := SortByTime(Accepted(filter.origin, maxRewindAge, arrivals));
    SameAccepted(filter.origin, Filter(Some(start), state), maxRewindAge, arrivals);
    if sorted != [] {
      FoldClock(filter.origin, sorted);
    }
  }

  /** What is accepted does not depend on the state. */
  lemma {:induction false} SameAccepted<S, M>(a: Filter<S>, b: Filter<S>, maxAge: real, arrivals: seq<Observation<M>>)
    requires a.time == b.time
    ensures Run(a, maxAge, arrivals) == Run(b, maxAge, arrivals)
    ensures Accepted(a, maxAge, arrivals) == Accepted(b, maxAge, arrivals)
  {
    if |arrivals| > 0 {
      SameAccepted(a, b, maxAge, arrivals[..|arrivals| - 1]);
    }
  }
}
