/** When a lost track is published again: over every run, and in one. */
module LostTracks {
  import opened Machine
  import opened PlotAssociation
  import opened Tracks

  /** Track `i` was given a plot in call `t`. */
  ghost predicate WasHit(choices: seq<seq<Option<nat>>>, t: nat, i: nat) {
    t < |choices| && i < |choices[t]| && choices[t][i].Some?
  }

  /** Track `i` was given none in each of the calls from `a` up to `b`. */
  ghost predicate MissedFrom(choices: seq<seq<Option<nat>>>, a: nat, b: nat, i: nat) {
    forall t: nat :: a <= t < b ==> !WasHit(choices, t, i)
  }

  /** A call on one track. */
  lemma TrackStep<F, P>(c: Config, ph: Physics<F, P>, before: seq<Track<F>>, batches: seq<Batch<P>>, choice: seq<Option<nat>>,
                        after: seq<Track<F>>, i: nat)
    requires CallGives(c, ph, before, batches, choice, after) && i < |before|
    ensures i < |after| && |choice| == |before|
    ensures after[i].misses == if choice[i].Some? then 0 else before[i].misses + 1
    ensures before[i].lifecycle.Lost? ==>
      (!after[i].lifecycle.Lost? <==> choice[i].None? && c.coastAfterMisses <= before[i].misses + 1 < c.lostAfterMisses)
  {
    hide Plots, Latest, Leftover, TakenBy;
    ChoiceInRange(ph.distance, Predictions(AllPredicted(ph, before)), Plots(batches), c.gate, choice);
    if before[i].lifecycle.Lost? {
      LostReturnsIff(c, ph, Predicted(ph, before[i]), choice[i], Plots(batches), Latest(batches));
    }
  }

  lemma RunAt<F, P>(c: Config, ph: Physics<F, P>, calls: seq<seq<Batch<P>>>, choices: seq<seq<Option<nat>>>, trace: seq<seq<Track<F>>>,
                    t: nat, i: nat)
    requires Run(c, ph, calls, choices, trace) && t < |calls| && i < |trace[t]|
    ensures i < |trace[t + 1]| && i < |choices[t]|
    ensures trace[t + 1][i].misses == if WasHit(choices, t, i) then 0 else trace[t][i].misses + 1
    ensures trace[t][i].lifecycle.Lost? ==>
      (!trace[t + 1][i].lifecycle.Lost? <==>
        !WasHit(choices, t, i) && c.coastAfterMisses <= trace[t][i].misses + 1 < c.lostAfterMisses)
  {
    hide CallGives;
    TrackStep(c, ph, trace[t], calls[t], choices[t], trace[t + 1], i);
  }

  /** The misses of a track count the calls since its last hit. */
  lemma {:induction false} MissesSinceHit<F, P>(c: Config, ph: Physics<F, P>, calls: seq<seq<Batch<P>>>, choices: seq<seq<Option<nat>>>,
                                                trace: seq<seq<Track<F>>>, i: nat, from: nat, u: nat) returns (h: Option<nat>)
    requires Run(c, ph, calls, choices, trace) && from <= u <= |calls| && i < |trace[from]|
    ensures i < |trace[u]|
    ensures h.None? ==> MissedFrom(choices, from, u, i) && trace[u][i].misses == trace[from][i].misses + (u - from)
    ensures h.Some? ==> from <= h.value < u && WasHit(choices, h.value, i) && MissedFrom(choices, h.value + 1, u, i)
    ensures h.Some? ==> trace[u][i].misses == u - h.value - 1
    decreases u - from
  {
    hide Run, WasHit;
    h := None;
    if from < u {
      h := MissesSinceHit(c, ph, calls, choices, trace, i, from, u - 1);
      TraceLength(c, ph, calls, choices, trace);
      RunAt(c, ph, calls, choices, trace, u - 1, i);
      if WasHit(choices, u - 1, i) {
        h := Some(u - 1);
      }
    }
  }

  lemma TraceLength<F, P>(c: Config, ph: Physics<F, P>, calls: seq<seq<Batch<P>>>, choices: seq<seq<Option<nat>>>, trace: seq<seq<Track<F>>>)
    requires Run(c, ph, calls, choices, trace)
    ensures |trace| == |calls| + 1 && |choices| == |calls|
  {
  }

  lemma PhaseAt<F, P>(c: Config, ph: Physics<F, P>, calls: seq<seq<Batch<P>>>, choices: seq<seq<Option<nat>>>, trace: seq<seq<Track<F>>>,
                      t: nat, i: nat)
    requires 1 <= c.coastAfterMisses <= c.lostAfterMisses && Run(c, ph, calls, choices, trace) && t <= |calls| && i < |trace[t]|
    ensures Phase(c, trace[t][i])
  {
    hide CallGives, Phase;
    EveryRunIsConsistent(c, ph, calls[..t], choices[..t], trace[..t + 1]);
  }

  /** The first call after which a lost track is not lost. */
  lemma {:induction false} FirstReturn<F, P>(c: Config, ph: Physics<F, P>, calls: seq<seq<Batch<P>>>, choices: seq<seq<Option<nat>>>,
                                             trace: seq<seq<Track<F>>>, i: nat, from: nat, u: nat) returns (t: nat)
    requires Run(c, ph, calls, choices, trace) && from <= u <= |calls| && i < |trace[from]| && i < |trace[u]|
    requires trace[from][i].lifecycle.Lost? && !trace[u][i].lifecycle.Lost?
    ensures from < t <= u && i < |trace[t - 1]| && i < |trace[t]|
    ensures trace[t - 1][i].lifecycle.Lost? && !trace[t][i].lifecycle.Lost?
    decreases u - from
  {
    hide Run, WasHit;
    TraceLength(c, ph, calls, choices, trace);
    RunAt(c, ph, calls, choices, trace, from, i);
    if !trace[from + 1][i].lifecycle.Lost? {
      t := from + 1;
    } else {
      t := FirstReturn(c, ph, calls, choices, trace, i, from + 1, u);
    }
  }

  /** Call `h` hits the track and the `n` calls after it do not. */
  ghost predicate HitThenMissed(choices: seq<seq<Option<nat>>>, h: nat, n: nat, i: nat) {
    WasHit(choices, h, i) && MissedFrom(choices, h + 1, h + 1 + n, i)
  }

  /** A track that has just been lost is published again in the course of a run if and only if it is hit at some call
      and then missed `coastAfterMisses` times in a row, and coasting starts before losing. */
  lemma LostReturnsOverRunIff<F, P>(c: Config, ph: Physics<F, P>, calls: seq<seq<Batch<P>>>, choices: seq<seq<Option<nat>>>,
                                    trace: seq<seq<Track<F>>>, i: nat, from: nat)
    requires 1 <= c.coastAfterMisses <= c.lostAfterMisses && Run(c, ph, calls, choices, trace)
    requires from <= |calls| && i < |trace[from]| && trace[from][i].misses >= c.lostAfterMisses
    ensures (exists u: nat :: from <= u <= |calls| && i < |trace[u]| && !trace[u][i].lifecycle.Lost?)
       <==> (c.coastAfterMisses < c.lostAfterMisses
             && exists h: nat :: from <= h && h + c.coastAfterMisses < |calls| && HitThenMissed(choices, h, c.coastAfterMisses, i))
  {
    hide Run, WasHit, MissedFrom;
    TraceLength(c, ph, calls, choices, trace);
    PhaseAt(c, ph, calls, choices, trace, from, i);
    if exists u: nat :: from <= u <= |calls| && i < |trace[u]| && !trace[u][i].lifecycle.Lost? {
      var u: nat :| from <= u <= |calls| && i < |trace[u]| && !trace[u][i].lifecycle.Lost?;
      HitBeforeReturn(c, ph, calls, choices, trace, i, from, u);
    }
    if c.coastAfterMisses < c.lostAfterMisses
      && exists h: nat :: from <= h && h + c.coastAfterMisses < |calls| && HitThenMissed(choices, h, c.coastAfterMisses, i) {
      var h: nat :| from <= h && h + c.coastAfterMisses < |calls| && HitThenMissed(choices, h, c.coastAfterMisses, i);
      ReturnAfterHit(c, ph, calls, choices, trace, i, from, h);
    }
  }

  lemma HitBeforeReturn<F, P>(c: Config, ph: Physics<F, P>, calls: seq<seq<Batch<P>>>, choices: seq<seq<Option<nat>>>,
                              trace: seq<seq<Track<F>>>, i: nat, from: nat, u: nat)
    requires 1 <= c.coastAfterMisses && Run(c, ph, calls, choices, trace)
    requires from <= u <= |calls| && i < |trace[from]| && i < |trace[u]|
    requires trace[from][i].lifecycle.Lost? && trace[from][i].misses >= c.lostAfterMisses && !trace[u][i].lifecycle.Lost?
    ensures c.coastAfterMisses < c.lostAfterMisses
    ensures exists h: nat :: from <= h && h + c.coastAfterMisses < |calls| && HitThenMissed(choices, h, c.coastAfterMisses, i)
  {
    hide Run, WasHit;
    TraceLength(c, ph, calls, choices, trace);
    var t := FirstReturn(c, ph, calls, choices, trace, i, from, u);
    RunAt(c, ph, calls, choices, trace, t - 1, i);
    var h := MissesSinceHit(c, ph, calls, choices, trace, i, from, t);
    assert h.Some?;
    assert HitThenMissed(choices, h.value, c.coastAfterMisses, i);
  }

  lemma ReturnAfterHit<F, P>(c: Config, ph: Physics<F, P>, calls: seq<seq<Batch<P>>>, choices: seq<seq<Option<nat>>>,
                             trace: seq<seq<Track<F>>>, i: nat, from: nat, h: nat)
    requires 1 <= c.coastAfterMisses < c.lostAfterMisses && Run(c, ph, calls, choices, trace)
    requires from <= h && h + c.coastAfterMisses < |calls| && i < |trace[from]| && HitThenMissed(choices, h, c.coastAfterMisses, i)
    ensures var u := h + 1 + c.coastAfterMisses; i < |trace[u]| && trace[u][i].lifecycle.Coasting?
  {
    hide Run, WasHit, Phase;
    TraceLength(c, ph, calls, choices, trace);
    var _ := MissesSinceHit(c, ph, calls, choices, trace, i, from, h);
    RunAt(c, ph, calls, choices, trace, h, i);
    var u := h + 1 + c.coastAfterMisses;
    var again := MissesSinceHit(c, ph, calls, choices, trace, i, h + 1, u);
    assert again.None?;
    PhaseAt(c, ph, calls, choices, trace, u, i);
    CoastingPhase(c, trace[u][i]);
  }

  lemma CoastingPhase<F>(c: Config, s: Track<F>)
    requires Phase(c, s) && c.coastAfterMisses <= s.misses < c.lostAfterMisses
    ensures s.lifecycle.Coasting?
  {
  }

  // ----- one run -----

  const SMALL := Config(1, 1, 2, Gate(1.0, 2.0))

  /** Everything is in the same place. */
  const STILL: Physics<int, int> := Physics((f: int) => f, (f: int, p: int) => f, (p: int) => p, (f: int, p: int) => 0.0, (p: int) => 0)

  const ONE_PLOT: seq<Batch<int>> := [Batch(0, Some([0]))]

  lemma OnePlot()
    ensures Plots(ONE_PLOT) == [0] && Latest(ONE_PLOT) == 0
  {
    assert ONE_PLOT[..0] == [];
    assert Plots(ONE_PLOT[..0]) == [];
  }

  lemma PlotOnNothing()
    ensures CallGives(SMALL, STILL, [], ONE_PLOT, [], [Created(STILL, 1, 0, 0)])
  {
    OnePlot();
    assert Leftover({}, 1) == [0] by { assert Leftover({}, 0) == []; }
    assert AllCreated(STILL, 1, [0], [0], 0) == [Created(STILL, 1, 0, 0)];
    assert AllJudged(SMALL, STILL, AllPredicted(STILL, []), [], [0], 0) == [];
  }

  lemma NoPlot(x: Track<int>)
    ensures CallGives(SMALL, STILL, [x], [], [None], [Missed(SMALL, Predicted(STILL, x), 0)])
  {
    assert Plots<int>([]) == [] && Latest<int>([]) == 0;
    assert AllPredicted(STILL, [x]) == [Predicted(STILL, x)];
    assert AllJudged(SMALL, STILL, [Predicted(STILL, x)], [None], [], 0) == [Missed(SMALL, Predicted(STILL, x), 0)];
    assert AllCreated<int, int>(STILL, 2, [], [], 0) == [];
    assert Leftover(TakenBy([None]), 0) == [];
  }

  lemma PlotOnTrack(x: Track<int>)
    ensures CallGives(SMALL, STILL, [x], ONE_PLOT, [Some(0)], [Hit(SMALL, STILL, Predicted(STILL, x), 0, 0)])
  {
    OnePlot();
    var choice: seq<Option<nat>> := [Some(0)];
    assert choice[..0] == [];
    assert TakenBy(choice) == {0};
    assert Leftover({0}, 1) == [] by { assert Leftover({0}, 0) == []; }
    assert AllPredicted(STILL, [x]) == [Predicted(STILL, x)];
    assert AllJudged(SMALL, STILL, [Predicted(STILL, x)], choice, [0], 0) == [Hit(SMALL, STILL, Predicted(STILL, x), 0, 0)];
    assert AllCreated(STILL, 2, [], [0], 0) == [];
  }

  /** A track that is created, missed twice and lost, then hit, and then missed again: the hit leaves it lost, and the
      miss publishes it. */
  lemma LostTrackComesBack() returns (calls: seq<seq<Batch<int>>>, choices: seq<seq<Option<nat>>>, trace: seq<seq<Track<int>>>)
    ensures Run(SMALL, STILL, calls, choices, trace) && |calls| == 5 && forall t :: 1 <= t <= 5 ==> |trace[t]| == 1
    ensures trace[4][0].misses == 0 && trace[4][0].coastFrames == 2
    ensures trace[3][0].lifecycle.Lost? && WasHit(choices, 3, 0) && trace[4][0].lifecycle.Lost? && Published(trace[4]) == []
    ensures trace[5][0].lifecycle.Coasting? && Published(trace[5]) == trace[5]
  {
    hide CallGives;
    var a := Created(STILL, 1, 0, 0);
    var b := Missed(SMALL, Predicted(STILL, a), 0);
    var d := Missed(SMALL, Predicted(STILL, b), 0);
    var e := Hit(SMALL, STILL, Predicted(STILL, d), 0, 0);
    var f := Missed(SMALL, Predicted(STILL, e), 0);
    calls := [ONE_PLOT, [], [], ONE_PLOT, []];
    choices := [[], [None], [None], [Some(0)], [None]];
    trace := [[], [a], [b], [d], [e], [f]];
    PlotOnNothing();
    NoPlot(a);
    NoPlot(b);
    PlotOnTrack(d);
    NoPlot(e);
    PublishedOne(e);
    PublishedOne(f);
  }

  lemma PublishedOne(x: Track<int>)
    ensures Published([x]) == if x.lifecycle.Lost? then [] else [x]
  {
    assert [x][..0] == [];
    assert Published<int>([]) == [];
  }
}
