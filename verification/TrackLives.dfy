/** The life of one track over a run, from its own hits and misses: its counts, its lifecycle and its filter. */
module TrackLives {
  import opened Machine
  import opened PlotAssociation
  import opened Tracks
  import opened LostTracks

  /** Track `i` was created by call `b`. */
  ghost predicate Born<F>(trace: seq<seq<Track<F>>>, b: nat, i: nat) {
    b + 1 < |trace| && |trace[b]| <= i < |trace[b + 1]|
  }

  // ----- one call on one track -----

  /** The plot that call `t` gives to track `i`, which existed before it. */
  ghost function GivenPlot<P>(calls: seq<seq<Batch<P>>>, choices: seq<seq<Option<nat>>>, t: nat, i: nat): Option<P>
    requires t < |calls| && t < |choices|
  {
    if i < |choices[t]| && choices[t][i].Some? && choices[t][i].value < |Plots(calls[t])| then Some(Plots(calls[t])[choices[t][i].value])
    else None
  }

  /** The plot that call `b` creates track `i` from: the first left over for the first new track, and so on. */
  ghost function FirstPlot<F, P>(calls: seq<seq<Batch<P>>>, choices: seq<seq<Option<nat>>>, trace: seq<seq<Track<F>>>, b: nat, i: nat): Option<P>
    requires b < |calls| && b < |choices| && b < |trace|
  {
    var which := Leftover(TakenBy(choices[b]), |Plots(calls[b])|);
    var n := i - |trace[b]|;
    if 0 <= n < |which| && which[n] < |Plots(calls[b])| then Some(Plots(calls[b])[which[n]]) else None
  }

  /** A track as created. */
  ghost predicate AsCreated<F, P>(ph: Physics<F, P>, s: Track<F>, id: nat, plot: P, ts: u64) {
    && s.id == id && s.lifecycle.Tentative? && s.hits == 1 && s.misses == s.coastFrames == 0
    && s.filter == ph.init(plot) && s.arrayId == ph.arrayOf(plot) && s.createTs == ts && s.updateTs == ts
  }

  lemma BirthAt<F, P>(c: Config, ph: Physics<F, P>, before: seq<Track<F>>, batches: seq<Batch<P>>, choice: seq<Option<nat>>, after: seq<Track<F>>, i: nat)
    requires CallGives(c, ph, before, batches, choice, after) && |before| <= i < |after|
    ensures var which := Leftover(TakenBy(choice), |Plots(batches)|);
      && i - |before| < |which| && which[i - |before|] < |Plots(batches)|
      && AsCreated(ph, after[i], i + 1, Plots(batches)[which[i - |before|]], Latest(batches))
  {
    hide Plots, Latest, Leftover, TakenBy, Greedy;
  }

  /** A track after a call that gave it `plot`, or none. */
  ghost predicate Lived<F, P>(c: Config, ph: Physics<F, P>, s: Track<F>, plot: Option<P>, s': Track<F>) {
    match plot
    case Some(p) =>
      && s'.hits == s.hits + 1 && s'.misses == 0 && s'.filter == ph.update(ph.predict(s.filter), p) && s'.arrayId == ph.arrayOf(p)
      && s'.coastFrames == s.coastFrames
      && (s'.lifecycle.Lost? <==> s.lifecycle.Lost?)
      && (s'.lifecycle.Tentative? <==> s.lifecycle.Tentative? && s.hits + 1 < c.confirmHits)
      && !s'.lifecycle.Coasting?
    case None =>
      && s'.hits == s.hits && s'.misses == s.misses + 1 && s'.filter == ph.predict(s.filter) && s'.arrayId == s.arrayId
      && s'.coastFrames == s'.misses
      && (s'.lifecycle.Lost? <==> s'.misses >= c.lostAfterMisses || (s.lifecycle.Lost? && s'.misses < c.coastAfterMisses))
      && (s'.lifecycle.Tentative? <==> s.lifecycle.Tentative? && s'.misses < c.lostAfterMisses && s'.misses < c.coastAfterMisses)
  }

  lemma JudgedLives<F, P>(c: Config, ph: Physics<F, P>, s: Track<F>, pick: Option<nat>, plots: seq<P>, ts: u64)
    ensures Lived(c, ph, s, if pick.Some? && pick.value < |plots| then Some(plots[pick.value]) else None,
                  Judged(c, ph, Predicted(ph, s), pick, plots, ts))
  {
  }

  lemma LivesThrough<F, P>(c: Config, ph: Physics<F, P>, calls: seq<seq<Batch<P>>>, choices: seq<seq<Option<nat>>>,
                           trace: seq<seq<Track<F>>>, t: nat, i: nat)
    requires Run(c, ph, calls, choices, trace) && t < |calls| && i < |trace[t]|
    ensures i < |trace[t + 1]| && Lived(c, ph, trace[t][i], GivenPlot(calls, choices, t, i), trace[t + 1][i])
    ensures GivenPlot(calls, choices, t, i).Some? <==> WasHit(choices, t, i)
  {
    hide Lived, Judged;
    CallOnTrack(c, ph, trace[t], calls[t], choices[t], trace[t + 1], i);
  }

  lemma CallOnTrack<F, P>(c: Config, ph: Physics<F, P>, before: seq<Track<F>>, batches: seq<Batch<P>>, choice: seq<Option<nat>>,
                          after: seq<Track<F>>, i: nat)
    requires CallGives(c, ph, before, batches, choice, after) && i < |before|
    ensures i < |after| && |choice| == |before| && (choice[i].Some? ==> choice[i].value < |Plots(batches)|)
    ensures Lived(c, ph, before[i], if choice[i].Some? then Some(Plots(batches)[choice[i].value]) else None, after[i])
  {
    hide Plots, Latest, Leftover, TakenBy, Lived, Judged, Greedy;
    ChoiceInRange(ph.distance, Predictions(AllPredicted(ph, before)), Plots(batches), c.gate, choice);
    JudgedLives(c, ph, before[i], choice[i], Plots(batches), Latest(batches));
  }

  // ----- the whole life -----

  /** The calls after `b` and before `u` that hit the track. */
  ghost function HitCount(choices: seq<seq<Option<nat>>>, b: nat, u: nat, i: nat): nat {
    if u <= b + 1 then 0 else HitCount(choices, b, u - 1, i) + if WasHit(choices, u - 1, i) then 1 else 0
  }

  /** The filter, from the plots of this track alone: made from the first, then predicted at each call and updated by each plot given. */
  ghost function Replayed<F, P>(ph: Physics<F, P>, calls: seq<seq<Batch<P>>>, choices: seq<seq<Option<nat>>>, first: P, b: nat, u: nat, i: nat): F
    requires u <= |calls| == |choices|
  {
    if u <= b + 1 then ph.init(first)
    else
      var before := ph.predict(Replayed(ph, calls, choices, first, b, u - 1, i));
      match GivenPlot(calls, choices, u - 1, i)
      case Some(p) => ph.update(before, p)
      case None => before
  }

  /** Its misses never reached the coasting limit. */
  ghost predicate NeverSlipped<F>(c: Config, trace: seq<seq<Track<F>>>, b: nat, u: nat, i: nat)
    requires u < |trace|
  {
    forall v :: b < v <= u ==> i < |trace[v]| && trace[v][i].misses < c.coastAfterMisses
  }

  /** After call `v - 1` it had reached the losing limit, and since then its misses have not passed between the two limits. */
  ghost predicate LostSince<F>(c: Config, trace: seq<seq<Track<F>>>, v: nat, u: nat, i: nat)
    requires v <= u < |trace|
  {
    && i < |trace[v]| && trace[v][i].misses >= c.lostAfterMisses
    && forall w :: v < w <= u ==> i < |trace[w]| && !(c.coastAfterMisses <= trace[w][i].misses < c.lostAfterMisses)
  }

  ghost predicate IsLost<F>(c: Config, trace: seq<seq<Track<F>>>, b: nat, u: nat, i: nat)
    requires u < |trace|
  {
    exists v :: b < v <= u && LostSince(c, trace, v, u, i)
  }

  /** The track after call `u - 1`, from its hits and misses since call `b` created it. */
  ghost predicate AsLived<F>(c: Config, choices: seq<seq<Option<nat>>>, trace: seq<seq<Track<F>>>, b: nat, u: nat, i: nat)
    requires u < |trace| && i < |trace[u]|
  {
    var s := trace[u][i];
    && s.hits == 1 + HitCount(choices, b, u, i)
    && (s.lifecycle.Lost? <==> IsLost(c, trace, b, u, i))
    && (s.lifecycle.Coasting? <==> c.coastAfterMisses <= s.misses < c.lostAfterMisses)
    && (s.lifecycle.Tentative? <==> NeverSlipped(c, trace, b, u, i) && (s.hits == 1 || s.hits < c.confirmHits))
  }

  lemma NotLostAtBirth<F>(c: Config, trace: seq<seq<Track<F>>>, b: nat, i: nat)
    requires 1 <= c.coastAfterMisses <= c.lostAfterMisses && Born(trace, b, i) && trace[b + 1][i].misses == 0
    ensures NeverSlipped(c, trace, b, b + 1, i) && !IsLost(c, trace, b, b + 1, i)
  {
  }

  lemma SlippedGrows<F>(c: Config, trace: seq<seq<Track<F>>>, b: nat, u: nat, i: nat)
    requires b < u && u + 1 < |trace| && i < |trace[u + 1]|
    ensures NeverSlipped(c, trace, b, u + 1, i) <==> NeverSlipped(c, trace, b, u, i) && trace[u + 1][i].misses < c.coastAfterMisses
  {
  }

  lemma LostGrows<F>(c: Config, trace: seq<seq<Track<F>>>, b: nat, u: nat, i: nat)
    requires b < u && u + 1 < |trace| && i < |trace[u + 1]|
    ensures var m := trace[u + 1][i].misses;
      IsLost(c, trace, b, u + 1, i) <==>
        m >= c.lostAfterMisses || (IsLost(c, trace, b, u, i) && !(c.coastAfterMisses <= m < c.lostAfterMisses))
  {
    var m := trace[u + 1][i].misses;
    if m >= c.lostAfterMisses {
      assert LostSince(c, trace, u + 1, u + 1, i);
    }
    if IsLost(c, trace, b, u, i) && !(c.coastAfterMisses <= m < c.lostAfterMisses) {
      var v :| b < v <= u && LostSince(c, trace, v, u, i);
      assert LostSince(c, trace, v, u + 1, i);
    }
    if IsLost(c, trace, b, u + 1, i) && m < c.lostAfterMisses {
      var v :| b < v <= u + 1 && LostSince(c, trace, v, u + 1, i);
      assert LostSince(c, trace, v, u, i);
    }
  }

  lemma LivesOneMore<F, P>(c: Config, ph: Physics<F, P>, calls: seq<seq<Batch<P>>>, choices: seq<seq<Option<nat>>>,
                           trace: seq<seq<Track<F>>>, b: nat, u: nat, i: nat)
    requires 1 <= c.coastAfterMisses <= c.lostAfterMisses && Run(c, ph, calls, choices, trace) && b < u < |calls|
    requires |trace| == |calls| + 1 && i < |trace[u]| && AsLived(c, choices, trace, b, u, i)
    ensures i < |trace[u + 1]| && AsLived(c, choices, trace, b, u + 1, i)
  {
    hide Run, WasHit, NeverSlipped, IsLost;
    LivesThrough(c, ph, calls, choices, trace, u, i);
    SlippedGrows(c, trace, b, u, i);
    LostGrows(c, trace, b, u, i);
    PhaseAt(c, ph, calls, choices, trace, u + 1, i);
  }

  /** Over every run: a track's hits are one more than the calls that gave it a plot; it is Coasting exactly between the
      two limits; Lost exactly when its misses reached the losing limit and have not passed between the limits since;
      Tentative exactly while it never reached the coasting limit and its hits are below the confirming limit, or it has
      only the first; and Confirmed otherwise. */
  lemma {:induction false} LifecycleIsHistory<F, P>(c: Config, ph: Physics<F, P>, calls: seq<seq<Batch<P>>>, choices: seq<seq<Option<nat>>>,
                                                    trace: seq<seq<Track<F>>>, b: nat, u: nat, i: nat)
    requires 1 <= c.coastAfterMisses <= c.lostAfterMisses && Run(c, ph, calls, choices, trace) && Born(trace, b, i) && b < u <= |calls|
    ensures |trace| == |calls| + 1 && i < |trace[u]| && AsLived(c, choices, trace, b, u, i)
    decreases u
  {
    hide Run, AsLived;
    TraceLength(c, ph, calls, choices, trace);
    if u == b + 1 {
      BornAsLived(c, ph, calls, choices, trace, b, i);
    } else {
      LifecycleIsHistory(c, ph, calls, choices, trace, b, u - 1, i);
      LivesOneMore(c, ph, calls, choices, trace, b, u - 1, i);
    }
  }

  lemma BornAsLived<F, P>(c: Config, ph: Physics<F, P>, calls: seq<seq<Batch<P>>>, choices: seq<seq<Option<nat>>>, trace: seq<seq<Track<F>>>, b: nat, i: nat)
    requires 1 <= c.coastAfterMisses <= c.lostAfterMisses && Run(c, ph, calls, choices, trace) && Born(trace, b, i) && |trace| == |calls| + 1
    ensures AsLived(c, choices, trace, b, b + 1, i)
  {
    hide CallGives, NeverSlipped, IsLost;
    BirthAt(c, ph, trace[b], calls[b], choices[b], trace[b + 1], i);
    NotLostAtBirth(c, trace, b, i);
  }

  /** Over every run a track's filter is what its own plots make of it: it is made from the plot left over for it, then
      predicted at each call and updated by each plot given to it, and by no other. */
  lemma {:induction false} FilterIsReplayed<F, P>(c: Config, ph: Physics<F, P>, calls: seq<seq<Batch<P>>>, choices: seq<seq<Option<nat>>>,
                                                  trace: seq<seq<Track<F>>>, b: nat, u: nat, i: nat)
    requires Run(c, ph, calls, choices, trace) && Born(trace, b, i) && b < u <= |calls|
    ensures |trace| == |calls| + 1 && |choices| == |calls| && i < |trace[u]|
    ensures FirstPlot(calls, choices, trace, b, i).Some?
    ensures trace[u][i].filter == Replayed(ph, calls, choices, FirstPlot(calls, choices, trace, b, i).value, b, u, i)
    decreases u
  {
    hide CallGives, Plots, Leftover, TakenBy, Latest;
    BirthAt(c, ph, trace[b], calls[b], choices[b], trace[b + 1], i);
    if u > b + 1 {
      FilterIsReplayed(c, ph, calls, choices, trace, b, u - 1, i);
      LivesThrough(c, ph, calls, choices, trace, u - 1, i);
    }
  }

  /** Every call since its creation gave the track a plot. */
  ghost predicate AlwaysHit(choices: seq<seq<Option<nat>>>, b: nat, u: nat, i: nat) {
    forall t :: b < t < u ==> WasHit(choices, t, i)
  }

  /** A hit resets the misses and leaves the published count of coasted frames as it was: over every run the two agree if
      and only if the last call missed the track, or none ever did. */
  lemma {:induction false} CoastFramesCurrentIff<F, P>(c: Config, ph: Physics<F, P>, calls: seq<seq<Batch<P>>>, choices: seq<seq<Option<nat>>>,
                                                       trace: seq<seq<Track<F>>>, b: nat, u: nat, i: nat)
    requires Run(c, ph, calls, choices, trace) && Born(trace, b, i) && b < u <= |calls|
    ensures |trace| == |calls| + 1 && i < |trace[u]|
    ensures trace[u][i].coastFrames == trace[u][i].misses <==> (b + 1 < u && !WasHit(choices, u - 1, i)) || AlwaysHit(choices, b, u, i)
    ensures trace[u][i].coastFrames == 0 <==> AlwaysHit(choices, b, u, i)
    decreases u
  {
    hide CallGives, WasHit, Plots, Leftover, TakenBy, Latest;
    if u == b + 1 {
      BirthAt(c, ph, trace[b], calls[b], choices[b], trace[b + 1], i);
    } else {
      CoastFramesCurrentIff(c, ph, calls, choices, trace, b, u - 1, i);
      LivesThrough(c, ph, calls, choices, trace, u - 1, i);
      assert AlwaysHit(choices, b, u, i) <==> AlwaysHit(choices, b, u - 1, i) && WasHit(choices, u - 1, i);
    }
  }
}
