/** Greedy nearest-neighbour association of plots with predicted tracks, over an abstract distance. */
module PlotAssociation {
  import opened Machine

  /** A plot is eligible within the threshold and below the largest representable distance, from which the
      search for a minimum starts. */
  datatype Gate = Gate(threshold: real, largest: real) {
    predicate Reaches(d: real) {
      d < largest && d <= threshold
    }
  }

  datatype Prediction<F> = Prediction(trackId: nat, filter: F)

  datatype Association = Association(trackId: nat, plotIndex: nat, distance: real)

  // ----- what a greedy matching is -----

  /** The plots chosen so far; one choice for each prediction. */
  function TakenBy(choice: seq<Option<nat>>): set<nat> {
    if choice == [] then {}
    else
      var last := choice[|choice| - 1];
      TakenBy(choice[..|choice| - 1]) + if last.Some? then {last.value} else {}
  }

  /** `pick` is the nearest plot not taken, the first of several equally near, if any is in the gate. */
  ghost predicate Picks<F, P>(metric: (F, P) -> real, filter: F, plots: seq<P>, gate: Gate, taken: set<nat>, pick: Option<nat>) {
    match pick
    case None => forall j :: 0 <= j < |plots| && j !in taken ==> !gate.Reaches(metric(filter, plots[j]))
    case Some(i) =>
      && i < |plots| && i !in taken && gate.Reaches(metric(filter, plots[i]))
      && forall j :: 0 <= j < |plots| && j !in taken && j != i ==>
           metric(filter, plots[i]) < metric(filter, plots[j]) || (metric(filter, plots[i]) == metric(filter, plots[j]) && i < j)
  }

  ghost predicate Greedy<F, P>(metric: (F, P) -> real, predictions: seq<Prediction<F>>, plots: seq<P>, gate: Gate,
                               choice: seq<Option<nat>>) {
    && |choice| <= |predictions|
    && forall t :: 0 <= t < |choice| ==> Picks(metric, predictions[t].filter, plots, gate, TakenBy(choice[..t]), choice[t])
  }

  /** The associations of a matching, in track order. */
  function Listed<F, P>(metric: (F, P) -> real, predictions: seq<Prediction<F>>, plots: seq<P>,
                        choice: seq<Option<nat>>): seq<Association>
    requires |choice| <= |predictions|
    requires forall t :: 0 <= t < |choice| && choice[t].Some? ==> choice[t].value < |plots|
  {
    if choice == [] then []
    else
      var t := |choice| - 1;
      Listed(metric, predictions, plots, choice[..t])
      + match choice[t]
        case None => []
        case Some(i) => [Association(predictions[t].trackId, i, metric(predictions[t].filter, plots[i]))]
  }

  /** The indices below `n` that are not taken, in increasing order. */
  function Leftover(taken: set<nat>, n: nat): seq<nat> {
    if n == 0 then []
    else Leftover(taken, n - 1) + if n - 1 in taken then [] else [n - 1]
  }

  // ----- what follows -----

  lemma {:induction false} TakenIff(choice: seq<Option<nat>>, i: nat)
    ensures i in TakenBy(choice) <==> exists t :: 0 <= t < |choice| && choice[t] == Some(i)
  {
    if choice != [] {
      var m := |choice| - 1;
      TakenIff(choice[..m], i);
      assert choice == choice[..m] + [choice[m]];
    }
  }

  /** The conditions leave no freedom: there is one greedy matching. */
  lemma {:induction false} GreedyIsUnique<F, P>(metric: (F, P) -> real, predictions: seq<Prediction<F>>, plots: seq<P>, gate: Gate,
                                                a: seq<Option<nat>>, b: seq<Option<nat>>)
    requires Greedy(metric, predictions, plots, gate, a) && Greedy(metric, predictions, plots, gate, b) && |a| == |b|
    ensures a == b
  {
    hide Picks;
    if a != [] {
      var m := |a| - 1;
      GreedyPrefix(metric, predictions, plots, gate, a, m);
      GreedyPrefix(metric, predictions, plots, gate, b, m);
      GreedyIsUnique(metric, predictions, plots, gate, a[..m], b[..m]);
      PickIsUnique(metric, predictions[m].filter, plots, gate, TakenBy(a[..m]), a[m], b[m]);
      SplitLast(a);
      SplitLast(b);
    }
  }

  lemma SplitLast<T>(s: seq<T>)
    requires s != []
    ensures s == s[..|s| - 1] + [s[|s| - 1]]
  {
  }

  lemma GreedyPrefix<F, P>(metric: (F, P) -> real, predictions: seq<Prediction<F>>, plots: seq<P>, gate: Gate,
                           choice: seq<Option<nat>>, m: nat)
    requires Greedy(metric, predictions, plots, gate, choice) && m <= |choice|
    ensures Greedy(metric, predictions, plots, gate, choice[..m])
  {
    assert forall t :: 0 <= t < m ==> choice[..m][..t] == choice[..t];
  }

  lemma PickIsUnique<F, P>(metric: (F, P) -> real, filter: F, plots: seq<P>, gate: Gate, taken: set<nat>,
                           a: Option<nat>, b: Option<nat>)
    requires Picks(metric, filter, plots, gate, taken, a) && Picks(metric, filter, plots, gate, taken, b)
    ensures a == b
  {
  }

  /** No plot goes to two tracks. */
  lemma GreedyIsInjective<F, P>(metric: (F, P) -> real, predictions: seq<Prediction<F>>, plots: seq<P>, gate: Gate,
                                choice: seq<Option<nat>>, s: nat, t: nat)
    requires Greedy(metric, predictions, plots, gate, choice)
    requires s < t < |choice| && choice[s].Some?
    ensures choice[t] != choice[s]
  {
    TakenIff(choice[..t], choice[s].value);
    assert choice[..t][s] == choice[s];
  }

  /** A track is denied a plot in its gate only in favour of a nearer one, or because an earlier track has it;
      in particular no unmatched track and leftover plot lie within the gate. */
  lemma DeniedOnlyForANearerOrEarlier<F, P>(metric: (F, P) -> real, predictions: seq<Prediction<F>>, plots: seq<P>, gate: Gate,
                                            choice: seq<Option<nat>>, t: nat, j: nat)
    requires Greedy(metric, predictions, plots, gate, choice) && t < |choice| && j < |plots|
    requires metric(predictions[t].filter, plots[j]) <= gate.threshold && metric(predictions[t].filter, plots[j]) < gate.largest
    requires choice[t] != Some(j)
    ensures (exists s :: 0 <= s < t && choice[s] == Some(j))
      || (choice[t].Some? && choice[t].value < |plots|
          && metric(predictions[t].filter, plots[choice[t].value]) <= metric(predictions[t].filter, plots[j]))
  {
    TakenIff(choice[..t], j);
    assert forall s :: 0 <= s < t ==> choice[..t][s] == choice[s];
  }

  /** A chosen plot is within the threshold, which itself still counts, and nearer than the largest distance. */
  lemma ChosenIsWithinTheGate<F, P>(metric: (F, P) -> real, predictions: seq<Prediction<F>>, plots: seq<P>, gate: Gate,
                                    choice: seq<Option<nat>>, t: nat)
    requires Greedy(metric, predictions, plots, gate, choice) && t < |choice| && choice[t].Some?
    ensures choice[t].value < |plots|
    ensures var d := metric(predictions[t].filter, plots[choice[t].value]); d <= gate.threshold && d < gate.largest
  {
    hide TakenBy;
    assert Picks(metric, predictions[t].filter, plots, gate, TakenBy(choice[..t]), choice[t]);
  }

  /** How many of the tracks were given a plot. */
  function Matched(choice: seq<Option<nat>>): nat {
    if choice == [] then 0 else Matched(choice[..|choice| - 1]) + if choice[|choice| - 1].Some? then 1 else 0
  }

  /** The list has one entry for each track that was given a plot, in track order: its identifier, that plot and the
      distance between them. */
  lemma {:induction false} ListedInTrackOrder<F, P>(metric: (F, P) -> real, predictions: seq<Prediction<F>>, plots: seq<P>,
                                                    choice: seq<Option<nat>>, t: nat)
    requires |choice| <= |predictions| && t < |choice|
    requires forall u :: 0 <= u < |choice| && choice[u].Some? ==> choice[u].value < |plots|
    ensures |Listed(metric, predictions, plots, choice)| == Matched(choice)
    ensures choice[t].Some? ==>
      && Matched(choice[..t]) < Matched(choice)
      && Listed(metric, predictions, plots, choice)[Matched(choice[..t])]
         == Association(predictions[t].trackId, choice[t].value, metric(predictions[t].filter, plots[choice[t].value]))
    decreases |choice|
  {
    var m := |choice| - 1;
    var front := choice[..m];
    if m == 0 {
      assert front == [] && choice[..t] == [];
    } else {
      ListedInTrackOrder(metric, predictions, plots, front, if t < m then t else 0);
      assert t < m ==> front[..t] == choice[..t];
    }
  }

  lemma {:induction false} LeftoverIsIncreasing(taken: set<nat>, n: nat)
    ensures forall a, b :: 0 <= a < b < |Leftover(taken, n)| ==> Leftover(taken, n)[a] < Leftover(taken, n)[b]
    ensures forall i :: i in Leftover(taken, n) <==> 0 <= i < n && i !in taken
  {
    if n > 0 {
      LeftoverIsIncreasing(taken, n - 1);
      var before := Leftover(taken, n - 1);
      assert forall a :: 0 <= a < |before| ==> before[a] in before;
    }
  }

  lemma {:induction false} LeftoverCount(taken: set<nat>, n: nat)
    requires forall i :: i in taken ==> i < n
    ensures |Leftover(taken, n)| + |taken| == n
  {
    if n > 0 {
      var rest := taken - {n - 1};
      LeftoverIgnores(taken, n - 1, n - 1);
      LeftoverCount(rest, n - 1);
      if n - 1 in taken {
        assert taken == rest + {n - 1};
      } else {
        assert taken == rest;
      }
    }
  }

  lemma {:induction false} LeftoverIgnores(taken: set<nat>, n: nat, x: nat)
    requires x >= n
    ensures Leftover(taken - {x}, n) == Leftover(taken, n)
  {
    if n > 0 {
      LeftoverIgnores(taken, n - 1, x);
    }
  }

  lemma {:induction false} ListedCount<F, P>(metric: (F, P) -> real, predictions: seq<Prediction<F>>, plots: seq<P>, gate: Gate,
                                             choice: seq<Option<nat>>)
    requires Greedy(metric, predictions, plots, gate, choice)
    ensures |Listed(metric, predictions, plots, choice)| == |TakenBy(choice)|
    ensures forall i :: i in TakenBy(choice) ==> i < |plots|
  {
    if choice != [] {
      var m := |choice| - 1;
      GreedyPrefix(metric, predictions, plots, gate, choice, m);
      ListedCount(metric, predictions, plots, gate, choice[..m]);
      assert Picks(metric, predictions[m].filter, plots, gate, TakenBy(choice[..m]), choice[m]);
    }
  }

  /** Associated plots and leftovers partition the plots. */
  lemma PlotsArePartitioned<F, P>(metric: (F, P) -> real, predictions: seq<Prediction<F>>, plots: seq<P>, gate: Gate,
                                  choice: seq<Option<nat>>)
    requires Greedy(metric, predictions, plots, gate, choice)
    ensures |Listed(metric, predictions, plots, choice)| + |Leftover(TakenBy(choice), |plots|)| == |plots|
    ensures forall i :: 0 <= i < |plots| ==>
      (i in Leftover(TakenBy(choice), |plots|) <==> !exists t :: 0 <= t < |choice| && choice[t] == Some(i))
  {
    ListedCount(metric, predictions, plots, gate, choice);
    LeftoverCount(TakenBy(choice), |plots|);
    LeftoverIsIncreasing(TakenBy(choice), |plots|);
    forall i | 0 <= i < |plots|
      ensures i in TakenBy(choice) <==> exists t :: 0 <= t < |choice| && choice[t] == Some(i)
    {
      TakenIff(choice, i);
    }
  }

  // ----- the associator -----

  /** The nearest of the first `n` plots not taken, searched from `largest` down. */
  ghost predicate BestSoFar<F, P>(metric: (F, P) -> real, filter: F, plots: seq<P>, largest: real, taken: set<nat>,
                                  n: nat, best: nat, distance: real) {
    && n <= |plots|
    && if best == |plots| then distance == largest && forall j :: 0 <= j < n && j !in taken ==> metric(filter, plots[j]) >= largest
       else
         && best < n && best !in taken && distance == metric(filter, plots[best]) < largest
         && forall j :: 0 <= j < n && j !in taken && j != best ==>
              distance < metric(filter, plots[j]) || (distance == metric(filter, plots[j]) && best < j)
  }

  class PlotAssociator<F, P> {
    var unassociatedPlots: seq<nat>

    constructor ()
      ensures unassociatedPlots == []
    {
      unassociatedPlots := [];
    }

    /** The search for the nearest plot not used, from the largest distance down. */
    static method Nearest(metric: (F, P) -> real, filter: F, plots: seq<P>, gate: Gate, usedPlots: set<nat>)
      returns (bestPlot: nat, bestDistance: real)
      ensures BestSoFar(metric, filter, plots, gate.largest, usedPlots, |plots|, bestPlot, bestDistance)
      ensures Picks(metric, filter, plots, gate, usedPlots,
                    if bestPlot < |plots| && bestDistance <= gate.threshold then Some(bestPlot) else None)
    {
      bestDistance := gate.largest;
      bestPlot := |plots|;
      for i := 0 to |plots|
        invariant BestSoFar(metric, filter, plots, gate.largest, usedPlots, i, bestPlot, bestDistance)
      {
        if i !in usedPlots {
          var distance := metric(filter, plots[i]);
          if distance < bestDistance {
            bestDistance := distance;
            bestPlot := i;
          }
        }
      }
    }

    method Associate(metric: (F, P) -> real, predictions: seq<Prediction<F>>, plots: seq<P>, gate: Gate)
      returns (associations: seq<Association>, ghost choice: seq<Option<nat>>)
      modifies this
      ensures Greedy(metric, predictions, plots, gate, choice) && |choice| == |predictions|
      ensures associations == Listed(metric, predictions, plots, choice)
      ensures unassociatedPlots == Leftover(TakenBy(choice), |plots|)
    {
      associations := [];
      choice := [];
      var usedPlots: set<nat> := {};
      for t := 0 to |predictions|
        invariant |choice| == t && Greedy(metric, predictions, plots, gate, choice)
        invariant usedPlots == TakenBy(choice)
        invariant associations == Listed(metric, predictions, plots, choice)
      {
        var bestPlot, bestDistance := Nearest(metric, predictions[t].filter, plots, gate, usedPlots);
        ghost var pick: Option<nat> := None;
        if bestPlot < |plots| && bestDistance <= gate.threshold {
          pick := Some(bestPlot);
          usedPlots := usedPlots + {bestPlot};
          associations := associations + [Association(predictions[t].trackId, bestPlot, bestDistance)];
        }
        GreedyExtends(metric, predictions, plots, gate, choice, pick);
        choice := choice + [pick];
      }
      unassociatedPlots := [];
      for i := 0 to |plots|
        invariant unassociatedPlots == Leftover(usedPlots, i)
      {
        if i !in usedPlots {
          unassociatedPlots := unassociatedPlots + [i];
        }
      }
    }
  }

  lemma GreedyExtends<F, P>(metric: (F, P) -> real, predictions: seq<Prediction<F>>, plots: seq<P>, gate: Gate,
                            choice: seq<Option<nat>>, pick: Option<nat>)
    requires Greedy(metric, predictions, plots, gate, choice) && |choice| < |predictions|
    requires Picks(metric, predictions[|choice|].filter, plots, gate, TakenBy(choice), pick)
    ensures Greedy(metric, predictions, plots, gate, choice + [pick])
    ensures TakenBy(choice + [pick]) == TakenBy(choice) + if pick.Some? then {pick.value} else {}
    ensures Listed(metric, predictions, plots, choice + [pick]) == Listed(metric, predictions, plots, choice)
      + match pick
        case None => []
        case Some(i) => [Association(predictions[|choice|].trackId, i, metric(predictions[|choice|].filter, plots[i]))]
  {
    var all := choice + [pick];
    assert all[..|choice|] == choice;
    assert forall t :: 0 <= t < |choice| ==> all[..t] == choice[..t];
  }
}
