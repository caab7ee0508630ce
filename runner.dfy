/**
 * Running one trial: every prisoner of the scenario in turn gets a scene
 * and plays it with the strategy; the trial stops with false at the first
 * prisoner who did not succeed and ends with true when all did.
 */
module Runner {
  import opened Permutations
  import opened Simulation
  import LoopStrategy
  import RandomStrategy

  /**
   * The strategy handed to the runner. The random strategy draws a fresh
   * shuffle of 1..n for each prisoner; those draws are supplied up front,
   * orders[p - 1] being the one prisoner p uses.
   */
  datatype Strategy = FollowLoop | RandomSearch(orders: seq<seq<int>>)

  /** The draws are there: one permutation of 1..n per prisoner. */
  predicate Supplies(strat: Strategy, n: nat) {
    strat.RandomSearch? ==>
      |strat.orders| == n && forall i :: 0 <= i < n ==> IsPermutation(strat.orders[i], n)
  }

  /** Prisoner p, playing `strat` on a fresh scene with these slips, finds the own slip in time. */
  ghost predicate Succeeds(strat: Strategy, slips: seq<int>, p: int) {
    InRange(slips) && 1 <= p <= |slips| &&
    match strat
    case FollowLoop => LoopStrategy.LoopSucceeds(slips, p)
    case RandomSearch(orders) =>
      |orders| == |slips| && IsPermutation(orders[p - 1], |slips|) &&
      RandomStrategy.RandomSucceeds(slips, p, orders[p - 1])
  }

  /** Plays one fresh scene with the strategy; the scene ends a success exactly when Succeeds says so. */
  method Apply(strat: Strategy, scene: Scene)
    requires scene.Valid() && scene.Untouched() && Supplies(strat, scene.Size())
    modifies scene, scene.room.boxes
    ensures scene.Valid() && scene.IsDone()
    ensures scene.IsSuccess() <==> Succeeds(strat, scene.Slips(), scene.currentPrisoner)
  {
    match strat
    case FollowLoop =>
      ghost var _ := LoopStrategy.TryPrisoner(scene);
    case RandomSearch(orders) =>
      ghost var _ := RandomStrategy.TryPrisoner(scene, orders[scene.currentPrisoner - 1]);
  }

  /**
   * One pass of the trial's loop: the next scene is taken from the scenario
   * and played. Nothing is played once the queue is empty; otherwise the
   * first queued prisoner is served, and the scene is a success exactly when
   * Succeeds says so.
   */
  method PlayNext(scenario: Scenario, strat: Strategy) returns (played: bool, success: bool)
    requires scenario.Valid() && Supplies(strat, scenario.Size())
    modifies scenario
    ensures scenario.Valid()
    ensures played <==> old(scenario.prisoners) != []
    ensures !played ==> scenario.prisoners == []
    ensures played ==>
      scenario.prisoners == old(scenario.prisoners)[1..] &&
      (success <==> Succeeds(strat, SlipsOf(scenario.template.boxes), old(scenario.prisoners)[0]))
  {
    var next := scenario.Next();
    if next.None? {
      return false, false;
    }
    var scene := next.value;
    Apply(strat, scene);
    return true, scene.IsSuccess();
  }

  /**
   * The trial: scenes are taken from the scenario one after the other. The
   * result is true exactly when every prisoner still queued succeeds; when
   * it is false, the prisoners before the failing one all succeeded and the
   * ones after it were never served.
   */
  method RunScenario(scenario: Scenario, strat: Strategy) returns (ok: bool)
    requires scenario.Valid() && Supplies(strat, scenario.Size())
    modifies scenario
    ensures scenario.Valid()
    ensures ok <==> forall i :: 0 <= i < |old(scenario.prisoners)| ==>
      Succeeds(strat, SlipsOf(scenario.template.boxes), old(scenario.prisoners)[i])
    ensures ok ==> scenario.prisoners == []
    ensures !ok ==>
      exists k :: 0 <= k < |old(scenario.prisoners)| &&
        scenario.prisoners == old(scenario.prisoners)[k + 1..] &&
        !Succeeds(strat, SlipsOf(scenario.template.boxes), old(scenario.prisoners)[k]) &&
        forall i :: 0 <= i < k ==> Succeeds(strat, SlipsOf(scenario.template.boxes), old(scenario.prisoners)[i])
  {
    ghost var queue := scenario.prisoners;
    ghost var slips := SlipsOf(scenario.template.boxes);
    ghost var served := 0;
    while true
      invariant scenario.Valid()
      invariant served <= |queue| && scenario.prisoners == queue[served..]
      invariant forall i :: 0 <= i < served ==> Succeeds(strat, slips, queue[i])
      decreases |queue| - served
    {
      var played, success := PlayNext(scenario, strat);
      if !played {
        return true;
      }
      if !success {
        assert scenario.prisoners == queue[served + 1..];
        return false;
      }
      served := served + 1;
    }
  }

  /**
   * A new scenario queues the prisoners 1..n, so a trial run on it is won
   * exactly when every one of the n prisoners succeeds.
   */
  lemma NewQueueIsEveryone(queue: seq<int>, n: nat, strat: Strategy, slips: seq<int>)
    requires queue == seq(n, i => i + 1)
    ensures (forall i :: 0 <= i < |queue| ==> Succeeds(strat, slips, queue[i])) <==>
      (forall p :: 1 <= p <= n ==> Succeeds(strat, slips, p))
  {
    if forall i :: 0 <= i < |queue| ==> Succeeds(strat, slips, queue[i]) {
      forall p | 1 <= p <= n
        ensures Succeeds(strat, slips, p)
      {
        assert queue[p - 1] == p;
      }
    }
  }
}
