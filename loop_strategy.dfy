/**
 * The cycle-following strategy: open the own box, then always the box
 * numbered by the slip just found, until the scene refuses with OutOfGuesses.
 */
module LoopStrategy {
  import opened Permutations
  import opened Simulation

  /**
   * The k-th box of the chain that starts at box p: box p itself, then the
   * box numbered by the slip in the previous one.
   */
  function ChainBox(slips: seq<int>, p: int, k: nat): (b: int)
    requires InRange(slips) && 1 <= p <= |slips|
    ensures 1 <= b <= |slips|
  {
    if k == 0 then p else slips[ChainBox(slips, p, k - 1) - 1]
  }

  /**
   * The strategy's outcome for prisoner p: with no budget the scene is a
   * success from the start; otherwise the own slip must appear within the
   * first size / 2 boxes of the chain, i.e. ChainBox(j) == p for some
   * 1 <= j <= size / 2.
   */
  ghost predicate LoopSucceeds(slips: seq<int>, p: int)
    requires InRange(slips) && 1 <= p <= |slips|
  {
    |slips| / 2 == 0 || exists j :: 1 <= j <= |slips| / 2 && ChainBox(slips, p, j) == p
  }

  /** The first k boxes of the chain, as a set. */
  ghost function ChainSet(slips: seq<int>, p: int, k: nat): set<int>
    requires InRange(slips) && 1 <= p <= |slips|
  {
    if k == 0 then {} else ChainSet(slips, p, k - 1) + {ChainBox(slips, p, k - 1)}
  }

  /** The first k boxes of the chain are all different. */
  ghost predicate ChainDistinct(slips: seq<int>, p: int, k: nat)
    requires InRange(slips) && 1 <= p <= |slips|
  {
    k == 0 || (ChainDistinct(slips, p, k - 1) && ChainBox(slips, p, k - 1) !in ChainSet(slips, p, k - 1))
  }

  /** A box is among the first k of the chain exactly when it is the i-th one for some i < k. */
  lemma {:induction false} ChainSetMember(slips: seq<int>, p: int, k: nat, id: int)
    requires InRange(slips) && 1 <= p <= |slips|
    ensures id in ChainSet(slips, p, k) <==> exists i :: 0 <= i < k && ChainBox(slips, p, i) == id
  {
    if k > 0 {
      ChainSetMember(slips, p, k - 1, id);
      if ChainBox(slips, p, k - 1) == id {
        assert exists i :: 0 <= i < k && ChainBox(slips, p, i) == id;
      }
      if exists i :: 0 <= i < k && ChainBox(slips, p, i) == id {
        var i :| 0 <= i < k && ChainBox(slips, p, i) == id;
        if i < k - 1 {
          assert exists j :: 0 <= j < k - 1 && ChainBox(slips, p, j) == id;
        }
      }
    }
  }

  /** In a chain whose first k boxes are different, the i-th is not among the first i, for every i < k. */
  lemma {:induction false} ChainDistinctAt(slips: seq<int>, p: int, k: nat, i: nat, j: nat)
    requires InRange(slips) && 1 <= p <= |slips|
    requires ChainDistinct(slips, p, k) && j < i < k
    ensures ChainBox(slips, p, j) != ChainBox(slips, p, i)
  {
    if i < k - 1 {
      ChainDistinctAt(slips, p, k - 1, i, j);
    } else {
      ChainSetMember(slips, p, i, ChainBox(slips, p, j));
    }
  }

  /** One step along the chain: the box after the i-th is the one named by its slip. */
  lemma ChainNext(slips: seq<int>, p: int, i: nat)
    requires InRange(slips) && 1 <= p <= |slips|
    ensures ChainBox(slips, p, i + 1) == slips[ChainBox(slips, p, i) - 1]
  {
  }

  /** Two chain boxes past the start that coincide have coinciding predecessors, because no slip occurs twice. */
  lemma ChainStepBack(slips: seq<int>, p: int, a: nat, b: nat)
    requires InRange(slips) && Distinct(slips) && 1 <= p <= |slips|
    requires 0 < a && 0 < b && ChainBox(slips, p, a) == ChainBox(slips, p, b)
    ensures ChainBox(slips, p, a - 1) == ChainBox(slips, p, b - 1)
  {
    var x, y := ChainBox(slips, p, a - 1), ChainBox(slips, p, b - 1);
    assert slips[x - 1] == slips[y - 1];
  }

  /**
   * The chain cannot loop back into its middle: if its first k + 1 boxes
   * are different and the next one is not the starting box p, the next one
   * is new as well.
   */
  lemma ChainNoEarlyRepeat(slips: seq<int>, p: int, k: nat)
    requires InRange(slips) && Distinct(slips) && 1 <= p <= |slips|
    requires ChainDistinct(slips, p, k + 1)
    requires ChainBox(slips, p, k + 1) != p
    ensures ChainBox(slips, p, k + 1) !in ChainSet(slips, p, k + 1)
  {
    var next := ChainBox(slips, p, k + 1);
    ChainSetMember(slips, p, k + 1, next);
    if next in ChainSet(slips, p, k + 1) {
      var i :| 0 <= i < k + 1 && ChainBox(slips, p, i) == next;
      assert i > 0;
      ChainStepBack(slips, p, i, k + 1);
      ChainDistinctAt(slips, p, k + 1, k, i - 1);
      assert false;
    }
  }

  /** Once the chain has come back to p after k steps, the box before holds slip p. */
  lemma ReturnShowsStart(s: seq<int>, p: int, k: nat)
    requires InRange(s) && 1 <= p <= |s|
    requires k >= 1 && ChainBox(s, p, k) == p
    ensures ShowsSlip(s, ChainSet(s, p, k), p)
  {
    var id := ChainBox(s, p, k - 1);
    assert id in ChainSet(s, p, k);
    assert s[id - 1] == p;
  }

  /**
   * Conversely, if one of the first k chain boxes, all different, holds
   * slip p, it is the last of them: box i holds the number of box i + 1, and
   * no box after the start comes back to p before the k-th.
   */
  lemma ShowsStartOnlyOnReturn(s: seq<int>, p: int, k: nat)
    requires InRange(s) && 1 <= p <= |s|
    requires ChainDistinct(s, p, k) && ShowsSlip(s, ChainSet(s, p, k), p)
    ensures k >= 1 && ChainBox(s, p, k) == p
  {
    var id :| id in ChainSet(s, p, k) && 1 <= id <= |s| && s[id - 1] == p;
    ChainSetMember(s, p, k, id);
    var i :| 0 <= i < k && ChainBox(s, p, i) == id;
    ChainNext(s, p, i);
    if i + 1 < k {
      ChainDistinctAt(s, p, k, i + 1, 0);
    }
  }

  /** Among the first k chain boxes, all different, one holds slip p exactly when the chain is back at p after k steps. */
  lemma ChainShowsStart(s: seq<int>, p: int, k: nat)
    requires InRange(s) && 1 <= p <= |s|
    requires ChainDistinct(s, p, k)
    ensures ShowsSlip(s, ChainSet(s, p, k), p) <==> k >= 1 && ChainBox(s, p, k) == p
  {
    if k >= 1 && ChainBox(s, p, k) == p {
      ReturnShowsStart(s, p, k);
    }
    if ShowsSlip(s, ChainSet(s, p, k), p) {
      ShowsStartOnlyOnReturn(s, p, k);
    }
  }

  /** No chain box among 1..k-1 is the start p when the first k boxes are different. */
  lemma NoEarlyReturn(s: seq<int>, p: int, k: nat, j: nat)
    requires InRange(s) && 1 <= p <= |s|
    requires ChainDistinct(s, p, k) && 1 <= j < k
    ensures ChainBox(s, p, j) != p
  {
    ChainDistinctAt(s, p, k, j, 0);
  }

  /**
   * The outcome when the walk stops after k opened chain boxes with the
   * budget spent: either the k-th slip was the own one, or all size / 2
   * tries went on boxes that did not hold it. The scene has not failed
   * exactly when LoopSucceeds holds.
   */
  lemma WalkOutcome(s: seq<int>, p: int, k: nat, tries: int, failed: bool, revealed: bool)
    requires InRange(s) && 1 <= p <= |s|
    requires k <= |s| / 2 && ChainDistinct(s, p, k)
    requires revealed <==> k >= 1 && ChainBox(s, p, k) == p
    requires tries == (if revealed then 0 else |s| / 2 - k)
    requires tries <= 0
    requires failed <==> tries == 0 && !revealed && |s| / 2 > 0
    ensures !failed <==> LoopSucceeds(s, p)
  {
    if revealed {
      assert 1 <= k <= |s| / 2 && ChainBox(s, p, k) == p;
    } else if |s| / 2 > 0 && LoopSucceeds(s, p) {
      var j :| 1 <= j <= |s| / 2 && ChainBox(s, p, j) == p;
      if j < k {
        NoEarlyReturn(s, p, k, j);
      }
      assert false;
    }
  }

  /**
   * One step of the walk: opening the k-th chain box, which was not yet
   * open, reveals the (k+1)-th chain box, adds the k-th to the open set, and
   * keeps the chain free of repeats; unless the slip is the own one, the
   * next box is still closed.
   */
  lemma WalkStep(s: seq<int>, p: int, k: nat, boxId: int, slip: int)
    requires InRange(s) && Distinct(s) && 1 <= p <= |s|
    requires boxId == ChainBox(s, p, k) && ChainDistinct(s, p, k) && boxId !in ChainSet(s, p, k)
    requires slip == s[boxId - 1]
    ensures slip == ChainBox(s, p, k + 1)
    ensures ChainSet(s, p, k + 1) == ChainSet(s, p, k) + {boxId}
    ensures ChainDistinct(s, p, k + 1)
    ensures slip != p ==> slip !in ChainSet(s, p, k + 1)
  {
    if slip != p {
      ChainNoEarlyRepeat(s, p, k);
    }
  }

  /** The first k chain boxes are all different exactly when there are k of them; there are never more. */
  lemma {:induction false} ChainDistinctCard(s: seq<int>, p: int, k: nat)
    requires InRange(s) && 1 <= p <= |s|
    ensures |ChainSet(s, p, k)| <= k
    ensures ChainDistinct(s, p, k) <==> |ChainSet(s, p, k)| == k
  {
    if k > 0 {
      ChainDistinctCard(s, p, k - 1);
    }
  }

  /**
   * Two chain boxes can only coincide at the start: if the k-th box equals
   * the i-th for some i < k, all of the first k being different, then i is 0.
   */
  lemma RepeatIsAtStart(s: seq<int>, p: int, k: nat, i: nat)
    requires InRange(s) && Distinct(s) && 1 <= p <= |s|
    requires ChainDistinct(s, p, k) && i < k && ChainBox(s, p, i) == ChainBox(s, p, k)
    ensures i == 0
  {
    if i > 0 {
      ChainStepBack(s, p, i, k);
      ChainDistinctAt(s, p, k, k - 1, i - 1);
      assert false;
    }
  }

  /**
   * The first repeat of a chain through a permutation is its start: if the
   * k-th box is among the first k, all different, it is box p itself.
   */
  lemma FirstRepeatIsStart(s: seq<int>, p: int, k: nat)
    requires InRange(s) && Distinct(s) && 1 <= p <= |s|
    requires ChainDistinct(s, p, k) && ChainBox(s, p, k) in ChainSet(s, p, k)
    ensures ChainBox(s, p, k) == p
  {
    ChainSetMember(s, p, k, ChainBox(s, p, k));
    var i :| 0 <= i < k && ChainBox(s, p, i) == ChainBox(s, p, k);
    RepeatIsAtStart(s, p, k, i);
  }

  /**
   * What holds after k steps of the walk, `shown` being the set of open
   * boxes: they are the first k chain boxes, all different; adding `boxId`
   * gives the first k + 1, and `boxId` is still closed unless the chain has
   * come back to p; the budget is spent once it has, and is size / 2 - k
   * otherwise.
   */
  ghost predicate WalkState(shown: set<int>, tries: int, s: seq<int>, p: int, boxId: int, k: nat) {
    InRange(s) && 1 <= p <= |s| &&
    k <= |s| / 2 &&
    shown == ChainSet(s, p, k) &&
    |shown| == k &&
    ChainSet(s, p, k + 1) == shown + {boxId} &&
    ((k >= 1 && boxId == p) || boxId !in shown) &&
    tries == (if k >= 1 && boxId == p then 0 else |s| / 2 - k)
  }

  /** The walk starts at the own box with nothing open and the full budget. */
  lemma WalkStart(s: seq<int>, p: int)
    requires InRange(s) && 1 <= p <= |s|
    ensures WalkState({}, |s| / 2, s, p, p, 0)
  {
  }

  /** In every state of the walk, `boxId` is the k-th chain box and the first k are all different. */
  lemma WalkAt(shown: set<int>, tries: int, s: seq<int>, p: int, boxId: int, k: nat)
    requires Distinct(s) && WalkState(shown, tries, s, p, boxId, k)
    ensures boxId == ChainBox(s, p, k) && ChainDistinct(s, p, k)
  {
    ChainDistinctCard(s, p, k);
    if boxId in shown {
      assert ChainBox(s, p, k) in ChainSet(s, p, k + 1);
      FirstRepeatIsStart(s, p, k);
    } else {
      assert boxId in ChainSet(s, p, k + 1);
    }
  }

  /** Opening the next chain box while budget is left moves the walk one step on. */
  lemma WalkAdvance(shown: set<int>, tries: int, triesAfter: int, s: seq<int>, p: int, boxId: int, k: nat, slip: int)
    requires Distinct(s) && WalkState(shown, tries, s, p, boxId, k) && tries > 0
    requires slip == s[boxId - 1]
    requires triesAfter == (if slip == p then 0 else tries - 1)
    ensures WalkState(shown + {boxId}, triesAfter, s, p, slip, k + 1)
  {
    WalkAt(shown, tries, s, p, boxId, k);
    WalkStep(s, p, k, boxId, slip);
    ChainDistinctCard(s, p, k + 1);
  }

  /** The slip of box `id` is entry id - 1 of the slips. */
  lemma SlipOfBox(contents: seq<Box>, s: seq<int>, id: int)
    requires SlipsOf(contents) == s && 1 <= id <= |contents|
    ensures BoxAt(contents, id).slip == s[id - 1]
  {
  }

  /**
   * When the budget is spent, the open boxes are the first k chain boxes,
   * all different, and the scene's failed flag is the negation of LoopSucceeds.
   */
  lemma WalkFinish(contents: seq<Box>, tries: int, failed: bool, s: seq<int>, p: int, boxId: int, k: nat)
    requires Distinct(s) && SlipsOf(contents) == s
    requires WalkState(OpenIds(contents), tries, s, p, boxId, k) && 0 <= tries <= 0
    requires failed <==> tries == 0 && !Reveals(contents, p) && |s| / 2 > 0
    ensures k <= |s| / 2 && ChainDistinct(s, p, k) && OpenIds(contents) == ChainSet(s, p, k)
    ensures !failed <==> LoopSucceeds(s, p)
  {
    WalkAt(OpenIds(contents), tries, s, p, boxId, k);
    RevealsOpenSlip(contents, p);
    ChainShowsStart(s, p, k);
    WalkOutcome(s, p, k, tries, failed, Reveals(contents, p));
  }

  /** A scene the walk has left: done, with the outcome LoopSucceeds predicts. */
  lemma WalkEnd(scene: Scene, s: seq<int>, shown: set<int>, boxId: int, k: nat)
    requires scene.Valid() && scene.IsDone() && s == scene.Slips() && Distinct(s)
    requires OpenIds(scene.room.Contents()) == shown
    requires WalkState(shown, scene.triesLeft, s, scene.currentPrisoner, boxId, k)
    ensures k <= scene.Size() / 2 && ChainDistinct(s, scene.currentPrisoner, k)
    ensures OpenIds(scene.room.Contents()) == ChainSet(s, scene.currentPrisoner, k)
    ensures scene.IsSuccess() <==> LoopSucceeds(s, scene.currentPrisoner)
  {
    WalkFinish(scene.room.Contents(), scene.triesLeft, scene.failed, s, scene.currentPrisoner, boxId, k);
  }

  /**
   * One pass of the loop body: tries the next chain box. On a finished scene
   * the answer is OutOfGuesses and nothing changes; otherwise the box was
   * still closed, so it is opened, and the walk moves one step on.
   */
  method OpenNextBox(scene: Scene, ghost s: seq<int>, ghost shown: set<int>, boxId: int, ghost k: nat)
    returns (r: OpenResult)
    requires scene.Valid() && s == scene.Slips() && Distinct(s) && 1 <= boxId <= |s|
    requires OpenIds(scene.room.Contents()) == shown
    requires WalkState(shown, scene.triesLeft, s, scene.currentPrisoner, boxId, k)
    modifies scene, scene.room.boxes
    ensures scene.Valid()
    ensures r.OutOfGuesses? <==> old(scene.IsDone())
    ensures r.OutOfGuesses? ==>
      scene.IsDone() && OpenIds(scene.room.Contents()) == shown &&
      WalkState(shown, scene.triesLeft, s, scene.currentPrisoner, boxId, k)
    ensures !r.OutOfGuesses? ==>
      r.Opened? && 1 <= r.slip <= |s| && scene.triesLeft < old(scene.triesLeft) &&
      OpenIds(scene.room.Contents()) == shown + {boxId} &&
      WalkState(shown + {boxId}, scene.triesLeft, s, scene.currentPrisoner, r.slip, k + 1)
  {
    ghost var before := scene.room.Contents();
    r := scene.TryOpenBox(boxId);
    if !r.OutOfGuesses? {
      SlipOfBox(before, s, boxId);
      WalkAdvance(shown, old(scene.triesLeft), scene.triesLeft, s, scene.currentPrisoner, boxId, k, r.slip);
    }
  }

  /**
   * The loop of the strategy: opens the own box, then the box named by each
   * slip found, until the scene answers OutOfGuesses. It never meets an open
   * box, so the AlreadyOpen error of the source is never raised. On return
   * the scene is done and the walk state records how far the chain got.
   */
  method FollowChain(scene: Scene) returns (ghost s: seq<int>, ghost shown: set<int>, ghost boxId: int, ghost k: nat)
    requires scene.Valid() && scene.Untouched()
    modifies scene, scene.room.boxes
    ensures scene.Valid() && scene.IsDone() && s == scene.Slips() && Distinct(s)
    ensures OpenIds(scene.room.Contents()) == shown
    ensures WalkState(shown, scene.triesLeft, s, scene.currentPrisoner, boxId, k)
  {
    var prisonerId := scene.currentPrisoner;
    s := scene.Slips();
    ghost var n := scene.Size();
    assert |s| == n && InRange(s) && Distinct(s) && 1 <= prisonerId <= n;
    var box := prisonerId;
    k, shown := 0, {};
    WalkStart(s, prisonerId);
    while true
      invariant scene.Valid() && 1 <= box <= n
      invariant OpenIds(scene.room.Contents()) == shown
      invariant WalkState(shown, scene.triesLeft, s, prisonerId, box, k)
      decreases scene.triesLeft
    {
      var r := OpenNextBox(scene, s, shown, box, k);
      if r.OutOfGuesses? {
        boxId := box;
        return;
      }
      shown := shown + {box};
      box := r.slip;
      k := k + 1;
    }
  }

  /**
   * The cycle-following strategy on an untouched scene. On return the scene
   * is done, the open boxes are the first `steps` chain boxes, all different,
   * and the scene succeeded exactly when LoopSucceeds says so.
   */
  method TryPrisoner(scene: Scene) returns (ghost steps: nat)
    requires scene.Valid() && scene.Untouched()
    modifies scene, scene.room.boxes
    ensures scene.Valid() && scene.IsDone()
    ensures steps <= scene.Size() / 2 && ChainDistinct(scene.Slips(), scene.currentPrisoner, steps)
    ensures OpenIds(scene.room.Contents()) == ChainSet(scene.Slips(), scene.currentPrisoner, steps)
    ensures scene.IsSuccess() <==> LoopSucceeds(scene.Slips(), scene.currentPrisoner)
  {
    ghost var s, shown, boxId, k := FollowChain(scene);
    WalkEnd(scene, s, shown, boxId, k);
    steps := k;
  }
}
