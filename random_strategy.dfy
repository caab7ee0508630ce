/**
 * The random strategy: the prisoner shuffles the box numbers 1..n and keeps
 * taking the last number off that list and opening that box, until the own
 * slip turns up or the scene refuses with OutOfGuesses. A box that is
 * already open is skipped.
 *
 * The shuffled list is a parameter: it stands for the result of the random
 * shuffle of 1..n.
 */
module RandomStrategy {
  import opened Permutations
  import opened Simulation

  /**
   * The strategy's outcome for prisoner p on an untouched scene, `order`
   * being the shuffled list: with no budget the scene is a success from the
   * start; otherwise the own slip must lie in one of the boxes named by the
   * last size / 2 entries of the list, those the prisoner takes first.
   */
  ghost predicate RandomSucceeds(slips: seq<int>, p: int, order: seq<int>)
    requires IsPermutation(order, |slips|)
  {
    |slips| / 2 == 0 ||
    exists i :: |order| - |slips| / 2 <= i < |order| && slips[order[i] - 1] == p
  }

  /**
   * The same outcome seen from the box that holds slip p: the prisoner
   * succeeds exactly when that box is named by one of the last size / 2
   * entries of the list.
   */
  lemma SucceedsIffOwnBoxLate(slips: seq<int>, p: int, order: seq<int>, own: int)
    requires IsPermutation(order, |slips|) && Distinct(slips)
    requires 1 <= own <= |slips| && slips[own - 1] == p
    ensures RandomSucceeds(slips, p, order) <==>
      |slips| / 2 == 0 || own in SuffixSet(order, |slips| - |slips| / 2)
  {
    var lo := |slips| - |slips| / 2;
    if own in SuffixSet(order, lo) {
      var i :| lo <= i < |order| && order[i] == own;
      assert slips[order[i] - 1] == p;
    }
    if |slips| / 2 > 0 && RandomSucceeds(slips, p, order) {
      var i :| lo <= i < |order| && slips[order[i] - 1] == p;
      assert order[i] == own;
      assert own in SuffixSet(order, lo);
    }
  }

  /**
   * The outcome once the budget is spent with the boxes order[m..] open: the
   * own slip was found among them, or all size / 2 tries went on boxes that
   * did not hold it. The scene has not failed exactly when RandomSucceeds
   * holds.
   */
  lemma SearchOutcome(slips: seq<int>, p: int, order: seq<int>, m: nat, tries: int, failed: bool, found: bool)
    requires IsPermutation(order, |slips|) && m <= |slips|
    requires found <==> ShowsSlip(slips, SuffixSet(order, m), p)
    requires |slips| - m + tries <= |slips| / 2 && tries == 0
    requires !found ==> |slips| - m + tries == |slips| / 2
    requires failed <==> tries == 0 && !found && |slips| / 2 > 0
    ensures !failed <==> RandomSucceeds(slips, p, order)
  {
    if found {
      var id :| id in SuffixSet(order, m) && 1 <= id <= |slips| && slips[id - 1] == p;
      var i :| m <= i < |order| && order[i] == id;
      assert |order| - |slips| / 2 <= i < |order| && slips[order[i] - 1] == p;
    }
    if |slips| / 2 > 0 && RandomSucceeds(slips, p, order) {
      var i :| |order| - |slips| / 2 <= i < |order| && slips[order[i] - 1] == p;
      if m <= i {
        assert order[i] in SuffixSet(order, m);
      }
    }
  }

  /**
   * Ties the finished scene to the outcome: with exactly the boxes order[m..]
   * open, at most size / 2 of them were opened, and the scene is a success
   * exactly when RandomSucceeds holds.
   */
  lemma SearchEnd(scene: Scene, order: seq<int>, m: nat)
    requires scene.Valid() && scene.IsDone() && IsPermutation(order, scene.Size())
    requires m <= scene.Size() && OpenIds(scene.room.Contents()) == SuffixSet(order, m)
    ensures scene.Size() - m <= scene.Size() / 2
    ensures scene.IsSuccess() <==> RandomSucceeds(scene.Slips(), scene.currentPrisoner, order)
  {
    SuffixCard(order, scene.Size(), m);
    RevealsOpenSlip(scene.room.Contents(), scene.currentPrisoner);
    SearchOutcome(scene.Slips(), scene.currentPrisoner, order, m, scene.triesLeft, scene.failed, scene.Found());
  }

  /**
   * The list never runs dry: every number taken so far names a box that is
   * open, and at most size / 2 boxes are ever open, so at least one of the
   * size numbers is left.
   */
  lemma SomeBoxLeft(order: seq<int>, n: nat, left: nat, open: set<int>, start: set<int>)
    requires IsPermutation(order, n) && 0 < n && left <= n
    requires |open| <= n / 2 && open == start + SuffixSet(order, left)
    ensures left > 0
  {
    SuffixCard(order, n, left);
    SubsetCard(SuffixSet(order, left), open);
  }

  /**
   * One attempt: box `boxId`, not taken before, is tried. A refusal with
   * OutOfGuesses means the scene is done; a refusal with AlreadyOpen (the
   * source's ValueError) means the box was open from the start; neither
   * changes anything. Otherwise the box is opened now, and the scene is done
   * once the own slip shows.
   */
  method TryTaken(scene: Scene, ghost start: set<int>, ghost seen: set<int>, boxId: int) returns (r: OpenResult)
    requires scene.Valid() && 1 <= boxId <= scene.Size()
    requires OpenIds(scene.room.Contents()) == start + seen && boxId !in seen
    modifies scene, scene.room.boxes
    ensures scene.Valid()
    ensures r.OutOfGuesses? ==> scene.IsDone() && OpenIds(scene.room.Contents()) == start + seen
    ensures !r.OutOfGuesses? ==> OpenIds(scene.room.Contents()) == start + (seen + {boxId})
    ensures r.AlreadyOpen? ==> boxId in start
    ensures !r.Opened? ==>
      scene.triesLeft == old(scene.triesLeft) && scene.failed == old(scene.failed) &&
      scene.room.Contents() == old(scene.room.Contents())
    ensures r.Opened? && r.slip == scene.currentPrisoner ==> scene.IsDone()
  {
    r := scene.TryOpenBox(boxId);
  }

  /**
   * Taking the last number off the list: it names a box, it was not taken
   * before (the source's `assert box_id not in boxes_seen`), and the list
   * and the set of taken numbers move one place.
   */
  lemma PopFromEnd(order: seq<int>, n: nat, boxesLeft: seq<int>, boxesSeen: set<int>)
    requires IsPermutation(order, n) && 0 < |boxesLeft| <= n && boxesLeft == order[..|boxesLeft|]
    requires boxesSeen == SuffixSet(order, |boxesLeft|)
    ensures 1 <= boxesLeft[|boxesLeft| - 1] <= n
    ensures boxesLeft[|boxesLeft| - 1] !in boxesSeen
    ensures boxesLeft[..|boxesLeft| - 1] == order[..|boxesLeft| - 1]
    ensures boxesSeen + {boxesLeft[|boxesLeft| - 1]} == SuffixSet(order, |boxesLeft| - 1)
  {
    var lo := |boxesLeft|;
    assert boxesLeft[lo - 1] == order[lo - 1];
    SuffixSetGrows(order, lo);
  }

  /**
   * One pass of the loop body: the last number is taken off the list (one
   * is always left), recorded as seen, and that box is tried.
   */
  method TakeAndTry(scene: Scene, order: seq<int>, boxesLeft: seq<int>, boxesSeen: set<int>, ghost start: set<int>)
    returns (left: seq<int>, seen: set<int>, r: OpenResult)
    requires scene.Valid() && IsPermutation(order, scene.Size())
    requires |boxesLeft| <= scene.Size() && boxesLeft == order[..|boxesLeft|]
    requires boxesSeen == SuffixSet(order, |boxesLeft|)
    requires OpenIds(scene.room.Contents()) == start + boxesSeen
    modifies scene, scene.room.boxes
    ensures scene.Valid()
    ensures |left| == |boxesLeft| - 1 && left == order[..|left|]
    ensures seen == SuffixSet(order, |left|)
    ensures r.OutOfGuesses? ==> scene.IsDone() && OpenIds(scene.room.Contents()) == start + boxesSeen
    ensures !r.OutOfGuesses? ==> OpenIds(scene.room.Contents()) == start + seen
    ensures r.Opened? && r.slip == scene.currentPrisoner ==> scene.IsDone()
  {
    SomeBoxLeft(order, scene.Size(), |boxesLeft|, OpenIds(scene.room.Contents()), start);
    PopFromEnd(order, scene.Size(), boxesLeft, boxesSeen);
    var boxId := boxesLeft[|boxesLeft| - 1];
    left := boxesLeft[..|boxesLeft| - 1];
    seen := boxesSeen + {boxId};
    r := TryTaken(scene, start, boxesSeen, boxId);
  }

  /**
   * The search loop, which runs until the own slip shows or the scene
   * refuses with OutOfGuesses. On return the boxes open are those open
   * before plus the boxes named by order[m..].
   */
  method OpenFromEnd(scene: Scene, order: seq<int>) returns (ghost m: nat)
    requires scene.Valid() && IsPermutation(order, scene.Size())
    modifies scene, scene.room.boxes
    ensures scene.Valid() && scene.IsDone()
    ensures m <= scene.Size()
    ensures OpenIds(scene.room.Contents()) == old(OpenIds(scene.room.Contents())) + SuffixSet(order, m)
  {
    var prisonerId := scene.currentPrisoner;
    ghost var start := OpenIds(scene.room.Contents());
    var boxesLeft := order;
    var boxesSeen: set<int> := {};
    var slip := -1;
    while slip != prisonerId
      invariant scene.Valid()
      invariant |boxesLeft| <= scene.Size() && boxesLeft == order[..|boxesLeft|]
      invariant boxesSeen == SuffixSet(order, |boxesLeft|)
      invariant OpenIds(scene.room.Contents()) == start + boxesSeen
      invariant slip == prisonerId ==> scene.IsDone()
      decreases |boxesLeft|
    {
      ghost var taken := |boxesLeft|;
      var r;
      boxesLeft, boxesSeen, r := TakeAndTry(scene, order, boxesLeft, boxesSeen, start);
      if r.OutOfGuesses? {
        m := taken;
        return;
      }
      if r.Opened? {
        slip := r.slip;
      }
    }
    m := |boxesLeft|;
  }

  /**
   * The strategy: the scene ends done and valid, no box that was open is
   * closed, and on an untouched scene the prisoner opened the boxes named by
   * the last `taken` entries of the list, at most size / 2, and succeeded
   * exactly when RandomSucceeds holds.
   */
  method TryPrisoner(scene: Scene, shuffled: seq<int>) returns (ghost taken: nat)
    requires scene.Valid() && IsPermutation(shuffled, scene.Size())
    modifies scene, scene.room.boxes
    ensures scene.Valid() && scene.IsDone()
    ensures old(OpenIds(scene.room.Contents())) <= OpenIds(scene.room.Contents())
    ensures old(scene.Untouched()) ==>
      taken <= scene.Size() / 2 &&
      OpenIds(scene.room.Contents()) == SuffixSet(shuffled, scene.Size() - taken) &&
      (scene.IsSuccess() <==> RandomSucceeds(scene.Slips(), scene.currentPrisoner, shuffled))
  {
    ghost var untouched := scene.Untouched();
    ghost var m := OpenFromEnd(scene, shuffled);
    taken := scene.Size() - m;
    if untouched {
      SearchEnd(scene, shuffled, m);
    }
  }
}
