/**
 * The puzzle engine: boxes, rooms, the room template, the scenario that
 * hands out one scene per prisoner, and the scene in which one prisoner
 * opens boxes under a budget of size / 2 tries.
 *
 * Exceptions become the tagged result OpenResult; the shuffle that fills the
 * template is a permutation supplied by the caller.
 */
module Simulation {
  import opened Permutations

  /** One box: the slip it holds and whether it has been opened. */
  datatype Box = Box(slip: int, isOpen: bool)

  datatype Option<T> = None | Some(value: T)

  /** What an attempt to open a box gives back: the slip, or one of the two refusals. */
  datatype OpenResult = Opened(slip: int) | AlreadyOpen | OutOfGuesses

  /** The box numbered `id` (boxes are numbered from 1). */
  function BoxAt(boxes: seq<Box>, id: int): Box
    requires 1 <= id <= |boxes|
  {
    boxes[id - 1]
  }

  /** The slips, box by box. */
  function SlipsOf(boxes: seq<Box>): seq<int> {
    seq(|boxes|, i requires 0 <= i < |boxes| => boxes[i].slip)
  }

  predicate AllClosed(boxes: seq<Box>) {
    forall i :: 0 <= i < |boxes| ==> !boxes[i].isOpen
  }

  /** The numbers of the boxes that are open. */
  function OpenIds(boxes: seq<Box>): set<int> {
    set id | 1 <= id <= |boxes| && BoxAt(boxes, id).isOpen
  }

  /** Some open box shows slip `p`. */
  predicate Reveals(boxes: seq<Box>, p: int) {
    exists id :: 1 <= id <= |boxes| && BoxAt(boxes, id).isOpen && BoxAt(boxes, id).slip == p
  }

  /** One of the boxes numbered in `ids` holds slip `p`, according to `slips`. */
  ghost predicate ShowsSlip(slips: seq<int>, ids: set<int>, p: int) {
    exists id :: id in ids && 1 <= id <= |slips| && slips[id - 1] == p
  }

  /** A slip is on show exactly when one of the open boxes holds it. */
  lemma RevealsOpenSlip(boxes: seq<Box>, p: int)
    ensures Reveals(boxes, p) <==> ShowsSlip(SlipsOf(boxes), OpenIds(boxes), p)
  {
    if Reveals(boxes, p) {
      var id :| 1 <= id <= |boxes| && BoxAt(boxes, id).isOpen && BoxAt(boxes, id).slip == p;
      assert id in OpenIds(boxes) && SlipsOf(boxes)[id - 1] == p;
    }
    if ShowsSlip(SlipsOf(boxes), OpenIds(boxes), p) {
      var id :| id in OpenIds(boxes) && 1 <= id <= |boxes| && SlipsOf(boxes)[id - 1] == p;
      assert BoxAt(boxes, id).isOpen && BoxAt(boxes, id).slip == p;
    }
  }

  /** `boxes` with box `id` opened and nothing else changed. */
  function WithOpened(boxes: seq<Box>, id: int): (r: seq<Box>)
    requires 1 <= id <= |boxes|
    ensures |r| == |boxes| && SlipsOf(r) == SlipsOf(boxes)
    ensures BoxAt(r, id).isOpen
    ensures forall j :: 1 <= j <= |boxes| && j != id ==> BoxAt(r, j) == BoxAt(boxes, j)
  {
    boxes[id - 1 := Box(boxes[id - 1].slip, true)]
  }

  /** Opening a closed box adds exactly that box to the open ones. */
  lemma OpenIdsAfterOpen(boxes: seq<Box>, id: int)
    requires 1 <= id <= |boxes| && !BoxAt(boxes, id).isOpen
    ensures OpenIds(WithOpened(boxes, id)) == OpenIds(boxes) + {id}
    ensures |OpenIds(WithOpened(boxes, id))| == |OpenIds(boxes)| + 1
  {
    var after := WithOpened(boxes, id);
    forall j | 1 <= j <= |boxes|
      ensures BoxAt(after, j).isOpen == (BoxAt(boxes, j).isOpen || j == id)
    {
    }
    assert OpenIds(after) == OpenIds(boxes) + {id};
  }

  /** After box `id` is opened, a slip is on show exactly when it was before or it is the one in box `id`. */
  lemma RevealsAfterOpen(boxes: seq<Box>, id: int, p: int)
    requires 1 <= id <= |boxes|
    ensures Reveals(WithOpened(boxes, id), p) <==> Reveals(boxes, p) || BoxAt(boxes, id).slip == p
  {
    var after := WithOpened(boxes, id);
    if Reveals(boxes, p) {
      var j :| 1 <= j <= |boxes| && BoxAt(boxes, j).isOpen && BoxAt(boxes, j).slip == p;
      assert BoxAt(after, j).isOpen && BoxAt(after, j).slip == p;
    }
    if BoxAt(boxes, id).slip == p {
      assert BoxAt(after, id).isOpen && BoxAt(after, id).slip == p;
    }
    if Reveals(after, p) {
      var j :| 1 <= j <= |after| && BoxAt(after, j).isOpen && BoxAt(after, j).slip == p;
      if j != id {
        assert BoxAt(boxes, j) == BoxAt(after, j);
      }
    }
  }

  /** A room: the boxes one prisoner works on. The array is its own, filled with copies of the template's boxes. */
  class Room {
    const boxes: array<Box>

    constructor (contents: seq<Box>)
      ensures fresh(boxes) && boxes[..] == contents
    {
      boxes := new Box[|contents|](i requires 0 <= i < |contents| => contents[i]);
    }

    /** The size is the number of boxes in the room. */
    function Size(): (n: nat)
      reads boxes
      ensures n == |Contents()|
    {
      boxes.Length
    }

    function Contents(): seq<Box>
      reads boxes
    {
      boxes[..]
    }

    function GetBox(id: int): (b: Box)
      requires 1 <= id <= Size()
      reads boxes
      ensures b == BoxAt(Contents(), id)
    {
      boxes[id - 1]
    }

    function BoxIsOpen(id: int): (open: bool)
      requires 1 <= id <= Size()
      reads boxes
      ensures open <==> id in OpenIds(Contents())
    {
      GetBox(id).isOpen
    }

    /** Opens box `id` whatever its state and returns its slip; every other box stays as it was. */
    method OpenBox(id: int) returns (slip: int)
      requires 1 <= id <= Size()
      modifies boxes
      ensures slip == BoxAt(old(Contents()), id).slip
      ensures Contents() == WithOpened(old(Contents()), id)
    {
      var box := GetBox(id);
      boxes[id - 1] := box.(isOpen := true);
      slip := box.slip;
    }
  }

  /**
   * The template: the boxes of one trial, filled with the slips 1..n in
   * shuffled order and all closed. It never changes after it is built.
   */
  class RoomTemplate {
    const boxes: seq<Box>

    ghost predicate Valid() {
      IsPermutation(SlipsOf(boxes), |boxes|) && AllClosed(boxes)
    }

    /**
     * Fills `size` boxes by popping slips from the end of `shuffled`, the
     * shuffled list 1..size; a size below 1 gives no boxes at all.
     */
    constructor (size: int, shuffled: seq<int>)
      requires IsPermutation(shuffled, if size > 0 then size else 0)
      ensures Valid()
      ensures SlipsOf(boxes) == Reversed(shuffled)
    {
      var n := if size > 0 then size else 0;
      var slips := shuffled;
      var acc: seq<Box> := [];
      for i := 0 to n
        invariant slips == shuffled[..n - i]
        invariant |acc| == i
        invariant forall k :: 0 <= k < i ==> acc[k] == Box(shuffled[n - 1 - k], false)
      {
        var box := Box(slips[|slips| - 1], false);
        slips := slips[..|slips| - 1];
        acc := acc + [box];
      }
      boxes := acc;
      new;
      ReversedIsPermutation(shuffled, n);
      assert SlipsOf(boxes) == Reversed(shuffled);
    }

    /** The size is the number of boxes; a valid template holds each slip 1..size once. */
    function Size(): (n: nat)
      ensures n == |SlipsOf(boxes)|
      ensures Valid() ==> IsPermutation(SlipsOf(boxes), n)
    {
      |boxes|
    }

    /** A fresh room holding copies of the template's boxes: same slips, all closed, shared with nothing. */
    method Create() returns (room: Room)
      requires Valid()
      ensures fresh(room) && fresh(room.boxes)
      ensures room.Contents() == boxes
      ensures SlipsOf(room.Contents()) == SlipsOf(boxes) && AllClosed(room.Contents())
    {
      room := new Room(boxes);
    }
  }

  /** Opening a box in one room leaves the template and every other room made from it as they were. */
  method CopiesAreIndependent(template: RoomTemplate, id: int) returns (openedRoom: seq<Box>, other: seq<Box>)
    requires template.Valid() && 1 <= id <= template.Size()
    ensures openedRoom == WithOpened(template.boxes, id)
    ensures other == template.boxes && AllClosed(other)
  {
    var first := template.Create();
    var second := template.Create();
    var _ := first.OpenBox(id);
    openedRoom := first.Contents();
    other := second.Contents();
  }

  /**
   * A trial: one template and the queue of prisoners still to come, which
   * starts as 1..n and is drained from the front.
   */
  class Scenario {
    const template: RoomTemplate
    var prisoners: seq<int>

    ghost predicate Valid()
      reads this
    {
      template.Valid() &&
      |prisoners| <= Size() &&
      forall i :: 0 <= i < |prisoners| ==> prisoners[i] == Size() - |prisoners| + 1 + i
    }

    constructor (room: RoomTemplate)
      requires room.Valid()
      ensures Valid() && template == room
      ensures prisoners == seq(room.Size(), i => i + 1)
    {
      template := room;
      prisoners := seq(room.Size(), i => i + 1);
    }

    /** The size of a trial is the number of slips in its template. */
    function Size(): (n: nat)
      ensures n == |SlipsOf(template.boxes)|
    {
      template.Size()
    }

    /** How many prisoners have already been handed a scene. */
    ghost function HandedOut(): nat
      reads this
      requires Valid()
    {
      Size() - |prisoners|
    }

    function HasPrisonersLeft(): (left: bool)
      reads this
      requires Valid()
      ensures left <==> HandedOut() < Size()
      ensures !left ==> prisoners == []
    {
      |prisoners| > 0
    }

    /** Hands the next prisoner, the lowest not yet served, a scene with a room of its own. */
    method GetNextScene() returns (scene: Scene)
      requires Valid() && HasPrisonersLeft()
      modifies this
      ensures Valid()
      ensures prisoners == old(prisoners)[1..]
      ensures scene.currentPrisoner == old(prisoners)[0] == old(HandedOut()) + 1
      ensures fresh(scene) && fresh(scene.room) && fresh(scene.room.boxes)
      ensures scene.scenario == this && scene.Valid() && scene.Untouched()
    {
      var current := prisoners[0];
      prisoners := prisoners[1..];
      var room := template.Create();
      scene := new Scene(this, room, current);
    }

    /** The iterator step: the next scene, or None (StopIteration) once every prisoner has had one, without change. */
    method Next() returns (next: Option<Scene>)
      requires Valid()
      modifies this
      ensures Valid()
      ensures old(prisoners) == [] ==> next == None && prisoners == []
      ensures old(prisoners) != [] ==>
        next.Some? && prisoners == old(prisoners)[1..] &&
        next.value.currentPrisoner == old(prisoners)[0] &&
        fresh(next.value) && fresh(next.value.room) && fresh(next.value.room.boxes) &&
        next.value.scenario == this && next.value.Valid() && next.value.Untouched()
    {
      if !HasPrisonersLeft() {
        return None;
      }
      var scene := GetNextScene();
      return Some(scene);
    }

    /** Drains the scenario: one scene per remaining prisoner, in ascending order, each with its own room. */
    method GetAllScenes() returns (scenes: seq<Scene>)
      requires Valid()
      modifies this
      ensures Valid() && prisoners == []
      ensures |scenes| == |old(prisoners)|
      ensures forall i :: 0 <= i < |scenes| ==>
        scenes[i].currentPrisoner == old(prisoners)[i] && fresh(scenes[i].room.boxes) &&
        scenes[i].Valid() && scenes[i].Untouched()
      ensures forall i, j :: 0 <= i < j < |scenes| ==> scenes[i].room.boxes != scenes[j].room.boxes
    {
      scenes := [];
      while HasPrisonersLeft()
        invariant Valid()
        invariant |scenes| + |prisoners| == |old(prisoners)|
        invariant prisoners == old(prisoners)[|scenes|..]
        invariant forall i :: 0 <= i < |scenes| ==>
          scenes[i].currentPrisoner == old(prisoners)[i] && fresh(scenes[i].room.boxes) &&
          scenes[i].Valid() && scenes[i].Untouched()
        invariant forall i, j :: 0 <= i < j < |scenes| ==> scenes[i].room.boxes != scenes[j].room.boxes
        decreases |prisoners|
      {
        var scene := GetNextScene();
        scenes := scenes + [scene];
      }
    }
  }

  /** A new trial of `size` prisoners whose boxes are filled from the shuffled list `shuffled`. */
  method NewScenario(size: int, shuffled: seq<int>) returns (scenario: Scenario)
    requires IsPermutation(shuffled, if size > 0 then size else 0)
    ensures fresh(scenario) && scenario.Valid()
    ensures scenario.Size() == (if size > 0 then size else 0)
    ensures SlipsOf(scenario.template.boxes) == Reversed(shuffled)
    ensures scenario.prisoners == seq(scenario.Size(), i => i + 1)
  {
    var template := new RoomTemplate(size, shuffled);
    scenario := new Scenario(template);
  }

  /**
   * One prisoner's turn: a room of its own, a budget of size / 2 tries, and
   * the flag that records running out of tries without finding the own slip.
   */
  class Scene {
    const scenario: Scenario
    const room: Room
    const currentPrisoner: int
    var triesLeft: int
    var failed: bool

    /** The size of a scene is the number of slips of its trial. */
    function Size(): (n: nat)
      ensures n == |Slips()|
    {
      scenario.Size()
    }

    /** The slips of the trial, in box order. */
    function Slips(): seq<int> {
      SlipsOf(scenario.template.boxes)
    }

    /** How many boxes the prisoner has opened. */
    ghost function OpenCount(): nat
      reads room.boxes
    {
      |OpenIds(room.Contents())|
    }

    /** The prisoner has seen the own slip. */
    ghost predicate Found()
      reads room.boxes
    {
      Reveals(room.Contents(), currentPrisoner)
    }

    /**
     * The scene's invariant: the room holds the trial's slips; the budget
     * never goes below 0 and, with the opened boxes, never exceeds size / 2;
     * until the own slip is found every opened box used one try; and the
     * scene has failed exactly when a budget above 0 is spent without finding
     * it.
     */
    ghost predicate Valid()
      reads this, room.boxes
    {
      scenario.template.Valid() &&
      room.Size() == Size() &&
      SlipsOf(room.Contents()) == Slips() &&
      1 <= currentPrisoner <= Size() &&
      0 <= triesLeft &&
      OpenCount() + triesLeft <= Size() / 2 &&
      (Found() ==> triesLeft == 0) &&
      (!Found() ==> OpenCount() + triesLeft == Size() / 2) &&
      (failed <==> triesLeft == 0 && !Found() && Size() / 2 > 0)
    }

    /** Nothing has happened yet: no box open, the full budget, not failed. */
    ghost predicate Untouched()
      reads this, room.boxes
    {
      OpenIds(room.Contents()) == {} && triesLeft == Size() / 2 && !failed
    }

    /** Scenes are only made by the scenario, from a fresh room of its template. */
    constructor (scenario: Scenario, room: Room, prisonerId: int)
      requires scenario.template.Valid()
      requires room.Contents() == scenario.template.boxes
      requires 1 <= prisonerId <= scenario.Size()
      ensures this.scenario == scenario && this.room == room && currentPrisoner == prisonerId
      ensures triesLeft == scenario.Size() / 2 && !failed
      ensures Valid() && Untouched()
    {
      this.scenario := scenario;
      this.room := room;
      failed := false;
      triesLeft := scenario.Size() / 2;
      currentPrisoner := prisonerId;
      new;
      assert OpenIds(room.Contents()) == {};
      assert !Found();
    }

    /**
     * The scene is done once the budget is spent; in a valid scene that is
     * exactly when the own slip has been seen or size / 2 boxes are open.
     */
    function IsDone(): (done: bool)
      reads this, room.boxes
      ensures Valid() ==> (done <==> triesLeft == 0)
      ensures Valid() ==> (done <==> Found() || OpenCount() == Size() / 2)
    {
      triesLeft <= 0
    }

    /**
     * A success is a done scene that has not failed; in a valid scene that is
     * a done scene where the own slip was seen or there was no budget at all.
     */
    function IsSuccess(): (ok: bool)
      reads this, room.boxes
      ensures ok ==> IsDone()
      ensures Valid() ==> (ok <==> IsDone() && (Found() || Size() / 2 == 0))
    {
      IsDone() && !failed
    }

    /** Once the budget is spent (size / 2 > 0), the scene succeeded exactly when the own slip was seen. */
    lemma SuccessIsFinding()
      requires Valid() && IsDone() && Size() / 2 > 0
      ensures IsSuccess() <==> Found()
      ensures OpenCount() <= Size() / 2
      ensures !Found() ==> OpenCount() == Size() / 2
    {
    }

    /** With no budget (a single box) a scene is done and a success before any box is opened. */
    lemma NoBudgetIsSuccess()
      requires Valid() && Size() / 2 == 0
      ensures IsDone() && IsSuccess()
    {
    }

    /** The budget rule applied after each opened box. */
    method CleanUp(slip: int)
      modifies this
      ensures slip == currentPrisoner ==> triesLeft == 0 && failed == old(failed)
      ensures slip != currentPrisoner ==>
        triesLeft == old(triesLeft) - 1 && failed == (old(failed) || triesLeft <= 0)
    {
      if slip == currentPrisoner {
        triesLeft := 0;
        return;
      }
      triesLeft := triesLeft - 1;
      if IsDone() && slip != currentPrisoner {
        failed := true;
      }
    }

    /**
     * Opens box `boxId`: refused with OutOfGuesses on a finished scene, then
     * with AlreadyOpen on an open box, both without any change; otherwise the
     * box is opened, its slip returned and the budget rule applied.
     */
    method TryOpenBox(boxId: int) returns (r: OpenResult)
      requires Valid() && (IsDone() || 1 <= boxId <= Size())
      modifies this, room.boxes
      ensures Valid()
      ensures old(IsDone()) <==> r == OutOfGuesses
      ensures r == AlreadyOpen <==> !old(IsDone()) && boxId in old(OpenIds(room.Contents()))
      ensures !r.Opened? ==>
        triesLeft == old(triesLeft) && failed == old(failed) && room.Contents() == old(room.Contents())
      ensures r.Opened? ==>
        1 <= boxId <= Size() &&
        r.slip == BoxAt(old(room.Contents()), boxId).slip &&
        room.Contents() == WithOpened(old(room.Contents()), boxId) &&
        OpenIds(room.Contents()) == old(OpenIds(room.Contents())) + {boxId} &&
        (Found() <==> old(Found()) || r.slip == currentPrisoner) &&
        triesLeft == (if r.slip == currentPrisoner then 0 else old(triesLeft) - 1) &&
        failed == (r.slip != currentPrisoner && triesLeft == 0)
    {
      if IsDone() {
        return OutOfGuesses;
      }
      if room.BoxIsOpen(boxId) {
        return AlreadyOpen;
      }
      ghost var before := room.Contents();
      OpenIdsAfterOpen(before, boxId);
      RevealsAfterOpen(before, boxId, currentPrisoner);
      var slip := room.OpenBox(boxId);
      CleanUp(slip);
      r := Opened(slip);
      assert SlipsOf(room.Contents()) == SlipsOf(before);
    }
  }
}
