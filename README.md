# 100 prisoners puzzle engine, modelled in Dafny

The repository simulates the 100 prisoners puzzle. A trial has `size`
boxes numbered 1..size, holding the slips 1..size in shuffled order. The
prisoners 1..size come in one after the other. Each opens at most
`size / 2` boxes in a room of their own, looking for the slip with their
own number. The trial is won only if every prisoner finds it.

The model has five modules.

- `Permutations` (`permutations.dfy`): permutations of 1..n, stated as "n
  numbers in 1..n, no two equal". A pigeonhole lemma shows that every number
  of 1..n then occurs, so this is exactly "a rearrangement of 1..n".
- `Simulation` (`simulation.py`): the box is a value. A room is a class
  over an array of boxes, and opening a box rewrites one cell in place. The
  room template is an immutable class. `Scenario` is a class whose prisoner
  queue is a `seq` it drains from the front. `Scene` is a class whose budget
  and failure flag are fields updated in place. The two exceptions of
  `try_open_box` are the tagged result `OpenResult = Opened(slip) |
  AlreadyOpen | OutOfGuesses`. The scene invariant `Scene.Valid` says:
  - the budget never goes below 0;
  - the opened boxes plus the budget left never exceed `size / 2`;
  - until the own slip is seen, each opened box has cost one try;
  - the scene has failed exactly when the budget is spent without finding
    the own slip (and there was a budget to spend).
- `LoopStrategy` (`strategies/loop.py`): the cycle-following strategy. It
  is an imperative loop proved against the chain function `ChainBox`,
  where chain box 0 is the own box and chain box k+1 is the box named by
  the slip in chain box k. The proof shows:
  - the walk never meets an open box, because the first repeat of an
    injective chain is its start;
  - the scene succeeds exactly when the chain returns to the own box
    within `size / 2` steps (`LoopSucceeds`).
- `RandomStrategy` (`strategies/random.py`): the shuffled-candidate
  strategy, with the shuffle as a permutation parameter. The proof shows:
  - the source's `assert box_id not in boxes_seen` always holds;
  - `pop()` is never applied to an empty list;
  - on an untouched scene, the prisoner succeeds exactly when the own slip
    lies in a box named by one of the last `size / 2` entries of the shuffled
    list (`RandomSucceeds`).
- `Runner` (`main.py` `run_scenario`): one trial. The result is true
  exactly when every queued prisoner succeeds. When it is false, the
  prisoners before the failing one all succeeded and no later scene was
  requested.

Randomness is a parameter: `random.shuffle` is replaced by a permutation the
caller supplies. This covers the slips of the template and the candidate list
of each random-strategy prisoner; the list for prisoner p is `orders[p - 1]`
in `Runner.Strategy.RandomSearch`.

For `size < 1` the code builds a template with no boxes, since
`range(1, size + 1)` and `range(size)` are then empty; `RoomTemplate`'s
constructor and `NewScenario` do the same. A trial of size 0 has no
prisoners, and `run_scenario` returns True for it, as
`Runner.RunScenario`'s contract gives on an empty queue.

## Model

| member | source | states |
|---|---|---|
| Permutations.Reversed | simulation.py:54-60 | Popping every element off the end of a list yields it back to front: same length, entry k is entry size-1-k of the original. |
| Permutations.PermutationCovers | simulation.py:54-55 | A list of n distinct numbers in 1..n contains every number of 1..n (pigeonhole), so the shuffled `range(1, size+1)` is exactly a rearrangement of 1..size. |
| Permutations.ReversedIsPermutation | simulation.py:54-60 | Reading a permutation of 1..n back to front gives a permutation of 1..n. |
| Permutations.SuffixCard | strategies/random.py:15-26 | The entries of a permutation from position lo on are n - lo different numbers. |
| Simulation.WithOpened | simulation.py:40-47 | Opening box id keeps the length and every slip, makes box id open and leaves every other box exactly as it was. |
| Simulation.OpenIdsAfterOpen | simulation.py:40-47 | Opening a closed box adds exactly that box to the set of open boxes, so the count of open boxes grows by one. |
| Simulation.RevealsAfterOpen | simulation.py:40-47 | After box id is opened, slip p is on show exactly when it was before or box id holds it. |
| Simulation.RevealsOpenSlip | simulation.py:40-47 | Slip p is on show exactly when one of the open box numbers indexes p in the slip list. |
| Simulation.Room.Size | simulation.py:29-31 | The size of a room is the number of boxes it holds. |
| Simulation.Room.constructor | simulation.py:26-27 | A room owns a fresh array holding the given boxes. |
| Simulation.Room.GetBox | simulation.py:33-34 | Box id is entry id - 1 (boxes are numbered from 1). |
| Simulation.Room.BoxIsOpen | simulation.py:36-38 | True exactly when box id is among the open boxes. |
| Simulation.Room.OpenBox | simulation.py:40-47 | Returns the slip of box id and opens that box in place, whatever its state; every other box is unchanged. |
| Simulation.RoomTemplate.constructor | simulation.py:53-60 | Filling the boxes by popping the shuffled list gives slips that are that list reversed, a permutation of 1..size, and only closed boxes; size below 1 gives no boxes. |
| Simulation.RoomTemplate.Size | simulation.py:62-64 | The size of a template is its number of boxes, and a valid template holds each slip 1..size exactly once. |
| Simulation.RoomTemplate.Create | simulation.py:66-67 | A fresh room whose boxes equal the template's (copied values, `_Box.copy`): same size, same slips, all closed. |
| Simulation.CopiesAreIndependent | simulation.py:66-67 | Opening a box in one created room changes neither the template nor a second room created from it. |
| Simulation.Scenario.constructor | simulation.py:74-76 | A new scenario queues the prisoners 1..size in ascending order. |
| Simulation.Scenario.Size | simulation.py:87-89 | The size of a trial is the number of slips in its template. |
| Simulation.Scenario.HasPrisonersLeft | simulation.py:91-92 | True exactly when fewer than size prisoners have been served; false means the queue is empty. |
| Simulation.Scenario.GetNextScene | simulation.py:94-102 | Serves the first queued prisoner, the lowest not yet served, and drops it from the queue; the scene has a fresh room of its own and is valid and untouched. |
| Simulation.Scenario.Next | simulation.py:81-85 | On an empty queue gives None (StopIteration) and changes nothing, again on every later call; otherwise behaves as GetNextScene. |
| Simulation.Scenario.GetAllScenes | simulation.py:104-106 | Drains the queue: one valid, untouched scene per queued prisoner in queue order, each with a fresh room no other scene shares. |
| Simulation.NewScenario | simulation.py:172-176 | A fresh scenario over a new template: size max(size, 0), slips the reversed shuffle, queue 1..size. |
| Simulation.Scene.constructor | simulation.py:116-124 | A new scene has budget size / 2, is not failed, and is valid and untouched. |
| Simulation.Scene.Size | simulation.py:126-128 | The size of a scene is the number of slips of its trial. |
| Simulation.Scene.IsDone | simulation.py:134-136 | In a valid scene, done means the budget is exactly 0, which holds exactly when the own slip has been seen or size / 2 boxes are open. |
| Simulation.Scene.IsSuccess | simulation.py:138-140 | A success is always done; in a valid scene it is a done scene where the own slip was seen or there was no budget at all (size / 2 == 0). |
| Simulation.Scene.SuccessIsFinding | simulation.py:135-140 | Once the budget (size / 2 > 0) is spent, the scene is a success exactly when the own slip was seen; at most size / 2 boxes are open, exactly size / 2 if the slip was not seen. |
| Simulation.Scene.NoBudgetIsSuccess | simulation.py:135-140 | With size / 2 == 0 (a single box) a valid scene is done and a success before any box is opened. |
| Simulation.Scene.CleanUp | simulation.py:142-150 | The own slip sets the budget to 0 and leaves the failed flag; any other slip spends one try and sets failed once the budget reaches 0. |
| Simulation.Scene.TryOpenBox | simulation.py:152-169 | OutOfGuesses exactly on a done scene, then AlreadyOpen exactly on an open box, both without any change; otherwise opens the box, returns its slip and applies the budget rule, keeping Scene.Valid. |
| LoopStrategy.ChainBox | strategies/loop.py:7-10 | Every box of the chain started at the own box is a box number 1..size. |
| LoopStrategy.ChainNoEarlyRepeat | strategies/loop.py:8-10 | If the first k+1 chain boxes are different and the next one is not the own box, the next one is new too. |
| LoopStrategy.FirstRepeatIsStart | strategies/loop.py:8-10 | The first repeated chain box is the own box. |
| LoopStrategy.ChainShowsStart | strategies/loop.py:8-10 | The own slip lies in one of the first k chain boxes exactly when chain box k is the own box again. |
| LoopStrategy.WalkOutcome | simulation.py:142-150 | When the walk ends after k distinct chain boxes with the budget spent, the scene has not failed exactly when LoopSucceeds holds. |
| LoopStrategy.WalkAt | strategies/loop.py:8-10 | In every walk state the current box is chain box k and the first k chain boxes are different. |
| LoopStrategy.WalkAdvance | strategies/loop.py:9-10 | Opening the current chain box with budget left moves the walk to the box named by its slip, one step further. |
| LoopStrategy.WalkEnd | strategies/loop.py:8-12 | When the walk is done, the open boxes are the first k chain boxes, all different, k is at most size / 2, and the scene is a success exactly when LoopSucceeds holds. |
| LoopStrategy.OpenNextBox | strategies/loop.py:9-10 | Trying the current chain box gives OutOfGuesses exactly on a done scene, with no change; otherwise the box was closed (never AlreadyOpen), is opened, and the walk moves on. |
| LoopStrategy.FollowChain | strategies/loop.py:4-12 | The loop starts at the own box, follows each slip, and only returns on OutOfGuesses, so the scene is done; it never meets an open box. |
| LoopStrategy.TryPrisoner | strategies/loop.py:4-12 | On an untouched scene: ends done, steps <= size / 2 first chain boxes open and all different, success exactly when the chain returns to the own box within size / 2 steps. |
| RandomStrategy.SucceedsIffOwnBoxLate | strategies/random.py:15-22 | RandomSucceeds holds exactly when the box holding the own slip is named by one of the last size / 2 entries of the shuffled list. |
| RandomStrategy.SearchOutcome | strategies/random.py:21-31 | With the boxes named by order[m..] open and the budget spent, the scene has not failed exactly when RandomSucceeds holds. |
| RandomStrategy.SearchEnd | strategies/random.py:21-31 | On a finished scene whose open boxes are those named by order[m..], at most size / 2 were opened and the scene is a success exactly when RandomSucceeds holds. |
| RandomStrategy.SomeBoxLeft | strategies/random.py:22 | While the loop runs, at least one number is left in `boxes_left`, because every taken box is open and at most size / 2 boxes can be. |
| RandomStrategy.PopFromEnd | strategies/random.py:22-26 | The popped number names a box and is not in `boxes_seen`, so the source's assert holds; list and seen set shift by one entry. |
| RandomStrategy.TryTaken | strategies/random.py:28-33 | OutOfGuesses leaves the scene done and unchanged; AlreadyOpen (ValueError) leaves it unchanged and means the box was open from the start; otherwise the box is opened; the own slip leaves the scene done. |
| RandomStrategy.TakeAndTry | strategies/random.py:22-33 | One loop pass: pops a number (one is always left), adds it to the seen set and tries that box, keeping the open boxes equal to those open at the start plus the seen ones. |
| RandomStrategy.OpenFromEnd | strategies/random.py:18-35 | The loop ends done and valid, with the open boxes those open before plus the boxes named by a suffix of the shuffled list. |
| RandomStrategy.TryPrisoner | strategies/random.py:11-35 | Ends done and valid without closing any box; on an untouched scene at most size / 2 boxes, those named by the last entries of the list, were opened, and the scene is a success exactly when RandomSucceeds holds. |
| Runner.Apply | main.py:15 | Running the chosen strategy on a fresh scene leaves it done, and a success exactly when Succeeds says so. |
| Runner.PlayNext | main.py:14-19 | Takes the next scene, if any, plays it, and reports whether the first queued prisoner succeeded. |
| Runner.RunScenario | main.py:13-21 | True exactly when every queued prisoner succeeds, in queue order; on False the prisoners before the failing one succeeded and later ones were never served. |
| Runner.NewQueueIsEveryone | simulation.py:76 | On a new scenario, whose queue is 1..size, "every queued prisoner succeeds" means "every prisoner 1..size succeeds". |

## Left out

- `random.shuffle` (simulation.py:55, strategies/random.py:16) is not modelled. Its result is a permutation parameter: `shuffled` for the template, and `orders` for the random strategy.
- `main.main` is not modelled: its multiprocessing pool, float division and printing are concurrency, floating point and I/O.
- The success-rate statistics are not modelled, because they are probabilistic.
- The `DEBUG` flag and `debug` printing of the random strategy are left out; they do not affect behaviour.
- The `_done` field and `PrisonerNotDoneException` are never read or raised, so they are left out.
- Python's iterator protocol (`__iter__`, the generator in `get_all_scenes`) is left out. `Scenario.Next` returns an `Option`, and `GetAllScenes` returns the whole list of scenes at once instead of yielding them lazily.
- `_Box.copy` is not a separate member. Boxes are values, so copying the template's boxes into a new array is the copy, and `RoomTemplate.Create` states its effect.
- Simulation.Scene.TryOpenBox: requires a box number in 1..size on a scene that is not done. Python reads box 0 and negative numbers from the end of the list, and raises IndexError above size. Neither strategy passes such a number.
- Simulation.Room.GetBox: requires a box number in 1..size, for the same reason.
- LoopStrategy.TryPrisoner: requires an untouched scene, that is, no box open, the full budget and not failed. The source does not catch ValueError. On a scene with open boxes it could escape, and the runner only hands out fresh scenes.
- RandomStrategy.TryPrisoner: states the exact outcome only for an untouched scene. On any other valid scene it states that the scene ends done and valid and that no box is closed.
- Runner.Strategy: a strategy is one of the two modelled functions, not an arbitrary callable.
