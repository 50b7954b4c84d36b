# Timers and asyncs of xrossfire, verified

This project models one subsystem of the xrossfire library and proves it correct in four layers.

1. **The intrusive AVL tree** (`src/avltree.h`). `AvlTheory.dfy` says what the tree is meant to compute, as plain
   values: trees without stored heights, and below them a sorted sequence. `AvlTree.dfy` is the pointer code: nodes
   rewritten in place, stored heights, the height shortcut after a rotation, and links that are not written back when an
   out-flag is false. A ghost tree value is the shape of the nodes; `Models` says that links, keys and stored heights are
   exactly those of the shape and that no node occurs twice. `TimeoutTree.dfy` is the public tree object, `SortedMap.dfy`
   relates whole runs of its operations to a map, and `AvlCheck.dfy` treats the tree's self-checks.
2. **The timeout queue** (`src/timeout.c`). `TimeoutQueue.dfy` is the queue object on the real tree: schedule, cancel,
   the wait query and the firing loop, which gives up the lock around each callback. What happens meanwhile is an
   arbitrary script of schedule and cancel requests, which may use the node that has just been fired, and any other node
   outside the tree.
3. **The poll thread** (`src/poll.c`). `TimerProtocol.dfy` is a step relation for the poll thread and any number of
   schedulers and cancellers. A section under the poll lock is one step. `PollLoop.dfy` performs these steps on the real
   queue, so that every heap operation is a protocol step.
4. **The async lifecycle** (`src/async.c`). `AsyncLifecycle.dfy` is a step relation for any number of callback-type
   asyncs, plain timers beside them, and any number of threads acting on them, on top of the timer protocol. The creation
   of an async is four steps, because it can be reached through its parent before its timer is scheduled, and plain
   timers are scheduled in steps as well. `AsyncInvariant.dfy` holds the invariant and which steps keep it,
   `AsyncRuns.dfy` what follows for whole runs, `ParentLink.dfy` the links between parents and children, and
   `AsyncHazards.dfy` runs that go wrong. `AsyncObject.dfy` is the code of the operations, whose every action is a
   lifecycle step, with clients that take an async from its creation to its end. `Multiphase.dfy` treats phase runs,
   `CancelChain.dfy` the cancellation of a chain of children, and `ChildLink.dfy` the upkeep of one parent's link.

`Keys.dfy` holds the timer keys and their order.

What the code relies on appears as preconditions or in the step relations: the clock is not negative and does not run
backwards, timeouts are positive, a node is not scheduled while it is in the tree, and a thread that starts to notify,
cancel or enter an async holds a reference to it, which it may take as long as the async is alive; only a cancellation
that comes through the parent's link has none. Computing a wait and going to sleep is one step, with the clock standing
still. A parent outlives its children, whose last release writes to it. A multiphase phase is notified once, after its
call has returned.

Four expectations do not hold of the code. Each comes with an input that fails and with the exact condition.

- **References.** `xf_async_new` links the new async to its parent before it counts the timer's reference
  (`src/async.c:69-74`), `xf_timeout_schedule` stores the deadline before the sequence number, which is still zero
  (`src/timeout.c:55-59`), and `_cancel` takes no reference to the child that it cancels (`src/async.c:291-293`).
  - A cancellation between deadline and number searches for the number zero with that deadline. If the first timer of
    the process is pending with the same deadline, it is taken out, and a reference is released for it
    (`TimeoutQueue.CancelWhileArmed`, `AsyncHazards.WrongTimerIsCancelled`, `PlainCancelTakesAsyncs`).
  - A notification before the timer's reference is counted can free the async under its creator's hands
    (`AsyncHazards.CreatorCountsOnFreed`).
  - A child can be freed while it is cancelled through its parent's link (`AsyncHazards.BorrowedIsFreed`).

  `Harmful` lists these steps by what is pending and counted before them, and a step keeps the invariant if and only if
  it is not one of them (`AsyncInvariant.InvSurvivesIffHarmless`, `AsyncRuns.RunIsSafeIffCareful`). Reference
  conservation and the safety of freeing are proved of all runs without such a step. What callers have to see to is that
  nobody acts on an async before `xf_async_new` has returned or cancels a plain timer before its `xf_timeout_schedule`
  has, and that somebody else keeps a reference to a child while it is cancelled through its parent
  (`AsyncRuns.PatienceIsEnough`). That the callback runs at most once needs no condition, but for one thing: in a run
  with a harmful step somebody may act on an async that has been freed, and the field `called` is taken to keep its value
  there.
- **Order of a tree that `check_` accepts.** `check_` compares a key with those of the direct children only, and accepts
  equal keys on the right (`src/avltree.h:343-353`). It accepts trees that are not sorted
  (`AvlCheck.CheckAcceptsUnsorted`, `CheckAcceptsEqualKeys`). These trees are nodes written by hand: every tree that the
  operations build is sorted, by `TimeoutTree.Tree.Valid`, and passes. An accepted tree is sorted if and only if the
  comparisons with the neighbours that `check_` leaves out hold (`AvlCheck.CheckedIsSortedIff`).
- **A null parent.** `xf_async_call` accepts a null parent, but the end of the run notifies the parent without a test. A
  finished run has reported once and dropped its reference once if and only if it has a parent (`Multiphase.Run.Drive`);
  `Multiphase.NullParentIsDereferenced` is the shortest run that fails.
- **The link to the child.** A new async becomes the child that its parent names, and the last release of any child
  clears the link (`src/async.c:69-71`, `:163-165`), whatever it names by then. When the callback of one child creates the
  next, cancelling the parent does not reach it (`CancelChain.SecondChildIsMissed`). The link is right throughout a run if
  and only if every child is released while no other is alive (`ChildLink.AlwaysRightIff`, and of the lifecycle's runs
  `ParentLink.LinkReachesIff`); when all children have been released in the end, this is to say that none is created
  while another is alive (`ChildLink.AlwaysRightIffStartedAlone`).

## Model

| member | source | states |
|---|---|---|
| Keys.Compare | src/timeout.c:35-42 | Keys are ordered by due tick and then by sequence number; only equal keys compare as equal. |
| AvlTheory.ShortcutExactness | src/avltree.h:16-42 | Giving the new root its child's height plus one is the true height exactly when the outer grandchild is at most that child's height. |
| AvlTheory.ShortcutAtCallSites | src/avltree.h:63-97 | Every rotation that balancing performs on a tree one unit out of balance meets that condition: single ones with a zero-bias child included, and both halves of the double ones. |
| AvlTheory.RotationKeepsOrder | src/avltree.h:16-42 | A rotation keeps the in-order sequence, the set of nodes and their distinctness. |
| AvlTheory.BalanceKeepsOrder | src/avltree.h:63-97 | Balancing keeps the in-order sequence, the set of nodes and their distinctness, whatever the heights. |
| AvlTheory.BalanceLeftRestores | src/avltree.h:63-79 | From subtrees at most two apart the result is an AVL tree as high as the taller one or one more, and the latter after a rotation exactly for a zero-bias child. |
| AvlTheory.BalanceRightRestores | src/avltree.h:81-97 | The mirror image. |
| AvlTheory.InsertKeepsBalance | src/avltree.h:99-130 | Insertion yields an AVL tree at most one higher, which leans to a side if it grew (so the zero-bias case never arises on insertion), and changes nothing when the key is there. |
| AvlTheory.InsertRefinesSequence | src/avltree.h:99-130 | The in-order sequence after an insertion is the old one with the node at its sorted position. |
| AvlTheory.InsertNodes | src/avltree.h:99-130 | An insertion loses no node, adds at most the new one, and duplicates none. |
| AvlTheory.SeqInsertIsMapUpdate | src/avltree.h:367-372 | Inserting at the sorted position keeps the sequence sorted and adds exactly the new key and entry. |
| AvlTheory.SeqRemoveIsMapRemove | src/avltree.h:374-377 | Removing a key keeps the sequence sorted and takes out exactly the entry with that key. |
| AvlTheory.RemoveMinFacts | src/avltree.h:278-292 | Removing the minimum takes the first entry off the in-order sequence, keeps the balance, and lowers the height by at most one. |
| AvlTheory.RemoveMaxFacts | src/avltree.h:294-308 | The same for the last entry. |
| AvlTheory.RemoveRootFacts | src/avltree.h:239-250 | Promoting the in-order predecessor removes exactly the root and keeps the balance. |
| AvlTheory.RemoveKeyKeepsBalance | src/avltree.h:213-252 | Removing a key keeps the balance at every ancestor, lowers the height by at most one, and leaves the very same tree when the key is absent. |
| AvlTheory.RemoveKeyRefinesSequence | src/avltree.h:213-252 | The in-order sequence after a removal is the old one without the entry found, and the node found is that entry's. |
| AvlTheory.RemoveKeyNodes | src/avltree.h:213-252 | The nodes after a removal are the old ones without the node found, each still once. |
| AvlTheory.HeightBound | src/avltree.h:318-336 | A balanced tree of height h has at least Fib(h + 2) - 1 nodes. |
| AvlTheory.HeightOfIntSizedTree | src/avltree.h:310-336 | With fewer than 2^31 nodes the height, and so the recursion depth, is at most 44. |
| AvlTree.HeightIsStored | src/avltree.h:56-61 | Stored heights and biases of a well-formed tree are the true ones. |
| AvlTree.Refresh | src/avltree.h:11-14 | From exact children a stale height becomes exact. |
| AvlTree.RotateLeft | src/avltree.h:16-27 | In place, with the shortcut height, the nodes become exactly the left rotation of the tree, under the condition that makes the shortcut exact. |
| AvlTree.RotateRight | src/avltree.h:29-42 | The mirror image. |
| AvlTree.RotateLeftRight | src/avltree.h:44-48 | The nodes become exactly the double rotation. |
| AvlTree.RotateRightLeft | src/avltree.h:50-54 | The mirror image. |
| AvlTree.BalanceLeft | src/avltree.h:63-79 | The nodes become the balanced tree; a rotation leaves the flag as it was, otherwise the flag says whether the stored height was stale. |
| AvlTree.BalanceRight | src/avltree.h:81-97 | The mirror image. |
| AvlTree.AttachGrownLeft | src/avltree.h:110-116 | Skipping the write-back on a false flag still leaves the nodes as the rebuilt and balanced tree, and the outgoing flag is honest: false means same root pointer and same height. |
| AvlTree.AttachGrownRight | src/avltree.h:118-124 | The same for the branch that tests whether anything was inserted. |
| AvlTree.AttachShrunkLeft | src/avltree.h:139-145 | The same on the way back from removing a minimum. |
| AvlTree.AttachShrunkRight | src/avltree.h:156-162 | The same on the way back from removing a maximum. |
| AvlTree.AttachReducedLeft | src/avltree.h:223-229 | On the way back from removing a key on the left the nodes become the balanced tree. |
| AvlTree.AttachReducedRight | src/avltree.h:231-237 | The same on the right. |
| AvlTree.InsertNode | src/avltree.h:99-130 | The nodes become the tree after insertion, only links and heights are written, `inserted` is true exactly when the key was absent, and a false `changed` means same root and same height. |
| AvlTree.PopMin | src/avltree.h:132-147 | The nodes become the tree without its minimum, which is returned, and the flag is honest. |
| AvlTree.PopMax | src/avltree.h:149-164 | The nodes become the tree without its maximum, which is returned, and the flag is honest. |
| AvlTree.RemoveMin | src/avltree.h:278-292 | The nodes become the tree without its minimum, and the flag is honest. |
| AvlTree.RemoveMax | src/avltree.h:294-308 | The nodes become the tree without its maximum, and the flag is honest. |
| AvlTree.RemoveRoot | src/avltree.h:239-250 | The promoted predecessor, with the stale height it brings along, ends up as a well-formed tree without the root. |
| AvlTree.RemoveKey | src/avltree.h:213-252 | The nodes become the tree without the key, and the node that held it is returned, or null. |
| AvlTree.GetMin | src/avltree.h:254-264 | The walk to the left ends at the minimum. |
| AvlTree.GetMax | src/avltree.h:266-276 | The walk to the right ends at the maximum. |
| AvlCheck.CountsAreExact | src/avltree.h:310-324 | Counting nodes and levels is right on any links. |
| AvlCheck.CheckedBalanceIsAvl | src/avltree.h:326-360 | On a tree that `check_` accepts, `balanced_` on stored heights is true balance as measured by counting levels. |
| AvlCheck.ValidTreesPass | src/avltree.h:326-360 | Every valid tree passes both checks. |
| AvlCheck.SortedIffNeighbours | src/avltree.h:338-360 | Any tree is sorted if and only if each key lies between the last key on its left and the first on its right. |
| AvlCheck.CheckedIsSortedIff | src/avltree.h:338-360 | A tree that `check_` accepts is sorted if and only if the comparisons it leaves out hold: with neighbours deeper down than the direct children, and that a right child's key is not equal. |
| AvlCheck.OuterShapesAreSortedIff | src/avltree.h:343-353 | Where no child has a subtree on its inner side, an accepted tree is sorted if and only if no right child has its parent's key. |
| AvlCheck.CheckAcceptsUnsorted | src/avltree.h:338-360 | Four nodes, written by hand, that pass both checks and are not sorted: an input at which the condition of `CheckedIsSortedIff` fails. |
| AvlCheck.CheckAcceptsEqualKeys | src/avltree.h:349-353 | Two nodes with one key that pass both checks. |
| SortedMap.StepRefinesMap | src/avltree.h:362-419 | Each public operation on the sorted contents is that operation on the map from keys to nodes, with the same reply. |
| SortedMap.RunRefinesMap | src/avltree.h:362-419 | Every run of operations answers and ends as the map would, and is enabled when the map's run is. |
| TimeoutTree.Tree.constructor | src/avltree.h:362-365 | A new tree is valid and empty. |
| TimeoutTree.Tree.Insert | src/avltree.h:367-372 | From any valid tree to a valid tree: the insertion step on the contents, with the right answer. |
| TimeoutTree.Tree.Remove | src/avltree.h:374-377 | From any valid tree to a valid tree: the removal step, returning exactly the node taken out or null. |
| TimeoutTree.Tree.GetMin | src/avltree.h:379-382 | The first node, which is also what `pop_min` would return. |
| TimeoutTree.Tree.GetMax | src/avltree.h:384-387 | The last node, which is also what `pop_max` would return. |
| TimeoutTree.Tree.RemoveMin | src/avltree.h:389-393 | From a non-empty valid tree to a valid tree without its first node. |
| TimeoutTree.Tree.RemoveMax | src/avltree.h:395-399 | From a non-empty valid tree to a valid tree without its last node. |
| TimeoutTree.Tree.PopMin | src/avltree.h:401-409 | The same as `remove_min`, with the very same resulting shape, returning the node; null on an empty tree. |
| TimeoutTree.Tree.PopMax | src/avltree.h:411-419 | The same as `remove_max`, with the very same resulting shape, returning the node; null on an empty tree. |
| TimeoutTree.Tree.PassesChecks | src/avltree.h:421-439 | Every valid tree object passes `check` and `balanced`, counts its contents and levels right, and obeys the height bound. |
| TimeoutQueue.Queue.constructor | src/timeout.c:26-33 | A new queue is valid and empty. |
| TimeoutQueue.Queue.Schedule | src/timeout.c:44-72 | The timer gets the next sequence number, the deadline and its procedure, the ignored `inserted` is true, exactly this key becomes pending, and the poll thread is woken exactly if it is the least. |
| TimeoutQueue.Queue.Arm | src/timeout.c:50-55 | Before the lock is taken the node is reset and its deadline set. |
| TimeoutQueue.Queue.Enlist | src/timeout.c:57-62 | Under the lock the node gets a fresh key and enters the tree. |
| TimeoutQueue.Queue.IsMinimum | src/timeout.c:64-67 | Comparing with the tree's minimum tells whether the key is the least pending one. |
| TimeoutQueue.Queue.Cancel | src/timeout.c:74-84 | True exactly if the key was pending, which is then gone; the node taken out is the one the number in the key was given to, and no other is touched. For a node that owns its key, or was never armed, true exactly if the node itself was in the tree. |
| TimeoutQueue.Queue.Remove | src/timeout.c:76-81 | The removal under the lock returns the node that the number in the key was given to, if that key was pending. |
| TimeoutQueue.Queue.GetWaitTimeout | src/timeout.c:89-106 | The time to the least pending deadline, or the default without timers. |
| TimeoutQueue.Queue.Peek | src/timeout.c:113-113 | The node with the least pending key, or null. |
| TimeoutQueue.Queue.RemoveFront | src/timeout.c:116-116 | Exactly the least pending key is removed. |
| TimeoutQueue.Queue.RunSchedule | src/timeout.c:118-122 | While the lock is free a timer is scheduled on a node outside the tree, such as the one just fired, or on a new one. |
| TimeoutQueue.Queue.RunRequest | src/timeout.c:118-122 | While the lock is free one schedule or cancel by others happens: a scheduled timer becomes pending under the next number with its deadline and its procedure, a cancelled key is no longer pending, and nothing else changes. |
| TimeoutQueue.Queue.RunRequests | src/timeout.c:118-122 | Any number of requests have their effects one after the other, and what is cancelled was asked for. |
| TimeoutQueue.Queue.FireFront | src/timeout.c:115-125 | One round of the firing loop takes out the least timer, calls the procedure that its schedule call stored, and lets others act with the lock dropped. |
| TimeoutQueue.Queue.PassRound | src/timeout.c:115-125 | One round keeps the account of the pass, the due timers become one fewer but for those that come late, and the queue after it is the one before without the least timer, changed by the requests made meanwhile. |
| TimeoutQueue.Queue.FireDue | src/timeout.c:113-125 | The loop terminates with nothing due at the front; round by round it fires the least timer and calls its procedure, and every timer is accounted for, as cancelled only if somebody asked for it. |
| TimeoutQueue.Queue.ProcessPass | src/timeout.c:107-127 | The pass ends with nothing due and fires all that was due or became due, but what others asked to cancel; nothing early or twice, and no more than was due or came late; each firing takes the least timer and calls the procedure stored with it; every timer ends pending, fired or cancelled; without latecomers the firings are in strictly increasing key order. |
| TimeoutQueue.FreshInsertion | src/timeout.c:59-62 | A key with the next sequence number matches no pending key, so its insertion always succeeds. |
| TimeoutQueue.MinimumIsLeast | src/timeout.c:64-65 | A node is first in the tree exactly if its key is the least. |
| TimeoutQueue.CancelHitsOwner | src/timeout.c:78-83 | Searching for a node's key finds the node that its number was given to, if that key is pending; it finds another node than its own if and only if the key is pending and not owned. |
| TimeoutQueue.OwnersKey | src/timeout.c:59-83 | A node that owns its key, spent or zeroed ones included, is in the tree exactly if its key is. |
| TimeoutQueue.ArmedKeyHits | src/timeout.c:55-59 | The half-written key of a node armed for the first time finds something if and only if the first timer ever scheduled is pending with the same deadline, and then it finds that one. |
| TimeoutQueue.CancelWhileArmed | src/timeout.c:55-83 | For any tick and timeout: cancelling the second node while it is armed takes the first one out and says that it found its timer. |
| TimeoutQueue.FiringStep | src/timeout.c:115-125 | One round keeps the account of pending, fired and cancelled timers and the firing order. |
| TimeoutQueue.TraceGrows | src/timeout.c:115-125 | A pass to which a round is added, on the least timer, due, with its procedure and the next part of the script, is a pass of rounds. |
| TimerProtocol.EnlistKeepsInv | src/timeout.c:57-69 | Scheduling, with the wake-up rule for a new minimum, loses no wakeup and keeps keys fresh. |
| TimerProtocol.CancelKeepsInv | src/timeout.c:74-84 | Cancelling anything, the minimum included, loses no wakeup and settles one timer. |
| TimerProtocol.FireKeepsInv | src/timeout.c:115-120 | Firing settles one timer and gives up the lock. |
| TimerProtocol.PollKeepsInv | src/poll.c:57-72 | Sleeping, waking, committing and finishing a pass keep the invariant. |
| TimerProtocol.NextKeepsInv | src/poll.c:57-72 | Every step of anybody keeps the invariant. |
| TimerProtocol.RunsAreSafe | src/poll.c:57-72 | In every state of every run an unsignalled sleeping poll thread has a deadline no later than any pending timer, and the poll thread commits to firing only when something is due. |
| TimerProtocol.RecordsMatchEvents | src/timeout.c:44-127 | The recorded histories are the events of the run. |
| TimerProtocol.EveryTimerHasOneFate | src/timeout.c:44-127 | A scheduled timer is pending, or fired exactly once, or cancelled by exactly one call that said so, and no two of these; an unscheduled key has no fate. |
| TimerProtocol.KeysAreScheduledOnce | src/timeout.c:57-59 | No key is handed out twice in a run. |
| TimerProtocol.PassMakesProgress | src/timeout.c:111-125 | During a pass the due timers, counting schedulers that hold a due deadline, never grow in number, and each firing reduces it. |
| TimerProtocol.PassTerminates | src/timeout.c:111-125 | Under any interleaving a pass fires at most as many timers as that number at its start. |
| TimerProtocol.PassFiresInOrder | src/timeout.c:111-125 | Without latecomers at the sample a pass fires in strictly increasing key order, and nothing early. |
| TimerProtocol.PassEndsWithNothingDue | src/timeout.c:115-127 | However a pass is left, by any step of anybody, it has fired at least one timer, leaves nothing due at its sample, and the poll thread decides anew. |
| TimerProtocol.PassBeginsAtClock | src/timeout.c:111-113 | A pass begins only when the poll thread has committed itself, with the clock of that moment as its sample. |
| TimerProtocol.PassIsOne | src/timeout.c:115-127 | In any run, from its beginning until the poll thread decides again a pass keeps its one sample, and then nothing is due at that sample. |
| TimerProtocol.PassClearsWhatIsDue | src/timeout.c:107-127 | In any run, what is due at the clock when a pass begins has been fired or cancelled, once, when the poll thread decides again, whoever schedules or cancels meanwhile. |
| TimerProtocol.WaitIsExact | src/poll.c:14-28 | The wait is positive exactly when nothing is due, then it is at most 300000; otherwise the poll thread goes on to fire, holding the lock. |
| TimerProtocol.SleepIsLatestAdmissible | src/poll.c:14-66 | The poll thread sleeps until the latest time that is neither beyond a pending timer nor more than 300000 away, and does not sleep if that time is not in the future. |
| TimerProtocol.SignalIffNewMinimum | src/timeout.c:64-67 | Scheduling signals a sleeping poll thread if and only if the new timer is before all others, and does nothing else to it. |
| PollLoop.Poller.constructor | src/poll.c:7-12 | The initial state of the protocol. |
| PollLoop.Poller.Tick | src/poll.c:57-72 | The clock moving on is a protocol step. |
| PollLoop.Poller.Arm | src/timeout.c:50-55 | Computing a deadline on the real node is an arming step, and the node keeps its old number. |
| PollLoop.Poller.Enlist | src/timeout.c:57-69 | Inserting into the real tree and waking is an enlisting step; the poll thread is woken exactly if the timer is the least pending one. |
| PollLoop.Poller.Cancel | src/timeout.c:74-84 | Removing from the real tree is a cancel step with the same answer, which is true exactly if the key was pending; no other key leaves, and the poll thread is left alone. |
| PollLoop.Poller.MinWait | src/poll.c:14-28 | The least answer of the registered procedures, capped. |
| PollLoop.Poller.Decide | src/poll.c:61-70 | One turn of the loop is a poll step: the wait is the time to the least pending deadline or 300000 if that is longer, a positive wait is a sleep until then, and one that is not positive means that something is due. |
| PollLoop.Poller.FireOrFinish | src/timeout.c:113-125 | One round on the real tree is a firing step on the least pending timer, which is due, or ends the pass with nothing due. |
| PollLoop.Poller.Advance | src/poll.c:57-72 | The poll thread's remaining moves: from waking to deciding, from sleeping to waking, from committing to a pass with the clock as its sample, and from a callback back into the same pass. |
| PollLoop.OneTimerFires | src/poll.c:57-72 | A timer is scheduled, the poll thread sleeps exactly until its deadline and then fires it, for any tick and timeout. |
| AsyncLifecycle.ReleaseStepIsRight | src/async.c:152-185 | A release gives up one counted reference; whoever reaches zero destroys. |
| AsyncLifecycle.IdleStepIsRight | src/async.c:143-150 | Taking a reference and starting an operation are counted. |
| AsyncLifecycle.OtherStepIsRight | src/async.c:207-313 | Testing and setting the mark, running the callback, marking as cancelled, entering and freeing keep the count and the duties. |
| AsyncLifecycle.LocalStepIsRight | src/async.c:143-333 | Every step on an async keeps its count, its duties and its actor's, but one that gives up the last reference before the timer's is counted, or before a canceller without a reference is through. |
| AsyncLifecycle.CancelTimerStepIsRight | src/async.c:261-267 | Cancelling the timer hands its reference to the caller that found it pending; the cancel during destruction finds nothing. |
| AsyncLifecycle.StoreStepIsRight | src/timeout.c:50-55 | Storing the deadline leaves the number at zero and keeps count and duties. |
| AsyncLifecycle.EnlistStepIsRight | src/timeout.c:57-62 | Giving the key its number keeps count and duties. |
| AsyncInvariant.PutKeepsActors | src/async.c:152-333 | An actor that does right by its async, and uncovers nobody there, keeps everybody's invariant. |
| AsyncInvariant.NewKeepsInv | src/async.c:51-71 | A new async starts with the creation reference, its timer not counted yet. |
| AsyncInvariant.StoreMoveKeepsInv | src/timeout.c:50-55 | Storing the deadline keeps the invariant, whatever is pending. |
| AsyncInvariant.EnlistMoveKeepsInv | src/timeout.c:57-62 | The new async owns the fresh key and nobody else does. |
| AsyncInvariant.TimerMoveKeepsInv | src/poll.c:57-72 | The clock and the poll thread keep the invariant. |
| AsyncInvariant.PlainScheduleKeepsInv | src/timeout.c:50-62 | Scheduling a plain timer, for the first time or again, keeps the invariant, whoever acts in between. |
| AsyncInvariant.PlainFindsItself | src/timeout.c:55-59 | A plain timer's key finds its own node or none, unless it is half written with the number zero. |
| AsyncInvariant.CancelPlainKeepsInv | src/timeout.c:74-84 | Cancelling a plain timer keeps the invariant, unless its key is half written and an async's node is pending under it. |
| AsyncInvariant.BorrowKeepsInv | src/async.c:291-293 | Turning to a live child through the link, without a reference, keeps the invariant. |
| AsyncInvariant.FireMoveKeepsInv | src/timeout.c:115-120 | Firing hands an async's timer reference to the handler, and the async is alive and was waiting; a plain timer's firing concerns no async. |
| AsyncInvariant.CancelMoveKeepsInv | src/async.c:265-267 | Unless its key is half written and pending, cancelling an async's timer finds it exactly if the async waits for it, keeps the invariant, and misses during destruction. |
| AsyncInvariant.LocalMoveKeepsInv | src/async.c:143-333 | Harmless local steps keep the invariant of the whole system. |
| AsyncInvariant.NextKeepsInv | src/async.c:45-333 | Every harmless step of the system keeps the invariant. |
| AsyncInvariant.InvSurvivesIffHarmless | src/async.c:69-79 | A step keeps the invariant if and only if it is none of these: cancelling under an async's half-written key that is pending, cancelling under a plain timer's half-written key when an async's node is pending there, giving up the last reference while the creator has yet to count or a canceller without a reference is under way, and turning to a child that is being destroyed. |
| AsyncRuns.HalfWrittenKeyHitsAnother | src/timeout.c:55-59 | Cancelling an async that is being made finds something exactly if the number zero with its deadline is pending; what it takes out is another's node, whose async is told nothing; the invariant survives exactly if it finds nothing. |
| AsyncRuns.PlainCancelHitsItself | src/timeout.c:55-83 | Cancelling a plain timer takes out its own node or none, unless its key is half written with the number zero; the invariant survives exactly if no async's node is taken out. |
| AsyncRuns.SpentStaysSpent | src/timeout.c:57-59 | A key that has left the queue is never pending again, so whoever waits for it waits for ever. |
| AsyncRuns.RunIsSafeIffCareful | src/async.c:45-333 | The invariant holds throughout a run if and only if no step of the run is harmful. |
| AsyncRuns.PatienceIsEnough | src/async.c:45-83 | If nobody acts on an async or cancels a plain timer whose creation or schedule call has not returned, and somebody else has a reference to a child whenever it is cancelled through its parent, no step is harmful. |
| AsyncRuns.HoldersKeepAlive | src/async.c:143-157 | While somebody else has a reference, what an actor gives up is not the last one. |
| AsyncRuns.NextKeepsCallback | src/async.c:207-222 | Every step, harmful or not, keeps what concerns the callback and undoes no mark. |
| AsyncRuns.EveryTimerHasItsNode | src/timeout.c:115-120 | In every run whatever, each pending key has its node in the tree, and firing it starts the handler exactly if the node is an async's. |
| AsyncRuns.ReferencesAreConserved | src/async.c:143-243 | In every state of every careful run the count is the creation reference, the timer reference and all actors' references, each from when it is counted until it is given up. |
| AsyncRuns.CallbackRunsAtMostOnce | src/async.c:207-222 | In every run whatever, the callback starts at most once, exactly once when it has been called for, and has finished once its runner goes on to release. |
| AsyncRuns.CallbackFindsTimerSettled | src/async.c:261-283 | In runs of patient callers whoever goes on to the callback, or comes from it, finds the async's timer neither pending nor about to be. |
| AsyncRuns.FreedOnlyWhenDone | src/async.c:152-185 | In careful runs an async is freed at most once, only after its callback ran, with no timer pending and nobody referring to it. |
| AsyncRuns.NobodyTouchesFreed | src/async.c:152-333 | In careful runs whoever is about to act on an async finds it alive, or is the one destroying it; this includes those who cancel it through its parent's link and have no reference. |
| AsyncRuns.TimersFireOnLiveAsyncs | src/async.c:326-333 | In careful runs every pending key is that of an async which is alive and waits for it, or of a plain timer whose schedule call has returned; an async waits exactly if its key is pending once its creator has enlisted it; the cancel in the last release finds nothing. |
| AsyncRuns.RunsGoOnward | src/async.c:207-333 | Over any stretch of a careful run references given up stay given up, the timer's reference changes hands at most once, and a freed async never changes. |
| AsyncRuns.MarksStayMarked | src/async.c:207-313 | Over any stretch of any run marks are never cleared, callbacks not unrun, and the creation reference not taken back. |
| AsyncHazards.WrongTimerIsCancelled | src/timeout.c:55-83 | A run in which a cancellation before enlisting releases the wrong reference: the new async's count ends one too low, and the first async waits for a timer that is gone. |
| AsyncHazards.CreatorCountsOnFreed | src/async.c:69-74 | A run in which a notification before the timer's reference is counted frees the async while its creator is about to count. |
| AsyncHazards.PlainCancelTakesAsyncs | src/timeout.c:55-83 | A run in which cancelling a plain timer before its schedule call has returned takes out an async's timer. |
| AsyncHazards.BorrowedIsFreed | src/async.c:291-293 | A run in which a child is freed while its cancellation through the parent's link has all its steps before it. |
| ParentLink.MoveIsStep | src/async.c:69-165 | From every sound state each step of the lifecycle is one step of a parent's family: a creation, a release, or nothing. |
| ParentLink.RunsTellStories | src/async.c:69-165 | A careful run is, for each parent, a run of its family. |
| ParentLink.LinksNameTheUnfreed | src/async.c:163-165 | In careful runs a parent's link never names anything but a child of its that has not been freed. |
| ParentLink.LinkReachesIff | src/async.c:163-165 | In a careful run the link names a child whenever one has not been freed, if and only if every child is freed while no other is left. |
| ParentLink.BorrowedStaysAlive | src/async.c:291-293 | In a careful run a child that is found through the link is alive when it is found and stays alive until its cancellation is over. |
| ParentLink.BorrowIsHarmlessIff | src/async.c:291-293 | Finding a child through the link does no harm if and only if its count is not zero yet. |
| ParentLink.ReleaseIsHarmlessIff | src/async.c:152-157 | While a child is cancelled through the link, a release by somebody else does no harm if and only if it is not the last one. |
| AsyncObject.StepKeepsRight | src/async.c:143-333 | Any path of steps of one actor keeps what the lifecycle says about it. |
| AsyncObject.Async.constructor | src/async.c:51-71 | A new async has the creation reference and a zeroed key, and with a timeout its creator still has to count the timer's. |
| AsyncObject.Async.CountTimer | src/async.c:74-74 | Counting the timer's reference is a creation step, after which others may act. |
| AsyncObject.Async.StoreDeadline | src/timeout.c:50-55 | Storing the deadline is a creation step; others may act after it if and only if no timer is pending under the half-written key. |
| AsyncObject.Async.EnlistTimer | src/timeout.c:57-69 | Numbering and inserting the timer completes the creation, waking the poll thread exactly for the least key. |
| AsyncObject.Async.StartTimer | src/async.c:73-79 | A positive timeout takes a reference and schedules the async's own timer, through these three steps. |
| AsyncObject.Async.AddRef | src/async.c:143-150 | One reference more, which the caller holds from then on. |
| AsyncObject.Async.HandOver | src/timeout.c:115-120 | The least node is taken out of the queue, and its async's timer reference goes to the handler. |
| AsyncObject.Async.CancelTimer | src/async.c:265-265 | True exactly if the async's timer was in the tree; a cancel step of the lifecycle that leaves all other timers alone. |
| AsyncObject.Async.Decrement | src/async.c:156-157 | The atomic decrement is a release step. |
| AsyncObject.Async.Destroy | src/async.c:159-184 | Cancelling the timer and freeing are the two destruction steps. |
| AsyncObject.Async.Release | src/async.c:152-185 | One reference less, and freed exactly at zero. |
| AsyncObject.Async.TestCalled | src/async.c:209-219 | The first caller, and only it, goes on to the callback. |
| AsyncObject.Async.NotifyCallback | src/async.c:207-222 | The callback runs with the error exactly if nobody was first, and then the creation reference is gone. |
| AsyncObject.Async.Notify | src/async.c:261-283 | A pending timer is cancelled and its reference released, the callback has been called, once; the caller's reference keeps the async alive. |
| AsyncObject.Async.MarkAndNotify | src/async.c:285-313 | The async is marked, and notified of the cancellation unless a child or the I/O takes over. |
| AsyncObject.Async.Cancel | src/async.c:315-324 | A pending timer is taken out and its reference released, then the async is marked, and notified unless a child or the I/O takes over. |
| AsyncObject.Async.Expire | src/async.c:326-333 | The handler marks, notifies, gives up the timer's reference last, and frees exactly if it was the last one. |
| AsyncObject.Async.Enter | src/async.c:224-237 | Entering takes a reference, or notifies and refuses when cancelled. |
| AsyncObject.Async.Leave | src/async.c:239-243 | Leaving gives the reference back, and frees exactly if it was the last one. |
| AsyncObject.Async.Drop | src/async.c:152-185 | Releasing a reference that was taken frees the async exactly if it was the last one. |
| AsyncObject.NotifiedAndFreed | src/async.c:143-283 | From creation, with or without a timeout, through a notification to the end: the callback has run once with the error, and the async is freed. |
| AsyncObject.ExpiredAndFreed | src/async.c:73-333 | From creation with a timeout through its expiry to the end: the callback has been told of the cancellation once, and the async is freed. |
| AsyncObject.CancelledAndFreed | src/async.c:143-324 | Entering and leaving works before a cancellation and is refused after it; the callback has run once, and the async is freed with the last reference. |
| Multiphase.Run.RunNextPhase | src/async.c:398-430 | An error is passed to one call for the error phase; otherwise one call is made for the phase asked for, and if it fails a second one for the error phase with its error. The run is over exactly after an error or the exit, and then the last result has been reported and the reference dropped. |
| Multiphase.Run.Drive | src/async.c:342-430 | For any notifications the first call is for phase 0, and each later call answers the failure of the one before or else the next notification, with exactly that error, for the phase asked for or the error phase; the run goes on exactly until an error was reported or the exit asked for. A run that is over told its parent once, with the last result, and dropped its reference once, if and only if it has a parent; one that is not over has told nothing. |
| Multiphase.AnswersGrow | src/async.c:398-430 | After one more round every call still answers the failure before it or its notification, and nothing follows an ended run. |
| Multiphase.ErrorCallIsSingleAndLast | src/async.c:398-430 | Of the calls that outcomes and notifications demand all but the last are normal, for the phase the one before asked for and never the exit, so an error call is single and last. |
| Multiphase.NullParentIsDereferenced | src/async.c:371-426 | A run without a parent that exits at once dereferences null and keeps its reference. |
| CancelChain.Cancel | src/async.c:315-324 | Cancelling the head of a chain of any length terminates, marks all of it, releases every pending timer, and causes exactly the expected events, parent before child, and within one async timer, mark, I/O, notification. |
| CancelChain.MarkAndPassOn | src/async.c:285-313 | Marks the async, then passes the cancellation on to the child, the I/O or the notification, in the same order. |
| CancelChain.ExpectedCounts | src/async.c:285-324 | Every member is marked once, every pending timer released once, and only the deepest member is notified or has its I/O cancelled. |
| CancelChain.ExpectedIsOrdered | src/async.c:285-324 | The events follow the chain downwards, and within one async the timer is settled first, then comes the mark, then the I/O, then the notification; each event concerns a member. |
| CancelChain.IoComesBeforeNotification | src/async.c:298-304 | The system is asked to cancel the I/O before the async is notified, and both happen only to one async and only if the system could not cancel. |
| CancelChain.MarksComeFirst | src/async.c:287-312 | All marks and releases come before the deepest async is notified or has its I/O cancelled. |
| CancelChain.SecondChildIsMissed | src/async.c:163-165 | After a second child was created and the first released, cancelling the parent does not reach the second. |
| ChildLink.LinkIsRightIff | src/async.c:69-71 | At any moment the link names no child that has been released; so it is right if and only if it names one or none is alive. |
| ChildLink.LinkNamesNewest | src/async.c:69-165 | The link names a child if and only if that is the last one created and none has been released since. |
| ChildLink.AlwaysRightIff | src/async.c:163-165 | Throughout a run the link is right if and only if every child is released while no other is alive. |
| ChildLink.AlwaysRightIffStartedAlone | src/async.c:69-165 | When all children have been released in the end: if and only if none was created while another was alive. |
| ChildLink.OverlapIsMissed | src/async.c:163-165 | Of two children alive at once the one released later is missed, whichever it is. |

## Left out

- Sockets, I/O completion ports and name resolution: foreign calls; an environment that may notify an async, and an I/O cancellation whose answer is arbitrary.
- 64-bit wrap-around of sequence numbers and ticks, and overflow of heights and counts: integers are unbounded here.
- `remove_node_`: nothing calls it, and it repeats `remove_key_` with a pointer comparison.
- More than one poll thread: `WakeConditionVariable` wakes one sleeper, and only one poll thread is started.
- `xf_poll_add` and `xf_poll_remove`: the timeout procedure is taken to be the only registration; `MinWait` still takes any number of answers.
- Fairness and real time: a signalled or timed-out sleeper is able to wake up, but nothing forces the scheduler to run it, and the time between computing a wait and sleeping is zero.
- Wait-type asyncs: their parent, child and, without a timeout, timer fields are not initialised by the code.
- Locks of the asyncs and deadlock across parents and children: sections under an async's lock are single steps, and an open enter section does not exclude others.
- Who turns to a child through its parent's link: the model lets this happen whenever the link names a child, and not only in a cancellation of the parent.
- CancelChain.Cancel: follows a chain of links without concurrency; in the lifecycle a cancellation that is handed on to a child ends for the parent, and another actor goes on with the child.
- AsyncRuns.ReferencesAreConserved: of careful runs only, since it is false of others (`AsyncHazards.WrongTimerIsCancelled`); so are `FreedOnlyWhenDone`, `NobodyTouchesFreed`, `TimersFireOnLiveAsyncs` and `RunsGoOnward`.
- AsyncRuns.CallbackRunsAtMostOnce: in runs with a harmful step the fields of a freed async are taken to keep their values.
- Failing allocations, and the error paths of creation.
- Multiphase.Run.RunNextPhase: the notification of the parent is recorded, and what it makes the parent do is not followed; timers of multiphase asyncs and their cancellation while a phase runs are not modelled.
- CancelChain.MarkAndPassOn: the notification and the I/O cancellation of the deepest async are events without further effect.
- AsyncObject.Async.Notify: this and the other operations are performed without interference between their steps, on an async without a parent whose timer's reference has been counted, and an actor without a reference is covered by somebody else's; interleavings and links are the business of the lifecycle.
