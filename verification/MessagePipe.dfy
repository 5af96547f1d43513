// The pipe between a worker and its parent (quickjs-libc.c): a queue under a mutex, a byte
// in a waker pipe that tells the receiver to look, and a reference count. Threads take turns
// in any order, between any two of their steps.
module MessagePipe {
  import opened Wrappers

  // The contents of a message do not matter; it is known by who posted it and in which order.
  datatype Message = Message(sender: nat, number: nat)

  // Where a thread is: in js_worker_postMessage or handle_posted_message with the lock held,
  // in js_free_message_pipe after it dropped the last reference, or elsewhere.
  datatype Place =
    | Elsewhere
    | PostLocked(m: Message)
    | PostSignalled(m: Message)
    | PostQueued
    | ReceiveLocked
    | ReceiveTaken
    | ReceiveDone
    | Releasing

  // "refs" is the number of references the thread accounts for.
  datatype Thread = Thread(place: Place, refs: nat, posted: nat)

  // The pipe with all threads. "sent", "taken" and "freed" record what was queued, what was
  // handed to a receiver, and what was freed with the pipe.
  datatype State = State(
    threads: seq<Thread>,
    refCount: int,
    owner: Option<nat>,
    queue: seq<Message>,
    bytes: nat,
    live: bool,
    sent: seq<Message>,
    taken: seq<Message>,
    freed: seq<Message>)

  datatype Action =
    | BeginPost | Signal | Enqueue | EndPost
    | BeginReceive | Dequeue | Clear | EndReceive
    | Dup | Give(to: nat) | Drop | FreeMessage | FreePipe

  // js_new_message_pipe: thread 0 has the first reference.
  function NewPipe(n: nat): (s: State)
    requires n > 0
  {
    State(seq(n, i => Thread(Elsewhere, if i == 0 then 1 else 0, 0)), 1, None, [], 0, true, [], [], [])
  }

  // js_waker_clear reads at most this many bytes, and waits for the first one.
  const CLEAR_SIZE := 16

  // Can thread t take this step? The lock can be taken when it is free; reading the waker
  // waits for a byte; only who has a reference uses the pipe.
  predicate Enabled(s: State, t: nat, a: Action) {
    && t < |s.threads|
    && var th := s.threads[t];
       match a
       case BeginPost => th.place == Elsewhere && th.refs > 0 && s.owner == None
       case Signal => th.place.PostLocked?
       case Enqueue => th.place.PostSignalled?
       case EndPost => th.place == PostQueued
       case BeginReceive => th.place == Elsewhere && th.refs > 0 && s.owner == None
       case Dequeue => th.place == ReceiveLocked
       case Clear => th.place == ReceiveTaken && (s.queue == [] ==> s.bytes > 0)
       case EndReceive => th.place == ReceiveDone
       case Dup => th.place == Elsewhere && th.refs > 0
       case Give(u) => th.place == Elsewhere && th.refs > 0 && u < |s.threads| && u != t
       case Drop => th.place == Elsewhere && th.refs > 0
       case FreeMessage => th.place == Releasing && s.queue != []
       case FreePipe => th.place == Releasing && s.queue == []
  }

  function Move(s: State, t: nat, place: Place): (s': State)
    requires t < |s.threads|
  {
    s.(threads := s.threads[t := s.threads[t].(place := place)])
  }

  function AddRefs(s: State, t: nat, k: int): (s': State)
    requires t < |s.threads| && s.threads[t].refs + k >= 0
  {
    s.(threads := s.threads[t := s.threads[t].(refs := s.threads[t].refs + k)])
  }

  function Apply(s: State, t: nat, a: Action): (s': State)
    requires Enabled(s, t, a)
  {
    var th := s.threads[t];
    match a
    case BeginPost =>
      s.(owner := Some(t), threads := s.threads[t := th.(place := PostLocked(Message(t, th.posted)), posted := th.posted + 1)])
    case Signal => Move(s, t, PostSignalled(th.place.m)).(bytes := if s.queue == [] then s.bytes + 1 else s.bytes)
    case Enqueue => Move(s, t, PostQueued).(queue := s.queue + [th.place.m], sent := s.sent + [th.place.m])
    case EndPost => Move(s, t, Elsewhere).(owner := None)
    case BeginReceive => Move(s, t, ReceiveLocked).(owner := Some(t))
    case Dequeue =>
      if s.queue == [] then Move(s, t, ReceiveDone)
      else Move(s, t, ReceiveTaken).(queue := s.queue[1..], taken := s.taken + [s.queue[0]])
    case Clear =>
      Move(s, t, ReceiveDone).(bytes := if s.queue != [] then s.bytes else if s.bytes > CLEAR_SIZE then s.bytes - CLEAR_SIZE else 0)
    case EndReceive => Move(s, t, Elsewhere).(owner := None)
    case Dup => AddRefs(s, t, 1).(refCount := s.refCount + 1)
    case Give(u) => AddRefs(AddRefs(s, t, -1), u, 1)
    case Drop =>
      var d := AddRefs(s, t, -1).(refCount := s.refCount - 1);
      if s.refCount - 1 == 0 then Move(d, t, Releasing) else d
    case FreeMessage => s.(queue := s.queue[1..], freed := s.freed + [s.queue[0]])
    case FreePipe => Move(s, t, Elsewhere).(live := false)
  }

  // ---------------------------------------------------------------------------
  // What holds in every reachable state

  predicate Inside(p: Place) {
    p != Elsewhere && p != Releasing
  }

  function TotalRefs(ts: seq<Thread>): (n: nat) {
    if ts == [] then 0 else TotalRefs(ts[..|ts| - 1]) + ts[|ts| - 1].refs
  }

  // The count is the number of references, who uses the pipe has one, and the pipe exists
  // until the one who dropped the last reference has freed it.
  predicate CountOk(s: State) {
    && s.refCount == TotalRefs(s.threads)
    && (forall t :: 0 <= t < |s.threads| ==> (Inside(s.threads[t].place) ==> s.threads[t].refs > 0))
    && (forall t :: 0 <= t < |s.threads| ==> (s.threads[t].place == Releasing ==> s.live && s.refCount == 0))
    && (forall t, u :: 0 <= t < u < |s.threads| ==> s.threads[t].place != Releasing || s.threads[u].place != Releasing)
    && (s.refCount > 0 ==> s.live)
    && (s.live && s.refCount == 0 ==> exists t :: 0 <= t < |s.threads| && s.threads[t].place == Releasing)
  }

  // Exactly the owner of the lock is inside.
  predicate LockOk(s: State) {
    && (forall t :: 0 <= t < |s.threads| ==> (Inside(s.threads[t].place) <==> s.owner == Some(t)))
    && (s.owner.Some? ==> s.owner.value < |s.threads|)
  }

  predicate Balanced(s: State) {
    s.bytes == if s.queue == [] then 0 else 1
  }

  // The waker holds one byte if the queue is not empty, except in the middle of a step.
  predicate WakerOk(s: State) {
    s.refCount > 0 ==>
      if s.owner == None then Balanced(s)
      else
        s.owner.value < |s.threads|
        && match s.threads[s.owner.value].place
           case PostSignalled(_) => s.bytes == 1
           case ReceiveTaken => s.bytes == 1
           case _ => Balanced(s)
  }

  // Every message is taken, freed or still queued, in the order of the queue.
  predicate HistoryOk(s: State) {
    && s.sent == s.taken + s.freed + s.queue
    && (s.refCount > 0 ==> s.freed == [])
    && (!s.live ==> s.queue == [])
  }

  // Messages are numbered by their senders.
  predicate OrderOk(s: State) {
    && (forall i :: 0 <= i < |s.sent| ==> s.sent[i].sender < |s.threads| && s.sent[i].number < Queued(s, s.sent[i].sender))
    && (forall i, j :: 0 <= i < j < |s.sent| && s.sent[i].sender == s.sent[j].sender ==> s.sent[i].number < s.sent[j].number)
    && (forall t :: 0 <= t < |s.threads| ==> PendingOk(s, t))
  }

  // How many messages of a thread have been queued.
  function Queued(s: State, t: nat): (n: int)
    requires t < |s.threads|
  {
    s.threads[t].posted - if s.threads[t].place.PostLocked? || s.threads[t].place.PostSignalled? then 1 else 0
  }

  predicate PendingOk(s: State, t: nat)
    requires t < |s.threads|
  {
    var p := s.threads[t].place;
    p.PostLocked? || p.PostSignalled? ==> s.threads[t].posted > 0 && p.m == Message(t, s.threads[t].posted - 1)
  }

  predicate Inv(s: State) {
    CountOk(s) && LockOk(s) && WakerOk(s) && HistoryOk(s) && OrderOk(s)
  }

  lemma {:induction false} RefsUpdate(ts: seq<Thread>, t: nat, th: Thread)
    requires t < |ts|
    ensures TotalRefs(ts[t := th]) == TotalRefs(ts) - ts[t].refs + th.refs && ts[t].refs <= TotalRefs(ts)
  {
    var n := |ts| - 1;
    if t == n {
      assert ts[t := th][..n] == ts[..n];
    } else {
      assert ts[t := th][..n] == ts[..n][t := th];
      RefsUpdate(ts[..n], t, th);
    }
  }

  lemma {:induction false} NoRefs(ts: seq<Thread>)
    requires forall i :: 0 <= i < |ts| ==> ts[i].refs == 0
    ensures TotalRefs(ts) == 0
  {
    if ts != [] {
      NoRefs(ts[..|ts| - 1]);
    }
  }

  lemma {:induction false} NewPipeInv(n: nat)
    requires n > 0
    ensures Inv(NewPipe(n))
  {
    var s := NewPipe(n);
    var none := s.threads[0 := Thread(Elsewhere, 0, 0)];
    NoRefs(none);
    RefsUpdate(none, 0, s.threads[0]);
    assert none[0 := s.threads[0]] == s.threads;
  }

  // ---------------------------------------------------------------------------
  // Every step keeps the invariant

  // The count and the references change together.
  lemma {:induction false} KeepsTotal(s: State, t: nat, a: Action)
    requires s.refCount == TotalRefs(s.threads) && Enabled(s, t, a)
    ensures Apply(s, t, a).refCount == TotalRefs(Apply(s, t, a).threads) && s.threads[t].refs <= s.refCount
  {
    hide TotalRefs;
    var s', ts := Apply(s, t, a), s.threads;
    RefsUpdate(ts, t, s'.threads[t]);
    if a.Give? {
      var mid := AddRefs(s, t, -1);
      RefsUpdate(mid.threads, a.to, s'.threads[a.to]);
    } else {
      assert s'.threads == ts[t := s'.threads[t]];
    }
  }

  lemma {:induction false} KeepsCount(s: State, t: nat, a: Action)
    requires CountOk(s) && Enabled(s, t, a)
    ensures CountOk(Apply(s, t, a))
  {
    hide TotalRefs;
    KeepsTotal(s, t, a);
    var s', ts := Apply(s, t, a), s.threads;
    if exists u :: 0 <= u < |ts| && ts[u].place == Releasing {
      var u :| 0 <= u < |ts| && ts[u].place == Releasing;
      assert s'.threads[u].place == Releasing || a == FreePipe;
    }
    if s'.refCount == 0 && s'.live {
      assert s'.threads[t].place == Releasing || s.refCount == 0;
    }
  }

  lemma {:induction false} KeepsLock(s: State, t: nat, a: Action)
    requires LockOk(s) && Enabled(s, t, a)
    ensures LockOk(Apply(s, t, a))
  {
  }

  lemma {:induction false} KeepsWaker(s: State, t: nat, a: Action)
    requires CountOk(s) && LockOk(s) && WakerOk(s) && Enabled(s, t, a)
    ensures WakerOk(Apply(s, t, a))
  {
    hide TotalRefs;
    KeepsTotal(s, t, a);
  }

  lemma {:induction false} KeepsHistory(s: State, t: nat, a: Action)
    requires CountOk(s) && HistoryOk(s) && Enabled(s, t, a)
    ensures HistoryOk(Apply(s, t, a))
  {
    hide TotalRefs;
    var s' := Apply(s, t, a);
    if s.queue != [] {
      assert s.queue == [s.queue[0]] + s.queue[1..];
    }
    RefsUpdate(s.threads, t, s.threads[t]);
  }

  lemma {:induction false} KeepsOrder(s: State, t: nat, a: Action)
    requires OrderOk(s) && Enabled(s, t, a)
    ensures OrderOk(Apply(s, t, a))
  {
    var s' := Apply(s, t, a);
    SentAfter(s, t, a);
    forall u | 0 <= u < |s.threads|
      ensures Queued(s', u) == Queued(s, u) + (if a == Enqueue && u == t then 1 else 0) && PendingOk(s', u)
    {
      assert PendingOk(s, u);
      PendingAfter(s, t, a, u);
    }
    hide Apply, Enabled, PendingOk, Queued;
    if a == Enqueue {
      var m := s.threads[t].place.m;
      assert s'.sent == s.sent + [m];
      assert forall i :: 0 <= i < |s.sent| ==> s'.sent[i] == s.sent[i];
    }
  }

  lemma {:induction false} PendingAfter(s: State, t: nat, a: Action, u: nat)
    requires Enabled(s, t, a) && u < |s.threads| && PendingOk(s, u)
    ensures var s' := Apply(s, t, a);
            && |s'.threads| == |s.threads| && PendingOk(s', u)
            && Queued(s', u) == Queued(s, u) + (if a == Enqueue && u == t then 1 else 0)
  {
    hide TotalRefs;
  }

  // What is queued is the message its sender has numbered last.
  lemma {:induction false} SentAfter(s: State, t: nat, a: Action)
    requires Enabled(s, t, a) && OrderOk(s)
    ensures var s' := Apply(s, t, a);
            && |s'.threads| == |s.threads| && t < |s.threads|
            && if a == Enqueue
               then Queued(s, t) >= 0 && s.threads[t].place.PostSignalled? && s.threads[t].place.m == Message(t, Queued(s, t))
                    && s'.sent == s.sent + [s.threads[t].place.m]
               else s'.sent == s.sent
  {
    hide TotalRefs;
    if t < |s.threads| {
      assert PendingOk(s, t);
    }
  }

  lemma {:induction false} StepKeepsInv(s: State, t: nat, a: Action)
    requires Inv(s) && Enabled(s, t, a)
    ensures Inv(Apply(s, t, a))
  {
    hide CountOk, LockOk, WakerOk, HistoryOk, OrderOk, Apply, Enabled;
    KeepsCount(s, t, a);
    KeepsLock(s, t, a);
    KeepsWaker(s, t, a);
    KeepsHistory(s, t, a);
    KeepsOrder(s, t, a);
  }

  // ---------------------------------------------------------------------------
  // Runs

  // States that follow each other by steps of any threads, from a new pipe on.
  ghost predicate IsRun(run: seq<State>) {
    && run != [] && (exists n: nat :: n > 0 && run[0] == NewPipe(n))
    && forall i :: 0 <= i < |run| - 1 ==> Follows(run[i], run[i + 1])
  }

  ghost predicate Follows(s: State, s': State) {
    exists t: nat, a: Action :: Enabled(s, t, a) && s' == Apply(s, t, a)
  }

  // The invariant holds in every state of every run, however the threads are interleaved.
  lemma {:induction false} RunKeepsInv(run: seq<State>, i: nat)
    requires IsRun(run) && i < |run|
    ensures Inv(run[i])
  {
    hide Inv, Enabled, Apply, NewPipe;
    if i == 0 {
      var n: nat :| n > 0 && run[0] == NewPipe(n);
      NewPipeInv(n);
    } else {
      RunKeepsInv(run, i - 1);
      assert Follows(run[i - 1], run[i - 1 + 1]);
      var t: nat, a: Action :| Enabled(run[i - 1], t, a) && run[i] == Apply(run[i - 1], t, a);
      StepKeepsInv(run[i - 1], t, a);
    }
  }

  // Whenever the lock is free, a wake-up is pending exactly if there is a message; there is
  // never more than one byte, so writing it does not block.
  lemma {:induction false} WakeUpPending(run: seq<State>, i: nat)
    requires IsRun(run) && i < |run| && run[i].refCount > 0
    ensures run[i].owner == None ==> (run[i].bytes > 0 <==> run[i].queue != [])
    ensures run[i].bytes <= 1
  {
    RunKeepsInv(run, i);
  }

  // Reading the waker with the lock held never waits: whoever has the lock can go on.
  lemma {:induction false} OwnerGoesOn(run: seq<State>, i: nat) returns (a: Action)
    requires IsRun(run) && i < |run| && run[i].owner.Some?
    ensures Enabled(run[i], run[i].owner.value, a)
  {
    RunKeepsInv(run, i);
    var s := run[i];
    var t := s.owner.value;
    RefsUpdate(s.threads, t, s.threads[t]);
    a := match s.threads[t].place
         case PostLocked(_) => Signal
         case PostSignalled(_) => Enqueue
         case PostQueued => EndPost
         case ReceiveLocked => Dequeue
         case ReceiveTaken => Clear
         case _ => EndReceive;
  }

  // Messages are received in the order in which they were queued, each at most once, and
  // those of one sender in the order in which it posted them.
  lemma {:induction false} ReceivedInOrder(run: seq<State>, i: nat, j: nat, k: nat)
    requires IsRun(run) && i < |run| && j < k < |run[i].taken|
    ensures run[i].taken <= run[i].sent && run[i].taken[j] != run[i].taken[k]
    ensures run[i].taken[j].sender == run[i].taken[k].sender ==> run[i].taken[j].number < run[i].taken[k].number
  {
    RunKeepsInv(run, i);
    var s := run[i];
    assert s.sent == s.taken + (s.freed + s.queue);
    assert s.sent[j] == s.taken[j] && s.sent[k] == s.taken[k];
  }

  // The pipe exists as long as there are references, and the one who drops the last of them
  // frees it. Afterwards nobody can use it, and no message has been lost.
  lemma {:induction false} ReleasedWithLastReference(run: seq<State>, i: nat, t: nat, a: Action)
    requires IsRun(run) && i < |run|
    ensures run[i].refCount == TotalRefs(run[i].threads)
    ensures Enabled(run[i], t, a) ==> run[i].live
    ensures Enabled(run[i], t, Drop) ==>
              (Apply(run[i], t, Drop).threads[t].place == Releasing <==> run[i].refCount == 1)
    ensures Enabled(run[i], t, FreePipe) ==> run[i].refCount == 0 && run[i].owner == None
    ensures !run[i].live ==> run[i].refCount == 0 && run[i].sent == run[i].taken + run[i].freed
  {
    RunKeepsInv(run, i);
    hide IsRun, TotalRefs, OrderOk;
    LiveState(run[i], t, a);
    UnusedState(run[i], t);
  }

  lemma {:induction false} LiveState(s: State, t: nat, a: Action)
    requires Inv(s)
    ensures s.refCount == TotalRefs(s.threads)
    ensures Enabled(s, t, a) ==> s.live
    ensures Enabled(s, t, Drop) ==> (Apply(s, t, Drop).threads[t].place == Releasing <==> s.refCount == 1)
  {
    hide TotalRefs, LockOk, WakerOk, HistoryOk, OrderOk;
    if Enabled(s, t, a) {
      RefsUpdate(s.threads, t, s.threads[t]);
    }
  }

  lemma {:induction false} UnusedState(s: State, t: nat)
    requires Inv(s)
    ensures Enabled(s, t, FreePipe) ==> s.refCount == 0 && s.owner == None
    ensures !s.live ==> s.refCount == 0 && s.sent == s.taken + s.freed
  {
    hide TotalRefs, WakerOk, OrderOk;
    if Enabled(s, t, FreePipe) && s.owner.Some? {
      RefsUpdate(s.threads, s.owner.value, s.threads[s.owner.value]);
    }
    assert s.taken + s.freed + [] == s.taken + s.freed;
  }

  // A pipe without references that has not been freed yet is being freed.
  lemma {:induction false} ReleaseGoesOn(run: seq<State>, i: nat) returns (t: nat, a: Action)
    requires IsRun(run) && i < |run| && run[i].live && run[i].refCount == 0
    ensures Enabled(run[i], t, a) && run[i].threads[t].place == Releasing
    ensures if run[i].queue == [] then !Apply(run[i], t, a).live
            else Apply(run[i], t, a).queue == run[i].queue[1..] && Apply(run[i], t, a).freed == run[i].freed + [run[i].queue[0]]
  {
    RunKeepsInv(run, i);
    var s := run[i];
    t :| 0 <= t < |s.threads| && s.threads[t].place == Releasing;
    a := if s.queue == [] then FreePipe else FreeMessage;
  }

  // ---------------------------------------------------------------------------
  // The C functions

  // The steps "actions" of thread t lead from s to s'.
  ghost predicate Performs(s: State, t: nat, actions: seq<Action>, s': State)
    decreases |actions|
  {
    if actions == [] then s == s' else Enabled(s, t, actions[0]) && Performs(Apply(s, t, actions[0]), t, actions[1..], s')
  }

  lemma {:induction false} PerformsMore(s: State, t: nat, actions: seq<Action>, s': State, a: Action)
    requires Performs(s, t, actions, s') && Enabled(s', t, a)
    ensures Performs(s, t, actions + [a], Apply(s', t, a))
    decreases |actions|
  {
    hide Enabled, Apply;
    if actions == [] {
      assert (actions + [a])[1..] == [];
    } else {
      PerformsMore(Apply(s, t, actions[0]), t, actions[1..], s', a);
      assert (actions + [a])[1..] == actions[1..] + [a];
    }
  }

  lemma {:induction false} PerformsKeepsInv(s: State, t: nat, actions: seq<Action>, s': State)
    requires Inv(s) && Performs(s, t, actions, s')
    ensures Inv(s')
    decreases |actions|
  {
    hide Inv, Enabled, Apply;
    if actions != [] {
      StepKeepsInv(s, t, actions[0]);
      PerformsKeepsInv(Apply(s, t, actions[0]), t, actions[1..], s');
    }
  }

  // The structure with the functions that change it in place. A call is a sequence of the
  // steps above, here without other threads in between.
  class Pipe {
    var threads: seq<Thread>
    var refCount: int
    var owner: Option<nat>
    var queue: seq<Message>
    var bytes: nat
    var live: bool
    ghost var sent: seq<Message>
    ghost var taken: seq<Message>
    ghost var freed: seq<Message>

    ghost function View(): (s: State)
      reads this
    {
      State(threads, refCount, owner, queue, bytes, live, sent, taken, freed)
    }

    // js_new_message_pipe
    constructor (n: nat)
      requires n > 0
      ensures View() == NewPipe(n)
    {
      threads := seq(n, i => Thread(Elsewhere, if i == 0 then 1 else 0, 0));
      refCount, owner, queue, bytes, live := 1, None, [], 0, true;
      sent, taken, freed := [], [], [];
    }

    method GoTo(t: nat, place: Place)
      requires t < |threads|
      modifies `threads
      ensures threads == old(threads)[t := old(threads)[t].(place := place)]
    {
      threads := threads[t := threads[t].(place := place)];
    }

    method LockToPost(t: nat) returns (m: Message)
      requires Enabled(View(), t, BeginPost)
      modifies this
      ensures View() == Apply(old(View()), t, BeginPost) && Enabled(View(), t, Signal) && threads[t].place == PostLocked(m)
    {
      m := Message(t, threads[t].posted);
      owner := Some(t);
      threads := threads[t := threads[t].(place := PostLocked(m), posted := threads[t].posted + 1)];
    }

    // Indicate that data is present.
    method SignalIfEmpty(t: nat, m: Message)
      requires t < |threads| && threads[t].place == PostLocked(m)
      modifies this
      ensures View() == Apply(old(View()), t, Signal) && Enabled(View(), t, Enqueue) && threads[t].place == PostSignalled(m)
    {
      if queue == [] {
        bytes := bytes + 1;
      }
      GoTo(t, PostSignalled(m));
    }

    method AddTail(t: nat, m: Message)
      requires t < |threads| && threads[t].place == PostSignalled(m)
      modifies this
      ensures View() == Apply(old(View()), t, Enqueue) && Enabled(View(), t, EndPost)
    {
      queue := queue + [m];
      sent := sent + [m];
      GoTo(t, PostQueued);
    }

    method Unlock(t: nat, ghost a: Action)
      requires (a == EndPost || a == EndReceive) && Enabled(View(), t, a)
      modifies this
      ensures View() == Apply(old(View()), t, a)
    {
      owner := None;
      GoTo(t, Elsewhere);
    }

    method LockToReceive(t: nat)
      requires Enabled(View(), t, BeginReceive)
      modifies this
      ensures View() == Apply(old(View()), t, BeginReceive) && Enabled(View(), t, Dequeue) && queue == old(queue)
    {
      owner := Some(t);
      GoTo(t, ReceiveLocked);
    }

    // Remove the first message from the queue.
    method RemoveFirst(t: nat) returns (r: Option<Message>)
      requires Enabled(View(), t, Dequeue)
      modifies this
      ensures View() == Apply(old(View()), t, Dequeue)
      ensures r == if old(queue) == [] then None else Some(old(queue)[0])
      ensures r == None ==> Enabled(View(), t, EndReceive)
      ensures r != None ==> t < |threads| && threads[t].place == ReceiveTaken
    {
      r := None;
      if queue != [] {
        r := Some(queue[0]);
        taken := taken + [queue[0]];
        queue := queue[1..];
        GoTo(t, ReceiveTaken);
      } else {
        GoTo(t, ReceiveDone);
      }
    }

    method ClearIfEmpty(t: nat)
      requires Enabled(View(), t, Clear)
      modifies this
      ensures View() == Apply(old(View()), t, Clear) && Enabled(View(), t, EndReceive)
    {
      if queue == [] {
        bytes := if bytes > CLEAR_SIZE then bytes - CLEAR_SIZE else 0;
      }
      GoTo(t, ReceiveDone);
    }

    // js_worker_postMessage, once the message has been built
    method PostMessage(t: nat)
      requires Enabled(View(), t, BeginPost)
      modifies this
      ensures Performs(old(View()), t, [BeginPost, Signal, Enqueue, EndPost], View())
      ensures old(Inv(View())) ==> Inv(View())
    {
      ghost var s := View();
      var m := LockToPost(t);
      ghost var s1 := View();
      SignalIfEmpty(t, m);
      ghost var s2 := View();
      AddTail(t, m);
      ghost var s3 := View();
      Unlock(t, EndPost);
      hide Enabled, Apply, Inv;
      PerformsMore(s, t, [], s, BeginPost);
      PerformsMore(s, t, [BeginPost], s1, Signal);
      PerformsMore(s, t, [BeginPost, Signal], s2, Enqueue);
      PerformsMore(s, t, [BeginPost, Signal, Enqueue], s3, EndPost);
      if Inv(s) {
        PerformsKeepsInv(s, t, [BeginPost, Signal, Enqueue, EndPost], View());
      }
    }

    // The part of handle_posted_message that works on the pipe.
    method HandlePostedMessage(t: nat) returns (r: Option<Message>)
      requires Enabled(View(), t, BeginReceive) && Inv(View())
      modifies this
      ensures r == if old(queue) == [] then None else Some(old(queue)[0])
      ensures r == None ==> Performs(old(View()), t, [BeginReceive, Dequeue, EndReceive], View())
      ensures r != None ==> Performs(old(View()), t, [BeginReceive, Dequeue, Clear, EndReceive], View())
      ensures Inv(View())
    {
      hide Inv, Apply, Enabled;
      ghost var s := View();
      LockToReceive(t);
      PerformsMore(s, t, [], s, BeginReceive);
      StepKeepsInv(s, t, BeginReceive);
      ghost var s1 := View();
      r := RemoveFirst(t);
      assert [] + [BeginReceive] == [BeginReceive] && [BeginReceive] + [Dequeue] == [BeginReceive, Dequeue];
      PerformsMore(s, t, [BeginReceive], s1, Dequeue);
      StepKeepsInv(s1, t, Dequeue);
      ghost var s2 := View();
      if r != None {
        TakenHasByte(s2, t);
        ClearIfEmpty(t);
        PerformsMore(s, t, [BeginReceive, Dequeue], s2, Clear);
        ghost var s3 := View();
        Unlock(t, EndReceive);
        PerformsMore(s, t, [BeginReceive, Dequeue, Clear], s3, EndReceive);
        assert [BeginReceive, Dequeue] + [Clear] == [BeginReceive, Dequeue, Clear];
        assert [BeginReceive, Dequeue, Clear] + [EndReceive] == [BeginReceive, Dequeue, Clear, EndReceive];
        PerformsKeepsInv(s, t, [BeginReceive, Dequeue, Clear, EndReceive], View());
      } else {
        Unlock(t, EndReceive);
        PerformsMore(s, t, [BeginReceive, Dequeue], s2, EndReceive);
        assert [BeginReceive, Dequeue] + [EndReceive] == [BeginReceive, Dequeue, EndReceive];
        PerformsKeepsInv(s, t, [BeginReceive, Dequeue, EndReceive], View());
      }
    }

    // js_dup_message_pipe
    method DupMessagePipe(t: nat)
      requires Enabled(View(), t, Dup)
      modifies this
      ensures View() == Apply(old(View()), t, Dup) && (old(Inv(View())) ==> Inv(View()))
    {
      ghost var s := View();
      refCount := refCount + 1;
      threads := threads[t := threads[t].(refs := threads[t].refs + 1)];
      hide Inv;
      if Inv(s) {
        StepKeepsInv(s, t, Dup);
      }
    }

    // js_free_message_pipe
    method FreeMessagePipe(t: nat)
      requires Enabled(View(), t, Drop)
      modifies this
      ensures old(refCount) != 1 ==> View() == Apply(old(View()), t, Drop)
      ensures old(refCount) == 1 ==>
                && Performs(old(View()), t, [Drop] + seq(|old(queue)|, _ => FreeMessage) + [FreePipe], View())
                && !live && queue == [] && freed == old(freed) + old(queue)
      ensures old(Inv(View())) ==> Inv(View())
    {
      hide Inv;
      ghost var s := View();
      refCount := refCount - 1;
      threads := threads[t := threads[t].(refs := threads[t].refs - 1)];
      if refCount == 0 {
        GoTo(t, Releasing);
        PerformsMore(s, t, [], s, Drop);
        assert [] + [Drop] == [Drop];
        Release(t, s);
        if Inv(s) {
          PerformsKeepsInv(s, t, [Drop] + seq(|s.queue|, _ => FreeMessage) + [FreePipe], View());
        }
      } else if Inv(s) {
        StepKeepsInv(s, t, Drop);
      }
    }

    // Frees the messages that are left, and the pipe.
    method Release(t: nat, ghost s: State)
      requires t < |threads| && threads[t].place == Releasing && Performs(s, t, [Drop], View())
      modifies this
      ensures Performs(s, t, [Drop] + seq(|old(queue)|, _ => FreeMessage) + [FreePipe], View())
      ensures !live && queue == [] && freed == old(freed) + old(queue)
    {
      hide Apply, Performs;
      ghost var q, k, done := queue, 0, [Drop];
      Nothing(done);
      while queue != []
        invariant k <= |q| && queue == q[k..] && freed == old(freed) + q[..k]
        invariant t < |threads| && threads[t].place == Releasing
        invariant done == [Drop] + seq(k, _ => FreeMessage) && Performs(s, t, done, View())
        decreases |queue|
      {
        ghost var s1 := View();
        FreeFirst(t);
        PerformsMore(s, t, done, s1, FreeMessage);
        done := done + [FreeMessage];
        k := k + 1;
      }
      assert q[..k] == q;
      ghost var s1 := View();
      Close(t);
      PerformsMore(s, t, done, s1, FreePipe);
    }

    method Close(t: nat)
      requires Enabled(View(), t, FreePipe)
      modifies this
      ensures View() == Apply(old(View()), t, FreePipe) && !live && queue == old(queue) && freed == old(freed)
    {
      live := false;
      GoTo(t, Elsewhere);
    }

    method FreeFirst(t: nat)
      requires Enabled(View(), t, FreeMessage)
      modifies `queue, `freed
      ensures View() == Apply(old(View()), t, FreeMessage) && threads == old(threads) && queue == old(queue)[1..] && freed == old(freed) + [old(queue)[0]]
    {
      freed := freed + [queue[0]];
      queue := queue[1..];
    }
  }

  lemma {:induction false} Nothing(done: seq<Action>)
    ensures done + seq(0, _ => FreeMessage) == done
  {
  }

  lemma {:induction false} TakenHasByte(s: State, t: nat)
    requires Inv(s) && t < |s.threads| && s.threads[t].place == ReceiveTaken
    ensures s.bytes == 1 && Enabled(s, t, Clear)
  {
    RefsUpdate(s.threads, t, s.threads[t]);
  }
}
