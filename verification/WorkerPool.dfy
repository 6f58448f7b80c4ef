/** The pool that creates the workload's monitors: a producer feeding an unbuffered
    channel, workers posting each monitor and sending the answer on a buffered channel,
    a wait group, and a collector writing the answers back into the slots the workers
    read. Every interleaving of the goroutines' steps is a run. */
module WorkerPool {
  import opened Basics

  type Id = nat

  /** What the server answers with: the identifier it issued and its time of update. */
  datatype Reply = Reply(id: Id, updatedAt: int)

  /** An element of the workload; `reply` is the server's answer once adopted. */
  datatype Slot = Slot(body: string, reply: Option<Reply>)

  /** What a worker sends to the collector; no reply means the call failed. */
  datatype Result = Result(index: nat, reply: Option<Reply>)

  datatype Worker = Receiving | Holding(i: nat) | HasRead(i: nat, slot: Slot) | Answered(r: Result) | Exited

  datatype Producer = Sending(next: nat) | AwaitingWorkers | ProducerDone

  datatype Collector = Ready | Storing(r: Result) | Finished | Gone(index: nat)

  /** One request the server answered: which element it was for, what was in it, and
      the reply. */
  datatype Call = Call(index: nat, slot: Slot, reply: Reply)

  /** Where an element is on its way. */
  datatype Place = Pending | Held(k: nat) | ReadBy(k: nat) | SentBy(k: nat) | Buffered | Collected | Stored

  /** `place` is an auxiliary variable: no guard reads it. */
  datatype State = State(
    producer: Producer,
    jobsOpen: bool,
    workers: seq<Worker>,
    buffer: seq<Result>,
    resultsOpen: bool,
    collector: Collector,
    slots: seq<Slot>,
    done: nat,
    log: seq<Call>,
    failures: nat,
    place: seq<Place>)

  datatype Step =
    | Dispatch(k: nat)
    | ReadSlot(k: nat)
    | Post(k: nat, reply: Reply)
    | PostFails(k: nat)
    | Send(k: nat)
    | CloseJobs
    | Exit(k: nat)
    | CloseResults
    | Receive
    | Store
    | GiveUp
    | Finish

  function Init(slots: seq<Slot>, w: nat): State {
    State(Sending(0), true, seq(w, k => Receiving), [], true, Ready, slots, 0, [], 0, seq(|slots|, i => Pending))
  }

  ghost predicate Issued(log: seq<Call>, id: Id) {
    exists j :: 0 <= j < |log| && log[j].reply.id == id
  }

  /** Guards: a send on the jobs channel needs a receiver, a send of a result needs room.
      Neither asks whether its channel is open; that nothing is sent on a closed channel
      is proved. */
  ghost predicate Enabled(s: State, a: Step) {
    match a
    case Dispatch(k) => s.producer.Sending? && s.producer.next < |s.slots| && k < |s.workers| && s.workers[k].Receiving?
    case ReadSlot(k) => k < |s.workers| && s.workers[k].Holding? && s.workers[k].i < |s.slots|
    case Post(k, reply) => k < |s.workers| && s.workers[k].HasRead? && !Issued(s.log, reply.id)
    case PostFails(k) => k < |s.workers| && s.workers[k].HasRead?
    case Send(k) => k < |s.workers| && s.workers[k].Answered? && |s.buffer| < |s.workers|
    case CloseJobs => s.producer.Sending? && s.producer.next == |s.slots|
    case Exit(k) => k < |s.workers| && s.workers[k].Receiving? && !s.jobsOpen
    case CloseResults => s.producer.AwaitingWorkers? && forall k | 0 <= k < |s.workers| :: s.workers[k].Exited?
    case Receive => s.collector.Ready? && s.buffer != []
    case Store => s.collector.Storing? && s.collector.r.reply.Some? && s.collector.r.index < |s.slots|
    case GiveUp => s.collector.Storing? && s.collector.r.reply.None?
    case Finish => s.collector.Ready? && s.buffer == [] && !s.resultsOpen
  }

  function Move(s: State, i: nat, p: Place): State {
    if i < |s.place| then s.(place := s.place[i := p]) else s
  }

  ghost function Apply(s: State, a: Step): State
    requires Enabled(s, a)
  {
    match a
    case Dispatch(k) =>
      var i := s.producer.next;
      Move(s.(producer := Sending(i + 1), workers := s.workers[k := Holding(i)]), i, Held(k))
    case ReadSlot(k) =>
      var i := s.workers[k].i;
      Move(s.(workers := s.workers[k := HasRead(i, s.slots[i])]), i, ReadBy(k))
    case Post(k, reply) =>
      var i := s.workers[k].i;
      Move(s.(workers := s.workers[k := Answered(Result(i, Some(reply)))], log := s.log + [Call(i, s.workers[k].slot, reply)]), i, SentBy(k))
    case PostFails(k) =>
      var i := s.workers[k].i;
      Move(s.(workers := s.workers[k := Answered(Result(i, None))], failures := s.failures + 1), i, SentBy(k))
    case Send(k) =>
      Move(s.(workers := s.workers[k := Receiving], buffer := s.buffer + [s.workers[k].r]), s.workers[k].r.index, Buffered)
    case CloseJobs => s.(jobsOpen := false, producer := AwaitingWorkers)
    case Exit(k) => s.(workers := s.workers[k := Exited])
    case CloseResults => s.(resultsOpen := false, producer := ProducerDone)
    case Receive => Move(s.(collector := Storing(s.buffer[0]), buffer := s.buffer[1..]), s.buffer[0].index, Collected)
    case Store =>
      var i := s.collector.r.index;
      Move(s.(slots := s.slots[i := s.slots[i].(reply := s.collector.r.reply)], done := s.done + 1, collector := Ready), i, Stored)
    case GiveUp => s.(collector := Gone(s.collector.r.index))
    case Finish => s.(collector := Finished)
  }

  // ---- the invariant ----

  predicate ResultOk(s: State, r: Result) {
    && r.index < |s.place|
    && (r.reply.None? ==> s.failures > 0)
  }

  predicate WorkerOk(init: seq<Slot>, s: State, k: nat)
    requires k < |s.workers| && |s.place| == |init|
  {
    match s.workers[k]
    case Receiving => true
    case Holding(i) => i < |init| && s.place[i] == Held(k)
    case HasRead(i, slot) => i < |init| && s.place[i] == ReadBy(k) && slot == init[i]
    case Answered(r) => ResultOk(s, r) && s.place[r.index] == SentBy(k)
    case Exited => !s.jobsOpen
  }

  /** Each element is where its place says it is. */
  ghost predicate PlaceOk(init: seq<Slot>, s: State, i: nat)
    requires i < |init| && |s.place| == |init| && |s.slots| == |init|
  {
    && s.slots[i].body == init[i].body
    && (s.place[i].Stored? <==> s.slots[i].reply.Some?)
    && (s.place[i].Pending? <==> s.producer.Sending? && s.producer.next <= i)
    && match s.place[i]
       case Pending => true
       case Held(k) => k < |s.workers| && s.workers[k] == Holding(i)
       case ReadBy(k) => k < |s.workers| && s.workers[k].HasRead? && s.workers[k].i == i
       case SentBy(k) => k < |s.workers| && s.workers[k].Answered? && s.workers[k].r.index == i
       case Buffered => exists j :: 0 <= j < |s.buffer| && s.buffer[j].index == i
       case Collected => s.collector == Gone(i) || (s.collector.Storing? && s.collector.r.index == i)
       case Stored => true
  }

  /** The server has answered for the element: its call is in the log with this reply. */
  ghost predicate Answer(init: seq<Slot>, log: seq<Call>, i: nat, reply: Reply)
    requires i < |init|
  {
    exists j :: 0 <= j < |log| && log[j] == Call(i, init[i], reply)
  }

  predicate Waits(p: Place) {
    p.Pending? || p.Held? || p.ReadBy?
  }

  /** Everything on its way carries the identifier the server issued for it. */
  ghost predicate AnswersOk(init: seq<Slot>, s: State)
    requires |s.place| == |init| && |s.slots| == |init|
  {
    && (forall k | 0 <= k < |s.workers| && s.workers[k].Answered? && s.workers[k].r.reply.Some? ::
          s.workers[k].r.index < |init| && Answer(init, s.log, s.workers[k].r.index, s.workers[k].r.reply.value))
    && (forall j | 0 <= j < |s.buffer| && s.buffer[j].reply.Some? ::
          s.buffer[j].index < |init| && Answer(init, s.log, s.buffer[j].index, s.buffer[j].reply.value))
    && (s.collector.Storing? && s.collector.r.reply.Some? ==>
          s.collector.r.index < |init| && Answer(init, s.log, s.collector.r.index, s.collector.r.reply.value))
    && (forall i | 0 <= i < |init| && s.slots[i].reply.Some? :: Answer(init, s.log, i, s.slots[i].reply.value))
  }

  /** One call per element, and none for an element still waiting to be posted. */
  ghost predicate LogOk(init: seq<Slot>, s: State)
    requires |s.place| == |init|
  {
    && (forall j | 0 <= j < |s.log| :: s.log[j].index < |init| && !Waits(s.place[s.log[j].index]))
    && (forall j, j' | 0 <= j < j' < |s.log| :: s.log[j].index != s.log[j'].index && s.log[j].reply.id != s.log[j'].reply.id)
  }

  predicate BufferOk(init: seq<Slot>, s: State)
    requires |s.place| == |init|
  {
    && |s.buffer| <= |s.workers|
    && (forall j | 0 <= j < |s.buffer| :: ResultOk(s, s.buffer[j]) && s.place[s.buffer[j].index].Buffered?)
    && (forall j, j' | 0 <= j < j' < |s.buffer| :: s.buffer[j].index != s.buffer[j'].index)
  }

  predicate ControlOk(s: State) {
    && (s.producer.Sending? ==> s.jobsOpen && s.producer.next <= |s.slots|)
    && (!s.producer.Sending? ==> !s.jobsOpen)
    && (s.producer.ProducerDone? <==> !s.resultsOpen)
    && (s.producer.ProducerDone? ==> forall k | 0 <= k < |s.workers| :: s.workers[k].Exited?)
    && (s.collector.Finished? ==> !s.resultsOpen && s.buffer == [])
    && (s.collector.Gone? ==> s.failures > 0)
    && (s.collector.Storing? ==> ResultOk(s, s.collector.r) && s.place[s.collector.r.index].Collected?)
  }

  function StoredIn(slots: seq<Slot>): set<nat> {
    set i: nat | i < |slots| && slots[i].reply.Some?
  }

  ghost predicate Inv(init: seq<Slot>, s: State) {
    && Fresh(init) && |s.place| == |init| && |s.slots| == |init| && 0 < |s.workers|
    && ControlOk(s)
    && (forall k: nat | k < |s.workers| :: WorkerOk(init, s, k))
    && (forall i: nat | i < |init| :: PlaceOk(init, s, i))
    && BufferOk(init, s)
    && LogOk(init, s)
    && AnswersOk(init, s)
    && s.done == |StoredIn(s.slots)|
  }

  ghost predicate Fresh(slots: seq<Slot>) {
    forall i | 0 <= i < |slots| :: slots[i].reply.None?
  }

  lemma InitInv(init: seq<Slot>, w: nat)
    requires Fresh(init) && 0 < w
    ensures Inv(init, Init(init, w))
  {
    assert StoredIn(init) == {};
  }

  lemma DispatchInv(init: seq<Slot>, s: State, k: nat)
    requires Inv(init, s) && Enabled(s, Dispatch(k))
    ensures Inv(init, Apply(s, Dispatch(k)))
  {
    var s' := Apply(s, Dispatch(k));
    assert WorkerOk(init, s, k);
    assert PlaceOk(init, s, s.producer.next);
    assert forall j: nat | j < |s'.workers| :: WorkerOk(init, s, j) ==> WorkerOk(init, s', j);
    assert forall j: nat | j < |init| :: PlaceOk(init, s, j) ==> PlaceOk(init, s', j);
    assert BufferOk(init, s');
    assert LogOk(init, s');
    assert AnswersOk(init, s');
  }

  lemma ReadSlotMoves(init: seq<Slot>, s: State, k: nat)
    requires Inv(init, s) && Enabled(s, ReadSlot(k))
    ensures var s' := Apply(s, ReadSlot(k));
      && (forall j: nat | j < |s'.workers| :: WorkerOk(init, s', j))
      && (forall j: nat | j < |init| :: PlaceOk(init, s', j))
  {
    var s' := Apply(s, ReadSlot(k));
    assert WorkerOk(init, s, k);
    assert PlaceOk(init, s, s.workers[k].i);
    assert forall j: nat | j < |s'.workers| :: WorkerOk(init, s, j) ==> WorkerOk(init, s', j);
    assert forall j: nat | j < |init| :: PlaceOk(init, s, j) ==> PlaceOk(init, s', j);
  }

  lemma ReadSlotInv(init: seq<Slot>, s: State, k: nat)
    requires Inv(init, s) && Enabled(s, ReadSlot(k))
    ensures Inv(init, Apply(s, ReadSlot(k)))
  {
    var s' := Apply(s, ReadSlot(k));
    assert WorkerOk(init, s, k);
    assert PlaceOk(init, s, s.workers[k].i);
    ReadSlotMoves(init, s, k);
    assert BufferOk(init, s');
    assert LogOk(init, s');
    assert AnswersOk(init, s');
  }

  lemma AnswerGrows(init: seq<Slot>, log: seq<Call>, c: Call, i: nat, reply: Reply)
    requires i < |init| && Answer(init, log, i, reply)
    ensures Answer(init, log + [c], i, reply)
  {
    var j :| 0 <= j < |log| && log[j] == Call(i, init[i], reply);
    assert (log + [c])[j] == Call(i, init[i], reply);
  }

  lemma PostAnswers(init: seq<Slot>, s: State, k: nat, reply: Reply)
    requires Inv(init, s) && Enabled(s, Post(k, reply))
    ensures AnswersOk(init, Apply(s, Post(k, reply)))
  {
    assert WorkerOk(init, s, k);
    var i := s.workers[k].i;
    var c := Call(i, init[i], reply);
    assert (s.log + [c])[|s.log|] == c;
    forall j: nat, x: Reply | j < |init| && Answer(init, s.log, j, x) ensures Answer(init, s.log + [c], j, x) {
      AnswerGrows(init, s.log, c, j, x);
    }
    assert Apply(s, Post(k, reply)).log == s.log + [c];
  }

  lemma PostLog(init: seq<Slot>, s: State, k: nat, reply: Reply)
    requires Inv(init, s) && Enabled(s, Post(k, reply))
    ensures LogOk(init, Apply(s, Post(k, reply)))
  {
    assert WorkerOk(init, s, k);
  }

  lemma PostMoves(init: seq<Slot>, s: State, k: nat, reply: Reply)
    requires Inv(init, s) && Enabled(s, Post(k, reply))
    ensures var s' := Apply(s, Post(k, reply));
      && (forall j: nat | j < |s'.workers| :: WorkerOk(init, s', j))
      && (forall j: nat | j < |init| :: PlaceOk(init, s', j))
  {
    var s' := Apply(s, Post(k, reply));
    assert WorkerOk(init, s, k);
    assert forall j: nat | j < |s'.workers| :: WorkerOk(init, s, j) ==> WorkerOk(init, s', j);
    assert forall j: nat | j < |init| :: PlaceOk(init, s, j) ==> PlaceOk(init, s', j);
  }

  lemma PostInv(init: seq<Slot>, s: State, k: nat, reply: Reply)
    requires Inv(init, s) && Enabled(s, Post(k, reply))
    ensures Inv(init, Apply(s, Post(k, reply)))
  {
    PostAnswers(init, s, k, reply);
    PostLog(init, s, k, reply);
    var s' := Apply(s, Post(k, reply));
    assert WorkerOk(init, s, k);
    PostMoves(init, s, k, reply);
  }

  lemma PostFailsMoves(init: seq<Slot>, s: State, k: nat)
    requires Inv(init, s) && Enabled(s, PostFails(k))
    ensures var s' := Apply(s, PostFails(k));
      && (forall j: nat | j < |s'.workers| :: WorkerOk(init, s', j))
      && (forall j: nat | j < |init| :: PlaceOk(init, s', j))
  {
    var s' := Apply(s, PostFails(k));
    assert WorkerOk(init, s, k);
    assert forall j: nat | j < |s'.workers| :: WorkerOk(init, s, j) ==> WorkerOk(init, s', j);
    assert forall j: nat | j < |init| :: PlaceOk(init, s, j) ==> PlaceOk(init, s', j);
  }

  lemma PostFailsInv(init: seq<Slot>, s: State, k: nat)
    requires Inv(init, s) && Enabled(s, PostFails(k))
    ensures Inv(init, Apply(s, PostFails(k)))
  {
    var s' := Apply(s, PostFails(k));
    assert WorkerOk(init, s, k);
    PostFailsMoves(init, s, k);
    assert BufferOk(init, s');
    assert LogOk(init, s');
    assert AnswersOk(init, s');
  }

  lemma SendMoves(init: seq<Slot>, s: State, k: nat)
    requires Inv(init, s) && Enabled(s, Send(k))
    ensures var s' := Apply(s, Send(k));
      && (forall j: nat | j < |s'.workers| :: WorkerOk(init, s', j))
      && (forall j: nat | j < |init| :: PlaceOk(init, s', j))
  {
    var s' := Apply(s, Send(k));
    assert WorkerOk(init, s, k);
    assert forall j | 0 <= j < |s.buffer| :: s'.buffer[j] == s.buffer[j];
    assert s'.buffer[|s.buffer|] == s.workers[k].r;
    assert forall j: nat | j < |s'.workers| :: WorkerOk(init, s, j) ==> WorkerOk(init, s', j);
    assert forall j: nat | j < |init| :: PlaceOk(init, s, j) ==> PlaceOk(init, s', j);
  }

  lemma SendInv(init: seq<Slot>, s: State, k: nat)
    requires Inv(init, s) && Enabled(s, Send(k))
    ensures Inv(init, Apply(s, Send(k)))
  {
    var s' := Apply(s, Send(k));
    assert WorkerOk(init, s, k);
    SendMoves(init, s, k);
    assert forall j | 0 <= j < |s.buffer| :: s'.buffer[j] == s.buffer[j];
    assert s'.buffer[|s.buffer|] == s.workers[k].r;
    assert BufferOk(init, s');
    assert LogOk(init, s');
    assert AnswersOk(init, s');
  }

  lemma ExitInv(init: seq<Slot>, s: State, k: nat)
    requires Inv(init, s) && Enabled(s, Exit(k))
    ensures Inv(init, Apply(s, Exit(k)))
  {
    var s' := Apply(s, Exit(k));
    assert WorkerOk(init, s, k);
    assert forall j: nat | j < |s'.workers| :: WorkerOk(init, s, j) ==> WorkerOk(init, s', j);
    assert forall j: nat | j < |init| :: PlaceOk(init, s, j) ==> PlaceOk(init, s', j);
    assert BufferOk(init, s');
    assert LogOk(init, s');
    assert AnswersOk(init, s');
  }

  lemma ReceiveMoves(init: seq<Slot>, s: State)
    requires Inv(init, s) && Enabled(s, Receive)
    ensures var s' := Apply(s, Receive);
      && (forall j: nat | j < |s'.workers| :: WorkerOk(init, s', j))
      && (forall j: nat | j < |init| :: PlaceOk(init, s', j))
  {
    var s' := Apply(s, Receive);
    assert forall j | 0 < j < |s.buffer| :: s'.buffer[j - 1] == s.buffer[j];
    assert forall j: nat | j < |s'.workers| :: WorkerOk(init, s, j) ==> WorkerOk(init, s', j);
    assert forall j: nat | j < |init| :: PlaceOk(init, s, j) ==> PlaceOk(init, s', j);
  }

  lemma ReceiveInv(init: seq<Slot>, s: State)
    requires Inv(init, s) && Enabled(s, Receive)
    ensures Inv(init, Apply(s, Receive))
  {
    var s' := Apply(s, Receive);
    ReceiveMoves(init, s);
    assert forall j | 0 <= j < |s'.buffer| :: s'.buffer[j] == s.buffer[j + 1];
    assert BufferOk(init, s');
    assert LogOk(init, s');
    assert AnswersOk(init, s');
  }

  lemma StoredGrows(slots: seq<Slot>, i: nat, reply: Reply)
    requires i < |slots| && slots[i].reply.None?
    ensures |StoredIn(slots[i := slots[i].(reply := Some(reply))])| == |StoredIn(slots)| + 1
  {
    assert StoredIn(slots[i := slots[i].(reply := Some(reply))]) == StoredIn(slots) + {i};
  }

  lemma StoreMoves(init: seq<Slot>, s: State)
    requires Inv(init, s) && Enabled(s, Store)
    ensures var s' := Apply(s, Store);
      && (forall j: nat | j < |s'.workers| :: WorkerOk(init, s', j))
      && (forall j: nat | j < |init| :: PlaceOk(init, s', j))
  {
    var s' := Apply(s, Store);
    assert PlaceOk(init, s, s.collector.r.index);
    assert forall j: nat | j < |s'.workers| :: WorkerOk(init, s, j) ==> WorkerOk(init, s', j);
    assert forall j: nat | j < |init| :: PlaceOk(init, s, j) ==> PlaceOk(init, s', j);
  }

  lemma StoreInv(init: seq<Slot>, s: State)
    requires Inv(init, s) && Enabled(s, Store)
    ensures Inv(init, Apply(s, Store))
  {
    var s' := Apply(s, Store);
    var i := s.collector.r.index;
    assert PlaceOk(init, s, i);
    StoredGrows(s.slots, i, s.collector.r.reply.value);
    StoreMoves(init, s);
    assert BufferOk(init, s');
    assert LogOk(init, s');
    assert AnswersOk(init, s');
  }

  /** The steps that move no element and no worker. */
  lemma ControlInv(init: seq<Slot>, s: State, a: Step)
    requires Inv(init, s) && Enabled(s, a) && (a.CloseJobs? || a.CloseResults? || a.GiveUp? || a.Finish?)
    ensures Inv(init, Apply(s, a))
  {
    var s' := Apply(s, a);
    assert forall j: nat | j < |s'.workers| :: WorkerOk(init, s, j) ==> WorkerOk(init, s', j);
    assert forall j: nat | j < |init| :: PlaceOk(init, s, j) ==> PlaceOk(init, s', j);
    assert BufferOk(init, s') && LogOk(init, s') && AnswersOk(init, s');
  }

  lemma StepInv(init: seq<Slot>, s: State, a: Step)
    requires Inv(init, s) && Enabled(s, a)
    ensures Inv(init, Apply(s, a))
  {
    match a
    case Dispatch(k) => DispatchInv(init, s, k);
    case ReadSlot(k) => ReadSlotInv(init, s, k);
    case Post(k, reply) => PostInv(init, s, k, reply);
    case PostFails(k) => PostFailsInv(init, s, k);
    case Send(k) => SendInv(init, s, k);
    case CloseJobs => ControlInv(init, s, a);
    case Exit(k) => ExitInv(init, s, k);
    case CloseResults => ControlInv(init, s, a);
    case Receive => ReceiveInv(init, s);
    case Store => StoreInv(init, s);
    case GiveUp => ControlInv(init, s, a);
    case Finish => ControlInv(init, s, a);
  }

  // ---- what every run has ----

  /** No step sends on a closed channel or closes one twice. */
  ghost predicate ChannelsRespected(s: State, a: Step) {
    && (a.Dispatch? || a.CloseJobs? ==> s.jobsOpen)
    && (a.Send? || a.CloseResults? ==> s.resultsOpen)
  }

  /** Channels are respected, and what a worker reads was never written by the collector. */
  lemma StepsAreSafe(init: seq<Slot>, s: State, a: Step)
    requires Inv(init, s) && Enabled(s, a)
    ensures ChannelsRespected(s, a)
    ensures a.ReadSlot? ==> s.slots[s.workers[a.k].i] == init[s.workers[a.k].i]
    ensures a.ReadSlot? && s.collector.Storing? ==> s.collector.r.index != s.workers[a.k].i
  {
    match a
    case Dispatch(k) =>
    case ReadSlot(k) =>
      assert WorkerOk(init, s, k);
      assert PlaceOk(init, s, s.workers[k].i);
    case Post(k, reply) =>
    case PostFails(k) =>
    case Send(k) =>
      assert WorkerOk(init, s, k);
    case CloseJobs =>
    case Exit(k) =>
    case CloseResults =>
    case Receive =>
    case Store =>
    case GiveUp =>
    case Finish =>
  }

  function Weight(p: Place): nat {
    match p
    case Pending => 6
    case Held(_) => 5
    case ReadBy(_) => 4
    case SentBy(_) => 3
    case Buffered => 2
    case Collected => 1
    case Stored => 0
  }

  function TotalWeight(ps: seq<Place>): nat {
    if ps == [] then 0 else Weight(ps[0]) + TotalWeight(ps[1..])
  }

  function StillUp(ws: seq<Worker>): nat {
    if ws == [] then 0 else (if ws[0].Exited? then 0 else 1) + StillUp(ws[1..])
  }

  function Measure(s: State): nat {
    TotalWeight(s.place) + StillUp(s.workers)
    + (match s.producer case Sending(_) => 2 case AwaitingWorkers => 1 case ProducerDone => 0)
    + (if s.collector.Finished? || s.collector.Gone? then 0 else 1)
  }

  lemma {:induction false} WeightAt(ps: seq<Place>, i: nat, p: Place)
    requires i < |ps|
    ensures TotalWeight(ps[i := p]) == TotalWeight(ps) - Weight(ps[i]) + Weight(p)
    ensures Weight(ps[i]) <= TotalWeight(ps)
  {
    if i > 0 {
      WeightAt(ps[1..], i - 1, p);
      assert ps[i := p][1..] == ps[1..][i - 1 := p];
    } else {
      assert ps[0 := p][1..] == ps[1..];
    }
  }

  lemma {:induction false} StillUpAt(ws: seq<Worker>, k: nat, w: Worker)
    requires k < |ws|
    ensures StillUp(ws[k := w]) == StillUp(ws) - (if ws[k].Exited? then 0 else 1) + (if w.Exited? then 0 else 1)
  {
    if k > 0 {
      StillUpAt(ws[1..], k - 1, w);
      assert ws[k := w][1..] == ws[1..][k - 1 := w];
    } else {
      assert ws[0 := w][1..] == ws[1..];
    }
  }

  /** An element moves on and its worker stays up. */
  lemma MoveLowers(ps: seq<Place>, i: nat, p: Place, ws: seq<Worker>, k: nat, w: Worker)
    requires i < |ps| && k < |ws| && Weight(p) < Weight(ps[i]) && !ws[k].Exited? && !w.Exited?
    ensures TotalWeight(ps[i := p]) + StillUp(ws[k := w]) < TotalWeight(ps) + StillUp(ws)
  {
    WeightAt(ps, i, p);
    StillUpAt(ws, k, w);
  }

  lemma ReadSlotDecreases(init: seq<Slot>, s: State, k: nat)
    requires Inv(init, s) && Enabled(s, ReadSlot(k))
    ensures Measure(Apply(s, ReadSlot(k))) < Measure(s)
  {
    assert WorkerOk(init, s, k);
    var i := s.workers[k].i;
    MoveLowers(s.place, i, ReadBy(k), s.workers, k, HasRead(i, s.slots[i]));
  }

  lemma PostDecreases(init: seq<Slot>, s: State, k: nat, reply: Reply)
    requires Inv(init, s) && Enabled(s, Post(k, reply))
    ensures Measure(Apply(s, Post(k, reply))) < Measure(s)
  {
    assert WorkerOk(init, s, k);
    var i := s.workers[k].i;
    MoveLowers(s.place, i, SentBy(k), s.workers, k, Answered(Result(i, Some(reply))));
  }

  lemma PostFailsDecreases(init: seq<Slot>, s: State, k: nat)
    requires Inv(init, s) && Enabled(s, PostFails(k))
    ensures Measure(Apply(s, PostFails(k))) < Measure(s)
  {
    assert WorkerOk(init, s, k);
    var i := s.workers[k].i;
    MoveLowers(s.place, i, SentBy(k), s.workers, k, Answered(Result(i, None)));
  }

  lemma SendDecreases(init: seq<Slot>, s: State, k: nat)
    requires Inv(init, s) && Enabled(s, Send(k))
    ensures Measure(Apply(s, Send(k))) < Measure(s)
  {
    assert WorkerOk(init, s, k);
    MoveLowers(s.place, s.workers[k].r.index, Buffered, s.workers, k, Receiving);
  }

  lemma DispatchDecreases(init: seq<Slot>, s: State, k: nat)
    requires Inv(init, s) && Enabled(s, Dispatch(k))
    ensures Measure(Apply(s, Dispatch(k))) < Measure(s)
  {
    var i := s.producer.next;
    assert PlaceOk(init, s, i);
    MoveLowers(s.place, i, Held(k), s.workers, k, Holding(i));
  }

  /** Every step brings the pool closer to its end, under any scheduling. */
  lemma StepsDecrease(init: seq<Slot>, s: State, a: Step)
    requires Inv(init, s) && Enabled(s, a)
    ensures Measure(Apply(s, a)) < Measure(s)
  {
    match a
    case Dispatch(k) => DispatchDecreases(init, s, k);
    case ReadSlot(k) => ReadSlotDecreases(init, s, k);
    case Post(k, reply) => PostDecreases(init, s, k, reply);
    case PostFails(k) => PostFailsDecreases(init, s, k);
    case Send(k) => SendDecreases(init, s, k);
    case CloseJobs =>
    case Exit(k) => StillUpAt(s.workers, k, Exited);
    case CloseResults =>
    case Receive => WeightAt(s.place, s.buffer[0].index, Collected);
    case Store => WeightAt(s.place, s.collector.r.index, Stored);
    case GiveUp =>
    case Finish =>
  }

  ghost function FreshId(log: seq<Call>): (id: Id)
    ensures forall j | 0 <= j < |log| :: log[j].reply.id < id
  {
    if log == [] then 0
    else
      var x := FreshId(log[..|log| - 1]);
      var last := log[|log| - 1].reply.id;
      assert forall j | 0 <= j < |log| - 1 :: log[j] == log[..|log| - 1][j];
      if last < x then x else last + 1
  }

  /** Until the call has returned, something can always happen. */
  lemma NeverStuck(init: seq<Slot>, s: State) returns (a: Step)
    requires Inv(init, s) && !s.collector.Finished? && !s.collector.Gone?
    ensures Enabled(s, a)
  {
    if s.collector.Storing? {
      a := if s.collector.r.reply.Some? then Store else GiveUp;
    } else if s.buffer != [] {
      a := Receive;
    } else if k: nat :| k < |s.workers| && !s.workers[k].Receiving? && !s.workers[k].Exited? {
      assert WorkerOk(init, s, k);
      a := match s.workers[k]
        case Holding(_) => ReadSlot(k)
        case HasRead(_, _) => Post(k, Reply(FreshId(s.log), 0))
        case Answered(_) => Send(k)
        case _ => Finish;
    } else if s.producer.Sending? {
      assert WorkerOk(init, s, 0);
      a := if s.producer.next < |s.slots| then Dispatch(0) else CloseJobs;
    } else if k: nat :| k < |s.workers| && s.workers[k].Receiving? {
      a := Exit(k);
    } else {
      a := if s.producer.AwaitingWorkers? then CloseResults else Finish;
    }
  }

  ghost predicate ValidRun(s: State, steps: seq<Step>)
    decreases |steps|
  {
    steps == [] || (Enabled(s, steps[0]) && ValidRun(Apply(s, steps[0]), steps[1..]))
  }

  ghost function Exec(s: State, steps: seq<Step>): State
    requires ValidRun(s, steps)
    decreases |steps|
  {
    if steps == [] then s else Exec(Apply(s, steps[0]), steps[1..])
  }

  lemma {:induction false} RunInv(init: seq<Slot>, s: State, steps: seq<Step>)
    requires Inv(init, s) && ValidRun(s, steps)
    ensures Inv(init, Exec(s, steps))
    ensures |steps| + Measure(Exec(s, steps)) <= Measure(s)
    decreases |steps|
  {
    if steps != [] {
      StepInv(init, s, steps[0]);
      StepsDecrease(init, s, steps[0]);
      RunInv(init, Apply(s, steps[0]), steps[1..]);
    }
  }

  lemma {:induction false} AllPending(n: nat)
    ensures TotalWeight(seq(n, i => Pending)) == 6 * n
  {
    if n > 0 {
      AllPending(n - 1);
      assert seq(n, i => Pending)[1..] == seq(n - 1, i => Pending);
    }
  }

  lemma {:induction false} AllUp(w: nat)
    ensures StillUp(seq(w, k => Receiving)) == w
  {
    if w > 0 {
      AllUp(w - 1);
      assert seq(w, k => Receiving)[1..] == seq(w - 1, k => Receiving);
    }
  }

  /** Every run is finite: six steps an element, one a worker, and three to close down. */
  lemma RunsAreBounded(init: seq<Slot>, w: nat, steps: seq<Step>)
    requires Fresh(init) && 0 < w && ValidRun(Init(init, w), steps)
    ensures |steps| <= 6 * |init| + w + 3
  {
    InitInv(init, w);
    RunInv(init, Init(init, w), steps);
    AllPending(|init|);
    AllUp(w);
  }

  lemma FullSet(n: nat, a: set<nat>)
    requires forall i: nat :: i in a <==> i < n
    ensures |a| == n
  {
    if n > 0 {
      FullSet(n - 1, a - {n - 1});
    } else {
      assert a == {};
    }
  }

  /** A run of which no call failed and in which the collector has returned has adopted,
      for every element, the identifier and time the server answered that very element
      with, in exactly one call; nothing else was asked of the server and nothing else changed. */
  lemma FinishedMeansAllAdopted(init: seq<Slot>, w: nat, steps: seq<Step>, s: State)
    requires Fresh(init) && 0 < w && ValidRun(Init(init, w), steps) && s == Exec(Init(init, w), steps)
    requires s.failures == 0 && (s.collector.Finished? || s.collector.Gone?)
    ensures s.done == |init| == |s.slots|
    ensures forall i | 0 <= i < |init| :: s.slots[i].body == init[i].body && s.slots[i].reply.Some? && Answer(init, s.log, i, s.slots[i].reply.value)
    ensures forall j, j' | 0 <= j < j' < |s.log| :: s.log[j].index != s.log[j'].index
    ensures forall j | 0 <= j < |s.log| :: s.log[j].index < |init| && s.slots[s.log[j].index].reply == Some(s.log[j].reply)
  {
    InitInv(init, w);
    RunInv(init, Init(init, w), steps);
    forall i: nat | i < |init| ensures s.place[i].Stored? {
      assert PlaceOk(init, s, i);
    }
    forall i: nat | i < |init| ensures s.slots[i].body == init[i].body && s.slots[i].reply.Some? {
      assert PlaceOk(init, s, i);
    }
    FullSet(|init|, StoredIn(s.slots));
    forall j | 0 <= j < |s.log| ensures s.slots[s.log[j].index].reply == Some(s.log[j].reply) {
      var i := s.log[j].index;
      assert Answer(init, s.log, i, s.slots[i].reply.value);
      var j' :| 0 <= j' < |s.log| && s.log[j'] == Call(i, init[i], s.slots[i].reply.value);
      assert j == j';
    }
  }

  // ---- what is left behind when the collector gives up ----

  ghost predicate Stuck(s: State) {
    forall a :: !Enabled(s, a)
  }

  /** The elements whose results the collector never took. */
  function Outstanding(s: State): set<nat> {
    set i: nat | i < |s.place| && !s.place[i].Collected? && !s.place[i].Stored?
  }

  function InBuffer(s: State): set<nat> {
    set i: nat | i < |s.place| && s.place[i].Buffered?
  }

  function Indices(rs: seq<Result>): set<nat> {
    set j | 0 <= j < |rs| :: rs[j].index
  }

  lemma {:induction false} IndicesCount(rs: seq<Result>)
    requires forall j, j' | 0 <= j < j' < |rs| :: rs[j].index != rs[j'].index
    ensures |Indices(rs)| == |rs|
  {
    if rs == [] {
      assert Indices(rs) == {};
    } else {
      var front, last := rs[..|rs| - 1], rs[|rs| - 1];
      IndicesCount(front);
      assert forall j | 0 <= j < |front| :: front[j] == rs[j];
      assert Indices(rs) == Indices(front) + {last.index};
      assert last.index !in Indices(front);
    }
  }

  lemma BufferCount(init: seq<Slot>, s: State)
    requires Inv(init, s)
    ensures |InBuffer(s)| == |s.buffer|
  {
    IndicesCount(s.buffer);
    forall i: nat | i in InBuffer(s) ensures i in Indices(s.buffer) {
      assert PlaceOk(init, s, i);
    }
    assert InBuffer(s) == Indices(s.buffer);
  }

  lemma SubsetCount(a: set<nat>, b: set<nat>)
    requires a <= b
    ensures |a| <= |b|
    ensures a != b ==> |a| < |b|
    decreases a
  {
    if x :| x in a {
      SubsetCount(a - {x}, b - {x});
      assert a - {x} == b - {x} ==> a == b;
    } else if y :| y in b {
      assert |b| == |b - {y}| + 1;
    }
  }

  /** Without the collector, the others move until all have ended or the buffer is full. */
  lemma LeftBehindMove(init: seq<Slot>, s: State) returns (a: Step)
    requires Inv(init, s) && !s.producer.ProducerDone?
    requires |s.buffer| < |s.workers| || forall k | 0 <= k < |s.workers| :: !s.workers[k].Answered?
    ensures Enabled(s, a)
  {
    if k: nat :| k < |s.workers| && !s.workers[k].Receiving? && !s.workers[k].Exited? {
      assert WorkerOk(init, s, k);
      a := match s.workers[k]
        case Holding(_) => ReadSlot(k)
        case HasRead(_, _) => PostFails(k)
        case _ => Send(k);
    } else if s.producer.Sending? {
      assert WorkerOk(init, s, 0);
      a := if s.producer.next < |s.slots| then Dispatch(0) else CloseJobs;
    } else if k: nat :| k < |s.workers| && s.workers[k].Receiving? {
      a := Exit(k);
    } else {
      a := CloseResults;
    }
  }

  lemma DoneMeansBuffered(init: seq<Slot>, s: State)
    requires Inv(init, s) && s.producer.ProducerDone?
    ensures Outstanding(s) == InBuffer(s)
  {
    forall i: nat | i in Outstanding(s) ensures i in InBuffer(s) {
      assert PlaceOk(init, s, i);
    }
  }

  lemma StuckOnlyByTheBuffer(init: seq<Slot>, s: State)
    requires Inv(init, s) && Stuck(s)
    ensures s.producer.ProducerDone? <==> |Outstanding(s)| <= |s.workers|
  {
    BufferCount(init, s);
    if s.producer.ProducerDone? {
      DoneMeansBuffered(init, s);
    } else {
      if |s.buffer| < |s.workers| || forall k | 0 <= k < |s.workers| :: !s.workers[k].Answered? {
        var a := LeftBehindMove(init, s);
        assert false;
      }
      var k :| 0 <= k < |s.workers| && s.workers[k].Answered?;
      assert WorkerOk(init, s, k);
      assert s.workers[k].r.index in Outstanding(s) && s.workers[k].r.index !in InBuffer(s);
      SubsetCount(InBuffer(s), Outstanding(s));
    }
  }

  lemma OutstandingStays(init: seq<Slot>, s: State, a: Step)
    requires Inv(init, s) && s.collector.Gone? && Enabled(s, a)
    ensures var s' := Apply(s, a); s'.collector.Gone? && |s'.workers| == |s.workers| && Outstanding(s') == Outstanding(s)
  {
    match a
    case Dispatch(k) => assert PlaceOk(init, s, s.producer.next);
    case ReadSlot(k) => assert WorkerOk(init, s, k);
    case Post(k, reply) => assert WorkerOk(init, s, k);
    case PostFails(k) => assert WorkerOk(init, s, k);
    case Send(k) => assert WorkerOk(init, s, k);
    case CloseJobs =>
    case Exit(k) =>
    case CloseResults =>
    case Receive =>
    case Store =>
    case GiveUp =>
    case Finish =>
  }

  /** After the collector gave up, whatever the scheduling: the producer, the workers and
      the wait end when at most as many results are outstanding as the buffer holds, and
      otherwise a worker stays blocked for ever. */
  lemma {:induction false} LeftBehindFinish(init: seq<Slot>, s: State, steps: seq<Step>)
    requires Inv(init, s) && s.collector.Gone? && ValidRun(s, steps) && Stuck(Exec(s, steps))
    ensures Exec(s, steps).producer.ProducerDone? <==> |Outstanding(s)| <= |s.workers|
    decreases |steps|
  {
    if steps == [] {
      StuckOnlyByTheBuffer(init, s);
    } else {
      StepInv(init, s, steps[0]);
      OutstandingStays(init, s, steps[0]);
      LeftBehindFinish(init, Apply(s, steps[0]), steps[1..]);
    }
  }

  /** Every state runs to an end. */
  lemma {:induction false} SomeEnd(init: seq<Slot>, s: State) returns (steps: seq<Step>)
    requires Inv(init, s)
    ensures ValidRun(s, steps) && Stuck(Exec(s, steps))
    decreases Measure(s)
  {
    if a :| Enabled(s, a) {
      StepInv(init, s, a);
      StepsDecrease(init, s, a);
      var rest := SomeEnd(init, Apply(s, a));
      steps := [a] + rest;
      assert steps[1..] == rest;
    } else {
      steps := [];
    }
  }

  /** One worker has failed with the first element and nothing else was handed out. */
  function OneFailed(init: seq<Slot>, w: nat): State
    requires 0 < |init| && 0 < w
  {
    Init(init, w).(producer := Sending(1), workers := Init(init, w).workers[0 := Answered(Result(0, None))],
                   failures := 1, place := Init(init, w).place[0 := SentBy(0)])
  }

  lemma FirstCallRun(init: seq<Slot>, w: nat)
    requires 0 < |init| && 0 < w
    ensures var steps := [Dispatch(0), ReadSlot(0), PostFails(0)];
      ValidRun(Init(init, w), steps) && Exec(Init(init, w), steps) == OneFailed(init, w)
  {
    var s0 := Init(init, w);
    var s1 := Apply(s0, Dispatch(0));
    var s2 := Apply(s1, ReadSlot(0));
    assert Apply(s2, PostFails(0)) == OneFailed(init, w);
    Prepend(s2, PostFails(0), []);
    Prepend(s1, ReadSlot(0), [PostFails(0)]);
    Prepend(s0, Dispatch(0), [ReadSlot(0), PostFails(0)]);
    assert [Dispatch(0)] + [ReadSlot(0), PostFails(0)] == [Dispatch(0), ReadSlot(0), PostFails(0)];
  }

  lemma FailureIsTaken(init: seq<Slot>, w: nat)
    requires 0 < |init| && 0 < w
    ensures var steps := [Send(0), Receive, GiveUp];
      ValidRun(OneFailed(init, w), steps)
      && Exec(OneFailed(init, w), steps)
         == OneFailed(init, w).(workers := Init(init, w).workers, collector := Gone(0), place := Init(init, w).place[0 := Collected])
  {
    var s0 := OneFailed(init, w);
    var s1 := Apply(s0, Send(0));
    assert s1.buffer == [Result(0, None)] && s1.workers == Init(init, w).workers;
    var s2 := Apply(s1, Receive);
    Prepend(s2, GiveUp, []);
    Prepend(s1, Receive, [GiveUp]);
    Prepend(s0, Send(0), [Receive, GiveUp]);
    assert [Send(0)] + [Receive, GiveUp] == [Send(0), Receive, GiveUp];
    assert s2.buffer == [] && s2.place == Init(init, w).place[0 := Collected];
  }

  lemma {:induction false} RunConcat(s: State, a: seq<Step>, b: seq<Step>)
    requires ValidRun(s, a) && ValidRun(Exec(s, a), b)
    ensures ValidRun(s, a + b) && Exec(s, a + b) == Exec(Exec(s, a), b)
    decreases |a|
  {
    if a == [] {
      assert a + b == b;
    } else {
      var rest := a[1..] + b;
      RunConcat(Apply(s, a[0]), a[1..], b);
      Prepend(s, a[0], rest);
      assert a + b == [a[0]] + rest;
    }
  }

  /** The run in which the very first call fails before anything else is handed out. */
  lemma FirstCallFails(init: seq<Slot>, w: nat) returns (steps: seq<Step>)
    requires 0 < |init| && 0 < w
    ensures ValidRun(Init(init, w), steps)
    ensures var s := Exec(Init(init, w), steps); s.collector.Gone? && |s.workers| == w && |Outstanding(s)| == |init| - 1
  {
    FirstCallRun(init, w);
    FailureIsTaken(init, w);
    var a, b := [Dispatch(0), ReadSlot(0), PostFails(0)], [Send(0), Receive, GiveUp];
    RunConcat(Init(init, w), a, b);
    steps := a + b;
    var s := Exec(Init(init, w), steps);
    FullSet(|init|, Outstanding(s) + {0});
    assert 0 !in Outstanding(s);
  }

  lemma Prepend(s: State, a: Step, rest: seq<Step>)
    requires Enabled(s, a) && ValidRun(Apply(s, a), rest)
    ensures ValidRun(s, [a] + rest) && Exec(s, [a] + rest) == Exec(Apply(s, a), rest)
  {
    assert ([a] + rest)[1..] == rest;
  }

  /** If the first call fails, every way of going on ends with all goroutines finished when
      there are at most w + 1 elements, and with a worker blocked for ever otherwise. */
  lemma FailureLeaks(init: seq<Slot>, w: nat) returns (s: State)
    requires Fresh(init) && 0 < |init| && 0 < w
    ensures exists steps :: ValidRun(Init(init, w), steps) && Exec(Init(init, w), steps) == s
    ensures s.collector.Gone? && exists more :: ValidRun(s, more) && Stuck(Exec(s, more))
    ensures forall more | ValidRun(s, more) && Stuck(Exec(s, more)) :: Exec(s, more).producer.ProducerDone? <==> |init| <= w + 1
  {
    var steps := FirstCallFails(init, w);
    s := Exec(Init(init, w), steps);
    InitInv(init, w);
    RunInv(init, Init(init, w), steps);
    var end := SomeEnd(init, s);
    forall more | ValidRun(s, more) && Stuck(Exec(s, more)) ensures Exec(s, more).producer.ProducerDone? <==> |init| <= w + 1 {
      LeftBehindFinish(init, s, more);
    }
  }
}
