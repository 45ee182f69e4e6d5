/** One producer and one consumer on the ring, step by step: `PutVideo` tests for room before it takes
    the mutex, and the consumer empties a slot before it stops counting it. */
module QueueProtocol {
  import opened Bytes
  import opened Datagrams
  import opened VideoQueue

  /** Where the producer is inside `PutVideo`. */
  datatype Producer =
    | Away
    | Entered(pkt: Packet)
    | FoundRoom(pkt: Packet)
    | HasStored

  /** Where the consumer is between `GetVideo` and `RetVideo`. */
  datatype Consumer =
    | Idle
    | FoundEnabled
    | Holding(pkt: Packet)

  /** A packet with the number of times the queue had been rebased when it was accepted. */
  datatype Entry = Entry(epoch: nat, pkt: Packet)

  /** The queue, the two threads, and the history: everything accepted and everything handed out. */
  datatype World = World(
    queue: State,
    producer: Producer,
    consumer: Consumer,
    epoch: nat,
    accepted: seq<Entry>,
    delivered: seq<Entry>)

  datatype Action =
    | Enter(pkt: Packet, startPts: nat)
    | TestRoom
    | Commit
    | Announce
    | TestEnabled
    | Take
    | Return

  function Start(): World {
    World(Initial(), Away, Idle, 0, [], [])
  }

  /** A change of the time base clears the queue without the mutex; it is allowed only while the consumer
      holds no packet. */
  predicate Allowed(w: World, a: Action) {
    match a
    case Enter(_, startPts) => w.producer.Away? && (startPts != w.queue.startPts ==> !w.consumer.Holding?)
    case TestRoom => w.producer.Entered?
    case Commit => w.producer.FoundRoom?
    case Announce => w.producer.HasStored?
    case TestEnabled => w.consumer.Idle?
    case Take => w.consumer.FoundEnabled?
    case Return => w.consumer.Holding?
  }

  function Next(w: World, a: Action): World
    requires InBounds(w.queue) && Allowed(w, a)
  {
    match a
    case Enter(pkt, startPts) =>
      w.(queue := Rebased(w.queue, startPts), producer := Entered(pkt),
         epoch := if startPts != w.queue.startPts then w.epoch + 1 else w.epoch)
    case TestRoom =>
      w.(producer := if HasRoom(w.queue) then FoundRoom(w.producer.pkt) else Away)
    case Commit =>
      if w.producer.pkt.data == [] then w.(producer := Away)
      else w.(queue := Stored(w.queue, w.producer.pkt), producer := HasStored,
              accepted := w.accepted + [Entry(w.epoch, w.producer.pkt)])
    case Announce =>
      w.(queue := Announced(w.queue), producer := Away)
    case TestEnabled =>
      w.(consumer := if w.queue.enabled then FoundEnabled else Idle)
    case Take =>
      if CanTake(w.queue) then
        var pkt := w.queue.slots[w.queue.read];
        w.(queue := Taken(w.queue), consumer := Holding(pkt), delivered := w.delivered + [Entry(w.epoch, pkt)])
      else w.(consumer := Idle)
    case Return =>
      w.(queue := Returned(w.queue), consumer := Idle)
  }

  // ---------------------------------------------------------------- the ring

  /** The slot `k` places after the read position. */
  function Place(s: State, k: int): int
    requires 0 <= s.read < MAX_NUM_QUEUE && 0 <= k <= MAX_NUM_QUEUE
  {
    if s.read + k >= MAX_NUM_QUEUE then s.read + k - MAX_NUM_QUEUE else s.read + k
  }

  function Held(w: World): int {
    if w.consumer.Holding? then 1 else 0
  }

  /** After the held slots come the full ones, then the free ones, and the write position is where the
      free ones begin. */
  ghost predicate Ring(s: State, held: int) {
    && InBounds(s) && 0 <= held <= s.count <= MAX_NUM_QUEUE
    && s.write % MAX_NUM_QUEUE == (s.read + s.count) % MAX_NUM_QUEUE
    && (forall k :: held <= k < s.count ==> s.slots[Place(s, k)].data != [])
    && (forall k :: 0 <= k < MAX_NUM_QUEUE && !(held <= k < s.count) ==> s.slots[Place(s, k)] == EMPTY)
  }

  /** The packets waiting, oldest first. */
  function Waiting(s: State, held: int): seq<Packet>
    requires InBounds(s) && 0 <= held <= s.count <= MAX_NUM_QUEUE
  {
    seq(s.count - held, i requires 0 <= i < s.count - held => s.slots[Place(s, held + i)])
  }

  /** How many slots hold a packet. */
  function Occupied(slots: seq<Packet>): nat {
    if slots == [] then 0 else (if slots[0].data != [] then 1 else 0) + Occupied(slots[1..])
  }

  lemma {:induction false} OccupiedUpdate(slots: seq<Packet>, i: nat, pkt: Packet)
    requires i < |slots|
    ensures Occupied(slots[i := pkt])
         == Occupied(slots) - (if slots[i].data != [] then 1 else 0) + (if pkt.data != [] then 1 else 0)
  {
    if i > 0 {
      OccupiedUpdate(slots[1..], i - 1, pkt);
      assert slots[i := pkt][1..] == slots[1..][i - 1 := pkt];
    } else {
      assert slots[0 := pkt][1..] == slots[1..];
    }
  }

  lemma {:induction false} NoneOccupied(slots: seq<Packet>)
    requires forall i :: 0 <= i < |slots| ==> slots[i] == EMPTY
    ensures Occupied(slots) == 0
  {
    if slots != [] {
      NoneOccupied(slots[1..]);
    }
  }

  lemma WriteIsPlace(s: State, held: int)
    requires Ring(s, held)
    ensures s.write == Place(s, s.count) || (s.count == MAX_NUM_QUEUE && s.write == s.read)
  {
  }

  lemma RingBounds(s: State, held: int)
    requires Ring(s, held)
    ensures InBounds(s) && 0 <= held <= s.count <= MAX_NUM_QUEUE
  {
  }

  lemma CommitKeepsRing(s: State, held: int, pkt: Packet)
    requires Ring(s, held) && HasRoom(s) && pkt.data != []
    ensures s.slots[s.write] == EMPTY
    ensures Ring(Stored(s, pkt), held)
    ensures Waiting(Stored(s, pkt), held) == Waiting(s, held) + [pkt]
  {
    WriteIsPlace(s, held);
    var r := Stored(s, pkt);
    assert s.slots[Place(s, s.count)] == EMPTY;
    forall k | 0 <= k < MAX_NUM_QUEUE
      ensures r.slots[Place(r, k)] == if k == s.count then pkt else s.slots[Place(s, k)]
    {
    }
  }

  lemma TakeKeepsRing(s: State)
    requires Ring(s, 0) && CanTake(s)
    ensures s.count > 0 && Ring(Taken(s), 1)
    ensures Waiting(s, 0) == [s.slots[s.read]] + Waiting(Taken(s), 1)
  {
    var r := Taken(s);
    assert Place(s, 0) == s.read;
    forall k | 0 <= k < MAX_NUM_QUEUE
      ensures r.slots[Place(r, k)] == if k == 0 then EMPTY else s.slots[Place(s, k)]
    {
    }
  }

  lemma ReturnKeepsRing(s: State)
    requires Ring(s, 1)
    ensures Ring(Returned(s), 0) && Waiting(Returned(s), 0) == Waiting(s, 1)
  {
    var r := Returned(s);
    assert s.slots[Place(s, 0)] == EMPTY;
    forall k | 0 <= k < MAX_NUM_QUEUE
      ensures Place(r, k) == if k + 1 < MAX_NUM_QUEUE then Place(s, k + 1) else Place(s, 0)
    {
    }
  }

  lemma InitialRing(startPts: nat)
    ensures Ring(Initial().(startPts := startPts), 0) && Waiting(Initial().(startPts := startPts), 0) == []
    ensures Occupied(Initial().slots) == 0
  {
    NoneOccupied(Initial().slots);
  }

  // ---------------------------------------------------------------- the history

  /** The packets of one epoch, in order. */
  function Of(log: seq<Entry>, e: nat): seq<Packet> {
    if log == [] then []
    else Of(log[..|log| - 1], e) + if log[|log| - 1].epoch == e then [log[|log| - 1].pkt] else []
  }

  lemma OfAppend(log: seq<Entry>, x: Entry, e: nat)
    ensures Of(log + [x], e) == Of(log, e) + if x.epoch == e then [x.pkt] else []
  {
    assert (log + [x])[..|log|] == log;
  }

  lemma {:induction false} OfOthers(log: seq<Entry>, e: nat)
    requires forall x :: x in log ==> x.epoch != e
    ensures Of(log, e) == []
  {
    if log != [] {
      assert log[|log| - 1] in log;
      OfOthers(log[..|log| - 1], e);
    }
  }

  lemma {:induction false} OfConcat(a: seq<Entry>, b: seq<Entry>, e: nat)
    ensures Of(a + b, e) == Of(a, e) + Of(b, e)
  {
    if b == [] {
      assert a + b == a;
    } else {
      var front, last := b[..|b| - 1], b[|b| - 1];
      OfConcat(a, front, e);
      OfAppend(a + front, last, e);
      assert a + b == a + front + [last];
    }
  }

  /** The packets of a log, whatever their epochs. */
  function Packets(log: seq<Entry>): seq<Packet> {
    if log == [] then [] else Packets(log[..|log| - 1]) + [log[|log| - 1].pkt]
  }

  lemma {:induction false} OfAll(log: seq<Entry>, e: nat)
    requires forall x :: x in log ==> x.epoch == e
    ensures Of(log, e) == Packets(log)
  {
    if log != [] {
      assert log[|log| - 1] in log;
      OfAll(log[..|log| - 1], e);
    }
  }

  predicate UpTo(log: seq<Entry>, epoch: nat) {
    forall x :: x in log ==> x.epoch <= epoch
  }

  predicate Ascending(log: seq<Entry>) {
    forall i, j :: 0 <= i < j < |log| ==> log[i].epoch <= log[j].epoch
  }

  /** Nothing is handed out but what was accepted, in the order of acceptance, none twice: in the current
      epoch what was handed out and what waits is all there is, in older ones a front part was handed out. */
  ghost predicate History(w: World)
    requires Ring(w.queue, Held(w))
  {
    && UpTo(w.accepted, w.epoch) && UpTo(w.delivered, w.epoch) && Ascending(w.delivered)
    && Of(w.accepted, w.epoch) == Of(w.delivered, w.epoch) + Waiting(w.queue, Held(w))
    && forall e: nat :: Of(w.delivered, e) <= Of(w.accepted, e)
  }

  /** Output is switched off only until the first packet of an epoch has been announced. */
  ghost predicate Visibility(w: World) {
    !w.queue.enabled ==>
      if Of(w.accepted, w.epoch) == [] then w.queue.write == 0
      else w.producer.HasStored? && w.queue.write == 1
  }

  ghost predicate Inv(w: World) {
    && Ring(w.queue, Held(w))
    && Occupied(w.queue.slots) + Held(w) == w.queue.count
    && History(w)
    && Visibility(w)
    && (w.producer.FoundRoom? ==> HasRoom(w.queue))
    && (w.consumer.Holding? ==> w.delivered != [] && w.delivered[|w.delivered| - 1] == Entry(w.epoch, w.consumer.pkt))
  }

  lemma InitialFields()
    ensures var s := Initial();
            InBounds(s) && s.read == 0 && s.write == 0 && s.count == 0 && !s.enabled && s.startPts == 0
  {
  }

  lemma StartInv()
    ensures Inv(Start())
  {
    hide Initial, Ring, Waiting, Occupied;
    InitialRing(0);
    InitialFields();
    assert Start().queue == Initial().(startPts := 0);
  }

  lemma EnterKeepsInv(w: World, pkt: Packet, startPts: nat)
    requires Inv(w) && Allowed(w, Enter(pkt, startPts))
    ensures Inv(Next(w, Enter(pkt, startPts)))
  {
    var r := Next(w, Enter(pkt, startPts));
    if startPts != w.queue.startPts {
      InitialRing(startPts);
      assert r.queue == Initial().(startPts := startPts);
      OfOthers(w.accepted, r.epoch);
      OfOthers(w.delivered, r.epoch);
    } else {
      assert r.queue == w.queue;
    }
  }

  lemma CommitKeepsInv(w: World)
    requires Inv(w) && Allowed(w, Commit)
    ensures Inv(Next(w, Commit))
  {
    var pkt := w.producer.pkt;
    if pkt.data != [] {
      hide Ring, Waiting, Occupied;
      RingBounds(w.queue, Held(w));
      CommitKeepsRing(w.queue, Held(w), pkt);
      OccupiedUpdate(w.queue.slots, w.queue.write, pkt);
      var r := Next(w, Commit);
      RingBounds(r.queue, Held(r));
      forall e: nat
        ensures Of(r.accepted, e) == Of(w.accepted, e) + if w.epoch == e then [pkt] else []
        ensures Of(r.delivered, e) <= Of(r.accepted, e)
      {
        OfAppend(w.accepted, Entry(w.epoch, pkt), e);
      }
    }
  }

  lemma TakeKeepsInv(w: World)
    requires Inv(w) && Allowed(w, Take)
    ensures Inv(Next(w, Take))
  {
    if CanTake(w.queue) {
      hide Ring, Waiting, Occupied;
      RingBounds(w.queue, 0);
      TakeKeepsRing(w.queue);
      OccupiedUpdate(w.queue.slots, w.queue.read, EMPTY);
      var r := Next(w, Take);
      RingBounds(r.queue, 1);
      var pkt := w.queue.slots[w.queue.read];
      forall e: nat
        ensures Of(r.delivered, e) == Of(w.delivered, e) + if w.epoch == e then [pkt] else []
      {
        OfAppend(w.delivered, Entry(w.epoch, pkt), e);
      }
      assert Of(w.accepted, w.epoch) == Of(r.delivered, w.epoch) + Waiting(r.queue, 1);
    }
  }

  lemma ReturnKeepsInv(w: World)
    requires Inv(w) && Allowed(w, Return)
    ensures Inv(Next(w, Return))
  {
    ReturnKeepsRing(w.queue);
  }

  lemma AnnounceKeepsInv(w: World)
    requires Inv(w) && Allowed(w, Announce)
    ensures Inv(Next(w, Announce))
  {
    var r := Next(w, Announce);
    assert forall k :: 0 <= k < MAX_NUM_QUEUE ==> Place(r.queue, k) == Place(w.queue, k);
    forall i | 0 <= i < w.queue.count - Held(w)
      ensures Waiting(r.queue, Held(r))[i] == Waiting(w.queue, Held(w))[i]
    {
    }
    assert Waiting(r.queue, Held(r)) == Waiting(w.queue, Held(w));
  }

  lemma TestsKeepInv(w: World, a: Action)
    requires Inv(w) && Allowed(w, a) && (a.TestRoom? || a.TestEnabled?)
    ensures Inv(Next(w, a))
  {
  }

  lemma StepKeepsInv(w: World, a: Action)
    requires Inv(w) && Allowed(w, a)
    ensures Inv(Next(w, a))
  {
    hide Inv;
    match a {
      case Enter(pkt, startPts) => EnterKeepsInv(w, pkt, startPts);
      case Commit => CommitKeepsInv(w);
      case Announce => AnnounceKeepsInv(w);
      case Take => TakeKeepsInv(w);
      case Return => ReturnKeepsInv(w);
      case _ => TestsKeepInv(w, a);
    }
  }

  // ---------------------------------------------------------------- whole runs

  /** The world after a sequence of steps from the start, if every step was allowed where it was taken. */
  function Exec(actions: seq<Action>): Option<World> {
    if actions == [] then Some(Start())
    else
      match Exec(actions[..|actions| - 1])
      case None => None
      case Some(w) =>
        var a := actions[|actions| - 1];
        if InBounds(w.queue) && Allowed(w, a) then Some(Next(w, a)) else None
  }

  lemma {:induction false} RunKeepsInv(actions: seq<Action>)
    requires Exec(actions).Some?
    ensures Inv(Exec(actions).value)
  {
    hide Inv, Next, Allowed;
    if actions == [] {
      StartInv();
    } else {
      var before := actions[..|actions| - 1];
      RunKeepsInv(before);
      StepKeepsInv(Exec(before).value, actions[|actions| - 1]);
    }
  }

  /** However the two threads interleave, when the producer gets to store, the slot is free: the test it
      made without the mutex still holds, and no packet is overwritten. */
  lemma NeverOverwrites(actions: seq<Action>)
    requires Exec(actions).Some? && Exec(actions).value.producer.FoundRoom?
    ensures var q := Exec(actions).value.queue; HasRoom(q) && InBounds(q) && q.slots[q.write] == EMPTY
  {
    RunKeepsInv(actions);
    var w := Exec(actions).value;
    WriteIsPlace(w.queue, Held(w));
    assert w.queue.slots[Place(w.queue, w.queue.count)] == EMPTY;
  }

  /** The packet count is the number of full slots and the one held, and ties the two positions. */
  lemma CountIsExact(actions: seq<Action>)
    requires Exec(actions).Some?
    ensures var w := Exec(actions).value;
            w.queue.count == Occupied(w.queue.slots) + Held(w) && 0 <= w.queue.count <= MAX_NUM_QUEUE
            && w.queue.write == (w.queue.read + w.queue.count) % MAX_NUM_QUEUE
  {
    hide Occupied, History, Visibility, Exec;
    RunKeepsInv(actions);
    var q := Exec(actions).value.queue;
    assert q.write % MAX_NUM_QUEUE == q.write;
  }

  /** First in, first out, over whole runs with any number of changes of the time base. */
  lemma FirstInFirstOut(actions: seq<Action>, e: nat)
    requires Exec(actions).Some?
    ensures var w := Exec(actions).value;
            && InBounds(w.queue) && 0 <= Held(w) <= w.queue.count <= MAX_NUM_QUEUE
            && Of(w.accepted, w.epoch) == Of(w.delivered, w.epoch) + Waiting(w.queue, Held(w))
            && Of(w.delivered, e) <= Of(w.accepted, e)
            && Ascending(w.delivered) && UpTo(w.delivered, w.epoch)
  {
    RunKeepsInv(actions);
  }

  /** A packet that waits can be seen: except between storing the first packet of an epoch and switching
      output on, the consumer's test does not stop it. */
  lemma WaitingIsVisible(actions: seq<Action>)
    requires Exec(actions).Some?
    requires var w := Exec(actions).value; w.queue.count > Held(w) && !w.producer.HasStored?
    ensures var w := Exec(actions).value;
            w.queue.enabled && InBounds(w.queue) && (w.consumer.Holding? || CanTake(w.queue))
  {
    RunKeepsInv(actions);
    var w := Exec(actions).value;
    assert Waiting(w.queue, Held(w)) != [];
    assert w.queue.slots[Place(w.queue, Held(w))].data != [];
  }

  // ---------------------------------------------------------------- after a change of the time base

  /** The log has only grown, by entries of this epoch or later ones. */
  predicate GrownFrom(log: seq<Entry>, older: seq<Entry>, epoch: nat) {
    older <= log && forall x :: x in log[|older|..] ==> x.epoch >= epoch
  }

  lemma GrowsByOne(log: seq<Entry>, older: seq<Entry>, epoch: nat, x: Entry)
    requires GrownFrom(log, older, epoch) && x.epoch >= epoch
    ensures GrownFrom(log + [x], older, epoch)
  {
    assert (log + [x])[|older|..] == log[|older|..] + [x];
  }

  ghost predicate Later(r: World, w: World) {
    && w.epoch <= r.epoch
    && GrownFrom(r.delivered, w.delivered, w.epoch) && GrownFrom(r.accepted, w.accepted, w.epoch)
  }

  lemma StepGrows(w: World, q: World, a: Action)
    requires Later(q, w) && InBounds(q.queue) && Allowed(q, a)
    ensures Later(Next(q, a), w)
  {
    hide GrownFrom;
    if a.Commit? {
      GrowsByOne(q.accepted, w.accepted, w.epoch, Entry(q.epoch, q.producer.pkt));
    } else if a.Take? {
      GrowsByOne(q.delivered, w.delivered, w.epoch, Entry(q.epoch, q.queue.slots[q.queue.read]));
    }
  }

  lemma {:induction false} HistoryGrows(before: seq<Action>, after: seq<Action>)
    requires Exec(before + after).Some?
    ensures Exec(before).Some? && Later(Exec(before + after).value, Exec(before).value)
    decreases |after|
  {
    if after == [] {
      assert before + after == before;
    } else {
      hide Next, Allowed, Later;
      var shorter := after[..|after| - 1];
      assert (before + after)[..|before + after| - 1] == before + shorter;
      HistoryGrows(before, shorter);
      StepGrows(Exec(before).value, Exec(before + shorter).value, after[|after| - 1]);
    }
  }

  /** Of the entries after a point where all epochs were at most `epoch`, those of a later one. */
  lemma OfSuffix(log: seq<Entry>, older: seq<Entry>, epoch: nat, e: nat)
    requires GrownFrom(log, older, epoch + 1) && UpTo(older, epoch)
    ensures Of(log[|older|..], e) == if e <= epoch then [] else Of(log, e)
  {
    var newer := log[|older|..];
    if e <= epoch {
      OfOthers(newer, e);
    } else {
      OfOthers(older, e);
      OfConcat(older, newer, e);
      assert log == older + newer;
    }
  }

  /** A run with a change of the time base in it: the world just before the change, and the last one. */
  ghost predicate Rebases(before: seq<Action>, a: Action, after: seq<Action>, w: World, r: World) {
    && Exec(before) == Some(w) && Exec(before + [a] + after) == Some(r)
    && a.Enter? && a.startPts != w.queue.startPts
  }

  lemma RebaseGrows(before: seq<Action>, a: Action, after: seq<Action>, w: World, r: World)
    requires Rebases(before, a, after, w, r)
    ensures GrownFrom(r.delivered, w.delivered, w.epoch + 1) && GrownFrom(r.accepted, w.accepted, w.epoch + 1)
    ensures w.epoch < r.epoch
  {
    hide GrownFrom;
    HistoryGrows(before + [a], after);
    assert (before + [a])[..|before + [a]| - 1] == before;
    assert Exec(before + [a]) == Some(Next(w, a));
  }

  /** After a change of the time base, whatever the rest of the run: the packets handed out since are, in each
      epoch, a front part of the packets accepted since; no older packet comes out any more. */
  lemma OnlyNewAfterRebase(before: seq<Action>, a: Action, after: seq<Action>, w: World, r: World, e: nat)
    requires Rebases(before, a, after, w, r)
    ensures w.delivered <= r.delivered && w.accepted <= r.accepted
    ensures Of(r.delivered[|w.delivered|..], e) <= Of(r.accepted[|w.accepted|..], e)
    ensures forall x :: x in r.delivered[|w.delivered|..] ==> x.epoch > w.epoch
  {
    hide Exec;
    RebaseGrows(before, a, after, w, r);
    RunKeepsInv(before);
    RunKeepsInv(before + [a] + after);
    OfSuffix(r.delivered, w.delivered, w.epoch, e);
    OfSuffix(r.accepted, w.accepted, w.epoch, e);
  }

  /** As long as the time base does not change again, the packets handed out since the change and those that
      wait are exactly the packets accepted since, in order. */
  lemma RebaseStartsAfresh(before: seq<Action>, a: Action, after: seq<Action>, w: World, r: World)
    requires Rebases(before, a, after, w, r) && r.epoch == w.epoch + 1
    ensures w.delivered <= r.delivered && w.accepted <= r.accepted
    ensures InBounds(r.queue) && 0 <= Held(r) <= r.queue.count <= MAX_NUM_QUEUE
    ensures Packets(r.accepted[|w.accepted|..])
         == Packets(r.delivered[|w.delivered|..]) + Waiting(r.queue, Held(r))
  {
    hide Exec;
    RebaseGrows(before, a, after, w, r);
    RunKeepsInv(before);
    RunKeepsInv(before + [a] + after);
    OfSuffix(r.delivered, w.delivered, w.epoch, r.epoch);
    OfSuffix(r.accepted, w.accepted, w.epoch, r.epoch);
    SuffixIsOf(r.delivered, w.delivered, r.epoch);
    SuffixIsOf(r.accepted, w.accepted, r.epoch);
  }

  lemma SuffixIsOf(log: seq<Entry>, older: seq<Entry>, epoch: nat)
    requires GrownFrom(log, older, epoch) && UpTo(log, epoch)
    ensures Of(log[|older|..], epoch) == Packets(log[|older|..])
  {
    OfAll(log[|older|..], epoch);
  }

  /** Why the time base may only change while the consumer holds nothing: clearing the queue keeps its
      books exactly in that case. With a packet held, handing it back makes the count negative. */
  lemma ClearNeedsIdleConsumer(w: World, startPts: nat)
    requires Inv(w) && startPts != w.queue.startPts
    ensures Ring(Rebased(w.queue, startPts), Held(w)) <==> !w.consumer.Holding?
    ensures Returned(Rebased(w.queue, startPts)).count == -1
  {
    InitialRing(startPts);
    assert Rebased(w.queue, startPts) == Initial().(startPts := startPts);
  }

  lemma ExecStep(actions: seq<Action>, a: Action)
    requires Exec(actions).Some? && InBounds(Exec(actions).value.queue) && Allowed(Exec(actions).value, a)
    ensures Exec(actions + [a]) == Some(Next(Exec(actions).value, a))
  {
    assert (actions + [a])[..|actions|] == actions;
  }

  /** The steps that put one packet into a fresh queue and take it out. */
  function PutAndTake(pkt: Packet): seq<Action> {
    [Enter(pkt, 0)] + [TestRoom] + [Commit] + [Announce] + [TestEnabled] + [Take]
  }

  /** Such a run exists: one packet is put and taken, and then, before it is handed back, the time base
      changes. */
  lemma ClearWhileHolding(pkt: Packet)
    requires pkt.data != []
    ensures Exec(PutAndTake(pkt)).Some?
    ensures var w := Exec(PutAndTake(pkt)).value;
            w.consumer == Holding(pkt) && Returned(Rebased(w.queue, 1)).count == -1
  {
    hide Exec;
    NothingDone();
    var none: seq<Action> := [];
    ExecStep(none, Enter(pkt, 0));
    assert none + [Enter(pkt, 0)] == [Enter(pkt, 0)];
    ExecStep([Enter(pkt, 0)], TestRoom);
    ExecStep([Enter(pkt, 0)] + [TestRoom], Commit);
    ExecStep([Enter(pkt, 0)] + [TestRoom] + [Commit], Announce);
    ExecStep([Enter(pkt, 0)] + [TestRoom] + [Commit] + [Announce], TestEnabled);
    ExecStep([Enter(pkt, 0)] + [TestRoom] + [Commit] + [Announce] + [TestEnabled], Take);
  }

  lemma NothingDone()
    ensures Exec([]) == Some(Start())
  {
  }

  /** `PutVideo` called without interruption is the four steps of the producer in a row. */
  lemma PutIsItsSteps(w: World, pkt: Packet, startPts: nat)
    requires Inv(w) && Allowed(w, Enter(pkt, startPts))
    ensures var w1 := Next(w, Enter(pkt, startPts));
            var w2 := Next(w1, TestRoom);
            if w2.producer.Away? then w2.queue == Put(w.queue, pkt, startPts)
            else
              var w3 := Next(w2, Commit);
              if w3.producer.Away? then w3.queue == Put(w.queue, pkt, startPts)
              else InBounds(w3.queue) && Next(w3, Announce).queue == Put(w.queue, pkt, startPts)
  {
  }
}
