/** The sender's cycle on top of the queue: take a packet, send its datagrams, give the packet back. */
module Delivery {
  import opened Bytes
  import opened Datagrams
  import opened VideoQueue
  import opened QueueProtocol

  /** The queue with its threads, the datagrams sent so far, and how many of them belong to the packet
      being sent. */
  datatype System = System(world: World, wire: seq<Text>, part: nat)

  datatype Step = QueueStep(action: Action) | SendOne

  function Begin(): System {
    System(Start(), [], 0)
  }

  /** No seek: the time base never changes. Every send succeeds, so a packet is given back when all its
      datagrams are out. */
  predicate CanStep(s: System, t: Step) {
    match t
    case QueueStep(a) =>
      && InBounds(s.world.queue) && Allowed(s.world, a)
      && (a.Enter? ==> a.startPts == s.world.queue.startPts)
      && (a.Return? ==> s.part == PacketCount(|s.world.consumer.pkt.data|))
    case SendOne =>
      s.world.consumer.Holding? && s.part < PacketCount(|s.world.consumer.pkt.data|)
  }

  function After(s: System, t: Step): System
    requires CanStep(s, t)
  {
    match t
    case QueueStep(a) =>
      System(Next(s.world, a), s.wire, if a.Take? then 0 else s.part)
    case SendOne =>
      System(s.world, s.wire + [Datagram(s.world.consumer.pkt.data, s.part)], s.part + 1)
  }

  function Play(steps: seq<Step>): Option<System> {
    if steps == [] then Some(Begin())
    else
      match Play(steps[..|steps| - 1])
      case None => None
      case Some(s) =>
        if CanStep(s, steps[|steps| - 1]) then Some(After(s, steps[|steps| - 1])) else None
  }

  // ---------------------------------------------------------------- the receiving end

  /** Frames from a stream of datagrams: the first one says how many belong to its frame; an incomplete
      frame at the end is not there yet. */
  function Deframe(wire: seq<Text>): seq<Text> {
    if wire == [] || !HasHeader(wire[0]) || TotPacket(wire[0]) == 0 || TotPacket(wire[0]) > |wire| then []
    else
      match Reassemble(wire[..TotPacket(wire[0])])
      case None => []
      case Some(f) => [f] + Deframe(wire[TotPacket(wire[0])..])
  }

  /** The frames of packets, and the datagrams of frames one after the other. */
  function Frames(packets: seq<Packet>): (fs: seq<Frame>)
    ensures |fs| == |packets|
  {
    if packets == [] then [] else Frames(packets[..|packets| - 1]) + [packets[|packets| - 1].data]
  }

  function AllFragments(fs: seq<Frame>): seq<Text> {
    if fs == [] then [] else AllFragments(fs[..|fs| - 1]) + Fragments(fs[|fs| - 1])
  }

  lemma {:induction false} AllFragmentsFront(f: Frame, fs: seq<Frame>)
    ensures AllFragments([f] + fs) == Fragments(f) + AllFragments(fs)
  {
    hide Fragments;
    var all := [f] + fs;
    var before := all[..|all| - 1];
    assert AllFragments(all) == AllFragments(before) + Fragments(all[|all| - 1]);
    if fs == [] {
      assert before == [] && all[|all| - 1] == f;
    } else {
      assert before == [f] + fs[..|fs| - 1] && all[|all| - 1] == fs[|fs| - 1];
      AllFragmentsFront(f, fs[..|fs| - 1]);
      Assoc(Fragments(f), AllFragments(fs[..|fs| - 1]), Fragments(fs[|fs| - 1]));
    }
  }

  lemma DeframeOne(f: Frame, rest: seq<Text>)
    requires f != []
    ensures Deframe(Fragments(f) + rest) == [f] + Deframe(rest)
  {
    hide Reassemble, Datagram;
    var n := PacketCount(|f|);
    var wire := Fragments(f) + rest;
    HeaderFields(f, 0);
    assert wire[0] == Fragments(f)[0] == Datagram(f, 0);
    assert wire[..n] == Fragments(f) && wire[n..] == rest;
    ReassembleAnyOrder(wire[..n], f);
  }

  lemma DeframePartial(f: Frame, k: nat)
    requires k < PacketCount(|f|)
    ensures Deframe(Fragments(f)[..k]) == []
  {
    hide Reassemble, Datagram;
    if k > 0 {
      HeaderFields(f, 0);
      assert Fragments(f)[..k][0] == Datagram(f, 0);
    }
  }

  /** Complete frames come out, one by one; what is left over is kept back. */
  lemma {:induction false} DeframeAll(fs: seq<Frame>, rest: seq<Text>)
    requires forall f :: f in fs ==> f != []
    ensures Deframe(AllFragments(fs) + rest) == fs + Deframe(rest)
  {
    hide Deframe, Fragments;
    if fs == [] {
      assert AllFragments(fs) + rest == rest;
    } else {
      var f, more := fs[0], fs[1..];
      assert fs == [f] + more;
      AllFragmentsFront(f, more);
      assert AllFragments(fs) + rest == Fragments(f) + (AllFragments(more) + rest);
      assert f in fs && forall g :: g in more ==> g in fs;
      DeframeOne(f, AllFragments(more) + rest);
      DeframeAll(more, rest);
    }
  }

  // ---------------------------------------------------------------- the invariant

  /** The packets handed out whose datagrams are not all out yet are at most the one held. */
  function Finished(w: World): seq<Packet> {
    var all := Of(w.delivered, 0);
    if w.consumer.Holding? && all != [] then all[..|all| - 1] else all
  }

  function Begun(s: System): seq<Text> {
    if s.world.consumer.Holding? && s.part <= PacketCount(|s.world.consumer.pkt.data|)
    then Fragments(s.world.consumer.pkt.data)[..s.part] else []
  }

  ghost predicate Steady(s: System) {
    && Inv(s.world) && s.world.epoch == 0
    && (s.world.consumer.Holding? ==> s.part <= PacketCount(|s.world.consumer.pkt.data|))
    && (forall p :: p in Of(s.world.delivered, 0) ==> p.data != [])
    && s.wire == AllFragments(Frames(Finished(s.world))) + Begun(s)
  }

  lemma HeldIsLast(w: World)
    requires Inv(w) && w.epoch == 0 && w.consumer.Holding?
    ensures Of(w.delivered, 0) == Finished(w) + [w.consumer.pkt]
  {
    var d := w.delivered;
    assert d == d[..|d| - 1] + [d[|d| - 1]];
    OfAppend(d[..|d| - 1], d[|d| - 1], 0);
  }

  lemma SendOneKeeps(s: System)
    requires Steady(s) && CanStep(s, SendOne)
    ensures Steady(After(s, SendOne))
  {
    hide Inv, Datagram;
    var f := s.world.consumer.pkt.data;
    assert Fragments(f)[..s.part + 1] == Fragments(f)[..s.part] + [Datagram(f, s.part)];
  }

  lemma ReturnKeeps(s: System)
    requires Steady(s) && CanStep(s, QueueStep(Return))
    ensures Steady(After(s, QueueStep(Return)))
  {
    hide Fragments, Inv;
    StepKeepsInv(s.world, Return);
    HeldIsLast(s.world);
    var f, done := s.world.consumer.pkt.data, Finished(s.world);
    assert (done + [s.world.consumer.pkt])[..|done|] == done;
    assert (Frames(done) + [f])[..|done|] == Frames(done);
    assert Fragments(f)[..s.part] == Fragments(f);
  }

  lemma TakeKeeps(s: System)
    requires Steady(s) && CanStep(s, QueueStep(Take))
    ensures Steady(After(s, QueueStep(Take)))
  {
    hide Inv, Fragments, Of, Frames, AllFragments;
    StepKeepsInv(s.world, Take);
    var w, r := s.world, Next(s.world, Take);
    if CanTake(w.queue) {
      OfAppend(w.delivered, Entry(w.epoch, w.queue.slots[w.queue.read]), 0);
      assert Finished(r) == Of(w.delivered, 0);
    }
  }

  lemma OtherStepKeeps(s: System, a: Action)
    requires Steady(s) && CanStep(s, QueueStep(a)) && !a.Return? && !a.Take?
    ensures Steady(After(s, QueueStep(a)))
  {
    hide Inv, Of, Fragments;
    StepKeepsInv(s.world, a);
    var r := Next(s.world, a);
    assert r.delivered == s.world.delivered;
    assert r.consumer.Holding? <==> s.world.consumer.Holding?;
  }

  lemma StepKeepsSteady(s: System, t: Step)
    requires Steady(s) && CanStep(s, t)
    ensures Steady(After(s, t))
  {
    hide Steady, CanStep, After;
    match t {
      case SendOne => SendOneKeeps(s);
      case QueueStep(a) =>
        if a.Return? {
          ReturnKeeps(s);
        } else if a.Take? {
          TakeKeeps(s);
        } else {
          OtherStepKeeps(s, a);
        }
    }
  }

  lemma {:induction false} PlayKeepsSteady(steps: seq<Step>)
    ensures Play(steps).Some? ==> Steady(Play(steps).value)
  {
    hide Steady, CanStep, After;
    if steps == [] {
      BeginIsSteady();
    } else if Play(steps).Some? {
      PlayKeepsSteady(steps[..|steps| - 1]);
      StepKeepsSteady(Play(steps[..|steps| - 1]).value, steps[|steps| - 1]);
    }
  }

  lemma BeginIsSteady()
    ensures Steady(Begin())
  {
    hide Inv;
    StartInv();
  }

  lemma {:induction false} FramesOfPrefix(a: seq<Packet>, b: seq<Packet>)
    requires a <= b
    ensures Frames(a) <= Frames(b)
  {
    if |a| < |b| {
      FramesOfPrefix(a, b[..|b| - 1]);
    } else {
      assert a == b;
    }
  }

  /** What the receiving end has: the finished frames, and the held one when all of it is out. */
  lemma DeframeSteady(s: System)
    requires Steady(s)
    ensures Deframe(s.wire) == Frames(Finished(s.world))
         || (s.world.consumer.Holding? && Deframe(s.wire) == Frames(Of(s.world.delivered, 0)))
  {
    hide Inv, Deframe, Fragments;
    var w := s.world;
    var all, done := Of(w.delivered, 0), Finished(w);
    assert forall p :: p in done ==> p in all;
    FramesAreData(done);
    DeframeAll(Frames(done), Begun(s));
    NothingToDeframe();
    if w.consumer.Holding? {
      HeldIsLast(w);
      var f := w.consumer.pkt.data;
      assert w.consumer.pkt in all && f != [];
      assert all[..|all| - 1] == done && all[|all| - 1] == w.consumer.pkt;
      assert Frames(all) == Frames(done) + [f];
      if s.part < PacketCount(|f|) {
        DeframePartial(f, s.part);
      } else {
        assert Fragments(f)[..s.part] == Fragments(f) + [];
        DeframeOne(f, []);
      }
    }
  }

  lemma NothingToDeframe()
    ensures Deframe([]) == []
  {
  }

  /** From the producer to the receiving end, over every run without a seek and with every send
      succeeding: the frames that can be put together from the datagrams are a front part of the frames
      accepted, in order; once the queue counts no packet they are all of them. */
  lemma EndToEnd(steps: seq<Step>)
    ensures Play(steps).Some? ==>
              var s := Play(steps).value;
              var accepted := Frames(Of(s.world.accepted, 0));
              && Deframe(s.wire) <= accepted
              && (s.world.queue.count == 0 ==> Deframe(s.wire) == accepted)
  {
    hide Play, Deframe, Begun;
    PlayKeepsSteady(steps);
    if Play(steps).Some? {
      DeframeSteady(Play(steps).value);
      AcceptedFrames(Play(steps).value.world);
    }
  }

  lemma AcceptedFrames(w: World)
    requires Inv(w) && w.epoch == 0
    ensures Frames(Finished(w)) <= Frames(Of(w.accepted, 0))
    ensures Frames(Of(w.delivered, 0)) <= Frames(Of(w.accepted, 0))
    ensures w.queue.count == 0 ==> !w.consumer.Holding? && Frames(Finished(w)) == Frames(Of(w.accepted, 0))
  {
    hide Occupied, Visibility;
    var all, accepted := Of(w.delivered, 0), Of(w.accepted, 0);
    assert all <= accepted;
    FramesOfPrefix(all, accepted);
    FramesOfPrefix(Finished(w), accepted);
    if w.queue.count == 0 {
      assert Waiting(w.queue, 0) == [];
    }
  }

  lemma {:induction false} FramesAreData(ps: seq<Packet>)
    requires forall p :: p in ps ==> p.data != []
    ensures forall f :: f in Frames(ps) ==> f != []
  {
    if ps != [] {
      assert ps[|ps| - 1] in ps;
      FramesAreData(ps[..|ps| - 1]);
    }
  }
}
