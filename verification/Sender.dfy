/** The sender's loop (sender.cpp: Run): poll the queue, skip frames after a seek, send the others. */
module Sender {
  import opened Bytes
  import opened Datagrams
  import opened VideoQueue

  /** What the loop remembers: the time base last seen, the one seen in the round before, and how many
      frames are still to be skipped. */
  datatype Memory = Memory(seekPts: nat, seekOldPts: nat, skipCnt: nat)

  /** What a round finds: that no frame is due yet, or the queue's time base with or without a frame. */
  datatype Poll = NotDue | Empty(startPts: nat) | Got(startPts: nat, frame: Frame)

  /** The skip count a round works with: a change of the time base seen before resets it. */
  function Skipping(m: Memory, gop: nat): nat {
    if m.seekPts != m.seekOldPts then gop else m.skipCnt
  }

  function AfterRound(m: Memory, gop: nat, p: Poll): Memory {
    var skip := Skipping(m, gop);
    match p
    case NotDue => Memory(m.seekPts, m.seekPts, skip)
    case Empty(startPts) => Memory(startPts, m.seekPts, skip)
    case Got(startPts, _) => Memory(startPts, m.seekPts, if skip > 0 then skip - 1 else 0)
  }

  /** Whether the frame of this round goes out. */
  predicate IsSent(m: Memory, gop: nat, p: Poll) {
    p.Got? && Skipping(m, gop) == 0
  }

  /** One round of the loop; `due` stands for the comparison of the clocks. */
  class CSender {
    var m_seek_pts: nat
    var m_seek_old_pts: nat
    var skipCnt: nat

    constructor ()
      ensures Remembered() == Memory(0, 0, 0)
    {
      m_seek_pts, m_seek_old_pts, skipCnt := 0, 0, 0;
    }

    ghost function Remembered(): Memory
      reads this
    {
      Memory(m_seek_pts, m_seek_old_pts, skipCnt)
    }

    method RunOnce(queue: CQueue, socket: Socket, due: bool, gop: nat) returns (poll: Poll)
      requires queue.Valid()
      modifies this, queue, queue.m_pkt, socket
      ensures queue.Valid() && queue.m_pkt == old(queue.m_pkt)
      ensures poll == if !due then NotDue
                      else if old(queue.m_bEnable && CanTake(queue.Snapshot()))
                      then Got(old(queue.m_start_pts), old(queue.m_pkt[queue.m_nReadPos]).data)
                      else Empty(old(queue.m_start_pts))
      ensures queue.Snapshot() == if poll.Got? then Returned(Taken(old(queue.Snapshot()))) else old(queue.Snapshot())
      ensures Remembered() == AfterRound(old(Remembered()), gop, poll)
      ensures if IsSent(old(Remembered()), gop, poll) then
                var n := PacketCount(|poll.frame|);
                var k := Accepted(socket.accepts, old(socket.attempts), n);
                && socket.sent == old(socket.sent) + Fragments(poll.frame)[..k]
                && socket.attempts == old(socket.attempts) + k + if k == n then 0 else 1
              else socket.sent == old(socket.sent) && socket.attempts == old(socket.attempts)
    {
      if m_seek_pts != m_seek_old_pts {
        skipCnt := gop;
      }
      m_seek_old_pts := m_seek_pts;
      poll := NotDue;
      if due {
        var size, pkt, startPts := queue.GetVideo();
        m_seek_pts := startPts;
        poll := Empty(startPts);
        if size > 0 {
          poll := Got(startPts, pkt.data);
          if skipCnt > 0 {
            skipCnt := skipCnt - 1;
          } else {
            var sent := SendBitstream(socket, pkt.data);
          }
          queue.RetVideo();
        }
      }
    }
  }

  // ---------------------------------------------------------------- whole runs of the loop

  /** The frames taken in a sequence of rounds, and those sent. */
  function TakenFrames(polls: seq<Poll>): seq<Frame> {
    if polls == [] then []
    else (if polls[0].Got? then [polls[0].frame] else []) + TakenFrames(polls[1..])
  }

  function SentFrames(m: Memory, gop: nat, polls: seq<Poll>): seq<Frame>
    decreases polls
  {
    if polls == [] then []
    else (if IsSent(m, gop, polls[0]) then [polls[0].frame] else [])
         + SentFrames(AfterRound(m, gop, polls[0]), gop, polls[1..])
  }

  /** All rounds that look at the queue see this time base. */
  predicate SameBase(polls: seq<Poll>, startPts: nat) {
    forall p :: p in polls && !p.NotDue? ==> p.startPts == startPts
  }

  function DropFront(fs: seq<Frame>, n: nat): seq<Frame> {
    if n <= |fs| then fs[n..] else []
  }

  /** As long as the time base stays, exactly the frames still to be skipped are left out, at the front. */
  lemma {:induction false} SkipsAtTheFront(m: Memory, gop: nat, polls: seq<Poll>)
    requires m.seekPts == m.seekOldPts && SameBase(polls, m.seekPts)
    ensures SentFrames(m, gop, polls) == DropFront(TakenFrames(polls), m.skipCnt)
    decreases polls
  {
    if polls != [] {
      assert polls[0] in polls && forall p :: p in polls[1..] ==> p in polls;
      SkipsAtTheFront(AfterRound(m, gop, polls[0]), gop, polls[1..]);
    }
  }

  /** Without a seek no frame is left out. */
  lemma NoSeekSendsAll(gop: nat, polls: seq<Poll>)
    requires SameBase(polls, 0)
    ensures SentFrames(Memory(0, 0, 0), gop, polls) == TakenFrames(polls)
  {
    SkipsAtTheFront(Memory(0, 0, 0), gop, polls);
  }

  /** After a seek one group of pictures is skipped, counted from the round after the one that first sees
      the new time base, also when an earlier seek is still being skipped for. A frame that comes in the
      very round that sees the new time base is sent, unless that round is skipping. */
  lemma SeekSkipsOneGroup(m: Memory, gop: nat, first: Poll, polls: seq<Poll>)
    requires !first.NotDue? && first.startPts != m.seekPts && SameBase(polls, first.startPts)
    ensures SentFrames(m, gop, [first] + polls)
         == (if first.Got? && Skipping(m, gop) == 0 then [first.frame] else []) + DropFront(TakenFrames(polls), gop)
  {
    var m1 := AfterRound(m, gop, first);
    assert ([first] + polls)[1..] == polls;
    assert SentFrames(m, gop, [first] + polls)
        == (if IsSent(m, gop, first) then [first.frame] else []) + SentFrames(m1, gop, polls);
    ResetThenSkip(m1, gop, polls);
  }

  /** The round after the change starts to skip a whole group. */
  lemma ResetThenSkip(m: Memory, gop: nat, polls: seq<Poll>)
    requires m.seekPts != m.seekOldPts && SameBase(polls, m.seekPts)
    ensures SentFrames(m, gop, polls) == DropFront(TakenFrames(polls), gop)
  {
    if polls != [] {
      assert polls[0] in polls && forall p :: p in polls[1..] ==> p in polls;
      SkipsAtTheFront(AfterRound(m, gop, polls[0]), gop, polls[1..]);
    }
  }
}
