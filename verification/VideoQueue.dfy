/** The bounded ring between the demuxer and the sender (queue.cpp). */
module VideoQueue {
  import opened Bytes
  import opened Datagrams

  const MAX_NUM_QUEUE := 120

  /** An `AVPacket`: its data, whose length is its size, and its time stamp. */
  datatype Packet = Packet(data: Frame, pts: int)

  const EMPTY := Packet([], 0)

  /** The fields of the queue as a value. */
  datatype State = State(slots: seq<Packet>, read: int, write: int, count: int, enabled: bool, startPts: nat)

  predicate InBounds(s: State) {
    |s.slots| == MAX_NUM_QUEUE && 0 <= s.read < MAX_NUM_QUEUE && 0 <= s.write < MAX_NUM_QUEUE
  }

  function Advance(pos: int): int {
    if pos + 1 >= MAX_NUM_QUEUE then 0 else pos + 1
  }

  // ---------------------------------------------------------------- the steps

  function Initial(): State {
    State(seq(MAX_NUM_QUEUE, _ => EMPTY), 0, 0, 0, false, 0)
  }

  /** All slots emptied, positions and count reset, output disabled; the time base stays. */
  function Cleared(s: State): State {
    Initial().(startPts := s.startPts)
  }

  /** Entry of `PutVideo`: another time base clears the queue. */
  function Rebased(s: State, startPts: nat): State {
    (if s.startPts != startPts then Cleared(s) else s).(startPts := startPts)
  }

  predicate HasRoom(s: State) {
    s.count < MAX_NUM_QUEUE
  }

  /** The part of `PutVideo` under the mutex, for a packet that is not empty. */
  function Stored(s: State, pkt: Packet): State
    requires InBounds(s)
  {
    s.(slots := s.slots[s.write := pkt], write := Advance(s.write), count := s.count + 1)
  }

  /** The end of `PutVideo`: output starts unless the write position has just wrapped. */
  function Announced(s: State): State {
    if s.write > 0 then s.(enabled := true) else s
  }

  /** `GetVideo` under the mutex: the slot is emptied, but still counted. */
  function Taken(s: State): State
    requires InBounds(s)
  {
    s.(slots := s.slots[s.read := EMPTY])
  }

  predicate CanTake(s: State)
    requires InBounds(s)
  {
    s.slots[s.read].data != []
  }

  function Returned(s: State): State {
    s.(read := Advance(s.read), count := s.count - 1)
  }

  /** `PutVideo` without interruption. */
  function Put(s: State, pkt: Packet, startPts: nat): State
    requires InBounds(s)
  {
    var r := Rebased(s, startPts);
    if HasRoom(r) && pkt.data != [] then Announced(Stored(r, pkt)) else r
  }

  // ---------------------------------------------------------------- what the steps do, field by field

  /** With the time base unchanged, a packet that is not empty is stored while fewer than 120 are counted, at the
      write position, which goes round; output is switched on unless the position has just gone round. Otherwise
      nothing changes. */
  lemma PutExactly(s: State, pkt: Packet)
    requires InBounds(s)
    ensures var r := Put(s, pkt, s.startPts);
            if s.count < 120 && pkt.data != [] then
              r == State(s.slots[s.write := pkt], s.read, (s.write + 1) % 120, s.count + 1,
                         s.enabled || s.write != 119, s.startPts)
            else r == s
  {
  }

  /** With another time base the queue is emptied and its output switched off before the packet is stored. */
  lemma PutAfterRebase(s: State, pkt: Packet, startPts: nat)
    requires InBounds(s) && startPts != s.startPts
    ensures Put(s, pkt, startPts) == Put(State(seq(120, _ => Packet([], 0)), 0, 0, 0, false, startPts), pkt, startPts)
  {
  }

  /** Taking empties the slot at the read position and leaves the rest, the count included; handing back moves the
      read position round and lowers the count. */
  lemma TakeAndReturnExactly(s: State)
    requires InBounds(s)
    ensures Taken(s) == State(s.slots[s.read := Packet([], 0)], s.read, s.write, s.count, s.enabled, s.startPts)
    ensures Returned(s) == State(s.slots, (s.read + 1) % 120, s.write, s.count - 1, s.enabled, s.startPts)
  {
  }

  // ---------------------------------------------------------------- the class

  class CQueue {
    var m_pkt: array<Packet>
    var m_nReadPos: int
    var m_nWritePos: int
    var m_nPacket: int
    var m_bEnable: bool
    var m_start_pts: nat

    ghost predicate Valid()
      reads this, m_pkt
    {
      m_pkt.Length == MAX_NUM_QUEUE && InBounds(Snapshot())
    }

    ghost function Snapshot(): State
      reads this, m_pkt
    {
      State(m_pkt[..], m_nReadPos, m_nWritePos, m_nPacket, m_bEnable, m_start_pts)
    }

    constructor ()
      ensures Valid() && fresh(m_pkt) && Snapshot() == Initial()
    {
      m_pkt := new Packet[MAX_NUM_QUEUE](_ => EMPTY);
      m_nReadPos, m_nWritePos, m_nPacket := 0, 0, 0;
      m_bEnable, m_start_pts := false, 0;
      new;
      assert m_pkt[..] == Initial().slots;
    }

    method Clear()
      requires Valid()
      modifies this, m_pkt
      ensures Valid() && m_pkt == old(m_pkt) && Snapshot() == Cleared(old(Snapshot()))
    {
      for i := 0 to MAX_NUM_QUEUE
        invariant m_pkt == old(m_pkt) && m_pkt.Length == MAX_NUM_QUEUE && m_start_pts == old(m_start_pts)
        invariant forall k :: 0 <= k < i ==> m_pkt[k] == EMPTY
      {
        m_pkt[i] := EMPTY;
      }
      assert m_pkt[..] == Initial().slots;
      m_nReadPos, m_nWritePos := 0, 0;
      m_bEnable := false;
      m_nPacket := 0;
    }

    method PutVideo(pkt: Packet, startPts: nat) returns (size: int)
      requires Valid()
      modifies this, m_pkt
      ensures Valid() && m_pkt == old(m_pkt) && Snapshot() == Put(old(Snapshot()), pkt, startPts)
      ensures size == if HasRoom(Rebased(old(Snapshot()), startPts)) then |pkt.data| else 0
    {
      if m_start_pts != startPts {
        Clear();
      }
      m_start_pts := startPts;
      ghost var rebased := Snapshot();
      var retSize := 0;
      if MAX_NUM_QUEUE <= m_nPacket {
        return 0;
      }
      if |pkt.data| > 0 {
        m_pkt[m_nWritePos] := pkt;
        assert m_pkt[..] == rebased.slots[rebased.write := pkt];
        retSize := |m_pkt[m_nWritePos].data|;
        m_nWritePos := m_nWritePos + 1;
        if m_nWritePos >= MAX_NUM_QUEUE {
          m_nWritePos := 0;
        }
        m_nPacket := m_nPacket + 1;
        if m_nWritePos > 0 {
          m_bEnable := true;
        }
        return retSize;
      }
      return 0;
    }

    method GetVideo() returns (size: int, pkt: Packet, startPts: nat)
      requires Valid()
      modifies this, m_pkt
      ensures Valid() && m_pkt == old(m_pkt) && startPts == old(m_start_pts) && size == |pkt.data|
      ensures if old(m_bEnable && CanTake(Snapshot()))
              then pkt == old(m_pkt[m_nReadPos]) && Snapshot() == Taken(old(Snapshot()))
              else pkt == EMPTY && Snapshot() == old(Snapshot())
    {
      startPts := m_start_pts;
      pkt := EMPTY;
      if !m_bEnable {
        return 0, pkt, startPts;
      }
      if |m_pkt[m_nReadPos].data| > 0 {
        pkt := m_pkt[m_nReadPos];
        m_pkt[m_nReadPos] := EMPTY;
        assert m_pkt[..] == old(m_pkt[..])[m_nReadPos := EMPTY];
        return |pkt.data|, pkt, startPts;
      }
      size := 0;
    }

    method RetVideo()
      requires Valid()
      modifies this
      ensures Valid() && m_pkt == old(m_pkt) && Snapshot() == Returned(old(Snapshot()))
    {
      m_nReadPos := m_nReadPos + 1;
      if m_nReadPos >= MAX_NUM_QUEUE {
        m_nReadPos := 0;
      }
      m_nPacket := m_nPacket - 1;
    }
  }
}
