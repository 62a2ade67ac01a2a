// The shared queue of cereal/messaging/msgq.cc with its header and data arrays.
//
// `q` is the annotated view of the stored bytes; every method is proved against
// the function of MsgqAtomic that gives its whole effect on that view.

module MsgqQueue {
  import opened Words
  import opened MsgqRing
  import opened MsgqSteps
  import opened MsgqAtomic

  const NUM_READERS: nat := 10

  class SharedQueue {
    const size: nat
    const data: array<byte>
    /** Packed (cycles, offset) words, like writePointer. */
    const readPointers: array<nat>
    const readValids: array<bool>
    var writePointer: nat
    ghost var q: Queue

    /** The header and the data bytes are those of the annotated view. */
    ghost predicate Stored()
      reads this, data, readPointers, readValids
    {
      && q.ring.size == size == data.Length && q.ring.data == data[..]
      && writePointer < TWO_64 && Unpack(writePointer) == WritePtr(q)
      && |q.cursors| == readPointers.Length == readValids.Length <= NUM_READERS
      && forall i :: 0 <= i < |q.cursors| ==>
           && readPointers[i] < TWO_64 && Unpack(readPointers[i]) == q.cursors[i].ptr
           && q.cursors[i].valid == readValids[i]
    }

    ghost predicate Valid()
      reads this, data, readPointers, readValids
    {
      Stored() && Ok(q) && Settled(q.ring)
    }

    /** A fresh segment with its publisher and `readers` subscribers. */
    constructor (segment: nat, readers: nat)
      requires 8 <= segment < TWO_32 - 1 && readers <= NUM_READERS
      ensures Valid() && fresh(data) && fresh(readPointers) && fresh(readValids)
      ensures q.ring.sent == [] && q.laps == 0 && size == segment && readPointers.Length == readers
      ensures forall i :: 0 <= i < readers ==> InSync(q.ring, q.cursors[i]) && q.cursors[i].due == 0
    {
      size := segment;
      data := new byte[segment](_ => 0);
      readPointers := new nat[readers](_ => 0);
      readValids := new bool[readers](_ => true);
      writePointer := 0;
      new;
      q := Queue(Ring(segment, data[..], 0, [], map[], {}, {}, 0, 0), 0,
                 seq(readers, _ => Cursor(Ptr(0, 0), true, 0, 0)));
    }

    /** memcpy into the segment. */
    method StoreBytes(at: nat, bytes: seq<byte>)
      requires at + |bytes| <= data.Length
      modifies data
      ensures data[..] == Put(old(data[..]), at, bytes)
    {
      for i := 0 to |bytes|
        invariant forall k :: 0 <= k < i ==> data[at + k] == bytes[k]
        invariant forall k :: 0 <= k < data.Length && !(at <= k < at + i) ==> data[k] == old(data[k])
      {
        data[at + i] := bytes[i];
      }
      ghost var put := Put(old(data[..]), at, bytes);
      forall k | 0 <= k < data.Length ensures data[k] == put[k] {
        if at <= k < at + |bytes| {
          assert put[k] == put[at..at + |bytes|][k - at];
          assert data[at + (k - at)] == bytes[k - at];
        }
      }
    }

    /** Clears the flags of readers ahead of the write offset on another lap. */
    method InvalidateBeyond(wp: Ptr)
      requires readPointers.Length == readValids.Length
      modifies readValids
      ensures forall i :: 0 <= i < readValids.Length ==>
                readValids[i] == (old(readValids[i])
                    && !(Unpack(readPointers[i]).off > wp.off && Unpack(readPointers[i]).cycles != wp.cycles))
    {
      for i := 0 to readPointers.Length
        invariant forall k :: 0 <= k < i ==>
                    readValids[k] == (old(readValids[k])
                        && !(Unpack(readPointers[k]).off > wp.off && Unpack(readPointers[k]).cycles != wp.cycles))
        invariant forall k :: i <= k < readValids.Length ==> readValids[k] == old(readValids[k])
      {
        if Unpack(readPointers[i]).off > wp.off && Unpack(readPointers[i]).cycles != wp.cycles {
          readValids[i] := false;
        }
      }
    }

    /** Clears the flags of readers of another lap inside the area about to be written. */
    method InvalidateRange(wp: Ptr, end: nat)
      requires readPointers.Length == readValids.Length
      modifies readValids
      ensures forall i :: 0 <= i < readValids.Length ==>
                readValids[i] == (old(readValids[i])
                    && !(wp.off <= Unpack(readPointers[i]).off < end && Unpack(readPointers[i]).cycles != wp.cycles))
    {
      for i := 0 to readPointers.Length
        invariant forall k :: 0 <= k < i ==>
                    readValids[k] == (old(readValids[k])
                      && !(wp.off <= Unpack(readPointers[k]).off < end && Unpack(readPointers[k]).cycles != wp.cycles))
        invariant forall k :: i <= k < readValids.Length ==> readValids[k] == old(readValids[k])
      {
        if wp.off <= Unpack(readPointers[i]).off < end && Unpack(readPointers[i]).cycles != wp.cycles {
          readValids[i] := false;
        }
      }
    }

    /** The wraparound: tag, first scan, new lap. */
    method StartNextLap()
      requires Stored() && q.ring.off + 8 <= size
      modifies this, data, readValids
      ensures Stored() && q == SendWrap(old(q))
    {
      var wp := Unpack(writePointer);
      StoreBytes(wp.off, EncodeInt64(WRAP_TAG));
      InvalidateBeyond(wp);
      var next := Ptr((wp.cycles + 1) % TWO_32, 0);
      PackRoundTrip(next);
      writePointer := Pack(next);
      NextLap(WritePtr(q), q.laps);
      q := SendWrap(q);
    }

    /** The size tag and the bytes. */
    method StoreRecord(off: nat, msg: seq<byte>)
      requires q.ring.data == data[..] && q.ring.off == off && Message(msg) && off + Footprint(msg) <= data.Length
      modifies data
      ensures data[..] == Written(q.ring, msg).data
    {
      StoreBytes(off, EncodeInt64(|msg|));
      StoreBytes(off + 8, msg);
    }

    /** The second scan, the message, and the new write pointer. */
    method StoreMessage(msg: seq<byte>)
      requires Stored() && Message(msg) && q.ring.off % 8 == 0
      requires q.ring.off + Footprint(msg) + 8 <= size < TWO_32
      modifies this, data, readValids
      ensures Stored() && q == SendAt(old(q), msg)
    {
      hide Put, EncodeInt64, Align, Unpack, Pack;
      var wp := Unpack(writePointer);
      EndOfIsFootprint(msg, wp);
      InvalidateRange(wp, Align(wp.off + 8 + |msg|));
      StoreRecord(wp.off, msg);
      var next := Ptr(wp.cycles, Align(wp.off + |msg| + 8) % TWO_32);
      PackRoundTrip(next);
      writePointer := Pack(next);
      q := SendAt(q, msg);
    }

    method Send(msg: seq<byte>) returns (sent: nat)
      requires Valid() && SendRequires(q, msg)
      modifies this, data, readValids
      ensures Valid() && sent == |msg| && Message(msg)
      ensures q == MsgqAtomic.Send(old(q), msg)
    {
      SendableFits(q.ring, msg);
      SendKeeps(q, msg);
      var total := Align(|msg| + 8);
      if size - Unpack(writePointer).off - total - 8 <= 0 {
        StartNextLap();
      }
      StoreMessage(msg);
      sent := |msg|;
    }

    /** memcpy out of the segment. */
    method LoadBytes(at: nat, count: nat) returns (bytes: seq<byte>)
      requires at + count <= data.Length
      ensures bytes == data[at..at + count]
    {
      bytes := [];
      for i := 0 to count
        invariant bytes == data[at..at + i]
      {
        bytes := bytes + [data[at + i]];
      }
    }

    /** Revalidates a reader whose flag was cleared. */
    method ResetReader(id: nat)
      requires Valid() && id < readPointers.Length
      modifies this`q, readPointers, readValids
      ensures Valid()
      ensures q == old(q).(cursors := old(q).cursors[id := Synced(old(q).ring, old(q).laps)])
    {
      readValids[id] := true;
      readPointers[id] := writePointer;
      ResetKeeps(q.ring, q.laps, q.cursors[id]);
      q := q.(cursors := q.cursors[id := Synced(q.ring, q.laps)]);
    }

    method Ready(id: nat) returns (ready: bool)
      requires Valid() && id < readPointers.Length
      modifies this`q, readPointers, readValids
      ensures Valid()
      ensures ready <==> MsgqAtomic.Ready(old(q).ring, old(q).cursors[id])
      ensures Callable(old(q), ReadyCall(id)) && q == Apply(old(q), ReadyCall(id)) && readValids[id]
    {
      if !readValids[id] {
        ResetReader(id);
      } else {
        assert q.cursors[id := q.cursors[id]] == q.cursors;
      }
      ready := Unpack(readPointers[id]).off != Unpack(writePointer).off;
    }

    /** Moves the pointer of a valid reader. */
    method StorePointer(id: nat, next: Ptr, ghost c: Cursor)
      requires Valid() && id < readPointers.Length && readValids[id]
      requires next.cycles < TWO_32 && next.off < TWO_32
      requires c.ptr == next && c.valid && CursorOk(q.ring, q.laps, c)
      modifies this`q, readPointers
      ensures Valid() && q == old(q).(cursors := old(q).cursors[id := c])
    {
      hide Inv, CursorOk, Unpack, Pack;
      PackRoundTrip(next);
      readPointers[id] := Pack(next);
      q := q.(cursors := q.cursors[id := c]);
    }

    /** One pass of the goto loop; `again` says that it jumps back to the start. */
    method Pass(id: nat, conflate: bool) returns (again: bool, msg: Option<seq<byte>>)
      requires Valid() && id < readPointers.Length
      modifies this`q, readPointers, readValids
      ensures Valid()
      ensures var o := Attempt(old(q).ring, old(q).laps, old(q).cursors[id], conflate);
              && q == old(q).(cursors := old(q).cursors[id := o.c])
              && again == o.Again? && (o.Return? ==> msg == o.msg)
    {
      hide Inv, CursorOk, Block, Chained, Unpack, Pack;
      ghost var c := q.cursors[id];
      AttemptKeeps(q.ring, q.laps, c, conflate);
      msg := None;
      if !readValids[id] {
        ResetReader(id);
        return true, None;
      }
      var rp, wp := Unpack(readPointers[id]), Unpack(writePointer);
      if rp.off == wp.off {
        assert q.cursors == q.cursors[id := c];
        return false, None;
      }
      FoundTag(q.ring, q.laps, c);
      var tag := LoadBytes(rp.off, 8);
      var msgSize := DecodeInt64(tag);
      var next := rp;
      if msgSize == WRAP_TAG {
        next := Ptr((rp.cycles + 1) % TWO_32, 0);
        again := true;
      } else {
        assert 0 < msgSize < size;
        next := Ptr(rp.cycles, NextRead(rp, msgSize));
        again := conflate && next.off != wp.off;
        if !again {
          var bytes := LoadBytes(rp.off + 8, msgSize);
          msg := Some(bytes);
        }
      }
      UnpackedFits(readPointers[id]);
      StorePointer(id, next, Attempt(q.ring, q.laps, c, conflate).c);
    }

    method Recv(id: nat, conflate: bool) returns (msg: Option<seq<byte>>)
      requires Valid() && id < readPointers.Length
      modifies this`q, readPointers, readValids
      ensures Valid()
      ensures var (c, m) := MsgqAtomic.Recv(old(q).ring, old(q).laps, old(q).cursors[id], conflate);
              q == old(q).(cursors := old(q).cursors[id := c]) && msg == m
    {
      ghost var goal := MsgqAtomic.Recv(q.ring, q.laps, q.cursors[id], conflate);
      var again := true;
      msg := None;
      while again
        invariant Valid() && id < |q.cursors|
        invariant q == old(q).(cursors := old(q).cursors[id := q.cursors[id]])
        invariant if again then goal == MsgqAtomic.Recv(q.ring, q.laps, q.cursors[id], conflate)
                  else goal == (q.cursors[id], msg)
        decreases again, if q.cursors[id].valid then 0 else 1,
                  |q.ring.sent| - Next(q.ring, q.cursors[id].ptr.off), OnWrap(q.ring, q.cursors[id])
      {
        AttemptKeeps(q.ring, q.laps, q.cursors[id], conflate);
        NextBounded(q.ring, q.cursors[id].ptr.off);
        again, msg := Pass(id, conflate);
      }
    }

    /** When this answers yes, no valid reader has anything left to read. */
    method AllReadersUpdated() returns (updated: bool)
      requires Valid()
      ensures updated <==>
          && readPointers.Length > 0
          && forall i :: 0 <= i < |q.cursors| && q.cursors[i].valid ==> q.cursors[i].ptr == WritePtr(q)
      ensures updated ==> forall i :: 0 <= i < |q.cursors| && q.cursors[i].valid ==>
          Next(q.ring, q.cursors[i].ptr.off) == |q.ring.sent|
    {
      for i := 0 to readPointers.Length
        invariant forall k :: 0 <= k < i && q.cursors[k].valid ==> q.cursors[k].ptr == WritePtr(q)
      {
        if readValids[i] && writePointer != readPointers[i] {
          return false;
        }
      }
      updated := readPointers.Length > 0;
    }
  }
}
