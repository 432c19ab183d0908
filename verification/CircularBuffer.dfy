/** The circular buffer of `buffer.c`, updated in place. */
module CircularBuffers {
  import opened Basics
  import opened MachineInts
  import opened Ring

  class CircularBuffer {
    var buffer: array<Byte>
    var head: nat
    var tail: nat
    var max: nat
    var full: bool

    /** The buffer's fields as a value. */
    ghost function Snap(): Ring
      reads this, buffer
    {
      Ring(buffer[..], head, tail, full)
    }

    ghost predicate Valid()
      reads this, buffer
    {
      max == buffer.Length && Snap().Valid()
    }

    /** The unread bytes, oldest first. */
    ghost function Queue(): seq<Byte>
      requires Valid()
      reads this, buffer
    {
      Snap().Queue()
    }

    /**
     `init_buffer`; the cells keep whatever the allocation left in them. The buffer is usable if
     and only if the size is positive and an `int` can hold it.
     */
    constructor (size: nat)
      requires size < TWO_32
      ensures fresh(buffer) && buffer.Length == max == size
      ensures head == tail == 0 && !full
      ensures Valid() <==> 0 < size < TWO_31
      ensures Valid() ==> Queue() == []
    {
      buffer := new Byte[size];
      head := 0;
      tail := 0;
      full := false;
      max := size;
    }

    /**
     `send_data_buffer`: for every length, even past `max`, the bytes written one by one; the sum
     it compares with `max` does not overflow.
     */
    method SendData(data: seq<Byte>)
      requires Valid() && |data| < TWO_31
      modifies this, buffer
      ensures Valid() && buffer == old(buffer) && max == old(max)
      ensures Snap() == Write(old(Snap()), data)
      ensures |data| + old(head) < TWO_32
      decreases |data|
    {
      ghost var was := Snap();
      if SizeT(|data| + head) > max {
        var split := SizeT(max - head);
        WriteSplit(was, data, split);
        SendData(data[..split]);
        SendData(data[split..]);
      } else {
        forall i | 0 <= i < |data| {
          buffer[head + i] := data[i];
        }
        assert buffer[..] == Overlay(was.cells, was.head, data);
        if data == [] {
          assert buffer[..] == was.cells;
        } else {
          PutSegment(was, data);
        }
        WrapIsModulo(head + |data|, max);
        head := (head + |data|) % max;
        full := head == tail;
      }
    }

    /** `read_data_buffer`: returns the byte under `tail`, whether or not it is unread. */
    method ReadData() returns (b: Byte)
      requires Valid()
      modifies this
      ensures Valid() && buffer == old(buffer) && max == old(max)
      ensures b == old(buffer[tail])
      ensures Snap() == Take(old(Snap()))
      ensures old(Queue()) != [] ==> old(Queue()) == [b] + Queue()
    {
      TakeRemovesExactlyWhen(Snap());
      b := buffer[tail];
      WrapIsModulo(tail + 1, max);
      tail := (tail + 1) % max;
      full := false;
    }

    /** `get_space`: the free space. */
    method GetSpace() returns (space: int)
      requires Valid()
      ensures space == max - |Queue()| == Space(Snap())
    {
      SpaceIsFree(Snap());
      if full {
        return 0;
      } else if head < tail {
        return CInt(SizeT(max - SizeT(SizeT(head + max) - tail)));
      } else {
        return CInt(SizeT(max - SizeT(head - tail)));
      }
    }

    /** `fill_level`: the number of unread bytes. */
    method FillLevel() returns (used: int)
      requires Valid()
      ensures used == |Queue()|
    {
      var space := GetSpace();
      used := CInt(SizeT(max - SizeT(space)));
    }

    /** `buffer_is_empty`. */
    method IsEmpty() returns (empty: bool)
      requires Valid()
      ensures empty <==> Queue() == []
    {
      var space := GetSpace();
      empty := SizeT(space) == max;
    }
  }
}
