/** One hardware FIFO of `fifo.c`, seen from the processor: a bounded queue and its status bits. */
module HardwareFifos {
  import opened Basics

  /** What is left of `q` when the far end takes `n` bytes, or all there are. */
  function Without(q: seq<Byte>, n: nat): (rest: seq<Byte>)
    ensures |rest| == if n < |q| then |q| - n else 0
    ensures q[|q| - |rest|..] == rest
  {
    if n < |q| then q[n..] else []
  }

  /** Of the `removals` number `i` is the first that takes anything. */
  predicate FirstRemoval(removals: seq<nat>, i: nat) {
    i < |removals| && removals[i] > 0 && forall j :: 0 <= j < i ==> removals[j] == 0
  }

  class HardwareFifo {
    var contents: seq<Byte>

    ghost predicate Valid()
      reads this
    {
      |contents| <= FIFO_DEPTH
    }

    constructor ()
      ensures Valid() && contents == []
    {
      contents := [];
    }

    /** Bit 0 of the status register. */
    predicate Full(): (full: bool)
      reads this
      ensures Valid() ==> (full <==> |contents| == FIFO_DEPTH)
    {
      |contents| >= FIFO_DEPTH
    }

    /** Bit 1 of the status register. */
    predicate Empty()
      reads this
    {
      contents == []
    }

    /** A store to the data register; the hardware has no room to keep it when full. */
    method Store(b: Byte)
      requires Valid()
      modifies this
      ensures Valid()
      ensures contents == old(if |contents| == FIFO_DEPTH then contents else contents + [b])
    {
      if !Full() {
        contents := contents + [b];
      }
    }

    /** A load from the data register; what an empty FIFO returns is up to the hardware. */
    method Load(junk: Byte) returns (b: Byte)
      requires Valid()
      modifies this
      ensures Valid()
      ensures old(contents) == [] ==> b == junk && contents == []
      ensures old(contents) != [] ==> old(contents) == [b] + contents
    {
      if Empty() {
        b := junk;
      } else {
        b := contents[0];
        contents := contents[1..];
      }
    }

    /** `send_data_fifo`: 0 and the byte appended, or 1 and nothing changed. */
    method SendData(b: Byte) returns (status: int)
      requires Valid()
      modifies this
      ensures Valid()
      ensures |old(contents)| == FIFO_DEPTH ==> status == 1 && contents == old(contents)
      ensures |old(contents)| < FIFO_DEPTH ==> status == 0 && contents == old(contents) + [b]
    {
      if !Full() {
        Store(b);
        return 0;
      }
      return 1;
    }

    /** `read_data_fifo`: 0 and the oldest byte, or 1 and neither FIFO nor data changed. */
    method ReadData(data: Byte) returns (status: int, b: Byte)
      requires Valid()
      modifies this
      ensures Valid()
      ensures old(contents) == [] ==> status == 1 && b == data && contents == old(contents)
      ensures old(contents) != [] ==> status == 0 && old(contents) == [b] + contents
    {
      if !Empty() {
        b := Load(0);
        return 0, b;
      }
      return 1, data;
    }

    /**
     `write_fifo_blocking`; `removals[i]` is how many bytes the far end takes during the sleep
     after poll `i`. It gets through exactly when there is room or some removal makes room, and
     then the byte stands behind all bytes that the first such removal left.
     */
    method WriteBlocking(b: Byte, removals: seq<nat>) returns (through: bool)
      requires Valid()
      modifies this
      ensures Valid()
      ensures through <==> |old(contents)| < FIFO_DEPTH || exists i :: 0 <= i < |removals| && removals[i] > 0
      ensures |old(contents)| < FIFO_DEPTH ==> contents == old(contents) + [b]
      ensures through && |old(contents)| == FIFO_DEPTH ==>
                exists i: nat :: FirstRemoval(removals, i) && contents == Without(old(contents), removals[i]) + [b]
      ensures !through ==> contents == old(contents)
    {
      var i := 0;
      while Full() && i < |removals|
        invariant i <= |removals| && Valid()
        invariant Full() ==> contents == old(contents) && forall j :: 0 <= j < i ==> removals[j] == 0
        invariant !Full() ==> if i == 0 then contents == old(contents) && |contents| < FIFO_DEPTH
                              else |old(contents)| == FIFO_DEPTH && FirstRemoval(removals, i - 1)
                                   && contents == Without(old(contents), removals[i - 1])
      {
        contents := Without(contents, removals[i]);
        i := i + 1;
      }
      through := !Full();
      if through {
        ghost var left := contents;
        Store(b);
        assert contents == left + [b];
      }
    }

    /**
     `read_fifo_blocking`; `arrivals[i]` is what the link delivers during the sleep after poll
     `i`. It gets through exactly when some byte is or becomes there, and takes the oldest.
     */
    method ReadBlocking(arrivals: seq<seq<Byte>>) returns (through: bool, b: Byte)
      requires Valid() && forall a <- arrivals :: |a| <= FIFO_DEPTH
      modifies this
      ensures Valid()
      ensures through <==> old(contents) != [] || exists i :: 0 <= i < |arrivals| && arrivals[i] != []
      ensures through && old(contents) != [] ==> old(contents) == [b] + contents
      ensures through && old(contents) == [] ==>
                exists i :: 0 <= i < |arrivals| && arrivals[i] == [b] + contents
                            && forall j :: 0 <= j < i ==> arrivals[j] == []
      ensures !through ==> contents == []
    {
      var i := 0;
      b := 0;
      while Empty() && i < |arrivals|
        invariant i <= |arrivals| && Valid()
        invariant i == 0 ==> contents == old(contents)
        invariant i > 0 ==> old(Empty()) && contents == arrivals[i - 1]
        invariant forall j :: 0 <= j < i - 1 ==> arrivals[j] == []
      {
        contents := arrivals[i];
        i := i + 1;
      }
      through := !Empty();
      if through {
        b := Load(0);
        if old(Empty()) {
          assert arrivals[i - 1] == [b] + contents;
        }
      }
    }
  }
}
