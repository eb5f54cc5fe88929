/**
 * The byte ring behind a pipe (`src/fs/pipe.rs`): 129 slots, of which 128 can hold data, with
 * `head` the next byte to read and `tail` the next slot to write.
 */
module Pipe {
  import opened Wrappers
  import Ring

  const RING_BUFFER_SIZE: nat := 129

  class PipeBuffer {
    const arr: array<bv8>
    var head: nat
    var tail: nat

    ghost predicate Valid()
      reads this
    {
      arr.Length == RING_BUFFER_SIZE && head < RING_BUFFER_SIZE && tail < RING_BUFFER_SIZE
    }

    /** The bytes written and not yet read, oldest first. */
    ghost function Contents(): seq<bv8>
      reads this, arr
      requires Valid()
    {
      Ring.Window(arr[..], head, tail)
    }

    /** `new`: a zeroed array with `head == tail == 0`, so nothing to read. */
    constructor ()
      ensures Valid() && fresh(arr) && head == 0 && tail == 0
      ensures Contents() == []
    {
      arr := new bv8[RING_BUFFER_SIZE](_ => 0);
      head := 0;
      tail := 0;
    }

    /** `is_empty`: `tail == head`, exactly when nothing is left to read. */
    function IsEmpty(): (b: bool)
      reads this, arr
      requires Valid()
      ensures b <==> Contents() == []
    {
      tail == head
    }

    /** `is_full`: `(tail + 1) % 129 == head`, exactly when 128 bytes are waiting. */
    function IsFull(): (b: bool)
      reads this, arr
      requires Valid()
      ensures b <==> |Contents()| == RING_BUFFER_SIZE - 1
    {
      (tail + 1) % 129 == head
    }

    /** `write`: store at `tail` and advance it, or `Err` with nothing changed when full. */
    method Write(byte: bv8) returns (r: Result<(), ()>)
      requires Valid()
      modifies this, arr
      ensures Valid()
      ensures r.Ok? <==> |old(Contents())| < RING_BUFFER_SIZE - 1
      ensures r.Ok? ==> Contents() == old(Contents()) + [byte]
      ensures r.Err? ==> unchanged(this) && unchanged(arr)
    {
      if !IsFull() {
        Ring.WindowPush(arr[..], head, tail, byte);
        arr[tail] := byte;
        tail := (tail + 1) % 129;
        r := Ok(());
      } else {
        r := Err(());
      }
    }

    /** `read`: the byte at `head`, which then advances, or `None` with nothing changed when empty. */
    method Read() returns (r: Option<bv8>)
      requires Valid()
      modifies this
      ensures Valid()
      ensures r.None? <==> old(Contents()) == []
      ensures r.Some? ==> r.value == old(Contents())[0] && Contents() == old(Contents())[1..]
      ensures r.None? ==> unchanged(this)
    {
      if !IsEmpty() {
        Ring.WindowPop(arr[..], head, tail);
        var c := arr[head];
        head := (head + 1) % 129;
        r := Some(c);
      } else {
        r := None;
      }
    }
  }

  /**
   * `ring_buffer_test`: 128 writes of `0, 1, …, 127` all succeed, a 129th fails, the reads give
   * the same bytes back in order, and one more read finds nothing.
   */
  method RingBufferTest() returns (written: nat, extra: Result<(), ()>, out: seq<bv8>, last: Option<bv8>)
    ensures written == RING_BUFFER_SIZE - 1 && extra.Err?
    ensures out == seq(RING_BUFFER_SIZE - 1, i requires 0 <= i < RING_BUFFER_SIZE - 1 => i as bv8)
    ensures last == None
  {
    var buffer := new PipeBuffer();
    ghost var expected := seq(RING_BUFFER_SIZE - 1, i requires 0 <= i < RING_BUFFER_SIZE - 1 => i as bv8);
    written := 0;
    while written < RING_BUFFER_SIZE - 1
      invariant written <= RING_BUFFER_SIZE - 1
      invariant buffer.Valid() && buffer.Contents() == expected[..written]
    {
      var r := buffer.Write(written as bv8);
      assert expected[..written] + [written as bv8] == expected[..written + 1];
      written := written + 1;
    }
    extra := buffer.Write(0);
    out := [];
    while |out| < RING_BUFFER_SIZE - 1
      invariant |out| <= RING_BUFFER_SIZE - 1
      invariant buffer.Valid() && out == expected[..|out|] && buffer.Contents() == expected[|out|..]
      decreases RING_BUFFER_SIZE - 1 - |out|
    {
      var c := buffer.Read();
      assert expected[..|out|] + [c.value] == expected[..|out| + 1];
      out := out + [c.value];
    }
    last := buffer.Read();
  }
}
