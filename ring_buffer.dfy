/**
 * The 32-slot ring of `src/tools/ring_buffer.rs` and the two ends of a channel built on it. The
 * atomic loads and stores are modelled as plain field accesses.
 */
module ToolsRingBuffer {
  import opened Wrappers
  import Ring

  const RING_BUFFER_SIZE: nat := 32

  class RingBuffer<T(0)> {
    const buf: array<T>
    var head: nat
    var tail: nat

    ghost predicate Valid()
      reads this
    {
      buf.Length == RING_BUFFER_SIZE && head < RING_BUFFER_SIZE && tail < RING_BUFFER_SIZE
    }

    /** The items written and not yet read, oldest first. */
    ghost function Contents(): seq<T>
      reads this, buf
      requires Valid()
    {
      Ring.Window(buf[..], head, tail)
    }

    /** `new`: `head == tail == 0`, so the ring is empty. */
    constructor ()
      ensures Valid() && fresh(buf) && head == 0 && tail == 0
      ensures Contents() == []
    {
      buf := new T[RING_BUFFER_SIZE];
      head := 0;
      tail := 0;
    }

    function Capacity(): (c: nat)
      reads this
    {
      buf.Length
    }

    /** `len`: `(cap + tail - head) % cap`, the number of items waiting, at most `cap - 1`. */
    function Len(): (n: nat)
      reads this, buf
      requires Valid()
      ensures n == |Contents()| && n <= RING_BUFFER_SIZE - 1
    {
      (Capacity() + tail - head) % 32
    }

    /** `is_empty`: `tail == head`. */
    function IsEmpty(): (b: bool)
      reads this, buf
      requires Valid()
      ensures b <==> Contents() == []
    {
      tail == head
    }

    /** `is_full`: `(tail + 1) % cap == head`, exactly when 31 items wait. */
    function IsFull(): (b: bool)
      reads this, buf
      requires Valid()
      ensures b <==> |Contents()| == RING_BUFFER_SIZE - 1
    {
      (tail + 1) % Capacity() == head
    }

    /** `write`: store at `tail` and advance it (`None`), or hand the item back when full. */
    method Write(data: T) returns (r: Option<T>)
      requires Valid()
      modifies this, buf
      ensures Valid()
      ensures r.None? <==> |old(Contents())| < RING_BUFFER_SIZE - 1
      ensures r.None? ==> Contents() == old(Contents()) + [data]
      ensures r.Some? ==> r.value == data && unchanged(this) && unchanged(buf)
    {
      var trail := tail;
      var newTrail := (trail + 1) % Capacity();
      if newTrail != head {
        Ring.WindowPush(buf[..], head, tail, data);
        buf[trail] := data;
        tail := newTrail;
        r := None;
      } else {
        r := Some(data);
      }
    }

    /** `read`: the oldest item, and `head` advances; `None` when empty. */
    method Read() returns (r: Option<T>)
      requires Valid()
      modifies this
      ensures Valid()
      ensures r.None? <==> old(Contents()) == []
      ensures r.Some? ==> r.value == old(Contents())[0] && Contents() == old(Contents())[1..]
      ensures r.None? ==> unchanged(this)
    {
      var h := head;
      if h != tail {
        Ring.WindowPop(buf[..], head, tail);
        var c := buf[h];
        head := (h + 1) % Capacity();
        r := Some(c);
      } else {
        r := None;
      }
    }
  }

  class Sender<T(0)> {
    const rb: RingBuffer<T>

    constructor (rb: RingBuffer<T>)
      ensures this.rb == rb
    {
      this.rb := rb;
    }

    /** `try_send`: one `write`. */
    method TrySend(data: T) returns (r: Option<T>)
      requires rb.Valid()
      modifies rb, rb.buf
      ensures rb.Valid()
      ensures r.None? <==> |old(rb.Contents())| < RING_BUFFER_SIZE - 1
      ensures r.None? ==> rb.Contents() == old(rb.Contents()) + [data]
      ensures r.Some? ==> r.value == data && unchanged(rb) && unchanged(rb.buf)
    {
      r := rb.Write(data);
    }

    /** `available`: `cap - len - 1`, the number of items that still fit. */
    function Available(): (n: nat)
      reads this, rb, rb.buf
      requires rb.Valid()
      ensures n + |rb.Contents()| == RING_BUFFER_SIZE - 1
    {
      rb.Capacity() - rb.Len() - 1
    }
  }

  class Reciver<T(0)> {
    const rb: RingBuffer<T>

    constructor (rb: RingBuffer<T>)
      ensures this.rb == rb
    {
      this.rb := rb;
    }

    /** `try_recv`: one `read`. */
    method TryRecv() returns (r: Option<T>)
      requires rb.Valid()
      modifies rb
      ensures rb.Valid()
      ensures r.None? <==> old(rb.Contents()) == []
      ensures r.Some? ==> r.value == old(rb.Contents())[0] && rb.Contents() == old(rb.Contents())[1..]
      ensures r.None? ==> unchanged(rb)
    {
      r := rb.Read();
    }

    /** `available`: `len`, the number of items waiting. */
    function Available(): (n: nat)
      reads this, rb, rb.buf
      requires rb.Valid()
      ensures n == |rb.Contents()|
    {
      rb.Len()
    }
  }

  /** `channel`: both ends share one new, empty ring. */
  method Channel<T(0)>() returns (rx: Reciver<T>, tx: Sender<T>)
    ensures fresh(rx) && fresh(tx) && fresh(rx.rb) && fresh(rx.rb.buf) && rx.rb == tx.rb
    ensures rx.rb.Valid() && rx.rb.Contents() == []
  {
    var rb := new RingBuffer<T>();
    rx := new Reciver(rb);
    tx := new Sender(rb);
  }

  /**
   * `channel_test` (kept in the source as a comment): a new channel has nothing to receive and 31
   * free slots; after one send, one item waits and 30 slots are free.
   */
  method ChannelTest() returns (rx0: nat, tx0: nat, rx1: nat, tx1: nat)
    ensures rx0 == 0 && tx0 == RING_BUFFER_SIZE - 1
    ensures rx1 == 1 && tx1 == RING_BUFFER_SIZE - 2
  {
    var rx: Reciver<bv8>, tx: Sender<bv8> := Channel<bv8>();
    rx0 := rx.Available();
    tx0 := tx.Available();
    var r := tx.TrySend(0);
    rx1 := rx.Available();
    tx1 := tx.Available();
  }
}
