/**
  BufferedQueue: a first-in first-out queue kept in a circular buffer whose
  capacity doubles when an element is added to a full buffer.
 */
module Queue {
  import opened Wrappers
  import opened JsNumber

  /** A slot of the backing array: JavaScript's undefined, or an element. */
  datatype Cell<T> = Undefined | Holds(value: T)

  /** The capacity used when the constructor is given none. */
  const DefaultSize: nat := 16

  /** The physical slot of logical position i when the queue starts at head. */
  function Slot(head: nat, i: nat, size: nat): nat
    requires size > 0
  {
    (head + i) % size
  }

  /** cells holds contents in order from slot head on, wrapping around,
      and is undefined everywhere else. */
  ghost predicate Layout<T>(cells: seq<Cell<T>>, head: nat, contents: seq<T>, size: nat) {
    && size == |cells|
    && head < size
    && |contents| <= size
    && forall i :: 0 <= i < size ==>
         cells[Slot(head, i, size)] == if i < |contents| then Holds(contents[i]) else Undefined
  }

  class BufferedQueue<T> {
    var buffer: array<Cell<T>>
    var head: nat
    var tail: nat
    var size: nat
    var length: nat
    /** The queued elements, oldest first. */
    ghost var Contents: seq<T>

    /** The representation invariant: head and tail lie inside the buffer,
        tail is length slots past head, and the buffer is laid out with
        Contents starting at head. */
    ghost predicate Valid()
      reads this, buffer
    {
      && size >= 1
      && buffer.Length == size
      && length <= size
      && tail < size
      && tail == (head + length) % size
      && |Contents| == length
      && Layout(buffer[..], head, Contents, size)
    }

    /** new BufferedQueue(size); a size of 0 would make every index
        computation a remainder by zero, so the size must be positive. */
    constructor (size: nat)
      requires size >= 1
      ensures Valid() && fresh(buffer)
      ensures this.size == size && head == 0 && tail == 0 && length == 0
      ensures Contents == []
    {
      buffer := new Cell<T>[size](_ => Undefined);
      head, tail := 0, 0;
      this.size := size;
      length := 0;
      Contents := [];
      new;
      FrontLayout(buffer[..], Contents, size);
    }

    /** new BufferedQueue(), with the default capacity of 16. */
    constructor WithDefaultSize()
      ensures Valid() && fresh(buffer)
      ensures size == DefaultSize && head == 0 && tail == 0 && length == 0
      ensures Contents == []
    {
      buffer := new Cell<T>[DefaultSize](_ => Undefined);
      head, tail := 0, 0;
      size := DefaultSize;
      length := 0;
      Contents := [];
      new;
      FrontLayout(buffer[..], Contents, DefaultSize);
    }

    /** Adds element at the logical end. A full buffer is resized first, so
        no queued element is ever overwritten. */
    method Enqueue(element: T)
      requires Valid()
      modifies this, buffer
      ensures Valid()
      ensures Contents == old(Contents) + [element]
      ensures length == old(length) + 1
      ensures old(length) == old(size) ==> size == 2 * old(size) && fresh(buffer) && head == 0
      ensures old(length) < old(size) ==> size == old(size) && buffer == old(buffer) && head == old(head)
    {
      if length == size {
        Resize();
      }
      ghost var cells, c := buffer[..], Contents;
      EnqueueLayout(cells, head, c, size, tail, element);
      buffer[tail] := Holds(element);
      assert buffer[..] == cells[tail := Holds(element)];
      tail := (tail + 1) % size;
      length := length + 1;
      Contents := Contents + [element];
    }

    /** Removes and returns the oldest element and clears its slot. On an
        empty queue the source throws "Queue is empty"; here that is the Err
        result, and nothing changes. */
    method Dequeue() returns (r: Result<T>)
      requires Valid()
      modifies this, buffer
      ensures Valid()
      ensures buffer == old(buffer) && size == old(size) && tail == old(tail)
      ensures old(length) == 0 ==>
        r == Err("Queue is empty") && Contents == old(Contents) && head == old(head) && length == 0
        && buffer[..] == old(buffer[..])
      ensures old(length) > 0 ==>
        && r == Ok(old(Contents)[0])
        && Contents == old(Contents)[1..]
        && length == old(length) - 1
        && head == (old(head) + 1) % size
        && buffer[old(head)] == Undefined
    {
      if length == 0 {
        return Err("Queue is empty");
      }
      ghost var cells, h, c := buffer[..], head, Contents;
      DequeueLayout(cells, h, c, size);
      var value := buffer[head].value;
      buffer[head] := Undefined;
      assert buffer[..] == cells[h := Undefined];
      head := (head + 1) % size;
      length := length - 1;
      Contents := Contents[1..];
      SlotShift(h, length, size);
      r := Ok(value);
    }

    /** Moves the contents, in order, to the front of a fresh buffer of twice
        the capacity. */
    method Resize()
      requires Valid()
      modifies this
      ensures Valid() && fresh(buffer)
      ensures size == 2 * old(size) && head == 0 && tail == old(length)
      ensures length == old(length) && Contents == old(Contents)
    {
      var newBuffer := new Cell<T>[size * 2](_ => Undefined);
      var i := 0;
      while i < length
        modifies newBuffer
        invariant newBuffer.Length == 2 * size
        invariant 0 <= i <= length
        invariant forall k :: 0 <= k < i ==> newBuffer[k] == Holds(Contents[k])
        invariant forall k :: i <= k < newBuffer.Length ==> newBuffer[k] == Undefined
      {
        assert buffer[Slot(head, i, size)] == buffer[..][Slot(head, i, size)];
        newBuffer[i] := buffer[Slot(head, i, size)];
        i := i + 1;
      }
      FrontLayout(newBuffer[..], Contents, size * 2);
      SlotIdentity(size * 2);
      assert Slot(0, length, size * 2) == length;
      buffer := newBuffer;
      head := 0;
      tail := length;
      size := size * 2;
    }
  }

  /** From head 0 every logical position is its own slot. */
  lemma SlotIdentity(size: nat)
    requires size > 0
    ensures forall i :: 0 <= i < size ==> Slot(0, i, size) == i
  {
    forall i | 0 <= i < size
      ensures Slot(0, i, size) == i
    {
      ModUnique(i, size, 0, i);
    }
  }

  /** Distinct positions within one lap occupy distinct slots. */
  lemma SlotsDistinct(head: nat, i: nat, size: nat)
    requires size > 0 && head < size && i < size
    ensures forall k :: 0 <= k < size && k != i ==> Slot(head, k, size) != Slot(head, i, size)
  {
    WrapOnce(head + i, size);
    forall k | 0 <= k < size && k != i
      ensures Slot(head, k, size) != Slot(head, i, size)
    {
      WrapOnce(head + k, size);
    }
  }

  /** Below two laps, the remainder subtracts at most one lap. */
  lemma WrapOnce(a: nat, size: nat)
    requires 0 < size && a < 2 * size
    ensures a % size == if a < size then a else a - size
  {
    if a < size {
      ModUnique(a, size, 0, a);
    } else {
      ModUnique(a, size, 1, a - size);
    }
  }

  /** One step past position a is the slot after a's slot, wrapping. */
  lemma SlotSucc(a: nat, size: nat)
    requires size > 0
    ensures (a % size + 1) % size == (a + 1) % size
  {
    var q, r := a / size, a % size;
    if r + 1 < size {
      ModUnique(a + 1, size, q, r + 1);
      ModUnique(r + 1, size, 0, r + 1);
    } else {
      assert (q + 1) * size == q * size + size;
      ModUnique(a + 1, size, q + 1, 0);
      ModUnique(size, size, 1, 0);
    }
  }

  /** Moving the head one slot on renumbers every position down by one. */
  lemma SlotShift(head: nat, i: nat, size: nat)
    requires size > 0 && head < size
    ensures Slot((head + 1) % size, i, size) == Slot(head, i + 1, size)
  {
    if head + 1 == size {
      ModUnique(size, size, 1, 0);
      var q, r := i / size, i % size;
      assert (q + 1) * size == q * size + size;
      ModUnique(size + i, size, q + 1, r);
    } else {
      ModUnique(head + 1, size, 0, head + 1);
    }
  }

  /** After the head moves on from h, position i is the slot of old
      position i + 1, which is h itself only for the last position. */
  lemma SlotAfterDequeue(h: nat, i: nat, size: nat)
    requires size > 0 && h < size && i < size
    ensures Slot((h + 1) % size, i, size) == Slot(h, i + 1, size)
    ensures i + 1 < size ==> Slot(h, i + 1, size) != h
    ensures i + 1 == size ==> Slot(h, i + 1, size) == h
  {
    WrapOnce(h + 1, size);
    WrapOnce((h + 1) % size + i, size);
    WrapOnce(h + i + 1, size);
  }

  /** Writing the element into the slot tail, the one after the last live
      one, lays out one more element, and the next tail is |contents| + 1
      past head, modulo size. */
  lemma EnqueueLayout<T>(cells: seq<Cell<T>>, head: nat, contents: seq<T>, size: nat, tail: nat, element: T)
    requires Layout(cells, head, contents, size) && |contents| < size
    requires tail == (head + |contents|) % size
    ensures Layout(cells[tail := Holds(element)], head, contents + [element], size)
    ensures (tail + 1) % size == (head + |contents| + 1) % size < size
  {
    SlotsDistinct(head, |contents|, size);
    SlotSucc(head + |contents|, size);
    WrapOnce(head + |contents| + 1, size);
    assert tail == Slot(head, |contents|, size);
    var after, more := cells[tail := Holds(element)], contents + [element];
    forall i | 0 <= i < size
      ensures after[Slot(head, i, size)] == if i < |more| then Holds(more[i]) else Undefined
    {
      if i != |contents| {
        assert Slot(head, i, size) != tail;
      }
    }
  }

  /** Clearing the first live slot h of a layout and moving the head on
      lays out the remaining elements. */
  lemma DequeueLayout<T>(cells: seq<Cell<T>>, h: nat, contents: seq<T>, size: nat)
    requires Layout(cells, h, contents, size) && contents != []
    ensures cells[h] == Holds(contents[0])
    ensures Layout(cells[h := Undefined], (h + 1) % size, contents[1..], size)
  {
    ModUnique(h, size, 0, h);
    assert Slot(h, 0, size) == h;
    WrapOnce(h + 1, size);
    var after, next, rest := cells[h := Undefined], (h + 1) % size, contents[1..];
    forall i | 0 <= i < size
      ensures after[Slot(next, i, size)] == if i < |rest| then Holds(rest[i]) else Undefined
    {
      SlotAfterDequeue(h, i, size);
      if i + 1 < size {
        assert cells[Slot(h, i + 1, size)] == if i + 1 < |contents| then Holds(contents[i + 1]) else Undefined;
      }
    }
  }

  /** A buffer holding contents from slot 0 on is laid out with head 0. */
  lemma FrontLayout<T>(cells: seq<Cell<T>>, contents: seq<T>, size: nat)
    requires size == |cells| && 0 < size && |contents| <= size
    requires forall k :: 0 <= k < |contents| ==> cells[k] == Holds(contents[k])
    requires forall k :: |contents| <= k < size ==> cells[k] == Undefined
    ensures Layout(cells, 0, contents, size)
  {
    SlotIdentity(size);
  }

  /** A queue of capacity 2: after one dequeue the next element wraps
      around to slot 0, and the element after that finds the buffer full
      with its head at slot 1, so the resize has to unwrap the contents.
      They still come back first in, first out, and a further dequeue
      fails because the queue is empty. */
  method FifoAcrossWrapAndResize<T>(x: T, y: T, z: T, w: T)
    returns (a: Result<T>, b: Result<T>, c: Result<T>, d: Result<T>, e: Result<T>)
    ensures a == Ok(x) && b == Ok(y) && c == Ok(z) && d == Ok(w)
    ensures e == Err("Queue is empty")
  {
    var q := new BufferedQueue<T>(2);
    q.Enqueue(x);
    q.Enqueue(y);
    a := q.Dequeue();
    q.Enqueue(z);
    assert q.head == 1 && q.length == q.size == 2;
    q.Enqueue(w);
    assert q.size == 4;
    b := q.Dequeue();
    c := q.Dequeue();
    d := q.Dequeue();
    e := q.Dequeue();
  }
}
