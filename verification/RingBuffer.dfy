/**
  The bounded queue a ring buffer is meant to be: a FIFO of at most `capacity` items that either
  refuses a new item when full or makes room by dropping the oldest.  It remembers everything it
  accepted and how each item left.
 */
module BoundedFifo {
  datatype Fate = Got | Overwritten | Discarded

  datatype Departure<T> = Departure(item: T, fate: Fate)

  datatype Op<T> = Put(item: T) | ForcePut(item: T) | Get | Reset

  function Items<T>(gone: seq<Departure<T>>): seq<T> {
    seq(|gone|, i requires 0 <= i < |gone| => gone[i].item)
  }

  function AllDiscarded<T>(items: seq<T>): seq<Departure<T>> {
    seq(|items|, i requires 0 <= i < |items| => Departure(items[i], Discarded))
  }

  datatype Fifo<T> = Fifo(capacity: nat, items: seq<T>, accepted: seq<T>, gone: seq<Departure<T>>) {
    function Put(x: T): Fifo<T> {
      if |items| >= capacity then this
      else this.(items := items + [x], accepted := accepted + [x])
    }

    function ForcePut(x: T): Fifo<T> {
      if |items| >= capacity && items != [] then
        this.(items := items[1..] + [x], accepted := accepted + [x], gone := gone + [Departure(items[0], Overwritten)])
      else this.(items := items + [x], accepted := accepted + [x])
    }

    function Get(): Fifo<T> {
      if items == [] then this
      else this.(items := items[1..], gone := gone + [Departure(items[0], Got)])
    }

    function Reset(): Fifo<T> {
      this.(items := [], gone := gone + AllDiscarded(items))
    }

    function Apply(op: Op<T>): Fifo<T> {
      match op
      case Put(x) => Put(x)
      case ForcePut(x) => ForcePut(x)
      case Get => Get()
      case Reset => Reset()
    }
  }

  function New<T>(capacity: nat): Fifo<T> {
    Fifo(capacity, [], [], [])
  }

  function Run<T>(f: Fifo<T>, ops: seq<Op<T>>): Fifo<T>
    decreases |ops|
  {
    if ops == [] then f else Run(f.Apply(ops[0]), ops[1..])
  }

  predicate Consistent<T(==)>(f: Fifo<T>) {
    && |f.items| <= f.capacity
    && Items(f.gone) + f.items == f.accepted
  }

  lemma ApplyKeepsConsistent<T>(f: Fifo<T>, op: Op<T>)
    requires Consistent(f) && (op.ForcePut? ==> f.capacity >= 1)
    ensures Consistent(f.Apply(op)) && f.Apply(op).capacity == f.capacity
    ensures f.accepted <= f.Apply(op).accepted && f.gone <= f.Apply(op).gone
  {}

  /** Conservation over every run: what left the queue, by whatever fate, followed by what is still
      in it is exactly what was accepted, in order. */
  lemma {:induction false} Conservation<T>(f: Fifo<T>, ops: seq<Op<T>>)
    requires Consistent(f) && f.capacity >= 1
    ensures Consistent(Run(f, ops)) && Run(f, ops).capacity == f.capacity
    ensures f.accepted <= Run(f, ops).accepted && f.gone <= Run(f, ops).gone
    decreases |ops|
  {
    if ops != [] {
      ApplyKeepsConsistent(f, ops[0]);
      Conservation(f.Apply(ops[0]), ops[1..]);
    }
  }

  /** The items that the get calls of a run return, in order. */
  function Returned<T>(f: Fifo<T>, ops: seq<Op<T>>): seq<T>
    decreases |ops|
  {
    if ops == [] then []
    else (if ops[0].Get? && f.items != [] then [f.items[0]] else []) + Returned(f.Apply(ops[0]), ops[1..])
  }

  /** The items that the put calls of a run store: those of put when there is room, and all of the overwriting put. */
  function Stored<T>(f: Fifo<T>, ops: seq<Op<T>>): seq<T>
    decreases |ops|
  {
    if ops == [] then []
    else
      var op := ops[0];
      (if op.ForcePut? || (op.Put? && |f.items| < f.capacity) then [op.item] else [])
      + Stored(f.Apply(op), ops[1..])
  }

  function WithFate<T>(gone: seq<Departure<T>>, fate: Fate): seq<T> {
    if gone == [] then []
    else
      var last := gone[|gone| - 1];
      WithFate(gone[..|gone| - 1], fate) + (if last.fate == fate then [last.item] else [])
  }

  lemma {:induction false} DiscardedAreNotGot<T>(gone: seq<Departure<T>>, items: seq<T>)
    ensures WithFate(gone + AllDiscarded(items), Got) == WithFate(gone, Got)
    decreases |items|
  {
    if items == [] {
      assert gone + AllDiscarded(items) == gone;
    } else {
      var less, all := items[..|items| - 1], gone + AllDiscarded(items);
      assert all[..|all| - 1] == gone + AllDiscarded(less);
      DiscardedAreNotGot(gone, less);
    }
  }

  lemma ApplyHistory<T>(f: Fifo<T>, op: Op<T>)
    ensures f.Apply(op).accepted ==
            f.accepted + if op.ForcePut? || (op.Put? && |f.items| < f.capacity) then [op.item] else []
    ensures WithFate(f.Apply(op).gone, Got) ==
            WithFate(f.gone, Got) + if op.Get? && f.items != [] then [f.items[0]] else []
  {
    var gone' := f.Apply(op).gone;
    if op.Reset? {
      DiscardedAreNotGot(f.gone, f.items);
    } else if |gone'| > |f.gone| {
      assert gone'[..|gone'| - 1] == f.gone;
    }
  }

  /** The history tells the calls: over every run, what was accepted is what the puts stored. */
  lemma {:induction false} AcceptedIsStored<T>(f: Fifo<T>, ops: seq<Op<T>>)
    ensures Run(f, ops).accepted == f.accepted + Stored(f, ops)
    decreases |ops|
  {
    if ops != [] {
      var op := ops[0];
      var first := if op.ForcePut? || (op.Put? && |f.items| < f.capacity) then [op.item] else [];
      ApplyHistory(f, op);
      AcceptedIsStored(f.Apply(op), ops[1..]);
      assert f.accepted + first + Stored(f.Apply(op), ops[1..]) == f.accepted + Stored(f, ops);
    }
  }

  /** And what left by a get is what the gets returned. */
  lemma {:induction false} GotIsReturned<T>(f: Fifo<T>, ops: seq<Op<T>>)
    ensures WithFate(Run(f, ops).gone, Got) == WithFate(f.gone, Got) + Returned(f, ops)
    decreases |ops|
  {
    if ops != [] {
      var op, got := ops[0], WithFate(f.gone, Got);
      var first := if op.Get? && f.items != [] then [f.items[0]] else [];
      ApplyHistory(f, op);
      GotIsReturned(f.Apply(op), ops[1..]);
      assert got + first + Returned(f.Apply(op), ops[1..]) == got + Returned(f, ops);
    }
  }

  function Last<T>(s: seq<T>, k: nat): seq<T> {
    if |s| <= k then s else s[|s| - k..]
  }

  function ForcePuts<T>(xs: seq<T>): seq<Op<T>> {
    seq(|xs|, i requires 0 <= i < |xs| => Op.ForcePut(xs[i]))
  }

  /** Drop-oldest: after any burst of overwriting puts the queue holds the most recent items. */
  lemma {:induction false} BurstKeepsNewest<T>(f: Fifo<T>, xs: seq<T>)
    requires Consistent(f) && f.capacity >= 1
    ensures Run(f, ForcePuts(xs)).items == Last(f.items + xs, f.capacity)
    decreases |xs|
  {
    if xs == [] {
      assert f.items + xs == f.items;
    } else {
      var f' := f.ForcePut(xs[0]);
      assert ForcePuts(xs)[1..] == ForcePuts(xs[1..]);
      ApplyKeepsConsistent(f, Op.ForcePut(xs[0]));
      BurstKeepsNewest(f', xs[1..]);
      assert f.items + xs == (f.items + [xs[0]]) + xs[1..];
    }
  }
}

/**
  ring_buffer: a byte array cut into slots, a next-free index, an oldest index and a full flag.
 */
module RingBuffer {
  import opened CTypes
  import opened BoundedFifo

  type Item = seq<Byte>

  // ------------------------------------------------------------ slots in bytes

  /** The k-th slot of w bytes. */
  function Slot(bytes: seq<Byte>, w: nat, k: nat): (r: Item)
    ensures (k + 1) * w <= |bytes| ==> |r| == w
  {
    if k * w <= (k + 1) * w <= |bytes| then bytes[k * w..(k + 1) * w] else []
  }

  lemma {:induction false} MulMonotone(a: nat, b: nat, w: nat)
    requires a <= b
    ensures 0 <= a * w <= b * w
  {
    if a < b {
      MulMonotone(a, b - 1, w);
      assert b * w == (b - 1) * w + w;
    }
  }

  lemma SlotBounds(w: nat, k: nat, size: nat)
    requires k < size
    ensures 0 <= k * w <= k * w + w == (k + 1) * w <= size * w
  {
    MulMonotone(k + 1, size, w);
  }

  /** Slots do not overlap. */
  lemma SlotsDisjoint(w: nat, j: nat, k: nat)
    requires j < k
    ensures (j + 1) * w <= k * w
  {
    MulMonotone(j + 1, k, w);
  }

  /** Writing one slot changes that slot's bytes and no other slot's. */
  lemma WriteSlot(bytes: seq<Byte>, bytes': seq<Byte>, w: nat, size: nat, k: nat, data: Item, j: nat)
    requires |bytes| == size * w && k < size && j < size && |data| == w
    requires k * w + w <= |bytes| && bytes' == bytes[..k * w] + data + bytes[k * w + w..]
    ensures |bytes'| == |bytes|
    ensures Slot(bytes', w, j) == if j == k then data else Slot(bytes, w, j)
  {
    SlotBounds(w, k, size);
    SlotBounds(w, j, size);
    if j < k { SlotsDisjoint(w, j, k); }
    if k < j { SlotsDisjoint(w, k, j); }
  }

  // ----------------------------------------------------------- ring of indices

  /** The slot i places after the oldest one, going round. */
  function Nth(tail: nat, i: nat, size: nat): nat {
    if tail + i < size then tail + i else tail + i - size
  }

  /** How many slots are in use. */
  function Used(head: nat, tail: nat, full: bool, size: nat): nat
    requires head <= size && tail <= size
  {
    if full then size else if tail <= head then head - tail else head + size - tail
  }

  function Queue(bytes: seq<Byte>, w: nat, size: nat, tail: nat, used: nat): (q: seq<Item>)
    ensures |q| == used
  {
    seq(used, i requires 0 <= i < used => Slot(bytes, w, Nth(tail, i, size)))
  }

  lemma StepRound(x: nat, size: nat)
    requires x < size
    ensures (x + 1) % size == Nth(x, 1, size)
  {
    if x + 1 < size {
      assert (x + 1) % size == x + 1;
    } else {
      assert (x + 1) % size == 0;
    }
  }

  /** A slot written just behind the newest item extends the queue by that item. */
  lemma QueueExtends(bytes: seq<Byte>, bytes': seq<Byte>, w: nat, size: nat, tail: nat, used: nat, data: Item)
    requires |bytes| == size * w && tail < size && used < size && |data| == w
    requires var at := Nth(tail, used, size) * w;
      at + w <= |bytes| && bytes' == bytes[..at] + data + bytes[at + w..]
    ensures |bytes'| == |bytes|
    ensures Queue(bytes', w, size, tail, used + 1) == Queue(bytes, w, size, tail, used) + [data]
  {
    forall i: nat | i <= used
      ensures Slot(bytes', w, Nth(tail, i, size)) ==
              if i == used then data else Slot(bytes, w, Nth(tail, i, size))
    {
      WriteSlot(bytes, bytes', w, size, Nth(tail, used, size), data, Nth(tail, i, size));
    }
    WriteSlot(bytes, bytes', w, size, Nth(tail, used, size), data, 0);
  }

  lemma QueueTail(bytes: seq<Byte>, w: nat, size: nat, tail: nat, used: nat)
    requires tail < size && 0 < used <= size
    ensures Queue(bytes, w, size, tail, used)[1..] == Queue(bytes, w, size, Nth(tail, 1, size), used - 1)
  {
    forall i: nat | i < used - 1
      ensures Nth(tail, i + 1, size) == Nth(Nth(tail, 1, size), i, size)
    {}
  }

  // --------------------------------------------------- C integer conversions

  function ToSSize(u: Size): SSize {
    if u < SSIZE_LIMIT then u else u - SIZE_RANGE
  }

  /** Reduction modulo 2^64 of a value that is off by at most one turn. */
  function ToSize(x: int): Size
    requires -SIZE_RANGE <= x < 2 * SIZE_RANGE
  {
    if x < 0 then x + SIZE_RANGE else if x >= SIZE_RANGE then x - SIZE_RANGE else x
  }

  // ------------------------------------------------------------------ the code

  /** memcpy into the buffer. */
  method CopyIn(buffer: array<Byte>, at: nat, data: Item)
    requires at + |data| <= buffer.Length
    modifies buffer
    ensures buffer[..] == old(buffer[..])[..at] + data + old(buffer[..])[at + |data|..]
  {
    forall j | 0 <= j < |data| {
      buffer[at + j] := data[j];
    }
  }

  class RingBuf {
    const buffer: array<Byte>
    const size: Size
    const itemSize: Size
    var head: Size   // next free slot
    var tail: Size   // oldest stored item
    var full: bool

    ghost var fifo: Fifo<Item>

    ghost predicate Shape()
      reads this
    {
      && (if size == 0 then head == tail == 0 && !full else head < size && tail < size)
      && buffer.Length == size * itemSize
      && (full ==> head == tail)
    }

    ghost function Contents(): seq<Item>
      reads this, buffer
      requires Shape()
    {
      Queue(buffer[..], itemSize, size, tail, Used(head, tail, full, size))
    }

    ghost predicate Valid()
      reads this, buffer
    {
      && Shape()
      && fifo.items == Contents()
      && fifo.capacity == size
      && Consistent(fifo)
    }

    /** rbuf_init; calloc fails, and the program aborts, when the byte count does not fit.  A buffer of no items
        can be made, but putting an item divides by its size. */
    constructor (itemSize: Size, itemCount: Size)
      requires itemCount * itemSize < SIZE_RANGE
      ensures Valid() && fresh(buffer)
      ensures size == itemCount && this.itemSize == itemSize
      ensures fifo == New(itemCount)
    {
      var n := itemCount * itemSize;
      buffer := new Byte[n](_ => 0);
      size := itemCount;
      this.itemSize := itemSize;
      head, tail, full := 0, 0, false;
      fifo := New(itemCount);
      new;
    }

    /** inc_buf: claim the slot at head, giving up the oldest one when the ring is full. */
    method IncBuf()
      requires Shape() && size > 0
      modifies this`head, this`tail, this`full
      ensures Shape()
      ensures old(full) ==> full && tail == Nth(old(tail), 1, size)
      ensures !old(full) ==> tail == old(tail)
      ensures !old(full) ==> Used(head, tail, full, size) == Used(old(head), tail, false, size) + 1
    {
      if full {
        StepRound(tail, size);
        tail := (tail + 1) % size;
        head := tail;
      } else {
        StepRound(head, size);
        head := (head + 1) % size;
      }
      full := head == tail;
    }

    /** dec_buf: give up the oldest slot. */
    method DecBuf()
      requires Shape() && Used(head, tail, full, size) > 0
      modifies this`tail, this`full
      ensures Shape()
      ensures tail == Nth(old(tail), 1, size)
      ensures Used(head, tail, full, size) == Used(head, old(tail), old(full), size) - 1
    {
      full := false;
      StepRound(tail, size);
      tail := (tail + 1) % size;
    }

    method Reset()
      requires Valid()
      modifies this
      ensures Valid() && fifo == old(fifo).Reset()
      ensures Contents() == []
    {
      ghost var op := Op<Item>.Reset;
      ApplyKeepsConsistent(fifo, op);
      head, tail, full := 0, 0, false;
      fifo := fifo.Reset();
    }

    /** The memcpy into the slot at head: any queue that ends just before that slot grows by the item. */
    method StoreAtHead(data: Item, ghost oldest: nat, ghost used: nat)
      requires Shape() && size > 0 && |data| == itemSize
      requires oldest < size && used < size && head == Nth(oldest, used, size)
      modifies buffer
      ensures Queue(buffer[..], itemSize, size, oldest, used + 1) ==
              Queue(old(buffer[..]), itemSize, size, oldest, used) + [data]
    {
      ghost var bytes := buffer[..];
      SlotBounds(itemSize, head, size);
      CopyIn(buffer, head * itemSize, data);
      QueueExtends(bytes, buffer[..], itemSize, size, oldest, used, data);
    }

    method Put(data: Item) returns (r: int)
      requires Valid() && size > 0 && |data| == itemSize
      modifies this, buffer
      ensures Valid() && fifo == old(fifo).Put(data)
      ensures r == if |old(Contents())| == size then -1 else 0
      ensures r == -1 ==> buffer[..] == old(buffer[..]) && head == old(head) && tail == old(tail) && full == old(full)
      ensures r == 0 ==> Contents() == old(Contents()) + [data]
    {
      if full {
        return -1;
      }
      StoreAtHead(data, tail, Used(head, tail, full, size));
      IncBuf();
      ApplyKeepsConsistent(fifo, Op.Put(data));
      fifo := fifo.Put(data);
      r := 0;
    }

    method ForcePut(data: Item)
      requires Valid() && size > 0 && |data| == itemSize
      modifies this, buffer
      ensures Valid() && fifo == old(fifo).ForcePut(data)
      ensures Contents() ==
        (if |old(Contents())| == size then old(Contents())[1..] else old(Contents())) + [data]
    {
      ghost var oldest := if full then Nth(tail, 1, size) else tail;
      ghost var used := if full then size - 1 else Used(head, tail, full, size);
      ghost var kept := if full then Contents()[1..] else Contents();
      if full { QueueTail(buffer[..], itemSize, size, tail, size); }
      assert Queue(buffer[..], itemSize, size, oldest, used) == kept;
      StoreAtHead(data, oldest, used);
      IncBuf();
      assert tail == oldest && Used(head, tail, full, size) == used + 1;
      assert Contents() == kept + [data];
      ApplyKeepsConsistent(fifo, Op.ForcePut(data));
      fifo := fifo.ForcePut(data);
    }

    method Get(dest: array<Byte>) returns (r: int)
      requires Valid() && dest != buffer && dest.Length >= itemSize
      modifies this, dest
      ensures Valid() && fifo == old(fifo).Get()
      ensures r == if old(Contents()) == [] then -1 else 0
      ensures r == -1 ==> dest[..] == old(dest[..]) && head == old(head) && tail == old(tail) && full == old(full)
      ensures r == 0 ==>
        && dest[..] == old(Contents())[0] + old(dest[..])[itemSize..]
        && Contents() == old(Contents())[1..]
    {
      var empty := IsEmpty();
      if empty {
        return -1;
      }
      ghost var used := Used(head, tail, full, size);
      SlotBounds(itemSize, tail, size);
      var from := tail * itemSize;
      CopyIn(dest, 0, buffer[from..from + itemSize]);
      QueueTail(buffer[..], itemSize, size, tail, used);
      DecBuf();
      ghost var op := Op<Item>.Get;
      ApplyKeepsConsistent(fifo, op);
      fifo := fifo.Get();
      r := 0;
    }

    method IsEmpty() returns (r: bool)
      requires Valid()
      ensures r <==> Contents() == []
    {
      r := !full && head == tail;
    }

    method IsFull() returns (r: bool)
      requires Valid()
      ensures r <==> |Contents()| == size > 0
    {
      r := full;
    }

    /** rbuf_size, with its unsigned difference held in a signed variable. */
    method Count() returns (r: Size)
      requires Valid()
      ensures r == |Contents()|
      ensures r == 0 <==> !full && head == tail
      ensures r == size > 0 <==> full
    {
      var ret: SSize := ToSSize(size);
      if !full {
        ret := ToSSize(ToSize(head - tail));
        if tail > head {
          ret := ToSSize(ToSize(ToSize(ret) + size));
        }
      }
      r := ToSize(ret);
    }
  }
}
