/**
 The cursor-based byte buffer. `Block` is one heap block: the packed head
 (capacity_, readable_, writeable_) followed by capacity_ data bytes. `MySKBuffer`
 updates such a block in place and is proved against the functions on `Block`.
 */
module SKBuffer {
  import opened Bytes

  // sizeof(SKBufferHead), and the part of it that incr() copies before reaching the data.
  const HEAD_SIZE := 12
  const COPIED_HEAD := 8

  // g_default_skbuffer_capacity
  const DEFAULT_CAPACITY := 16 * 1024

  datatype Block = Block(capacity: nat, readable: nat, writeable: nat, data: seq<Byte>) {

    predicate Valid() {
      readable <= writeable <= capacity == |data| < U32
    }

    function Length(): nat
      requires Valid()
    {
      writeable - readable
    }

    function Contents(): seq<Byte>
      requires Valid()
    {
      data[readable..writeable]
    }

    /** Both cursors go back to zero once the reader has caught up with the writer. */
    function Rewound(): Block {
      if readable == writeable then this.(readable := 0, writeable := 0) else this
    }

    /** The room test as uint32_t arithmetic computes it. */
    predicate Overruns(len: nat) {
      (writeable + len) % U32 > capacity
    }

    predicate MustGrow(len: nat)
      requires Valid()
    {
      Rewound().Overruns(len) && capacity - Length() < len
    }

    /** sort(): contents moved to the front, the rest cleared; nothing at all when already in front. */
    function Compacted(): Block
      requires Valid()
    {
      if readable == 0 then this
      else Block(capacity, 0, Length(), Contents() + Zeros(capacity - Length()))
    }

    /** The copy of incr(): `capacity` bytes from offset 4 of the old block over a new one whose data is `memory`. */
    function Transplanted(memory: seq<Byte>): Block
      requires Valid() && |memory| == 2 * capacity
    {
      var n := if capacity < COPIED_HEAD then 0 else capacity - COPIED_HEAD;
      Block(2 * capacity, CopiedCursor(readable, capacity), CopiedCursor(writeable, capacity - 4),
            data[..n] + memory[n..])
    }

    /** incr() may run: the new capacity is a uint32_t and getReadableLength()'s own assertion holds in sort(). */
    predicate CanGrow()
      requires Valid()
    {
      2 * capacity < U32 && CopiedCursor(readable, capacity) <= CopiedCursor(writeable, capacity - 4)
    }

    function Grown(memory: seq<Byte>): Block
      requires Valid() && CanGrow() && |memory| == 2 * capacity
    {
      CursorsCopied(this);
      Transplanted(memory).Compacted()
    }

    /** writeable(len): the block after making room for len bytes, grown into `memory` if it has to. */
    function Prepared(len: nat, memory: seq<Byte>): Block
      requires Valid()
      requires MustGrow(len) ==> CanGrow() && |memory| == 2 * capacity
    {
      var b := Rewound();
      if !b.Overruns(len) then b
      else if capacity - Length() >= len then b.Compacted()
      else
        assert b.CanGrow() by { CursorsCopied(this); CursorsCopied(b); }
        b.Grown(memory)
    }

    /** The caller's memcpy to the write pointer followed by moveWriteable. */
    function Filled(bytes: seq<Byte>): Block
      requires Valid() && writeable + |bytes| <= capacity
    {
      this.(writeable := writeable + |bytes|,
            data := data[..writeable] + bytes + data[writeable + |bytes|..])
    }

    function Taken(len: nat): nat
      requires Valid()
    {
      if len > Length() then Length() else len
    }

    function Advanced(len: nat): Block
      requires Valid()
    {
      this.(readable := readable + Taken(len))
    }
  }

  /** A cursor of which only the n low-order bytes were copied over a zeroed field. */
  function CopiedCursor(v: nat, n: int): nat {
    v % Pow256(if n < 0 then 0 else if n > 4 then 4 else n)
  }

  /** What InitHead leaves in the data area: memset clears `n` bytes counted from the head, the tail is unset. */
  ghost predicate FreshMemory(memory: seq<Byte>, n: nat) {
    |memory| == n && forall i | 0 <= i < n - HEAD_SIZE :: memory[i] == 0
  }

  ghost predicate PreparedTo(b: Block, len: nat, b': Block)
    requires b.Valid()
  {
    (b.MustGrow(len) ==> b.CanGrow()) &&
    exists memory :: FreshMemory(memory, 2 * b.capacity) && b' == b.Prepared(len, memory)
  }

  lemma CursorsCopied(b: Block)
    requires b.Valid()
    ensures CopiedCursor(b.readable, b.capacity) == b.readable
    ensures CopiedCursor(b.writeable, b.capacity - 4) == if b.capacity >= 5 then b.writeable else 0
  {
    Pow256Values();
  }

  // ------------------------------------------------------------------------------------------
  // Room and growth

  /** The request loses no byte: no growth, nothing buffered, or the last 8 data bytes still unwritten. */
  predicate KeepsContents(b: Block, len: nat)
    requires b.Valid()
  {
    b.MustGrow(len) ==> b.Length() == 0 || b.writeable + COPIED_HEAD <= b.capacity
  }

  /**
   After the request `len` bytes fit behind the write cursor. One doubling is all a request gets, and a block
   of fewer than 5 bytes loses its write cursor in it.
   */
  predicate HasRoomFor(b: Block, len: nat)
    requires b.Valid()
  {
    if !b.Rewound().Overruns(len) then b.Rewound().writeable + len < U32
    else (if b.MustGrow(len) && b.capacity < 5 then 0 else b.Length()) + len <= 2 * b.capacity
  }

  lemma PreparedValid(b: Block, len: nat, b': Block)
    requires b.Valid() && PreparedTo(b, len, b')
    ensures b'.Valid()
    ensures b'.capacity == if b.MustGrow(len) then 2 * b.capacity else b.capacity
    ensures b'.writeable + len <= b'.capacity <==> HasRoomFor(b, len)
  {
    CursorsCopied(b);
    CursorsCopied(b.Rewound());
  }

  lemma PreparedWithoutGrowth(b: Block, len: nat, b': Block)
    requires b.Valid() && !b.MustGrow(len)
    requires b' == if b.Rewound().Overruns(len) then b.Rewound().Compacted() else b.Rewound()
    ensures PreparedTo(b, len, b')
  {
    var memory := Zeros(2 * b.capacity);
    assert FreshMemory(memory, 2 * b.capacity) && b' == b.Prepared(len, memory);
  }

  lemma PreparedInPlace(b: Block, len: nat, b': Block)
    requires b.Valid() && PreparedTo(b, len, b')
    ensures !b.Rewound().Overruns(len) ==> b' == b.Rewound()
  {
  }

  /**
   Where the cursors are after a request, in every case: as they were, or both at zero if nothing is buffered, when
   the end computed modulo 2^32 is inside the block; at the front when the block is large enough without what was
   read; else at the front of a block of twice the size, in which a block of fewer than 5 bytes loses what it held.
   */
  lemma PreparedCursors(b: Block, len: nat, b': Block)
    requires b.Valid() && PreparedTo(b, len, b')
    ensures var held := b.writeable - b.readable;
            var start := if held == 0 then 0 else b.readable;
            (b'.capacity, b'.readable, b'.writeable) ==
            if (start + held + len) % 0x1_0000_0000 <= b.capacity then (b.capacity, start, start + held)
            else if held + len <= b.capacity then (b.capacity, 0, held)
            else (2 * b.capacity, 0, if b.capacity < 5 then 0 else held)
  {
    PreparedAs(b, len, b');
    EndOfRequest(b, len);
    hide *;
  }

  lemma EndOfRequest(b: Block, len: nat)
    requires b.Valid()
    ensures var held := b.writeable - b.readable;
            var start := if held == 0 then 0 else b.readable;
            b.Rewound().readable == start && b.Rewound().writeable == start + held && b.Length() == held &&
            (b.Rewound().Overruns(len) <==> (start + held + len) % 0x1_0000_0000 > b.capacity)
  {
  }

  lemma PreparedAs(b: Block, len: nat, b': Block)
    requires b.Valid() && PreparedTo(b, len, b')
    ensures var z := b.Rewound();
            (b'.capacity, b'.readable, b'.writeable) ==
            if !z.Overruns(len) then (b.capacity, z.readable, z.writeable)
            else if b.Length() + len <= b.capacity then (b.capacity, 0, b.Length())
            else (2 * b.capacity, 0, if b.capacity < 5 then 0 else b.Length())
  {
    var memory :| FreshMemory(memory, 2 * b.capacity) && b' == b.Prepared(len, memory);
    hide FreshMemory, CopiedCursor;
    var z := b.Rewound();
    if b.MustGrow(len) {
      PreparedGrows(b, len, memory);
      GrownCursors(z, memory);
    } else {
      assert b' == if z.Overruns(len) then z.Compacted() else z;
    }
  }

  lemma PreparedGrows(b: Block, len: nat, memory: seq<Byte>)
    requires b.Valid() && b.MustGrow(len) && b.CanGrow() && |memory| == 2 * b.capacity
    ensures b.Rewound().CanGrow() && b.Prepared(len, memory) == b.Rewound().Grown(memory)
  {
    CursorsCopied(b);
    CursorsCopied(b.Rewound());
    hide CopiedCursor;
  }

  lemma GrownCursors(b: Block, memory: seq<Byte>)
    requires b.Valid() && b.CanGrow() && |memory| == 2 * b.capacity
    ensures var g := b.Grown(memory);
            (g.capacity, g.readable, g.writeable) == (2 * b.capacity, 0, if b.capacity < 5 then 0 else b.Length())
  {
    CursorsCopied(b);
    hide CopiedCursor;
  }

  lemma PreparedKeepsContents(b: Block, len: nat, b': Block)
    requires b.Valid() && PreparedTo(b, len, b') && KeepsContents(b, len)
    ensures b'.Valid() && b'.Contents() == b.Contents()
  {
    CursorsCopied(b);
    CursorsCopied(b.Rewound());
  }

  lemma CompactedContents(b: Block)
    requires b.Valid()
    ensures b.Compacted().Valid() && b.Compacted().Contents() == b.Contents()
  {
  }

  /** Ones over a cleared new block: the last byte of the contents, if it lies in the tail, becomes a zero. */
  lemma TailIsLost(c: nat, r: nat, w: nat)
    requires r < w <= c < w + 8 && c < U32
    ensures var b := Block(c, r, w, seq(c, _ => 1));
            b.CanGrow() ==> var g := b.Grown(Zeros(2 * c)); g.Valid() && g.Contents() != seq(c, _ => 1)[r..w]
  {
    var data: seq<Byte> := seq(c, _ => 1);
    var b := Block(c, r, w, data);
    if b.CanGrow() {
      CursorsCopied(b);
      hide CopiedCursor;
      var t := b.Transplanted(Zeros(2 * c));
      CompactedContents(t);
      assert data[r..w][w - r - 1] == 1;
      assert c >= 5 ==> t.Contents()[w - r - 1] == t.data[w - 1] == 0;
    }
  }

  lemma GrowthLosesContents(c: nat, r: nat, w: nat, len: nat) returns (data: seq<Byte>, b': Block)
    requires r <= w <= c < U32 && Block(c, r, w, Zeros(c)).MustGrow(len) && Block(c, r, w, Zeros(c)).CanGrow()
    requires r < w && c < w + COPIED_HEAD
    ensures |data| == c && PreparedTo(Block(c, r, w, data), len, b')
    ensures b'.Valid() && b'.Contents() != data[r..w]
  {
    data := seq(c, _ => 1);
    var b, memory := Block(c, r, w, data), Zeros(2 * c);
    assert b.MustGrow(len) && b.CanGrow();
    PreparedGrows(b, len, memory);
    TailIsLost(c, r, w);
    assert FreshMemory(memory, 2 * c);
    b' := b.Prepared(len, memory);
  }

  /**
   Line 252 of the buffer copies `capacity_` bytes counted from inside the head, so the last 8 data bytes stay
   behind. For a block that has to grow, the contents survive whatever they are and whatever the new memory
   holds, if and only if nothing is buffered or the write cursor is at least 8 short of the capacity.
   */
  lemma {:induction false} GrowthKeepsContentsIff(c: nat, r: nat, w: nat, len: nat)
    requires r <= w <= c < U32 && Block(c, r, w, Zeros(c)).MustGrow(len) && Block(c, r, w, Zeros(c)).CanGrow()
    ensures (forall data, b' | |data| == c && PreparedTo(Block(c, r, w, data), len, b') ::
               b'.Valid() && b'.Contents() == data[r..w])
       <==> r == w || w + 8 <= c
  {
    if r == w || w + COPIED_HEAD <= c {
      forall data, b' | |data| == c && PreparedTo(Block(c, r, w, data), len, b')
        ensures b'.Valid() && b'.Contents() == data[r..w]
      {
        PreparedKeepsContents(Block(c, r, w, data), len, b');
      }
    } else {
      var data, b' := GrowthLosesContents(c, r, w, len);
    }
  }

  /** With the default capacity: 16 full reads of 1024 bytes and no packet cut yet, then the next read request. */
  lemma DefaultBufferLosesItsTail(data: seq<Byte>, b': Block)
    requires |data| == DEFAULT_CAPACITY && PreparedTo(Block(DEFAULT_CAPACITY, 0, DEFAULT_CAPACITY, data), 1024, b')
    ensures b'.Valid() && b'.Contents() == data[..|data| - COPIED_HEAD] + Zeros(COPIED_HEAD)
  {
    CursorsCopied(Block(DEFAULT_CAPACITY, 0, DEFAULT_CAPACITY, data));
  }

  /**
   What PreparedValid decides, at a request that fails: 40000 bytes asked of an empty buffer of the default capacity.
   The block doubles once, and the space handed out reaches beyond its end.
   */
  lemma LargeRequestLeavesBlock(data: seq<Byte>, b': Block)
    requires |data| == DEFAULT_CAPACITY && PreparedTo(Block(DEFAULT_CAPACITY, 0, 0, data), 40000, b')
    ensures b'.Valid() && b'.capacity == 2 * DEFAULT_CAPACITY && b'.writeable + 40000 > b'.capacity
  {
    PreparedValid(Block(DEFAULT_CAPACITY, 0, 0, data), 40000, b');
  }

  // ------------------------------------------------------------------------------------------
  // Runs

  /** Write: ask for len bytes, then store `bytes`, no more than that. Read: take up to len bytes. */
  datatype Op = Write(len: nat, bytes: seq<Byte>) | Read(len: nat)

  ghost predicate Step(b: Block, op: Op, b': Block)
    requires b.Valid()
  {
    match op
    case Write(len, bytes) => |bytes| <= len < U32 && exists m :: WroteVia(b, len, bytes, m, b')
    case Read(len) => b' == b.Advanced(len)
  }

  ghost predicate WroteVia(b: Block, len: nat, bytes: seq<Byte>, m: Block, b': Block)
    requires b.Valid() && |bytes| <= len
  {
    PreparedTo(b, len, m) && m.Valid() && m.writeable + len <= m.capacity && b' == m.Filled(bytes)
  }

  function Input(op: Op): seq<Byte> {
    if op.Write? then op.bytes else []
  }

  function Output(b: Block, op: Op): seq<Byte>
    requires b.Valid()
  {
    if op.Read? then b.Contents()[..b.Taken(op.len)] else []
  }

  predicate LosslessStep(b: Block, op: Op)
    requires b.Valid()
  {
    op.Write? ==> KeepsContents(b, op.len)
  }

  ghost predicate Run(states: seq<Block>, ops: seq<Op>) {
    |states| == |ops| + 1 &&
    (forall s | s in states :: s.Valid()) &&
    forall i | 0 <= i < |ops| :: Step(states[i], ops[i], states[i + 1])
  }

  /** Everything the first n operations put in. */
  function Written(ops: seq<Op>, n: nat): seq<Byte>
    requires n <= |ops|
  {
    if n == 0 then [] else Written(ops, n - 1) + Input(ops[n - 1])
  }

  /** Everything the first n operations handed out. */
  ghost function ReadOut(states: seq<Block>, ops: seq<Op>, n: nat): seq<Byte>
    requires Run(states, ops) && n <= |ops|
  {
    if n == 0 then [] else ReadOut(states, ops, n - 1) + Output(states[n - 1], ops[n - 1])
  }

  lemma FilledContents(b: Block, bytes: seq<Byte>)
    requires b.Valid() && b.writeable + |bytes| <= b.capacity
    ensures b.Filled(bytes).Valid() && b.Filled(bytes).Contents() == b.Contents() + bytes
  {
    var data := b.Filled(bytes).data;
    var end := b.writeable + |bytes|;
    assert data[b.readable..end] == data[b.readable..b.writeable] + data[b.writeable..end];
  }

  lemma WrittenVia(b: Block, len: nat, bytes: seq<Byte>, m: Block)
    requires b.Valid() && |bytes| <= len < U32 && PreparedTo(b, len, m) && HasRoomFor(b, len)
    ensures m.Valid() && m.writeable + len <= m.capacity
    ensures var b' := m.Filled(bytes);
            b'.Valid() && Step(b, Write(len, bytes), b') &&
            (!b.Rewound().Overruns(len) ==> b' == b.Rewound().Filled(bytes)) &&
            (KeepsContents(b, len) ==> b'.Contents() == b.Contents() + bytes)
  {
    PreparedValid(b, len, m);
    FilledContents(m, bytes);
    PreparedInPlace(b, len, m);
    assert WroteVia(b, len, bytes, m, m.Filled(bytes));
    if KeepsContents(b, len) {
      PreparedKeepsContents(b, len, m);
    }
  }

  lemma {:induction false} StepIsQueueStep(b: Block, op: Op, b': Block)
    requires b.Valid() && Step(b, op, b') && LosslessStep(b, op)
    ensures b'.Valid() && b.Contents() + Input(op) == Output(b, op) + b'.Contents()
  {
    match op
    case Write(len, bytes) =>
      var m :| WroteVia(b, len, bytes, m, b');
      PreparedKeepsContents(b, len, m);
      FilledContents(m, bytes);
    case Read(len) =>
      assert b.Contents() == b.Contents()[..b.Taken(len)] + b'.Contents();
  }

  /** A FIFO byte queue: what was inside and what was written comes out in order, none lost, none twice. */
  lemma {:induction false} RunIsQueue(states: seq<Block>, ops: seq<Op>, n: nat)
    requires Run(states, ops) && n <= |ops|
    requires forall i | 0 <= i < n :: LosslessStep(states[i], ops[i])
    ensures states[0].Contents() + Written(ops, n) == ReadOut(states, ops, n) + states[n].Contents()
  {
    if n == 0 {
      assert states[0].Contents() + [] == [] + states[0].Contents();
    } else {
      RunIsQueue(states, ops, n - 1);
      assert LosslessStep(states[n - 1], ops[n - 1]) && Step(states[n - 1], ops[n - 1], states[n - 1 + 1]);
      StepIsQueueStep(states[n - 1], ops[n - 1], states[n]);
      QueueStep(states[0].Contents(), Written(ops, n - 1), Input(ops[n - 1]), ReadOut(states, ops, n - 1),
                states[n - 1].Contents(), Output(states[n - 1], ops[n - 1]), states[n].Contents());
    }
  }

  lemma QueueStep<T>(start: seq<T>, written: seq<T>, input: seq<T>, read: seq<T>, held: seq<T>, output: seq<T>,
                     held': seq<T>)
    requires start + written == read + held && held + input == output + held'
    ensures start + (written + input) == (read + output) + held'
  {
    calc {
      start + (written + input);
      (start + written) + input;
      read + (held + input);
      (read + output) + held';
    }
  }

  /** The largest `buffered + requested` that the first n operations asked for. */
  ghost function MaxDemand(states: seq<Block>, ops: seq<Op>, n: nat): (m: nat)
    requires Run(states, ops) && n <= |ops|
  {
    if n == 0 then 0
    else
      var before := MaxDemand(states, ops, n - 1);
      var now := if ops[n - 1].Write? then states[n - 1].Length() + ops[n - 1].len else 0;
      if now > before then now else before
  }

  function Doubled(c: nat, k: nat): nat {
    if k == 0 then c else 2 * Doubled(c, k - 1)
  }

  /** Capacity is the initial one doubled some number of times, and a grown one is below twice the largest demand. */
  lemma {:induction false} CapacityBound(states: seq<Block>, ops: seq<Op>, n: nat) returns (k: nat)
    requires Run(states, ops) && n <= |ops|
    ensures states[n].capacity == Doubled(states[0].capacity, k)
    ensures k > 0 ==> states[n].capacity < 2 * MaxDemand(states, ops, n)
  {
    k := 0;
    if n > 0 {
      k := CapacityBound(states, ops, n - 1);
      assert Step(states[n - 1], ops[n - 1], states[n - 1 + 1]);
      if ops[n - 1].Write? {
        var len := ops[n - 1].len;
        var m :| WroteVia(states[n - 1], len, ops[n - 1].bytes, m, states[n]);
        PreparedValid(states[n - 1], len, m);
        if states[n - 1].MustGrow(len) {
          k := k + 1;
        }
      }
    }
  }

  // ------------------------------------------------------------------------------------------
  // The buffer itself

  class MySKBuffer {
    var capacity: nat
    var minCapacity: nat
    var readable: nat
    var writeable: nat
    var data: array<Byte>

    ghost function View(): Block
      reads this, data
    {
      Block(capacity, readable, writeable, data[..])
    }

    ghost predicate Valid()
      reads this, data
    {
      View().Valid() && minCapacity == capacity
    }

    ghost function Contents(): seq<Byte>
      requires Valid()
      reads this, data
    {
      View().Contents()
    }

    /** InitHead: a block of n data bytes with memset over its first n bytes, head included. */
    static method InitHead(n: nat) returns (memory: array<Byte>)
      ensures fresh(memory) && FreshMemory(memory[..], n)
    {
      memory := new Byte[n];
      forall i | 0 <= i < n - HEAD_SIZE {
        memory[i] := 0;
      }
    }

    constructor (size: nat)
      requires size < U32
      ensures Valid() && fresh(data) && View() == Block(size, 0, 0, data[..])
    {
      var memory := InitHead(size);
      capacity, minCapacity, readable, writeable := size, size, 0, 0;
      data := memory;
    }

    method GetReadableLength() returns (n: nat)
      requires Valid()
      ensures n == |Contents()|
    {
      n := writeable - readable;
    }

    /** `empty` stands for the null pointer, returned exactly when nothing is buffered; `got` is the clipped length. */
    method Readable(len: nat) returns (ptr: nat, empty: bool, got: nat)
      requires Valid()
      ensures empty <==> Contents() == []
      ensures got == View().Taken(len)
      ensures !empty ==> ptr + got <= data.Length && data[ptr..ptr + got] == Contents()[..got]
    {
      var n := writeable - readable;
      if n == 0 {
        return 0, true, 0;
      }
      ptr, empty, got := readable, false, if len > n then n else len;
      assert data[ptr..ptr + got] == data[readable..writeable][..got];
    }

    method MoveReadable(len: nat)
      requires Valid() && len <= |Contents()|
      modifies this`readable
      ensures Valid() && View() == old(View()).Advanced(len)
    {
      readable := readable + len;
    }

    method GetReadableAndMove(len: nat) returns (ptr: nat, empty: bool, got: nat)
      requires Valid()
      modifies this`readable
      ensures Valid() && View() == old(View()).Advanced(len)
      ensures empty <==> old(Contents()) == []
      ensures got == old(View()).Taken(len)
      ensures !empty ==> ptr + got <= data.Length && data[ptr..ptr + got] == old(Contents())[..got]
    {
      var n := writeable - readable;
      if n == 0 {
        return 0, true, 0;
      }
      ptr, empty, got := readable, false, if len > n then n else len;
      assert data[ptr..ptr + got] == data[readable..writeable][..got];
      readable := readable + got;
    }

    method Writeable(len: nat) returns (ptr: nat)
      requires Valid() && (View().MustGrow(len) ==> View().CanGrow())
      modifies this, data
      ensures Valid() && (data == old(data) || fresh(data))
      ensures !old(View()).MustGrow(len) ==> data == old(data)
      ensures PreparedTo(old(View()), len, View())
      ensures ptr == writeable
    {
      ghost var b := View();
      if readable == writeable {
        readable, writeable := 0, 0;
      }
      assert View() == b.Rewound();
      if (writeable + len) % U32 > capacity {
        if capacity - (writeable - readable) >= len {
          Sort();
        } else {
          assert View().CanGrow() by { CursorsCopied(b); CursorsCopied(b.Rewound()); }
          Incr();
        }
      }
      ptr := writeable;
      if !b.MustGrow(len) {
        PreparedWithoutGrowth(b, len, View());
      }
    }

    method GetWriteableAndMove(len: nat) returns (ptr: nat)
      requires Valid() && (View().MustGrow(len) ==> View().CanGrow()) && HasRoomFor(View(), len)
      modifies this, data
      ensures Valid() && (data == old(data) || fresh(data))
      ensures !old(View()).MustGrow(len) ==> data == old(data)
      ensures ptr + len == writeable && PreparedTo(old(View()), len, View().(writeable := ptr))
    {
      ghost var b := View();
      ptr := Writeable(len);
      PreparedValid(b, len, View());
      assert View() == View().(writeable := ptr);
      MoveWriteable(len);
    }

    /** The caller's memcpy through a pointer that GetWriteableAndMove handed out. */
    method Store(ptr: nat, bytes: seq<Byte>)
      requires ptr + |bytes| <= data.Length
      modifies data
      ensures data[..] == old(data[..ptr]) + bytes + old(data[ptr + |bytes|..])
    {
      forall i | 0 <= i < |bytes| {
        data[ptr + i] := bytes[i];
      }
    }

    /** getWriteableAndMove and memcpy together: the way every writer in the framework uses the buffer. */
    method Append(bytes: seq<Byte>)
      requires Valid() && (View().MustGrow(|bytes|) ==> View().CanGrow()) && HasRoomFor(View(), |bytes|)
      requires |bytes| < U32
      modifies this, data
      ensures Valid() && (data == old(data) || fresh(data))
      ensures !old(View()).MustGrow(|bytes|) ==> data == old(data)
      ensures Step(old(View()), Write(|bytes|, bytes), View())
      ensures !old(View()).Rewound().Overruns(|bytes|) ==> View() == old(View()).Rewound().Filled(bytes)
      ensures KeepsContents(old(View()), |bytes|) ==> Contents() == old(Contents()) + bytes
    {
      ghost var b := View();
      hide PreparedTo, HasRoomFor, KeepsContents, Step;
      var ptr := GetWriteableAndMove(|bytes|);
      ghost var m := View().(writeable := ptr);
      WrittenVia(b, |bytes|, bytes, m);
      Store(ptr, bytes);
      assert View() == m.Filled(bytes);
    }

    method MoveWriteable(len: nat)
      requires Valid() && writeable + len <= capacity
      modifies this`writeable
      ensures Valid() && View() == old(View()).(writeable := old(writeable) + len)
    {
      writeable := writeable + len;
    }

    method Reset()
      requires Valid()
      modifies this, data
      ensures Valid() && data == old(data) && View() == Block(old(capacity), 0, 0, Zeros(old(capacity)))
    {
      readable, writeable := 0, 0;
      forall i | 0 <= i < data.Length {
        data[i] := 0;
      }
    }

    method Sort()
      requires Valid()
      modifies this, data
      ensures Valid() && data == old(data) && View() == old(View()).Compacted()
      ensures capacity == old(capacity) && readable == 0 && writeable == |old(Contents())|
      ensures old(readable) == 0 ==> data[..] == old(data[..])
      ensures old(readable) != 0 ==> data[..] == old(Contents()) + Zeros(capacity - writeable)
    {
      if readable == 0 {
        return;
      }
      ghost var b := View();
      var len := writeable - readable;
      forall i | 0 <= i < len {
        data[i] := data[readable + i];
      }
      assert data[..len] == b.Contents();
      readable, writeable := 0, len;
      forall i | len <= i < data.Length {
        data[i] := 0;
      }
      assert data[..len] == b.Contents() && data[len..] == Zeros(data.Length - len);
      ghost var bytes := data[..];
      assert bytes == bytes[..len] + bytes[len..];
    }

    method Incr()
      requires Valid() && View().CanGrow()
      modifies this
      ensures Valid() && fresh(data)
      ensures exists memory :: FreshMemory(memory, 2 * old(capacity)) && View() == old(View()).Grown(memory)
    {
      ghost var memory := Transplant();
      Sort();
    }

    /** The memcpy of n bytes of data. */
    method CopyFront(block: array<Byte>, n: nat)
      requires n <= block.Length && n <= data.Length && block != data
      modifies block
      ensures block[..] == data[..n] + old(block[..])[n..]
    {
      ghost var memory := block[..];
      forall i | 0 <= i < n {
        block[i] := data[i];
      }
      ghost var copied := block[..];
      assert copied[..n] == data[..n] && copied[n..] == memory[n..];
    }

    /** The allocation and the memcpy of incr(); the old block is dropped. */
    method Transplant() returns (ghost memory: seq<Byte>)
      requires Valid() && View().CanGrow()
      modifies this
      ensures Valid() && fresh(data)
      ensures FreshMemory(memory, 2 * old(capacity)) && View() == old(View()).Transplanted(memory)
    {
      CursorsCopied(View());
      assert (capacity + minCapacity) % U32 == 2 * capacity;
      hide CopiedCursor, FreshMemory;
      var block := InitHead((capacity + minCapacity) % U32);
      memory := block[..];
      var n := if capacity < COPIED_HEAD then 0 else capacity - COPIED_HEAD;
      CopyFront(block, n);
      readable, writeable := CopiedCursor(readable, capacity), CopiedCursor(writeable, capacity - 4);
      capacity, minCapacity, data := block.Length, block.Length, block;
    }
  }
}
