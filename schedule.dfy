/**
 * The traffic each driver operation produces, as pure values: the frame of
 * a single write, the address-then-read pair of a read, the way
 * `write_array` cuts its data into page and byte writes, and the sweep of
 * page reads that `dump` makes. The driver's methods are proved to append
 * exactly these traces to the bus log.
 */
module Schedule {
  import opened Wire

  /** What follows every write: one write-cycle pause when auto-wait is on, nothing otherwise. */
  function WaitTrace(autoWait: bool): (t: seq<Event>)
    ensures |t| <= 1
    ensures forall e :: e in t ==> e == Sleep(WriteCycleMs)
    ensures autoWait <==> t != []
  {
    if autoWait then [Sleep(WriteCycleMs)] else []
  }

  /** One write call of the driver: `write_page(address, page)` or `write_byte(address, value)`. */
  datatype Op = PageWrite(address: U16, page: seq<U8>) | ByteWrite(address: U16, value: U8)

  /** The data bytes an operation carries after the address. */
  function Payload(op: Op): (p: seq<U8>)
  {
    match op
    case PageWrite(_, page) => page
    case ByteWrite(_, value) => [value]
  }

  /** The bytes an operation sends in its single write transfer: the address, high byte first, then the payload. */
  function Frame(op: Op): (f: seq<U8>)
    ensures |f| == 2 + |Payload(op)|
  {
    AddressFrame(op.address) + Payload(op)
  }

  /** A frame is the two address bytes, which join back to the target address, followed by the payload. */
  lemma FrameLayout(op: Op)
    ensures Frame(op)[0] as int * 256 + Frame(op)[1] as int == op.address
    ensures Frame(op)[2..] == Payload(op)
  {
    assert Frame(op)[..2] == AddressFrame(op.address);
  }

  /** `write_byte` sends a three-byte frame: address high, address low, value. */
  lemma ByteFrameLayout(address: U16, value: U8)
    ensures Frame(ByteWrite(address, value)) == [Hi(address), Lo(address), value]
  {
  }

  /** `write_page` with 64 data bytes sends a 66-byte frame whose bytes from index 2 on are the data, in order. */
  lemma PageFrameLayout(address: U16, page: seq<U8>)
    requires |page| == PageSize
    ensures |Frame(PageWrite(address, page))| == PageSize + 2
    ensures Frame(PageWrite(address, page))[0] == Hi(address)
    ensures Frame(PageWrite(address, page))[1] == Lo(address)
    ensures forall k :: 0 <= k < PageSize ==> Frame(PageWrite(address, page))[2 + k] == page[k]
  {
  }

  /** The log entries of one write call: the frame, sent with a stop condition, then the optional pause. */
  function OpTrace(dev: U8, autoWait: bool, op: Op): (t: seq<Event>)
    ensures t != [] && t[0] == Write(dev, Frame(op), false)
    ensures forall e :: e in t[1..] ==> e == Sleep(WriteCycleMs)
    ensures autoWait <==> |t| == 2
  {
    [Write(dev, Frame(op), false)] + WaitTrace(autoWait)
  }

  /** The log entries of one read call: the address frame without a stop condition, then a read of `len` bytes with one. */
  function ReadTrace(dev: U8, address: U16, len: nat): (t: seq<Event>)
    ensures |t| == 2
    ensures t[0] == Write(dev, AddressFrame(address), true)
    ensures t[1] == Read(dev, len, false)
    ensures forall e :: e in t ==> !e.Sleep?
  {
    [Write(dev, AddressFrame(address), true), Read(dev, len, false)]
  }

  /** The log entries of a sequence of write calls, in order. */
  function PlanTrace(dev: U8, autoWait: bool, ops: seq<Op>): (t: seq<Event>)
    ensures autoWait ==> |t| == 2 * |ops|
    ensures !autoWait ==> |t| == |ops|
  {
    if ops == [] then [] else OpTrace(dev, autoWait, ops[0]) + PlanTrace(dev, autoWait, ops[1..])
  }

  /** The trace of two runs of writes, one after the other, is the first run's trace followed by the second's. */
  lemma {:induction false} PlanTraceAppend(dev: U8, autoWait: bool, x: seq<Op>, y: seq<Op>)
    ensures PlanTrace(dev, autoWait, x + y) == PlanTrace(dev, autoWait, x) + PlanTrace(dev, autoWait, y)
  {
    if x == [] {
      assert x + y == y;
    } else {
      assert (x + y)[0] == x[0];
      assert (x + y)[1..] == x[1..] + y;
      PlanTraceAppend(dev, autoWait, x[1..], y);
    }
  }

  /** A single write call's trace within a run. */
  lemma PlanTraceSingle(dev: U8, autoWait: bool, op: Op)
    ensures PlanTrace(dev, autoWait, [op]) == OpTrace(dev, autoWait, op)
  {
    assert [op][1..] == [];
  }

  /** With auto-wait, entries 2k and 2k + 1 of a run's trace are call k's write and its pause. */
  lemma {:induction false} PlanTraceWaitAt(dev: U8, ops: seq<Op>, k: nat)
    requires k < |ops|
    ensures 2 * k + 1 < |PlanTrace(dev, true, ops)|
    ensures PlanTrace(dev, true, ops)[2 * k] == Write(dev, Frame(ops[k]), false)
    ensures PlanTrace(dev, true, ops)[2 * k + 1] == Sleep(WriteCycleMs)
  {
    var head := [Write(dev, Frame(ops[0]), false), Sleep(WriteCycleMs)];
    var rest := PlanTrace(dev, true, ops[1..]);
    var whole := PlanTrace(dev, true, ops);
    assert OpTrace(dev, true, ops[0]) == head;
    assert whole == head + rest;
    if k > 0 {
      PlanTraceWaitAt(dev, ops[1..], k - 1);
      assert ops[1..][k - 1] == ops[k];
      assert whole[2 * k] == rest[2 * (k - 1)];
      assert whole[2 * k + 1] == rest[2 * (k - 1) + 1];
    }
  }

  /** Without auto-wait, entry k of a run's trace is call k's write. */
  lemma {:induction false} PlanTraceNoWaitAt(dev: U8, ops: seq<Op>, k: nat)
    requires k < |ops|
    ensures k < |PlanTrace(dev, false, ops)|
    ensures PlanTrace(dev, false, ops)[k] == Write(dev, Frame(ops[k]), false)
  {
    var rest := PlanTrace(dev, false, ops[1..]);
    assert OpTrace(dev, false, ops[0]) == [Write(dev, Frame(ops[0]), false)];
    assert PlanTrace(dev, false, ops) == [Write(dev, Frame(ops[0]), false)] + rest;
    if k > 0 {
      PlanTraceNoWaitAt(dev, ops[1..], k - 1);
      assert ops[1..][k - 1] == ops[k];
    }
  }

  /**
   * The auto-wait rule over any run of writes: with auto-wait, call k is the
   * write of its frame with a stop condition followed by a 10 ms pause;
   * without it, call k is that write alone and there is no pause anywhere.
   */
  lemma PlanTraceLayout(dev: U8, autoWait: bool, ops: seq<Op>)
    ensures autoWait ==> |PlanTrace(dev, autoWait, ops)| == 2 * |ops|
    ensures autoWait ==> forall k :: 0 <= k < |ops| ==>
      PlanTrace(dev, autoWait, ops)[2 * k] == Write(dev, Frame(ops[k]), false) &&
      PlanTrace(dev, autoWait, ops)[2 * k + 1] == Sleep(WriteCycleMs)
    ensures !autoWait ==> PlanTrace(dev, autoWait, ops) == seq(|ops|, k requires 0 <= k < |ops| => Write(dev, Frame(ops[k]), false))
  {
    if autoWait {
      forall k | 0 <= k < |ops|
        ensures PlanTrace(dev, true, ops)[2 * k] == Write(dev, Frame(ops[k]), false)
        ensures PlanTrace(dev, true, ops)[2 * k + 1] == Sleep(WriteCycleMs)
      {
        PlanTraceWaitAt(dev, ops, k);
      }
    } else {
      forall k | 0 <= k < |ops|
        ensures PlanTrace(dev, false, ops)[k] == Write(dev, Frame(ops[k]), false)
      {
        PlanTraceNoWaitAt(dev, ops, k);
      }
    }
  }

  /** The byte writes of `data[i .. length)`, byte `i + j` to `a + i + j` reduced to 16 bits. */
  function TailWrites(a: U16, data: seq<U8>, i: nat, length: nat): (w: seq<Op>)
    requires i <= length <= |data|
    ensures |w| == length - i
    ensures forall op :: op in w ==> op.ByteWrite?
  {
    seq(length - i, j requires 0 <= j < length - i => ByteWrite(Wrap16(a + i + j), data[i + j]))
  }

  /**
   * The calls `write_array(a, d, |d|)` makes once its counter has reached
   * `i`: while at least a page remains, one page write of the next 64 bytes
   * at `a + i`; when fewer remain, one byte write per remaining byte. Each
   * target address is reduced to 16 bits, as the C conversion does.
   */
  function PlanFrom(a: U16, d: seq<U8>, i: nat): (r: seq<Op>)
    ensures forall op :: op in r && op.PageWrite? ==> |op.page| == PageSize
    decreases |d| - i
  {
    if i >= |d| then []
    else if |d| - i < PageSize then TailWrites(a, d, i, |d|)
    else
      [PageWrite(Wrap16(a + i), d[i..i + PageSize])] + PlanFrom(a, d, i + PageSize)
  }

  /** One full stride of `write_array`: the calls made so far, plus this page write, plus what remains, are all of them. */
  lemma PageStep(dev: U8, autoWait: bool, a: U16, d: seq<U8>, i: nat, done: seq<Op>)
    requires i + PageSize <= |d|
    requires done + PlanFrom(a, d, i) == Plan(a, d)
    ensures (done + [PageWrite(Wrap16(a + i), d[i..i + PageSize])]) + PlanFrom(a, d, i + PageSize) == Plan(a, d)
    ensures PlanTrace(dev, autoWait, done + [PageWrite(Wrap16(a + i), d[i..i + PageSize])]) ==
      PlanTrace(dev, autoWait, done) + OpTrace(dev, autoWait, PageWrite(Wrap16(a + i), d[i..i + PageSize]))
  {
    var page := PageWrite(Wrap16(a + i), d[i..i + PageSize]);
    assert PlanFrom(a, d, i) == [page] + PlanFrom(a, d, i + PageSize);
    assert (done + [page]) + PlanFrom(a, d, i + PageSize) == done + ([page] + PlanFrom(a, d, i + PageSize));
    PlanTraceAppend(dev, autoWait, done, [page]);
    PlanTraceSingle(dev, autoWait, page);
  }

  /** The last, short stride of `write_array`: its byte writes complete the calls, and the counter then leaves nothing. */
  lemma TailStep(dev: U8, autoWait: bool, a: U16, d: seq<U8>, i: nat, done: seq<Op>)
    requires i < |d| < i + PageSize
    requires done + PlanFrom(a, d, i) == Plan(a, d)
    ensures done + TailWrites(a, d, i, |d|) == Plan(a, d)
    ensures PlanFrom(a, d, i + PageSize) == []
    ensures PlanTrace(dev, autoWait, done + TailWrites(a, d, i, |d|)) ==
      PlanTrace(dev, autoWait, done) + PlanTrace(dev, autoWait, TailWrites(a, d, i, |d|))
  {
    PlanTraceAppend(dev, autoWait, done, TailWrites(a, d, i, |d|));
  }

  /** Concatenation of sequences is associative. */
  lemma AppendAssoc<T>(x: seq<T>, y: seq<T>, z: seq<T>)
    ensures (x + y) + z == x + (y + z)
  {
  }

  /** A log that already holds the trace of `done` and then gains the trace of `next` holds the trace of both. */
  lemma LogStep(dev: U8, autoWait: bool, log0: seq<Event>, log1: seq<Event>, log2: seq<Event>, done: seq<Op>, next: seq<Op>)
    requires log1 == log0 + PlanTrace(dev, autoWait, done)
    requires log2 == log1 + PlanTrace(dev, autoWait, next)
    ensures log2 == log0 + PlanTrace(dev, autoWait, done + next)
  {
    AppendAssoc(log0, PlanTrace(dev, autoWait, done), PlanTrace(dev, autoWait, next));
    PlanTraceAppend(dev, autoWait, done, next);
  }

  /** The calls `write_array(a, d, |d|)` makes. */
  function Plan(a: U16, d: seq<U8>): (r: seq<Op>)
    ensures |r| == |d| / PageSize + |d| % PageSize
    ensures forall op :: op in r && op.PageWrite? ==> |op.page| == PageSize
  {
    PlanFromLength(a, d, 0, |d| / PageSize);
    PlanFrom(a, d, 0)
  }

  /** From counter `i` on, with m whole pages and then fewer than 64 bytes left, there are m page writes and one byte write per leftover byte. */
  lemma {:induction false} PlanFromLength(a: U16, d: seq<U8>, i: nat, m: nat)
    requires i + PageSize * m <= |d| < i + PageSize * m + PageSize
    ensures |PlanFrom(a, d, i)| == m + (|d| - i - PageSize * m)
    decreases m
  {
    if m > 0 {
      PlanFromLength(a, d, i + PageSize, m - 1);
    }
  }

  /** From counter `i` on, call k (k below the page count m) is the page write of the k-th next 64 bytes at `a + i + 64k`. */
  lemma {:induction false} PlanFromPage(a: U16, d: seq<U8>, i: nat, m: nat, k: nat)
    requires i + PageSize * m <= |d| < i + PageSize * m + PageSize
    requires k < m
    ensures k < |PlanFrom(a, d, i)|
    ensures PlanFrom(a, d, i)[k] == PageWrite(Wrap16(a + i + PageSize * k), d[i + PageSize * k .. i + PageSize * k + PageSize])
    decreases k
  {
    PlanFromLength(a, d, i, m);
    var rest := PlanFrom(a, d, i + PageSize);
    assert PlanFrom(a, d, i) == [PageWrite(Wrap16(a + i), d[i..i + PageSize])] + rest;
    if k > 0 {
      PlanFromPage(a, d, i + PageSize, m - 1, k - 1);
    }
  }

  /** From counter `i` on, the call after the m page writes numbered j is the byte write of leftover byte j. */
  lemma {:induction false} PlanFromByte(a: U16, d: seq<U8>, i: nat, m: nat, j: nat)
    requires i + PageSize * m <= |d| < i + PageSize * m + PageSize
    requires j < |d| - i - PageSize * m
    ensures m + j < |PlanFrom(a, d, i)|
    ensures PlanFrom(a, d, i)[m + j] == ByteWrite(Wrap16(a + i + PageSize * m + j), d[i + PageSize * m + j])
    decreases m
  {
    PlanFromLength(a, d, i, m);
    if m > 0 {
      var rest := PlanFrom(a, d, i + PageSize);
      assert PlanFrom(a, d, i) == [PageWrite(Wrap16(a + i), d[i..i + PageSize])] + rest;
      PlanFromByte(a, d, i + PageSize, m - 1, j);
    }
  }

  /**
   * `write_array(a, d, |d|)` makes `|d| / 64` page writes, page call k at
   * `a + 64k` with data bytes `[64k, 64k + 64)`, and then `|d| % 64` byte
   * writes, byte call j at the address just past the pages plus j with the
   * matching data byte; every address is reduced to 16 bits.
   */
  lemma PlanLayout(a: U16, d: seq<U8>)
    ensures |Plan(a, d)| == |d| / PageSize + |d| % PageSize
    ensures forall k :: 0 <= k < |d| / PageSize ==>
      Plan(a, d)[k] == PageWrite(Wrap16(a + PageSize * k), d[PageSize * k .. PageSize * k + PageSize])
    ensures forall j :: |d| / PageSize <= j < |Plan(a, d)| ==>
      Plan(a, d)[j] == ByteWrite(Wrap16(a + PageSize * (|d| / PageSize) + (j - |d| / PageSize)), d[PageSize * (|d| / PageSize) + (j - |d| / PageSize)])
  {
    var m, r := |d| / PageSize, |d| % PageSize;
    assert |d| == PageSize * m + r && 0 <= r < PageSize;
    PlanFromLength(a, d, 0, m);
    PlanPages(a, d, m);
    PlanBytes(a, d, m);
  }

  /** The first m calls of the plan are page writes, when the data holds m whole pages and less than one more. */
  lemma PlanPages(a: U16, d: seq<U8>, m: nat)
    requires PageSize * m <= |d| < PageSize * m + PageSize
    ensures |Plan(a, d)| == m + (|d| - PageSize * m)
    ensures forall k :: 0 <= k < m ==> Plan(a, d)[k] == PageWrite(Wrap16(a + PageSize * k), d[PageSize * k .. PageSize * k + PageSize])
  {
    PlanFromLength(a, d, 0, m);
    forall k | 0 <= k < m
      ensures Plan(a, d)[k] == PageWrite(Wrap16(a + PageSize * k), d[PageSize * k .. PageSize * k + PageSize])
    {
      PlanFromPage(a, d, 0, m, k);
    }
  }

  /** After the m page writes come the byte writes of the leftover bytes, in order. */
  lemma PlanBytes(a: U16, d: seq<U8>, m: nat)
    requires PageSize * m <= |d| < PageSize * m + PageSize
    ensures |Plan(a, d)| == m + (|d| - PageSize * m)
    ensures forall j :: m <= j < |Plan(a, d)| ==> Plan(a, d)[j] == ByteWrite(Wrap16(a + PageSize * m + (j - m)), d[PageSize * m + (j - m)])
  {
    PlanFromLength(a, d, 0, m);
    forall j | m <= j < |Plan(a, d)|
      ensures Plan(a, d)[j] == ByteWrite(Wrap16(a + PageSize * m + (j - m)), d[PageSize * m + (j - m)])
    {
      PlanFromByte(a, d, 0, m, j - m);
    }
  }

  /**
   * The three shapes the source's comments and loop give: no data means no
   * calls, less than a page means only byte writes (one per byte), and a
   * whole number of pages means only page writes (one per page).
   */
  lemma PlanSpecialCases(a: U16, d: seq<U8>)
    ensures |d| == 0 ==> Plan(a, d) == []
    ensures |d| < PageSize ==> |Plan(a, d)| == |d| && forall op :: op in Plan(a, d) ==> op.ByteWrite?
    ensures |d| % PageSize == 0 ==>
      |Plan(a, d)| == |d| / PageSize && forall op :: op in Plan(a, d) ==> op.PageWrite?
  {
    PlanLayout(a, d);
  }

  /** A page-aligned start keeps every page write page-aligned, so none of them straddles two pages. */
  lemma PlanPagesAligned(a: U16, d: seq<U8>)
    requires a % 64 == 0
    ensures forall op :: op in Plan(a, d) && op.PageWrite? ==> op.address % 64 == 0
  {
    PlanLayout(a, d);
    var p := Plan(a, d);
    forall op | op in p && op.PageWrite?
      ensures op.address % 64 == 0
    {
      var idx :| 0 <= idx < |p| && p[idx] == op;
      assert idx < |d| / 64;
      Wrap16Aligned(a, idx);
    }
  }

  /** Reducing a multiple of 64 to 16 bits leaves a multiple of 64, since 2^16 is one. */
  lemma Wrap16Aligned(a: int, k: int)
    requires a % 64 == 0
    ensures Wrap16(a + 64 * k) % 64 == 0
  {
    var x := a + 64 * k;
    var q := x / 0x1_0000;
    assert a == 64 * (a / 64);
    assert Wrap16(x) == x - 0x1_0000 * q;
    assert Wrap16(x) == 64 * (a / 64 + k - 1024 * q);
  }

  /** The (address, value) pairs a call is meant to store: payload byte t goes to the call's address plus t. */
  function Cells(op: Op): (c: seq<(U16, U8)>)
    ensures |c| == |Payload(op)|
  {
    seq(|Payload(op)|, t requires 0 <= t < |Payload(op)| => (Wrap16(op.address + t), Payload(op)[t]))
  }

  /** The (address, value) pairs of a run of calls, in the order they are sent. */
  function AllCells(ops: seq<Op>): (c: seq<(U16, U8)>)
    ensures c == [] <==> forall op :: op in ops ==> Payload(op) == []
  {
    if ops == [] then [] else Cells(ops[0]) + AllCells(ops[1..])
  }

  /** Reducing twice to 16 bits is reducing once. */
  lemma Wrap16Shift(x: int, t: int)
    ensures Wrap16(Wrap16(x) + t) == Wrap16(x + t)
  {
    var q := x / 0x1_0000;
    assert x + t == Wrap16(x) + t + q * 0x1_0000;
  }

  /** Bytes `data[i .. length)` paired with their addresses `a + i`, `a + i + 1`, …, reduced to 16 bits. */
  function Placed(a: U16, d: seq<U8>, i: nat, length: nat): seq<(U16, U8)>
    requires i <= length <= |d|
  {
    seq(length - i, t requires 0 <= t < length - i => (Wrap16(a + i + t), d[i + t]))
  }

  /** Placing a range of bytes is placing its first part, then its second part. */
  lemma PlacedSplit(a: U16, d: seq<U8>, i: nat, mid: nat, length: nat)
    requires i <= mid <= length <= |d|
    ensures Placed(a, d, i, length) == Placed(a, d, i, mid) + Placed(a, d, mid, length)
  {
    var x, y := Placed(a, d, i, mid), Placed(a, d, mid, length);
    forall t | mid - i <= t < length - i
      ensures (x + y)[t] == (Wrap16(a + i + t), d[i + t])
    {
      assert (x + y)[t] == y[t - (mid - i)];
    }
  }

  /** One more step of the byte loop adds the byte write of the next byte at the end. */
  lemma TailWritesNext(a: U16, d: seq<U8>, i: nat, j: nat)
    requires i + j < |d|
    ensures TailWrites(a, d, i, i + j + 1) == TailWrites(a, d, i, i + j) + [ByteWrite(Wrap16(a + i + j), d[i + j])]
  {
  }

  /** The byte writes of a non-empty range start with the write of its first byte. */
  lemma TailWritesFirst(a: U16, d: seq<U8>, i: nat, length: nat)
    requires i < length <= |d|
    ensures TailWrites(a, d, i, length) == [ByteWrite(Wrap16(a + i), d[i])] + TailWrites(a, d, i + 1, length)
  {
    var s, rest := TailWrites(a, d, i, length), TailWrites(a, d, i + 1, length);
    forall t | 1 <= t < length - i
      ensures s[t] == rest[t - 1]
    {
    }
  }

  /** A byte write stores its single byte at its own address. */
  lemma ByteCells(a: U16, d: seq<U8>, i: nat)
    requires i < |d|
    ensures Cells(ByteWrite(Wrap16(a + i), d[i])) == Placed(a, d, i, i + 1)
  {
    Wrap16Shift(a + i, 0);
  }

  /** The byte writes of a range store exactly that range, byte by byte at consecutive addresses. */
  lemma {:induction false} TailCells(a: U16, d: seq<U8>, i: nat, length: nat)
    requires i <= length <= |d|
    ensures AllCells(TailWrites(a, d, i, length)) == Placed(a, d, i, length)
    decreases length - i
  {
    if i < length {
      var first := ByteWrite(Wrap16(a + i), d[i]);
      var rest := TailWrites(a, d, i + 1, length);
      TailWritesFirst(a, d, i, length);
      assert ([first] + rest)[1..] == rest;
      TailCells(a, d, i + 1, length);
      ByteCells(a, d, i);
      PlacedSplit(a, d, i, i + 1, length);
    }
  }

  /** A page write of the 64 bytes from counter `i` stores them at `a + i`, `a + i + 1`, …. */
  lemma PageCells(a: U16, d: seq<U8>, i: nat)
    requires i + 64 <= |d|
    ensures Cells(PageWrite(Wrap16(a + i), d[i..i + 64])) == Placed(a, d, i, i + 64)
  {
    var cells := Cells(PageWrite(Wrap16(a + i), d[i..i + 64]));
    forall t | 0 <= t < 64
      ensures cells[t] == (Wrap16(a + i + t), d[i + t])
    {
      Wrap16Shift(a + i, t);
    }
  }

  /** From counter `i` on, the calls store exactly `d[i ..]` at consecutive addresses from `a + i`. */
  lemma {:induction false} PlanFromCells(a: U16, d: seq<U8>, i: nat)
    requires i <= |d|
    ensures AllCells(PlanFrom(a, d, i)) == Placed(a, d, i, |d|)
    decreases |d| - i
  {
    var n := |d| - i;
    if n == 0 {
    } else if n < 64 {
      TailCells(a, d, i, |d|);
    } else {
      var page := PageWrite(Wrap16(a + i), d[i..i + 64]);
      var rest := PlanFrom(a, d, i + 64);
      var ops := [page] + rest;
      assert PlanFrom(a, d, i) == ops;
      assert ops[0] == page && ops[1..] == rest;
      assert AllCells(ops) == Cells(page) + AllCells(rest);
      PlanFromCells(a, d, i + 64);
      PageCells(a, d, i);
      PlacedSplit(a, d, i, i + 64, |d|);
    }
  }

  /**
   * `write_array(a, d, |d|)` stores the data in order: taken together, its
   * calls carry exactly the |d| data bytes, byte t meant for address
   * `(a + t) mod 2^16`, with nothing skipped, repeated or reordered.
   */
  lemma PlanCells(a: U16, d: seq<U8>)
    ensures AllCells(Plan(a, d)) == seq(|d|, t requires 0 <= t < |d| => (Wrap16(a + t), d[t]))
  {
    PlanFromCells(a, d, 0);
    assert Placed(a, d, 0, |d|) == seq(|d|, t requires 0 <= t < |d| => (Wrap16(a + t), d[t]));
  }

  /**
   * When the caller keeps the data inside the chip (`a + |d|` at most
   * 32768), no address wraps: byte t is meant for exactly `a + t`.
   */
  lemma PlanCellsInMemory(a: U16, d: seq<U8>)
    requires a + |d| <= Capacity
    ensures |AllCells(Plan(a, d))| == |d|
    ensures forall t :: 0 <= t < |d| ==> AllCells(Plan(a, d))[t] == (a + t, d[t])
  {
    PlanCells(a, d);
    CellsInMemory(a, d, AllCells(Plan(a, d)));
  }

  /** Within the chip no address wraps, so the cells of bytes placed from `a` are exactly `(a + t, d[t])`. */
  lemma CellsInMemory(a: U16, d: seq<U8>, c: seq<(U16, U8)>)
    requires a + |d| <= Capacity
    requires c == seq(|d|, t requires 0 <= t < |d| => (Wrap16(a + t), d[t]))
    ensures |c| == |d|
    ensures forall t :: 0 <= t < |d| ==> c[t] == (a + t, d[t])
  {
    forall t | 0 <= t < |d|
      ensures c[t] == (a + t, d[t])
    {
      assert Wrap16(a + t) == a + t;
    }
  }

  /** The log entries of the first `n` calls of `dump`'s sweep: `read_page(64k, …)` for k below n. */
  function SweepTrace(dev: U8, n: nat): (t: seq<Event>)
    ensures |t| == 2 * n
  {
    if n == 0 then [] else SweepTrace(dev, n - 1) + ReadTrace(dev, Wrap16(PageSize * (n - 1)), PageSize)
  }

  /** The sweep's next call, written with the page address the loop passes: the k-th read is at 64k, which 16 bits hold. */
  lemma SweepStep(dev: U8, k: nat)
    requires k < PageCount
    ensures SweepTrace(dev, k + 1) == SweepTrace(dev, k) + ReadTrace(dev, 64 * k, 64)
  {
    assert PageSize == 64;
    assert Wrap16(PageSize * k) == 64 * k;
  }


  /** Entries 2k and 2k + 1 of the first n sweep calls are call k's address write and read. */
  lemma {:induction false} SweepAt(dev: U8, n: nat, k: nat)
    requires k < n <= PageCount
    ensures 2 * k + 1 < |SweepTrace(dev, n)|
    ensures SweepTrace(dev, n)[2 * k] == Write(dev, AddressFrame(64 * k), true)
    ensures SweepTrace(dev, n)[2 * k + 1] == Read(dev, 64, false)
  {
    SweepStep(dev, n - 1);
    if k < n - 1 {
      SweepAt(dev, n - 1, k);
    }
  }

  /**
   * `dump`'s traffic: call k sets the address to 64k (bus held) and reads
   * 64 bytes, for k = 0, 1, … in increasing order, and nothing else.
   */
  lemma SweepLayout(dev: U8, n: nat)
    requires n <= PageCount
    ensures |SweepTrace(dev, n)| == 2 * n
    ensures forall k :: 0 <= k < n ==>
      SweepTrace(dev, n)[2 * k] == Write(dev, AddressFrame(PageSize * k), true) &&
      SweepTrace(dev, n)[2 * k + 1] == Read(dev, PageSize, false)
  {
    forall k | 0 <= k < n
      ensures SweepTrace(dev, n)[2 * k] == Write(dev, AddressFrame(PageSize * k), true)
      ensures SweepTrace(dev, n)[2 * k + 1] == Read(dev, PageSize, false)
    {
      SweepAt(dev, n, k);
    }
  }

  /** Byte p lies in page k exactly when it is byte p - 64k of that page. */
  lemma InPage(p: int, k: int)
    requires 64 * k <= p < 64 * k + 64
    ensures p / 64 == k && p % 64 == p - 64 * k
  {
  }

  /**
   * Whether a log entry is an address write naming a page start s with
   * byte p in `[s, s + 64)`: the page the read after it fetches, and, since
   * `dump` reads page s into `buffer[s ..]`, the buffer bytes it fills.
   */
  predicate Covers(e: Event, p: int) {
    e.Write? && |e.bytes| == 2 &&
    e.bytes[0] * 256 + e.bytes[1] <= p < e.bytes[0] * 256 + e.bytes[1] + PageSize
  }

  /**
   * The 512 reads of `dump`'s sweep tile the 32768 bytes of the chip: for
   * every byte p, address write 2(p/64) of the sweep names the page holding
   * p and is followed by a 64-byte read, and no other address write of the
   * sweep names a page holding p.
   */
  lemma SweepRegionsTile(dev: U8)
    ensures |SweepTrace(dev, PageCount)| == 2 * PageCount
    ensures forall p :: 0 <= p < Capacity ==>
      Covers(SweepTrace(dev, PageCount)[2 * (p / PageSize)], p) &&
      SweepTrace(dev, PageCount)[2 * (p / PageSize) + 1] == Read(dev, PageSize, false)
    ensures forall k, p :: 0 <= k < PageCount && Covers(SweepTrace(dev, PageCount)[2 * k], p) ==> k == p / PageSize
  {
    var t := SweepTrace(dev, PageCount);
    forall p | 0 <= p < Capacity
      ensures Covers(t[2 * (p / PageSize)], p) && t[2 * (p / PageSize) + 1] == Read(dev, PageSize, false)
    {
      SweepAt(dev, PageCount, p / PageSize);
    }
    forall k, p | 0 <= k < PageCount && Covers(t[2 * k], p)
      ensures k == p / PageSize
    {
      SweepAt(dev, PageCount, k);
      InPage(p, k);
    }
  }
}
