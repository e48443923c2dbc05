/** arm_circularWrite_q15 and arm_circularRead_q15, against a delay line. */
module CircularBuffer {
  import Bits

  /** One circular step: a single conditional subtraction, as in the source. */
  function Next(offset: int, inc: int, L: int): (r: int)
    ensures 0 <= offset < L && 0 <= inc <= L ==> 0 <= r < L
  {
    if offset + inc >= L then offset + inc - L else offset + inc
  }

  /** Every cell that `n` circular steps touch lies in a buffer of `size` cells. */
  ghost predicate Inside(size: nat, L: int, offset: int, inc: int, n: nat)
    decreases n
  {
    n == 0 || (0 <= offset < size && Inside(size, L, Next(offset, inc, L), inc, n - 1))
  }

  /** Increments from 0 to L always stay inside; a negative one stays inside exactly while it does not
      pass cell 0, since nothing wraps it; one beyond L climbs by what it exceeds L. */
  lemma InsideExactly(size: nat, L: int, offset: int, inc: int, n: nat)
    requires 0 <= offset < L <= size
    ensures Inside(size, L, offset, inc, n) <==>
      || n == 0 || 0 <= inc <= L
      || (inc < 0 && offset + (n - 1) * inc >= 0)
      || (inc > L && offset + (n - 1) * (inc - L) < size)
  {
    if inc < 0 {
      InsideBackward(size, L, offset, inc, n);
    } else if inc <= L {
      InsideForward(size, L, offset, inc, n);
    } else {
      InsideClimbing(size, L, offset, inc, n);
    }
  }

  lemma {:induction false} InsideForward(size: nat, L: int, offset: int, inc: int, n: nat)
    requires 0 <= offset < L <= size && 0 <= inc <= L
    ensures Inside(size, L, offset, inc, n)
    decreases n
  {
    if n > 0 {
      InsideForward(size, L, Next(offset, inc, L), inc, n - 1);
    }
  }

  lemma {:induction false} InsideBackward(size: nat, L: int, offset: int, inc: int, n: nat)
    requires offset < L <= size && inc < 0
    ensures Inside(size, L, offset, inc, n) <==> n == 0 || offset + (n - 1) * inc >= 0
    decreases n
  {
    if n > 0 {
      InsideBackward(size, L, offset + inc, inc, n - 1);
      Spread(n - 1, inc);
      if n > 1 && offset < 0 {
        Bits.MulMono(n - 1, inc, 0);
      }
    }
  }

  lemma {:induction false} InsideClimbing(size: nat, L: int, offset: int, inc: int, n: nat)
    requires 0 <= offset && 0 < L <= size && inc > L
    ensures Inside(size, L, offset, inc, n) <==> n == 0 || offset + (n - 1) * (inc - L) < size
    decreases n
  {
    if n > 0 {
      InsideClimbing(size, L, offset + (inc - L), inc, n - 1);
      Spread(n - 1, inc - L);
      if n > 1 && offset >= size {
        Bits.MulMono(n - 1, 0, inc - L);
      }
    }
  }

  lemma Spread(n: nat, inc: int)
    ensures n * inc == inc + (n - 1) * inc
  {
  }

  /** Two samples with increment -1 from cell 0 leave the buffer. */
  lemma BackwardLeaves(size: nat, L: int)
    requires 0 < L <= size
    ensures !Inside(size, L, 0, -1, 2)
  {
    InsideExactly(size, L, 0, -1, 2);
  }

  /** The `n` cells from `start` in steps of `inc` all lie below `length`. */
  ghost predicate InBounds(length: nat, start: int, inc: int, n: nat)
    decreases n
  {
    n == 0 || (0 <= start < length && InBounds(length, start + inc, inc, n - 1))
  }

  /** The values in those cells. */
  ghost function Strided(src: seq<int>, start: int, inc: int, n: nat): (block: seq<int>)
    requires InBounds(|src|, start, inc, n)
    ensures |block| == n
    decreases n
  {
    if n == 0 then [] else [src[start]] + Strided(src, start + inc, inc, n - 1)
  }

  /** Every cell of the walk lies in the source, and the block holds them in order. */
  lemma {:induction false} StridedCell(src: seq<int>, start: int, inc: int, n: nat, k: nat)
    requires InBounds(|src|, start, inc, n) && k < n
    ensures 0 <= start + k * inc < |src| && Strided(src, start, inc, n)[k] == src[start + k * inc]
    decreases n
  {
    if k > 0 {
      StridedCell(src, start + inc, inc, n - 1, k - 1);
      Spread(k, inc);
    }
  }

  lemma {:induction false} InBoundsExactly(length: nat, start: int, inc: int, n: nat)
    ensures InBounds(length, start, inc, n) <==>
      n == 0 || (0 <= start < length && 0 <= start + (n - 1) * inc < length)
    decreases n
  {
    if n > 0 {
      InBoundsExactly(length, start + inc, inc, n - 1);
      Spread(n - 1, inc);
      if n > 1 && 0 <= start < length && 0 <= start + (n - 1) * inc < length {
        Between(start, inc, n - 1, length);
      }
    }
  }

  /** Between two cells of a walk there are no others outside. */
  lemma Between(start: int, inc: int, n: nat, length: nat)
    requires n > 0 && 0 <= start < length && 0 <= start + n * inc < length
    ensures 0 <= start + inc < length
  {
    Spread(n, inc);
    if inc >= 0 {
      Bits.MulMono(n - 1, 0, inc);
    } else {
      Bits.MulMono(n - 1, inc, 0);
    }
  }

  /** Buffer and offset after the loop over a block. */
  ghost function Written(buf: seq<int>, L: int, offset: int, inc: int, block: seq<int>): (r: (seq<int>, int))
    ensures |r.0| == |buf|
    ensures 0 <= offset < L && 0 <= inc <= L ==> 0 <= r.1 < L
    decreases block
  {
    if block == [] then (buf, offset)
    else
      var stored := if 0 <= offset < |buf| then buf[offset := block[0]] else buf;
      Written(stored, L, Next(offset, inc, L), inc, block[1..])
  }

  /** Buffer and offset after a call, which hands the offset back through a 16-bit pointer. */
  ghost function Returned(buf: seq<int>, L: int, offset: int, inc: int, block: seq<int>): (r: (seq<int>, nat))
    ensures |r.0| == |buf| && r.1 < 0x1_0000
    ensures 0 <= offset < L && 0 <= inc <= L ==> r.1 < L
  {
    var r := Written(buf, L, offset, inc, block);
    (r.0, r.1 % 0x1_0000)
  }

  /** How far cell `p` lies ahead of the offset. */
  function Ahead(offset: nat, p: nat, L: nat): (k: nat)
    requires offset < L && p < L
    ensures k < L && (offset + k == p || offset + k == p + L)
  {
    if p >= offset then p - offset else p - offset + L
  }

  /** Any increment, as long as the cells it touches exist. */
  method CircularWrite(circ: array<int>, L: int, writeOffset: nat, bufferInc: int,
                       src: array<int>, srcStart: int, srcInc: int, blockSize: nat)
    returns (newOffset: nat)
    requires Inside(circ.Length, L, writeOffset, bufferInc, blockSize) && src != circ
    requires InBounds(src.Length, srcStart, srcInc, blockSize)
    modifies circ
    ensures (circ[..], newOffset) ==
      Returned(old(circ[..]), L, writeOffset, bufferInc, Strided(src[..], srcStart, srcInc, blockSize))
    ensures bufferInc == 1 && blockSize <= L && writeOffset < L <= circ.Length ==>
      forall p :: 0 <= p < circ.Length ==>
        if p < L && Ahead(writeOffset, p, L) < blockSize then
          var q := srcStart + Ahead(writeOffset, p, L) * srcInc; 0 <= q < src.Length && circ[p] == src[q]
        else circ[p] == old(circ[p])
    ensures 0 <= bufferInc <= L && writeOffset < L ==>
      newOffset == (writeOffset + blockSize * bufferInc) % L % 0x1_0000
  {
    hide Written, Strided, InBounds, Inside, Next, Ahead;
    ghost var was := circ[..];
    var wOffset, p, i: int := writeOffset, srcStart, blockSize;
    ghost var goal := Written(circ[..], L, writeOffset, bufferInc, Strided(src[..], srcStart, srcInc, blockSize));
    while i > 0
      invariant 0 <= i && Inside(circ.Length, L, wOffset, bufferInc, i) && InBounds(src.Length, p, srcInc, i)
      invariant Written(circ[..], L, wOffset, bufferInc, Strided(src[..], p, srcInc, i)) == goal
    {
      WriteStep(circ[..], L, wOffset, bufferInc, src[..], p, srcInc, i);
      ghost var before := circ[..];
      circ[wOffset] := src[p];
      assert circ[..] == before[wOffset := src[p]];
      p := p + srcInc;
      wOffset := wOffset + bufferInc;
      if wOffset >= L {
        wOffset := wOffset - L;
      }
      i := i - 1;
    }
    newOffset := wOffset % 0x1_0000;
    WriteNothing(circ[..], L, wOffset, bufferInc, src[..], p, srcInc);
    if 0 <= bufferInc <= L && writeOffset < L {
      WrittenOffset(was, L, writeOffset, bufferInc, Strided(src[..], srcStart, srcInc, blockSize));
    }
    if bufferInc == 1 && blockSize <= L && writeOffset < L <= circ.Length {
      forall p | 0 <= p < circ.Length
        ensures
          if p < L && Ahead(writeOffset, p, L) < blockSize then
            var q := srcStart + Ahead(writeOffset, p, L) * srcInc; 0 <= q < src.Length && circ[p] == src[q]
          else circ[p] == was[p]
      {
        WrittenFrom(was, L, writeOffset, src[..], srcStart, srcInc, blockSize, p);
      }
    }
  }

  /** One turn of the loop, and none. */
  lemma WriteStep(buf: seq<int>, L: int, offset: int, inc: int, src: seq<int>, start: int, srcInc: int, n: nat)
    requires n > 0 && Inside(|buf|, L, offset, inc, n) && InBounds(|src|, start, srcInc, n)
    ensures 0 <= offset < |buf| && 0 <= start < |src| && InBounds(|src|, start + srcInc, srcInc, n - 1)
    ensures var next := if offset + inc >= L then offset + inc - L else offset + inc;
      && Inside(|buf|, L, next, inc, n - 1)
      && Written(buf[offset := src[start]], L, next, inc, Strided(src, start + srcInc, srcInc, n - 1)) ==
         Written(buf, L, offset, inc, Strided(src, start, srcInc, n))
  {
    var rest := Strided(src, start + srcInc, srcInc, n - 1);
    assert Strided(src, start, srcInc, n) == [src[start]] + rest;
    assert ([src[start]] + rest)[1..] == rest;
  }

  lemma WriteNothing(buf: seq<int>, L: int, offset: int, inc: int, src: seq<int>, start: int, srcInc: int)
    ensures Written(buf, L, offset, inc, Strided(src, start, srcInc, 0)) == (buf, offset)
  {
  }

  lemma WrittenFrom(buf: seq<int>, L: nat, offset: nat, src: seq<int>, start: int, inc: int, n: nat, p: nat)
    requires offset < L <= |buf| && InBounds(|src|, start, inc, n) && n <= L && p < |buf|
    ensures
      var cell := Written(buf, L, offset, 1, Strided(src, start, inc, n)).0[p];
      if p < L && Ahead(offset, p, L) < n then
        var q := start + Ahead(offset, p, L) * inc; 0 <= q < |src| && cell == src[q]
      else cell == buf[p]
  {
    hide Written, Strided, InBounds, Ahead;
    WrittenCell(buf, L, offset, Strided(src, start, inc, n), p);
    if p < L && Ahead(offset, p, L) < n {
      StridedCell(src, start, inc, n, Ahead(offset, p, L));
    }
  }

  /** One step modulo the length, and the cell of any step, counted from here and from the next. */
  lemma NextIsModulo(offset: int, inc: int, L: int, k: nat)
    requires 0 <= offset < L && 0 <= inc <= L
    ensures Next(offset, inc, L) == (offset + inc) % L
    ensures (Next(offset, inc, L) + k * inc) % L == (offset + (k + 1) * inc) % L
  {
    hide Next;
    var next := Next(offset, inc, L);
    NextLeaves(offset, inc, L);
    var turn := if offset + inc >= L then 1 else 0;
    Bits.DivModUnique(offset + inc, L, turn, next);
    var q, r := (next + k * inc) / L, (next + k * inc) % L;
    assert next + k * inc == L * q + r;
    Spread(k + 1, inc);
    SplitTurn(L, q, turn);
    Bits.DivModUnique(offset + (k + 1) * inc, L, q + turn, r);
  }

  lemma NextLeaves(offset: int, inc: int, L: int)
    requires 0 <= offset < L && 0 <= inc <= L
    ensures 0 <= Next(offset, inc, L) < L
    ensures offset + inc == Next(offset, inc, L) + if offset + inc >= L then L else 0
  {
  }

  lemma SplitTurn(L: int, q: int, turn: int)
    requires 0 <= turn <= 1
    ensures L * (q + turn) == L * q + if turn == 1 then L else 0
  {
  }

  lemma {:induction false} WrittenOffset(buf: seq<int>, L: int, offset: int, inc: int, block: seq<int>)
    requires 0 <= offset < L && 0 <= inc <= L
    ensures Written(buf, L, offset, inc, block).1 == (offset + |block| * inc) % L
    decreases block
  {
    if block == [] {
      Bits.DivModUnique(offset, L, 0, offset);
    } else {
      var stored := if offset < |buf| then buf[offset := block[0]] else buf;
      WrittenOffset(stored, L, Next(offset, inc, L), inc, block[1..]);
      NextIsModulo(offset, inc, L, |block| - 1);
    }
  }

  /** The cell that the `k`-th step of a walk touches. */
  ghost function Cell(offset: int, inc: int, L: int, k: nat): int
    requires L > 0
  {
    (offset + k * inc) % L
  }

  /** Any increment that wraps: a cell holds the last sample put into it, and a cell that the walk does
      not touch keeps its contents. */
  lemma {:induction false} WrittenLast(buf: seq<int>, L: int, offset: int, inc: int, block: seq<int>, k: nat)
    requires 0 <= offset < L <= |buf| && 0 <= inc <= L && k < |block|
    requires forall j: nat :: k < j < |block| ==> Cell(offset, inc, L, j) != (offset + k * inc) % L
    ensures Written(buf, L, offset, inc, block).0[(offset + k * inc) % L] == block[k]
    decreases block
  {
    var next, rest := Next(offset, inc, L), block[1..];
    forall j: nat | k < j + 1 < |block|
      ensures Cell(next, inc, L, j) == Cell(offset, inc, L, j + 1) != (offset + k * inc) % L
    {
      NextIsModulo(offset, inc, L, j);
    }
    if k == 0 {
      Bits.DivModUnique(offset, L, 0, offset);
      Untouched(buf[offset := block[0]], L, next, inc, rest, offset);
    } else {
      NextIsModulo(offset, inc, L, k - 1);
      WrittenLast(buf[offset := block[0]], L, next, inc, rest, k - 1);
    }
  }

  lemma {:induction false} Untouched(buf: seq<int>, L: int, offset: int, inc: int, block: seq<int>, p: nat)
    requires 0 <= offset < L <= |buf| && 0 <= inc <= L && p < |buf|
    requires forall j: nat :: j < |block| ==> Cell(offset, inc, L, j) != p
    ensures Written(buf, L, offset, inc, block).0[p] == buf[p]
    decreases block
  {
    if block != [] {
      var next := Next(offset, inc, L);
      Bits.DivModUnique(offset, L, 0, offset);
      assert Cell(offset, inc, L, 0) == offset;
      forall j: nat | j < |block| - 1
        ensures Cell(next, inc, L, j) == Cell(offset, inc, L, j + 1)
      {
        NextIsModulo(offset, inc, L, j);
      }
      Untouched(buf[offset := block[0]], L, next, inc, block[1..], p);
    }
  }

  // ---- the delay line -----------------------------------------------------------------------

  /** The cell `k` places behind the offset. */
  function Behind(offset: nat, k: nat, L: nat): nat
    requires offset < L && k <= L
  {
    if k <= offset then offset - k else offset - k + L
  }

  /** The last min(L, total) samples sit in order just behind the offset, and the offset is the
      total count modulo L. */
  ghost predicate DelayLine(buf: seq<int>, L: nat, offset: nat, history: seq<int>) {
    && 0 < L <= |buf| && offset < L && offset == |history| % L
    && forall k :: 1 <= k <= L && k <= |history| ==> buf[Behind(offset, k, L)] == history[|history| - k]
  }

  /** Every sample still held sits in the cell of its own number. */
  lemma DelayLineMeaning(buf: seq<int>, L: nat, offset: nat, history: seq<int>, j: nat)
    requires DelayLine(buf, L, offset, history) && j < |history| <= j + L
    ensures offset == |history| % L && buf[j % L] == history[j]
  {
    var n := |history|;
    var q, k := n / L, n - j;
    assert n == L * q + offset;
    assert L * (q - 1) == L * q - L;
    var p := Behind(offset, k, L);
    if k <= offset {
      Bits.DivModUnique(j, L, q, p);
    } else if p < L {
      Bits.DivModUnique(j, L, q - 1, p);
    }
    assert history[n - k] == history[j];
  }

  lemma NextCount(n: nat, L: nat)
    requires L > 0
    ensures (n + 1) % L == if n % L + 1 == L then 0 else n % L + 1
  {
    var q, r := n / L, n % L;
    assert n == L * q + r;
    if r + 1 == L {
      assert n + 1 == L * (q + 1);
      Bits.DivModUnique(n + 1, L, q + 1, 0);
    } else {
      Bits.DivModUnique(n + 1, L, q, r + 1);
    }
  }

  lemma OneSample(buf: seq<int>, L: nat, offset: nat, history: seq<int>, x: int)
    requires DelayLine(buf, L, offset, history)
    ensures DelayLine(buf[offset := x], L, Next(offset, 1, L), history + [x])
  {
    NextCount(|history|, L);
    var buf', offset', h := buf[offset := x], Next(offset, 1, L), history + [x];
    forall k | 1 <= k <= L && k <= |h|
      ensures buf'[Behind(offset', k, L)] == h[|h| - k]
    {
      if k > 1 {
        assert Behind(offset', k, L) == Behind(offset, k - 1, L);
      }
    }
  }

  /** Writing a block with increment 1 appends it to the delay line. */
  lemma {:induction false} WriteAppends(buf: seq<int>, L: nat, offset: nat, history: seq<int>, block: seq<int>)
    requires DelayLine(buf, L, offset, history)
    ensures var r := Written(buf, L, offset, 1, block); DelayLine(r.0, L, r.1, history + block)
    decreases block
  {
    if block == [] {
      assert history + block == history;
    } else {
      OneSample(buf, L, offset, history, block[0]);
      WriteAppends(buf[offset := block[0]], L, Next(offset, 1, L), history + [block[0]], block[1..]);
      assert history + [block[0]] + block[1..] == history + block;
    }
  }

  /** So does a call, exactly when the offset it should hand back fits 16 bits. */
  lemma CallAppendsExactly(buf: seq<int>, L: nat, offset: nat, history: seq<int>, block: seq<int>)
    requires DelayLine(buf, L, offset, history)
    ensures var r := Returned(buf, L, offset, 1, block);
      DelayLine(r.0, L, r.1, history + block) <==> |history + block| % L < 0x1_0000
  {
    WriteAppends(buf, L, offset, history, block);
  }

  /** Any sequence of calls, each beginning where the last one's offset points, and the history they leave. */
  ghost function WriteAll(buf: seq<int>, L: nat, offset: nat, blocks: seq<seq<int>>): (r: (seq<int>, nat))
    requires offset < L
    ensures |r.0| == |buf| && r.1 < L
  {
    if blocks == [] then (buf, offset)
    else
      var r := WriteAll(buf, L, offset, blocks[..|blocks| - 1]);
      Returned(r.0, L, r.1, 1, blocks[|blocks| - 1])
  }

  /** The blocks of a run, joined end to end. */
  ghost function Concat(blocks: seq<seq<int>>): seq<int> {
    if blocks == [] then [] else Concat(blocks[..|blocks| - 1]) + blocks[|blocks| - 1]
  }

  lemma {:induction false} ConcatMeaning(first: seq<seq<int>>, second: seq<seq<int>>, block: seq<int>)
    ensures Concat(first + second) == Concat(first) + Concat(second) && Concat([block]) == block
    decreases second
  {
    assert [block][..0] == [];
    if second == [] {
      assert first + second == first;
    } else {
      var rest := second[..|second| - 1];
      assert (first + second)[..|first + second| - 1] == first + rest;
      ConcatMeaning(first, rest, block);
    }
  }

  /** A run of calls from any contents and offset 0 is a delay line of all samples. */
  ghost predicate RunDelays(buf: seq<int>, L: nat, blocks: seq<seq<int>>)
    requires 0 < L
  {
    var r := WriteAll(buf, L, 0, blocks); DelayLine(r.0, L, r.1, Concat(blocks))
  }

  /** Every run of calls is a delay line ... */
  lemma {:induction false} RunIsDelayLine(buf: seq<int>, L: nat, blocks: seq<seq<int>>)
    requires 0 < L <= |buf| && L <= 0x1_0000
    ensures RunDelays(buf, L, blocks)
  {
    if blocks != [] {
      var rest := blocks[..|blocks| - 1];
      RunIsDelayLine(buf, L, rest);
      var r := WriteAll(buf, L, 0, rest);
      CallAppendsExactly(r.0, L, r.1, Concat(rest), blocks[|blocks| - 1]);
    }
  }

  /** ... exactly for lengths up to 65536: beyond that one block of 65536 samples sends the offset back
      to 0. */
  lemma RunsAreDelayLinesExactly(buf: seq<int>, L: nat)
    requires 0 < L <= |buf|
    ensures (forall blocks :: RunDelays(buf, L, blocks)) <==> L <= 0x1_0000
  {
    if L <= 0x1_0000 {
      forall blocks
        ensures RunDelays(buf, L, blocks)
      {
        RunIsDelayLine(buf, L, blocks);
      }
    } else {
      OffsetLost(buf, L, seq(0x1_0000, _ => 0));
    }
  }

  lemma EmptyLine(buf: seq<int>, L: nat)
    requires 0 < L <= |buf|
    ensures DelayLine(buf, L, 0, [])
  {
  }

  lemma OffsetAfter(buf: seq<int>, L: nat, block: seq<int>)
    requires |block| < L <= |buf|
    ensures Written(buf, L, 0, 1, block).1 == |block| && |block| % L == |block|
  {
    EmptyLine(buf, L);
    WriteAppends(buf, L, 0, [], block);
    assert [] + block == block;
    Bits.DivModUnique(|block|, L, 0, |block|);
  }

  lemma OffsetLost(buf: seq<int>, L: nat, block: seq<int>)
    requires 0x1_0000 < L <= |buf| && |block| == 0x1_0000
    ensures WriteAll(buf, L, 0, [block]).1 == 0 && !RunDelays(buf, L, [block])
  {
    hide Written, DelayLine;
    assert [block][..0] == [];
    assert Concat([block]) == [] + block == block;
    EmptyLine(buf, L);
    OffsetAfter(buf, L, block);
    CallAppendsExactly(buf, L, 0, [], block);
  }

  // ---- reading ------------------------------------------------------------------------------

  /** The samples that a read of `n` collects. */
  ghost function Samples(buf: seq<int>, L: int, offset: int, inc: int, n: nat): (r: seq<int>)
    ensures |r| == n
    decreases n
  {
    if n == 0 then []
    else [if 0 <= offset < |buf| then buf[offset] else 0] + Samples(buf, L, Next(offset, inc, L), inc, n - 1)
  }

  /** The destination index wraps only when it meets the end exactly. */
  function NextDst(d: int, inc: int, base: int, length: int): int {
    if d + inc == base + length then base else d + inc
  }

  ghost predicate DstInBounds(size: nat, d: int, inc: int, base: int, length: int, n: nat)
    decreases n
  {
    n == 0 || (0 <= d < size && DstInBounds(size, NextDst(d, inc, base, length), inc, base, length, n - 1))
  }

  ghost function Stored(dst: seq<int>, d: int, inc: int, base: int, length: int, samples: seq<int>): (r: seq<int>)
    requires DstInBounds(|dst|, d, inc, base, length, |samples|)
    ensures |r| == |dst|
    decreases samples
  {
    if samples == [] then dst
    else Stored(dst[d := samples[0]], NextDst(d, inc, base, length), inc, base, length, samples[1..])
  }

  ghost function Advanced(offset: int, inc: int, L: int, n: nat): (r: int)
    ensures 0 <= offset < L && 0 <= inc <= L ==> 0 <= r < L
    decreases n
  {
    if n == 0 then offset else Advanced(Next(offset, inc, L), inc, L, n - 1)
  }

  method CircularRead(circ: array<int>, L: int, readOffset: int, bufferInc: int,
                      dst: array<int>, dstStart: int, dstBase: int, dstLength: int, dstInc: int, blockSize: nat)
    returns (newOffset: int)
    requires Inside(circ.Length, L, readOffset, bufferInc, blockSize) && dst != circ
    requires DstInBounds(dst.Length, dstStart, dstInc, dstBase, dstLength, blockSize)
    modifies dst
    ensures dst[..] == Stored(old(dst[..]), dstStart, dstInc, dstBase, dstLength,
                              Samples(circ[..], L, readOffset, bufferInc, blockSize))
    ensures newOffset == Advanced(readOffset, bufferInc, L, blockSize)
    ensures 0 <= readOffset < L && 0 <= bufferInc <= L ==> newOffset == (readOffset + blockSize * bufferInc) % L
    ensures 0 <= readOffset < L <= circ.Length && 0 <= bufferInc <= L && dstInc == 1
      && 0 <= dstBase <= dstStart < dstBase + dstLength <= dst.Length && blockSize <= dstLength
      ==> forall p :: 0 <= p < dst.Length ==>
        if dstBase <= p < dstBase + dstLength && Ahead(dstStart - dstBase, p - dstBase, dstLength) < blockSize then
          dst[p] == circ[(readOffset + Ahead(dstStart - dstBase, p - dstBase, dstLength) * bufferInc) % L]
        else dst[p] == old(dst[p])
  {
    hide Stored, Samples, Advanced, DstInBounds, Inside, Next, NextDst, Ahead;
    ghost var was := dst[..];
    var rOffset, d, i: int := readOffset, dstStart, blockSize;
    ghost var samples := Samples(circ[..], L, readOffset, bufferInc, blockSize);
    ghost var goal := Stored(dst[..], d, dstInc, dstBase, dstLength, samples);
    while i > 0
      invariant 0 <= i && Inside(circ.Length, L, rOffset, bufferInc, i)
      invariant DstInBounds(dst.Length, d, dstInc, dstBase, dstLength, i)
      invariant Stored(dst[..], d, dstInc, dstBase, dstLength, Samples(circ[..], L, rOffset, bufferInc, i)) == goal
      invariant Advanced(rOffset, bufferInc, L, i) == Advanced(readOffset, bufferInc, L, blockSize)
    {
      ReadStep(circ[..], L, rOffset, bufferInc, dst[..], d, dstInc, dstBase, dstLength, i);
      ghost var before := dst[..];
      dst[d] := circ[rOffset];
      assert dst[..] == before[d := circ[rOffset]];
      d := d + dstInc;
      if d == dstBase + dstLength {
        d := dstBase;
      }
      rOffset := rOffset + bufferInc;
      if rOffset >= L {
        rOffset := rOffset - L;
      }
      i := i - 1;
    }
    newOffset := rOffset;
    ReadNothing(circ[..], L, rOffset, bufferInc, dst[..], d, dstInc, dstBase, dstLength);
    if 0 <= readOffset < L && 0 <= bufferInc <= L {
      AdvancedIsModulo(readOffset, bufferInc, L, blockSize);
    }
    if 0 <= readOffset < L <= circ.Length && 0 <= bufferInc <= L && dstInc == 1
      && 0 <= dstBase <= dstStart < dstBase + dstLength <= dst.Length && blockSize <= dstLength
    {
      forall p | 0 <= p < dst.Length
        ensures
          if dstBase <= p < dstBase + dstLength && Ahead(dstStart - dstBase, p - dstBase, dstLength) < blockSize then
            dst[p] == circ[(readOffset + Ahead(dstStart - dstBase, p - dstBase, dstLength) * bufferInc) % L]
          else dst[p] == was[p]
      {
        StoredFrom(circ[..], L, readOffset, bufferInc, was, dstStart, dstBase, dstLength, blockSize, p);
      }
    }
  }

  /** One turn of the loop, and none. */
  lemma ReadStep(buf: seq<int>, L: int, offset: int, inc: int,
                 dst: seq<int>, d: int, dstInc: int, base: int, length: int, n: nat)
    requires n > 0 && Inside(|buf|, L, offset, inc, n) && DstInBounds(|dst|, d, dstInc, base, length, n)
    ensures 0 <= offset < |buf| && 0 <= d < |dst|
    ensures var next := if offset + inc >= L then offset + inc - L else offset + inc;
      var place := if d + dstInc == base + length then base else d + dstInc;
      && Inside(|buf|, L, next, inc, n - 1) && DstInBounds(|dst|, place, dstInc, base, length, n - 1)
      && Stored(dst[d := buf[offset]], place, dstInc, base, length, Samples(buf, L, next, inc, n - 1)) ==
         Stored(dst, d, dstInc, base, length, Samples(buf, L, offset, inc, n))
      && Advanced(next, inc, L, n - 1) == Advanced(offset, inc, L, n)
  {
    var rest := Samples(buf, L, Next(offset, inc, L), inc, n - 1);
    assert Samples(buf, L, offset, inc, n) == [buf[offset]] + rest;
    assert ([buf[offset]] + rest)[1..] == rest;
  }

  lemma ReadNothing(buf: seq<int>, L: int, offset: int, inc: int,
                    dst: seq<int>, d: int, dstInc: int, base: int, length: int)
    ensures DstInBounds(|dst|, d, dstInc, base, length, 0)
    ensures Stored(dst, d, dstInc, base, length, Samples(buf, L, offset, inc, 0)) == dst
    ensures Advanced(offset, inc, L, 0) == offset
  {
  }

  lemma StoredFrom(buf: seq<int>, L: int, offset: int, inc: int,
                   dst: seq<int>, d: int, base: int, length: int, n: nat, p: nat)
    requires 0 <= offset < L <= |buf| && 0 <= inc <= L
    requires 0 <= base <= d < base + length <= |dst| && n <= length && p < |dst|
    ensures DstInBounds(|dst|, d, 1, base, length, n)
    ensures
      var cell := Stored(dst, d, 1, base, length, Samples(buf, L, offset, inc, n))[p];
      if base <= p < base + length && Ahead(d - base, p - base, length) < n then
        cell == buf[(offset + Ahead(d - base, p - base, length) * inc) % L]
      else cell == dst[p]
  {
    hide Stored, Samples, DstInBounds, Ahead;
    StoredCell(dst, d, base, length, Samples(buf, L, offset, inc, n), p);
    if base <= p < base + length && Ahead(d - base, p - base, length) < n {
      SampleCell(buf, L, offset, inc, n, Ahead(d - base, p - base, length));
    }
  }

  lemma {:induction false} AdvancedIsModulo(offset: int, inc: int, L: int, n: nat)
    requires 0 <= offset < L && 0 <= inc <= L
    ensures Advanced(offset, inc, L, n) == (offset + n * inc) % L
    decreases n
  {
    if n == 0 {
      Bits.DivModUnique(offset, L, 0, offset);
    } else {
      AdvancedIsModulo(Next(offset, inc, L), inc, L, n - 1);
      NextIsModulo(offset, inc, L, n - 1);
    }
  }

  /** A circular destination of `length` cells from `base` holds up to that many samples in the order of
      the cells ahead of `d`, and no other cell moves. */
  lemma {:induction false} StoredCell(dst: seq<int>, d: int, base: int, length: int, samples: seq<int>, p: nat)
    requires 0 <= base <= d < base + length <= |dst| && |samples| <= length && p < |dst|
    ensures DstInBounds(|dst|, d, 1, base, length, |samples|)
    ensures Stored(dst, d, 1, base, length, samples)[p] ==
      if base <= p < base + length && Ahead(d - base, p - base, length) < |samples| then
        samples[Ahead(d - base, p - base, length)]
      else dst[p]
    decreases samples
  {
    if samples != [] {
      StoredCell(dst[d := samples[0]], NextDst(d, 1, base, length), base, length, samples[1..], p);
    }
  }

  /** A block of at most L samples lands in the cells ahead of the offset, and no other cell moves. */
  lemma {:induction false} WrittenCell(buf: seq<int>, L: nat, offset: nat, block: seq<int>, p: nat)
    requires offset < L <= |buf| && |block| <= L && p < |buf|
    ensures var k := if p < L then Ahead(offset, p, L) else L;
      Written(buf, L, offset, 1, block).0[p] == if k < |block| then block[k] else buf[p]
    decreases block
  {
    if block != [] {
      WrittenCell(buf[offset := block[0]], L, Next(offset, 1, L), block[1..], p);
    }
  }

  /** Reading from where a block of at most L samples was written returns the block. */
  lemma {:induction false} ReadBack(buf: seq<int>, L: nat, offset: nat, block: seq<int>)
    requires offset < L <= |buf| && |block| <= L
    ensures Samples(Written(buf, L, offset, 1, block).0, L, offset, 1, |block|) == block
  {
    var buf' := Written(buf, L, offset, 1, block).0;
    forall k | 0 <= k < |block|
      ensures Samples(buf', L, offset, 1, |block|)[k] == block[k]
    {
      SampleCell(buf', L, offset, 1, |block|, k);
      var p := if offset + k < L then offset + k else offset + k - L;
      Bits.DivModUnique(offset + k, L, if offset + k < L then 0 else 1, p);
      WrittenCell(buf, L, offset, block, p);
    }
  }

  /** The `k`-th sample of a read comes from the cell `k` steps ahead, modulo the length. */
  lemma {:induction false} SampleCell(buf: seq<int>, L: int, offset: int, inc: int, n: nat, k: nat)
    requires 0 <= offset < L <= |buf| && 0 <= inc <= L && k < n
    ensures Samples(buf, L, offset, inc, n)[k] == buf[(offset + k * inc) % L]
    decreases n
  {
    if k == 0 {
      Bits.DivModUnique(offset, L, 0, offset);
    } else {
      SampleCell(buf, L, Next(offset, inc, L), inc, n - 1, k - 1);
      NextIsModulo(offset, inc, L, k - 1);
    }
  }
}
