/** cJSON_PrintBuffered: the same texts, written into one growing buffer. */
module JsonBuffer {
  import opened Bits
  import opened CText
  import opened StringRoutines
  import opened JsonHeap
  import opened JsonPrinter

  /** The largest size pow2gt can give in a 32-bit int. */
  const MAX_SIZE: nat := 0x4000_0000

  /** No request goes further than this beyond the text still to be written. */
  const SLACK: nat := 21

  /** printbuffer, and the allocator its buffer comes from. */
  class PrintBuffer {
    const heap: Heap
    var buffer: array<byte>
    var length: nat
    var offset: nat

    constructor (h: Heap, prebuffer: nat)
      modifies h
      ensures Valid() && offset == 0 && length == prebuffer && heap == h
      ensures fresh(buffer) && h.live == old(h.live) + {buffer}
    {
      var b := h.NewBlock(prebuffer);
      heap, buffer := h, b;
      length, offset := prebuffer, 0;
    }

    ghost predicate Valid()
      reads this, buffer, heap
    {
      length == buffer.Length && offset <= length && buffer in heap.live
    }

    /** The text before the offset. */
    ghost function Done(): bytes
      requires Valid()
      reads this, buffer, heap
    {
      buffer[..offset]
    }

    /** n bytes more can be had, because the buffer is large enough or can grow to what it takes. */
    ghost predicate Fits(n: nat)
      reads this
    {
      offset + n <= if length > MAX_SIZE then length else MAX_SIZE
    }

    /** What printing does to the buffer: it stays, or a larger one takes its place and it is freed. */
    twostate predicate Grown()
      reads this, heap
    {
      && (buffer == old(buffer) || fresh(buffer)) && old(length) <= length
      && heap.live - {buffer} == old(heap.live) - {old(buffer)}
    }
  }

  // ---------------------------------------------------------------- pow2gt

  /** Bit i of z is set exactly when one of the w bits of y from i upwards is. */
  ghost predicate Smeared(z: nat, y: nat, w: nat) {
    forall i: nat :: BitAt(z, i) == 1 <==> exists j :: i <= j < i + w && BitAt(y, j) == 1
  }

  lemma SmearStep(z: nat, y: nat, w: nat)
    requires Smeared(z, y, w)
    ensures Smeared(Or(z, Shr(z, w)), y, 2 * w)
  {
    forall i: nat
      ensures BitAt(Or(z, Shr(z, w)), i) == 1 <==> exists j :: i <= j < i + 2 * w && BitAt(y, j) == 1
    {
      BitOf(OrOp, z, Shr(z, w), i);
      BitOfShr(z, w, i);
      if BitAt(z, i) == 1 {
        var j :| i <= j < i + w && BitAt(y, j) == 1;
      } else if BitAt(z, i + w) == 1 {
        var j :| i + w <= j < i + w + w && BitAt(y, j) == 1;
      }
    }
  }

  lemma {:induction false} TopBit(y: nat) returns (n: nat)
    requires y > 0
    ensures Pow2(n) <= y < Pow2(n + 1) && BitAt(y, n) == 1
  {
    if y == 1 {
      n := 0;
    } else {
      var m := TopBit(y / 2);
      n := m + 1;
    }
  }

  /** A number whose lowest n bits are ones and whose other bits are zeroes. */
  lemma {:induction false} AllOnes(z: nat, n: nat)
    requires forall i :: 0 <= i < n ==> BitAt(z, i) == 1
    requires forall i :: n <= i ==> BitAt(z, i) == 0
    ensures z == Pow2(n) - 1
    decreases n, z
  {
    assert BitAt(z, 0) == z % 2;
    if n > 0 {
      forall i | 0 <= i < n - 1 ensures BitAt(z / 2, i) == 1 {
        assert BitAt(z, i + 1) == 1;
      }
      forall i | n - 1 <= i ensures BitAt(z / 2, i) == 0 {
        assert BitAt(z, i + 1) == 0;
      }
      AllOnes(z / 2, n - 1);
    } else if z > 0 {
      forall i | 0 <= i ensures BitAt(z / 2, i) == 0 {
        assert BitAt(z, i + 1) == 0;
      }
      AllOnes(z / 2, 0);
    }
  }

  lemma SmearedAll(z: nat, y: nat) returns (n: nat)
    requires Smeared(z, y, 32) && y < Pow2(31)
    ensures z == Pow2(n) - 1 && y < Pow2(n) && (y > 0 ==> Pow2(n) <= 2 * y)
  {
    if y == 0 {
      n := 0;
      forall i: nat ensures BitAt(z, i) == 0 {
        forall j: nat ensures BitAt(y, j) == 0 {
          ZeroBits(0, 0, j);
        }
      }
    } else {
      var m := TopBit(y);
      n := m + 1;
      if m >= 31 {
        ZeroBits(y, 31, m);
      }
      forall i: nat ensures BitAt(z, i) == if i < n then 1 else 0 {
        if i < n {
          assert i <= m < i + 32 && BitAt(y, m) == 1;
        } else {
          forall j | i <= j ensures BitAt(y, j) == 0 {
            ZeroBits(y, n, j);
          }
        }
      }
    }
    AllOnes(z, n);
  }

  /** The smallest power of two that is not below x. */
  method Pow2gt(x: nat) returns (r: nat, ghost n: nat)
    requires 0 < x <= MAX_SIZE
    ensures r == Pow2(n) && x <= r && (x > 1 ==> r < 2 * x)
  {
    var y := x - 1;
    assert Smeared(y, y, 1) by {
      forall i: nat ensures BitAt(y, i) == 1 <==> exists j :: i <= j < i + 1 && BitAt(y, j) == 1 {
        assert BitAt(y, i) == 1 ==> i <= i < i + 1;
      }
    }
    SmearStep(y, x - 1, 1);
    y := Or(y, Shr(y, 1));
    SmearStep(y, x - 1, 2);
    y := Or(y, Shr(y, 2));
    SmearStep(y, x - 1, 4);
    y := Or(y, Shr(y, 4));
    SmearStep(y, x - 1, 8);
    y := Or(y, Shr(y, 8));
    SmearStep(y, x - 1, 16);
    y := Or(y, Shr(y, 16));
    r := y + 1;
    assert x - 1 < Pow2(31) by {
      assert Pow2(31) == 2 * MAX_SIZE by {
        assert Pow2(10) == 1024;
        Pow2Add(10, 10);
        Pow2Add(20, 10);
        assert Pow2(30) == 1024 * 1024 * 1024;
      }
    }
    n := SmearedAll(y, x - 1);
  }

  // ---------------------------------------------------------------- ensure and update

  /** Room for `needed` bytes at the offset; what the buffer holds stays. */
  method Ensure(p: PrintBuffer, needed: nat) returns (ptr: nat)
    requires p.Valid() && 0 < needed && p.Fits(needed)
    modifies p, p.heap
    ensures p.Valid() && ptr == p.offset == old(p.offset) && ptr + needed <= p.length
    ensures p.Grown()
    ensures p.buffer[..old(p.length)] == old(p.buffer[..])
  {
    var total := needed + p.offset;
    if total <= p.length {
      assert p.buffer[..p.length] == p.buffer[..];
      return p.offset;
    }
    var newsize, _ := Pow2gt(total);
    var newbuffer := p.heap.NewBlock(newsize);
    Store(newbuffer, 0, p.buffer[..]);
    assert newbuffer[..p.length] == newbuffer[0..0 + p.length];
    p.heap.Free(p.buffer);
    p.length := newsize;
    p.buffer := newbuffer;
    return p.offset;
  }

  /** p holds `before` and behind it the C string w. */
  ghost predicate Wrote(p: PrintBuffer, before: bytes, w: bytes)
    reads p, p.buffer, p.heap
  {
    && p.Valid() && |before| + |w| < p.length
    && p.buffer[..|before| + |w|] == before + w && p.buffer[|before| + |w|] == 0
  }

  /** update, whose result becomes the offset. */
  method Advance(p: PrintBuffer, ghost before: bytes, ghost w: bytes)
    requires Wrote(p, before, w) && NulFree(w) && |before| <= p.offset <= |before| + |w|
    modifies p`offset
    ensures p.Valid() && p.offset == |before| + |w| && p.Done() == before + w
  {
    ghost var rest := w[p.offset - |before|..];
    assert p.buffer[p.offset..p.offset + |rest|] == rest by {
      assert p.buffer[p.offset..p.offset + |rest|] == p.buffer[..|before| + |w|][p.offset..];
    }
    var n := StrLen(p.buffer, p.offset, rest);
    p.offset := p.offset + n;
  }

  /** ensure, then strcpy of w: the offset stays. */
  method Put(p: PrintBuffer, w: bytes, needed: nat) returns (ptr: nat)
    requires p.Valid() && |w| < needed && p.Fits(needed)
    modifies p, p.buffer, p.heap
    ensures Wrote(p, old(p.Done()), w) && ptr == p.offset == old(p.offset)
    ensures p.Grown()
  {
    ghost var before := p.Done();
    ptr := Ensure(p, needed);
    assert p.buffer[..ptr] == before;
    Store(p.buffer, ptr, w + [0]);
    assert p.buffer[..ptr] == before;
    ghost var all := p.buffer[ptr..ptr + |w + [0]|];
    assert p.buffer[ptr..ptr + |w|] == all[..|w|] == w && p.buffer[ptr + |w|] == all[|w|];
    assert p.buffer[..ptr + |w|] == p.buffer[..ptr] + p.buffer[ptr..ptr + |w|];
  }

  /** ensure, then the bytes of w and, where asked for, a terminator; the offset moves behind w. */
  method Emit(p: PrintBuffer, w: bytes, needed: nat, terminate: bool)
    requires p.Valid() && 0 < needed && |w| + (if terminate then 1 else 0) <= needed && p.Fits(needed)
    modifies p, p.buffer, p.heap
    ensures p.Valid() && p.offset == old(p.offset) + |w| && p.Done() == old(p.Done()) + w
    ensures p.Grown()
  {
    ghost var before := p.Done();
    var ptr := Ensure(p, needed);
    assert p.buffer[..ptr] == before;
    Store(p.buffer, ptr, w);
    assert p.buffer[..ptr] == before;
    assert p.buffer[..ptr + |w|] == p.buffer[..ptr] + p.buffer[ptr..ptr + |w|];
    if terminate {
      p.buffer[ptr + |w|] := 0;
      assert p.buffer[..ptr + |w|] == before + w;
    }
    p.offset := p.offset + |w|;
  }
}
