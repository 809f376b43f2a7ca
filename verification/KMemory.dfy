/** The memory routines of the kernel: word-at-a-time loops that equal byte loops. An address is an
    index into the bytes of memory; a long has four bytes, the lowest first. */
module KMemory {
  import opened Bits
  import opened CText

  const LONG: nat := 4

  // ---------------------------------------------------------------- words

  function Byte(v: nat, k: nat): byte {
    Shr(v, 8 * k) % 256
  }

  /** Memory after a long is stored at a. */
  function WithWord(m: bytes, a: nat, v: nat): (r: bytes)
    requires a + LONG <= |m|
    ensures |r| == |m|
  {
    m[a := Byte(v, 0)][a + 1 := Byte(v, 1)][a + 2 := Byte(v, 2)][a + 3 := Byte(v, 3)]
  }

  function Word(b0: byte, b1: byte, b2: byte, b3: byte): nat {
    b0 + 0x100 * b1 + 0x1_0000 * b2 + 0x100_0000 * b3
  }

  function WordAt(m: bytes, a: nat): nat
    requires a + LONG <= |m|
  {
    Word(m[a], m[a + 1], m[a + 2], m[a + 3])
  }

  lemma WordBytes(b0: byte, b1: byte, b2: byte, b3: byte)
    ensures var v := Word(b0, b1, b2, b3);
            Byte(v, 0) == b0 && Byte(v, 1) == b1 && Byte(v, 2) == b2 && Byte(v, 3) == b3
  {
    var v := Word(b0, b1, b2, b3);
    ShrEight(v);
    ShrEight(v / 0x100);
    ShrEight(v / 0x100 / 0x100);
    ShrAdd(v, 8, 8);
    ShrAdd(v, 8, 16);
    assert v / 0x100 == b1 + 0x100 * b2 + 0x1_0000 * b3;
    assert v / 0x100 / 0x100 == b2 + 0x100 * b3;
    assert Shr(v, 16) == v / 0x100 / 0x100;
    ShrAdd(v / 0x100, 8, 8);
  }

  lemma ShrEight(v: nat)
    ensures Shr(v, 8) == v / 0x100
  {
    ShrAdd(v, 4, 4);
    ShrFour(v);
    ShrFour(v / 16);
  }

  lemma ShrFour(v: nat)
    ensures Shr(v, 4) == v / 16
  {
    ShrTwo(v);
    ShrTwo(v / 4);
    ShrAdd(v, 2, 2);
  }

  lemma ShrTwo(v: nat)
    ensures Shr(v, 2) == v / 4
  {
    assert Shr(v, 2) == Shr(v / 2, 1) == v / 2 / 2;
  }

  lemma {:induction false} ShrAdd(v: nat, a: nat, b: nat)
    ensures Shr(v, a + b) == Shr(Shr(v, a), b)
  {
    if a > 0 {
      ShrAdd(v / 2, a - 1, b);
    }
  }

  method StoreWord(mem: array<byte>, a: nat, v: nat)
    requires a + LONG <= mem.Length
    modifies mem
    ensures mem[..] == WithWord(old(mem[..]), a, v)
  {
    mem[a] := Byte(v, 0);
    mem[a + 1] := Byte(v, 1);
    mem[a + 2] := Byte(v, 2);
    mem[a + 3] := Byte(v, 3);
  }

  method LoadWord(mem: array<byte>, a: nat) returns (v: nat)
    requires a + LONG <= mem.Length
    ensures v == WordAt(mem[..], a)
  {
    v := Word(mem[a], mem[a + 1], mem[a + 2], mem[a + 3]);
  }

  /** UNALIGNED: some of the low bits are set. */
  function LowBits(a: nat): (r: nat)
  {
    And(a, LONG - 1)
  }

  lemma Aligned(a: nat)
    ensures LowBits(a) == a % LONG
  {
    assert Pow2(2) == 4;
    AndOnes(a / 4, a % 4, 2);
  }

  // ---------------------------------------------------------------- rt_memset

  /** The byte loop of rt_memset. */
  function SetBytes(m: bytes, s: nat, d: byte, count: nat): (r: bytes)
    requires s + count <= |m|
    ensures |r| == |m|
    decreases count
  {
    if count == 0 then m else SetBytes(m[s := d], s + 1, d, count - 1)
  }

  /** What that loop does: the range holds d, the rest of memory is as it was. */
  lemma {:induction false} SetBytesIs(m: bytes, s: nat, d: byte, count: nat, a: nat)
    requires s + count <= |m| && a < |m|
    ensures SetBytes(m, s, d, count)[a] == if s <= a < s + count then d else m[a]
    decreases count
  {
    if count > 0 {
      SetBytesIs(m[s := d], s + 1, d, count - 1, a);
    }
  }

  /** The word built from d has d in each byte. */
  lemma Spread(d: byte)
    ensures var low := Or(Shl(d, 8), d); Or(low, Shl(low, 16)) == Word(d, d, d, d)
  {
    var low := Or(Shl(d, 8), d);
    assert Pow2(8) == 0x100;
    assert Pow2(16) == 0x1_0000 by {
      Pow2Add(8, 8);
    }
    ShlIs(d, 8);
    OrDisjoint(d, d, 8);
    assert low == d * 0x100 + d;
    ShlIs(low, 16);
    OrDisjoint(low, low, 16);
    OrCommutes(low, Shl(low, 16));
  }

  lemma {:induction false} OrCommutes(a: nat, b: nat)
    ensures Or(a, b) == Or(b, a)
    decreases a + b
  {
    if a != 0 || b != 0 {
      OrCommutes(a / 2, b / 2);
    }
  }

  lemma SetWord(m: bytes, p: nat, d: byte, count: nat)
    requires p + count <= |m| && count >= LONG
    ensures SetBytes(m, p, d, count) == SetBytes(WithWord(m, p, Word(d, d, d, d)), p + LONG, d, count - LONG)
  {
    WordBytes(d, d, d, d);
    var m1 := m[p := d];
    var m2 := m1[p + 1 := d];
    var m3 := m2[p + 2 := d];
    assert SetBytes(m, p, d, count) == SetBytes(m2, p + 2, d, count - 2);
    assert SetBytes(m2, p + 2, d, count - 2) == SetBytes(m3, p + 3, d, count - 3);
  }

  method PutWord(mem: array<byte>, p: nat, ghost d: byte, buffer: nat, ghost count: nat)
    requires p + count <= mem.Length && count >= LONG && buffer == Word(d, d, d, d)
    modifies mem
    ensures SetBytes(mem[..], p + LONG, d, count - LONG) == SetBytes(old(mem[..]), p, d, count)
  {
    hide SetBytes, WithWord, Word;
    SetWord(mem[..], p, d, count);
    StoreWord(mem, p, buffer);
  }

  method PutFour(mem: array<byte>, p: nat, ghost d: byte, buffer: nat, ghost count: nat)
    requires p + count <= mem.Length && count >= 4 * LONG && buffer == Word(d, d, d, d)
    modifies mem
    ensures SetBytes(mem[..], p + 4 * LONG, d, count - 4 * LONG) == SetBytes(old(mem[..]), p, d, count)
  {
    hide SetBytes, Word;
    PutWord(mem, p, d, buffer, count);
    PutWord(mem, p + LONG, d, buffer, count - LONG);
    PutWord(mem, p + 2 * LONG, d, buffer, count - 2 * LONG);
    PutWord(mem, p + 3 * LONG, d, buffer, count - 3 * LONG);
  }

  /** rt_memset has the effect of its byte loop, for every address, byte and count. */
  method Memset(mem: array<byte>, s: nat, c: int, n: nat)
    requires s + n <= mem.Length
    modifies mem
    ensures mem[..] == SetBytes(old(mem[..]), s, c % 256, n)
  {
    var m, count, d: byte := s, n, c % 256;
    if !(count < LONG) && LowBits(s) == 0 {
      var buffer := Or(Shl(d, 8), d);
      buffer := Or(buffer, Shl(buffer, 16));
      Spread(d);
      hide SetBytes, Word, Or, Shl, LowBits;
      while count >= 4 * LONG
        invariant s <= m && 0 <= count && m + count == s + n
        invariant SetBytes(mem[..], m, d, count) == SetBytes(old(mem[..]), s, d, n)
      {
        PutFour(mem, m, d, buffer, count);
        m, count := m + 4 * LONG, count - 4 * LONG;
      }
      while count >= LONG
        invariant s <= m && 0 <= count && m + count == s + n
        invariant SetBytes(mem[..], m, d, count) == SetBytes(old(mem[..]), s, d, n)
      {
        PutWord(mem, m, d, buffer, count);
        m, count := m + LONG, count - LONG;
      }
    }
    hide SetBytes;
    while count > 0
      invariant s <= m && 0 <= count && m + count == s + n
      invariant SetBytes(mem[..], m, d, count) == SetBytes(old(mem[..]), s, d, n)
    {
      SetOne(mem[..], m, d, count);
      ghost var before := mem[..];
      mem[m] := d;
      assert mem[..] == before[m := d];
      m, count := m + 1, count - 1;
    }
    SetNone(mem[..], m, d);
  }

  lemma SetOne(m: bytes, p: nat, d: byte, count: nat)
    requires p + count <= |m| && count > 0
    ensures SetBytes(m, p, d, count) == SetBytes(m[p := d], p + 1, d, count - 1)
  {
  }

  lemma SetNone(m: bytes, p: nat, d: byte)
    requires p <= |m|
    ensures SetBytes(m, p, d, 0) == m
  {
  }

  // ---------------------------------------------------------------- rt_memcpy

  /** Both addresses are those of words. */
  predicate OnWords(a: nat, b: nat) {
    a % LONG == 0 && b % LONG == 0
  }

  /** The byte loop of rt_memcpy. */
  function CopyBytes(m: bytes, dst: nat, src: nat, count: nat): (r: bytes)
    requires dst + count <= |m| && src + count <= |m|
    ensures |r| == |m|
    decreases count
  {
    if count == 0 then m else CopyBytes(m[dst := m[src]], dst + 1, src + 1, count - 1)
  }

  /** Copying a word at a time is copying four bytes in turn, also where the ranges overlap, as long
      as both addresses are aligned. */
  lemma CopyWord(m: bytes, dst: nat, src: nat, count: nat)
    requires dst + count <= |m| && src + count <= |m| && count >= LONG
    requires OnWords(dst, src)
    ensures CopyBytes(m, dst, src, count) ==
            CopyBytes(WithWord(m, dst, WordAt(m, src)), dst + LONG, src + LONG, count - LONG)
  {
    hide CopyBytes, Word;
    var b0, b1, b2, b3 := m[src], m[src + 1], m[src + 2], m[src + 3];
    WordBytes(b0, b1, b2, b3);
    var m1 := m[dst := b0];
    var m2 := m1[dst + 1 := b1];
    var m3 := m2[dst + 2 := b2];
    assert m1[src + 1] == b1 && m2[src + 2] == b2 && m3[src + 3] == b3;
    CopyOne(m, dst, src, count);
    CopyOne(m1, dst + 1, src + 1, count - 1);
    CopyOne(m2, dst + 2, src + 2, count - 2);
    CopyOne(m3, dst + 3, src + 3, count - 3);
  }

  method MoveWord(mem: array<byte>, dst: nat, src: nat, ghost count: nat)
    requires dst + count <= mem.Length && src + count <= mem.Length && count >= LONG
    requires OnWords(dst, src)
    modifies mem
    ensures CopyBytes(mem[..], dst + LONG, src + LONG, count - LONG) == CopyBytes(old(mem[..]), dst, src, count)
    ensures OnWords(dst + LONG, src + LONG)
  {
    hide CopyBytes, WithWord, WordAt;
    CopyWord(mem[..], dst, src, count);
    var v := LoadWord(mem, src);
    StoreWord(mem, dst, v);
  }

  method MoveFour(mem: array<byte>, dst: nat, src: nat, ghost count: nat)
    requires dst + count <= mem.Length && src + count <= mem.Length && count >= 4 * LONG
    requires OnWords(dst, src)
    modifies mem
    ensures CopyBytes(mem[..], dst + 4 * LONG, src + 4 * LONG, count - 4 * LONG) ==
            CopyBytes(old(mem[..]), dst, src, count)
    ensures OnWords(dst + 4 * LONG, src + 4 * LONG)
  {
    hide CopyBytes, OnWords;
    MoveWord(mem, dst, src, count);
    MoveWord(mem, dst + LONG, src + LONG, count - LONG);
    MoveWord(mem, dst + 2 * LONG, src + 2 * LONG, count - 2 * LONG);
    MoveWord(mem, dst + 3 * LONG, src + 3 * LONG, count - 3 * LONG);
  }

  lemma BothAligned(a: nat, b: nat)
    requires Or(LowBits(a), LowBits(b)) == 0
    ensures OnWords(b, a)
  {
    Aligned(a);
    Aligned(b);
    OrGrows(LowBits(a), LowBits(b));
    OrGrows(LowBits(b), LowBits(a));
    OrCommutes(LowBits(a), LowBits(b));
  }

  /** rt_memcpy has the effect of its byte loop for every pair of addresses and every count, whether
      or not the ranges overlap. */
  method Memcpy(mem: array<byte>, dst0: nat, src0: nat, n: nat)
    requires dst0 + n <= mem.Length && src0 + n <= mem.Length
    modifies mem
    ensures mem[..] == CopyBytes(old(mem[..]), dst0, src0, n)
  {
    hide CopyBytes, Or, LowBits, OnWords;
    var dst, src, len := dst0, src0, n;
    if !(len < 4 * LONG) && Or(LowBits(src), LowBits(dst)) == 0 {
      BothAligned(src, dst);
      while len >= 4 * LONG
        invariant 0 <= len && dst0 <= dst && src0 <= src && dst + len == dst0 + n && src + len == src0 + n
        invariant OnWords(dst, src)
        invariant CopyBytes(mem[..], dst, src, len) == CopyBytes(old(mem[..]), dst0, src0, n)
      {
        MoveFour(mem, dst, src, len);
        dst, src, len := dst + 4 * LONG, src + 4 * LONG, len - 4 * LONG;
      }
      while len >= LONG
        invariant 0 <= len && dst0 <= dst && src0 <= src && dst + len == dst0 + n && src + len == src0 + n
        invariant OnWords(dst, src)
        invariant CopyBytes(mem[..], dst, src, len) == CopyBytes(old(mem[..]), dst0, src0, n)
      {
        MoveWord(mem, dst, src, len);
        dst, src, len := dst + LONG, src + LONG, len - LONG;
      }
    }
    while len > 0
      invariant 0 <= len && dst0 <= dst && src0 <= src && dst + len == dst0 + n && src + len == src0 + n
      invariant CopyBytes(mem[..], dst, src, len) == CopyBytes(old(mem[..]), dst0, src0, n)
    {
      CopyOne(mem[..], dst, src, len);
      ghost var before := mem[..];
      mem[dst] := mem[src];
      assert mem[..] == before[dst := before[src]];
      dst, src, len := dst + 1, src + 1, len - 1;
    }
    CopyNone(mem[..], dst, src);
  }

  lemma CopyOne(m: bytes, dst: nat, src: nat, count: nat)
    requires dst + count <= |m| && src + count <= |m| && count > 0
    ensures CopyBytes(m, dst, src, count) == CopyBytes(m[dst := m[src]], dst + 1, src + 1, count - 1)
  {
  }

  lemma CopyNone(m: bytes, dst: nat, src: nat)
    requires dst <= |m| && src <= |m|
    ensures CopyBytes(m, dst, src, 0) == m
  {
  }

  // ---------------------------------------------------------------- rt_memmove

  /** The old bytes of the source, at the destination. */
  function Moved(m: bytes, dst: nat, src: nat, count: nat): (r: bytes)
    requires dst + count <= |m| && src + count <= |m|
    ensures |r| == |m|
    ensures forall a :: 0 <= a < |m| ==> r[a] == if dst <= a < dst + count then m[src + (a - dst)] else m[a]
  {
    m[..dst] + m[src..src + count] + m[dst + count..]
  }

  /** The copy loop delivers the old bytes whenever it does not run into its own output. */
  lemma {:induction false} CopyIsMove(m: bytes, dst: nat, src: nat, count: nat)
    requires dst + count <= |m| && src + count <= |m|
    requires !(src < dst < src + count)
    ensures CopyBytes(m, dst, src, count) == Moved(m, dst, src, count)
    decreases count
  {
    if count > 0 {
      var m1 := m[dst := m[src]];
      CopyIsMove(m1, dst + 1, src + 1, count - 1);
      forall a | 0 <= a < |m| ensures Moved(m1, dst + 1, src + 1, count - 1)[a] == Moved(m, dst, src, count)[a] {
      }
    }
  }

  /** Where it does run into its own output, there is a memory it spoils. */
  lemma CopySmears(size: nat, dst: nat, src: nat, count: nat) returns (m: bytes)
    requires src < dst < src + count && dst + count <= size
    ensures |m| == size && CopyBytes(m, dst, src, count) != Moved(m, dst, src, count)
  {
    m := seq(size, a => if a == src then 1 else 0);
    var gap := dst - src;
    Smear(m, dst, src, count, gap);
    assert Moved(m, dst, src, count)[dst + gap] == m[dst] == 0;
  }

  /** The byte `gap` places behind dst becomes what was at src. */
  lemma Smear(m: bytes, dst: nat, src: nat, count: nat, gap: nat)
    requires dst == src + gap && 0 < gap < count && dst + count <= |m|
    ensures CopyBytes(m, dst, src, count)[dst + gap] == m[src]
  {
    var m1 := m[dst := m[src]];
    CopyReaches(m1, dst + 1, src + 1, count - 1, dst, gap - 1);
  }

  /** k steps on, the loop reads address `from`, which it has not touched since, and stores it. */
  lemma {:induction false} CopyReaches(m: bytes, dst: nat, src: nat, count: nat, from: nat, k: nat)
    requires src < dst && dst + count <= |m| && k < count && src + k == from && from < dst
    ensures CopyBytes(m, dst, src, count)[dst + k] == m[from]
    decreases count
  {
    if k == 0 {
      CopyKeeps(m[dst := m[src]], dst + 1, src + 1, count - 1, dst);
    } else {
      CopyReaches(m[dst := m[src]], dst + 1, src + 1, count - 1, from, k - 1);
    }
  }

  lemma {:induction false} CopyKeeps(m: bytes, dst: nat, src: nat, count: nat, a: nat)
    requires dst + count <= |m| && src + count <= |m| && a < dst
    ensures CopyBytes(m, dst, src, count)[a] == m[a]
    decreases count
  {
    if count > 0 {
      CopyKeeps(m[dst := m[src]], dst + 1, src + 1, count - 1, a);
    }
  }

  /** rt_memmove delivers the old bytes of the source, however the ranges overlap. */
  method Memmove(mem: array<byte>, dst: nat, src: nat, count: nat)
    requires dst + count <= mem.Length && src + count <= mem.Length
    modifies mem
    ensures mem[..] == Moved(old(mem[..]), dst, src, count)
  {
    hide Moved;
    ghost var m0 := mem[..];
    var n := count;
    if src < dst && dst < src + count {
      MoveNone(m0, dst + n, src + n);
      while n > 0
        invariant 0 <= n <= count && mem[..] == Moved(m0, dst + n, src + n, count - n)
      {
        n := n - 1;
        MoveBack(m0, dst, src, n, count);
        mem[dst + n] := mem[src + n];
      }
    } else {
      n := 0;
      MoveNone(m0, dst, src);
      while n < count
        invariant 0 <= n <= count && mem[..] == Moved(m0, dst, src, n)
      {
        MoveOn(m0, dst, src, n);
        mem[dst + n] := mem[src + n];
        n := n + 1;
      }
    }
  }

  /** One byte more at the end. */
  lemma MoveOn(m: bytes, dst: nat, src: nat, n: nat)
    requires dst + n < |m| && src + n < |m| && !(src < dst && dst < src + n + 1)
    ensures var r := Moved(m, dst, src, n);
            r[src + n] == m[src + n] && r[dst + n := m[src + n]] == Moved(m, dst, src, n + 1)
  {
  }

  /** One byte more at the front. */
  lemma MoveBack(m: bytes, dst: nat, src: nat, n: nat, count: nat)
    requires n < count && src < dst && dst + count <= |m| && src + count <= |m|
    ensures var r := Moved(m, dst + n + 1, src + n + 1, count - n - 1);
            r[src + n] == m[src + n] && r[dst + n := m[src + n]] == Moved(m, dst + n, src + n, count - n)
  {
  }

  lemma MoveNone(m: bytes, dst: nat, src: nat)
    requires dst <= |m| && src <= |m|
    ensures Moved(m, dst, src, 0) == m
  {
  }
}
