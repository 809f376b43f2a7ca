/** Sharing of the external interrupt lines: the handler table, the enable mask and the interrupt
    vectors of the GPIO driver, in the STM32F4 configuration. */
module ExtiLines {
  import opened Bits

  /** An entry of the pin table: its index, -1 where the pin does not exist, and its bit in the port. */
  datatype PinIndex = PinIndex(index: int, pin: nat)

  /** An entry of the handler table; addresses are numbers, 0 the null pointer. */
  datatype Handler = Handler(pin: int, mode: int, hdr: int, args: int)

  const FREE := Handler(-1, 0, 0, 0)

  datatype Vector = Exti0 | Exti1 | Exti2 | Exti3 | Exti4 | Exti9To5 | Exti15To10

  datatype Status = Ok | NoSys | MinusNoSys | Busy

  const LINES: nat := 16
  const PIN_IRQ_DISABLE: nat := 0
  const PIN_IRQ_ENABLE: nat := 1

  /** pin_irq_map: line k has the bit 1 << k and this vector. */
  function VectorOf(line: nat): Vector
    requires line < LINES
  {
    if line == 0 then Exti0
    else if line == 1 then Exti1
    else if line == 2 then Exti2
    else if line == 3 then Exti3
    else if line == 4 then Exti4
    else if line <= 9 then Exti9To5
    else Exti15To10
  }

  predicate IsSet(mask: nat, line: nat) {
    BitAt(mask, line) == 1
  }

  /** Some line that raises v is enabled in the mask. */
  ghost predicate Wanted(mask: nat, v: Vector) {
    exists k :: 0 <= k < LINES && VectorOf(k) == v && IsSet(mask, k)
  }

  /** Which lines raise which vector. */
  lemma WantedTable(mask: nat)
    ensures Wanted(mask, Exti0) <==> IsSet(mask, 0)
    ensures Wanted(mask, Exti1) <==> IsSet(mask, 1)
    ensures Wanted(mask, Exti2) <==> IsSet(mask, 2)
    ensures Wanted(mask, Exti3) <==> IsSet(mask, 3)
    ensures Wanted(mask, Exti4) <==> IsSet(mask, 4)
    ensures Wanted(mask, Exti9To5) <==>
            IsSet(mask, 5) || IsSet(mask, 6) || IsSet(mask, 7) || IsSet(mask, 8) || IsSet(mask, 9)
    ensures Wanted(mask, Exti15To10) <==>
            || IsSet(mask, 10) || IsSet(mask, 11) || IsSet(mask, 12)
            || IsSet(mask, 13) || IsSet(mask, 14) || IsSet(mask, 15)
  {
    forall k: nat | k < LINES
      ensures VectorOf(k) == if k <= 4 then [Exti0, Exti1, Exti2, Exti3, Exti4][k] else if k <= 9 then Exti9To5
                             else Exti15To10
    {
    }
    assert forall k :: 0 <= k < LINES && IsSet(mask, k) ==> Wanted(mask, VectorOf(k));
  }

  // ---------------------------------------------------------------- bits and lines

  lemma {:induction false} Pow2Apart(j: nat, k: nat)
    ensures Pow2(j) == Pow2(k) ==> j == k
  {
    if j > 0 && k > 0 {
      Pow2Apart(j - 1, k - 1);
    }
  }

  lemma {:induction false} Pow2Order(j: nat, k: nat)
    ensures Pow2(j) <= Pow2(k) <==> j <= k
  {
    if j > 0 && k > 0 {
      Pow2Order(j - 1, k - 1);
    }
  }

  /** bit2bitno: the number of the one bit that is set, or -1. */
  method BitToBitNo(bit: nat) returns (i: int)
    ensures if i >= 0 then i < 32 && bit == Pow2(i) else i == -1 && forall k :: 0 <= k < 32 ==> bit != Pow2(k)
  {
    i := 0;
    while i < 32
      invariant 0 <= i <= 32 && forall k :: 0 <= k < i ==> bit != Pow2(k)
    {
      if Pow2(i) == bit {
        return i;
      }
      i := i + 1;
    }
    i := -1;
  }

  lemma SetLine(mask: nat, line: nat, k: nat)
    ensures IsSet(Or(mask, Pow2(line)), k) <==> k == line || IsSet(mask, k)
  {
    BitOf(OrOp, mask, Pow2(line), k);
    BitOfPow2(line, k);
  }

  lemma ClearLine(mask: nat, line: nat, k: nat)
    ensures IsSet(Clear(mask, Pow2(line)), k) <==> k != line && IsSet(mask, k)
  {
    BitOf(ClearOp, mask, Pow2(line), k);
    BitOfPow2(line, k);
  }

  /** The bits of the lines from lo to hi. */
  function Group(lo: nat, hi: nat): nat
    requires lo <= hi
    decreases hi - lo
  {
    if lo == hi then Pow2(lo) else Or(Group(lo, hi - 1), Pow2(hi))
  }

  lemma {:induction false} GroupBits(lo: nat, hi: nat, k: nat)
    requires lo <= hi
    ensures IsSet(Group(lo, hi), k) <==> lo <= k <= hi
    decreases hi - lo
  {
    if lo < hi {
      GroupBits(lo, hi - 1, k);
      SetLine(Group(lo, hi - 1), hi, k);
    } else {
      BitOfPow2(lo, k);
    }
  }

  lemma {:induction false} GroupBelow(lo: nat, hi: nat)
    requires lo <= hi < 32
    ensures Group(lo, hi) < Pow2(32)
    decreases hi - lo
  {
    Pow2Order(32, hi);
    if lo < hi {
      GroupBelow(lo, hi - 1);
      Bounded(OrOp, Group(lo, hi - 1), Pow2(hi), 32);
    }
  }

  /** Masking with a group of lines gives zero exactly when none of them is set. */
  lemma NoneSet(mask: nat, lo: nat, hi: nat)
    requires lo <= hi < 32 && mask < Pow2(32)
    ensures And(mask, Group(lo, hi)) == 0 <==> forall k :: lo <= k <= hi ==> !IsSet(mask, k)
  {
    var x := And(mask, Group(lo, hi));
    forall k: nat ensures IsSet(x, k) <==> IsSet(mask, k) && lo <= k <= hi {
      BitOf(AndOp, mask, Group(lo, hi), k);
      GroupBits(lo, hi, k);
    }
    if x == 0 {
      forall k | lo <= k <= hi ensures !IsSet(mask, k) {
        ShrZero(k);
        assert !IsSet(x, k);
      }
    } else if forall k :: lo <= k <= hi ==> !IsSet(mask, k) {
      GroupBelow(lo, hi);
      Bounded(AndOp, mask, Group(lo, hi), 32);
      forall i | 0 <= i < 32 ensures BitAt(x, i) == 0 {
        assert !IsSet(x, i);
      }
      NoBits(x, 32);
    }
  }

  // ---------------------------------------------------------------- the driver

  datatype Call =
    | AttachIrq(pin: int, mode: int, hdr: int, args: int)
    | DetachIrq(pin: int)
    | EnableIrq(pin: int, enabled: nat)

  class Lines {
    const pins: seq<PinIndex>
    const table: array<Handler>
    var mask: nat
    var vectors: set<Vector>

    constructor (pins: seq<PinIndex>)
      requires |pins| < 256
      ensures Valid() && fresh(table) && this.pins == pins
      ensures mask == 0 && vectors == {} && forall k :: 0 <= k < LINES ==> table[k] == FREE
    {
      this.pins, mask, vectors := pins, 0, {};
      table := new Handler[LINES](_ => FREE);
      new;
      forall v: Vector ensures !Wanted(0, v) {
        forall k: nat ensures !IsSet(0, k) {
          ShrZero(k);
        }
      }
      assert Pow2(32) > 0;
    }

    /** get_pin, which takes the pin number as a byte: the entry of an existing pin. */
    predicate Exists(pin: int) {
      pin % 256 < |pins| && pins[pin % 256].index != -1
    }

    /** The pin is wired to the line. */
    predicate OnLine(pin: int, line: nat) {
      Exists(pin) && pins[pin % 256].pin == Pow2(line)
    }

    /** Each occupied slot holds a pin on the line of that slot, and a vector is enabled exactly when
        one of its lines is. */
    ghost predicate Valid()
      reads this, table
    {
      && |pins| < 256
      && table.Length == LINES
      && mask < Pow2(32)
      && (forall k :: 0 <= k < LINES && table[k].pin != -1 ==> OnLine(table[k].pin, k))
      && (forall v: Vector :: v in vectors <==> Wanted(mask, v))
    }

    /** The line of a pin, or -1 where it has none. */
    method LineOf(pin: int) returns (line: int)
      ensures if line >= 0 then line < LINES && OnLine(pin, line)
              else line == -1 && forall k :: 0 <= k < LINES ==> !OnLine(pin, k)
    {
      if pin % 256 >= |pins| || pins[pin % 256].index == -1 {
        return -1;
      }
      line := BitToBitNo(pins[pin % 256].pin);
      if line >= LINES {
        forall k | 0 <= k < LINES ensures !OnLine(pin, k) {
          Pow2Apart(k, line);
        }
        line := -1;
      }
    }

    /** stm32_pin_attach_irq */
    method Attach(pin: int, mode: int, hdr: int, args: int) returns (status: Status, ghost line: int)
      requires Valid()
      modifies table
      ensures Valid() && -1 <= line < LINES
      ensures line == -1 ==> status == NoSys && forall k :: 0 <= k < LINES ==> !OnLine(pin, k)
      ensures line >= 0 ==> OnLine(pin, line)
      ensures line >= 0 ==>
                var wish, was := Handler(pin, mode, hdr, args), old(table[line]);
                if was == wish || was.pin == -1 then status == Ok && table[line] == wish
                else status == Busy && table[line] == was
      ensures forall k :: 0 <= k < LINES && k != line ==> table[k] == old(table[k])
    {
      var irqindex := LineOf(pin);
      line := irqindex;
      if irqindex < 0 {
        return NoSys, line;
      }
      var slot := table[irqindex];
      if slot.pin == pin && slot.hdr == hdr && slot.mode == mode && slot.args == args {
        return Ok, line;
      }
      if slot.pin != -1 {
        return Busy, line;
      }
      table[irqindex] := Handler(pin, mode, hdr, args);
      status := Ok;
    }

    /** stm32_pin_dettach_irq */
    method Detach(pin: int) returns (status: Status, ghost line: int)
      requires Valid()
      modifies table
      ensures Valid() && -1 <= line < LINES
      ensures line == -1 ==> status == NoSys && forall k :: 0 <= k < LINES ==> !OnLine(pin, k)
      ensures line >= 0 ==> OnLine(pin, line) && status == Ok
      ensures line >= 0 ==> table[line] == if old(table[line]).pin == -1 then old(table[line]) else FREE
      ensures forall k :: 0 <= k < LINES && k != line ==> table[k] == old(table[k])
    {
      var irqindex := LineOf(pin);
      line := irqindex;
      if irqindex < 0 {
        return NoSys, line;
      }
      if table[irqindex].pin == -1 {
        return Ok, line;
      }
      table[irqindex] := FREE;
      status := Ok;
    }

    /** stm32_pin_irq_enable. Enabling asks for an occupied slot, disabling does not; disabling one
        line turns its vector off only if no other line of the vector is left. */
    method IrqEnable(pin: int, enabled: nat) returns (status: Status, ghost line: int)
      requires Valid()
      modifies this`mask, this`vectors
      ensures Valid() && -1 <= line < LINES
      ensures status != Ok ==> mask == old(mask) && vectors == old(vectors)
      ensures line == -1 ==> status != Ok && forall k :: 0 <= k < LINES ==> !OnLine(pin, k)
      ensures line >= 0 ==> OnLine(pin, line)
      ensures status == Ok <==>
              line >= 0 && (enabled == PIN_IRQ_DISABLE || (enabled == PIN_IRQ_ENABLE && table[line].pin != -1))
      ensures status == Ok ==>
                forall k :: 0 <= k < 32 ==>
                  (IsSet(mask, k) <==> if k == line then enabled == PIN_IRQ_ENABLE else IsSet(old(mask), k))
    {
      var irqindex := LineOf(pin);
      line := irqindex;
      if pin % 256 >= |pins| || pins[pin % 256].index == -1 {
        return NoSys, line;
      }
      if enabled == PIN_IRQ_ENABLE {
        if irqindex < 0 || table[irqindex].pin == -1 {
          return NoSys, line;
        }
        EnableLine(irqindex);
        status := Ok;
      } else if enabled == PIN_IRQ_DISABLE {
        if irqindex < 0 {
          return NoSys, line;
        }
        DisableLine(irqindex);
        status := Ok;
      } else {
        status := MinusNoSys;
      }
    }

    method EnableLine(line: nat)
      requires Valid() && line < LINES
      modifies this`mask, this`vectors
      ensures Valid()
      ensures forall k :: 0 <= k < 32 ==> (IsSet(mask, k) <==> k == line || IsSet(old(mask), k))
    {
      ghost var before := mask;
      vectors := vectors + {VectorOf(line)};
      mask := Or(mask, Pow2(line));
      Pow2Order(32, line);
      Bounded(OrOp, before, Pow2(line), 32);
      forall k: nat ensures IsSet(mask, k) <==> k == line || IsSet(before, k) {
        SetLine(before, line, k);
      }
      forall v: Vector ensures v in vectors <==> Wanted(mask, v) {
        if v == VectorOf(line) {
          assert IsSet(mask, line);
        } else if Wanted(before, v) {
          var k :| 0 <= k < LINES && VectorOf(k) == v && IsSet(before, k);
          assert IsSet(mask, k);
        }
      }
    }

    method DisableLine(line: nat)
      requires Valid() && line < LINES
      modifies this`mask, this`vectors
      ensures Valid()
      ensures forall k :: 0 <= k < 32 ==> (IsSet(mask, k) <==> k != line && IsSet(old(mask), k))
    {
      ghost var before, was := mask, vectors;
      var pinbit := Pow2(line);
      mask := Clear(mask, pinbit);
      forall k: nat ensures IsSet(mask, k) <==> k != line && IsSet(before, k) {
        ClearLine(before, line, k);
      }
      Pow2Order(32, line);
      Bounded(ClearOp, before, pinbit, 32);
      TurnOff(line);
      VectorsOff(before, mask, line, was, vectors);
    }

    /** HAL_NVIC_DisableIRQ, unless another line needs the vector. */
    method TurnOff(line: nat)
      requires line < LINES && mask < Pow2(32) && !IsSet(mask, line)
      modifies this`vectors
      ensures vectors == if Wanted(mask, VectorOf(line)) then old(vectors) else old(vectors) - {VectorOf(line)}
    {
      StillWanted(mask, line);
      hide Wanted, Shared, IsSet;
      if !Shared(mask, Pow2(line)) {
        vectors := vectors - {VectorOf(line)};
      }
    }
  }

  /** After any sequence of calls, each occupied slot holds a pin on the line of that slot, and each
      vector is enabled exactly when one of its lines is. */
  method RunCalls(pins: seq<PinIndex>, calls: seq<Call>) returns (lines: Lines)
    requires |pins| < 256
    ensures lines.pins == pins && lines.table.Length == LINES
    ensures forall k :: 0 <= k < LINES && lines.table[k].pin != -1 ==> lines.OnLine(lines.table[k].pin, k)
    ensures forall v: Vector :: v in lines.vectors <==> Wanted(lines.mask, v)
  {
    lines := new Lines(pins);
    for i := 0 to |calls|
      invariant lines.Valid() && fresh(lines) && fresh(lines.table) && lines.pins == pins
    {
      match calls[i] {
        case AttachIrq(pin, mode, hdr, args) =>
          var _, _ := lines.Attach(pin, mode, hdr, args);
        case DetachIrq(pin) =>
          var _, _ := lines.Detach(pin);
        case EnableIrq(pin, enabled) =>
          var _, _ := lines.IrqEnable(pin, enabled);
      }
    }
  }

  lemma PinOrder(line: nat)
    ensures (Pow2(5) <= Pow2(line) <==> 5 <= line) && (Pow2(line) <= Pow2(9) <==> line <= 9)
    ensures (Pow2(10) <= Pow2(line) <==> 10 <= line) && (Pow2(line) <= Pow2(15) <==> line <= 15)
  {
    Pow2Order(5, line);
    Pow2Order(line, 9);
    Pow2Order(10, line);
    Pow2Order(line, 15);
  }

  /** The tests of stm32_pin_irq_enable before HAL_NVIC_DisableIRQ: whether another line that shares
      the vector is left in the mask. */
  predicate Shared(mask: nat, pinbit: nat) {
    if Pow2(5) <= pinbit && pinbit <= Pow2(9) then And(mask, Group(5, 9)) != 0
    else if Pow2(10) <= pinbit && pinbit <= Pow2(15) then And(mask, Group(10, 15)) != 0
    else false
  }

  /** Those tests find out whether the vector of a line that was cleared is still wanted. */
  lemma StillWanted(mask: nat, line: nat)
    requires line < LINES && mask < Pow2(32) && !IsSet(mask, line)
    ensures Shared(mask, Pow2(line)) <==> Wanted(mask, VectorOf(line))
  {
    hide Group, And, Bitwise, Pow2, IsSet, BitAt;
    PinOrder(line);
    NoneSet(mask, 5, 9);
    NoneSet(mask, 10, 15);
    if 5 <= line <= 9 {
      SharedBy(mask, 5, 9, line);
    } else if 10 <= line {
      SharedBy(mask, 10, 15, line);
    }
  }

  /** A vector is wanted exactly when some line of its group is set. */
  lemma SharedBy(mask: nat, lo: nat, hi: nat, line: nat)
    requires lo <= line <= hi < LINES && forall k :: 0 <= k < LINES ==> (VectorOf(k) == VectorOf(line)
             <==> lo <= k <= hi)
    ensures Wanted(mask, VectorOf(line)) <==> exists k :: lo <= k <= hi && IsSet(mask, k)
  {
  }

  /** Taking one line out of the mask changes at most what is wanted of its own vector. */
  lemma VectorsOff(before: nat, mask: nat, line: nat, was: set<Vector>, vectors: set<Vector>)
    requires line < LINES && forall k: nat :: IsSet(mask, k) <==> k != line && IsSet(before, k)
    requires forall v: Vector :: v in was <==> Wanted(before, v)
    requires vectors == if Wanted(mask, VectorOf(line)) then was else was - {VectorOf(line)}
    ensures forall v: Vector :: v in vectors <==> Wanted(mask, v)
  {
    forall v: Vector ensures Wanted(mask, v) ==> Wanted(before, v) {
      if Wanted(mask, v) {
        var k :| 0 <= k < LINES && VectorOf(k) == v && IsSet(mask, k);
        assert IsSet(before, k);
      }
    }
    forall v: Vector ensures Wanted(before, v) && v != VectorOf(line) ==> Wanted(mask, v) {
      if Wanted(before, v) && v != VectorOf(line) {
        var k :| 0 <= k < LINES && VectorOf(k) == v && IsSet(before, k);
        assert IsSet(mask, k);
      }
    }
  }
}
