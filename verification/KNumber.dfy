/** print_number of the kernel's formatted printer, and the guarded writes all of it goes through. */
module KNumber {
  import opened CText

  const WORD: nat := 0x1_0000_0000

  type word = n: nat | n < WORD

  /** The value of a word as a signed long. */
  function Signed(w: word): (n: int)
    ensures -0x8000_0000 <= n < 0x8000_0000
  {
    if w < 0x8000_0000 then w else (w as int) - WORD
  }

  /** The word that represents a signed long. */
  function Unsigned(n: int): (w: word)
    requires -0x8000_0000 <= n < 0x8000_0000
    ensures Signed(w) == n
  {
    if n < 0 then n + WORD else n
  }

  function Repeat(c: byte, n: int): (w: bytes)
    ensures |w| == if n > 0 then n else 0
    ensures forall k :: 0 <= k < |w| ==> w[k] == c
  {
    if n > 0 then seq(n, _ => c) else []
  }

  // ---------------------------------------------------------------- guarded writes

  /** The cursor `str` into the buffer that runs from `buf` to `end` within all of memory; `out` is
      everything that was to be written. */
  class Sink {
    const mem: array<byte>
    const buf: nat
    const end: nat
    var str: nat
    ghost const before: bytes
    ghost var out: bytes

    constructor (mem: array<byte>, buf: nat, end: nat)
      requires buf <= end <= mem.Length
      ensures Valid() && fresh(this) && out == []
      ensures this.mem == mem && this.buf == buf && this.end == end && before == mem[..]
    {
      this.mem, this.buf, this.end := mem, buf, end;
      str, before, out := buf, mem[..], [];
    }

    /** What memory holds once `text` was written: nothing but the buffer changes, and that only as
        far as the text reaches. */
    ghost predicate Holds(text: bytes)
      reads mem
    {
      && |before| == mem.Length
      && forall a :: 0 <= a < mem.Length ==>
           mem[a] == if buf <= a < end && a - buf < |text| then text[a - buf] else before[a]
    }

    ghost predicate Valid()
      reads this, mem
    {
      buf <= end <= mem.Length && str == buf + |out| && Holds(out)
    }

    /** A byte is stored where the buffer has room for it, and counted in any case. */
    method Put(c: byte)
      requires Valid()
      modifies this, mem
      ensures Valid() && out == old(out) + [c]
    {
      if str < end {
        mem[str] := c;
      }
      str := str + 1;
      out := out + [c];
    }

    /** `size` copies of c, none where it is not positive; the result is what the countdown leaves in size. */
    method Pad(size: int, c: byte) returns (left: int)
      requires Valid()
      modifies this, mem
      ensures Valid() && out == old(out) + Repeat(c, size)
      ensures left == if size > 0 then -1 else size - 1
    {
      left := size;
      while left > 0
        invariant Valid() && left <= size && (size > 0 ==> left >= 0) && (size <= 0 ==> left == size)
        invariant out == old(out) + Repeat(c, size - left)
      {
        Put(c);
        left := left - 1;
      }
      left := left - 1;
    }
  }

  // ---------------------------------------------------------------- digits

  function DigitChar(d: nat, large: bool): byte
    requires d < 16
  {
    if d < 10 then ZERO + d else (if large then 65 else 97) + (d - 10)
  }

  /** divide computes in base 10, or in base 16 for every other base. */
  function Divisor(base: nat): (d: nat)
    ensures d == 10 || d == 16
  {
    if base == 10 then 10 else 16
  }

  /** The digits of n, most significant first. */
  function Numeral(n: nat, d: nat, large: bool): (w: bytes)
    requires 2 <= d <= 16
    ensures w != []
  {
    if n < d then [DigitChar(n, large)] else Numeral(n / d, d, large) + [DigitChar(n % d, large)]
  }

  function Power(b: nat, k: nat): nat {
    if k == 0 then 1 else b * Power(b, k - 1)
  }

  /** A number below d^k has no more than k digits. */
  lemma {:induction false} NumeralShort(n: nat, d: nat, large: bool, k: nat)
    requires 2 <= d <= 16 && k > 0 && n < Power(d, k)
    ensures |Numeral(n, d, large)| <= k
    decreases k
  {
    if n >= d {
      assert k > 1;
      Quotient(n, d, Power(d, k - 1));
      NumeralShort(n / d, d, large, k - 1);
    }
  }

  lemma Quotient(n: nat, d: nat, m: nat)
    requires d > 0 && n < d * m
    ensures n / d < m
  {
  }

  /** No 32-bit word needs more than ten digits, so tmp is long enough. */
  lemma TenDigits(n: word, d: nat, large: bool)
    requires d == 10 || d == 16
    ensures |Numeral(n, d, large)| <= 10
  {
    assert Power(10, 10) == 10_000_000_000 by {
      assert Power(10, 5) == 100_000;
      assert Power(10, 6) == 1_000_000;
      assert Power(10, 7) == 10_000_000;
      assert Power(10, 8) == 100_000_000;
      assert Power(10, 9) == 1_000_000_000;
    }
    assert Power(16, 8) == 0x1_0000_0000 by {
      assert Power(16, 4) == 0x1_0000;
      assert Power(16, 5) == 0x10_0000;
      assert Power(16, 6) == 0x100_0000;
      assert Power(16, 7) == 0x1000_0000;
    }
    NumeralShort(n, d, large, if d == 10 then 10 else 8);
  }

  function Reversed(s: bytes): (r: bytes)
    ensures |r| == |s| && forall k :: 0 <= k < |s| ==> r[k] == s[|s| - 1 - k]
  {
    seq(|s|, k requires 0 <= k < |s| => s[|s| - 1 - k])
  }

  /** divide */
  method Divide(n: int, base: nat) returns (res: nat, quotient: int)
    requires -0x8000_0000 <= n < 0x8000_0000
    ensures res == Unsigned(n) % Divisor(base) && res < 16
    ensures 0 <= quotient < 0x8000_0000 && quotient == Unsigned(n) / Divisor(base)
  {
    if base == 10 {
      res, quotient := Unsigned(n) % 10, Unsigned(n) / 10;
    } else {
      res, quotient := Unsigned(n) % 16, Unsigned(n) / 16;
    }
  }

  /** The digits of num, least significant first, as they go into tmp. */
  method FillDigits(tmp: array<byte>, num: int, base: nat, large: bool) returns (i: nat)
    requires tmp.Length == 16 && -0x8000_0000 <= num < 0x8000_0000
    modifies tmp
    ensures i <= 16 && tmp[..i] == Reversed(Numeral(Unsigned(num), Divisor(base), large))
  {
    ghost var all := Numeral(Unsigned(num), Divisor(base), large);
    TenDigits(Unsigned(num), Divisor(base), large);
    i := 0;
    if num == 0 {
      tmp[i] := ZERO;
      i := i + 1;
      return;
    }
    hide Numeral, Divisor, Reversed;
    var n := num;
    NothingYet(all);
    while n != 0
      invariant -0x8000_0000 <= n < 0x8000_0000 && i <= |all|
      invariant all == (if n == 0 then [] else Numeral(Unsigned(n), Divisor(base), large)) + Reversed(tmp[..i])
      decreases Unsigned(n)
    {
      ghost var rest := tmp[..i];
      ghost var head := NumeralStep(Unsigned(n), Divisor(base), large);
      var res;
      res, n := Divide(n, base);
      tmp[i] := DigitChar(res, large);
      i := i + 1;
      assert tmp[..i] == rest + [DigitChar(res, large)];
      ReversedSnoc(rest, DigitChar(res, large));
      Group(head, DigitChar(res, large), Reversed(rest));
    }
    assert [] + Reversed(tmp[..i]) == Reversed(tmp[..i]);
    ReversedTwice(tmp[..i]);
    assert all == Reversed(tmp[..i]);
  }

  /** The last digit of a number, and those before it. */
  lemma NumeralStep(n: nat, d: nat, large: bool) returns (head: bytes)
    requires n > 0 && (d == 10 || d == 16)
    ensures head == (if n / d == 0 then [] else Numeral(n / d, d, large))
    ensures Numeral(n, d, large) == head + [DigitChar(n % d, large)]
    ensures n / d < n
  {
    if d == 10 {
      head := if n / 10 == 0 then [] else Numeral(n / 10, 10, large);
    } else {
      head := if n / 16 == 0 then [] else Numeral(n / 16, 16, large);
    }
  }

  lemma NothingYet(all: bytes)
    ensures all == all + Reversed([])
  {
  }

  lemma ReversedSnoc(s: bytes, c: byte)
    ensures Reversed(s + [c]) == [c] + Reversed(s)
  {
  }

  lemma ReversedTwice(s: bytes)
    ensures Reversed(Reversed(s)) == s
  {
  }

  lemma Group(a: bytes, c: byte, b: bytes)
    ensures (a + [c]) + b == a + ([c] + b)
  {
  }

  // ---------------------------------------------------------------- print_number

  datatype Flags = Flags(left: bool, plus: bool, space: bool, zeroPad: bool, sign: bool, large: bool)

  function Max(a: int, b: int): int { if a > b then a else b }

  /** The sign character, if there is one. */
  function SignText(num: int, f: Flags): (w: bytes)
    ensures |w| <= 1
  {
    if !f.sign then []
    else if num < 0 then [MINUS]
    else if f.plus then [PLUS]
    else if f.space then [SPACE]
    else []
  }

  /** The number whose digits appear: with a sign, the absolute value. */
  function Magnitude(num: int, f: Flags): (m: word)
    requires -0x8000_0000 <= num < 0x8000_0000
  {
    if f.sign && num < 0 then -num else Unsigned(num)
  }

  function NumberDigits(num: int, base: nat, f: Flags): bytes
    requires -0x8000_0000 <= num < 0x8000_0000
  {
    Numeral(Magnitude(num, f), Divisor(base), f.large)
  }

  /** Zeros up to the precision, then the digits; precision 0 leaves the digits out. */
  function Body(digits: bytes, precision: int): bytes {
    Repeat(ZERO, precision - |digits|) + if precision == 0 then [] else digits
  }

  /** The text of a number in its field. */
  function NumberText(num: int, base: nat, width: int, precision: int, f: Flags): bytes
    requires -0x8000_0000 <= num < 0x8000_0000
  {
    var digits := NumberDigits(num, base, f);
    var sign := SignText(num, f);
    var pad := width - Max(|digits|, precision) - |sign|;
    if f.left then sign + Body(digits, precision) + Repeat(SPACE, pad)
    else if f.zeroPad then sign + Repeat(ZERO, pad) + Body(digits, precision)
    else Repeat(SPACE, pad) + sign + Body(digits, precision)
  }

  /** The negation of a signed long: the most negative one is its own. */
  function Negate(n: int): (r: int)
    requires -0x8000_0000 <= n < 0x8000_0000
    ensures -0x8000_0000 <= r < 0x8000_0000 && Unsigned(r) == (WORD - Unsigned(n)) % WORD
  {
    if n == -0x8000_0000 then n else -n
  }

  /** The sign print_number is to show, zero for none, and the number whose digits it shows. */
  method TakeSign(n: int, f: Flags) returns (sign: byte, num: int)
    requires -0x8000_0000 <= n < 0x8000_0000
    ensures -0x8000_0000 <= num < 0x8000_0000 && Unsigned(num) == Magnitude(n, f)
    ensures SignText(n, f) == if sign == 0 then [] else [sign]
  {
    sign, num := 0, n;
    if f.sign {
      if num < 0 {
        sign := MINUS;
        num := Negate(num);
      } else if f.plus {
        sign := PLUS;
      } else if f.space {
        sign := SPACE;
      }
    }
  }

  /** print_number */
  method PrintNumber(out: Sink, n: int, base: nat, s: int, precision0: int, f: Flags)
    requires out.Valid() && -0x8000_0000 <= n < 0x8000_0000
    modifies out, out.mem
    ensures out.Valid() && out.out == old(out.out) + NumberText(n, base, s, precision0, f)
  {
    hide Numeral, Repeat, Reversed, Body, Front, NumberText, SignText, Sink.Holds, NumberDigits;
    var sign, num := TakeSign(n, f);
    var tmp := new byte[16];
    var i := FillDigits(tmp, num, base, f.large);
    ghost var digits := NumberDigits(n, base, f);
    TheDigits(n, base, f, num);
    var precision := Max(i, precision0);
    var size := PrintFront(out, n, s - precision, sign, f);
    PrintBody(out, tmp, i, precision, precision0, digits);
    var _ := out.Pad(size, SPACE);
    Laid(old(out.out), n, base, s, precision0, f, size);
  }

  lemma TheDigits(n: int, base: nat, f: Flags, num: int)
    requires -0x8000_0000 <= n < 0x8000_0000 && -0x8000_0000 <= num < 0x8000_0000 && Unsigned(num) == Magnitude(n, f)
    ensures NumberDigits(n, base, f) == Numeral(Unsigned(num), Divisor(base), f.large)
    ensures |Reversed(NumberDigits(n, base, f))| == |NumberDigits(n, base, f)|
  {
  }

  /** The part of print_number that puts the zeros up to the precision and the digits. */
  method PrintBody(out: Sink, tmp: array<byte>, i: nat, precision: int, precision0: int, ghost digits: bytes)
    requires out.Valid() && i <= tmp.Length && tmp != out.mem
    requires tmp[..i] == Reversed(digits) && precision == Max(|digits|, precision0)
    modifies out, out.mem
    ensures out.Valid() && out.out == old(out.out) + Body(digits, precision0)
  {
    ReversedTwice(digits);
    hide Repeat, Reversed, Body, Sink.Holds;
    ghost var front := out.out;
    var _ := out.Pad(precision - i, ZERO);
    if precision0 != 0 {
      PutDigits(out, tmp, i);
    }
    BodyOf(front, digits, precision0, precision);
  }

  /** The part of print_number before the precision: blanks, sign, and blanks or zeros. */
  method PrintFront(out: Sink, n: int, s: int, sign: byte, f: Flags) returns (size: int)
    requires out.Valid() && SignText(n, f) == if sign == 0 then [] else [sign]
    modifies out, out.mem
    ensures out.Valid() && out.out == old(out.out) + Front(n, s - |SignText(n, f)|, f)
    ensures if f.left then size == s - |SignText(n, f)| else size <= 0
  {
    hide Sink.Holds, SignText;
    size := s;
    if !f.zeroPad && !f.left {
      if sign != 0 && size > 0 {
        size := size - 1;
      }
      size := out.Pad(size, SPACE);
    }
    if sign != 0 {
      out.Put(sign);
      size := size - 1;
    }
    if !f.left {
      size := out.Pad(size, if f.zeroPad then ZERO else SPACE);
    }
  }

  /** What print_number puts before the digits. */
  function Front(n: int, pad: int, f: Flags): bytes {
    if f.left then SignText(n, f)
    else if f.zeroPad then SignText(n, f) + Repeat(ZERO, pad)
    else Repeat(SPACE, pad) + SignText(n, f)
  }

  lemma BodyOf(w: bytes, digits: bytes, precision0: int, precision: int)
    requires precision == Max(|digits|, precision0)
    ensures w + Repeat(ZERO, precision - |digits|) + (if precision0 == 0 then [] else digits) ==
            w + Body(digits, precision0)
    ensures w + Repeat(ZERO, precision - |digits|) + [] == w + Repeat(ZERO, precision - |digits|)
  {
  }

  lemma Laid(w: bytes, n: int, base: nat, s: int, precision: int, f: Flags, left: int)
    requires -0x8000_0000 <= n < 0x8000_0000
    requires var pad := s - Max(|NumberDigits(n, base, f)|, precision) - |SignText(n, f)|;
             if f.left then left == pad else left <= 0
    ensures var digits := NumberDigits(n, base, f);
            var pad := s - Max(|digits|, precision) - |SignText(n, f)|;
            w + Front(n, pad, f) + Body(digits, precision) + Repeat(SPACE, left) ==
                w + NumberText(n, base, s, precision, f)
  {
  }

  /** The collected digits, from the last one collected back to the first. */
  method PutDigits(out: Sink, tmp: array<byte>, n: nat)
    requires out.Valid() && n <= tmp.Length && tmp != out.mem
    modifies out, out.mem
    ensures out.Valid() && out.out == old(out.out) + Reversed(tmp[..n])
  {
    var i := n;
    while i > 0
      invariant out.Valid() && 0 <= i <= n && tmp[..n] == old(tmp[..n])
      invariant out.out == old(out.out) + Reversed(tmp[..n])[..n - i]
    {
      i := i - 1;
      out.Put(tmp[i]);
    }
  }

  // ---------------------------------------------------------------- what the text means

  predicate IsDigit(c: byte, base: nat) {
    0 <= HexValue(c) < base
  }

  /** Read digits for as long as there are any. */
  function Leading(acc: nat, w: bytes, base: nat): nat
    decreases w
  {
    if w != [] && IsDigit(w[0], base) then Leading(acc * base + HexValue(w[0]), w[1..], base) else acc
  }

  function SkipBlanks(w: bytes): bytes
    decreases w
  {
    if w != [] && w[0] == SPACE then SkipBlanks(w[1..]) else w
  }

  /** How one reads a number: blanks, perhaps a sign, digits. */
  function Scan(w: bytes, base: nat): int {
    var v := SkipBlanks(w);
    if v != [] && v[0] == MINUS then
      var m: int := Leading(0, v[1..], base);
      -m
    else if v != [] && v[0] == PLUS then Leading(0, v[1..], base)
    else Leading(0, v, base)
  }

  lemma {:induction false} LeadingThrough(acc: nat, ds: bytes, rest: bytes, base: nat)
    requires forall k :: 0 <= k < |ds| ==> IsDigit(ds[k], base)
    ensures Leading(acc, ds + rest, base) == Leading(Leading(acc, ds, base), rest, base)
    decreases ds
  {
    if ds == [] {
      assert ds + rest == rest;
    } else {
      assert IsDigit(ds[0], base) && (ds + rest)[1..] == ds[1..] + rest;
      LeadingThrough(acc * base + HexValue(ds[0]), ds[1..], rest, base);
    }
  }

  /** The digits of n evaluate back to n. */
  lemma {:induction false} NumeralReads(n: nat, base: nat, large: bool)
    requires 2 <= base <= 16
    ensures forall k :: 0 <= k < |Numeral(n, base, large)| ==> IsDigit(Numeral(n, base, large)[k], base)
    ensures Leading(0, Numeral(n, base, large), base) == n
  {
    hide Leading, IsDigit, DigitChar;
    if n < base {
      LeadingOne(0, n, base, large);
    } else {
      NumeralReads(n / base, base, large);
      OneMore(Numeral(n / base, base, large), n / base, n % base, base, large);
      DivMod(n, base);
    }
  }

  lemma DivMod(n: nat, d: nat)
    requires d > 0
    ensures n / d * d + n % d == n
  {
  }

  /** Another digit behind a numeral of q. */
  lemma OneMore(front: bytes, q: nat, d: nat, base: nat, large: bool)
    requires d < base <= 16 && (forall k :: 0 <= k < |front| ==> IsDigit(front[k], base))
    requires Leading(0, front, base) == q
    ensures var w := front + [DigitChar(d, large)];
            Leading(0, w, base) == q * base + d && forall k :: 0 <= k < |w| ==> IsDigit(w[k], base)
  {
    hide Leading, IsDigit, DigitChar;
    LeadingThrough(0, front, [DigitChar(d, large)], base);
    LeadingOne(q, d, base, large);
  }

  lemma LeadingOne(acc: nat, d: nat, base: nat, large: bool)
    requires d < base <= 16
    ensures Leading(acc, [DigitChar(d, large)], base) == acc * base + d && IsDigit(DigitChar(d, large), base)
  {
    var c := DigitChar(d, large);
    assert HexValue(c) == d && [c][1..] == [];
  }

  lemma {:induction false} LeadingZeros(n: int, w: bytes, base: nat)
    requires base > 0
    ensures Leading(0, Repeat(ZERO, n) + w, base) == Leading(0, w, base)
    decreases n
  {
    if n > 0 {
      assert (Repeat(ZERO, n) + w)[1..] == Repeat(ZERO, n - 1) + w;
      LeadingZeros(n - 1, w, base);
    } else {
      assert Repeat(ZERO, n) + w == w;
    }
  }

  lemma {:induction false} BlanksSkipped(n: int, w: bytes)
    ensures SkipBlanks(Repeat(SPACE, n) + w) == SkipBlanks(w)
    decreases n
  {
    if n > 0 {
      assert (Repeat(SPACE, n) + w)[1..] == Repeat(SPACE, n - 1) + w;
      BlanksSkipped(n - 1, w);
    } else {
      assert Repeat(SPACE, n) + w == w;
    }
  }

  /** Every field print_number lays out: blanks, sign, zeros, digits, blanks. */
  function Laying(a: int, sign: bytes, z: int, digits: bytes, b: int): bytes {
    Repeat(SPACE, a) + (sign + (Repeat(ZERO, z) + (digits + Repeat(SPACE, b))))
  }

  lemma LayingOf(num: int, base: nat, width: int, precision: int, f: Flags) returns (a: int, z: int, b: int)
    requires -0x8000_0000 <= num < 0x8000_0000 && precision != 0
    ensures NumberText(num, base, width, precision, f) == Laying(a, SignText(num, f), z, NumberDigits(num, base, f), b)
  {
    hide NumberDigits, SignText;
    var digits := NumberDigits(num, base, f);
    var pad := width - Max(|digits|, precision) - |SignText(num, f)|;
    var zeros := precision - |digits|;
    a, z, b := 0, zeros, 0;
    if f.left {
      b := pad;
    } else if f.zeroPad {
      z := Max(pad, 0) + Max(zeros, 0);
      assert Repeat(ZERO, pad) + Repeat(ZERO, zeros) == Repeat(ZERO, z);
    } else {
      a := pad;
    }
  }

  lemma LayingReads(a: int, sign: bytes, z: int, n: nat, base: nat, large: bool, b: int)
    requires base == 10 || base == 16
    requires sign == [] || sign == [MINUS] || sign == [PLUS] || sign == [SPACE]
    ensures var r := Scan(Laying(a, sign, z, Numeral(n, base, large), b), base);
            n == if sign == [MINUS] then -r else r
  {
    var digits := Numeral(n, base, large);
    var tail := Repeat(ZERO, z) + (digits + Repeat(SPACE, b));
    NumeralReads(n, base, large);
    LeadingThrough(0, digits, Repeat(SPACE, b), base);
    LeadingZeros(z, digits + Repeat(SPACE, b), base);
    BlanksSkipped(a, sign + tail);
    assert Leading(0, tail, base) == n;
    assert tail != [] && IsDigit(tail[0], base) by {
      if z <= 0 {
        assert tail[0] == digits[0];
      }
    }
    if sign == [] {
      assert sign + tail == tail;
    } else {
      assert (sign + tail)[1..] == tail;
    }
  }

  /** In bases 10 and 16 and with a precision other than 0, the text of a number reads back as that
      number, the most negative one included, whatever the field. */
  lemma NumberReadsBack(num: int, base: nat, width: int, precision: int, f: Flags)
    requires -0x8000_0000 <= num < 0x8000_0000 && precision != 0 && (base == 10 || base == 16)
    ensures Scan(NumberText(num, base, width, precision, f), base) == if f.sign then num else Unsigned(num)
  {
    var a, z, b := LayingOf(num, base, width, precision, f);
    LayingReads(a, SignText(num, f), z, Magnitude(num, f), base, f.large, b);
  }

  /** The field is as wide as asked for, or as sign, precision and digits need, exactly when the
      precision is not 0: precision 0 leaves out the digits it has made room for. */
  lemma FieldWidth(num: int, base: nat, width: int, precision: int, f: Flags)
    requires -0x8000_0000 <= num < 0x8000_0000
    ensures precision != 0 <==>
            |NumberText(num, base, width, precision, f)|
            == Max(width, |SignText(num, f)| + Max(|NumberDigits(num, base, f)|, precision))
  {
    var digits := NumberDigits(num, base, f);
    assert |Body(digits, precision)| == Max(|digits|, precision) - if precision == 0 then |digits| else 0;
  }

  /** "%.0d" of 5 is the empty text. */
  lemma PrecisionZero()
    ensures NumberText(5, 10, -1, 0, Flags(false, false, false, false, true, false)) == []
  {
  }

  /** "%o" shows hexadecimal digits: they are the octal digits of n exactly when n is below 8. */
  lemma OctalIsHexadecimal(n: word, large: bool)
    ensures Numeral(n, Divisor(8), large) == Numeral(n, 8, large) <==> n < 8
  {
    if n >= 8 {
      NumeralReads(n, 8, large);
      NumeralReads(n, 16, large);
      if Numeral(n, 16, large) == Numeral(n, 8, large) {
        OctalLess(n, large);
      }
    }
  }

  /** A numeral of octal digits is worth no more in base 8 than in base 16, and less if it is long. */
  lemma {:induction false} OctalLess(n: nat, large: bool)
    requires forall k :: 0 <= k < |Numeral(n, 16, large)| ==> IsDigit(Numeral(n, 16, large)[k], 8)
    ensures n < 8 || Leading(0, Numeral(n, 16, large), 8) < n
  {
    if n >= 16 {
      var front, c := Numeral(n / 16, 16, large), DigitChar(n % 16, large);
      assert Numeral(n, 16, large) == front + [c];
      assert forall k :: 0 <= k < |front| ==> front[k] == (front + [c])[k];
      assert (front + [c])[|front|] == c;
      OctalLess(n / 16, large);
      LeadingThrough(0, front, [c], 8);
      assert [c][1..] == [];
      if n / 16 < 8 {
        assert front == [DigitChar(n / 16, large)] && front[1..] == [];
      }
    } else if n >= 8 {
      assert Numeral(n, 16, large)[0] == DigitChar(n, large);
    }
  }
}
