/** Bytes, C strings and decimal digits. */
module CText {

  type byte = b: int | 0 <= b < 256
  type bytes = seq<byte>

  /** The outcome of a parse function: a value and the position after it, the position of an error,
      or `Broken` where the C function is undefined: it leaves the text or the block that it fills, or
      an int overflows. */
  datatype Parse<+T> = Ok(value: T, end: nat) | Fail(at: nat) | Broken

  datatype Option<+T> = None | Some(value: T)

  const QUOTE: byte := 34
  const BACKSLASH: byte := 92
  const COMMA: byte := 44
  const COLON: byte := 58
  const ZERO: byte := 48
  const NINE: byte := 57
  const MINUS: byte := 45
  const PLUS: byte := 43
  const DOT: byte := 46
  const SLASH: byte := 47
  const SPACE: byte := 32
  const TAB: byte := 9
  const NEWLINE: byte := 10
  const RETURN: byte := 13
  const STAR: byte := 42

  const INT_MAX: nat := 0x7fff_ffff

  /** The byte at position i of a C string; from its end on, the terminator. */
  function At(s: bytes, i: nat): byte {
    if i < |s| then s[i] else 0
  }

  /** The bytes of a text. */
  function Ascii(t: string): (w: bytes)
    requires forall k :: 0 <= k < |t| ==> t[k] as int < 128
    ensures |w| == |t| && forall k :: 0 <= k < |t| ==> w[k] == t[k] as int
  {
    seq(|t|, k requires 0 <= k < |t| => t[k] as int)
  }

  /** The byte at position i as a C function reads it: its terminator is the last one it may read. */
  function Read(s: bytes, i: nat): byte
    requires i <= |s|
  {
    At(s, i)
  }

  predicate NulFree(s: bytes) {
    forall k :: 0 <= k < |s| ==> s[k] != 0
  }

  /** The text w stands in s at position i. */
  predicate Has(s: bytes, i: nat, w: bytes)
    ensures Has(s, i, w) ==> i + |w| <= |s|
    decreases w
  {
    i <= |s| && (w == [] || (i < |s| && s[i] == w[0] && Has(s, i + 1, w[1..])))
  }

  lemma {:induction false} HasAt(s: bytes, i: nat, w: bytes, k: nat)
    requires Has(s, i, w) && k < |w|
    ensures At(s, i + k) == w[k]
    decreases w
  {
    if k > 0 {
      HasAt(s, i + 1, w[1..], k - 1);
    }
  }

  lemma {:induction false} HasSplit(s: bytes, i: nat, a: bytes, b: bytes)
    ensures Has(s, i, a + b) <==> Has(s, i, a) && Has(s, i + |a|, b)
    decreases a
  {
    if a == [] {
      assert a + b == b;
    } else {
      assert (a + b)[1..] == a[1..] + b;
      HasSplit(s, i + 1, a[1..], b);
    }
  }

  /** Has is equality with a slice. */
  lemma {:induction false} HasSlice(s: bytes, i: nat, w: bytes)
    ensures Has(s, i, w) <==> i + |w| <= |s| && s[i..i + |w|] == w
    decreases w
  {
    if w != [] && i < |s| {
      HasSlice(s, i + 1, w[1..]);
      assert w == [w[0]] + w[1..];
      if i + |w| <= |s| {
        assert s[i..i + |w|] == [s[i]] + s[i + 1..i + |w|];
      }
    }
  }

  predicate Digit(c: byte) {
    ZERO <= c <= NINE
  }

  predicate AllDigits(w: bytes) {
    forall k :: 0 <= k < |w| ==> Digit(w[k])
  }

  /** The value of a hexadecimal digit, and -1 for any other character. */
  function HexValue(c: byte): (v: int)
    ensures -1 <= v < 16
  {
    if ZERO <= c <= NINE then c - ZERO
    else if 65 <= c <= 70 then c - 55
    else if 97 <= c <= 102 then c - 87
    else -1
  }

  /** The digits 0 to 9, A to F and a to f, and no other byte. */
  lemma HexTable(c: byte)
    ensures 0 <= HexValue(c) <==> 48 <= c <= 57 || 65 <= c <= 70 || 97 <= c <= 102
    ensures 48 <= c <= 57 ==> HexValue(c) == c - 48
    ensures 65 <= c <= 70 ==> HexValue(c) == 10 + (c - 65)
    ensures 97 <= c <= 102 ==> HexValue(c) == 10 + (c - 97)
  {
  }

  function Power10(k: nat): (r: nat)
    ensures r > 0
  {
    if k == 0 then 1 else 10 * Power10(k - 1)
  }

  /** The text printf gives for a non-negative number. */
  function Digits(n: nat): (w: bytes)
    ensures |w| > 0 && forall k :: 0 <= k < |w| ==> Digit(w[k])
    ensures n > 0 ==> w[0] != ZERO
  {
    if n < 10 then [ZERO + n] else Digits(n / 10) + [ZERO + n % 10]
  }

  /** "%d" */
  function Decimal(n: int): (w: bytes)
    ensures |w| > 0 && NulFree(w)
  {
    if n < 0 then [MINUS] + Digits(-n) else Digits(n)
  }

  /** The number that digits read from the left add up to, started with acc. */
  function Fold(acc: nat, w: bytes): nat
    requires forall k :: 0 <= k < |w| ==> Digit(w[k])
    decreases w
  {
    if w == [] then acc else assert Digit(w[0]); Fold(acc * 10 + (w[0] - ZERO), w[1..])
  }

  lemma {:induction false} FoldSnoc(acc: nat, w: bytes, d: byte)
    requires Digit(d) && forall k :: 0 <= k < |w| ==> Digit(w[k])
    ensures Fold(acc, w + [d]) == Fold(acc, w) * 10 + (d - ZERO)
    decreases w
  {
    if w == [] {
      assert ([d])[1..] == [];
    } else {
      assert Digit(w[0]);
      assert (w + [d])[1..] == w[1..] + [d];
      FoldSnoc(acc * 10 + (w[0] - ZERO), w[1..], d);
    }
  }

  lemma {:induction false} FoldGrows(v: nat, w: bytes)
    requires AllDigits(w)
    ensures Fold(v, w) >= v
    decreases w
  {
    if w != [] {
      assert Digit(w[0]);
      FoldGrows(v * 10 + (w[0] - ZERO), w[1..]);
    }
  }

  lemma {:induction false} FoldThrough(v: nat, a: bytes, b: bytes)
    requires AllDigits(a) && AllDigits(b)
    ensures Fold(v, a + b) == Fold(Fold(v, a), b)
    decreases a
  {
    if a == [] {
      assert a + b == b;
    } else {
      assert Digit(a[0]) && (a + b)[1..] == a[1..] + b;
      FoldThrough(v * 10 + (a[0] - ZERO), a[1..], b);
    }
  }

  lemma {:induction false} FoldDigits(n: nat)
    ensures Fold(0, Digits(n)) == n
  {
    if n >= 10 {
      FoldDigits(n / 10);
      FoldSnoc(0, Digits(n / 10), ZERO + n % 10);
    } else {
      assert ([ZERO + n])[1..] == [];
    }
  }

  /** The end of the run of digits that starts at i. */
  function RunEnd(s: bytes, i: nat): (j: nat)
    ensures i <= j && (i <= |s| ==> j <= |s|)
    ensures forall k :: i <= k < j ==> Digit(At(s, k))
    ensures !Digit(At(s, j))
    decreases if i < |s| then |s| - i else 0
  {
    if Digit(At(s, i)) then RunEnd(s, i + 1) else i
  }

  /** The number denoted by the digits s[i..j]. */
  function RunValue(acc: nat, s: bytes, i: nat, j: nat): nat
    requires i <= j <= |s| && forall k :: i <= k < j ==> Digit(At(s, k))
  {
    assert forall k :: 0 <= k < j - i ==> s[i..j][k] == At(s, i + k);
    Fold(acc, s[i..j])
  }

  lemma {:induction false} RunEndOf(s: bytes, i: nat, w: bytes)
    requires Has(s, i, w) && forall k :: 0 <= k < |w| ==> Digit(w[k])
    requires !Digit(At(s, i + |w|))
    ensures RunEnd(s, i) == i + |w|
    decreases |w|
  {
    if w != [] {
      RunEndOf(s, i + 1, w[1..]);
    }
  }

  /** The digit loops of parse_number and skip_atoi. */
  method ReadDigits(s: bytes, start: nat, acc: nat) returns (n: nat, num: nat)
    requires start <= |s|
    ensures num == RunEnd(s, start) && n == RunValue(acc, s, start, num)
  {
    n, num := acc, start;
    assert s[start..start] == [];
    while Digit(Read(s, num))
      invariant start <= num <= |s| && RunEnd(s, num) == RunEnd(s, start)
      invariant forall k :: start <= k < num ==> Digit(At(s, k))
      invariant n == RunValue(acc, s, start, num)
      decreases |s| - num
    {
      assert forall k :: 0 <= k < num - start ==> s[start..num][k] == At(s, start + k);
      FoldSnoc(acc, s[start..num], At(s, num));
      assert s[start..num + 1] == s[start..num] + [At(s, num)];
      n, num := n * 10 + (Read(s, num) - ZERO), num + 1;
    }
  }
}
