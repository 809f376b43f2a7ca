/** parse_string and print_string_ptr as loops over a byte buffer. */
module StringRoutines {
  import opened Bits
  import opened CText
  import opened StringCodec

  /** Only out[from..to] may differ from what out held before. */
  twostate predicate OnlyChanged(out: array<byte>, from: nat, to: nat)
    reads out
  {
    forall k :: 0 <= k < out.Length && !(from <= k < to) ==> out[k] == old(out[k])
  }

  /** The fall-through switch, which stores the encoding from its last byte back to its first. */
  method StoreEncoded(out: array<byte>, at: nat, uc: nat) returns (len: nat)
    requires at + EncodedLength(uc) <= out.Length
    modifies out
    ensures len == EncodedLength(uc)
    ensures out[at..at + len] == Transcode(uc)
    ensures OnlyChanged(out, at, at + len)
  {
    hide Continuation, Leader, Shr;
    len := EncodedLength(uc);
    var u, p := uc, at + len;
    if len >= 4 {
      p := p - 1;
      out[p] := Continuation(u);
      u := Shr(u, 6);
    }
    if len >= 3 {
      p := p - 1;
      out[p] := Continuation(u);
      u := Shr(u, 6);
    }
    if len >= 2 {
      p := p - 1;
      out[p] := Continuation(u);
      u := Shr(u, 6);
    }
    p := p - 1;
    out[p] := Leader(u, len);
    assert forall k :: 0 <= k < len ==> out[at + k] == Transcode(uc)[k];
  }

  /** The first loop of parse_string. */
  method MeasureLiteral(s: bytes, start: nat) returns (len: nat)
    requires start <= |s| && !FirstLeaves(s, start)
    ensures len == Count(s, start)
  {
    var ptr := start;
    len := 0;
    while Read(s, ptr) != QUOTE && Read(s, ptr) != 0
      invariant ptr <= |s| && !FirstLeaves(s, ptr)
      invariant len + Count(s, ptr) == Count(s, start)
      decreases |s| - ptr
    {
      len := len + 1;
      ptr := if Read(s, ptr) == BACKSLASH then ptr + 2 else ptr + 1;
    }
  }

  /** parse_string: `end` is negative where the C function returns a null pointer; otherwise out
      holds the decoded text and its terminator, within the size the first loop asked for. */
  method ParseStringAt(s: bytes, i: nat) returns (end: int, out: array<byte>, n: nat)
    requires i <= |s| && !ParseString(s, i).Broken?
    ensures fresh(out) && n < out.Length && out[n] == 0
    ensures match ParseString(s, i)
            case Ok(v, e) => end == e && out[..n] == v && out.Length == Count(s, i + 1) + 1
            case _ => end < 0
  {
    hide Hex4, Transcode, CombineSurrogates, Unescaped, Count;
    if Read(s, i) != QUOTE {
      out, n := new byte[1](_ => 0), 0;
      return -1, out, n;
    }
    var len := MeasureLiteral(s, i + 1);
    out := new byte[len + 1];
    var ptr, ptr2 := i + 1, 0;
    ghost var all := Decode(s, i + 1);
    assert all.Ok? && |all.value| <= len;
    Extend([], [], all);
    assert out[..0] == [] && Prepend([], all) == all;
    while Read(s, ptr) != QUOTE && Read(s, ptr) != 0
      invariant i < ptr <= |s|
      invariant ptr2 <= len && out.Length == len + 1
      invariant all == Prepend(out[..ptr2], Decode(s, ptr))
      decreases |s| - ptr
    {
      ghost var done, from := out[..ptr2], ptr;
      if Read(s, ptr) != BACKSLASH {
        out[ptr2] := Read(s, ptr);
        ptr, ptr2 := ptr + 1, ptr2 + 1;
        Extend(done, [At(s, from)], Decode(s, ptr));
        assert out[..ptr2] == done + [At(s, from)];
      } else if Read(s, ptr + 1) != 117 {
        out[ptr2] := Unescaped(Read(s, ptr + 1));
        ptr, ptr2 := ptr + 2, ptr2 + 1;
        Extend(done, [Unescaped(At(s, from + 1))], Decode(s, ptr));
        assert out[..ptr2] == done + [Unescaped(At(s, from + 1))];
      } else {
        ptr, ptr2 := ParseUnicodeEscape(s, ptr, out, ptr2);
      }
    }
    out[ptr2] := 0;
    n := ptr2;
    end := if Read(s, ptr) == QUOTE then ptr + 1 else ptr;
    assert out[..n] + [] == out[..n];
  }

  lemma Extend(done: bytes, w: bytes, r: Parse<bytes>)
    ensures Prepend(done, Prepend(w, r)) == Prepend(done + w, r)
    ensures Prepend([], r) == r
  {
    if r.Ok? {
      assert done + (w + r.value) == (done + w) + r.value;
      assert [] + r.value == r.value;
    }
  }

  /** parse_hex4: a character behind one that is no hexadecimal digit is not read. */
  method ParseHex4(s: bytes, str: nat) returns (h: nat)
    requires str <= |s|
    ensures h == Hex4(s, str)
  {
    var d := HexValue(Read(s, str));
    if d < 0 {
      return 0;
    }
    h := d;
    d := HexValue(Read(s, str + 1));
    if d < 0 {
      return 0;
    }
    h := h * 16 + d;
    d := HexValue(Read(s, str + 2));
    if d < 0 {
      return 0;
    }
    h := h * 16 + d;
    d := HexValue(Read(s, str + 3));
    if d < 0 {
      return 0;
    }
    h := h * 16 + d;
  }

  /** The 'u' case of the switch; ptr stands on the backslash. */
  method ParseUnicodeEscape(s: bytes, ptr: nat, out: array<byte>, at: nat) returns (ptr': nat, at': nat)
    requires At(s, ptr) == BACKSLASH && At(s, ptr + 1) == 117 && Decode(s, ptr).Ok?
    requires at + |Decode(s, ptr).value| < out.Length
    modifies out
    ensures ptr < ptr' <= |s| && at <= at' < out.Length
    ensures Prepend(old(out[..at]), Decode(s, ptr)) == Prepend(out[..at'], Decode(s, ptr'))
  {
    hide Hex4, CombineSurrogates, Continuation, Leader, Shr, Transcode;
    ghost var done := out[..at];
    var uc := ParseHex4(s, ptr + 2);
    ptr' := ptr + 6;
    if LowSurrogate(uc) || uc == 0 {
      return ptr', at;
    }
    if HighSurrogate(uc) {
      if Read(s, ptr + 6) != BACKSLASH || Read(s, ptr + 7) != 117 {
        return ptr', at;
      }
      var uc2 := ParseHex4(s, ptr + 8);
      ptr' := ptr + 12;
      if !LowSurrogate(uc2) {
        return ptr', at;
      }
      uc := CombineSurrogates(uc, uc2);
    }
    var n := StoreEncoded(out, at, uc);
    at' := at + n;
    Extend(done, Transcode(uc), Decode(s, ptr'));
    assert out[..at'] == done + Transcode(uc);
  }

  // ---------------------------------------------------------------- print_string_ptr

  /** The first loop of print_string_ptr and, where it finds a character to escape, the second. */
  method MeasureString(str: bytes) returns (flag: bool, len: nat)
    requires NulFree(str)
    ensures len == |Escape(str)|
    ensures !flag ==> Escape(str) == str
  {
    flag := false;
    var ptr := 0;
    while ptr < |str|
      invariant ptr <= |str|
      invariant flag || forall k :: 0 <= k < ptr ==> Plain(str[k])
    {
      if (0 < str[ptr] < 32) || str[ptr] == QUOTE || str[ptr] == BACKSLASH {
        flag := true;
      }
      ptr := ptr + 1;
    }
    if !flag {
      EscapePlain(str);
      return flag, |str|;
    }
    ptr, len := 0, 0;
    while ptr < |str|
      invariant ptr <= |str|
      invariant len + Measured(str[ptr..]) == Measured(str)
    {
      var token := str[ptr];
      assert str[ptr..][1..] == str[ptr + 1..];
      len := len + 1;
      if token in {QUOTE, BACKSLASH, 8, 12, 10, 13, 9} {
        len := len + 1;
      } else if token < 32 {
        len := len + 5;
      }
      ptr := ptr + 1;
    }
    MeasuredIsExact(str);
  }

  /** Copy w to out[at..]. */
  method Store(out: array<byte>, at: nat, w: bytes)
    requires at + |w| <= out.Length
    modifies out
    ensures out[at..at + |w|] == w
    ensures OnlyChanged(out, at, at + |w|)
  {
    for k := 0 to |w|
      invariant out[at..at + k] == w[..k]
      invariant OnlyChanged(out, at, at + k)
    {
      out[at + k] := w[k];
    }
  }

  /** The body of print_string_ptr once room for len + 3 bytes at `at` is found. */
  method FillString(out: array<byte>, at: nat, str: bytes, flag: bool, len: nat)
    requires NulFree(str) && len == |Escape(str)| && (!flag ==> Escape(str) == str)
    requires at + len + 3 <= out.Length
    modifies out
    ensures out[at..at + len + 2] == Quoted(str) && out[at + len + 2] == 0
    ensures OnlyChanged(out, at, at + len + 3)
  {
    out[at] := QUOTE;
    if !flag {
      Store(out, at + 1, str + [0]);
      assert out[at + 1..at + 1 + len] == out[at + 1..at + 1 + |str + [0]|][..len] == str;
      out[at + 1 + len] := QUOTE;
      out[at + 2 + len] := 0;
    } else {
      FillEscaped(out, at + 1, str, len);
    }
    assert out[at..at + len + 2] == [out[at]] + out[at + 1..at + 1 + len] + [out[at + 1 + len]];
  }

  lemma EscapeStep(str: bytes, k: nat)
    requires k < |str|
    ensures Escape(str[..k + 1]) == Escape(str[..k]) + EscapeByte(str[k])
    ensures |Escape(str[..k + 1])| <= |Escape(str)|
  {
    assert str == str[..k] + [str[k]] + str[k + 1..];
    EscapeGrows(str[..k], str[k], str[k + 1..]);
    assert str[..k + 1] == str[..k] + [str[k]];
    EscapeAppend(str[..k], [str[k]]);
    assert Escape([str[k]]) == EscapeByte(str[k]);
  }

  method FillEscaped(out: array<byte>, start: nat, str: bytes, len: nat)
    requires NulFree(str) && len == |Escape(str)| && start + len + 2 <= out.Length
    modifies out
    ensures out[start..start + len] == Escape(str) && out[start + len] == QUOTE && out[start + len + 1] == 0
    ensures OnlyChanged(out, start, start + len + 2)
  {
    var ptr, ptr2 := 0, start;
    while ptr < |str|
      invariant ptr <= |str| && ptr2 == start + |Escape(str[..ptr])| <= start + len
      invariant out[start..ptr2] == Escape(str[..ptr])
      invariant OnlyChanged(out, start, start + len + 2)
    {
      EscapeStep(str, ptr);
      var n := AppendByte(out, start, ptr2, str[ptr], start + len + 2);
      ptr, ptr2 := ptr + 1, ptr2 + n;
    }
    assert str[..ptr] == str;
    out[ptr2] := QUOTE;
    out[ptr2 + 1] := 0;
  }

  method AppendByte(out: array<byte>, ghost start: nat, at: nat, c: byte, ghost limit: nat) returns (n: nat)
    requires c != 0 && start <= at && at + |EscapeByte(c)| < limit <= out.Length
    modifies out
    ensures n == |EscapeByte(c)| && out[start..at + n] == old(out[start..at]) + EscapeByte(c)
    ensures OnlyChanged(out, at, limit)
  {
    ghost var done := out[start..at];
    n := FillByte(out, at, c, limit);
    assert out[start..at] == done;
    assert out[start..at + n] == out[start..at] + out[at..at + n];
  }

  /** One turn of the writing loop; sprintf also stores a terminator after its five characters. */
  method FillByte(out: array<byte>, at: nat, c: byte, ghost limit: nat) returns (n: nat)
    requires c != 0 && at + |EscapeByte(c)| < limit <= out.Length
    modifies out
    ensures n == |EscapeByte(c)| && out[at..at + n] == EscapeByte(c)
    ensures OnlyChanged(out, at, limit)
  {
    if c > 31 && c != QUOTE && c != BACKSLASH {
      out[at] := c;
      return 1;
    }
    out[at] := BACKSLASH;
    n := 2;
    if c == BACKSLASH {
      out[at + 1] := BACKSLASH;
    } else if c == QUOTE {
      out[at + 1] := QUOTE;
    } else if c == 8 {
      out[at + 1] := 98;
    } else if c == 12 {
      out[at + 1] := 102;
    } else if c == 10 {
      out[at + 1] := 110;
    } else if c == 13 {
      out[at + 1] := 114;
    } else if c == 9 {
      out[at + 1] := 116;
    } else {
      Store(out, at + 1, UnicodeEscape(c) + [0]);
      assert out[at + 1..at + 6] == out[at + 1..at + 7][..5] == UnicodeEscape(c);
      n := 6;
      assert out[at..at + 6] == [out[at]] + out[at + 1..at + 6];
    }
  }
}
