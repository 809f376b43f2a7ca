/** minmea_scan: directives applied to comma-separated fields. */
module MinmeaScan {
  import opened CText
  import opened MinmeaCheck
  import opened MinmeaFloat

  const SEMICOLON: byte := 59
  const DIRECTIVE_C: byte := 99
  const DIRECTIVE_D: byte := 100
  const DIRECTIVE_F: byte := 102
  const DIRECTIVE_I: byte := 105
  const DIRECTIVE_S: byte := 115
  const DIRECTIVE_T: byte := 116
  const DIRECTIVE_DATE: byte := 68
  const DIRECTIVE_TIME: byte := 84
  const DIRECTIVE_IGNORE: byte := 95

  // ---------------------------------------------------------------- fields

  /** The end of the run of field bytes at p. */
  function FieldEnd(s: bytes, p: nat): (e: nat)
    ensures p <= e && (p <= |s| ==> e <= |s|)
    ensures forall k :: p <= k < e ==> IsField(At(s, k))
    ensures !IsField(At(s, e))
    decreases if p < |s| then |s| - p else 0
  {
    if IsField(At(s, p)) then FieldEnd(s, p + 1) else p
  }

  /** next_field */
  function NextField(s: bytes, p: nat): Option<nat> {
    if At(s, FieldEnd(s, p)) == COMMA then Some(FieldEnd(s, p) + 1) else None
  }

  /** The position of the k-th field. */
  function FieldPos(s: bytes, k: nat): Option<nat> {
    if k == 0 then Some(0)
    else match FieldPos(s, k - 1)
      case None => None
      case Some(p) => NextField(s, p)
  }

  function Commas(w: bytes): nat
    decreases w
  {
    if w == [] then 0 else Commas(w[..|w| - 1]) + if w[|w| - 1] == COMMA then 1 else 0
  }

  /** Where the fields and the commas between them end. */
  function ListEnd(s: bytes, p: nat): (e: nat)
    ensures p <= e && (p <= |s| ==> e <= |s|)
    decreases if p < |s| then |s| - p else 0
  {
    if IsField(At(s, p)) || At(s, p) == COMMA then ListEnd(s, p + 1) else p
  }

  lemma {:induction false} RunThrough(s: bytes, p: nat, e: nat)
    requires p <= e <= |s| && forall k :: p <= k < e ==> IsField(At(s, k))
    ensures ListEnd(s, p) == ListEnd(s, e) && Commas(s[..e]) == Commas(s[..p])
    decreases e - p
  {
    if p < e {
      RunThrough(s, p, e - 1);
      assert IsField(At(s, e - 1)) && s[..e][..e - 1] == s[..e - 1];
    }
  }

  /** The k-th field starts behind the k-th comma of the list; where the list has fewer commas, there
      is no k-th field. */
  lemma {:induction false} FieldPosMeaning(s: bytes, k: nat)
    ensures match FieldPos(s, k)
            case Some(p) =>
              && p <= |s| && Commas(s[..p]) == k && ListEnd(s, p) == ListEnd(s, 0)
              && (if k == 0 then p == 0 else p > 0 && s[p - 1] == COMMA)
            case None => Commas(s[..ListEnd(s, 0)]) < k
    decreases k
  {
    hide IsField;
    if k > 0 {
      FieldPosMeaning(s, k - 1);
      match FieldPos(s, k - 1)
      case None =>
      case Some(p) =>
        var e := FieldEnd(s, p);
        RunThrough(s, p, e);
        if e < |s| && s[e] == COMMA {
          assert s[..e + 1][..e] == s[..e];
        } else {
          assert ListEnd(s, e) == e;
        }
    }
  }

  // ---------------------------------------------------------------- lists of fields

  function Join(fs: seq<bytes>): bytes
    requires fs != []
    decreases fs
  {
    if |fs| == 1 then fs[0] else fs[0] + ([COMMA] + Join(fs[1..]))
  }

  /** Where the k-th field starts in the joined text. */
  function Offset(fs: seq<bytes>, k: nat): nat
    requires k < |fs|
    decreases k
  {
    if k == 0 then 0 else |fs[0]| + 1 + Offset(fs[1..], k - 1)
  }

  predicate FieldBytes(w: bytes) {
    forall k :: 0 <= k < |w| ==> IsField(w[k])
  }

  lemma {:induction false} JoinAt(s: bytes, p: nat, fs: seq<bytes>, k: nat)
    requires k < |fs| && Has(s, p, Join(fs))
    ensures var q := p + Offset(fs, k);
            && Has(s, q, fs[k])
            && (if k + 1 < |fs| then At(s, q + |fs[k]|) == COMMA && p + Offset(fs, k + 1) == q + |fs[k]| + 1
                else q + |fs[k]| == p + |Join(fs)|)
    decreases k
  {
    if |fs| > 1 {
      HasSplit(s, p, fs[0], [COMMA] + Join(fs[1..]));
      HasSplit(s, p + |fs[0]|, [COMMA], Join(fs[1..]));
      if k > 0 {
        JoinAt(s, p + |fs[0]| + 1, fs[1..], k - 1);
      }
    }
  }

  lemma {:induction false} FieldEndOf(s: bytes, p: nat, w: bytes)
    requires Has(s, p, w) && FieldBytes(w) && !IsField(At(s, p + |w|))
    ensures FieldEnd(s, p) == p + |w|
    decreases w
  {
    if w != [] {
      assert At(s, p) == w[0];
      FieldEndOf(s, p + 1, w[1..]);
    }
  }

  /** The k-th field of a sentence is the k-th of the texts that its commas separate. */
  lemma {:induction false} FieldsOfSentence(s: bytes, fs: seq<bytes>, k: nat)
    requires fs != [] && (forall j :: 0 <= j < |fs| ==> FieldBytes(fs[j])) && Has(s, 0, Join(fs))
    requires !IsField(At(s, |Join(fs)|)) && At(s, |Join(fs)|) != COMMA
    ensures if k < |fs| then
              && FieldPos(s, k) == Some(Offset(fs, k))
              && Has(s, Offset(fs, k), fs[k]) && FieldEnd(s, Offset(fs, k)) == Offset(fs, k) + |fs[k]|
            else FieldPos(s, k).None?
    decreases k
  {
    hide Join, Has, FieldEnd;
    if k < |fs| {
      JoinAt(s, 0, fs, k);
      FieldEndOf(s, Offset(fs, k), fs[k]);
    }
    if k > 0 {
      FieldsOfSentence(s, fs, k - 1);
      if k <= |fs| {
        JoinAt(s, 0, fs, k - 1);
      }
    }
  }

  // ---------------------------------------------------------------- conversions

  /** strtol in base 10, with the position behind what it has read. */
  function StrToL(s: bytes, p: nat): (int, nat)
    requires p <= |s|
  {
    var w := SpacesEnd(s, p);
    var d := if At(s, w) == MINUS || At(s, w) == PLUS then w + 1 else w;
    if !Digit(At(s, d)) then (0, p)
    else
      var n: int := RunValue(0, s, d, RunEnd(s, d));
      (Clamp(if At(s, w) == MINUS then -n else n), RunEnd(s, d))
  }

  function SpacesEnd(s: bytes, p: nat): (e: nat)
    ensures p <= e && (p <= |s| ==> e <= |s|)
    decreases if p < |s| then |s| - p else 0
  {
    if At(s, p) == SPACE || 9 <= At(s, p) <= 13 then SpacesEnd(s, p + 1) else p
  }

  function Clamp(n: int): int {
    if n > 0x7fff_ffff then 0x7fff_ffff else if n < -0x8000_0000 then -0x8000_0000 else n
  }

  predicate DigitsAt(s: bytes, p: nat, n: nat) {
    forall q :: p <= q < p + n ==> Digit(At(s, q))
  }

  predicate FieldBytesAt(s: bytes, p: nat, n: nat) {
    forall q :: p <= q < p + n ==> IsField(At(s, q))
  }

  function Two(s: bytes, p: nat): int {
    10 * (At(s, p) - ZERO) + (At(s, p + 1) - ZERO)
  }

  /** The loop over the digits of a fraction of a second. */
  function Micro(s: bytes, p: nat, value: nat, scale: nat): nat
    decreases scale
  {
    if Digit(At(s, p)) && scale > 1 then Micro(s, p + 1, value * 10 + (At(s, p) - ZERO), scale / 10)
    else value * scale
  }

  function DirectionOf(c: byte): Conversion {
    if c == 78 || c == 69 then Done(Direction(1))
    else if c == 83 || c == 87 then Done(Direction(-1))
    else Reject
  }

  /** What a directive makes of the field at p. */
  function ConvertAt(s: bytes, kind: byte, p: nat): Conversion
    requires p <= |s|
  {
    if kind == DIRECTIVE_C then Done(Single(if IsField(At(s, p)) then At(s, p) else 0))
    else if kind == DIRECTIVE_D then if IsField(At(s, p)) then DirectionOf(At(s, p)) else Done(Direction(0))
    else if kind == DIRECTIVE_F then Floating(s, p, 0, -1, 0)
    else if kind == DIRECTIVE_I then
      var (n, e) := StrToL(s, p);
      if IsField(At(s, e)) then Reject else Done(Number(n))
    else if kind == DIRECTIVE_S then Done(Text(s[p..FieldEnd(s, p)]))
    else if kind == DIRECTIVE_T then
      if At(s, p) == DOLLAR && FieldBytesAt(s, p + 1, 5) then
        assert IsField(At(s, p + 5));
        Done(Talker(s[p + 1..p + 6]))
      else Reject
    else if kind == DIRECTIVE_DATE then
      if !IsField(At(s, p)) then Done(Date(-1, -1, -1))
      else if DigitsAt(s, p, 6) then Done(Date(Two(s, p), Two(s, p + 2), Two(s, p + 4)))
      else Reject
    else if kind == DIRECTIVE_TIME then
      if !IsField(At(s, p)) then Done(Time(-1, -1, -1, -1))
      else if DigitsAt(s, p, 6) then
        Done(Time(Two(s, p), Two(s, p + 2), Two(s, p + 4),
                  if At(s, p + 6) == DOT then Micro(s, p + 7, 0, 1_000_000) else 0))
      else Reject
    else if kind == DIRECTIVE_IGNORE then Done(Ignored)
    else Reject
  }

  /** What a directive makes of a field that is missing. */
  function ConvertMissing(kind: byte): Conversion {
    if kind == DIRECTIVE_C then Done(Single(0))
    else if kind == DIRECTIVE_D then Done(Direction(0))
    else if kind == DIRECTIVE_F then Done(Float(0, 0))
    else if kind == DIRECTIVE_I then Done(Number(0))
    else if kind == DIRECTIVE_S then Done(Text([]))
    else if kind == DIRECTIVE_DATE then Done(Date(-1, -1, -1))
    else if kind == DIRECTIVE_TIME then Done(Time(-1, -1, -1, -1))
    else if kind == DIRECTIVE_IGNORE then Done(Ignored)
    else Reject
  }

  function Convert(s: bytes, kind: byte, field: Option<nat>): Conversion
    requires field.Some? ==> field.value <= |s|
  {
    if field.None? then ConvertMissing(kind) else ConvertAt(s, kind, field.value)
  }

  // ---------------------------------------------------------------- scanning

  /** A directive other than ';', and whether a ';' stands before it. */
  datatype Directive = Directive(kind: byte, optional: bool)

  function Directives(format: bytes, j: nat, optional: bool): seq<Directive>
    decreases if j < |format| then |format| - j else 0
  {
    if At(format, j) == 0 then []
    else if At(format, j) == SEMICOLON then Directives(format, j + 1, true)
    else [Directive(At(format, j), optional)] + Directives(format, j + 1, optional)
  }

  /** What becomes of the directive d on the k-th field. */
  function Step(s: bytes, d: Directive, k: nat): Conversion {
    FieldPosMeaning(s, k);
    if FieldPos(s, k).None? && !d.optional then Reject else Convert(s, d.kind, FieldPos(s, k))
  }

  datatype Status = Success | Failure | Undefined

  /** The result of a scan, and the fields stored before it ended. */
  datatype Outcome = Outcome(status: Status, outs: seq<Field>)

  /** The directives ds on the fields from the k-th one on. */
  function Run(s: bytes, ds: seq<Directive>, k: nat): Outcome
    decreases ds
  {
    if ds == [] then Outcome(Success, [])
    else match Step(s, ds[0], k)
      case Reject => Outcome(Failure, [])
      case Overflow => Outcome(Undefined, [])
      case Done(f) =>
        var rest := Run(s, ds[1..], k + 1);
        Outcome(rest.status, [f] + rest.outs)
  }

  /** A scan succeeds exactly when its k-th directive can be applied to the k-th comma-separated
      field, for every k, and then its k-th result is that conversion. */
  lemma {:induction false} RunMeaning(s: bytes, ds: seq<Directive>, k: nat)
    ensures var r := Run(s, ds, k);
            && (r.status == Success <==> forall i :: 0 <= i < |ds| ==> Step(s, ds[i], k + i).Done?)
            && (r.status == Success ==> |r.outs| == |ds|)
            && |r.outs| <= |ds|
            && forall i :: 0 <= i < |r.outs| ==> Step(s, ds[i], k + i) == Done(r.outs[i])
    decreases ds
  {
    hide Step;
    if ds != [] {
      RunMeaning(s, ds[1..], k + 1);
      var rest := Run(s, ds[1..], k + 1);
      if Step(s, ds[0], k).Done? {
        assert forall i :: 0 < i < |ds| ==> ds[i] == ds[1..][i - 1];
        if rest.status == Success {
          forall i | 0 <= i < |ds| ensures Step(s, ds[i], k + i).Done? {
            if i > 0 {
              assert Step(s, ds[1..][i - 1], k + 1 + (i - 1)).Done?;
            }
          }
        } else {
          var i :| 0 <= i < |ds[1..]| && !Step(s, ds[1..][i], k + 1 + i).Done?;
          assert !Step(s, ds[i + 1], k + (i + 1)).Done?;
        }
        var outs := [Step(s, ds[0], k).f] + rest.outs;
        forall i | 0 <= i < |outs| ensures Step(s, ds[i], k + i) == Done(outs[i]) {
          if i > 0 {
            assert Step(s, ds[1..][i - 1], k + 1 + (i - 1)) == Done(rest.outs[i - 1]);
          }
        }
      } else {
        assert !Step(s, ds[0], k + 0).Done?;
      }
    }
  }

  // ---------------------------------------------------------------- minmea_scan

  method CheckDigits(s: bytes, p: nat, n: nat) returns (ok: bool)
    requires p <= |s|
    ensures ok == DigitsAt(s, p, n) && (ok ==> p + n <= |s|)
  {
    var f := 0;
    while f < n
      invariant 0 <= f <= n && p + f <= |s| && DigitsAt(s, p, f)
    {
      if !Digit(Read(s, p + f)) {
        return false;
      }
      f := f + 1;
    }
    return true;
  }

  /** The 's' directive. */
  method ScanText(s: bytes, p: nat) returns (text: bytes)
    requires p <= |s|
    ensures text == s[p..FieldEnd(s, p)]
  {
    var field := p;
    text := [];
    while IsField(Read(s, field))
      invariant p <= field <= |s| && text == s[p..field] && FieldEnd(s, field) == FieldEnd(s, p)
      decreases |s| - field
    {
      text, field := text + [s[field]], field + 1;
    }
  }

  /** The 't' directive. */
  method ScanTalker(s: bytes, p: nat) returns (r: Conversion)
    requires p <= |s|
    ensures r == ConvertAt(s, DIRECTIVE_T, p)
  {
    if Read(s, p) != DOLLAR {
      return Reject;
    }
    var f := 0;
    while f < 5
      invariant 0 <= f <= 5 && p + 1 + f <= |s| && FieldBytesAt(s, p + 1, f)
    {
      if !IsField(Read(s, p + 1 + f)) {
        return Reject;
      }
      f := f + 1;
    }
    assert IsField(At(s, p + 5));
    r := Done(Talker(s[p + 1..p + 6]));
  }

  /** The 'D' directive. */
  method ScanDate(s: bytes, p: nat) returns (r: Conversion)
    requires p <= |s|
    ensures r == ConvertAt(s, DIRECTIVE_DATE, p)
  {
    if !IsField(Read(s, p)) {
      return Done(Date(-1, -1, -1));
    }
    var ok := CheckDigits(s, p, 6);
    r := if ok then Done(Date(Two(s, p), Two(s, p + 2), Two(s, p + 4))) else Reject;
  }

  /** The 'T' directive. */
  method ScanTime(s: bytes, p: nat) returns (r: Conversion)
    requires p <= |s|
    ensures r == ConvertAt(s, DIRECTIVE_TIME, p)
  {
    if !IsField(Read(s, p)) {
      return Done(Time(-1, -1, -1, -1));
    }
    var ok := CheckDigits(s, p, 6);
    if !ok {
      return Reject;
    }
    var u := 0;
    if Read(s, p + 6) == DOT {
      var field, value, scale := p + 7, 0, 1_000_000;
      while Digit(Read(s, field)) && scale > 1
        invariant p + 7 <= field <= |s| && 0 <= value && 0 <= scale
        invariant Micro(s, field, value, scale) == Micro(s, p + 7, 0, 1_000_000)
        decreases scale
      {
        value, field, scale := value * 10 + (Read(s, field) - ZERO), field + 1, scale / 10;
      }
      u := value * scale;
    }
    r := Done(Time(Two(s, p), Two(s, p + 2), Two(s, p + 4), u));
  }

  /** The 'd' directive. */
  method ScanDirection(s: bytes, field: Option<nat>) returns (r: Conversion)
    requires field.Some? ==> field.value <= |s|
    ensures r == Convert(s, DIRECTIVE_D, field)
  {
    var value := 0;
    if field.Some? && IsField(Read(s, field.value)) {
      var c := Read(s, field.value);
      if c == 78 || c == 69 {
        value := 1;
      } else if c == 83 || c == 87 {
        value := -1;
      } else {
        return Reject;
      }
    }
    r := Done(Direction(value));
  }

  /** The 'i' directive. */
  method ScanInteger(s: bytes, field: Option<nat>) returns (r: Conversion)
    requires field.Some? ==> field.value <= |s|
    ensures r == Convert(s, DIRECTIVE_I, field)
  {
    var value := 0;
    if field.Some? {
      var n, end := StrToLong(s, field.value);
      if IsField(Read(s, end)) {
        return Reject;
      }
      value := n;
    }
    r := Done(Number(value));
  }

  /** The library's strtol in base 10. */
  method StrToLong(s: bytes, p: nat) returns (n: int, end: nat)
    requires p <= |s|
    ensures (n, end) == StrToL(s, p)
  {
    var w := p;
    while Read(s, w) == SPACE || 9 <= Read(s, w) <= 13
      invariant p <= w <= |s| && SpacesEnd(s, w) == SpacesEnd(s, p)
      decreases |s| - w
    {
      w := w + 1;
    }
    var d := w;
    if Read(s, w) == MINUS || Read(s, w) == PLUS {
      d := w + 1;
    }
    if !Digit(Read(s, d)) {
      return 0, p;
    }
    n, end := ReadDigits(s, d, 0);
    n := Clamp(if Read(s, w) == MINUS then -n else n);
  }

  /** The switch on the directive. */
  method ConvertField(s: bytes, kind: byte, field: Option<nat>) returns (r: Conversion)
    requires field.Some? ==> field.value <= |s|
    requires Convert(s, kind, field) != Overflow
    ensures r == Convert(s, kind, field)
  {
    if kind == DIRECTIVE_C {
      var value: byte := 0;
      if field.Some? && IsField(Read(s, field.value)) {
        value := Read(s, field.value);
      }
      r := Done(Single(value));
    } else if kind == DIRECTIVE_D {
      r := ScanDirection(s, field);
    } else if kind == DIRECTIVE_F {
      r := Finish(0, -1, 0);
      if field.Some? {
        r := ScanFloat(s, field.value);
      }
    } else if kind == DIRECTIVE_I {
      r := ScanInteger(s, field);
    } else if kind == DIRECTIVE_S {
      var text := [];
      if field.Some? {
        text := ScanText(s, field.value);
      }
      r := Done(Text(text));
    } else if kind == DIRECTIVE_T {
      r := Reject;
      if field.Some? {
        r := ScanTalker(s, field.value);
      }
    } else if kind == DIRECTIVE_DATE {
      r := Done(Date(-1, -1, -1));
      if field.Some? {
        r := ScanDate(s, field.value);
      }
    } else if kind == DIRECTIVE_TIME {
      r := Done(Time(-1, -1, -1, -1));
      if field.Some? {
        r := ScanTime(s, field.value);
      }
    } else if kind == DIRECTIVE_IGNORE {
      r := Done(Ignored);
    } else {
      r := Reject;
    }
  }

  /** next_field, with both cursors. */
  method Advance(s: bytes, start: nat) returns (sentence: nat, field: Option<nat>)
    requires start <= |s|
    ensures field == NextField(s, start) && sentence <= |s|
    ensures if field.Some? then sentence == field.value else NextField(s, sentence).None?
  {
    sentence := start;
    while IsField(Read(s, sentence))
      invariant start <= sentence <= |s| && FieldEnd(s, sentence) == FieldEnd(s, start)
      decreases |s| - sentence
    {
      sentence := sentence + 1;
    }
    if Read(s, sentence) == COMMA {
      sentence := sentence + 1;
      field := Some(sentence);
    } else {
      field := None;
    }
  }

  /** minmea_scan; outs are the values stored through the pointer arguments. */
  method Scan(s: bytes, format: bytes) returns (ok: bool, outs: seq<Field>)
    requires Run(s, Directives(format, 0, false), 0).status != Undefined
    ensures var r := Run(s, Directives(format, 0, false), 0);
            ok == (r.status == Success) && outs == r.outs
  {
    hide Convert, NextField;
    var optional, j := false, 0;
    var sentence: nat := 0;
    var field: Option<nat> := Some(0);
    ghost var k := 0;
    ghost var all := Run(s, Directives(format, 0, false), 0);
    outs := [];
    while Read(format, j) != 0
      invariant 0 <= j <= |format| && 0 <= k && sentence <= |s| && field == FieldPos(s, k)
      invariant if field.Some? then sentence == field.value else NextField(s, sentence).None?
      invariant var r := Run(s, Directives(format, j, optional), k);
                all == Outcome(r.status, outs + r.outs)
      decreases |format| - j
    {
      var kind := Read(format, j);
      ghost var here := Directives(format, j, optional);
      j := j + 1;
      if kind == SEMICOLON {
        optional := true;
        continue;
      }
      Unroll(s, Directive(kind, optional), Directives(format, j, optional), k, outs);
      if field.None? && !optional {
        return false, outs;
      }
      var r := ConvertField(s, kind, field);
      if r.Reject? {
        return false, outs;
      }
      outs := outs + [r.f];
      sentence, field := Advance(s, sentence);
      k := k + 1;
    }
    ok := true;
  }

  /** One turn of the loop. */
  lemma Unroll(s: bytes, d: Directive, ds: seq<Directive>, k: nat, outs: seq<Field>)
    ensures var r := Run(s, [d] + ds, k);
            match Step(s, d, k)
            case Reject => r == Outcome(Failure, []) && outs + [] == outs
            case Overflow => r == Outcome(Undefined, [])
            case Done(f) =>
              var rest := Run(s, ds, k + 1);
              r.status == rest.status && outs + r.outs == (outs + [f]) + rest.outs
  {
    assert ([d] + ds)[1..] == ds;
  }

  // ---------------------------------------------------------------- fractions of a second

  /** Up to six digits count; missing ones count as zeros. */
  lemma {:induction false} MicroDigits(s: bytes, p: nat, w: bytes, value: nat, j: nat)
    requires Has(s, p, w) && AllDigits(w) && !Digit(At(s, p + |w|))
    ensures Micro(s, p, value, Power10(j)) ==
            if |w| >= j then Fold(value, w[..j]) else Fold(value, w) * Power10(j - |w|)
    decreases w
  {
    if w == [] || j == 0 {
      assert w[..0] == [];
    } else {
      assert Digit(w[0]) && At(s, p) == w[0] && Power10(j) / 10 == Power10(j - 1);
      MicroDigits(s, p + 1, w[1..], value * 10 + (w[0] - ZERO), j - 1);
      if |w| >= j {
        assert w[..j][1..] == w[1..][..j - 1];
      }
    }
  }

  lemma {:induction false} FoldBelow(w: bytes)
    requires AllDigits(w)
    ensures Fold(0, w) < Power10(|w|)
    decreases |w|
  {
    if w != [] {
      var u := w[..|w| - 1];
      assert w == u + [w[|w| - 1]];
      FoldBelow(u);
      FoldSnoc(0, u, w[|w| - 1]);
    }
  }

  /** The microseconds are the fraction cut off behind six digits. */
  lemma Microseconds(s: bytes, p: nat, w: bytes)
    requires Has(s, p, w) && AllDigits(w) && !Digit(At(s, p + |w|))
    ensures var u := Micro(s, p, 0, 1_000_000);
            && u < 1_000_000
            && if |w| >= 6 then u == Fold(0, w) / Power10(|w| - 6) else u == Fold(0, w) * Power10(6 - |w|)
  {
    assert Power10(6) == 1_000_000 by {
      assert Power10(3) == 1_000;
    }
    MicroDigits(s, p, w, 0, 6);
    if |w| >= 6 {
      FoldTruncates(w, |w| - 6);
      FoldBelow(w[..6]);
    } else {
      FoldBelow(w);
      Scaled(Fold(0, w), |w|);
    }
  }

  lemma {:induction false} Scaled(n: nat, j: nat)
    requires j <= 6 && n < Power10(j)
    ensures n * Power10(6 - j) < Power10(6)
  {
    Combine(j, 6 - j);
    assert n * Power10(6 - j) < Power10(j) * Power10(6 - j);
  }

  lemma {:induction false} Combine(a: nat, b: nat)
    ensures Power10(a) * Power10(b) == Power10(a + b)
  {
    if a > 0 {
      Combine(a - 1, b);
    }
  }
}
