/** cJSON_Minify as it works on the caller's buffer. */
module MinifyRoutine {
  import opened CText
  import opened Minify

  /** The cursor `into` writes what stays of the text that `json` has read; a[n] is the terminator. */
  method MinifyInPlace(a: array<byte>, ghost n: nat)
    requires n < a.Length && a[n] == 0 && NulFree(a[..n])
    requires Min(a[..n], 0).Text?
    modifies a
    ensures var t := old(Min(a[..n], 0)).t;
            && |t| <= n && a[..|t|] == t && a[|t|] == 0
            && forall x :: |t| < x < a.Length ==> a[x] == old(a[x])
  {
    hide Min;
    ghost var s := a[..n];
    var into, json := 0, 0;
    CatCat([], [], Min(s, 0));
    assert a[..0] == [];
    while a[json] != 0
      decreases n - json
      invariant into <= json <= n
      invariant forall x :: into <= x < a.Length ==> a[x] == old(a[x])
      invariant Min(s, 0) == Cat(a[..into], Min(s, json))
    {
      assert At(s, json) == a[json];
      assert At(s, json + 1) == a[json + 1];
      ghost var done, from := a[..into], json;
      MinStep(s, json);
      if a[json] == SPACE || a[json] == TAB || a[json] == RETURN || a[json] == NEWLINE {
        json := json + 1;
      } else if a[json] == SLASH && a[json + 1] == SLASH {
        json := SkipLine(a, n, json, s);
      } else if a[json] == SLASH && a[json + 1] == STAR {
        json := SkipComment(a, n, json, s);
      } else if a[json] == QUOTE {
        into, json := CopyLiteral(a, n, into, json, s);
        CatCat(done, s[from..json], Min(s, json));
      } else {
        a[into] := a[json];
        into, json := into + 1, json + 1;
        CatCat(done, [s[from]], Min(s, json));
        assert a[..into] == done + [s[from]];
      }
    }
    a[into] := 0;
    MinEnd(s, json);
    CatCat(a[..into], [], Min(s, json));
    assert Min(s, 0).t == a[..into] + [];
  }

  /** One turn of the loop. */
  lemma MinStep(s: bytes, i: nat)
    requires i < |s| && s[i] != 0
    ensures Removed(s[i]) ==> Min(s, i) == Min(s, i + 1)
    ensures s[i] == SLASH && At(s, i + 1) == SLASH ==> Min(s, i) == Min(s, LineEnd(s, i))
    ensures s[i] == SLASH && At(s, i + 1) == STAR ==>
              Min(s, i) == if CommentEnd(s, i).Closed? then Min(s, CommentEnd(s, i).end) else Overrun
    ensures s[i] == QUOTE ==>
              var e := LiteralEnd(s, i + 1);
              Min(s, i) == if e.Closed? then Cat(s[i..e.end], Min(s, e.end)) else Overrun
    ensures !Removed(s[i]) && s[i] != QUOTE && !(s[i] == SLASH && (At(s, i + 1) == SLASH || At(s, i + 1) == STAR)) ==>
              Min(s, i) == Cat([s[i]], Min(s, i + 1))
  {
  }

  lemma MinEnd(s: bytes, i: nat)
    requires At(s, i) == 0
    ensures Min(s, i) == Text([])
  {
  }

  /** A line comment is skipped up to the line end, or to the end of the text. */
  method SkipLine(a: array<byte>, ghost n: nat, from: nat, ghost s: bytes) returns (json: nat)
    requires |s| == n < a.Length && a[n] == 0 && NulFree(s) && from <= n && forall x :: from <= x < n ==> a[x] == s[x]
    ensures json == LineEnd(s, from) && from <= json <= n
  {
    json := from;
    while a[json] != 0 && a[json] != NEWLINE
      decreases n - json
      invariant from <= json <= n && LineEnd(s, json) == LineEnd(s, from)
    {
      json := json + 1;
    }
  }

  /** The loop over a block comment, and the step over its end. */
  method SkipComment(a: array<byte>, ghost n: nat, from: nat, ghost s: bytes) returns (json: nat)
    requires |s| == n < a.Length && a[n] == 0 && NulFree(s) && from <= n && forall x :: from <= x < n ==> a[x] == s[x]
    requires CommentEnd(s, from).Closed?
    ensures CommentEnd(s, from) == Closed(json) && from <= json <= n
  {
    json := from;
    while a[json] != 0 && !(a[json] == STAR && a[json + 1] == SLASH)
      decreases n - json
      invariant from <= json <= n && CommentEnd(s, json) == CommentEnd(s, from)
    {
      json := json + 1;
    }
    json := json + 2;
  }

  /** The branch for string literals: everything up to the closing quotation mark is copied. */
  method CopyLiteral(a: array<byte>, ghost n: nat, into0: nat, json0: nat, ghost s: bytes)
    returns (into: nat, json: nat)
    requires into0 <= json0 < n < a.Length && a[n] == 0 && a[json0] == QUOTE
    requires |s| == n && NulFree(s) && forall x :: json0 <= x < n ==> a[x] == s[x]
    requires LiteralEnd(s, json0 + 1).Closed?
    modifies a
    ensures Closed(json) == LiteralEnd(s, json0 + 1) && into <= json <= n
    ensures into0 <= into && a[..into] == old(a[..into0]) + s[json0..json]
    ensures forall x :: into <= x < a.Length ==> a[x] == old(a[x])
  {
    hide LiteralEnd;
    a[into0] := a[json0];
    into, json := into0 + 1, json0 + 1;
    while a[json] != 0 && a[json] != QUOTE
      decreases n - json
      invariant json0 < json <= n && into - into0 == json - json0
      invariant LiteralEnd(s, json) == LiteralEnd(s, json0 + 1)
      invariant forall x :: into <= x < a.Length ==> a[x] == old(a[x])
      invariant a[..into0] == old(a[..into0]) && a[into0..into] == s[json0..json]
    {
      LiteralStep(s, json);
      into, json := CopyUnit(a, into0, into, json0, json, s);
    }
    LiteralStep(s, json);
    CopyByte(a, into0, into, json0, json, s);
    into, json := into + 1, json + 1;
    assert a[..into] == a[..into0] + a[into0..into];
  }

  /** One turn of the scan for the closing quotation mark. */
  lemma LiteralStep(s: bytes, i: nat)
    requires NulFree(s) && i <= |s| && LiteralEnd(s, i).Closed?
    ensures i < |s|
    ensures if s[i] == QUOTE then LiteralEnd(s, i) == Closed(i + 1)
            else if s[i] == BACKSLASH then i + 1 < |s| && LiteralEnd(s, i) == LiteralEnd(s, i + 2)
            else LiteralEnd(s, i) == LiteralEnd(s, i + 1)
  {
  }

  /** One turn of the loop over a literal: a backslash takes the next byte with it. */
  method CopyUnit(a: array<byte>, ghost into0: nat, into1: nat, ghost json0: nat, json1: nat, ghost s: bytes)
    returns (into: nat, json: nat)
    requires into0 <= into1 <= json1 && json0 <= json1 < |s| < a.Length
    requires a[json1] == s[json1] && (s[json1] == BACKSLASH ==> json1 + 1 < |s| && a[json1 + 1] == s[json1 + 1])
    requires a[into0..into1] == s[json0..json1]
    modifies a
    ensures json == (if s[json1] == BACKSLASH then json1 + 2 else json1 + 1) && into - into1 == json - json1
    ensures a[..into0] == old(a[..into0]) && a[into0..into] == s[json0..json]
    ensures forall x :: into <= x < a.Length ==> a[x] == old(a[x])
  {
    into, json := into1, json1;
    if a[json] == BACKSLASH {
      CopyByte(a, into0, into, json0, json, s);
      into, json := into + 1, json + 1;
    }
    CopyByte(a, into0, into, json0, json, s);
    into, json := into + 1, json + 1;
  }

  /** One byte is copied, where what lies between into0 and into is already the text from json0 on. */
  method CopyByte(a: array<byte>, ghost into0: nat, into: nat, ghost json0: nat, json: nat, ghost s: bytes)
    requires into0 <= into <= json < a.Length && json0 <= json < |s| && a[json] == s[json]
    requires a[into0..into] == s[json0..json]
    modifies a
    ensures a[..into0] == old(a[..into0]) && a[into0..into + 1] == s[json0..json + 1]
    ensures forall x :: into < x < a.Length ==> a[x] == old(a[x])
  {
    a[into] := a[json];
    assert a[into0..into + 1] == a[into0..into] + [a[into]];
    assert s[json0..json + 1] == s[json0..json] + [s[json]];
  }
}
