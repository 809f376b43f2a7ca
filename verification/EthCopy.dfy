/** The copy loops of the Ethernet driver, between chains of pbufs and a ring of DMA descriptors. */
module EthCopy {
  import opened CText

  function Flatten(ss: seq<bytes>): bytes
    decreases ss
  {
    if ss == [] then [] else ss[0] + Flatten(ss[1..])
  }

  lemma {:induction false} FlattenSplit(a: seq<bytes>, b: seq<bytes>)
    ensures Flatten(a + b) == Flatten(a) + Flatten(b)
    decreases a
  {
    if a == [] {
      assert a + b == b;
    } else {
      assert (a + b)[1..] == a[1..] + b;
      FlattenSplit(a[1..], b);
    }
  }

  lemma FlattenSnoc(a: seq<bytes>, x: bytes)
    ensures Flatten(a + [x]) == Flatten(a) + x
  {
    FlattenSplit(a, [x]);
    assert Flatten([x]) == x + Flatten([x][1..]) == x + [];
  }

  lemma FlattenAt(ss: seq<bytes>, k: nat)
    requires k < |ss|
    ensures Flatten(ss) == Flatten(ss[..k]) + (ss[k] + Flatten(ss[k + 1..]))
    ensures Flatten(ss[..k + 1]) == Flatten(ss[..k]) + ss[k]
  {
    assert Flatten(ss[k..]) == ss[k] + Flatten(ss[k + 1..]) by {
      assert ss[k..][1..] == ss[k + 1..];
    }
    hide Flatten;
    assert ss == ss[..k] + ss[k..];
    FlattenSplit(ss[..k], ss[k..]);
    assert ss[..k + 1] == ss[..k] + [ss[k]];
    FlattenSnoc(ss[..k], ss[k]);
  }

  lemma {:induction false} FlattenEven(ss: seq<bytes>, size: nat)
    requires forall k :: 0 <= k < |ss| ==> |ss[k]| == size
    ensures |Flatten(ss)| == |ss| * size
    decreases ss
  {
    if ss != [] {
      FlattenEven(ss[1..], size);
    }
  }

  ghost function ContentsOf(buffers: seq<array<byte>>): (ss: seq<bytes>)
    reads buffers
    ensures |ss| == |buffers| && forall k :: 0 <= k < |ss| ==> ss[k] == buffers[k][..]
  {
    seq(|buffers|, k requires 0 <= k < |buffers| reads buffers => buffers[k][..])
  }

  predicate Separate(buffers: seq<array<byte>>) {
    forall j, k :: 0 <= j < k < |buffers| ==> buffers[j] != buffers[k]
  }

  /** The descriptors in the order of their chain, which leads from the last back to the first;
      own[k] tells that the DMA controller owns descriptor k. */
  class Ring {
    const size: nat
    const buffers: seq<array<byte>>
    const own: array<bool>

    constructor (size: nat, buffers: seq<array<byte>>, own: array<bool>)
      ensures this.size == size && this.buffers == buffers && this.own == own
    {
      this.size, this.buffers, this.own := size, buffers, own;
    }

    ghost predicate Valid() {
      && size > 0 && |buffers| > 0 && own.Length == |buffers| && Separate(buffers)
      && forall k :: 0 <= k < |buffers| ==> buffers[k].Length == size
    }

    /** The bytes of all buffers in a row. */
    ghost function Bytes(): bytes
      reads buffers
    {
      Flatten(ContentsOf(buffers))
    }

    /** Where buffer d begins among them. */
    ghost function Start(d: nat): nat { d * size }

    ghost function Room(): nat { |buffers| * size }

    function Next(d: nat): nat { if d + 1 == |buffers| then 0 else d + 1 }
  }

  /** Where offset b of buffer d lies among the bytes of the ring. */
  lemma Locate(ring: Ring, d: nat, b: nat)
    requires ring.Valid() && d < |ring.buffers| && b <= ring.size
    ensures |ring.Bytes()| == ring.Room()
    ensures var f := ring.Start(d) + b;
            && 0 <= f <= |ring.Bytes()| && f - b + ring.size <= |ring.Bytes()|
            && ring.Bytes()[f..f - b + ring.size] == ring.buffers[d][b..]
            && |Flatten(ContentsOf(ring.buffers)[..d])| == f - b
  {
    var ss := ContentsOf(ring.buffers);
    FlattenEven(ss, ring.size);
    FlattenEven(ss[..d], ring.size);
    FlattenAt(ss, d);
  }

  /** memcpy */
  method CopyIn(dst: array<byte>, at: nat, src: bytes)
    requires at + |src| <= dst.Length
    modifies dst
    ensures dst[..] == old(dst[..])[..at] + src + old(dst[..])[at + |src|..]
  {
    var k := 0;
    while k < |src|
      invariant 0 <= k <= |src|
      invariant dst[..] == old(dst[..])[..at] + src[..k] + old(dst[..])[at + k..]
    {
      dst[at + k] := src[k];
      k := k + 1;
    }
  }

  /** Copying into one buffer changes that stretch of the ring's bytes. */
  method CopyToBuffer(ring: Ring, d: nat, b: nat, src: bytes, ghost f: nat)
    requires ring.Valid() && d < |ring.buffers| && b + |src| <= ring.size && f == ring.Start(d) + b
    modifies ring.buffers
    ensures f + |src| <= |old(ring.Bytes())|
    ensures ring.Bytes() == old(ring.Bytes())[..f] + src + old(ring.Bytes())[f + |src|..]
  {
    hide Flatten;
    Locate(ring, d, b);
    ghost var ss := ContentsOf(ring.buffers);
    CopyIn(ring.buffers[d], b, src);
    ghost var x := ss[d][..b] + src + ss[d][b + |src|..];
    assert ContentsOf(ring.buffers) == ss[d := x];
    FlattenAt(ss, d);
    FlattenAt(ss[d := x], d);
    assert ss[d := x][..d] == ss[..d] && ss[d := x][d + 1..] == ss[d + 1..];
    Patch(Flatten(ss[..d]), ss[d], b, src, Flatten(ss[d + 1..]));
  }

  lemma Patch(head: bytes, t: bytes, b: nat, src: bytes, tail: bytes)
    requires b + |src| <= |t|
    ensures var w := head + (t + tail);
            var f := |head| + b;
            head + ((t[..b] + src + t[b + |src|..]) + tail) == w[..f] + src + w[f + |src|..]
  {
  }

  // ---------------------------------------------------------------- transmitting

  /** The descriptors a frame of that many bytes takes. */
  ghost predicate Takes(ring: Ring, total: nat, k: nat) {
    k < |ring.buffers| && (k == 0 || ring.Start(k) < total)
  }

  /** Later writes start behind what is stored. */
  lemma Extend(old0: bytes, done: bytes, src: bytes)
    requires |done| + |src| <= |old0|
    ensures var now := done + old0[|done|..];
            now[..|done|] + src + now[|done| + |src|..] == (done + src) + old0[|done| + |src|..]
  {
  }

  /** The body of the loop over the pbufs: `done` are the bytes of the earlier ones. */
  method TransmitOne(ring: Ring, payload: bytes, d0: nat, b0: nat, framelength0: nat, ghost done: bytes,
    ghost before: bytes)
    returns (ok: bool, d: nat, b: nat, framelength: nat)
    requires ring.Valid() && d0 < |ring.buffers| && b0 <= ring.size && (d0 == 0 || b0 > 0)
    requires framelength0 == |done| == ring.Start(d0) + b0
    requires |done| + |payload| <= ring.Room() == |before|
    requires ring.Bytes() == done + before[|done|..] && forall k :: 0 <= k <= d0 ==> !ring.own[k]
    modifies ring.buffers
    ensures d < |ring.buffers|
    ensures !ok ==> ring.own[d] && Takes(ring, |done| + |payload|, d)
    ensures ok ==>
              && b <= ring.size && (d == 0 || b > 0) && framelength == |done| + |payload| == ring.Start(d) + b
              && ring.Bytes() == done + payload + before[framelength..]
              && forall k :: 0 <= k <= d ==> !ring.own[k]
  {
    hide Flatten, Ring.Bytes, Ring.Start, Ring.Room;
    d, b, framelength := d0, b0, framelength0;
    var left, off := |payload|, 0;
    assert done + payload[..0] == done;
    while left + b > ring.size
      invariant 0 <= off && 0 <= left && off + left == |payload| && d < |ring.buffers| && b <= ring.size
                && (d == 0 || b > 0 || left > 0)
      invariant framelength == |done| + off == ring.Start(d) + b
      invariant ring.Bytes() == done + payload[..off] + before[framelength..]
      invariant forall k :: 0 <= k <= d ==> !ring.own[k]
      decreases left, b
    {
      var n := ring.size - b;
      TransmitPart(ring, payload, d, b, off, n, framelength, done, before);
      MoreRoom(ring, d, b, left);
      d := ring.Next(d);
      if ring.own[d] {
        return false, d, b, framelength;
      }
      left, off, framelength, b := left - n, off + n, framelength + n, 0;
    }
    TransmitPart(ring, payload, d, b, off, left, framelength, done, before);
    assert payload[..off + left] == payload;
    b, framelength := b + left, framelength + left;
    ok := true;
  }

  /** memcpy of n bytes of a payload, of which off bytes are copied already. */
  method TransmitPart(ring: Ring, payload: bytes, d: nat, b: nat, off: nat, n: nat, ghost f: nat,
    ghost done: bytes, ghost before: bytes)
    requires ring.Valid() && d < |ring.buffers| && b + n <= ring.size && off + n <= |payload|
    requires f == |done| + off == ring.Start(d) + b && f + n <= |before|
    requires ring.Bytes() == done + payload[..off] + before[f..]
    modifies ring.buffers
    ensures ring.Bytes() == done + payload[..off + n] + before[f + n..]
  {
    hide Flatten, Ring.Bytes, Ring.Start, Ring.Room;
    CopyToBuffer(ring, d, b, payload[off..off + n], f);
    Extend(before, done + payload[..off], payload[off..off + n]);
    assert (done + payload[..off]) + payload[off..off + n] == done + payload[..off + n];
  }

  /** A frame that fits has a next descriptor where it needs one. */
  lemma MoreRoom(ring: Ring, d: nat, b: nat, left: nat)
    requires ring.Valid() && b <= ring.size && left + b > ring.size && d < |ring.buffers|
    requires ring.Start(d) + b + left <= ring.Room()
    ensures d + 1 < |ring.buffers| && ring.Start(d + 1) == ring.Start(d) + ring.size
  {
    NextStart(ring, d);
  }

  lemma NextStart(ring: Ring, d: nat)
    ensures ring.Start(d + 1) == ring.Start(d) + ring.size && ring.Start(|ring.buffers|) == ring.Room()
  {
  }

  /** The loops of rt_stm32_eth_tx over the chain of pbufs: its bytes, in order, come to lie at the
      start of the ring, and the frame is refused exactly when the DMA controller still owns one of
      the descriptors it takes. A buffer that is just full is left only for another byte. */
  method Transmit(ring: Ring, chain: seq<bytes>) returns (ok: bool, framelength: nat)
    requires ring.Valid() && |Flatten(chain)| <= ring.Room()
    modifies ring.buffers
    ensures ok <==> chain == [] || forall k: nat :: Takes(ring, |Flatten(chain)|, k) ==> !ring.own[k]
    ensures ok ==> framelength == |Flatten(chain)|
    ensures |Flatten(chain)| <= |old(ring.Bytes())|
    ensures ok ==> ring.Bytes() == Flatten(chain) + old(ring.Bytes())[|Flatten(chain)|..]
  {
    hide Flatten, Ring.Bytes, Ring.Start, Ring.Room;
    ghost var before, total := ring.Bytes(), |Flatten(chain)|;
    Locate(ring, 0, 0);
    AtFront(ring);
    NoBytes(before);
    assert chain[..0] == [];
    var d, b, m := 0, 0, 0;
    framelength := 0;
    while m < |chain|
      invariant 0 <= m <= |chain| && 0 <= d < |ring.buffers| && 0 <= b <= ring.size
      invariant framelength == ring.Start(d) + b == |Flatten(chain[..m])| && (d == 0 || b > 0)
      invariant framelength <= total <= |before| && ring.Bytes() == Flatten(chain[..m]) + before[framelength..]
      invariant forall k :: 0 <= k <= d && (m > 0 || k < d) ==> !ring.own[k]
    {
      InChain(chain, m);
      if ring.own[d] {
        assert Takes(ring, total, d);
        return false, framelength;
      }
      var fits;
      fits, d, b, framelength := TransmitOne(ring, chain[m], d, b, framelength, Flatten(chain[..m]), before);
      if !fits {
        assert Takes(ring, total, d);
        return false, framelength;
      }
      m := m + 1;
    }
    assert chain[..m] == chain;
    if chain != [] {
      forall k: nat | Takes(ring, total, k) ensures !ring.own[k] {
        Within(ring, k, d, total);
      }
    }
    ok := true;
  }

  lemma AtFront(ring: Ring)
    ensures ring.Start(0) == 0
  {
  }

  lemma NoBytes(w: bytes)
    ensures Flatten([]) == [] && [] + w[0..] == w
  {
  }

  lemma Within(ring: Ring, k: nat, d: nat, total: nat)
    requires ring.Valid() && Takes(ring, total, k) && total <= ring.Start(d) + ring.size
    ensures k <= d
  {
    StartsApart(ring, d, k);
  }

  lemma {:induction false} StartsApart(ring: Ring, d: nat, k: nat)
    ensures d < k ==> ring.Start(d) + ring.size <= ring.Start(k)
    decreases k
  {
    if d < k {
      NextStart(ring, k - 1);
      StartsApart(ring, d, k - 1);
    }
  }

  /** The bytes of the m-th pbuf lie behind those of the earlier ones. */
  lemma InChain(chain: seq<bytes>, m: nat)
    requires m < |chain|
    ensures Flatten(chain[..m + 1]) == Flatten(chain[..m]) + chain[m]
    ensures |Flatten(chain[..m])| + |chain[m]| <= |Flatten(chain)|
  {
    FlattenAt(chain, m);
  }

  // ---------------------------------------------------------------- receiving

  /** memcpy out of one buffer of the ring. */
  lemma BufferSlice(ring: Ring, d: nat, b: nat, n: nat)
    requires ring.Valid() && d < |ring.buffers| && b + n <= ring.size
    ensures var f := ring.Start(d) + b;
            0 <= f && f + n <= |ring.Bytes()| && ring.buffers[d][b..b + n] == ring.Bytes()[f..f + n]
  {
    Locate(ring, d, b);
    var f := ring.Start(d) + b;
    assert ring.buffers[d][b..b + n] == ring.buffers[d][b..][..n];
    assert ring.Bytes()[f..f - b + ring.size][..n] == ring.Bytes()[f..f + n];
  }

  predicate Apart(ring: Ring, chain: seq<array<byte>>) {
    Separate(chain) && forall j, k :: 0 <= j < |chain| && 0 <= k < |ring.buffers| ==> chain[j] != ring.buffers[k]
  }

  /** The body of the loop over the pbufs of rt_stm32_eth_rx; f bytes of the frame are copied. */
  method ReceiveOne(ring: Ring, q: array<byte>, d0: nat, b0: nat, ghost f: nat) returns (d: nat, b: nat)
    requires ring.Valid() && d0 < |ring.buffers| && b0 <= ring.size && f == ring.Start(d0) + b0
    requires f + q.Length <= ring.Room() && q !in ring.buffers
    modifies q
    ensures d < |ring.buffers| && b <= ring.size && f + q.Length == ring.Start(d) + b <= |ring.Bytes()|
    ensures q[..] == ring.Bytes()[f..f + q.Length]
  {
    hide Flatten, Ring.Bytes, Ring.Start, Ring.Room;
    Locate(ring, 0, 0);
    d, b := d0, b0;
    var left, off := q.Length, 0;
    while left + b > ring.size
      invariant 0 <= off && 0 <= left && off + left == q.Length && d < |ring.buffers| && b <= ring.size
      invariant f + off == ring.Start(d) + b && q[..off] == ring.Bytes()[f..f + off]
      decreases left, b
    {
      var n := ring.size - b;
      BufferSlice(ring, d, b, n);
      MoreRoom(ring, d, b, left);
      CopyIn(q, off, ring.buffers[d][b..b + n]);
      d := ring.Next(d);
      left, off, b := left - n, off + n, 0;
    }
    BufferSlice(ring, d, b, left);
    CopyIn(q, off, ring.buffers[d][b..b + left]);
    b := b + left;
  }

  ghost function Total(chain: seq<array<byte>>): nat
    decreases chain
  {
    if chain == [] then 0 else chain[0].Length + Total(chain[1..])
  }

  lemma {:induction false} TotalSplit(chain: seq<array<byte>>, m: nat)
    requires m < |chain|
    ensures Total(chain[..m + 1]) == Total(chain[..m]) + chain[m].Length <= Total(chain)
    decreases chain
  {
    if m == 0 {
      assert chain[..1][1..] == [] && chain[..0] == [];
    } else {
      TotalSplit(chain[1..], m - 1);
      assert chain[..m + 1][1..] == chain[1..][..m] && chain[..m][1..] == chain[1..][..m - 1];
    }
  }

  /** The loops of rt_stm32_eth_rx: the chain of pbufs takes the first bytes of the ring, in order, and
      the segments of the frame go back to the DMA controller. */
  method Receive(ring: Ring, chain: seq<array<byte>>, segments: nat)
    requires ring.Valid() && Apart(ring, chain) && Total(chain) <= ring.Room()
    modifies chain, ring.own
    ensures Total(chain) <= |ring.Bytes()| && Flatten(ContentsOf(chain)) == ring.Bytes()[..Total(chain)]
    ensures ring.Bytes() == old(ring.Bytes())
    ensures forall k :: 0 <= k < ring.own.Length ==> ring.own[k] == (k < segments || old(ring.own[k]))
  {
    hide Flatten, Ring.Bytes, Ring.Start, Ring.Room;
    Locate(ring, 0, 0);
    AtFront(ring);
    var d, b, m := 0, 0, 0;
    ghost var f: nat := 0;
    assert chain[..0] == [];
    assert Flatten([]) == [] by {
      NoBytes([]);
    }
    while m < |chain|
      invariant 0 <= m <= |chain| && 0 <= d < |ring.buffers| && 0 <= b <= ring.size
      invariant f == ring.Start(d) + b == Total(chain[..m]) <= |ring.Bytes()| && ring.Bytes() == old(ring.Bytes())
      invariant Flatten(ContentsOf(chain)[..m]) == ring.Bytes()[..f]
      invariant unchanged(ring.own)
    {
      TotalSplit(chain, m);
      ghost var ss := ContentsOf(chain);
      d, b := ReceiveOne(ring, chain[m], d, b, f);
      FlattenAt(ContentsOf(chain), m);
      assert ContentsOf(chain)[..m] == ss[..m];
      f := f + chain[m].Length;
      m := m + 1;
    }
    assert chain[..m] == chain && ContentsOf(chain)[..m] == ContentsOf(chain);
    Release(ring, segments);
  }

  /** The loop that sets the own bits; it walks the chain, so it may go round. */
  method Release(ring: Ring, segments: nat)
    requires ring.Valid()
    modifies ring.own
    ensures forall k :: 0 <= k < ring.own.Length ==> ring.own[k] == (k < segments || old(ring.own[k]))
  {
    var i, d := 0, 0;
    while i < segments
      invariant 0 <= i <= segments && 0 <= d < ring.own.Length && (i < ring.own.Length ==> d == i)
      invariant forall k :: 0 <= k < ring.own.Length ==> ring.own[k] == (k < i || old(ring.own[k]))
    {
      ring.own[d] := true;
      d := ring.Next(d);
      i := i + 1;
    }
  }

  /** What one chain of pbufs sends into the ring, any other chain of the same total takes out of it
      again, however the bytes are cut into pbufs. */
  method Loopback(ring: Ring, sent: seq<bytes>, received: seq<array<byte>>, segments: nat) returns (ok: bool)
    requires ring.Valid() && Apart(ring, received)
    requires |Flatten(sent)| == Total(received) <= ring.Room()
    modifies ring.buffers, received, ring.own
    ensures ok ==> Flatten(ContentsOf(received)) == Flatten(sent)
  {
    hide Flatten, Ring.Bytes, Ring.Start, Ring.Room;
    var n;
    ok, n := Transmit(ring, sent);
    Receive(ring, received, segments);
  }
}
