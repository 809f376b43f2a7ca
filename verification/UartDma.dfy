/** Receive accounting of the serial driver over a circular DMA buffer: the IDLE branch of uart_isr
    and HAL_UART_RxCpltCallback, interleaved with arriving bytes. */
module UartDma {
  import opened CText

  /** rt_size_t has 32 bits. */
  const SIZE_LIMIT: nat := 0x1_0000_0000

  /** The receiver as seen from outside: `position` is where the DMA controller writes next, `wrapped`
      whether its transfer-complete interrupt is pending, `put` the put index of the fifo; `received`
      are all bytes that have arrived, `reported` how many were reported, and `delivered` what the
      reported stretches of the fifo held when they were reported. */
  datatype Account = Account(position: nat, lastIndex: nat, wrapped: bool, fifo: bytes, put: nat,
                             received: bytes, reported: nat, delivered: bytes)

  datatype Event = Arrive(b: byte) | Idle | Complete

  /** Report len bytes to the serial framework, which moves its put index on. */
  function Report(a: Account, len: nat): Account
    requires |a.fifo| > 0
  {
    a.(reported := a.reported + len, put := (a.put + len) % |a.fifo|, delivered := a.delivered
        + Stretch(a.fifo, a.put, len))
  }

  /** len bytes of the fifo from position p on, but not beyond its end. */
  function Stretch(fifo: bytes, p: nat, len: nat): bytes {
    if p > |fifo| then [] else if p + len <= |fifo| then fifo[p..p + len] else fifo[p..]
  }

  function Arrived(a: Account, b: byte): Account
    requires a.position < |a.fifo|
  {
    var stored := a.(fifo := a.fifo[a.position := b], received := a.received + [b]);
    if a.position + 1 == |a.fifo| then stored.(position := 0, wrapped := true)
    else stored.(position := a.position + 1)
  }

  /** The IDLE branch of uart_isr. */
  function Idled(a: Account): Account
    requires |a.fifo| > 0 && a.lastIndex < SIZE_LIMIT
  {
    var len := (a.position + SIZE_LIMIT - a.lastIndex) % SIZE_LIMIT;
    var b := a.(lastIndex := a.position);
    if len != 0 then Report(b, len) else b
  }

  /** HAL_UART_RxCpltCallback */
  function Completed(a: Account): Account
    requires |a.fifo| > 0 && a.lastIndex <= |a.fifo|
  {
    var len := |a.fifo| - a.lastIndex;
    var b := a.(lastIndex := 0, wrapped := false);
    if len != 0 then Report(b, len) else b
  }

  // ---------------------------------------------------------------- the invariant

  /** The bytes that have arrived and are not yet reported. */
  function Unreported(a: Account): int {
    if a.wrapped then |a.fifo| - a.lastIndex + a.position else a.position - a.lastIndex
  }

  predicate InRange(a: Account) {
    && 0 < |a.fifo| < SIZE_LIMIT
    && a.position < |a.fifo| && a.lastIndex < |a.fifo| && a.put == a.lastIndex
    && (!a.wrapped ==> a.lastIndex <= a.position)
  }

  /** Every byte is reported once or still to be reported. */
  predicate Conserved(a: Account) {
    a.reported + Unreported(a) == |a.received|
  }

  /** The fifo holds the bytes of this round before the position and those of the last behind it. */
  predicate Filled(a: Account) {
    && a.position <= |a.received|
    && var w := |a.received| - a.position;
       && (forall p :: 0 <= p < a.position && p < |a.fifo| ==> a.fifo[p] == a.received[w + p])
       && (forall p :: a.position <= p < |a.fifo| && w >= |a.fifo| ==> a.fifo[p] == a.received[w - |a.fifo| + p])
       && (w == 0 || w >= |a.fifo|) && (a.wrapped ==> w >= |a.fifo|)
  }

  /** What was delivered is what was received, as far as it was reported. */
  predicate Faithful(a: Account) {
    a.reported <= |a.received| && a.delivered == a.received[..a.reported]
  }

  predicate Initial(a: Account) {
    0 < |a.fifo| < SIZE_LIMIT && a == Account(0, 0, false, a.fifo, 0, [], 0, [])
  }

  predicate Inv(a: Account) {
    InRange(a) && Conserved(a) && Filled(a)
  }

  // ---------------------------------------------------------------- steps

  /** What the priorities of the two interrupts are to ensure: a pending completion is served before
      the next IDLE reading and before the DMA controller wraps again. */
  predicate Timely(a: Account, e: Event) {
    match e
    case Arrive(_) => a.wrapped ==> a.position + 1 < |a.fifo|
    case Idle => !a.wrapped
    case Complete => a.wrapped
  }

  function Apply(a: Account, e: Event): Account
    requires InRange(a)
  {
    match e
    case Arrive(b) => Arrived(a, b)
    case Idle => Idled(a)
    case Complete => Completed(a)
  }

  /** A completion is served before the bytes it reports are overwritten. */
  predicate Prompt(a: Account, e: Event) {
    e == Complete ==> Unreported(a) <= |a.fifo|
  }

  lemma InvStep(a: Account, e: Event)
    requires Inv(a) && Timely(a, e)
    ensures Inv(Apply(a, e))
    ensures Faithful(a) && Prompt(a, e) ==> Faithful(Apply(a, e))
  {
    match e
    case Arrive(b) => ArriveStep(a, b);
    case Idle => IdleStep(a);
    case Complete => CompleteStep(a);
  }

  lemma ArriveStep(a: Account, b: byte)
    requires Inv(a) && Timely(a, Arrive(b))
    ensures Inv(Arrived(a, b)) && (Faithful(a) ==> Faithful(Arrived(a, b)))
  {
  }

  lemma OnceAround(x: nat, n: nat)
    requires x < n
    ensures x % n == x && (x + n) % n == x
  {
  }

  lemma IdleStep(a: Account)
    requires Inv(a) && !a.wrapped
    ensures Inv(Idled(a)) && (Faithful(a) ==> Faithful(Idled(a)))
  {
    hide Idled, Stretch;
    IdledIs(a);
    if Faithful(a) {
      IdleFaithful(a);
    }
  }

  lemma IdledIs(a: Account)
    requires InRange(a) && !a.wrapped
    ensures var len := a.position - a.lastIndex;
            Idled(a) == a.(lastIndex := a.position, put := a.position, reported := a.reported + len,
                           delivered := a.delivered + Stretch(a.fifo, a.put, len))
  {
    OnceAround(a.position - a.lastIndex, SIZE_LIMIT);
    OnceAround(a.position, |a.fifo|);
  }

  lemma IdleFaithful(a: Account)
    requires Inv(a) && !a.wrapped && Faithful(a)
    ensures Faithful(Idled(a))
  {
    IdledIs(a);
    hide Idled;
    var len := a.position - a.lastIndex;
    var w := |a.received| - a.position;
    assert a.reported == w + a.lastIndex;
    assert Stretch(a.fifo, a.put, len) == a.received[a.reported..a.reported + len];
  }

  lemma WholeTurn(n: nat)
    requires n > 0
    ensures n % n == 0
  {
  }

  lemma CompleteStep(a: Account)
    requires Inv(a) && a.wrapped
    ensures Inv(Completed(a))
    ensures Faithful(a) && Unreported(a) <= |a.fifo| ==> Faithful(Completed(a))
  {
    CompletedIs(a);
    hide Completed, Stretch;
    if Faithful(a) && Unreported(a) <= |a.fifo| {
      CompleteFaithful(a);
    }
  }

  lemma CompletedIs(a: Account)
    requires InRange(a)
    ensures var len := |a.fifo| - a.lastIndex;
            Completed(a) == a.(lastIndex := 0, wrapped := false, put := 0, reported := a.reported + len,
                               delivered := a.delivered + Stretch(a.fifo, a.put, len))
  {
    WholeTurn(|a.fifo|);
  }

  lemma CompleteFaithful(a: Account)
    requires Inv(a) && a.wrapped && Faithful(a) && Unreported(a) <= |a.fifo|
    ensures Faithful(Completed(a))
  {
    CompletedIs(a);
    hide Completed;
    var len := |a.fifo| - a.lastIndex;
    var w := |a.received| - a.position;
    assert a.reported == w - len;
    assert Stretch(a.fifo, a.put, len) == a.received[a.reported..a.reported + len];
  }

  /** An IDLE reading conserves the count exactly when the position is not behind last_index: with a
      completion pending, the difference can wrap around. */
  lemma IdleConserves(a: Account)
    requires InRange(a) && Conserved(a)
    ensures Conserved(Idled(a)) <==> a.lastIndex <= a.position
  {
    if a.lastIndex <= a.position {
      OnceAround(a.position - a.lastIndex, SIZE_LIMIT);
    } else {
      OnceAround(a.position + SIZE_LIMIT - a.lastIndex, SIZE_LIMIT);
    }
  }

  /** A byte is lost to the count exactly when the DMA controller wraps while a wrap is pending. */
  lemma ArriveConserves(a: Account, b: byte)
    requires InRange(a) && Conserved(a)
    ensures Conserved(Arrived(a, b)) <==> !(a.wrapped && a.position + 1 == |a.fifo|)
  {
  }

  // ---------------------------------------------------------------- runs

  predicate TimelyRun(a: Account, es: seq<Event>)
    requires Inv(a)
    decreases es
  {
    es == [] || (Timely(a, es[0]) && (InvStep(a, es[0]); TimelyRun(Apply(a, es[0]), es[1..])))
  }

  function After(a: Account, es: seq<Event>): Account
    requires Inv(a) && TimelyRun(a, es)
    decreases es
  {
    if es == [] then a
    else
      InvStep(a, es[0]);
      After(Apply(a, es[0]), es[1..])
  }

  predicate PromptRun(a: Account, es: seq<Event>)
    requires Inv(a) && TimelyRun(a, es)
    decreases es
  {
    es == [] || (Prompt(a, es[0]) && (InvStep(a, es[0]); PromptRun(Apply(a, es[0]), es[1..])))
  }

  /** In every timely run, every byte received is reported once or between last_index and the DMA
      position, counting a pending wrap. If completions are also prompt, what was delivered is what was
      received, in order. */
  lemma {:induction false} NoneLost(a: Account, es: seq<Event>)
    requires Inv(a) && TimelyRun(a, es)
    ensures Inv(After(a, es))
    ensures Faithful(a) && PromptRun(a, es) ==> Faithful(After(a, es))
    decreases es
  {
    if es != [] {
      InvStep(a, es[0]);
      NoneLost(Apply(a, es[0]), es[1..]);
    }
  }

  /** The bytes that arrive in a run. */
  function Arrivals(es: seq<Event>): bytes {
    if es == [] then [] else Arrival(es[0]) + Arrivals(es[1..])
  }

  function Arrival(e: Event): bytes { if e.Arrive? then [e.b] else [] }

  lemma ReceivedIs(a: Account, e: Event)
    requires Inv(a)
    ensures Apply(a, e).received == a.received + Arrival(e)
  {
    hide Stretch;
  }

  lemma {:induction false} ReceivedAre(a: Account, es: seq<Event>)
    requires Inv(a) && TimelyRun(a, es)
    ensures After(a, es).received == a.received + Arrivals(es)
    decreases es
  {
    hide Apply, InRange, Conserved, Filled, Timely, Arrival;
    if es != [] {
      InvStep(a, es[0]);
      ReceivedIs(a, es[0]);
      ReceivedAre(Apply(a, es[0]), es[1..]);
    }
  }

  /** From an empty receiver: what was received are the bytes that arrived; each is reported once or still
      to be reported. */
  lemma FromTheStart(a: Account, es: seq<Event>)
    requires Initial(a) && TimelyRun(a, es)
    ensures After(a, es).received == Arrivals(es)
    ensures var z := After(a, es); z.reported + Unreported(z) == |z.received| && 0 <= Unreported(z)
    ensures PromptRun(a, es) ==> Faithful(After(a, es))
  {
    ReceivedAre(a, es);
    NoneLost(a, es);
  }

  // ---------------------------------------------------------------- the handlers

  class Uart {
    const bufsz: nat
    var counter: nat      // the DMA counter, which counts down from bufsz
    var lastIndex: nat
    ghost var account: Account

    constructor (bufsz: nat, fifo: bytes)
      requires 0 < bufsz == |fifo| && bufsz < SIZE_LIMIT
      ensures Valid() && Initial(account)
    {
      this.bufsz, counter, lastIndex := bufsz, bufsz, 0;
      account := Account(0, 0, false, fifo, 0, [], 0, []);
    }

    /** The driver's fields and the hardware's counter agree with the account. */
    ghost predicate Valid()
      reads this
    {
      && InRange(account) && bufsz == |account.fifo|
      && lastIndex == account.lastIndex && counter == bufsz - account.position
    }

    /** The DMA controller stores a byte; at zero the counter starts again. */
    method Receive(b: byte)
      requires Valid() && Timely(account, Arrive(b))
      modifies this
      ensures account == Apply(old(account), Arrive(b))
      ensures Inv(old(account)) ==> Valid()
    {
      account := Arrived(account, b);
      counter := counter - 1;
      if counter == 0 {
        counter := bufsz;
      }
    }

    /** The IDLE branch of uart_isr; the result is the reported length, 0 for none. */
    method IdleIsr() returns (len: nat)
      requires Valid() && Inv(account) && !account.wrapped
      modifies this
      ensures account == Apply(old(account), Idle) && Valid() && Inv(account)
      ensures len == Unreported(old(account)) && Unreported(account) == 0
    {
      IdleStep(account);
      var total := bufsz - counter;
      len := (total + SIZE_LIMIT - lastIndex) % SIZE_LIMIT;
      lastIndex := total;
      account := Idled(account);
    }

    /** HAL_UART_RxCpltCallback */
    method RxCplt() returns (len: nat)
      requires Valid() && Inv(account) && account.wrapped
      modifies this
      ensures account == Apply(old(account), Complete) && Valid() && Inv(account)
      ensures len + account.position == Unreported(old(account)) && Unreported(account) == account.position
    {
      CompleteStep(account);
      len := bufsz - lastIndex;
      lastIndex := 0;
      account := Completed(account);
    }
  }
}
