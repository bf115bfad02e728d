/** The bus monitor: it decodes MISO at one edge of SCLK throughout a chip-select window. */
module SpiMonitor {
  import opened Bits
  import opened SpiSlave
  import opened SpiWindow

  /** What the monitor sees just before clk edge i: the pins, and MISO as the edges before i left it. */
  datatype Wire = Wire(cs: bool, sclk: bool, miso: bool)

  function Wires(t: seq<Sample>): (w: seq<Wire>)
    ensures |w| == |t|
    ensures forall i | 0 <= i < |t| :: w[i] == Wire(t[i].pins.cs, t[i].pins.sclk, Run(t[..i]).core.miso)
  {
    seq(|t|, i requires 0 <= i < |t| => Wire(t[i].pins.cs, t[i].pins.sclk, Run(t[..i]).core.miso))
  }

  predicate EdgeAt(w: seq<Wire>, up: bool, i: nat) {
    0 < i < |w| && w[i - 1].sclk != up && w[i].sclk == up
  }

  /** The first sampling edge after point p; |w| if there is none. */
  function NextEdge(w: seq<Wire>, up: bool, p: nat): (q: nat)
    requires p < |w|
    ensures p < q <= |w|
    decreases |w| - p
  {
    if p + 1 == |w| || EdgeAt(w, up, p + 1) then p + 1 else NextEdge(w, up, p + 1)
  }

  /** The first edge to level `up` after p, with none between. */
  ghost predicate FirstEdge(w: seq<Wire>, up: bool, p: nat, q: nat) {
    && p < q <= |w|
    && (q < |w| ==> w[q - 1].sclk != up && w[q].sclk == up)
    && forall i | p < i < q :: !(w[i - 1].sclk != up && w[i].sclk == up)
  }

  lemma {:induction false} NextEdgeIsFirst(w: seq<Wire>, up: bool, p: nat)
    requires p < |w|
    ensures FirstEdge(w, up, p, NextEdge(w, up, p))
    decreases |w| - p
  {
    if p + 1 < |w| && !EdgeAt(w, up, p + 1) {
      NextEdgeIsFirst(w, up, p + 1);
    }
  }

  /** The first point from p on with CS low; |w| if there is none. */
  function NextSelect(w: seq<Wire>, p: nat): (q: nat)
    requires p <= |w|
    ensures p <= q <= |w| && (q < |w| ==> !w[q].cs)
    decreases |w| - p
  {
    if p == |w| || !w[p].cs then p else NextSelect(w, p + 1)
  }

  /** The first point from p on where SCLK has left the level a sampling edge leads to, or CS is high. */
  function NextWord(w: seq<Wire>, up: bool, p: nat): (q: nat)
    requires p <= |w|
    ensures p <= q <= |w| && (q < |w| ==> w[q].cs || w[q].sclk != up)
    decreases |w| - p
  {
    if p == |w| || w[p].cs || w[p].sclk != up then p else NextWord(w, up, p + 1)
  }

  /** Stalled: the trace ended while the monitor was waiting. */
  datatype Result<+T> = Stalled | Done(value: T, next: nat)

  /** One bit for every place that is still to be filled. */
  function ReceiveBits(w: seq<Wire>, up: bool, p: nat, places: seq<bool>): (r: Result<seq<bool>>)
    requires p < |w|
    ensures r.Done? ==> p <= r.next < |w| && |r.value| == |places| && (places != [] ==> p < r.next)
    decreases |places|
  {
    if places == [] then Done([], p)
    else
      var q := NextEdge(w, up, p);
      if q == |w| then Stalled else Prepend(w[q].miso, ReceiveBits(w, up, q, places[1..]))
  }

  function Prepend<T>(x: T, r: Result<seq<T>>): Result<seq<T>> {
    match r
    case Stalled => Stalled
    case Done(xs, next) => Done([x] + xs, next)
  }

  /** The places of a byte; the argument keeps the verifier from evaluating eight steps. */
  function Places(w: seq<Wire>): Byte {
    seq(8, _ => false)
  }

  function ReceiveByte(w: seq<Wire>, up: bool, p: nat): (r: Result<Byte>)
    requires p < |w|
    ensures r.Done? ==> p < r.next < |w|
  {
    match ReceiveBits(w, up, p, Places(w))
    case Stalled => Stalled
    case Done(bits, next) => Done(bits, next)
  }

  function ReceiveBytes(w: seq<Wire>, up: bool, p: nat): (r: Result<seq<Byte>>)
    requires p < |w|
    ensures r.Done? ==> p < r.next < |w|
    decreases |w| - p
  {
    match ReceiveByte(w, up, p)
    case Stalled => Stalled
    case Done(byte, after) =>
      var q := NextWord(w, up, after);
      if q == |w| then Stalled
      else if w[q].cs then Done([byte], q)
      else Prepend(byte, ReceiveBytes(w, up, q))
  }

  /** One chip-select window. */
  function ReceiveWindow(w: seq<Wire>, up: bool, p: nat): (r: Result<seq<Byte>>)
    requires p <= |w|
    ensures r.Done? ==> p < r.next < |w|
  {
    var q := NextSelect(w, p);
    if q == |w| then Stalled else ReceiveBytes(w, up, q)
  }

  /** An SPI transaction: the driver's intent, and what the monitor publishes. */
  datatype Txn = Txn(isWrite: bool, addr: Byte, data: Byte)

  function Published(tr: Txn, collected: seq<Byte>): Txn {
    if !tr.isWrite && |collected| >= 3 then tr.(data := collected[2]) else tr
  }

  /** The transactions published for a list of intents. */
  function MonitorAll(w: seq<Wire>, up: bool, p: nat, intents: seq<Txn>): (r: Result<seq<Txn>>)
    requires p <= |w|
    decreases |intents|
  {
    if intents == [] then Done([], p)
    else
      match ReceiveWindow(w, up, p)
      case Stalled => Stalled
      case Done(bytes, next) => Prepend(Published(intents[0], bytes), MonitorAll(w, up, next, intents[1..]))
  }

  method WaitEdge(w: seq<Wire>, up: bool, p: nat) returns (q: nat)
    requires p < |w|
    ensures q == NextEdge(w, up, p) && FirstEdge(w, up, p, q)
  {
    NextEdgeIsFirst(w, up, p);
    q := p + 1;
    while q < |w| && !(w[q - 1].sclk != up && w[q].sclk == up)
      invariant p < q <= |w|
      invariant NextEdge(w, up, p) == if q == |w| || EdgeAt(w, up, q) then q else NextEdge(w, up, q)
    {
      q := q + 1;
    }
  }

  method WaitSelect(w: seq<Wire>, p: nat) returns (q: nat)
    requires p <= |w|
    ensures q == NextSelect(w, p) && p <= q <= |w|
    ensures (q < |w| ==> !w[q].cs) && forall i | p <= i < q :: w[i].cs
  {
    q := p;
    while q < |w| && w[q].cs
      invariant p <= q <= |w| && NextSelect(w, p) == NextSelect(w, q) && forall i | p <= i < q :: w[i].cs
    {
      q := q + 1;
    }
  }

  method WaitWord(w: seq<Wire>, sclk: bool, p: nat) returns (q: nat)
    requires p <= |w|
    ensures q == NextWord(w, !sclk, p) && p <= q <= |w|
    ensures (q < |w| ==> w[q].cs || w[q].sclk == sclk) && forall i | p <= i < q :: !w[i].cs && w[i].sclk != sclk
  {
    q := p;
    while q < |w| && w[q].sclk != sclk && !w[q].cs
      invariant p <= q <= |w| && NextWord(w, !sclk, p) == NextWord(w, !sclk, q)
      invariant forall i | p <= i < q :: !w[i].cs && w[i].sclk != sclk
    {
      q := q + 1;
    }
  }

  /** The result r with the values received before it put in front. */
  function Resume<T>(got: seq<T>, r: Result<seq<T>>): Result<seq<T>> {
    match r
    case Stalled => Stalled
    case Done(xs, next) => Done(got + xs, next)
  }

  lemma ResumeNothing<T>(r: Result<seq<T>>)
    ensures Resume([], r) == r
  {
    if r.Done? { assert [] + r.value == r.value; }
  }

  lemma ResumeEnd<T>(got: seq<T>, next: nat)
    ensures Resume(got, Done([], next)) == Done(got, next)
  {
    assert got + [] == got;
  }

  lemma ResumeStep<T>(got: seq<T>, x: T, r: Result<seq<T>>)
    ensures Resume(got, Prepend(x, r)) == Resume(got + [x], r)
  {
    if r.Done? { assert got + ([x] + r.value) == got + [x] + r.value; }
  }

  /** Eight samples of MISO, most significant bit first: at falling edges of SCLK in modes 0 and 2, at rising ones in the others. */
  method CollectByte(w: seq<Wire>, mode: nat, p: nat) returns (r: Result<Byte>)
    requires p < |w|
    ensures r == ReceiveByte(w, mode != 0 && mode != 2, p)
  {
    ghost var up := mode != 0 && mode != 2;
    var received: Byte := ZERO;
    var at, i := p, 8;
    ghost var got: seq<bool>, places: seq<bool> := [], Places(w);
    ResumeNothing(ReceiveBits(w, up, p, Places(w)));
    while i > 0
      invariant 0 <= i <= 8 && p <= at < |w| && (i < 8 ==> p < at)
      invariant |received| == 8 && got == received[..8 - i] && |places| == i
      invariant Resume(got, ReceiveBits(w, up, at, places)) == ReceiveBits(w, up, p, Places(w))
    {
      i := i - 1;
      var q;
      if mode == 0 || mode == 2 {
        q := WaitEdge(w, false, at);
      } else {
        q := WaitEdge(w, true, at);
      }
      if q == |w| { return Stalled; }
      ResumeStep(got, w[q].miso, ReceiveBits(w, up, q, places[1..]));
      received := received[7 - i := w[q].miso]; // received_byte[i], counted from the least significant bit
      got, places := got + [w[q].miso], places[1..];
      at := q;
    }
    assert got == received;
    ResumeEnd(got, at);
    r := Done(received, at);
  }

  method CollectWindow(w: seq<Wire>, mode: nat, p: nat) returns (r: Result<seq<Byte>>)
    requires p <= |w|
    ensures r == ReceiveWindow(w, mode != 0 && mode != 2, p)
  {
    ghost var up := mode != 0 && mode != 2;
    var at := WaitSelect(w, p);
    if at == |w| { return Stalled; }
    var data: seq<Byte> := [];
    ghost var target := ReceiveWindow(w, up, p);
    ResumeNothing(target);
    while !w[at].cs
      invariant p <= at < |w|
      invariant target == if w[at].cs then Done(data, at) else Resume(data, ReceiveBytes(w, up, at))
      decreases |w| - at
    {
      var byte := CollectByte(w, mode, at);
      if byte.Stalled? { return Stalled; }
      var q;
      if mode == 0 || mode == 2 {
        q := WaitWord(w, true, byte.next);
      } else {
        q := WaitWord(w, false, byte.next);
      }
      if q == |w| { return Stalled; }
      if !w[q].cs { ResumeStep(data, byte.value, ReceiveBytes(w, up, q)); }
      data := data + [byte.value];
      at := q;
    }
    r := Done(data, at);
  }

  method MonitorRunPhase(w: seq<Wire>, mode: nat, start: nat, intents: seq<Txn>) returns (r: Result<seq<Txn>>)
    requires start <= |w|
    ensures r == MonitorAll(w, mode != 0 && mode != 2, start, intents)
  {
    ghost var up := mode != 0 && mode != 2;
    var published: seq<Txn> := [];
    var p: nat := start;
    ResumeNothing(MonitorAll(w, up, start, intents));
    ghost var todo := intents;
    for k := 0 to |intents|
      invariant p <= |w| && todo == intents[k..]
      invariant MonitorAll(w, up, start, intents) == Resume(published, MonitorAll(w, up, p, todo))
    {
      var collected := CollectWindow(w, mode, p);
      if collected.Stalled? { return Stalled; }
      var tr := intents[k];
      assert todo[0] == tr && todo[1..] == intents[k + 1..];
      if !tr.isWrite && |collected.value| >= 3 {
        tr := tr.(data := collected.value[2]);
      }
      assert tr == Published(intents[k], collected.value);
      ResumeStep(published, tr, MonitorAll(w, up, collected.next, todo[1..]));
      published, p, todo := published + [tr], collected.next, todo[1..];
    }
    ResumeEnd(published, p);
    r := Done(published, p);
  }
}
