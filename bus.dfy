/** The SPI bus between the driver and the panel, seen as a log of events.
    The driver never reads anything back: everything it does is one of the
    five events below, so a drawing call is fully described by the events it
    appends to the log. */
module Bus {

  type byte = b: int | 0 <= b < 256

  datatype Option<T> = None | Some(value: T)

  /** One action on the bus: a level on the chip-select line, a level on the
      data/command line, or one SPI write of a run of bytes. */
  datatype Event = CsLow | CsHigh | DcLow | DcHigh | Write(bytes: seq<byte>)

  predicate IsByte(v: int) { 0 <= v < 256 }

  /** `b >> k` for a non-negative b. */
  function Shifted(b: int, k: nat): int
    decreases k
  {
    if k == 0 then b else Shifted(b / 2, k - 1)
  }

  /** `(b >> k) & 1 == 1`: bit k of a non-negative b is set. */
  predicate Bit(b: int, k: nat)
  {
    Shifted(b, k) % 2 == 1
  }

  lemma MulNonneg(a: int, b: int)
    requires 0 <= a && 0 <= b
    ensures 0 <= a * b
  {
  }

  function Pow2(k: nat): (p: nat)
    ensures p >= 1
  {
    if k == 0 then 1 else 2 * Pow2(k - 1)
  }

  /** Shifting by one more place halves once more. */
  lemma {:induction false} ShiftedSucc(b: int, k: nat)
    ensures Shifted(b, k + 1) == Shifted(b, k) / 2
    decreases k
  {
    if k > 0 {
      ShiftedSucc(b / 2, k - 1);
    }
  }

  /** A value below 2^k is shifted out entirely by k places. */
  lemma {:induction false} ShiftedOut(b: int, k: nat)
    requires 0 <= b < Pow2(k)
    ensures Shifted(b, k) == 0
    decreases k
  {
    if k > 0 {
      ShiftedOut(b / 2, k - 1);
    }
  }

  lemma {:induction false} Pow2Mono(j: nat, k: nat)
    requires j <= k
    ensures Pow2(j) <= Pow2(k)
    decreases k
  {
    if j < k {
      Pow2Mono(j, k - 1);
    }
  }

  /** A byte has no bit set from bit 8 on. */
  lemma ByteBits(b: byte, k: nat)
    requires k >= 8
    ensures !Bit(b, k)
  {
    Pow2Mono(8, k);
    assert Pow2(8) == 256;
    ShiftedOut(b, k);
  }

  /** The chip-select pin is optional; without one, selecting and deselecting
      the panel leave no trace on the bus. */
  function Select(hasCs: bool): seq<Event> { if hasCs then [CsLow] else [] }

  function Deselect(hasCs: bool): seq<Event> { if hasCs then [CsHigh] else [] }

  /** The events of `cmd(command, data)`: select, the opcode byte with D/C low
      (when there is one), the payload with D/C high (when there is one),
      deselect. */
  function CmdFrame(hasCs: bool, op: Option<byte>, payload: Option<seq<byte>>): seq<Event>
  {
    Select(hasCs)
    + (if op.Some? then [DcLow, Write([op.value])] else [])
    + (if payload.Some? then [DcHigh, Write(payload.value)] else [])
    + Deselect(hasCs)
  }

  /** The events of `data(bytes)`: D/C high first, then one selected write. */
  function DataFrame(hasCs: bool, d: seq<byte>): seq<Event>
  {
    [DcHigh] + Select(hasCs) + [Write(d)] + Deselect(hasCs)
  }

  /** What the panel controller makes of the bytes it receives: a byte clocked
      in while D/C is low is a command, while D/C is high a parameter or pixel
      byte. */
  datatype Word = Command(op: byte) | Param(b: byte)

  function Tag(bs: seq<byte>, dc: bool): seq<Word>
  {
    if bs == [] then [] else [if dc then Param(bs[0]) else Command(bs[0])] + Tag(bs[1..], dc)
  }

  function Params(bs: seq<byte>): seq<Word> { Tag(bs, true) }

  /** The stream of words the panel sees when the events `ev` are played with
      the D/C line initially at `dc` (true is high, data). */
  function Wire(ev: seq<Event>, dc: bool): seq<Word>
  {
    if ev == [] then []
    else match ev[0]
      case DcLow => Wire(ev[1..], false)
      case DcHigh => Wire(ev[1..], true)
      case Write(bs) => Tag(bs, dc) + Wire(ev[1..], dc)
      case _ => Wire(ev[1..], dc)
  }

  /** The D/C level after the events `ev`. */
  function DcAfter(ev: seq<Event>, dc: bool): bool
  {
    if ev == [] then dc
    else match ev[0]
      case DcLow => DcAfter(ev[1..], false)
      case DcHigh => DcAfter(ev[1..], true)
      case _ => DcAfter(ev[1..], dc)
  }

  /** Every byte written, in order, whatever the control lines did. */
  function Written(ev: seq<Event>): seq<byte>
  {
    if ev == [] then [] else (if ev[0].Write? then ev[0].bytes else []) + Written(ev[1..])
  }

  /** The number of SPI write calls. */
  function WriteCount(ev: seq<Event>): nat
  {
    if ev == [] then 0 else (if ev[0].Write? then 1 else 0) + WriteCount(ev[1..])
  }

  lemma {:induction false} TagLength(bs: seq<byte>, dc: bool)
    ensures |Tag(bs, dc)| == |bs|
    ensures forall k :: 0 <= k < |bs| ==> Tag(bs, dc)[k] == (if dc then Param(bs[k]) else Command(bs[k]))
  {
    if bs != [] {
      TagLength(bs[1..], dc);
    }
  }

  lemma {:induction false} TagAppend(a: seq<byte>, b: seq<byte>, dc: bool)
    ensures Tag(a + b, dc) == Tag(a, dc) + Tag(b, dc)
  {
    if a != [] {
      assert (a + b)[0] == a[0] && (a + b)[1..] == a[1..] + b;
      TagAppend(a[1..], b, dc);
    } else {
      assert a + b == b;
    }
  }

  /** Playing two runs of events one after the other: the panel sees the
      words of the first, then those of the second started from the D/C level
      the first left behind. */
  lemma {:induction false} WireAppend(a: seq<Event>, b: seq<Event>, dc: bool)
    ensures Wire(a + b, dc) == Wire(a, dc) + Wire(b, DcAfter(a, dc))
    ensures DcAfter(a + b, dc) == DcAfter(b, DcAfter(a, dc))
  {
    if a != [] {
      assert (a + b)[0] == a[0] && (a + b)[1..] == a[1..] + b;
      match a[0]
      case DcLow => WireAppend(a[1..], b, false);
      case DcHigh => WireAppend(a[1..], b, true);
      case _ => WireAppend(a[1..], b, dc);
    } else {
      assert a + b == b;
    }
  }

  lemma {:induction false} WrittenAppend(a: seq<Event>, b: seq<Event>)
    ensures Written(a + b) == Written(a) + Written(b)
    ensures WriteCount(a + b) == WriteCount(a) + WriteCount(b)
  {
    if a != [] {
      assert (a + b)[0] == a[0] && (a + b)[1..] == a[1..] + b;
      WrittenAppend(a[1..], b);
    } else {
      assert a + b == b;
    }
  }

  /** Regrouping a concatenation; called where the log grows in several
      steps, so that the solver need not compare sequences element-wise. */
  lemma AppendAssoc<T>(a: seq<T>, b: seq<T>, c: seq<T>)
    ensures (a + b) + c == a + (b + c)
  {
  }

  /** A log grown by four appends holds the four pieces in order. */
  lemma AppendChain<T>(l0: seq<T>, l1: seq<T>, l2: seq<T>, l3: seq<T>, l4: seq<T>,
                       a: seq<T>, b: seq<T>, c: seq<T>, d: seq<T>)
    requires l1 == l0 + a && l2 == l1 + b && l3 == l2 + c && l4 == l3 + d
    ensures l4 == l0 + (a + b + c + d)
  {
    AppendAssoc(l0, a, b);
    AppendAssoc(l0, a + b, c);
    AppendAssoc(l0, a + b + c, d);
  }

  /** What one event contributes. */
  lemma EventWire(e: Event, dc: bool)
    ensures Wire([e], dc) == (if e.Write? then Tag(e.bytes, dc) else [])
    ensures DcAfter([e], dc) == (if e == DcLow then false else if e == DcHigh then true else dc)
    ensures Written([e]) == (if e.Write? then e.bytes else [])
    ensures WriteCount([e]) == (if e.Write? then 1 else 0)
  {
    assert [e][1..] == [];
    if e.Write? {
      assert Tag(e.bytes, dc) + [] == Tag(e.bytes, dc);
      assert e.bytes + [] == e.bytes;
    }
  }

  /** Two events in a row. */
  lemma PairWire(e1: Event, e2: Event, dc: bool)
    ensures Wire([e1, e2], dc) == Wire([e1], dc) + Wire([e2], DcAfter([e1], dc))
    ensures DcAfter([e1, e2], dc) == DcAfter([e2], DcAfter([e1], dc))
    ensures Written([e1, e2]) == Written([e1]) + Written([e2])
    ensures WriteCount([e1, e2]) == WriteCount([e1]) + WriteCount([e2])
  {
    assert [e1, e2] == [e1] + [e2];
    WireAppend([e1], [e2], dc);
    WrittenAppend([e1], [e2]);
  }

  lemma SelectWire(hasCs: bool, dc: bool)
    ensures Wire(Select(hasCs), dc) == [] && DcAfter(Select(hasCs), dc) == dc
    ensures Wire(Deselect(hasCs), dc) == [] && DcAfter(Deselect(hasCs), dc) == dc
    ensures Written(Select(hasCs)) == [] && WriteCount(Select(hasCs)) == 0
    ensures Written(Deselect(hasCs)) == [] && WriteCount(Deselect(hasCs)) == 0
  {
  }

  /** A command frame reaches the panel as exactly its opcode followed by its
      payload bytes as parameters, whatever the D/C line was before; the line
      is left high exactly when there was a payload. */
  lemma CmdFrameWire(hasCs: bool, op: byte, payload: Option<seq<byte>>, dc: bool)
    ensures Wire(CmdFrame(hasCs, Some(op), payload), dc)
         == [Command(op)] + (if payload.Some? then Params(payload.value) else [])
    ensures DcAfter(CmdFrame(hasCs, Some(op), payload), dc) == payload.Some?
    ensures WriteCount(CmdFrame(hasCs, Some(op), payload)) == (if payload.Some? then 2 else 1)
  {
    var sel, des := Select(hasCs), Deselect(hasCs);
    var opPart: seq<Event> := [DcLow, Write([op])];
    SelectWire(hasCs, dc);
    PairWire(DcLow, Write([op]), dc);
    OpcodeWire(op, dc);
    WireAppend(sel, opPart, dc);
    WrittenAppend(sel, opPart);
    if payload.Some? {
      var payPart: seq<Event> := [DcHigh, Write(payload.value)];
      PayloadWire(payload.value);
      assert CmdFrame(hasCs, Some(op), payload) == sel + opPart + payPart + des;
      WireAppend(sel + opPart, payPart, dc);
      WrittenAppend(sel + opPart, payPart);
      SelectWire(hasCs, true);
      WireAppend(sel + opPart + payPart, des, dc);
      WrittenAppend(sel + opPart + payPart, des);
    } else {
      assert CmdFrame(hasCs, Some(op), payload) == sel + opPart + des;
      SelectWire(hasCs, false);
      WireAppend(sel + opPart, des, dc);
      WrittenAppend(sel + opPart, des);
    }
  }

  lemma OpcodeWire(op: byte, dc: bool)
    ensures Wire([DcLow, Write([op])], dc) == [Command(op)]
    ensures DcAfter([DcLow, Write([op])], dc) == false
    ensures WriteCount([DcLow, Write([op])]) == 1
  {
    PairWire(DcLow, Write([op]), dc);
    EventWire(DcLow, dc);
    EventWire(Write([op]), false);
    assert Tag([op], false) == [Command(op)] + Tag([], false);
  }

  lemma PayloadWire(d: seq<byte>)
    ensures Wire([DcHigh, Write(d)], false) == Params(d)
    ensures DcAfter([DcHigh, Write(d)], false)
    ensures WriteCount([DcHigh, Write(d)]) == 1
  {
    PairWire(DcHigh, Write(d), false);
    EventWire(DcHigh, false);
    EventWire(Write(d), true);
  }

  /** A data frame reaches the panel as its bytes, all as parameters, in one
      write; the D/C line is left high. */
  lemma DataFrameWire(hasCs: bool, d: seq<byte>, dc: bool)
    ensures Wire(DataFrame(hasCs, d), dc) == Params(d)
    ensures DcAfter(DataFrame(hasCs, d), dc)
    ensures Written(DataFrame(hasCs, d)) == d && WriteCount(DataFrame(hasCs, d)) == 1
  {
    SelectWire(hasCs, true);
    WireAppend([DcHigh] + Select(hasCs) + [Write(d)], Deselect(hasCs), dc);
    WireAppend([DcHigh] + Select(hasCs), [Write(d)], dc);
    WireAppend([DcHigh], Select(hasCs), dc);
    WrittenAppend([DcHigh] + Select(hasCs) + [Write(d)], Deselect(hasCs));
    WrittenAppend([DcHigh] + Select(hasCs), [Write(d)]);
    WrittenAppend([DcHigh], Select(hasCs));
    EventWire(DcHigh, dc);
    EventWire(Write(d), true);
  }
}
