/** Streaming one colour many times: `_repeat_data`, `_repeat_data_slow` and
    `_repeat_data_bulk` of st7735r.py, as the bus events each produces. */
module Burst {
  import opened Bus

  /** The number of copies of the data that one batched write carries. */
  const BatchSize: int := 50

  function Max0(n: int): nat { if n > 0 then n else 0 }

  /** `bytes(d) * n`: n back-to-back copies of d, none when n <= 0. */
  function Repeat(d: seq<byte>, n: int): seq<byte>
    decreases n
  {
    if n <= 0 then [] else d + Repeat(d, n - 1)
  }

  /** n identical write calls of `chunk` (a `for _ in range(n)` loop). */
  function Writes(chunk: seq<byte>, n: int): seq<Event>
    decreases n
  {
    if n <= 0 then [] else [Write(chunk)] + Writes(chunk, n - 1)
  }

  /** A burst: D/C high, select, the writes, deselect. */
  function Burst(hasCs: bool, body: seq<Event>): seq<Event>
  {
    [DcHigh] + Select(hasCs) + body + Deselect(hasCs)
  }

  /** `_repeat_data(d, count)`: count / 50 writes of 50 copies, then
      count % 50 writes of count % 50 copies (the remainder loop repeats its
      write once per remaining copy). Floor division and a non-negative
      remainder, as Python's `//` and `%` with a positive divisor. */
  function RepeatFrame(hasCs: bool, d: seq<byte>, count: int): seq<Event>
  {
    var repeat := count / BatchSize;
    var remain := count % BatchSize;
    Burst(hasCs, Writes(Repeat(d, BatchSize), repeat) + Writes(Repeat(d, remain), remain))
  }

  /** `_repeat_data_slow(d, count)`: one write per copy. */
  function RepeatSlowFrame(hasCs: bool, d: seq<byte>, count: int): seq<Event>
  {
    Burst(hasCs, Writes(d, count))
  }

  /** `_repeat_data_bulk(d, count)`: a single write of all copies. */
  function RepeatBulkFrame(hasCs: bool, d: seq<byte>, count: int): seq<Event>
  {
    Burst(hasCs, [Write(Repeat(d, count))])
  }

  /** The number of copies of the data that `_repeat_data` puts on the bus. */
  function Sent(count: int): nat
  {
    50 * Max0(count / BatchSize) + (count % BatchSize) * (count % BatchSize)
  }

  /** The log after a burst of two runs of writes, regrouped. */
  lemma BurstLog(log: seq<Event>, hasCs: bool, a: seq<Event>, b: seq<Event>)
    ensures log + [DcHigh] + Select(hasCs) + a + b + Deselect(hasCs) == log + Burst(hasCs, a + b)
  {
  }

  predicate AllWrites(ev: seq<Event>) { forall i :: 0 <= i < |ev| ==> ev[i].Write? }

  lemma {:induction false} RepeatLength(d: seq<byte>, n: int)
    ensures |Repeat(d, n)| == |d| * Max0(n)
    decreases n
  {
    if n > 0 {
      RepeatLength(d, n - 1);
      assert |d| + |d| * (n - 1) == |d| * n;
    }
  }

  lemma {:induction false} RepeatAdd(d: seq<byte>, a: nat, b: nat)
    ensures Repeat(d, a + b) == Repeat(d, a) + Repeat(d, b)
    decreases a
  {
    if a > 0 {
      RepeatAdd(d, a - 1, b);
      assert a + b - 1 == (a - 1) + b;
    }
  }

  lemma {:induction false} RepeatMul(d: seq<byte>, a: nat, b: nat)
    ensures Repeat(Repeat(d, a), b) == Repeat(d, a * b)
    decreases b
  {
    if b > 0 {
      RepeatMul(d, a, b - 1);
      RepeatAdd(d, a, a * (b - 1));
      assert a + a * (b - 1) == a * b;
    }
  }

  lemma {:induction false} WritesProps(chunk: seq<byte>, n: int, dc: bool)
    ensures AllWrites(Writes(chunk, n)) && |Writes(chunk, n)| == Max0(n)
    ensures Written(Writes(chunk, n)) == Repeat(chunk, n)
    ensures WriteCount(Writes(chunk, n)) == Max0(n)
    ensures Wire(Writes(chunk, n), dc) == Tag(Repeat(chunk, n), dc)
    ensures DcAfter(Writes(chunk, n), dc) == dc
    decreases n
  {
    if n > 0 {
      WritesProps(chunk, n - 1, dc);
      var tail := Writes(chunk, n - 1);
      EventWire(Write(chunk), dc);
      WireAppend([Write(chunk)], tail, dc);
      WrittenAppend([Write(chunk)], tail);
      TagAppend(chunk, Repeat(chunk, n - 1), dc);
    }
  }

  lemma {:induction false} AllWritesProps(body: seq<Event>, dc: bool)
    requires AllWrites(body)
    ensures Wire(body, dc) == Tag(Written(body), dc)
    ensures DcAfter(body, dc) == dc
  {
    if body != [] {
      assert AllWrites(body[1..]) by {
        forall i | 0 <= i < |body[1..]| ensures body[1..][i].Write? {
          assert body[1..][i] == body[i + 1];
        }
      }
      AllWritesProps(body[1..], dc);
      TagAppend(body[0].bytes, Written(body[1..]), dc);
    }
  }

  lemma AllWritesAppend(a: seq<Event>, b: seq<Event>)
    requires AllWrites(a) && AllWrites(b)
    ensures AllWrites(a + b)
  {
  }

  /** Whatever the writes inside a burst, the panel receives exactly their
      bytes, all as parameters, and the D/C line is left high. */
  lemma BurstWire(hasCs: bool, body: seq<Event>, dc: bool)
    requires AllWrites(body)
    ensures Wire(Burst(hasCs, body), dc) == Params(Written(body))
    ensures DcAfter(Burst(hasCs, body), dc)
    ensures Written(Burst(hasCs, body)) == Written(body)
    ensures WriteCount(Burst(hasCs, body)) == WriteCount(body)
  {
    SelectWire(hasCs, true);
    AllWritesProps(body, true);
    EventWire(DcHigh, dc);
    WireAppend([DcHigh] + Select(hasCs) + body, Deselect(hasCs), dc);
    WireAppend([DcHigh] + Select(hasCs), body, dc);
    WireAppend([DcHigh], Select(hasCs), dc);
    WrittenAppend([DcHigh] + Select(hasCs) + body, Deselect(hasCs));
    WrittenAppend([DcHigh] + Select(hasCs), body);
    WrittenAppend([DcHigh], Select(hasCs));
  }

  /** A burst is one transaction: D/C goes high first, the panel is selected
      once, and everything between selecting and deselecting is a write. */
  lemma BurstShape(hasCs: bool, body: seq<Event>)
    requires AllWrites(body)
    ensures var ev := Burst(hasCs, body);
      var first := 1 + |Select(hasCs)|;
      var last := |ev| - |Deselect(hasCs)|;
      ev[0] == DcHigh
      && (hasCs ==> ev[1] == CsLow && ev[|ev| - 1] == CsHigh)
      && (forall i :: first <= i < last ==> ev[i].Write?)
      && (forall i :: 0 <= i < first ==> !ev[i].Write?)
      && (forall i :: last <= i < |ev| ==> !ev[i].Write?)
  {
    var ev := Burst(hasCs, body);
    var first := 1 + |Select(hasCs)|;
    forall i | first <= i < |ev| - |Deselect(hasCs)| ensures ev[i].Write? {
      assert ev[i] == body[i - first];
    }
  }

  /** `_repeat_data` puts `Sent(count)` copies of the data on the bus, in
      `count / 50` writes of 50 copies followed by `count % 50` writes of
      `count % 50` copies, all in one burst, and the panel receives them as
      parameter bytes. */
  lemma RepeatFrameStream(hasCs: bool, d: seq<byte>, count: int, dc: bool)
    ensures Written(RepeatFrame(hasCs, d, count)) == Repeat(d, Sent(count))
    ensures WriteCount(RepeatFrame(hasCs, d, count)) == Max0(count / BatchSize) + count % BatchSize
    ensures Wire(RepeatFrame(hasCs, d, count), dc) == Params(Repeat(d, Sent(count)))
    ensures DcAfter(RepeatFrame(hasCs, d, count), dc)
  {
    var repeat := count / BatchSize;
    var remain := count % BatchSize;
    var full := Writes(Repeat(d, BatchSize), repeat);
    var rest := Writes(Repeat(d, remain), remain);
    assert RepeatFrame(hasCs, d, count) == Burst(hasCs, full + rest);
    RepeatSent(d, count);
    hide Writes, Repeat, RepeatFrame;
    WritesProps(Repeat(d, BatchSize), repeat, dc);
    WritesProps(Repeat(d, remain), remain, dc);
    AllWritesAppend(full, rest);
    WrittenAppend(full, rest);
    BurstWire(hasCs, full + rest, dc);
  }

  /** The copies the two loops of `_repeat_data` send add up to Sent(count). */
  lemma RepeatSent(d: seq<byte>, count: int)
    ensures Repeat(Repeat(d, BatchSize), count / BatchSize) + Repeat(Repeat(d, count % BatchSize), count % BatchSize)
            == Repeat(d, Sent(count))
  {
    var repeat := count / BatchSize;
    var remain := count % BatchSize;
    if repeat > 0 {
      RepeatMul(d, BatchSize, repeat);
    } else {
      assert Repeat(Repeat(d, BatchSize), repeat) == [] == Repeat(d, 0);
    }
    RepeatMul(d, remain, remain);
    RepeatAdd(d, 50 * Max0(repeat), remain * remain);
  }


  /** The same burst, seen as one bus transaction of writes only. */
  lemma RepeatFrameShape(hasCs: bool, d: seq<byte>, count: int)
    ensures var ev := RepeatFrame(hasCs, d, count);
      var first := 1 + |Select(hasCs)|;
      var last := |ev| - |Deselect(hasCs)|;
      ev[0] == DcHigh
      && (hasCs ==> ev[1] == CsLow && ev[|ev| - 1] == CsHigh)
      && (forall i :: first <= i < last ==> ev[i].Write?)
      && (forall i :: 0 <= i < first ==> !ev[i].Write?)
      && (forall i :: last <= i < |ev| ==> !ev[i].Write?)
  {
    var repeat := count / BatchSize;
    var remain := count % BatchSize;
    WritesProps(Repeat(d, BatchSize), repeat, true);
    WritesProps(Repeat(d, remain), remain, true);
    AllWritesAppend(Writes(Repeat(d, BatchSize), repeat), Writes(Repeat(d, remain), remain));
    BurstShape(hasCs, Writes(Repeat(d, BatchSize), repeat) + Writes(Repeat(d, remain), remain));
  }

  /** For a non-negative count the bytes written total |d| * (50q + m*m) with
      q = count / 50 and m = count % 50; a zero count writes nothing at all. */
  lemma RepeatFrameBytes(hasCs: bool, d: seq<byte>, count: int)
    requires count >= 0
    ensures var q, m := count / BatchSize, count % BatchSize;
      |Written(RepeatFrame(hasCs, d, count))| == |d| * (50 * q + m * m)
    ensures count == 0 ==> (WriteCount(RepeatFrame(hasCs, d, count)) == 0
                            && Written(RepeatFrame(hasCs, d, count)) == [])
  {
    RepeatFrameStream(hasCs, d, count, true);
    RepeatLength(d, Sent(count));
  }

  /** `_repeat_data` sends exactly `count` copies if and only if the count is
      non-negative and leaves a remainder of at most one modulo 50; any other
      count is over-sent (or, when negative, sent as a square remainder). */
  lemma SentExact(count: int)
    ensures Sent(count) == count <==> (count >= 0 && count % BatchSize <= 1)
  {
    var q, m := count / BatchSize, count % BatchSize;
    assert count == 50 * q + m;
    if count >= 0 {
      assert q >= 0;
      if m >= 2 {
        assert m * m >= 2 * m > m;
      } else {
        assert m * m == m;
      }
    } else {
      assert q < 0;
      assert m * m >= 0;
    }
  }

  /** `_repeat_data_slow` sends exactly the requested copies, one write each. */
  lemma RepeatSlowStream(hasCs: bool, d: seq<byte>, count: int, dc: bool)
    ensures Written(RepeatSlowFrame(hasCs, d, count)) == Repeat(d, count)
    ensures WriteCount(RepeatSlowFrame(hasCs, d, count)) == Max0(count)
    ensures Wire(RepeatSlowFrame(hasCs, d, count), dc) == Params(Repeat(d, count))
  {
    WritesProps(d, count, dc);
    BurstWire(hasCs, Writes(d, count), dc);
  }

  /** `_repeat_data_bulk` sends exactly the requested copies in one write. */
  lemma RepeatBulkStream(hasCs: bool, d: seq<byte>, count: int, dc: bool)
    ensures Written(RepeatBulkFrame(hasCs, d, count)) == Repeat(d, count)
    ensures WriteCount(RepeatBulkFrame(hasCs, d, count)) == 1
    ensures Wire(RepeatBulkFrame(hasCs, d, count), dc) == Params(Repeat(d, count))
  {
    EventWire(Write(Repeat(d, count)), true);
    BurstWire(hasCs, [Write(Repeat(d, count))], dc);
  }

  lemma RepeatParamsInjective(d: seq<byte>, a: nat, b: nat)
    requires |d| > 0
    ensures Params(Repeat(d, a)) == Params(Repeat(d, b)) <==> a == b
  {
    RepeatLength(d, a);
    RepeatLength(d, b);
    TagLength(Repeat(d, a), true);
    TagLength(Repeat(d, b), true);
    assert Max0(a) == a && Max0(b) == b;
    hide Repeat, Params;
    if a != b {
      MulCancel(|d|, a, b);
      assert |Params(Repeat(d, a))| != |Params(Repeat(d, b))|;
    }
  }

  lemma MulCancel(k: int, a: int, b: int)
    requires k > 0 && a != b
    ensures k * a != k * b
  {
    if a < b { assert k * a < k * b; } else { assert k * b < k * a; }
  }

  /** The batched variant agrees with the slow and the bulk ones on what the
      panel receives exactly when it sends the requested number of copies:
      for a non-negative count, when the remainder modulo 50 is at most one;
      for a negative count, when the remainder is zero. */
  lemma RepeatVariantsAgree(hasCs: bool, d: seq<byte>, count: int, dc: bool)
    requires |d| > 0
    ensures Wire(RepeatFrame(hasCs, d, count), dc) == Wire(RepeatBulkFrame(hasCs, d, count), dc)
            <==> (if count >= 0 then count % BatchSize <= 1 else count % BatchSize == 0)
    ensures Wire(RepeatSlowFrame(hasCs, d, count), dc) == Wire(RepeatBulkFrame(hasCs, d, count), dc)
  {
    RepeatFrameStream(hasCs, d, count, dc);
    RepeatSlowStream(hasCs, d, count, dc);
    RepeatBulkStream(hasCs, d, count, dc);
    RepeatParamsInjective(d, Sent(count), Max0(count));
    assert Repeat(d, count) == Repeat(d, Max0(count));
    if count >= 0 {
      SentExact(count);
    } else {
      var m := count % BatchSize;
      assert count / BatchSize < 0;
      assert Sent(count) == m * m;
      assert m * m == 0 <==> m == 0;
    }
  }
}
