/** `TextObjectParser::next` from 10_fat_pointers_dispatch: a small state
    machine over a PDF page's content operations that yields one text object
    per `BT ... ET` block carrying both a `Td` position and a `Tj` string.
    The PDF types are reduced to what the parser inspects. */
module TextObjects {
  import opened Optional

  /** An operand of a content operation. `Number` is the PDF real number the
      Rust parser reads as an `f32`; `Str` carries the result of decoding a PDF
      string as text (`as_str().ok()`), `None` when that fails. */
  datatype Primitive =
    | Integer(i: int)
    | Number(x: real)
    | Str(decoded: Option<string>)
    | Name(name: string)

  datatype Operation = Operation(operator: string, operands: seq<Primitive>)

  datatype TextObject = TextObject(x: real, y: real, text: string)

  /** The parser's two locals, `last_coords` and `last_text`. */
  datatype Pending = Pending(coords: Option<(real, real)>, text: Option<string>)

  const Empty := Pending(None, None)

  predicate IsBegin(op: Operation) { op.operator == "BT" }

  predicate IsEnd(op: Operation) { op.operator == "ET" }

  /** `Td` with exactly two `Number` operands. */
  predicate IsPosition(op: Operation) {
    op.operator == "Td" && |op.operands| == 2 && op.operands[0].Number? && op.operands[1].Number?
  }

  /** `Tj` with exactly one string operand. */
  predicate IsShow(op: Operation) {
    op.operator == "Tj" && |op.operands| == 1 && op.operands[0].Str?
  }

  /** Both halves of a text object have been seen. */
  predicate Complete(p: Pending) { p.coords.Some? && p.text.Some? }

  function ObjectOf(p: Pending): TextObject
    requires Complete(p)
  {
    TextObject(p.coords.value.0, p.coords.value.1, p.text.value)
  }

  /** The effect of one operation on the pending state, for every operation
      that does not yield: `BT` and `ET` clear both halves, a well-formed
      `Td`/`Tj` overwrites its half, anything else is skipped. */
  function Step(p: Pending, op: Operation): (r: Pending)
    ensures IsBegin(op) || IsEnd(op) ==> r == Empty
    ensures !IsBegin(op) && !IsEnd(op) && !IsPosition(op) && !IsShow(op) ==> r == p
    ensures IsPosition(op) ==> r.text == p.text
    ensures IsShow(op) ==> r.coords == p.coords
  {
    if IsBegin(op) || IsEnd(op) then Empty
    else if IsPosition(op) then p.(coords := Some((op.operands[0].x, op.operands[1].x)))
    else if IsShow(op) then p.(text := op.operands[0].decoded)
    else p
  }

  /** The pending state after running `ops` from `p` with no yield. */
  function Run(p: Pending, ops: seq<Operation>): Pending
    decreases |ops|
  {
    if |ops| == 0 then p else Run(Step(p, ops[0]), ops[1..])
  }

  /** The `while let` loop of `next`, started from pending state `p`: the
      first text object yielded and the operations left after it. */
  function Scan(p: Pending, ops: seq<Operation>): Option<(TextObject, seq<Operation>)>
    decreases |ops|
  {
    if |ops| == 0 then None
    else if IsEnd(ops[0]) && Complete(p) then Some((ObjectOf(p), ops[1..]))
    else Scan(Step(p, ops[0]), ops[1..])
  }

  /** `TextObjectParser::next`: every call starts with both locals `None`.
      It yields nothing exactly when no `ET` is reached with both a position
      and a text pending; otherwise it yields, at the first such `ET`, the
      object built from them, and resumes right after that `ET`. */
  function Next(ops: seq<Operation>): (r: Option<(TextObject, seq<Operation>)>)
    ensures r.None? <==> forall k :: 0 <= k < |ops| ==> !YieldsAt(Empty, ops, k)
    ensures r.Some? ==>
      exists k :: 0 <= k < |ops| && YieldsAt(Empty, ops, k)
        && (forall j :: 0 <= j < k ==> !YieldsAt(Empty, ops, j))
        && r.value == (ObjectOf(Run(Empty, ops[..k])), ops[k + 1..])
  {
    ScanYieldsAtFirstCompleteEnd(Empty, ops);
    Scan(Empty, ops)
  }

  /** Position `k` of `ops` is an `ET` reached with both halves pending. */
  ghost predicate YieldsAt(p: Pending, ops: seq<Operation>, k: nat)
    requires k < |ops|
  {
    IsEnd(ops[k]) && Complete(Run(p, ops[..k]))
  }

  lemma RunUnfold(p: Pending, ops: seq<Operation>, k: nat)
    requires k < |ops|
    ensures Run(p, ops[..k + 1]) == Run(Step(p, ops[0]), ops[1..][..k])
  {
    assert ops[..k + 1][1..] == ops[1..][..k];
  }

  /** Position `k + 1` of `ops` yields from `p` exactly when position `k`
      of the tail yields from the state after the first operation. */
  lemma YieldShift(p: Pending, ops: seq<Operation>, k: nat)
    requires k + 1 < |ops|
    ensures YieldsAt(p, ops, k + 1) <==> YieldsAt(Step(p, ops[0]), ops[1..], k)
  {
    RunUnfold(p, ops, k);
  }

  /** When the first operation does not yield, no position yields from `p`
      unless a position of the tail yields from the next state. */
  lemma {:induction false} NoYieldShift(p: Pending, ops: seq<Operation>)
    requires |ops| > 0 && !(IsEnd(ops[0]) && Complete(p))
    requires forall k :: 0 <= k < |ops| - 1 ==> !YieldsAt(Step(p, ops[0]), ops[1..], k)
    ensures forall k :: 0 <= k < |ops| ==> !YieldsAt(p, ops, k)
  {
    assert ops[..0] == [];
    forall k | 0 <= k < |ops|
      ensures !YieldsAt(p, ops, k)
    {
      if k > 0 {
        YieldShift(p, ops, k - 1);
      }
    }
  }

  /** The index at which the scan yields, with what it returns. */
  lemma {:induction false} ScanYieldIndex(p: Pending, ops: seq<Operation>) returns (k: nat)
    requires Scan(p, ops).Some?
    ensures k < |ops| && YieldsAt(p, ops, k)
    ensures forall j :: 0 <= j < k ==> !YieldsAt(p, ops, j)
    ensures Scan(p, ops).value == (ObjectOf(Run(p, ops[..k])), ops[k + 1..])
    decreases |ops|
  {
    assert ops[..0] == [];
    if IsEnd(ops[0]) && Complete(p) {
      k := 0;
    } else {
      var q := Step(p, ops[0]);
      var i := ScanYieldIndex(q, ops[1..]);
      k := i + 1;
      YieldShift(p, ops, i);
      RunUnfold(p, ops, i);
      assert ops[1..][i + 1..] == ops[k + 1..];
      forall j | 0 <= j < k
        ensures !YieldsAt(p, ops, j)
      {
        if j > 0 {
          YieldShift(p, ops, j - 1);
        }
      }
    }
  }

  /** The scan yields nothing exactly when no position yields. */
  lemma {:induction false} ScanNoneIff(p: Pending, ops: seq<Operation>)
    ensures Scan(p, ops).None? <==> forall k :: 0 <= k < |ops| ==> !YieldsAt(p, ops, k)
    decreases |ops|
  {
    if Scan(p, ops).Some? {
      var k := ScanYieldIndex(p, ops);
    } else if |ops| > 0 {
      ScanNoneIff(Step(p, ops[0]), ops[1..]);
      NoYieldShift(p, ops);
    }
  }

  /** The scan yields exactly at the first `ET` that is reached with both a
      position and a text pending, returns the object built from them and
      resumes right after that `ET`; without such an `ET` it yields nothing. */
  lemma ScanYieldsAtFirstCompleteEnd(p: Pending, ops: seq<Operation>)
    ensures Scan(p, ops).None? <==> forall k :: 0 <= k < |ops| ==> !YieldsAt(p, ops, k)
    ensures Scan(p, ops).Some? ==>
      exists k :: 0 <= k < |ops| && YieldsAt(p, ops, k)
        && (forall j :: 0 <= j < k ==> !YieldsAt(p, ops, j))
        && Scan(p, ops).value == (ObjectOf(Run(p, ops[..k])), ops[k + 1..])
  {
    ScanNoneIff(p, ops);
    if Scan(p, ops).Some? {
      var k := ScanYieldIndex(p, ops);
    }
  }

  /** A `BT` anywhere discards everything that came before it. */
  lemma {:induction false} BeginDiscardsHistory(p: Pending, before: seq<Operation>, bt: Operation, after: seq<Operation>)
    requires IsBegin(bt)
    ensures Run(p, before + [bt] + after) == Run(Empty, after)
    decreases |before|
  {
    if |before| == 0 {
      assert before + [bt] + after == [bt] + after;
      assert ([bt] + after)[1..] == after;
    } else {
      assert (before + [bt] + after)[1..] == before[1..] + [bt] + after;
      BeginDiscardsHistory(Step(p, before[0]), before[1..], bt, after);
    }
  }

  /** Operations the parser does not recognise leave the state untouched. */
  lemma {:induction false} SkippedOpsAreInert(p: Pending, ops: seq<Operation>)
    requires forall i :: 0 <= i < |ops| ==>
      !IsBegin(ops[i]) && !IsEnd(ops[i]) && !IsPosition(ops[i]) && !IsShow(ops[i])
    ensures Run(p, ops) == p
    decreases |ops|
  {
    if |ops| > 0 {
      SkippedOpsAreInert(p, ops[1..]);
    }
  }

  /** Running one more operation is one more step. */
  lemma {:induction false} RunSnoc(p: Pending, ops: seq<Operation>, op: Operation)
    ensures Run(p, ops + [op]) == Step(Run(p, ops), op)
    decreases |ops|
  {
    if |ops| == 0 {
      assert ops + [op] == [op];
      assert [op][1..] == [];
    } else {
      assert (ops + [op])[1..] == ops[1..] + [op];
      RunSnoc(Step(p, ops[0]), ops[1..], op);
    }
  }

  /** Whatever came before, a well-formed `Td` sets the pending position to
      its own operands and keeps the pending text; a well-formed `Tj` sets
      the pending text and keeps the position. A later one overwrites an
      earlier one. */
  lemma LaterOperandOverwrites(p: Pending, ops: seq<Operation>, op: Operation)
    ensures IsPosition(op) ==>
      Run(p, ops + [op]) == Run(p, ops).(coords := Some((op.operands[0].x, op.operands[1].x)))
    ensures IsShow(op) ==> Run(p, ops + [op]) == Run(p, ops).(text := op.operands[0].decoded)
  {
    RunSnoc(p, ops, op);
  }

  /** A block `BT Td Tj ET` yields its position and text. */
  lemma SimpleBlock(x: real, y: real, s: string)
    ensures Next([Operation("BT", []), Operation("Td", [Number(x), Number(y)]),
                  Operation("Tj", [Str(Some(s))]), Operation("ET", [])])
         == Some((TextObject(x, y, s), []))
  {
    var et := Operation("ET", []);
    var tj := Operation("Tj", [Str(Some(s))]);
    var td := Operation("Td", [Number(x), Number(y)]);
    var ops := [Operation("BT", []), td, tj, et];
    assert ops[1..] == [td, tj, et] && ops[1..][1..] == [tj, et] && ops[1..][1..][1..] == [et];
    assert Step(Empty, ops[0]) == Empty;
    assert Next(ops) == Scan(Empty, [td, tj, et]);
    var full := Pending(Some((x, y)), Some(s));
    assert IsEnd(et) && Complete(full) && [et][1..] == [];
    assert Scan(full, [et]) == Some((TextObject(x, y, s), []));
    assert Scan(Pending(Some((x, y)), None), [tj, et]) == Scan(full, [et]);
    assert IsPosition(td) && Step(Empty, td) == Pending(Some((x, y)), None);
    assert Scan(Empty, [td, tj, et]) == Scan(Pending(Some((x, y)), None), [tj, et]);
  }

  /** A `Td` given integer operands is skipped, so the block yields nothing. */
  lemma IntegerPositionIsSkipped(s: string)
    ensures Next([Operation("BT", []), Operation("Td", [Integer(1), Integer(2)]),
                  Operation("Tj", [Str(Some(s))]), Operation("ET", [])])
         == None
  {
    var et := Operation("ET", []);
    var tj := Operation("Tj", [Str(Some(s))]);
    var td := Operation("Td", [Integer(1), Integer(2)]);
    var ops := [Operation("BT", []), td, tj, et];
    assert ops[1..] == [td, tj, et] && ops[1..][1..] == [tj, et] && ops[1..][1..][1..] == [et];
    var textOnly := Pending(None, Some(s));
    assert Scan(Empty, [et]) == None;
    assert Scan(textOnly, [et]) == None;
    assert Scan(Empty, [tj, et]) == Scan(textOnly, [et]);
    assert Scan(Empty, [td, tj, et]) == Scan(Empty, [tj, et]);
  }
}
