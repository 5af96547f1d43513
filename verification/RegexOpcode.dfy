// The instructions of the regular expression machine and their byte encoding
// (libregexp-opcode.h). Opcode numbers follow the order of that file.
module RegexOpcode {
  import opened Wrappers
  import opened Bytes

  type Interval = (int, int)

  datatype Instr =
    | Char(c: int, icase: bool)
    | Char32(c: int, icase: bool)
    | Dot
    | AnyChar
    | LineStart(multi: bool)
    | LineEnd(multi: bool)
    | Goto(off: int)
    | Split(gotoFirst: bool, off: int)
    | Match
    | SaveStart(group: int)
    | SaveEnd(group: int)
    | SaveReset(first: int, last: int)
    | Loop(off: int)
    | PushI32(v: int)
    | Drop
    | WordBoundary(neg: bool, icase: bool)
    | Range(icase: bool, table: seq<Interval>)
    | Range32(icase: bool, table: seq<Interval>)
    | Look(neg: bool, off: int)
    | PushCharPos
    | CheckAdvance
    | Prev
    | SimpleGreedyQuant(off: int, min: int, max: int, count: int)

  // Operands fit their fields.
  predicate ValidInstr(i: Instr) {
    match i
    case Char(c, _) => 0 <= c < U16_LIMIT
    case Char32(c, _) => 0 <= c < U32_LIMIT
    case Goto(off) => ValidOffset(off)
    case Split(_, off) => ValidOffset(off)
    case SaveStart(g) => 0 <= g < 0x100
    case SaveEnd(g) => 0 <= g < 0x100
    case SaveReset(g, h) => 0 <= g < 0x100 && 0 <= h < 0x100
    case Loop(off) => ValidOffset(off)
    case PushI32(v) => 0 <= v < U32_LIMIT
    case Range(_, t) =>
      0 < |t| < U16_LIMIT &&
      forall k :: 0 <= k < |t| ==> 0 <= t[k].0 < U16_LIMIT && 0 <= t[k].1 < U16_LIMIT
    case Range32(_, t) =>
      0 < |t| < U16_LIMIT &&
      forall k :: 0 <= k < |t| ==> 0 <= t[k].0 < U32_LIMIT && 0 <= t[k].1 < U32_LIMIT
    case Look(_, off) => ValidOffset(off)
    case SimpleGreedyQuant(off, min, max, count) =>
      ValidOffset(off) && 0 <= min < U32_LIMIT && 0 <= max < U32_LIMIT && 0 <= count < U32_LIMIT
    case _ => true
  }

  predicate ValidOffset(off: int) {
    -INT32_MAX <= off <= INT32_MAX
  }

  // reopcode_info[].size, plus the interval table of the range opcodes.
  function Size(i: Instr): (n: nat)
    ensures n >= 1
  {
    match i
    case Char(_, _) => 3
    case Char32(_, _) => 5
    case Goto(_) => 5
    case Split(_, _) => 5
    case SaveStart(_) => 2
    case SaveEnd(_) => 2
    case SaveReset(_, _) => 3
    case Loop(_) => 5
    case PushI32(_) => 5
    case Range(_, t) => 3 + 4 * |t|
    case Range32(_, t) => 3 + 8 * |t|
    case Look(_, _) => 5
    case SimpleGreedyQuant(_, _, _, _) => 17
    case _ => 1
  }

  const REOP_CHAR := 1
  const REOP_CHAR_I := 2
  const REOP_CHAR32 := 3
  const REOP_CHAR32_I := 4
  const REOP_DOT := 5
  const REOP_ANY := 6
  const REOP_LINE_START := 7
  const REOP_LINE_START_M := 8
  const REOP_LINE_END := 9
  const REOP_LINE_END_M := 10
  const REOP_GOTO := 11
  const REOP_SPLIT_GOTO_FIRST := 12
  const REOP_SPLIT_NEXT_FIRST := 13
  const REOP_MATCH := 14
  const REOP_SAVE_START := 15
  const REOP_SAVE_END := 16
  const REOP_SAVE_RESET := 17
  const REOP_LOOP := 18
  const REOP_PUSH_I32 := 19
  const REOP_DROP := 20
  const REOP_WORD_BOUNDARY := 21
  const REOP_WORD_BOUNDARY_I := 22
  const REOP_NOT_WORD_BOUNDARY := 23
  const REOP_NOT_WORD_BOUNDARY_I := 24
  const REOP_RANGE := 29
  const REOP_RANGE_I := 30
  const REOP_RANGE32 := 31
  const REOP_RANGE32_I := 32
  const REOP_LOOKAHEAD := 33
  const REOP_NEGATIVE_LOOKAHEAD := 34
  const REOP_PUSH_CHAR_POS := 35
  const REOP_CHECK_ADVANCE := 36
  const REOP_PREV := 37
  const REOP_SIMPLE_GREEDY_QUANT := 38

  function Opcode(i: Instr): (op: Byte)
    ensures 1 <= op <= REOP_SIMPLE_GREEDY_QUANT
  {
    match i
    case Char(_, icase) => if icase then REOP_CHAR_I else REOP_CHAR
    case Char32(_, icase) => if icase then REOP_CHAR32_I else REOP_CHAR32
    case Dot => REOP_DOT
    case AnyChar => REOP_ANY
    case LineStart(multi) => if multi then REOP_LINE_START_M else REOP_LINE_START
    case LineEnd(multi) => if multi then REOP_LINE_END_M else REOP_LINE_END
    case Goto(_) => REOP_GOTO
    case Split(gotoFirst, _) => if gotoFirst then REOP_SPLIT_GOTO_FIRST else REOP_SPLIT_NEXT_FIRST
    case Match => REOP_MATCH
    case SaveStart(_) => REOP_SAVE_START
    case SaveEnd(_) => REOP_SAVE_END
    case SaveReset(_, _) => REOP_SAVE_RESET
    case Loop(_) => REOP_LOOP
    case PushI32(_) => REOP_PUSH_I32
    case Drop => REOP_DROP
    case WordBoundary(neg, icase) =>
      if neg then (if icase then REOP_NOT_WORD_BOUNDARY_I else REOP_NOT_WORD_BOUNDARY)
      else (if icase then REOP_WORD_BOUNDARY_I else REOP_WORD_BOUNDARY)
    case Range(icase, _) => if icase then REOP_RANGE_I else REOP_RANGE
    case Range32(icase, _) => if icase then REOP_RANGE32_I else REOP_RANGE32
    case Look(neg, _) => if neg then REOP_NEGATIVE_LOOKAHEAD else REOP_LOOKAHEAD
    case PushCharPos => REOP_PUSH_CHAR_POS
    case CheckAdvance => REOP_CHECK_ADVANCE
    case Prev => REOP_PREV
    case SimpleGreedyQuant(_, _, _, _) => REOP_SIMPLE_GREEDY_QUANT
  }

  function EncodeTable16(t: seq<Interval>): (b: seq<Byte>)
    ensures |b| == 4 * |t|
  {
    if t == [] then [] else PutU16(t[0].0) + PutU16(t[0].1) + EncodeTable16(t[1..])
  }

  function EncodeTable32(t: seq<Interval>): (b: seq<Byte>)
    ensures |b| == 8 * |t|
  {
    if t == [] then [] else PutU32(t[0].0) + PutU32(t[0].1) + EncodeTable32(t[1..])
  }

  function EncodeOperands(i: Instr): (b: seq<Byte>)
    ensures |b| == Size(i) - 1
  {
    match i
    case Char(c, _) => PutU16(c)
    case Char32(c, _) => PutU32(c)
    case Goto(off) => PutU32(off)
    case Split(_, off) => PutU32(off)
    case SaveStart(g) => [g % 0x100]
    case SaveEnd(g) => [g % 0x100]
    case SaveReset(g, h) => [g % 0x100, h % 0x100]
    case Loop(off) => PutU32(off)
    case PushI32(v) => PutU32(v)
    case Range(_, t) => PutU16(|t|) + EncodeTable16(t)
    case Range32(_, t) => PutU16(|t|) + EncodeTable32(t)
    case Look(_, off) => PutU32(off)
    case SimpleGreedyQuant(off, min, max, count) =>
      PutU32(off) + PutU32(min) + PutU32(max) + PutU32(count)
    case _ => []
  }

  function Encode(i: Instr): (b: seq<Byte>)
    ensures |b| == Size(i)
  {
    [Opcode(i)] + EncodeOperands(i)
  }

  function DecodeTable16(code: seq<Byte>, pos: nat, n: nat): (t: seq<Interval>)
    requires pos + 4 * n <= |code|
    ensures |t| == n
    decreases n
  {
    if n == 0 then [] else [(GetU16(code, pos), GetU16(code, pos + 2))] + DecodeTable16(code, pos + 4, n - 1)
  }

  function DecodeTable32(code: seq<Byte>, pos: nat, n: nat): (t: seq<Interval>)
    requires pos + 8 * n <= |code|
    ensures |t| == n
    decreases n
  {
    if n == 0 then [] else [(GetU32(code, pos), GetU32(code, pos + 4))] + DecodeTable32(code, pos + 8, n - 1)
  }

  // The size field of an opcode that has no interval table; 0 for an opcode outside the model.
  function FixedSize(op: Byte): (n: nat)
  {
    if op == REOP_CHAR || op == REOP_CHAR_I || op == REOP_SAVE_RESET
       || REOP_RANGE <= op <= REOP_RANGE32_I then 3
    else if op == REOP_CHAR32 || op == REOP_CHAR32_I || REOP_GOTO <= op <= REOP_SPLIT_NEXT_FIRST
            || op == REOP_LOOP || op == REOP_PUSH_I32 || op == REOP_LOOKAHEAD || op == REOP_NEGATIVE_LOOKAHEAD then 5
    else if op == REOP_SAVE_START || op == REOP_SAVE_END then 2
    else if op == REOP_SIMPLE_GREEDY_QUANT then 17
    else if 1 <= op <= REOP_NOT_WORD_BOUNDARY_I || REOP_PUSH_CHAR_POS <= op <= REOP_PREV then 1
    else 0
  }

  // What the machine reads at "pc": the instruction, or None where the C code would
  // read past the end or abort.
  function Fetch(code: seq<Byte>, pc: int): (r: Option<Instr>)
  {
    if !(0 <= pc < |code|) then None
    else
      var op := code[pc];
      if FixedSize(op) == 0 || pc + FixedSize(op) > |code| then None
      else if op == REOP_CHAR || op == REOP_CHAR_I then Some(Char(GetU16(code, pc + 1), op == REOP_CHAR_I))
      else if op == REOP_CHAR32 || op == REOP_CHAR32_I then Some(Char32(GetU32(code, pc + 1), op == REOP_CHAR32_I))
      else if op == REOP_DOT then Some(Dot)
      else if op == REOP_ANY then Some(AnyChar)
      else if op == REOP_LINE_START || op == REOP_LINE_START_M then Some(LineStart(op == REOP_LINE_START_M))
      else if op == REOP_LINE_END || op == REOP_LINE_END_M then Some(LineEnd(op == REOP_LINE_END_M))
      else if op == REOP_GOTO then Some(Goto(ToSigned(GetU32(code, pc + 1))))
      else if op == REOP_SPLIT_GOTO_FIRST || op == REOP_SPLIT_NEXT_FIRST then
        Some(Split(op == REOP_SPLIT_GOTO_FIRST, ToSigned(GetU32(code, pc + 1))))
      else if op == REOP_MATCH then Some(Match)
      else if op == REOP_SAVE_START then Some(SaveStart(code[pc + 1]))
      else if op == REOP_SAVE_END then Some(SaveEnd(code[pc + 1]))
      else if op == REOP_SAVE_RESET then Some(SaveReset(code[pc + 1], code[pc + 2]))
      else if op == REOP_LOOP then Some(Loop(ToSigned(GetU32(code, pc + 1))))
      else if op == REOP_PUSH_I32 then Some(PushI32(GetU32(code, pc + 1)))
      else if op == REOP_DROP then Some(Drop)
      else if op == REOP_WORD_BOUNDARY || op == REOP_WORD_BOUNDARY_I then
        Some(WordBoundary(false, op == REOP_WORD_BOUNDARY_I))
      else if op == REOP_NOT_WORD_BOUNDARY || op == REOP_NOT_WORD_BOUNDARY_I then
        Some(WordBoundary(true, op == REOP_NOT_WORD_BOUNDARY_I))
      else if op == REOP_RANGE || op == REOP_RANGE_I then
        var n := GetU16(code, pc + 1);
        if pc + 3 + 4 * n > |code| then None else Some(Range(op == REOP_RANGE_I, DecodeTable16(code, pc + 3, n)))
      else if op == REOP_RANGE32 || op == REOP_RANGE32_I then
        var n := GetU16(code, pc + 1);
        if pc + 3 + 8 * n > |code| then None else Some(Range32(op == REOP_RANGE32_I, DecodeTable32(code, pc + 3, n)))
      else if op == REOP_LOOKAHEAD || op == REOP_NEGATIVE_LOOKAHEAD then
        Some(Look(op == REOP_NEGATIVE_LOOKAHEAD, ToSigned(GetU32(code, pc + 1))))
      else if op == REOP_PUSH_CHAR_POS then Some(PushCharPos)
      else if op == REOP_CHECK_ADVANCE then Some(CheckAdvance)
      else if op == REOP_PREV then Some(Prev)
      else
        Some(SimpleGreedyQuant(ToSigned(GetU32(code, pc + 1)), GetU32(code, pc + 5),
                               GetU32(code, pc + 9), GetU32(code, pc + 13)))
  }

  lemma {:induction false} DecodeEncodeTable16(code: seq<Byte>, pos: nat, t: seq<Interval>)
    requires forall k :: 0 <= k < |t| ==> 0 <= t[k].0 < U16_LIMIT && 0 <= t[k].1 < U16_LIMIT
    requires At(code, pos, EncodeTable16(t))
    ensures DecodeTable16(code, pos, |t|) == t
    decreases |t|
  {
    if t != [] {
      AtConcat(code, pos, PutU16(t[0].0) + PutU16(t[0].1), EncodeTable16(t[1..]));
      AtConcat(code, pos, PutU16(t[0].0), PutU16(t[0].1));
      GetPutU16(code, pos, t[0].0);
      GetPutU16(code, pos + 2, t[0].1);
      DecodeEncodeTable16(code, pos + 4, t[1..]);
    }
  }

  lemma {:induction false} DecodeEncodeTable32(code: seq<Byte>, pos: nat, t: seq<Interval>)
    requires forall k :: 0 <= k < |t| ==> 0 <= t[k].0 < U32_LIMIT && 0 <= t[k].1 < U32_LIMIT
    requires At(code, pos, EncodeTable32(t))
    ensures DecodeTable32(code, pos, |t|) == t
    decreases |t|
  {
    if t != [] {
      AtConcat(code, pos, PutU32(t[0].0) + PutU32(t[0].1), EncodeTable32(t[1..]));
      AtConcat(code, pos, PutU32(t[0].0), PutU32(t[0].1));
      GetPutU32(code, pos, t[0].0);
      GetPutU32(code, pos + 4, t[0].1);
      DecodeEncodeTable32(code, pos + 8, t[1..]);
    }
  }

  lemma {:induction false} FetchRange(code: seq<Byte>, pc: int, icase: bool, t: seq<Interval>)
    requires ValidInstr(Range(icase, t)) && At(code, pc, Encode(Range(icase, t)))
    ensures Fetch(code, pc) == Some(Range(icase, t))
  {
    var i := Range(icase, t);
    AtConcat(code, pc, [Opcode(i)], EncodeOperands(i));
    assert code[pc] == code[pc..pc + 1][0] == Opcode(i);
    AtConcat(code, pc + 1, PutU16(|t|), EncodeTable16(t));
    GetPutU16(code, pc + 1, |t|);
    DecodeEncodeTable16(code, pc + 3, t);
  }

  lemma {:induction false} FetchRange32(code: seq<Byte>, pc: int, icase: bool, t: seq<Interval>)
    requires ValidInstr(Range32(icase, t)) && At(code, pc, Encode(Range32(icase, t)))
    ensures Fetch(code, pc) == Some(Range32(icase, t))
  {
    var i := Range32(icase, t);
    AtConcat(code, pc, [Opcode(i)], EncodeOperands(i));
    assert code[pc] == code[pc..pc + 1][0] == Opcode(i);
    AtConcat(code, pc + 1, PutU16(|t|), EncodeTable32(t));
    GetPutU16(code, pc + 1, |t|);
    DecodeEncodeTable32(code, pc + 3, t);
  }

  lemma {:induction false} FourWords(code: seq<Byte>, pos: int, a: int, b: int, c: int, d: int)
    requires At(code, pos, PutU32(a) + PutU32(b) + PutU32(c) + PutU32(d))
    ensures At(code, pos, PutU32(a)) && At(code, pos + 4, PutU32(b))
    ensures At(code, pos + 8, PutU32(c)) && At(code, pos + 12, PutU32(d))
  {
    AtConcat(code, pos, PutU32(a) + PutU32(b) + PutU32(c), PutU32(d));
    AtConcat(code, pos, PutU32(a) + PutU32(b), PutU32(c));
    AtConcat(code, pos, PutU32(a), PutU32(b));
  }

  lemma {:induction false} FetchQuant(code: seq<Byte>, pc: int, off: int, min: int, max: int, count: int)
    requires ValidInstr(SimpleGreedyQuant(off, min, max, count))
    requires At(code, pc, Encode(SimpleGreedyQuant(off, min, max, count)))
    ensures Fetch(code, pc) == Some(SimpleGreedyQuant(off, min, max, count))
  {
    var i := SimpleGreedyQuant(off, min, max, count);
    AtConcat(code, pc, [Opcode(i)], EncodeOperands(i));
    assert code[pc] == code[pc..pc + 1][0] == Opcode(i);
    FourWords(code, pc + 1, off, min, max, count);
    GetPutU32(code, pc + 1, off);
    GetPutU32(code, pc + 5, min);
    GetPutU32(code, pc + 9, max);
    GetPutU32(code, pc + 13, count);
  }

  // Encoding and fetching are inverse: an instruction placed at "pc" is read back there.
  lemma {:induction false} FetchEncode(code: seq<Byte>, pc: int, i: Instr)
    requires ValidInstr(i) && At(code, pc, Encode(i))
    ensures Fetch(code, pc) == Some(i)
  {
    if i.Char? || i.Char32? || i.Goto? || i.Split? || i.Loop? || i.PushI32? || i.Look? {
      FetchNumber(code, pc, i);
    } else {
      AtConcat(code, pc, [Opcode(i)], EncodeOperands(i));
      assert code[pc] == code[pc..pc + 1][0] == Opcode(i);
      match i
      case SaveStart(g) => assert code[pc + 1] == code[pc + 1..pc + 2][0] == g;
      case SaveEnd(g) => assert code[pc + 1] == code[pc + 1..pc + 2][0] == g;
      case SaveReset(g, h) => FetchGroups(code, pc, g, h);
      case Range(icase, t) => FetchRange(code, pc, icase, t);
      case Range32(icase, t) => FetchRange32(code, pc, icase, t);
      case SimpleGreedyQuant(off, min, max, count) => FetchQuant(code, pc, off, min, max, count);
      case _ =>
    }
  }

  lemma {:induction false} FetchGroups(code: seq<Byte>, pc: int, g: int, h: int)
    requires 0 <= g < 256 && 0 <= h < 256 && At(code, pc + 1, [g, h])
    ensures code[pc + 1] == g && code[pc + 2] == h
  {
    var operands := code[pc + 1..pc + 3];
    assert operands[0] == g && operands[1] == h;
  }

  // The instructions with one number.
  lemma {:induction false} FetchNumber(code: seq<Byte>, pc: int, i: Instr)
    requires ValidInstr(i) && At(code, pc, Encode(i))
    requires i.Char? || i.Char32? || i.Goto? || i.Split? || i.Loop? || i.PushI32? || i.Look?
    ensures Fetch(code, pc) == Some(i)
  {
    AtConcat(code, pc, [Opcode(i)], EncodeOperands(i));
    assert code[pc] == code[pc..pc + 1][0] == Opcode(i);
    match i
    case Char(c, _) => GetPutU16(code, pc + 1, c);
    case Char32(c, _) => GetPutU32(code, pc + 1, c);
    case Goto(off) => GetPutU32(code, pc + 1, off);
    case Split(_, off) => GetPutU32(code, pc + 1, off);
    case Loop(off) => GetPutU32(code, pc + 1, off);
    case PushI32(v) => GetPutU32(code, pc + 1, v);
    case Look(_, off) => GetPutU32(code, pc + 1, off);
  }
}
