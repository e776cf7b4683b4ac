/**
 The byte-code disassembler of src/cmd/listing.c. The opcode table is a parameter: any list of rows, each with a
 stack effect and the operand kinds that stand before its EBC_NONE.

 Memory is a sequence of bytes that starts with the function's code; reading beyond it is an `Overrun`. Text layout
 is left out: a line is the data that the listing shows for one instruction.
 */
module Listing {
  import opened Codec

  datatype Kind =
    | KByte | KDouble | KNum | KString | KGlobal | KSlot | KJmp | KJmp8 | KInitDefault | KInitDefault8
    | KArgc | KArgc2 | KArgc3 | KNewArray | KNewObject | KUnknown

  datatype Row = Row(name: string, effect: int, args: seq<Kind>)

  const POPN := 101
  const OP_RETURN := 193
  const OP_RETURN_VALUE := 194

  /** A global reference. The last three are the decoder's early exits. */
  datatype Global =
    | NoRef | SlotRef(slot: nat) | NameRef(name: nat, space: int)
    | CannotRead | Reserved | MissingName

  /** An operand as read. `Object` keeps the attributes that the listing reads and drops. */
  datatype Operand =
    | Int(v: int) | Str(token: int) | Double(bytes: seq<byte>) | Table(entries: seq<int>)
    | Object(argc: int, attrs: seq<int>) | Ref(g: Global) | Nothing

  datatype Instr = Instr(opcode: byte, ops: seq<Operand>)

  /** One line of the listing: the address and stack depth printed first, the operands, the branch addresses. */
  datatype Line = Line(address: nat, depth: int, opcode: byte, ops: seq<Operand>, targets: seq<int>)

  datatype End = Finished(pc: nat) | BadOpcode(address: nat) | Exited(pc: nat) | Fault

  datatype Output = Output(lines: seq<Line>, end: End)

  // ---- What one operand is, as a function of memory ----

  datatype Elem = ENum | EByte | EInt32

  function ReadByte(mem: seq<byte>, pc: nat): Read<int> {
    if pc < |mem| then Got(mem[pc], pc + 1) else Overrun
  }

  function ReadInt(mem: seq<byte>, pc: nat): Read<int> {
    var (v, next) :- DecodeNum(mem, pc);
    Got(ToInt32(v), next)
  }

  function ReadElem(mem: seq<byte>, pc: nat, e: Elem): Read<int> {
    match e
    case ENum => DecodeNum(mem, pc)
    case EByte => ReadByte(mem, pc)
    case EInt32 => DecodeInt32(mem, pc)
  }

  function ElemReaders(mem: seq<byte>, n: int, e: Elem): (rs: seq<Reader<int>>)
    ensures Forward(rs) && |rs| == if n < 0 then 0 else n
  {
    if n < 0 then [] else seq(n, _ => (p: nat) => ReadElem(mem, p, e))
  }

  /** A counted list; a negative count is none. */
  function ReadMany(mem: seq<byte>, pc: nat, n: int, e: Elem): (r: Read<seq<int>>)
    ensures r.Got? ==> r.next >= pc
  {
    ReadSeq(ElemReaders(mem, n, e), pc)
  }

  function ReadGlobal(mem: seq<byte>, pc: nat, consts: nat): Read<Global> {
    var (t, p) :- ReadInt(mem, pc);
    GlobalFrom(mem, p, t, consts)
  }

  /** The switch on the two low bits of an encoded reference `t`. */
  function GlobalFrom(mem: seq<byte>, p: nat, t: int, consts: nat): Read<Global> {
    if t < 0 then Got(CannotRead, p)
    else if t % 4 == 0 then Got(NoRef, p)
    else if t % 4 == 2 then Got(SlotRef(t / 4), p)
    else if t % 4 == 3 then Got(Reserved, p)
    else if t / 4 >= consts then Got(MissingName, p)
    else
      var (space, next) :- ReadInt(mem, p);
      Got(NameRef(t / 4, space), next)
  }

  /** A default-argument table: a count byte and that many branch offsets. */
  function ReadTable(mem: seq<byte>, pc: nat, e: Elem): (r: Read<Operand>)
    ensures r.Got? ==> r.next >= pc
  {
    var (n, p) :- ReadByte(mem, pc);
    var (es, next) :- ReadMany(mem, p, n, e);
    Got(Table(es), next)
  }

  /** An object literal: a count and that many attributes. */
  function ReadObject(mem: seq<byte>, pc: nat): (r: Read<Operand>)
    ensures r.Got? ==> r.next >= pc
  {
    var (n, p) :- ReadInt(mem, pc);
    var (es, next) :- ReadMany(mem, p, n, ENum);
    Got(Object(n, es), next)
  }

  function ReadOperand(mem: seq<byte>, pc: nat, k: Kind, consts: nat): (r: Read<Operand>)
    ensures r.Got? ==> r.next >= pc
  {
    match k
    case KByte | KJmp8 =>
      var (v, next) :- ReadByte(mem, pc);
      Got(Int(v), next)
    case KNum | KSlot | KArgc | KArgc2 | KArgc3 | KNewArray =>
      var (v, next) :- ReadInt(mem, pc);
      Got(Int(v), next)
    case KJmp =>
      var (v, next) :- DecodeInt32(mem, pc);
      Got(Int(v), next)
    case KString =>
      var (v, next) :- ReadInt(mem, pc);
      Got(Str(v), next)
    case KDouble =>
      if pc + 8 <= |mem| then Got(Double(mem[pc..pc + 8]), pc + 8) else Overrun
    case KInitDefault8 => ReadTable(mem, pc, EByte)
    case KInitDefault => ReadTable(mem, pc, EInt32)
    case KNewObject => ReadObject(mem, pc)
    case KGlobal =>
      var (g, next) :- ReadGlobal(mem, pc, consts);
      Got(Ref(g), next)
    case KUnknown => Got(Nothing, pc)
  }

  function OperandReaders(mem: seq<byte>, ks: seq<Kind>, consts: nat): (rs: seq<Reader<Operand>>)
    ensures Forward(rs) && |rs| == |ks|
  {
    seq(|ks|, i requires 0 <= i < |ks| => (p: nat) => ReadOperand(mem, p, ks[i], consts))
  }

  function ReadOperands(mem: seq<byte>, pc: nat, ks: seq<Kind>, consts: nat): (r: Read<seq<Operand>>)
    ensures r.Got? ==> |r.value| == |ks| && r.next >= pc
  {
    ReadSeq(OperandReaders(mem, ks, consts), pc)
  }

  // ---- Stack effect and branch targets of a decoded instruction ----

  function Weight(k: Kind): nat {
    match k
    case KArgc => 1
    case KArgc2 | KNewArray => 2
    case KArgc3 | KNewObject => 3
    case _ => 0
  }

  /** The integer that a first operand leaves in the decoder's `ival`, which starts at zero. */
  function Ival(op: Operand): int {
    match op
    case Int(v) => v
    case Object(argc, _) => argc
    case Table(es) => if es == [] then 0 else es[|es| - 1]
    case _ => 0
  }

  function Popped(ks: seq<Kind>, ops: seq<Operand>): int
    requires |ks| == |ops|
  {
    if ks == [] then 0 else Weight(ks[0]) * Ival(ops[0]) + Popped(ks[1..], ops[1..])
  }

  /** The stack change of an instruction: the table's effect less the weighted argument counts; for POPN, the first
      operand is popped instead of both. */
  function Effect(row: Row, ops: seq<Operand>): int
    requires |row.args| == |ops|
  {
    if row.effect == POPN && ops != [] then -Ival(ops[0]) - Popped(row.args[1..], ops[1..])
    else row.effect - Popped(row.args, ops)
  }

  /** A byte read through C's (signed) `char`. */
  function SignedByte(v: int): int {
    if v % 256 < 128 then v % 256 else v % 256 - 256
  }

  function Target(k: Kind, op: Operand, address: nat): seq<int> {
    if k == KJmp8 && op.Int? then [SignedByte(op.v) + address + 1]
    else if k == KJmp && op.Int? then [op.v + address + 4]
    else []
  }

  /** The branch addresses that are printed; `address` is where the operands start. */
  function Targets(ks: seq<Kind>, ops: seq<Operand>, address: nat): seq<int>
    requires |ks| == |ops|
  {
    if ks == [] then [] else Target(ks[0], ops[0], address) + Targets(ks[1..], ops[1..], address)
  }

  predicate IsReturn(opcode: byte) { opcode == OP_RETURN || opcode == OP_RETURN_VALUE }

  function DepthAfter(depth: int, opcode: byte, effect: int): int {
    if IsReturn(opcode) then 0 else depth + effect
  }

  /** What listing one instruction does: go on with a line shown, or stop. */
  datatype Step = Next(line: Line, pc: nat, depth: int) | Stop(lines: seq<Line>, end: End)

  function StepAt(table: seq<Row>, mem: seq<byte>, consts: nat, exitOnError: bool, pc: nat, depth: int): (s: Step)
    ensures s.Next? ==> s.pc > pc
  {
    if pc >= |mem| then Stop([], Fault)
    else if mem[pc] >= |table| then Stop([], BadOpcode(pc))
    else
      var row := table[mem[pc]];
      var r := ReadOperands(mem, pc + 1, row.args, consts);
      if !r.Got? then Stop([], Fault)
      else
        var line := Line(pc, depth, mem[pc], r.value, Targets(row.args, r.value, pc + 1));
        var after := DepthAfter(depth, mem[pc], Effect(row, r.value));
        if after < 0 && exitOnError then Stop([line], Exited(r.next)) else Next(line, r.next, after)
  }

  /** The whole listing from `pc`, for code of length `codeLen`. */
  function Disassemble(table: seq<Row>, mem: seq<byte>, consts: nat, codeLen: nat, exitOnError: bool, pc: nat,
                       depth: int): Output
    decreases codeLen - pc
  {
    if pc >= codeLen then Output([], Finished(pc))
    else
      match StepAt(table, mem, consts, exitOnError, pc, depth)
      case Stop(lines, end) => Output(lines, end)
      case Next(line, next, after) =>
        Preceded([line], Disassemble(table, mem, consts, codeLen, exitOnError, next, after))
  }

  function Preceded(lines: seq<Line>, out: Output): Output { Output(lines + out.lines, out.end) }

  // ---- The decoder as it runs ----

  datatype Decoded = Decoded(ops: seq<Operand>, effect: int, targets: seq<int>)

  /** The part of the listing state that moves: the program counter. Every getter advances it past what it read
      and leaves it alone when the read fails. */
  class EjsMod {
    const mem: seq<byte>
    const consts: nat
    var pc: nat

    constructor (mem: seq<byte>, consts: nat)
      ensures this.mem == mem && this.consts == consts && pc == 0
    {
      this.mem, this.consts, pc := mem, consts, 0;
    }

    method GetByte() returns (r: Read<int>)
      modifies this`pc
      ensures r == ReadByte(mem, old(pc)) && pc == if r.Got? then r.next else old(pc)
    {
      if pc >= |mem| {
        return Overrun;
      }
      r := Got(mem[pc], pc + 1);
      pc := pc + 1;
    }

    /** `ejsDecodeNum`: the loop that gathers seven bits at a time. */
    method GetNum() returns (r: Read<int>)
      modifies this`pc
      ensures r == DecodeNum(mem, old(pc)) && pc == if r.Got? then r.next else old(pc)
    {
      if pc >= |mem| {
        return Overrun;
      }
      var first := mem[pc];
      var pos, t, w := pc + 1, first / 2 % 64, 64;
      var c: byte := first;
      while c >= 128
        invariant pc < pos && 0 <= t && w >= 64
        invariant DecodeTail(mem, pos, t, w, c) == DecodeTail(mem, pc + 1, first / 2 % 64, 64, first)
        decreases |mem| - pos, c
      {
        if pos >= |mem| {
          return Overrun;
        }
        if w >= WORD {
          return Undefined;
        }
        c := mem[pos];
        t := t + c % 128 * w % WORD;
        pos, w := pos + 1, w * 128;
      }
      pc := pos;
      r := Got(if first % 2 == 1 then -t else t, pos);
    }

    method GetInt() returns (r: Read<int>)
      modifies this`pc
      ensures r == ReadInt(mem, old(pc)) && pc == if r.Got? then r.next else old(pc)
    {
      var n := GetNum();
      match n
      case Got(v, next) => r := Got(ToInt32(v), next);
      case Overrun => r := Overrun;
      case Undefined => r := Undefined;
    }

    method GetInt32() returns (r: Read<int>)
      modifies this`pc
      ensures r == DecodeInt32(mem, old(pc)) && pc == if r.Got? then r.next else old(pc)
    {
      var start := pc;
      var n := GetNum();
      match n
      case Got(v, _) => pc := start + 4; r := Got(ToInt32(v), pc);
      case Overrun => r := Overrun;
      case Undefined => r := Undefined;
    }

    method GetElem(e: Elem) returns (r: Read<int>)
      modifies this`pc
      ensures r == ReadElem(mem, old(pc), e) && pc == if r.Got? then r.next else old(pc)
    {
      match e
      case ENum => r := GetNum();
      case EByte => r := GetByte();
      case EInt32 => r := GetInt32();
    }

    /** The inner loops over jump tables and object attributes. */
    method GetMany(n: int, e: Elem) returns (r: Read<seq<int>>)
      modifies this`pc
      ensures r == ReadMany(mem, old(pc), n, e)
      ensures r.Got? ==> pc == r.next
    {
      var es, j := [], 0;
      ghost var rs := ElemReaders(mem, n, e);
      assert rs[0..] == rs;
      PrefixedLaws(es, 0, ReadSeq(rs, pc));
      while j < n
        invariant 0 <= j <= |rs|
        invariant ReadMany(mem, old(pc), n, e) == Prefixed(es, ReadSeq(rs[j..], pc))
      {
        assert rs[j..][1..] == rs[j + 1..];
        var v := GetElem(e);
        if v.Overrun? {
          return Overrun;
        }
        if v.Undefined? {
          return Undefined;
        }
        PrefixedLaws(es, v.value, ReadSeq(rs[j + 1..], pc));
        es := es + [v.value];
        j := j + 1;
      }
      assert es + [] == es;
      r := Got(es, pc);
    }

    method GetGlobal() returns (r: Read<Global>)
      modifies this`pc
      ensures r == ReadGlobal(mem, old(pc), consts)
      ensures r.Got? ==> pc == r.next
    {
      var n := GetInt();
      if n.Overrun? {
        return Overrun;
      }
      if n.Undefined? {
        return Undefined;
      }
      var t := n.value;
      if t < 0 {
        return Got(CannotRead, pc);
      }
      if t % 4 == 0 {
        return Got(NoRef, pc);
      }
      if t % 4 == 2 {
        return Got(SlotRef(t / 4), pc);
      }
      if t % 4 == 3 {
        return Got(Reserved, pc);
      }
      if t / 4 >= consts {
        return Got(MissingName, pc);
      }
      var space := GetInt();
      match space
      case Got(s, _) => r := Got(NameRef(t / 4, s), pc);
      case Overrun => r := Overrun;
      case Undefined => r := Undefined;
    }

    /** The operand switch: the operand, and the value that `ival` then holds. */
    method GetOperand(k: Kind, was: int) returns (r: Read<Operand>, ival: int)
      modifies this`pc
      ensures r == ReadOperand(mem, old(pc), k, consts)
      ensures r.Got? ==> pc == r.next
      ensures r.Got? && (Weight(k) > 0 || was == 0) ==> ival == Ival(r.value)
    {
      ival := was;
      match k
      case KByte | KJmp8 =>
        var v := GetByte();
        r, ival := Lift(v, x => Int(x)), if v.Got? then v.value else was;
      case KNum | KSlot | KArgc | KArgc2 | KArgc3 | KNewArray =>
        var v := GetInt();
        r, ival := Lift(v, x => Int(x)), if v.Got? then v.value else was;
      case KJmp =>
        var v := GetInt32();
        r, ival := Lift(v, x => Int(x)), if v.Got? then v.value else was;
      case KString =>
        var v := GetInt();
        r := Lift(v, x => Str(x));
      case KDouble =>
        if pc + 8 <= |mem| {
          r := Got(Double(mem[pc..pc + 8]), pc + 8);
          pc := pc + 8;
        } else {
          r := Overrun;
        }
      case KInitDefault8 =>
        r, ival := GetTable(EByte, was);
      case KInitDefault =>
        r, ival := GetTable(EInt32, was);
      case KNewObject =>
        r, ival := GetObject();
      case KGlobal =>
        var g := GetGlobal();
        r := Lift(g, x => Ref(x));
      case KUnknown =>
        r := Got(Nothing, pc);
    }

    method GetTable(e: Elem, was: int) returns (r: Read<Operand>, ival: int)
      modifies this`pc
      ensures r == ReadTable(mem, old(pc), e)
      ensures r.Got? ==> pc == r.next
      ensures r.Got? && was == 0 ==> ival == Ival(r.value)
    {
      ival := was;
      var n := GetByte();
      if !n.Got? {
        r := n.PropagateFailure();
      } else {
        var es := GetMany(n.value, e);
        r := Lift(es, x => Table(x));
        if es.Got? && es.value != [] {
          ival := es.value[|es.value| - 1];
        }
      }
    }

    method GetObject() returns (r: Read<Operand>, ival: int)
      modifies this`pc
      ensures r == ReadObject(mem, old(pc))
      ensures r.Got? ==> pc == r.next && ival == Ival(r.value)
    {
      ival := 0;
      var n := GetInt();
      if n.Got? {
        var es := GetMany(n.value, ENum);
        r, ival := Lift(es, x => Object(n.value, x)), n.value;
      } else {
        r := n.PropagateFailure();
      }
    }

    /** The operand loop, with the stack effect corrected as each count is read. */
    method DecodeOperands(opt: Row, address: nat) returns (r: Read<Decoded>)
      modifies this`pc
      ensures r == Decode(opt, mem, old(pc), address, consts)
      ensures r.Got? ==> pc == r.next
    {
      var effect, ops, targets, ival := opt.effect, [], [], 0;
      var i := 0;
      ghost var rs := OperandReaders(mem, opt.args, consts);
      assert rs[0..] == rs;
      PrefixedLaws(ops, Nothing, ReadSeq(rs, pc));
      while i < |opt.args|
        invariant i == 0 ==> ival == 0
        invariant DecodedSoFar(opt, i, address, Decoded(ops, effect, targets))
        invariant ReadOperands(mem, old(pc), opt.args, consts) == Prefixed(ops, ReadSeq(rs[i..], pc))
      {
        var k := opt.args[i];
        var op;
        op, ival := GetOperand(k, ival);
        assert rs[i..][1..] == rs[i + 1..];
        if !op.Got? {
          return op.PropagateFailure();
        }
        PrefixedLaws(ops, op.value, ReadSeq(rs[i + 1..], pc));
        NextOperand(opt, i, address, Decoded(ops, effect, targets), op.value);
        ops := ops + [op.value];
        targets := targets + Target(k, op.value, address);
        effect := effect - Weight(k) * (if Weight(k) > 0 then ival else 0);
        if i == 0 && opt.effect == POPN {
          effect := -ival;
        }
        i := i + 1;
      }
      AllDecoded(opt, i, address, Decoded(ops, effect, targets));
      assert ops + [] == ops;
      r := Got(Decoded(ops, effect, targets), pc);
    }

    /** One turn of the instruction loop. */
    method ListOne(table: seq<Row>, exitOnError: bool, depth: int) returns (s: Step)
      modifies this`pc
      ensures s == StepAt(table, mem, consts, exitOnError, old(pc), depth)
      ensures s.Next? ==> pc == s.pc
    {
      var address := pc;
      var opcode := GetByte();
      if !opcode.Got? {
        return Stop([], Fault);
      }
      if opcode.value >= |table| {
        return Stop([], BadOpcode(address));
      }
      var opt := table[opcode.value];
      var d := DecodeOperands(opt, pc);
      if !d.Got? {
        return Stop([], Fault);
      }
      var line := Line(address, depth, opcode.value, d.value.ops, d.value.targets);
      var stack := depth + d.value.effect;
      if IsReturn(opcode.value) {
        stack := 0;
      }
      if stack < 0 && exitOnError {
        return Stop([line], Exited(pc));
      }
      s := Next(line, pc, stack);
    }

    /** The instruction loop. */
    method Interp(table: seq<Row>, codeLen: nat, exitOnError: bool) returns (out: Output)
      modifies this`pc
      ensures out == Disassemble(table, mem, consts, codeLen, exitOnError, 0, 0)
    {
      pc := 0;
      var stack, lines: seq<Line> := 0, [];
      ghost var whole := Disassemble(table, mem, consts, codeLen, exitOnError, 0, 0);
      assert whole == Preceded([], whole);
      while pc < codeLen
        invariant whole == Preceded(lines, Disassemble(table, mem, consts, codeLen, exitOnError, pc, stack))
        decreases codeLen - pc
      {
        Unroll(table, mem, consts, codeLen, exitOnError, pc, stack, lines);
        var s := ListOne(table, exitOnError, stack);
        match s
        case Stop(last, end) =>
          return Output(lines + last, end);
        case Next(line, next, after) =>
          lines, stack := lines + [line], after;
      }
      out := Output(lines, Finished(pc));
    }
  }

  lemma Unroll(table: seq<Row>, mem: seq<byte>, consts: nat, codeLen: nat, exitOnError: bool, pc: nat, depth: int,
               lines: seq<Line>)
    requires pc < codeLen
    ensures var s := StepAt(table, mem, consts, exitOnError, pc, depth);
            Preceded(lines, Disassemble(table, mem, consts, codeLen, exitOnError, pc, depth)) ==
            if s.Stop? then Output(lines + s.lines, s.end)
            else Preceded(lines + [s.line],
                          Disassemble(table, mem, consts, codeLen, exitOnError, s.pc, s.depth))
  {
    var s := StepAt(table, mem, consts, exitOnError, pc, depth);
    if s.Next? {
      var rest := Disassemble(table, mem, consts, codeLen, exitOnError, s.pc, s.depth);
      assert lines + ([s.line] + rest.lines) == lines + [s.line] + rest.lines;
    }
  }

  function Lift<A, B>(r: Read<A>, f: A -> B): Read<B> {
    match r
    case Got(v, next) => Got(f(v), next)
    case Overrun => Overrun
    case Undefined => Undefined
  }

  function Prefixed<A>(done: seq<A>, r: Read<seq<A>>): Read<seq<A>> {
    match r
    case Got(rest, next) => Got(done + rest, next)
    case Overrun => Overrun
    case Undefined => Undefined
  }

  lemma PrefixedLaws<A>(done: seq<A>, x: A, r: Read<seq<A>>)
    ensures Prefixed([], r) == r
    ensures Prefixed(done + [x], r) == Prefixed(done, Prefixed([x], r))
  {
    if r.Got? {
      assert [] + r.value == r.value;
      assert done + [x] + r.value == done + ([x] + r.value);
    }
  }

  function Decode(opt: Row, mem: seq<byte>, pc: nat, address: nat, consts: nat): Read<Decoded> {
    var (ops, next) :- ReadOperands(mem, pc, opt.args, consts);
    Got(Decoded(ops, Effect(opt, ops), Targets(opt.args, ops, address)), next)
  }

  lemma {:induction false} PoppedAppend(ks: seq<Kind>, k: Kind, ops: seq<Operand>, op: Operand)
    requires |ks| == |ops|
    ensures Popped(ks + [k], ops + [op]) == Popped(ks, ops) + Weight(k) * Ival(op)
  {
    if ks != [] {
      assert (ks + [k])[1..] == ks[1..] + [k] && (ops + [op])[1..] == ops[1..] + [op];
      PoppedAppend(ks[1..], k, ops[1..], op);
    }
  }

  lemma {:induction false} ExtendTargets(ks: seq<Kind>, k: Kind, ops: seq<Operand>, op: Operand, address: nat)
    requires |ks| == |ops|
    ensures Targets(ks + [k], ops + [op], address) == Targets(ks, ops, address) + Target(k, op, address)
  {
    if ks != [] {
      assert (ks + [k])[1..] == ks[1..] + [k] && (ops + [op])[1..] == ops[1..] + [op];
      ExtendTargets(ks[1..], k, ops[1..], op, address);
    }
  }

  /** One more operand subtracts its weighted count, except that the first operand of a POPN row replaces all. */
  lemma ExtendEffect(opt: Row, ops: seq<Operand>, op: Operand, i: nat)
    requires i == |ops| < |opt.args|
    ensures Effect(Row(opt.name, opt.effect, opt.args[..i + 1]), ops + [op])
         == if i == 0 && opt.effect == POPN then -Ival(op)
            else Effect(Row(opt.name, opt.effect, opt.args[..i]), ops) - Weight(opt.args[i]) * Ival(op)
  {
    var ks, k := opt.args[..i], opt.args[i];
    assert opt.args[..i + 1] == ks + [k];
    PoppedAppend(ks, k, ops, op);
    if i > 0 {
      assert (ks + [k])[1..] == ks[1..] + [k] && (ops + [op])[1..] == ops[1..] + [op];
      PoppedAppend(ks[1..], k, ops[1..], op);
    }
  }

  /** What the operand loop has computed after `i` operands. */
  ghost predicate DecodedSoFar(opt: Row, i: int, address: nat, d: Decoded) {
    && 0 <= i == |d.ops| <= |opt.args|
    && d.effect == Effect(Row(opt.name, opt.effect, opt.args[..i]), d.ops)
    && d.targets == Targets(opt.args[..i], d.ops, address)
  }

  lemma NextOperand(opt: Row, i: nat, address: nat, d: Decoded, op: Operand)
    requires DecodedSoFar(opt, i, address, d) && i < |opt.args|
    ensures DecodedSoFar(opt, i + 1, address, Decoded(
      d.ops + [op],
      if i == 0 && opt.effect == POPN then -Ival(op) else d.effect - Weight(opt.args[i]) * Ival(op),
      d.targets + Target(opt.args[i], op, address)))
  {
    assert opt.args[..i + 1] == opt.args[..i] + [opt.args[i]];
    ExtendEffect(opt, d.ops, op, i);
    ExtendTargets(opt.args[..i], opt.args[i], d.ops, op, address);
  }

  lemma AllDecoded(opt: Row, i: nat, address: nat, d: Decoded)
    requires DecodedSoFar(opt, i, address, d) && i == |opt.args|
    ensures d == Decoded(d.ops, Effect(opt, d.ops), Targets(opt.args, d.ops, address))
  {
    assert opt.args[..i] == opt.args;
  }
}
