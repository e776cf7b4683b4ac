/**
 The code generator's side of the byte code (ecEncodeNum, ecEncodeInt32, ecEncodeGlobal and the object-literal and
 default-argument writers of src/compiler), and the theorems that tie it to the disassembler: the listing of an
 encoded instruction list is that list, with the right addresses, depths and branch targets.
 */
module RoundTrip {
  import opened Codec
  import opened Listing
  import opened Sequences

  predicate Int32(v: int) { -0x8000_0000 <= v < 0x8000_0000 }

  predicate ValidGlobal(g: Global, consts: nat) {
    match g
    case NoRef => true
    case SlotRef(slot) => slot < 0x2000_0000
    case NameRef(name, space) => name < consts && name < 0x2000_0000 && Int32(space)
    case _ => false
  }

  /** The operands that a code generator can write for each kind. */
  predicate ValidOperand(k: Kind, op: Operand, consts: nat) {
    match k
    case KByte | KJmp8 => op.Int? && 0 <= op.v < 256
    case KNum | KSlot | KArgc | KArgc2 | KArgc3 | KNewArray => op.Int? && Int32(op.v)
    case KJmp => op.Int? && Abs(op.v) <= MAX_WORD
    case KString => op.Str? && Int32(op.token)
    case KDouble => op.Double? && |op.bytes| == 8
    case KInitDefault8 => op.Table? && |op.entries| < 256 && ValidElems(op.entries, EByte)
    case KInitDefault => op.Table? && |op.entries| < 256 && ValidElems(op.entries, EInt32)
    case KNewObject =>
      op.Object? && op.argc == |op.attrs| && Int32(op.argc) && ValidElems(op.attrs, ENum)
    case KGlobal => op.Ref? && ValidGlobal(op.g, consts)
    case KUnknown => op == Nothing
  }

  predicate ValidElem(v: int, e: Elem) {
    match e
    case ENum => Abs(v) < WORD
    case EByte => 0 <= v < 256
    case EInt32 => Abs(v) <= MAX_WORD
  }

  predicate ValidElems(vs: seq<int>, e: Elem) {
    forall i | 0 <= i < |vs| :: ValidElem(vs[i], e)
  }

  function EncodeElem(v: int, e: Elem): seq<byte>
    requires ValidElem(v, e)
  {
    match e
    case ENum => EncodeNum(v)
    case EByte => [v]
    case EInt32 => EncodeInt32(v)
  }

  function EncodeElems(vs: seq<int>, e: Elem): (parts: seq<seq<byte>>)
    requires ValidElems(vs, e)
    ensures |parts| == |vs|
  {
    seq(|vs|, i requires 0 <= i < |vs| => EncodeElem(vs[i], e))
  }

  function EncodeMany(vs: seq<int>, e: Elem): seq<byte>
    requires ValidElems(vs, e)
  {
    Flatten(EncodeElems(vs, e))
  }

  function EncodeGlobal(g: Global, consts: nat): seq<byte>
    requires ValidGlobal(g, consts)
  {
    var tag := EncodeNum(GlobalTag(g, consts));
    if g.NameRef? then tag + EncodeNum(g.space) else tag
  }

  function EncodeOperand(k: Kind, op: Operand, consts: nat): seq<byte>
    requires ValidOperand(k, op, consts)
  {
    match k
    case KByte | KJmp8 => [op.v]
    case KNum | KSlot | KArgc | KArgc2 | KArgc3 | KNewArray => EncodeNum(op.v)
    case KJmp => EncodeInt32(op.v)
    case KString => EncodeNum(op.token)
    case KDouble => op.bytes
    case KInitDefault8 => [|op.entries|] + EncodeMany(op.entries, EByte)
    case KInitDefault => [|op.entries|] + EncodeMany(op.entries, EInt32)
    case KNewObject => EncodeNum(op.argc) + EncodeMany(op.attrs, ENum)
    case KGlobal => EncodeGlobal(op.g, consts)
    case KUnknown => []
  }

  predicate ValidOperands(ks: seq<Kind>, ops: seq<Operand>, consts: nat) {
    |ks| == |ops| && forall i | 0 <= i < |ks| :: ValidOperand(ks[i], ops[i], consts)
  }

  function EncodeEachOperand(ks: seq<Kind>, ops: seq<Operand>, consts: nat): (parts: seq<seq<byte>>)
    requires ValidOperands(ks, ops, consts)
    ensures |parts| == |ks|
  {
    seq(|ks|, i requires 0 <= i < |ks| => EncodeOperand(ks[i], ops[i], consts))
  }

  function EncodeOperands(ks: seq<Kind>, ops: seq<Operand>, consts: nat): seq<byte>
    requires ValidOperands(ks, ops, consts)
  {
    Flatten(EncodeEachOperand(ks, ops, consts))
  }

  predicate ValidInstr(table: seq<Row>, consts: nat, i: Instr) {
    i.opcode < |table| && ValidOperands(table[i.opcode].args, i.ops, consts)
  }

  predicate ValidCode(table: seq<Row>, consts: nat, code: seq<Instr>) {
    forall k | 0 <= k < |code| :: ValidInstr(table, consts, code[k])
  }

  function EncodeInstr(table: seq<Row>, consts: nat, i: Instr): (s: seq<byte>)
    requires ValidInstr(table, consts, i)
    ensures |s| >= 1
  {
    [i.opcode] + EncodeOperands(table[i.opcode].args, i.ops, consts)
  }

  function EncodeEach(table: seq<Row>, consts: nat, code: seq<Instr>): (parts: seq<seq<byte>>)
    requires ValidCode(table, consts, code)
    ensures |parts| == |code|
  {
    seq(|code|, k requires 0 <= k < |code| => EncodeInstr(table, consts, code[k]))
  }

  function Encode(table: seq<Row>, consts: nat, code: seq<Instr>): seq<byte>
    requires ValidCode(table, consts, code)
  {
    Flatten(EncodeEach(table, consts, code))
  }

  // ---- Reading back each operand ----

  lemma ReadEncodedElem(mem: seq<byte>, pc: nat, v: int, e: Elem)
    requires ValidElem(v, e) && At(mem, pc, EncodeElem(v, e))
    ensures ReadElem(mem, pc, e) == Got(v, pc + |EncodeElem(v, e)|)
  {
    match e
    case ENum => DecodeEncodedNum(mem, pc, v);
    case EByte => assert mem[pc] == mem[pc..pc + 1][0];
    case EInt32 => DecodeEncodedInt32(mem, pc, v);
  }

  lemma ReadEncodedMany(mem: seq<byte>, pc: nat, vs: seq<int>, e: Elem)
    requires ValidElems(vs, e) && At(mem, pc, EncodeMany(vs, e))
    ensures ReadMany(mem, pc, |vs|, e) == Got(vs, pc + |EncodeMany(vs, e)|)
  {
    var parts := EncodeElems(vs, e);
    forall i, p: nat | 0 <= i < |vs| && At(mem, p, parts[i])
      ensures ElemReaders(mem, |vs|, e)[i](p) == Got(vs[i], p + |parts[i]|)
    {
      ReadEncodedElem(mem, p, vs[i], e);
    }
    ReadBack(mem, pc, ElemReaders(mem, |vs|, e), vs, parts);
  }

  lemma ReadEncodedInt(mem: seq<byte>, pc: nat, v: int)
    requires Int32(v) && At(mem, pc, EncodeNum(v))
    ensures ReadInt(mem, pc) == Got(v, pc + |EncodeNum(v)|)
  {
    DecodeEncodedNum(mem, pc, v);
  }

  /** The number that stands for a reference: the token or slot, shifted over the two kind bits. */
  function GlobalTag(g: Global, consts: nat): (t: nat)
    requires ValidGlobal(g, consts)
    ensures Int32(t)
  {
    match g
    case NoRef => 0
    case SlotRef(slot) => slot * 4 + 2
    case NameRef(name, _) => name * 4 + 1
  }

  /** The switch on the kind bits undoes the tag. */
  lemma GlobalFromTag(mem: seq<byte>, p: nat, g: Global, consts: nat, next: nat)
    requires ValidGlobal(g, consts)
    requires if g.NameRef? then ReadInt(mem, p) == Got(g.space, next) else next == p
    ensures GlobalFrom(mem, p, GlobalTag(g, consts), consts) == Got(g, next)
  {
  }

  lemma ReadEncodedGlobal(mem: seq<byte>, pc: nat, g: Global, consts: nat)
    requires ValidGlobal(g, consts) && At(mem, pc, EncodeGlobal(g, consts))
    ensures ReadGlobal(mem, pc, consts) == Got(g, pc + |EncodeGlobal(g, consts)|)
  {
    var head := EncodeNum(GlobalTag(g, consts));
    if g.NameRef? {
      AtConcat(mem, pc, head, EncodeNum(g.space));
      ReadEncodedInt(mem, pc + |head|, g.space);
    }
    ReadEncodedInt(mem, pc, GlobalTag(g, consts));
    GlobalFromTag(mem, pc + |head|, g, consts, pc + |EncodeGlobal(g, consts)|);
  }

  lemma ReadEncodedTable(mem: seq<byte>, pc: nat, es: seq<int>, e: Elem)
    requires |es| < 256 && ValidElems(es, e)
    requires At(mem, pc, [|es|] + EncodeMany(es, e))
    ensures ReadTable(mem, pc, e) == Got(Table(es), pc + 1 + |EncodeMany(es, e)|)
  {
    AtConcat(mem, pc, [|es|], EncodeMany(es, e));
    assert mem[pc] == mem[pc..pc + 1][0];
    ReadEncodedMany(mem, pc + 1, es, e);
  }

  lemma ReadEncodedObject(mem: seq<byte>, pc: nat, argc: int, attrs: seq<int>)
    requires Int32(argc) && argc == |attrs| && ValidElems(attrs, ENum)
    requires At(mem, pc, EncodeNum(argc) + EncodeMany(attrs, ENum))
    ensures ReadObject(mem, pc) == Got(Object(argc, attrs), pc + |EncodeNum(argc)| + |EncodeMany(attrs, ENum)|)
  {
    AtConcat(mem, pc, EncodeNum(argc), EncodeMany(attrs, ENum));
    ReadEncodedInt(mem, pc, argc);
    ReadEncodedMany(mem, pc + |EncodeNum(argc)|, attrs, ENum);
  }

  lemma ReadEncodedOperand(mem: seq<byte>, pc: nat, k: Kind, op: Operand, consts: nat)
    requires ValidOperand(k, op, consts) && At(mem, pc, EncodeOperand(k, op, consts))
    ensures ReadOperand(mem, pc, k, consts) == Got(op, pc + |EncodeOperand(k, op, consts)|)
  {
    match k
    case KByte | KJmp8 => assert mem[pc] == mem[pc..pc + 1][0];
    case KNum | KSlot | KArgc | KArgc2 | KArgc3 | KNewArray => ReadEncodedInt(mem, pc, op.v);
    case KJmp => DecodeEncodedInt32(mem, pc, op.v);
    case KString => ReadEncodedInt(mem, pc, op.token);
    case KDouble =>
    case KInitDefault8 => ReadEncodedTable(mem, pc, op.entries, EByte);
    case KInitDefault => ReadEncodedTable(mem, pc, op.entries, EInt32);
    case KNewObject => ReadEncodedObject(mem, pc, op.argc, op.attrs);
    case KGlobal => ReadEncodedGlobal(mem, pc, op.g, consts);
    case KUnknown =>
  }

  lemma ReadEncodedOperands(mem: seq<byte>, pc: nat, ks: seq<Kind>, ops: seq<Operand>, consts: nat)
    requires ValidOperands(ks, ops, consts) && At(mem, pc, EncodeOperands(ks, ops, consts))
    ensures ReadOperands(mem, pc, ks, consts) == Got(ops, pc + |EncodeOperands(ks, ops, consts)|)
  {
    var parts := EncodeEachOperand(ks, ops, consts);
    forall i, p: nat | 0 <= i < |ops| && At(mem, p, parts[i])
      ensures OperandReaders(mem, ks, consts)[i](p) == Got(ops[i], p + |parts[i]|)
    {
      ReadEncodedOperand(mem, p, ks[i], ops[i], consts);
    }
    ReadBack(mem, pc, OperandReaders(mem, ks, consts), ops, parts);
  }

  // ---- The listing that an instruction list should have ----

  function EffectOf(table: seq<Row>, consts: nat, i: Instr): int
    requires ValidInstr(table, consts, i)
  {
    Effect(table[i.opcode], i.ops)
  }

  function Effects(table: seq<Row>, consts: nat, code: seq<Instr>): (es: seq<int>)
    requires ValidCode(table, consts, code)
    ensures |es| == |code|
  {
    seq(|code|, k requires 0 <= k < |code| => EffectOf(table, consts, code[k]))
  }

  /** The start of the straight run that ends before instruction `k`: after the last return, or the beginning. */
  function RunStart(code: seq<Instr>, k: nat): (j: nat)
    requires k <= |code|
    ensures j <= k
  {
    if k == 0 || IsReturn(code[k - 1].opcode) then k else RunStart(code, k - 1)
  }

  lemma {:induction false} RunStartExactly(code: seq<Instr>, k: nat, j: nat)
    requires j <= k <= |code|
    ensures j == RunStart(code, k) <==>
            && (j > 0 ==> IsReturn(code[j - 1].opcode))
            && (forall m | j <= m < k :: !IsReturn(code[m].opcode))
  {
    if j < k && !IsReturn(code[k - 1].opcode) {
      RunStartExactly(code, k - 1, j);
    }
  }

  /** The depth shown before instruction `k`, stated without running: the effects summed since the last return. */
  function DepthBefore(table: seq<Row>, consts: nat, code: seq<Instr>, k: nat): int
    requires ValidCode(table, consts, code) && k <= |code|
  {
    Sum(Effects(table, consts, code)[RunStart(code, k)..k])
  }

  function AddressOf(table: seq<Row>, consts: nat, code: seq<Instr>, k: nat): nat
    requires ValidCode(table, consts, code) && k <= |code|
  {
    |Encode(table, consts, code[..k])|
  }

  function LineOf(table: seq<Row>, consts: nat, code: seq<Instr>, k: nat): Line
    requires ValidCode(table, consts, code) && k < |code|
  {
    LineAt(table, code[k], AddressOf(table, consts, code, k), DepthBefore(table, consts, code, k))
  }

  function LineAt(table: seq<Row>, i: Instr, address: nat, depth: int): Line
    requires i.opcode < |table| && |table[i.opcode].args| == |i.ops|
  {
    Line(address, depth, i.opcode, i.ops, Targets(table[i.opcode].args, i.ops, address + 1))
  }

  function Lines(table: seq<Row>, consts: nat, code: seq<Instr>): (lines: seq<Line>)
    requires ValidCode(table, consts, code)
    ensures |lines| == |code| && forall k | 0 <= k < |code| :: lines[k] == LineOf(table, consts, code, k)
  {
    seq(|code|, k requires 0 <= k < |code| => LineOf(table, consts, code, k))
  }

  ghost predicate NeverNegative(table: seq<Row>, consts: nat, code: seq<Instr>)
    requires ValidCode(table, consts, code)
  {
    forall m | 0 < m <= |code| :: DepthBefore(table, consts, code, m) >= 0
  }

  lemma EncodeAppend(table: seq<Row>, consts: nat, a: seq<Instr>, b: seq<Instr>)
    requires ValidCode(table, consts, a) && ValidCode(table, consts, b)
    ensures Encode(table, consts, a + b) == Encode(table, consts, a) + Encode(table, consts, b)
  {
    assert EncodeEach(table, consts, a + b) == EncodeEach(table, consts, a) + EncodeEach(table, consts, b);
    FlattenAppend(EncodeEach(table, consts, a), EncodeEach(table, consts, b));
  }

  lemma EncodeOne(table: seq<Row>, consts: nat, i: Instr)
    requires ValidInstr(table, consts, i)
    ensures Encode(table, consts, [i]) == EncodeInstr(table, consts, i)
  {
    assert EncodeEach(table, consts, [i]) == [EncodeInstr(table, consts, i)];
    FlattenOne(EncodeInstr(table, consts, i));
  }

  /** Instruction `k` splits the encoding: what comes before it, itself, and what comes after. */
  lemma EncodeSplit(table: seq<Row>, consts: nat, code: seq<Instr>, k: nat)
    requires ValidCode(table, consts, code) && k < |code|
    ensures Encode(table, consts, code[..k + 1])
         == Encode(table, consts, code[..k]) + EncodeInstr(table, consts, code[k])
    ensures Encode(table, consts, code)
         == Encode(table, consts, code[..k + 1]) + Encode(table, consts, code[k + 1..])
  {
    assert code[..k + 1] == code[..k] + [code[k]];
    EncodeAppend(table, consts, code[..k], [code[k]]);
    EncodeOne(table, consts, code[k]);
    assert code == code[..k + 1] + code[k + 1..];
    EncodeAppend(table, consts, code[..k + 1], code[k + 1..]);
  }

  lemma NextAddress(table: seq<Row>, consts: nat, code: seq<Instr>, k: nat)
    requires ValidCode(table, consts, code) && k < |code|
    ensures AddressOf(table, consts, code, k + 1)
         == AddressOf(table, consts, code, k) + |EncodeInstr(table, consts, code[k])|
    ensures AddressOf(table, consts, code, k + 1) <= |Encode(table, consts, code)|
  {
    EncodeSplit(table, consts, code, k);
  }

  lemma NextDepth(table: seq<Row>, consts: nat, code: seq<Instr>, k: nat)
    requires ValidCode(table, consts, code) && k < |code|
    ensures DepthBefore(table, consts, code, k + 1)
         == DepthAfter(DepthBefore(table, consts, code, k), code[k].opcode, EffectOf(table, consts, code[k]))
  {
    if !IsReturn(code[k].opcode) {
      var j, es := RunStart(code, k), Effects(table, consts, code);
      assert es[j..k + 1] == es[j..k] + [es[k]];
      SumAppend(es[j..k], [es[k]]);
      assert Sum([es[k]]) == es[k];
    }
  }

  /** Where an encoded list stands in memory, each instruction's opcode and operands stand at its address. */
  lemma InstrAt(table: seq<Row>, mem: seq<byte>, consts: nat, code: seq<Instr>, k: nat)
    requires ValidCode(table, consts, code) && k < |code|
    requires At(mem, 0, Encode(table, consts, code))
    ensures var pc := AddressOf(table, consts, code, k);
            && At(mem, pc, [code[k].opcode])
            && At(mem, pc + 1, EncodeOperands(table[code[k].opcode].args, code[k].ops, consts))
  {
    var before, i := Encode(table, consts, code[..k]), code[k];
    EncodeSplit(table, consts, code, k);
    AtConcat(mem, 0, Encode(table, consts, code[..k + 1]), Encode(table, consts, code[k + 1..]));
    AtConcat(mem, 0, before, EncodeInstr(table, consts, i));
    AtConcat(mem, |before|, [i.opcode], EncodeOperands(table[i.opcode].args, i.ops, consts));
  }

  lemma StepReads(table: seq<Row>, mem: seq<byte>, consts: nat, exitOnError: bool, pc: nat, depth: int, i: Instr,
                  next: nat)
    requires pc < |mem| && mem[pc] == i.opcode < |table| && |table[i.opcode].args| == |i.ops|
    requires ReadOperands(mem, pc + 1, table[i.opcode].args, consts) == Got(i.ops, next)
    ensures var row := table[i.opcode];
            var line := Line(pc, depth, i.opcode, i.ops, Targets(row.args, i.ops, pc + 1));
            var after := DepthAfter(depth, i.opcode, Effect(row, i.ops));
            StepAt(table, mem, consts, exitOnError, pc, depth) ==
            if after < 0 && exitOnError then Stop([line], Exited(next)) else Next(line, next, after)
  {
  }

  ghost function StepOf(table: seq<Row>, mem: seq<byte>, consts: nat, code: seq<Instr>, exitOnError: bool, k: nat): Step
    requires ValidCode(table, consts, code) && k <= |code|
  {
    StepAt(table, mem, consts, exitOnError, AddressOf(table, consts, code, k), DepthBefore(table, consts, code, k))
  }

  /** One turn of the instruction loop on encoded code lists exactly that instruction. */
  lemma StepOnEncoded(table: seq<Row>, mem: seq<byte>, consts: nat, code: seq<Instr>, exitOnError: bool, k: nat)
    requires ValidCode(table, consts, code) && k < |code|
    requires At(mem, 0, Encode(table, consts, code))
    ensures var after, next := DepthBefore(table, consts, code, k + 1), AddressOf(table, consts, code, k + 1);
            StepOf(table, mem, consts, code, exitOnError, k) ==
            if after < 0 && exitOnError then Stop([LineOf(table, consts, code, k)], Exited(next))
            else Next(LineOf(table, consts, code, k), next, after)
  {
    var i, pc, next := code[k], AddressOf(table, consts, code, k), AddressOf(table, consts, code, k + 1);
    assert pc < |mem| && mem[pc] == i.opcode
        && ReadOperands(mem, pc + 1, table[i.opcode].args, consts) == Got(i.ops, next) by {
      InstrAt(table, mem, consts, code, k);
      assert mem[pc] == mem[pc..pc + 1][0];
      ReadEncodedOperands(mem, pc + 1, table[i.opcode].args, i.ops, consts);
      NextAddress(table, consts, code, k);
    }
    StepReads(table, mem, consts, exitOnError, pc, DepthBefore(table, consts, code, k), i, next);
    NextDepth(table, consts, code, k);
  }

  ghost function OutputFrom(table: seq<Row>, mem: seq<byte>, consts: nat, code: seq<Instr>, exitOnError: bool,
                            k: nat): Output
    requires ValidCode(table, consts, code) && k <= |code|
  {
    Disassemble(table, mem, consts, |Encode(table, consts, code)|, exitOnError, AddressOf(table, consts, code, k),
                DepthBefore(table, consts, code, k))
  }

  lemma OutputStep(table: seq<Row>, mem: seq<byte>, consts: nat, code: seq<Instr>, exitOnError: bool, k: nat)
    requires ValidCode(table, consts, code) && k < |code|
    requires At(mem, 0, Encode(table, consts, code))
    ensures var line := LineOf(table, consts, code, k);
            OutputFrom(table, mem, consts, code, exitOnError, k) ==
            if DepthBefore(table, consts, code, k + 1) < 0 && exitOnError
            then Output([line], Exited(AddressOf(table, consts, code, k + 1)))
            else Preceded([line], OutputFrom(table, mem, consts, code, exitOnError, k + 1))
  {
    StepOnEncoded(table, mem, consts, code, exitOnError, k);
    NextAddress(table, consts, code, k);
    var pc, depth := AddressOf(table, consts, code, k), DepthBefore(table, consts, code, k);
    var len := |Encode(table, consts, code)|;
    Unroll(table, mem, consts, len, exitOnError, pc, depth, []);
    assert Preceded([], Disassemble(table, mem, consts, len, exitOnError, pc, depth))
        == Disassemble(table, mem, consts, len, exitOnError, pc, depth);
  }

  /** Outputs that each add one line to the next add up to all the lines. */
  lemma {:induction false} OutputsAddUp(outs: seq<Output>, lines: seq<Line>, end: End, k: nat)
    requires |outs| == |lines| + 1 && k <= |lines| && outs[|lines|] == Output([], end)
    requires forall i | k <= i < |lines| :: outs[i] == Preceded([lines[i]], outs[i + 1])
    ensures outs[k] == Output(lines[k..], end)
    decreases |lines| - k
  {
    if k < |lines| {
      OutputsAddUp(outs, lines, end, k + 1);
      assert [lines[k]] + lines[k + 1..] == lines[k..];
    }
  }

  ghost function Outputs(table: seq<Row>, mem: seq<byte>, consts: nat, code: seq<Instr>,
                         exitOnError: bool): (outs: seq<Output>)
    requires ValidCode(table, consts, code)
    ensures |outs| == |code| + 1
    ensures forall k | 0 <= k <= |code| :: outs[k] == OutputFrom(table, mem, consts, code, exitOnError, k)
  {
    seq(|code| + 1, k requires 0 <= k <= |code| => OutputFrom(table, mem, consts, code, exitOnError, k))
  }

  lemma OutputEnds(table: seq<Row>, mem: seq<byte>, consts: nat, code: seq<Instr>, exitOnError: bool)
    requires ValidCode(table, consts, code)
    ensures OutputFrom(table, mem, consts, code, exitOnError, |code|)
         == Output([], Finished(|Encode(table, consts, code)|))
  {
    assert code[..|code|] == code;
  }

  lemma ListsAll(table: seq<Row>, mem: seq<byte>, consts: nat, code: seq<Instr>, exitOnError: bool)
    requires ValidCode(table, consts, code) && At(mem, 0, Encode(table, consts, code))
    requires exitOnError ==> NeverNegative(table, consts, code)
    ensures OutputFrom(table, mem, consts, code, exitOnError, 0)
         == Output(Lines(table, consts, code), Finished(|Encode(table, consts, code)|))
  {
    var outs, lines := Outputs(table, mem, consts, code, exitOnError), Lines(table, consts, code);
    forall i | 0 <= i < |code|
      ensures outs[i] == Preceded([lines[i]], outs[i + 1])
    {
      OutputStep(table, mem, consts, code, exitOnError, i);
    }
    OutputEnds(table, mem, consts, code, exitOnError);
    OutputsAddUp(outs, lines, Finished(|Encode(table, consts, code)|), 0);
    assert lines[0..] == lines;
  }

  lemma ExitsAt(table: seq<Row>, mem: seq<byte>, consts: nat, code: seq<Instr>, m: nat)
    requires ValidCode(table, consts, code) && At(mem, 0, Encode(table, consts, code))
    requires m < |code| && DepthBefore(table, consts, code, m + 1) < 0
    ensures OutputFrom(table, mem, consts, code, true, m).end.Exited?
  {
    OutputStep(table, mem, consts, code, true, m);
  }

  lemma ExitsBefore(table: seq<Row>, mem: seq<byte>, consts: nat, code: seq<Instr>, k: nat)
    requires ValidCode(table, consts, code) && At(mem, 0, Encode(table, consts, code))
    requires k < |code| && OutputFrom(table, mem, consts, code, true, k + 1).end.Exited?
    ensures OutputFrom(table, mem, consts, code, true, k).end.Exited?
  {
    OutputStep(table, mem, consts, code, true, k);
  }

  /** If instruction `m` stops the program, the output ends there, whatever comes before. */
  lemma {:induction false} ExitsBy(table: seq<Row>, mem: seq<byte>, consts: nat, code: seq<Instr>, k: nat, m: nat)
    requires ValidCode(table, consts, code) && At(mem, 0, Encode(table, consts, code))
    requires k <= m < |code| && DepthBefore(table, consts, code, m + 1) < 0
    ensures OutputFrom(table, mem, consts, code, true, k).end.Exited?
    decreases m - k
  {
    if k == m {
      ExitsAt(table, mem, consts, code, m);
    } else {
      ExitsBy(table, mem, consts, code, k + 1, m);
      ExitsBefore(table, mem, consts, code, k);
    }
  }

  lemma ListsExit(table: seq<Row>, mem: seq<byte>, consts: nat, code: seq<Instr>)
    requires ValidCode(table, consts, code) && At(mem, 0, Encode(table, consts, code))
    requires !NeverNegative(table, consts, code)
    ensures OutputFrom(table, mem, consts, code, true, 0).end.Exited?
  {
    var m :| 0 < m <= |code| && DepthBefore(table, consts, code, m) < 0;
    ExitsBy(table, mem, consts, code, 0, m - 1);
  }

  lemma OutputStarts(table: seq<Row>, mem: seq<byte>, consts: nat, code: seq<Instr>, exitOnError: bool)
    requires ValidCode(table, consts, code)
    ensures OutputFrom(table, mem, consts, code, exitOnError, 0)
         == Disassemble(table, mem, consts, |Encode(table, consts, code)|, exitOnError, 0, 0)
  {
    assert code[..0] == [] && Effects(table, consts, code)[0..0] == [];
    assert EncodeEach(table, consts, []) == [];
  }

  /** The round trip. For every table and every valid instruction list, in any memory that starts with its encoding,
      the disassembler shows one line for each instruction: its own operands, at the address where its bytes start,
      with the depth summed since the last return; and it stops exactly at the end of the code. Under exit-on-error
      this holds if and only if no depth is negative. */
  lemma ListingOfEncoded(table: seq<Row>, mem: seq<byte>, consts: nat, code: seq<Instr>, exitOnError: bool)
    requires ValidCode(table, consts, code)
    requires At(mem, 0, Encode(table, consts, code))
    ensures var out := Disassemble(table, mem, consts, |Encode(table, consts, code)|, exitOnError, 0, 0);
            out == Output(Lines(table, consts, code), Finished(|Encode(table, consts, code)|))
            <==> (exitOnError ==> NeverNegative(table, consts, code))
  {
    OutputStarts(table, mem, consts, code, exitOnError);
    if exitOnError && !NeverNegative(table, consts, code) {
      ListsExit(table, mem, consts, code);
    } else {
      ListsAll(table, mem, consts, code, exitOnError);
    }
  }

  /** So an encoding determines its instructions. */
  lemma EncodeInjective(table: seq<Row>, consts: nat, a: seq<Instr>, b: seq<Instr>)
    requires ValidCode(table, consts, a) && ValidCode(table, consts, b)
    requires Encode(table, consts, a) == Encode(table, consts, b)
    ensures a == b
  {
    var mem := Encode(table, consts, a);
    assert At(mem, 0, mem);
    ListingOfEncoded(table, mem, consts, a, false);
    ListingOfEncoded(table, mem, consts, b, false);
    var la, lb := Lines(table, consts, a), Lines(table, consts, b);
    assert la == lb;
    forall i | 0 <= i < |a|
      ensures a[i] == b[i]
    {
      assert la[i] == LineOf(table, consts, a, i) && lb[i] == LineOf(table, consts, b, i);
    }
  }

  // ---- The depths and targets, by the kinds of the operands ----

  /** The counts that operands of one kind give, summed over the operand positions of that kind. */
  function Counts(ks: seq<Kind>, ops: seq<Operand>, kind: Kind): int
    requires |ks| == |ops|
  {
    if ks == [] then 0
    else
      (if ks[0] != kind then 0 else if ops[0].Int? then ops[0].v else if ops[0].Object? then ops[0].argc else 0)
      + Counts(ks[1..], ops[1..], kind)
  }

  lemma {:induction false} PoppedByKind(ks: seq<Kind>, ops: seq<Operand>, consts: nat)
    requires ValidOperands(ks, ops, consts)
    ensures Popped(ks, ops) == Counts(ks, ops, KArgc) + 2 * (Counts(ks, ops, KArgc2) + Counts(ks, ops, KNewArray))
                               + 3 * (Counts(ks, ops, KArgc3) + Counts(ks, ops, KNewObject))
  {
    if ks != [] {
      assert ValidOperand(ks[0], ops[0], consts);
      PoppedByKind(ks[1..], ops[1..], consts);
    }
  }

  lemma EffectByKind(row: Row, ops: seq<Operand>, consts: nat)
    requires ValidOperands(row.args, ops, consts)
    ensures var popn := row.effect == 101 && ops != [];
            var ks, os := if popn then row.args[1..] else row.args, if popn then ops[1..] else ops;
            Effect(row, ops) ==
            (if !popn then row.effect
             else match ops[0]
                  case Int(v) => -v
                  case Object(argc, _) => -argc
                  case Table(es) => if es == [] then 0 else -es[|es| - 1]
                  case _ => 0)
            - Counts(ks, os, KArgc) - 2 * (Counts(ks, os, KArgc2) + Counts(ks, os, KNewArray))
            - 3 * (Counts(ks, os, KArgc3) + Counts(ks, os, KNewObject))
  {
    if row.effect == 101 && ops != [] {
      PoppedByKind(row.args[1..], ops[1..], consts);
    } else {
      PoppedByKind(row.args, ops, consts);
    }
  }

  /** How the printed depth changes from one line to the next. After RETURN (193) and RETURN_VALUE (194) it is 0. After
      any other instruction it is the table's effect more, less once every count of an argument-count operand, twice
      those of a doubled count or an array literal, three times those of a tripled count or an object literal; and in
      a row with the effect 101 the value of the first operand is popped instead. */
  lemma DepthChanges(table: seq<Row>, consts: nat, code: seq<Instr>, k: nat)
    requires ValidCode(table, consts, code) && k + 1 < |code|
    ensures var row, ops := table[code[k].opcode], code[k].ops;
            var popn := row.effect == 101 && ops != [];
            var ks, os := if popn then row.args[1..] else row.args, if popn then ops[1..] else ops;
            Lines(table, consts, code)[k + 1].depth ==
            if code[k].opcode == 193 || code[k].opcode == 194 then 0
            else Lines(table, consts, code)[k].depth
                 + (if !popn then row.effect
                    else match ops[0]
                         case Int(v) => -v
                         case Object(argc, _) => -argc
                         case Table(es) => if es == [] then 0 else -es[|es| - 1]
                         case _ => 0)
                 - Counts(ks, os, KArgc) - 2 * (Counts(ks, os, KArgc2) + Counts(ks, os, KNewArray))
                 - 3 * (Counts(ks, os, KArgc3) + Counts(ks, os, KNewObject))
  {
    NextDepth(table, consts, code, k);
    EffectByKind(table[code[k].opcode], code[k].ops, consts);
  }

  /** The first line is at depth 0 and address 0. */
  lemma FirstLine(table: seq<Row>, consts: nat, code: seq<Instr>)
    requires ValidCode(table, consts, code) && code != []
    ensures Lines(table, consts, code)[0].depth == 0 && Lines(table, consts, code)[0].address == 0
  {
    assert Effects(table, consts, code)[0..0] == [] && code[..0] == [] && EncodeEach(table, consts, []) == [];
  }

  /** An instruction prints as many branch addresses as it has branch operands. */
  lemma {:induction false} TargetCount(ks: seq<Kind>, ops: seq<Operand>, consts: nat, address: nat)
    requires ValidOperands(ks, ops, consts)
    ensures |Targets(ks, ops, address)| == multiset(ks)[KJmp] + multiset(ks)[KJmp8]
  {
    if ks != [] {
      assert ValidOperand(ks[0], ops[0], consts) && ks == [ks[0]] + ks[1..];
      TargetCount(ks[1..], ops[1..], consts, address);
    }
  }

  /** Listing a concatenation is listing its parts: the second starts at the end of the first, ... */
  lemma ConcatAddresses(table: seq<Row>, consts: nat, a: seq<Instr>, b: seq<Instr>, k: nat)
    requires ValidCode(table, consts, a) && ValidCode(table, consts, b)
    requires k <= |b|
    ensures AddressOf(table, consts, a + b, |a| + k)
         == |Encode(table, consts, a)| + AddressOf(table, consts, b, k)
  {
    assert (a + b)[..|a| + k] == a + b[..k];
    EncodeAppend(table, consts, a, b[..k]);
  }

  /** ... and up to its first return, from the depth that the first leaves. */
  lemma ConcatDepths(table: seq<Row>, consts: nat, a: seq<Instr>, b: seq<Instr>, k: nat)
    requires ValidCode(table, consts, a) && ValidCode(table, consts, b)
    requires k <= |b|
    ensures DepthBefore(table, consts, a + b, |a| + k)
         == DepthBefore(table, consts, b, k)
            + if RunStart(b, k) == 0 then DepthBefore(table, consts, a, |a|) else 0
  {
    RunStartConcat(a, b, k);
    var j, s, ea, eb := RunStart(b, k), RunStart(a, |a|), Effects(table, consts, a), Effects(table, consts, b);
    EffectsAppend(table, consts, a, b);
    SumConcat(ea, eb, s, j, k);
  }

  lemma EffectsAppend(table: seq<Row>, consts: nat, a: seq<Instr>, b: seq<Instr>)
    requires ValidCode(table, consts, a) && ValidCode(table, consts, b)
    ensures ValidCode(table, consts, a + b)
    ensures Effects(table, consts, a + b) == Effects(table, consts, a) + Effects(table, consts, b)
  {
  }

  lemma SumConcat(a: seq<int>, b: seq<int>, s: nat, j: nat, k: nat)
    requires s <= |a| && j <= k <= |b|
    ensures Sum((a + b)[if j == 0 then s else |a| + j..|a| + k])
         == (if j == 0 then Sum(a[s..|a|]) else 0) + Sum(b[j..k])
  {
    if j == 0 {
      assert (a + b)[s..|a| + k] == a[s..|a|] + b[0..k];
      SumAppend(a[s..|a|], b[0..k]);
    } else {
      assert (a + b)[|a| + j..|a| + k] == b[j..k];
    }
  }

  lemma {:induction false} RunStartConcat(a: seq<Instr>, b: seq<Instr>, k: nat)
    requires k <= |b|
    ensures RunStart(a + b, |a| + k) == if RunStart(b, k) == 0 then RunStart(a, |a|) else |a| + RunStart(b, k)
  {
    if k == 0 {
      RunStartPrefix(a, b, |a|);
    } else if !IsReturn(b[k - 1].opcode) {
      RunStartConcat(a, b, k - 1);
    }
  }

  lemma {:induction false} RunStartPrefix(a: seq<Instr>, b: seq<Instr>, k: nat)
    requires k <= |a|
    ensures RunStart(a + b, k) == RunStart(a, k)
  {
    if k > 0 && !IsReturn(a[k - 1].opcode) {
      RunStartPrefix(a, b, k - 1);
    }
  }

  /** A line as it is printed when its code stands `base` bytes later and starts `depth` deeper. */
  function Moved(line: Line, base: nat, depth: int): Line {
    Line(line.address + base, line.depth + depth, line.opcode, line.ops, Raised(line.targets, base))
  }

  function Raised(ts: seq<int>, base: nat): seq<int> { seq(|ts|, i requires 0 <= i < |ts| => ts[i] + base) }

  /** The lines of `b` after code of `base` bytes that leaves `depth`, which lasts until the first return. */
  function MovedLines(table: seq<Row>, consts: nat, b: seq<Instr>, base: nat, depth: int): (lines: seq<Line>)
    requires ValidCode(table, consts, b)
    ensures |lines| == |b|
    ensures forall k | 0 <= k < |b| :: lines[k] == MovedLine(table, consts, b, k, base, depth)
  {
    seq(|b|, k requires 0 <= k < |b| => MovedLine(table, consts, b, k, base, depth))
  }

  function MovedLine(table: seq<Row>, consts: nat, b: seq<Instr>, k: nat, base: nat, depth: int): Line
    requires ValidCode(table, consts, b) && k < |b|
  {
    Moved(LineOf(table, consts, b, k), base, if RunStart(b, k) == 0 then depth else 0)
  }

  lemma RaisedAppend(x: seq<int>, y: seq<int>, base: nat)
    ensures Raised(x + y, base) == Raised(x, base) + Raised(y, base)
  {
  }

  lemma TargetRaised(k: Kind, op: Operand, address: nat, base: nat)
    ensures Target(k, op, address + base) == Raised(Target(k, op, address), base)
  {
  }

  lemma {:induction false} TargetsRaised(ks: seq<Kind>, ops: seq<Operand>, address: nat, base: nat)
    requires |ks| == |ops|
    ensures Targets(ks, ops, address + base) == Raised(Targets(ks, ops, address), base)
  {
    if ks != [] {
      TargetsRaised(ks[1..], ops[1..], address, base);
      RaisedAppend(Target(ks[0], ops[0], address), Targets(ks[1..], ops[1..], address), base);
      TargetRaised(ks[0], ops[0], address, base);
    }
  }

  lemma LineMoved(table: seq<Row>, i: Instr, address: nat, depth: int, base: nat, more: int)
    requires i.opcode < |table| && |table[i.opcode].args| == |i.ops|
    ensures LineAt(table, i, base + address, depth + more) == Moved(LineAt(table, i, address, depth), base, more)
  {
    TargetsRaised(table[i.opcode].args, i.ops, address + 1, base);
  }

  lemma PrefixLine(table: seq<Row>, consts: nat, a: seq<Instr>, b: seq<Instr>, k: nat)
    requires ValidCode(table, consts, a) && ValidCode(table, consts, b) && k < |a|
    ensures ValidCode(table, consts, a + b) && LineOf(table, consts, a + b, k) == LineOf(table, consts, a, k)
  {
    assert (a + b)[..k] == a[..k];
    RunStartPrefix(a, b, k);
    EffectsAppend(table, consts, a, b);
    var j, ea, eb := RunStart(a, k), Effects(table, consts, a), Effects(table, consts, b);
    assert (ea + eb)[j..k] == ea[j..k];
  }

  lemma SuffixLine(table: seq<Row>, consts: nat, a: seq<Instr>, b: seq<Instr>, k: nat)
    requires ValidCode(table, consts, a) && ValidCode(table, consts, b) && k < |b|
    ensures ValidCode(table, consts, a + b)
    ensures LineOf(table, consts, a + b, |a| + k)
         == MovedLine(table, consts, b, k, |Encode(table, consts, a)|, DepthBefore(table, consts, a, |a|))
  {
    EffectsAppend(table, consts, a, b);
    assert (a + b)[|a| + k] == b[k];
    ConcatAddresses(table, consts, a, b, k);
    ConcatDepths(table, consts, a, b, k);
    LineMoved(table, b[k], AddressOf(table, consts, b, k), DepthBefore(table, consts, b, k),
              |Encode(table, consts, a)|, if RunStart(b, k) == 0 then DepthBefore(table, consts, a, |a|) else 0);
  }

  /** Scanning composes: the lines of a concatenation are those of the first list, then those of the second with
      addresses and targets moved by the first's length and with the depth that the first leaves added up to the
      second's first return. */
  lemma ConcatLines(table: seq<Row>, consts: nat, a: seq<Instr>, b: seq<Instr>)
    requires ValidCode(table, consts, a) && ValidCode(table, consts, b)
    ensures ValidCode(table, consts, a + b)
    ensures Lines(table, consts, a + b) == Lines(table, consts, a)
            + MovedLines(table, consts, b, |Encode(table, consts, a)|, DepthBefore(table, consts, a, |a|))
  {
    EffectsAppend(table, consts, a, b);
    var whole, first := Lines(table, consts, a + b), Lines(table, consts, a);
    var second := MovedLines(table, consts, b, |Encode(table, consts, a)|, DepthBefore(table, consts, a, |a|));
    forall k | 0 <= k < |first|
      ensures whole[k] == first[k]
    {
      PrefixLine(table, consts, a, b, k);
    }
    forall k | 0 <= k < |second|
      ensures whole[|first| + k] == second[k]
    {
      SuffixLine(table, consts, a, b, k);
    }
    JoinedAt(whole, first, second);
  }

  /** A branch with one operand shows its destination: an offset written as the destination less the address of the
      following instruction prints the destination, in the 32-bit and in the 8-bit form. */
  lemma BranchShowsDestination(table: seq<Row>, consts: nat, code: seq<Instr>, k: nat, destination: int)
    requires ValidCode(table, consts, code) && k < |code|
    requires var offset := destination - AddressOf(table, consts, code, k + 1);
             var args := table[code[k].opcode].args;
             || (args == [KJmp] && code[k].ops == [Int(offset)])
             || (args == [KJmp8] && -128 <= offset < 128 && code[k].ops == [Int(offset % 256)])
    ensures LineOf(table, consts, code, k).targets == [destination]
  {
    NextAddress(table, consts, code, k);
    var args, ops, start := table[code[k].opcode].args, code[k].ops, AddressOf(table, consts, code, k) + 1;
    assert args == [args[0]] && ops == [ops[0]];
    assert Targets(args, ops, start) == Target(args[0], ops[0], start) + Targets(args[1..], ops[1..], start);
    assert EncodeEachOperand(args, ops, consts) == [EncodeOperand(args[0], ops[0], consts)];
    FlattenOne(EncodeOperand(args[0], ops[0], consts));
  }
}
