/**
 The variable-length number codec of src/vm/ejsModule.c, which every module file and every byte-code operand uses.
 A number is a sign bit and six low bits in the first byte, then seven bits a byte, with 0x80 as the extension bit.

 The decoder shifts a 32-bit `uint`, so it loses bits that the encoder wrote. `RoundTripExactly` says for which
 numbers the two halves agree.
 */
module Codec {
  import opened Sequences

  type byte = b: int | 0 <= b < 256

  const WORD := 0x1_0000_0000
  const MAX_WORD := 0x07FF_FFFF    // EJS_ENCODE_MAX_WORD

  /** The outcome of reading at a program counter: a value and the next counter, a read past the mapped bytes, or
      a shift that C leaves undefined. */
  datatype Read<+T> = Got(value: T, next: nat) | Overrun | Undefined {
    predicate IsFailure() { !Got? }
    function PropagateFailure<U>(): Read<U>
      requires IsFailure()
    {
      if Overrun? then Read<U>.Overrun else Read<U>.Undefined
    }
    function Extract(): (T, nat)
      requires !IsFailure()
    {
      (value, next)
    }
  }

  /** The bytes `s` stand in `mem` at `pc`. */
  ghost predicate At(mem: seq<byte>, pc: nat, s: seq<byte>) {
    pc + |s| <= |mem| && mem[pc..pc + |s|] == s
  }

  lemma AtConcat(mem: seq<byte>, pc: nat, a: seq<byte>, b: seq<byte>)
    ensures At(mem, pc, a + b) <==> At(mem, pc, a) && At(mem, pc + |a|, b)
  {
    if pc + |a| + |b| <= |mem| {
      var whole := mem[pc..pc + |a| + |b|];
      assert whole[..|a|] == mem[pc..pc + |a|] && whole[|a|..] == mem[pc + |a|..pc + |a| + |b|];
      assert (a + b)[..|a|] == a && (a + b)[|a|..] == b;
      assert whole == whole[..|a|] + whole[|a|..];
    }
  }

  // ---- Encoding ----

  function Abs(n: int): nat { if n < 0 then -n else n }

  function EncodeTail(u: nat, enc: nat): (s: seq<byte>)
    requires enc < 128
    ensures |s| >= 1 && s[0] % 128 == enc && (s[0] < 128 <==> u == 0)
  {
    if u == 0 then [enc] else [enc + 128] + EncodeTail(u / 128, u % 128)
  }

  function EncodeNum(n: int): (s: seq<byte>)
    ensures |s| >= 1
  {
    EncodeTail(Abs(n) / 64, Abs(n) % 64 * 2 + if n < 0 then 1 else 0)
  }

  function Pow128(k: nat): (p: nat)
    ensures p >= 1
  {
    if k == 0 then 1 else 128 * Pow128(k - 1)
  }

  /** An encoding takes no more extension bytes than the value has groups of seven bits. */
  lemma {:induction false} EncodeTailLength(u: nat, enc: nat, k: nat)
    requires enc < 128 && u < Pow128(k)
    ensures |EncodeTail(u, enc)| <= k + 1
    decreases k
  {
    if u != 0 {
      EncodeTailLength(u / 128, u % 128, k - 1);
    }
  }

  lemma {:induction false} EncodeTailLonger(u: nat, enc: nat, k: nat)
    requires enc < 128 && u >= Pow128(k)
    ensures |EncodeTail(u, enc)| > k + 1
    decreases k
  {
    if k > 0 {
      EncodeTailLonger(u / 128, u % 128, k - 1);
    }
  }

  /** The writer's own assertion: a 64-bit number fits the ten bytes that callers reserve; and EJS_ENCODE_MAX_WORD is
      exactly the largest magnitude that fits four. */
  lemma EncodeNumLength(n: int)
    requires Abs(n) < 0x8000_0000_0000_0000
    ensures |EncodeNum(n)| <= 10
    ensures |EncodeNum(n)| <= 4 <==> Abs(n) <= 0x07FF_FFFF
  {
    var first := Abs(n) % 64 * 2 + if n < 0 then 1 else 0;
    assert Pow128(3) == 0x20_0000 && Pow128(6) == 0x400_0000_0000 && Pow128(9) == 0x8000_0000_0000_0000;
    EncodeTailLength(Abs(n) / 64, first, 9);
    if Abs(n) <= 0x07FF_FFFF {
      EncodeTailLength(Abs(n) / 64, first, 3);
    } else {
      EncodeTailLonger(Abs(n) / 64, first, 3);
    }
  }

  function Zeros(n: nat): (s: seq<byte>) { seq(n, _ => 0) }

  /** A 32-bit branch offset always takes four bytes. */
  function EncodeInt32(n: int): (s: seq<byte>)
    requires Abs(n) <= MAX_WORD
    ensures |s| == 4 && EncodeNum(n) <= s && forall i | |EncodeNum(n)| <= i < 4 :: s[i] == 0
  {
    EncodeNumLength(n);
    EncodeNum(n) + Zeros(4 - |EncodeNum(n)|)
  }

  /** The byte to write next, and what is then left. */
  lemma NextByte(code: seq<byte>, k: nat, u: nat, enc: nat)
    requires enc < 128 && k <= |code| && code[k..] == EncodeTail(u, enc)
    ensures k < |code|
    ensures u == 0 ==> code[k] == enc && k + 1 == |code|
    ensures u != 0 ==> code[k] == enc + 128 && code[k + 1..] == EncodeTail(u / 128, u % 128) && u / 128 < u
  {
    assert code[k] == code[k..][0] && code[k + 1..] == code[k..][1..];
  }

  /** The pointer-moving writer. */
  method WriteNum(buf: array<byte>, start: nat, n: int) returns (len: nat)
    requires Abs(n) < 0x8000_0000_0000_0000 && start + 10 <= buf.Length
    modifies buf
    ensures len == |EncodeNum(n)| && len <= 10
    ensures buf[start..start + len] == EncodeNum(n)
    ensures forall i | 0 <= i < buf.Length && !(start <= i < start + len) :: buf[i] == old(buf[i])
  {
    EncodeNumLength(n);
    ghost var code := EncodeNum(n);
    var pos := start;
    var encoded := Abs(n) % 64 * 2 + if n < 0 then 1 else 0;
    var unumber := Abs(n) / 64;
    while unumber != 0
      invariant 0 <= encoded < 128 && 0 <= unumber && start <= pos <= start + |code|
      invariant code[pos - start..] == EncodeTail(unumber, encoded)
      invariant forall i | 0 <= i < pos - start :: buf[start + i] == code[i]
      invariant forall i | 0 <= i < buf.Length && !(start <= i < pos) :: buf[i] == old(buf[i])
      decreases unumber
    {
      NextByte(code, pos - start, unumber, encoded);
      buf[pos] := encoded + 128;
      pos := pos + 1;
      encoded := unumber % 128;
      unumber := unumber / 128;
    }
    NextByte(code, pos - start, unumber, encoded);
    buf[pos] := encoded;
    pos := pos + 1;
    len := pos - start;
  }

  // ---- Decoding ----

  /** What follows a byte `c`: while it carries the extension bit, seven more bits at weight `w`, computed in a
      32-bit word. The accumulated value stays below `w`, so the source's `|=` is an addition. */
  function DecodeTail(mem: seq<byte>, pc: nat, t: nat, w: nat, c: byte): (r: Read<nat>)
    ensures r.Got? ==> r.next >= pc
    decreases |mem| - pc
  {
    if c < 128 then Got(t, pc)
    else if pc >= |mem| then Overrun
    else if w >= WORD then Undefined
    else DecodeTail(mem, pc + 1, t + mem[pc] % 128 * w % WORD, w * 128, mem[pc])
  }

  function DecodeNum(mem: seq<byte>, pc: nat): (r: Read<int>)
    ensures r.Got? ==> r.next > pc
  {
    if pc >= |mem| then Overrun
    else
      var (t, next) :- DecodeTail(mem, pc + 1, mem[pc] / 2 % 64, 64, mem[pc]);
      Got(if mem[pc] % 2 == 1 then -(t as int) else t, next)
  }

  /** The C conversion of a 64-bit number to `int`. */
  function ToInt32(n: int): (r: int)
    ensures -0x8000_0000 <= r < 0x8000_0000
    ensures -0x8000_0000 <= n < 0x8000_0000 ==> r == n
    ensures (n - r) % 0x1_0000_0000 == 0
  {
    var m := n % WORD;
    if m < 0x8000_0000 then m else m - WORD
  }

  function DecodeInt32(mem: seq<byte>, pc: nat): Read<int> {
    var (v, _) :- DecodeNum(mem, pc);
    Got(ToInt32(v), pc + 4)
  }

  lemma WeightSplit(u: nat, w: nat)
    ensures u * w == u % 128 * w + u / 128 * (w * 128)
    ensures u % 128 * w <= u * w && u / 128 * (w * 128) <= u * w
  {
    assert u == u % 128 + u / 128 * 128;
    calc {
      u * w;
      (u % 128 + u / 128 * 128) * w;
      u % 128 * w + u / 128 * 128 * w;
      u % 128 * w + u / 128 * (w * 128);
    }
    assert u / 128 * (w * 128) >= 0 && u % 128 * w >= 0;
  }

  lemma {:induction false} DecodeEncodedTail(mem: seq<byte>, pc: nat, t: nat, w: nat, u: nat, enc: nat)
    requires enc < 128 && w >= 1 && u * w < WORD
    requires At(mem, pc, EncodeTail(u, enc))
    ensures DecodeTail(mem, pc + 1, t, w, mem[pc]) == Got(t + u * w, pc + |EncodeTail(u, enc)|)
    decreases u
  {
    var s := EncodeTail(u, enc);
    assert mem[pc] == mem[pc..pc + |s|][0] == s[0];
    if u != 0 {
      var rest := EncodeTail(u / 128, u % 128);
      AtConcat(mem, pc, [enc + 128], rest);
      assert mem[pc + 1] == mem[pc + 1..pc + 1 + |rest|][0] == rest[0];
      assert w <= u * w;
      WeightSplit(u, w);
      DecodeEncodedTail(mem, pc + 1, t + u % 128 * w, w * 128, u / 128, u % 128);
    }
  }

  /** Whatever the bytes, a decoded magnitude is below 2^32: five groups are the most that the shift accepts. */
  lemma {:induction false} DecodedTailBound(mem: seq<byte>, pc: nat, t: nat, w: nat, c: byte, left: nat)
    requires (left == 4 && w == 0x40) || (left == 3 && w == 0x2000) || (left == 2 && w == 0x10_0000) ||
             (left == 1 && w == 0x800_0000) || (left == 0 && w >= WORD)
    requires left > 0 ==> t < w
    requires left == 0 ==> t < WORD
    ensures DecodeTail(mem, pc, t, w, c).Got? ==> DecodeTail(mem, pc, t, w, c).value < WORD
    decreases left
  {
    if c >= 128 && pc < |mem| && left > 0 {
      DecodedTailBound(mem, pc + 1, t + mem[pc] % 128 * w % WORD, w * 128, mem[pc], left - 1);
    }
  }

  lemma DecodedBound(mem: seq<byte>, pc: nat)
    ensures DecodeNum(mem, pc).Got? ==> -0x1_0000_0000 < DecodeNum(mem, pc).value < 0x1_0000_0000
  {
    if pc < |mem| {
      DecodedTailBound(mem, pc + 1, mem[pc] / 2 % 64, 64, mem[pc], 4);
    }
  }

  /** Decoding undoes encoding, wherever the bytes stand and whatever follows them. */
  lemma DecodeEncodedNum(mem: seq<byte>, pc: nat, n: int)
    requires Abs(n) < WORD
    requires At(mem, pc, EncodeNum(n))
    ensures DecodeNum(mem, pc) == Got(n, pc + |EncodeNum(n)|)
  {
    var low, high := Abs(n) % 64, Abs(n) / 64;
    var enc := low * 2 + if n < 0 then 1 else 0;
    assert mem[pc] == mem[pc..pc + |EncodeNum(n)|][0];
    FirstByte(low, n < 0, mem[pc]);
    DecodeEncodedTail(mem, pc, low, 64, high, enc);
  }

  /** The first byte holds the six low bits over the sign bit. */
  lemma FirstByte(low: nat, negative: bool, b: byte)
    requires low < 64 && b % 128 == low * 2 + if negative then 1 else 0
    ensures b / 2 % 64 == low && (b % 2 == 1 <==> negative)
  {
  }

  /** The exact range of the codec: the writer accepts every 64-bit number, the reader recovers it if and only if
      its magnitude is below 2^32. */
  lemma RoundTripExactly(mem: seq<byte>, pc: nat, n: int)
    requires At(mem, pc, EncodeNum(n))
    ensures DecodeNum(mem, pc) == Got(n, pc + |EncodeNum(n)|) <==> -0x1_0000_0000 < n < 0x1_0000_0000
  {
    if Abs(n) < WORD {
      DecodeEncodedNum(mem, pc, n);
    } else {
      DecodedBound(mem, pc);
    }
  }

  lemma LostEncoding()
    ensures EncodeNum(WORD) == [128, 128, 128, 128, 32]
  {
    assert EncodeTail(0, 32) == [32];
    assert EncodeTail(32, 0) == [128, 32];
    assert EncodeTail(0x1000, 0) == [128, 128, 32];
    assert EncodeTail(0x8_0000, 0) == [128, 128, 128, 32];
    assert EncodeTail(0x400_0000, 0) == [128, 128, 128, 128, 32];
  }

  /** The smallest number that is lost: 2^32 is written in five bytes and reads back as 0. */
  lemma LostNumber()
    ensures DecodeNum(EncodeNum(0x1_0000_0000), 0) == Got(0, 5)
  {
    LostEncoding();
    var m := [128, 128, 128, 128, 32];
    assert DecodeTail(m, 5, 0, 0x4_0000_0000, 32) == Got(0, 5);
    assert DecodeTail(m, 4, 0, 0x800_0000, 128) == Got(0, 5);
    assert DecodeTail(m, 3, 0, 0x10_0000, 128) == Got(0, 5);
    assert DecodeTail(m, 2, 0, 0x2000, 128) == Got(0, 5);
  }

  /** A branch offset of up to 27 bits, with its sign, reads back as itself. */
  lemma DecodeEncodedInt32(mem: seq<byte>, pc: nat, n: int)
    requires -0x07FF_FFFF <= n <= 0x07FF_FFFF
    requires At(mem, pc, EncodeInt32(n))
    ensures DecodeInt32(mem, pc) == Got(n, pc + 4)
  {
    EncodeNumLength(n);
    AtConcat(mem, pc, EncodeNum(n), Zeros(4 - |EncodeNum(n)|));
    DecodeEncodedNum(mem, pc, n);
  }

  // ---- Reading several things in a row ----

  type Reader<!T> = nat -> Read<T>

  ghost predicate Forward<T>(readers: seq<Reader<T>>) {
    forall i, p: nat | 0 <= i < |readers| :: readers[i](p).Got? ==> readers[i](p).next >= p
  }

  function ReadSeq<T>(readers: seq<Reader<T>>, pc: nat): (r: Read<seq<T>>)
    requires Forward(readers)
    ensures r.Got? ==> |r.value| == |readers| && r.next >= pc
  {
    if readers == [] then Got([], pc)
    else
      var (v, p) :- readers[0](pc);
      var (rest, next) :- ReadSeq(readers[1..], p);
      Got([v] + rest, next)
  }

  /** If each reader recovers its value from its own bytes, wherever they stand, then together they recover all the
      values from the bytes put together. */
  lemma {:induction false} ReadBack<T>(mem: seq<byte>, pc: nat, readers: seq<Reader<T>>, vs: seq<T>,
                                       parts: seq<seq<byte>>)
    requires Forward(readers) && |readers| == |vs| == |parts|
    requires At(mem, pc, Flatten(parts))
    requires forall i, p: nat | 0 <= i < |vs| && At(mem, p, parts[i]) :: readers[i](p) == Got(vs[i], p + |parts[i]|)
    ensures ReadSeq(readers, pc) == Got(vs, pc + |Flatten(parts)|)
    decreases |vs|
  {
    if vs != [] {
      AtConcat(mem, pc, parts[0], Flatten(parts[1..]));
      ReadBack(mem, pc + |parts[0]|, readers[1..], vs[1..], parts[1..]);
      assert [vs[0]] + vs[1..] == vs;
    }
  }
}
