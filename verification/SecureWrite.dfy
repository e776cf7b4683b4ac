/**
 `writeOss` of paks/mpr-openssl/mpr-openssl.c, over a TLS library that may take any part of what it is given, ask to be
 called again, or fail. The library's answers are a schedule, and the theorems hold for every schedule.
 */
module SecureWrite {
  import opened Codec

  const BAD_STATE := -7      // MPR_ERR_BAD_STATE
  const CANT_WRITE := -23    // MPR_ERR_CANT_WRITE
  const NOT_READY := -28     // MPR_ERR_NOT_READY

  /** One answer of `SSL_write`: it takes `n` bytes, with or without too many renegotiations noticed by then; or it
      wants to write later; or it fails. */
  datatype Answer = Accept(n: nat, attacked: bool) | WantWrite | Refuse

  /** The answer to each question, which may depend on the length that is offered. */
  type Schedule = (nat, int) -> Answer

  /** It takes at least one byte and at most what is offered, and refuses a length that is not positive. */
  ghost predicate Lawful(s: Schedule) {
    forall i: nat, requested: int ::
      var a := s(i, requested); (a.Accept? ==> 1 <= a.n <= requested) && (requested <= 0 ==> a.Refuse?)
  }

  /** The answer when `len` bytes are left: the length is passed as an `int`. */
  function Reply(s: Schedule, i: nat, len: nat): (a: Answer)
    requires Lawful(s)
    ensures a.Accept? ==> 1 <= a.n <= len
  {
    s(i, ToInt32(len))
  }

  // ---- What one call does ----

  datatype End = AllSent | Blocked | Failed | Attacked
  datatype Pushed = Pushed(count: nat, asked: nat, end: End)

  /** The bytes that the library takes in one call for `len` bytes, from the `i`-th answer on. */
  function Push(s: Schedule, i: nat, len: nat): (p: Pushed)
    requires Lawful(s)
    ensures p.count <= len && p.asked >= i && (len > 0 ==> p.asked > i) && (p.end.AllSent? ==> p.count == len)
    decreases len
  {
    if len == 0 then Pushed(0, i, AllSent)
    else
      match Reply(s, i, len)
      case WantWrite => Pushed(0, i + 1, Blocked)
      case Refuse => Pushed(0, i + 1, Failed)
      case Accept(n, attacked) =>
        if attacked then Pushed(n, i + 1, Attacked) else Further(n, Push(s, i + 1, len - n))
  }

  function Further(k: nat, p: Pushed): Pushed { p.(count := k + p.count) }

  /** One turn of the write loop, after `total` bytes. */
  lemma PushNext(s: Schedule, i: nat, len: nat, total: nat)
    requires len > 0 && Lawful(s)
    ensures Further(total, Push(s, i, len)) ==
            match Reply(s, i, len)
            case WantWrite => Pushed(total, i + 1, Blocked)
            case Refuse => Pushed(total, i + 1, Failed)
            case Accept(n, attacked) =>
              if attacked then Pushed(total + n, i + 1, Attacked) else Further(total + n, Push(s, i + 1, len - n))
  {
  }

  /** What the call returns. */
  function Code(p: Pushed): (r: int)
    ensures p.end.Failed? ==> r == -23
    ensures p.end.Attacked? ==> r == -7
    ensures p.end.Blocked? && p.count == 0 ==> r == -28
  {
    match p.end
    case AllSent => p.count
    case Blocked => if p.count == 0 then NOT_READY else p.count
    case Failed => CANT_WRITE
    case Attacked => BAD_STATE
  }

  lemma DeliverMore(before: seq<byte>, buf: seq<byte>, total: nat, n: nat)
    requires total + n <= |buf|
    ensures before + buf[..total] + buf[total..][..n] == before + buf[..total + n]
  {
    assert buf[..total] + buf[total..][..n] == buf[..total + n];
  }

  /** After the bytes `before`, the first `n` of `buf` are delivered. */
  ghost predicate Sent(delivered: seq<byte>, before: seq<byte>, buf: seq<byte>, n: int) {
    0 <= n <= |buf| && delivered == before + buf[..n]
  }

  class TlsSocket {
    const schedule: Schedule
    var asked: nat
    var delivered: seq<byte>

    constructor (schedule: Schedule)
      requires Lawful(schedule)
      ensures this.schedule == schedule && asked == 0 && delivered == []
    {
      this.schedule, asked, delivered := schedule, 0, [];
    }

    /** `SSL_write` on the bytes of `buf` from `start` on, all before them having been delivered. */
    method SslWrite(buf: seq<byte>, start: nat, len: nat, ghost before: seq<byte>) returns (a: Answer)
      requires Lawful(schedule) && len == |buf| - start && Sent(delivered, before, buf, start)
      modifies this
      ensures a == Reply(schedule, old(asked), len) && asked == old(asked) + 1
      ensures Sent(delivered, before, buf, if a.Accept? then start + a.n else start)
    {
      a := Reply(schedule, asked, len);
      asked := asked + 1;
      if a.Accept? {
        DeliverMore(before, buf, start, a.n);
        delivered := delivered + buf[start..][..a.n];
      }
    }

    /** One turn of the loop, in a call that does `p` in all. */
    method WriteSome(buf: seq<byte>, total: nat, len: nat, ghost before: seq<byte>, ghost p: Pushed)
      returns (a: Answer)
      requires Lawful(schedule) && 0 < len == |buf| - total && Sent(delivered, before, buf, total)
      requires p == Further(total, Push(schedule, asked, len))
      modifies this
      ensures Sent(delivered, before, buf, total + if a.Accept? then a.n else 0)
      ensures a.WantWrite? ==> p == Pushed(total, asked, Blocked)
      ensures a.Refuse? ==> p == Pushed(total, asked, Failed)
      ensures a.Accept? && a.attacked ==> p == Pushed(total + a.n, asked, Attacked)
      ensures a.Accept? && !a.attacked ==>
        0 < a.n <= len && p == Further(total + a.n, Push(schedule, asked, len - a.n))
    {
      PushNext(schedule, asked, len, total);
      a := SslWrite(buf, total, len, before);
    }

    /** `writeOss`. What it delivers is exactly a prefix, of the length that `Push` says; and its result tells that
        length if and only if the library's answers are fair. */
    method WriteOss(buf: seq<byte>) returns (r: int)
      requires Lawful(schedule)
      modifies this
      ensures buf == [] ==> r == -7 && asked == old(asked) && delivered == old(delivered)
      ensures buf != [] ==>
        var p := Push(schedule, old(asked), |buf|);
        r == Code(p) && asked == p.asked && delivered == old(delivered) + buf[..p.count]
      ensures buf != [] ==>
        (Told(r) == |delivered| - |old(delivered)| <==> AllFair(schedule, old(asked), |buf|))
    {
      if buf == [] {
        return BAD_STATE;
      }
      CountTold(schedule, asked, |buf|);
      r := WriteLoop(buf);
    }

    /** Its loop, and what follows. */
    method WriteLoop(buf: seq<byte>) returns (r: int)
      requires Lawful(schedule)
      requires buf != []
      modifies this
      ensures var p := Push(schedule, old(asked), |buf|);
              r == Code(p) && asked == p.asked && Sent(delivered, old(delivered), buf, p.count)
    {
      var total, len: nat, blocked := 0, |buf|, false;
      ghost var p := Push(schedule, asked, len);
      while len > 0 && !blocked
        invariant 0 <= total == |buf| - len && Sent(delivered, old(delivered), buf, total)
        invariant p == if blocked then Pushed(total, asked, Blocked) else Further(total, Push(schedule, asked, len))
        decreases len, !blocked
      {
        var a := WriteSome(buf, total, len, old(delivered), p);
        match a
        case WantWrite =>
          blocked := true;
        case Refuse =>
          return CANT_WRITE;
        case Accept(n, attacked) =>
          if attacked {
            return BAD_STATE;
          }
          total := total + n;
          len := len - n;
      }
      if total == 0 {
        return NOT_READY;
      }
      r := total;
    }

    /** A caller that submits what is left, counting not-ready as nothing, for so many rounds. What has been delivered
        is what it has counted, unless an error ends the exchange; and if the library does not fail and stops asking
        for time before the last round, the whole message is delivered. */
    method SendAll(message: seq<byte>, rounds: nat) returns (sent: nat, code: int)
      requires Lawful(schedule)
      modifies this
      ensures sent <= |message| && old(delivered) + message[..sent] <= delivered <= old(delivered) + message
      ensures code == 0 ==> delivered == old(delivered) + message[..sent]
      ensures 0 < rounds && |message| < 0x8000_0000 && Patient(schedule, old(asked), old(asked) + rounds - 1) ==>
        code == 0 && delivered == old(delivered) + message
    {
      sent, code := 0, 0;
      var round := 0;
      ghost var good := |message| < 0x8000_0000 && Patient(schedule, asked, asked + rounds - 1);
      while round < rounds && sent < |message|
        invariant 0 <= round <= rounds && sent <= |message| && asked >= old(asked) + round
        invariant delivered == old(delivered) + message[..sent]
        invariant good && 0 < round == rounds ==> sent == |message|
      {
        var rest := message[sent..];
        ghost var p := Push(schedule, asked, |rest|);
        if good {
          PatientSends(schedule, asked, |rest|, old(asked) + rounds - 1);
        }
        var r := WriteOss(rest);
        DeliverMore(old(delivered), message, sent, p.count);
        if r >= 0 {
          sent := sent + r;
        } else if r != NOT_READY {
          return sent, r;
        }
        round := round + 1;
      }
    }
  }

  /** No failure from answer `i` on, and no request for time from answer `quiet` on. */
  ghost predicate Patient(s: Schedule, i: int, quiet: int) {
    forall k: nat, n: int | k >= i && n > 0 ::
      var a := s(k, n); (a.Accept? && !a.attacked) || (a.WantWrite? && k < quiet)
  }

  lemma {:induction false} PatientSends(s: Schedule, i: nat, len: nat, quiet: int)
    requires Lawful(s) && 0 < len < 0x8000_0000 && Patient(s, i, quiet)
    ensures var p := Push(s, i, len); p.end.AllSent? || (p.end.Blocked? && i < quiet)
    decreases len
  {
    var a := Reply(s, i, len);
    if a.Accept? && a.n < len {
      PatientSends(s, i + 1, len - a.n, quiet);
    }
  }

  /** The bytes that are left when the library is asked for the `k`-th time from answer `i` on, after `k` answers that
      plainly accepted some; none, if it is not asked that often. */
  function Left(s: Schedule, i: nat, len: nat, k: nat): (left: nat)
    requires Lawful(s)
    ensures left <= len
    decreases k
  {
    if k == 0 || len == 0 then len
    else
      var a := Reply(s, i, len);
      if a.Accept? && !a.attacked then Left(s, i + 1, len - a.n, k - 1) else 0
  }

  /** The answer at `k`, if it is asked for, neither accepts under attack nor refuses after an earlier accept. */
  ghost predicate Fair(s: Schedule, i: nat, len: nat, k: nat)
    requires Lawful(s)
  {
    var left := Left(s, i, len, k);
    left > 0 ==> var a := Reply(s, i + k, left); !(a.Accept? && a.attacked) && (a.Refuse? ==> k == 0)
  }

  ghost predicate AllFair(s: Schedule, i: nat, len: nat)
    requires Lawful(s)
  {
    forall k: nat :: Fair(s, i, len, k)
  }

  /** The caller's count, an error taken as nothing sent. */
  function Told(r: int): nat { if r < 0 then 0 else r }

  /** The answer at `k` ends the call with an error. */
  ghost predicate Troubled(s: Schedule, i: nat, len: nat, k: nat)
    requires Lawful(s)
  {
    var left := Left(s, i, len, k);
    left > 0 && var a := Reply(s, i + k, left); a.Refuse? || (a.Accept? && a.attacked)
  }

  ghost predicate MeetsTrouble(s: Schedule, i: nat, len: nat)
    requires Lawful(s)
  {
    exists k: nat :: Troubled(s, i, len, k)
  }

  /** After a plain accept, the rest of the call is asked the same questions one answer later. */
  lemma LaterTrouble(s: Schedule, i: nat, len: nat)
    requires len > 0 && Lawful(s) && Reply(s, i, len).Accept? && !Reply(s, i, len).attacked
    ensures MeetsTrouble(s, i, len) <==> MeetsTrouble(s, i + 1, len - Reply(s, i, len).n)
  {
    var next, rest := i + 1, len - Reply(s, i, len).n;
    if k: nat :| Troubled(s, i, len, k) {
      assert k > 0 && next + (k - 1) == i + k;
      assert Troubled(s, next, rest, k - 1);
    }
    if k: nat :| Troubled(s, next, rest, k) {
      assert i + (k + 1) == next + k;
      assert Troubled(s, i, len, k + 1);
    }
  }

  /** A call ends with an error if and only if it meets trouble. */
  lemma {:induction false} TroubleExactly(s: Schedule, i: nat, len: nat)
    requires Lawful(s)
    ensures MeetsTrouble(s, i, len) <==> Push(s, i, len).end.Failed? || Push(s, i, len).end.Attacked?
    decreases len
  {
    var a := Reply(s, i, len);
    if len > 0 && a.Accept? && !a.attacked {
      LaterTrouble(s, i, len);
      TroubleExactly(s, i + 1, len - a.n);
    } else if len > 0 {
      assert Troubled(s, i, len, 0) <==> !a.WantWrite?;
    }
  }

  /** The exact condition, on the library's answers: the returned value, an error taken as nothing sent, tells how many
      bytes were delivered if and only if no answer refuses after an earlier one accepted and none accepts under
      attack. */
  lemma CountTold(s: Schedule, i: nat, len: nat)
    requires len > 0 && Lawful(s)
    ensures Told(Code(Push(s, i, len))) == Push(s, i, len).count <==> AllFair(s, i, len)
  {
    var a := Reply(s, i, len);
    TroubleExactly(s, i, len);
    forall k: nat
      ensures Fair(s, i, len, k) <==> !Troubled(s, i, len, k) || (k == 0 && a.Refuse?)
    {
    }
  }

  /** A message of 2^31 up to 2^32 bytes is refused at once: its length is negative, or zero, as an `int`. */
  lemma LongMessageRefused(s: Schedule, i: nat, len: nat)
    requires Lawful(s) && 0x8000_0000 <= len <= 0x1_0000_0000
    ensures Push(s, i, len) == Pushed(0, i + 1, Failed)
  {
    assert ToInt32(len) <= 0;
  }

  /** A library that takes one byte and then fails. */
  function OneByte(i: nat, requested: int): Answer {
    if i == 0 && requested > 0 then Accept(1, false) else Refuse
  }

  /** So bytes can be delivered by a call that reports only an error. */
  lemma UntoldBytes()
    ensures Lawful(OneByte) && Push(OneByte, 0, 2) == Pushed(1, 2, Failed) && Code(Push(OneByte, 0, 2)) == CANT_WRITE
  {
    OneByteReplies();
    PushNext(OneByte, 0, 2, 0);
    PushNext(OneByte, 1, 1, 1);
  }

  lemma OneByteReplies()
    ensures Lawful(OneByte) && Reply(OneByte, 0, 2) == Accept(1, false) && Reply(OneByte, 1, 1) == Refuse
  {
    assert ToInt32(2) == 2 && ToInt32(1) == 1;
  }
}
