/**
 The protocol list that paks/mpr-openssl/mpr-openssl.c offers in a TLS handshake: each name after a byte that holds its
 length, as in section 3.1 of RFC 7301. The list is kept in a NUL-terminated buffer, and the length that is sent is the
 buffer's length as a string.
 */
module Alpn {
  import opened Codec
  import opened Sequences

  type Name = seq<byte>

  /** A C string. */
  ghost predicate IsText(p: Name) { 0 !in p }

  function Item(p: Name): (s: seq<byte>)
    ensures |s| == |p| + 1
  {
    [|p| % 256] + p
  }

  function Items(names: seq<Name>): (r: seq<seq<byte>>)
    ensures |r| == |names|
  {
    seq(|names|, i requires 0 <= i < |names| => Item(names[i]))
  }

  function Wire(names: seq<Name>): seq<byte> { Flatten(Items(names)) }

  lemma WireCons(names: seq<Name>)
    requires names != []
    ensures Wire(names) == Item(names[0]) + Wire(names[1..])
  {
    assert Items(names)[1..] == Items(names[1..]);
  }

  lemma WireSnoc(names: seq<Name>, k: nat)
    requires k < |names|
    ensures Wire(names[..k + 1]) == Wire(names[..k]) + Item(names[k])
  {
    assert Items(names[..k + 1]) == Items(names[..k]) + [Item(names[k])];
    FlattenAppend(Items(names[..k]), [Item(names[k])]);
    FlattenOne(Item(names[k]));
  }

  /** The computed size without its terminator. */
  function Size(names: seq<Name>): nat {
    if names == [] then 0 else Size(names[..|names| - 1]) + |names[|names| - 1]| + 1
  }

  lemma {:induction false} WireSize(names: seq<Name>)
    ensures |Wire(names)| == Size(names)
  {
    if names != [] {
      var k := |names| - 1;
      WireSize(names[..k]);
      WireSnoc(names, k);
      assert names[..k + 1] == names;
    }
  }

  lemma {:induction false} SizeMonotone(names: seq<Name>, k: nat)
    requires k < |names|
    ensures Size(names[..k]) + |names[k]| + 1 <= Size(names)
    decreases |names|
  {
    var n := |names| - 1;
    if k < n {
      SizeMonotone(names[..n], k);
      assert names[..n][..k] == names[..k];
    }
  }

  // ---- makeAlpn ----

  method MakeAlpn(names: seq<Name>) returns (pbuf: array<byte>)
    requires forall i | 0 <= i < |names| :: IsText(names[i])
    ensures fresh(pbuf) && pbuf.Length == |Wire(names)| + 1
    ensures names != [] ==> pbuf[..] == Wire(names) + [0]
  {
    var len, k := 1, 0;
    while k < |names|
      invariant 0 <= k <= |names| && len == 1 + Size(names[..k])
    {
      assert names[..k + 1][..k] == names[..k];
      len := len + |names[k]| + 1;
      k := k + 1;
    }
    assert names[..k] == names;
    WireSize(names);
    pbuf := new byte[len];
    var dp := 0;
    k := 0;
    while k < |names|
      invariant 0 <= k <= |names| && dp == |Wire(names[..k])| <= |Wire(names)|
      invariant pbuf[..dp] == Wire(names[..k])
      invariant k > 0 ==> pbuf[dp] == 0
    {
      WireSize(names[..k]);
      SizeMonotone(names, k);
      WireSnoc(names, k);
      ghost var before := pbuf[..dp];
      CopyItem(pbuf, dp, names[k]);
      dp := dp + 1 + |names[k]|;
      assert pbuf[..dp] == before + Item(names[k]);
      k := k + 1;
    }
    assert names[..k] == names;
  }

  /** The length byte, then `scopy`, which also writes a terminator. */
  method CopyItem(pbuf: array<byte>, dp: nat, proto: Name)
    requires dp + 1 + |proto| < pbuf.Length
    modifies pbuf
    ensures pbuf[..dp] == old(pbuf[..dp])
    ensures pbuf[dp..dp + 1 + |proto|] == Item(proto) && pbuf[dp + 1 + |proto|] == 0
  {
    pbuf[dp] := |proto| % 256;
    var i := 0;
    while i < |proto|
      invariant 0 <= i <= |proto| && pbuf[dp] == |proto| % 256
      invariant forall j | 0 <= j < dp :: pbuf[j] == old(pbuf[j])
      invariant forall j | 0 <= j < i :: pbuf[dp + 1 + j] == proto[j]
    {
      pbuf[dp + 1 + i] := proto[i];
      i := i + 1;
    }
    pbuf[dp + 1 + |proto|] := 0;
  }

  // ---- What the peer reads ----

  /** `slen`: the bytes before the first NUL. */
  function Text(s: seq<byte>): seq<byte> {
    if s == [] || s[0] == 0 then [] else [s[0]] + Text(s[1..])
  }

  /** What is sent for a list of names. */
  function Sent(names: seq<Name>): seq<byte> { Text(Wire(names) + [0]) }

  datatype Parsed = Bad | Names(list: seq<Name>)

  /** The receiver's view: names of 1 to 255 bytes, nothing left over. */
  function Parse(s: seq<byte>): Parsed {
    if s == [] then Names([])
    else
      var n: nat := s[0];
      if n == 0 || |s| <= n then Bad
      else
        match Parse(s[n + 1..])
        case Bad => Bad
        case Names(rest) => Names([s[1..n + 1]] + rest)
  }

  ghost predicate Sendable(names: seq<Name>) {
    forall i | 0 <= i < |names| :: 1 <= |names[i]| <= 255
  }

  lemma {:induction false} TextWhole(s: seq<byte>)
    requires 0 !in s
    ensures Text(s + [0]) == s
  {
    if s != [] {
      assert (s + [0])[1..] == s[1..] + [0];
      TextWhole(s[1..]);
    }
  }

  lemma {:induction false} WireHasNoNul(names: seq<Name>)
    requires Sendable(names) && forall i | 0 <= i < |names| :: IsText(names[i])
    ensures 0 !in Wire(names)
  {
    if names != [] {
      WireCons(names);
      WireHasNoNul(names[1..]);
    }
  }

  lemma {:induction false} ParseWire(names: seq<Name>)
    requires Sendable(names)
    ensures Parse(Wire(names)) == Names(names)
  {
    if names != [] {
      var s, p := Wire(names), names[0];
      WireCons(names);
      assert s[0] == |p|;
      assert s[1..1 + |p|] == p && s[1 + |p|..] == Wire(names[1..]);
      ParseWire(names[1..]);
      assert [p] + names[1..] == names;
    }
  }

  lemma {:induction false} ParsedSendable(s: seq<byte>)
    ensures Parse(s).Names? ==> Sendable(Parse(s).list)
    decreases |s|
  {
    if s != [] && 0 < s[0] < |s| {
      var n: nat := s[0];
      ParsedSendable(s[n + 1..]);
    }
  }

  /** The peer reads back the configured names, of which there is one at least, if and only if each has 1 to 255
      bytes. */
  lemma SentExactly(names: seq<Name>)
    requires names != [] && forall i | 0 <= i < |names| :: IsText(names[i])
    ensures Parse(Sent(names)) == Names(names) <==> Sendable(names)
    ensures Sendable(names) ==> |Sent(names)| == Size(names)
  {
    if Sendable(names) {
      WireHasNoNul(names);
      TextWhole(Wire(names));
      ParseWire(names);
      WireSize(names);
    }
    ParsedSendable(Sent(names));
  }

  /** A list that starts with an empty name, or with one of 256 bytes, is sent as no bytes at all. */
  lemma NothingSent(names: seq<Name>)
    requires names != [] && |names[0]| % 256 == 0
    ensures Sent(names) == []
  {
    WireCons(names);
    assert (Wire(names) + [0])[0] == 0;
  }

  /** A name of 257 bytes reads back as its first byte, followed by what its second byte makes of the rest. */
  lemma LongNameWraps(p: Name)
    requires |p| == 257 && IsText(p)
    ensures Sent([p]) == [1] + p && Parse(Sent([p])) != Names([p])
  {
    WireCons([p]);
    assert [p][1..] == [] && Wire([]) == [] && Wire([p]) == Item(p);
    TextWhole([1] + p);
    ParsedSendable(Sent([p]));
  }
}
