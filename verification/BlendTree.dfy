/**
 The values that paks/assist/blend.js merges, and what a merge is, as a function on them.

 A tree is a primitive, an array or an object. Both arrays and objects are nodes; an object also has the names of its
 properties, in the order in which they were created.
 */
module BlendTree {
  import opened Sequences

  datatype Prim = Undefined | Null | Bool(b: bool) | Num(n: real) | NaN | Str(s: string)

  datatype Tree = Leaf(p: Prim) | Node(arr: bool, keys: seq<string>, kids: seq<Tree>) {
    predicate IsObj() { Node? && !arr }
  }

  ghost predicate WellFormed(t: Tree) {
    t.Node? ==>
      && (t.arr ==> t.keys == [])
      && (!t.arr ==> |t.keys| == |t.kids| && Distinct(t.keys))
      && forall i | 0 <= i < |t.kids| :: WellFormed(t.kids[i])
  }

  /** JavaScript's conversions, where an operand is not of the type that the operator is about. */
  datatype Js = Js(text: Tree -> string, equals: (string, Tree) -> bool, replace: (string, Tree) -> string,
                   plus: (Prim, Tree) -> Prim, minus: (Prim, Tree) -> Prim)

  // ---- Operators ----

  /** `Mix` is the empty operator: blend. */
  datatype Op = Mix | Add | Sub | Ask | Set

  function Prefix(c: char): (op: Op)
    ensures op == Mix <==> c !in "+-?="
  {
    match c
    case '+' => Add
    case '-' => Sub
    case '?' => Ask
    case '=' => Set
    case _ => Mix
  }

  predicate HasPrefix(key: string) { key != "" && Prefix(key[0]) != Mix }

  function Strip(key: string): string { if HasPrefix(key) then key[1..] else key }

  function OpOf(key: string, combine: Op): Op { if HasPrefix(key) then Prefix(key[0]) else combine }

  // ---- Objects ----

  /** The position of a property, or the number of properties. */
  function Find(keys: seq<string>, p: string): (j: nat)
    ensures j <= |keys| && (j < |keys| ==> keys[j] == p)
    ensures forall i | 0 <= i < j :: keys[i] != p
  {
    if keys == [] then 0 else if keys[0] == p then 0 else 1 + Find(keys[1..], p)
  }

  function Without<T>(s: seq<T>, j: nat): (r: seq<T>)
    requires j < |s|
    ensures |r| == |s| - 1
    ensures forall i | 0 <= i < j :: r[i] == s[i]
    ensures forall i | j <= i < |r| :: r[i] == s[i + 1]
  {
    s[..j] + s[j + 1..]
  }

  lemma FindElsewhere(keys: seq<string>, p: string, q: string)
    requires p !in keys && p != q
    ensures Find(keys + [p], q) == if q in keys then Find(keys, q) else |keys| + 1
  {
    var i, j := Find(keys, q), Find(keys + [p], q);
    if i < |keys| {
      assert (keys + [p])[i] == q;
    }
    if j < |keys| {
      assert keys[j] == (keys + [p])[j];
    }
  }

  lemma FindWithout(keys: seq<string>, j: nat, q: string)
    requires Distinct(keys) && j < |keys| && q != keys[j]
    ensures var i := Find(keys, q);
            Find(Without(keys, j), q) == if i == |keys| then |keys| - 1 else if i < j then i else i - 1
  {
    var i, k := Find(keys, q), Find(Without(keys, j), q);
    if i < |keys| {
      assert Without(keys, j)[if i < j then i else i - 1] == q;
    }
    if k < |keys| - 1 {
      assert keys[if k < j then k else k + 1] == q;
    }
  }

  function Append(d: Tree, p: string, v: Tree): Tree
    requires d.IsObj()
  {
    Node(false, d.keys + [p], d.kids + [v])
  }

  function Replace(d: Tree, j: nat, v: Tree): Tree
    requires d.Node? && j < |d.kids|
  {
    d.(kids := d.kids[j := v])
  }

  function Remove(d: Tree, j: nat): Tree
    requires d.IsObj() && j < |d.kids| == |d.keys|
  {
    Node(false, Without(d.keys, j), Without(d.kids, j))
  }

  // ---- The own properties of a source ----

  function Decimal(n: nat): (s: string)
    ensures s != ""
    ensures forall i | 0 <= i < |s| :: '0' <= s[i] <= '9'
  {
    if n < 10 then [('0' as int + n) as char] else Decimal(n / 10) + [('0' as int + n % 10) as char]
  }

  /** What `getOwnPropertyNames` yields: an array has its indices and its length. */
  function KeyAt(s: Tree, i: nat): string
    requires s.Node? && i < Count(s) && WellFormedShallow(s)
  {
    if !s.arr then s.keys[i] else if i < |s.kids| then Decimal(i) else "length"
  }

  predicate WellFormedShallow(s: Tree) { s.Node? && !s.arr ==> |s.keys| == |s.kids| }

  function Count(s: Tree): nat {
    if s.Leaf? then 0 else if s.arr then |s.kids| + 1 else |s.kids|
  }

  function ValAt(s: Tree, i: nat): Tree
    requires s.Node? && i < Count(s)
  {
    if i < |s.kids| then s.kids[i] else Leaf(Num(|s.kids| as real))
  }

  /** Reading decimal digits. */
  function Digits(s: string): nat
    requires forall i | 0 <= i < |s| :: '0' <= s[i] <= '9'
  {
    if s == "" then 0 else Digits(s[..|s| - 1]) * 10 + (s[|s| - 1] as int - '0' as int)
  }

  /** An index is written as JavaScript writes it: in decimal, without leading zeros. */
  lemma {:induction false} DecimalReads(n: nat)
    ensures Digits(Decimal(n)) == n && (n > 0 ==> Decimal(n)[0] != '0') && (n == 0 ==> Decimal(n) == "0")
  {
    var s := Decimal(n);
    if n < 10 {
      assert Digits(s[..0]) == 0;
    } else {
      DecimalReads(n / 10);
      assert s[..|s| - 1] == Decimal(n / 10);
    }
  }

  /** The indices and the length of an array are different names, without prefixes. */
  lemma ArrayNames(s: Tree, i: nat, j: nat)
    requires s.Node? && s.arr && i < j < Count(s)
    ensures !HasPrefix(KeyAt(s, i)) && !HasPrefix(KeyAt(s, j)) && KeyAt(s, i) != KeyAt(s, j)
  {
    DecimalReads(i);
    DecimalReads(j);
    assert Decimal(i)[0] != "length"[0];
  }

  // ---- The merge ----

  /** What happens to a property that the destination has. */
  datatype Change = Keep | Put(v: Tree) | Delete | Descend

  function Text(js: Js, s: Tree): string { if s.Leaf? && s.p.Str? then s.p.s else js.text(s) }

  function Plus(js: Js, d: Prim, s: Tree): Prim {
    if d.Num? && s.Leaf? && s.p.Num? then Num(d.n + s.p.n) else js.plus(d, s)
  }

  function Minus(js: Js, d: Prim, s: Tree): Prim {
    if d.Num? && s.Leaf? && s.p.Num? then Num(d.n - s.p.n) else js.minus(d, s)
  }

  function ChangeString(js: Js, d: Prim, s: Tree, op: Op): Change
    requires d.Str?
  {
    match op
    case Add => Put(Leaf(Str(d.s + " " + Text(js, s))))
    case Sub => if js.equals(d.s, s) then Delete else Put(Leaf(Str(js.replace(d.s, s))))
    case _ => Put(s)
  }

  function ChangeNumber(js: Js, d: Prim, s: Tree, op: Op): Change {
    match op
    case Add => Put(Leaf(Plus(js, d, s)))
    case Sub => Put(Leaf(Minus(js, d, s)))
    case _ => Put(s)
  }

  /** The case analysis on the destination's value. Array `+` appends without removing duplicates and array `-` removes
      nothing, since the source calls `indexOf` on the whole array and `slice` for `splice`. */
  function ChangeOf(js: Js, d: Tree, s: Tree, op: Op): Change {
    if op == Ask then Keep
    else if d.Node? && d.arr then
      (match op
       case Add => Put(d.(kids := d.kids + if s.Node? && s.arr then s.kids else [s]))
       case Sub => Keep
       case _ => Put(s))
    else if d.Node? then
      (if op == Set then Put(s) else if op == Sub then Delete else if s.Node? then Descend else Keep)
    else if d.p.Str? then ChangeString(js, d.p, s, op)
    else if d.p.Num? || d.p.NaN? then ChangeNumber(js, d.p, s, op)
    else if op == Sub then Delete
    else Put(s)
  }

  /** `blend`. A source without properties, or a destination that is not an object, leaves the destination alone. */
  function Blend(js: Js, d: Tree, s: Tree, combine: Op): (r: Tree)
    requires WellFormed(d) && WellFormed(s)
    ensures WellFormed(r) && (d.IsObj() ==> r.IsObj())
    decreases s, 2, 0
  {
    if !d.IsObj() || s.Leaf? then d else BlendFrom(js, d, s, 0, combine)
  }

  /** The loop over the source's properties, from the `i`-th on. */
  function BlendFrom(js: Js, d: Tree, s: Tree, i: nat, combine: Op): (r: Tree)
    requires WellFormed(d) && WellFormed(s) && d.IsObj() && s.Node? && i <= Count(s)
    ensures WellFormed(r) && r.IsObj()
    decreases s, 1, Count(s) - i
  {
    if i == Count(s) then d else BlendFrom(js, BlendKey(js, d, s, i, combine), s, i + 1, combine)
  }

  /** The body of the loop. */
  function BlendKey(js: Js, d: Tree, s: Tree, i: nat, combine: Op): (r: Tree)
    requires WellFormed(d) && WellFormed(s) && d.IsObj() && s.Node? && i < Count(s)
    ensures WellFormed(r) && r.IsObj()
    decreases s, 0, 0
  {
    var p, op, v := Strip(KeyAt(s, i)), OpOf(KeyAt(s, i), combine), ValAt(s, i);
    var j := Find(d.keys, p);
    if j == |d.keys| then (if op == Sub then d else Append(d, p, v))
    else
      match ChangeOf(js, d.kids[j], v, op)
      case Keep => d
      case Put(u) => WellFormedPut(js, d, j, v, op); Replace(d, j, u)
      case Delete => WellFormedRemove(d, j); Remove(d, j)
      case Descend => Replace(d, j, Blend(js, d.kids[j], v, op))
  }

  /** Several sources, one after another. */
  function BlendAll(js: Js, d: Tree, ss: seq<Tree>): (r: Tree)
    requires WellFormed(d) && forall i | 0 <= i < |ss| :: WellFormed(ss[i])
    ensures WellFormed(r) && (d.IsObj() ==> r.IsObj())
  {
    if ss == [] then d else Blend(js, BlendAll(js, d, ss[..|ss| - 1]), ss[|ss| - 1], Mix)
  }

  lemma WellFormedPut(js: Js, d: Tree, j: nat, v: Tree, op: Op)
    requires WellFormed(d) && d.IsObj() && j < |d.kids| && WellFormed(v) && ChangeOf(js, d.kids[j], v, op).Put?
    ensures WellFormed(Replace(d, j, ChangeOf(js, d.kids[j], v, op).v))
  {
    var u := ChangeOf(js, d.kids[j], v, op).v;
    assert WellFormed(d.kids[j]);
    assert WellFormed(u);
  }

  lemma WellFormedAppend(d: Tree, p: string, v: Tree)
    requires WellFormed(d) && d.IsObj() && p !in d.keys && WellFormed(v)
    ensures WellFormed(Append(d, p, v))
  {
    AddLast(d.keys, p);
  }

  lemma WellFormedRemove(d: Tree, j: nat)
    requires WellFormed(d) && d.IsObj() && j < |d.kids|
    ensures WellFormed(Remove(d, j))
  {
    var r := Remove(d, j);
    forall i | 0 <= i < |r.kids|
      ensures WellFormed(r.kids[i])
    {
      assert r.kids[i] == d.kids[if i < j then i else i + 1];
    }
    forall a, b | 0 <= a < b < |r.keys|
      ensures r.keys[a] != r.keys[b]
    {
      assert r.keys[a] == d.keys[if a < j then a else a + 1] && r.keys[b] == d.keys[if b < j then b else b + 1];
    }
  }
}
