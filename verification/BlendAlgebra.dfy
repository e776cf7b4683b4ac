/**
 What a blend means, property by property, and the laws that follow.

 `Overlay` is an independent definition: the value of each property of the result is given by the two values of that
 property, without a loop. On trees without operator prefixes the loop computes it, and from it come the laws that let
 configuration files be layered in any grouping and let counters be added in any order.
 */
module BlendAlgebra {
  import opened Sequences
  import opened BlendTree

  /** The value of an object's property. */
  function Get(t: Tree, k: string): (v: Option<Tree>)
    requires WellFormed(t) && t.IsObj()
    ensures v.Some? <==> k in t.keys
    ensures v.Some? ==> WellFormed(v.value) && v.value in t.kids
    ensures v.Some? ==> v.value == t.kids[Find(t.keys, k)]
  {
    var j := Find(t.keys, k);
    if j < |t.keys| then Some(t.kids[j]) else None
  }

  lemma GetAt(t: Tree, j: nat)
    requires WellFormed(t) && t.IsObj() && j < |t.keys|
    ensures Get(t, t.keys[j]) == Some(t.kids[j])
  {
    assert t.keys[Find(t.keys, t.keys[j])] == t.keys[j];
  }

  /** Objects with the same names in the same order and the same values are the same. */
  lemma SameObject(a: Tree, b: Tree)
    requires WellFormed(a) && a.IsObj() && WellFormed(b) && b.IsObj()
    requires a.keys == b.keys && forall j | 0 <= j < |a.keys| :: Get(a, a.keys[j]) == Get(b, a.keys[j])
    ensures a == b
  {
    forall j | 0 <= j < |a.keys|
      ensures a.kids[j] == b.kids[j]
    {
      GetAt(a, j);
      GetAt(b, j);
    }
    assert a.kids == b.kids;
  }

  // ---- What a blend leaves alone ----

  lemma GetRemove(d: Tree, j: nat, q: string)
    requires WellFormed(d) && d.IsObj() && j < |d.kids| && q != d.keys[j] && WellFormed(Remove(d, j))
    ensures Get(Remove(d, j), q) == Get(d, q)
  {
    var i := Find(d.keys, q);
    FindWithout(d.keys, j, q);
    if i < |d.keys| {
      assert Without(d.kids, j)[Find(Without(d.keys, j), q)] == d.kids[i];
    }
  }

  lemma PresentFrame(js: Js, d: Tree, s: Tree, i: nat, combine: Op, q: string)
    requires WellFormed(d) && d.IsObj() && WellFormed(s) && s.Node? && i < Count(s) && Strip(KeyAt(s, i)) != q
    requires Find(d.keys, Strip(KeyAt(s, i))) < |d.keys|
    ensures Get(BlendKey(js, d, s, i, combine), q) == Get(d, q)
  {
    var j, op, v := Find(d.keys, Strip(KeyAt(s, i))), OpOf(KeyAt(s, i), combine), ValAt(s, i);
    match ChangeOf(js, d.kids[j], v, op)
    case Keep =>
    case Put(u) =>
      WellFormedPut(js, d, j, v, op);
      assert WellFormed(Replace(d, j, u).kids[j]);
      GetReplace(d, j, u, q);
    case Delete =>
      WellFormedRemove(d, j);
      GetRemove(d, j, q);
    case Descend => GetReplace(d, j, BlendTree.Blend(js, d.kids[j], v, op), q);
  }

  lemma KeyFrame(js: Js, d: Tree, s: Tree, i: nat, combine: Op, q: string)
    requires WellFormed(d) && d.IsObj() && WellFormed(s) && s.Node? && i < Count(s) && Strip(KeyAt(s, i)) != q
    ensures Get(BlendKey(js, d, s, i, combine), q) == Get(d, q)
  {
    var p := Strip(KeyAt(s, i));
    if Find(d.keys, p) < |d.keys| {
      PresentFrame(js, d, s, i, combine, q);
    } else if OpOf(KeyAt(s, i), combine) != Sub {
      GetAppend(d, p, ValAt(s, i), q);
    }
  }

  /** The value at a path of property names. */
  function AtPath(t: Tree, path: seq<string>): Option<Tree>
    requires WellFormed(t)
    decreases |path|
  {
    if path == [] then Some(t)
    else if !t.IsObj() || Get(t, path[0]).None? then None
    else AtPath(Get(t, path[0]).value, path[1..])
  }

  /** Everything on the way to the last name of the path is an object. */
  ghost predicate Through(d: Tree, path: seq<string>)
    requires WellFormed(d)
    decreases |path|
  {
    && path != [] && d.IsObj()
    && (|path| > 1 ==> path[0] in d.keys && Through(Get(d, path[0]).value, path[1..]))
  }

  /** The source leaves the path alone: where its names strip to the last name of the path there is none, and where
      they strip to an earlier one they neither set nor delete, and leave the rest of the path alone. */
  ghost predicate Spares(s: Tree, combine: Op, path: seq<string>)
    requires WellFormed(s) && path != []
    decreases |path|
  {
    s.Node? ==> forall j | 0 <= j < Count(s) && Strip(KeyAt(s, j)) == path[0] ::
      var op := OpOf(KeyAt(s, j), combine);
      |path| > 1 && (op == Ask || ((op == Mix || op == Add) && Spares(ValAt(s, j), op, path[1..])))
  }

  lemma {:induction false} KeyFrameBelow(js: Js, d: Tree, s: Tree, i: nat, combine: Op, path: seq<string>)
    requires WellFormed(d) && WellFormed(s) && s.Node? && i < Count(s) && Through(d, path) && Spares(s, combine, path)
    ensures var r := BlendKey(js, d, s, i, combine); Through(r, path) && AtPath(r, path) == AtPath(d, path)
    decreases |path|, 0
  {
    if Strip(KeyAt(s, i)) != path[0] {
      KeyFrame(js, d, s, i, combine, path[0]);
    } else {
      var x, v, op := Get(d, path[0]).value, ValAt(s, i), OpOf(KeyAt(s, i), combine);
      KeyDescends(js, d, s, i, combine);
      if op != Ask && v.Node? {
        BlendFrame(js, x, v, op, path[1..]);
      }
    }
  }

  /** An object under the name is left or descended into, unless it is set or deleted. */
  lemma KeyDescends(js: Js, d: Tree, s: Tree, i: nat, combine: Op)
    requires WellFormed(d) && d.IsObj() && WellFormed(s) && s.Node? && i < Count(s) && Strip(KeyAt(s, i)) in d.keys
    requires Get(d, Strip(KeyAt(s, i))).value.IsObj()
    requires OpOf(KeyAt(s, i), combine) != Set && OpOf(KeyAt(s, i), combine) != Sub
    ensures var p, v, op := Strip(KeyAt(s, i)), ValAt(s, i), OpOf(KeyAt(s, i), combine);
            Get(BlendKey(js, d, s, i, combine), p) ==
            if op == Ask || v.Leaf? then Get(d, p) else Some(BlendTree.Blend(js, Get(d, p).value, v, op))
  {
    var p, v, op := Strip(KeyAt(s, i)), ValAt(s, i), OpOf(KeyAt(s, i), combine);
    if op != Ask && v.Node? {
      GetReplace(d, Find(d.keys, p), BlendTree.Blend(js, Get(d, p).value, v, op), p);
    }
  }

  lemma {:induction false} LoopFrame(js: Js, d: Tree, s: Tree, i: nat, combine: Op, path: seq<string>)
    requires WellFormed(d) && WellFormed(s) && s.Node? && i <= Count(s) && Through(d, path) && Spares(s, combine, path)
    ensures var r := BlendFrom(js, d, s, i, combine); Through(r, path) && AtPath(r, path) == AtPath(d, path)
    decreases |path|, 1, Count(s) - i
  {
    if i < Count(s) {
      KeyFrameBelow(js, d, s, i, combine, path);
      LoopFrame(js, BlendKey(js, d, s, i, combine), s, i + 1, combine, path);
    }
  }

  /** For any source, prefixes and inherited operator, a property at any depth keeps its value through all nested calls
      and deletions, if at its own level no name of the source strips to its name, and on the way down the source
      neither sets nor deletes. */
  lemma {:induction false} BlendFrame(js: Js, d: Tree, s: Tree, combine: Op, path: seq<string>)
    requires WellFormed(d) && WellFormed(s) && Through(d, path) && Spares(s, combine, path)
    ensures var r := BlendTree.Blend(js, d, s, combine); Through(r, path) && AtPath(r, path) == AtPath(d, path)
    decreases |path|, 2
  {
    if s.Node? {
      LoopFrame(js, d, s, 0, combine, path);
    }
  }

  // ---- The reference definition ----

  /** Two values of one property. By default an object absorbs an object and resists anything else, and any other
      value gives way; under `+` numbers are added. */
  function Over(mode: Op, x: Tree, y: Tree): (r: Tree)
    requires WellFormed(x) && WellFormed(y)
    ensures WellFormed(r)
    decreases x, 1
  {
    if x.IsObj() then (if y.IsObj() then Overlay(mode, x, y) else x)
    else if mode == Add && x.Leaf? && x.p.Num? && y.Leaf? && y.p.Num? then Leaf(Num(x.p.n + y.p.n))
    else y
  }

  function Both(mode: Op, d: Tree, s: Tree, k: string): (r: Tree)
    requires WellFormed(d) && d.IsObj() && WellFormed(s) && s.IsObj() && (k in d.keys || k in s.keys)
    ensures WellFormed(r)
    decreases d, 0, 0
  {
    match (Get(d, k), Get(s, k))
    case (Some(x), Some(y)) => Over(mode, x, y)
    case (Some(x), None) => x
    case (None, Some(y)) => y
  }

  function OverlayKeys(d: Tree, s: Tree): (ks: seq<string>)
    requires WellFormed(d) && d.IsObj() && WellFormed(s) && s.IsObj()
    ensures Distinct(ks) && forall k :: k in ks <==> k in d.keys || k in s.keys
  {
    NewKeysDistinct(s.keys, d.keys);
    d.keys + NewKeys(s.keys, d.keys)
  }

  /** Two objects: the properties of the first, then the new ones of the second. */
  function Overlay(mode: Op, d: Tree, s: Tree): (r: Tree)
    requires WellFormed(d) && d.IsObj() && WellFormed(s) && s.IsObj()
    ensures WellFormed(r) && r.IsObj() && r.keys == OverlayKeys(d, s)
    decreases d, 0, 1
  {
    var ks := OverlayKeys(d, s);
    Node(false, ks, seq(|ks|, j requires 0 <= j < |ks| => Both(mode, d, s, ks[j])))
  }

  function Join(mode: Op, x: Option<Tree>, y: Option<Tree>): (r: Option<Tree>)
    requires (x.Some? ==> WellFormed(x.value)) && (y.Some? ==> WellFormed(y.value))
    ensures r.Some? ==> WellFormed(r.value)
  {
    if x.None? then y else if y.None? then x else Some(Over(mode, x.value, y.value))
  }

  /** The property law. */
  lemma GetOverlay(mode: Op, d: Tree, s: Tree, k: string)
    requires WellFormed(d) && d.IsObj() && WellFormed(s) && s.IsObj()
    ensures Get(Overlay(mode, d, s), k) == Join(mode, Get(d, k), Get(s, k))
  {
    var r := Overlay(mode, d, s);
    if k in r.keys {
      var j := Find(r.keys, k);
      assert r.kids[j] == Both(mode, d, s, k);
    }
  }

  // ---- The loop computes it ----

  ghost predicate PrefixFree(t: Tree) {
    t.IsObj() ==> forall i | 0 <= i < |t.kids| && i < |t.keys| :: !HasPrefix(t.keys[i]) && PrefixFree(t.kids[i])
  }

  /** At no common path does one tree have an object and the other an array; under `+` there are only objects and
      numbers, at the same paths. */
  ghost predicate Compatible(mode: Op, x: Tree, y: Tree)
    requires WellFormed(x) && WellFormed(y)
    decreases x
  {
    if x.IsObj() && y.IsObj() then
      forall k | k in x.keys && k in y.keys :: Compatible(mode, Get(x, k).value, Get(y, k).value)
    else if mode == Add then x.Leaf? && x.p.Num? && y.Leaf? && y.p.Num?
    else !(x.IsObj() && y.Node?) && !(y.IsObj() && x.Node?)
  }

  /** The source with only its first `i` properties. */
  function Take(s: Tree, i: nat): (r: Tree)
    requires WellFormed(s) && s.IsObj() && i <= |s.keys|
    ensures WellFormed(r) && r.IsObj()
  {
    Node(false, s.keys[..i], s.kids[..i])
  }

  lemma GetTake(s: Tree, i: nat, k: string)
    requires WellFormed(s) && s.IsObj() && i <= |s.keys|
    ensures Get(Take(s, i), k) == if k in s.keys[..i] then Get(s, k) else None
  {
    var t := Take(s, i);
    if k in t.keys {
      var j := Find(t.keys, k);
      assert s.keys[j] == k;
      GetAt(s, j);
    }
  }

  lemma TakeAll(s: Tree)
    requires WellFormed(s) && s.IsObj()
    ensures Take(s, |s.keys|) == s
  {
    assert s.keys[..|s.keys|] == s.keys && s.kids[..|s.kids|] == s.kids;
  }

  lemma TakeNone(mode: Op, d: Tree, s: Tree)
    requires WellFormed(d) && d.IsObj() && WellFormed(s) && s.IsObj()
    ensures Overlay(mode, d, Take(s, 0)) == d
  {
    var r := Overlay(mode, d, Take(s, 0));
    assert r.keys == d.keys;
    forall j | 0 <= j < |d.keys|
      ensures Get(r, d.keys[j]) == Get(d, d.keys[j])
    {
      GetOverlay(mode, d, Take(s, 0), d.keys[j]);
    }
    SameObject(r, d);
  }

  lemma GetReplace(d: Tree, j: nat, v: Tree, k: string)
    requires WellFormed(d) && d.IsObj() && j < |d.kids| && WellFormed(v)
    ensures WellFormed(Replace(d, j, v))
    ensures Get(Replace(d, j, v), k) == if k == d.keys[j] then Some(v) else Get(d, k)
  {
    var i := Find(d.keys, k);
    if k == d.keys[j] {
      GetAt(Replace(d, j, v), j);
    }
  }

  lemma GetAppend(d: Tree, p: string, v: Tree, k: string)
    requires WellFormed(d) && d.IsObj() && p !in d.keys && WellFormed(v)
    ensures WellFormed(Append(d, p, v))
    ensures Get(Append(d, p, v), k) == if k == p then Some(v) else Get(d, k)
  {
    if k == p {
      GetAt(Append(d, p, v), |d.keys|);
    } else {
      FindElsewhere(d.keys, p, k);
    }
  }

  predicate Lawful(mode: Op) { mode == Mix || mode == Add }

  lemma KeysAfter(js: Js, mode: Op, d: Tree, s: Tree, i: nat, cur: Tree)
    requires WellFormed(d) && d.IsObj() && WellFormed(s) && s.IsObj() && i < |s.keys| && Lawful(mode)
    requires !HasPrefix(s.keys[i]) && WellFormed(cur) && cur.IsObj() && Get(cur, s.keys[i]) == Get(d, s.keys[i])
    requires Get(d, s.keys[i]).Some? ==> OverHolds(js, mode, Get(d, s.keys[i]).value, s.kids[i])
    ensures BlendKey(js, cur, s, i, mode).keys == if s.keys[i] in d.keys then cur.keys else cur.keys + [s.keys[i]]
  {
    if s.keys[i] in cur.keys {
      StepPresent(js, mode, d, s, i, cur);
    } else {
      assert BlendKey(js, cur, s, i, mode) == Append(cur, s.keys[i], s.kids[i]);
    }
  }

  /** One turn of the loop adds one property of the source. */
  lemma OverlayStep(js: Js, mode: Op, d: Tree, s: Tree, i: nat, cur: Tree)
    requires WellFormed(d) && d.IsObj() && WellFormed(s) && s.IsObj() && i < |s.keys| && Lawful(mode)
    requires !HasPrefix(s.keys[i]) && cur == Overlay(mode, d, Take(s, i))
    requires Get(d, s.keys[i]).Some? ==> OverHolds(js, mode, Get(d, s.keys[i]).value, s.kids[i])
    ensures BlendKey(js, cur, s, i, mode) == Overlay(mode, d, Take(s, i + 1))
  {
    var r, next := BlendKey(js, cur, s, i, mode), Overlay(mode, d, Take(s, i + 1));
    OverlayMore(mode, d, s, i, s.keys[i]);
    KeysAfter(js, mode, d, s, i, cur);
    NewKeysTake(s.keys, i, d.keys);
    assert r.keys == next.keys;
    forall j | 0 <= j < |r.keys|
      ensures Get(r, r.keys[j]) == Get(next, r.keys[j])
    {
      OverlayMore(mode, d, s, i, r.keys[j]);
      KeyMore(js, mode, d, s, i, cur, r.keys[j]);
    }
    SameObject(r, next);
  }

  /** The single change agrees with the reference: what the case analysis does to a property is `Over`. */
  ghost predicate OverHolds(js: Js, mode: Op, x: Tree, y: Tree)
    requires WellFormed(x) && WellFormed(y)
  {
    match ChangeOf(js, x, y, mode)
    case Keep => Over(mode, x, y) == x
    case Put(u) => Over(mode, x, y) == u
    case Delete => false
    case Descend => Over(mode, x, y) == BlendTree.Blend(js, x, y, mode)
  }

  lemma StepPresent(js: Js, mode: Op, d: Tree, s: Tree, i: nat, cur: Tree)
    requires WellFormed(d) && d.IsObj() && WellFormed(s) && s.IsObj() && i < |s.keys| && Lawful(mode)
    requires !HasPrefix(s.keys[i]) && WellFormed(cur) && cur.IsObj() && s.keys[i] in cur.keys
    requires Get(cur, s.keys[i]) == Get(d, s.keys[i]) && s.keys[i] in d.keys
    requires OverHolds(js, mode, Get(d, s.keys[i]).value, s.kids[i])
    ensures BlendKey(js, cur, s, i, mode)
         == Replace(cur, Find(cur.keys, s.keys[i]), Over(mode, Get(d, s.keys[i]).value, s.kids[i]))
  {
    var j, x := Find(cur.keys, s.keys[i]), Get(d, s.keys[i]).value;
    assert cur.kids[j] == x;
    if ChangeOf(js, x, s.kids[i], mode).Keep? {
      assert cur.kids[j := x] == cur.kids;
    }
  }

  /** One more property of the source changes that property of the overlay and no other. */
  lemma OverlayMore(mode: Op, d: Tree, s: Tree, i: nat, k: string)
    requires WellFormed(d) && d.IsObj() && WellFormed(s) && s.IsObj() && i < |s.keys|
    ensures Get(Overlay(mode, d, Take(s, i + 1)), k)
         == if k == s.keys[i] then Join(mode, Get(d, k), Some(s.kids[i])) else Get(Overlay(mode, d, Take(s, i)), k)
    ensures Get(Overlay(mode, d, Take(s, i)), s.keys[i]) == Get(d, s.keys[i])
  {
    var p := s.keys[i];
    assert s.keys[..i + 1] == s.keys[..i] + [p] && p !in s.keys[..i];
    GetOverlay(mode, d, Take(s, i), k);
    GetOverlay(mode, d, Take(s, i + 1), k);
    GetOverlay(mode, d, Take(s, i), p);
    GetTake(s, i, k);
    GetTake(s, i + 1, k);
    GetTake(s, i, p);
    GetAt(s, i);
  }

  /** So does one turn of the loop. */
  lemma KeyMore(js: Js, mode: Op, d: Tree, s: Tree, i: nat, cur: Tree, k: string)
    requires WellFormed(d) && d.IsObj() && WellFormed(s) && s.IsObj() && i < |s.keys| && Lawful(mode)
    requires !HasPrefix(s.keys[i]) && WellFormed(cur) && cur.IsObj() && Get(cur, s.keys[i]) == Get(d, s.keys[i])
    requires Get(d, s.keys[i]).Some? ==> OverHolds(js, mode, Get(d, s.keys[i]).value, s.kids[i])
    ensures Get(BlendKey(js, cur, s, i, mode), k)
         == if k == s.keys[i] then Join(mode, Get(d, k), Some(s.kids[i])) else Get(cur, k)
  {
    var p := s.keys[i];
    if p in cur.keys {
      StepPresent(js, mode, d, s, i, cur);
      GetReplace(cur, Find(cur.keys, p), Over(mode, Get(d, p).value, s.kids[i]), k);
    } else {
      assert BlendKey(js, cur, s, i, mode) == Append(cur, p, s.kids[i]);
      GetAppend(cur, p, s.kids[i], k);
    }
  }

  lemma {:induction false} LoopIsOverlay(js: Js, mode: Op, d: Tree, s: Tree, i: nat)
    requires WellFormed(d) && d.IsObj() && WellFormed(s) && s.IsObj() && i <= |s.keys| && Lawful(mode)
    requires PrefixFree(s) && Compatible(mode, d, s)
    ensures BlendFrom(js, Overlay(mode, d, Take(s, i)), s, i, mode) == Overlay(mode, d, s)
    decreases s, |s.keys| - i
  {
    if i == |s.keys| {
      TakeAll(s);
    } else {
      if s.keys[i] in d.keys {
        GetAt(s, i);
        ChangeIsOver(js, mode, Get(d, s.keys[i]).value, s.kids[i]);
      }
      OverlayStep(js, mode, d, s, i, Overlay(mode, d, Take(s, i)));
      LoopIsOverlay(js, mode, d, s, i + 1);
    }
  }

  lemma {:induction false} ChangeIsOver(js: Js, mode: Op, x: Tree, y: Tree)
    requires WellFormed(x) && WellFormed(y) && PrefixFree(y) && Compatible(mode, x, y) && Lawful(mode)
    ensures OverHolds(js, mode, x, y)
    decreases y
  {
    if x.IsObj() && y.IsObj() {
      BlendIsOverlay(js, mode, x, y);
    }
  }

  /** On objects without prefixes, `blend` is the overlay: by default if no array meets an object, under an inherited
      `+` if there are only numbers, at the same paths. */
  lemma {:induction false} BlendIsOverlay(js: Js, mode: Op, d: Tree, s: Tree)
    requires WellFormed(d) && d.IsObj() && WellFormed(s) && s.IsObj() && Lawful(mode)
    requires PrefixFree(s) && Compatible(mode, d, s)
    ensures BlendTree.Blend(js, d, s, mode) == Overlay(mode, d, s)
    decreases s, |s.keys| + 1
  {
    LoopIsOverlay(js, mode, d, s, 0);
    TakeNone(mode, d, s);
  }

  // ---- The laws ----

  lemma OverlayKeysAssoc(mode: Op, a: Tree, b: Tree, c: Tree)
    requires WellFormed(a) && a.IsObj() && WellFormed(b) && b.IsObj() && WellFormed(c) && c.IsObj()
    ensures Overlay(mode, Overlay(mode, a, b), c).keys == Overlay(mode, a, Overlay(mode, b, c)).keys
  {
    NewKeysAssoc(a.keys, b.keys, c.keys);
  }

  /** Overlaying is associative. */
  lemma {:induction false} OverAssoc(mode: Op, x: Tree, y: Tree, z: Tree)
    requires WellFormed(x) && WellFormed(y) && WellFormed(z)
    requires mode == Add ==> Compatible(mode, x, y) && Compatible(mode, y, z) && Compatible(mode, x, z)
    ensures Over(mode, Over(mode, x, y), z) == Over(mode, x, Over(mode, y, z))
    decreases x, 1
  {
    if x.IsObj() && y.IsObj() && z.IsObj() {
      OverlayAssoc(mode, x, y, z);
    }
  }

  lemma {:induction false} OverlayAssoc(mode: Op, a: Tree, b: Tree, c: Tree)
    requires WellFormed(a) && a.IsObj() && WellFormed(b) && b.IsObj() && WellFormed(c) && c.IsObj()
    requires mode == Add ==> Compatible(mode, a, b) && Compatible(mode, b, c) && Compatible(mode, a, c)
    ensures Overlay(mode, Overlay(mode, a, b), c) == Overlay(mode, a, Overlay(mode, b, c))
    decreases a, 0
  {
    var l, r := Overlay(mode, Overlay(mode, a, b), c), Overlay(mode, a, Overlay(mode, b, c));
    OverlayKeysAssoc(mode, a, b, c);
    forall j | 0 <= j < |l.keys|
      ensures Get(l, l.keys[j]) == Get(r, l.keys[j])
    {
      GetThrice(mode, a, b, c, l.keys[j]);
      var x, y, z := Get(a, l.keys[j]), Get(b, l.keys[j]), Get(c, l.keys[j]);
      if x.Some? && y.Some? && z.Some? {
        OverAssoc(mode, x.value, y.value, z.value);
      }
    }
    SameObject(l, r);
  }

  lemma GetThrice(mode: Op, a: Tree, b: Tree, c: Tree, k: string)
    requires WellFormed(a) && a.IsObj() && WellFormed(b) && b.IsObj() && WellFormed(c) && c.IsObj()
    ensures Get(Overlay(mode, Overlay(mode, a, b), c), k) == Join(mode, Join(mode, Get(a, k), Get(b, k)), Get(c, k))
    ensures Get(Overlay(mode, a, Overlay(mode, b, c)), k) == Join(mode, Get(a, k), Join(mode, Get(b, k), Get(c, k)))
  {
    GetOverlay(mode, a, b, k);
    GetOverlay(mode, b, c, k);
    GetOverlay(mode, Overlay(mode, a, b), c, k);
    GetOverlay(mode, a, Overlay(mode, b, c), k);
  }

  /** Blending a configuration with itself changes nothing. */
  lemma {:induction false} OverIdempotent(x: Tree)
    requires WellFormed(x)
    ensures Over(Mix, x, x) == x
  {
    if x.IsObj() {
      var r := Overlay(Mix, x, x);
      NothingNew(x.keys, x.keys);
      assert r.keys == x.keys;
      forall j | 0 <= j < |r.keys|
        ensures Get(r, r.keys[j]) == Get(x, r.keys[j])
      {
        GetOverlay(Mix, x, x, x.keys[j]);
        GetAt(x, j);
        OverIdempotent(x.kids[j]);
      }
      SameObject(r, x);
    }
  }

  // ---- Layered configuration files ----

  lemma {:induction false} PrefixFreeOver(mode: Op, x: Tree, y: Tree)
    requires WellFormed(x) && WellFormed(y) && PrefixFree(x) && PrefixFree(y)
    ensures PrefixFree(Over(mode, x, y))
    decreases x
  {
    if x.IsObj() && y.IsObj() {
      var r := Overlay(mode, x, y);
      forall i | 0 <= i < |r.kids|
        ensures !HasPrefix(r.keys[i]) && PrefixFree(r.kids[i])
      {
        var k := r.keys[i];
        GetAt(r, i);
        GetOverlay(mode, x, y, k);
        assert Get(x, k).Some? ==> x.keys[Find(x.keys, k)] == k;
        assert Get(y, k).Some? ==> y.keys[Find(y.keys, k)] == k;
        if Get(x, k).Some? && Get(y, k).Some? {
          PrefixFreeOver(mode, Get(x, k).value, Get(y, k).value);
        }
      }
    }
  }

  /** Trees that pairwise never clash still do not after two of them are joined. */
  lemma {:induction false} CompatibleOver(mode: Op, x: Tree, y: Tree, z: Tree)
    requires WellFormed(x) && WellFormed(y) && WellFormed(z)
    requires Compatible(mode, x, y) && Compatible(mode, x, z) && Compatible(mode, y, z)
    ensures Compatible(mode, Over(mode, x, y), z) && Compatible(mode, x, Over(mode, y, z))
    decreases x
  {
    if x.IsObj() && y.IsObj() && z.IsObj() {
      var xy, yz := Overlay(mode, x, y), Overlay(mode, y, z);
      forall k | k in xy.keys && k in z.keys
        ensures Compatible(mode, Get(xy, k).value, Get(z, k).value)
      {
        GetOverlay(mode, x, y, k);
        if k in x.keys && k in y.keys {
          CompatibleOver(mode, Get(x, k).value, Get(y, k).value, Get(z, k).value);
        }
      }
      forall k | k in x.keys && k in yz.keys
        ensures Compatible(mode, Get(x, k).value, Get(yz, k).value)
      {
        GetOverlay(mode, y, z, k);
        if k in y.keys && k in z.keys {
          CompatibleOver(mode, Get(x, k).value, Get(y, k).value, Get(z, k).value);
        }
      }
    }
  }

  /** A configuration file: an object without prefixes. */
  ghost predicate Plain(t: Tree) { WellFormed(t) && t.IsObj() && PrefixFree(t) }

  /** `blend` itself is associative on files that never clash, by default and under an inherited `+`. */
  lemma BlendAssociative(js: Js, mode: Op, a: Tree, b: Tree, c: Tree)
    requires Plain(a) && Plain(b) && Plain(c) && Lawful(mode)
    requires Compatible(mode, a, b) && Compatible(mode, a, c) && Compatible(mode, b, c)
    ensures BlendTree.Blend(js, BlendTree.Blend(js, a, b, mode), c, mode)
         == BlendTree.Blend(js, a, BlendTree.Blend(js, b, c, mode), mode)
  {
    BlendIsOverlay(js, mode, a, b);
    BlendIsOverlay(js, mode, b, c);
    CompatibleOver(mode, a, b, c);
    PrefixFreeOver(mode, b, c);
    BlendIsOverlay(js, mode, Overlay(mode, a, b), c);
    BlendIsOverlay(js, mode, a, Overlay(mode, b, c));
    OverlayAssoc(mode, a, b, c);
  }

  /** No tree clashes with itself. */
  lemma {:induction false} SelfCompatible(x: Tree)
    requires WellFormed(x)
    ensures Compatible(Mix, x, x)
  {
    if x.IsObj() {
      forall k | k in x.keys
        ensures Compatible(Mix, Get(x, k).value, Get(x, k).value)
      {
        SelfCompatible(Get(x, k).value);
      }
    }
  }

  lemma BlendIdempotent(js: Js, a: Tree)
    requires Plain(a)
    ensures BlendTree.Blend(js, a, a, Mix) == a
  {
    SelfCompatible(a);
    BlendIsOverlay(js, Mix, a, a);
    OverIdempotent(a);
  }

  ghost predicate Layers(fs: seq<Tree>) {
    && (forall i | 0 <= i < |fs| :: Plain(fs[i]))
    && (forall i, j | 0 <= i < j < |fs| :: Compatible(Mix, fs[i], fs[j]))
  }

  /** The loop of the build script over the files `i` up to `j`: each is blended into the configuration so far. */
  ghost function Layered(js: Js, fs: seq<Tree>, i: nat, j: nat): (r: Tree)
    requires i < j <= |fs| && Layers(fs)
    ensures WellFormed(r) && r.IsObj()
    decreases j
  {
    if j == i + 1 then fs[i] else BlendTree.Blend(js, Layered(js, fs, i, j - 1), fs[j - 1], Mix)
  }

  lemma LayerOne(js: Js, c: Tree, f: Tree, z: Tree)
    requires Plain(c) && Plain(f) && Plain(z)
    requires Compatible(Mix, c, f) && Compatible(Mix, c, z) && Compatible(Mix, f, z)
    ensures Plain(BlendTree.Blend(js, c, f, Mix)) && Compatible(Mix, BlendTree.Blend(js, c, f, Mix), z)
    ensures Compatible(Mix, c, BlendTree.Blend(js, f, z, Mix))
  {
    BlendIsOverlay(js, Mix, c, f);
    BlendIsOverlay(js, Mix, f, z);
    PrefixFreeOver(Mix, c, f);
    CompatibleOver(Mix, c, f, z);
  }

  /** Layering keeps clear of every later file. */
  lemma {:induction false} LayeredPlain(js: Js, fs: seq<Tree>, i: nat, j: nat)
    requires i < j <= |fs| && Layers(fs)
    ensures Plain(Layered(js, fs, i, j))
    ensures forall k | j <= k < |fs| :: Compatible(Mix, Layered(js, fs, i, j), fs[k])
    decreases j
  {
    if j > i + 1 {
      LayeredPlain(js, fs, i, j - 1);
      var c := Layered(js, fs, i, j - 1);
      BlendIsOverlay(js, Mix, c, fs[j - 1]);
      PrefixFreeOver(Mix, c, fs[j - 1]);
      forall k | j <= k < |fs|
        ensures Compatible(Mix, Layered(js, fs, i, j), fs[k])
      {
        LayerOne(js, c, fs[j - 1], fs[k]);
      }
    }
  }

  lemma {:induction false} LayeredApart(js: Js, fs: seq<Tree>, i: nat, m: nat, j: nat)
    requires i < m < j <= |fs| && Layers(fs)
    ensures Plain(Layered(js, fs, i, m)) && Plain(Layered(js, fs, m, j))
    ensures Compatible(Mix, Layered(js, fs, i, m), Layered(js, fs, m, j))
    decreases j
  {
    LayeredPlain(js, fs, i, m);
    LayeredPlain(js, fs, m, j);
    if j > m + 1 {
      LayeredApart(js, fs, i, m, j - 1);
      LayeredApartNext(js, fs, Layered(js, fs, i, m), m, j - 1);
    }
  }

  lemma LayeredApartNext(js: Js, fs: seq<Tree>, c: Tree, m: nat, j: nat)
    requires m < j < |fs| && Layers(fs) && Plain(c) && Plain(Layered(js, fs, m, j))
    requires Compatible(Mix, c, Layered(js, fs, m, j)) && Compatible(Mix, c, fs[j])
    ensures Compatible(Mix, c, Layered(js, fs, m, j + 1))
  {
    LayeredPlain(js, fs, m, j);
    LayerOne(js, c, Layered(js, fs, m, j), fs[j]);
  }

  lemma RegroupLast(js: Js, fs: seq<Tree>, i: nat, m: nat, j: nat)
    requires i < m < j < |fs| && Layers(fs)
    ensures BlendTree.Blend(js, BlendTree.Blend(js, Layered(js, fs, i, m), Layered(js, fs, m, j), Mix), fs[j], Mix)
         == BlendTree.Blend(js, Layered(js, fs, i, m), BlendTree.Blend(js, Layered(js, fs, m, j), fs[j], Mix), Mix)
  {
    LayeredApart(js, fs, i, m, j);
    LayeredPlain(js, fs, i, m);
    LayeredPlain(js, fs, m, j);
    BlendAssociative(js, Mix, Layered(js, fs, i, m), Layered(js, fs, m, j), fs[j]);
  }

  /** Files can be regrouped freely: layering them one by one is layering any two consecutive groups. */
  lemma {:induction false} Regroup(js: Js, fs: seq<Tree>, i: nat, m: nat, j: nat)
    requires i < m < j <= |fs| && Layers(fs)
    ensures Layered(js, fs, i, j) == BlendTree.Blend(js, Layered(js, fs, i, m), Layered(js, fs, m, j), Mix)
    decreases j
  {
    if j > m + 1 {
      Regroup(js, fs, i, m, j - 1);
      RegroupLast(js, fs, i, m, j - 1);
    }
  }

  /** The heap's account of the same loop. */
  lemma {:induction false} LayeredIsBlendAll(js: Js, fs: seq<Tree>, j: nat)
    requires 0 < j <= |fs| && Layers(fs)
    ensures Layered(js, fs, 0, j) == BlendAll(js, fs[0], fs[1..j])
    decreases j
  {
    if j > 1 {
      LayeredIsBlendAll(js, fs, j - 1);
      assert fs[1..j][..j - 2] == fs[1..j - 1] && fs[1..j][j - 2] == fs[j - 1];
    } else {
      assert fs[1..1] == [];
    }
  }

  // ---- Sums ----

  function AddOption(x: Option<real>, y: Option<real>): Option<real> {
    if x.None? then y else if y.None? then x else Some(x.value + y.value)
  }

  /** The number at a path of property names. */
  function At(t: Tree, path: seq<string>): Option<real>
    requires WellFormed(t)
    decreases |path|
  {
    if path == [] then (if t.Leaf? && t.p.Num? then Some(t.p.n) else None)
    else if !t.IsObj() || Get(t, path[0]).None? then None
    else At(Get(t, path[0]).value, path[1..])
  }

  lemma {:induction false} SumAt(x: Tree, y: Tree, path: seq<string>)
    requires WellFormed(x) && WellFormed(y) && Compatible(Add, x, y)
    ensures At(Over(Add, x, y), path) == AddOption(At(x, path), At(y, path))
    decreases |path|
  {
    if path != [] && x.IsObj() {
      GetOverlay(Add, x, y, path[0]);
      if path[0] in x.keys && path[0] in y.keys {
        SumAt(Get(x, path[0]).value, Get(y, path[0]).value, path[1..]);
      }
    }
  }

  lemma {:induction false} CompatibleSymmetric(x: Tree, y: Tree)
    requires WellFormed(x) && WellFormed(y) && Compatible(Add, x, y)
    ensures Compatible(Add, y, x)
  {
    if x.IsObj() {
      forall k | k in y.keys && k in x.keys
        ensures Compatible(Add, Get(y, k).value, Get(x, k).value)
      {
        CompatibleSymmetric(Get(x, k).value, Get(y, k).value);
      }
    }
  }

  /** Under an inherited `+`, the number at every path is the sum of the two, and a path that only one of them has is
      kept: so the order of the operands does not matter to any path. */
  lemma BlendSums(js: Js, a: Tree, b: Tree, path: seq<string>)
    requires Plain(a) && Plain(b) && Compatible(Add, a, b)
    ensures At(BlendTree.Blend(js, a, b, Add), path) == AddOption(At(a, path), At(b, path))
    ensures At(BlendTree.Blend(js, a, b, Add), path) == At(BlendTree.Blend(js, b, a, Add), path)
  {
    CompatibleSymmetric(a, b);
    BlendIsOverlay(js, Add, a, b);
    BlendIsOverlay(js, Add, b, a);
    SumAt(a, b, path);
    SumAt(b, a, path);
  }
}
