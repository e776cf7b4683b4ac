/**
 What becomes of a source two of whose names strip alike. The first may lend its object or array to the destination,
 uncloned, and the second may then change it there.
 */
module BlendCollision {
  import opened Sequences
  import opened BlendTree
  import opened BlendHeap
  import opened BlendSteps
  import opened BlendLoop
  import opened BlendProps
  import BlendAlgebra

  // ---- When a collision changes the source ----

  /** The only names that strip alike are the `i`-th and the `j`-th, at the top. */
  ghost predicate SoleCollision(ts: Tree, i: nat, j: nat) {
    && WellFormed(ts) && ts.IsObj() && i < j < |ts.keys| && Strip(ts.keys[i]) == Strip(ts.keys[j])
    && (forall k, l | 0 <= k < l < |ts.keys| && (k != i || l != j) :: Strip(ts.keys[k]) != Strip(ts.keys[l]))
    && (forall k | 0 <= k < |ts.kids| :: DistinctStrips(ts.kids[k]))
  }

  /** What a value is after it was changed in place. */
  function InPlaceTree(js: Js, x: Tree, v: Tree, op: Op): Tree
    requires WellFormed(x) && WellFormed(v)
  {
    match ChangeOf(js, x, v, op)
    case Put(u) => u
    case Descend => BlendTree.Blend(js, x, v, op)
    case _ => x
  }

  /** The first of two colliding names lends its value to the destination's property, whose value is `x`, and the
      second changes it there. */
  ghost predicate Harms(js: Js, x: Tree, ts: Tree, combine: Op, i: nat, j: nat)
    requires WellFormed(ts) && ts.IsObj() && i < |ts.keys| && j < |ts.keys|
  {
    var v, w, op := ts.kids[i], ts.kids[j], OpOf(ts.keys[j], combine);
    && Lends(js, x, v, OpOf(ts.keys[i], combine))
    && InPlace(js, v, w, op) && InPlaceTree(js, v, w, op) != v
  }

  lemma {:induction false} RepUnique(m: Mem, v: Val, t: Tree, u: Tree)
    requires Rep(m, v, t) && Rep(m, v, u)
    ensures t == u
    decreases t
  {
    if t.Node? {
      forall i | 0 <= i < |t.kids|
        ensures t.kids[i] == u.kids[i]
      {
        RepUnique(m, m[v.r].kids[i], t.kids[i], u.kids[i]);
      }
      assert t.kids == u.kids;
    }
  }

  // ---- One property over the loop ----

  /** The property of the source with that name changes it as the case analysis says. */
  lemma KeyChanges(js: Js, d: Tree, ts: Tree, i: nat, combine: Op, x: Tree)
    requires Before(d, ts, i) && BlendAlgebra.Get(d, Strip(KeyAt(ts, i))) == Some(x)
    ensures var v, op := ValAt(ts, i), OpOf(KeyAt(ts, i), combine);
            BlendAlgebra.Get(BlendKey(js, d, ts, i, combine), Strip(KeyAt(ts, i))) ==
            if ChangeOf(js, x, v, op).Delete? then None else Some(InPlaceTree(js, x, v, op))
  {
    var p, v, op := Strip(KeyAt(ts, i)), ValAt(ts, i), OpOf(KeyAt(ts, i), combine);
    var j := Find(d.keys, p);
    match ChangeOf(js, x, v, op)
    case Keep =>
    case Put(u) =>
      WellFormedPut(js, d, j, v, op);
      BlendAlgebra.GetReplace(d, j, u, p);
    case Delete =>
      WellFormedRemove(d, j);
      FeetOfSelf(seq(|d.keys|, _ => {}), d.keys, {}, p);
    case Descend =>
      BlendAlgebra.GetReplace(d, j, BlendTree.Blend(js, x, v, op), p);
  }

  /** What the `i`-th property of the source makes of the destination's property of that name. */
  lemma KeyAfter(js: Js, t: Tree, ts: Tree, combine: Op, i: nat, x: Tree)
    requires Before(t, ts, i)
    requires BlendAlgebra.Get(After(js, t, ts, combine, i), Strip(KeyAt(ts, i))) == Some(x)
    ensures var v, op := ValAt(ts, i), OpOf(KeyAt(ts, i), combine);
            && BlendAlgebra.Get(After(js, t, ts, combine, i + 1), Strip(KeyAt(ts, i)))
               == (if ChangeOf(js, x, v, op).Delete? then None else Some(InPlaceTree(js, x, v, op)))
            && Lender(js, t, ts, combine, i + 1, Strip(KeyAt(ts, i)))
               == (if Lends(js, x, v, op) then Some(i)
                   else if InPlace(js, x, v, op) then Lender(js, t, ts, combine, i, Strip(KeyAt(ts, i)))
                   else None)
            && (Disturbs(js, t, ts, combine, i) <==> InPlace(js, x, v, op))
  {
    KeyChanges(js, After(js, t, ts, combine, i), ts, i, combine, x);
  }

  lemma LeafChanges(js: Js, x: Tree, v: Tree, op: Op)
    requires x.Leaf? && WellFormed(x) && WellFormed(v)
    ensures Lends(js, x, v, op) ==> InPlaceTree(js, x, v, op) == v && !ChangeOf(js, x, v, op).Delete?
    ensures !Lends(js, x, v, op) ==> InPlaceTree(js, x, v, op).Leaf?
  {
  }

  // ---- The two names ----

  lemma NoOthers(ts: Tree, i: nat, j: nat)
    requires SoleCollision(ts, i, j)
    ensures forall h | 0 <= h < Count(ts) && h != i && h != j :: Strip(KeyAt(ts, h)) != Strip(ts.keys[i])
    ensures KeyAt(ts, i) == ts.keys[i] && KeyAt(ts, j) == ts.keys[j]
    ensures ValAt(ts, i) == ts.kids[i] && ValAt(ts, j) == ts.kids[j]
  {
  }

  /** What the first of two names makes of a primitive: it lends its value, or leaves a primitive or nothing. */
  ghost predicate FirstMade(js: Js, ts: Tree, combine: Op, i: nat, x: Tree, now: Prop)
    requires ts.IsObj() && i < |ts.keys| == |ts.kids|
  {
    if Lends(js, x, ts.kids[i], OpOf(ts.keys[i], combine))
    then now.value == Some(ts.kids[i]) && now.lender == Some(i)
    else now.value.Some? ==> now.value.value.Leaf?
  }

  /** When the second of two colliding names is reached, the property is what the first has made of it. */
  lemma AtSecond(js: Js, t: Tree, ts: Tree, combine: Op, i: nat, j: nat, x: Tree,
                 props: seq<Prop>)
    requires SoleCollision(ts, i, j) && AllProps(js, t, ts, combine, Strip(ts.keys[i]), props)
    requires BlendAlgebra.Get(t, Strip(ts.keys[i])) == Some(x) && x.Leaf?
    ensures FirstMade(js, ts, combine, i, x, props[j])
  {
    AfterFirst(js, t, ts, combine, i, j, x, props);
    Stays(js, t, ts, combine, i, j, props);
  }

  /** Away from the two names, neither the property nor what it has borrowed changes. */
  lemma Stays(js: Js, t: Tree, ts: Tree, combine: Op, i: nat, j: nat, props: seq<Prop>)
    requires SoleCollision(ts, i, j) && AllProps(js, t, ts, combine, Strip(ts.keys[i]), props)
    ensures props[i] == props[0] && props[j] == props[i + 1] && props[Count(ts)] == props[j + 1]
  {
    NoOthers(ts, i, j);
    Passed(js, t, ts, combine, Strip(ts.keys[i]), props, 0, i);
    Passed(js, t, ts, combine, Strip(ts.keys[i]), props, i + 1, j);
    Passed(js, t, ts, combine, Strip(ts.keys[i]), props, j + 1, Count(ts));
  }

  lemma AfterFirst(js: Js, t: Tree, ts: Tree, combine: Op, i: nat, j: nat, x: Tree,
                   props: seq<Prop>)
    requires SoleCollision(ts, i, j) && AllProps(js, t, ts, combine, Strip(ts.keys[i]), props)
    requires BlendAlgebra.Get(t, Strip(ts.keys[i])) == Some(x) && x.Leaf?
    ensures FirstMade(js, ts, combine, i, x, props[i + 1])
  {
    var p := Strip(ts.keys[i]);
    NoOthers(ts, i, j);
    Stays(js, t, ts, combine, i, j, props);
    assert IsProp(js, t, ts, combine, p, props, 0) && IsProp(js, t, ts, combine, p, props, i);
    KeyAfter(js, t, ts, combine, i, x);
    LeafChanges(js, x, ts.kids[i], OpOf(ts.keys[i], combine));
    assert IsProp(js, t, ts, combine, p, props, i + 1);
  }

  /** The second name changes a value in place if and only if the first has lent one that it changes in place. */
  lemma SecondDisturbs(js: Js, t: Tree, ts: Tree, combine: Op, i: nat, j: nat, x: Tree,
                       props: seq<Prop>)
    requires SoleCollision(ts, i, j) && AllProps(js, t, ts, combine, Strip(ts.keys[i]), props)
    requires BlendAlgebra.Get(t, Strip(ts.keys[i])) == Some(x) && x.Leaf?
    ensures Disturbs(js, t, ts, combine, j) <==>
            && Lends(js, x, ts.kids[i], OpOf(ts.keys[i], combine))
            && InPlace(js, ts.kids[i], ts.kids[j], OpOf(ts.keys[j], combine))
  {
    NoOthers(ts, i, j);
    AtSecond(js, t, ts, combine, i, j, x, props);
    assert IsProp(js, t, ts, combine, Strip(ts.keys[i]), props, j);
  }

  /** A lent value that is then changed in place is what the destination's property is at the end. */
  lemma LentAtEnd(js: Js, t: Tree, ts: Tree, combine: Op, i: nat, j: nat, x: Tree,
                  props: seq<Prop>)
    requires SoleCollision(ts, i, j) && AllProps(js, t, ts, combine, Strip(ts.keys[i]), props)
    requires BlendAlgebra.Get(t, Strip(ts.keys[i])) == Some(x) && x.Leaf? && Disturbs(js, t, ts, combine, j)
    ensures props[Count(ts)].value == Some(InPlaceTree(js, ts.kids[i], ts.kids[j], OpOf(ts.keys[j], combine)))
    ensures props[Count(ts)].lender == Some(i)
  {
    var p := Strip(ts.keys[i]);
    NoOthers(ts, i, j);
    Stays(js, t, ts, combine, i, j, props);
    AtSecond(js, t, ts, combine, i, j, x, props);
    SecondDisturbs(js, t, ts, combine, i, j, x, props);
    assert IsProp(js, t, ts, combine, p, props, j) && IsProp(js, t, ts, combine, p, props, j + 1);
    KeyAfter(js, t, ts, combine, j, ts.kids[i]);
  }

  /** A part of the source that nothing disturbs represents what it did. */
  lemma PartSame(js: Js, m: Mem, a: Ref, v: Val, t: Tree, s: Val, ts: Tree, combine: Op, n: Mem, b: Ref, k: nat)
    requires Tracked(js, m, a, v, t, s, ts, combine, Count(ts), n, b) && k < |ts.kids| && DistinctStrips(ts.kids[k])
    requires Undisturbed(js, t, ts, combine, k, Count(ts))
    ensures s.r in m && Rep(n, m[s.r].kids[k], ts.kids[k])
  {
    assert Agree(m, n, KidFoot(m, s, ts, k));
    Frame(m, n, m[s.r].kids[k], ts.kids[k]);
  }

  lemma LentValue(js: Js, m: Mem, a: Ref, v: Val, t: Tree, s: Val, ts: Tree, combine: Op, n: Mem, b: Ref, i: nat,
                  j: nat, x: Tree)
    requires Tracked(js, m, a, v, t, s, ts, combine, Count(ts), n, b) && SoleCollision(ts, i, j)
    requires BlendAlgebra.Get(t, Strip(ts.keys[i])) == Some(x) && x.Leaf? && Disturbs(js, t, ts, combine, j)
    ensures s.r in m && Rep(n, m[s.r].kids[i], InPlaceTree(js, ts.kids[i], ts.kids[j], OpOf(ts.keys[j], combine)))
  {
    var cur, p := After(js, t, ts, combine, Count(ts)), Strip(ts.keys[i]);
    var props := PropsOf(js, t, ts, combine, p);
    LentAtEnd(js, t, ts, combine, i, j, x, props);
    assert IsProp(js, t, ts, combine, p, props, Count(ts));
    assert ValOf(n, v, cur, p) == m[s.r].kids[i];
    assert Rep(n, n[v.r].kids[Find(cur.keys, p)], cur.kids[Find(cur.keys, p)]);
  }

  /** The exact condition for one collision. For a destination that has a primitive under the name, the source still
      represents what it did, if and only if the first of the names does not lend its value or the second does not
      change it in place to another. */
  lemma CollisionExactly(js: Js, m: Mem, a: Ref, v: Val, t: Tree, s: Val, ts: Tree, combine: Op, n: Mem, b: Ref, i: nat,
                         j: nat, x: Tree)
    requires Tracked(js, m, a, v, t, s, ts, combine, Count(ts), n, b) && SoleCollision(ts, i, j)
    requires BlendAlgebra.Get(t, Strip(ts.keys[i])) == Some(x) && x.Leaf?
    ensures Rep(n, s, ts) <==> !Harms(js, x, ts, combine, i, j)
    ensures Harms(js, x, ts, combine, i, j) ==>
              Rep(n, m[s.r].kids[i], InPlaceTree(js, ts.kids[i], ts.kids[j], OpOf(ts.keys[j], combine)))
  {
    forall k | 0 <= k < |ts.kids| && (k != i || !Disturbs(js, t, ts, combine, j))
      ensures Rep(n, m[s.r].kids[k], ts.kids[k])
    {
      PartSame(js, m, a, v, t, s, ts, combine, n, b, k);
    }
    var props := PropsOf(js, t, ts, combine, Strip(ts.keys[i]));
    SecondDisturbs(js, t, ts, combine, i, j, x, props);
    if Disturbs(js, t, ts, combine, j) {
      LentValue(js, m, a, v, t, s, ts, combine, n, b, i, j, x);
      if Rep(n, s, ts) {
        RepUnique(n, m[s.r].kids[i], ts.kids[i], InPlaceTree(js, ts.kids[i], ts.kids[j], OpOf(ts.keys[j], combine)));
      }
    }
  }

  /** So some destination makes the source change, one with a boolean under the name, exactly if the first value is an
      object or an array that is neither subtracted nor asked for, and the second changes it in place to another. */
  lemma BooleanCollision(js: Js, m: Mem, a: Ref, v: Val, t: Tree, s: Val, ts: Tree, combine: Op, n: Mem, b: Ref, i: nat,
                         j: nat)
    requires Tracked(js, m, a, v, t, s, ts, combine, Count(ts), n, b) && SoleCollision(ts, i, j)
    requires BlendAlgebra.Get(t, Strip(ts.keys[i])) == Some(Leaf(Bool(true)))
    ensures !Rep(n, s, ts) <==>
            && ts.kids[i].Node? && OpOf(ts.keys[i], combine) != Ask && OpOf(ts.keys[i], combine) != Sub
            && InPlace(js, ts.kids[i], ts.kids[j], OpOf(ts.keys[j], combine))
            && InPlaceTree(js, ts.kids[i], ts.kids[j], OpOf(ts.keys[j], combine)) != ts.kids[i]
  {
    CollisionExactly(js, m, a, v, t, s, ts, combine, n, b, i, j, Leaf(Bool(true)));
    BooleanHarms(js, ts, combine, i, j);
  }

  lemma BooleanHarms(js: Js, ts: Tree, combine: Op, i: nat, j: nat)
    requires WellFormed(ts) && ts.IsObj() && i < |ts.keys| && j < |ts.keys|
    ensures Harms(js, Leaf(Bool(true)), ts, combine, i, j) <==>
            && ts.kids[i].Node? && OpOf(ts.keys[i], combine) != Ask && OpOf(ts.keys[i], combine) != Sub
            && InPlace(js, ts.kids[i], ts.kids[j], OpOf(ts.keys[j], combine))
            && InPlaceTree(js, ts.kids[i], ts.kids[j], OpOf(ts.keys[j], combine)) != ts.kids[i]
  {
  }

  /** An array is changed in place by `+`, to another array unless the second value is an empty one. */
  lemma ArrayGrows(js: Js, v: Tree, w: Tree, op: Op)
    requires WellFormed(v) && WellFormed(w) && v.Node? && v.arr
    ensures InPlace(js, v, w, op) && InPlaceTree(js, v, w, op) != v <==>
            op == Add && !(w.Node? && w.arr && w.kids == [])
  {
    if op == Add {
      var more := if w.Node? && w.arr then w.kids else [w];
      assert InPlaceTree(js, v, w, op) == v.(kids := v.kids + more) && |v.kids + more| == |v.kids| + |more|;
    }
  }
}
