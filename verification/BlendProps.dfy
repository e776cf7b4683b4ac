/**
 One property of the destination over the loop of `blend`: its value, whether it has borrowed the source's or is a clone
 of it; and so what a cloned property shares with the source.
 */
module BlendProps {
  import opened Sequences
  import opened BlendTree
  import opened BlendHeap
  import opened BlendSteps
  import opened BlendLoop
  import BlendAlgebra

  // ---- One property over the loop ----

  /** A property of the destination: its value, the property of the source that it has borrowed, and the one that it is
      a clone of. */
  datatype Prop = Prop(value: Option<Tree>, lender: Option<nat>, copier: Option<nat>)

  /** It after `i` properties of the source. */
  ghost function PropAt(js: Js, t: Tree, ts: Tree, combine: Op, i: nat, q: string): Prop
    requires WellFormed(t) && t.IsObj() && WellFormed(ts) && ts.Node? && i <= Count(ts)
  {
    Prop(BlendAlgebra.Get(After(js, t, ts, combine, i), q), Lender(js, t, ts, combine, i, q),
         Copier(js, t, ts, combine, i, q))
  }

  ghost predicate IsProp(js: Js, t: Tree, ts: Tree, combine: Op, q: string, props: seq<Prop>, h: int) {
    && WellFormed(t) && t.IsObj() && WellFormed(ts) && ts.Node? && 0 <= h <= Count(ts) && h < |props|
    && props[h] == PropAt(js, t, ts, combine, h, q)
  }

  /** The property over the whole loop. */
  ghost predicate AllProps(js: Js, t: Tree, ts: Tree, combine: Op, q: string, props: seq<Prop>) {
    && WellFormed(t) && t.IsObj() && WellFormed(ts) && ts.Node? && |props| == Count(ts) + 1
    && forall h | 0 <= h <= Count(ts) :: IsProp(js, t, ts, combine, q, props, h)
  }

  lemma PropsOf(js: Js, t: Tree, ts: Tree, combine: Op, q: string) returns (props: seq<Prop>)
    requires WellFormed(t) && t.IsObj() && WellFormed(ts) && ts.Node?
    ensures AllProps(js, t, ts, combine, q, props)
  {
    props := seq(Count(ts) + 1, i requires 0 <= i <= Count(ts) => PropAt(js, t, ts, combine, i, q));
  }

  /** Properties of the source with other names leave it alone. */
  lemma Passed(js: Js, t: Tree, ts: Tree, combine: Op, q: string, props: seq<Prop>, k: nat,
               l: nat)
    requires AllProps(js, t, ts, combine, q, props) && k <= l <= Count(ts)
    requires forall h | k <= h < l :: Strip(KeyAt(ts, h)) != q
    ensures props[l] == props[k]
  {
    forall h | k < h <= l
      ensures props[h] == props[h - 1]
    {
      PassedAt(js, t, ts, combine, q, props, h - 1, h);
    }
    ConstantOver(props, k, l);
  }

  lemma PassedAt(js: Js, t: Tree, ts: Tree, combine: Op, q: string, props: seq<Prop>, h: nat, next: nat)
    requires AllProps(js, t, ts, combine, q, props) && h < Count(ts) && next == h + 1 && Strip(KeyAt(ts, h)) != q
    ensures props[next] == props[h]
  {
    PassedOne(js, t, ts, combine, h, next, q);
    assert IsProp(js, t, ts, combine, q, props, h) && IsProp(js, t, ts, combine, q, props, next);
  }

  lemma PassedOne(js: Js, t: Tree, ts: Tree, combine: Op, i: nat, next: nat, q: string)
    requires Before(t, ts, i) && next == i + 1 && Strip(KeyAt(ts, i)) != q
    ensures PropAt(js, t, ts, combine, next, q) == PropAt(js, t, ts, combine, i, q)
  {
    BlendAlgebra.KeyFrame(js, After(js, t, ts, combine, i), ts, i, combine, q);
  }

  // ---- Clones ----

  /** The `i`-th name of the source is the only one that strips to `p`. */
  ghost predicate OnlyName(ts: Tree, i: nat, p: string) {
    && WellFormed(ts) && ts.Node? && i < Count(ts) && Strip(KeyAt(ts, i)) == p
    && forall k | 0 <= k < Count(ts) && k != i :: Strip(KeyAt(ts, k)) != p
  }

  /** After a blend, a property that was absent and is not subtracted, one that was set over an object or an array, and
      one that replaced an array, is a copy of the source's property as it was: every object of it, and every array
      that is not inside another, is a new cell. */
  lemma ClonedApart(js: Js, m: Mem, a: Ref, v: Val, t: Tree, s: Val, ts: Tree, combine: Op, n: Mem, b: Ref, i: nat,
                    p: string)
    requires Tracked(js, m, a, v, t, s, ts, combine, Count(ts), n, b) && OnlyName(ts, i, p)
    requires var op := OpOf(KeyAt(ts, i), combine);
             || (p !in t.keys && op != Sub)
             || (p in t.keys && BlendAlgebra.Get(t, p).value.Node? && op == Set)
             || (p in t.keys && BlendAlgebra.Get(t, p).value.Node? && BlendAlgebra.Get(t, p).value.arr && op == Mix)
    ensures var r, x := BlendTree.Blend(js, t, ts, combine), ValAt(ts, i);
            && Rep(n, v, r) && p in r.keys
            && Rep(n, ValOf(n, v, r, p), x) && Copied(m, a, EntryVal(m, s, i), x, n, ValOf(n, v, r, p))
            && forall c | c in OpenCells(n, ValOf(n, v, r, p), x) :: c >= a && c !in m
  {
    var r, x := BlendTree.Blend(js, t, ts, combine), ValAt(ts, i);
    AfterAll(js, t, ts, combine, Count(ts));
    assert r == After(js, t, ts, combine, Count(ts));
    var props := PropsOf(js, t, ts, combine, p);
    CopierAtEnd(js, t, ts, combine, i, p, props);
    assert IsProp(js, t, ts, combine, p, props, Count(ts));
    assert IsCopy(m, a, v, s, ts, n, r, p, i);
    assert Rep(n, n[v.r].kids[Find(r.keys, p)], r.kids[Find(r.keys, p)]);
    CopiedOpen(m, a, EntryVal(m, s, i), x, n, ValOf(n, v, r, p));
  }

  lemma CopierAtEnd(js: Js, t: Tree, ts: Tree, combine: Op, i: nat, p: string, props: seq<Prop>)
    requires OnlyName(ts, i, p) && AllProps(js, t, ts, combine, p, props)
    requires Clones(t, p, OpOf(KeyAt(ts, i), combine))
    ensures props[Count(ts)].copier == Some(i) && props[Count(ts)].value == Some(ValAt(ts, i))
  {
    Passed(js, t, ts, combine, p, props, 0, i);
    CopierStarts(js, t, ts, combine, i, p, props);
    Passed(js, t, ts, combine, p, props, i + 1, Count(ts));
  }

  lemma CopierStarts(js: Js, t: Tree, ts: Tree, combine: Op, i: nat, p: string, props: seq<Prop>)
    requires OnlyName(ts, i, p) && AllProps(js, t, ts, combine, p, props) && props[i] == props[0]
    requires Clones(t, p, OpOf(KeyAt(ts, i), combine))
    ensures props[i + 1].copier == Some(i) && props[i + 1].value == Some(ValAt(ts, i))
  {
    assert IsProp(js, t, ts, combine, p, props, 0) && IsProp(js, t, ts, combine, p, props, i);
    assert Clones(After(js, t, ts, combine, i), p, OpOf(KeyAt(ts, i), combine));
    KeyClones(js, After(js, t, ts, combine, i), ts, i, combine);
    assert IsProp(js, t, ts, combine, p, props, i + 1);
  }
}
