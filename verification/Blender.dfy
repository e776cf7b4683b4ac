/**
 The methods of paks/assist/blend.js over the heap of `BlendHeap`, and what they leave behind.
 */
module Blender {
  import opened Sequences
  import opened BlendTree
  import opened BlendHeap
  import opened BlendSteps
  import opened BlendLoop
  import opened BlendCollision
  import BlendAlgebra

  // ---- What a blend leaves of its source ----

  /** A source whose names differ once stripped comes out as it went in, every cell of it, although parts of it may
      now belong to the destination too. */
  lemma SourceUnchanged(m: Mem, a: Ref, dest: Val, td: Tree, src: Val, ts: Tree, n: Mem, b: Ref, u: Tree)
    requires Owns(m, dest, td) && Owns(m, src, ts) && Foot(m, dest, td) !! Foot(m, src, ts) && DistinctStrips(ts)
    requires Renewed(m, a, Foot(m, dest, td), Foot(m, src, ts), DistinctStrips(ts), n, b, dest, u)
    ensures Agree(m, n, Foot(m, src, ts)) && Owns(n, src, ts)
  {
    FootMapped(m, src, ts);
    Frame(m, n, src, ts);
  }

  // ---- Layers ----

  /** After `i` files: the configuration is a tree of its own, made of its first cells, cells of those files and new
      ones, and the files to come are as they were. */
  ghost predicate Layering(m: Mem, a: Ref, v: Val, t: Tree, fs: seq<Val>, ts: seq<Tree>, i: nat, n: Mem, b: Ref,
                           cur: Tree) {
    && |fs| == |ts| && i <= |fs| && Owns(m, v, t) && Files(m, v, t, fs, ts)
    && Grows(m, a, n, b) && Owns(n, v, cur) && WellFormed(cur) && cur.IsObj()
    && (forall j | i <= j < |fs| :: Agree(m, n, Foot(m, fs[j], ts[j])))
    && (forall x | x in Foot(n, v, cur) ::
          x in Foot(m, v, t) || x >= a || exists j :: 0 <= j < i && x in Foot(m, fs[j], ts[j]))
  }

  /** Separately parsed files. */
  ghost predicate Files(m: Mem, v: Val, t: Tree, fs: seq<Val>, ts: seq<Tree>)
    requires |fs| == |ts| && Rep(m, v, t)
  {
    && (forall j | 0 <= j < |fs| ::
          Owns(m, fs[j], ts[j]) && WellFormed(ts[j]) && Foot(m, v, t) !! Foot(m, fs[j], ts[j]))
    && (forall j, k | 0 <= j < k < |fs| :: Foot(m, fs[j], ts[j]) !! Foot(m, fs[k], ts[k]))
  }

  lemma LayerReady(m: Mem, a: Ref, v: Val, t: Tree, fs: seq<Val>, ts: seq<Tree>, i: nat, j: nat, n: Mem, b: Ref,
                   cur: Tree)
    requires Layering(m, a, v, t, fs, ts, i, n, b, cur) && i <= j < |fs|
    ensures Owns(n, fs[j], ts[j]) && Foot(n, fs[j], ts[j]) == Foot(m, fs[j], ts[j])
    ensures Foot(n, v, cur) !! Foot(n, fs[j], ts[j])
  {
    Frame(m, n, fs[j], ts[j]);
    FootMapped(m, fs[j], ts[j]);
    forall x | x in Foot(n, v, cur)
      ensures x !in Foot(m, fs[j], ts[j])
    {
      if k :| 0 <= k < i && x in Foot(m, fs[k], ts[k]) {
        assert Foot(m, fs[k], ts[k]) !! Foot(m, fs[j], ts[j]);
      }
    }
  }

  lemma LayerNext(m: Mem, a: Ref, v: Val, t: Tree, fs: seq<Val>, ts: seq<Tree>, i: nat, n: Mem, b: Ref, cur: Tree,
                  o: Mem, c: Ref, z: Tree)
    requires Layering(m, a, v, t, fs, ts, i, n, b, cur) && i < |fs| && WellFormed(z) && z.IsObj()
    requires Rep(n, fs[i], ts[i])
    requires Renewed(n, b, Foot(n, v, cur), Foot(n, fs[i], ts[i]), DistinctStrips(ts[i]), o, c, v, z)
    ensures Layering(m, a, v, t, fs, ts, i + 1, o, c, z)
  {
    LayerReady(m, a, v, t, fs, ts, i, i, n, b, cur);
    forall j | i < j < |fs|
      ensures Agree(m, o, Foot(m, fs[j], ts[j]))
    {
      LayerReady(m, a, v, t, fs, ts, i, j, n, b, cur);
      FootMapped(m, fs[j], ts[j]);
      assert Foot(m, fs[i], ts[i]) !! Foot(m, fs[j], ts[j]);
    }
    forall x | x in Foot(o, v, z)
      ensures x in Foot(m, v, t) || x >= a || exists j :: 0 <= j < i + 1 && x in Foot(m, fs[j], ts[j])
    {
      if x in Foot(m, fs[i], ts[i]) {
        assert 0 <= i < i + 1;
      } else if j :| 0 <= j < i && x in Foot(m, fs[j], ts[j]) {
        assert 0 <= j < i + 1;
      }
    }
  }

  // ---- The methods ----

  class JsHeap {
    const js: Js
    var mem: Mem
    var next: Ref

    ghost predicate Valid()
      reads this
    {
      Grows(mem, next, mem, next)
    }

    constructor (js: Js)
      ensures Valid() && this.js == js && mem == map[]
    {
      this.js, mem, next := js, map[], 0;
    }

    /** `clone`. Arrays are copied without their items. */
    method Clone(v: Val, ghost t: Tree) returns (c: Val)
      requires Valid() && Owns(mem, v, t)
      modifies this
      ensures Valid() && Cloned(old(mem), old(next), v, t, mem, next, c) && Copied(old(mem), old(next), v, t, mem, c)
      decreases t
    {
      if v.P? {
        return v;
      }
      var cell := mem[v.r];
      ghost var m, a := mem, next;
      if cell.arr {
        SharedKids(m, a, v, t);
        NewCell(m, a, v, t, m, a, cell.kids, KidFeet(m, v, t));
        c := R(next);
        mem, next := mem[next := cell], next + 1;
      } else {
        var vs := CloneKids(v, t);
        c := R(next);
        mem, next := mem[next := Cell(false, cell.keys, vs)], next + 1;
      }
    }

    /** The loop over an object's properties. */
    method CloneKids(v: Val, ghost t: Tree) returns (vs: seq<Val>)
      requires Valid() && Owns(mem, v, t) && t.IsObj()
      modifies this
      ensures Valid() && Cloned(old(mem), old(next), v, t, mem[next := Cell(t.arr, t.keys, vs)], next + 1, R(next))
      ensures Copied(old(mem), old(next), v, t, mem[next := Cell(t.arr, t.keys, vs)], R(next))
      decreases t, 0
    {
      ghost var m, a, fs: seq<set<Ref>> := mem, next, [];
      var kids := mem[v.r].kids;
      vs := [];
      var i := 0;
      while i < |kids|
        invariant 0 <= i <= |kids| && Valid()
        invariant CloningKids(m, a, v, t, i, mem, next, vs, fs) && KidsCopied(m, a, v, t, i, mem, vs)
      {
        ghost var n, b := mem, next;
        SameFrame(m, mem, kids[i], t.kids[i]);
        var c := Clone(kids[i], t.kids[i]);
        CloneNextKid(m, a, v, t, i, n, b, vs, fs, mem, next, c);
        CopyNextKid(m, a, v, t, i, n, b, vs, fs, mem, next, c);
        fs := fs + [Foot(mem, c, t.kids[i])];
        vs := vs + [c];
        i := i + 1;
      }
      NewCell(m, a, v, t, mem, next, vs, fs);
      CopyCell(m, a, v, t, mem, next, vs, fs);
    }

    /** `blend`. The destination then represents the blend of the two trees and is again a tree of its own, made of
        its own cells, cells of the source and new ones; no other cell has changed; and no cell of the source has, if
        its names differ once stripped. */
    method Blend(dest: Val, src: Val, combine: Op, ghost td: Tree, ghost ts: Tree)
      requires Valid() && Owns(mem, dest, td) && Owns(mem, src, ts) && WellFormed(td) && WellFormed(ts)
      requires Foot(mem, dest, td) !! Foot(mem, src, ts)
      modifies this
      ensures Valid()
      ensures Renewed(old(mem), old(next), Foot(old(mem), dest, td), Foot(old(mem), src, ts), DistinctStrips(ts),
                      mem, next, dest, BlendTree.Blend(js, td, ts, combine))
      ensures td.IsObj() && ts.Node? ==>
        Tracked(js, old(mem), old(next), dest, td, src, ts, combine, Count(ts), mem, next)
      decreases ts, 3
    {
      if src.P? || dest.P? || mem[dest.r].arr {
        RenewedByNothing(mem, next, dest, td, Foot(mem, src, ts), DistinctStrips(ts));
        return;
      }
      ghost var m, a := mem, next;
      ghost var trace := BlendEach(dest, src, combine, td, ts);
      TraceTracked(js, m, a, dest, td, src, ts, combine, trace, Count(ts), mem, next);
      LoopEnd(js, m, a, dest, td, src, ts, combine, mem, next);
    }

    /** The loop over the names of the source. */
    method BlendEach(dest: Val, src: Val, combine: Op, ghost td: Tree, ghost ts: Tree)
      returns (ghost trace: seq<(Mem, Ref)>)
      requires Ready(mem, next, dest, td, src, ts)
      modifies this
      ensures Trace(js, old(mem), old(next), dest, td, src, ts, combine, trace, Count(ts), mem, next)
      decreases ts, 2, 1
    {
      ghost var m, a := mem, next;
      trace := [(m, a)];
      var names := OwnNames(mem[src.r]);
      NamesAre(m, src, ts);
      var i := 0;
      while i < |names|
        invariant 0 <= i <= |names| && Trace(js, m, a, dest, td, src, ts, combine, trace, i, mem, next)
      {
        trace := BlendNext(dest, src, names[i], combine, i, m, a, td, ts, trace);
        i := i + 1;
      }
    }

    /** One turn of the loop, with what it keeps. */
    method BlendNext(dest: Val, src: Val, key: string, combine: Op, i: nat, ghost m: Mem, ghost a: Ref, ghost td: Tree,
                     ghost ts: Tree, ghost trace: seq<(Mem, Ref)>) returns (ghost longer: seq<(Mem, Ref)>)
      requires Ready(m, a, dest, td, src, ts) && Trace(js, m, a, dest, td, src, ts, combine, trace, i, mem, next)
      requires i < |NamesOf(ts)| && key == NamesOf(ts)[i]
      modifies this
      ensures Trace(js, m, a, dest, td, src, ts, combine, longer, i + 1, mem, next)
      decreases ts, 2, 0
    {
      ghost var n, b, cur := mem, next, After(js, td, ts, combine, i);
      TraceTracked(js, m, a, dest, td, src, ts, combine, trace, i, n, b);
      LoopEntry(m, a, dest, td, src, ts, i, n, b, cur);
      BlendProperty(dest, key, EntryVal(mem, src, i), combine, cur, ts, i);
      TraceLonger(js, m, a, dest, td, src, ts, combine, trace, i, n, b, mem, next);
      longer := trace + [(mem, next)];
    }

    /** The body of the loop. */
    method BlendProperty(dest: Val, key: string, s: Val, combine: Op, ghost cur: Tree, ghost ts: Tree, ghost i: nat)
      requires Valid() && Owns(mem, dest, cur) && WellFormed(cur) && cur.IsObj()
      requires WellFormed(ts) && ts.Node? && i < Count(ts) && key == KeyAt(ts, i)
      requires Owns(mem, s, ValAt(ts, i)) && WellFormed(ValAt(ts, i))
      requires Foot(mem, dest, cur) !! Foot(mem, s, ValAt(ts, i))
      modifies this
      ensures Valid() && (mem, next) in TurnStates(js, old(mem), old(next), dest, cur, s, ts, i, combine)
      decreases ts, 1
    {
      ghost var m, a, t := mem, next, ValAt(ts, i);
      var cell, p, op := mem[dest.r], Strip(key), OpOf(key, combine);
      var j := Find(cell.keys, p);
      if j == |cell.keys| {
        if op == Sub {
          TurnLeave(js, m, a, dest, cur, s, ts, i, combine);
          return;
        }
        var c := Clone(s, t);
        TurnAdd(js, m, a, dest, cur, s, ts, i, combine, mem, next, c);
        mem := mem[dest.r := Cell(false, cell.keys + [p], cell.kids + [c])];
      } else {
        ChangeProperty(dest, j, s, op, cur, ts, i, combine);
      }
    }

    /** The property exists: store its new value, delete it or leave it. */
    method ChangeProperty(dest: Val, j: nat, s: Val, op: Op, ghost cur: Tree, ghost ts: Tree, ghost i: nat,
                          ghost combine: Op)
      requires Valid() && Owns(mem, dest, cur) && WellFormed(cur) && cur.IsObj()
      requires WellFormed(ts) && ts.Node? && i < Count(ts) && op == OpOf(KeyAt(ts, i), combine)
      requires j == Find(cur.keys, Strip(KeyAt(ts, i))) < |cur.keys|
      requires Owns(mem, s, ValAt(ts, i)) && WellFormed(ValAt(ts, i))
      requires Foot(mem, dest, cur) !! Foot(mem, s, ValAt(ts, i))
      modifies this
      ensures Valid() && (mem, next) in TurnStates(js, old(mem), old(next), dest, cur, s, ts, i, combine)
      decreases ts, 0, 1
    {
      ghost var m, a := mem, next;
      var cell := mem[dest.r];
      PropertyReady(m, dest, cur, j, Foot(m, s, ValAt(ts, i)));
      var out := ChangeValue(cell.kids[j], s, op, cur.kids[j], ValAt(ts, i), ts);
      TurnDone(js, m, a, dest, cur, s, ts, i, combine, j, mem, next, out);
      mem := Written(mem, dest.r, cell, j, out);
    }

    /** The case analysis on the destination's value. */
    method ChangeValue(d: Val, s: Val, op: Op, ghost td: Tree, ghost t: Tree, ghost ts: Tree) returns (out: Outcome)
      requires Valid() && Owns(mem, d, td) && Owns(mem, s, t) && WellFormed(td) && WellFormed(t)
      requires Foot(mem, d, td) !! Foot(mem, s, t) && (t.Node? ==> t < ts)
      modifies this
      ensures Valid() && ValueChanged(js, old(mem), old(next), d, td, s, t, op, mem, next, out)
      ensures ValueKept(js, old(mem), old(next), d, td, s, t, op, mem, out)
      decreases ts, 0, 0
    {
      ghost var k, f, clean := Foot(mem, d, td), Foot(mem, s, t), DistinctStrips(t);
      if op == Ask {
        return Leave;
      }
      if d.P? {
        out := ChangePrim(d.p, Reify(mem, s, t), s, op);
        if out.Store? && out.w.P? {
          RenewedByLeaf(mem, next, k, f, clean, out.w.p);
        }
      } else if mem[d.r].arr {
        if op == Add {
          PushOnto(d, s, td, t);
          out := Store(d);
        } else if op == Sub {
          out := Leave;
        } else {
          ghost var m, a := mem, next;
          var c := Clone(s, t);
          RenewedByClone(m, a, k, s, t, clean, mem, next, c);
          out := Store(c);
        }
      } else if op == Set {
        ghost var m, a := mem, next;
        var c := Clone(s, t);
        RenewedByClone(m, a, k, s, t, clean, mem, next, c);
        out := Store(c);
      } else if op == Sub {
        out := Drop;
      } else if s.R? {
        Blend(d, s, op, td, t);
        out := Store(d);
      } else {
        out := Leave;
      }
    }

    /** Strings, numbers and the rest; a source that is stored is stored as it is, uncloned. */
    method ChangePrim(d: Prim, t: Tree, s: Val, op: Op) returns (out: Outcome)
      requires op != Ask
      ensures match ChangeOf(js, Leaf(d), t, op)
              case Keep => false
              case Descend => false
              case Delete => out == Drop
              case Put(u) => (u == t && out == Store(s)) || (u.Leaf? && out == Store(P(u.p)))
    {
      if d.Str? {
        if op == Add {
          out := Store(P(Str(d.s + " " + Text(js, t))));
        } else if op == Sub {
          if js.equals(d.s, t) {
            out := Drop;
          } else {
            out := Store(P(Str(js.replace(d.s, t))));
          }
        } else {
          out := Store(s);
        }
      } else if d.Num? || d.NaN? {
        if op == Add {
          out := Store(P(Plus(js, d, t)));
        } else if op == Sub {
          out := Store(P(Minus(js, d, t)));
        } else {
          out := Store(s);
        }
      } else if op == Sub {
        out := Drop;
      } else {
        out := Store(s);
      }
    }

    /** Array `+`: push the source, or each item of a source array that the destination is not found to contain. */
    method PushOnto(d: Val, s: Val, ghost td: Tree, ghost t: Tree)
      requires Valid() && Owns(mem, d, td) && td.Node? && td.arr && Owns(mem, s, t)
      requires Foot(mem, d, td) !! Foot(mem, s, t)
      modifies this
      ensures Valid()
      ensures Renewed(old(mem), old(next), Foot(old(mem), d, td), Foot(old(mem), s, t), DistinctStrips(t), mem, next, d,
                      td.(kids := td.kids + if t.Node? && t.arr then t.kids else [t]))
    {
      ghost var m, a := mem, next;
      var cell := mem[d.r];
      Disassemble(m, d, td);
      if s.R? && mem[s.r].arr {
        Disassemble(m, s, t);
        NotAmong(m, cell.kids, td.kids, s.r);
        var items := mem[s.r].kids;
        NotAmong(m, items, t.kids, s.r);
        var i := 0;
        assert cell.kids + items[..0] == cell.kids;
        while i < |items|
          invariant 0 <= i <= |items| && next == a
          invariant mem == m[d.r := cell.(kids := cell.kids + items[..i])]
        {
          if s !in mem[d.r].kids {
            assert cell.kids + items[..i] + [items[i]] == cell.kids + items[..i + 1];
            mem := mem[d.r := cell.(kids := mem[d.r].kids + [items[i]])];
          }
          i := i + 1;
        }
        assert items[..i] == items;
        RenewedByPush(m, a, d, td, items, t.kids, KidFeet(m, s, t), Foot(m, s, t), DistinctStrips(t));
      } else {
        mem := mem[d.r := cell.(kids := cell.kids + [s])];
        RenewedByPush(m, a, d, td, [s], [t], [Foot(m, s, t)], Foot(m, s, t), DistinctStrips(t));
      }
    }

    /** The loop of paks/assist/index.js: every file is blended into the configuration, in order. Whatever earlier
        files have left in it, the result represents the blend of all of them. */
    method LayerFiles(config: Val, files: seq<Val>, ghost td: Tree, ghost ts: seq<Tree>)
      requires Valid() && |files| == |ts| && Owns(mem, config, td) && WellFormed(td) && td.IsObj()
      requires Files(mem, config, td, files, ts)
      modifies this
      ensures Valid() && Owns(mem, config, BlendAll(js, td, ts))
    {
      ghost var m, a, cur := mem, next, td;
      forall j | 0 <= j < |files|
        ensures Agree(m, m, Foot(m, files[j], ts[j]))
      {
        FootMapped(m, files[j], ts[j]);
      }
      for i := 0 to |files|
        invariant Valid() && Layering(m, a, config, td, files, ts, i, mem, next, cur)
        invariant cur == BlendAll(js, td, ts[..i])
      {
        ghost var n, b, was := mem, next, cur;
        LayerReady(m, a, config, td, files, ts, i, i, n, b, was);
        Blend(config, files[i], Mix, was, ts[i]);
        cur := BlendTree.Blend(js, was, ts[i], Mix);
        LayerNext(m, a, config, td, files, ts, i, n, b, was, mem, next, cur);
        assert ts[..i + 1][..i] == ts[..i];
      }
      assert ts[..|files|] == ts;
    }

    /** Blending {a: {}, +a: {x: 1}} into {a: true} changes the source: its first object is stored uncloned over the
        boolean, and its second is then blended into that object. */
    method CollidingNames()
      requires mem == COLLIDING_HEAP && next == 4
      modifies this
      ensures Rep(old(mem), R(0), COLLIDING) && !Rep(mem, R(0), COLLIDING)
      ensures 1 in mem && mem[1] != old(mem[1])
    {
      CollidingReady();
      Blend(R(3), R(0), Mix, BOOLEAN, COLLIDING);
      CollidingHarms(js);
      CollisionExactly(js, old(mem), old(next), R(3), BOOLEAN, R(0), COLLIDING, Mix, mem, next, 0, 1, Leaf(Bool(true)));
      assert Rep(mem, old(mem)[0].kids[0], ONE);
    }
  }

  // ---- An example of a collision ----

  const ONE := Node(false, ["x"], [Leaf(Num(1.0))])
  const EMPTY_OBJECT := Node(false, [], [])
  const COLLIDING := Node(false, ["a", "+a"], [EMPTY_OBJECT, ONE])
  const BOOLEAN := Node(false, ["a"], [Leaf(Bool(true))])
  const COLLIDING_HEAP: Mem :=
    map[0 := Cell(false, ["a", "+a"], [R(1), R(2)]), 1 := Cell(false, [], []), 2 := Cell(false, ["x"], [P(Num(1.0))]),
        3 := Cell(false, ["a"], [P(Bool(true))])]

  lemma CollidingReady()
    ensures Ready(COLLIDING_HEAP, 4, R(3), BOOLEAN, R(0), COLLIDING)
  {
    BooleanRep(COLLIDING_HEAP);
    CollidingRep(COLLIDING_HEAP);
    assert "a"[0] != "+a"[0];
  }

  lemma BooleanRep(m: Mem)
    requires m == COLLIDING_HEAP
    ensures Owns(m, R(3), BOOLEAN) && Foot(m, R(3), BOOLEAN) == {3}
  {
    assert Rep(m, P(Bool(true)), Leaf(Bool(true)));
  }

  lemma OneRep(m: Mem)
    requires m == COLLIDING_HEAP
    ensures Owns(m, R(2), ONE) && Foot(m, R(2), ONE) == {2}
    ensures Owns(m, R(1), EMPTY_OBJECT) && Foot(m, R(1), EMPTY_OBJECT) == {1}
  {
    assert Rep(m, P(Num(1.0)), Leaf(Num(1.0)));
  }

  lemma CollidingRep(m: Mem)
    requires m == COLLIDING_HEAP
    ensures Owns(m, R(0), COLLIDING) && 3 !in Foot(m, R(0), COLLIDING)
  {
    OneRep(m);
    assert Rep(m, R(0), COLLIDING);
    assert KidFoot(m, R(0), COLLIDING, 0) == {1} && KidFoot(m, R(0), COLLIDING, 1) == {2};
    assert Sep(m, R(1), EMPTY_OBJECT) && Sep(m, R(2), ONE);
  }

  lemma CollidingHarms(js: Js)
    ensures SoleCollision(COLLIDING, 0, 1) && Harms(js, Leaf(Bool(true)), COLLIDING, Mix, 0, 1)
    ensures BlendAlgebra.Get(BOOLEAN, Strip("a")) == Some(Leaf(Bool(true)))
    ensures InPlaceTree(js, EMPTY_OBJECT, ONE, OpOf("+a", Mix)) == ONE
  {
    assert !HasPrefix("a") && HasPrefix("+a") && "+a"[1..] == "a";
    assert DistinctStrips(EMPTY_OBJECT) && DistinctStrips(ONE);
    OneBlends(js);
  }

  lemma OneBlends(js: Js)
    ensures BlendTree.Blend(js, EMPTY_OBJECT, ONE, Add) == ONE
  {
    assert !HasPrefix("x") && BlendKey(js, EMPTY_OBJECT, ONE, 0, Add) == ONE;
  }
}
