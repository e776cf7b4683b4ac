/**
 `blend` and `clone` of paks/assist/blend.js as they run: objects and arrays are cells of a heap, a destination is
 changed in place, arrays are cloned without their items, and some branches store a part of the source uncloned.

 The theorems relate the heap to `BlendTree`: what the destination then represents, which cells have changed, and that
 it is again a tree of its own.
 */
module BlendHeap {
  import opened Sequences
  import opened BlendTree

  type Ref = nat
  datatype Val = P(p: Prim) | R(r: Ref)
  datatype Cell = Cell(arr: bool, keys: seq<string>, kids: seq<Val>)
  type Mem = map<Ref, Cell>

  // ---- What a heap value represents, and the cells it is made of ----

  ghost predicate Rep(m: Mem, v: Val, t: Tree)
    decreases t
  {
    match t
    case Leaf(p) => v == P(p)
    case Node(arr, keys, kids) =>
      && v.R? && v.r in m && m[v.r].arr == arr && m[v.r].keys == keys && |m[v.r].kids| == |kids|
      && forall i | 0 <= i < |kids| :: Rep(m, m[v.r].kids[i], kids[i])
  }

  ghost function Foot(m: Mem, v: Val, t: Tree): set<Ref>
    requires Rep(m, v, t)
    decreases t, 1
  {
    if t.Leaf? then {} else {v.r} + set i, x | 0 <= i < |t.kids| && x in KidFoot(m, v, t, i) :: x
  }

  ghost function KidFoot(m: Mem, v: Val, t: Tree, i: nat): set<Ref>
    requires Rep(m, v, t) && t.Node? && i < |t.kids|
    decreases t, 0
  {
    Foot(m, m[v.r].kids[i], t.kids[i])
  }

  /** A tree of its own: no cell is reached twice. */
  ghost predicate Sep(m: Mem, v: Val, t: Tree)
    requires Rep(m, v, t)
    decreases t
  {
    t.Node? ==>
      && (forall i | 0 <= i < |t.kids| :: v.r !in KidFoot(m, v, t, i) && Sep(m, m[v.r].kids[i], t.kids[i]))
      && (forall i, j | 0 <= i < j < |t.kids| :: KidFoot(m, v, t, i) !! KidFoot(m, v, t, j))
  }

  ghost predicate Owns(m: Mem, v: Val, t: Tree) { Rep(m, v, t) && Sep(m, v, t) }

  ghost predicate Agree(m: Mem, n: Mem, s: set<Ref>) {
    forall x | x in s :: x in m && x in n && m[x] == n[x]
  }

  lemma FootParts(m: Mem, v: Val, t: Tree, i: nat)
    requires Rep(m, v, t) && t.Node? && i < |t.kids|
    ensures KidFoot(m, v, t, i) <= Foot(m, v, t)
  {
    forall x | x in KidFoot(m, v, t, i)
      ensures x in Foot(m, v, t)
    {
    }
  }

  lemma {:induction false} FootMapped(m: Mem, v: Val, t: Tree)
    requires Rep(m, v, t)
    ensures forall x | x in Foot(m, v, t) :: x in m
    decreases t
  {
    if t.Node? {
      forall i | 0 <= i < |t.kids|
        ensures forall x | x in KidFoot(m, v, t, i) :: x in m
      {
        FootMapped(m, m[v.r].kids[i], t.kids[i]);
      }
    }
  }

  /** What a value represents depends on its own cells only. */
  lemma {:induction false} Frame(m: Mem, n: Mem, v: Val, t: Tree)
    requires Rep(m, v, t) && Agree(m, n, Foot(m, v, t))
    ensures Rep(n, v, t) && Foot(n, v, t) == Foot(m, v, t)
    ensures Sep(m, v, t) ==> Sep(n, v, t)
    decreases t
  {
    if t.Node? {
      forall i | 0 <= i < |t.kids|
        ensures Rep(n, m[v.r].kids[i], t.kids[i])
        ensures Foot(n, m[v.r].kids[i], t.kids[i]) == KidFoot(m, v, t, i)
        ensures Sep(m, m[v.r].kids[i], t.kids[i]) ==> Sep(n, m[v.r].kids[i], t.kids[i])
      {
        FootParts(m, v, t, i);
        Frame(m, n, m[v.r].kids[i], t.kids[i]);
      }
      FootRoot(m, v, t);
      assert n[v.r] == m[v.r];
      assert Rep(n, v, t);
      assert forall i | 0 <= i < |t.kids| :: KidFoot(n, v, t, i) == KidFoot(m, v, t, i);
    }
  }

  lemma FootRoot(m: Mem, v: Val, t: Tree)
    requires Rep(m, v, t) && t.Node?
    ensures v.r in Foot(m, v, t)
  {
  }

  ghost function KidFeet(m: Mem, v: Val, t: Tree): (fs: seq<set<Ref>>)
    requires Rep(m, v, t) && t.Node?
    ensures |fs| == |t.kids| && forall i | 0 <= i < |fs| :: fs[i] == KidFoot(m, v, t, i)
  {
    seq(|t.kids|, i requires 0 <= i < |t.kids| => KidFoot(m, v, t, i))
  }

  ghost predicate Apart(r: Ref, fs: seq<set<Ref>>) {
    && (forall i | 0 <= i < |fs| :: r !in fs[i])
    && (forall i, j | 0 <= i < j < |fs| :: fs[i] !! fs[j])
  }

  /** The children of a cell, each a tree of its own with the cells given. */
  ghost predicate KidsOwned(m: Mem, vs: seq<Val>, ts: seq<Tree>, fs: seq<set<Ref>>) {
    && |vs| == |ts| == |fs|
    && forall i | 0 <= i < |vs| :: Owns(m, vs[i], ts[i]) && Foot(m, vs[i], ts[i]) == fs[i]
  }

  /** A cell over children that are apart is a tree of its own. */
  lemma Assemble(m: Mem, r: Ref, t: Tree, fs: seq<set<Ref>>)
    requires r in m && t.Node? && m[r].arr == t.arr && m[r].keys == t.keys
    requires KidsOwned(m, m[r].kids, t.kids, fs) && Apart(r, fs)
    ensures Owns(m, R(r), t) && KidFeet(m, R(r), t) == fs
    ensures forall x | x in Foot(m, R(r), t) :: x == r || exists i :: 0 <= i < |fs| && x in fs[i]
  {
    assert Rep(m, R(r), t);
    assert forall i | 0 <= i < |fs| :: KidFoot(m, R(r), t, i) == fs[i];
  }

  lemma Disassemble(m: Mem, v: Val, t: Tree)
    requires Owns(m, v, t) && t.Node?
    ensures KidsOwned(m, m[v.r].kids, t.kids, KidFeet(m, v, t)) && Apart(v.r, KidFeet(m, v, t))
    ensures v.r in Foot(m, v, t)
    ensures forall i | 0 <= i < |t.kids| :: KidFeet(m, v, t)[i] <= Foot(m, v, t)
  {
    forall i | 0 <= i < |t.kids|
      ensures KidFeet(m, v, t)[i] <= Foot(m, v, t)
    {
      FootParts(m, v, t, i);
    }
  }

  ghost predicate AgreeOthers(m: Mem, n: Mem, fs: seq<set<Ref>>, j: nat) {
    forall i | 0 <= i < |fs| && i != j :: Agree(m, n, fs[i])
  }

  lemma FrameKids(m: Mem, n: Mem, vs: seq<Val>, ts: seq<Tree>, fs: seq<set<Ref>>, j: nat)
    requires KidsOwned(m, vs, ts, fs) && AgreeOthers(m, n, fs, j)
    ensures forall i | 0 <= i < |vs| && i != j :: Owns(n, vs[i], ts[i]) && Foot(n, vs[i], ts[i]) == fs[i]
  {
    forall i | 0 <= i < |vs| && i != j
      ensures Owns(n, vs[i], ts[i]) && Foot(n, vs[i], ts[i]) == fs[i]
    {
      Frame(m, n, vs[i], ts[i]);
    }
  }

  /** Nothing new beyond the cells of `fs` and `f` in a node assembled from them. */
  ghost predicate Within(s: set<Ref>, a: set<Ref>, b: set<Ref>) {
    forall x | x in s :: x in a || x in b
  }

  /** Replacing one child, after changes that spared the others. */
  lemma ReplaceKid(m: Mem, n: Mem, r: Ref, t: Tree, j: nat, w: Val, u: Tree)
    requires Owns(m, R(r), t) && t.Node? && j < |t.kids|
    requires r in n && n[r] == m[r] && AgreeOthers(m, n, KidFeet(m, R(r), t), j)
    requires Owns(n, w, u) && r !in Foot(n, w, u)
    requires forall i | 0 <= i < |t.kids| && i != j :: KidFoot(m, R(r), t, i) !! Foot(n, w, u)
    ensures var o := n[r := m[r].(kids := m[r].kids[j := w])];
            && Owns(o, R(r), Replace(t, j, u))
            && KidFeet(o, R(r), Replace(t, j, u)) == KidFeet(m, R(r), t)[j := Foot(n, w, u)]
            && Within(Foot(o, R(r), Replace(t, j, u)), Foot(m, R(r), t), Foot(n, w, u))
  {
    var o := n[r := m[r].(kids := m[r].kids[j := w])];
    var fs, f := KidFeet(m, R(r), t), Foot(n, w, u);
    Disassemble(m, R(r), t);
    assert AgreeOthers(m, o, fs, j);
    FrameKids(m, o, m[r].kids, t.kids, fs, j);
    FootMapped(n, w, u);
    Frame(n, o, w, u);
    assert KidsOwned(o, o[r].kids, t.kids[j := u], fs[j := f]);
    Assemble(o, r, Replace(t, j, u), fs[j := f]);
  }

  lemma AppendKid(m: Mem, n: Mem, r: Ref, t: Tree, p: string, w: Val, u: Tree)
    requires Owns(m, R(r), t) && t.IsObj()
    requires r in n && n[r] == m[r] && AgreeOthers(m, n, KidFeet(m, R(r), t), |t.kids|)
    requires Owns(n, w, u) && r !in Foot(n, w, u)
    requires forall i | 0 <= i < |t.kids| :: KidFoot(m, R(r), t, i) !! Foot(n, w, u)
    ensures var o := n[r := Cell(false, m[r].keys + [p], m[r].kids + [w])];
            && Owns(o, R(r), Append(t, p, u))
            && KidFeet(o, R(r), Append(t, p, u)) == KidFeet(m, R(r), t) + [Foot(n, w, u)]
            && Within(Foot(o, R(r), Append(t, p, u)), Foot(m, R(r), t), Foot(n, w, u))
  {
    var o := n[r := Cell(false, m[r].keys + [p], m[r].kids + [w])];
    var fs, f := KidFeet(m, R(r), t), Foot(n, w, u);
    Disassemble(m, R(r), t);
    assert AgreeOthers(m, o, fs, |t.kids|);
    FrameKids(m, o, m[r].kids, t.kids, fs, |t.kids|);
    FootMapped(n, w, u);
    Frame(n, o, w, u);
    assert KidsOwned(o, o[r].kids, t.kids + [u], fs + [f]);
    Assemble(o, r, Append(t, p, u), fs + [f]);
  }

  lemma RemoveKid(m: Mem, r: Ref, t: Tree, j: nat)
    requires Owns(m, R(r), t) && WellFormed(t) && t.IsObj() && j < |t.kids|
    ensures var o := m[r := Cell(false, Without(m[r].keys, j), Without(m[r].kids, j))];
            && Owns(o, R(r), Remove(t, j))
            && KidFeet(o, R(r), Remove(t, j)) == Without(KidFeet(m, R(r), t), j)
            && Within(Foot(o, R(r), Remove(t, j)), Foot(m, R(r), t), {})
  {
    var o := m[r := Cell(false, Without(m[r].keys, j), Without(m[r].kids, j))];
    var fs := KidFeet(m, R(r), t);
    Disassemble(m, R(r), t);
    FootMapped(m, R(r), t);
    assert AgreeOthers(m, o, fs, |t.kids|);
    FrameKids(m, o, m[r].kids, t.kids, fs, |t.kids|);
    Assemble(o, r, Remove(t, j), Without(fs, j));
  }
}
