/**
 What `clone` and one turn of the loop of `blend`, in paks/assist/blend.js, do to the heap of `BlendHeap`.
 */
module BlendSteps {
  import opened Sequences
  import opened BlendTree
  import opened BlendHeap

  // ---- Relations between the heap before and after ----

  /** Cells are never freed, and new ones are numbered from `a`. */
  ghost predicate Grows(m: Mem, a: Ref, n: Mem, b: Ref) {
    && a <= b
    && (forall r | r in m :: r < a && r in n)
    && (forall r | r in n :: r < b && (r in m || r >= a))
  }

  ghost predicate Same(m: Mem, n: Mem) {
    forall r | r in m :: r in n && n[r] == m[r]
  }

  /** Every cell of `s` is one of `f`, or new. */
  ghost predicate FromOrNew(s: set<Ref>, f: set<Ref>, a: Ref) {
    forall x | x in s :: x in f || x >= a
  }

  // ---- clone ----

  ghost predicate Cloned(m: Mem, a: Ref, v: Val, t: Tree, n: Mem, b: Ref, c: Val) {
    && Rep(m, v, t) && Grows(m, a, n, b) && Same(m, n) && Owns(n, c, t)
    && FromOrNew(Foot(n, c, t), Foot(m, v, t), a)
  }

  /** What is copied: a node becomes a new cell; an object's properties are copied in turn; an array's items are the
      same values as the original's. */
  ghost predicate Copied(m: Mem, a: Ref, v: Val, t: Tree, n: Mem, c: Val)
    decreases t
  {
    if t.Leaf? then c == v
    else
      && v.R? && v.r in m && c.R? && c.r >= a && c.r in n
      && n[c.r].arr == m[v.r].arr == t.arr && n[c.r].keys == m[v.r].keys
      && |n[c.r].kids| == |m[v.r].kids| == |t.kids|
      && if t.arr then n[c.r].kids == m[v.r].kids
         else forall i | 0 <= i < |t.kids| :: Copied(m, a, m[v.r].kids[i], t.kids[i], n, n[c.r].kids[i])
  }

  /** A copy stays one as long as its own cells do. */
  lemma {:induction false} CopiedFrame(m: Mem, a: Ref, v: Val, t: Tree, n: Mem, c: Val, o: Mem)
    requires Copied(m, a, v, t, n, c) && Rep(n, c, t) && Agree(n, o, Foot(n, c, t))
    ensures Copied(m, a, v, t, o, c)
    decreases t
  {
    if t.Node? {
      FootRoot(n, c, t);
      forall i | 0 <= i < |t.kids| && !t.arr
        ensures Copied(m, a, m[v.r].kids[i], t.kids[i], o, o[c.r].kids[i])
      {
        FootParts(n, c, t, i);
        CopiedFrame(m, a, m[v.r].kids[i], t.kids[i], n, n[c.r].kids[i], o);
      }
    }
  }

  /** A copy of what has not changed since is a copy of what was there before. */
  lemma {:induction false} CopiedBefore(m: Mem, a: Ref, v: Val, t: Tree, n: Mem, b: Ref, o: Mem, c: Val)
    requires Rep(m, v, t) && Agree(m, n, Foot(m, v, t)) && Copied(n, b, v, t, o, c) && a <= b
    ensures Copied(m, a, v, t, o, c)
    decreases t
  {
    if t.Node? {
      FootRoot(m, v, t);
      forall i | 0 <= i < |t.kids| && !t.arr
        ensures Copied(m, a, m[v.r].kids[i], t.kids[i], o, o[c.r].kids[i])
      {
        FootParts(m, v, t, i);
        CopiedBefore(m, a, m[v.r].kids[i], t.kids[i], n, b, o, o[c.r].kids[i]);
      }
    }
  }

  /** The cells that are reached without passing through an array. */
  ghost function OpenCells(m: Mem, v: Val, t: Tree): set<Ref>
    requires Rep(m, v, t)
    decreases t
  {
    if t.Leaf? then {}
    else if t.arr then {v.r}
    else {v.r} + set i, x | 0 <= i < |t.kids| && x in OpenCells(m, m[v.r].kids[i], t.kids[i]) :: x
  }

  /** A copy shares nothing with what was there before, except inside an array. */
  lemma {:induction false} CopiedOpen(m: Mem, a: Ref, v: Val, t: Tree, n: Mem, c: Val)
    requires Copied(m, a, v, t, n, c) && Rep(n, c, t)
    ensures forall x | x in OpenCells(n, c, t) :: x >= a
    decreases t
  {
    if t.Node? && !t.arr {
      forall i | 0 <= i < |t.kids|
        ensures forall x | x in OpenCells(n, n[c.r].kids[i], t.kids[i]) :: x >= a
      {
        CopiedOpen(m, a, m[v.r].kids[i], t.kids[i], n, n[c.r].kids[i]);
      }
    }
  }

  /** The first `i` properties are copied. */
  ghost predicate KidsCopied(m: Mem, a: Ref, v: Val, t: Tree, i: nat, n: Mem, vs: seq<Val>)
    requires Rep(m, v, t) && t.Node?
  {
    i <= |t.kids| && |vs| == i && forall j | 0 <= j < i :: Copied(m, a, m[v.r].kids[j], t.kids[j], n, vs[j])
  }

  lemma CopyNextKid(m: Mem, a: Ref, v: Val, t: Tree, i: nat, n: Mem, b: Ref, vs: seq<Val>, fs: seq<set<Ref>>, o: Mem,
                    d: Ref, c: Val)
    requires CloningKids(m, a, v, t, i, n, b, vs, fs) && i < |t.kids| && KidsCopied(m, a, v, t, i, n, vs)
    requires Cloned(n, b, m[v.r].kids[i], t.kids[i], o, d, c) && Copied(n, b, m[v.r].kids[i], t.kids[i], o, c)
    ensures KidsCopied(m, a, v, t, i + 1, o, vs + [c])
  {
    FootMapped(m, m[v.r].kids[i], t.kids[i]);
    CopiedBefore(m, a, m[v.r].kids[i], t.kids[i], n, b, o, c);
    forall j | 0 <= j < i
      ensures Copied(m, a, m[v.r].kids[j], t.kids[j], o, vs[j])
    {
      assert t.kids[..i][j] == t.kids[j];
      FootMapped(n, vs[j], t.kids[j]);
      CopiedFrame(m, a, m[v.r].kids[j], t.kids[j], n, vs[j], o);
    }
  }

  lemma CopyCell(m: Mem, a: Ref, v: Val, t: Tree, n: Mem, b: Ref, vs: seq<Val>, fs: seq<set<Ref>>)
    requires t.IsObj() && CloningKids(m, a, v, t, |t.kids|, n, b, vs, fs) && KidsCopied(m, a, v, t, |t.kids|, n, vs)
    ensures Copied(m, a, v, t, n[b := Cell(t.arr, t.keys, vs)], R(b))
  {
    var o := n[b := Cell(t.arr, t.keys, vs)];
    assert t.kids[..|t.kids|] == t.kids && b !in n;
    forall j | 0 <= j < |t.kids|
      ensures Copied(m, a, m[v.r].kids[j], t.kids[j], o, vs[j])
    {
      FootMapped(n, vs[j], t.kids[j]);
      CopiedFrame(m, a, m[v.r].kids[j], t.kids[j], n, vs[j], o);
    }
  }

  /** The first `i` children are cloned into `vs`, made of the cells `fs`. */
  ghost predicate CloningKids(m: Mem, a: Ref, v: Val, t: Tree, i: nat, n: Mem, b: Ref, vs: seq<Val>,
                              fs: seq<set<Ref>>) {
    && Owns(m, v, t) && t.Node? && i <= |t.kids| && Grows(m, a, n, b) && Same(m, n)
    && |fs| == i && KidsOwned(n, vs, t.kids[..i], fs)
    && (forall j | 0 <= j < i :: FromOrNew(fs[j], KidFoot(m, v, t, j), a))
    && (forall j, k | 0 <= j < k < i :: fs[j] !! fs[k])
  }

  lemma SameFrame(m: Mem, n: Mem, v: Val, t: Tree)
    requires Owns(m, v, t) && Same(m, n)
    ensures Owns(n, v, t) && Foot(n, v, t) == Foot(m, v, t)
  {
    FootMapped(m, v, t);
    Frame(m, n, v, t);
  }

  lemma CloneNextKid(m: Mem, a: Ref, v: Val, t: Tree, i: nat, n: Mem, b: Ref, vs: seq<Val>, fs: seq<set<Ref>>,
                     o: Mem, d: Ref, c: Val)
    requires CloningKids(m, a, v, t, i, n, b, vs, fs) && i < |t.kids|
    requires Cloned(n, b, m[v.r].kids[i], t.kids[i], o, d, c)
    ensures CloningKids(m, a, v, t, i + 1, o, d, vs + [c], fs + [Foot(o, c, t.kids[i])])
  {
    var f := Foot(o, c, t.kids[i]);
    var gs := fs + [f];
    SameFrame(m, n, m[v.r].kids[i], t.kids[i]);
    FootMapped(m, m[v.r].kids[i], t.kids[i]);
    assert t.kids[..i + 1] == t.kids[..i] + [t.kids[i]];
    forall j | 0 <= j < i
      ensures Owns(o, vs[j], t.kids[j]) && Foot(o, vs[j], t.kids[j]) == fs[j] && fs[j] !! f
    {
      assert t.kids[..i][j] == t.kids[j];
      SameFrame(n, o, vs[j], t.kids[j]);
      FootMapped(n, vs[j], t.kids[j]);
      FootMapped(m, m[v.r].kids[j], t.kids[j]);
      assert KidFoot(m, v, t, j) !! KidFoot(m, v, t, i);
    }
  }

  /** A new cell over separate children. */
  lemma NewCell(m: Mem, a: Ref, v: Val, t: Tree, n: Mem, b: Ref, vs: seq<Val>, fs: seq<set<Ref>>)
    requires t.Node? && CloningKids(m, a, v, t, |t.kids|, n, b, vs, fs)
    ensures Cloned(m, a, v, t, n[b := Cell(t.arr, t.keys, vs)], b + 1, R(b))
  {
    var o := n[b := Cell(t.arr, t.keys, vs)];
    assert t.kids[..|t.kids|] == t.kids;
    assert b !in n;
    forall j | 0 <= j < |vs|
      ensures Owns(o, vs[j], t.kids[j]) && Foot(o, vs[j], t.kids[j]) == fs[j] && b !in fs[j]
    {
      FootMapped(n, vs[j], t.kids[j]);
      SameFrame(n, o, vs[j], t.kids[j]);
    }
    Assemble(o, b, t, fs);
    forall x | x in Foot(o, R(b), t)
      ensures x in Foot(m, v, t) || x >= a
    {
      if x != b {
        var i :| 0 <= i < |fs| && x in fs[i];
        FootParts(m, v, t, i);
      }
    }
  }

  /** `slice(0)`: the items themselves are shared with the original. */
  lemma SharedKids(m: Mem, a: Ref, v: Val, t: Tree)
    requires Owns(m, v, t) && t.Node? && Grows(m, a, m, a)
    ensures CloningKids(m, a, v, t, |t.kids|, m, a, m[v.r].kids, KidFeet(m, v, t))
  {
    Disassemble(m, v, t);
    assert t.kids[..|t.kids|] == t.kids;
  }

  // ---- One property ----

  /** At every level, the names of the source differ once their prefixes are stripped. */
  ghost predicate DistinctStrips(s: Tree) {
    s.Node? ==>
      && (!s.arr ==> forall i, j | 0 <= i < j < |s.keys| :: Strip(s.keys[i]) != Strip(s.keys[j]))
      && forall i | 0 <= i < |s.kids| :: DistinctStrips(s.kids[i])
  }

  /** The only cells that changed are those of `k`, and those of `s` unless `clean`. */
  ghost predicate Changed(m: Mem, n: Mem, k: set<Ref>, s: set<Ref>, clean: bool) {
    forall r | r in m && r !in k && (clean || r !in s) :: r in n && n[r] == m[r]
  }

  /** A new value `w` for a property whose cells were `k`, computed from a source with the cells `s`. */
  ghost predicate Renewed(m: Mem, a: Ref, k: set<Ref>, s: set<Ref>, clean: bool, n: Mem, b: Ref, w: Val, u: Tree) {
    && Grows(m, a, n, b) && Changed(m, n, k, s, clean) && Owns(n, w, u)
    && FromOrNew(Foot(n, w, u), k + s, a)
  }

  /** The cells of the property `q`. */
  ghost function FootOf(m: Mem, v: Val, t: Tree, q: string): set<Ref>
    requires Rep(m, v, t) && WellFormed(t) && t.IsObj()
  {
    FeetOf(KidFeet(m, v, t), t.keys, q)
  }

  ghost function FeetOf(fs: seq<set<Ref>>, keys: seq<string>, q: string): set<Ref>
    requires |fs| == |keys|
  {
    var j := Find(keys, q);
    if j < |keys| then fs[j] else {}
  }

  /** Changing the cells of one property, adding one or removing one keeps those of the others. */
  lemma FeetOfOthers(fs: seq<set<Ref>>, keys: seq<string>, f: set<Ref>, p: string)
    requires |fs| == |keys| && Distinct(keys)
    ensures p in keys ==> forall q | q != p :: FeetOf(fs[Find(keys, p) := f], keys, q) == FeetOf(fs, keys, q)
    ensures p in keys ==> forall q | q != p ::
              FeetOf(Without(fs, Find(keys, p)), Without(keys, Find(keys, p)), q) == FeetOf(fs, keys, q)
    ensures p !in keys ==> forall q | q != p :: FeetOf(fs + [f], keys + [p], q) == FeetOf(fs, keys, q)
  {
    forall q | q != p && p in keys
      ensures FeetOf(Without(fs, Find(keys, p)), Without(keys, Find(keys, p)), q) == FeetOf(fs, keys, q)
    {
      FindWithout(keys, Find(keys, p), q);
    }
    forall q | q != p && p !in keys
      ensures FeetOf(fs + [f], keys + [p], q) == FeetOf(fs, keys, q)
    {
      FindElsewhere(keys, p, q);
    }
  }

  lemma FootOfInside(m: Mem, v: Val, t: Tree, q: string)
    requires Rep(m, v, t) && WellFormed(t) && t.IsObj()
    ensures FootOf(m, v, t, q) <= Foot(m, v, t) && v.r in Foot(m, v, t)
  {
    var j := Find(t.keys, q);
    if j < |t.keys| {
      FootParts(m, v, t, j);
    }
  }

  lemma PropertiesApart(m: Mem, v: Val, t: Tree, q: string, p: string)
    requires Owns(m, v, t) && WellFormed(t) && t.IsObj() && q in t.keys && q != p
    ensures var f := Foot(m, m[v.r].kids[Find(t.keys, q)], t.kids[Find(t.keys, q)]);
            f !! {v.r} + FootOf(m, v, t, p) && f <= Foot(m, v, t) && forall x | x in f :: x in m
  {
    var j, l := Find(t.keys, q), Find(t.keys, p);
    Disassemble(m, v, t);
    FootMapped(m, v, t);
    if l < |t.keys| {
      if j < l {
        assert KidFeet(m, v, t)[j] !! KidFeet(m, v, t)[l];
      } else {
        assert KidFeet(m, v, t)[l] !! KidFeet(m, v, t)[j];
      }
    }
  }

  /** What one turn of the loop does for the property `p`: the destination now represents `u`; only the cells of that
      property, the destination's own cell and perhaps the source's changed; other properties keep their cells. */
  ghost predicate Turned(m: Mem, a: Ref, v: Val, t: Tree, p: string, s: set<Ref>, clean: bool, n: Mem, b: Ref,
                         u: Tree) {
    && Owns(m, v, t) && WellFormed(t) && t.IsObj() && Grows(m, a, n, b)
    && Owns(n, v, u) && WellFormed(u) && u.IsObj()
    && FromOrNew(Foot(n, v, u), Foot(m, v, t) + s, a)
    && Changed(m, n, {v.r} + FootOf(m, v, t, p), s, clean)
    && forall q | q != p :: FootOf(n, v, u, q) == FootOf(m, v, t, q)
  }

  lemma TurnedWeaken(m: Mem, a: Ref, v: Val, t: Tree, p: string, s: set<Ref>, clean: bool, less: bool, n: Mem, b: Ref,
                     u: Tree)
    requires Turned(m, a, v, t, p, s, clean, n, b, u) && (less ==> clean)
    ensures Turned(m, a, v, t, p, s, less, n, b, u)
  {
  }

  /** A renewed value is apart from the other properties, which are as they were. */
  lemma RenewedApart(m: Mem, a: Ref, v: Val, t: Tree, j: nat, s: set<Ref>, clean: bool, n: Mem, b: Ref, w: Val, u: Tree)
    requires Owns(m, v, t) && WellFormed(t) && t.IsObj() && j < |t.keys|
    requires Renewed(m, a, KidFoot(m, v, t, j), s, clean, n, b, w, u) && s !! Foot(m, v, t)
    ensures AgreeOthers(m, n, KidFeet(m, v, t), j)
    ensures forall i | 0 <= i < |t.kids| && i != j :: KidFoot(m, v, t, i) !! Foot(n, w, u)
    ensures v.r in n && n[v.r] == m[v.r] && v.r !in Foot(n, w, u)
  {
    var fs, f := KidFeet(m, v, t), Foot(n, w, u);
    Disassemble(m, v, t);
    FootMapped(m, v, t);
    forall i | 0 <= i < |fs| && i != j
      ensures Agree(m, n, fs[i]) && fs[i] !! f
    {
      assert fs[i] !! fs[j];
    }
  }

  /** Storing a renewed value. */
  lemma TurnReplace(m: Mem, a: Ref, v: Val, t: Tree, j: nat, s: set<Ref>, clean: bool, n: Mem, b: Ref, w: Val, u: Tree)
    requires Owns(m, v, t) && WellFormed(t) && t.IsObj() && j < |t.keys|
    requires Renewed(m, a, KidFoot(m, v, t, j), s, clean, n, b, w, u) && s !! Foot(m, v, t)
    requires WellFormed(Replace(t, j, u))
    ensures Turned(m, a, v, t, t.keys[j], s, clean, n[v.r := m[v.r].(kids := m[v.r].kids[j := w])], b, Replace(t, j, u))
  {
    Replaced(m, a, v, t, j, s, clean, n, b, w, u);
    FootParts(m, v, t, j);
    assert Find(t.keys, t.keys[j]) == j;
    FeetOfOthers(KidFeet(m, v, t), t.keys, Foot(n, w, u), t.keys[j]);
  }

  lemma Replaced(m: Mem, a: Ref, v: Val, t: Tree, j: nat, s: set<Ref>, clean: bool, n: Mem, b: Ref, w: Val, u: Tree)
    requires Owns(m, v, t) && WellFormed(t) && t.IsObj() && j < |t.keys|
    requires Renewed(m, a, KidFoot(m, v, t, j), s, clean, n, b, w, u) && s !! Foot(m, v, t)
    ensures var o := n[v.r := m[v.r].(kids := m[v.r].kids[j := w])];
            && Owns(o, v, Replace(t, j, u))
            && KidFeet(o, v, Replace(t, j, u)) == KidFeet(m, v, t)[j := Foot(n, w, u)]
            && Within(Foot(o, v, Replace(t, j, u)), Foot(m, v, t), Foot(n, w, u))
    ensures v.r !in Foot(n, w, u)
  {
    RenewedApart(m, a, v, t, j, s, clean, n, b, w, u);
    ReplaceKid(m, n, v.r, t, j, w, u);
  }

  lemma TurnAppend(m: Mem, a: Ref, v: Val, t: Tree, p: string, s: set<Ref>, clean: bool, n: Mem, b: Ref, w: Val,
                   u: Tree)
    requires Owns(m, v, t) && WellFormed(t) && t.IsObj() && p !in t.keys
    requires Renewed(m, a, {}, s, clean, n, b, w, u) && Same(m, n) && s !! Foot(m, v, t) && WellFormed(u)
    ensures Turned(m, a, v, t, p, s, clean, n[v.r := Cell(false, m[v.r].keys + [p], m[v.r].kids + [w])], b,
                   Append(t, p, u))
  {
    Appended(m, a, v, t, p, s, clean, n, b, w, u);
    FootMapped(m, v, t);
    FeetOfOthers(KidFeet(m, v, t), t.keys, Foot(n, w, u), p);
  }

  lemma Appended(m: Mem, a: Ref, v: Val, t: Tree, p: string, s: set<Ref>, clean: bool, n: Mem, b: Ref, w: Val, u: Tree)
    requires Owns(m, v, t) && WellFormed(t) && t.IsObj() && p !in t.keys
    requires Renewed(m, a, {}, s, clean, n, b, w, u) && Same(m, n) && s !! Foot(m, v, t) && WellFormed(u)
    ensures var o := n[v.r := Cell(false, m[v.r].keys + [p], m[v.r].kids + [w])];
            && Owns(o, v, Append(t, p, u)) && WellFormed(Append(t, p, u))
            && KidFeet(o, v, Append(t, p, u)) == KidFeet(m, v, t) + [Foot(n, w, u)]
            && Within(Foot(o, v, Append(t, p, u)), Foot(m, v, t), Foot(n, w, u))
    ensures v.r !in Foot(n, w, u)
  {
    Disassemble(m, v, t);
    FootMapped(m, v, t);
    AppendKid(m, n, v.r, t, p, w, u);
    WellFormedAppend(t, p, u);
  }

  lemma TurnRemove(m: Mem, a: Ref, v: Val, t: Tree, j: nat, s: set<Ref>, clean: bool)
    requires Owns(m, v, t) && WellFormed(t) && t.IsObj() && j < |t.keys| && Grows(m, a, m, a)
    ensures Turned(m, a, v, t, t.keys[j], s, clean,
                   m[v.r := Cell(false, Without(m[v.r].keys, j), Without(m[v.r].kids, j))], a, Remove(t, j))
  {
    var o, z := m[v.r := Cell(false, Without(m[v.r].keys, j), Without(m[v.r].kids, j))], Remove(t, j);
    var fs := KidFeet(m, v, t);
    RemoveKid(m, v.r, t, j);
    WellFormedRemove(t, j);
    assert Find(t.keys, t.keys[j]) == j;
    FeetOfOthers(fs, t.keys, {}, t.keys[j]);
  }

  lemma TurnKeep(m: Mem, a: Ref, v: Val, t: Tree, p: string, s: set<Ref>, clean: bool)
    requires Owns(m, v, t) && WellFormed(t) && t.IsObj() && Grows(m, a, m, a)
    ensures Turned(m, a, v, t, p, s, clean, m, a, t)
  {
  }

  // ---- New values for a property ----

  /** A clone, or the source itself, stored uncloned. */
  lemma RenewedByClone(m: Mem, a: Ref, k: set<Ref>, v: Val, t: Tree, clean: bool, n: Mem, b: Ref, c: Val)
    requires Cloned(m, a, v, t, n, b, c)
    ensures Renewed(m, a, k, Foot(m, v, t), clean, n, b, c, t)
  {
  }

  lemma RenewedByLeaf(m: Mem, a: Ref, k: set<Ref>, s: set<Ref>, clean: bool, p: Prim)
    requires Grows(m, a, m, a)
    ensures Renewed(m, a, k, s, clean, m, a, P(p), Leaf(p))
  {
  }

  lemma RenewedByNothing(m: Mem, a: Ref, v: Val, t: Tree, s: set<Ref>, clean: bool)
    requires Grows(m, a, m, a) && Owns(m, v, t)
    ensures Renewed(m, a, Foot(m, v, t), s, clean, m, a, v, t)
  {
  }

  /** Pushing values onto an array, in place. */
  lemma RenewedByPush(m: Mem, a: Ref, d: Val, t: Tree, vs: seq<Val>, us: seq<Tree>, fs: seq<set<Ref>>, s: set<Ref>,
                      clean: bool)
    requires Owns(m, d, t) && t.Node? && t.arr && Grows(m, a, m, a)
    requires KidsOwned(m, vs, us, fs) && s !! Foot(m, d, t)
    requires forall i | 0 <= i < |fs| :: fs[i] <= s
    requires forall i, j | 0 <= i < j < |fs| :: fs[i] !! fs[j]
    ensures Renewed(m, a, Foot(m, d, t), s, clean, m[d.r := m[d.r].(kids := m[d.r].kids + vs)], a, d,
                    t.(kids := t.kids + us))
  {
    var o, z, gs := m[d.r := m[d.r].(kids := m[d.r].kids + vs)], t.(kids := t.kids + us), KidFeet(m, d, t);
    Disassemble(m, d, t);
    FootMapped(m, d, t);
    FrameKids(m, o, m[d.r].kids, t.kids, gs, |gs|);
    KidsMapped(m, vs, us, fs);
    FrameKids(m, o, vs, us, fs, |fs|);
    KidsConcat(o, m[d.r].kids, t.kids, gs, vs, us, fs);
    ApartConcat(d.r, gs, fs, Foot(m, d, t), s);
    Assemble(o, d.r, z, gs + fs);
    assert FromOrNew(Foot(o, d, z), Foot(m, d, t) + s, a) by {
      forall x | x in Foot(o, d, z)
        ensures x in Foot(m, d, t) + s
      {
        if x != d.r {
          var i :| 0 <= i < |gs + fs| && x in (gs + fs)[i];
        }
      }
    }
  }

  lemma KidsMapped(m: Mem, vs: seq<Val>, ts: seq<Tree>, fs: seq<set<Ref>>)
    requires KidsOwned(m, vs, ts, fs)
    ensures forall i | 0 <= i < |fs| :: forall x | x in fs[i] :: x in m
  {
    forall i | 0 <= i < |fs|
      ensures forall x | x in fs[i] :: x in m
    {
      FootMapped(m, vs[i], ts[i]);
    }
  }

  lemma KidsConcat(m: Mem, vs: seq<Val>, ts: seq<Tree>, fs: seq<set<Ref>>, ws: seq<Val>, us: seq<Tree>,
                   gs: seq<set<Ref>>)
    requires KidsOwned(m, vs, ts, fs) && KidsOwned(m, ws, us, gs)
    ensures KidsOwned(m, vs + ws, ts + us, fs + gs)
  {
  }

  lemma ApartConcat(r: Ref, fs: seq<set<Ref>>, gs: seq<set<Ref>>, f: set<Ref>, g: set<Ref>)
    requires Apart(r, fs) && r in f && f !! g
    requires (forall i | 0 <= i < |fs| :: fs[i] <= f) && (forall i | 0 <= i < |gs| :: gs[i] <= g)
    requires forall i, j | 0 <= i < j < |gs| :: gs[i] !! gs[j]
    ensures Apart(r, fs + gs)
  {
    forall i, j | 0 <= i < j < |fs + gs|
      ensures (fs + gs)[i] !! (fs + gs)[j]
    {
      if i < |fs| <= j {
        assert fs[i] <= f && gs[j - |fs|] <= g;
      } else if |fs| <= i {
        assert gs[i - |fs|] !! gs[j - |fs|];
      }
    }
  }

  /** Neither the destination's array nor the pushed items contain the source array itself, so `indexOf` on it never
      finds anything. */
  lemma NotAmong(m: Mem, vs: seq<Val>, ts: seq<Tree>, r: Ref)
    requires |vs| == |ts| && forall i | 0 <= i < |vs| :: Rep(m, vs[i], ts[i]) && r !in Foot(m, vs[i], ts[i])
    ensures R(r) !in vs
  {
    forall i | 0 <= i < |vs|
      ensures vs[i] != R(r)
    {
      if vs[i].R? {
        FootRoot(m, vs[i], ts[i]);
      }
    }
  }

  /** The value as a tree, for JavaScript's conversions. */
  function Reify(m: Mem, v: Val, ghost t: Tree): (r: Tree)
    requires Rep(m, v, t)
    ensures r == t
    decreases t
  {
    if v.P? then Leaf(v.p)
    else
      var c := m[v.r];
      Node(c.arr, c.keys, seq(|c.kids|, i requires 0 <= i < |c.kids| => Reify(m, c.kids[i], t.kids[i])))
  }

  // ---- The change to one value ----

  datatype Outcome = Leave | Store(w: Val) | Drop

  /** The heap after `ChangeValue` is what the case analysis on trees says. */
  ghost predicate ValueChanged(js: Js, m: Mem, a: Ref, d: Val, td: Tree, s: Val, t: Tree, op: Op, n: Mem, b: Ref,
                               out: Outcome)
    requires Rep(m, d, td) && Rep(m, s, t) && WellFormed(td) && WellFormed(t)
  {
    match ChangeOf(js, td, t, op)
    case Keep => out == Leave && n == m && b == a
    case Delete => out == Drop && n == m && b == a
    case Put(u) =>
      out.Store? && Renewed(m, a, Foot(m, d, td), Foot(m, s, t), DistinctStrips(t), n, b, out.w, u)
    case Descend =>
      out.Store? && Renewed(m, a, Foot(m, d, td), Foot(m, s, t), DistinctStrips(t), n, b, out.w,
                            BlendTree.Blend(js, td, t, op))
  }

  /** The change to an existing value `x` is made in the value's own cells. */
  predicate InPlace(js: Js, x: Tree, v: Tree, op: Op) {
    x.Node? && if x.arr then op == Add else ChangeOf(js, x, v, op).Descend?
  }

  /** The source's own object or array is stored, uncloned. */
  predicate Lends(js: Js, x: Tree, v: Tree, op: Op) {
    x.Leaf? && v.Node? && ChangeOf(js, x, v, op) == Put(v)
  }

  /** A clone of the source replaces the value. */
  predicate ClonesOver(x: Tree, op: Op) {
    x.Node? && (op == Set || (x.arr && op == Mix))
  }

  /** The outcome of a change to a value: the value itself if it is changed in place, the source itself if it is lent, a
      copy of the source if that is cloned; and unless it is changed in place, no cell of it changes. */
  ghost predicate ValueKept(js: Js, m: Mem, a: Ref, d: Val, td: Tree, s: Val, t: Tree, op: Op, n: Mem, out: Outcome)
    requires Rep(m, s, t)
  {
    && (InPlace(js, td, t, op) ==> out == Store(d))
    && (Lends(js, td, t, op) ==> out == Store(s))
    && (ClonesOver(td, op) ==> out.Store? && Copied(m, a, s, t, n, out.w))
    && (!InPlace(js, td, t, op) ==> Changed(m, n, {}, Foot(m, s, t), DistinctStrips(t)))
  }

  // ---- The finer account of one turn ----

  predicate Touches(js: Js, t: Tree, p: string, st: Tree, op: Op)
    requires t.IsObj() && |t.kids| == |t.keys|
  {
    p in t.keys && InPlace(js, t.kids[Find(t.keys, p)], st, op)
  }

  predicate Borrows(js: Js, t: Tree, p: string, st: Tree, op: Op)
    requires t.IsObj() && |t.kids| == |t.keys|
  {
    p in t.keys && Lends(js, t.kids[Find(t.keys, p)], st, op)
  }

  /** The property is absent and is added, or is replaced, by a clone. */
  predicate Clones(t: Tree, p: string, op: Op)
    requires t.IsObj() && |t.kids| == |t.keys|
  {
    if p in t.keys then ClonesOver(t.kids[Find(t.keys, p)], op) else op != Sub
  }

  /** The properties `ls` with the values `ys` are those of `keys` with `xs`, but for `p`. */
  ghost predicate OthersSame(keys: seq<string>, xs: seq<Val>, ls: seq<string>, ys: seq<Val>, p: string)
    requires |xs| == |keys| && |ys| == |ls|
  {
    forall q | q != p && q in ls :: q in keys && ys[Find(ls, q)] == xs[Find(keys, q)]
  }

  ghost function ValOf(m: Mem, v: Val, t: Tree, q: string): Val
    requires Rep(m, v, t) && WellFormed(t) && t.IsObj() && q in t.keys
  {
    m[v.r].kids[Find(t.keys, q)]
  }

  /** Other properties keep their values; property `p` keeps its value if that is changed in place, takes the source `s`
      itself if that is lent, and a copy of it if it is cloned; its cells are its own, the source's or new; and unless
      it is changed in place, no cell but the destination's own changes. */
  ghost predicate Detailed(js: Js, m: Mem, a: Ref, v: Val, t: Tree, p: string, s: Val, st: Tree, op: Op, n: Mem,
                           u: Tree) {
    && Rep(m, v, t) && WellFormed(t) && t.IsObj() && Rep(n, v, u) && WellFormed(u) && u.IsObj() && Rep(m, s, st)
    && DetailValues(js, m, a, v, t, p, s, st, op, n, u)
    && FromOrNew(FootOf(n, v, u, p), FootOf(m, v, t, p) + Foot(m, s, st), a)
    && (!Touches(js, t, p, st, op) ==> Changed(m, n, {v.r}, Foot(m, s, st), DistinctStrips(st)))
  }

  ghost predicate DetailValues(js: Js, m: Mem, a: Ref, v: Val, t: Tree, p: string, s: Val, st: Tree, op: Op, n: Mem,
                               u: Tree)
    requires Rep(m, v, t) && WellFormed(t) && t.IsObj() && Rep(n, v, u) && WellFormed(u) && u.IsObj()
  {
    && OthersSame(t.keys, m[v.r].kids, u.keys, n[v.r].kids, p)
    && (Touches(js, t, p, st, op) && p in u.keys ==> ValOf(n, v, u, p) == ValOf(m, v, t, p))
    && (Borrows(js, t, p, st, op) && p in u.keys ==> ValOf(n, v, u, p) == s)
    && (Clones(t, p, op) && p in u.keys ==> Copied(m, a, s, st, n, ValOf(n, v, u, p)))
  }

  lemma DetailKeep(js: Js, m: Mem, a: Ref, v: Val, t: Tree, p: string, s: Val, st: Tree, op: Op)
    requires Rep(m, v, t) && WellFormed(t) && t.IsObj() && Rep(m, s, st) && !Borrows(js, t, p, st, op)
    requires !Clones(t, p, op)
    ensures Detailed(js, m, a, v, t, p, s, st, op, m, t)
  {
  }

  lemma DetailAppend(js: Js, m: Mem, a: Ref, v: Val, t: Tree, p: string, s: Val, st: Tree, op: Op, n: Mem, b: Ref,
                     w: Val)
    requires Owns(m, v, t) && WellFormed(t) && t.IsObj() && p !in t.keys && Rep(m, s, st) && WellFormed(st)
    requires Renewed(m, a, {}, Foot(m, s, st), DistinctStrips(st), n, b, w, st) && Same(m, n)
    requires Foot(m, s, st) !! Foot(m, v, t) && Copied(m, a, s, st, n, w)
    ensures Detailed(js, m, a, v, t, p, s, st, op, n[v.r := Cell(false, m[v.r].keys + [p], m[v.r].kids + [w])],
                     Append(t, p, st))
  {
    Appended(m, a, v, t, p, Foot(m, s, st), DistinctStrips(st), n, b, w, st);
    AppendValues(js, m, a, v, t, p, s, st, op, n, w);
    FeetOfSelf(KidFeet(m, v, t), t.keys, Foot(n, w, st), p);
  }

  lemma AppendValues(js: Js, m: Mem, a: Ref, v: Val, t: Tree, p: string, s: Val, st: Tree, op: Op, n: Mem, w: Val)
    requires Rep(m, v, t) && WellFormed(t) && t.IsObj() && p !in t.keys && WellFormed(Append(t, p, st))
    requires Rep(n, w, st) && v.r !in Foot(n, w, st) && Copied(m, a, s, st, n, w)
    requires Rep(n[v.r := Cell(false, m[v.r].keys + [p], m[v.r].kids + [w])], v, Append(t, p, st))
    ensures DetailValues(js, m, a, v, t, p, s, st, op, n[v.r := Cell(false, m[v.r].keys + [p], m[v.r].kids + [w])],
                         Append(t, p, st))
  {
    CopyStays(m, a, s, st, n, w, v.r, Cell(false, m[v.r].keys + [p], m[v.r].kids + [w]));
    OthersKept(m[v.r].kids, t.keys, w, p);
    assert (t.keys + [p])[|t.keys|] == p;
  }

  lemma DetailRemove(js: Js, m: Mem, a: Ref, v: Val, t: Tree, j: nat, s: Val, st: Tree, op: Op)
    requires Owns(m, v, t) && WellFormed(t) && t.IsObj() && j < |t.keys| && Rep(m, s, st)
    requires !InPlace(js, t.kids[j], st, op)
    ensures Detailed(js, m, a, v, t, t.keys[j], s, st, op,
                     m[v.r := Cell(false, Without(m[v.r].keys, j), Without(m[v.r].kids, j))], Remove(t, j))
  {
    RemoveKid(m, v.r, t, j);
    WellFormedRemove(t, j);
    assert Find(t.keys, t.keys[j]) == j;
    FeetOfSelf(KidFeet(m, v, t), t.keys, {}, t.keys[j]);
    OthersKept(m[v.r].kids, t.keys, P(Null), t.keys[j]);
  }

  lemma DetailReplace(js: Js, m: Mem, a: Ref, v: Val, t: Tree, j: nat, s: Val, st: Tree, op: Op, n: Mem, b: Ref, w: Val,
                      u: Tree)
    requires Owns(m, v, t) && WellFormed(t) && t.IsObj() && j < |t.keys| && Rep(m, s, st)
    requires Renewed(m, a, KidFoot(m, v, t, j), Foot(m, s, st), DistinctStrips(st), n, b, w, u)
    requires Foot(m, s, st) !! Foot(m, v, t) && WellFormed(Replace(t, j, u))
    requires ValueKept(js, m, a, m[v.r].kids[j], t.kids[j], s, st, op, n, Store(w))
    requires ClonesOver(t.kids[j], op) ==> u == st
    ensures Detailed(js, m, a, v, t, t.keys[j], s, st, op, n[v.r := m[v.r].(kids := m[v.r].kids[j := w])],
                     Replace(t, j, u))
  {
    Replaced(m, a, v, t, j, Foot(m, s, st), DistinctStrips(st), n, b, w, u);
    ReplaceValues(js, m, a, v, t, j, s, st, op, n, w, u);
    OwnCellChanges(m, n, v.r, m[v.r].(kids := m[v.r].kids[j := w]), Foot(m, s, st), DistinctStrips(st));
    assert Find(t.keys, t.keys[j]) == j;
    FeetOfSelf(KidFeet(m, v, t), t.keys, Foot(n, w, u), t.keys[j]);
  }

  lemma ReplaceValues(js: Js, m: Mem, a: Ref, v: Val, t: Tree, j: nat, s: Val, st: Tree, op: Op, n: Mem, w: Val,
                      u: Tree)
    requires Rep(m, v, t) && WellFormed(t) && t.IsObj() && j < |t.keys| && Rep(m, s, st) && WellFormed(Replace(t, j, u))
    requires Rep(n, w, u) && v.r !in Foot(n, w, u) && (ClonesOver(t.kids[j], op) ==> u == st)
    requires Rep(n[v.r := m[v.r].(kids := m[v.r].kids[j := w])], v, Replace(t, j, u))
    requires ValueKept(js, m, a, m[v.r].kids[j], t.kids[j], s, st, op, n, Store(w))
    ensures DetailValues(js, m, a, v, t, t.keys[j], s, st, op, n[v.r := m[v.r].(kids := m[v.r].kids[j := w])],
                         Replace(t, j, u))
  {
    CopyStays(m, a, s, u, n, w, v.r, m[v.r].(kids := m[v.r].kids[j := w]));
    OthersKept(m[v.r].kids, t.keys, w, t.keys[j]);
    assert Find(t.keys, t.keys[j]) == j;
  }

  lemma CopyStays(m: Mem, a: Ref, s: Val, st: Tree, n: Mem, w: Val, r: Ref, cell: Cell)
    requires Rep(n, w, st) && r !in Foot(n, w, st)
    ensures Copied(m, a, s, st, n, w) ==> Copied(m, a, s, st, n[r := cell], w)
  {
    if Copied(m, a, s, st, n, w) {
      FootMapped(n, w, st);
      CopiedFrame(m, a, s, st, n, w, n[r := cell]);
    }
  }

  lemma OwnCellChanges(m: Mem, n: Mem, r: Ref, cell: Cell, s: set<Ref>, clean: bool)
    ensures Changed(m, n, {}, s, clean) ==> Changed(m, n[r := cell], {r}, s, clean)
  {
  }

  /** Changing one property, adding one or removing one keeps the values of the others. */
  lemma OthersKept(xs: seq<Val>, keys: seq<string>, x: Val, p: string)
    requires |xs| == |keys| && Distinct(keys)
    ensures p in keys ==> OthersSame(keys, xs, keys, xs[Find(keys, p) := x], p)
    ensures p in keys ==> OthersSame(keys, xs, Without(keys, Find(keys, p)), Without(xs, Find(keys, p)), p)
    ensures p !in keys ==> OthersSame(keys, xs, keys + [p], xs + [x], p)
  {
    if p in keys {
      OthersWithout(xs, keys, Find(keys, p));
    } else {
      forall q | q != p && q in keys + [p]
        ensures q in keys && (xs + [x])[Find(keys + [p], q)] == xs[Find(keys, q)]
      {
        FindElsewhere(keys, p, q);
      }
    }
  }

  lemma OthersWithout(xs: seq<Val>, keys: seq<string>, j: nat)
    requires j < |xs| == |keys| && Distinct(keys)
    ensures OthersSame(keys, xs, Without(keys, j), Without(xs, j), keys[j])
  {
    forall q | q != keys[j] && q in Without(keys, j)
      ensures q in keys && Without(xs, j)[Find(Without(keys, j), q)] == xs[Find(keys, q)]
    {
      FindWithout(keys, j, q);
    }
  }

  lemma FeetOfSelf(fs: seq<set<Ref>>, keys: seq<string>, f: set<Ref>, p: string)
    requires |fs| == |keys| && Distinct(keys)
    ensures p in keys ==> FeetOf(fs, keys, p) == fs[Find(keys, p)] && FeetOf(fs[Find(keys, p) := f], keys, p) == f
    ensures p in keys ==> p !in Without(keys, Find(keys, p))
    ensures p in keys ==> FeetOf(Without(fs, Find(keys, p)), Without(keys, Find(keys, p)), p) == {}
    ensures p !in keys ==> FeetOf(fs, keys, p) == {} && FeetOf(fs + [f], keys + [p], p) == f
  {
    if p !in keys {
      assert (keys + [p])[|keys|] == p;
    }
  }

  // ---- The heaps that one turn leads to ----

  ghost predicate Before(t: Tree, ts: Tree, i: nat) {
    WellFormed(t) && t.IsObj() && WellFormed(ts) && ts.Node? && i < Count(ts)
  }

  /** The heaps that one turn of the loop leads to, ... */
  ghost function TurnStates(js: Js, m: Mem, a: Ref, v: Val, cur: Tree, s: Val, ts: Tree, i: nat, combine: Op)
    : iset<(Mem, Ref)>
    requires Before(cur, ts, i) && Rep(m, s, ValAt(ts, i))
  {
    iset n: Mem, b: Ref |
      && Turned(m, a, v, cur, Strip(KeyAt(ts, i)), Foot(m, s, ValAt(ts, i)), DistinctStrips(ValAt(ts, i)), n, b,
                BlendKey(js, cur, ts, i, combine))
      && Detailed(js, m, a, v, cur, Strip(KeyAt(ts, i)), s, ValAt(ts, i), OpOf(KeyAt(ts, i), combine), n,
                  BlendKey(js, cur, ts, i, combine)) :: (n, b)
  }

  lemma IsTurn(js: Js, m: Mem, a: Ref, v: Val, cur: Tree, s: Val, ts: Tree, i: nat, combine: Op, n: Mem, b: Ref,
               z: Tree)
    requires Before(cur, ts, i) && Rep(m, s, ValAt(ts, i)) && z == BlendKey(js, cur, ts, i, combine)
    requires Turned(m, a, v, cur, Strip(KeyAt(ts, i)), Foot(m, s, ValAt(ts, i)), DistinctStrips(ValAt(ts, i)), n, b, z)
    requires Detailed(js, m, a, v, cur, Strip(KeyAt(ts, i)), s, ValAt(ts, i), OpOf(KeyAt(ts, i), combine), n, z)
    ensures (n, b) in TurnStates(js, m, a, v, cur, s, ts, i, combine)
  {
  }

  /** The outcome for property `j` of the destination's cell is written. */
  function Written(m: Mem, r: Ref, cell: Cell, j: nat, out: Outcome): Mem
    requires j < |cell.keys| == |cell.kids|
  {
    match out
    case Leave => m
    case Drop => m[r := Cell(false, Without(cell.keys, j), Without(cell.kids, j))]
    case Store(w) => m[r := cell.(kids := cell.kids[j := w])]
  }

  lemma TurnDone(js: Js, m: Mem, a: Ref, dest: Val, cur: Tree, s: Val, ts: Tree, i: nat, combine: Op, j: nat, n: Mem,
                 b: Ref, out: Outcome)
    requires Owns(m, dest, cur) && Before(cur, ts, i) && Grows(m, a, m, a)
    requires j == Find(cur.keys, Strip(KeyAt(ts, i))) < |cur.keys|
    requires Owns(m, s, ValAt(ts, i)) && WellFormed(ValAt(ts, i)) && Foot(m, dest, cur) !! Foot(m, s, ValAt(ts, i))
    requires ValueChanged(js, m, a, m[dest.r].kids[j], cur.kids[j], s, ValAt(ts, i), OpOf(KeyAt(ts, i), combine), n, b,
                          out)
    requires ValueKept(js, m, a, m[dest.r].kids[j], cur.kids[j], s, ValAt(ts, i), OpOf(KeyAt(ts, i), combine), n, out)
    ensures (Written(n, dest.r, m[dest.r], j, out), b) in TurnStates(js, m, a, dest, cur, s, ts, i, combine)
  {
    match out
    case Leave => TurnLeave(js, m, a, dest, cur, s, ts, i, combine);
    case Drop => TurnDrop(js, m, a, dest, cur, s, ts, i, combine, j);
    case Store(w) => TurnStore(js, m, a, dest, cur, s, ts, i, combine, j, n, b, w);
  }

  /** A property of the destination is a tree of its own, apart from the source. */
  lemma PropertyReady(m: Mem, v: Val, t: Tree, j: nat, s: set<Ref>)
    requires Owns(m, v, t) && WellFormed(t) && t.IsObj() && j < |t.keys| && Foot(m, v, t) !! s
    ensures Owns(m, m[v.r].kids[j], t.kids[j]) && WellFormed(t.kids[j])
    ensures Foot(m, m[v.r].kids[j], t.kids[j]) !! s
  {
    FootParts(m, v, t, j);
  }

  lemma TurnLeave(js: Js, m: Mem, a: Ref, dest: Val, cur: Tree, s: Val, ts: Tree, i: nat, combine: Op)
    requires Owns(m, dest, cur) && Before(cur, ts, i) && Grows(m, a, m, a) && Rep(m, s, ValAt(ts, i))
    requires BlendKey(js, cur, ts, i, combine) == cur
    requires !Borrows(js, cur, Strip(KeyAt(ts, i)), ValAt(ts, i), OpOf(KeyAt(ts, i), combine))
    requires !Clones(cur, Strip(KeyAt(ts, i)), OpOf(KeyAt(ts, i), combine))
    ensures (m, a) in TurnStates(js, m, a, dest, cur, s, ts, i, combine)
  {
    var p := Strip(KeyAt(ts, i));
    TurnKeep(m, a, dest, cur, p, Foot(m, s, ValAt(ts, i)), DistinctStrips(ValAt(ts, i)));
    DetailKeep(js, m, a, dest, cur, p, s, ValAt(ts, i), OpOf(KeyAt(ts, i), combine));
  }

  lemma TurnAdd(js: Js, m: Mem, a: Ref, dest: Val, cur: Tree, s: Val, ts: Tree, i: nat, combine: Op, n: Mem, b: Ref,
                c: Val)
    requires Owns(m, dest, cur) && Before(cur, ts, i) && Rep(m, s, ValAt(ts, i)) && WellFormed(ValAt(ts, i))
    requires Strip(KeyAt(ts, i)) !in cur.keys && OpOf(KeyAt(ts, i), combine) != Sub
    requires Cloned(m, a, s, ValAt(ts, i), n, b, c) && Foot(m, dest, cur) !! Foot(m, s, ValAt(ts, i))
    requires Copied(m, a, s, ValAt(ts, i), n, c)
    ensures (n[dest.r := Cell(false, m[dest.r].keys + [Strip(KeyAt(ts, i))], m[dest.r].kids + [c])], b)
         in TurnStates(js, m, a, dest, cur, s, ts, i, combine)
  {
    var p, t := Strip(KeyAt(ts, i)), ValAt(ts, i);
    RenewedByClone(m, a, {}, s, t, DistinctStrips(t), n, b, c);
    TurnAppend(m, a, dest, cur, p, Foot(m, s, t), DistinctStrips(t), n, b, c, t);
    DetailAppend(js, m, a, dest, cur, p, s, t, OpOf(KeyAt(ts, i), combine), n, b, c);
    KeyAdds(js, cur, ts, i, combine);
    var o := n[dest.r := Cell(false, m[dest.r].keys + [p], m[dest.r].kids + [c])];
    IsTurn(js, m, a, dest, cur, s, ts, i, combine, o, b, Append(cur, p, t));
  }

  lemma KeyAdds(js: Js, cur: Tree, ts: Tree, i: nat, combine: Op)
    requires Before(cur, ts, i) && Strip(KeyAt(ts, i)) !in cur.keys && OpOf(KeyAt(ts, i), combine) != Sub
    ensures BlendKey(js, cur, ts, i, combine) == Append(cur, Strip(KeyAt(ts, i)), ValAt(ts, i))
  {
  }

  lemma TurnDrop(js: Js, m: Mem, a: Ref, dest: Val, cur: Tree, s: Val, ts: Tree, i: nat, combine: Op, j: nat)
    requires Owns(m, dest, cur) && WellFormed(cur) && cur.IsObj() && WellFormed(ts) && ts.Node? && i < Count(ts)
    requires j == Find(cur.keys, Strip(KeyAt(ts, i))) < |cur.keys| && Grows(m, a, m, a)
    requires Rep(m, s, ValAt(ts, i)) && ChangeOf(js, cur.kids[j], ValAt(ts, i), OpOf(KeyAt(ts, i), combine)) == Delete
    ensures (m[dest.r := Cell(false, Without(m[dest.r].keys, j), Without(m[dest.r].kids, j))], a)
         in TurnStates(js, m, a, dest, cur, s, ts, i, combine)
  {
    TurnRemove(m, a, dest, cur, j, Foot(m, s, ValAt(ts, i)), DistinctStrips(ValAt(ts, i)));
    DetailRemove(js, m, a, dest, cur, j, s, ValAt(ts, i), OpOf(KeyAt(ts, i), combine));
  }

  lemma TurnStore(js: Js, m: Mem, a: Ref, dest: Val, cur: Tree, s: Val, ts: Tree, i: nat, combine: Op, j: nat, n: Mem,
                  b: Ref, w: Val)
    requires Owns(m, dest, cur) && WellFormed(cur) && cur.IsObj() && WellFormed(ts) && ts.Node? && i < Count(ts)
    requires j == Find(cur.keys, Strip(KeyAt(ts, i))) < |cur.keys|
    requires Owns(m, s, ValAt(ts, i)) && WellFormed(ValAt(ts, i)) && Foot(m, dest, cur) !! Foot(m, s, ValAt(ts, i))
    requires ValueChanged(js, m, a, m[dest.r].kids[j], cur.kids[j], s, ValAt(ts, i), OpOf(KeyAt(ts, i), combine), n, b,
                          Store(w))
    requires ValueKept(js, m, a, m[dest.r].kids[j], cur.kids[j], s, ValAt(ts, i), OpOf(KeyAt(ts, i), combine), n,
                       Store(w))
    ensures (n[dest.r := m[dest.r].(kids := m[dest.r].kids[j := w])], b)
         in TurnStates(js, m, a, dest, cur, s, ts, i, combine)
  {
    var v, op, f := ValAt(ts, i), OpOf(KeyAt(ts, i), combine), Foot(m, s, ValAt(ts, i));
    var u := StoredTree(js, cur, ts, i, combine, j);
    TurnReplace(m, a, dest, cur, j, f, DistinctStrips(v), n, b, w, u);
    DetailReplace(js, m, a, dest, cur, j, s, v, op, n, b, w, u);
    IsTurn(js, m, a, dest, cur, s, ts, i, combine, n[dest.r := m[dest.r].(kids := m[dest.r].kids[j := w])], b,
           Replace(cur, j, u));
  }

  /** What the stored value represents. */
  lemma StoredTree(js: Js, cur: Tree, ts: Tree, i: nat, combine: Op, j: nat) returns (u: Tree)
    requires Before(cur, ts, i) && j == Find(cur.keys, Strip(KeyAt(ts, i))) < |cur.keys|
    requires WellFormed(ValAt(ts, i))
    requires var c := ChangeOf(js, cur.kids[j], ValAt(ts, i), OpOf(KeyAt(ts, i), combine)); c.Put? || c.Descend?
    ensures WellFormed(Replace(cur, j, u)) && BlendKey(js, cur, ts, i, combine) == Replace(cur, j, u)
    ensures var v, op := ValAt(ts, i), OpOf(KeyAt(ts, i), combine);
            u == if ChangeOf(js, cur.kids[j], v, op).Put? then ChangeOf(js, cur.kids[j], v, op).v
                 else BlendTree.Blend(js, cur.kids[j], v, op)
  {
    var v, op := ValAt(ts, i), OpOf(KeyAt(ts, i), combine);
    var c := ChangeOf(js, cur.kids[j], v, op);
    if c.Put? {
      WellFormedPut(js, cur, j, v, op);
      u := c.v;
    } else {
      u := BlendTree.Blend(js, cur.kids[j], v, op);
    }
  }
}
