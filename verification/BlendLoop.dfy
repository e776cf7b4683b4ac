/**
 The loop of `blend` over the properties of its source: what the heap is after each of them, and which parts of the
 source the destination has come to share.
 */
module BlendLoop {
  import opened Sequences
  import opened BlendTree
  import opened BlendHeap
  import opened BlendSteps
  import BlendAlgebra

  // ---- What the loop over the source keeps ----

  ghost function EntryFoot(m: Mem, v: Val, t: Tree, i: nat): set<Ref>
    requires Rep(m, v, t) && t.Node?
  {
    if i < |t.kids| then KidFoot(m, v, t, i) else {}
  }

  ghost predicate Untouched(t: Tree, i: nat, q: string)
    requires WellFormed(t) && t.Node? && i <= Count(t)
  {
    forall j | 0 <= j < i :: Strip(KeyAt(t, j)) != q
  }

  /** After `i` properties of the source `s`: the destination's cells are its own, new ones, or come from the part of
      the source already used; the rest of the source is as it was. */
  ghost predicate Looping(m: Mem, a: Ref, v: Val, t: Tree, s: Val, ts: Tree, i: nat, n: Mem, b: Ref, cur: Tree) {
    && Owns(m, v, t) && WellFormed(t) && t.IsObj() && Owns(m, s, ts) && ts.Node? && WellFormed(ts) && i <= Count(ts)
    && Grows(m, a, n, b) && Owns(n, v, cur) && WellFormed(cur) && cur.IsObj()
    && (forall x | x in Foot(n, v, cur) ::
          x in Foot(m, v, t) || x >= a || exists j :: 0 <= j < i && x in EntryFoot(m, s, ts, j))
    && s.r in n && n[s.r] == m[s.r]
    && (forall j | i <= j < |ts.kids| :: Agree(m, n, KidFoot(m, s, ts, j)))
    && Changed(m, n, Foot(m, v, t), Foot(m, s, ts), DistinctStrips(ts))
    && (DistinctStrips(ts) ==> forall q | Untouched(ts, i, q) :: FootOf(n, v, cur, q) <= Foot(m, v, t))
  }

  lemma LoopStart(m: Mem, a: Ref, v: Val, t: Tree, s: Val, ts: Tree)
    requires Owns(m, v, t) && WellFormed(t) && t.IsObj() && Owns(m, s, ts) && ts.Node? && WellFormed(ts)
    requires Grows(m, a, m, a)
    ensures Looping(m, a, v, t, s, ts, 0, m, a, t)
  {
    FootMapped(m, s, ts);
    forall j | 0 <= j < |ts.kids|
      ensures Agree(m, m, KidFoot(m, s, ts, j))
    {
      FootParts(m, s, ts, j);
    }
    forall q
      ensures FootOf(m, v, t, q) <= Foot(m, v, t)
    {
      var j := Find(t.keys, q);
      if j < |t.keys| {
        FootParts(m, v, t, j);
      }
    }
  }

  /** The value of the next property of the source. */
  function EntryVal(m: Mem, s: Val, i: nat): Val
    requires s.R? && s.r in m
  {
    if i < |m[s.r].kids| then m[s.r].kids[i] else P(Num(|m[s.r].kids| as real))
  }

  /** It is still a tree of its own, apart from the destination. */
  lemma LoopEntry(m: Mem, a: Ref, v: Val, t: Tree, s: Val, ts: Tree, i: nat, n: Mem, b: Ref, cur: Tree)
    requires Looping(m, a, v, t, s, ts, i, n, b, cur) && i < Count(ts) && Foot(m, v, t) !! Foot(m, s, ts)
    ensures Owns(n, EntryVal(n, s, i), ValAt(ts, i))
    ensures Foot(n, EntryVal(n, s, i), ValAt(ts, i)) == EntryFoot(m, s, ts, i)
    ensures Foot(n, v, cur) !! EntryFoot(m, s, ts, i) && WellFormed(ValAt(ts, i))
    ensures DistinctStrips(ts) ==> DistinctStrips(ValAt(ts, i))
    ensures s.r !in Foot(n, v, cur) && s.r !in EntryFoot(m, s, ts, i)
  {
    Disassemble(m, s, ts);
    FootMapped(m, s, ts);
    if i < |ts.kids| {
      Frame(m, n, m[s.r].kids[i], ts.kids[i]);
      forall x | x in Foot(n, v, cur)
        ensures x !in EntryFoot(m, s, ts, i)
      {
        if j :| 0 <= j < i && x in EntryFoot(m, s, ts, j) {
          assert KidFeet(m, s, ts)[j] !! KidFeet(m, s, ts)[i];
        }
      }
    }
    forall x | x in Foot(n, v, cur)
      ensures x != s.r
    {
      if j :| 0 <= j < i && x in EntryFoot(m, s, ts, j) {
        assert s.r !in KidFeet(m, s, ts)[j];
      }
    }
  }

  /** The indices and the length of an array are different names without prefixes. */
  lemma StripsDiffer(ts: Tree, i: nat, j: nat)
    requires WellFormed(ts) && ts.Node? && DistinctStrips(ts) && i < j < Count(ts)
    ensures Strip(KeyAt(ts, i)) != Strip(KeyAt(ts, j))
  {
    if ts.arr {
      ArrayNames(ts, i, j);
    }
  }

  lemma LoopNext(m: Mem, a: Ref, v: Val, t: Tree, s: Val, ts: Tree, i: nat, n: Mem, b: Ref, cur: Tree, o: Mem, c: Ref,
                 z: Tree)
    requires Looping(m, a, v, t, s, ts, i, n, b, cur) && i < Count(ts) && Foot(m, v, t) !! Foot(m, s, ts)
    requires Turned(n, b, v, cur, Strip(KeyAt(ts, i)), EntryFoot(m, s, ts, i), DistinctStrips(ValAt(ts, i)), o, c, z)
    ensures Looping(m, a, v, t, s, ts, i + 1, o, c, z)
  {
    LoopEntry(m, a, v, t, s, ts, i, n, b, cur);
    TurnedWeaken(n, b, v, cur, Strip(KeyAt(ts, i)), EntryFoot(m, s, ts, i), DistinctStrips(ValAt(ts, i)),
                 DistinctStrips(ts), o, c, z);
    LoopCells(m, a, v, t, s, ts, i, n, b, cur, o, c, z);
    LoopSource(m, a, v, t, s, ts, i, n, b, cur, o, c, z);
    LoopChanges(m, a, v, t, s, ts, i, n, b, cur, o, c, z);
  }

  lemma LoopCells(m: Mem, a: Ref, v: Val, t: Tree, s: Val, ts: Tree, i: nat, n: Mem, b: Ref, cur: Tree, o: Mem, c: Ref,
                  z: Tree)
    requires Looping(m, a, v, t, s, ts, i, n, b, cur) && i < Count(ts)
    requires Turned(n, b, v, cur, Strip(KeyAt(ts, i)), EntryFoot(m, s, ts, i), DistinctStrips(ts), o, c, z)
    ensures forall x | x in Foot(o, v, z) ::
      x in Foot(m, v, t) || x >= a || exists j :: 0 <= j < i + 1 && x in EntryFoot(m, s, ts, j)
    ensures Grows(m, a, o, c)
  {
    forall x | x in Foot(o, v, z)
      ensures x in Foot(m, v, t) || x >= a || exists j :: 0 <= j < i + 1 && x in EntryFoot(m, s, ts, j)
    {
      if x in Foot(n, v, cur) {
        if j :| 0 <= j < i && x in EntryFoot(m, s, ts, j) {
          assert 0 <= j < i + 1;
        }
      } else if x in EntryFoot(m, s, ts, i) {
        assert 0 <= i < i + 1;
      }
    }
  }

  lemma LoopSource(m: Mem, a: Ref, v: Val, t: Tree, s: Val, ts: Tree, i: nat, n: Mem, b: Ref, cur: Tree, o: Mem, c: Ref,
                   z: Tree)
    requires Looping(m, a, v, t, s, ts, i, n, b, cur) && i < Count(ts) && Foot(m, v, t) !! Foot(m, s, ts)
    requires Turned(n, b, v, cur, Strip(KeyAt(ts, i)), EntryFoot(m, s, ts, i), DistinctStrips(ts), o, c, z)
    ensures s.r in o && o[s.r] == m[s.r]
    ensures forall j | i < j < |ts.kids| :: Agree(m, o, KidFoot(m, s, ts, j))
  {
    var p := Strip(KeyAt(ts, i));
    LoopEntry(m, a, v, t, s, ts, i, n, b, cur);
    FootOfInside(n, v, cur, p);
    forall j | i < j < |ts.kids|
      ensures Agree(m, o, KidFoot(m, s, ts, j))
    {
      LoopLater(m, a, v, t, s, ts, i, j, n, b, cur);
    }
  }

  /** A later property of the source is apart from the destination and from the property in hand. */
  lemma LoopLater(m: Mem, a: Ref, v: Val, t: Tree, s: Val, ts: Tree, i: nat, j: nat, n: Mem, b: Ref, cur: Tree)
    requires Looping(m, a, v, t, s, ts, i, n, b, cur) && i < j < |ts.kids| && Foot(m, v, t) !! Foot(m, s, ts)
    ensures KidFoot(m, s, ts, j) !! Foot(n, v, cur) && KidFoot(m, s, ts, j) !! EntryFoot(m, s, ts, i)
  {
    Disassemble(m, s, ts);
    FootMapped(m, s, ts);
    assert KidFeet(m, s, ts)[i] !! KidFeet(m, s, ts)[j];
    forall x | x in Foot(n, v, cur)
      ensures x !in KidFoot(m, s, ts, j)
    {
      if k :| 0 <= k < i && x in EntryFoot(m, s, ts, k) {
        assert KidFeet(m, s, ts)[k] !! KidFeet(m, s, ts)[j];
      }
    }
  }

  lemma LoopChanges(m: Mem, a: Ref, v: Val, t: Tree, s: Val, ts: Tree, i: nat, n: Mem, b: Ref, cur: Tree, o: Mem,
                    c: Ref, z: Tree)
    requires Looping(m, a, v, t, s, ts, i, n, b, cur) && i < Count(ts) && Foot(m, v, t) !! Foot(m, s, ts)
    requires Turned(n, b, v, cur, Strip(KeyAt(ts, i)), EntryFoot(m, s, ts, i), DistinctStrips(ts), o, c, z)
    ensures Changed(m, o, Foot(m, v, t), Foot(m, s, ts), DistinctStrips(ts))
    ensures DistinctStrips(ts) ==> forall q | Untouched(ts, i + 1, q) :: FootOf(o, v, z, q) <= Foot(m, v, t)
  {
    var p := Strip(KeyAt(ts, i));
    Disassemble(m, s, ts);
    FootOfInside(m, v, t, p);
    FootOfInside(n, v, cur, p);
    if DistinctStrips(ts) {
      forall j | 0 <= j < i
        ensures Strip(KeyAt(ts, j)) != p
      {
        StripsDiffer(ts, j, i);
      }
      assert Untouched(ts, i, p);
      forall q | Untouched(ts, i + 1, q)
        ensures FootOf(o, v, z, q) <= Foot(m, v, t)
      {
        assert Untouched(ts, i, q) && q != p;
      }
    } else {
      LoopDirty(m, a, v, t, s, ts, i, n, b, cur, o, p);
    }
  }

  /** Without distinct names, the change stays within the two trees. */
  lemma LoopDirty(m: Mem, a: Ref, v: Val, t: Tree, s: Val, ts: Tree, i: nat, n: Mem, b: Ref, cur: Tree, o: Mem,
                  p: string)
    requires Looping(m, a, v, t, s, ts, i, n, b, cur) && i < Count(ts) && !DistinctStrips(ts)
    requires Changed(n, o, {v.r} + FootOf(n, v, cur, p), EntryFoot(m, s, ts, i), false)
    ensures Changed(m, o, Foot(m, v, t), Foot(m, s, ts), false)
  {
    LoopInside(m, a, v, t, s, ts, i, n, b, cur);
    FootOfInside(n, v, cur, p);
    if i < |ts.kids| {
      FootParts(m, s, ts, i);
    }
  }

  lemma LoopInside(m: Mem, a: Ref, v: Val, t: Tree, s: Val, ts: Tree, i: nat, n: Mem, b: Ref, cur: Tree)
    requires Looping(m, a, v, t, s, ts, i, n, b, cur)
    ensures FromOrNew(Foot(n, v, cur), Foot(m, v, t) + Foot(m, s, ts), a)
  {
    forall x | x in Foot(n, v, cur)
      ensures x in Foot(m, v, t) + Foot(m, s, ts) || x >= a
    {
      if j :| 0 <= j < i && x in EntryFoot(m, s, ts, j) {
        FootParts(m, s, ts, j);
      }
    }
  }

  // ---- The trees in between ----

  /** The tree that the destination represents after `i` properties of the source. */
  ghost function After(js: Js, d: Tree, ts: Tree, combine: Op, i: nat): (r: Tree)
    requires WellFormed(d) && d.IsObj() && WellFormed(ts) && ts.Node? && i <= Count(ts)
    ensures WellFormed(r) && r.IsObj()
  {
    if i == 0 then d else BlendKey(js, After(js, d, ts, combine, i - 1), ts, i - 1, combine)
  }

  lemma OneKey(js: Js, d: Tree, ts: Tree, i: nat, combine: Op)
    requires WellFormed(d) && d.IsObj() && WellFormed(ts) && ts.Node? && i < Count(ts)
    ensures BlendFrom(js, d, ts, i, combine) == BlendFrom(js, BlendKey(js, d, ts, i, combine), ts, i + 1, combine)
  {
  }

  lemma {:induction false} AfterAll(js: Js, d: Tree, ts: Tree, combine: Op, i: nat)
    requires WellFormed(d) && d.IsObj() && WellFormed(ts) && ts.Node? && i <= Count(ts)
    ensures BlendFrom(js, After(js, d, ts, combine, i), ts, i, combine) == BlendFrom(js, d, ts, 0, combine)
  {
    if i > 0 {
      var was := After(js, d, ts, combine, i - 1);
      assert After(js, d, ts, combine, i) == BlendKey(js, was, ts, i - 1, combine);
      AfterAll(js, d, ts, combine, i - 1);
      OneKey(js, was, ts, i - 1, combine);
    }
  }

  // ---- Which parts of the source the destination borrows ----

  /** A destination and a source that are trees of their own, apart from each other. */
  ghost predicate Ready(m: Mem, a: Ref, v: Val, t: Tree, s: Val, ts: Tree) {
    && Grows(m, a, m, a) && Owns(m, v, t) && WellFormed(t) && t.IsObj()
    && Owns(m, s, ts) && ts.Node? && WellFormed(ts) && Foot(m, v, t) !! Foot(m, s, ts)
  }

  /** The `i`-th property of the source changes a value of the destination in place. */
  ghost predicate Disturbs(js: Js, t: Tree, ts: Tree, combine: Op, i: nat)
    requires Before(t, ts, i)
  {
    Touches(js, After(js, t, ts, combine, i), Strip(KeyAt(ts, i)), ValAt(ts, i), OpOf(KeyAt(ts, i), combine))
  }

  /** The property of the source whose value the destination's property `q` has borrowed, after `i` properties. */
  ghost function Lender(js: Js, t: Tree, ts: Tree, combine: Op, i: nat, q: string): (k: Option<nat>)
    requires WellFormed(t) && t.IsObj() && WellFormed(ts) && ts.Node? && i <= Count(ts)
    ensures k.Some? ==> k.value < |ts.kids| && k.value < i
  {
    if i == 0 then None
    else
      var was := Lender(js, t, ts, combine, i - 1, q);
      if Strip(KeyAt(ts, i - 1)) != q then was
      else if Borrows(js, After(js, t, ts, combine, i - 1), q, ValAt(ts, i - 1), OpOf(KeyAt(ts, i - 1), combine))
      then Some(i - 1)
      else if Disturbs(js, t, ts, combine, i - 1) then was
      else None
  }

  /** A cell of property `q` is the destination's, new, or of a property of the source that strips to `q`. */
  ghost predicate FromName(m: Mem, a: Ref, v: Val, t: Tree, s: Val, ts: Tree, i: nat, q: string, x: Ref)
    requires Rep(m, v, t) && Rep(m, s, ts) && ts.Node? && WellFormed(ts) && i <= Count(ts)
  {
    x in Foot(m, v, t) || x >= a || exists k :: 0 <= k < i && Strip(KeyAt(ts, k)) == q && x in EntryFoot(m, s, ts, k)
  }

  ghost predicate NamesApart(m: Mem, a: Ref, v: Val, t: Tree, s: Val, ts: Tree, i: nat, n: Mem, cur: Tree)
    requires Rep(m, v, t) && Rep(m, s, ts) && ts.Node? && WellFormed(ts) && i <= Count(ts)
    requires Rep(n, v, cur) && WellFormed(cur) && cur.IsObj()
  {
    forall q, x | x in FootOf(n, v, cur, q) :: FromName(m, a, v, t, s, ts, i, q, x)
  }

  /** A borrowing property has the source's own value. */
  ghost predicate Holds(js: Js, m: Mem, v: Val, t: Tree, s: Val, ts: Tree, combine: Op, i: nat, n: Mem)
    requires WellFormed(t) && t.IsObj() && WellFormed(ts) && ts.Node? && i <= Count(ts) && Rep(m, s, ts)
    requires Rep(n, v, After(js, t, ts, combine, i))
  {
    forall q | q in After(js, t, ts, combine, i).keys && Lender(js, t, ts, combine, i, q).Some? ::
      ValOf(n, v, After(js, t, ts, combine, i), q) == m[s.r].kids[Lender(js, t, ts, combine, i, q).value]
  }

  /** The property of the source of which the destination's property `q` is a clone, after `i` properties. */
  ghost function Copier(js: Js, t: Tree, ts: Tree, combine: Op, i: nat, q: string): (k: Option<nat>)
    requires WellFormed(t) && t.IsObj() && WellFormed(ts) && ts.Node? && i <= Count(ts)
    ensures k.Some? ==> k.value < i
  {
    if i == 0 then None
    else if Strip(KeyAt(ts, i - 1)) != q then Copier(js, t, ts, combine, i - 1, q)
    else if Clones(After(js, t, ts, combine, i - 1), q, OpOf(KeyAt(ts, i - 1), combine)) then Some(i - 1)
    else None
  }

  /** A cloned property is a copy of the source's, as it was at first. */
  ghost predicate IsCopy(m: Mem, a: Ref, v: Val, s: Val, ts: Tree, n: Mem, cur: Tree, q: string, k: nat)
    requires s.R? && s.r in m && ts.Node? && k < Count(ts) && Rep(n, v, cur) && WellFormed(cur) && cur.IsObj()
  {
    q in cur.keys ==>
      && cur.kids[Find(cur.keys, q)] == ValAt(ts, k)
      && Copied(m, a, EntryVal(m, s, k), ValAt(ts, k), n, ValOf(n, v, cur, q))
  }

  ghost predicate Copies(js: Js, m: Mem, a: Ref, v: Val, t: Tree, s: Val, ts: Tree, combine: Op, i: nat, n: Mem)
    requires WellFormed(t) && t.IsObj() && WellFormed(ts) && ts.Node? && i <= Count(ts) && Rep(m, s, ts)
    requires Rep(n, v, After(js, t, ts, combine, i))
  {
    forall q | Copier(js, t, ts, combine, i, q).Some? ::
      IsCopy(m, a, v, s, ts, n, After(js, t, ts, combine, i), q, Copier(js, t, ts, combine, i, q).value)
  }

  /** No property from `k` up to `i` with the same stripped name changes a value in place. */
  ghost predicate Undisturbed(js: Js, t: Tree, ts: Tree, combine: Op, k: nat, i: nat)
    requires WellFormed(t) && t.IsObj() && WellFormed(ts) && ts.Node? && k < i <= Count(ts)
  {
    forall l | k < l < i && Strip(KeyAt(ts, l)) == Strip(KeyAt(ts, k)) :: !Disturbs(js, t, ts, combine, l)
  }

  /** The parts of the source that nothing disturbs are as they were. */
  ghost predicate Intact(js: Js, m: Mem, t: Tree, s: Val, ts: Tree, combine: Op, i: nat, n: Mem)
    requires WellFormed(t) && t.IsObj() && WellFormed(ts) && ts.Node? && i <= Count(ts) && Rep(m, s, ts)
  {
    forall k | 0 <= k < i && k < |ts.kids| && DistinctStrips(ts.kids[k]) && Undisturbed(js, t, ts, combine, k, i) ::
      Agree(m, n, KidFoot(m, s, ts, k))
  }

  ghost predicate Tracked(js: Js, m: Mem, a: Ref, v: Val, t: Tree, s: Val, ts: Tree, combine: Op, i: nat, n: Mem,
                          b: Ref) {
    && Ready(m, a, v, t, s, ts) && i <= Count(ts)
    && Looping(m, a, v, t, s, ts, i, n, b, After(js, t, ts, combine, i))
    && NamesApart(m, a, v, t, s, ts, i, n, After(js, t, ts, combine, i))
    && Holds(js, m, v, t, s, ts, combine, i, n) && Intact(js, m, t, s, ts, combine, i, n)
    && Copies(js, m, a, v, t, s, ts, combine, i, n)
  }

  /** ... in the state after `i` properties. */
  ghost function NextStates(js: Js, v: Val, t: Tree, s: Val, ts: Tree, combine: Op, i: nat, n: Mem, b: Ref)
    : iset<(Mem, Ref)>
    requires Before(t, ts, i) && s.R? && s.r in n && Rep(n, EntryVal(n, s, i), ValAt(ts, i))
  {
    TurnStates(js, n, b, v, After(js, t, ts, combine, i), EntryVal(n, s, i), ts, i, combine)
  }

  /** One turn: the destination's properties, ... */
  lemma NamesNext(js: Js, m: Mem, a: Ref, v: Val, t: Tree, s: Val, ts: Tree, combine: Op, i: nat, n: Mem, b: Ref,
                  o: Mem, c: Ref)
    requires Tracked(js, m, a, v, t, s, ts, combine, i, n, b) && i < Count(ts)
    requires Rep(n, EntryVal(n, s, i), ValAt(ts, i)) && (o, c) in NextStates(js, v, t, s, ts, combine, i, n, b)
    ensures NamesApart(m, a, v, t, s, ts, i + 1, o, After(js, t, ts, combine, i + 1))
  {
    var cur, z, p := After(js, t, ts, combine, i), After(js, t, ts, combine, i + 1), Strip(KeyAt(ts, i));
    LoopEntry(m, a, v, t, s, ts, i, n, b, cur);
    forall q, x | x in FootOf(o, v, z, q)
      ensures FromName(m, a, v, t, s, ts, i + 1, q, x)
    {
      if x in FootOf(n, v, cur, q) {
        assert FromName(m, a, v, t, s, ts, i, q, x);
      } else if x in EntryFoot(m, s, ts, i) {
        assert 0 <= i < i + 1 && q == p;
      }
    }
  }

  /** ... what they have borrowed, ... */
  lemma HoldsNext(js: Js, m: Mem, a: Ref, v: Val, t: Tree, s: Val, ts: Tree, combine: Op, i: nat, n: Mem, b: Ref,
                  o: Mem, c: Ref)
    requires Tracked(js, m, a, v, t, s, ts, combine, i, n, b) && i < Count(ts)
    requires Rep(n, EntryVal(n, s, i), ValAt(ts, i)) && (o, c) in NextStates(js, v, t, s, ts, combine, i, n, b)
    requires Rep(o, v, After(js, t, ts, combine, i + 1))
    ensures Holds(js, m, v, t, s, ts, combine, i + 1, o)
  {
    var cur, z, p := After(js, t, ts, combine, i), After(js, t, ts, combine, i + 1), Strip(KeyAt(ts, i));
    forall q | q in z.keys && Lender(js, t, ts, combine, i + 1, q).Some?
      ensures ValOf(o, v, z, q) == m[s.r].kids[Lender(js, t, ts, combine, i + 1, q).value]
    {
      if q != p {
        assert q in cur.keys && ValOf(o, v, z, q) == ValOf(n, v, cur, q);
      }
    }
  }

  /** ... what they are clones of, ... */
  lemma CopiesNext(js: Js, m: Mem, a: Ref, v: Val, t: Tree, s: Val, ts: Tree, combine: Op, i: nat, n: Mem, b: Ref,
                   o: Mem, c: Ref)
    requires Tracked(js, m, a, v, t, s, ts, combine, i, n, b) && i < Count(ts)
    requires Rep(n, EntryVal(n, s, i), ValAt(ts, i)) && (o, c) in NextStates(js, v, t, s, ts, combine, i, n, b)
    requires Rep(o, v, After(js, t, ts, combine, i + 1))
    ensures Copies(js, m, a, v, t, s, ts, combine, i + 1, o)
  {
    var next := i + 1;
    forall q | Copier(js, t, ts, combine, next, q).Some?
      ensures IsCopy(m, a, v, s, ts, o, After(js, t, ts, combine, next), q, Copier(js, t, ts, combine, next, q).value)
    {
      if q == Strip(KeyAt(ts, i)) {
        NewCopy(js, m, a, v, t, s, ts, combine, i, n, b, o, c);
      } else {
        OldCopy(js, m, a, v, t, s, ts, combine, i, n, b, o, c, q, Copier(js, t, ts, combine, i, q).value);
      }
    }
  }

  lemma NewCopy(js: Js, m: Mem, a: Ref, v: Val, t: Tree, s: Val, ts: Tree, combine: Op, i: nat, n: Mem, b: Ref, o: Mem,
                c: Ref)
    requires Tracked(js, m, a, v, t, s, ts, combine, i, n, b) && i < Count(ts)
    requires Rep(n, EntryVal(n, s, i), ValAt(ts, i)) && (o, c) in NextStates(js, v, t, s, ts, combine, i, n, b)
    requires Rep(o, v, After(js, t, ts, combine, i + 1))
    requires Clones(After(js, t, ts, combine, i), Strip(KeyAt(ts, i)), OpOf(KeyAt(ts, i), combine))
    ensures IsCopy(m, a, v, s, ts, o, After(js, t, ts, combine, i + 1), Strip(KeyAt(ts, i)), i)
  {
    var z, p := After(js, t, ts, combine, i + 1), Strip(KeyAt(ts, i));
    KeyClones(js, After(js, t, ts, combine, i), ts, i, combine);
    if p in z.keys {
      EntryBefore(m, a, v, t, s, ts, i, n, b, After(js, t, ts, combine, i));
      CopiedBefore(m, a, EntryVal(m, s, i), ValAt(ts, i), n, b, o, ValOf(o, v, z, p));
    }
  }

  /** The property in hand is still as it was at first. */
  lemma EntryBefore(m: Mem, a: Ref, v: Val, t: Tree, s: Val, ts: Tree, i: nat, n: Mem, b: Ref, cur: Tree)
    requires Looping(m, a, v, t, s, ts, i, n, b, cur) && i < Count(ts)
    ensures s.r in m && EntryVal(n, s, i) == EntryVal(m, s, i) && Rep(m, EntryVal(m, s, i), ValAt(ts, i))
    ensures Agree(m, n, Foot(m, EntryVal(m, s, i), ValAt(ts, i))) && a <= b
  {
    if i < |ts.kids| {
      assert Agree(m, n, KidFoot(m, s, ts, i));
    }
  }

  lemma KeyClones(js: Js, d: Tree, ts: Tree, i: nat, combine: Op)
    requires Before(d, ts, i) && Clones(d, Strip(KeyAt(ts, i)), OpOf(KeyAt(ts, i), combine))
    ensures BlendAlgebra.Get(BlendKey(js, d, ts, i, combine), Strip(KeyAt(ts, i))) == Some(ValAt(ts, i))
  {
    var p, v, op := Strip(KeyAt(ts, i)), ValAt(ts, i), OpOf(KeyAt(ts, i), combine);
    if p in d.keys {
      WellFormedPut(js, d, Find(d.keys, p), v, op);
      BlendAlgebra.GetReplace(d, Find(d.keys, p), v, p);
    } else {
      BlendAlgebra.GetAppend(d, p, v, p);
    }
  }

  lemma OldCopy(js: Js, m: Mem, a: Ref, v: Val, t: Tree, s: Val, ts: Tree, combine: Op, i: nat, n: Mem, b: Ref, o: Mem,
                c: Ref, q: string, k: nat)
    requires Tracked(js, m, a, v, t, s, ts, combine, i, n, b) && i < Count(ts) && k < Count(ts)
    requires Rep(n, EntryVal(n, s, i), ValAt(ts, i)) && (o, c) in NextStates(js, v, t, s, ts, combine, i, n, b)
    requires Rep(o, v, After(js, t, ts, combine, i + 1)) && q != Strip(KeyAt(ts, i))
    requires IsCopy(m, a, v, s, ts, n, After(js, t, ts, combine, i), q, k)
    ensures IsCopy(m, a, v, s, ts, o, After(js, t, ts, combine, i + 1), q, k)
  {
    var cur, z := After(js, t, ts, combine, i), After(js, t, ts, combine, i + 1);
    BlendAlgebra.KeyFrame(js, cur, ts, i, combine, q);
    if q in z.keys {
      assert BlendAlgebra.Get(z, q) == BlendAlgebra.Get(cur, q);
      OtherStays(js, m, a, v, t, s, ts, combine, i, n, b, o, c, q);
      CopiedFrame(m, a, EntryVal(m, s, k), ValAt(ts, k), n, ValOf(n, v, cur, q), o);
    }
  }

  /** One turn leaves the cells of the other properties. */
  lemma OtherStays(js: Js, m: Mem, a: Ref, v: Val, t: Tree, s: Val, ts: Tree, combine: Op, i: nat, n: Mem, b: Ref,
                   o: Mem, c: Ref, q: string)
    requires Tracked(js, m, a, v, t, s, ts, combine, i, n, b) && i < Count(ts)
    requires Rep(n, EntryVal(n, s, i), ValAt(ts, i)) && (o, c) in NextStates(js, v, t, s, ts, combine, i, n, b)
    requires q != Strip(KeyAt(ts, i)) && q in After(js, t, ts, combine, i).keys
    ensures var cur := After(js, t, ts, combine, i);
            var j := Find(cur.keys, q); Agree(n, o, Foot(n, n[v.r].kids[j], cur.kids[j]))
  {
    var cur, p := After(js, t, ts, combine, i), Strip(KeyAt(ts, i));
    LoopEntry(m, a, v, t, s, ts, i, n, b, cur);
    PropertiesApart(n, v, cur, q, p);
  }

  /** ... and the source. */
  lemma IntactNext(js: Js, m: Mem, a: Ref, v: Val, t: Tree, s: Val, ts: Tree, combine: Op, i: nat, n: Mem, b: Ref,
                   o: Mem, c: Ref)
    requires Tracked(js, m, a, v, t, s, ts, combine, i, n, b) && i < Count(ts)
    requires Rep(n, EntryVal(n, s, i), ValAt(ts, i)) && (o, c) in NextStates(js, v, t, s, ts, combine, i, n, b)
    ensures Intact(js, m, t, s, ts, combine, i + 1, o)
  {
    forall k | 0 <= k < i + 1 && k < |ts.kids| && DistinctStrips(ts.kids[k])
               && Undisturbed(js, t, ts, combine, k, i + 1)
      ensures Agree(m, o, KidFoot(m, s, ts, k))
    {
      IntactAt(js, m, a, v, t, s, ts, combine, i, n, b, o, c, k);
    }
  }

  lemma IntactAt(js: Js, m: Mem, a: Ref, v: Val, t: Tree, s: Val, ts: Tree, combine: Op, i: nat, n: Mem, b: Ref, o: Mem,
                 c: Ref, k: nat)
    requires Tracked(js, m, a, v, t, s, ts, combine, i, n, b) && k <= i < Count(ts) && k < |ts.kids|
    requires Rep(n, EntryVal(n, s, i), ValAt(ts, i)) && (o, c) in NextStates(js, v, t, s, ts, combine, i, n, b)
    requires DistinctStrips(ts.kids[k]) && Undisturbed(js, t, ts, combine, k, i + 1)
    ensures Agree(m, o, KidFoot(m, s, ts, k))
  {
    if k < i {
      assert Undisturbed(js, t, ts, combine, k, i);
      PartStays(js, m, a, v, t, s, ts, combine, i, n, b, o, c, k);
    } else {
      SelfStays(js, m, a, v, t, s, ts, combine, i, n, b, o, c);
    }
  }

  /** The part of the source in hand is apart from the destination. */
  lemma SelfStays(js: Js, m: Mem, a: Ref, v: Val, t: Tree, s: Val, ts: Tree, combine: Op, i: nat, n: Mem, b: Ref,
                  o: Mem, c: Ref)
    requires Tracked(js, m, a, v, t, s, ts, combine, i, n, b) && i < |ts.kids| && DistinctStrips(ts.kids[i])
    requires Rep(n, EntryVal(n, s, i), ValAt(ts, i)) && (o, c) in NextStates(js, v, t, s, ts, combine, i, n, b)
    ensures Agree(m, o, KidFoot(m, s, ts, i))
  {
    var cur := After(js, t, ts, combine, i);
    LoopEntry(m, a, v, t, s, ts, i, n, b, cur);
    FootOfInside(n, v, cur, Strip(KeyAt(ts, i)));
  }

  /** An earlier part of the source is apart from what a turn changes. */
  lemma PartStays(js: Js, m: Mem, a: Ref, v: Val, t: Tree, s: Val, ts: Tree, combine: Op, i: nat, n: Mem, b: Ref,
                  o: Mem, c: Ref, k: nat)
    requires Tracked(js, m, a, v, t, s, ts, combine, i, n, b) && k < i < Count(ts) && k < |ts.kids|
    requires Rep(n, EntryVal(n, s, i), ValAt(ts, i)) && (o, c) in NextStates(js, v, t, s, ts, combine, i, n, b)
    requires Strip(KeyAt(ts, i)) == Strip(KeyAt(ts, k)) ==> !Disturbs(js, t, ts, combine, i)
    requires Agree(m, n, KidFoot(m, s, ts, k))
    ensures Agree(m, o, KidFoot(m, s, ts, k))
  {
    var cur, p := After(js, t, ts, combine, i), Strip(KeyAt(ts, i));
    LoopEntry(m, a, v, t, s, ts, i, n, b, cur);
    PartApart(m, v, t, s, ts, k, i);
    if p != Strip(KeyAt(ts, k)) {
      forall x | x in KidFoot(m, s, ts, k)
        ensures x !in FootOf(n, v, cur, p)
      {
        NotOfName(js, m, a, v, t, s, ts, combine, i, n, b, k, p, x);
      }
    }
  }

  lemma PartApart(m: Mem, v: Val, t: Tree, s: Val, ts: Tree, k: nat, l: nat)
    requires Owns(m, v, t) && t.IsObj() && Owns(m, s, ts) && ts.Node? && Foot(m, v, t) !! Foot(m, s, ts)
    requires k < |ts.kids| && k != l
    ensures KidFoot(m, s, ts, k) !! EntryFoot(m, s, ts, l) && v.r !in KidFoot(m, s, ts, k)
    ensures KidFoot(m, s, ts, k) !! Foot(m, v, t) && forall x | x in KidFoot(m, s, ts, k) :: x in m
  {
    Disassemble(m, s, ts);
    FootMapped(m, s, ts);
    FootRoot(m, v, t);
    if l < |ts.kids| {
      assert KidFeet(m, s, ts)[k] !! KidFeet(m, s, ts)[l];
    }
  }

  lemma NotOfName(js: Js, m: Mem, a: Ref, v: Val, t: Tree, s: Val, ts: Tree, combine: Op, i: nat, n: Mem, b: Ref,
                  k: nat, p: string, x: Ref)
    requires Tracked(js, m, a, v, t, s, ts, combine, i, n, b) && k < |ts.kids| && Strip(KeyAt(ts, k)) != p
    requires x in KidFoot(m, s, ts, k)
    ensures x !in FootOf(n, v, After(js, t, ts, combine, i), p)
  {
    PartApart(m, v, t, s, ts, k, |ts.kids|);
    if FromName(m, a, v, t, s, ts, i, p, x) {
      var l :| 0 <= l < i && Strip(KeyAt(ts, l)) == p && x in EntryFoot(m, s, ts, l);
      PartApart(m, v, t, s, ts, k, l);
    }
  }

  lemma TrackNext(js: Js, m: Mem, a: Ref, v: Val, t: Tree, s: Val, ts: Tree, combine: Op, i: nat, n: Mem, b: Ref,
                  o: Mem, c: Ref)
    requires Tracked(js, m, a, v, t, s, ts, combine, i, n, b) && i < Count(ts)
    requires Rep(n, EntryVal(n, s, i), ValAt(ts, i)) && (o, c) in NextStates(js, v, t, s, ts, combine, i, n, b)
    ensures Tracked(js, m, a, v, t, s, ts, combine, i + 1, o, c)
  {
    var cur, z := After(js, t, ts, combine, i), After(js, t, ts, combine, i + 1);
    LoopEntry(m, a, v, t, s, ts, i, n, b, cur);
    LoopNext(m, a, v, t, s, ts, i, n, b, cur, o, c, z);
    NamesNext(js, m, a, v, t, s, ts, combine, i, n, b, o, c);
    HoldsNext(js, m, a, v, t, s, ts, combine, i, n, b, o, c);
    CopiesNext(js, m, a, v, t, s, ts, combine, i, n, b, o, c);
    IntactNext(js, m, a, v, t, s, ts, combine, i, n, b, o, c);
  }

  lemma TrackStart(js: Js, m: Mem, a: Ref, v: Val, t: Tree, s: Val, ts: Tree, combine: Op)
    requires Ready(m, a, v, t, s, ts)
    ensures Tracked(js, m, a, v, t, s, ts, combine, 0, m, a)
  {
    LoopStart(m, a, v, t, s, ts);
    forall q, x | x in FootOf(m, v, t, q)
      ensures FromName(m, a, v, t, s, ts, 0, q, x)
    {
      FootOfInside(m, v, t, q);
    }
  }

  // ---- The run of the loop ----

  /** The heap after `k` properties comes from the one before. */
  ghost predicate StepOk(js: Js, v: Val, t: Tree, s: Val, ts: Tree, combine: Op, trace: seq<(Mem, Ref)>, k: int) {
    && 0 < k < |trace| && Before(t, ts, k - 1) && s.R? && s.r in trace[k - 1].0
    && Rep(trace[k - 1].0, EntryVal(trace[k - 1].0, s, k - 1), ValAt(ts, k - 1))
    && trace[k] in NextStates(js, v, t, s, ts, combine, k - 1, trace[k - 1].0, trace[k - 1].1)
  }

  /** The heaps from the first to the one after `i` properties. */
  ghost predicate Trace(js: Js, m: Mem, a: Ref, v: Val, t: Tree, s: Val, ts: Tree, combine: Op, trace: seq<(Mem, Ref)>,
                        i: int, n: Mem, b: Ref) {
    && 0 <= i && |trace| == i + 1 && trace[0] == (m, a) && trace[i] == (n, b)
    && forall k | 0 < k <= i :: StepOk(js, v, t, s, ts, combine, trace, k)
  }

  lemma {:induction false} TraceTracked(js: Js, m: Mem, a: Ref, v: Val, t: Tree, s: Val, ts: Tree, combine: Op,
                                        trace: seq<(Mem, Ref)>, i: nat, n: Mem, b: Ref)
    requires Ready(m, a, v, t, s, ts) && Trace(js, m, a, v, t, s, ts, combine, trace, i, n, b)
    ensures Tracked(js, m, a, v, t, s, ts, combine, i, n, b)
  {
    if i == 0 {
      TrackStart(js, m, a, v, t, s, ts, combine);
    } else {
      var (o, c) := trace[i - 1];
      TraceShorter(js, m, a, v, t, s, ts, combine, trace, i, n, b);
      TraceTracked(js, m, a, v, t, s, ts, combine, trace[..i], i - 1, o, c);
      assert StepOk(js, v, t, s, ts, combine, trace, i);
      TrackNext(js, m, a, v, t, s, ts, combine, i - 1, o, c, n, b);
    }
  }

  lemma TraceShorter(js: Js, m: Mem, a: Ref, v: Val, t: Tree, s: Val, ts: Tree, combine: Op, trace: seq<(Mem, Ref)>,
                     i: nat, n: Mem, b: Ref)
    requires Trace(js, m, a, v, t, s, ts, combine, trace, i, n, b) && i > 0
    ensures Trace(js, m, a, v, t, s, ts, combine, trace[..i], i - 1, trace[i - 1].0, trace[i - 1].1)
  {
    forall k | 0 < k <= i - 1
      ensures StepOk(js, v, t, s, ts, combine, trace[..i], k)
    {
      assert StepOk(js, v, t, s, ts, combine, trace, k);
    }
  }

  lemma TraceLonger(js: Js, m: Mem, a: Ref, v: Val, t: Tree, s: Val, ts: Tree, combine: Op, trace: seq<(Mem, Ref)>,
                    i: nat, n: Mem, b: Ref, o: Mem, c: Ref)
    requires Trace(js, m, a, v, t, s, ts, combine, trace, i, n, b) && Before(t, ts, i) && s.R? && s.r in n
    requires Rep(n, EntryVal(n, s, i), ValAt(ts, i)) && (o, c) in NextStates(js, v, t, s, ts, combine, i, n, b)
    ensures Trace(js, m, a, v, t, s, ts, combine, trace + [(o, c)], i + 1, o, c)
  {
    forall k | 0 < k <= i + 1
      ensures StepOk(js, v, t, s, ts, combine, trace + [(o, c)], k)
    {
      if k <= i {
        StepStays(js, v, t, s, ts, combine, trace, (o, c), k);
      } else {
        StepLast(js, v, t, s, ts, combine, trace + [(o, c)], i, n, b, o, c);
      }
    }
  }

  lemma StepStays(js: Js, v: Val, t: Tree, s: Val, ts: Tree, combine: Op, trace: seq<(Mem, Ref)>, last: (Mem, Ref),
                  k: int)
    requires StepOk(js, v, t, s, ts, combine, trace, k)
    ensures StepOk(js, v, t, s, ts, combine, trace + [last], k)
  {
  }

  lemma StepLast(js: Js, v: Val, t: Tree, s: Val, ts: Tree, combine: Op, trace: seq<(Mem, Ref)>, i: nat, n: Mem, b: Ref,
                 o: Mem, c: Ref)
    requires |trace| == i + 2 && trace[i] == (n, b) && trace[i + 1] == (o, c) && Before(t, ts, i) && s.R? && s.r in n
    requires Rep(n, EntryVal(n, s, i), ValAt(ts, i)) && (o, c) in NextStates(js, v, t, s, ts, combine, i, n, b)
    ensures StepOk(js, v, t, s, ts, combine, trace, i + 1)
  {
  }

  lemma LoopEnd(js: Js, m: Mem, a: Ref, v: Val, t: Tree, s: Val, ts: Tree, combine: Op, n: Mem, b: Ref)
    requires Tracked(js, m, a, v, t, s, ts, combine, Count(ts), n, b)
    ensures Renewed(m, a, Foot(m, v, t), Foot(m, s, ts), DistinctStrips(ts), n, b, v,
                    BlendTree.Blend(js, t, ts, combine))
  {
    AfterAll(js, t, ts, combine, Count(ts));
    LoopInside(m, a, v, t, s, ts, Count(ts), n, b, After(js, t, ts, combine, Count(ts)));
  }

  function OwnNames(c: Cell): seq<string> {
    if !c.arr then c.keys else seq(|c.kids|, (i: nat) => Decimal(i)) + ["length"]
  }

  /** The names that the loop goes over. */
  function NamesOf(ts: Tree): seq<string>
    requires ts.Node?
  {
    if !ts.arr then ts.keys else seq(|ts.kids|, (i: nat) => Decimal(i)) + ["length"]
  }

  lemma NamesAre(m: Mem, s: Val, ts: Tree)
    requires Rep(m, s, ts) && ts.Node?
    ensures OwnNames(m[s.r]) == NamesOf(ts) && (WellFormed(ts) ==> |NamesOf(ts)| == Count(ts))
  {
  }
}
