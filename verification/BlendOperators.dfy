/**
 What each operator prefix of paks/assist/blend.js does to a property, for every destination and every source. The
 prefixes are written out, and so is the outcome for each kind of value.
 */
module BlendOperators {
  import opened Sequences
  import opened BlendTree
  import opened BlendAlgebra

  // ---- The property in the loop ----

  /** The `i`-th name of the source strips to `p`, and no other does. */
  ghost predicate Sole(s: Tree, i: nat, p: string) {
    && WellFormed(s) && s.Node? && i < Count(s) && Strip(KeyAt(s, i)) == p
    && forall k | 0 <= k < Count(s) && k != i :: Strip(KeyAt(s, k)) != p
  }

  /** What the case analysis makes of a property that is there or not. */
  function Outcome(js: Js, x: Option<Tree>, v: Tree, op: Op): Option<Tree>
    requires WellFormed(v) && (x.Some? ==> WellFormed(x.value))
  {
    if x.None? then (if op == Sub then None else Some(v))
    else
      match ChangeOf(js, x.value, v, op)
      case Keep => x
      case Put(u) => Some(u)
      case Delete => None
      case Descend => Some(BlendTree.Blend(js, x.value, v, op))
  }

  lemma KeyOutcome(js: Js, d: Tree, s: Tree, i: nat, combine: Op)
    requires WellFormed(d) && d.IsObj() && WellFormed(s) && s.Node? && i < Count(s)
    ensures var p := Strip(KeyAt(s, i));
            Get(BlendKey(js, d, s, i, combine), p) == Outcome(js, Get(d, p), ValAt(s, i), OpOf(KeyAt(s, i), combine))
  {
    var p, v, op := Strip(KeyAt(s, i)), ValAt(s, i), OpOf(KeyAt(s, i), combine);
    var j := Find(d.keys, p);
    if p in d.keys {
      match ChangeOf(js, d.kids[j], v, op)
      case Keep =>
      case Put(u) =>
        WellFormedPut(js, d, j, v, op);
        GetReplace(d, j, u, p);
      case Delete =>
        WellFormedRemove(d, j);
        NotThere(d, j);
      case Descend =>
        GetReplace(d, j, BlendTree.Blend(js, d.kids[j], v, op), p);
    } else if op != Sub {
      GetAppend(d, p, v, p);
    }
  }

  lemma NotThere(d: Tree, j: nat)
    requires WellFormed(d) && d.IsObj() && j < |d.keys| && WellFormed(Remove(d, j))
    ensures Get(Remove(d, j), d.keys[j]) == None
  {
    assert d.keys[j] !in Without(d.keys, j);
  }

  /** Names that strip to others leave the property alone. */
  lemma {:induction false} OthersLeave(js: Js, d: Tree, s: Tree, i: nat, combine: Op, p: string)
    requires WellFormed(d) && d.IsObj() && WellFormed(s) && s.Node? && i <= Count(s)
    requires forall k | i <= k < Count(s) :: Strip(KeyAt(s, k)) != p
    ensures Get(BlendFrom(js, d, s, i, combine), p) == Get(d, p)
    decreases Count(s) - i
  {
    if i < Count(s) {
      KeyFrame(js, d, s, i, combine, p);
      OthersLeave(js, BlendKey(js, d, s, i, combine), s, i + 1, combine, p);
    }
  }

  lemma {:induction false} LoopOutcome(js: Js, d: Tree, s: Tree, k: nat, combine: Op, i: nat, p: string)
    requires WellFormed(d) && d.IsObj() && Sole(s, i, p) && k <= i
    ensures Get(BlendFrom(js, d, s, k, combine), p) == Outcome(js, Get(d, p), ValAt(s, i), OpOf(KeyAt(s, i), combine))
    decreases i - k
  {
    var r := BlendKey(js, d, s, k, combine);
    if k < i {
      KeyFrame(js, d, s, k, combine, p);
      LoopOutcome(js, r, s, k + 1, combine, i, p);
    } else {
      KeyOutcome(js, d, s, i, combine);
      OthersLeave(js, r, s, i + 1, combine, p);
    }
  }

  lemma BlendOutcome(js: Js, d: Tree, s: Tree, combine: Op, i: nat, p: string)
    requires WellFormed(d) && d.IsObj() && Sole(s, i, p)
    ensures Get(BlendTree.Blend(js, d, s, combine), p)
         == Outcome(js, Get(d, p), ValAt(s, i), OpOf(KeyAt(s, i), combine))
  {
    LoopOutcome(js, d, s, 0, combine, i, p);
  }

  // ---- The operators ----

  lemma PrefixedName(c: char, p: string)
    requires c in "+-?="
    ensures Strip([c] + p) == p && HasPrefix([c] + p) && ([c] + p)[0] == c
  {
    assert ([c] + p)[1..] == p;
  }

  /** `?` leaves a property that is there and adds one that is not. */
  lemma AskName(js: Js, d: Tree, s: Tree, combine: Op, i: nat, p: string)
    requires WellFormed(d) && d.IsObj() && Sole(s, i, p) && s.IsObj() && s.keys[i] == "?" + p
    ensures Get(BlendTree.Blend(js, d, s, combine), p) == if p in d.keys then Get(d, p) else Some(s.kids[i])
  {
    PrefixedName('?', p);
    BlendOutcome(js, d, s, combine, i, p);
  }

  /** `=` makes the property the source's value. */
  lemma SetName(js: Js, d: Tree, s: Tree, combine: Op, i: nat, p: string)
    requires WellFormed(d) && d.IsObj() && Sole(s, i, p) && s.IsObj() && s.keys[i] == "=" + p
    ensures Get(BlendTree.Blend(js, d, s, combine), p) == Some(s.kids[i])
  {
    PrefixedName('=', p);
    BlendOutcome(js, d, s, combine, i, p);
  }

  /** `-` does nothing to a property that is not there, nor to an array; it deletes an object, a boolean, null and
      undefined; of a string it deletes an equal one and removes the source's text from another; and it subtracts from a
      number. */
  lemma SubName(js: Js, d: Tree, s: Tree, combine: Op, i: nat, p: string)
    requires WellFormed(d) && d.IsObj() && Sole(s, i, p) && s.IsObj() && s.keys[i] == "-" + p
    ensures var r, v := Get(BlendTree.Blend(js, d, s, combine), p), s.kids[i];
            if p !in d.keys then r == None
            else
              var x := Get(d, p).value;
              && (x.Node? ==> r == if x.arr then Some(x) else None)
              && (x.Leaf? && (x.p.Bool? || x.p.Null? || x.p.Undefined?) ==> r == None)
              && (x.Leaf? && x.p.Str? ==>
                    r == if js.equals(x.p.s, v) then None else Some(Leaf(Str(js.replace(x.p.s, v)))))
              && (x.Leaf? && x.p.Num? && v.Leaf? && v.p.Num? ==> r == Some(Leaf(Num(x.p.n - v.p.n))))
              && (x.Leaf? && (x.p.NaN? || (x.p.Num? && !(v.Leaf? && v.p.Num?))) ==> r == Some(Leaf(js.minus(x.p, v))))
  {
    PrefixedName('-', p);
    BlendOutcome(js, d, s, combine, i, p);
  }

  /** `+` adds a property that is not there; it appends the source to an array, item by item if the source is an array;
      it descends into an object with the same operator; it joins to a string with a space; it adds to a number; and
      it replaces anything else. */
  lemma AddName(js: Js, d: Tree, s: Tree, combine: Op, i: nat, p: string)
    requires WellFormed(d) && d.IsObj() && Sole(s, i, p) && s.IsObj() && s.keys[i] == "+" + p
    ensures var r, v := Get(BlendTree.Blend(js, d, s, combine), p), s.kids[i];
            if p !in d.keys then r == Some(v)
            else
              var x := Get(d, p).value;
              && (x.Node? && x.arr ==> r == Some(Node(true, [], x.kids + if v.Node? && v.arr then v.kids else [v])))
              && (x.Node? && !x.arr ==> r == Some(if v.Node? then BlendTree.Blend(js, x, v, Add) else x))
              && (x.Leaf? && (x.p.Bool? || x.p.Null? || x.p.Undefined?) ==> r == Some(v))
              && (x.Leaf? && x.p.Str? ==>
                    r == Some(Leaf(Str(x.p.s + " " + if v.Leaf? && v.p.Str? then v.p.s else js.text(v)))))
              && (x.Leaf? && x.p.Num? && v.Leaf? && v.p.Num? ==> r == Some(Leaf(Num(x.p.n + v.p.n))))
              && (x.Leaf? && (x.p.NaN? || (x.p.Num? && !(v.Leaf? && v.p.Num?))) ==> r == Some(Leaf(js.plus(x.p, v))))
  {
    PrefixedName('+', p);
    BlendOutcome(js, d, s, combine, i, p);
  }

  /** A name without a prefix, by default: an object is descended into by an object or an array and left by anything
      else; a property that is not there, or has any other value, takes the source's. */
  lemma PlainName(js: Js, d: Tree, s: Tree, i: nat, p: string)
    requires WellFormed(d) && d.IsObj() && Sole(s, i, p) && s.IsObj() && s.keys[i] == p
    requires p == "" || (p[0] != '+' && p[0] != '-' && p[0] != '?' && p[0] != '=')
    ensures var r, v := Get(BlendTree.Blend(js, d, s, Mix), p), s.kids[i];
            if p !in d.keys || !Get(d, p).value.IsObj() then r == Some(v)
            else if v.Node? then r == Some(BlendTree.Blend(js, Get(d, p).value, v, Mix))
            else r == Get(d, p)
  {
    BlendOutcome(js, d, s, Mix, i, p);
  }

  /** An inherited operator does what its prefix does. */
  lemma InheritedName(js: Js, d: Tree, s: Tree, combine: Op, i: nat, p: string, sign: char)
    requires WellFormed(d) && d.IsObj() && Sole(s, i, p) && s.IsObj() && s.keys[i] == p
    requires p == "" || (p[0] != '+' && p[0] != '-' && p[0] != '?' && p[0] != '=')
    requires (combine, sign) in {(Add, '+'), (Sub, '-'), (Ask, '?'), (Set, '=')}
    ensures Get(BlendTree.Blend(js, d, s, combine), p)
         == Get(BlendTree.Blend(js, d, Node(false, [[sign] + p], [s.kids[i]]), Mix), p)
  {
    PrefixedName(sign, p);
    BlendOutcome(js, d, s, combine, i, p);
    BlendOutcome(js, d, Node(false, [[sign] + p], [s.kids[i]]), Mix, 0, p);
  }

  /** A source array acts like an object with its indices and its length as names. */
  lemma ArrayItem(js: Js, d: Tree, s: Tree, i: nat, p: string)
    requires WellFormed(d) && d.IsObj() && WellFormed(s) && s.Node? && s.arr && i <= |s.kids|
    requires p == if i < |s.kids| then Decimal(i) else "length"
    ensures var r := Get(BlendTree.Blend(js, d, s, Mix), p);
            var v := if i < |s.kids| then s.kids[i] else Leaf(Num(|s.kids| as real));
            if p !in d.keys || !Get(d, p).value.IsObj() then r == Some(v)
            else if v.Node? then r == Some(BlendTree.Blend(js, Get(d, p).value, v, Mix))
            else r == Get(d, p)
  {
    forall k | 0 <= k < Count(s) && k != i
      ensures !HasPrefix(KeyAt(s, i)) && Strip(KeyAt(s, k)) != p
    {
      ArrayNames(s, if i < k then i else k, if i < k then k else i);
    }
    if |s.kids| == 0 {
      assert !HasPrefix("length");
    } else {
      ArrayNames(s, 0, Count(s) - 1);
    }
    BlendOutcome(js, d, s, Mix, i, p);
  }
}
