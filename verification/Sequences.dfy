/** Distinct sequences, folds over sequences, and the union of two lists in order, that several proofs share. */
module Sequences {
  datatype Option<+T> = None | Some(value: T)

  ghost predicate Distinct<T>(s: seq<T>) {
    forall i, j | 0 <= i < j < |s| :: s[i] != s[j]
  }

  function Flatten<T>(parts: seq<seq<T>>): seq<T> {
    if parts == [] then [] else parts[0] + Flatten(parts[1..])
  }

  lemma {:induction false} FlattenAppend<T>(a: seq<seq<T>>, b: seq<seq<T>>)
    ensures Flatten(a + b) == Flatten(a) + Flatten(b)
  {
    if a == [] {
      assert a + b == b;
    } else {
      assert (a + b)[1..] == a[1..] + b;
      FlattenAppend(a[1..], b);
    }
  }

  lemma AddLast<T>(s: seq<T>, d: T)
    requires Distinct(s) && d !in s
    ensures Distinct(s + [d]) && forall x :: x in s + [d] <==> x in s || x == d
  {
  }

  lemma DropLast<T>(s: seq<T>)
    requires Distinct(s) && s != []
    ensures Distinct(s[..|s| - 1]) && forall x :: x in s[..|s| - 1] <==> x in s && x != s[|s| - 1]
  {
    var n := |s| - 1;
    assert s == s[..n] + [s[n]];
    assert s[n] !in s[..n];
  }

  lemma {:induction false} ConstantOver<T>(xs: seq<T>, k: nat, l: nat)
    requires k <= l < |xs| && forall h | k < h <= l :: xs[h] == xs[h - 1]
    ensures xs[l] == xs[k]
    decreases l - k
  {
    if k < l {
      ConstantOver(xs, k, l - 1);
    }
  }

  lemma JoinedAt<T>(whole: seq<T>, first: seq<T>, second: seq<T>)
    requires |whole| == |first| + |second|
    requires forall k | 0 <= k < |first| :: whole[k] == first[k]
    requires forall k | 0 <= k < |second| :: whole[|first| + k] == second[k]
    ensures whole == first + second
  {
    forall k | |first| <= k < |whole|
      ensures whole[k] == second[k - |first|]
    {
      assert whole[|first| + (k - |first|)] == second[k - |first|];
    }
  }

  lemma FlattenOne<T>(part: seq<T>)
    ensures Flatten([part]) == part
  {
    assert [part][1..] == [];
    assert part + [] == part;
  }

  function Sum(s: seq<int>): int {
    if s == [] then 0 else s[0] + Sum(s[1..])
  }

  lemma {:induction false} SumAppend(a: seq<int>, b: seq<int>)
    ensures Sum(a + b) == Sum(a) + Sum(b)
  {
    if a == [] {
      assert a + b == b;
    } else {
      assert (a + b)[1..] == a[1..] + b;
      SumAppend(a[1..], b);
    }
  }

  /** The names of `sk` that are not in `dk`, in order. */
  function NewKeys<T(==, !new)>(sk: seq<T>, dk: seq<T>): (r: seq<T>)
    ensures forall k :: k in r <==> k in sk && k !in dk
  {
    if sk == [] then []
    else
      var n := |sk| - 1;
      assert sk == sk[..n] + [sk[n]];
      NewKeys(sk[..n], dk) + if sk[n] in dk then [] else [sk[n]]
  }

  lemma {:induction false} NewKeysDistinct<T(!new)>(sk: seq<T>, dk: seq<T>)
    requires Distinct(sk) && Distinct(dk)
    ensures Distinct(dk + NewKeys(sk, dk))
  {
    if sk != [] {
      var n := |sk| - 1;
      NewKeysDistinct(sk[..n], dk);
      var r := NewKeys(sk[..n], dk);
      assert sk[n] !in sk[..n];
      if sk[n] !in dk {
        assert dk + (r + [sk[n]]) == (dk + r) + [sk[n]];
        assert sk[n] !in dk + r;
      } else {
        assert r + [] == r;
      }
    }
  }

  lemma NewKeysStep<T(!new)>(sk: seq<T>, p: T, dk: seq<T>)
    ensures dk + NewKeys(sk + [p], dk) == if p in dk then dk + NewKeys(sk, dk) else dk + NewKeys(sk, dk) + [p]
  {
    assert (sk + [p])[..|sk|] == sk;
  }

  lemma NewKeysTake<T(!new)>(sk: seq<T>, i: nat, dk: seq<T>)
    requires i < |sk|
    ensures dk + NewKeys(sk[..i + 1], dk)
         == if sk[i] in dk then dk + NewKeys(sk[..i], dk) else dk + NewKeys(sk[..i], dk) + [sk[i]]
  {
    assert sk[..i + 1] == sk[..i] + [sk[i]];
    NewKeysStep(sk[..i], sk[i], dk);
  }

  lemma NewKeysSnoc<T(!new)>(sk: seq<T>, k: T, dk: seq<T>)
    ensures NewKeys(sk + [k], dk) == if k in dk then NewKeys(sk, dk) else NewKeys(sk, dk) + [k]
  {
    assert (sk + [k])[..|sk|] == sk;
    assert NewKeys(sk, dk) + [] == NewKeys(sk, dk);
  }

  lemma {:induction false} NewKeysAssoc<T(!new)>(a: seq<T>, b: seq<T>, c: seq<T>)
    ensures a + NewKeys(b, a) + NewKeys(c, a + NewKeys(b, a)) == a + NewKeys(b + NewKeys(c, b), a)
    decreases |c|
  {
    var ab := a + NewKeys(b, a);
    if c == [] {
      assert b + [] == b && ab + [] == ab;
    } else {
      var c', k := c[..|c| - 1], c[|c| - 1];
      assert c == c' + [k];
      NewKeysAssoc(a, b, c');
      AssocSnoc(a, b, c', k);
    }
  }

  lemma AssocSnoc<T(!new)>(a: seq<T>, b: seq<T>, c: seq<T>, k: T)
    requires a + NewKeys(b, a) + NewKeys(c, a + NewKeys(b, a)) == a + NewKeys(b + NewKeys(c, b), a)
    ensures a + NewKeys(b, a) + NewKeys(c + [k], a + NewKeys(b, a)) == a + NewKeys(b + NewKeys(c + [k], b), a)
  {
    var ab, bc := a + NewKeys(b, a), b + NewKeys(c, b);
    NewKeysSnoc(c, k, ab);
    NewKeysSnoc(c, k, b);
    assert k in ab <==> k in a || k in b;
    if k !in b {
      SnocRight(b, NewKeys(c, b), k);
      NewKeysSnoc(bc, k, a);
      if k !in a {
        SnocRight(ab, NewKeys(c, ab), k);
        SnocRight(a, NewKeys(bc, a), k);
      }
    }
  }

  lemma SnocRight<T>(s: seq<T>, t: seq<T>, k: T)
    ensures s + (t + [k]) == s + t + [k]
  {
  }

  lemma {:induction false} NothingNew<T(!new)>(sk: seq<T>, dk: seq<T>)
    requires forall i | 0 <= i < |sk| :: sk[i] in dk
    ensures NewKeys(sk, dk) == []
  {
    if sk != [] {
      NothingNew(sk[..|sk| - 1], dk);
    }
  }
}
