/**
 The documentation cracker of src/cmd/doc.c: a depth-first search over `@duplicate` directives whose `cracked` mark is
 set on entry and never cleared, and which copies the fields of each duplicated doc into the doc that names it.

 A doc's text is abstracted to the directives that resolve to a doc and to what its own text contributes. The lists of
 a doc hold key/value pairs, and copying a list shares its pairs; completing a doc formats the value of every pair that
 its lists hold, so a shared pair is formatted once for every doc that came to list it.
 */
module DocCracker {
  import opened Sequences
  import DocFormat

  type DocId = nat
  type Item = nat    // the address of a key/value pair, since copied lists share their pairs

  /** The lists that are copied along a directive. */
  datatype Lists = Lists(params: seq<Item>, options: seq<Item>, events: seq<Item>, see: seq<Item>, throws: seq<Item>)

  datatype Texts = Texts(brief: string, description: string, example: string, requires_: string, returns_: string,
                         stability: string, spec: string)

  datatype Fields = Fields(lists: Lists, defaults: seq<Item>, texts: Texts)

  const NO_LISTS := Lists([], [], [], [], [])
  const EMPTY := Fields(NO_LISTS, [], Texts("", "", "", "", "", "", ""))

  /** The string work, which the theorems do not depend on: how a doc's own texts are joined to those it copied and
      formatted, how the value of a pair is formatted, and the value that a pair is created with. */
  datatype Style = Style(join: (Texts, Texts) -> Texts, format: string -> string, text: Item -> string)

  datatype Doc = Doc(hasText: bool, dups: seq<DocId>, own: Fields)

  /** A directive resolves only to a doc with text. */
  ghost predicate ValidDocs(docs: seq<Doc>) {
    && (forall x, k | 0 <= x < |docs| && 0 <= k < |docs[x].dups| ::
          docs[x].dups[k] < |docs| && docs[docs[x].dups[k]].hasText)
    && (forall x | 0 <= x < |docs| :: !docs[x].hasText ==> docs[x].dups == [])
    && OwnPairs(docs)
  }

  /** The pairs whose values are formatted, in that order: not those of `throws`, and `see` holds words. */
  function Formatted(l: Lists): seq<Item> { l.events + l.options + l.params }

  predicate Owner(docs: seq<Doc>, y: DocId, p: Item) {
    y < |docs| && p in Formatted(docs[y].own.lists)
  }

  /** Every pair is created once, for one list of one doc. */
  ghost predicate OwnPairs(docs: seq<Doc>) {
    && (forall y: DocId, p: Item | Owner(docs, y, p) :: multiset(Formatted(docs[y].own.lists))[p] == 1)
    && (forall x: DocId, y: DocId, p: Item | Owner(docs, x, p) && Owner(docs, y, p) :: x == y)
  }

  // ---- What the steps do to a doc's fields ----

  /** `mergeDuplicates` for one directive. Copying a list first clears the target, so a doc that names itself loses
      its lists; default values are not copied. */
  function CopyFields(d: Fields, from: Fields, same: bool): Fields {
    Fields(if same then NO_LISTS else from.lists, d.defaults, from.texts)
  }

  function Append(a: Lists, b: Lists): Lists {
    Lists(a.params + b.params, a.options + b.options, a.events + b.events, a.see + b.see, a.throws + b.throws)
  }

  /** The rest of `crackDoc`: the doc's own text is added to what was copied, then `fixupDoc` formats the result. */
  function AddOwn(f: Fields, own: Fields, style: Style): Fields {
    Fields(Append(f.lists, own.lists), f.defaults + own.defaults, style.join(f.texts, own.texts))
  }

  /** What a doc inherits after its first `k` directives. Every copy replaces the one before, so this is the last
      of them, or nothing. */
  function Inherited(dups: seq<DocId>, k: nat, fields: seq<Fields>): Fields
    requires k <= |dups|
  {
    if k == 0 || dups[k - 1] >= |fields| then EMPTY
    else Fields(fields[dups[k - 1]].lists, [], fields[dups[k - 1]].texts)
  }

  /** The equation that a doc's final fields should satisfy. */
  function Built(doc: Doc, fields: seq<Fields>, style: Style): Fields {
    AddOwn(Inherited(doc.dups, |doc.dups|, fields), doc.own, style)
  }

  // ---- Formatting again and again ----

  function Iterate(f: string -> string, n: nat, v: string): string {
    if n == 0 then v else f(Iterate(f, n - 1, v))
  }

  lemma {:induction false} IterateMore(f: string -> string, n: nat, k: nat, v: string)
    ensures Iterate(f, n + k, v) == Iterate(f, k, Iterate(f, n, v))
  {
    if k > 0 {
      IterateMore(f, n, k - 1, v);
    }
  }

  // ---- Routes through @duplicate ----

  /** `q` follows directives, doc by doc. */
  ghost predicate Chain(docs: seq<Doc>, q: seq<DocId>) {
    && (forall i | 0 <= i < |q| :: q[i] < |docs|)
    && (forall i | 0 <= i < |q| - 1 :: q[i + 1] in docs[q[i]].dups)
  }

  /** `q` leads from `x` to `y`, one directive at a time. */
  ghost predicate Route(docs: seq<Doc>, x: DocId, q: seq<DocId>, y: DocId)
    decreases |q|
  {
    x < |docs| && if q == [] then x == y else q[0] in docs[x].dups && Route(docs, q[0], q[1..], y)
  }

  ghost predicate Reaches(docs: seq<Doc>, x: DocId, y: DocId) {
    exists q :: Route(docs, x, q, y)
  }

  /** A doc from which a route of at least one directive leads back to it, somewhere beyond `x`. */
  ghost predicate LeadsToCycle(docs: seq<Doc>, x: DocId) {
    exists p, y, r :: Route(docs, x, p, y) && r != [] && Route(docs, y, r, y)
  }

  /** A route through docs that are not yet cracked, its ends included. */
  ghost predicate FreshRoute(docs: seq<Doc>, cracked: seq<bool>, x: DocId, q: seq<DocId>, y: DocId)
    decreases |q|
  {
    && x < |docs| == |cracked| && !cracked[x]
    && if q == [] then x == y else q[0] in docs[x].dups && FreshRoute(docs, cracked, q[0], q[1..], y)
  }

  ghost predicate ReachesFresh(docs: seq<Doc>, cracked: seq<bool>, x: DocId, y: DocId) {
    exists q :: FreshRoute(docs, cracked, x, q, y)
  }

  // ---- The state and its invariant ----

  /** The marks, the fields and the values of pairs, and what a proof remembers of the run: the order in which docs
      were completed (their `fixupDoc` ran), the docs that copied from a doc not yet complete, and the docs in
      progress. */
  datatype State = State(cracked: seq<bool>, fields: seq<Fields>, values: map<Item, string>, finished: seq<DocId>,
                         late: set<DocId>, stack: seq<DocId>)

  /** The completed docs that list a pair. */
  ghost function Listers(s: State, p: Item): set<DocId> {
    set x | x in s.finished && x < |s.fields| && p in Formatted(s.fields[x].lists)
  }

  ghost predicate HasOwner(docs: seq<Doc>, s: State, p: Item) {
    exists y :: y in s.finished && Owner(docs, y, p)
  }

  /** A doc lists a pair at most once, and only pairs of completed docs. */
  ghost predicate ListsOnce(docs: seq<Doc>, s: State, l: Lists) {
    forall p | p in Formatted(l) :: multiset(Formatted(l))[p] == 1 && HasOwner(docs, s, p)
  }

  ghost predicate Listed(docs: seq<Doc>, s: State) {
    forall x | 0 <= x < |s.fields| :: ListsOnce(docs, s, s.fields[x].lists)
  }

  /** The value of a pair is the one it was created with, formatted once for every completed doc that lists it. */
  ghost predicate Valued(docs: seq<Doc>, style: Style, s: State) {
    forall y, p: Item | y in s.finished && Owner(docs, y, p) ::
      p in s.values && s.values[p] == Iterate(style.format, |Listers(s, p)|, style.text(p))
  }

  ghost predicate Shape(docs: seq<Doc>, s: State) {
    && |s.cracked| == |s.fields| == |docs|
    && Distinct(s.finished) && Distinct(s.stack)
    && (forall x | x in s.finished :: x < |docs| && s.cracked[x] && docs[x].hasText)
    && (forall x | x in s.stack :: x < |docs| && s.cracked[x] && docs[x].hasText && x !in s.finished)
    && (forall x | 0 <= x < |docs| && s.cracked[x] && docs[x].hasText :: x in s.finished || x in s.stack)
  }

  /** A completed doc's duplicates were complete before it, unless they were copied too early. */
  ghost predicate Ordered(docs: seq<Doc>, s: State) {
    forall i, k | 0 <= i < |s.finished| && s.finished[i] < |docs| && 0 <= k < |docs[s.finished[i]].dups| ::
      s.finished[i] in s.late || docs[s.finished[i]].dups[k] in s.finished[..i]
  }

  ghost predicate DupsCracked(docs: seq<Doc>, t: State, x: DocId, k: nat)
    requires x < |docs| == |t.cracked|
  {
    forall j | 0 <= j < k && j < |docs[x].dups| :: docs[x].dups[j] < |docs| && t.cracked[docs[x].dups[j]]
  }

  ghost predicate Closed(docs: seq<Doc>, s: State)
    requires |s.cracked| == |docs|
  {
    forall x | x in s.finished && x < |docs| :: DupsCracked(docs, s, x, |docs[x].dups|)
  }

  /** Only a doc on a cycle copies too early. */
  ghost predicate Excused(docs: seq<Doc>, s: State) {
    forall x | x in s.late :: LeadsToCycle(docs, x)
  }

  /** A completed doc that copied on time satisfies its equation. */
  ghost predicate Settled(docs: seq<Doc>, style: Style, s: State)
    requires |s.fields| == |docs|
  {
    forall x {:trigger Built(docs[x], s.fields, style)} | x in s.finished && x < |docs| && x !in s.late ::
      s.fields[x] == Built(docs[x], s.fields, style)
  }

  ghost predicate Inv(docs: seq<Doc>, style: Style, s: State) {
    && ValidDocs(docs) && Shape(docs, s) && Chain(docs, s.stack)
    && Ordered(docs, s) && Closed(docs, s) && Excused(docs, s) && Settled(docs, style, s)
    && Listed(docs, s) && Valued(docs, style, s) && SelfCleared(docs, s)
  }

  /** The last directive of the doc names the doc itself. */
  predicate NamesItself(docs: seq<Doc>, x: DocId) {
    x < |docs| && docs[x].dups != [] && docs[x].dups[|docs[x].dups| - 1] == x
  }

  /** A completed doc whose last directive names itself lists its own pairs only, whatever it copied before. */
  ghost predicate SelfCleared(docs: seq<Doc>, s: State) {
    forall x {:trigger NamesItself(docs, x)} | x in s.finished && x < |s.fields| && NamesItself(docs, x) ::
      OwnLists(docs, s, x)
  }

  ghost predicate OwnLists(docs: seq<Doc>, s: State, x: DocId)
    requires x < |docs| && x < |s.fields|
  {
    var l, own := s.fields[x].lists, docs[x].own.lists;
    && l.params == own.params && l.options == own.options && l.events == own.events && l.see == own.see
    && l.throws == own.throws
  }

  // ---- The steps ----

  /** The pairs of a doc's own text are created ... */
  function Create(values: map<Item, string>, ps: seq<Item>, text: Item -> string): map<Item, string> {
    values + map p | p in ps :: text(p)
  }

  /** ... and pairs are formatted, one after another. */
  function Reformat(values: map<Item, string>, ps: seq<Item>, format: string -> string): (r: map<Item, string>)
    ensures r.Keys == values.Keys
  {
    if ps == [] then values
    else
      FormatOne(Reformat(values, ps[..|ps| - 1], format), ps[|ps| - 1], format)
  }

  function FormatOne(values: map<Item, string>, p: Item, format: string -> string): (r: map<Item, string>)
    ensures r.Keys == values.Keys
  {
    if p in values then values[p := format(values[p])] else values
  }

  function FixupValues(values: map<Item, string>, own: Lists, all: Lists, style: Style): map<Item, string> {
    Reformat(Create(values, Formatted(own), style.text), Formatted(all), style.format)
  }

  function Enter(s: State, d: DocId, hasText: bool): State
    requires d < |s.cracked| == |s.fields|
  {
    s.(cracked := s.cracked[d := true], fields := s.fields[d := EMPTY],
       stack := if hasText then s.stack + [d] else s.stack)
  }

  function Copy(s: State, d: DocId, e: DocId): State
    requires d < |s.fields| && e < |s.fields|
  {
    s.(fields := s.fields[d := CopyFields(s.fields[d], s.fields[e], d == e)],
       late := if e in s.finished then s.late else s.late + {d})
  }

  function Finish(s: State, d: DocId, own: Fields, style: Style): State
    requires d < |s.fields| && s.stack != []
  {
    var f := AddOwn(s.fields[d], own, style);
    s.(fields := s.fields[d := f], finished := s.finished + [d], stack := s.stack[..|s.stack| - 1],
       values := FixupValues(s.values, own.lists, f.lists, style))
  }

  // ---- The steps keep the invariant ----

  /** A completed doc that copied on time has only completed duplicates. */
  lemma DupsFinished(docs: seq<Doc>, s: State, x: DocId, k: nat)
    requires Shape(docs, s) && Ordered(docs, s) && x in s.finished && x !in s.late && k < |docs[x].dups|
    ensures docs[x].dups[k] in s.finished
  {
    var i :| 0 <= i < |s.finished| && s.finished[i] == x;
    assert docs[x].dups[k] in s.finished[..i];
  }

  /** Fields of docs in progress may change freely. */
  lemma SettledFrame(docs: seq<Doc>, style: Style, s: State, t: State)
    requires Shape(docs, s) && Ordered(docs, s) && Settled(docs, style, s)
    requires |t.fields| == |s.fields| && t.finished == s.finished && s.late <= t.late
    requires forall x | x in s.finished :: t.fields[x] == s.fields[x]
    ensures Settled(docs, style, t)
  {
    forall x | x in t.finished && x < |docs| && x !in t.late
      ensures t.fields[x] == Built(docs[x], t.fields, style)
    {
      assert s.fields[x] == Built(docs[x], s.fields, style);
      if docs[x].dups != [] {
        DupsFinished(docs, s, x, |docs[x].dups| - 1);
      }
    }
  }

  lemma EnterShape(docs: seq<Doc>, s: State, d: DocId)
    requires Shape(docs, s) && Chain(docs, s.stack) && d < |docs| && !s.cracked[d]
    requires s.stack != [] ==> d in docs[s.stack[|s.stack| - 1]].dups
    ensures var t := Enter(s, d, docs[d].hasText); Shape(docs, t) && Chain(docs, t.stack)
  {
    var t := Enter(s, d, docs[d].hasText);
    assert d !in s.stack && d !in s.finished;
    if docs[d].hasText {
      AddLast(s.stack, d);
      assert Chain(docs, t.stack);
    }
    assert forall x | 0 <= x < |docs| :: t.cracked[x] <==> s.cracked[x] || x == d;
  }

  lemma EnterKeeps(docs: seq<Doc>, style: Style, s: State, d: DocId)
    requires Inv(docs, style, s) && d < |docs| && !s.cracked[d]
    requires s.stack != [] ==> d in docs[s.stack[|s.stack| - 1]].dups
    ensures Inv(docs, style, Enter(s, d, docs[d].hasText))
  {
    EnterShape(docs, s, d);
    SettledFrame(docs, style, s, Enter(s, d, docs[d].hasText));
    PairsFrame(docs, style, s, Enter(s, d, docs[d].hasText), d);
    assert SelfCleared(docs, Enter(s, d, docs[d].hasText));
  }

  lemma {:induction false} ChainRoute(docs: seq<Doc>, q: seq<DocId>, i: nat)
    requires Chain(docs, q) && i < |q|
    ensures Route(docs, q[i], q[i + 1..], q[|q| - 1])
    decreases |q| - i
  {
    if i + 1 < |q| {
      ChainRoute(docs, q, i + 1);
      assert q[i + 1..][1..] == q[i + 2..];
    }
  }

  /** A copy from a doc in progress closes a cycle through the stack. */
  lemma StackCycle(docs: seq<Doc>, s: State, d: DocId, e: DocId)
    requires Chain(docs, s.stack) && s.stack != [] && s.stack[|s.stack| - 1] == d
    requires e in docs[d].dups && e in s.stack
    ensures LeadsToCycle(docs, d)
  {
    var i :| 0 <= i < |s.stack| && s.stack[i] == e;
    ChainRoute(docs, s.stack, i);
    var r := [e] + s.stack[i + 1..];
    assert r[1..] == s.stack[i + 1..];
    assert Route(docs, d, [], d) && Route(docs, d, r, d);
  }

  lemma CopyKeeps(docs: seq<Doc>, style: Style, s: State, d: DocId, e: DocId)
    requires Inv(docs, style, s) && s.stack != [] && s.stack[|s.stack| - 1] == d
    requires e in docs[d].dups && s.cracked[e]
    ensures Inv(docs, style, Copy(s, d, e))
  {
    var t := Copy(s, d, e);
    SettledFrame(docs, style, s, t);
    PairsFrame(docs, style, s, t, d);
    assert SelfCleared(docs, t) by {
      assert d in s.stack;
    }
    if e !in s.finished {
      assert e in s.stack;
      StackCycle(docs, s, d, e);
    }
  }

  /** What the loop over the directives of `d` has established when it ends. */
  ghost predicate ReadyToFinish(docs: seq<Doc>, s: State, d: DocId)
    requires |s.fields| == |s.cracked| == |docs| && d < |docs|
  {
    && DupsCracked(docs, s, d, |docs[d].dups|)
    && (d !in s.late ==> s.fields[d] == Inherited(docs[d].dups, |docs[d].dups|, s.fields))
    && (forall k | 0 <= k < |docs[d].dups| :: d in s.late || docs[d].dups[k] in s.finished)
    && (NamesItself(docs, d) ==> s.fields[d].lists == NO_LISTS)
  }

  lemma FinishOrdered(docs: seq<Doc>, s: State, d: DocId, t: State)
    requires Shape(docs, s) && Ordered(docs, s) && d < |docs| && ReadyToFinish(docs, s, d)
    requires t.finished == s.finished + [d] && t.late == s.late
    ensures Ordered(docs, t)
  {
    forall i, k | 0 <= i < |t.finished| && t.finished[i] < |docs| && 0 <= k < |docs[t.finished[i]].dups|
      ensures t.finished[i] in t.late || docs[t.finished[i]].dups[k] in t.finished[..i]
    {
      assert t.finished[..i] == s.finished[..i];
      if i < |s.finished| {
        assert t.finished[i] == s.finished[i];
      } else {
        assert s.finished[..i] == s.finished;
      }
    }
  }

  lemma FinishSettled(docs: seq<Doc>, style: Style, s: State, d: DocId)
    requires Inv(docs, style, s) && s.stack != [] && s.stack[|s.stack| - 1] == d && ReadyToFinish(docs, s, d)
    ensures Settled(docs, style, Finish(s, d, docs[d].own, style))
  {
    var t := Finish(s, d, docs[d].own, style);
    assert d in s.stack;
    SettledFrame(docs, style, s, s.(fields := t.fields));
    forall x | x in t.finished && x < |docs| && x !in t.late
      ensures t.fields[x] == Built(docs[x], t.fields, style)
    {
      if x in s.finished {
        assert t.fields[x] == Built(docs[x], s.(fields := t.fields).fields, style);
      } else {
        assert x == d;
        if docs[d].dups != [] {
          assert docs[d].dups[|docs[d].dups| - 1] in s.finished;
        }
      }
    }
  }

  // ---- The steps keep the account of pairs ----

  lemma {:induction false} ReformatAppend(values: map<Item, string>, ps: seq<Item>, qs: seq<Item>,
                                          format: string -> string)
    ensures Reformat(values, ps + qs, format) == Reformat(Reformat(values, ps, format), qs, format)
    decreases |qs|
  {
    if qs == [] {
      assert ps + qs == ps;
    } else {
      var n := |qs| - 1;
      ReformatAppend(values, ps, qs[..n], format);
      ReformatLast(values, ps + qs[..n], qs[n], format);
      ReformatLast(Reformat(values, ps, format), qs[..n], qs[n], format);
      assert qs[..n] + [qs[n]] == qs && ps + qs[..n] + [qs[n]] == ps + qs;
    }
  }

  lemma ReformatLast(values: map<Item, string>, ps: seq<Item>, p: Item, format: string -> string)
    ensures Reformat(values, ps + [p], format) == FormatOne(Reformat(values, ps, format), p, format)
  {
    assert (ps + [p])[..|ps|] == ps;
  }

  /** Each pair is formatted as often as it is listed. */
  lemma {:induction false} ReformatAt(values: map<Item, string>, ps: seq<Item>, format: string -> string, p: Item)
    requires p in values
    ensures Reformat(values, ps, format)[p] == Iterate(format, multiset(ps)[p], values[p])
    decreases |ps|
  {
    if ps != [] {
      var n := |ps| - 1;
      ReformatAt(values, ps[..n], format, p);
      assert ps == ps[..n] + [ps[n]];
    }
  }

  /** A step that completes nothing and gives `d` no list that was not there keeps the account. */
  lemma PairsFrame(docs: seq<Doc>, style: Style, s: State, t: State, d: DocId)
    requires Shape(docs, s) && Listed(docs, s) && Valued(docs, style, s) && d < |docs| && d !in s.finished
    requires t.finished == s.finished && t.values == s.values && |t.fields| == |s.fields|
    requires forall x | 0 <= x < |s.fields| && x != d :: t.fields[x] == s.fields[x]
    requires t.fields[d].lists == NO_LISTS || exists e :: 0 <= e < |s.fields| && t.fields[d].lists == s.fields[e].lists
    ensures Listed(docs, t) && Valued(docs, style, t)
  {
    forall x | 0 <= x < |t.fields|
      ensures ListsOnce(docs, t, t.fields[x].lists)
    {
      forall p | p in Formatted(t.fields[x].lists)
        ensures multiset(Formatted(t.fields[x].lists))[p] == 1 && HasOwner(docs, t, p)
      {
        var e :| 0 <= e < |s.fields| && t.fields[x].lists == s.fields[e].lists;
        assert ListsOnce(docs, s, s.fields[e].lists) && HasOwner(docs, s, p);
      }
    }
    forall y, p: Item | y in t.finished && Owner(docs, y, p)
      ensures p in t.values && t.values[p] == Iterate(style.format, |Listers(t, p)|, style.text(p))
    {
      assert Listers(t, p) == Listers(s, p);
    }
  }

  lemma FormattedAppend(a: Lists, b: Lists)
    ensures multiset(Formatted(Append(a, b))) == multiset(Formatted(a)) + multiset(Formatted(b))
  {
  }

  /** The lists of a completed doc. */
  lemma FinishLists(docs: seq<Doc>, s: State, d: DocId, p: Item)
    requires ValidDocs(docs) && d < |docs| == |s.fields| && d !in s.finished && ListsOnce(docs, s, s.fields[d].lists)
    ensures var f := Append(s.fields[d].lists, docs[d].own.lists);
            && (p in Formatted(f) <==> p in Formatted(s.fields[d].lists) || Owner(docs, d, p))
            && (p in Formatted(f) ==> multiset(Formatted(f))[p] == 1)
            && (p in Formatted(f) ==> Owner(docs, d, p) || HasOwner(docs, s, p))
  {
    var a, b := s.fields[d].lists, docs[d].own.lists;
    FormattedAppend(a, b);
    assert p in Formatted(Append(a, b)) <==> multiset(Formatted(Append(a, b)))[p] > 0;
    assert p in Formatted(a) <==> multiset(Formatted(a))[p] > 0;
    assert p in Formatted(b) <==> multiset(Formatted(b))[p] > 0;
    if p in Formatted(a) {
      var y :| y in s.finished && Owner(docs, y, p);
      assert !Owner(docs, d, p);
    }
  }

  lemma FinishListed(docs: seq<Doc>, style: Style, s: State, d: DocId)
    requires ValidDocs(docs) && Shape(docs, s) && Listed(docs, s) && d < |docs| && d in s.stack
    ensures Listed(docs, Finish(s, d, docs[d].own, style))
  {
    var t := Finish(s, d, docs[d].own, style);
    assert d in t.finished;
    forall x, p | 0 <= x < |t.fields| && p in Formatted(t.fields[x].lists)
      ensures multiset(Formatted(t.fields[x].lists))[p] == 1 && HasOwner(docs, t, p)
    {
      assert ListsOnce(docs, s, s.fields[x].lists);
      if x == d {
        FinishLists(docs, s, d, p);
      }
      if !Owner(docs, d, p) {
        var y :| y in s.finished && Owner(docs, y, p);
        assert y in t.finished;
      }
    }
  }

  lemma FinishValued(docs: seq<Doc>, style: Style, s: State, d: DocId)
    requires ValidDocs(docs) && Shape(docs, s) && Listed(docs, s) && Valued(docs, style, s)
    requires d < |docs| && d in s.stack
    ensures Valued(docs, style, Finish(s, d, docs[d].own, style))
  {
    var t := Finish(s, d, docs[d].own, style);
    forall y, p: Item | y in t.finished && Owner(docs, y, p)
      ensures p in t.values && t.values[p] == Iterate(style.format, |Listers(t, p)|, style.text(p))
    {
      FinishValue(docs, style, s, d, y, p);
    }
  }

  /** Completing a doc formats each of its pairs once more, and its own for the first time. */
  lemma FinishValue(docs: seq<Doc>, style: Style, s: State, d: DocId, y: DocId, p: Item)
    requires ValidDocs(docs) && Shape(docs, s) && Listed(docs, s) && Valued(docs, style, s)
    requires d < |docs| && d in s.stack && (y in s.finished || y == d) && Owner(docs, y, p)
    ensures var t := Finish(s, d, docs[d].own, style);
            p in t.values && t.values[p] == Iterate(style.format, |Listers(t, p)|, style.text(p))
  {
    var t := Finish(s, d, docs[d].own, style);
    var made := Create(s.values, Formatted(docs[d].own.lists), style.text);
    var f := Formatted(t.fields[d].lists);
    var times: nat := if p in f then 1 else 0;
    assert ListsOnce(docs, s, s.fields[d].lists);
    FinishLists(docs, s, d, p);
    ListersAfter(docs, style, s, d, p);
    assert made[p] == Iterate(style.format, |Listers(s, p)|, style.text(p)) by {
      if y == d {
        NotYetListed(docs, s, d, p);
      } else {
        assert !Owner(docs, d, p);
      }
    }
    ReformatAt(made, f, style.format, p);
    assert multiset(Formatted(t.fields[d].lists))[p] == times;
    IterateMore(style.format, |Listers(s, p)|, times, style.text(p));
  }

  lemma ListersAfter(docs: seq<Doc>, style: Style, s: State, d: DocId, p: Item)
    requires Shape(docs, s) && d < |docs| && d in s.stack
    ensures var t := Finish(s, d, docs[d].own, style);
            |Listers(t, p)| == |Listers(s, p)| + if p in Formatted(t.fields[d].lists) then 1 else 0
  {
    var t := Finish(s, d, docs[d].own, style);
    ListersSnoc(s, t.fields, d, p);
    assert Listers(t, p) == Listers(s.(fields := t.fields, finished := s.finished + [d]), p);
  }

  lemma ListersSnoc(s: State, fields: seq<Fields>, d: DocId, p: Item)
    requires d < |s.fields| == |fields| && d !in s.finished
    requires forall x | 0 <= x < |fields| && x != d :: fields[x] == s.fields[x]
    ensures |Listers(s.(fields := fields, finished := s.finished + [d]), p)|
         == |Listers(s, p)| + if p in Formatted(fields[d].lists) then 1 else 0
  {
    var t := s.(fields := fields, finished := s.finished + [d]);
    assert forall x :: x in t.finished <==> x in s.finished || x == d;
    assert Listers(t, p) == Listers(s, p) + if p in Formatted(fields[d].lists) then {d} else {};
    assert d !in Listers(s, p);
  }

  /** A pair is listed nowhere before its own doc is complete. */
  lemma NotYetListed(docs: seq<Doc>, s: State, d: DocId, p: Item)
    requires ValidDocs(docs) && Listed(docs, s) && d !in s.finished && Owner(docs, d, p)
    ensures Listers(s, p) == {}
  {
    assert !HasOwner(docs, s, p);
    forall x | x in s.finished && x < |s.fields|
      ensures p !in Formatted(s.fields[x].lists)
    {
      assert ListsOnce(docs, s, s.fields[x].lists);
    }
  }

  lemma FinishKeeps(docs: seq<Doc>, style: Style, s: State, d: DocId)
    requires Inv(docs, style, s) && s.stack != [] && s.stack[|s.stack| - 1] == d && ReadyToFinish(docs, s, d)
    ensures Inv(docs, style, Finish(s, d, docs[d].own, style))
  {
    FinishShape(docs, style, s, d);
    FinishOrdered(docs, s, d, Finish(s, d, docs[d].own, style));
    FinishSettled(docs, style, s, d);
    assert d in s.stack;
    FinishListed(docs, style, s, d);
    FinishValued(docs, style, s, d);
    FinishCleared(docs, style, s, d);
  }

  lemma FinishCleared(docs: seq<Doc>, style: Style, s: State, d: DocId)
    requires Shape(docs, s) && SelfCleared(docs, s) && d < |docs| && d in s.stack
    requires NamesItself(docs, d) ==> s.fields[d].lists == NO_LISTS
    ensures SelfCleared(docs, Finish(s, d, docs[d].own, style))
  {
    var t := Finish(s, d, docs[d].own, style);
    forall x | x in t.finished && x < |t.fields| && NamesItself(docs, x)
      ensures OwnLists(docs, t, x)
    {
      if x != d {
        assert x in s.finished && OwnLists(docs, s, x);
      }
    }
  }

  lemma FinishShape(docs: seq<Doc>, style: Style, s: State, d: DocId)
    requires Shape(docs, s) && Chain(docs, s.stack) && s.stack != [] && s.stack[|s.stack| - 1] == d
    ensures Shape(docs, Finish(s, d, docs[d].own, style)) && Chain(docs, s.stack[..|s.stack| - 1])
  {
    var t := Finish(s, d, docs[d].own, style);
    assert d in s.stack;
    DropLast(s.stack);
    AddLast(s.finished, d);
  }

  // ---- What a call does ----

  /** Marks, completions and early copies only accumulate, and docs already marked keep their lists and texts; the
      values of their pairs may change, as `Valued` says. */
  ghost predicate Kept(s: State, t: State) {
    && |s.cracked| == |s.fields| == |t.cracked| == |t.fields|
    && (forall x | 0 <= x < |s.cracked| && s.cracked[x] :: t.cracked[x] && t.fields[x] == s.fields[x])
    && s.finished <= t.finished && s.late <= t.late
    && (forall x | x in t.late && x !in s.late :: x < |s.cracked| ==> !s.cracked[x])
  }

  ghost predicate New(s: State, t: State, x: DocId)
    requires |s.cracked| == |t.cracked|
  {
    x < |t.cracked| && t.cracked[x] && !s.cracked[x]
  }

  /** Each newly marked doc is led to by unmarked docs. */
  ghost predicate FromFresh(docs: seq<Doc>, s: State, t: State, d: DocId)
    requires |s.cracked| == |t.cracked|
  {
    forall x: DocId | New(s, t, x) :: ReachesFresh(docs, s.cracked, d, x)
  }

  ghost predicate Progress(docs: seq<Doc>, s: State, t: State, d: DocId) {
    && |docs| == |s.cracked| && Kept(s, t) && t.stack == s.stack && FromFresh(docs, s, t, d)
    && (forall x: DocId | New(s, t, x) :: DupsCracked(docs, t, x, |docs[x].dups|))
  }

  /** The same in the middle of `d`, after `k` of its directives. */
  ghost predicate Partial(docs: seq<Doc>, s: State, t: State, d: DocId, k: nat) {
    && |docs| == |s.cracked| && d < |docs| && k <= |docs[d].dups|
    && Kept(s, t) && t.stack == s.stack + [d] && FromFresh(docs, s, t, d) && New(s, t, d)
    && (forall x: DocId | New(s, t, x) && x != d :: DupsCracked(docs, t, x, |docs[x].dups|))
    && DupsCracked(docs, t, d, k)
    && (d !in t.late ==> t.fields[d] == Inherited(docs[d].dups, k, t.fields))
    && (forall j | 0 <= j < k :: d in t.late || docs[d].dups[j] in t.finished)
    && (k > 0 && docs[d].dups[k - 1] == d ==> t.fields[d].lists == NO_LISTS)
  }

  /** The states in which `d`, entered in state `s`, has handled `k` of its directives. */
  ghost function Within(docs: seq<Doc>, style: Style, s: State, d: DocId, k: nat): iset<State> {
    iset t | Inv(docs, style, t) && Partial(docs, s, t, d, k)
  }

  lemma SelfFresh(docs: seq<Doc>, cracked: seq<bool>, d: DocId)
    requires d < |docs| == |cracked| && !cracked[d]
    ensures ReachesFresh(docs, cracked, d, d)
  {
    assert FreshRoute(docs, cracked, d, [], d);
  }

  lemma PartialStart(docs: seq<Doc>, style: Style, s: State, d: DocId)
    requires Inv(docs, style, s) && d < |docs| && !s.cracked[d] && docs[d].hasText
    ensures Partial(docs, s, Enter(s, d, true), d, 0)
  {
    var t := Enter(s, d, true);
    SelfFresh(docs, s.cracked, d);
    assert forall x: DocId | New(s, t, x) :: x == d;
  }

  /** A route through fresh docs stays one when it is entered from a fresh doc, and when fewer marks are set. */
  lemma ExtendFresh(docs: seq<Doc>, s: State, t: State, d: DocId, e: DocId, x: DocId)
    requires |docs| == |s.cracked| && Kept(s, t) && d < |docs| && !s.cracked[d] && e in docs[d].dups
    requires ReachesFresh(docs, t.cracked, e, x)
    ensures ReachesFresh(docs, s.cracked, d, x)
  {
    var q :| FreshRoute(docs, t.cracked, e, q, x);
    StillFresh(docs, s, t, e, q, x);
    var r := [e] + q;
    assert r[1..] == q;
    assert FreshRoute(docs, s.cracked, d, r, x);
  }

  lemma {:induction false} StillFresh(docs: seq<Doc>, s: State, t: State, x: DocId, q: seq<DocId>, y: DocId)
    requires |docs| == |s.cracked| && Kept(s, t) && FreshRoute(docs, t.cracked, x, q, y)
    ensures FreshRoute(docs, s.cracked, x, q, y)
    decreases |q|
  {
    if q != [] {
      StillFresh(docs, s, t, q[0], q[1..], y);
    }
  }

  lemma KeptTrans(s: State, t: State, u: State)
    requires Kept(s, t) && Kept(t, u)
    ensures Kept(s, u)
  {
  }

  /** The nested call changes nothing that the doc in progress has gathered. */
  lemma PartialCall(docs: seq<Doc>, style: Style, s: State, t: State, u: State, d: DocId, k: nat)
    requires ValidDocs(docs) && Shape(docs, t) && Partial(docs, s, t, d, k) && k < |docs[d].dups|
    requires Progress(docs, t, u, docs[d].dups[k])
    ensures Partial(docs, s, u, d, k)
  {
    KeptTrans(s, t, u);
    forall x: DocId | New(s, u, x)
      ensures ReachesFresh(docs, s.cracked, d, x)
      ensures x != d ==> DupsCracked(docs, u, x, |docs[x].dups|)
    {
      if t.cracked[x] {
        assert New(s, t, x);
      } else {
        assert New(t, u, x);
        ExtendFresh(docs, s, t, d, docs[d].dups[k], x);
      }
    }
    if d !in u.late && k > 0 {
      assert docs[d].dups[k - 1] in t.finished;
    }
  }

  lemma PartialCopy(docs: seq<Doc>, style: Style, s: State, t: State, d: DocId, k: nat)
    requires ValidDocs(docs) && Shape(docs, t) && Partial(docs, s, t, d, k) && k < |docs[d].dups|
    requires t.cracked[docs[d].dups[k]]
    ensures Partial(docs, s, Copy(t, d, docs[d].dups[k]), d, k + 1)
  {
    var e := docs[d].dups[k];
    var u := Copy(t, d, e);
    assert forall x: DocId | New(s, u, x) :: New(s, t, x);
    if d !in u.late {
      assert t.stack[|s.stack|] == d;
      assert e in t.finished && d in t.stack;
    }
  }

  /** One turn of the loop over the directives: a nested call, then the copy. */
  lemma MergeStep(docs: seq<Doc>, style: Style, s: State, t: State, u: State, d: DocId, k: nat)
    requires Inv(docs, style, t) && Partial(docs, s, t, d, k) && k < |docs[d].dups|
    requires Inv(docs, style, u) && Progress(docs, t, u, docs[d].dups[k])
    requires docs[d].dups[k] < |docs| && u.cracked[docs[d].dups[k]]
    ensures Inv(docs, style, Copy(u, d, docs[d].dups[k]))
    ensures Partial(docs, s, Copy(u, d, docs[d].dups[k]), d, k + 1)
  {
    PartialCall(docs, style, s, t, u, d, k);
    assert u.stack[|u.stack| - 1] == d;
    CopyKeeps(docs, style, u, d, docs[d].dups[k]);
    PartialCopy(docs, style, s, u, d, k);
  }

  lemma PartialFinish(docs: seq<Doc>, style: Style, s: State, t: State, d: DocId)
    requires ValidDocs(docs) && d < |docs| && Partial(docs, s, t, d, |docs[d].dups|)
    ensures ReadyToFinish(docs, t, d)
    ensures Progress(docs, s, Finish(t, d, docs[d].own, style), d)
  {
    var u := Finish(t, d, docs[d].own, style);
    assert u.stack == s.stack;
    assert u.cracked == t.cracked;
    forall x: DocId | New(s, u, x)
      ensures ReachesFresh(docs, s.cracked, d, x) && DupsCracked(docs, u, x, |docs[x].dups|)
    {
      assert New(s, t, x);
      assert DupsCracked(docs, t, x, |docs[x].dups|);
    }
  }

  class Cracker {
    const docs: seq<Doc>
    const style: Style
    var cracked: seq<bool>
    var fields: seq<Fields>
    var values: map<Item, string>
    ghost var finished: seq<DocId>
    ghost var late: set<DocId>
    ghost var stack: seq<DocId>

    ghost function S(): State
      reads this
    {
      State(cracked, fields, values, finished, late, stack)
    }

    ghost predicate Valid()
      reads this
    {
      Inv(docs, style, S())
    }

    constructor (docs: seq<Doc>, style: Style)
      requires ValidDocs(docs)
      ensures Valid() && this.docs == docs && this.style == style && stack == []
      ensures forall x | 0 <= x < |docs| :: !cracked[x]
    {
      this.docs, this.style := docs, style;
      cracked, fields := seq(|docs|, _ => false), seq(|docs|, _ => EMPTY);
      values, finished, late, stack := map[], [], {}, [];
    }

    /** The mark and the empty lists. */
    method EnterDoc(d: DocId)
      requires d < |docs| && |cracked| == |fields| == |docs|
      modifies this
      ensures S() == Enter(old(S()), d, docs[d].hasText)
    {
      cracked, fields := cracked[d := true], fields[d := EMPTY];
      stack := if docs[d].hasText then stack + [d] else stack;
    }

    /** The copies made for one directive. */
    method CopyDuplicate(d: DocId, dup: DocId)
      requires d < |fields| && dup < |fields|
      modifies this
      ensures S() == Copy(old(S()), d, dup)
    {
      late := if dup in finished then late else late + {d};
      fields := fields[d := CopyFields(fields[d], fields[dup], d == dup)];
    }

    /** The doc's own text and `fixupDoc`. */
    method FinishDoc(d: DocId)
      requires d < |docs| == |fields| && stack != []
      modifies this
      ensures S() == Finish(old(S()), d, docs[d].own, style)
    {
      values := Create(values, Formatted(docs[d].own.lists), style.text);
      fields := fields[d := AddOwn(fields[d], docs[d].own, style)];
      FixupDoc(d);
      finished, stack := finished + [d], stack[..|stack| - 1];
    }

    /** `fixupDoc` on the pairs, which other docs may share. */
    method FixupDoc(d: DocId)
      requires d < |fields|
      modifies this`values
      ensures values == Reformat(old(values), Formatted(fields[d].lists), style.format)
    {
      var l := fields[d].lists;
      ReformatAppend(values, l.events, l.options, style.format);
      ReformatAppend(values, l.events + l.options, l.params, style.format);
      FormatPairs(l.events);
      FormatPairs(l.options);
      FormatPairs(l.params);
    }

    /** Each of its three loops. */
    method FormatPairs(ps: seq<Item>)
      modifies this`values
      ensures values == Reformat(old(values), ps, style.format)
    {
      for next := 0 to |ps|
        invariant values == Reformat(old(values), ps[..next], style.format)
      {
        assert ps[..next + 1][..next] == ps[..next];
        values := FormatOne(values, ps[next], style.format);
      }
      assert ps[..|ps|] == ps;
    }

    /** `crackDoc`. It cracks exactly the docs that it leads to through docs not cracked before, and the docs that were
        keep their lists and texts. */
    method CrackDoc(d: DocId)
      requires Valid() && d < |docs|
      requires stack != [] ==> d in docs[stack[|stack| - 1]].dups
      modifies this
      ensures Valid() && cracked[d] && Progress(docs, old(S()), S(), d)
      ensures forall x | 0 <= x < |docs| :: cracked[x] <==> old(cracked[x]) || ReachesFresh(docs, old(cracked), d, x)
      decreases |docs| - |stack|, 5
    {
      ghost var s := S();
      if !cracked[d] {
        CrackFresh(d);
      }
      forall x | 0 <= x < |docs|
        ensures cracked[x] <==> s.cracked[x] || ReachesFresh(docs, s.cracked, d, x)
      {
        CrackedExactly(docs, s, S(), d, x);
      }
    }

    /** The rest of it, with `mergeDuplicates` as its loop. */
    method CrackFresh(d: DocId)
      requires Valid() && d < |docs| && !cracked[d]
      requires stack != [] ==> d in docs[stack[|stack| - 1]].dups
      modifies this
      ensures Valid() && cracked[d] && Progress(docs, old(S()), S(), d)
      decreases |docs| - |stack|, 4
    {
      ghost var s := S();
      EnterKeeps(docs, style, s, d);
      StackBounded(docs, style, Enter(s, d, docs[d].hasText));
      EnterDoc(d);
      if !docs[d].hasText {
        NoText(docs, style, s, d);
      } else {
        PartialStart(docs, style, s, d);
        CrackText(d, s);
      }
    }

    /** A doc with text: its directives, then its own text. */
    method CrackText(d: DocId, ghost s: State)
      requires d < |docs| && S() in Within(docs, style, s, d, 0) && |s.stack| < |docs|
      modifies this
      ensures Valid() && cracked[d] && Progress(docs, s, S(), d)
      decreases |docs| - |s.stack|, 3
    {
      MergeDuplicates(d, s);
      PartialFinish(docs, style, s, S(), d);
      FinishKeeps(docs, style, S(), d);
      FinishDoc(d);
    }

    /** The loop over the directives. */
    method MergeDuplicates(d: DocId, ghost s: State)
      requires d < |docs| && S() in Within(docs, style, s, d, 0)
      modifies this
      ensures S() in Within(docs, style, s, d, |docs[d].dups|)
      decreases |docs| - |s.stack|, 2
    {
      var k, count := 0, |docs[d].dups|;
      while k < count
        invariant 0 <= k <= count && S() in Within(docs, style, s, d, k)
      {
        MergeDuplicate(d, k, s);
        k := k + 1;
      }
    }

    method MergeDuplicate(d: DocId, k: nat, ghost s: State)
      requires d < |docs| && k < |docs[d].dups| && S() in Within(docs, style, s, d, k)
      modifies this
      ensures S() in Within(docs, style, s, d, k + 1)
      decreases |docs| - |s.stack|, 1
    {
      var dup := docs[d].dups[k];
      ghost var t := S();
      assert stack == s.stack + [d];
      StackBounded(docs, style, t);
      CrackDoc(dup);
      MergeStep(docs, style, s, t, S(), d, k);
      CopyDuplicate(d, dup);
    }

    /** A whole run: the class and property pages crack their docs one after another. */
    method CrackAll(roots: seq<DocId>)
      requires AtRest(docs, style, S()) && forall i | 0 <= i < |roots| :: roots[i] < |docs|
      modifies this
      ensures AtRest(docs, style, S()) && Distinct(finished)
      ensures forall i | 0 <= i < |roots| :: cracked[roots[i]]
    {
      for k := 0 to |roots|
        invariant AtRest(docs, style, S())
        invariant forall i | 0 <= i < k :: cracked[roots[i]]
      {
        CrackDoc(roots[k]);
      }
    }
  }

  lemma NoText(docs: seq<Doc>, style: Style, s: State, d: DocId)
    requires Inv(docs, style, s) && d < |docs| && !s.cracked[d] && !docs[d].hasText
    ensures Progress(docs, s, Enter(s, d, false), d)
  {
    SelfFresh(docs, s.cracked, d);
    assert forall x: DocId | New(s, Enter(s, d, false), x) :: x == d;
  }

  lemma {:induction false} DistinctBounded(q: seq<DocId>, n: nat)
    requires Distinct(q) && forall i | 0 <= i < |q| :: q[i] < n
    ensures |q| <= n
    decreases n
  {
    if q == [] {
      return;
    }
    assert q[0] < n;
    if i :| 0 <= i < |q| && q[i] == n - 1 {
      DistinctBounded(q[..i] + q[i + 1..], n - 1);
    } else {
      DistinctBounded(q, n - 1);
    }
  }

  /** The docs in progress are distinct, so the recursion is no deeper than there are docs. */
  lemma StackBounded(docs: seq<Doc>, style: Style, s: State)
    requires Inv(docs, style, s)
    ensures |s.stack| <= |docs|
  {
    DistinctBounded(s.stack, |docs|);
  }

  // ---- What a run amounts to ----

  /** A state between two calls from outside, after any number of calls. */
  ghost predicate AtRest(docs: seq<Doc>, style: Style, s: State) {
    Inv(docs, style, s) && s.stack == []
  }

  /** A call cracks exactly the docs that it leads to through docs not cracked before. */
  lemma CrackedExactly(docs: seq<Doc>, s: State, t: State, d: DocId, x: DocId)
    requires ValidDocs(docs) && Progress(docs, s, t, d) && d < |docs| && t.cracked[d] && x < |docs|
    ensures t.cracked[x] <==> s.cracked[x] || ReachesFresh(docs, s.cracked, d, x)
  {
    if q :| FreshRoute(docs, s.cracked, d, q, x) {
      FreshCracked(docs, s, t, d, d, q, x);
    }
    if t.cracked[x] && !s.cracked[x] {
      assert New(s, t, x);
    }
  }

  lemma {:induction false} FreshCracked(docs: seq<Doc>, s: State, t: State, d: DocId, x: DocId, q: seq<DocId>,
                                        y: DocId)
    requires ValidDocs(docs) && Progress(docs, s, t, d)
    requires FreshRoute(docs, s.cracked, x, q, y) && t.cracked[x]
    ensures y < |docs| && t.cracked[y]
    decreases |q|
  {
    if q != [] {
      assert New(s, t, x);
      FreshCracked(docs, s, t, d, q[0], q[1..], y);
    }
  }

  lemma {:induction false} RouteConcat(docs: seq<Doc>, x: DocId, p: seq<DocId>, y: DocId, q: seq<DocId>, z: DocId)
    requires Route(docs, x, p, y) && Route(docs, y, q, z)
    ensures Route(docs, x, p + q, z)
    decreases |p|
  {
    if p == [] {
      assert p + q == q;
    } else {
      RouteConcat(docs, p[0], p[1..], y, q, z);
      assert (p + q)[1..] == p[1..] + q;
    }
  }

  lemma CycleBehind(docs: seq<Doc>, x: DocId, p: seq<DocId>, y: DocId)
    requires Route(docs, x, p, y) && LeadsToCycle(docs, y)
    ensures LeadsToCycle(docs, x)
  {
    var q, z, r :| Route(docs, y, q, z) && r != [] && Route(docs, z, r, z);
    RouteConcat(docs, x, p, y, q, z);
  }

  /** Follow a route from a completed doc: either it meets a doc that copied too early, at the end of `p`, or it
      leads to a doc completed earlier, at position `j`. */
  lemma {:induction false} FollowRoute(docs: seq<Doc>, s: State, i: nat, q: seq<DocId>, y: DocId)
    returns (p: seq<DocId>, z: DocId, j: nat)
    requires ValidDocs(docs) && Shape(docs, s) && Ordered(docs, s) && i < |s.finished|
    requires Route(docs, s.finished[i], q, y)
    ensures Route(docs, s.finished[i], p, z)
    ensures z in s.late || (j <= i && (q != [] ==> j < i) && s.finished[j] == y)
    decreases |q|
  {
    var x := s.finished[i];
    p, z, j := [], x, i;
    assert Route(docs, x, [], x);
    if q != [] && x !in s.late {
      var e := q[0];
      var k :| 0 <= k < |docs[x].dups| && docs[x].dups[k] == e;
      assert e in s.finished[..i];
      var m :| 0 <= m < i && s.finished[m] == e;
      p, z, j := FollowRoute(docs, s, m, q[1..], y);
      p := [e] + p;
      assert Route(docs, x, p, z) by {
        assert p[0] == e && Route(docs, e, p[1..], z);
      }
    }
  }

  /** The doc leads to one that copied too early. */
  ghost predicate MeetsLate(docs: seq<Doc>, late: set<DocId>, x: DocId) {
    exists q, y :: Route(docs, x, q, y) && y in late
  }

  lemma CycleMakesLate(docs: seq<Doc>, style: Style, s: State, x: DocId) returns (q: seq<DocId>, z: DocId)
    requires AtRest(docs, style, s) && x in s.finished && LeadsToCycle(docs, x)
    ensures Route(docs, x, q, z) && z in s.late
  {
    var p, y, r :| Route(docs, x, p, y) && r != [] && Route(docs, y, r, y);
    var i :| 0 <= i < |s.finished| && s.finished[i] == x;
    var j;
    q, z, j := FollowRoute(docs, s, i, p, y);
    if z !in s.late {
      var q', k;
      q', z, k := FollowRoute(docs, s, j, r, y);
      if z !in s.late {
        assert false;
      }
      RouteConcat(docs, x, p, y, q', z);
      q := p + q';
    }
  }

  /** The exact condition for copying from complete docs only. At rest, a doc with text leads to a doc that copied
      too early if and only if its directives lead to a cycle. */
  lemma {:induction false} LateExactly(docs: seq<Doc>, style: Style, s: State, x: DocId)
    requires AtRest(docs, style, s) && x < |docs| && s.cracked[x] && docs[x].hasText
    ensures MeetsLate(docs, s.late, x) <==> LeadsToCycle(docs, x)
  {
    assert x in s.finished;
    if MeetsLate(docs, s.late, x) {
      var q, y :| Route(docs, x, q, y) && y in s.late;
      CycleBehind(docs, x, q, y);
    }
    if LeadsToCycle(docs, x) {
      var q, z := CycleMakesLate(docs, style, s, x);
    }
  }

  /** Without a cycle, a doc's lists and texts do not depend on what was cracked when: any two runs that reach the doc,
      in any order and from any roots, give it the same pairs and the same texts. */
  lemma {:induction false} SameFields(docs: seq<Doc>, style: Style, s: State, t: State, x: DocId, i: nat)
    requires AtRest(docs, style, s) && AtRest(docs, style, t)
    requires i < |s.finished| && s.finished[i] == x && x in t.finished && !LeadsToCycle(docs, x)
    ensures s.fields[x] == t.fields[x]
    decreases i
  {
    assert x in s.finished && x !in s.late && x !in t.late;
    assert s.fields[x] == Built(docs[x], s.fields, style) && t.fields[x] == Built(docs[x], t.fields, style);
    if docs[x].dups != [] {
      var e, j := LastDuplicate(docs, style, s, x, i);
      DupsFinished(docs, t, x, |docs[x].dups| - 1);
      SameFields(docs, style, s, t, e, j);
    }
  }

  /** The last duplicate of a doc that leads to no cycle was complete before it and leads to none either. */
  lemma LastDuplicate(docs: seq<Doc>, style: Style, s: State, x: DocId, i: nat) returns (e: DocId, j: nat)
    requires AtRest(docs, style, s) && i < |s.finished| && s.finished[i] == x && !LeadsToCycle(docs, x)
    requires x < |docs| && docs[x].dups != []
    ensures e == docs[x].dups[|docs[x].dups| - 1] && j < i && s.finished[j] == e && !LeadsToCycle(docs, e)
  {
    e := docs[x].dups[|docs[x].dups| - 1];
    assert x !in s.late;
    assert e in s.finished[..i];
    j :| 0 <= j < i && s.finished[j] == e;
    assert Route(docs, e, [], e) && Route(docs, x, [e], e) by {
      assert [e][1..] == [];
    }
    if LeadsToCycle(docs, e) {
      CycleBehind(docs, x, [e], e);
    }
  }

  // ---- The values of shared pairs ----

  /** `q` leads from `x` to `y` through last directives, the only ones that a doc inherits from. */
  ghost predicate LastRoute(docs: seq<Doc>, x: DocId, q: seq<DocId>, y: DocId)
    decreases |q|
  {
    && x < |docs|
    && if q == [] then x == y
       else docs[x].dups != [] && q[0] == docs[x].dups[|docs[x].dups| - 1] && LastRoute(docs, q[0], q[1..], y)
  }

  ghost predicate Inherits(docs: seq<Doc>, x: DocId, y: DocId) {
    exists q :: LastRoute(docs, x, q, y)
  }

  lemma InheritsStep(docs: seq<Doc>, x: DocId, y: DocId)
    requires x < |docs|
    ensures Inherits(docs, x, y) <==>
            x == y || (docs[x].dups != [] && Inherits(docs, docs[x].dups[|docs[x].dups| - 1], y))
  {
    if q :| LastRoute(docs, x, q, y) {
      assert q != [] ==> LastRoute(docs, q[0], q[1..], y);
    }
    if x == y {
      assert LastRoute(docs, x, [], y);
    }
    if docs[x].dups != [] {
      var e := docs[x].dups[|docs[x].dups| - 1];
      if q :| LastRoute(docs, e, q, y) {
        assert ([e] + q)[1..] == q;
        assert LastRoute(docs, x, [e] + q, y);
      }
    }
  }

  // ---- What a doc shows ----

  /** A doc that names itself last loses what it copied from the directives before. */
  lemma SelfDuplicate(docs: seq<Doc>, style: Style, s: State, x: DocId)
    requires AtRest(docs, style, s) && x in s.finished && x < |docs| && docs[x].dups != []
    requires docs[x].dups[|docs[x].dups| - 1] == x
    ensures s.fields[x].lists == docs[x].own.lists
  {
    assert NamesItself(docs, x) && OwnLists(docs, s, x);
  }

  ghost predicate InDocs(docs: seq<Doc>, x: DocId, q: seq<DocId>) {
    x < |docs| && forall i | 0 <= i < |q| :: q[i] < |docs|
  }

  /** Last directives lead from `x` to `y`, which has none. */
  ghost predicate WholeRoute(docs: seq<Doc>, x: DocId, q: seq<DocId>, y: DocId) {
    InDocs(docs, x, q) && LastRoute(docs, x, q, y) && y < |docs| && docs[y].dups == []
  }

  /** One list of the own texts of the docs on a route, from its far end to `x`. */
  ghost function Along(docs: seq<Doc>, x: DocId, q: seq<DocId>, list: Lists -> seq<Item>): seq<Item>
    requires InDocs(docs, x, q)
    decreases |q|
  {
    (if q == [] then [] else Along(docs, q[0], q[1..], list)) + list(docs[x].own.lists)
  }

  /** The texts of the docs on a route, joined from its far end to `x`. */
  ghost function TextsAlong(docs: seq<Doc>, style: Style, x: DocId, q: seq<DocId>): Texts
    requires InDocs(docs, x, q)
    decreases |q|
  {
    style.join(if q == [] then Texts("", "", "", "", "", "", "") else TextsAlong(docs, style, q[0], q[1..]),
               docs[x].own.texts)
  }

  /** Last directives lead from a doc without a cycle to one without directives. */
  lemma {:induction false} FarEnd(docs: seq<Doc>, style: Style, s: State, i: nat) returns (q: seq<DocId>, y: DocId)
    requires AtRest(docs, style, s) && i < |s.finished| && !LeadsToCycle(docs, s.finished[i])
    ensures WholeRoute(docs, s.finished[i], q, y)
    decreases i
  {
    var x := s.finished[i];
    assert x in s.finished;
    q, y := [], x;
    if docs[x].dups != [] {
      var e, j := LastDuplicate(docs, style, s, x, i);
      var rest;
      rest, y := FarEnd(docs, style, s, j);
      q := [e] + rest;
      assert q[1..] == rest;
    }
  }

  /** A list that appending concatenates is that of the own texts along the route. */
  lemma {:induction false} ListAlong(docs: seq<Doc>, style: Style, s: State, i: nat, q: seq<DocId>, y: DocId,
                                     list: Lists -> seq<Item>)
    requires AtRest(docs, style, s) && i < |s.finished| && !LeadsToCycle(docs, s.finished[i])
    requires WholeRoute(docs, s.finished[i], q, y)
    requires list(NO_LISTS) == [] && forall a, b :: list(Append(a, b)) == list(a) + list(b)
    ensures list(s.fields[s.finished[i]].lists) == Along(docs, s.finished[i], q, list)
    decreases i
  {
    var x := s.finished[i];
    assert x in s.finished;
    BuiltLists(docs, style, s, x);
    if q != [] {
      var e, j := LastDuplicate(docs, style, s, x, i);
      ListAlong(docs, style, s, j, q[1..], y, list);
    }
  }

  lemma BuiltLists(docs: seq<Doc>, style: Style, s: State, x: DocId)
    requires AtRest(docs, style, s) && x in s.finished && !LeadsToCycle(docs, x)
    ensures x < |docs| && (forall k | 0 <= k < |docs[x].dups| :: docs[x].dups[k] < |s.fields|)
    ensures s.fields[x].lists == Append(if docs[x].dups == [] then NO_LISTS
                                        else s.fields[docs[x].dups[|docs[x].dups| - 1]].lists, docs[x].own.lists)
    ensures s.fields[x].texts == style.join(if docs[x].dups == [] then EMPTY.texts
                                            else s.fields[docs[x].dups[|docs[x].dups| - 1]].texts, docs[x].own.texts)
    ensures s.fields[x].defaults == docs[x].own.defaults
  {
    assert x !in s.late;
    assert s.fields[x] == Built(docs[x], s.fields, style);
  }

  lemma {:induction false} TextAlong(docs: seq<Doc>, style: Style, s: State, i: nat, q: seq<DocId>, y: DocId)
    requires AtRest(docs, style, s) && i < |s.finished| && !LeadsToCycle(docs, s.finished[i])
    requires WholeRoute(docs, s.finished[i], q, y)
    ensures s.fields[s.finished[i]].texts == TextsAlong(docs, style, s.finished[i], q)
    decreases i
  {
    var x := s.finished[i];
    assert x in s.finished;
    BuiltLists(docs, style, s, x);
    if q != [] {
      var e, j := LastDuplicate(docs, style, s, x, i);
      TextAlong(docs, style, s, j, q[1..], y);
    }
  }

  /** What a cracked doc without a cycle shows: each of its lists is the concatenation of that list of the own texts
      along its last directives, from the far end to the doc itself; its texts are joined in that order; its default
      values are its own. */
  lemma FieldsAlong(docs: seq<Doc>, style: Style, s: State, x: DocId) returns (q: seq<DocId>, y: DocId)
    requires AtRest(docs, style, s) && x in s.finished && !LeadsToCycle(docs, x)
    ensures WholeRoute(docs, x, q, y)
    ensures s.fields[x].lists.params == Along(docs, x, q, (l: Lists) => l.params)
    ensures s.fields[x].lists.options == Along(docs, x, q, (l: Lists) => l.options)
    ensures s.fields[x].lists.events == Along(docs, x, q, (l: Lists) => l.events)
    ensures s.fields[x].lists.see == Along(docs, x, q, (l: Lists) => l.see)
    ensures s.fields[x].lists.throws == Along(docs, x, q, (l: Lists) => l.throws)
    ensures s.fields[x].texts == TextsAlong(docs, style, x, q) && s.fields[x].defaults == docs[x].own.defaults
  {
    var i :| 0 <= i < |s.finished| && s.finished[i] == x;
    q, y := FarEnd(docs, style, s, i);
    BuiltLists(docs, style, s, x);
    TextAlong(docs, style, s, i, q, y);
    ListAlong(docs, style, s, i, q, y, (l: Lists) => l.params);
    ListAlong(docs, style, s, i, q, y, (l: Lists) => l.options);
    ListAlong(docs, style, s, i, q, y, (l: Lists) => l.events);
    ListAlong(docs, style, s, i, q, y, (l: Lists) => l.see);
    ListAlong(docs, style, s, i, q, y, (l: Lists) => l.throws);
  }

  /** A completed doc that leads to no cycle lists a pair if and only if last directives lead from it to the doc whose
      own text has the pair. */
  lemma {:induction false} ListsExactly(docs: seq<Doc>, style: Style, s: State, i: nat, y: DocId, p: Item)
    requires AtRest(docs, style, s) && i < |s.finished| && !LeadsToCycle(docs, s.finished[i]) && Owner(docs, y, p)
    ensures s.finished[i] < |docs|
    ensures p in Formatted(s.fields[s.finished[i]].lists) <==> Inherits(docs, s.finished[i], y)
    decreases i
  {
    var x := s.finished[i];
    assert x in s.finished;
    InheritsStep(docs, x, y);
    ListsStep(docs, style, s, x, y, p);
    if docs[x].dups != [] {
      var e, j := LastDuplicate(docs, style, s, x, i);
      ListsExactly(docs, style, s, j, y, p);
    }
  }

  lemma ListsStep(docs: seq<Doc>, style: Style, s: State, x: DocId, y: DocId, p: Item)
    requires AtRest(docs, style, s) && x in s.finished && !LeadsToCycle(docs, x) && Owner(docs, y, p)
    ensures x < |docs| && (forall k | 0 <= k < |docs[x].dups| :: docs[x].dups[k] < |s.fields|)
    ensures p in Formatted(s.fields[x].lists) <==>
            x == y || (docs[x].dups != [] && p in Formatted(s.fields[docs[x].dups[|docs[x].dups| - 1]].lists))
  {
    assert x !in s.late;
    assert s.fields[x] == Built(docs[x], s.fields, style);
    FormattedIn(Inherited(docs[x].dups, |docs[x].dups|, s.fields).lists, docs[x].own.lists, p);
    assert p in Formatted(docs[x].own.lists) <==> Owner(docs, x, p);
  }

  lemma FormattedIn(a: Lists, b: Lists, p: Item)
    ensures p in Formatted(Append(a, b)) <==> p in Formatted(a) || p in Formatted(b)
  {
  }

  /** The cracked docs that inherit from `y`. */
  ghost function Heirs(docs: seq<Doc>, cracked: seq<bool>, y: DocId): set<DocId>
    requires |cracked| == |docs|
  {
    set x: DocId | x < |docs| && cracked[x] && docs[x].hasText && Inherits(docs, x, y)
  }

  /** The cracked docs lead to no cycle. */
  ghost predicate NoCycles(docs: seq<Doc>, cracked: seq<bool>)
    requires |cracked| == |docs|
  {
    forall x | 0 <= x < |docs| && cracked[x] && docs[x].hasText :: !LeadsToCycle(docs, x)
  }

  /** After any run that met no cycle, the value of a pair is its first value formatted once for every cracked doc that
      inherits it: in the code, completing a doc rewrites the pairs that it shares with docs completed before. */
  lemma ValueExactly(docs: seq<Doc>, style: Style, s: State, y: DocId, p: Item)
    requires AtRest(docs, style, s) && NoCycles(docs, s.cracked) && y in s.finished && Owner(docs, y, p)
    ensures p in s.values && |Heirs(docs, s.cracked, y)| > 0
    ensures s.values[p] == Iterate(style.format, |Heirs(docs, s.cracked, y)|, style.text(p))
  {
    forall x: DocId
      ensures x in Listers(s, p) <==> x in Heirs(docs, s.cracked, y)
    {
      if x in s.finished {
        var i :| 0 <= i < |s.finished| && s.finished[i] == x;
        ListsExactly(docs, style, s, i, y, p);
      }
    }
    assert Listers(s, p) == Heirs(docs, s.cracked, y);
    InheritsStep(docs, y, y);
    assert y in Heirs(docs, s.cracked, y);
  }

  /** Two runs that crack the same docs, in any order and from any roots, give every doc the same lists and texts and
      every pair the same value. */
  lemma OrderIndependent(docs: seq<Doc>, style: Style, s: State, t: State, y: DocId, p: Item)
    requires AtRest(docs, style, s) && AtRest(docs, style, t) && s.cracked == t.cracked && NoCycles(docs, s.cracked)
    requires y in s.finished
    ensures y in t.finished && y < |docs| && s.fields[y] == t.fields[y]
    ensures Owner(docs, y, p) ==> p in s.values && p in t.values && s.values[p] == t.values[p]
  {
    var i :| 0 <= i < |s.finished| && s.finished[i] == y;
    assert y in t.finished;
    SameFields(docs, style, s, t, y, i);
    if Owner(docs, y, p) {
      ValueExactly(docs, style, s, y, p);
      ValueExactly(docs, style, t, y, p);
    }
  }

  /** Two runs that crack different docs give a doc the same lists and texts, but not the same values. If the second
      run cracks at least as many heirs of the pair, the values agree if and only if it cracks equally many, or
      formatting the first run's value once more for each further heir leads back to it. */
  lemma ValuesAgreeExactly(docs: seq<Doc>, style: Style, s: State, t: State, y: DocId, p: Item)
    returns (n: nat, k: nat)
    requires AtRest(docs, style, s) && NoCycles(docs, s.cracked) && y in s.finished && Owner(docs, y, p)
    requires AtRest(docs, style, t) && NoCycles(docs, t.cracked) && y in t.finished
    requires |Heirs(docs, s.cracked, y)| <= |Heirs(docs, t.cracked, y)|
    ensures n == |Heirs(docs, s.cracked, y)| <= k == |Heirs(docs, t.cracked, y)|
    ensures p in s.values && p in t.values
    ensures s.values[p] == t.values[p] <==> FixedAfter(style.format, s.values[p], k - n)
  {
    n, k := |Heirs(docs, s.cracked, y)|, |Heirs(docs, t.cracked, y)|;
    ValueExactly(docs, style, s, y, p);
    ValueExactly(docs, style, t, y, p);
    IteratesAgree(style.format, style.text(p), n, k, s.values[p], t.values[p]);
  }

  /** Formatting `v` so many times more changes nothing. */
  predicate FixedAfter(format: string -> string, v: string, times: nat) {
    times == 0 || Iterate(format, times, v) == v
  }

  lemma IteratesAgree(f: string -> string, v: string, n: nat, k: nat, a: string, b: string)
    requires n <= k && a == Iterate(f, n, v) && b == Iterate(f, k, v)
    ensures a == b <==> FixedAfter(f, a, k - n)
  {
    IterateMore(f, n, k - n, v);
  }

  lemma FixedAfterOne(format: string -> string, v: string)
    ensures FixedAfter(format, v, 1) <==> format(v) == v
  {
    assert Iterate(format, 0, v) == v;
  }

  lemma {:induction false} IterateFixed(f: string -> string, n: nat, v: string)
    requires n > 0 && f(f(v)) == f(v)
    ensures Iterate(f, n, v) == f(v)
  {
    if n > 1 {
      IterateFixed(f, n - 1, v);
    } else {
      assert Iterate(f, 0, v) == v;
    }
  }

  /** In particular a pair has one value in all runs if formatting it a second time changes nothing. */
  lemma StableValue(docs: seq<Doc>, style: Style, s: State, y: DocId, p: Item)
    requires AtRest(docs, style, s) && NoCycles(docs, s.cracked) && y in s.finished && Owner(docs, y, p)
    requires style.format(style.format(style.text(p))) == style.format(style.text(p))
    ensures p in s.values && s.values[p] == style.format(style.text(p))
  {
    ValueExactly(docs, style, s, y, p);
    IterateFixed(style.format, |Heirs(docs, s.cracked, y)|, style.text(p));
  }

  /** A doc with one parameter, and a doc that duplicates it. */
  function SharedPair(p: Item): seq<Doc> {
    [Doc(true, [], EMPTY.(lists := NO_LISTS.(params := [p]))), Doc(true, [0], EMPTY)]
  }

  lemma SharedPairAcyclic(p: Item, x: DocId)
    ensures !LeadsToCycle(SharedPair(p), x)
  {
    var docs := SharedPair(p);
    forall q, y, r | Route(docs, x, q, y) && r != []
      ensures !Route(docs, y, r, y)
    {
      assert y == 1 && r[0] == 0 ==> (Route(docs, 0, r[1..], y) ==> y == 0);
    }
  }

  /** Without a cycle, the value of a shared pair still depends on the docs that a run cracks: cracking the second doc
      formats the first doc's parameter once more. */
  lemma SharedPairReformatted(style: Style, s: State, p: Item, both: bool)
    requires AtRest(SharedPair(p), style, s) && s.cracked == [true, both]
    ensures p in s.values
    ensures s.values[p] == if both then style.format(style.format(style.text(p))) else style.format(style.text(p))
  {
    forall x: DocId
      ensures !LeadsToCycle(SharedPair(p), x)
    {
      SharedPairAcyclic(p, x);
    }
    assert 0 in s.finished && Owner(SharedPair(p), 0, p);
    SharedPairHeirs(p, both);
    ValueExactly(SharedPair(p), style, s, 0, p);
    IterateTwice(style.format, style.text(p));
  }

  lemma SharedPairHeirs(p: Item, both: bool)
    ensures |Heirs(SharedPair(p), [true, both], 0)| == if both then 2 else 1
  {
    InheritsStep(SharedPair(p), 0, 0);
    InheritsStep(SharedPair(p), 1, 0);
    assert Heirs(SharedPair(p), [true, both], 0) == if both then {0, 1} else {0};
  }

  lemma IterateTwice(f: string -> string, v: string)
    ensures Iterate(f, 1, v) == f(v) && Iterate(f, 2, v) == f(f(v))
  {
    assert Iterate(f, 0, v) == v && Iterate(f, 1, v) == f(v);
  }

  /** For example, `@param p costs $$5 more` shows a price after its own doc is cracked, and a link once the doc that
      duplicates it is cracked too. */
  method PriceBecomesLink(p: Item, join: (Texts, Texts) -> Texts, classLink: string -> string)
    returns (first: string, second: string)
    ensures first == "Costs $5 more." && second == "Costs <a href='#5'>5</a> more."
  {
    var style := Style(join, v => DocFormat.Format(v, classLink), _ => DocFormat.COSTS);
    DocFormat.FormattedAgain(classLink);
    SharedPairValid(p);
    var cracker := new Cracker(SharedPair(p), style);
    first := CrackShared(cracker, p, 0);
    second := CrackShared(cracker, p, 1);
  }

  /** Crack the first doc, or the second after the first, and look at the parameter. */
  method CrackShared(cracker: Cracker, p: Item, d: DocId) returns (value: string)
    requires cracker.docs == SharedPair(p) && AtRest(cracker.docs, cracker.style, cracker.S()) && d < 2
    requires cracker.cracked == [d == 1, false]
    modifies cracker
    ensures AtRest(cracker.docs, cracker.style, cracker.S()) && cracker.cracked == [true, d == 1]
    ensures var f, v := cracker.style.format, cracker.style.text(p); value == if d == 1 then f(f(v)) else f(v)
  {
    OnlyItself(p, cracker.cracked);
    cracker.CrackDoc(d);
    assert cracker.cracked == [true, d == 1];
    SharedPairReformatted(cracker.style, cracker.S(), p, d == 1);
    value := cracker.values[p];
  }

  lemma OnlyItself(p: Item, cracked: seq<bool>)
    requires |cracked| == 2
    ensures !ReachesFresh(SharedPair(p), cracked, 0, 1)
  {
  }

  lemma SharedPairValid(p: Item)
    ensures ValidDocs(SharedPair(p))
  {
    var docs := SharedPair(p);
    assert Formatted(docs[0].own.lists) == [p] && Formatted(docs[1].own.lists) == [];
  }

  /** With a cycle it fails: of two docs that name each other, one always copies from the other too early. */
  lemma MutualDuplicatesLate(style: Style, s: State, own: Fields)
    requires AtRest([Doc(true, [1], own), Doc(true, [0], own)], style, s) && s.cracked[0]
    ensures 0 in s.late || 1 in s.late
  {
    var docs := [Doc(true, [1], own), Doc(true, [0], own)];
    assert [1, 0][1..] == [0] && [0][1..] == [];
    assert Route(docs, 0, [], 0) && Route(docs, 1, [0], 0) && Route(docs, 0, [1, 0], 0);
    LateExactly(docs, style, s, 0);
    var q, y :| Route(docs, 0, q, y) && y in s.late;
    RouteEnds(docs, 0, q, y);
  }

  lemma {:induction false} RouteEnds(docs: seq<Doc>, x: DocId, q: seq<DocId>, y: DocId)
    requires Route(docs, x, q, y)
    ensures y < |docs|
    decreases |q|
  {
    if q != [] {
      RouteEnds(docs, q[0], q[1..], y);
    }
  }
}
