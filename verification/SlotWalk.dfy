/**
 The two module tools that walk a loaded module's objects: the slot listing (src/cmd/listing.c) and the slot header
 generator (src/cmd/slotGen.c). Objects are addresses into a heap, and the VISITED bit of each object is a cell of
 `visited`. What is printed for an object is one section.
 */
module SlotWalk {
  import opened Sequences
  import opened SimplePaths

  datatype Kind = TypeObj | FunctionObj | BlockObj | OtherObj

  /** A slot: whether it has a name, and the object it holds, if any. */
  datatype Slot = Slot(named: bool, value: Option<Ref>)
  datatype Obj = Obj(kind: Kind, module_: nat, slots: seq<Slot>)
  type Heap = seq<Obj>

  ghost predicate ValidHeap(h: Heap) {
    forall o, i | 0 <= o < |h| && 0 <= i < |h[o].slots| :: ValidSlot(h, h[o].slots[i])
  }

  predicate ValidSlot(h: Heap, s: Slot) { s.value.Some? ==> s.value.value < |h| }

  function Marked(visited: seq<bool>): (m: set<Ref>)
    ensures forall v: Ref :: v in m <==> v < |visited| && visited[v]
  {
    set v | v in Below(|visited|) && visited[v]
  }

  ghost function ClearCount(visited: seq<bool>): nat { |Below(|visited|) - Marked(visited)| }

  lemma MarkOne(visited: seq<bool>, v: Ref)
    requires v < |visited| && !visited[v]
    ensures Marked(visited[v := true]) == Marked(visited) + {v}
    ensures visited[v := true][v := false] == visited
    ensures ClearCount(visited[v := true]) < ClearCount(visited)
  {
    var now := visited[v := true];
    assert Below(|now|) - Marked(now) == Below(|visited|) - Marked(visited) - {v};
  }

  // ---- Following a range of slots ----

  /** Which slots each tool descends into. */
  datatype Rule = Listing | Generator(module_: nat)

  predicate Follows(h: Heap, rule: Rule, s: Slot)
    requires ValidSlot(h, s)
  {
    s.value.Some? &&
    match rule
    case Listing => h[s.value.value].kind != OtherObj
    case Generator(m) => s.named && h[s.value.value].kind == TypeObj && h[s.value.value].module_ == m
  }

  predicate IsEdge(h: Heap, rule: Rule, o: Ref, e: Edge)
    requires ValidHeap(h) && o < |h|
  {
    e.slot < |h[o].slots| && h[o].slots[e.slot].value == Some(e.target) && Follows(h, rule, h[o].slots[e.slot])
  }

  /** The edges out of object `o` through its slots `i` up to `hi`; slots beyond the object's length hold nothing. */
  function Edges(h: Heap, rule: Rule, o: Ref, i: nat, hi: nat): (es: seq<Edge>)
    requires ValidHeap(h) && o < |h|
    ensures EdgesIn(|h|, es)
    decreases hi - i
  {
    if i >= hi then []
    else if i < |h[o].slots| && Follows(h, rule, h[o].slots[i]) then
      [Edge(i, h[o].slots[i].value.value)] + Edges(h, rule, o, i + 1, hi)
    else Edges(h, rule, o, i + 1, hi)
  }

  lemma {:induction false} EdgesExactly(h: Heap, rule: Rule, o: Ref, i: nat, hi: nat)
    requires ValidHeap(h) && o < |h|
    ensures forall e :: e in Edges(h, rule, o, i, hi) <==> i <= e.slot < hi && IsEdge(h, rule, o, e)
    ensures Distinct(Edges(h, rule, o, i, hi))
    decreases hi - i
  {
    if i < hi {
      EdgesExactly(h, rule, o, i + 1, hi);
    }
  }

  /** The slots of one object that count: all of them, except that of global only the module's own range counts. */
  datatype Range = Range(global: Ref, first: nat, last: nat)

  function EdgesOf(h: Heap, rule: Rule, r: Range, o: Ref): (es: seq<Edge>)
    requires ValidHeap(h) && o < |h|
    ensures EdgesIn(|h|, es)
  {
    if o == r.global then Edges(h, rule, o, r.first, r.last) else Edges(h, rule, o, 0, |h[o].slots|)
  }

  ghost function GraphOf(h: Heap, rule: Rule, r: Range): (g: Graph)
    requires ValidHeap(h)
    ensures |g| == |h| && ValidGraph(g)
    ensures forall o | 0 <= o < |h| :: g[o] == EdgesOf(h, rule, r, o)
  {
    seq(|h|, o requires 0 <= o < |h| => EdgesOf(h, rule, r, o))
  }

  // ---- The slot listing ----

  /** A printed group of slot assignments; a block is titled by the slot of its parent that holds it. */
  datatype Section = Section(parent: Option<Ref>, slot: nat, obj: Ref)

  /** The section printed at the end of path `p` from `v`, itself entered from `parent`. */
  function SectionAt(parent: Option<Ref>, slot: nat, v: Ref, p: seq<Edge>): Section {
    if p == [] then Section(parent, slot, v)
    else Section(Some(NodeAt(v, p, |p| - 1)), p[|p| - 1].slot, p[|p| - 1].target)
  }

  ghost function Sections(parent: Option<Ref>, slot: nat, v: Ref, ps: seq<seq<Edge>>): (r: seq<Section>)
    ensures |r| == |ps|
  {
    seq(|ps|, i requires 0 <= i < |ps| => SectionAt(parent, slot, v, ps[i]))
  }

  lemma SectionsOfPrepend(parent: Option<Ref>, slot: nat, v: Ref, e: Edge, ps: seq<seq<Edge>>)
    ensures Sections(parent, slot, v, Prepend(e, ps)) == Sections(Some(v), e.slot, e.target, ps)
  {
    forall i | 0 <= i < |ps|
      ensures SectionAt(parent, slot, v, [e] + ps[i]) == SectionAt(Some(v), e.slot, e.target, ps[i])
    {
      var p := ps[i];
      if p != [] {
        NodeShift(v, [e] + p);
        assert ([e] + p)[1..] == p;
        assert NodeAt(e.target, p, |p| - 1) == NodeAt(v, [e] + p, |p|);
      }
    }
  }

  /** Sections through edge `e` are those at its target; the others follow. */
  lemma SectionsThrough(v: Ref, e: Edge, ps: seq<seq<Edge>>, tail: seq<seq<Edge>>, before: seq<Section>)
    ensures before + Sections(None, 0, v, Prepend(e, ps) + tail)
         == before + Sections(Some(v), e.slot, e.target, ps) + Sections(None, 0, v, tail)
  {
    SectionsOfPrepend(None, 0, v, e, ps);
    SectionsAppend(None, 0, v, Prepend(e, ps), tail);
  }

  /** The section of an object itself comes before those below it. */
  lemma SectionsBelow(parent: Option<Ref>, slot: nat, v: Ref, below: seq<seq<Edge>>, before: seq<Section>)
    requires [] !in below
    ensures before + Sections(parent, slot, v, [[]] + below)
         == before + [Section(parent, slot, v)] + Sections(None, 0, v, below)
  {
    SectionsAppend(parent, slot, v, [[]], below);
    SectionsNonEmpty(parent, slot, v, below);
    assert Sections(parent, slot, v, [[]]) == [Section(parent, slot, v)];
  }

  lemma SectionsAppend(parent: Option<Ref>, slot: nat, v: Ref, a: seq<seq<Edge>>, b: seq<seq<Edge>>)
    ensures Sections(parent, slot, v, a + b) == Sections(parent, slot, v, a) + Sections(parent, slot, v, b)
  {
  }

  /** What the listing prints for an object, given the marks. */
  ghost function Printed(h: Heap, r: Range, parent: Option<Ref>, slot: nat, obj: Ref, marked: set<Ref>): seq<Section>
    requires ValidHeap(h) && obj < |h|
  {
    if obj in marked then [] else Sections(parent, slot, obj, Visits(GraphOf(h, Listing, r), obj, marked))
  }

  /** What it prints below the object, from slot `i` on. */
  ghost function PrintedBelow(h: Heap, r: Range, obj: Ref, i: nat, hi: nat, marked: set<Ref>): seq<Section>
    requires ValidHeap(h) && obj < |h|
  {
    Sections(None, 0, obj, VisitsFrom(GraphOf(h, Listing, r), Edges(h, Listing, obj, i, hi), marked))
  }

  lemma {:induction false} SectionsNonEmpty(parent: Option<Ref>, slot: nat, v: Ref, ps: seq<seq<Edge>>)
    requires [] !in ps
    ensures Sections(parent, slot, v, ps) == Sections(None, 0, v, ps)
  {
    forall i | 0 <= i < |ps|
      ensures SectionAt(parent, slot, v, ps[i]) == SectionAt(None, 0, v, ps[i])
    {
      assert ps[i] in ps;
    }
  }

  lemma PrintedObject(h: Heap, r: Range, parent: Option<Ref>, slot: nat, obj: Ref, marked: set<Ref>, lo: nat, hi: nat,
                      before: seq<Section>)
    requires ValidHeap(h) && obj < |h| && obj !in marked
    requires EdgesOf(h, Listing, r, obj) == Edges(h, Listing, obj, lo, hi)
    ensures before + Printed(h, r, parent, slot, obj, marked)
         == before + [Section(parent, slot, obj)] + PrintedBelow(h, r, obj, lo, hi, marked + {obj})
  {
    var g := GraphOf(h, Listing, r);
    VisitsFromExactly(g, g[obj], marked + {obj}, []);
    SectionsBelow(parent, slot, obj, VisitsFrom(g, g[obj], marked + {obj}), before);
  }

  ghost function PrintedAt(h: Heap, r: Range, obj: Ref, i: nat, marked: set<Ref>): seq<Section>
    requires ValidHeap(h) && obj < |h|
  {
    if i < |h[obj].slots| && Follows(h, Listing, h[obj].slots[i])
    then Printed(h, r, Some(obj), i, h[obj].slots[i].value.value, marked) else []
  }

  lemma PrintedSlot(h: Heap, r: Range, obj: Ref, i: nat, hi: nat, marked: set<Ref>, before: seq<Section>)
    requires ValidHeap(h) && obj < |h| && i < hi
    ensures before + PrintedBelow(h, r, obj, i, hi, marked)
         == before + PrintedAt(h, r, obj, i, marked) + PrintedBelow(h, r, obj, i + 1, hi, marked)
  {
    var g, rest := GraphOf(h, Listing, r), Edges(h, Listing, obj, i + 1, hi);
    if i < |h[obj].slots| && Follows(h, Listing, h[obj].slots[i]) {
      var e := Edge(i, h[obj].slots[i].value.value);
      VisitsFromFirst(g, Edges(h, Listing, obj, i, hi), e, rest, marked);
      if e.target !in marked {
        SectionsThrough(obj, e, Visits(g, e.target, marked), VisitsFrom(g, rest, marked), before);
      }
    }
  }

  class SlotLister {
    const heap: Heap
    const range: Range
    var visited: seq<bool>
    var sections: seq<Section>

    ghost predicate Valid()
      reads this
    {
      ValidHeap(heap) && |visited| == |heap| && range.global < |heap|
    }

    constructor (heap: Heap, range: Range)
      requires ValidHeap(heap) && range.global < |heap|
      ensures Valid() && this.heap == heap && this.range == range && sections == []
      ensures Marked(visited) == {}
    {
      this.heap, this.range, sections := heap, range, [];
      visited := seq(|heap|, _ => false);
    }

    /** `lstSlotAssignments`. Every mark is as it was, and what is printed is one section for each simple path. */
    method ListSlots(parent: Option<Ref>, slot: nat, obj: Ref)
      requires Valid() && obj < |heap|
      modifies this
      ensures Valid() && visited == old(visited)
      ensures sections == old(sections) + Printed(heap, range, parent, slot, obj, Marked(visited))
      decreases ClearCount(visited), 0
    {
      if visited[obj] {
        return;
      }
      MarkOne(visited, obj);
      visited := visited[obj := true];
      sections := sections + [Section(parent, slot, obj)];
      var i, count := if obj == range.global then range.first else 0,
                      if obj == range.global then range.last else |heap[obj].slots|;
      PrintedObject(heap, range, parent, slot, obj, Marked(old(visited)), i, count, old(sections));
      ListBelow(obj, i, count);
      visited := visited[obj := false];
    }

    /** The listing of a module: it starts from global with every mark clear. */
    method ListModule()
      requires Valid() && Marked(visited) == {} && sections == []
      modifies this
      ensures Valid() && visited == old(visited)
      ensures forall w :: HasSection(sections, w) <==> ChainLeads(heap, range, w)
      ensures forall w :: Appearances(sections, w) == |ChainsTo(heap, range, w)|
    {
      ListSlots(None, 0, range.global);
      assert sections == Printed(heap, range, None, 0, range.global, {});
      forall w
        ensures HasSection(sections, w) <==> ChainLeads(heap, range, w)
        ensures Appearances(sections, w) == |ChainsTo(heap, range, w)|
      {
        ListedExactly(heap, range, w);
        ListedOncePerPath(heap, range, w);
      }
    }

    /** Its last loop: recurse on the slots that hold a type, a function or a block. */
    method ListBelow(obj: Ref, first: nat, count: nat)
      requires Valid() && obj < |heap|
      modifies this
      ensures Valid() && visited == old(visited)
      ensures sections == old(sections) + PrintedBelow(heap, range, obj, first, count, Marked(visited))
      decreases ClearCount(visited), 1
    {
      var i := first;
      ghost var marked := Marked(visited);
      ghost var goal := sections + PrintedBelow(heap, range, obj, i, count, marked);
      while i < count
        invariant first <= i && Valid() && visited == old(visited)
        invariant goal == sections + PrintedBelow(heap, range, obj, i, count, marked)
      {
        PrintedSlot(heap, range, obj, i, count, marked, sections);
        if i < |heap[obj].slots| && Follows(heap, Listing, heap[obj].slots[i]) {
          ListSlots(Some(obj), i, heap[obj].slots[i].value.value);
        }
        i := i + 1;
      }
    }
  }

  /** `p` leads from `v` through slots that hold a type, a function or a block; of global only the module's own range
      counts. */
  ghost predicate ListingChain(h: Heap, r: Range, v: Ref, p: seq<Edge>) {
    forall i | 0 <= i < |p| ::
      var o, slot, target := NodeAt(v, p, i), p[i].slot, p[i].target;
      && o < |h| && slot < |h[o].slots| && h[o].slots[slot].value == Some(target) && target < |h|
      && (h[target].kind == TypeObj || h[target].kind == FunctionObj || h[target].kind == BlockObj)
      && (o == r.global ==> r.first <= slot < r.last)
  }

  /** Such a chain leads from global to `w`. */
  ghost predicate ChainLeads(h: Heap, r: Range, w: Ref) {
    exists p :: ListingChain(h, r, r.global, p) && NodeAt(r.global, p, |p|) == w
  }

  predicate HasSection(sections: seq<Section>, w: Ref) {
    exists s :: s in sections && s.obj == w
  }

  lemma ChainIsPath(h: Heap, r: Range, v: Ref, p: seq<Edge>)
    requires ValidHeap(h)
    ensures IsPath(GraphOf(h, Listing, r), v, p) <==> ListingChain(h, r, v, p)
  {
    forall i | 0 <= i < |p|
      ensures var o := NodeAt(v, p, i);
              o < |h| ==> (p[i] in GraphOf(h, Listing, r)[o] <==> ListingChain(h, r, o, [p[i]]))
    {
      var o := NodeAt(v, p, i);
      if o < |h| {
        EdgesExactly(h, Listing, o, if o == r.global then r.first else 0,
                     if o == r.global then r.last else |h[o].slots|);
        assert NodeAt(o, [p[i]], 0) == o;
      }
    }
    if ListingChain(h, r, v, p) {
      forall i | 0 <= i < |p|
        ensures NodeAt(v, p, i) < |h| && ListingChain(h, r, NodeAt(v, p, i), [p[i]])
      {
      }
    }
    if IsPath(GraphOf(h, Listing, r), v, p) {
      forall i | 0 <= i < |p|
        ensures ListingChain(h, r, NodeAt(v, p, i), [p[i]])
      {
      }
      assert forall i | 0 <= i < |p| :: NodeAt(NodeAt(v, p, i), [p[i]], 0) == NodeAt(v, p, i) && [p[i]][0] == p[i];
    }
  }

  /** From clear marks, a section is printed for an object if and only if a chain of slots leads to it from global,
      through the module's own globals and then through any slots that hold a type, a function or a block. */
  lemma ListedExactly(h: Heap, r: Range, w: Ref)
    requires ValidHeap(h) && r.global < |h|
    ensures HasSection(Printed(h, r, None, 0, r.global, {}), w) <==> ChainLeads(h, r, w)
  {
    ListedReachable(h, r, w);
    var g := GraphOf(h, Listing, r);
    if Reaches(g, r.global, {}, w) {
      var p :| IsPath(g, r.global, p) && NodeAt(r.global, p, |p|) == w;
      ChainIsPath(h, r, r.global, p);
    }
    if p :| ListingChain(h, r, r.global, p) && NodeAt(r.global, p, |p|) == w {
      ChainIsPath(h, r, r.global, p);
      assert Avoids(r.global, p, {});
    }
  }

  lemma ListedReachable(h: Heap, r: Range, w: Ref)
    requires ValidHeap(h) && r.global < |h|
    ensures HasSection(Printed(h, r, None, 0, r.global, {}), w) <==>
            Reaches(GraphOf(h, Listing, r), r.global, {}, w)
  {
    var v, printed := r.global, Printed(h, r, None, 0, r.global, {});
    var ps := Visits(GraphOf(h, Listing, r), v, {});
    assert printed == Sections(None, 0, v, ps);
    VisitsCover(GraphOf(h, Listing, r), v, {}, w);
    if p :| p in ps && NodeAt(v, p, |p|) == w {
      var i :| 0 <= i < |ps| && ps[i] == p;
      assert printed[i] == SectionAt(None, 0, v, p) && printed[i] in printed;
    }
    if s :| s in printed && s.obj == w {
      var i :| 0 <= i < |printed| && printed[i] == s;
      assert s == SectionAt(None, 0, v, ps[i]) && ps[i] in ps && NodeAt(v, ps[i], |ps[i]|) == w;
    }
  }

  /** How many sections an object has. */
  function Appearances(sections: seq<Section>, w: Ref): nat {
    if sections == [] then 0
    else Appearances(sections[..|sections| - 1], w) + if sections[|sections| - 1].obj == w then 1 else 0
  }

  /** The paths of `ps` that lead from `v` to `w`. */
  ghost function Leading(v: Ref, ps: seq<seq<Edge>>, w: Ref): set<seq<Edge>> {
    set p | p in ps && NodeAt(v, p, |p|) == w
  }

  lemma {:induction false} AppearsOncePerPath(v: Ref, ps: seq<seq<Edge>>, w: Ref)
    requires Distinct(ps)
    ensures Appearances(Sections(None, 0, v, ps), w) == |Leading(v, ps, w)|
    decreases |ps|
  {
    if ps != [] {
      var n := |ps| - 1;
      AppearsOncePerPath(v, ps[..n], w);
      AppearsAtEnd(v, ps, w, n);
      LeadingLast(v, ps, w, n);
    }
  }

  lemma AppearsAtEnd(v: Ref, ps: seq<seq<Edge>>, w: Ref, n: nat)
    requires n + 1 == |ps|
    ensures Appearances(Sections(None, 0, v, ps), w)
         == Appearances(Sections(None, 0, v, ps[..n]), w) + if NodeAt(v, ps[n], |ps[n]|) == w then 1 else 0
  {
    var sections := Sections(None, 0, v, ps);
    assert sections[..n] == Sections(None, 0, v, ps[..n]);
    assert sections[n] == SectionAt(None, 0, v, ps[n]);
  }

  lemma LeadingLast(v: Ref, ps: seq<seq<Edge>>, w: Ref, n: nat)
    requires n + 1 == |ps| && Distinct(ps)
    ensures |Leading(v, ps, w)| == |Leading(v, ps[..n], w)| + if NodeAt(v, ps[n], |ps[n]|) == w then 1 else 0
  {
    var last, front := ps[n], Leading(v, ps[..n], w);
    assert forall p :: p in ps <==> p in ps[..n] || p == last;
    assert last !in ps[..n];
    assert Leading(v, ps, w) == if NodeAt(v, last, |last|) == w then front + {last} else front;
  }

  /** The chains from global to an object that pass no object twice. */
  ghost function ChainsTo(h: Heap, r: Range, w: Ref): (chains: set<seq<Edge>>)
    requires ValidHeap(h) && r.global < |h|
    ensures forall p :: p in chains <==>
      ListingChain(h, r, r.global, p) && NoRepeats(r.global, p) && NodeAt(r.global, p, |p|) == w
  {
    var g := GraphOf(h, Listing, r);
    forall p
      ensures p in Visits(g, r.global, {}) <==> ListingChain(h, r, r.global, p) && NoRepeats(r.global, p)
    {
      VisitsExactly(g, r.global, {}, p);
      ChainIsPath(h, r, r.global, p);
      assert Avoids(r.global, p, {});
    }
    Leading(r.global, Visits(g, r.global, {}), w)
  }

  /** An object has as many sections as there are chains to it that pass no object twice. */
  lemma ListedOncePerPath(h: Heap, r: Range, w: Ref)
    requires ValidHeap(h) && r.global < |h|
    ensures Appearances(Printed(h, r, None, 0, r.global, {}), w) == |ChainsTo(h, r, w)|
  {
    var g := GraphOf(h, Listing, r);
    forall o | 0 <= o < |g|
      ensures Distinct(g[o])
    {
      EdgesExactly(h, Listing, o, if o == r.global then r.first else 0,
                   if o == r.global then r.last else |h[o].slots|);
    }
    VisitsOnce(g, r.global, {});
    AppearsOncePerPath(r.global, Visits(g, r.global, {}), w);
  }

  // ---- The slot header generator ----

  ghost function Ends(v: Ref, ps: seq<seq<Edge>>): (r: seq<Ref>)
    ensures |r| == |ps|
  {
    seq(|ps|, i requires 0 <= i < |ps| => NodeAt(v, ps[i], |ps[i]|))
  }

  lemma EndsOfPrepend(v: Ref, e: Edge, ps: seq<seq<Edge>>)
    ensures Ends(v, Prepend(e, ps)) == Ends(e.target, ps)
  {
  }

  lemma EndsAppend(v: Ref, a: seq<seq<Edge>>, b: seq<seq<Edge>>)
    ensures Ends(v, a + b) == Ends(v, a) + Ends(v, b)
  {
  }

  /** Through edge `e` come its target, then what lies below the target; the others follow. */
  lemma EndsThrough(v: Ref, e: Edge, below: seq<seq<Edge>>, tail: seq<seq<Edge>>, before: seq<Ref>)
    ensures before + Ends(v, Prepend(e, [[]] + below) + tail)
         == before + [e.target] + Ends(e.target, below) + Ends(v, tail)
  {
    EndsAppend(v, Prepend(e, [[]] + below), tail);
    EndsOfPrepend(v, e, [[]] + below);
    EndsAppend(e.target, [[]], below);
    assert Ends(e.target, [[]]) == [e.target];
  }

  ghost function TypeGraph(h: Heap, m: nat): (g: Graph)
    requires ValidHeap(h)
    ensures |g| == |h| && ValidGraph(g)
    ensures forall o | 0 <= o < |h| :: g[o] == Edges(h, Generator(m), o, 0, |h[o].slots|)
  {
    seq(|h|, o requires 0 <= o < |h| => Edges(h, Generator(m), o, 0, |h[o].slots|))
  }

  /** The types generated below an owner, through its slots `i` up to `hi`. */
  ghost function Generated(h: Heap, m: nat, owner: Ref, i: nat, hi: nat, marked: set<Ref>): seq<Ref>
    requires ValidHeap(h) && owner < |h|
  {
    Ends(owner, VisitsFrom(TypeGraph(h, m), Edges(h, Generator(m), owner, i, hi), marked))
  }

  /** The test on a nested slot: a type of the module in a named slot, not being generated already. */
  predicate Enters(h: Heap, m: nat, owner: Ref, i: nat, visited: seq<bool>)
    requires ValidHeap(h) && owner < |h| && |visited| == |h|
  {
    && i < |h[owner].slots| && Follows(h, Generator(m), h[owner].slots[i])
    && !visited[h[owner].slots[i].value.value]
  }

  lemma GeneratedSkip(h: Heap, m: nat, owner: Ref, i: nat, hi: nat, visited: seq<bool>)
    requires ValidHeap(h) && owner < |h| && |visited| == |h| && i < hi && !Enters(h, m, owner, i, visited)
    ensures Generated(h, m, owner, i, hi, Marked(visited)) == Generated(h, m, owner, i + 1, hi, Marked(visited))
  {
    if i < |h[owner].slots| && Follows(h, Generator(m), h[owner].slots[i]) {
      VisitsFromFirst(TypeGraph(h, m), Edges(h, Generator(m), owner, i, hi), Edge(i, h[owner].slots[i].value.value),
                      Edges(h, Generator(m), owner, i + 1, hi), Marked(visited));
    }
  }

  lemma GeneratedEnter(h: Heap, m: nat, owner: Ref, i: nat, hi: nat, visited: seq<bool>, before: seq<Ref>)
    requires ValidHeap(h) && owner < |h| && |visited| == |h| && i < hi && Enters(h, m, owner, i, visited)
    ensures var nt := h[owner].slots[i].value.value;
            before + Generated(h, m, owner, i, hi, Marked(visited)) ==
            before + [nt] + Generated(h, m, nt, 0, |h[nt].slots|, Marked(visited[nt := true]))
            + Generated(h, m, owner, i + 1, hi, Marked(visited))
  {
    var g, rest, marked := TypeGraph(h, m), Edges(h, Generator(m), owner, i + 1, hi), Marked(visited);
    var e := Edge(i, h[owner].slots[i].value.value);
    MarkOne(visited, e.target);
    VisitsFromFirst(g, Edges(h, Generator(m), owner, i, hi), e, rest, marked);
    EndsThrough(owner, e, VisitsFrom(g, g[e.target], marked + {e.target}), VisitsFrom(g, rest, marked), before);
  }

  class SlotGenerator {
    const heap: Heap
    const module_: nat
    var visited: seq<bool>
    var generated: seq<Ref>

    ghost predicate Valid()
      reads this
    {
      ValidHeap(heap) && |visited| == |heap|
    }

    constructor (heap: Heap, module_: nat)
      requires ValidHeap(heap)
      ensures Valid() && this.heap == heap && this.module_ == module_ && generated == []
      ensures Marked(visited) == {}
    {
      this.heap, this.module_, generated := heap, module_, [];
      visited := seq(|heap|, _ => false);
    }

    /** The slot header of a module: the global type over the module's range, with every mark clear. */
    method GenModule(global: Ref, first: nat, last: nat) returns (rc: int)
      requires Valid() && global < |heap| && Marked(visited) == {} && generated == []
      modifies this
      ensures Valid() && visited == old(visited) && rc == 0 && |generated| > 0 && generated[0] == global
      ensures forall w :: w in generated[1..] <==> TypeChainLeads(heap, module_, global, first, last, w)
    {
      rc := GenType(global, first, last);
      assert generated[1..] == Generated(heap, module_, global, first, last, {});
      forall w
        ensures w in generated[1..] <==> TypeChainLeads(heap, module_, global, first, last, w)
      {
        GeneratedExactly(heap, module_, global, first, last, w);
      }
    }

    /** `genType`: the owner's own definitions, then its nested types. The caller marks a nested type around the
        call, and the error return that the caller tests for never comes. */
    method GenType(owner: Ref, first: nat, last: nat) returns (rc: int)
      requires Valid() && owner < |heap|
      modifies this
      ensures Valid() && visited == old(visited) && rc == 0
      ensures generated == old(generated) + [owner]
                         + Generated(heap, module_, owner, first, last, Marked(visited))
      decreases ClearCount(visited)
    {
      generated := generated + [owner];
      var slot := first;
      ghost var goal := generated + Generated(heap, module_, owner, slot, last, Marked(visited));
      while slot < last
        invariant first <= slot && Valid() && visited == old(visited)
        invariant goal == generated + Generated(heap, module_, owner, slot, last, Marked(visited))
      {
        if Enters(heap, module_, owner, slot, visited) {
          var nt := heap[owner].slots[slot].value.value;
          GeneratedEnter(heap, module_, owner, slot, last, visited, generated);
          MarkOne(visited, nt);
          visited := visited[nt := true];
          var nested := GenType(nt, 0, |heap[nt].slots|);
          if nested < 0 {
            assert false;
          }
          visited := visited[nt := false];
        } else {
          GeneratedSkip(heap, module_, owner, slot, last, visited);
        }
        slot := slot + 1;
      }
      rc := 0;
    }
  }

  lemma GeneratedPath(h: Heap, m: nat, owner: Ref, first: nat, last: nat, w: Ref) returns (p: seq<Edge>)
    requires ValidHeap(h) && owner < |h| && w in Generated(h, m, owner, first, last, {})
    ensures p != [] && first <= p[0].slot < last && IsEdge(h, Generator(m), owner, p[0])
    ensures IsPath(TypeGraph(h, m), p[0].target, p[1..]) && NodeAt(owner, p, |p|) == w
  {
    var g, es := TypeGraph(h, m), Edges(h, Generator(m), owner, first, last);
    var ps := VisitsFrom(g, es, {});
    var i :| 0 <= i < |ps| && Ends(owner, ps)[i] == w;
    p := ps[i];
    assert p in ps;
    VisitsFromExactly(g, es, {}, p);
    EdgesExactly(h, Generator(m), owner, first, last);
  }

  lemma PrependInVisits(g: Graph, es: seq<Edge>, e: Edge, r: seq<Edge>, owner: Ref)
    requires ValidGraph(g) && EdgesIn(|g|, es) && e in es && Simple(g, e.target, {}, r)
    ensures NodeAt(e.target, r, |r|) in Ends(owner, VisitsFrom(g, es, {}))
  {
    var p, ps := [e] + r, VisitsFrom(g, es, {});
    assert p[0] == e && p[1..] == r;
    VisitsFromExactly(g, es, {}, p);
    var i :| 0 <= i < |ps| && ps[i] == p;
    assert Ends(owner, ps)[i] == NodeAt(owner, p, |p|) == NodeAt(e.target, r, |r|);
  }

  lemma ReachableGenerated(h: Heap, m: nat, owner: Ref, first: nat, last: nat, w: Ref, e: Edge)
    requires ValidHeap(h) && owner < |h|
    requires first <= e.slot < last && IsEdge(h, Generator(m), owner, e)
    requires Reaches(TypeGraph(h, m), e.target, {}, w)
    ensures w in Generated(h, m, owner, first, last, {})
  {
    var g, es := TypeGraph(h, m), Edges(h, Generator(m), owner, first, last);
    EdgesExactly(h, Generator(m), owner, first, last);
    var q :| IsPath(g, e.target, q) && Avoids(e.target, q, {}) && NodeAt(e.target, q, |q|) == w;
    var r := LoopErasure(g, e.target, {}, q);
    PrependInVisits(g, es, e, r, owner);
  }

  /** `p` leads from `v` through named slots that hold a type of the module. */
  ghost predicate TypeChain(h: Heap, m: nat, v: Ref, p: seq<Edge>) {
    forall i | 0 <= i < |p| ::
      var o, slot, target := NodeAt(v, p, i), p[i].slot, p[i].target;
      && o < |h| && slot < |h[o].slots| && h[o].slots[slot].value == Some(target) && target < |h|
      && h[o].slots[slot].named && h[target].kind == TypeObj && h[target].module_ == m
  }

  /** Such a chain leads from the owner, through a slot of its range, to `w`. */
  ghost predicate TypeChainLeads(h: Heap, m: nat, owner: Ref, first: nat, last: nat, w: Ref) {
    exists p: seq<Edge> ::
      p != [] && first <= p[0].slot < last && TypeChain(h, m, owner, p) && NodeAt(owner, p, |p|) == w
  }

  lemma TypeChainIsPath(h: Heap, m: nat, v: Ref, p: seq<Edge>)
    requires ValidHeap(h)
    ensures IsPath(TypeGraph(h, m), v, p) <==> TypeChain(h, m, v, p)
  {
    forall i | 0 <= i < |p|
      ensures var o := NodeAt(v, p, i);
              o < |h| ==> (p[i] in TypeGraph(h, m)[o] <==> IsEdge(h, Generator(m), o, p[i]))
    {
      var o := NodeAt(v, p, i);
      if o < |h| {
        EdgesExactly(h, Generator(m), o, 0, |h[o].slots|);
      }
    }
  }

  /** From clear marks, the types generated below the owner are exactly those at the end of a chain of named slots, the
      first of them in the owner's range, through types of the module. */
  lemma GeneratedExactly(h: Heap, m: nat, owner: Ref, first: nat, last: nat, w: Ref)
    requires ValidHeap(h) && owner < |h|
    ensures w in Generated(h, m, owner, first, last, {}) <==> TypeChainLeads(h, m, owner, first, last, w)
  {
    if w in Generated(h, m, owner, first, last, {}) {
      GeneratedHasChain(h, m, owner, first, last, w);
    }
    if p: seq<Edge> :| p != [] && first <= p[0].slot < last && TypeChain(h, m, owner, p) && NodeAt(owner, p, |p|) == w {
      ChainRest(h, m, owner, p);
      ReachableGenerated(h, m, owner, first, last, w, p[0]);
    }
  }

  lemma GeneratedHasChain(h: Heap, m: nat, owner: Ref, first: nat, last: nat, w: Ref)
    requires ValidHeap(h) && owner < |h| && w in Generated(h, m, owner, first, last, {})
    ensures TypeChainLeads(h, m, owner, first, last, w)
  {
    var p := GeneratedPath(h, m, owner, first, last, w);
    ChainFrom(h, m, owner, p[0], p[1..]);
    assert [p[0]] + p[1..] == p;
  }

  lemma ChainFrom(h: Heap, m: nat, owner: Ref, e: Edge, q: seq<Edge>)
    requires ValidHeap(h) && owner < |h| && IsEdge(h, Generator(m), owner, e) && IsPath(TypeGraph(h, m), e.target, q)
    ensures TypeChain(h, m, owner, [e] + q)
  {
    var p := [e] + q;
    TypeChainIsPath(h, m, e.target, q);
    NodeShift(owner, p);
    assert p[1..] == q;
    forall i | 0 <= i < |p|
      ensures var o, slot, target := NodeAt(owner, p, i), p[i].slot, p[i].target;
              && o < |h| && slot < |h[o].slots| && h[o].slots[slot].value == Some(target) && target < |h|
              && h[o].slots[slot].named && h[target].kind == TypeObj && h[target].module_ == m
    {
      if i > 0 {
        assert p[i] == q[i - 1] && NodeAt(owner, p, i) == NodeAt(e.target, q, i - 1);
      }
    }
  }

  lemma ChainRest(h: Heap, m: nat, owner: Ref, p: seq<Edge>)
    requires ValidHeap(h) && owner < |h| && p != [] && TypeChain(h, m, owner, p)
    ensures IsEdge(h, Generator(m), owner, p[0])
    ensures Reaches(TypeGraph(h, m), p[0].target, {}, NodeAt(owner, p, |p|))
  {
    var q := p[1..];
    NodeShift(owner, p);
    assert NodeAt(owner, p, 0) == owner;
    forall i | 0 <= i < |q|
      ensures var o, slot, target := NodeAt(p[0].target, q, i), q[i].slot, q[i].target;
              && o < |h| && slot < |h[o].slots| && h[o].slots[slot].value == Some(target) && target < |h|
              && h[o].slots[slot].named && h[target].kind == TypeObj && h[target].module_ == m
    {
      assert q[i] == p[i + 1] && NodeAt(p[0].target, q, i) == NodeAt(owner, p, i + 1);
    }
    TypeChainIsPath(h, m, p[0].target, q);
    assert Avoids(p[0].target, q, {}) && NodeAt(p[0].target, q, |q|) == NodeAt(owner, p, |p|);
  }

  /** Every edge of the generator leads to a type of the module. */
  lemma TypesOnly(h: Heap, m: nat, owner: Ref, p: seq<Edge>)
    requires ValidHeap(h) && owner < |h| && p != []
    requires IsEdge(h, Generator(m), owner, p[0]) && IsPath(TypeGraph(h, m), p[0].target, p[1..])
    ensures var w := NodeAt(owner, p, |p|); w < |h| && h[w].kind == TypeObj && h[w].module_ == m
  {
    var q := p[1..];
    if q != [] {
      var u := NodeAt(p[0].target, q, |q| - 1);
      assert u < |h| && q[|q| - 1] in TypeGraph(h, m)[u];
      EdgesExactly(h, Generator(m), u, 0, |h[u].slots|);
      assert IsEdge(h, Generator(m), u, q[|q| - 1]);
    }
  }
}
