/** Log redaction of arbitrary, possibly cyclic object graphs. */
module Redact {
  import opened Text

  // ------------------------------------------------------------------ the heap

  type Id = nat

  /** Anything that is not an object: null, booleans, numbers, strings. */
  datatype Prim = Null | Bool(b: bool) | Number(n: real) | Str(s: string)

  datatype Value = P(prim: Prim) | Ref(id: Id)

  datatype Node = Arr(items: seq<Value>) | Obj(entries: seq<(string, Value)>)

  type Graph = map<Id, Node>

  function Children(node: Node): seq<Value> {
    match node
    case Arr(items) => items
    case Obj(entries) => seq(|entries|, i requires 0 <= i < |entries| => entries[i].1)
  }

  predicate Live(g: Graph, v: Value) {
    v.Ref? ==> v.id in g
  }

  /** No dangling references. */
  ghost predicate Closed(g: Graph) {
    forall id :: id in g ==> forall v :: v in Children(g[id]) ==> Live(g, v)
  }

  // ---------------------------------------------------------------- the output

  datatype Out = Leaf(prim: Prim) | List(items: seq<Out>) | Record(entries: seq<OutEntry>)

  datatype OutEntry = OutEntry(key: string, value: Out)

  const MARKER := Leaf(Str("[REDACTED]"))
  const TRUNCATED := Leaf(Str("[Truncated]"))
  const CIRCULAR := Leaf(Str("[Circular]"))

  const PATTERNS := ["password", "secret", "token", "authorization", "cookie", "apikey", "api_key", "x-api-key",
                     "ssn", "creditcard", "card_number"]

  function Lower(c: char): char {
    if 'A' <= c <= 'Z' then c - 'A' + 'a' else c
  }

  function LowerCase(s: string): string {
    seq(|s|, i requires 0 <= i < |s| => Lower(s[i]))
  }

  predicate Sensitive(key: string) {
    exists p :: p in PATTERNS && Includes(LowerCase(key), p)
  }

  // ------------------------------------------------------------- specification

  /** The redacted value, and the objects seen by then. */
  function Redact(g: Graph, v: Value, depth: int, seen: set<Id>): (Out, set<Id>)
    requires Closed(g) && Live(g, v)
    decreases if depth < 0 then 0 else depth, 1, 0
  {
    if v.P? then (Leaf(v.prim), seen)
    else if depth <= 0 then (TRUNCATED, seen)
    else if v.id in seen then (CIRCULAR, seen)
    else match g[v.id]
      case Arr(items) =>
        assert forall x :: x in items ==> x in Children(g[v.id]);
        var r := RedactItems(g, items, depth - 1, seen + {v.id});
        (List(r.0), r.1)
      case Obj(entries) =>
        EntriesAreChildren(g, v.id);
        var r := RedactEntries(g, entries, depth - 1, seen + {v.id});
        (Record(r.0), r.1)
  }

  lemma EntriesAreChildren(g: Graph, id: Id)
    requires Closed(g) && id in g && g[id].Obj?
    ensures forall e :: e in g[id].entries ==> Live(g, e.1)
  {
    var entries := g[id].entries;
    forall e | e in entries ensures Live(g, e.1) {
      var i :| 0 <= i < |entries| && entries[i] == e;
      assert Children(g[id])[i] == e.1;
    }
  }

  function RedactItems(g: Graph, items: seq<Value>, depth: int, seen: set<Id>): (r: (seq<Out>, set<Id>))
    requires Closed(g) && forall x :: x in items ==> Live(g, x)
    ensures |r.0| == |items|
    decreases if depth < 0 then 0 else depth, 2, |items|
  {
    if items == [] then ([], seen)
    else
      var head := Redact(g, items[0], depth, seen);
      var tail := RedactItems(g, items[1..], depth, head.1);
      ([head.0] + tail.0, tail.1)
  }

  function RedactEntries(g: Graph, entries: seq<(string, Value)>, depth: int, seen: set<Id>)
    : (r: (seq<OutEntry>, set<Id>))
    requires Closed(g) && forall e :: e in entries ==> Live(g, e.1)
    ensures |r.0| == |entries|
    decreases if depth < 0 then 0 else depth, 2, |entries|
  {
    if entries == [] then ([], seen)
    else
      var head := if Sensitive(entries[0].0) then (MARKER, seen) else Redact(g, entries[0].1, depth, seen);
      var tail := RedactEntries(g, entries[1..], depth, head.1);
      ([OutEntry(entries[0].0, head.0)] + tail.0, tail.1)
  }

  // ------------------------------------------------------------- the algorithm

  /** The traversal with its mutable set of objects already seen. */
  class Redactor {
    var seen: set<Id>

    constructor ()
      ensures seen == {}
    {
      seen := {};
    }

    method RedactInternal(g: Graph, v: Value, depth: int) returns (out: Out)
      requires Closed(g) && Live(g, v)
      modifies this
      ensures (out, seen) == Redact(g, v, depth, old(seen))
      decreases if depth < 0 then 0 else depth, 1, 0
    {
      hide RedactItems, RedactEntries;
      if v.P? { return Leaf(v.prim); }
      if depth <= 0 { return TRUNCATED; }
      if v.id in seen { return CIRCULAR; }
      seen := seen + {v.id};
      match g[v.id] {
        case Arr(items) =>
          ChildrenLive(g, v.id);
          var outs := RedactArray(g, items, depth - 1);
          out := List(outs);
        case Obj(entries) =>
          EntriesAreChildren(g, v.id);
          var outs := RedactObject(g, entries, depth - 1);
          out := Record(outs);
      }
    }

    method RedactArray(g: Graph, items: seq<Value>, depth: int) returns (outs: seq<Out>)
      requires Closed(g) && forall x :: x in items ==> Live(g, x)
      modifies this
      ensures (outs, seen) == RedactItems(g, items, depth, old(seen))
      decreases if depth < 0 then 0 else depth, 2, 0
    {
      hide Closed, Redact;
      outs := [];
      assert items[0..] == items;
      ghost var all := RedactItems(g, items, depth, seen);
      for i := 0 to |items|
        invariant all.0 == outs + RedactItems(g, items[i..], depth, seen).0
        invariant all.1 == RedactItems(g, items[i..], depth, seen).1
      {
        assert items[i..][0] == items[i] && items[i..][1..] == items[i + 1..];
        var item := RedactInternal(g, items[i], depth);
        Assoc(outs, [item], RedactItems(g, items[i + 1..], depth, seen).0);
        outs := outs + [item];
      }
      assert items[|items|..] == [] && outs + [] == outs;
      assert RedactItems(g, [], depth, seen) == ([], seen);
      assert all == (all.0, all.1);
    }

    method RedactObject(g: Graph, entries: seq<(string, Value)>, depth: int) returns (outs: seq<OutEntry>)
      requires Closed(g) && forall e :: e in entries ==> Live(g, e.1)
      modifies this
      ensures (outs, seen) == RedactEntries(g, entries, depth, old(seen))
      decreases if depth < 0 then 0 else depth, 2, 0
    {
      hide Closed, Redact, Sensitive;
      outs := [];
      assert entries[0..] == entries;
      ghost var all := RedactEntries(g, entries, depth, seen);
      for i := 0 to |entries|
        invariant all.0 == outs + RedactEntries(g, entries[i..], depth, seen).0
        invariant all.1 == RedactEntries(g, entries[i..], depth, seen).1
      {
        assert entries[i..][0] == entries[i] && entries[i..][1..] == entries[i + 1..];
        var val := MARKER;
        if !Sensitive(entries[i].0) {
          val := RedactInternal(g, entries[i].1, depth);
        }
        var entry := OutEntry(entries[i].0, val);
        Assoc(outs, [entry], RedactEntries(g, entries[i + 1..], depth, seen).0);
        outs := outs + [entry];
      }
      assert entries[|entries|..] == [] && outs + [] == outs;
      assert RedactEntries(g, [], depth, seen) == ([], seen);
      assert all == (all.0, all.1);
    }
  }

  const MAX_DEPTH := 8

  method RedactValue(g: Graph, v: Value, maxDepth: int := MAX_DEPTH) returns (out: Out)
    requires Closed(g) && Live(g, v)
    ensures out == Redact(g, v, maxDepth, {}).0
  {
    var r := new Redactor();
    out := r.RedactInternal(g, v, maxDepth);
  }

  // ----------------------------------------------------- each object at most once

  /** Arrays and objects in an output. */
  function Composites(o: Out): nat {
    match o
    case Leaf(_) => 0
    case List(items) => 1 + CompositesOfItems(items)
    case Record(entries) => 1 + CompositesOfEntries(entries)
  }

  function CompositesOfItems(items: seq<Out>): nat {
    if items == [] then 0 else Composites(items[0]) + CompositesOfItems(items[1..])
  }

  function CompositesOfEntries(entries: seq<OutEntry>): nat {
    if entries == [] then 0 else Composites(entries[0].value) + CompositesOfEntries(entries[1..])
  }

  /** Every array or object written is a new object of the graph: none is expanded twice. */
  lemma {:induction false} ExpandedOnce(g: Graph, v: Value, depth: int, seen: set<Id>)
    requires Closed(g) && Live(g, v)
    ensures var r := Redact(g, v, depth, seen);
      seen <= r.1 && r.1 <= seen + g.Keys && Composites(r.0) == |r.1| - |seen|
    decreases if depth < 0 then 0 else depth, 1, 0
  {
    if v.Ref? && depth > 0 && v.id !in seen {
      match g[v.id] {
        case Arr(items) =>
          assert forall x :: x in items ==> x in Children(g[v.id]);
          ItemsExpandedOnce(g, items, depth - 1, seen + {v.id});
        case Obj(entries) =>
          EntriesAreChildren(g, v.id);
          EntriesExpandedOnce(g, entries, depth - 1, seen + {v.id});
      }
    }
  }

  lemma {:induction false} ItemsExpandedOnce(g: Graph, items: seq<Value>, depth: int, seen: set<Id>)
    requires Closed(g) && forall x :: x in items ==> Live(g, x)
    ensures var r := RedactItems(g, items, depth, seen);
      seen <= r.1 && r.1 <= seen + g.Keys && CompositesOfItems(r.0) == |r.1| - |seen|
    decreases if depth < 0 then 0 else depth, 2, |items|
  {
    if items != [] {
      ExpandedOnce(g, items[0], depth, seen);
      var head := Redact(g, items[0], depth, seen);
      ItemsExpandedOnce(g, items[1..], depth, head.1);
      var tail := RedactItems(g, items[1..], depth, head.1);
      assert ([head.0] + tail.0)[1..] == tail.0;
    }
  }

  lemma {:induction false} EntriesExpandedOnce(g: Graph, entries: seq<(string, Value)>, depth: int, seen: set<Id>)
    requires Closed(g) && forall e :: e in entries ==> Live(g, e.1)
    ensures var r := RedactEntries(g, entries, depth, seen);
      seen <= r.1 && r.1 <= seen + g.Keys && CompositesOfEntries(r.0) == |r.1| - |seen|
    decreases if depth < 0 then 0 else depth, 2, |entries|
  {
    hide Sensitive;
    if entries != [] {
      if !Sensitive(entries[0].0) { ExpandedOnce(g, entries[0].1, depth, seen); }
      var head := if Sensitive(entries[0].0) then (MARKER, seen) else Redact(g, entries[0].1, depth, seen);
      EntriesExpandedOnce(g, entries[1..], depth, head.1);
      var tail := RedactEntries(g, entries[1..], depth, head.1);
      assert ([OutEntry(entries[0].0, head.0)] + tail.0)[1..] == tail.0;
    }
  }

  /** The output has no more arrays and objects than the graph, however it loops or shares. */
  lemma OutputIsBounded(g: Graph, v: Value, depth: int)
    requires Closed(g) && Live(g, v)
    ensures Composites(Redact(g, v, depth, {}).0) <= |g|
  {
    ExpandedOnce(g, v, depth, {});
    var r := Redact(g, v, depth, {});
    SubsetSize(r.1, g.Keys);
  }

  lemma SubsetSize(a: set<Id>, b: set<Id>)
    requires a <= b
    ensures |a| <= |b|
  {
    assert b == a + (b - a);
  }

  // ----------------------------------------------------------- depth and masking

  /** Nesting of arrays and objects is at most `depth`. */
  predicate Within(o: Out, depth: int)
    decreases o
  {
    match o
    case Leaf(_) => true
    case List(items) => depth > 0 && forall x :: x in items ==> Within(x, depth - 1)
    case Record(entries) => depth > 0 && forall e :: e in entries ==> Within(e.value, depth - 1)
  }

  /** Every sensitive key, at any level, holds the marker. */
  predicate Masked(o: Out)
    decreases o
  {
    match o
    case Leaf(_) => true
    case List(items) => forall x :: x in items ==> Masked(x)
    case Record(entries) => forall e :: e in entries ==> Masked(e.value) && (Sensitive(e.key) ==> e.value == MARKER)
  }

  lemma {:induction false} OutputIsMasked(g: Graph, v: Value, depth: int, seen: set<Id>)
    requires Closed(g) && Live(g, v)
    ensures var o := Redact(g, v, depth, seen).0; Within(o, depth) && Masked(o)
    decreases if depth < 0 then 0 else depth, 1, 0
  {
    hide Sensitive;
    if v.Ref? && depth > 0 && v.id !in seen {
      match g[v.id] {
        case Arr(items) =>
          assert forall x :: x in items ==> x in Children(g[v.id]);
          ItemsAreMasked(g, items, depth - 1, seen + {v.id});
        case Obj(entries) =>
          EntriesAreChildren(g, v.id);
          EntriesAreMasked(g, entries, depth - 1, seen + {v.id});
      }
    }
  }

  lemma {:induction false} ItemsAreMasked(g: Graph, items: seq<Value>, depth: int, seen: set<Id>)
    requires Closed(g) && forall x :: x in items ==> Live(g, x)
    ensures forall o :: o in RedactItems(g, items, depth, seen).0 ==> Within(o, depth) && Masked(o)
    decreases if depth < 0 then 0 else depth, 2, |items|
  {
    if items != [] {
      OutputIsMasked(g, items[0], depth, seen);
      ItemsAreMasked(g, items[1..], depth, Redact(g, items[0], depth, seen).1);
    }
  }

  lemma {:induction false} EntriesAreMasked(g: Graph, entries: seq<(string, Value)>, depth: int, seen: set<Id>)
    requires Closed(g) && forall e :: e in entries ==> Live(g, e.1)
    ensures forall e :: e in RedactEntries(g, entries, depth, seen).0 ==>
              Within(e.value, depth) && Masked(e.value) && (Sensitive(e.key) ==> e.value == MARKER)
    decreases if depth < 0 then 0 else depth, 2, |entries|
  {
    hide Sensitive;
    if entries != [] {
      if !Sensitive(entries[0].0) { OutputIsMasked(g, entries[0].1, depth, seen); }
      var head := if Sensitive(entries[0].0) then (MARKER, seen) else Redact(g, entries[0].1, depth, seen);
      EntriesAreMasked(g, entries[1..], depth, head.1);
    }
  }

  // ------------------------------------------------------------- non-interference

  /** `f` renames objects of one graph to objects of another, one to one. */
  predicate Injective(f: map<Id, Id>) {
    forall a, b :: a in f && b in f && f[a] == f[b] ==> a == b
  }

  predicate SameValue(f: map<Id, Id>, v: Value, w: Value) {
    match (v, w)
    case (P(x), P(y)) => x == y
    case (Ref(a), Ref(b)) => a in f && f[a] == b
    case _ => false
  }

  /** The nodes agree, except that values under sensitive keys may be anything. */
  predicate SameNode(f: map<Id, Id>, m: Node, n: Node) {
    match (m, n)
    case (Arr(xs), Arr(ys)) =>
      |xs| == |ys| && forall i :: 0 <= i < |xs| ==> SameValue(f, xs[i], ys[i])
    case (Obj(xs), Obj(ys)) =>
      |xs| == |ys| && forall i :: 0 <= i < |xs| ==> SameEntry(f, xs[i], ys[i])
    case _ => false
  }

  predicate SameEntry(f: map<Id, Id>, x: (string, Value), y: (string, Value)) {
    x.0 == y.0 && (Sensitive(x.0) || SameValue(f, x.1, y.1))
  }

  ghost predicate SameGraph(f: map<Id, Id>, g: Graph, h: Graph) {
    && Injective(f)
    && forall a :: a in f ==> a in g && f[a] in h && SameNode(f, g[a], h[f[a]])
  }

  ghost predicate SameSeen(f: map<Id, Id>, s: set<Id>, t: set<Id>) {
    forall a :: a in f ==> (a in s <==> f[a] in t)
  }

  /**
   * Graphs that agree up to the names of objects and whatever hangs below
   * sensitive keys have the same redaction: nothing sensitive leaks.
   */
  lemma {:induction false} NonInterference(f: map<Id, Id>, g: Graph, h: Graph, v: Value, w: Value, depth: int,
                                           s: set<Id>, t: set<Id>)
    requires Closed(g) && Closed(h) && Live(g, v) && Live(h, w)
    requires SameGraph(f, g, h) && SameValue(f, v, w) && SameSeen(f, s, t)
    ensures Redact(g, v, depth, s).0 == Redact(h, w, depth, t).0
    ensures SameSeen(f, Redact(g, v, depth, s).1, Redact(h, w, depth, t).1)
    decreases if depth < 0 then 0 else depth, 1, 0
  {
    hide Sensitive, Closed;
    if v.Ref? && depth > 0 && v.id !in s {
      var m, n := g[v.id], h[w.id];
      assert SameNode(f, m, n);
      SeenOneMore(f, s, t, v.id);
      match m {
        case Arr(items) =>
          ChildrenLive(g, v.id);
          ChildrenLive(h, w.id);
          ItemsNonInterference(f, g, h, items, n.items, depth - 1, s + {v.id}, t + {w.id});
        case Obj(entries) =>
          EntriesAreChildren(g, v.id);
          EntriesAreChildren(h, w.id);
          EntriesNonInterference(f, g, h, entries, n.entries, depth - 1, s + {v.id}, t + {w.id});
      }
    }
  }

  lemma ChildrenLive(g: Graph, id: Id)
    requires Closed(g) && id in g && g[id].Arr?
    ensures forall x :: x in g[id].items ==> Live(g, x)
  {
    assert forall x :: x in g[id].items ==> x in Children(g[id]);
  }

  lemma SeenOneMore(f: map<Id, Id>, s: set<Id>, t: set<Id>, a: Id)
    requires Injective(f) && SameSeen(f, s, t) && a in f
    ensures SameSeen(f, s + {a}, t + {f[a]})
  {
    forall b | b in f ensures b in s + {a} <==> f[b] in t + {f[a]} {
      assert f[b] == f[a] ==> b == a;
    }
  }

  lemma {:induction false} ItemsNonInterference(f: map<Id, Id>, g: Graph, h: Graph, xs: seq<Value>, ys: seq<Value>,
                                                depth: int, s: set<Id>, t: set<Id>)
    requires Closed(g) && Closed(h)
    requires forall x :: x in xs ==> Live(g, x)
    requires forall y :: y in ys ==> Live(h, y)
    requires SameGraph(f, g, h) && SameSeen(f, s, t)
    requires |xs| == |ys| && forall i :: 0 <= i < |xs| ==> SameValue(f, xs[i], ys[i])
    ensures RedactItems(g, xs, depth, s).0 == RedactItems(h, ys, depth, t).0
    ensures SameSeen(f, RedactItems(g, xs, depth, s).1, RedactItems(h, ys, depth, t).1)
    decreases if depth < 0 then 0 else depth, 2, |xs|
  {
    hide SameGraph, SameSeen, Closed, Redact, SameValue;
    if xs != [] {
      NonInterference(f, g, h, xs[0], ys[0], depth, s, t);
      ItemsNonInterference(f, g, h, xs[1..], ys[1..], depth, Redact(g, xs[0], depth, s).1, Redact(h, ys[0], depth, t).1);
    }
  }

  lemma {:induction false} EntriesNonInterference(f: map<Id, Id>, g: Graph, h: Graph, xs: seq<(string, Value)>,
                                                  ys: seq<(string, Value)>, depth: int, s: set<Id>, t: set<Id>)
    requires Closed(g) && Closed(h)
    requires forall x :: x in xs ==> Live(g, x.1)
    requires forall y :: y in ys ==> Live(h, y.1)
    requires SameGraph(f, g, h) && SameSeen(f, s, t)
    requires |xs| == |ys| && forall i :: 0 <= i < |xs| ==> SameEntry(f, xs[i], ys[i])
    ensures RedactEntries(g, xs, depth, s).0 == RedactEntries(h, ys, depth, t).0
    ensures SameSeen(f, RedactEntries(g, xs, depth, s).1, RedactEntries(h, ys, depth, t).1)
    decreases if depth < 0 then 0 else depth, 2, |xs|
  {
    hide SameGraph, SameSeen, Closed, Redact, SameValue, Sensitive;
    if xs != [] {
      var x, y := xs[0], ys[0];
      assert SameEntry(f, x, y);
      if !Sensitive(x.0) { NonInterference(f, g, h, x.1, y.1, depth, s, t); }
      var s', t' := if Sensitive(x.0) then s else Redact(g, x.1, depth, s).1,
                    if Sensitive(x.0) then t else Redact(h, y.1, depth, t).1;
      EntriesNonInterference(f, g, h, xs[1..], ys[1..], depth, s', t');
    }
  }

  // ------------------------------------------------------------------------ trees

  /** A tree-shaped value, each array and object with its identity. */
  datatype Tree = TLeaf(prim: Prim) | TArr(id: Id, items: seq<Tree>) | TObj(id: Id, entries: seq<TreeEntry>)

  datatype TreeEntry = TreeEntry(key: string, value: Tree)

  /** The redaction a reader expects: the same tree with sensitive entries masked. */
  function MaskTree(t: Tree): Out {
    match t
    case TLeaf(p) => Leaf(p)
    case TArr(_, items) => List(MaskItems(items))
    case TObj(_, entries) => Record(MaskEntries(entries))
  }

  function MaskItems(items: seq<Tree>): seq<Out> {
    if items == [] then [] else [MaskTree(items[0])] + MaskItems(items[1..])
  }

  function MaskEntries(entries: seq<TreeEntry>): seq<OutEntry> {
    if entries == [] then []
    else [OutEntry(entries[0].key, if Sensitive(entries[0].key) then MARKER else MaskTree(entries[0].value))] + MaskEntries(entries[1..])
  }

  function Root(t: Tree): Value {
    match t
    case TLeaf(p) => P(p)
    case TArr(id, _) => Ref(id)
    case TObj(id, _) => Ref(id)
  }

  function Ids(t: Tree): set<Id> {
    match t
    case TLeaf(_) => {}
    case TArr(id, items) => {id} + IdsOfItems(items)
    case TObj(id, entries) => {id} + IdsOfEntries(entries)
  }

  function IdsOfItems(items: seq<Tree>): set<Id> {
    if items == [] then {} else Ids(items[0]) + IdsOfItems(items[1..])
  }

  function IdsOfEntries(entries: seq<TreeEntry>): set<Id> {
    if entries == [] then {} else Ids(entries[0].value) + IdsOfEntries(entries[1..])
  }

  /** `g` contains the tree, no object shared and nesting at most `depth`. */
  predicate Holds(g: Graph, t: Tree, depth: int)
    decreases t, 0
  {
    match t
    case TLeaf(_) => true
    case TArr(id, items) =>
      depth > 0 && id in g && id !in IdsOfItems(items) && HoldsItems(g, items, depth - 1) &&
      g[id].Arr? && |g[id].items| == |items| && forall i :: 0 <= i < |items| ==> g[id].items[i] == Root(items[i])
    case TObj(id, entries) =>
      depth > 0 && id in g && id !in IdsOfEntries(entries) && HoldsEntries(g, entries, depth - 1) &&
      g[id].Obj? && |g[id].entries| == |entries| &&
      forall i :: 0 <= i < |entries| ==> g[id].entries[i] == (entries[i].key, Root(entries[i].value))
  }

  predicate HoldsItems(g: Graph, items: seq<Tree>, depth: int)
    decreases items, 1
  {
    items == [] ||
    (Holds(g, items[0], depth) && Ids(items[0]) !! IdsOfItems(items[1..]) && HoldsItems(g, items[1..], depth))
  }

  predicate HoldsEntries(g: Graph, entries: seq<TreeEntry>, depth: int)
    decreases entries, 1
  {
    entries == [] ||
    (Holds(g, entries[0].value, depth) && Ids(entries[0].value) !! IdsOfEntries(entries[1..]) &&
     HoldsEntries(g, entries[1..], depth))
  }

  /** On a tree within the depth limit, redaction is the plain structural one. */
  lemma {:induction false} TreesAreMaskedStructurally(g: Graph, t: Tree, depth: int, seen: set<Id>)
    requires Closed(g) && Live(g, Root(t)) && Holds(g, t, depth) && seen !! Ids(t)
    ensures var r := Redact(g, Root(t), depth, seen);
      r.0 == MaskTree(t) && r.1 <= seen + Ids(t)
    decreases if depth < 0 then 0 else depth, 1, 0
  {
    hide Sensitive;
    match t {
      case TLeaf(_) =>
      case TArr(id, items) =>
        ChildrenLive(g, id);
        ItemsMaskedStructurally(g, g[id].items, items, depth - 1, seen + {id});
      case TObj(id, entries) =>
        EntriesAreChildren(g, id);
        EntriesMaskedStructurally(g, g[id].entries, entries, depth - 1, seen + {id});
    }
  }

  lemma {:induction false} ItemsMaskedStructurally(g: Graph, vs: seq<Value>, items: seq<Tree>, depth: int, seen: set<Id>)
    requires Closed(g) && forall v :: v in vs ==> Live(g, v)
    requires |vs| == |items| && forall i :: 0 <= i < |items| ==> vs[i] == Root(items[i])
    requires HoldsItems(g, items, depth) && seen !! IdsOfItems(items)
    ensures var r := RedactItems(g, vs, depth, seen);
      r.0 == MaskItems(items) && r.1 <= seen + IdsOfItems(items)
    decreases if depth < 0 then 0 else depth, 2, |items|
  {
    hide Redact, MaskTree, Ids, Holds, Closed;
    if items != [] {
      assert vs[0] == Root(items[0]);
      TreesAreMaskedStructurally(g, items[0], depth, seen);
      ItemsMaskedStructurally(g, vs[1..], items[1..], depth, Redact(g, vs[0], depth, seen).1);
    }
  }

  lemma {:induction false} EntriesMaskedStructurally(g: Graph, vs: seq<(string, Value)>, entries: seq<TreeEntry>,
                                                     depth: int, seen: set<Id>)
    requires Closed(g) && forall e :: e in vs ==> Live(g, e.1)
    requires |vs| == |entries| && forall i :: 0 <= i < |entries| ==> vs[i] == (entries[i].key, Root(entries[i].value))
    requires HoldsEntries(g, entries, depth) && seen !! IdsOfEntries(entries)
    ensures var r := RedactEntries(g, vs, depth, seen);
      r.0 == MaskEntries(entries) && r.1 <= seen + IdsOfEntries(entries)
    decreases if depth < 0 then 0 else depth, 2, |entries|
  {
    hide Redact, MaskTree, Ids, Holds, Closed, Sensitive;
    if entries != [] {
      assert vs[0] == (entries[0].key, Root(entries[0].value));
      assert Live(g, vs[0].1);
      TreesAreMaskedStructurally(g, entries[0].value, depth, seen);
      var seen' := if Sensitive(vs[0].0) then seen else Redact(g, vs[0].1, depth, seen).1;
      EntriesMaskedStructurally(g, vs[1..], entries[1..], depth, seen');
    }
  }

  // ------------------------------------------------ when being seen makes no difference

  /** The value cut off at `depth` and masked, as if nothing had been seen before. */
  function Unfold(g: Graph, v: Value, depth: int): Out
    requires Closed(g) && Live(g, v)
    decreases if depth < 0 then 0 else depth, 1, 0
  {
    if v.P? then Leaf(v.prim)
    else if depth <= 0 then TRUNCATED
    else match g[v.id]
      case Arr(items) =>
        assert forall x :: x in items ==> x in Children(g[v.id]);
        List(UnfoldItems(g, items, depth - 1))
      case Obj(entries) =>
        EntriesAreChildren(g, v.id);
        Record(UnfoldEntries(g, entries, depth - 1))
  }

  function UnfoldItems(g: Graph, items: seq<Value>, depth: int): seq<Out>
    requires Closed(g) && forall x :: x in items ==> Live(g, x)
    decreases if depth < 0 then 0 else depth, 2, |items|
  {
    if items == [] then [] else [Unfold(g, items[0], depth)] + UnfoldItems(g, items[1..], depth)
  }

  function UnfoldEntries(g: Graph, entries: seq<(string, Value)>, depth: int): seq<OutEntry>
    requires Closed(g) && forall e :: e in entries ==> Live(g, e.1)
    decreases if depth < 0 then 0 else depth, 2, |entries|
  {
    if entries == [] then []
    else [OutEntry(entries[0].0, if Sensitive(entries[0].0) then MARKER else Unfold(g, entries[0].1, depth))]
         + UnfoldEntries(g, entries[1..], depth)
  }

  /** The objects that the unfolding meets at a positive depth, in order. */
  function Met(g: Graph, v: Value, depth: int): seq<Id>
    requires Closed(g) && Live(g, v)
    decreases if depth < 0 then 0 else depth, 1, 0
  {
    if v.P? || depth <= 0 then []
    else match g[v.id]
      case Arr(items) =>
        assert forall x :: x in items ==> x in Children(g[v.id]);
        [v.id] + MetInItems(g, items, depth - 1)
      case Obj(entries) =>
        EntriesAreChildren(g, v.id);
        [v.id] + MetInEntries(g, entries, depth - 1)
  }

  function MetInItems(g: Graph, items: seq<Value>, depth: int): seq<Id>
    requires Closed(g) && forall x :: x in items ==> Live(g, x)
    decreases if depth < 0 then 0 else depth, 2, |items|
  {
    if items == [] then [] else Met(g, items[0], depth) + MetInItems(g, items[1..], depth)
  }

  function MetInEntries(g: Graph, entries: seq<(string, Value)>, depth: int): seq<Id>
    requires Closed(g) && forall e :: e in entries ==> Live(g, e.1)
    decreases if depth < 0 then 0 else depth, 2, |entries|
  {
    if entries == [] then []
    else (if Sensitive(entries[0].0) then [] else Met(g, entries[0].1, depth)) + MetInEntries(g, entries[1..], depth)
  }

  /** Every id is new when its turn comes. */
  predicate New(ids: seq<Id>, seen: set<Id>) {
    ids == [] || (ids[0] !in seen && New(ids[1..], seen + {ids[0]}))
  }

  function Added(ids: seq<Id>, seen: set<Id>): set<Id> {
    if ids == [] then seen else Added(ids[1..], seen + {ids[0]})
  }

  lemma {:induction false} NewAppend(a: seq<Id>, b: seq<Id>, seen: set<Id>)
    ensures New(a + b, seen) <==> New(a, seen) && New(b, Added(a, seen))
    ensures Added(a + b, seen) == Added(b, Added(a, seen))
    decreases |a|
  {
    if a == [] {
      assert a + b == b;
    } else {
      assert (a + b)[1..] == a[1..] + b;
      NewAppend(a[1..], b, seen + {a[0]});
    }
  }

  lemma NewCons(id: Id, rest: seq<Id>, seen: set<Id>)
    ensures New([id] + rest, seen) <==> id !in seen && New(rest, seen + {id})
    ensures Added([id] + rest, seen) == Added(rest, seen + {id})
  {
    assert ([id] + rest)[1..] == rest;
  }

  /** From any set of objects already seen: the output is the unfolding exactly when all it meets is new. */
  lemma {:induction false} UnfoldsExactly(g: Graph, v: Value, depth: int, seen: set<Id>)
    requires Closed(g) && Live(g, v)
    ensures var r := Redact(g, v, depth, seen);
      (r.0 == Unfold(g, v, depth) <==> New(Met(g, v, depth), seen)) &&
      (r.0 == Unfold(g, v, depth) ==> r.1 == Added(Met(g, v, depth), seen))
    decreases if depth < 0 then 0 else depth, 1, 0
  {
    hide New, Added, Closed;
    if v.P? || depth <= 0 {
      assert New([], seen) && Added([], seen) == seen by { NothingMet(seen); }
    } else {
      match g[v.id] {
        case Arr(items) =>
          ChildrenLive(g, v.id);
          NewCons(v.id, MetInItems(g, items, depth - 1), seen);
          if v.id !in seen { ItemsUnfoldExactly(g, items, depth - 1, seen + {v.id}); }
        case Obj(entries) =>
          EntriesAreChildren(g, v.id);
          NewCons(v.id, MetInEntries(g, entries, depth - 1), seen);
          if v.id !in seen { EntriesUnfoldExactly(g, entries, depth - 1, seen + {v.id}); }
      }
    }
  }

  lemma NothingMet(seen: set<Id>)
    ensures New([], seen) && Added([], seen) == seen
  {
  }

  lemma {:induction false} ItemsUnfoldExactly(g: Graph, items: seq<Value>, depth: int, seen: set<Id>)
    requires Closed(g) && forall x :: x in items ==> Live(g, x)
    ensures var r := RedactItems(g, items, depth, seen);
      (r.0 == UnfoldItems(g, items, depth) <==> New(MetInItems(g, items, depth), seen)) &&
      (r.0 == UnfoldItems(g, items, depth) ==> r.1 == Added(MetInItems(g, items, depth), seen))
    decreases if depth < 0 then 0 else depth, 2, |items|
  {
    hide New, Added, Closed, Redact, Unfold, Met;
    if items == [] {
      NothingMet(seen);
    } else {
      var head := Redact(g, items[0], depth, seen);
      UnfoldsExactly(g, items[0], depth, seen);
      ItemsUnfoldExactly(g, items[1..], depth, head.1);
      NewAppend(Met(g, items[0], depth), MetInItems(g, items[1..], depth), seen);
      SameCons(head.0, RedactItems(g, items[1..], depth, head.1).0,
               Unfold(g, items[0], depth), UnfoldItems(g, items[1..], depth));
    }
  }

  lemma SameCons<T>(x: T, xs: seq<T>, y: T, ys: seq<T>)
    ensures [x] + xs == [y] + ys <==> x == y && xs == ys
  {
    assert ([x] + xs)[0] == x && ([x] + xs)[1..] == xs;
    assert ([y] + ys)[0] == y && ([y] + ys)[1..] == ys;
  }

  lemma {:induction false} EntriesUnfoldExactly(g: Graph, entries: seq<(string, Value)>, depth: int, seen: set<Id>)
    requires Closed(g) && forall e :: e in entries ==> Live(g, e.1)
    ensures var r := RedactEntries(g, entries, depth, seen);
      (r.0 == UnfoldEntries(g, entries, depth) <==> New(MetInEntries(g, entries, depth), seen)) &&
      (r.0 == UnfoldEntries(g, entries, depth) ==> r.1 == Added(MetInEntries(g, entries, depth), seen))
    decreases if depth < 0 then 0 else depth, 2, |entries|
  {
    hide New, Added, Closed, Redact, Unfold, Met, Sensitive;
    if entries == [] {
      NothingMet(seen);
    } else {
      var (key, val) := (entries[0].0, entries[0].1);
      var met := if Sensitive(key) then [] else Met(g, val, depth);
      var head := if Sensitive(key) then (MARKER, seen) else Redact(g, val, depth, seen);
      var plain := if Sensitive(key) then MARKER else Unfold(g, val, depth);
      if Sensitive(key) { NothingMet(seen); } else { UnfoldsExactly(g, val, depth, seen); }
      EntriesUnfoldExactly(g, entries[1..], depth, head.1);
      NewAppend(met, MetInEntries(g, entries[1..], depth), seen);
      SameCons(OutEntry(key, head.0), RedactEntries(g, entries[1..], depth, head.1).0,
               OutEntry(key, plain), UnfoldEntries(g, entries[1..], depth));
    }
  }

  predicate NoneTwice(ids: seq<Id>) {
    forall i, j :: 0 <= i < j < |ids| ==> ids[i] != ids[j]
  }

  lemma {:induction false} NewIsNoneTwice(ids: seq<Id>, seen: set<Id>)
    ensures New(ids, seen) <==> NoneTwice(ids) && forall id :: id in ids ==> id !in seen
  {
    if ids != [] {
      var rest := ids[1..];
      NewIsNoneTwice(rest, seen + {ids[0]});
      assert forall id :: id in ids <==> id == ids[0] || id in rest;
      assert NoneTwice(ids) <==> ids[0] !in rest && NoneTwice(rest) by { NoneTwiceCons(ids); }
    }
  }

  lemma NoneTwiceCons(ids: seq<Id>)
    requires ids != []
    ensures NoneTwice(ids) <==> ids[0] !in ids[1..] && NoneTwice(ids[1..])
  {
    var rest := ids[1..];
    forall j | 1 <= j < |ids| ensures ids[j] in rest { assert rest[j - 1] == ids[j]; }
    if NoneTwice(ids) {
      forall j | 0 <= j < |rest| ensures rest[j] != ids[0] { assert rest[j] == ids[j + 1]; }
    }
    if ids[0] !in rest && NoneTwice(rest) {
      forall i, j | 0 <= i < j < |ids| ensures ids[i] != ids[j] {
        if i > 0 { assert rest[i - 1] != rest[j - 1]; }
      }
    }
  }

  /**
   * The exact condition for redaction to be the masked value cut off at the depth:
   * no object is met twice. It fails on cycles, and on objects that are only shared.
   */
  lemma SeenMattersExactly(g: Graph, v: Value, depth: int)
    requires Closed(g) && Live(g, v)
    ensures Redact(g, v, depth, {}).0 == Unfold(g, v, depth) <==> NoneTwice(Met(g, v, depth))
  {
    hide Redact, Unfold, Met, New, NoneTwice;
    UnfoldsExactly(g, v, depth, {});
    NewIsNoneTwice(Met(g, v, depth), {});
  }

  /** No cycle here, but the second mention of the shared array is reported as one. */
  lemma SharedIsCalledCircular()
    ensures var g: Graph := map[0 := Arr([Ref(1), Ref(1)]), 1 := Arr([])];
      Closed(g) && Redact(g, Ref(0), MAX_DEPTH, {}).0 == List([List([]), CIRCULAR])
  {
    var g: Graph := map[0 := Arr([Ref(1), Ref(1)]), 1 := Arr([])];
    var items := [Ref(1), Ref(1)];
    assert items[1..] == [Ref(1)] && [Ref(1)][1..] == [];
    assert {0} + {1} == {0, 1} && RedactItems(g, [], 6, {0, 1}) == ([], {0, 1});
    assert Redact(g, Ref(1), 7, {0}) == (List([]), {0, 1});
    assert Redact(g, Ref(1), 7, {0, 1}) == (CIRCULAR, {0, 1});
    assert RedactItems(g, [Ref(1)], 7, {0, 1}).0 == [CIRCULAR];
    assert RedactItems(g, items, 7, {0}).0 == [List([])] + [CIRCULAR];
  }

  // ------------------------------------------------------------------ markers and keys

  /** `word` stands in `key` at offset `i`, capitals or not. */
  predicate WordAt(key: string, word: string, i: nat) {
    i + |word| <= |key| &&
    forall j :: 0 <= j < |word| ==>
      key[i + j] == word[j] || ('a' <= word[j] <= 'z' && key[i + j] as int == word[j] as int - 32)
  }

  ghost predicate Mentions(key: string, word: string) {
    exists i: nat :: WordAt(key, word, i)
  }

  lemma LowerAt(key: string, word: string, i: nat)
    requires forall c :: c in word ==> !('A' <= c <= 'Z')
    ensures At(LowerCase(key), word, i) <==> WordAt(key, word, i)
  {
    if i + |word| <= |key| {
      var s := LowerCase(key)[i..i + |word|];
      forall j | 0 <= j < |word|
        ensures s[j] == word[j] <==>
          key[i + j] == word[j] || ('a' <= word[j] <= 'z' && key[i + j] as int == word[j] as int - 32)
      {
        assert word[j] in word;
      }
      if s == word {
        assert forall j :: 0 <= j < |word| ==> s[j] == word[j];
      }
    }
  }

  lemma IncludesMentions(key: string, word: string)
    requires forall c :: c in word ==> !('A' <= c <= 'Z')
    ensures Includes(LowerCase(key), word) <==> Mentions(key, word)
  {
    hide IndexFrom, LowerCase, WordAt, At;
    IndexFromFinds(LowerCase(key), word, 0);
    forall i: nat ensures At(LowerCase(key), word, i) <==> WordAt(key, word, i) {
      LowerAt(key, word, i);
    }
  }

  lemma PatternsAre(p: string)
    ensures p in PATTERNS <==>
      p == "password" || p == "secret" || p == "token" || p == "authorization" || p == "cookie" || p == "apikey" ||
      p == "api_key" || p == "x-api-key" || p == "ssn" || p == "creditcard" || p == "card_number"
  {
  }

  lemma PatternsHaveNoCapitals(p: string)
    requires p in PATTERNS
    ensures forall c :: c in p ==> !('A' <= c <= 'Z')
  {
  }

  lemma SensitiveMentions(key: string)
    ensures Sensitive(key) <==> exists p :: p in PATTERNS && Mentions(key, p)
  {
    hide Mentions, Includes, LowerCase;
    forall p | p in PATTERNS ensures Includes(LowerCase(key), p) <==> Mentions(key, p) {
      PatternsHaveNoCapitals(p);
      IncludesMentions(key, p);
    }
  }

  /** The keys whose values are masked: those that mention one of eleven words, in capitals or not. */
  lemma SensitiveExactly(key: string)
    ensures Sensitive(key) <==>
      Mentions(key, "password") || Mentions(key, "secret") || Mentions(key, "token") || Mentions(key, "authorization") ||
      Mentions(key, "cookie") || Mentions(key, "apikey") || Mentions(key, "api_key") || Mentions(key, "x-api-key") ||
      Mentions(key, "ssn") || Mentions(key, "creditcard") || Mentions(key, "card_number")
  {
    hide Mentions, Sensitive;
    SensitiveMentions(key);
    forall p { PatternsAre(p); }
  }

  /** What stands where an object is not written out, and where the value of a sensitive key would stand. */
  lemma MarkersExactly(g: Graph, id: Id, depth: int, seen: set<Id>, k: nat)
    requires Closed(g) && id in g
    ensures depth <= 0 ==> Redact(g, Ref(id), depth, seen).0 == Leaf(Str("[Truncated]"))
    ensures depth > 0 && id in seen ==> Redact(g, Ref(id), depth, seen).0 == Leaf(Str("[Circular]"))
    ensures depth > 0 && id !in seen && g[id].Obj? && k < |g[id].entries| ==>
      var o := Redact(g, Ref(id), depth, seen).0;
      o.Record? && |o.entries| == |g[id].entries| && o.entries[k].key == g[id].entries[k].0 &&
      (Sensitive(g[id].entries[k].0) ==> o.entries[k].value == Leaf(Str("[REDACTED]"))) &&
      (!Sensitive(g[id].entries[k].0) && g[id].entries[k].1.P? ==> o.entries[k].value == Leaf(g[id].entries[k].1.prim))
  {
    hide Sensitive;
    if depth > 0 && id !in seen && g[id].Obj? && k < |g[id].entries| {
      EntriesAreChildren(g, id);
      EntryAt(g, g[id].entries, depth - 1, seen + {id}, k);
    }
  }

  lemma {:induction false} EntryAt(g: Graph, entries: seq<(string, Value)>, depth: int, seen: set<Id>, k: nat)
    requires Closed(g) && (forall e :: e in entries ==> Live(g, e.1)) && k < |entries|
    ensures var e := RedactEntries(g, entries, depth, seen).0[k];
      e.key == entries[k].0 &&
      (Sensitive(entries[k].0) ==> e.value == MARKER) &&
      (!Sensitive(entries[k].0) && entries[k].1.P? ==> e.value == Leaf(entries[k].1.prim))
    decreases |entries|
  {
    hide Sensitive;
    if k > 0 {
      var head := if Sensitive(entries[0].0) then (MARKER, seen) else Redact(g, entries[0].1, depth, seen);
      EntryAt(g, entries[1..], depth, head.1, k - 1);
    }
  }
}
