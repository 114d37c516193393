/** Properties of the size estimator of size.go. */
module SizeFacts {
  import opened Size

  // ---------------------------------------------------------------------------
  // Which values can be sized at all

  /** Every basic node of `v` itself (not behind a pointer) has a scalar kind. */
  predicate Supported(v: Value) {
    match v
    case Basic(k, _) => IsScalar(k)
    case ArrayOf(es, _, _, _) => forall i :: 0 <= i < |es| ==> Supported(es[i])
    case SliceOf(_, es, _, _, _) => forall i :: 0 <= i < |es| ==> Supported(es[i])
    case StructOf(fs, _) => forall i :: 0 <= i < |fs| ==> Supported(fs[i])
    case Str(_, _, _) => true
    case Ptr(_, _) => true
    case MapOf(_, es, _) => forall i :: 0 <= i < |es| ==> Supported(es[i].key) && Supported(es[i].val)
    case Iface(e, _) => Supported(e)
  }

  predicate HeapSupported(heap: Heap) {
    forall a :: a in heap ==> Supported(heap[a])
  }

  /** Sizing fails only on a kind without a rule (the ensures of SizeOf); here
      the other direction: when no reachable value has such a kind, sizing
      succeeds, whatever was visited before. */
  lemma {:induction false} SupportedSucceeds(v: Value, heap: Heap, visited: set<Addr>)
    requires InMemory(v, heap) && Supported(v) && HeapSupported(heap)
    ensures SizeOf(v, heap, visited).result.Bytes?
    decreases |heap.Keys - visited|, v
  {
    match v
    case Basic(_, _) =>
    case ArrayOf(es, _, _, _) =>
      SupportedSucceedsAll(es, heap, visited);
    case SliceOf(a, es, _, _, _) =>
      if a !in visited {
        SliceUnvisited(v, heap, visited);
        MarkingShrinksUnvisited(heap.Keys, visited, visited + {a});
        SupportedSucceedsAll(es, heap, visited + {a});
      }
    case StructOf(fs, _) =>
      SupportedSucceedsAll(fs, heap, visited);
    case Str(_, _, _) =>
    case Ptr(a, _) =>
      if a !in visited && a != Nil {
        MarkingHeapAddressShrinks(heap.Keys, visited, a);
        SupportedSucceeds(heap[a], heap, visited + {a});
      }
    case MapOf(a, es, _) =>
      if a !in visited {
        MapUnvisited(v, heap, visited);
        MarkingShrinksUnvisited(heap.Keys, visited, visited + {a});
        SupportedSucceedsEntries(es, heap, visited + {a});
      }
    case Iface(e, _) =>
      SupportedSucceeds(e, heap, visited);
  }

  lemma {:induction false} SupportedSucceedsAll(vs: seq<Value>, heap: Heap, visited: set<Addr>)
    requires AllInMemory(vs, heap) && HeapSupported(heap)
    requires forall i :: 0 <= i < |vs| ==> Supported(vs[i])
    ensures SizeOfAll(vs, heap, visited).result.Bytes?
    decreases |heap.Keys - visited|, vs
  {
    if vs != [] {
      var front := SizeOfAll(vs[..|vs| - 1], heap, visited);
      SupportedSucceedsAll(vs[..|vs| - 1], heap, visited);
      MarkingShrinksUnvisited(heap.Keys, visited, front.visited);
      SupportedSucceeds(vs[|vs| - 1], heap, front.visited);
    }
  }

  lemma {:induction false} SupportedSucceedsEntries(es: seq<Entry>, heap: Heap, visited: set<Addr>)
    requires EntriesInMemory(es, heap) && HeapSupported(heap)
    requires forall i :: 0 <= i < |es| ==> Supported(es[i].key) && Supported(es[i].val)
    ensures SizeOfEntries(es, heap, visited).result.Bytes?
    decreases |heap.Keys - visited|, es
  {
    if es != [] {
      var front := SizeOfEntries(es[..|es| - 1], heap, visited);
      SupportedSucceedsEntries(es[..|es| - 1], heap, visited);
      MarkingShrinksUnvisited(heap.Keys, visited, front.visited);
      SupportedSucceedsEntry(es[|es| - 1], heap, front.visited);
    }
  }

  lemma {:induction false} SupportedSucceedsEntry(e: Entry, heap: Heap, visited: set<Addr>)
    requires EntryWellFormed(e, heap.Keys) && HeapWellFormed(heap) && HeapSupported(heap)
    requires Supported(e.key) && Supported(e.val)
    ensures SizeOfEntry(e, heap, visited).result.Bytes?
    decreases |heap.Keys - visited|, e
  {
    SupportedSucceeds(e.val, heap, visited);
    var val := SizeOf(e.val, heap, visited);
    MarkingShrinksUnvisited(heap.Keys, visited, val.visited);
    SupportedSucceeds(e.key, heap, val.visited);
  }

  // ---------------------------------------------------------------------------
  // Unshared values: the visited set changes nothing

  /** The naive per-kind size, with no deduplication between siblings: every
      part is sized on its own, and a non-nil pointer adds its pointee. `avail`
      holds the pointees that may still be unfolded; unfolding one takes it out,
      so a path stops where it comes back to a pointee it is already inside,
      and such a pointer costs its width. */
  function TreeSize(v: Value, heap: Heap, avail: set<Addr>): SizeResult
    requires InMemory(v, heap) && avail <= heap.Keys
    decreases |avail|, v
  {
    match v
    case Basic(k, w) => if IsScalar(k) then Bytes(w) else UnknownType(k)
    case ArrayOf(es, cap, ew, _) => Plus(TreeSizeAll(es, heap, avail), UnusedCapacity(|es|, cap, ew))
    case SliceOf(_, es, cap, ew, w) => Plus(TreeSizeAll(es, heap, avail), UnusedCapacity(|es|, cap, ew) + w)
    case StructOf(fs, w) => Plus(TreeSizeAll(fs, heap, avail), w - SumWidths(fs))
    case Str(_, len, w) => Bytes(len + w)
    case Ptr(a, w) =>
      if a != Nil && a in avail then
        Plus(TreeSize(heap[a], heap, avail - {a}), w)
      else Bytes(w)
    case MapOf(_, es, w) => Plus(TreeSizeEntries(es, heap, avail), w + BucketOverhead(|es|))
    case Iface(e, w) => Plus(TreeSize(e, heap, avail), w)
  }

  function TreeSizeAll(vs: seq<Value>, heap: Heap, avail: set<Addr>): SizeResult
    requires AllInMemory(vs, heap) && avail <= heap.Keys
    decreases |avail|, vs
  {
    if vs == [] then Bytes(0)
    else Add(TreeSizeAll(vs[..|vs| - 1], heap, avail), TreeSize(vs[|vs| - 1], heap, avail))
  }

  function TreeSizeEntries(es: seq<Entry>, heap: Heap, avail: set<Addr>): SizeResult
    requires EntriesInMemory(es, heap) && avail <= heap.Keys
    decreases |avail|, es
  {
    if es == [] then Bytes(0)
    else Add(TreeSizeEntries(es[..|es| - 1], heap, avail), TreeSizeEntry(es[|es| - 1], heap, avail))
  }

  function TreeSizeEntry(e: Entry, heap: Heap, avail: set<Addr>): SizeResult
    requires EntryWellFormed(e, heap.Keys) && HeapWellFormed(heap) && avail <= heap.Keys
    decreases |avail|, e
  {
    Add(TreeSize(e.val, heap, avail), TreeSize(e.key, heap, avail))
  }

  /** The addresses a walk of `v` meets, in order, unfolding pointees as
      `TreeSize` does. */
  function Addrs(v: Value, heap: Heap, avail: set<Addr>): seq<Addr>
    requires avail <= heap.Keys
    decreases |avail|, v
  {
    match v
    case Basic(_, _) => []
    case ArrayOf(es, _, _, _) => AddrsAll(es, heap, avail)
    case SliceOf(a, es, _, _, _) => [a] + AddrsAll(es, heap, avail)
    case StructOf(fs, _) => AddrsAll(fs, heap, avail)
    case Str(d, _, _) => [d]
    case Ptr(a, _) =>
      if a != Nil && a in avail then
        [a] + Addrs(heap[a], heap, avail - {a})
      else [a]
    case MapOf(a, es, _) => [a] + AddrsEntries(es, heap, avail)
    case Iface(e, _) => Addrs(e, heap, avail)
  }

  function AddrsAll(vs: seq<Value>, heap: Heap, avail: set<Addr>): seq<Addr>
    requires avail <= heap.Keys
    decreases |avail|, vs
  {
    if vs == [] then [] else AddrsAll(vs[..|vs| - 1], heap, avail) + Addrs(vs[|vs| - 1], heap, avail)
  }

  function AddrsEntries(es: seq<Entry>, heap: Heap, avail: set<Addr>): seq<Addr>
    requires avail <= heap.Keys
    decreases |avail|, es
  {
    if es == [] then [] else AddrsEntries(es[..|es| - 1], heap, avail) + AddrsEntry(es[|es| - 1], heap, avail)
  }

  function AddrsEntry(e: Entry, heap: Heap, avail: set<Addr>): seq<Addr>
    requires avail <= heap.Keys
    decreases |avail|, e
  {
    Addrs(e.val, heap, avail) + Addrs(e.key, heap, avail)
  }

  function Elems(s: seq<Addr>): set<Addr> {
    set a | a in s
  }

  /** No address occurs twice in `s`, and none of them was visited. */
  predicate Unshared(s: seq<Addr>, visited: set<Addr>) {
    (forall i, j :: 0 <= i < j < |s| ==> s[i] != s[j]) && (forall i :: 0 <= i < |s| ==> s[i] !in visited)
  }

  lemma UnsharedSplit(s: seq<Addr>, t: seq<Addr>, visited: set<Addr>)
    requires Unshared(s + t, visited)
    ensures Unshared(s, visited) && Unshared(t, visited + Elems(s))
  {
    forall i | 0 <= i < |t|
      ensures t[i] !in visited + Elems(s)
    {
      assert t[i] == (s + t)[|s| + i];
      forall j | 0 <= j < |s|
        ensures s[j] != t[i]
      {
        assert s[j] == (s + t)[j];
      }
    }
    forall i, j | 0 <= i < j < |t|
      ensures t[i] != t[j]
    {
      assert t[i] == (s + t)[|s| + i] && t[j] == (s + t)[|s| + j];
    }
    forall i | 0 <= i < |s|
      ensures s[i] !in visited
    {
      assert s[i] == (s + t)[i];
    }
    forall i, j | 0 <= i < j < |s|
      ensures s[i] != s[j]
    {
      assert s[i] == (s + t)[i] && s[j] == (s + t)[j];
    }
  }

  /** When no address a walk of `v` meets is met twice or was visited before,
      the estimate is the naive per-kind size, pointees included, and the walk
      marks exactly those addresses. `avail` is every pointee not visited
      (and possibly more); at the top it is the whole heap. */
  lemma {:induction false} UnsharedIsTreeSize(v: Value, heap: Heap, avail: set<Addr>, visited: set<Addr>)
    requires InMemory(v, heap) && avail <= heap.Keys && heap.Keys - visited <= avail
    requires Unshared(Addrs(v, heap, avail), visited)
    ensures SizeOf(v, heap, visited).result == TreeSize(v, heap, avail)
    ensures TreeSize(v, heap, avail).Bytes? ==>
      SizeOf(v, heap, visited).visited == visited + Elems(Addrs(v, heap, avail))
    decreases |avail|, v, 1
  {
    match v
    case Basic(_, _) =>
    case ArrayOf(es, _, _, _) =>
      UnsharedIsTreeSizeAll(es, heap, avail, visited);
    case SliceOf(_, _, _, _, _) =>
      UnsharedSliceIsTreeSize(v, heap, avail, visited);
    case StructOf(fs, _) =>
      UnsharedIsTreeSizeAll(fs, heap, avail, visited);
    case Str(d, _, _) =>
      assert Addrs(v, heap, avail)[0] == d;
      assert Elems(Addrs(v, heap, avail)) == {d};
    case Ptr(_, _) =>
      UnsharedPointerIsTreeSize(v, heap, avail, visited);
    case MapOf(_, _, _) =>
      UnsharedMapIsTreeSize(v, heap, avail, visited);
    case Iface(e, _) =>
      UnsharedIsTreeSize(e, heap, avail, visited);
  }

  lemma {:induction false} UnsharedSliceIsTreeSize(v: Value, heap: Heap, avail: set<Addr>, visited: set<Addr>)
    requires v.SliceOf? && InMemory(v, heap) && avail <= heap.Keys && heap.Keys - visited <= avail
    requires Unshared(Addrs(v, heap, avail), visited)
    ensures SizeOf(v, heap, visited).result == TreeSize(v, heap, avail)
    ensures TreeSize(v, heap, avail).Bytes? ==>
      SizeOf(v, heap, visited).visited == visited + Elems(Addrs(v, heap, avail))
    decreases |avail|, v, 0
  {
    var a, es := v.addr, v.elems;
    UnsharedSplit([a], AddrsAll(es, heap, avail), visited);
    assert Elems([a]) == {a};
    SliceUnvisited(v, heap, visited);
    UnsharedIsTreeSizeAll(es, heap, avail, visited + {a});
    assert Elems(Addrs(v, heap, avail)) == {a} + Elems(AddrsAll(es, heap, avail));
  }

  /** One step of a non-nil, unvisited pointer, in all three walks. */
  lemma PointerUnfolds(v: Value, heap: Heap, avail: set<Addr>, visited: set<Addr>)
    requires v.Ptr? && InMemory(v, heap) && avail <= heap.Keys
    requires v.target != Nil && v.target in avail && v.target !in visited
    ensures var pointee := SizeOf(heap[v.target], heap, visited + {v.target});
      SizeOf(v, heap, visited) == Walked(Plus(pointee.result, v.width), pointee.visited)
    ensures TreeSize(v, heap, avail) == Plus(TreeSize(heap[v.target], heap, avail - {v.target}), v.width)
    ensures Addrs(v, heap, avail) == [v.target] + Addrs(heap[v.target], heap, avail - {v.target})
  {
  }

  lemma {:induction false} UnsharedPointerIsTreeSize(v: Value, heap: Heap, avail: set<Addr>, visited: set<Addr>)
    requires v.Ptr? && InMemory(v, heap) && avail <= heap.Keys && heap.Keys - visited <= avail
    requires Unshared(Addrs(v, heap, avail), visited)
    ensures SizeOf(v, heap, visited).result == TreeSize(v, heap, avail)
    ensures TreeSize(v, heap, avail).Bytes? ==>
      SizeOf(v, heap, visited).visited == visited + Elems(Addrs(v, heap, avail))
    decreases |avail|, v, 0
  {
    var a := v.target;
    assert Addrs(v, heap, avail)[0] == a;
    if a == Nil {
      assert Elems(Addrs(v, heap, avail)) == {a};
    } else {
      PointerUnfolds(v, heap, avail, visited);
      var rest := Addrs(heap[a], heap, avail - {a});
      UnsharedSplit([a], rest, visited);
      assert Elems([a]) == {a};
      UnsharedIsTreeSize(heap[a], heap, avail - {a}, visited + {a});
      assert Elems(Addrs(v, heap, avail)) == {a} + Elems(rest);
    }
  }

  lemma {:induction false} UnsharedMapIsTreeSize(v: Value, heap: Heap, avail: set<Addr>, visited: set<Addr>)
    requires v.MapOf? && InMemory(v, heap) && avail <= heap.Keys && heap.Keys - visited <= avail
    requires Unshared(Addrs(v, heap, avail), visited)
    ensures SizeOf(v, heap, visited).result == TreeSize(v, heap, avail)
    ensures TreeSize(v, heap, avail).Bytes? ==>
      SizeOf(v, heap, visited).visited == visited + Elems(Addrs(v, heap, avail))
    decreases |avail|, v, 0
  {
    var a, es := v.addr, v.entries;
    UnsharedSplit([a], AddrsEntries(es, heap, avail), visited);
    assert Elems([a]) == {a};
    MapUnvisited(v, heap, visited);
    UnsharedIsTreeSizeEntries(es, heap, avail, visited + {a});
    assert Elems(Addrs(v, heap, avail)) == {a} + Elems(AddrsEntries(es, heap, avail));
  }

  lemma {:induction false} UnsharedIsTreeSizeAll(vs: seq<Value>, heap: Heap, avail: set<Addr>, visited: set<Addr>)
    requires AllInMemory(vs, heap) && avail <= heap.Keys && heap.Keys - visited <= avail
    requires Unshared(AddrsAll(vs, heap, avail), visited)
    ensures SizeOfAll(vs, heap, visited).result == TreeSizeAll(vs, heap, avail)
    ensures TreeSizeAll(vs, heap, avail).Bytes? ==>
      SizeOfAll(vs, heap, visited).visited == visited + Elems(AddrsAll(vs, heap, avail))
    decreases |avail|, vs
  {
    if vs != [] {
      var init, last := vs[..|vs| - 1], vs[|vs| - 1];
      UnsharedSplit(AddrsAll(init, heap, avail), Addrs(last, heap, avail), visited);
      UnsharedIsTreeSizeAll(init, heap, avail, visited);
      if TreeSizeAll(init, heap, avail).Bytes? {
        UnsharedIsTreeSize(last, heap, avail, visited + Elems(AddrsAll(init, heap, avail)));
        assert Elems(AddrsAll(vs, heap, avail)) == Elems(AddrsAll(init, heap, avail)) + Elems(Addrs(last, heap, avail));
      }
    }
  }

  lemma {:induction false} UnsharedIsTreeSizeEntries(es: seq<Entry>, heap: Heap, avail: set<Addr>, visited: set<Addr>)
    requires EntriesInMemory(es, heap) && avail <= heap.Keys && heap.Keys - visited <= avail
    requires Unshared(AddrsEntries(es, heap, avail), visited)
    ensures SizeOfEntries(es, heap, visited).result == TreeSizeEntries(es, heap, avail)
    ensures TreeSizeEntries(es, heap, avail).Bytes? ==>
      SizeOfEntries(es, heap, visited).visited == visited + Elems(AddrsEntries(es, heap, avail))
    decreases |avail|, es
  {
    if es != [] {
      var init, last := es[..|es| - 1], es[|es| - 1];
      UnsharedSplit(AddrsEntries(init, heap, avail), AddrsEntry(last, heap, avail), visited);
      UnsharedIsTreeSizeEntries(init, heap, avail, visited);
      if TreeSizeEntries(init, heap, avail).Bytes? {
        UnsharedIsTreeSizeEntry(last, heap, avail, visited + Elems(AddrsEntries(init, heap, avail)));
        assert Elems(AddrsEntries(es, heap, avail)) == Elems(AddrsEntries(init, heap, avail)) + Elems(AddrsEntry(last, heap, avail));
      }
    }
  }

  lemma {:induction false} UnsharedIsTreeSizeEntry(e: Entry, heap: Heap, avail: set<Addr>, visited: set<Addr>)
    requires EntryWellFormed(e, heap.Keys) && HeapWellFormed(heap) && avail <= heap.Keys && heap.Keys - visited <= avail
    requires Unshared(AddrsEntry(e, heap, avail), visited)
    ensures SizeOfEntry(e, heap, visited).result == TreeSizeEntry(e, heap, avail)
    ensures TreeSizeEntry(e, heap, avail).Bytes? ==>
      SizeOfEntry(e, heap, visited).visited == visited + Elems(AddrsEntry(e, heap, avail))
    decreases |avail|, e
  {
    UnsharedSplit(Addrs(e.val, heap, avail), Addrs(e.key, heap, avail), visited);
    UnsharedIsTreeSize(e.val, heap, avail, visited);
    if TreeSize(e.val, heap, avail).Bytes? {
      UnsharedIsTreeSize(e.key, heap, avail, visited + Elems(Addrs(e.val, heap, avail)));
      assert Elems(AddrsEntry(e, heap, avail)) == Elems(Addrs(e.val, heap, avail)) + Elems(Addrs(e.key, heap, avail));
    }
  }
}
