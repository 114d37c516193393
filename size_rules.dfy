/** The per-kind rules of sizeOf (size.go:25-140), each stated on its own in
    terms of the visited set before and after. */
module SizeRules {
  import opened Size

  /** A scalar costs its static width and marks nothing (size.go:98-106). */
  lemma ScalarIsWidth(k: Kind, width: nat, heap: Heap, visited: set<Addr>)
    requires IsScalar(k) && HeapWellFormed(heap)
    ensures InMemory(Basic(k, width), heap)
    ensures SizeOf(Basic(k, width), heap, visited) == Walked(Bytes(width), visited)
  {
  }

  /** A kind with no rule fails with that kind and marks nothing
      (size.go:139). */
  lemma NoRuleFails(k: Kind, width: nat, heap: Heap, visited: set<Addr>)
    requires NoRule(k) && HeapWellFormed(heap)
    ensures InMemory(Basic(k, width), heap)
    ensures SizeOf(Basic(k, width), heap, visited) == Walked(UnknownType(k), visited)
  {
  }

  /** An array is its elements, summed in order, plus its unused capacity,
      which is always zero since an array's capacity is its length
      (size.go:29-39). */
  lemma ArrayAddsUnusedCapacity(es: seq<Value>, cap: nat, elemWidth: nat, width: nat, heap: Heap, visited: set<Addr>)
    requires InMemory(ArrayOf(es, cap, elemWidth, width), heap)
    ensures AllInMemory(es, heap)
    ensures SizeOf(ArrayOf(es, cap, elemWidth, width), heap, visited)
         == Walked(Plus(SizeOfAll(es, heap, visited).result, UnusedCapacity(|es|, cap, elemWidth)),
                   SizeOfAll(es, heap, visited).visited)
    ensures SizeOf(ArrayOf(es, cap, elemWidth, width), heap, visited) == SizeOfAll(es, heap, visited)
  {
  }

  /** A struct is its fields, summed in order, plus its padding: its declared
      width less the static widths of its fields, never negative
      (size.go:59-75). */
  lemma StructAddsPadding(fs: seq<Value>, width: nat, heap: Heap, visited: set<Addr>)
    requires InMemory(StructOf(fs, width), heap)
    ensures AllInMemory(fs, heap) && SumWidths(fs) <= width
    ensures SizeOf(StructOf(fs, width), heap, visited)
         == Walked(Plus(SizeOfAll(fs, heap, visited).result, width - SumWidths(fs)),
                   SizeOfAll(fs, heap, visited).visited)
  {
  }

  /** A string's bytes are counted on the first visit to its data only; a
      later string over the same data costs its header, whatever its length
      (size.go:76-83). */
  lemma StringCountsDataOnce(data: Addr, len: nat, len2: nat, width: nat, heap: Heap, visited: set<Addr>)
    requires HeapWellFormed(heap) && data !in visited
    ensures InMemory(Str(data, len, width), heap)
    ensures SizeOf(Str(data, len, width), heap, visited) == Walked(Bytes(len + width), visited + {data})
    ensures SizeOf(Str(data, len2, width), heap, visited + {data}) == Walked(Bytes(width), visited + {data})
  {
  }

  /** A slice or map whose storage was already visited costs nothing, not even
      its header, and marks nothing (size.go:42-46, 109-113). */
  lemma RevisitedStorageIsFree(v: Value, heap: Heap, visited: set<Addr>)
    requires (v.SliceOf? || v.MapOf?) && InMemory(v, heap) && v.addr in visited
    ensures SizeOf(v, heap, visited) == Walked(Bytes(0), visited)
  {
  }

  /** A slice or map visited for the first time marks its storage, and its
      result is that of its contents plus its header and slack
      (size.go:40-58, 107-130). */
  lemma FirstVisitMarksStorage(v: Value, heap: Heap, visited: set<Addr>)
    requires (v.SliceOf? || v.MapOf?) && InMemory(v, heap) && v.addr !in visited
    ensures v.addr in SizeOf(v, heap, visited).visited
    ensures v.SliceOf? ==> (
      AllInMemory(v.elems, heap) &&
      var all := SizeOfAll(v.elems, heap, visited + {v.addr});
      SizeOf(v, heap, visited).result == Plus(all.result, UnusedCapacity(|v.elems|, v.cap, v.elemWidth) + v.width))
    ensures v.MapOf? ==> (
      EntriesInMemory(v.entries, heap) &&
      var all := SizeOfEntries(v.entries, heap, visited + {v.addr});
      SizeOf(v, heap, visited).result == Plus(all.result, v.width + BucketOverhead(|v.entries|)))
  {
    if v.SliceOf? {
      SliceUnvisited(v, heap, visited);
    } else {
      MapUnvisited(v, heap, visited);
    }
  }

  /** A nil pointer, or one to an address already visited, costs its width
      alone; any other pointer marks its target before the pointee is sized,
      so a pointer back into the pointee costs its width alone too
      (size.go:84-97). */
  lemma PointerMarksBeforeDescending(a: Addr, width: nat, heap: Heap, visited: set<Addr>)
    requires InMemory(Ptr(a, width), heap)
    ensures a == Nil || a in visited ==> SizeOf(Ptr(a, width), heap, visited).result == Bytes(width)
    ensures a in SizeOf(Ptr(a, width), heap, visited).visited
    ensures a != Nil && a !in visited ==>
      var pointee := SizeOf(heap[a], heap, visited + {a});
      SizeOf(Ptr(a, width), heap, visited) == Walked(Plus(pointee.result, width), pointee.visited)
  {
  }

  /** An interface adds its header to its dynamic value; a nil interface holds
      an invalid value and fails (size.go:131-136). */
  lemma InterfaceAddsHeader(e: Value, width: nat, heap: Heap, visited: set<Addr>)
    requires InMemory(Iface(e, width), heap)
    ensures SizeOf(Iface(e, width), heap, visited).result == Plus(SizeOf(e, heap, visited).result, width)
    ensures e.Basic? && e.kind == Invalid ==> SizeOf(Iface(e, width), heap, visited).result == UnknownType(Invalid)
  {
  }
}
