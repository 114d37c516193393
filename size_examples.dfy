/** Worked examples of the size estimator on small layouts, one per rule of
    size.go whose effect is easy to miss. Widths are those of a 64-bit
    platform: 8 for a pointer or an int, 16 for a string header, 24 for a
    slice header. */
module SizeExamples {
  import opened Size

  /** A node whose only field points back at itself, stored at address 1. */
  const Loop: Heap := map[1 := StructOf([Ptr(1, 8)], 8)]

  /** Walking a pointer into a cycle stops at the first revisit: the node is
      sized once, and the pointer back costs only its width. */
  lemma CycleStopsAtRevisit()
    ensures InMemory(Ptr(1, 8), Loop)
    ensures SizeOf(Ptr(1, 8), Loop, {}) == Walked(Bytes(16), {1})
  {
    assert InMemory(Ptr(1, 8), Loop);
    var node := Loop[1];
    assert SizeOf(Ptr(1, 8), Loop, {1}) == Walked(Bytes(8), {1});
    assert node.fields == [Ptr(1, 8)];
    assert SizeOfAll(node.fields, Loop, {1}) == Walked(Bytes(8), {1}) by {
      assert node.fields[..0] == [];
    }
    assert SumWidths(node.fields) == 8 by {
      assert node.fields[..0] == [];
    }
    assert SizeOf(node, Loop, {1}) == Walked(Bytes(8), {1});
    var none: set<Addr> := {};
    assert none + {1} == {1};
  }

  /** calcSize dereferences its argument without marking the pointee, so the
      same self-referencing node passed by pointer is counted twice: 16 bytes
      for one 8-byte node. */
  lemma TopLevelPointeeCountedTwice()
    ensures InMemory(Ptr(1, 8), Loop)
    ensures CalcSize(Ptr(1, 8), Loop) == Bytes(16)
  {
    CycleStopsAtRevisit();
    var node := Loop[1];
    assert node.fields == [Ptr(1, 8)];
    assert SizeOfAll(node.fields, Loop, {}) == Walked(Bytes(16), {1}) by {
      assert node.fields[..0] == [];
    }
    assert SumWidths(node.fields) == 8 by {
      assert node.fields[..0] == [];
    }
    assert SizeOf(node, Loop, {}) == Walked(Bytes(16), {1});
    var none: set<Addr> := {};
    assert none + {1} == {1};
  }

  /** Two string fields that share their bytes: the bytes count once, each
      header counts. */
  lemma SharedStringBytesCountedOnce()
    ensures var v := StructOf([Str(5, 3, 16), Str(5, 3, 16)], 32);
      InMemory(v, map[]) && CalcSize(v, map[]) == Bytes(3 + 16 + 16)
  {
    var fs := [Str(5, 3, 16), Str(5, 3, 16)];
    var heap: Heap := map[];
    assert fs[..1][..0] == [] && fs[..2][..1] == [Str(5, 3, 16)] && fs[..2] == fs;
    assert SizeOfAll(fs[..1], heap, {}) == Walked(Bytes(19), {5});
    assert SizeOfAll(fs, heap, {}) == Walked(Bytes(35), {5});
    assert SumWidths(fs[..1][..0]) == 0;
    assert SumWidths(fs[..1]) == 16;
    assert SumWidths(fs) == 32;
    assert SizeOf(StructOf(fs, 32), heap, {}).result == Bytes(35);
  }

  /** A nil pointer marks the nil address, which a nil slice also reports; a
      nil slice after a nil pointer then costs nothing, not even its header. */
  lemma NilPointerHidesLaterNilSlice()
    ensures var v := StructOf([Ptr(Nil, 8), SliceOf(Nil, [], 0, 8, 24)], 32);
      InMemory(v, map[]) && CalcSize(v, map[]) == Bytes(8)
  {
    var fs := [Ptr(Nil, 8), SliceOf(Nil, [], 0, 8, 24)];
    var heap: Heap := map[];
    assert fs[..1][..0] == [] && fs[..2][..1] == [Ptr(Nil, 8)] && fs[..2] == fs;
    assert SizeOfAll(fs[..1], heap, {}) == Walked(Bytes(8), {Nil});
    assert SizeOf(fs[1], heap, {Nil}) == Walked(Bytes(0), {Nil});
    assert SizeOfAll(fs, heap, {}) == Walked(Bytes(8), {Nil});
    assert SumWidths(fs[..1][..0]) == 0;
    assert SumWidths(fs[..1]) == 8;
    assert SumWidths(fs) == 32;
    assert InMemory(StructOf(fs, 32), heap);
    assert SizeOf(StructOf(fs, 32), heap, {}).result == Bytes(8);
  }

  /** The same two fields in the other order: the slice header is counted. */
  lemma NilSliceBeforeNilPointerCounted()
    ensures var v := StructOf([SliceOf(Nil, [], 0, 8, 24), Ptr(Nil, 8)], 32);
      InMemory(v, map[]) && CalcSize(v, map[]) == Bytes(32)
  {
    var fs := [SliceOf(Nil, [], 0, 8, 24), Ptr(Nil, 8)];
    var heap: Heap := map[];
    assert fs[..1][..0] == [] && fs[..2][..1] == [SliceOf(Nil, [], 0, 8, 24)] && fs[..2] == fs;
    assert SizeOfAll([], heap, {Nil}) == Walked(Bytes(0), {Nil});
    assert SizeOf(fs[0], heap, {}) == Walked(Bytes(24), {Nil});
    assert SizeOfAll(fs[..1], heap, {}) == Walked(Bytes(24), {Nil});
    assert SizeOf(fs[1], heap, {Nil}) == Walked(Bytes(8), {Nil});
    assert SizeOfAll(fs, heap, {}) == Walked(Bytes(32), {Nil});
    assert SumWidths(fs[..1][..0]) == 0;
    assert SumWidths(fs[..1]) == 24;
    assert SumWidths(fs) == 32;
    assert InMemory(StructOf(fs, 32), heap);
    assert SizeOf(StructOf(fs, 32), heap, {}).result == Bytes(32);
  }

  /** A struct whose one field is an interface holding nil: the field has no
      dynamic value, its element is invalid, and sizing the struct fails. */
  lemma NilInterfaceFails()
    ensures var v := StructOf([Iface(Basic(Invalid, 0), 16)], 16);
      InMemory(v, map[]) && CalcSize(v, map[]) == UnknownType(Invalid)
  {
    var fs := [Iface(Basic(Invalid, 0), 16)];
    var heap: Heap := map[];
    assert fs[..0] == [];
    assert SizeOf(fs[0], heap, {}).result == UnknownType(Invalid);
    assert SizeOfAll(fs, heap, {}).result == UnknownType(Invalid);
    assert SumWidths(fs) == 16;
    assert InMemory(StructOf(fs, 16), heap);
  }

  /** A map of one string key "ab" to an int: value 8, key 2 + 16, header 8,
      and floor(1 * 10.79) = 10 bytes of bucket slack. */
  lemma OneEntryMap()
    ensures var v := MapOf(7, [Entry(Str(9, 2, 16), Basic(Int, 8))], 8);
      InMemory(v, map[]) && CalcSize(v, map[]) == Bytes(8 + 18 + 8 + 10)
  {
    var e := Entry(Str(9, 2, 16), Basic(Int, 8));
    var es := [e];
    var heap: Heap := map[];
    assert es[..0] == [];
    assert WellFormed(e.val, heap.Keys);
    assert EntryWellFormed(e, heap.Keys);
    assert SizeOf(e.val, heap, {7}) == Walked(Bytes(8), {7});
    assert SizeOf(e.key, heap, {7}) == Walked(Bytes(18), {7, 9});
    assert SizeOfEntry(es[0], heap, {7}) == Walked(Bytes(26), {7, 9});
    assert SizeOfEntries(es, heap, {7}) == Walked(Bytes(26), {7, 9});
    assert BucketOverhead(1) == 10;
    var v := MapOf(7, es, 8);
    assert InMemory(v, heap);
    var none: set<Addr> := {};
    assert none + {7} == {7};
    assert SizeOf(v, heap, {}).result == Bytes(8 + 18 + 8 + 10);
  }

  /** An empty map costs its header only. */
  lemma EmptyMapIsHeader()
    ensures InMemory(MapOf(7, [], 8), map[]) && CalcSize(MapOf(7, [], 8), map[]) == Bytes(8)
  {
  }
}
