/** Model of size.go: a deep size estimator over Go values.

    Go's reflection is replaced by an explicit value datatype. Every node carries
    its static width (what `Type().Size()` reports), and every node that refers to
    storage carries that storage's address. Pointees live in a heap that maps
    addresses to values, which is what lets a value refer to itself. */
module Size {

  /** The kinds that Go's reflect package reports. */
  datatype Kind =
    | Invalid
    | Bool
    | Int | Int8 | Int16 | Int32 | Int64
    | Uint | Uint8 | Uint16 | Uint32 | Uint64 | Uintptr
    | Float32 | Float64 | Complex64 | Complex128
    | Array | Chan | Func | Interface | Map | Pointer | Slice | String | Struct
    | UnsafePointer

  /** The kinds sized by their static width alone: booleans, every integer
      width, uintptr, floats, complex numbers, channels and functions. */
  predicate IsScalar(k: Kind) {
    match k
    case Bool | Int | Int8 | Int16 | Int32 | Int64 | Uint | Uint8 | Uint16 | Uint32 | Uint64
      | Uintptr | Float32 | Float64 | Complex64 | Complex128 | Chan | Func => true
    case _ => false
  }

  /** The kinds that have inner structure; their values are not `Basic` nodes. */
  predicate IsComposite(k: Kind) {
    match k
    case Array | Interface | Map | Pointer | Slice | String | Struct => true
    case _ => false
  }

  /** The kinds the estimator has no rule for. */
  predicate NoRule(k: Kind) {
    k == Invalid || k == UnsafePointer
  }

  /** Every kind is scalar, composite, or one without a rule. */
  lemma NoRuleOtherwise(k: Kind)
    ensures NoRule(k) <==> !IsScalar(k) && !IsComposite(k)
  {
  }

  /** A storage address (`uintptr`); 0 is the nil address. */
  type Addr = nat

  const Nil: Addr := 0

  /** A Go value as the estimator sees it. `width` is the static width of the
      value's type in every constructor. */
  datatype Value =
    | Basic(kind: Kind, width: nat)
    | ArrayOf(elems: seq<Value>, cap: nat, elemWidth: nat, width: nat)
    | SliceOf(addr: Addr, elems: seq<Value>, cap: nat, elemWidth: nat, width: nat)
    | StructOf(fields: seq<Value>, width: nat)
    | Str(data: Addr, len: nat, width: nat)
    | Ptr(target: Addr, width: nat)
    | MapOf(addr: Addr, entries: seq<Entry>, width: nat)
    | Iface(elem: Value, width: nat)

  /** One key/value pair of a map, in the order the map yields its keys. */
  datatype Entry = Entry(key: Value, val: Value)

  /** Pointees, by address. */
  type Heap = map<Addr, Value>

  /** What sizing returns: a byte count, or the error `unknown type: <kind>`. */
  datatype SizeResult = Bytes(n: nat) | UnknownType(kind: Kind)

  /** A sizing result together with the visited set as the walk left it. */
  datatype Walked = Walked(result: SizeResult, visited: set<Addr>)

  /** Adds a constant to a successful result; an error passes through. */
  function Plus(r: SizeResult, extra: nat): SizeResult {
    if r.Bytes? then Bytes(r.n + extra) else r
  }

  /** Adds two results, keeping the first error. */
  function Add(a: SizeResult, b: SizeResult): SizeResult {
    if a.UnknownType? then a else if b.UnknownType? then b else Bytes(a.n + b.n)
  }

  /** Sum of the static widths of `vs`. */
  function SumWidths(vs: seq<Value>): nat {
    if vs == [] then 0 else SumWidths(vs[..|vs| - 1]) + vs[|vs| - 1].width
  }

  /** The bytes reserved beyond a sequence's length: (cap - len) * elemWidth. */
  function UnusedCapacity(len: nat, cap: nat, elemWidth: nat): nat
    requires len <= cap
  {
    var unused: nat := cap - len;
    unused * elemWidth
  }

  /** The bucket slack for a map of `n` entries: floor(n * 10.79). */
  function BucketOverhead(n: nat): nat {
    n * 1079 / 100
  }

  /** Layout facts that hold of every Go value: a basic node has no inner
      structure, an array's capacity is its length, a slice's length never
      exceeds its capacity, a struct is at least as wide as
      its fields together, and a non-nil pointer points into the heap. */
  predicate WellFormed(v: Value, keys: set<Addr>) {
    match v
    case Basic(k, _) => !IsComposite(k)
    case ArrayOf(es, cap, _, _) => |es| == cap && forall i :: 0 <= i < |es| ==> WellFormed(es[i], keys)
    case SliceOf(_, es, cap, _, _) => |es| <= cap && forall i :: 0 <= i < |es| ==> WellFormed(es[i], keys)
    case StructOf(fs, w) => SumWidths(fs) <= w && forall i :: 0 <= i < |fs| ==> WellFormed(fs[i], keys)
    case Str(_, _, _) => true
    case Ptr(a, _) => a == Nil || a in keys
    case MapOf(_, es, _) => forall i :: 0 <= i < |es| ==> EntryWellFormed(es[i], keys)
    case Iface(e, _) => WellFormed(e, keys)
  }

  predicate EntryWellFormed(e: Entry, keys: set<Addr>) {
    WellFormed(e.key, keys) && WellFormed(e.val, keys)
  }

  predicate HeapWellFormed(heap: Heap) {
    forall a {:trigger heap[a]} :: a in heap ==> WellFormed(heap[a], heap.Keys)
  }

  /** `v` and every pointee are laid out as Go lays out values. */
  predicate InMemory(v: Value, heap: Heap) {
    WellFormed(v, heap.Keys) && HeapWellFormed(heap)
  }

  predicate AllInMemory(vs: seq<Value>, heap: Heap) {
    HeapWellFormed(heap) && forall i :: 0 <= i < |vs| ==> WellFormed(vs[i], heap.Keys)
  }

  predicate EntriesInMemory(es: seq<Entry>, heap: Heap) {
    HeapWellFormed(heap) && forall i :: 0 <= i < |es| ==> EntryWellFormed(es[i], heap.Keys)
  }

  lemma ElemsOfSliceInMemory(v: Value, heap: Heap)
    requires v.SliceOf? && InMemory(v, heap)
    ensures AllInMemory(v.elems, heap)
  {
  }

  lemma EntriesOfMapInMemory(v: Value, heap: Heap)
    requires v.MapOf? && InMemory(v, heap)
    ensures EntriesInMemory(v.entries, heap)
  {
  }

  /** Marking more addresses never leaves more heap addresses unvisited. */
  lemma {:induction false} MarkingShrinksUnvisited(keys: set<Addr>, before: set<Addr>, after: set<Addr>)
    requires before <= after
    ensures |keys - after| <= |keys - before|
  {
    SubsetCardinality(keys - after, keys - before);
  }

  lemma {:induction false} SubsetCardinality(small: set<Addr>, big: set<Addr>)
    requires small <= big
    ensures |small| <= |big|
  {
    if small != {} {
      var x :| x in small;
      SubsetCardinality(small - {x}, big - {x});
    }
  }

  /** Marking an unvisited heap address leaves strictly fewer unvisited. */
  lemma MarkingHeapAddressShrinks(keys: set<Addr>, visited: set<Addr>, a: Addr)
    requires a in keys && a !in visited
    ensures |keys - (visited + {a})| < |keys - visited|
  {
    assert keys - (visited + {a}) == (keys - visited) - {a};
  }

  /** sizeOf (size.go:25-140): the size of `v` given the addresses already
      visited, and the visited set afterwards. Errors short-circuit with the
      visited set as it stood when the error arose. The kinds that refer to
      storage have their own functions below. */
  function SizeOf(v: Value, heap: Heap, visited: set<Addr>): (w: Walked)
    requires InMemory(v, heap)
    ensures visited <= w.visited
    ensures w.result.UnknownType? ==> NoRule(w.result.kind)
    decreases |heap.Keys - visited|, v, 1
  {
    match v
    case Basic(k, width) =>
      if IsScalar(k) then Walked(Bytes(width), visited)
      else NoRuleOtherwise(k); Walked(UnknownType(k), visited)
    case ArrayOf(es, cap, ew, _) =>
      var all := SizeOfAll(es, heap, visited);
      Walked(Plus(all.result, UnusedCapacity(|es|, cap, ew)), all.visited)
    case SliceOf(_, _, _, _, _) => SizeOfSlice(v, heap, visited)
    case StructOf(fs, width) =>
      var all := SizeOfAll(fs, heap, visited);
      Walked(Plus(all.result, width - SumWidths(fs)), all.visited)
    case Str(data, len, width) =>
      if data in visited then Walked(Bytes(width), visited)
      else Walked(Bytes(len + width), visited + {data})
    case Ptr(_, _) => SizeOfPointer(v, heap, visited)
    case MapOf(_, _, _) => SizeOfMap(v, heap, visited)
    case Iface(e, width) =>
      var inner := SizeOf(e, heap, visited);
      Walked(Plus(inner.result, width), inner.visited)
  }

  /** A slice (size.go:40-58): nothing at all if its backing array was already
      visited; otherwise its elements, its unused capacity and its header. */
  function SizeOfSlice(v: Value, heap: Heap, visited: set<Addr>): (w: Walked)
    requires v.SliceOf? && InMemory(v, heap)
    ensures visited <= w.visited
    ensures w.result.UnknownType? ==> NoRule(w.result.kind)
    decreases |heap.Keys - visited|, v, 0
  {
    if v.addr in visited then Walked(Bytes(0), visited)
    else
      MarkingShrinksUnvisited(heap.Keys, visited, visited + {v.addr});
      ElemsOfSliceInMemory(v, heap);
      var all := SizeOfAll(v.elems, heap, visited + {v.addr});
      Walked(Plus(all.result, UnusedCapacity(|v.elems|, v.cap, v.elemWidth) + v.width), all.visited)
  }

  /** A pointer (size.go:84-97): its address is marked before anything else,
      so a pointer back into a structure being sized costs only its width. */
  function SizeOfPointer(v: Value, heap: Heap, visited: set<Addr>): (w: Walked)
    requires v.Ptr? && InMemory(v, heap)
    ensures visited <= w.visited
    ensures w.result.UnknownType? ==> NoRule(w.result.kind)
    decreases |heap.Keys - visited|, v, 0
  {
    if v.target in visited then Walked(Bytes(v.width), visited)
    else if v.target == Nil then Walked(Bytes(v.width), visited + {Nil})
    else
      MarkingHeapAddressShrinks(heap.Keys, visited, v.target);
      var pointee := SizeOf(heap[v.target], heap, visited + {v.target});
      Walked(Plus(pointee.result, v.width), pointee.visited)
  }

  /** A map (size.go:107-130): nothing if already visited; otherwise its
      entries, its header and the bucket slack. */
  function SizeOfMap(v: Value, heap: Heap, visited: set<Addr>): (w: Walked)
    requires v.MapOf? && InMemory(v, heap)
    ensures visited <= w.visited
    ensures w.result.UnknownType? ==> NoRule(w.result.kind)
    decreases |heap.Keys - visited|, v, 0
  {
    if v.addr in visited then Walked(Bytes(0), visited)
    else
      MarkingShrinksUnvisited(heap.Keys, visited, visited + {v.addr});
      EntriesOfMapInMemory(v, heap);
      var all := SizeOfEntries(v.entries, heap, visited + {v.addr});
      Walked(Plus(all.result, v.width + BucketOverhead(|v.entries|)), all.visited)
  }

  /** The summing loops of size.go (lines 31-37, 48-54, 61-67): the elements in
      order, each sized with the visited set the previous ones left, stopping
      at the first error. */
  function SizeOfAll(vs: seq<Value>, heap: Heap, visited: set<Addr>): (w: Walked)
    requires AllInMemory(vs, heap)
    ensures visited <= w.visited
    ensures w.result.UnknownType? ==> NoRule(w.result.kind)
    decreases |heap.Keys - visited|, vs
  {
    if vs == [] then Walked(Bytes(0), visited)
    else
      var front := SizeOfAll(vs[..|vs| - 1], heap, visited);
      if front.result.UnknownType? then front
      else
        MarkingShrinksUnvisited(heap.Keys, visited, front.visited);
        var last := SizeOf(vs[|vs| - 1], heap, front.visited);
        Walked(Add(front.result, last.result), last.visited)
  }

  /** The loop over map keys (size.go:115-127), with the entries in the order
      the map yields them. */
  function SizeOfEntries(es: seq<Entry>, heap: Heap, visited: set<Addr>): (w: Walked)
    requires EntriesInMemory(es, heap)
    ensures visited <= w.visited
    ensures w.result.UnknownType? ==> NoRule(w.result.kind)
    decreases |heap.Keys - visited|, es
  {
    if es == [] then Walked(Bytes(0), visited)
    else
      var front := SizeOfEntries(es[..|es| - 1], heap, visited);
      if front.result.UnknownType? then front
      else
        MarkingShrinksUnvisited(heap.Keys, visited, front.visited);
        var last := SizeOfEntry(es[|es| - 1], heap, front.visited);
        Walked(Add(front.result, last.result), last.visited)
  }

  /** One map entry: the value is sized before the key (size.go:118-126). */
  function SizeOfEntry(e: Entry, heap: Heap, visited: set<Addr>): (w: Walked)
    requires EntryWellFormed(e, heap.Keys) && HeapWellFormed(heap)
    ensures visited <= w.visited
    ensures w.result.UnknownType? ==> NoRule(w.result.kind)
    decreases |heap.Keys - visited|, e
  {
    var val := SizeOf(e.val, heap, visited);
    if val.result.UnknownType? then val
    else
      MarkingShrinksUnvisited(heap.Keys, visited, val.visited);
      var key := SizeOf(e.key, heap, val.visited);
      Walked(Add(val.result, key.result), key.visited)
  }

  /** calcSize (size.go:10-15): a fresh visited set, and one level of pointer
      indirection on the argument itself. A nil pointer becomes an invalid
      value, which has no rule. The pointee's address is not marked. */
  function CalcSize(v: Value, heap: Heap): (r: SizeResult)
    requires InMemory(v, heap)
    ensures r.UnknownType? ==> NoRule(r.kind)
    ensures v == Ptr(Nil, v.width) ==> r == UnknownType(Invalid)
  {
    match v
    case Ptr(a, _) => if a == Nil then UnknownType(Invalid) else SizeOf(heap[a], heap, {}).result
    case _ => SizeOf(v, heap, {}).result
  }

  /** mustCalcSize (size.go:17-23), for values whose sizing succeeds. */
  function MustCalcSize(v: Value, heap: Heap): (n: nat)
    requires InMemory(v, heap) && CalcSize(v, heap).Bytes?
    ensures CalcSize(v, heap) == Bytes(n)
  {
    CalcSize(v, heap).n
  }

  /** Once the elements walked so far have failed, the remaining elements are
      not sized: the whole walk returns that same error and visited set. */
  lemma {:induction false} SizeOfAllStopsAtError(vs: seq<Value>, i: nat, heap: Heap, visited: set<Addr>)
    requires AllInMemory(vs, heap) && i <= |vs|
    requires SizeOfAll(vs[..i], heap, visited).result.UnknownType?
    ensures SizeOfAll(vs, heap, visited) == SizeOfAll(vs[..i], heap, visited)
    decreases |vs| - i
  {
    if i < |vs| {
      assert vs[..i + 1][..i] == vs[..i];
      SizeOfAllStopsAtError(vs, i + 1, heap, visited);
      assert vs[..|vs|] == vs;
    } else {
      assert vs[..i] == vs;
    }
  }

  lemma {:induction false} SizeOfEntriesStopsAtError(es: seq<Entry>, i: nat, heap: Heap, visited: set<Addr>)
    requires EntriesInMemory(es, heap) && i <= |es|
    requires SizeOfEntries(es[..i], heap, visited).result.UnknownType?
    ensures SizeOfEntries(es, heap, visited) == SizeOfEntries(es[..i], heap, visited)
    decreases |es| - i
  {
    if i < |es| {
      assert es[..i + 1][..i] == es[..i];
      SizeOfEntriesStopsAtError(es, i + 1, heap, visited);
      assert es[..|es|] == es;
    } else {
      assert es[..i] == es;
    }
  }

  /** One pass of the summing loop: the walk of `vs[..i + 1]` continues the
      walk of `vs[..i]` with element `i`; on an error the whole walk ends there. */
  lemma SizeOfAllStep(vs: seq<Value>, i: nat, heap: Heap, visited0: set<Addr>, sum: nat,
                      mid: set<Addr>, s: SizeResult, visited: set<Addr>)
    requires AllInMemory(vs, heap) && i < |vs|
    requires SizeOfAll(vs[..i], heap, visited0) == Walked(Bytes(sum), mid)
    requires Walked(s, visited) == SizeOf(vs[i], heap, mid)
    ensures s.UnknownType? ==> SizeOfAll(vs, heap, visited0) == Walked(s, visited)
    ensures s.Bytes? ==> SizeOfAll(vs[..i + 1], heap, visited0) == Walked(Bytes(sum + s.n), visited)
  {
    assert vs[..i + 1][..i] == vs[..i];
    if s.UnknownType? {
      SizeOfAllStopsAtError(vs, i + 1, heap, visited0);
    }
  }

  lemma SizeOfEntriesStep(es: seq<Entry>, i: nat, heap: Heap, visited0: set<Addr>, sum: nat,
                          mid: set<Addr>, s: SizeResult, visited: set<Addr>)
    requires EntriesInMemory(es, heap) && i < |es|
    requires SizeOfEntries(es[..i], heap, visited0) == Walked(Bytes(sum), mid)
    requires Walked(s, visited) == SizeOfEntry(es[i], heap, mid)
    ensures s.UnknownType? ==> SizeOfEntries(es, heap, visited0) == Walked(s, visited)
    ensures s.Bytes? ==> SizeOfEntries(es[..i + 1], heap, visited0) == Walked(Bytes(sum + s.n), visited)
  {
    assert es[..i + 1][..i] == es[..i];
    if s.UnknownType? {
      SizeOfEntriesStopsAtError(es, i + 1, heap, visited0);
    }
  }

  /** sizeOf as size.go writes it: a recursive walk that updates the visited
      set as it goes, returning at the first error. */
  method Walk(v: Value, heap: Heap, visited0: set<Addr>) returns (r: SizeResult, visited: set<Addr>)
    requires InMemory(v, heap)
    ensures Walked(r, visited) == SizeOf(v, heap, visited0)
    decreases |heap.Keys - visited0|, v, 1
  {
    visited := visited0;
    match v {
      case Basic(k, width) =>
        if IsScalar(k) {
          return Bytes(width), visited;
        }
        return UnknownType(k), visited;
      case ArrayOf(es, cap, ew, _) =>
        var s;
        s, visited := WalkAll(es, heap, visited);
        if s.UnknownType? {
          return s, visited;
        }
        return Bytes(s.n + UnusedCapacity(|es|, cap, ew)), visited;
      case SliceOf(_, _, _, _, _) =>
        r, visited := WalkSlice(v, heap, visited);
      case StructOf(_, _) =>
        r, visited := WalkStruct(v, heap, visited);
      case Str(data, len, width) =>
        if data in visited {
          return Bytes(width), visited;
        }
        visited := visited + {data};
        return Bytes(len + width), visited;
      case Ptr(_, _) =>
        r, visited := WalkPointer(v, heap, visited);
      case MapOf(_, _, _) =>
        r, visited := WalkMap(v, heap, visited);
      case Iface(e, width) =>
        var s;
        s, visited := Walk(e, heap, visited);
        if s.UnknownType? {
          return s, visited;
        }
        return Bytes(s.n + width), visited;
    }
  }

  /** Unfolds SizeOfSlice for a backing array not yet visited. */
  lemma SliceUnvisited(v: Value, heap: Heap, visited: set<Addr>)
    requires v.SliceOf? && InMemory(v, heap) && v.addr !in visited
    ensures AllInMemory(v.elems, heap)
    ensures SizeOfSlice(v, heap, visited)
      == var all := SizeOfAll(v.elems, heap, visited + {v.addr});
         Walked(Plus(all.result, UnusedCapacity(|v.elems|, v.cap, v.elemWidth) + v.width), all.visited)
  {
  }

  method WalkSlice(v: Value, heap: Heap, visited0: set<Addr>) returns (r: SizeResult, visited: set<Addr>)
    requires v.SliceOf? && InMemory(v, heap)
    ensures Walked(r, visited) == SizeOfSlice(v, heap, visited0)
    decreases |heap.Keys - visited0|, v, 0
  {
    visited := visited0;
    if v.addr in visited {
      return Bytes(0), visited;
    }
    SliceUnvisited(v, heap, visited0);
    visited := visited + {v.addr};
    MarkingShrinksUnvisited(heap.Keys, visited0, visited);
    var s;
    s, visited := WalkAll(v.elems, heap, visited);
    r := Plus(s, UnusedCapacity(|v.elems|, v.cap, v.elemWidth) + v.width);
  }

  method WalkStruct(v: Value, heap: Heap, visited0: set<Addr>) returns (r: SizeResult, visited: set<Addr>)
    requires v.StructOf? && InMemory(v, heap)
    ensures Walked(r, visited) == SizeOf(v, heap, visited0)
    decreases |heap.Keys - visited0|, v, 0
  {
    var s;
    s, visited := WalkAll(v.fields, heap, visited0);
    assert SizeOf(v, heap, visited0) == Walked(Plus(s, v.width - SumWidths(v.fields)), visited);
    if s.UnknownType? {
      return s, visited;
    }
    // The declared width less each field's static width.
    var padding: int := v.width;
    for i := 0 to |v.fields|
      invariant padding == v.width - SumWidths(v.fields[..i])
    {
      assert v.fields[..i + 1][..i] == v.fields[..i];
      padding := padding - v.fields[i].width;
    }
    assert v.fields[..|v.fields|] == v.fields;
    return Bytes(s.n + padding), visited;
  }

  method WalkPointer(v: Value, heap: Heap, visited0: set<Addr>) returns (r: SizeResult, visited: set<Addr>)
    requires v.Ptr? && InMemory(v, heap)
    ensures Walked(r, visited) == SizeOfPointer(v, heap, visited0)
    decreases |heap.Keys - visited0|, v, 0
  {
    visited := visited0;
    if v.target in visited {
      return Bytes(v.width), visited;
    }
    visited := visited + {v.target};
    if v.target == Nil {
      return Bytes(v.width), visited;
    }
    MarkingHeapAddressShrinks(heap.Keys, visited0, v.target);
    var s;
    s, visited := Walk(heap[v.target], heap, visited);
    assert SizeOfPointer(v, heap, visited0) == Walked(Plus(s, v.width), visited);
    if s.UnknownType? {
      return s, visited;
    }
    return Bytes(s.n + v.width), visited;
  }

  /** Unfolds SizeOfMap for a map not yet visited. */
  lemma MapUnvisited(v: Value, heap: Heap, visited: set<Addr>)
    requires v.MapOf? && InMemory(v, heap) && v.addr !in visited
    ensures EntriesInMemory(v.entries, heap)
    ensures SizeOfMap(v, heap, visited)
      == var all := SizeOfEntries(v.entries, heap, visited + {v.addr});
         Walked(Plus(all.result, v.width + BucketOverhead(|v.entries|)), all.visited)
  {
  }

  method WalkMap(v: Value, heap: Heap, visited0: set<Addr>) returns (r: SizeResult, visited: set<Addr>)
    requires v.MapOf? && InMemory(v, heap)
    ensures Walked(r, visited) == SizeOfMap(v, heap, visited0)
    decreases |heap.Keys - visited0|, v, 0
  {
    visited := visited0;
    if v.addr in visited {
      return Bytes(0), visited;
    }
    MapUnvisited(v, heap, visited0);
    visited := visited + {v.addr};
    MarkingShrinksUnvisited(heap.Keys, visited0, visited);
    var s;
    s, visited := WalkEntries(v.entries, heap, visited);
    r := Plus(s, v.width + BucketOverhead(|v.entries|));
  }

  /** The summing loop that size.go repeats for arrays, slices and structs. */
  method WalkAll(vs: seq<Value>, heap: Heap, visited0: set<Addr>) returns (r: SizeResult, visited: set<Addr>)
    requires AllInMemory(vs, heap)
    ensures Walked(r, visited) == SizeOfAll(vs, heap, visited0)
    decreases |heap.Keys - visited0|, vs
  {
    visited := visited0;
    var sum: nat := 0;
    for i := 0 to |vs|
      invariant visited0 <= visited
      invariant SizeOfAll(vs[..i], heap, visited0) == Walked(Bytes(sum), visited)
    {
      MarkingShrinksUnvisited(heap.Keys, visited0, visited);
      ghost var mid := visited;
      var s;
      s, visited := Walk(vs[i], heap, visited);
      SizeOfAllStep(vs, i, heap, visited0, sum, mid, s, visited);
      if s.UnknownType? {
        return s, visited;
      }
      sum := sum + s.n;
    }
    assert vs[..|vs|] == vs;
    return Bytes(sum), visited;
  }

  /** The loop over map keys: each value, then its key. */
  method WalkEntries(es: seq<Entry>, heap: Heap, visited0: set<Addr>) returns (r: SizeResult, visited: set<Addr>)
    requires EntriesInMemory(es, heap)
    ensures Walked(r, visited) == SizeOfEntries(es, heap, visited0)
    decreases |heap.Keys - visited0|, es
  {
    visited := visited0;
    var sum: nat := 0;
    for i := 0 to |es|
      invariant visited0 <= visited
      invariant SizeOfEntries(es[..i], heap, visited0) == Walked(Bytes(sum), visited)
    {
      MarkingShrinksUnvisited(heap.Keys, visited0, visited);
      ghost var mid := visited;
      var s;
      s, visited := WalkEntry(es[i], heap, visited);
      SizeOfEntriesStep(es, i, heap, visited0, sum, mid, s, visited);
      if s.UnknownType? {
        return s, visited;
      }
      sum := sum + s.n;
    }
    assert es[..|es|] == es;
    return Bytes(sum), visited;
  }

  /** One pass of the map loop: size the value, then the key, and add both. */
  method WalkEntry(e: Entry, heap: Heap, visited0: set<Addr>) returns (r: SizeResult, visited: set<Addr>)
    requires EntryWellFormed(e, heap.Keys) && HeapWellFormed(heap)
    ensures Walked(r, visited) == SizeOfEntry(e, heap, visited0)
    decreases |heap.Keys - visited0|, e
  {
    var s1, s2;
    s1, visited := Walk(e.val, heap, visited0);
    if s1.UnknownType? {
      return s1, visited;
    }
    MarkingShrinksUnvisited(heap.Keys, visited0, visited);
    s2, visited := Walk(e.key, heap, visited);
    r := Add(s1, s2);
  }
}
