/** Model of cache.go: a key/value cache that holds at most a given number of
    bytes and evicts the oldest keys first.

    The cache's state is a map from keys to values and the queue of keys in the
    order they were set. The functions on `Queue` below say what each
    operation does to that state; the class `MaxBytesCache` is the cache
    itself, with methods that update its fields as cache.go does and are proved
    to agree with those functions. */
module Cache {
  import Size

  datatype Option<T> = None | Some(value: T)

  /** A snapshot of a cache: `data` holds the entries, `order` the keys in the
      order they were set (a key set twice is queued twice). */
  datatype Queue<T> = Queue(data: map<string, T>, order: seq<string>)

  /** What a cache is allowed to hold, and how its bytes are counted:
      `dataSize` is what mustCalcSize reports for the whole map, `valSize` what
      it reports for one value. */
  datatype Limits<!T> = Limits(maxBytes: nat, dataSize: map<string, T> -> nat, valSize: T -> nat)

  /** maxBytesExceeded (cache.go:47-49). */
  predicate Exceeded<T>(q: Queue<T>, lim: Limits<T>) {
    lim.dataSize(q.data) > lim.maxBytes
  }

  /** Every key that holds an entry is still queued, so eviction can reach it. */
  predicate Covered<T>(q: Queue<T>) {
    forall k :: k in q.data ==> k in q.order
  }

  /** The snapshot after shift, and the entry it took out, if any. */
  datatype Shifted<T> = Shifted(queue: Queue<T>, taken: Option<T>)

  /** shift and shiftKey (cache.go:70-93): pop the oldest queued key and
      delete its entry. A key whose entry is already gone yields nothing. */
  function ShiftOf<T>(q: Queue<T>): (r: Shifted<T>)
    ensures q.order == [] ==> r == Shifted(q, None)
    ensures q.order != [] ==> |r.queue.order| == |q.order| - 1 && q.order[0] !in r.queue.data
    ensures r.taken.Some? <==> q.order != [] && q.order[0] in q.data
    ensures r.taken.Some? ==> r.taken.value == q.data[q.order[0]]
  {
    if q.order == [] then Shifted(q, None)
    else
      var key := q.order[0];
      var rest := Queue(q.data - {key}, q.order[1..]);
      if key in q.data then Shifted(rest, Some(q.data[key])) else Shifted(rest, None)
  }

  /** The bytes a shift frees, as freeToMaxBytes counts them (cache.go:58-61). */
  function Freed<T>(t: Option<T>, valSize: T -> nat): nat {
    if t.Some? then valSize(t.value) else 0
  }

  /** The result of freeToMaxBytes: the snapshot it leaves and the bytes it
      reports. */
  datatype Evicted<T> = Evicted(queue: Queue<T>, count: nat)

  /** freeToMaxBytes (cache.go:51-64), with one exit added: once the queue is
      empty the loop stops even when the budget is still exceeded. cache.go has
      no such exit and loops forever there (see `StepsAsWritten`). */
  function Evict<T>(q: Queue<T>, lim: Limits<T>): (r: Evicted<T>)
    ensures |r.queue.order| <= |q.order|
    decreases |q.order|
  {
    if !Exceeded(q, lim) || q.order == [] then Evicted(q, 0)
    else
      var s := ShiftOf(q);
      var rest := Evict(s.queue, lim);
      Evicted(rest.queue, rest.count + Freed(s.taken, lim.valSize))
  }

  /** Set (cache.go:34-45) on a snapshot: store the entry, queue the key, and
      evict if the budget is exceeded. */
  function SetOf<T>(q: Queue<T>, key: string, value: T, lim: Limits<T>): (r: Evicted<T>)
    ensures !Exceeded(Queue(q.data[key := value], q.order + [key]), lim)
            ==> r == Evicted(Queue(q.data[key := value], q.order + [key]), 0)
  {
    Evict(Queue(q.data[key := value], q.order + [key]), lim)
  }

  // ---------------------------------------------------------------------------
  // The eviction loop as cache.go writes it

  /** The snapshot and the count after `n` passes of freeToMaxBytes's loop
      exactly as cache.go:52-62 writes it: a pass exits if the budget holds and
      otherwise shifts, whether or not anything is left to shift, adding the
      size of what it took to the count. */
  function StepsAsWritten<T>(q: Queue<T>, lim: Limits<T>, n: nat): (r: Evicted<T>)
    ensures !Exceeded(q, lim) ==> r == Evicted(q, 0)
    decreases n
  {
    if n == 0 || !Exceeded(q, lim) then Evicted(q, 0)
    else
      var s := ShiftOf(q);
      var rest := StepsAsWritten(s.queue, lim, n - 1);
      Evicted(rest.queue, rest.count + Freed(s.taken, lim.valSize))
  }

  // ---------------------------------------------------------------------------
  // The cache object

  /** MaxBytesCache (cache.go:5-10). The mutex is not modelled; the byte
      counting of size.go enters through `dataSize` and `valSize`. */
  class MaxBytesCache<T> {
    var data: map<string, T>
    var order: seq<string>
    const maxBytes: nat
    /** The zero value of T, which Get returns for a missing key. */
    const zero: T
    const dataSize: map<string, T> -> nat
    const valSize: T -> nat

    function Snapshot(): Queue<T>
      reads this
    {
      Queue(data, order)
    }

    function Limit(): Limits<T> {
      Limits(maxBytes, dataSize, valSize)
    }

    /** The object invariant: every entry is queued for eviction. */
    predicate Valid()
      reads this
    {
      Covered(Snapshot())
    }

    /** The struct literal of NewMaxBytesCache (cache.go:19-24). */
    constructor (maxBytes: nat, zero: T, dataSize: map<string, T> -> nat, valSize: T -> nat)
      ensures data == map[] && order == []
      ensures this.maxBytes == maxBytes && this.zero == zero
      ensures this.dataSize == dataSize && this.valSize == valSize
      ensures Valid()
    {
      data := map[];
      order := [];
      this.maxBytes := maxBytes;
      this.zero := zero;
      this.dataSize := dataSize;
      this.valSize := valSize;
    }

    /** Get (cache.go:27-32): the entry for `key`, or the zero value. */
    function Get(key: string): (v: T)
      reads this
      ensures key in data ==> v == data[key]
      ensures key !in data ==> v == zero
    {
      if key in data then data[key] else zero
    }

    /** dataSize (cache.go:66-68): the aggregate size of the entries, the
        quantity the budget is checked against. */
    function DataSize(): (n: nat)
      reads this
      ensures n == Limit().dataSize(Snapshot().data)
      ensures n > maxBytes <==> Exceeded(Snapshot(), Limit())
    {
      dataSize(data)
    }

    /** maxBytesExceeded (cache.go:47-49). */
    predicate MaxBytesExceeded()
      reads this
      ensures MaxBytesExceeded() <==> Exceeded(Snapshot(), Limit())
    {
      DataSize() > maxBytes
    }

    /** shiftKey (cache.go:85-93): pop the oldest queued key. */
    method ShiftKey() returns (key: Option<string>)
      modifies this
      ensures old(order) == [] ==> key == None && order == []
      ensures old(order) != [] ==> key == Some(old(order)[0]) && order == old(order)[1..]
      ensures data == old(data)
    {
      if |order| == 0 {
        return None;
      }
      key := Some(order[0]);
      order := order[1..];
    }

    /** shift (cache.go:70-83). */
    method Shift() returns (t: Option<T>)
      modifies this
      ensures Shifted(Snapshot(), t) == ShiftOf(old(Snapshot()))
    {
      var key := ShiftKey();
      if key.None? {
        return None;
      }
      var k := key.value;
      var ok := k in data;
      if ok {
        t := Some(data[k]);
      } else {
        t := None;
      }
      data := data - {k};
    }

    /** freeToMaxBytes (cache.go:51-64), with the loop also stopping once
        nothing is left to evict. */
    method FreeToMaxBytes() returns (count: nat)
      modifies this
      requires Valid()
      ensures Valid()
      ensures Evicted(Snapshot(), count) == Evict(old(Snapshot()), Limit())
    {
      count := 0;
      ghost var start := Snapshot();
      while MaxBytesExceeded() && |order| != 0
        invariant Valid()
        invariant Evict(start, Limit()) == Evicted(Evict(Snapshot(), Limit()).queue, Evict(Snapshot(), Limit()).count + count)
        decreases |order|
      {
        ghost var before := Snapshot();
        var t := Shift();
        ShiftKeepsCovered(before);
        if t.Some? {
          count := count + valSize(t.value);
        }
      }
    }

    /** Set (cache.go:34-45). */
    method Set(key: string, value: T) returns (evicted: nat)
      modifies this
      requires Valid()
      ensures Valid()
      ensures Evicted(Snapshot(), evicted) == SetOf(old(Snapshot()), key, value, Limit())
    {
      data := data[key := value];
      order := order + [key];
      if MaxBytesExceeded() {
        evicted := FreeToMaxBytes();
        return;
      }
      return 0;
    }
  }

  /** NewMaxBytesCache (cache.go:12-25): the zero value of T must be sizable,
      or there is no cache and the sizing error is returned. `zeroLayout` is the
      zero value of T as size.go sees it, in the pointees of `heap`. */
  method NewMaxBytesCache<T>(maxBytes: nat, zero: T, zeroLayout: Size.Value, heap: Size.Heap,
                             dataSize: map<string, T> -> nat, valSize: T -> nat)
    returns (c: MaxBytesCache?<T>, err: Option<Size.Kind>)
    requires Size.InMemory(zeroLayout, heap)
    ensures err.Some? <==> Size.CalcSize(zeroLayout, heap).UnknownType?
    ensures err.Some? ==> c == null && err.value == Size.CalcSize(zeroLayout, heap).kind
    ensures err.None? ==> c != null && fresh(c) && c.Valid() && c.data == map[] && c.order == []
    ensures err.None? ==> c.maxBytes == maxBytes && c.zero == zero
    ensures err.None? ==> c.dataSize == dataSize && c.valSize == valSize
  {
    var r := Size.CalcSize(zeroLayout, heap);
    if r.UnknownType? {
      return null, Some(r.kind);
    }
    c := new MaxBytesCache(maxBytes, zero, dataSize, valSize);
    err := None;
  }

  /** A shift keeps every remaining entry queued. */
  lemma {:induction false} ShiftKeepsCovered<T>(q: Queue<T>)
    requires Covered(q)
    ensures Covered(ShiftOf(q).queue)
  {
    if q.order != [] {
      var r := ShiftOf(q).queue;
      forall k | k in r.data
        ensures k in r.order
      {
        var i :| 0 <= i < |q.order| && q.order[i] == k;
        assert i != 0;
        assert r.order[i - 1] == k;
      }
    }
  }
}
