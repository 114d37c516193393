/** Properties of the cache of cache.go: what eviction removes, what it
    reports, and when it leaves the cache within its budget. */
module CacheFacts {
  import opened Cache

  /** The snapshot once the `i` oldest queue positions are gone: the queue
      loses its first `i` keys, the map every entry whose key is among them. */
  function Drop<T>(q: Queue<T>, i: nat): Queue<T>
    requires i <= |q.order|
  {
    Queue(q.data - (set k | k in q.order[..i]), q.order[i..])
  }

  /** The bytes freed by emptying the `j` oldest queue positions: each key
      counts once, at its oldest position, with the size of its value. */
  function Reclaimed<T>(q: Queue<T>, j: nat, valSize: T -> nat): nat
    requires j <= |q.order|
  {
    if j == 0 then 0
    else
      var k := q.order[j - 1];
      Reclaimed(q, j - 1, valSize) + (if k in q.data && k !in q.order[..j - 1] then valSize(q.data[k]) else 0)
  }

  lemma {:induction false} DropNone<T>(q: Queue<T>)
    ensures Drop(q, 0) == q
  {
    assert q.order[..0] == [];
  }

  /** A shift takes exactly the next queue position away. */
  lemma {:induction false} ShiftDrop<T>(q: Queue<T>, i: nat)
    requires i < |q.order|
    ensures ShiftOf(Drop(q, i)).queue == Drop(q, i + 1)
  {
    var d := Drop(q, i);
    var k := q.order[i];
    assert d.order[0] == k;
    assert q.order[..i + 1] == q.order[..i] + [k];
    assert d.order[1..] == q.order[i + 1..];
    assert ShiftOf(d).queue.data == Drop(q, i + 1).data;
  }

  /** ... and frees the value of that position's key if no older position
      held the same key. */
  lemma {:induction false} ShiftFrees<T>(q: Queue<T>, i: nat, valSize: T -> nat)
    requires i < |q.order|
    ensures Reclaimed(q, i + 1, valSize) == Reclaimed(q, i, valSize) + Freed(ShiftOf(Drop(q, i)).taken, valSize)
  {
    var d := Drop(q, i);
    assert d.order[0] == q.order[i];
    assert q.order[..i + 1][..i] == q.order[..i];
  }

  /** Eviction stops only within budget or with nothing left to shift. */
  lemma {:induction false} EvictStops<T>(q: Queue<T>, lim: Limits<T>)
    ensures !Exceeded(Evict(q, lim).queue, lim) || Evict(q, lim).queue.order == []
    decreases |q.order|
  {
    if Exceeded(q, lim) && q.order != [] {
      EvictStops(ShiftOf(q).queue, lim);
    }
  }

  /** Eviction started with the `i` oldest positions gone ends with the `j`
      oldest gone, for some `j >= i`, counting the values those positions
      free. */
  lemma {:induction false} EvictFrom<T>(q: Queue<T>, lim: Limits<T>, i: nat)
    requires i <= |q.order|
    ensures var r := Evict(Drop(q, i), lim);
      var j := |q.order| - |r.queue.order|;
      i <= j && r.queue == Drop(q, j)
      && r.count + Reclaimed(q, i, lim.valSize) == Reclaimed(q, j, lim.valSize)
    decreases |q.order| - i
  {
    var d := Drop(q, i);
    if Exceeded(d, lim) && d.order != [] {
      ShiftDrop(q, i);
      ShiftFrees(q, i, lim.valSize);
      EvictFrom(q, lim, i + 1);
    }
  }

  /** Every snapshot eviction passes through on the way is over budget. */
  lemma {:induction false} EvictPassesOverBudget<T>(q: Queue<T>, lim: Limits<T>, i: nat)
    requires i <= |q.order|
    ensures var j := |q.order| - |Evict(Drop(q, i), lim).queue.order|;
      forall m :: i <= m < j ==> Exceeded(Drop(q, m), lim)
    decreases |q.order| - i
  {
    var d := Drop(q, i);
    if Exceeded(d, lim) && d.order != [] {
      ShiftDrop(q, i);
      EvictPassesOverBudget(q, lim, i + 1);
    }
  }

  /** freeToMaxBytes evicts the oldest keys first, and no more of them than it
      must: it ends at the first queue position `j` where the budget holds (or
      at the end of the queue), having removed exactly the entries of the keys
      before `j`, and it reports the sizes of exactly those values. */
  lemma EvictIsOldestPrefix<T>(q: Queue<T>, lim: Limits<T>)
    ensures var r := Evict(q, lim);
      r.queue == Drop(q, |q.order| - |r.queue.order|)
    ensures var r := Evict(q, lim);
      r.count == Reclaimed(q, |q.order| - |r.queue.order|, lim.valSize)
    ensures var j := |q.order| - |Evict(q, lim).queue.order|;
      forall m :: 0 <= m < j ==> Exceeded(Drop(q, m), lim)
    ensures !Exceeded(Evict(q, lim).queue, lim) || Evict(q, lim).queue.order == []
  {
    EvictDropsOldest(q, lim);
    EvictPassesOverBudgetFromStart(q, lim);
    EvictStops(q, lim);
  }

  lemma EvictDropsOldest<T>(q: Queue<T>, lim: Limits<T>)
    ensures var r := Evict(q, lim);
      var j := |q.order| - |r.queue.order|;
      r.queue == Drop(q, j) && r.count == Reclaimed(q, j, lim.valSize)
  {
    DropNone(q);
    EvictFrom(q, lim, 0);
  }

  lemma EvictPassesOverBudgetFromStart<T>(q: Queue<T>, lim: Limits<T>)
    ensures var j := |q.order| - |Evict(q, lim).queue.order|;
      forall m :: 0 <= m < j ==> Exceeded(Drop(q, m), lim)
  {
    DropNone(q);
    EvictPassesOverBudget(q, lim, 0);
  }

  /** Once every position is gone, so is every entry that was queued. */
  lemma {:induction false} DropAllEmpties<T>(q: Queue<T>)
    requires Covered(q)
    ensures Drop(q, |q.order|) == Queue(map[], [])
  {
    assert q.order[..|q.order|] == q.order;
  }

  /** After eviction the cache is within its budget, or it is empty. When an
      empty cache fits the budget, it is always within it. */
  lemma {:induction false} EvictWithinBudget<T>(q: Queue<T>, lim: Limits<T>)
    requires Covered(q)
    ensures !Exceeded(Evict(q, lim).queue, lim) || Evict(q, lim).queue == Queue(map[], [])
    ensures lim.dataSize(map[]) <= lim.maxBytes ==> !Exceeded(Evict(q, lim).queue, lim)
  {
    EvictIsOldestPrefix(q, lim);
    DropAllEmpties(q);
  }

  /** Dropping positions keeps every remaining entry queued. */
  lemma {:induction false} DropKeepsCovered<T>(q: Queue<T>, i: nat)
    requires Covered(q) && i <= |q.order|
    ensures Covered(Drop(q, i))
  {
    var d := Drop(q, i);
    forall k | k in d.data
      ensures k in d.order
    {
      var n :| 0 <= n < |q.order| && q.order[n] == k;
      if n >= i {
        assert d.order[n - i] == k;
      }
    }
  }

  /** Storing an entry and queueing its key keeps every entry queued. */
  lemma {:induction false} StoreKeepsCovered<T>(q: Queue<T>, key: string, value: T)
    requires Covered(q)
    ensures Covered(Queue(q.data[key := value], q.order + [key]))
  {
    var p := Queue(q.data[key := value], q.order + [key]);
    assert p.order[|q.order|] == key;
    forall k | k in p.data
      ensures k in p.order
    {
      if k != key {
        var n :| 0 <= n < |q.order| && q.order[n] == k;
        assert p.order[n] == k;
      }
    }
  }

  /** Set keeps every entry queued. */
  lemma {:induction false} SetKeepsCovered<T>(q: Queue<T>, key: string, value: T, lim: Limits<T>)
    requires Covered(q)
    ensures Covered(SetOf(q, key, value, lim).queue)
  {
    var p := Queue(q.data[key := value], q.order + [key]);
    StoreKeepsCovered(q, key, value);
    EvictIsOldestPrefix(p, lim);
    DropKeepsCovered(p, |p.order| - |Evict(p, lim).queue.order|);
  }

  /** Whatever Set evicts, the key it stored keeps the value it was given
      while it is still held. */
  lemma {:induction false} SetKeepsNewValue<T>(q: Queue<T>, key: string, value: T, lim: Limits<T>)
    ensures var r := SetOf(q, key, value, lim).queue;
      key in r.data ==> r.data[key] == value
  {
    var p := Queue(q.data[key := value], q.order + [key]);
    EvictIsOldestPrefix(p, lim);
  }

  /** A key that was not queued before is the newest position, so Set evicts
      it only after every other entry: if it is gone, the cache is empty. */
  lemma {:induction false} FreshKeyEvictedLast<T>(q: Queue<T>, key: string, value: T, lim: Limits<T>)
    requires Covered(q) && key !in q.order
    ensures var r := SetOf(q, key, value, lim).queue;
      key !in r.data ==> r == Queue(map[], [])
  {
    var p := Queue(q.data[key := value], q.order + [key]);
    StoreKeepsCovered(q, key, value);
    EvictIsOldestPrefix(p, lim);
    var r := Evict(p, lim);
    var j := |p.order| - |r.queue.order|;
    if key !in r.queue.data {
      assert key in p.order[..j];
      var n :| 0 <= n < j && p.order[..j][n] == key;
      assert n == |q.order|;
      DropAllEmpties(p);
    }
  }

  /** Setting a key that is still queued queues it a second time. Its oldest
      position now stands for the new value: reaching it frees that value. The
      newest position is stale and frees nothing. */
  lemma {:induction false} ReSetCountsAtOldestPosition<T>(q: Queue<T>, key: string, value: T, i: nat, valSize: T -> nat)
    requires i < |q.order| && q.order[i] == key && key !in q.order[..i]
    ensures var p := Queue(q.data[key := value], q.order + [key]);
      Reclaimed(p, i + 1, valSize) == Reclaimed(p, i, valSize) + valSize(value) &&
      Reclaimed(p, |p.order|, valSize) == Reclaimed(p, |q.order|, valSize)
  {
    var p := Queue(q.data[key := value], q.order + [key]);
    assert p.order[..i] == q.order[..i];
    assert p.order[i] == key;
    assert p.order[|q.order|] == key;
    assert p.order[..|q.order|] == q.order;
  }

  // ---------------------------------------------------------------------------
  // The eviction loop as written never stops on an empty, over-budget cache

  /** On an empty cache over its budget, a pass of the loop as cache.go writes
      it shifts nothing and the budget test fails again, for any number of
      passes: freeToMaxBytes never returns. */
  lemma {:induction false} AsWrittenStuckWhenEmpty<T>(lim: Limits<T>, n: nat)
    requires lim.dataSize(map[]) > lim.maxBytes
    ensures StepsAsWritten(Queue(map[], []), lim, n) == Evicted(Queue(map[], []), 0)
    ensures Exceeded(StepsAsWritten(Queue(map[], []), lim, n).queue, lim)
  {
    if n > 0 {
      AsWrittenStuckWhenEmpty(lim, n - 1);
    }
  }

  /** The smallest case: a cache of budget 0 holding ints, where every map
      costs at least its 8-byte header. Setting one key evicts it and then
      spins on the empty cache: no number of passes leaves the loop. */
  lemma {:induction false} ZeroBudgetSetNeverReturns(lim: Limits<int>, n: nat)
    requires lim.maxBytes == 0
    requires forall m :: lim.dataSize(m) >= 8
    ensures Exceeded(StepsAsWritten(Queue(map["a" := 1], ["a"]), lim, n).queue, lim)
  {
    var p := Queue(map["a" := 1], ["a"]);
    if n > 0 {
      var s := ShiftOf(p).queue;
      assert s.data == map[] && s.order == [];
      AsWrittenStuckWhenEmpty(lim, n - 1);
    }
  }

  /** When an empty cache fits the budget the added exit never fires early: the
      loop as written leaves within |order| passes, in the state and with the
      count Evict gives. */
  lemma {:induction false} AsWrittenAgreesWithinBudget<T>(q: Queue<T>, lim: Limits<T>)
    requires Covered(q) && lim.dataSize(map[]) <= lim.maxBytes
    ensures StepsAsWritten(q, lim, |q.order|) == Evict(q, lim)
    ensures !Exceeded(StepsAsWritten(q, lim, |q.order|).queue, lim)
  {
    AsWrittenMatchesEvict(q, lim);
    EvictWithinBudget(q, lim);
  }

  lemma {:induction false} AsWrittenMatchesEvict<T>(q: Queue<T>, lim: Limits<T>)
    requires Covered(q) && lim.dataSize(map[]) <= lim.maxBytes
    ensures StepsAsWritten(q, lim, |q.order|) == Evict(q, lim)
    decreases |q.order|
  {
    if Exceeded(q, lim) {
      assert q.data != map[];
      var k :| k in q.data;
      assert k in q.order;
      var s := ShiftOf(q);
      assert |s.queue.order| == |q.order| - 1;
      ShiftKeepsCovered(q);
      AsWrittenMatchesEvict(s.queue, lim);
    }
  }

}
