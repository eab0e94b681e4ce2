/** The bounded cache of condensed pages, against the whole history of what was put in it. */
module CondensationCaches {
  import opened Options
  import opened Sequences

  function Without<T(==)>(s: seq<T>, x: T): seq<T>
    decreases |s|
  {
    if s == [] then []
    else if s[0] == x then Without(s[1..], x)
    else [s[0]] + Without(s[1..], x)
  }

  datatype Insertion<K, V> = Insertion(key: K, page: V)

  /** The distinct keys ever inserted, ordered by their last insertion, the latest last. */
  function ByLastInsertion<K(==), V>(history: seq<Insertion<K, V>>): seq<K>
    decreases |history|
  {
    if history == [] then []
    else
      var key := history[|history| - 1].key;
      Without(ByLastInsertion(history[..|history| - 1]), key) + [key]
  }

  /** The page of the last insertion of a key. */
  function LastPage<K(==), V>(history: seq<Insertion<K, V>>, key: K): Option<V>
    decreases |history|
  {
    if history == [] then None
    else if history[|history| - 1].key == key then Some(history[|history| - 1].page)
    else LastPage(history[..|history| - 1], key)
  }

  /** The keys inserted since the last insertion of `key`. */
  function Since<K(==), V>(history: seq<Insertion<K, V>>, key: K): set<K>
    decreases |history|
  {
    if history == [] || history[|history| - 1].key == key then {}
    else Since(history[..|history| - 1], key) + {history[|history| - 1].key}
  }

  lemma {:induction false} WithoutMembers<T>(s: seq<T>, x: T, y: T)
    ensures y in Without(s, x) <==> y in s && y != x
    decreases |s|
  {
    if s != [] {
      WithoutMembers(s[1..], x, y);
    }
  }

  lemma {:induction false} WithoutAbsent<T>(s: seq<T>, x: T)
    requires x !in s
    ensures Without(s, x) == s
    decreases |s|
  {
    if s != [] {
      WithoutAbsent(s[1..], x);
    }
  }

  lemma {:induction false} WithoutConcat<T>(a: seq<T>, b: seq<T>, x: T)
    ensures Without(a + b, x) == Without(a, x) + Without(b, x)
    decreases |a|
  {
    if a == [] {
      assert a + b == b;
    } else {
      WithoutConcat(a[1..], b, x);
      assert (a + b)[0] == a[0] && (a + b)[1..] == a[1..] + b;
      var here, rest := Without(a[1..], x), Without(b, x);
      assert Without(a + b, x) == if a[0] == x then here + rest else [a[0]] + (here + rest);
    }
  }

  lemma WithoutItself<T>(x: T)
    ensures Without([x], x) == []
  {
    assert [x][1..] == [];
  }

  lemma WithoutAt<T>(s: seq<T>, i: nat)
    requires i < |s| && Distinct(s)
    ensures Without(s, s[i]) == s[..i] + s[i + 1..]
  {
    hide Without;
    assert s == s[..i] + [s[i]] + s[i + 1..];
    WithoutConcat(s[..i] + [s[i]], s[i + 1..], s[i]);
    WithoutConcat(s[..i], [s[i]], s[i]);
    WithoutAbsent(s[..i], s[i]);
    WithoutAbsent(s[i + 1..], s[i]);
    WithoutItself(s[i]);
  }

  lemma {:induction false} WithoutDistinct<T>(s: seq<T>, x: T)
    requires Distinct(s)
    ensures Distinct(Without(s, x))
    decreases |s|
  {
    if x in s {
      var i :| 0 <= i < |s| && s[i] == x;
      WithoutAt(s, i);
    } else {
      WithoutAbsent(s, x);
    }
  }

  /** The listing is duplicate-free and names exactly the keys inserted. */
  lemma {:induction false} ByLastInsertionIsDistinct<K, V>(history: seq<Insertion<K, V>>, key: K)
    ensures Distinct(ByLastInsertion(history))
    ensures key in ByLastInsertion(history) <==> LastPage(history, key).Some?
    decreases |history|
  {
    if history != [] {
      var front, newest := history[..|history| - 1], history[|history| - 1].key;
      ByLastInsertionIsDistinct(front, key);
      WithoutDistinct(ByLastInsertion(front), newest);
      WithoutMembers(ByLastInsertion(front), newest, key);
      WithoutMembers(ByLastInsertion(front), newest, newest);
    }
  }

  /** Where a key stands in the listing: what comes after it is exactly what was inserted since. */
  lemma {:induction false} AfterIsSince<K, V>(history: seq<Insertion<K, V>>, key: K) returns (i: nat)
    requires LastPage(history, key).Some?
    ensures i < |ByLastInsertion(history)| && ByLastInsertion(history)[i] == key
    ensures |ByLastInsertion(history)| - 1 - i == |Since(history, key)|
    ensures Since(history, key) == Members(ByLastInsertion(history)[i + 1..])
    decreases |history|
  {
    hide ByLastInsertion, LastPage, Since, Without, Members;
    Unfold(history, key);
    var front, newest := history[..|history| - 1], history[|history| - 1].key;
    if newest == key {
      i := |Without(ByLastInsertion(front), newest)|;
      assert ByLastInsertion(history)[i + 1..] == [];
      assert Since(history, key) == Members<K>([]);
    } else {
      var j := AfterIsSince(front, key);
      ByLastInsertionIsDistinct(front, key);
      var before, since := ByLastInsertion(front), Since(front, key);
      var tail := before[j + 1..];
      i := KeepsItsPlace(before, j, newest, ByLastInsertion(history), tail);
      TailMoves(tail, newest);
      OneMoreCounted(since, newest);
    }
  }

  lemma Unfold<K, V>(history: seq<Insertion<K, V>>, key: K)
    requires LastPage(history, key).Some?
    ensures history != []
    ensures var front, newest := history[..|history| - 1], history[|history| - 1].key;
      && ByLastInsertion(history) == Without(ByLastInsertion(front), newest) + [newest]
      && Since(history, key) == (if newest == key then {} else Since(front, key) + {newest})
      && (newest != key ==> LastPage(front, key) == LastPage(history, key))
    ensures Members<K>([]) == {}
  {
  }

  lemma OneMoreCounted<K>(s: set<K>, x: K)
    ensures |s + {x}| == |s| + if x in s then 0 else 1
  {
    if x in s {
      assert s + {x} == s;
    } else {
      assert s * {x} == {};
    }
  }

  lemma TailMoves<K>(tail: seq<K>, newest: K)
    requires Distinct(tail)
    ensures Members(Without(tail, newest) + [newest]) == Members(tail) + {newest}
    ensures |Without(tail, newest) + [newest]| == |tail| + if newest in Members(tail) then 0 else 1
  {
    WithoutCount(tail, newest);
    var after := Without(tail, newest) + [newest];
    forall k | k in Members(after) ensures k in Members(tail) + {newest} {
      WithoutMembers(tail, newest, k);
    }
    forall k | k in Members(tail) + {newest} ensures k in Members(after) {
      WithoutMembers(tail, newest, k);
      assert after[|after| - 1] == newest;
    }
    assert Members(after) == Members(tail) + {newest};
  }

  lemma KeepsItsPlace<K>(before: seq<K>, j: nat, newest: K, after: seq<K>, tail: seq<K>) returns (i: nat)
    requires j < |before| && before[j] != newest
    requires after == Without(before, newest) + [newest] && tail == before[j + 1..]
    ensures i < |after| && after[i] == before[j] && after[i + 1..] == Without(tail, newest) + [newest]
  {
    assert before == before[..j] + [before[j]] + before[j + 1..];
    WithoutConcat(before[..j] + [before[j]], before[j + 1..], newest);
    WithoutConcat(before[..j], [before[j]], newest);
    assert [before[j]][1..] == [];
    i := |Without(before[..j], newest)|;
  }

  lemma WithoutCount<T>(s: seq<T>, x: T)
    requires Distinct(s)
    ensures |Without(s, x)| == |s| - if x in s then 1 else 0
  {
    if x in s {
      var i :| 0 <= i < |s| && s[i] == x;
      WithoutAt(s, i);
    } else {
      WithoutAbsent(s, x);
    }
  }

  /** A page is identified by where it came from and the revision it settled at. */
  datatype SettleKey = SettleKey(url: Option<string>, revision: nat)

  class CondensationCache<V> {
    const capacity: nat
    var order: seq<SettleKey>
    var entries: map<SettleKey, V>
    /** Every insertion ever made. */
    ghost var history: seq<Insertion<SettleKey, V>>

    ghost predicate Valid()
      reads this
    {
      && capacity > 0
      && order == Newest(ByLastInsertion(history), capacity)
      && entries.Keys == Members(order)
      && (forall k :: k in entries ==> Some(entries[k]) == LastPage(history, k))
    }

    constructor (requested: nat)
      ensures Valid() && history == []
      ensures capacity == if requested == 0 then 1 else requested
    {
      capacity := if requested == 0 then 1 else requested;
      order, entries, history := [], map[], [];
    }

    method Get(key: SettleKey) returns (page: Option<V>)
      requires Valid()
      ensures page == if key in entries then Some(entries[key]) else None
    {
      return if key in entries then Some(entries[key]) else None;
    }

    /** Where a key stands, or the length when it is not there. */
    static method Position(order: seq<SettleKey>, key: SettleKey) returns (position: nat)
      ensures FoundAt(order, key, position)
      ensures key in order <==> position < |order|
    {
      position := 0;
      while position < |order| && order[position] != key
        invariant position <= |order|
        invariant key !in order[..position]
      {
        assert order[..position + 1] == order[..position] + [order[position]];
        position := position + 1;
      }
      assert order[..|order|] == order;
    }

    /** Insert a page, returning whatever was evicted; inserting a key again moves it to the newest place. */
    method Insert(key: SettleKey, page: V) returns (evicted: Option<(SettleKey, V)>)
      requires Valid()
      modifies this
      ensures Valid() && history == old(history) + [Insertion(key, page)]
      ensures key in entries && entries[key] == page
      ensures evicted.None? ==> entries == old(entries)[key := page]
      ensures evicted.Some? ==>
        && evicted.value.0 in old(entries) && evicted.value.0 != key && evicted.value.1 == old(entries)[evicted.value.0]
        && evicted.value.0 == old(order)[0]
        && entries == old(entries)[key := page] - {evicted.value.0}
      ensures evicted.Some? <==> key !in old(entries) && |old(order)| == capacity
    {
      hide ByLastInsertion, LastPage, Newest, Members;
      OrderIsDistinct(history, capacity);
      var position := Position(order, key);
      if position < |order| {
        order := order[..position] + order[position + 1..];
      }
      order := order + [key];
      entries := entries[key := page];
      OrderAfterInsert(history, Insertion(key, page), capacity, position);
      PagesAfterInsert(history, Insertion(key, page), old(entries));
      history := history + [Insertion(key, page)];
      KeysOf(order);
      FirstIsNotNewest(Newest(ByLastInsertion(old(history)), capacity), key, position);
      assert |entries| == |entries.Keys| == |order|;
      if |entries| <= capacity {
        return None;
      }
      var oldest := order[0];
      order := order[1..];
      evicted := Some((oldest, entries[oldest]));
      entries := entries - {oldest};
    }
  }

  lemma FirstIsNotNewest(order: seq<SettleKey>, key: SettleKey, position: nat)
    requires FoundAt(order, key, position) && Distinct(Moved(order, key, position))
    ensures key in Members(order) <==> position < |order|
    ensures Moved(order, key, position)[0] in Members(Moved(order, key, position))
    ensures |Moved(order, key, position)| > 1 ==> Moved(order, key, position)[0] != key
    ensures |Moved(order, key, position)| == if position < |order| then |order| else |order| + 1
    ensures position == |order| > 0 ==> Moved(order, key, position)[0] == order[0]
  {
    assert order[..|order|] == order;
    var moved := Moved(order, key, position);
    assert moved[|moved| - 1] == key;
  }

  lemma OrderIsDistinct<V>(history: seq<Insertion<SettleKey, V>>, capacity: nat)
    ensures Distinct(Newest(ByLastInsertion(history), capacity))
    ensures |Newest(ByLastInsertion(history), capacity)| <= capacity
  {
    ByLastInsertionIsDistinct(history, SettleKey(None, 0));
  }

  /** The order the code builds before evicting. */
  function Moved(order: seq<SettleKey>, key: SettleKey, position: nat): seq<SettleKey>
  {
    if position < |order| then order[..position] + order[position + 1..] + [key] else order + [key]
  }

  lemma OrderAfterInsert<V>(history: seq<Insertion<SettleKey, V>>, insertion: Insertion<SettleKey, V>, capacity: nat,
      position: nat)
    requires capacity > 0
    requires FoundAt(Newest(ByLastInsertion(history), capacity), insertion.key, position)
    ensures var order := Newest(ByLastInsertion(history), capacity);
      var moved := Moved(order, insertion.key, position);
      && Distinct(moved)
      && Members(moved) == Members(order) + {insertion.key}
      && Newest(ByLastInsertion(history + [insertion]), capacity) == if |moved| <= capacity then moved else moved[1..]
  {
    var before := ByLastInsertion(history);
    var order := Newest(before, capacity);
    ByLastInsertionIsDistinct(history, insertion.key);
    hide ByLastInsertion, LastPage, Moved, Members, Without;
    NewestIsTail(before, capacity);
    ByLastInsertionUnfolds(history, insertion);
    hide Newest;
    var older := before[..|before| - |order|];
    assert before == older + order;
    WithoutConcat(older, order, insertion.key);
    MovedIsWithout(order, insertion.key, position);
    if position < |order| {
      NotOlder(older, order, position);
      WithoutAbsent(older, insertion.key);
      NewestConcat(older, Moved(order, insertion.key, position), capacity);
    } else {
      WithoutEmpty(insertion.key);
      NewestConcat(Without(older, insertion.key), Moved(order, insertion.key, position), capacity);
    }
    assert Without(before, insertion.key) + [insertion.key]
      == Without(older, insertion.key) + (Without(order, insertion.key) + [insertion.key]);
  }

  lemma NewestIsTail(before: seq<SettleKey>, capacity: nat)
    ensures var order := Newest(before, capacity);
      && |order| <= capacity && |order| <= |before| && before == before[..|before| - |order|] + order
      && (|order| < |before| ==> |order| == capacity)
      && (Distinct(before) ==> Distinct(order) && Distinct(before[..|before| - |order|] + order))
  {
  }

  lemma ByLastInsertionUnfolds<V>(history: seq<Insertion<SettleKey, V>>, insertion: Insertion<SettleKey, V>)
    ensures ByLastInsertion(history + [insertion]) == Without(ByLastInsertion(history), insertion.key) + [insertion.key]
  {
    assert (history + [insertion])[..|history|] == history;
  }

  lemma WithoutEmpty(key: SettleKey)
    ensures Without([], key) == []
  {
  }

  /** `position` is where `key` stands in `order`, or the length of `order` when it is not there. */
  predicate FoundAt(order: seq<SettleKey>, key: SettleKey, position: nat)
  {
    && position <= |order| && key !in order[..position]
    && (position < |order| ==> order[position] == key)
  }

  lemma NotOlder(older: seq<SettleKey>, order: seq<SettleKey>, position: nat)
    requires Distinct(older + order) && position < |order|
    ensures order[position] !in older
  {
    assert (older + order)[|older| + position] == order[position];
    forall i | 0 <= i < |older| ensures older[i] != order[position] {
      assert (older + order)[i] == older[i];
    }
  }

  lemma NewestConcat(a: seq<SettleKey>, b: seq<SettleKey>, capacity: nat)
    requires a == [] || capacity <= |b|
    requires capacity > 0 && |b| <= capacity + 1
    ensures Newest(a + b, capacity) == if |b| <= capacity then b else b[1..]
  {
  }

  lemma MovedIsWithout(order: seq<SettleKey>, key: SettleKey, position: nat)
    requires Distinct(order) && FoundAt(order, key, position)
    ensures var moved := Moved(order, key, position);
      && moved == Without(order, key) + [key]
      && Distinct(moved) && Members(moved) == Members(order) + {key}
      && |moved| == if position < |order| then |order| else |order| + 1
  {
    if position < |order| {
      WithoutAt(order, position);
    } else {
      assert order[..|order|] == order;
      WithoutAbsent(order, key);
    }
    WithoutDistinct(order, key);
    WithoutMembers(order, key, key);
    TailMoves(order, key);
  }

  lemma PagesAfterInsert<V>(history: seq<Insertion<SettleKey, V>>, insertion: Insertion<SettleKey, V>,
      entries: map<SettleKey, V>)
    requires forall k :: k in entries ==> Some(entries[k]) == LastPage(history, k)
    ensures var after := entries[insertion.key := insertion.page];
      forall k :: k in after ==> Some(after[k]) == LastPage(history + [insertion], k)
  {
    assert (history + [insertion])[..|history|] == history;
  }

  lemma {:induction false} KeysOf(order: seq<SettleKey>)
    requires Distinct(order)
    ensures |Members(order)| == |order|
    ensures order != [] ==> Members(order[1..]) == Members(order) - {order[0]}
    decreases |order|
  {
    if order != [] {
      KeysOf(order[1..]);
      assert Members(order) == Members(order[1..]) + {order[0]};
    }
  }

  lemma NewestByPlace(listed: seq<SettleKey>, capacity: nat, i: nat)
    requires Distinct(listed) && i < |listed|
    ensures listed[i] in Newest(listed, capacity) <==> |listed| - 1 - i < capacity
  {
    var order := Newest(listed, capacity);
    var dropped := |listed| - |order|;
    if i >= dropped {
      assert order[i - dropped] == listed[i];
    } else {
      forall j | 0 <= j < |order| ensures order[j] != listed[i] {
        assert order[j] == listed[dropped + j];
      }
    }
  }

  lemma NewestIsInside(listed: seq<SettleKey>, capacity: nat, key: SettleKey)
    ensures key in Newest(listed, capacity) ==> key in listed
  {
  }

  /**
   After any history of insertions the cache holds a key exactly when it was inserted and fewer than
   `capacity` other keys have been inserted since, with the page of its last insertion.
   */
  lemma HoldsTheMostRecent<V>(cache: CondensationCache<V>, key: SettleKey)
    requires cache.Valid()
    ensures key in cache.entries <==> LastPage(cache.history, key).Some? && |Since(cache.history, key)| < cache.capacity
    ensures key in cache.entries ==> LastPage(cache.history, key) == Some(cache.entries[key])
    ensures Distinct(cache.order) && |cache.order| <= cache.capacity
  {
    hide ByLastInsertion, LastPage, Since, Newest;
    var listed := ByLastInsertion(cache.history);
    ByLastInsertionIsDistinct(cache.history, key);
    OrderIsDistinct(cache.history, cache.capacity);
    assert key in cache.entries <==> key in cache.order;
    if LastPage(cache.history, key).Some? {
      var i := AfterIsSince(cache.history, key);
      NewestByPlace(listed, cache.capacity, i);
    } else {
      NewestIsInside(listed, cache.capacity, key);
    }
  }
}
