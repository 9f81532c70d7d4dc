/**
  The shared statement table of pg_stat_statements and its sequential code:
  entry_alloc, entry_dealloc and entry_reset.
 */
module StatTable {
  import opened Bytes
  import opened Sorting

  datatype HashKey = HashKey(userid: nat, dbid: nat, encoding: int, query: seq<Byte>)

  /** A hash table element's address; freed addresses may be handed out again. */
  type Slot = nat

  datatype Counters = Counters(
    calls: int, totalTime: real, rows: int,
    sharedHit: int, sharedRead: int, sharedWritten: int,
    localHit: int, localRead: int, localWritten: int,
    tempRead: int, tempWritten: int, usage: real)
  {
    function Plus(d: Counters): Counters {
      Counters(calls + d.calls, totalTime + d.totalTime, rows + d.rows,
               sharedHit + d.sharedHit, sharedRead + d.sharedRead, sharedWritten + d.sharedWritten,
               localHit + d.localHit, localRead + d.localRead, localWritten + d.localWritten,
               tempRead + d.tempRead, tempWritten + d.tempWritten, usage + d.usage)
    }
  }

  const ZERO := Counters(0, 0.0, 0, 0, 0, 0, 0, 0, 0, 0, 0, 0.0)
  const USAGE_INIT := 1.0
  const USAGE_DEALLOC_PERCENT := 5

  datatype Entry = Entry(key: HashKey, counters: Counters, mutex: bool) {
    /** USAGE_DECREASE_FACTOR is 0.99. */
    function Decayed(): Entry {
      this.(counters := counters.(usage := counters.usage * 0.99))
    }
  }

  type Slots = map<Slot, Entry>

  ghost predicate UniqueKeys(t: Slots) {
    forall x, y :: x in t && y in t && t[x].key == t[y].key ==> x == y
  }

  ghost predicate Holds(t: Slots, key: HashKey) {
    exists x :: x in t && t[x].key == key
  }

  function VictimCount(n: nat): nat {
    var share := n * USAGE_DEALLOC_PERCENT / 100;
    var wanted := if share > 10 then share else 10;
    if wanted < n then wanted else n
  }

  /** Of n entries v go: all of up to ten, ten of up to two hundred, then five in a hundred, rounded down. */
  ghost predicate EvictedOf(n: int, v: int) {
    if n < 10 then v == n else if n < 200 then v == 10 else 20 * v <= n < 20 * v + 20
  }

  /** The same entry with 99 hundredths of its usage. */
  ghost predicate AgedFrom(e: Entry, e': Entry) {
    && e'.key == e.key && e'.mutex == e.mutex
    && e'.counters == e.counters.(usage := e'.counters.usage)
    && e'.counters.usage * 100.0 == e.counters.usage * 99.0
  }

  /** So many entries have gone, none of them used more than one that stayed, and these have aged. */
  ghost predicate Thinned(t: Slots, t': Slots) {
    && EvictedOf(|t|, |t| - |t'|)
    && t'.Keys <= t.Keys && (forall x :: x in t' ==> AgedFrom(t[x], t'[x]))
    && forall v, w :: v in t && v !in t' && w in t' ==> t[v].counters.usage <= t[w].counters.usage
  }

  /** Every entry's usage has decayed, and the victims are least used. */
  ghost predicate Chosen(t: Slots, t': Slots, victims: set<Slot>) {
    && t' == (map x | x in t :: t[x].Decayed())
    && victims <= t.Keys
    && |victims| == VictimCount(|t|)
    && forall v, w :: v in victims && w in t.Keys - victims ==>
                        t[v].counters.usage <= t[w].counters.usage
  }

  /** hash_search with HASH_ENTER, and the initialisation of a new entry. */
  ghost predicate Entered(t: Slots, t': Slots, key: HashKey, at: Slot) {
    if Holds(t, key) then
      t' == t && at in t && t[at].key == key
    else
      at !in t && t' == t[at := Entry(key, ZERO.(usage := USAGE_INIT), false)]
  }

  function UsageOf(t: Slots, x: Slot): real {
    if x in t then t[x].counters.usage else 0.0
  }

  function DecayIn(t: Slots, done: set<Slot>): Slots {
    map x | x in t :: if x in done then t[x].Decayed() else t[x]
  }

  lemma DecayOne(t: Slots, done: set<Slot>, x: Slot)
    requires x in t && x !in done
    ensures var e := DecayIn(t, done)[x];
            DecayIn(t, done)[x := e.Decayed()] == DecayIn(t, done + {x})
    ensures multiset(done + {x}) == multiset(done) + multiset{x}
  {
  }

  /** pgss_hash, as the holder of the exclusive lock sees it. */
  class HashTable {
    var slots: Slots
    const max: nat

    ghost predicate Valid()
      reads this
    {
      UniqueKeys(slots) && |slots| <= max && max > 0
    }

    constructor (max: nat)
      requires max > 0
      ensures Valid() && slots == map[] && this.max == max
    {
      this.slots, this.max := map[], max;
    }

    /** The scan of entry_dealloc: list the entries and decay their usage. */
    method DecayAll() returns (entries: seq<Slot>)
      modifies this
      ensures slots == map x | x in old(slots) :: old(slots)[x].Decayed()
      ensures multiset(entries) == multiset(slots.Keys)
    {
      entries := [];
      var todo := slots.Keys;
      ghost var done: set<Slot> := {};
      assert slots == DecayIn(slots, {});
      while todo != {}
        invariant done <= old(slots).Keys && todo == old(slots).Keys - done
        invariant slots == DecayIn(old(slots), done)
        invariant multiset(entries) == multiset(done)
      {
        var x :| x in todo;
        DecayOne(old(slots), done, x);
        slots := slots[x := slots[x].Decayed()];
        entries := entries + [x];
        done := done + {x};
        todo := todo - {x};
      }
      assert done == old(slots).Keys;
    }

    /** entry_dealloc */
    method EntryDealloc() returns (ghost decayed: Slots, ghost victims: set<Slot>)
      modifies this
      ensures Chosen(old(slots), decayed, victims)
      ensures slots == decayed - victims
      ensures Thinned(old(slots), slots)
    {
      var entries := DecayAll();
      decayed := slots;
      var t := slots;
      entries := QSort(entries, (x, y) => UsageOf(t, x) <= UsageOf(t, y));
      ListsOnce(entries, slots.Keys);
      victims := LeastFirst(old(slots), decayed, entries);
      RemoveAll(entries[..VictimCount(|entries|)]);
      ChosenThins(old(slots), decayed, victims);
    }

    /** The removal loop of entry_dealloc. */
    method RemoveAll(victims: seq<Slot>)
      modifies this
      ensures slots == old(slots) - Elems(victims)
    {
      for i := 0 to |victims|
        invariant slots == old(slots) - Elems(victims[..i])
      {
        slots := slots - {victims[i]};
        assert Elems(victims[..i + 1]) == Elems(victims[..i]) + {victims[i]};
      }
      assert victims[..|victims|] == victims;
    }

    /** entry_alloc; free is the head of the table's free list. */
    method EntryAlloc(key: HashKey, free: Slot) returns (at: Slot)
      requires Valid() && free !in slots
      modifies this
      ensures Valid() && at in slots && slots[at].key == key
      ensures |old(slots)| < max ==> Entered(old(slots), slots, key, at)
      ensures |old(slots)| == max ==>
                exists t, victims :: Chosen(old(slots), t, victims) && Entered(t - victims, slots, key, at)
    {
      ghost var evicted := false;
      ghost var t, victims := slots, {};
      while |slots| >= max
        invariant Valid() && free !in slots
        invariant evicted ==>
          |old(slots)| == max && |slots| < max && Chosen(old(slots), t, victims) && slots == t - victims
        invariant !evicted ==> slots == old(slots)
        decreases |slots|
      {
        ghost var before := slots;
        t, victims := EntryDealloc();
        Survivors(before, t, victims);
        evicted := true;
      }
      at := FindOrEnter(key, free);
    }

    /** hash_search with HASH_ENTER, and the initialisation of a new entry. */
    method FindOrEnter(key: HashKey, free: Slot) returns (at: Slot)
      requires UniqueKeys(slots) && free !in slots
      modifies this
      ensures Entered(old(slots), slots, key, at) && UniqueKeys(slots) && |slots| <= |old(slots)| + 1
    {
      if x :| x in slots && slots[x].key == key {
        at := x;
      } else {
        at := free;
        slots := slots[at := Entry(key, ZERO.(usage := USAGE_INIT), false)];
        assert slots.Keys == old(slots).Keys + {at};
      }
    }

    /** entry_reset */
    method EntryReset()
      modifies this
      ensures slots == map[]
    {
      while slots != map[]
        decreases |slots|
      {
        assert slots.Keys != {};
        var x :| x in slots;
        var rest := slots - {x};
        assert rest.Keys == slots.Keys - {x};
        slots := rest;
      }
    }
  }

  lemma BeforeIsLessUsed(t: Slots, entries: seq<Slot>, n: nat, v: Slot, w: Slot)
    requires n <= |entries| && SortedBy(entries, (x, y) => UsageOf(t, x) <= UsageOf(t, y))
    requires v in entries[..n] && w in entries && w !in entries[..n]
    ensures UsageOf(t, v) <= UsageOf(t, w)
  {
    assert entries == entries[..n] + entries[n..];
    var i :| 0 <= i < n && entries[..n][i] == v;
    var j :| 0 <= j < |entries| - n && entries[n..][j] == w;
    assert entries[i] == v && entries[n + j] == w;
    SortedPair(entries, (x, y) => UsageOf(t, x) <= UsageOf(t, y), i, n + j);
  }

  lemma LeastFirst(t: Slots, decayed: Slots, entries: seq<Slot>) returns (victims: set<Slot>)
    requires decayed == map x | x in t :: t[x].Decayed()
    requires multiset(entries) == multiset(t.Keys) && |entries| == |t|
    requires SortedBy(entries, (x, y) => UsageOf(decayed, x) <= UsageOf(decayed, y))
    ensures victims == Elems(entries[..VictimCount(|t|)])
    ensures Chosen(t, decayed, victims)
  {
    var n := VictimCount(|t|);
    victims := Elems(entries[..n]);
    ListsOnce(entries, t.Keys);
    CountElems(entries[..n]);
    assert victims <= Elems(entries);
    forall v, w | v in victims && w in t.Keys - victims
      ensures t[v].counters.usage <= t[w].counters.usage
    {
      assert w in Elems(entries) && v in Elems(entries);
      BeforeIsLessUsed(decayed, entries, n, v, w);
      assert decayed[v] == t[v].Decayed() && decayed[w] == t[w].Decayed();
    }
  }

  lemma CountEvicted(n: nat)
    ensures VictimCount(n) <= n && EvictedOf(n, VictimCount(n))
  {
  }

  lemma Ages(e: Entry)
    ensures AgedFrom(e, e.Decayed())
  {
  }

  lemma ChosenThins(t: Slots, decayed: Slots, victims: set<Slot>)
    requires Chosen(t, decayed, victims)
    ensures Thinned(t, decayed - victims)
  {
    var rest := decayed - victims;
    assert rest.Keys == t.Keys - victims;
    assert |t.Keys - victims| == |t.Keys| - |victims|;
    CountEvicted(|t|);
    forall x | x in rest ensures AgedFrom(t[x], rest[x]) {
      assert rest[x] == t[x].Decayed();
      Ages(t[x]);
    }
  }

  /** A statement not in the table enters it with no counts and a usage of one. */
  lemma EnteredNew(t: Slots, t': Slots, key: HashKey, at: Slot)
    requires Entered(t, t', key, at) && !Holds(t, key)
    ensures at !in t && t'.Keys == t.Keys + {at} && forall x :: x in t ==> t'[x] == t[x]
    ensures t'[at] == Entry(key, Counters(0, 0.0, 0, 0, 0, 0, 0, 0, 0, 0, 0, 1.0), false)
  {
  }

  /** Eviction keeps keys unique and always makes room. */
  lemma Survivors(t: Slots, decayed: Slots, victims: set<Slot>)
    requires Chosen(t, decayed, victims) && UniqueKeys(t)
    ensures UniqueKeys(decayed) && UniqueKeys(decayed - victims)
    ensures |decayed - victims| == |t| - VictimCount(|t|)
    ensures |t| > 0 ==> |decayed - victims| < |t|
  {
    assert decayed.Keys == t.Keys;
    assert (decayed - victims).Keys == t.Keys - victims;
    assert |t.Keys - victims| == |t.Keys| - |victims|;
  }
}
