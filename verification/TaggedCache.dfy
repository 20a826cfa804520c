/** The cache of TaggedCache.h. An object is alive while a client, a finished but not yet discarded
    sweep, or a strong entry refers to it; a weak pointer locks exactly while its object is alive.
    Each operation holds the mutex, so that a run is a sequence of operations. */
module TaggedCache {
  import opened Options
  import opened Words

  type Key = nat
  type Obj = nat

  // In nanoseconds.
  const MINIMUM_AGE := 1_000_000_000

  /** ptr is the strong pointer, weak the weak one. */
  datatype Entry = Entry(ptr: Option<Obj>, weak: Option<Obj>, lastAccess: int)

  ghost function Strong(entries: map<Key, Entry>): set<Key> {
    set k | k in entries && entries[k].ptr.Some?
  }

  /** The keys of the strong entries for o. */
  function Holders(entries: map<Key, Entry>, o: Obj): set<Key> {
    set k | k in entries && entries[k].ptr == Some(o)
  }

  ghost predicate Coherent(entries: map<Key, Entry>) {
    forall k :: k in entries && entries[k].ptr.Some? ==> entries[k].weak == entries[k].ptr
  }

  /** Entries for objects held by clients are still there, with the same object. */
  ghost predicate Keeps(before: map<Key, Entry>, after: map<Key, Entry>, clients: multiset<Obj>) {
    forall k :: k in before && before[k].weak.Some? && before[k].weak.value in clients ==>
      k in after && after[k].weak == before[k].weak
  }

  function One(b: bool): int {
    if b then 1 else 0
  }

  predicate Cached(entries: map<Key, Entry>, k: Key) {
    k in entries && entries[k].ptr.Some?
  }

  lemma StrongPut(entries: map<Key, Entry>, k: Key, e: Entry)
    ensures |Strong(entries[k := e])| == |Strong(entries)| + One(e.ptr.Some?) - One(Cached(entries, k))
  {
    var s := Strong(entries);
    if e.ptr.Some? {
      assert Strong(entries[k := e]) == s + {k};
      if Cached(entries, k) {
        assert s + {k} == s;
      }
    } else {
      assert Strong(entries[k := e]) == s - {k};
    }
  }

  lemma StrongErase(entries: map<Key, Entry>, k: Key)
    ensures |Strong(entries - {k})| == |Strong(entries)| - One(Cached(entries, k))
  {
    assert Strong(entries - {k}) == Strong(entries) - {k};
  }

  predicate AliveIn(entries: map<Key, Entry>, clients: multiset<Obj>, condemned: multiset<Obj>, o: Obj) {
    o in clients || o in condemned || Holders(entries, o) != {}
  }

  // weak_ptr::lock
  function Lock(e: Entry, entries: map<Key, Entry>, clients: multiset<Obj>, condemned: multiset<Obj>): Option<Obj> {
    if e.weak.Some? && AliveIn(entries, clients, condemned, e.weak.value) then e.weak else None
  }

  /** Somebody has a reference to o: a client, a sweep that is over, or a strong entry. */
  ghost predicate Referenced(entries: map<Key, Entry>, clients: multiset<Obj>, condemned: multiset<Obj>, o: Obj) {
    o in clients || o in condemned || exists k :: k in entries && entries[k].ptr == Some(o)
  }

  lemma OtherReferenced(entries: map<Key, Entry>, clients: multiset<Obj>, condemned: multiset<Obj>, o: Obj, x: Obj)
    requires x != o
    ensures Referenced(entries, clients + multiset{o}, condemned, x) <==> Referenced(entries, clients, condemned, x)
  {
  }

  /** A weak pointer locks exactly while somebody has a reference to its object. */
  lemma LockExactly(e: Entry, entries: map<Key, Entry>, clients: multiset<Obj>, condemned: multiset<Obj>)
    ensures forall o: Obj ::
              Lock(e, entries, clients, condemned) == Some(o)
              <==> e.weak == Some(o) && Referenced(entries, clients, condemned, o)
    ensures Lock(e, entries, clients, condemned).Some?
            <==> e.weak.Some? && Referenced(entries, clients, condemned, e.weak.value)
  {
    if e.weak.Some? {
      var h := Holders(entries, e.weak.value);
      if k :| k in entries && entries[k].ptr == e.weak {
        assert k in h;
      } else {
        assert h == {};
      }
    }
  }

  /** Once its strong pointer is gone, the entry of the key locks exactly with a reference elsewhere. */
  lemma LockWithout(entries: map<Key, Entry>, clients: multiset<Obj>, condemned: multiset<Obj>, key: Key)
    requires key in entries
    ensures var e := entries[key].(ptr := None);
            Lock(e, entries[key := e], clients, condemned).Some?
            <==> e.weak.Some? && Referenced(entries - {key}, clients, condemned, e.weak.value)
  {
    var e, others := entries[key].(ptr := None), entries - {key};
    var without := entries[key := e];
    LockExactly(e, without, clients, condemned);
    if e.weak.Some? {
      if k :| k in without && without[k].ptr == e.weak {
        assert k in others && others[k].ptr == e.weak;
      }
      if k :| k in others && others[k].ptr == e.weak {
        assert k in without && without[k].ptr == e.weak;
      }
    }
  }

  lemma CachedLocks(entries: map<Key, Entry>, clients: multiset<Obj>, condemned: multiset<Obj>, k: Key)
    requires Coherent(entries) && Cached(entries, k)
    ensures Lock(entries[k], entries, clients, condemned) == entries[k].ptr
  {
    assert k in Holders(entries, entries[k].ptr.value);
  }

  /** How many references there are to o. */
  function Refs(entries: map<Key, Entry>, clients: multiset<Obj>, condemned: multiset<Obj>, o: Obj): nat {
    clients[o] + condemned[o] + |Holders(entries, o)|
  }

  /** The strong pointer of k is the only reference to its object exactly when nobody else has one. */
  lemma UniqueExactly(entries: map<Key, Entry>, clients: multiset<Obj>, condemned: multiset<Obj>, k: Key)
    requires Cached(entries, k)
    ensures var o := entries[k].ptr.value;
            Refs(entries, clients, condemned, o) == 1 <==> !Referenced(entries - {k}, clients, condemned, o)
  {
    var o := entries[k].ptr.value;
    var h, others := Holders(entries, o), entries - {k};
    assert Holders(others, o) == h - {k} && |h| == |h - {k}| + 1;
    if j :| j in others && others[j].ptr == Some(o) {
      assert j in Holders(others, o) && |Holders(others, o)| > 0;
    } else {
      assert Holders(others, o) == {};
    }
  }

  lemma AliveRefs(entries: map<Key, Entry>, clients: multiset<Obj>, condemned: multiset<Obj>, o: Obj)
    ensures AliveIn(entries, clients, condemned, o) <==> Refs(entries, clients, condemned, o) > 0
  {
  }

  /** References are let go, but never the last one to an object. */
  ghost predicate Thinned(before: map<Key, Entry>, was: multiset<Obj>, after: map<Key, Entry>, condemned: multiset<Obj>,
                          clients: multiset<Obj>)
  {
    forall o: Obj :: Thins(before, was, after, condemned, clients, o)
  }

  ghost predicate Thins(before: map<Key, Entry>, was: multiset<Obj>, after: map<Key, Entry>, condemned: multiset<Obj>,
                        clients: multiset<Obj>, o: Obj)
  {
    var m, n := Refs(before, clients, was, o), Refs(after, clients, condemned, o);
    n <= m && (n == 0 ==> m == 0)
  }

  /** Giving up the strong pointer of k, to the condemned ones when it is the only reference. */
  lemma ThinOne(entries: map<Key, Entry>, clients: multiset<Obj>, condemned: multiset<Obj>, k: Key,
                after: map<Key, Entry>)
    requires Cached(entries, k)
    requires var unique := Refs(entries, clients, condemned, entries[k].ptr.value) == 1;
             after == if unique then entries - {k} else entries[k := entries[k].(ptr := None)]
    ensures var o := entries[k].ptr.value;
            var unique := Refs(entries, clients, condemned, o) == 1;
            Thinned(entries, condemned, after, if unique then condemned + multiset{o} else condemned, clients)
  {
    var o := entries[k].ptr.value;
    var condemned' := if Refs(entries, clients, condemned, o) == 1 then condemned + multiset{o} else condemned;
    forall x: Obj
      ensures Thins(entries, condemned, after, condemned', clients, x)
    {
      if x == o {
        assert Holders(after, o) == Holders(entries, o) - {k};
        assert k in Holders(entries, o);
      } else {
        assert Holders(after, x) == Holders(entries, x);
      }
    }
  }

  /** Erasing a weak entry lets nothing go. */
  lemma ThinWeak(entries: map<Key, Entry>, clients: multiset<Obj>, condemned: multiset<Obj>, k: Key)
    requires k in entries && entries[k].ptr.None?
    ensures Thinned(entries, condemned, entries - {k}, condemned, clients)
  {
    forall x: Obj
      ensures Thins(entries, condemned, entries - {k}, condemned, clients, x)
    {
      assert Holders(entries - {k}, x) == Holders(entries, x);
    }
  }

  /** The entries and the condemned references once a sweep has passed the key k. */
  ghost function Passed(entries: map<Key, Entry>, clients: multiset<Obj>, condemned: multiset<Obj>, k: Key, expire: int)
    : (map<Key, Entry>, multiset<Obj>)
    requires k in entries
  {
    var e := entries[k];
    if Stays(e, expire) then (entries, condemned)
    else if e.ptr.None? then (if Lock(e, entries, clients, condemned).Some? then entries else entries - {k}, condemned)
    else if Refs(entries, clients, condemned, e.ptr.value) == 1 then (entries - {k}, condemned + multiset{e.ptr.value})
    else (entries[k := e.(ptr := None)], condemned)
  }

  lemma PassedThins(entries: map<Key, Entry>, clients: multiset<Obj>, condemned: multiset<Obj>, k: Key, expire: int)
    requires Coherent(entries) && k in entries
    ensures var (after, condemned') := Passed(entries, clients, condemned, k, expire);
            && Thinned(entries, condemned, after, condemned', clients) && after - {k} == entries - {k}
            && (k in after ==> Lock(after[k], after, clients, condemned').Some?)
  {
    var (after, condemned') := Passed(entries, clients, condemned, k, expire);
    var e := entries[k];
    if Stays(e, expire) {
      CachedLocks(entries, clients, condemned, k);
    } else if e.ptr.None? {
      ThinWeak(entries, clients, condemned, k);
    } else {
      ThinOne(entries, clients, condemned, k, after);
      assert k in Holders(entries, e.ptr.value);
      StillAlive(entries, condemned, after, condemned', clients, e.ptr.value);
    }
  }

  /** What a sweep has left of the keys it passed: no entry whose object is dead, and no expired one that
      had the only reference. */
  ghost predicate Clean(before: map<Key, Entry>, was: multiset<Obj>, after: map<Key, Entry>, condemned: multiset<Obj>,
                        clients: multiset<Obj>, expire: int, todo: set<Key>)
  {
    forall k :: k in after && k !in todo ==>
      && Lock(after[k], after, clients, condemned).Some?
      && (k in before && Cached(before, k) && !Stays(before[k], expire) ==>
            Refs(before, clients, was, before[k].ptr.value) > 1)
  }

  lemma StillAlive(before: map<Key, Entry>, was: multiset<Obj>, after: map<Key, Entry>, condemned: multiset<Obj>,
                   clients: multiset<Obj>, o: Obj)
    requires Thinned(before, was, after, condemned, clients)
    ensures AliveIn(before, clients, was, o) <==> AliveIn(after, clients, condemned, o)
  {
    AliveRefs(before, clients, was, o);
    AliveRefs(after, clients, condemned, o);
    assert Thins(before, was, after, condemned, clients, o);
  }

  lemma CleanStep(before: map<Key, Entry>, was: multiset<Obj>, mid: map<Key, Entry>, midway: multiset<Obj>,
                  after: map<Key, Entry>, condemned: multiset<Obj>, clients: multiset<Obj>, expire: int,
                  todo: set<Key>, k: Key)
    requires Thinned(before, was, mid, midway, clients) && Clean(before, was, mid, midway, clients, expire, todo)
    requires Thinned(mid, midway, after, condemned, clients) && after - {k} == mid - {k}
    requires k in mid && k in before && mid[k] == before[k]
    requires k in after ==> Lock(after[k], after, clients, condemned).Some?
    requires k in after && Cached(mid, k) && !Stays(mid[k], expire) ==>
               Refs(mid, clients, midway, mid[k].ptr.value) != 1
    ensures Thinned(before, was, after, condemned, clients)
    ensures Clean(before, was, after, condemned, clients, expire, todo - {k})
  {
    forall o: Obj
      ensures Thins(before, was, after, condemned, clients, o)
    {
      assert Thins(before, was, mid, midway, clients, o) && Thins(mid, midway, after, condemned, clients, o);
    }
    forall j | j in after && j !in todo - {k}
      ensures Lock(after[j], after, clients, condemned).Some?
      ensures j in before && Cached(before, j) && !Stays(before[j], expire) ==>
                Refs(before, clients, was, before[j].ptr.value) > 1
    {
      if j == k {
        if Cached(before, k) {
          assert k in Holders(mid, mid[k].ptr.value);
          assert Thins(before, was, mid, midway, clients, before[k].ptr.value);
        }
      } else {
        assert j in after - {k} && j in mid && after[j] == (after - {k})[j] == (mid - {k})[j] == mid[j];
        StillAlive(mid, midway, after, condemned, clients, after[j].weak.value);
      }
    }
  }

  /** What a sweep may erase: weak entries for dead objects, and strong ones to whose object neither a client nor a
      former sweep has a reference. */
  ghost predicate Spared(before: map<Key, Entry>, was: multiset<Obj>, after: map<Key, Entry>, condemned: multiset<Obj>,
                         clients: multiset<Obj>)
  {
    && was <= condemned
    && forall k :: k in before && k !in after ==>
         if before[k].ptr.None? then before[k].weak.Some? ==> !Referenced(before, clients, was, before[k].weak.value)
         else before[k].ptr.value !in clients && before[k].ptr.value !in was
  }

  lemma SparedStep(before: map<Key, Entry>, was: multiset<Obj>, mid: map<Key, Entry>, midway: multiset<Obj>,
                   after: map<Key, Entry>, condemned: multiset<Obj>, clients: multiset<Obj>, expire: int, k: Key)
    requires Thinned(before, was, mid, midway, clients) && Spared(before, was, mid, midway, clients)
    requires k in mid && k in before && mid[k] == before[k]
    requires (after, condemned) == Passed(mid, clients, midway, k, expire)
    ensures Spared(before, was, after, condemned, clients)
  {
    if k !in after {
      if mid[k].ptr.Some? {
        assert k in Holders(mid, mid[k].ptr.value);
      } else if mid[k].weak.Some? {
        StillAlive(before, was, mid, midway, clients, mid[k].weak.value);
        LockExactly(before[k], before, clients, was);
      }
    }
  }

  function Single(data: Option<Obj>): multiset<Obj> {
    if data.Some? then multiset{data.value} else multiset{}
  }

  /** Pointers are coherent and refer to objects that existed. */
  ghost predicate Sane(entries: map<Key, Entry>, clients: multiset<Obj>, condemned: multiset<Obj>, born: set<Obj>) {
    && Coherent(entries)
    && (forall k :: k in entries && entries[k].weak.Some? ==> entries[k].weak.value in born)
    && (forall o :: o in clients ==> o in born) && (forall o :: o in condemned ==> o in born)
  }

  /** The entries when a sweep has passed all keys but those in todo: strong entries last accessed by
      expire are weak or gone, fresh ones are as before, clients lose nothing, and an entry that is
      gone has no object that is still strong elsewhere. */
  ghost predicate Swept(before: map<Key, Entry>, after: map<Key, Entry>, expire: int, todo: set<Key>,
                        clients: multiset<Obj>)
  {
    && todo <= after.Keys <= before.Keys && Keeps(before, after, clients)
    && (forall k :: k in todo ==> after[k] == before[k])
    && (forall k :: k in after && k !in todo && !Stays(before[k], expire) ==> after[k] == before[k].(ptr := None))
    && (forall k :: k in before && Stays(before[k], expire) ==> k in after && after[k] == before[k])
    && (forall k :: k in before && k !in after && before[k].weak.Some? ==> Unheld(after, before[k].weak.value))
  }

  /** No entry holds o strongly. */
  ghost predicate Unheld(entries: map<Key, Entry>, o: Obj) {
    forall k :: k in entries ==> entries[k].ptr != Some(o)
  }

  lemma OnlyHolder(entries: map<Key, Entry>, k: Key, o: Obj)
    requires k in Holders(entries, o) && |Holders(entries, o)| == 1
    ensures Unheld(entries - {k}, o)
  {
    var h := Holders(entries, o);
    assert |h - {k}| == 0;
    assert forall j :: j in entries && j != k && entries[j].ptr == Some(o) ==> j in h - {k};
  }

  /** A strong entry that a sweep leaves alone. */
  predicate Stays(e: Entry, expire: int) {
    e.ptr.Some? && e.lastAccess > expire
  }

  lemma SweptWeaken(before: map<Key, Entry>, after: map<Key, Entry>, expire: int, todo: set<Key>,
                    clients: multiset<Obj>, k: Key)
    requires Swept(before, after, expire, todo, clients) && k in todo && !Stays(after[k], expire)
    ensures Swept(before, after[k := after[k].(ptr := None)], expire, todo - {k}, clients)
  {
    forall j | j in before && j !in after && before[j].weak.Some?
      ensures Unheld(after[k := after[k].(ptr := None)], before[j].weak.value)
    {
      assert Unheld(after, before[j].weak.value);
    }
  }

  lemma SweptErase(before: map<Key, Entry>, after: map<Key, Entry>, expire: int, todo: set<Key>,
                   clients: multiset<Obj>, k: Key)
    requires Swept(before, after, expire, todo, clients) && k in todo && !Stays(after[k], expire)
    requires after[k].weak.Some? ==> after[k].weak.value !in clients && Unheld(after - {k}, after[k].weak.value)
    ensures Swept(before, after - {k}, expire, todo - {k}, clients)
  {
    forall j | j in before && j !in after - {k} && before[j].weak.Some?
      ensures Unheld(after - {k}, before[j].weak.value)
    {
      assert j != k ==> Unheld(after, before[j].weak.value);
    }
  }

  /** The entry of the key is for o. */
  ghost predicate Bound(entries: map<Key, Entry>, key: Key, o: Obj) {
    key in entries && entries[key].weak == Some(o)
  }

  datatype Call =
    | Make(o: Obj)
    | Release(o: Obj)
    | Discard
    | Sweep(now: int)
    | Fetch(key: Key, now: int)
    | Refresh(key: Key, now: int)
    | Del(key: Key, valid: bool)
    | ReplaceCache(key: Key, o: Obj, now: int)
    | ReplaceClient(key: Key, o: Obj, now: int)
    | Insert(key: Key, o: Obj, now: int)
    | Clear
    | Reset

  /** Calls that may not take the object o of the key away. */
  predicate Spares(c: Call, key: Key, o: Obj) {
    && !c.Clear? && !c.Reset?
    && (c.Del? && c.key == key ==> c.valid) && (c.ReplaceCache? && c.key == key ==> c.o == o)
  }

  class TaggedCache {
    var entries: map<Key, Entry>
    var count: int
    var hits: nat
    var misses: nat
    var targetSize: nat
    var targetAge: nat
    /** References held outside the cache: by clients, and by sweeps that are over. */
    var clients: multiset<Obj>
    var condemned: multiset<Obj>
    /** All objects that have ever existed. */
    var born: set<Obj>

    /** The cached count is the number of strong entries. */
    ghost predicate Valid()
      reads this
    {
      Sane(entries, clients, condemned, born) && count == |Strong(entries)|
    }

    // The object of a key that is in the map and alive.
    function Live(key: Key): Option<Obj>
      reads this
    {
      if key in entries then Lock(entries[key], entries, clients, condemned) else None
    }

    constructor (size: nat, age: nat)
      ensures Valid() && entries == map[] && clients == multiset{} && condemned == multiset{}
      ensures hits == 0 && misses == 0 && targetSize == size && targetAge == age
    {
      entries, count, hits, misses, targetSize, targetAge := map[], 0, 0, 0, size, age;
      clients, condemned, born := multiset{}, multiset{}, {};
    }

    /** A client makes an object. */
    method Make(o: Obj)
      requires Valid() && o !in born
      modifies `clients, `born
      ensures Valid() && clients == old(clients) + multiset{o} && born == old(born) + {o}
      ensures forall k: Key :: Live(k) == old(Live(k))
    {
      clients, born := clients + multiset{o}, born + {o};
    }

    /** A client drops a reference. */
    method Release(o: Obj)
      requires Valid()
      modifies `clients
      ensures Valid() && clients == old(clients) - multiset{o}
    {
      clients := clients - multiset{o};
    }

    /** The references a sweep collected go out of scope. */
    method Discard()
      requires Valid()
      modifies `condemned
      ensures Valid() && condemned == multiset{}
    {
      condemned := multiset{};
    }

    method Clear()
      requires Valid()
      modifies `entries, `count
      ensures Valid() && entries == map[]
    {
      entries, count := map[], 0;
    }

    method Reset()
      requires Valid()
      modifies `entries, `count, `hits, `misses
      ensures Valid() && entries == map[] && hits == 0 && misses == 0
    {
      entries, count, hits, misses := map[], 0, 0, 0;
    }

    /** A weak entry is made strong again, or erased when its object is dead. */
    method Relock(key: Key, now: int) returns (r: Option<Obj>)
      requires Valid() && key in entries && entries[key].ptr.None?
      modifies `entries, `count
      ensures Valid() && r == old(Live(key))
      ensures entries == if r.Some? then old(entries)[key := Entry(r, r, now)] else old(entries) - {key}
    {
      var e := entries[key];
      r := Lock(e, entries, clients, condemned);
      StrongPut(entries, key, Entry(r, e.weak, now));
      StrongErase(entries, key);
      if r.Some? {
        entries, count := entries[key := Entry(r, e.weak, now)], count + 1;
      } else {
        entries := entries - {key};
      }
    }

    /** A strong entry is used. */
    method Touch(key: Key, now: int)
      requires Valid() && Cached(entries, key)
      modifies `entries
      ensures Valid() && entries == old(entries)[key := Entry(old(Live(key)), old(Live(key)), now)]
      ensures old(Live(key)) == old(entries)[key].ptr
    {
      CachedLocks(entries, clients, condemned, key);
      var e := entries[key].(lastAccess := now);
      StrongPut(entries, key, e);
      entries := entries[key := e];
    }

    /** fetch: the live object of the key, made strong again; a dead entry is erased. */
    method Fetch(key: Key, now: int) returns (r: Option<Obj>)
      requires Valid()
      modifies `entries, `count, `hits, `misses, `clients
      ensures Valid() && r == old(Live(key))
      ensures entries == if r.Some? then old(entries)[key := Entry(r, r, now)] else old(entries) - {key}
      ensures clients == old(clients) + if r.Some? then multiset{r.value} else multiset{}
      ensures forall o: Obj ::
                r == Some(o) <==>
                && key in old(entries) && old(entries)[key].weak == Some(o)
                && (o in old(clients) || o in condemned
                    || exists k :: k in old(entries) && old(entries)[k].ptr == Some(o))
      ensures hits == old(hits) + (if old(Cached(entries, key)) then 1 else 0)
      ensures misses == old(misses) + (if r.None? then 1 else 0)
    {
      if key in entries {
        LockExactly(entries[key], entries, clients, condemned);
      }
      if key !in entries {
        misses := misses + 1;
        assert entries - {key} == entries;
        return None;
      }
      if entries[key].ptr.Some? {
        r := entries[key].ptr;
        Touch(key, now);
        hits := hits + 1;
      } else {
        r := Relock(key, now);
        if r.None? {
          misses := misses + 1;
          return;
        }
      }
      clients := clients + multiset{r.value};
    }

    /** refreshIfPresent */
    method RefreshIfPresent(key: Key, now: int) returns (found: bool)
      requires Valid()
      modifies `entries, `count
      ensures Valid() && found == old(Live(key)).Some?
      ensures found <==> && key in old(entries) && old(entries)[key].weak.Some?
                         && Referenced(old(entries), clients, condemned, old(entries)[key].weak.value)
      ensures entries == if found then old(entries)[key := Entry(old(Live(key)), old(Live(key)), now)]
              else old(entries) - {key}
    {
      if key !in entries {
        assert entries - {key} == entries;
        return false;
      }
      LockExactly(entries[key], entries, clients, condemned);
      if entries[key].ptr.Some? {
        Touch(key, now);
        found := true;
      } else {
        var r := Relock(key, now);
        found := r.Some?;
      }
    }

    /** del: an entry stays only as a weak one, when it is valid and its object is alive elsewhere. */
    method Del(key: Key, valid: bool) returns (ret: bool)
      requires Valid()
      modifies `entries, `count
      ensures Valid() && ret == old(Cached(entries, key))
      ensures var weak := if key in old(entries) then old(entries)[key].(ptr := None) else Entry(None, None, 0);
              var without := old(entries)[key := weak];
              entries == if key in old(entries) && valid && Lock(weak, without, clients, condemned).Some? then without
                         else old(entries) - {key}
      ensures key in entries <==>
              && key in old(entries) && valid && old(entries)[key].weak.Some?
              && Referenced(old(entries) - {key}, clients, condemned, old(entries)[key].weak.value)
    {
      ret := false;
      if key !in entries {
        assert entries - {key} == entries;
        return;
      }
      var e := entries[key].(ptr := None);
      StrongPut(entries, key, e);
      if entries[key].ptr.Some? {
        count, ret := count - 1, true;
      }
      LockWithout(entries, clients, condemned, key);
      entries := entries[key := e];
      if !valid || Lock(e, entries, clients, condemned).None? {
        StrongErase(entries, key);
        entries := entries - {key};
        assert entries == old(entries) - {key};
      }
    }

    /** Gives the entry of the key to p, and changes the count by step. */
    method Place(key: Key, p: Option<Obj>, now: int, step: int)
      requires Sane(entries, clients, condemned, born) && (p.Some? ==> p.value in born)
      modifies `entries, `count
      ensures Sane(entries, clients, condemned, born) && entries == old(entries)[key := Entry(p, p, now)]
      ensures count == old(count) + step
      ensures |Strong(entries)| == |Strong(old(entries))| + One(p.Some?) - One(Cached(old(entries), key))
    {
      StrongPut(entries, key, Entry(p, p, now));
      entries, count := entries[key := Entry(p, p, now)], count + step;
    }

    // data = p, for a pointer of the client
    method Reassign(data: Option<Obj>, p: Option<Obj>)
      requires Sane(entries, clients, condemned, born) && (p.Some? ==> p.value in born)
      modifies `clients
      ensures Sane(entries, clients, condemned, born) && clients == old(clients) - Single(data) + Single(p)
    {
      clients := clients - Single(data) + Single(p);
    }

    /** canonicalize. The entry ends up with the object the caller ends up with. The count stays right
        exactly when that is an object at all, which a null pointer passed in may prevent. */
    method Canonicalize(key: Key, data: Option<Obj>, replace: bool, now: int) returns (had: bool, data': Option<Obj>)
      requires Valid() && (data.Some? ==> data.value in clients)
      modifies `entries, `count, `clients
      ensures had <==> && key in old(entries) && old(entries)[key].weak.Some?
                       && Referenced(old(entries), old(clients), condemned, old(entries)[key].weak.value)
      ensures data' == if had && !replace then old(entries)[key].weak else data
      ensures had == old(Live(key)).Some? && data' == if had && !replace then old(Live(key)) else data
      ensures entries == old(entries)[key := Entry(data', data', now)]
      ensures clients == if had && !replace then old(clients) - Single(data) + Single(data') else old(clients)
      ensures Sane(entries, clients, condemned, born)
      ensures Valid() <==> data.Some? || (!replace && old(Live(key)).Some?)
    {
      if key !in entries {
        Place(key, data, now, 1);
        return false, data;
      }
      LockExactly(entries[key], entries, clients, condemned);
      var cached := entries[key].ptr.Some?;
      var cachedData := Lock(entries[key], entries, clients, condemned);
      if cached {
        CachedLocks(entries, clients, condemned, key);
      }
      if cachedData.None? {
        Place(key, data, now, 1);
        return false, data;
      }
      data' := Settle(key, data, cachedData, replace, now, if cached then 0 else 1);
      return true, data';
    }

    /** The two cases of canonicalize with a live object: one of it and data gives way to the other. */
    method Settle(key: Key, data: Option<Obj>, cachedData: Option<Obj>, replace: bool, now: int, step: int)
      returns (data': Option<Obj>)
      requires Sane(entries, clients, condemned, born) && (data.Some? ==> data.value in clients)
      requires cachedData.Some? && cachedData.value in born
      modifies `entries, `count, `clients
      ensures data' == if replace then data else cachedData
      ensures entries == old(entries)[key := Entry(data', data', now)]
      ensures clients == if replace then old(clients) else old(clients) - Single(data) + Single(data')
      ensures Sane(entries, clients, condemned, born) && count == old(count) + step
      ensures |Strong(entries)| == |Strong(old(entries))| + One(data'.Some?) - One(Cached(old(entries), key))
    {
      data' := data;
      if !replace {
        data' := cachedData;
        Reassign(data, cachedData);
      }
      Place(key, data', now, step);
    }

    /** insert: the reference of the new object, or of the one that was there, is dropped at the end.
        The answer is that of canonicalize, true when the key was there with a live object. */
    method Insert(key: Key, o: Obj, now: int) returns (had: bool)
      requires Valid() && o !in born
      modifies `entries, `count, `clients, `born
      ensures Valid() && had == old(Live(key)).Some? && clients == old(clients) && born == old(born) + {o}
      ensures had <==> && key in old(entries) && old(entries)[key].weak.Some?
                       && Referenced(old(entries), clients, condemned, old(entries)[key].weak.value)
      ensures var p := if had then old(entries)[key].weak else Some(o); entries == old(entries)[key := Entry(p, p, now)]
    {
      if key in entries && entries[key].weak.Some? {
        OtherReferenced(entries, clients, condemned, o, entries[key].weak.value);
      }
      Make(o);
      var p;
      had, p := Canonicalize(key, Some(o), false, now);
      Release(p.value);
    }

    function WhenExpire(now: int): int
      reads this
    {
      if targetSize == 0 || |entries| <= targetSize then now - targetAge
      else
        var when := now - targetAge * targetSize / |entries|;
        if when > now - MINIMUM_AGE then now - MINIMUM_AGE else when
    }

    // shared_ptr::unique
    predicate Unique(o: Obj)
      reads this
    {
      Refs(entries, clients, condemned, o) == 1
    }

    /** sweep. What it erases it still refers to, until Discard, so that no object dies in it. Afterwards no
        entry is for a dead object, and the expired entries that had the only reference are gone. */
    method Sweep(now: int)
      requires Valid()
      modifies `entries, `count, `condemned
      ensures Valid() && Swept(old(entries), entries, old(WhenExpire(now)), {}, clients)
      ensures Thinned(old(entries), old(condemned), entries, condemned, clients)
      ensures Spared(old(entries), old(condemned), entries, condemned, clients)
      ensures Clean(old(entries), old(condemned), entries, condemned, clients, old(WhenExpire(now)), {})
      ensures forall k :: k in entries ==>
                entries[k].weak.Some? && Referenced(entries, clients, condemned, entries[k].weak.value)
    {
      var expire := WhenExpire(now);
      var todo := entries.Keys;
      while todo != {}
        invariant Valid() && Swept(old(entries), entries, expire, todo, clients)
        invariant Thinned(old(entries), old(condemned), entries, condemned, clients)
        invariant Spared(old(entries), old(condemned), entries, condemned, clients)
        invariant Clean(old(entries), old(condemned), entries, condemned, clients, expire, todo)
      {
        var k :| k in todo;
        SweepOne(k, expire, old(entries), old(condemned), todo);
        todo := todo - {k};
      }
      forall k | k in entries
        ensures entries[k].weak.Some? && Referenced(entries, clients, condemned, entries[k].weak.value)
      {
        LockExactly(entries[k], entries, clients, condemned);
      }
    }

    method SweepOne(k: Key, expire: int, ghost before: map<Key, Entry>, ghost was: multiset<Obj>, ghost todo: set<Key>)
      requires Valid() && k in todo && Swept(before, entries, expire, todo, clients)
      requires Thinned(before, was, entries, condemned, clients) && Spared(before, was, entries, condemned, clients)
      requires Clean(before, was, entries, condemned, clients, expire, todo)
      modifies `entries, `count, `condemned
      ensures Valid() && Swept(before, entries, expire, todo - {k}, clients)
      ensures Thinned(before, was, entries, condemned, clients) && Spared(before, was, entries, condemned, clients)
      ensures Clean(before, was, entries, condemned, clients, expire, todo - {k})
    {
      ghost var mid, midway := entries, condemned;
      SweepEntry(k, expire, before, todo);
      PassedThins(mid, clients, midway, k, expire);
      SparedStep(before, was, mid, midway, entries, condemned, clients, expire, k);
      CleanStep(before, was, mid, midway, entries, condemned, clients, expire, todo, k);
    }

    method SweepEntry(k: Key, expire: int, ghost before: map<Key, Entry>, ghost todo: set<Key>)
      requires Valid() && k in todo && Swept(before, entries, expire, todo, clients)
      modifies `entries, `count, `condemned
      ensures Valid() && Swept(before, entries, expire, todo - {k}, clients)
      ensures (entries, condemned) == Passed(old(entries), clients, old(condemned), k, expire)
    {
      var e := entries[k];
      if e.ptr.None? {
        if Lock(e, entries, clients, condemned).None? {
          assert e.weak.Some? ==> Unheld(entries - {k}, e.weak.value) by {
            assert e.weak.Some? ==> forall j :: j in entries && entries[j].ptr == e.weak ==>
                     j in Holders(entries, e.weak.value);
          }
          StrongErase(entries, k);
          SweptErase(before, entries, expire, todo, clients, k);
          entries := entries - {k};
        } else {
          SweptWeaken(before, entries, expire, todo, clients, k);
          assert entries[k := e.(ptr := None)] == entries;
        }
      } else if e.lastAccess <= expire {
        Demote(k, expire, before, todo);
      }
    }

    /** A strong entry that has expired: erased when nobody else has its object, else weak. */
    method Demote(k: Key, expire: int, ghost before: map<Key, Entry>, ghost todo: set<Key>)
      requires Valid() && k in todo && Swept(before, entries, expire, todo, clients)
      requires entries[k].ptr.Some? && entries[k].lastAccess <= expire
      modifies `entries, `count, `condemned
      ensures Valid() && Swept(before, entries, expire, todo - {k}, clients)
      ensures k in entries <==>
              Referenced(old(entries) - {k}, clients, old(condemned), old(entries)[k].ptr.value)
      ensures k in entries <==> !old(Unique(entries[k].ptr.value))
      ensures (entries, condemned) == Passed(old(entries), clients, old(condemned), k, expire)
    {
      var e := entries[k];
      count := count - 1;
      UniqueExactly(entries, clients, condemned, k);
      assert k in Holders(entries, e.ptr.value);
      if Unique(e.ptr.value) {
        OnlyHolder(entries, k, e.ptr.value);
        StrongErase(entries, k);
        SweptErase(before, entries, expire, todo, clients, k);
        entries, condemned := entries - {k}, condemned + multiset{e.ptr.value};
      } else {
        StrongPut(entries, k, e.(ptr := None));
        SweptWeaken(before, entries, expire, todo, clients, k);
        entries := entries[k := e.(ptr := None)];
      }
    }

    /** Calls of the clients, sweeps, and those that empty the cache. */
    method PerformOutside(c: Call, key: Key, o: Obj)
      requires Valid() && Bound(entries, key, o) && o in clients
      modifies this
      ensures Valid() && o in clients && (Bound(entries, key, o) <==> !c.Clear? && !c.Reset?)
      ensures c.Make? && c.o !in old(born) ==> clients == old(clients) + multiset{c.o}
      ensures c.Release? && (c.o != o || old(clients)[o] > 1) ==> clients == old(clients) - multiset{c.o}
      ensures c.Discard? ==> condemned == multiset{}
      ensures c.Sweep? ==> Swept(old(entries), entries, old(WhenExpire(c.now)), {}, clients)
      ensures c.Sweep? ==> forall k :: k in entries ==>
                entries[k].weak.Some? && Referenced(entries, clients, condemned, entries[k].weak.value)
    {
      match c
      case Make(x) =>
        if x !in born {
          Make(x);
        }
      case Release(x) =>
        if x != o || clients[o] > 1 {
          Release(x);
        }
      case Discard =>
        Discard();
      case Sweep(now) =>
        Sweep(now);
      case Clear =>
        Clear();
      case Reset =>
        Reset();
      case _ =>
    }

    /** Calls that only look a key up. */
    method PerformLookup(c: Call, key: Key, o: Obj) returns (r: Option<Obj>)
      requires Valid() && Bound(entries, key, o) && o in clients
      modifies this
      ensures Valid() && o in clients && (Bound(entries, key, o) <==> (c.Del? && c.key == key ==> c.valid))
      ensures c.Fetch? && c.key == key ==> r == Some(o)
    {
      r := None;
      match c
      case Fetch(k, now) =>
        r := Fetch(k, now);
      case Refresh(k, now) =>
        var _ := RefreshIfPresent(k, now);
      case Del(k, valid) =>
        var _ := Del(k, valid);
      case _ =>
    }

    /** Replacing x by the object of k takes the last reference to o: its only holder gives it for another one. */
    predicate TakesAway(k: Key, x: Obj, o: Obj)
      reads this
    {
      x == o && clients[o] == 1 && Live(k).Some? && Live(k).value != o
    }

    method ReplaceClient(k: Key, x: Obj, now: int, ghost key: Key, ghost o: Obj) returns (r: Option<Obj>)
      requires Valid() && Bound(entries, key, o) && x in clients && o in clients && !TakesAway(k, x, o)
      modifies `entries, `count, `clients
      ensures Valid() && Bound(entries, key, o) && o in clients && (k == key ==> r == Some(o))
    {
      ghost var before := clients;
      var had;
      had, r := Canonicalize(k, Some(x), false, now);
      assert clients[o] >= before[o] - (if x == o && r != Some(o) then 1 else 0);
    }

    /** Calls that bring an object. */
    method PerformStore(c: Call, key: Key, o: Obj) returns (r: Option<Obj>)
      requires Valid() && Bound(entries, key, o) && o in clients
      modifies this
      ensures Valid() && o in clients
      ensures Bound(entries, key, o)
              <==> (c.ReplaceCache? && c.key == key && c.o in old(clients) ==> c.o == o)
      ensures c.ReplaceClient? && c.key == key && old(c.o in clients) ==> r == Some(o)
    {
      r := None;
      match c
      case ReplaceCache(k, x, now) =>
        if x in clients {
          var _, _ := Canonicalize(k, Some(x), true, now);
        }
      case ReplaceClient(k, x, now) =>
        if x in clients && !TakesAway(k, x, o) {
          r := ReplaceClient(k, x, now, key, o);
        }
      case Insert(k, x, now) =>
        if x !in born {
          var _ := Insert(k, x, now);
        }
      case _ =>
    }

    /** One call while somebody keeps a reference to o. Calls that need a reference, or an object that
        does not exist yet, happen only when there is one; the last reference to o is neither released nor
        exchanged for another object. The key keeps o exactly when the call may not take it away. */
    method Perform(c: Call, key: Key, o: Obj) returns (r: Option<Obj>)
      requires Valid() && Bound(entries, key, o) && o in clients
      modifies this
      ensures Valid() && o in clients
      ensures Bound(entries, key, o) <==> Spares(c, key, o) || (c.ReplaceCache? && c.o !in old(clients))
      ensures c.Make? && c.o !in old(born) ==> clients == old(clients) + multiset{c.o}
      ensures c.Release? && (c.o != o || old(clients)[o] > 1) ==> clients == old(clients) - multiset{c.o}
      ensures c.Discard? ==> condemned == multiset{}
      ensures c.Sweep? ==> Swept(old(entries), entries, old(WhenExpire(c.now)), {}, clients)
      ensures c.Sweep? ==> forall k :: k in entries ==>
                entries[k].weak.Some? && Referenced(entries, clients, condemned, entries[k].weak.value)
      ensures c.Fetch? && c.key == key ==> r == Some(o)
      ensures c.ReplaceClient? && c.key == key && old(c.o in clients) ==> r == Some(o)
    {
      r := None;
      if c.Fetch? || c.Refresh? || c.Del? {
        r := PerformLookup(c, key, o);
      } else if c.ReplaceCache? || c.ReplaceClient? || c.Insert? {
        r := PerformStore(c, key, o);
      } else {
        PerformOutside(c, key, o);
      }
    }

    /** While a reference to the object o of the key is held, a fetch of the key gives o after any calls
        that may not take it away. */
    method Run(calls: seq<Call>, key: Key, o: Obj, now: int) returns (r: Option<Obj>)
      requires Valid() && Bound(entries, key, o) && o in clients
      requires forall i :: 0 <= i < |calls| ==> Spares(calls[i], key, o)
      modifies this
      ensures Valid() && r == Some(o)
    {
      for i := 0 to |calls|
        invariant Valid() && Bound(entries, key, o) && o in clients
      {
        var _ := Perform(calls[i], key, o);
      }
      r := Fetch(key, now);
    }
  }

  /** A sweep leaves a strong entry alone exactly while its age is below the target age, and in a cache above its
      target size while its age is below a second or below the share of the target age that the target size is of
      the size. */
  lemma StaysExactly(c: TaggedCache, e: Entry, now: int)
    ensures var age, size := now - e.lastAccess, |c.entries|;
            Stays(e, c.WhenExpire(now)) <==>
            && e.ptr.Some?
            && if c.targetSize == 0 || size <= c.targetSize then age < c.targetAge
               else age < 1_000_000_000 || size * (age + 1) <= c.targetAge * c.targetSize
  {
    var age, size := now - e.lastAccess, |c.entries|;
    if size > 0 {
      QuotientAtLeast(c.targetAge * c.targetSize, size, age + 1);
    }
  }
}
