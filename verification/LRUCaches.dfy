/**
 The cache itself: a key table, a linked list of keys and a table from keys to list nodes, updated in
 place. Every method is tied to the recency list that the three structures represent together.

 Locks are left out: each method runs alone. The clock is the parameter `now`.
 */
module LRUCaches {
  import opened Collections
  import opened Recency
  import opened KeyLists

  datatype Slot = Slot(value: string, expire: int, access: int)

  // ---------- nodes, table and positions as values ----------

  /** The positions name exactly the nodes of the list, each under its own key. */
  ghost predicate Indexed(nodes: seq<Node>, position: map<string, Node>) {
    && (forall i :: 0 <= i < |nodes| ==> nodes[i].key in position && position[nodes[i].key] == nodes[i])
    && (forall k :: k in position ==> position[k] in nodes && position[k].key == k)
    && (forall i, j :: 0 <= i < j < |nodes| ==> nodes[i] != nodes[j])
  }

  ghost predicate Tabled(nodes: seq<Node>, table: map<string, Slot>) {
    forall i :: 0 <= i < |nodes| ==> nodes[i].key in table
  }

  ghost function EntryOf(k: string, table: map<string, Slot>): Entry
    requires k in table
  {
    Entry(k, table[k].value, table[k].expire)
  }

  /** The recency list that a sequence of nodes and a key table stand for. */
  ghost function Entries(nodes: seq<Node>, table: map<string, Slot>): seq<Entry>
    requires Tabled(nodes, table)
  {
    seq(|nodes|, i requires 0 <= i < |nodes| => EntryOf(nodes[i].key, table))
  }

  lemma EntriesDistinct(nodes: seq<Node>, table: map<string, Slot>, position: map<string, Node>)
    requires Indexed(nodes, position) && Tabled(nodes, table)
    ensures Distinct(Entries(nodes, table))
  {
    forall i, j | 0 <= i < j < |nodes| ensures nodes[i].key != nodes[j].key {
      assert position[nodes[i].key] == nodes[i];
    }
  }

  lemma EntriesFind(nodes: seq<Node>, table: map<string, Slot>, position: map<string, Node>, k: string)
    requires Indexed(nodes, position) && Tabled(nodes, table) && table.Keys == position.Keys
    ensures Find(Entries(nodes, table), k) == if k in table then Some(EntryOf(k, table)) else None
  {
    EntriesDistinct(nodes, table, position);
    var es := Entries(nodes, table);
    if k in table {
      var i :| 0 <= i < |nodes| && nodes[i] == position[k];
      assert es[i] == EntryOf(k, table);
      FindIff(es, es[i]);
    } else {
      FindIff(es, Entry(k, "", 0));
    }
  }

  lemma EntriesSize(nodes: seq<Node>, position: map<string, Node>)
    requires Indexed(nodes, position)
    ensures |nodes| == |position|
  {
    var keys := seq(|nodes|, i requires 0 <= i < |nodes| => nodes[i].key);
    forall k ensures k in keys <==> k in position.Keys {
      if k in position {
        var i :| 0 <= i < |nodes| && nodes[i] == position[k];
        assert keys[i] == k;
      }
    }
    forall i, j | 0 <= i < j < |keys| ensures keys[i] != keys[j] {
      assert position[nodes[i].key] == nodes[i];
    }
    DistinctSize(keys, position.Keys);
  }

  lemma EraseIndexed(nodes: seq<Node>, position: map<string, Node>, i: nat)
    requires Indexed(nodes, position) && i < |nodes|
    ensures Indexed(nodes[..i] + nodes[i+1..], position - {nodes[i].key})
  {
    var nodes', k := nodes[..i] + nodes[i+1..], nodes[i].key;
    forall j | 0 <= j < |nodes'| ensures nodes'[j].key != k {
      assert nodes'[j] == nodes[if j < i then j else j + 1];
    }
    forall x | x in position && x != k ensures position[x] in nodes' {
      var j :| 0 <= j < |nodes| && nodes[j] == position[x];
      assert nodes'[if j < i then j else j - 1] == nodes[j];
    }
  }

  lemma EraseEntries(nodes: seq<Node>, table: map<string, Slot>, position: map<string, Node>, i: nat)
    requires Indexed(nodes, position) && Tabled(nodes, table) && i < |nodes|
    ensures var nodes', k := nodes[..i] + nodes[i+1..], nodes[i].key;
            Tabled(nodes', table - {k}) && Entries(nodes', table - {k}) == Without(Entries(nodes, table), k)
  {
    EntriesDistinct(nodes, table, position);
    WithoutAt(Entries(nodes, table), i);
    var nodes', k := nodes[..i] + nodes[i+1..], nodes[i].key;
    forall j | 0 <= j < |nodes'| ensures nodes'[j].key in table - {k} {
      assert nodes'[j] == nodes[if j < i then j else j + 1];
      assert position[nodes'[j].key] == nodes'[j] && position[k] == nodes[i];
    }
    var es := Entries(nodes, table);
    assert Entries(nodes', table - {k}) == es[..i] + es[i+1..];
  }

  lemma PushIndexed(nodes: seq<Node>, position: map<string, Node>, n: Node)
    requires Indexed(nodes, position - {n.key}) && n !in nodes
    ensures Indexed([n] + nodes, position[n.key := n])
  {
    var nodes', position' := [n] + nodes, position[n.key := n];
    forall i, j | 0 <= i < j < |nodes'| ensures nodes'[i] != nodes'[j] {
      assert nodes[j-1] in nodes;
    }
    forall i | 0 <= i < |nodes'| ensures nodes'[i].key in position' && position'[nodes'[i].key] == nodes'[i] {
      assert i > 0 ==> nodes[i-1].key in position - {n.key};
    }
    forall k | k in position' ensures position'[k] in nodes' && position'[k].key == k {
      assert k != n.key ==> k in position - {n.key} && position[k] in nodes;
    }
  }

  lemma PushEntries(nodes: seq<Node>, table: map<string, Slot>, n: Node, s: Slot)
    requires Tabled(nodes, table - {n.key})
    ensures Tabled([n] + nodes, table[n.key := s])
    ensures Entries([n] + nodes, table[n.key := s]) ==
            [Entry(n.key, s.value, s.expire)] + Entries(nodes, table - {n.key})
  {
  }

  /** The access time is no part of the list. */
  lemma TouchEntries(nodes: seq<Node>, table: map<string, Slot>, k: string, now: int)
    requires Tabled(nodes, table) && k in table
    ensures var table' := table[k := table[k].(access := now)];
            Tabled(nodes, table') && Entries(nodes, table') == Entries(nodes, table) && table'.Keys == table.Keys
            && |table'| == |table|
  {
    var table' := table[k := table[k].(access := now)];
    assert table'.Keys == table.Keys;
    assert |table'| == |table'.Keys| && |table| == |table.Keys|;
  }

  /** Every slot that is left is as it was. */
  predicate SlotsKept(before: map<string, Slot>, after: map<string, Slot>) {
    forall k :: k in after ==> k in before && after[k] == before[k]
  }

  lemma SlotsKeptAgain(a: map<string, Slot>, b: map<string, Slot>, c: map<string, Slot>)
    requires SlotsKept(a, b) && SlotsKept(b, c)
    ensures SlotsKept(a, c)
  {
  }

  lemma SetSlots(before: map<string, Slot>, key: string, slot: Slot, after: map<string, Slot>)
    requires SlotsKept(before[key := slot], after)
    ensures key in after ==> after[key] == slot
    ensures forall k :: k in after && k != key ==> k in before && after[k] == before[k]
  {
  }

  /** During a sweep: entries still to be visited stay, and of the visited ones those not expired. */
  function Swept(pending: set<string>, now: int): Entry -> bool {
    (e: Entry) => e.key in pending || !Expired(e, now)
  }

  lemma SweepStep(before: seq<Entry>, pending: set<string>, key: string, now: int)
    requires Distinct(before) && key in pending
    ensures var e := Find(before, key);
            Keep(before, Swept(pending - {key}, now)) ==
            if e.Some? && Expired(e.value, now) then Without(Keep(before, Swept(pending, now)), key)
            else Keep(before, Swept(pending, now))
  {
    var p, p', e := Swept(pending, now), Swept(pending - {key}, now), Find(before, key);
    FindIff(before, Entry(key, "", 0));
    forall f | f in before && f.key == key ensures Find(before, key) == Some(f) {
      FindIff(before, f);
    }
    if e.Some? && Expired(e.value, now) {
      KeepTwice(before, p, NotKey(key), p');
    } else {
      KeepTwice(before, p, p', p');
      KeepMembers(before, p);
      KeepAll(Keep(before, p), p');
    }
  }

  lemma SweepStart(before: seq<Entry>, keys: set<string>, now: int)
    requires forall e :: e in before ==> e.key in keys
    ensures Keep(before, Swept(keys, now)) == before
  {
    KeepAll(before, Swept(keys, now));
  }

  lemma SweepEnd(before: seq<Entry>, now: int)
    ensures Keep(before, Swept({}, now)) == Cleaned(before, now)
  {
    var p := Swept({}, now);
    KeepTwice(before, p, p, Unexpired(now));
    KeepMembers(before, p);
    KeepAll(Keep(before, p), p);
  }

  // ---------- the cache ----------

  class LRUCache {
    const capacity: nat
    var table: map<string, Slot>
    const lru: KeyList
    var position: map<string, Node>
    var hits: nat
    var misses: nat

    ghost function Repr(): set<object>
      reads this, lru
    {
      {this, lru, lru.sentinel} + set n | n in lru.nodes
    }

    /** The three structures agree: one node, one slot and one position for each key. */
    ghost predicate Agree()
      reads this, lru, lru.sentinel, lru.nodes
    {
      && lru.Valid()
      && table.Keys == position.Keys
      && Indexed(lru.nodes, position)
      && Tabled(lru.nodes, table)
    }

    ghost predicate Valid()
      reads this, lru, lru.sentinel, lru.nodes
    {
      Agree() && |table| <= capacity
    }

    ghost function Order(): seq<Entry>
      requires Agree()
      reads this, lru, lru.sentinel, lru.nodes
    {
      Entries(lru.nodes, table)
    }

    constructor (capacity: nat)
      ensures Valid() && Order() == [] && this.capacity == capacity && hits == misses == 0
      ensures fresh(Repr())
    {
      this.capacity := capacity;
      table := map[];
      lru := new KeyList();
      position := map[];
      hits, misses := 0, 0;
    }

    /** The list has no duplicates and as many entries as the table. */
    lemma OrderFacts()
      requires Agree()
      ensures Distinct(Order()) && |Order()| == |table|
    {
      EntriesDistinct(lru.nodes, table, position);
      EntriesSize(lru.nodes, position);
      assert |table.Keys| == |table| && |position.Keys| == |position|;
    }

    lemma FindInOrder(k: string)
      requires Agree()
      ensures Find(Order(), k) == if k in table then Some(EntryOf(k, table)) else None
    {
      EntriesFind(lru.nodes, table, position, k);
    }

    /** The answer depends on the list alone; reading records the access time and changes no order. */
    method Get(key: string, now: int) returns (r: Option<string>)
      requires Valid()
      modifies this`table, this`hits, this`misses
      ensures Valid() && Order() == old(Order())
      ensures r == Lookup(Order(), key, now)
      ensures hits == old(hits) + (if r.Some? then 1 else 0)
      ensures misses == old(misses) + (if r.None? then 1 else 0)
      ensures r.Some? ==> key in old(table) && table == old(table)[key := old(table)[key].(access := now)]
      ensures r.None? ==> table == old(table)
    {
      FindInOrder(key);
      ghost var order := Order();
      if key !in table {
        misses := misses + 1;
        assert Order() == order;
        return None;
      }
      var slot := table[key];
      if slot.expire < now {
        misses := misses + 1;
        return None;
      }
      TouchEntries(lru.nodes, table, key, now);
      table := table[key := slot.(access := now)];
      hits := hits + 1;
      return Some(slot.value);
    }

    method Exists(key: string, now: int) returns (found: bool)
      requires Valid()
      ensures found == Lookup(Order(), key, now).Some?
    {
      FindInOrder(key);
      found := key in table && !(table[key].expire < now);
    }

    method Set(key: string, value: string, ttl: int, now: int)
      requires Valid()
      modifies Repr()
      ensures Valid() && fresh(Repr() - old(Repr()))
      ensures Order() == Put(capacity, old(Order()), Entry(key, value, Expiry(now, ttl)))
      ensures hits == old(hits) && misses == old(misses)
      ensures capacity > 0 ==> key in table && table[key] == Slot(value, Expiry(now, ttl), now)
      ensures forall k :: k in table && k != key ==> k in old(table) && table[k] == old(table)[k]
    {
      ghost var slot := Slot(value, Expiry(now, ttl), now);
      MoveToFront(key, Slot(value, Expiry(now, ttl), now));
      EvictOverCapacity();
      FrontSlot(key);
      SetSlots(old(table), key, slot, table);
    }

    lemma FrontSlot(key: string)
      requires Agree()
      ensures Order() != [] && Order()[0].key == key ==> key in table
    {
    }

    /** One turn of the eviction loop; order and slots are those before it. */
    method EvictOne(ghost slots: map<string, Slot>, ghost order: seq<Entry>)
      requires Agree() && |Order()| == |table| > capacity
      requires Order() <= order && SlotsKept(slots, table)
      modifies Repr()
      ensures Agree() && Repr() <= old(Repr()) && |Order()| == |table| == old(|table|) - 1
      ensures Order() <= order && SlotsKept(slots, table)
      ensures hits == old(hits) && misses == old(misses)
    {
      ghost var before := table;
      EvictLru();
      SlotsKeptAgain(slots, before, table);
    }

    /** The eviction loop of `set`. */
    method EvictOverCapacity()
      requires Agree() && |Order()| == |table|
      modifies Repr()
      ensures Valid() && Repr() <= old(Repr())
      ensures Order() == Take(capacity, old(Order()))
      ensures hits == old(hits) && misses == old(misses) && SlotsKept(old(table), table)
    {
      while |table| > capacity
        invariant Agree() && Repr() <= old(Repr())
        invariant Order() <= old(Order()) && (Order() == old(Order()) || |Order()| >= capacity)
        invariant |Order()| == |table|
        invariant hits == old(hits) && misses == old(misses) && SlotsKept(old(table), table)
        decreases |table|
      {
        EvictOne(old(table), old(Order()));
      }
    }

    /** `set` before its eviction loop: relink the key at the front and fill its slot. */
    method MoveToFront(key: string, slot: Slot)
      requires Agree()
      modifies Repr()
      ensures Agree() && fresh(Repr() - old(Repr()))
      ensures Order() == [Entry(key, slot.value, slot.expire)] + Without(old(Order()), key)
      ensures |Order()| == |table| && hits == old(hits) && misses == old(misses)
      ensures table == old(table)[key := slot]
    {
      UnlinkIfPresent(key);
      LinkFront(key, slot);
      OrderFacts();
    }

    method LinkFront(key: string, slot: Slot)
      requires lru.Valid() && table.Keys == position.Keys
      requires Indexed(lru.nodes, position - {key}) && Tabled(lru.nodes, table - {key})
      modifies this`table, this`position, Repr() - {this}
      ensures Agree() && fresh(Repr() - old(Repr()))
      ensures Order() == [Entry(key, slot.value, slot.expire)] + old(Entries(lru.nodes, table - {key}))
      ensures table == old(table)[key := slot]
    {
      ghost var rest := lru.nodes;
      table := table[key := slot];
      var n := lru.PushFront(key);
      position := position[key := n];
      PushIndexed(rest, old(position), n);
      PushEntries(rest, old(table), n, slot);
    }

    method UnlinkNode(key: string)
      requires Agree() && key in position
      modifies Repr() - {this}
      ensures lru.Valid() && Repr() <= old(Repr())
      ensures Indexed(lru.nodes, position - {key}) && Tabled(lru.nodes, table - {key})
      ensures Entries(lru.nodes, table - {key}) == Without(old(Order()), key)
    {
      ghost var nodes := lru.nodes;
      ghost var i := lru.Erase(position[key]);
      EraseIndexed(nodes, position, i);
      EraseEntries(nodes, table, position, i);
    }

    /** The node of the key leaves the list; its slot and its position stay until they are overwritten. */
    method UnlinkIfPresent(key: string)
      requires Agree()
      modifies Repr() - {this}
      ensures lru.Valid() && Repr() <= old(Repr())
      ensures Indexed(lru.nodes, position - {key}) && Tabled(lru.nodes, table - {key})
      ensures Entries(lru.nodes, table - {key}) == Without(old(Order()), key)
    {
      FindInOrder(key);
      if key in position {
        UnlinkNode(key);
      } else {
        FindIff(Order(), Entry(key, "", 0));
        WithoutAbsent(Order(), key);
        assert position - {key} == position && table - {key} == table;
      }
    }

    /** Drops the last key of the list, if there is one. */
    method EvictLru()
      requires Agree()
      modifies Repr()
      ensures Agree() && Repr() <= old(Repr())
      ensures Order() == if old(Order()) == [] then [] else old(Order())[..|old(Order())|-1]
      ensures |Order()| == |table| && hits == old(hits) && misses == old(misses)
      ensures SlotsKept(old(table), table)
    {
      OrderFacts();
      if lru.IsEmpty() {
        return;
      }
      ghost var before := Order();
      var last := lru.Back();
      var oldKey := last.key;
      assert before[|before|-1].key == oldKey;
      WithoutAt(before, |before|-1);
      Unlink(oldKey);
      OrderFacts();
    }

    method Del(key: string)
      requires Valid()
      modifies this`table, this`position, Repr() - {this}
      ensures Valid() && fresh(Repr() - old(Repr()))
      ensures Order() == Without(old(Order()), key) && SlotsKept(old(table), table)
    {
      if key in table {
        Unlink(key);
      } else {
        FindInOrder(key);
        FindIff(Order(), Entry(key, "", 0));
        WithoutAbsent(Order(), key);
      }
    }

    /** The three erasures that eviction, `del` and the sweep share. */
    method Unlink(key: string)
      requires Agree() && key in table
      modifies this`table, this`position, Repr() - {this}
      ensures Agree() && Repr() <= old(Repr())
      ensures Order() == Without(old(Order()), key) && table == old(table) - {key}
      ensures |table| == old(|table|) - 1
    {
      UnlinkNode(key);
      Forget(key);
    }

    /** The slot and the position of a key whose node is gone. */
    method Forget(key: string)
      requires lru.Valid() && key in table && table.Keys == position.Keys
      requires Indexed(lru.nodes, position - {key}) && Tabled(lru.nodes, table - {key})
      modifies this`table, this`position
      ensures Agree() && Order() == Entries(lru.nodes, old(table) - {key})
      ensures table == old(table) - {key} && |table| == old(|table|) - 1
    {
      RemovedSize(table, key);
      RemovedSize(position, key);
      position := position - {key};
      table := table - {key};
    }

    /** One pass over the key table, in whatever order the table is iterated, erasing on the way. */
    method CleanupExpired(now: int)
      requires Valid()
      modifies this`table, this`position, Repr() - {this}
      ensures Valid() && Repr() <= old(Repr())
      ensures Order() == Cleaned(old(Order()), now)
      ensures forall e :: e in Order() <==> e in old(Order()) && !Expired(e, now)
      ensures SlotsKept(old(table), table)
    {
      ghost var before := Order();
      var pending := table.Keys;
      OrderFacts();
      SweepStart(before, pending, now);
      forall k | k in pending ensures Find(before, k) == Some(EntryOf(k, table)) {
        FindInOrder(k);
      }
      while pending != {}
        invariant Agree() && Repr() <= old(Repr()) && |table| <= capacity
        invariant pending <= table.Keys && SlotsKept(old(table), table)
        invariant forall k :: k in pending ==> Find(before, k) == Some(EntryOf(k, table))
        invariant Order() == Keep(before, Swept(pending, now))
        decreases pending
      {
        var key :| key in pending;
        SweepStep(before, pending, key, now);
        if table[key].expire < now {
          Unlink(key);
        }
        pending := pending - {key};
      }
      SweepEnd(before, now);
      KeepMembers(before, Unexpired(now));
    }
  }
}
