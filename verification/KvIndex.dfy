/** The key-value index: a hash table with coalesced chains, where a collision is put into a free slot found by probing
    and linked behind the tail of its chain, refines a map. */
module KvIndex {
  import opened Util
  import opened Arith

  const SMALL_LENGTH: nat := 1024

  type Key = seq<bv8>

  /** A slot; `memOffset` is -1 in a free slot, `next` is -1 at the end of a chain. */
  datatype Slot = Slot(key: Key, memOffset: int, length: int, next: int) {
    predicate Used() {
      memOffset != -1
    }
  }

  /** What is stored for a key. */
  datatype Value = Value(offset: int, length: int)

  /** Slot `b` is `k` links behind slot `a`. */
  ghost predicate Reaches(t: seq<Slot>, a: nat, b: nat, k: nat)
    decreases k
  {
    a < |t| && b < |t| && if k == 0 then a == b else 0 <= t[a].next < |t| && Reaches(t, t[a].next, b, k - 1)
  }

  /** Links lead from used slots to used slots that were filled later, so no chain is a cycle. */
  ghost predicate Chained(t: seq<Slot>, born: seq<nat>, count: nat) {
    |born| == |t| && forall s :: 0 <= s < |t| ==> LinkOk(t, born, count, s)
  }

  ghost predicate LinkOk(t: seq<Slot>, born: seq<nat>, count: nat, s: nat)
    requires s < |t| == |born|
  {
    && (t[s].Used() ==> born[s] < count)
    && (t[s].next != -1 ==>
          var n := t[s].next;
          t[s].Used() && 0 <= n < |t| && t[n].Used() && born[s] < born[n])
  }

  /** Every key is stored in exactly one slot, which is reachable from the key's home slot. */
  ghost predicate Indexed(t: seq<Slot>, hash: Key -> nat, place: map<Key, nat>) {
    && |t| > 0
    && (forall k :: k in place ==> place[k] < |t| && t[place[k]].Used() && t[place[k]].key == k)
    && (forall k :: k in place ==> Found(t, hash(k) % |t|, place[k]))
    && (forall s :: 0 <= s < |t| && t[s].Used() ==> t[s].key in place && place[t[s].key] == s)
  }

  ghost predicate Found(t: seq<Slot>, a: nat, b: nat) {
    exists k: nat :: Reaches(t, a, b, k)
  }

  /** Filling a free slot and linking it behind a tail loses no chain. */
  lemma {:induction false} ReachesStill(t: seq<Slot>, u: seq<Slot>, a: nat, b: nat, k: nat)
    requires Reaches(t, a, b, k) && |u| == |t|
    requires forall s :: 0 <= s < |t| && t[s].next != -1 ==> u[s].next == t[s].next
    ensures Reaches(u, a, b, k)
    decreases k
  {
    if k > 0 {
      ReachesStill(t, u, t[a].next, b, k - 1);
    }
  }

  lemma {:induction false} ReachesOneMore(t: seq<Slot>, a: nat, b: nat, k: nat, c: nat)
    requires Reaches(t, a, b, k) && c < |t| && t[b].next == c
    ensures Reaches(t, a, c, k + 1)
    decreases k
  {
    if k > 0 {
      ReachesOneMore(t, t[a].next, b, k - 1, c);
    } else {
      assert Reaches(t, c, c, 0);
    }
  }

  lemma ReachesSelf(t: seq<Slot>, a: nat)
    requires a < |t|
    ensures Reaches(t, a, a, 0)
  {
  }

  lemma LinkLater(t: seq<Slot>, born: seq<nat>, count: nat, s: nat)
    requires Chained(t, born, count) && s < |t| && t[s].next != -1
    ensures t[s].Used() && 0 <= t[s].next < |t| && t[t[s].next].Used() && born[s] < born[t[s].next] < count
  {
    assert LinkOk(t, born, count, s);
    assert LinkOk(t, born, count, t[s].next);
  }

  /** A slot on the way to a key that does not hold the key itself has a link one step nearer. */
  lemma OnTheWay(t: seq<Slot>, born: seq<nat>, count: nat, hash: Key -> nat, place: map<Key, nat>, key: Key, s: nat,
                 k: nat)
    requires Indexed(t, hash, place) && Chained(t, born, count) && key in place && Reaches(t, s, place[key], k)
    requires !t[s].Used() || t[s].key != key
    ensures t[s].Used() && t[s].next != -1 && k > 0 && Reaches(t, t[s].next, place[key], k - 1)
  {
    LinkLater(t, born, count, s);
  }

  // ---------- Room ----------

  /** A slot is free if and only if fewer keys than slots are stored. */
  lemma HasRoom(t: seq<Slot>, hash: Key -> nat, place: map<Key, nat>)
    requires Indexed(t, hash, place)
    ensures |place| < |t| <==> exists s :: 0 <= s < |t| && !t[s].Used()
  {
    var taken := Places(place, place.Keys);
    if s: nat :| s < |t| && !t[s].Used() {
      assert s !in taken;
      BelowSize(taken + {s}, |t|);
    } else {
      forall s: nat | s < |t|
        ensures s in taken
      {
        assert t[s].Used() && place[t[s].key] == s;
      }
      SubsetSize(Below(|t|), taken);
    }
  }

  /** The slots of some of the keys; no two keys share one. */
  ghost function Places(place: map<Key, nat>, keys: set<Key>): (r: set<nat>)
    requires keys <= place.Keys && forall j, k :: j in place && k in place && place[j] == place[k] ==> j == k
    ensures |r| == |keys| && forall s :: s in r <==> exists k :: k in keys && place[k] == s
  {
    if keys == {} then {}
    else
      var k :| k in keys;
      Places(place, keys - {k}) + {place[k]}
  }

  // ---------- Insertion ----------

  /** The table after `key` has been put into the free slot `slot`, linked behind `prev` unless that is -1. */
  ghost function Put(t: seq<Slot>, slot: nat, prev: int, key: Key, offset: int, length: int): (u: seq<Slot>)
    requires slot < |t| && prev < |t|
    ensures |u| == |t|
  {
    var u := t[slot := Slot(key, offset, length, t[slot].next)];
    if prev < 0 then u else u[prev := u[prev].(next := slot)]
  }

  lemma PutChained(t: seq<Slot>, born: seq<nat>, count: nat, slot: nat, prev: int, key: Key, offset: nat, length: int)
    requires Chained(t, born, count) && slot < |t| && !t[slot].Used()
    requires prev == -1 || (0 <= prev < |t| && t[prev].Used() && t[prev].next == -1)
    ensures Chained(Put(t, slot, prev, key, offset, length), born[slot := count], count + 1)
  {
    var u, b, c := Put(t, slot, prev, key, offset, length), born[slot := count], count + 1;
    assert LinkOk(t, born, count, slot);
    forall s | 0 <= s < |u|
      ensures LinkOk(u, b, c, s)
    {
      assert LinkOk(t, born, count, s);
    }
  }

  lemma PutIndexed(t: seq<Slot>, born: seq<nat>, count: nat, hash: Key -> nat, place: map<Key, nat>, slot: nat,
                   prev: int, key: Key, offset: nat, length: int)
    requires Chained(t, born, count) && Indexed(t, hash, place) && slot < |t| && !t[slot].Used() && key !in place
    requires prev == -1 ==> slot == hash(key) % |t|
    requires prev != -1 ==> 0 <= prev < |t| && t[prev].Used() && t[prev].next == -1 && Found(t, hash(key) % |t|, prev)
    ensures Indexed(Put(t, slot, prev, key, offset, length), hash, place[key := slot])
  {
    var u, p := Put(t, slot, prev, key, offset, length), place[key := slot];
    forall k | k in p
      ensures Found(u, hash(k) % |u|, p[k])
    {
      if k != key {
        var n :| Reaches(t, hash(k) % |t|, place[k], n);
        ReachesStill(t, u, hash(k) % |t|, place[k], n);
      } else if prev == -1 {
        assert Reaches(u, slot, slot, 0);
      } else {
        var n :| Reaches(t, hash(key) % |t|, prev, n);
        ReachesStill(t, u, hash(key) % |t|, prev, n);
        ReachesOneMore(u, hash(key) % |t|, prev, n, slot);
      }
    }
  }

  ghost function Stored(t: seq<Slot>, place: map<Key, nat>): map<Key, Value> {
    map k | k in place && place[k] < |t| :: Value(t[place[k]].memOffset, t[place[k]].length)
  }

  lemma PutStored(t: seq<Slot>, hash: Key -> nat, place: map<Key, nat>, slot: nat, prev: int, key: Key, offset: nat,
                  length: int)
    requires Indexed(t, hash, place) && slot < |t| && !t[slot].Used() && prev < |t| && prev != slot
    ensures Stored(Put(t, slot, prev, key, offset, length), place[key := slot]) ==
            Stored(t, place)[key := Value(offset, length)]
  {
  }

  lemma StoredKeys(t: seq<Slot>, hash: Key -> nat, place: map<Key, nat>)
    requires Indexed(t, hash, place)
    ensures |t| > 0 && Stored(t, place).Keys == place.Keys && |Stored(t, place)| == |place|
    ensures forall k :: k in place ==> place[k] < |t| && t[place[k]].Used()
                                       && Stored(t, place)[k] == Value(t[place[k]].memOffset, t[place[k]].length)
  {
    assert Stored(t, place).Keys == place.Keys;
  }

  /** The slot `j` steps up from `a`, around the end of the table, is in use. */
  ghost predicate UsedAt(t: seq<Slot>, a: nat, j: nat) {
    |t| > 0 && t[(a + j) % |t|].Used()
  }

  lemma StepUp(a: nat, j: nat, n: nat)
    requires a < n && j < n
    ensures (a + j + 1) % n == if (a + j) % n + 1 == n then 0 else (a + j) % n + 1
  {
    var q, r := (a + j) / n, (a + j) % n;
    assert a + j == q * n + r;
    if r + 1 < n {
      QuotientIs(a + j + 1, q, n);
    } else {
      QuotientIs(a + j + 1, q + 1, n);
    }
  }

  /** A probe is back where it began after as many steps as there are slots. */
  lemma Round(a: nat, j: nat, n: nat)
    requires a < n && 0 < j <= n
    ensures (a + j) % n == a <==> j == n
  {
    if a + j < n {
      QuotientIs(a + j, 0, n);
    } else {
      QuotientIs(a + j, 1, n);
    }
  }

  /** A probe all the way round has seen every slot. */
  lemma AllUsed(t: seq<Slot>, a: nat)
    requires a < |t| && forall j: nat :: j < |t| ==> UsedAt(t, a, j)
    ensures forall s: nat :: s < |t| ==> t[s].Used()
  {
    var n := |t|;
    forall s: nat | s < n
      ensures t[s].Used()
    {
      var j := if a <= s then s - a else n - a + s;
      QuotientIs(a + j, if a <= s then 0 else 1, n);
      assert UsedAt(t, a, j);
    }
  }

  class Index {
    const table: array<Slot>
    const hash: Key -> nat
    /** The slot of every stored key. */
    ghost var place: map<Key, nat>
    /** When each slot was filled. */
    ghost var born: seq<nat>
    ghost var count: nat

    ghost predicate Valid()
      reads this, table
    {
      |born| == table.Length && Indexed(table[..], hash, place) && Chained(table[..], born, count)
    }

    /** What the index stores. */
    ghost function Contents(): map<Key, Value>
      reads this`place, table
    {
      Stored(table[..], place)
    }

    /** kv_init_namespace */
    constructor (slots: nat, hash: Key -> nat)
      requires slots > 0
      ensures Valid() && Contents() == map[] && table.Length == slots && fresh(table) && this.hash == hash
    {
      table := new Slot[slots](_ => Slot([], -1, -1, -1));
      this.hash := hash;
      place, born, count := map[], seq(slots, _ => 0), 0;
    }

    /** get_hash_slot */
    function Home(key: Key): (s: nat)
      requires table.Length > 0
      ensures s < table.Length
    {
      hash(key) % table.Length
    }

    /** The chain walk shared by lookup and update: the key's slot, if it is stored. */
    method Locate(key: Key) returns (found: bool, slot: nat)
      requires Valid()
      ensures found <==> key in place
      ensures found ==> slot == place[key]
    {
      hide Chained, Reaches;
      slot := Home(key);
      found := false;
      ghost var t := table[..];
      ghost var steps: nat := 0;
      if key in place {
        steps :| Reaches(t, slot, place[key], steps);
      }
      while table[slot].memOffset != -1
        invariant slot < table.Length
        invariant key in place ==> Reaches(t, slot, place[key], steps)
        decreases if table[slot].Used() then count - born[slot] else 0
      {
        if table[slot].key == key {
          found := true;
          break;
        }
        if key in place {
          OnTheWay(t, born, count, hash, place, key, slot, steps);
        }
        if table[slot].next == -1 {
          break;
        }
        LinkLater(t, born, count, slot);
        slot := table[slot].next;
        steps := if steps > 0 then steps - 1 else 0;
      }
      if key in place && !found {
        OnTheWay(t, born, count, hash, place, key, slot, steps);
      }
    }

    /** get_mapping_entry: the stored value, or offset -1. */
    method Get(key: Key) returns (v: Value)
      requires Valid()
      ensures key in Contents() ==> v == Contents()[key]
      ensures key !in Contents() ==> v == Value(-1, -1)
      ensures v.offset == -1 <==> key !in Contents()
    {
      hide Indexed, Chained, Stored;
      StoredKeys(table[..], hash, place);
      var found, slot := Locate(key);
      if found {
        v := Value(table[slot].memOffset, table[slot].length);
      } else {
        v := Value(-1, -1);
      }
    }

    /** update_mapping_entry: only the length changes; false if the key is not stored. */
    method Update(key: Key, length: nat) returns (ok: bool)
      requires Valid()
      modifies table
      ensures Valid() && (ok <==> key in old(Contents()))
      ensures Contents() ==
              if ok then old(Contents())[key := Value(old(Contents())[key].offset, length)] else old(Contents())
    {
      hide Indexed, Chained, Stored;
      StoredKeys(table[..], hash, place);
      var slot;
      ok, slot := Locate(key);
      if ok {
        ghost var t := table[..];
        Resized(t, key, length);
        table[slot] := table[slot].(length := length);
        assert table[..] == t[slot := t[slot].(length := length)];
        SameChains(t, table[..]);
      }
    }

    lemma Resized(t: seq<Slot>, key: Key, length: nat)
      requires Indexed(t, hash, place) && key in place && place[key] < |t|
      ensures Stored(t[place[key] := t[place[key]].(length := length)], place) ==
              Stored(t, place)[key := Value(t[place[key]].memOffset, length)]
    {
    }

    lemma SameChains(t: seq<Slot>, u: seq<Slot>)
      requires Indexed(t, hash, place) && Chained(t, born, count) && |u| == |t|
      requires forall s :: 0 <= s < |t| ==> u[s] == t[s].(length := u[s].length)
      ensures Indexed(u, hash, place) && Chained(u, born, count)
    {
      forall s | 0 <= s < |u|
        ensures LinkOk(u, born, count, s)
      {
        assert LinkOk(t, born, count, s);
      }
      forall k | k in place
        ensures Found(u, hash(k) % |u|, place[k])
      {
        var n :| Reaches(t, hash(k) % |t|, place[k], n);
        ReachesStill(t, u, hash(k) % |t|, place[k], n);
      }
    }

    /** The tail of the chain that starts in a used slot. */
    method FindTail(original: nat) returns (tail: nat)
      requires Valid() && original < table.Length && table[original].Used()
      ensures tail < table.Length && table[tail].Used() && table[tail].next == -1
      ensures Found(table[..], original, tail)
    {
      hide Indexed, Reaches, Chained;
      ghost var t := table[..];
      tail := original;
      ghost var steps: nat := 0;
      ReachesSelf(t, original);
      while table[tail].next != -1
        invariant tail < table.Length && table[tail].Used() && Reaches(t, original, tail, steps)
        decreases count - born[tail]
      {
        LinkLater(t, born, count, tail);
        ReachesOneMore(t, original, tail, steps, t[tail].next);
        tail := table[tail].next;
        steps := steps + 1;
      }
    }

    /** find_next_slot: the tail of the chain, and the first free slot from there on, `steps` slots up.  A probe that
        comes back to where it began, which the source would go on with for ever, is reported as not found. */
    method FindNextSlot(original: nat) returns (found: bool, slot: nat, prev: nat, ghost steps: nat)
      requires Valid() && original < table.Length && table[original].Used()
      ensures found <==> |place| < table.Length
      ensures prev < table.Length && table[prev].Used() && table[prev].next == -1 && Found(table[..], original, prev)
      ensures found ==>
                && slot < table.Length && !table[slot].Used() && slot == (prev + steps) % table.Length
                && forall j: nat :: j < steps ==> UsedAt(table[..], prev, j)
    {
      hide Indexed, Chained, Found;
      prev := FindTail(original);
      HasRoom(table[..], hash, place);
      slot, steps := prev, 0;
      while table[slot].memOffset != -1
        invariant slot < table.Length && steps < table.Length && slot == (prev + steps) % table.Length
        invariant forall j: nat :: j < steps ==> UsedAt(table[..], prev, j)
        decreases table.Length - steps
      {
        assert UsedAt(table[..], prev, steps);
        StepUp(prev, steps, table.Length);
        slot := slot + 1;
        if slot >= table.Length {
          slot := 0;
        }
        steps := steps + 1;
        if slot == prev {
          Round(prev, steps, table.Length);
          AllUsed(table[..], prev);
          return false, slot, prev, steps;
        }
        Round(prev, steps, table.Length);
      }
      found := true;
    }

    /** new_mapping_entry: a key that is not stored yet gets the free slot found by probing, if there is one. */
    method Insert(key: Key, offset: nat, length: nat) returns (ok: bool)
      requires Valid() && key !in Contents()
      modifies this`place, this`born, this`count, table
      ensures Valid() && (ok <==> |old(Contents())| < table.Length)
      ensures Contents() == if ok then old(Contents())[key := Value(offset, length)] else old(Contents())
    {
      hide Indexed, Chained, Found, Stored, Put;
      StoredKeys(table[..], hash, place);
      HasRoom(table[..], hash, place);
      var slot := Home(key);
      var prev: int := -1;
      ok := true;
      if table[slot].memOffset != -1 {
        ghost var steps;
        ok, slot, prev, steps := FindNextSlot(slot);
        if !ok {
          return;
        }
      }
      PutChained(table[..], born, count, slot, prev, key, offset, length);
      PutIndexed(table[..], born, count, hash, place, slot, prev, key, offset, length);
      PutStored(table[..], hash, place, slot, prev, key, offset, length);
      Fill(slot, prev, key, offset, length);
      place, born, count := place[key := slot], born[slot := count], count + 1;
    }

    method Fill(slot: nat, prev: int, key: Key, offset: nat, length: nat)
      requires slot < table.Length && prev < table.Length && prev != slot && (prev >= 0 || prev == -1)
      modifies table
      ensures table[..] == Put(old(table[..]), slot, prev, key, offset, length)
    {
      table[slot] := table[slot].(key := key, memOffset := offset, length := length);
      if prev != -1 {
        table[prev] := table[prev].(next := slot);
      }
    }

    /** The index part of a store command; `granted` is the offset the allocator gives to a new key.  It fails exactly
        for a new key on a full table. */
    method Store(key: Key, length: nat, granted: nat) returns (ok: bool, offset: int)
      requires Valid()
      modifies this`place, this`born, this`count, table
      ensures Valid() && (ok <==> key in old(Contents()) || |old(Contents())| < table.Length)
      ensures ok ==> key in Contents() && offset == Contents()[key].offset
      ensures key !in old(Contents()) ==>
                Contents() == if ok then old(Contents())[key := Value(granted, length)] else old(Contents())
      ensures key in old(Contents()) ==>
                var v := old(Contents())[key];
                Contents() == if length != v.length && length <= 1024 && v.length <= 1024
                              then old(Contents())[key := Value(v.offset, length)] else old(Contents())
    {
      var entry := Get(key);
      ok, offset := true, entry.offset;
      if entry.offset == -1 {
        offset := granted;
        ok := Insert(key, granted, length);
      } else if length != entry.length && length <= SMALL_LENGTH && entry.length <= SMALL_LENGTH {
        var updated := Update(key, length);
      }
    }

    /** The index part of a retrieve command: where to read from and how much, or none. */
    method Retrieve(key: Key, length: nat) returns (stored: bool, offset: int, n: int)
      requires Valid()
      ensures stored <==> key in Contents()
      ensures stored ==> offset == Contents()[key].offset
                          && n == if Contents()[key].length < length then Contents()[key].length else length
    {
      var entry := Get(key);
      stored, offset := entry.offset != -1, entry.offset;
      n := if entry.length < length then entry.length else length;
    }
  }
}
