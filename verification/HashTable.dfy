/**
 lib/hashtable.c: open addressing with linear probing and tombstones.  A key hashes to a
 64-bit number; probe i looks at slot (hash + i) modulo 2^64, then modulo the capacity.
 */
module HashTable {
  import Arith

  const WORDS: nat := 0x1_0000_0000_0000_0000

  type Word = x: int | 0 <= x < WORDS

  const TOMB: Word := WORDS - 1

  datatype Error = Ok | Inval | NoSpace | NotFound | Panic | Fault

  datatype Entry = Entry(key: Word, val: Word)

  const EMPTY: Entry := Entry(0, 0)

  predicate IsKey(k: Word) {
    k != 0 && k != TOMB
  }

  /** The slot that probe i of a hash looks at. */
  function Slot(h: Word, i: nat, capacity: nat): (p: nat)
    requires capacity > 0
    ensures p < capacity
  {
    (h + i) % WORDS % capacity
  }

  // When linear probing reaches every slot.

  /** The capacity divides 2^64, as every power of two does. */
  ghost predicate Divides(capacity: nat) {
    capacity > 0 && WORDS % capacity == 0
  }

  /** Going round at 2^64 is not noticed modulo a divisor of it. */
  lemma WrapDivides(x: nat, capacity: nat)
    requires Divides(capacity)
    ensures x % WORDS % capacity == x % capacity
  {
    var d, q, r := WORDS / capacity, x / WORDS, x % WORDS;
    assert WORDS == capacity * d;
    assert x == WORDS * q + r;
    assert capacity * (d * q) == WORDS * q by {
      assert capacity * (d * q) == (capacity * d) * q;
    }
    assert r == capacity * (r / capacity) + r % capacity;
    assert x == capacity * (d * q + r / capacity) + r % capacity;
    Arith.DivModOf(x, capacity, d * q + r / capacity, r % capacity);
  }

  /** The probe that looks at slot p when the hash does not wrap, or wraps unnoticed. */
  function ProbeTo(h: Word, p: nat, capacity: nat): (i: nat)
    requires p < capacity
    ensures i < capacity
  {
    if h % capacity <= p then p - h % capacity else p - h % capacity + capacity
  }

  lemma ProbeMod(h: Word, p: nat, capacity: nat)
    requires p < capacity
    ensures (h + ProbeTo(h, p, capacity)) % capacity == p
  {
    var i, q, r := ProbeTo(h, p, capacity), h / capacity, h % capacity;
    assert h == capacity * q + r;
    if r <= p {
      Arith.DivModOf(h + i, capacity, q, p);
    } else {
      assert capacity * (q + 1) == capacity * q + capacity;
      Arith.DivModOf(h + i, capacity, q + 1, p);
    }
  }

  lemma ProbeReaches(h: Word, p: nat, capacity: nat)
    requires p < capacity && (Divides(capacity) || h + capacity <= WORDS)
    ensures Slot(h, ProbeTo(h, p, capacity), capacity) == p
  {
    var i := ProbeTo(h, p, capacity);
    ProbeMod(h, p, capacity);
    hide Divides, ProbeTo;
    if Divides(capacity) {
      WrapDivides(h + i, capacity);
    } else {
      Arith.DivModOf(h + i, WORDS, 0, h + i);
    }
  }

  lemma ProbesDiffer(h: Word, i: nat, j: nat, capacity: nat)
    requires Divides(capacity) && i < j < capacity
    ensures Slot(h, i, capacity) != Slot(h, j, capacity)
  {
    WrapDivides(h + i, capacity);
    WrapDivides(h + j, capacity);
    Arith.ModDistinct(h + i, h + j, capacity);
  }

  /** (2^64 - j) modulo the capacity, for j up to the capacity. */
  lemma BelowWrap(j: nat, capacity: nat)
    requires 1 <= j < capacity
    ensures (WORDS - j) % capacity == (var d := WORDS % capacity; if j <= d then d - j else d - j + capacity)
  {
    var q, d := WORDS / capacity, WORDS % capacity;
    if j <= d {
      Arith.DivModOf(WORDS - j, capacity, q, d - j);
    } else {
      assert WORDS - j == capacity * (q - 1) + (d - j + capacity);
      Arith.DivModOf(WORDS - j, capacity, q - 1, d - j + capacity);
    }
  }

  /** Some probe of the hash looks at slot p. */
  ghost predicate Reached(h: Word, p: nat, capacity: nat)
    requires capacity > 0
  {
    exists i :: 0 <= i < capacity && Slot(h, i, capacity) == p
  }

  /** A slot that no probe looks at, when the hash wraps and the capacity does not divide 2^64. */
  lemma UnreachedSlot(h: Word, capacity: nat) returns (p: nat)
    requires 0 < capacity <= WORDS && WORDS % capacity != 0 && h + capacity > WORDS
    ensures p < capacity && !Reached(h, p, capacity)
  {
    var d, w := WORDS % capacity, WORDS - h;
    p := if d >= w then capacity - 1 else if d >= capacity - w then d else capacity - w;
    forall i | 0 <= i < capacity ensures Slot(h, i, capacity) != p {
      if i < w {
        BelowWrap(w - i, capacity);
        assert (h + i) % WORDS == WORDS - (w - i);
      } else {
        assert (h + i) % WORDS == i - w;
        Arith.DivModOf(i - w, capacity, 0, i - w);
      }
    }
  }

  /** Probing reaches every slot exactly when the capacity divides 2^64 or the hash does not wrap. */
  lemma ProbingCoversAll(h: Word, capacity: nat)
    requires 0 < capacity <= WORDS
    ensures (forall p :: 0 <= p < capacity ==> Reached(h, p, capacity))
            <==> (Divides(capacity) || h + capacity <= WORDS)
  {
    if Divides(capacity) || h + capacity <= WORDS {
      forall p | 0 <= p < capacity ensures Reached(h, p, capacity) {
        ProbeReaches(h, p, capacity);
      }
    } else {
      var p := UnreachedSlot(h, capacity);
    }
  }

  // What a table means.

  ghost predicate Unique(es: seq<Entry>) {
    forall p, q :: 0 <= p < |es| && 0 <= q < |es| && p != q && IsKey(es[p].key) ==> es[p].key != es[q].key
  }

  /** No empty slot comes before the key at p on its probe path. */
  ghost predicate Findable(es: seq<Entry>, hash: Word -> Word, p: nat)
    requires p < |es|
  {
    var h := hash(es[p].key);
    forall j :: 0 <= j < ProbeTo(h, p, |es|) ==> es[Slot(h, j, |es|)].key != 0
  }

  ghost predicate TableOk(es: seq<Entry>, hash: Word -> Word) {
    && (es == [] || Divides(|es|)) && Unique(es)
    && forall p :: 0 <= p < |es| && IsKey(es[p].key) ==> Findable(es, hash, p)
  }

  /** The finite map a table stands for. */
  ghost function Contents(es: seq<Entry>): map<Word, Word>
    requires Unique(es)
  {
    map p | 0 <= p < |es| && IsKey(es[p].key) :: es[p].key := es[p].val
  }

  lemma ContentsAt(es: seq<Entry>, p: nat)
    requires Unique(es) && p < |es| && IsKey(es[p].key)
    ensures es[p].key in Contents(es) && Contents(es)[es[p].key] == es[p].val
  {
  }

  lemma SlotOf(es: seq<Entry>, k: Word) returns (p: nat)
    requires Unique(es) && k in Contents(es)
    ensures p < |es| && es[p].key == k && IsKey(k) && Contents(es)[k] == es[p].val
  {
    p :| 0 <= p < |es| && IsKey(es[p].key) && es[p].key == k;
  }

  /** The number of slots that hold a key. */
  ghost function Live(es: seq<Entry>): nat {
    if es == [] then 0 else Live(es[1..]) + if IsKey(es[0].key) then 1 else 0
  }

  lemma {:induction false} LiveUpdate(es: seq<Entry>, p: nat, e: Entry)
    requires p < |es|
    ensures Live(es[p := e]) == Live(es) + (if IsKey(e.key) then 1 else 0) - (if IsKey(es[p].key) then 1 else 0)
  {
    if p == 0 {
      assert es[p := e][1..] == es[1..];
    } else {
      LiveUpdate(es[1..], p - 1, e);
      assert es[p := e][1..] == es[1..][p - 1 := e];
    }
  }

  lemma {:induction false} LiveFull(es: seq<Entry>)
    ensures Live(es) <= |es|
    ensures Live(es) == |es| <==> forall p :: 0 <= p < |es| ==> IsKey(es[p].key)
  {
    if es != [] {
      LiveFull(es[1..]);
      assert forall p :: 0 < p < |es| ==> es[p] == es[1..][p - 1];
    }
  }

  lemma {:induction false} LiveNone(es: seq<Entry>)
    requires forall p :: 0 <= p < |es| ==> es[p] == EMPTY
    ensures Live(es) == 0
  {
    if es != [] {
      LiveNone(es[1..]);
    }
  }

  /** The size field of a good table is the number of bindings of its map. */
  lemma {:induction false} LiveIsCardinality(es: seq<Entry>)
    requires Unique(es)
    ensures |Contents(es)| == Live(es)
  {
    if es != [] {
      hide Contents;
      var t := es[1..];
      assert forall p :: 0 <= p < |t| ==> t[p] == es[p + 1];
      LiveIsCardinality(t);
      var m, n := Contents(es), Contents(t);
      forall k | k in m ensures k in n || (k == es[0].key && IsKey(k)) {
        var p := SlotOf(es, k);
        if p > 0 { ContentsAt(t, p - 1); }
      }
      forall k | k in n ensures k in m && k != es[0].key {
        var p := SlotOf(t, k);
        ContentsAt(es, p + 1);
      }
      if IsKey(es[0].key) {
        ContentsAt(es, 0);
        assert m.Keys == n.Keys + {es[0].key};
      } else {
        assert m.Keys == n.Keys;
      }
      assert |m| == |m.Keys| && |n| == |n.Keys|;
    } else {
      assert Contents(es) == map[];
    }
  }

  /** The probes before i saw neither the key nor an empty slot. */
  ghost predicate Passed(es: seq<Entry>, h: Word, key: Word, i: nat)
    requires es != []
  {
    forall j {:trigger Slot(h, j, |es|)} :: 0 <= j < i ==>
      es[Slot(h, j, |es|)].key != key && es[Slot(h, j, |es|)].key != 0
  }

  /** A search that comes to an empty slot, or round the table, has seen every place the key could be. */
  lemma SearchComplete(es: seq<Entry>, hash: Word -> Word, key: Word, i: nat)
    requires TableOk(es, hash) && IsKey(key) && es != []
    requires i <= |es| && Passed(es, hash(key), key, i)
    requires i == |es| || es[Slot(hash(key), i, |es|)].key == 0
    ensures key !in Contents(es)
  {
    forall p | 0 <= p < |es| ensures es[p].key != key {
      ProbeReaches(hash(key), p, |es|);
      assert IsKey(es[p].key) ==> Findable(es, hash, p);
    }
  }

  /** Filling a vacant slot that the key's probes reach first adds the binding. */
  lemma PutKeeps(es: seq<Entry>, hash: Word -> Word, key: Word, val: Word, i: nat)
    requires TableOk(es, hash) && IsKey(key) && i < |es| && key !in Contents(es)
    requires Passed(es, hash(key), key, i) && !IsKey(es[Slot(hash(key), i, |es|)].key)
    ensures var es' := es[Slot(hash(key), i, |es|) := Entry(key, val)];
            && TableOk(es', hash) && Live(es') == Live(es) + 1
            && Contents(es') == Contents(es)[key := val]
  {
    var h := hash(key);
    var p := Slot(h, i, |es|);
    var es' := es[p := Entry(key, val)];
    LiveUpdate(es, p, Entry(key, val));
    assert forall q :: 0 <= q < |es| && IsKey(es[q].key) ==> es[q].key in Contents(es) && q != p;
    ProbeReaches(h, p, |es|);
    assert ProbeTo(h, p, |es|) == i by {
      if ProbeTo(h, p, |es|) < i { ProbesDiffer(h, ProbeTo(h, p, |es|), i, |es|); }
      if i < ProbeTo(h, p, |es|) { ProbesDiffer(h, i, ProbeTo(h, p, |es|), |es|); }
    }
    forall q | 0 <= q < |es| && IsKey(es'[q].key) ensures Findable(es', hash, q) {
      if q != p { assert Findable(es, hash, q); }
    }
    assert Unique(es');
    ContentsUpdated(es, p, Entry(key, val));
  }

  lemma ContentsUpdated(es: seq<Entry>, p: nat, e: Entry)
    requires p < |es| && Unique(es) && Unique(es[p := e])
    ensures Contents(es[p := e]) ==
            (var rest := if IsKey(es[p].key) then Contents(es) - {es[p].key} else Contents(es);
             if IsKey(e.key) then rest[e.key := e.val] else rest)
  {
    hide Contents;
    var es' := es[p := e];
    var rest := if IsKey(es[p].key) then Contents(es) - {es[p].key} else Contents(es);
    var m := if IsKey(e.key) then rest[e.key := e.val] else rest;
    forall k | k in Contents(es') ensures k in m && m[k] == Contents(es')[k] {
      var q := SlotOf(es', k);
      if q != p {
        ContentsAt(es, q);
        assert es'[q] == es[q] && es'[q].key != es'[p].key && es[q].key != es[p].key;
        assert k in rest && rest[k] == es[q].val;
      }
    }
    forall k | k in m ensures k in Contents(es') {
      if k == e.key && IsKey(e.key) {
        ContentsAt(es', p);
      } else {
        var q := SlotOf(es, k);
        ContentsAt(es', q);
      }
    }
  }

  /** A tombstone in place of the key takes the binding away and cuts no probe path. */
  lemma DelKeeps(es: seq<Entry>, hash: Word -> Word, p: nat)
    requires TableOk(es, hash) && p < |es| && IsKey(es[p].key)
    ensures var es' := es[p := Entry(TOMB, 0)];
            && TableOk(es', hash) && Live(es') == Live(es) - 1
            && Contents(es') == Contents(es) - {es[p].key}
  {
    var es' := es[p := Entry(TOMB, 0)];
    LiveUpdate(es, p, Entry(TOMB, 0));
    forall q | 0 <= q < |es| && IsKey(es'[q].key) ensures Findable(es', hash, q) {
      assert Findable(es, hash, q);
    }
    ContentsUpdated(es, p, Entry(TOMB, 0));
  }

  /** The key's probes meet a tombstone before they meet the key. */
  ghost predicate TombFirst(es: seq<Entry>, h: Word, key: Word) {
    es != [] && exists i :: 0 <= i < |es| && es[Slot(h, i, |es|)].key == TOMB && Passed(es, h, key, i)
  }

  class Table {
    /** The hash of a one-word key; any function will do. */
    const hash: Word -> Word
    const entry: array<Entry>
    var size: int

    ghost predicate Valid()
      reads this, entry
    {
      TableOk(entry[..], hash) && size == Live(entry[..])
    }

    ghost function View(): map<Word, Word>
      requires Valid()
      reads this, entry
    {
      Contents(entry[..])
    }

    /** hash_init: all slots empty. */
    constructor (hash: Word -> Word, n: nat)
      requires n == 0 || Divides(n)
      ensures Valid() && View() == map[] && this.hash == hash && entry.Length == n && fresh(entry) && size == 0
      ensures forall p :: 0 <= p < n ==> entry[p] == EMPTY
    {
      this.hash := hash;
      entry := new Entry[n](_ => EMPTY);
      size := 0;
      new;
      LiveNone(entry[..]);
    }

    /** hash_get: finds exactly the binding of the map. */
    method Get(key: Word) returns (r: Error, val: Word)
      requires Valid()
      ensures !IsKey(key) ==> r == Inval
      ensures IsKey(key) ==> (r == Ok <==> key in View()) && (r == NotFound <==> key !in View())
      ensures r == Ok ==> val == View()[key]
    {
      val := 0;
      if !IsKey(key) {
        return Inval, val;
      }
      ghost var es := entry[..];
      var i := 0;
      while i < entry.Length
        invariant 0 <= i <= entry.Length && (es != [] ==> Passed(es, hash(key), key, i))
      {
        var probe := Slot(hash(key), i, entry.Length);
        if entry[probe].key == key {
          ContentsAt(es, probe);
          return Ok, entry[probe].val;
        } else if entry[probe].key == 0 {
          SearchComplete(es, hash, key, i);
          return NotFound, val;
        }
        i := i + 1;
      }
      if es != [] {
        SearchComplete(es, hash, key, i);
      }
      return NotFound, val;
    }

    /**
     hash_put: binds an absent key, and finds a slot whenever the table is not full.  A key
     that is present is refused only if its probes meet no tombstone first; otherwise it is
     stored a second time, and the table no longer stands for a map.
     */
    method Put(key: Word, val: Word) returns (r: Error, ghost slot: nat)
      requires Valid()
      modifies this`size, entry
      ensures !IsKey(key) ==> r == Inval
      ensures IsKey(key) && old(size) == entry.Length ==> r == NoSpace
      ensures IsKey(key) && old(size) < entry.Length && key !in old(View()) ==>
                r == Ok && Valid() && View() == old(View())[key := val]
      ensures IsKey(key) && old(size) < entry.Length && key in old(View()) ==>
                (r == Inval <==> !TombFirst(old(entry[..]), hash(key), key))
                && (r != Inval ==> r == Ok && !Unique(entry[..]))
      ensures r == Ok ==> slot < entry.Length && !IsKey(old(entry[slot].key))
                          && entry[..] == old(entry[..])[slot := Entry(key, val)]
      ensures r != Ok ==> entry[..] == old(entry[..]) && size == old(size)
    {
      slot := 0;
      if !IsKey(key) {
        return Inval, slot;
      }
      if size == entry.Length {
        return NoSpace, slot;
      }
      ghost var es := entry[..];
      LiveFull(es);
      var i := 0;
      var probe := 0;
      while i < entry.Length
        invariant 0 <= i <= entry.Length && Passed(es, hash(key), key, i)
        invariant forall j {:trigger Slot(hash(key), j, |es|)} :: 0 <= j < i ==> IsKey(es[Slot(hash(key), j, |es|)].key)
      {
        probe := Slot(hash(key), i, entry.Length);
        if entry[probe].key == 0 || entry[probe].key == TOMB {
          break;
        }
        if entry[probe].key == key {
          ContentsAt(es, probe);
          NoTombFirst(es, hash(key), key, i);
          return Inval, slot;
        }
        i := i + 1;
      }
      VacantReached(es, hash(key), i);
      if key !in Contents(es) {
        PutKeeps(es, hash, key, val, i);
      } else {
        PutTwice(es, hash, key, val, i);
      }
      size := size + 1;
      entry[probe] := Entry(key, val);
      assert entry[..] == es[probe := Entry(key, val)];
      return Ok, probe;
    }

    /** hash_del: removes exactly the binding of the key. */
    method Del(key: Word) returns (r: Error)
      requires Valid()
      modifies this`size, entry
      ensures Valid()
      ensures !IsKey(key) ==> r == Inval
      ensures IsKey(key) ==> (r == Ok <==> key in old(View())) && (r == NotFound <==> key !in old(View()))
      ensures View() == if r == Ok then old(View()) - {key} else old(View())
      ensures r != Ok ==> entry[..] == old(entry[..]) && size == old(size)
    {
      if !IsKey(key) {
        return Inval;
      }
      ghost var es := entry[..];
      var i := 0;
      while i < entry.Length
        invariant 0 <= i <= entry.Length && (es != [] ==> Passed(es, hash(key), key, i))
        invariant entry[..] == es && size == old(size)
      {
        var probe := Slot(hash(key), i, entry.Length);
        if entry[probe].key == key {
          ContentsAt(es, probe);
          DelKeeps(es, hash, probe);
          entry[probe] := Entry(TOMB, 0);
          size := size - 1;
          assert entry[..] == es[probe := Entry(TOMB, 0)];
          return Ok;
        } else if entry[probe].key == 0 {
          SearchComplete(es, hash, key, i);
          return NotFound;
        }
        i := i + 1;
      }
      if es != [] {
        SearchComplete(es, hash, key, i);
      }
      return NotFound;
    }

    /** hashiter_next: the next live slot at or after index, with no live slot in between. */
    method NextLive(index: nat) returns (found: bool, at: nat)
      requires index <= entry.Length
      ensures found ==> index <= at < entry.Length && IsKey(entry[at].key)
      ensures found ==> forall p :: index <= p < at ==> !IsKey(entry[p].key)
      ensures !found ==> forall p :: index <= p < entry.Length ==> !IsKey(entry[p].key)
    {
      var i := index;
      while i < entry.Length
        invariant index <= i <= entry.Length
        invariant forall p :: index <= p < i ==> !IsKey(entry[p].key)
      {
        if IsKey(entry[i].key) {
          return true, i;
        }
        i := i + 1;
      }
      return false, i;
    }
  }

  /** A table that is not full has a vacant slot, and probing comes to it. */
  lemma VacantReached(es: seq<Entry>, h: Word, i: nat)
    requires es != [] && Divides(|es|) && i <= |es| && Live(es) < |es|
    requires forall j {:trigger Slot(h, j, |es|)} :: 0 <= j < i ==> IsKey(es[Slot(h, j, |es|)].key)
    ensures i < |es|
  {
    LiveFull(es);
    var p :| 0 <= p < |es| && !IsKey(es[p].key);
    ProbeReaches(h, p, |es|);
  }

  lemma NoTombFirst(es: seq<Entry>, h: Word, key: Word, i: nat)
    requires i < |es| && es[Slot(h, i, |es|)].key == key && IsKey(key)
    requires forall j {:trigger Slot(h, j, |es|)} :: 0 <= j < i ==> IsKey(es[Slot(h, j, |es|)].key)
    ensures !TombFirst(es, h, key)
  {
  }

  lemma PutTwice(es: seq<Entry>, hash: Word -> Word, key: Word, val: Word, i: nat)
    requires TableOk(es, hash) && IsKey(key) && i < |es| && key in Contents(es)
    requires Passed(es, hash(key), key, i) && !IsKey(es[Slot(hash(key), i, |es|)].key)
    ensures TombFirst(es, hash(key), key)
    ensures !Unique(es[Slot(hash(key), i, |es|) := Entry(key, val)])
  {
    var p := Slot(hash(key), i, |es|);
    var q := SlotOf(es, key);
    var es' := es[p := Entry(key, val)];
    assert es'[p].key == es'[q].key && p != q;
    if es[p].key == 0 {
      SearchComplete(es, hash, key, i);
    }
  }

  /** A present key stored again: the only key sits behind a tombstone on its probe path. */
  lemma TombFirstExample()
    ensures var es := [Entry(TOMB, 0), Entry(5, 1)];
            TableOk(es, _ => 0) && 5 in Contents(es) && TombFirst(es, 0, 5)
  {
    var es := [Entry(TOMB, 0), Entry(5, 1)];
    ContentsAt(es, 1);
    assert es[Slot(0, 0, |es|)].key == TOMB && Passed(es, 0, 5, 0);
  }
}
