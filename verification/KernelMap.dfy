/**
 kern/kern/map.c: the growing map over the hash table.  Before a put, a table that is at
 least 70 percent full is copied into one of twice as many pages.
 */
module KernelMap {
  import opened HashTable
  import Arith

  const ENTRIES_PER_PAGE: nat := 256
  const REHASH_THRESH: int := 70

  /** The page count from which doubling makes 2^31 entries, which wraps to a negative int capacity. */
  const LAST_PAGES: nat := 0x40_0000

  /** A page count of the form 2^k gives a capacity that divides 2^64. */
  lemma PagesDivide(k: nat)
    requires k <= 56
    ensures Divides(Arith.Pow2(k) * ENTRIES_PER_PAGE)
  {
    hide Arith.Pow2;
    var w, d := Arith.Pow2(k), Arith.Pow2(56 - k);
    Arith.Pow2Sum(k, 56 - k);
    Arith.Pow2Values();
    DivideBy(w * ENTRIES_PER_PAGE, d);
  }

  lemma DivideBy(n: nat, d: nat)
    requires n > 0 && n * d == WORDS
    ensures Divides(n)
  {
    Arith.DivModOf(WORDS, n, d, 0);
  }

  /** Two's complement wrap of an int expression. */
  function Wrap32(x: int): int {
    (x + 0x8000_0000) % 0x1_0000_0000 - 0x8000_0000
  }

  /** The fill percentage as the code computes it: int arithmetic, then taken as unsigned. */
  function Percent(size: nat, capacity: nat): int {
    if capacity == 0 then 100
    else
      var v := Wrap32(100 * size);
      if v >= 0 then v / capacity
      else if -v / capacity == 0 then 0
      else WORDS - (-v / capacity)
  }

  lemma PrefixUnique(es: seq<Entry>, i: nat)
    requires Unique(es) && i <= |es|
    ensures Unique(es[..i])
  {
  }

  /** One more slot of the old table adds at most its own binding. */
  lemma PrefixStep(es: seq<Entry>, i: nat)
    requires Unique(es) && i < |es|
    ensures Unique(es[..i]) && Unique(es[..i + 1])
    ensures Contents(es[..i + 1]) == if IsKey(es[i].key) then Contents(es[..i])[es[i].key := es[i].val]
            else Contents(es[..i])
    ensures IsKey(es[i].key) ==> es[i].key !in Contents(es[..i])
  {
    hide Contents;
    var a, b := es[..i], es[..i + 1];
    var m := if IsKey(es[i].key) then Contents(a)[es[i].key := es[i].val] else Contents(a);
    if es[i].key in Contents(a) {
      var p := SlotOf(a, es[i].key);
    }
    forall k | k in Contents(b) ensures k in m && m[k] == Contents(b)[k] {
      var p := SlotOf(b, k);
      if p < i { ContentsAt(a, p); }
    }
    forall k | k in m ensures k in Contents(b) {
      if IsKey(es[i].key) && k == es[i].key {
        ContentsAt(b, i);
      } else {
        var p := SlotOf(a, k);
        ContentsAt(b, p);
      }
    }
  }

  lemma {:induction false} PrefixLive(es: seq<Entry>, i: nat)
    requires i <= |es|
    ensures Live(es[..i]) <= Live(es)
  {
    if i > 0 {
      PrefixLive(es[1..], i - 1);
      assert es[..i][1..] == es[1..][..i - 1];
    }
  }

  lemma StepUntilLive(es: seq<Entry>, from: nat, to: nat)
    requires Unique(es) && from <= to <= |es|
    requires forall p :: from <= p < to ==> !IsKey(es[p].key)
    ensures Unique(es[..from]) && Unique(es[..to]) && Contents(es[..from]) == Contents(es[..to])
  {
    PrefixUnique(es, from);
    PrefixUnique(es, to);
    if from < to {
      StepUntilLive(es, from, to - 1);
      PrefixStep(es, to - 1);
    }
  }

  /**
   How the allocation of a new table goes: page_alloc fails at some page, or the page tree
   has no memory to enter a page that was had, or neither.
   */
  datatype Memory = Enough | NoPage | NoNode

  class Map {
    const hash: Word -> Word
    var table: Table
    var npages: nat
    /** npages is 2^(order - 1), or 0 for a map never written. */
    ghost var order: nat

    ghost predicate Valid()
      reads this, table, table.entry
    {
      && table.Valid() && table.hash == hash && order <= 23
      && npages == (if order == 0 then 0 else Arith.Pow2(order - 1))
      && table.entry.Length == npages * ENTRIES_PER_PAGE
    }

    ghost function View(): map<Word, Word>
      requires Valid()
      reads this, table, table.entry
    {
      table.View()
    }

    constructor (hash: Word -> Word)
      ensures Valid() && View() == map[] && fresh(table) && fresh(table.entry) && this.hash == hash
    {
      this.hash := hash;
      table := new Table(hash, 0);
      npages, order := 0, 0;
    }

    /**
     rehash: copies every binding into a table of twice the pages.  Without a page the code
     frees the address of its own variable, which panics; without memory to enter a page it
     gives up, and that page is leaked.  From 2^22 pages the new capacity is negative, and the
     first put into the new table, in the copy or after it, goes through a null pointer.
     */
    method Rehash(memory: Memory) returns (r: Error, leaked: nat)
      requires Valid()
      modifies this
      ensures memory == NoPage <==> r == Panic
      ensures memory == NoNode <==> r == NoSpace
      ensures r == Fault <==> memory == Enough && old(npages) == LAST_PAGES
      ensures r in {Ok, Panic, NoSpace, Fault}
      ensures r !in {Panic, Fault} ==> Valid() && View() == old(View()) && leaked == if memory == NoNode then 1 else 0
      ensures r == NoSpace ==> table == old(table) && npages == old(npages)
      ensures r == Ok ==>
              fresh(table) && fresh(table.entry) && npages == (if old(npages) == 0 then 1 else 2 * old(npages))
      ensures r == Ok ==> table.size < table.entry.Length && NoTombs(table.entry[..])
    {
      hide Contents, TableOk, Live, Arith.Pow2, Unique, NoTombs, Wrap32;
      if memory == NoPage {
        return Panic, 0;
      }
      if memory == NoNode {
        return NoSpace, 1;
      }
      var n := if npages == 0 then 1 else npages * 2;
      NextOrder(npages, order);
      if Wrap32(n * ENTRIES_PER_PAGE) < 0 {
        return Fault, 0;
      }
      PagesDivide(order);
      var next := new Table(hash, n * ENTRIES_PER_PAGE);
      SizeFits(table.entry[..], table.hash);
      FreshHasNoTombs(next.entry[..]);
      CopyAll(table, next);
      SizeFits(next.entry[..], hash);
      table, npages, order := next, n, order + 1;
      return Ok, 0;
    }

    /** The table is rebuilt before the put. */
    ghost predicate Grows()
      requires Valid()
      reads this, table, table.entry
    {
      Percent(|View()|, npages * ENTRIES_PER_PAGE) >= REHASH_THRESH
    }

    /** No slot is free: none is left and the table was not rebuilt. */
    ghost predicate Stuck(memory: Memory)
      requires Valid()
      reads this, table, table.entry
    {
      |View()| == npages * ENTRIES_PER_PAGE && !(Grows() && memory == Enough)
    }

    /** A put of a present key is noticed: the table is rebuilt, or its probes meet no tombstone first. */
    ghost predicate Notices(key: Word, memory: Memory)
      requires Valid()
      reads this, table, table.entry
    {
      (Grows() && memory == Enough) || !TombFirst(table.entry[..], hash(key), key)
    }

    /**
     map_put: binds an absent key and refuses a present one that it notices.  It panics
     exactly when a new table is due and page_alloc fails, and faults exactly when a new table
     is due and its capacity does not fit an int.
     */
    method Put(key: Word, val: Word, memory: Memory) returns (r: Error, leaked: nat)
      requires Valid() && key != 0
      modifies this, table`size, table.entry
      ensures r == Panic <==> old(Grows()) && memory == NoPage
      ensures r == Fault <==> old(Grows()) && memory == Enough && old(npages) == LAST_PAGES
      ensures r == NoSpace <==> r !in {Panic, Fault} && key != TOMB && old(Stuck(memory))
      ensures r == Inval <==>
                && r !in {Panic, Fault}
                && (key == TOMB || (!old(Stuck(memory)) && key in old(View()) && old(Notices(key, memory))))
      ensures r in {Ok, Inval, NoSpace, Panic, Fault}
      ensures r in {Inval, NoSpace} ==> Valid() && View() == old(View())
      ensures r == Ok && key !in old(View()) ==> Valid() && View() == old(View())[key := val]
      ensures r == Ok && key in old(View()) ==> !Unique(table.entry[..])
      ensures r !in {Panic, Fault} ==> leaked == if old(Grows()) && memory == NoNode then 1 else 0
    {
      hide Contents, TableOk, Live, Arith.Pow2, TombFirst, Percent, NoTombs, Unique;
      SizeFits(table.entry[..], table.hash);
      leaked := 0;
      if Percent(table.size, table.entry.Length) >= REHASH_THRESH {
        r, leaked := Rehash(memory);
        if r == Panic || r == Fault {
          return;
        }
        if r == Ok {
          NoTombsFirst(table.entry[..], hash(key), key);
        }
      }
      ghost var slot;
      r, slot := table.Put(key, val);
    }

    /** map_get. */
    method Get(key: Word) returns (r: Error, val: Word)
      requires Valid()
      ensures !IsKey(key) ==> r == Inval
      ensures IsKey(key) ==> r == if key in View() then Ok else NotFound
      ensures r == Ok ==> val == View()[key]
    {
      r, val := table.Get(key);
    }

    /** map_erase. */
    method Erase(key: Word) returns (r: Error)
      requires Valid()
      modifies table`size, table.entry
      ensures Valid()
      ensures !IsKey(key) ==> r == Inval
      ensures IsKey(key) ==> r == if key in old(View()) then Ok else NotFound
      ensures View() == if r == Ok then old(View()) - {key} else old(View())
    {
      r := table.Del(key);
    }
  }

  lemma SizeFits(es: seq<Entry>, hash: Word -> Word)
    requires TableOk(es, hash)
    ensures Live(es) == |Contents(es)| <= |es|
  {
    LiveIsCardinality(es);
    LiveFull(es);
  }

  lemma NoTombsFirst(es: seq<Entry>, h: Word, key: Word)
    requires NoTombs(es)
    ensures !TombFirst(es, h, key)
  {
  }

  /** A full table is rebuilt unless it has 2^27, 2^28 or 2^30 entries, where the percentage wraps to 4, 4 and 0. */
  lemma FullGrows(m: Map)
    requires m.Valid() && |m.View()| == m.npages * ENTRIES_PER_PAGE
    ensures m.Grows() <==> m.npages * ENTRIES_PER_PAGE !in {0x800_0000, 0x1000_0000, 0x4000_0000}
    ensures m.Stuck(Enough) <==> m.npages * ENTRIES_PER_PAGE in {0x800_0000, 0x1000_0000, 0x4000_0000}
  {
    hide Percent, Map.View;
    FullPercent(m.npages, m.order);
  }

  lemma FullPercent(npages: nat, order: nat)
    requires npages == (if order == 0 then 0 else Arith.Pow2(order - 1)) && order <= 23
    ensures var n := npages * ENTRIES_PER_PAGE;
            Percent(n, n) >= REHASH_THRESH <==> n !in {0x800_0000, 0x1000_0000, 0x4000_0000}
  {
    hide Percent, Arith.Pow2;
    PagePowers();
    if order <= 17 {
      if order > 0 {
        Arith.Pow2Monotone(order - 1, 16);
      }
      SmallFull(npages * ENTRIES_PER_PAGE);
    } else {
      assert order in {18, 19, 20, 21, 22, 23};
      WrappedFull();
    }
  }

  lemma PagePowers()
    ensures Arith.Pow2(16) == 0x1_0000 && Arith.Pow2(17) == 0x2_0000 && Arith.Pow2(18) == 0x4_0000
    ensures Arith.Pow2(19) == 0x8_0000 && Arith.Pow2(20) == 0x10_0000 && Arith.Pow2(21) == 0x20_0000
    ensures Arith.Pow2(22) == 0x40_0000
  {
    assert Arith.Pow2(8) == 256;
    Arith.Pow2Sum(8, 8);
  }

  /** As long as 100 times the size fits an int, a full table counts as such. */
  lemma SmallFull(n: nat)
    requires n <= 0x7FFF_FFFF / 100
    ensures Percent(n, n) == 100
  {
    if n > 0 {
      Arith.DivModOf(100 * n, n, 100, 0);
    }
  }

  lemma WrappedFull()
    ensures Percent(0x200_0000, 0x200_0000) == Percent(0x400_0000, 0x400_0000) == WORDS - 28
    ensures Percent(0x800_0000, 0x800_0000) == Percent(0x1000_0000, 0x1000_0000) == 4
    ensures Percent(0x2000_0000, 0x2000_0000) == WORDS - 4 && Percent(0x4000_0000, 0x4000_0000) == 0
  {
  }

  lemma NextOrder(npages: nat, order: nat)
    requires npages == (if order == 0 then 0 else Arith.Pow2(order - 1)) && order <= 23
    ensures Arith.Pow2(order) == if npages == 0 then 1 else 2 * npages
    ensures npages <= LAST_PAGES && (order == 23 <==> npages == LAST_PAGES)
    ensures order < 23 <==> Wrap32((if npages == 0 then 1 else 2 * npages) * ENTRIES_PER_PAGE) >= 0
  {
    PagePowers();
    if order <= 22 {
      Arith.Pow2Monotone(order, 22);
    }
  }

  /** The copy loop: an iterator over the old table and a put for each binding, none of which fails. */
  method CopyAll(cur: Table, next: Table)
    requires cur.Valid() && next.Valid() && next.View() == map[] && cur != next && cur.entry != next.entry
    requires cur.entry.Length < next.entry.Length
    requires NoTombs(next.entry[..])
    modifies next`size, next.entry
    ensures next.Valid() && next.View() == cur.View()
    ensures NoTombs(next.entry[..])
  {
    ghost var es := cur.entry[..];
    var index := 0;
    var more, at := cur.NextLive(0);
    StepUntilLive(es, 0, if more then at else |es|);
    assert es[..0] == [];
    while more
      invariant 0 <= index <= |es| && (more ==> index <= at < |es| && IsKey(es[at].key))
      invariant next.Valid() && CopiedTo(es, next.View(), if more then at else |es|)
      invariant NoTombs(next.entry[..])
      decreases |es| - index, more
    {
      hide TableOk, Contents, Live, TombFirst, Unique;
      CopyStep(es, next.entry[..], at);
      ghost var was := next.entry[..];
      var r, p := next.Put(cur.entry[at].key, cur.entry[at].val);
      assert r == Ok;
      NoTombsKept(was, next.entry[..], es[at], p);
      index := at + 1;
      more, at := cur.NextLive(index);
      StepUntilLive(es, index, if more then at else |es|);
    }
    assert es[..|es|] == es;
  }

  ghost predicate NoTombs(es: seq<Entry>) {
    forall p :: 0 <= p < |es| ==> es[p].key != TOMB
  }

  lemma FreshHasNoTombs(es: seq<Entry>)
    requires forall p :: 0 <= p < |es| ==> es[p] == EMPTY
    ensures NoTombs(es)
  {
  }

  lemma NoTombsKept(was: seq<Entry>, now: seq<Entry>, e: Entry, p: nat)
    requires NoTombs(was) && IsKey(e.key) && p < |was| && now == was[p := e]
    ensures NoTombs(now)
  {
  }

  /** The first `at` slots of the old table have been copied. */
  ghost predicate CopiedTo(es: seq<Entry>, m: map<Word, Word>, at: nat) {
    at <= |es| && Unique(es) && Unique(es[..at]) && m == Contents(es[..at])
  }

  lemma CopyStep(es: seq<Entry>, next: seq<Entry>, at: nat)
    requires at < |es| < |next| && IsKey(es[at].key) && Unique(next) && CopiedTo(es, Contents(next), at)
    ensures es[at].key !in Contents(next) && Live(next) < |next|
    ensures CopiedTo(es, Contents(next)[es[at].key := es[at].val], at + 1)
  {
    PrefixStep(es, at);
    PrefixLive(es, at);
    LiveFull(es);
    LiveIsCardinality(es[..at]);
    LiveIsCardinality(next);
  }
}
