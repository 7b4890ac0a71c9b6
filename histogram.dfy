/** The Histogram class: a std::map<int32_t, int32_t> from keys to how often
    each was added, with its total and its entries sorted by count. The map is
    modelled as the sequence of its entries in key order, which is the order in
    which std::map stores and iterates them. */
module Histograms {
  import opened Arith
  import opened Wrappers

  /** HistogramItem: a key and its count. */
  datatype Item = Item(key: int32, count: int32)

  /** The entries of a std::map: strictly ascending keys, so each key once. */
  predicate KeysAscending(e: seq<Item>) {
    forall i, j :: 0 <= i < j < |e| ==> e[i].key < e[j].key
  }

  function Keys(e: seq<Item>): set<int32> {
    set i | 0 <= i < |e| :: e[i].key
  }

  /** map.find(k): the count stored under k, if any. */
  function Lookup(e: seq<Item>, k: int32): (r: Option<int32>)
    ensures r.Some? <==> k in Keys(e)
  {
    if e == [] then None
    else if e[0].key == k then Some(e[0].count)
    else
      KeysCons(e);
      Lookup(e[1..], k)
  }

  lemma KeysCons(e: seq<Item>)
    requires e != []
    ensures Keys(e) == {e[0].key} + Keys(e[1..])
  {
    forall x | x in Keys(e)
      ensures x in {e[0].key} + Keys(e[1..])
    {
      var i :| 0 <= i < |e| && e[i].key == x;
      if i > 0 {
        assert e[1..][i - 1].key == x;
      }
    }
    forall x | x in Keys(e[1..])
      ensures x in Keys(e)
    {
      var i :| 0 <= i < |e[1..]| && e[1..][i].key == x;
      assert e[i + 1].key == x;
    }
  }

  /** The count of an added key: map[k]++ on a present key, map[k] = 1 on a new
      one. The increment is on int32; past INT32_MAX it wraps. */
  function Bump(c: Option<int32>): (n: int32)
    ensures c.None? ==> n == 1
    ensures c.Some? && c.value as int < INT32_MAX ==> n as int == c.value as int + 1
    ensures c == Some(INT32_MAX as int32) ==> n as int == -0x8000_0000
  {
    match c
    case None => 1
    case Some(n) => ToInt32(n as int + 1)
  }

  /** Histogram::add on the entries: has_key decides between incrementing the
      entry found and inserting a count of 1 at the key's place in key order. */
  function Added(e: seq<Item>, k: int32): (r: seq<Item>)
    requires KeysAscending(e)
    ensures KeysAscending(r)
    ensures Keys(r) == Keys(e) + {k}
  {
    if e == [] then
      KeysCons([Item(k, 1)]);
      [Item(k, 1)]
    else
      KeysCons(e);
      if e[0].key == k then
        var r := [Item(k, Bump(Some(e[0].count)))] + e[1..];
        assert r[1..] == e[1..];
        KeysCons(r);
        r
      else if k < e[0].key then
        var r := [Item(k, 1)] + e;
        assert r[1..] == e;
        KeysCons(r);
        ConsAscending(Item(k, 1), e);
        r
      else
        var rest := Added(e[1..], k);
        var r := [e[0]] + rest;
        assert r[1..] == rest;
        KeysCons(r);
        ConsAscending(e[0], rest);
        r
  }

  /** A key below the first key of ascending entries is not among them. */
  lemma BelowFirst(e: seq<Item>, k: int32)
    requires KeysAscending(e) && e != [] && k < e[0].key
    ensures k !in Keys(e)
  {
    forall i | 0 <= i < |e|
      ensures e[i].key != k
    {
      if i > 0 {
        assert e[0].key < e[i].key;
      }
    }
  }

  /** Putting an entry in front of entries with larger keys keeps key order. */
  lemma ConsAscending(x: Item, rest: seq<Item>)
    requires KeysAscending(rest)
    requires forall y :: y in Keys(rest) ==> x.key < y
    ensures KeysAscending([x] + rest)
  {
    forall j | 0 <= j < |rest|
      ensures x.key < rest[j].key
    {
      assert rest[j].key in Keys(rest);
    }
  }

  /** Histogram::add as has_key and the map promise it: the added key's count
      goes up by one (or starts at 1) and every other key keeps its count. */
  lemma {:induction false} AddedLookup(e: seq<Item>, k: int32, j: int32)
    requires KeysAscending(e)
    ensures Lookup(Added(e, k), j) == if j == k then Some(Bump(Lookup(e, k))) else Lookup(e, j)
  {
    if e != [] {
      LookupCons(e, j);
      LookupCons(e, k);
      var r := Added(e, k);
      LookupCons(r, j);
      if e[0].key == k {
        assert r[1..] == e[1..];
      } else if k < e[0].key {
        assert r[1..] == e;
        BelowFirst(e, k);
      } else {
        AddedLookup(e[1..], k, j);
        assert r[1..] == Added(e[1..], k);
      }
    }
  }

  lemma LookupCons(e: seq<Item>, j: int32)
    requires e != []
    ensures Lookup(e, j) == if e[0].key == j then Some(e[0].count) else Lookup(e[1..], j)
  {
  }

  /** The count k had before an add, 0 when k was absent. */
  function CountOf(e: seq<Item>, k: int32): int {
    match Lookup(e, k)
    case None => 0
    case Some(c) => c as int
  }

  /** An add changes the sum of the counts by the change of k's count. */
  lemma {:induction false} AddedSum(e: seq<Item>, k: int32)
    requires KeysAscending(e)
    ensures Sum(Added(e, k)) == Sum(e) - CountOf(e, k) + Bump(Lookup(e, k)) as int
  {
    if e != [] {
      var r := Added(e, k);
      if e[0].key == k {
        assert r[1..] == e[1..];
      } else if k < e[0].key {
        assert r[1..] == e;
        BelowFirst(e, k);
      } else {
        AddedSum(e[1..], k);
        assert r[1..] == Added(e[1..], k);
      }
    }
  }

  /** The sum of the counts, as unbounded integers. */
  function Sum(e: seq<Item>): int {
    if e == [] then 0 else e[0].count as int + Sum(e[1..])
  }

  lemma {:induction false} SumAppend(a: seq<Item>, b: seq<Item>)
    ensures Sum(a + b) == Sum(a) + Sum(b)
  {
    if a != [] {
      assert (a + b)[0] == a[0];
      assert (a + b)[1..] == a[1..] + b;
      SumAppend(a[1..], b);
    } else {
      assert a + b == b;
    }
  }

  /** The map after adding the keys of ks one after the other, to an empty map. */
  function FromKeys(ks: seq<int32>): (e: seq<Item>)
    ensures KeysAscending(e)
  {
    if ks == [] then [] else Added(FromKeys(ks[..|ks| - 1]), ks[|ks| - 1])
  }

  /** Adding the keys of ks one by one gives each key the number of times it
      occurs in ks, as long as no count can pass INT32_MAX. */
  lemma {:induction false} FromKeysCount(ks: seq<int32>, k: int32)
    requires |ks| <= INT32_MAX
    ensures CountOf(FromKeys(ks), k) == multiset(ks)[k]
    ensures k in Keys(FromKeys(ks)) <==> k in multiset(ks)
  {
    if ks != [] {
      var init, last := ks[..|ks| - 1], ks[|ks| - 1];
      assert ks == init + [last];
      assert multiset(ks) == multiset(init) + multiset{last};
      FromKeysCount(init, k);
      AddedLookup(FromKeys(init), last, k);
      if k == last {
        MultiplicityBound(init, k);
      }
    }
  }

  /** ... and the counts add up to |ks|. */
  lemma {:induction false} FromKeysTotal(ks: seq<int32>)
    requires |ks| <= INT32_MAX
    ensures Sum(FromKeys(ks)) == |ks|
  {
    if ks != [] {
      var init, last := ks[..|ks| - 1], ks[|ks| - 1];
      FromKeysTotal(init);
      AddedSum(FromKeys(init), last);
      FromKeysCount(init, last);
      MultiplicityBound(init, last);
    }
  }

  lemma {:induction false} MultiplicityBound(s: seq<int32>, k: int32)
    ensures multiset(s)[k] <= |s|
  {
    if s != [] {
      assert s == s[..|s| - 1] + [s[|s| - 1]];
      MultiplicityBound(s[..|s| - 1], k);
    }
  }

  /** a comes no later than b: by ascending count for compare_less_, by
      descending count for compare_more_. */
  predicate InOrder(a: Item, b: Item, descending: bool) {
    if descending then a.count >= b.count else a.count <= b.count
  }

  predicate Ordered(v: seq<Item>, descending: bool) {
    forall i, j :: 0 <= i < j < |v| ==> InOrder(v[i], v[j], descending)
  }

  /** Inserts x into v before the first entry it may precede. */
  function Insert(x: Item, v: seq<Item>, descending: bool): (r: seq<Item>)
    ensures multiset(r) == multiset(v) + multiset{x}
  {
    if v == [] || InOrder(x, v[0], descending) then
      [x] + v
    else
      assert v == [v[0]] + v[1..];
      [v[0]] + Insert(x, v[1..], descending)
  }

  lemma {:induction false} InsertOrdered(x: Item, v: seq<Item>, descending: bool)
    requires Ordered(v, descending)
    ensures Ordered(Insert(x, v, descending), descending)
  {
    if v == [] || InOrder(x, v[0], descending) {
      forall j | 0 <= j < |v|
        ensures InOrder(x, v[j], descending)
      {
      }
      ConsOrdered(x, v, descending);
    } else {
      var rest := Insert(x, v[1..], descending);
      InsertOrdered(x, v[1..], descending);
      FirstPrecedes(x, v, descending);
      ConsOrdered(v[0], rest, descending);
    }
  }

  /** An entry that may precede every entry of an ordered sequence may head it. */
  lemma ConsOrdered(a: Item, rest: seq<Item>, descending: bool)
    requires Ordered(rest, descending)
    requires forall j :: 0 <= j < |rest| ==> InOrder(a, rest[j], descending)
    ensures Ordered([a] + rest, descending)
  {
  }

  /** When x goes after v[0], v[0] may precede everything x ends up among. */
  lemma FirstPrecedes(x: Item, v: seq<Item>, descending: bool)
    requires Ordered(v, descending) && v != [] && !InOrder(x, v[0], descending)
    ensures forall j :: 0 <= j < |Insert(x, v[1..], descending)| ==>
              InOrder(v[0], Insert(x, v[1..], descending)[j], descending)
  {
    var rest := Insert(x, v[1..], descending);
    forall j | 0 <= j < |rest|
      ensures InOrder(v[0], rest[j], descending)
    {
      assert rest[j] in multiset(rest);
      if rest[j] != x {
        assert rest[j] in multiset(v[1..]);
        var i :| 0 <= i < |v[1..]| && v[1..][i] == rest[j];
        assert v[i + 1] == rest[j];
      }
    }
  }

  /** std::sort of the entries by count: a permutation of them, ordered by
      count ascending or descending. Entries of equal count may come in any
      order; this is one such order. */
  function SortByCount(v: seq<Item>, descending: bool): (r: seq<Item>)
    ensures Ordered(r, descending)
    ensures multiset(r) == multiset(v)
  {
    if v == [] then []
    else
      assert v == v[..|v| - 1] + [v[|v| - 1]];
      var sorted := SortByCount(v[..|v| - 1], descending);
      InsertOrdered(v[|v| - 1], sorted, descending);
      Insert(v[|v| - 1], sorted, descending)
  }

  /** Two's-complement addition on int32 never loses track of the exact sum
      modulo 2^32. */
  lemma WrapAdd(a: int, c: int)
    ensures ToInt32(ToInt32(a) as int + c) == ToInt32(a + c)
  {
    var t := ToInt32(a) as int;
    DivModSplit(t, 0x1_0000_0000);
    DivModSplit(a, 0x1_0000_0000);
    var d := (t / 0x1_0000_0000 - a / 0x1_0000_0000);
    assert t + c == d * 0x1_0000_0000 + (a + c);
    ModAddMultiple(d, a + c, 0x1_0000_0000);
    Int32Determined(ToInt32(t + c), ToInt32(a + c));
  }

  /** An int32 is determined by its value modulo 2^32. */
  lemma Int32Determined(x: int32, y: int32)
    requires x as int % 0x1_0000_0000 == y as int % 0x1_0000_0000
    ensures x == y
  {
    var a, b := x as int + 0x8000_0000, y as int + 0x8000_0000;
    ModAddMultiple(0, a, 0x1_0000_0000);
    assert (x as int + 0x8000_0000) % 0x1_0000_0000 == (y as int + 0x8000_0000) % 0x1_0000_0000 by {
      DivModSplit(x as int, 0x1_0000_0000);
      DivModSplit(y as int, 0x1_0000_0000);
      ModAddMultiple(x as int / 0x1_0000_0000, x as int % 0x1_0000_0000 + 0x8000_0000, 0x1_0000_0000);
      ModAddMultiple(y as int / 0x1_0000_0000, y as int % 0x1_0000_0000 + 0x8000_0000, 0x1_0000_0000);
    }
    DivModUnique(0, a, 0x1_0000_0000);
    DivModUnique(0, b, 0x1_0000_0000);
  }

  class Histogram {
    /** The std::map, as its entries in key order. */
    var entries: seq<Item>

    ghost predicate Valid()
      reads this
    {
      KeysAscending(entries)
    }

    constructor()
      ensures entries == [] && Valid()
    {
      entries := [];
    }

    /** has_key: map.find(k) != map.end(). */
    predicate HasKey(k: int32)
      reads this
      ensures HasKey(k) <==> k in Keys(entries)
    {
      Lookup(entries, k).Some?
    }

    method Add(k: int32)
      requires Valid()
      modifies this
      ensures Valid()
      ensures entries == Added(old(entries), k)
    {
      // Added searches the key-ordered entries: the entry with key k is
      // incremented, or a count of 1 is inserted at k's place.
      entries := Added(entries, k);
    }

    /** getTotal: the int32 running sum over the map in key order. */
    method GetTotal() returns (total: int32)
      ensures total == ToInt32(Sum(entries))
      ensures -0x8000_0000 <= Sum(entries) <= INT32_MAX ==> total as int == Sum(entries)
    {
      total := 0;
      var i := 0;
      while i < |entries|
        invariant 0 <= i <= |entries|
        invariant total == ToInt32(Sum(entries[..i]))
      {
        assert entries[..i + 1] == entries[..i] + [entries[i]];
        SumAppend(entries[..i], [entries[i]]);
        WrapAdd(Sum(entries[..i]), entries[i].count as int);
        total := ToInt32(total as int + entries[i].count as int);
        i := i + 1;
      }
      assert entries[..i] == entries;
    }

    /** sort(order): the entries by count, ascending when order <= 0 and
        descending otherwise. */
    method Sort(order: int32) returns (v: seq<Item>)
      ensures multiset(v) == multiset(entries)
      ensures Ordered(v, order > 0)
    {
      v := SortByCount(entries, order > 0);
    }
  }
}
