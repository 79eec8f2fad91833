/**
 * The chained hash table under the route table: buckets of linked entries whose
 * values point into the route array.
 */
module HashTable {
  import opened Base

  datatype Route = Route(target: u16, phy: nat, maxFrame: u16, readFreq: u32, metric: u8)

  /** A pointer into a route array: the array and the slot. */
  datatype RoutePtr = RoutePtr(routes: array<Route>, slot: nat)

  class Entry {
    const key: u16
    var value: RoutePtr
    var next: Entry?

    constructor (key: u16, value: RoutePtr, next: Entry?)
      ensures this.key == key && this.value == value && this.next == next
    {
      this.key, this.value, this.next := key, value, next;
    }
  }

  ghost function SetOf(c: seq<Entry>): set<Entry> {
    set e | e in c
  }

  function At(c: seq<Entry>, i: int): Entry? {
    if 0 <= i < |c| then c[i] else null
  }

  /** The bucket of a key; for a power of two this is the code's bit mask. */
  function Hash(key: u16, size: nat): (b: nat)
    requires size > 0
    ensures b < size
  {
    key % size
  }

  /** All keys of a chain belong to its bucket, and none occurs twice. */
  ghost predicate KeysOk(c: seq<Entry>, b: nat, size: nat)
    requires size > 0
  {
    && (forall i :: 0 <= i < |c| ==> Hash(c[i].key, size) == b)
    && (forall i, j :: 0 <= i < j < |c| ==> c[i].key != c[j].key)
  }

  /** The chain holds exactly the pairs of `contents` that belong to its bucket. */
  ghost predicate HoldsPairs(c: seq<Entry>, b: nat, size: nat, contents: map<u16, RoutePtr>)
    requires size > 0
    reads SetOf(c)`value
  {
    && (forall i :: 0 <= i < |c| ==> c[i].key in contents && contents[c[i].key] == c[i].value)
    && (forall k :: k in contents && Hash(k, size) == b ==> exists i :: 0 <= i < |c| && c[i].key == k)
  }

  function CutEntry(c: seq<Entry>, i: nat): seq<Entry>
    requires i < |c|
  {
    c[..i] + c[i + 1..]
  }

  lemma OneLess(m: map<u16, RoutePtr>, k: u16)
    requires k in m
    ensures |m - {k}| == |m| - 1
  {
    assert (m - {k})[k := m[k]] == m;
  }

  ghost function ObjectsOf(chains: seq<seq<Entry>>): set<Entry> {
    set b, e | 0 <= b < |chains| && e in chains[b] :: e
  }

  lemma ObjectsPush(chains: seq<seq<Entry>>, b: nat, entry: Entry)
    requires b < |chains|
    ensures ObjectsOf(chains[b := [entry] + chains[b]]) == ObjectsOf(chains) + {entry}
  {
    var more := chains[b := [entry] + chains[b]];
    forall e | e in ObjectsOf(chains) ensures e in ObjectsOf(more) {
      var k :| 0 <= k < |chains| && e in chains[k];
      assert e in more[k];
    }
    assert entry in more[b];
  }

  lemma ChainInObjects(chains: seq<seq<Entry>>, b: nat)
    requires b < |chains|
    ensures SetOf(chains[b]) <= ObjectsOf(chains)
  {
  }

  lemma ObjectsCut(chains: seq<seq<Entry>>, b: nat, d: seq<Entry>)
    requires b < |chains| && forall e :: e in d ==> e in chains[b]
    ensures ObjectsOf(chains[b := d]) <= ObjectsOf(chains)
  {
  }

  class Table {
    const buckets: array<Entry?>
    var count: nat
    ghost var chains: seq<seq<Entry>>
    ghost var contents: map<u16, RoutePtr>

    ghost predicate Linked(c: seq<Entry>, b: nat)
      requires b < buckets.Length
      reads buckets, SetOf(c)`next
    {
      buckets[b] == At(c, 0) && forall i {:trigger c[i].next} :: 0 <= i < |c| ==> c[i].next == At(c, i + 1)
    }

    ghost function Objects(): set<Entry>
      reads this`chains
    {
      ObjectsOf(chains)
    }

    ghost predicate ChainOk(b: nat)
      requires b < buckets.Length == |chains|
      reads this`chains, this`contents, buckets, Objects()
    {
      && Linked(chains[b], b) && KeysOk(chains[b], b, buckets.Length)
      && HoldsPairs(chains[b], b, buckets.Length, contents)
    }

    ghost predicate Valid()
      reads this, buckets, Objects()
    {
      && buckets.Length == |chains| > 0 && count == |contents|
      && forall b :: 0 <= b < |chains| ==> ChainOk(b)
    }

    constructor (size: nat)
      requires size > 0
      ensures Valid() && contents == map[] && fresh(buckets) && Objects() == {}
    {
      buckets := new Entry?[size](_ => null);
      count := 0;
      chains := seq(size, _ => []);
      contents := map[];
    }

    /** Walks one chain. */
    method Find(key: u16) returns (entry: Entry?, prev: Entry?, ghost i: nat)
      requires Valid()
      ensures Valid() && |chains| == buckets.Length
      ensures entry != null ==> entry in Objects()
      ensures var c := chains[Hash(key, buckets.Length)];
        && entry == At(c, i) && prev == At(c, i - 1) && i <= |c|
        && (entry != null ==> entry.key == key)
        && (entry != null <==> key in contents)
    {
      hide Hash, KeysOk;
      var b := Hash(key, buckets.Length);
      ghost var c := chains[b];
      assert ChainOk(b);
      entry, prev, i := buckets[b], null, 0;
      while entry != null
        invariant 0 <= i <= |c| && entry == At(c, i) && prev == At(c, i - 1)
        invariant forall j :: 0 <= j < i ==> c[j].key != key
        decreases |c| - i
      {
        if entry.key == key {
          assert c[i] in chains[b];
          return;
        }
        prev := entry;
        entry := entry.next;
        i := i + 1;
      }
    }

    method Lookup(key: u16) returns (value: Option<RoutePtr>)
      requires Valid()
      ensures Valid() && value == if key in contents then Some(contents[key]) else None
    {
      var entry, prev, i := Find(key);
      assert ChainOk(Hash(key, buckets.Length));
      value := if entry != null then Some(entry.value) else None;
    }

    /** A chain none of whose parts moved still holds its share of the contents. */
    twostate lemma ChainUnmoved(b: nat)
      requires old(buckets.Length == |chains|) && buckets.Length == |chains| && b < |chains| && old(ChainOk(b))
      requires chains[b] == old(chains[b]) && buckets[b] == old(buckets[b])
      requires forall e :: e in chains[b] ==> e.next == old(e.next) && e.value == old(e.value)
      requires forall k: u16 :: Hash(k, buckets.Length) == b ==>
        (k in contents <==> k in old(contents)) && (k in contents ==> contents[k] == old(contents[k]))
      ensures ChainOk(b)
    {
    }

    /** Changes elsewhere in memory leave the table alone. */
    twostate lemma Unmoved()
      requires old(Valid()) && count == old(count) && chains == old(chains) && contents == old(contents)
      requires forall k :: 0 <= k < buckets.Length ==> buckets[k] == old(buckets[k])
      requires forall b, e :: 0 <= b < |chains| && e in chains[b] ==> e.next == old(e.next) && e.value == old(e.value)
      ensures Valid() && Objects() == old(Objects())
    {
      hide Hash, KeysOk, HoldsPairs, Linked;
      forall b | 0 <= b < |chains| ensures ChainOk(b) {
        assert old(ChainOk(b));
        ChainUnmoved(b);
      }
    }

    /** The chains share no entry. */
    lemma ChainsApart(b: nat, k: nat)
      requires Valid() && b < |chains| && k < |chains| && b != k
      ensures forall e :: e in chains[k] ==> e !in chains[b]
    {
      assert ChainOk(b) && ChainOk(k);
    }

    /** Updates the value of a key, or puts a new entry at the front of its chain. */
    method Insert(key: u16, value: RoutePtr, allocOk: bool) returns (status: Status)
      requires Valid()
      modifies this, buckets, Objects()
      ensures Valid() && Objects() >= old(Objects()) && (forall e :: e in Objects() && e !in old(Objects()) ==> fresh(e))
      ensures status == if key in old(contents) || allocOk then Ok else NoMemory
      ensures contents == if status.Ok? then old(contents)[key := value] else old(contents)
    {
      hide Valid, Hash, Objects;
      var entry, prev, i := Find(key);
      var b := Hash(key, buckets.Length);
      if entry != null {
        UpdateEntry(entry, value, b, i);
        return Ok;
      }
      if !allocOk {
        return NoMemory;
      }
      PushEntry(key, value, b);
      return Ok;
    }

    method UpdateEntry(entry: Entry, value: RoutePtr, b: nat, ghost i: nat)
      requires Valid() && b < |chains| && i < |chains[b]| && chains[b][i] == entry
      modifies this`contents, entry`value
      ensures Valid() && chains == old(chains) && contents == old(contents)[entry.key := value]
    {
      assert ChainOk(b);
      forall k | 0 <= k < |chains| && k != b ensures entry !in chains[k] {
        ChainsApart(b, k);
      }
      KeyIn(b, i);
      hide Hash, KeysOk, HoldsPairs;
      SetValue(entry, value, chains[b], b, i, contents);
      contents := contents[entry.key := value];
      forall k | 0 <= k < |chains| ensures ChainOk(k) {
        if k != b {
          assert old(ChainOk(k));
          ChainUnmoved(k);
        }
      }
    }

    lemma KeyIn(b: nat, i: nat)
      requires Valid() && b < |chains| && i < |chains[b]|
      ensures chains[b][i].key in contents && Hash(chains[b][i].key, buckets.Length) == b
    {
      assert ChainOk(b);
    }

    method SetValue(entry: Entry, value: RoutePtr, ghost c: seq<Entry>, ghost b: nat, ghost i: nat, ghost pairs: map<u16, RoutePtr>)
      requires buckets.Length > 0 && i < |c| && c[i] == entry && b < buckets.Length
      requires Linked(c, b) && KeysOk(c, b, buckets.Length) && HoldsPairs(c, b, buckets.Length, pairs)
      modifies entry`value
      ensures Linked(c, b) && HoldsPairs(c, b, buckets.Length, pairs[entry.key := value])
    {
      entry.value := value;
    }

    method NewEntry(key: u16, value: RoutePtr, next: Entry?) returns (entry: Entry)
      requires Valid()
      ensures Valid() && fresh(entry) && entry.key == key && entry.value == value && entry.next == next
    {
      hide KeysOk, HoldsPairs, Hash, Linked;
      entry := new Entry(key, value, next);
      forall k | 0 <= k < |chains| ensures ChainOk(k) {
        assert old(ChainOk(k));
        ChainUnmoved(k);
      }
    }

    method PushEntry(key: u16, value: RoutePtr, b: nat)
      requires Valid() && key !in contents && b == Hash(key, buckets.Length)
      modifies this, buckets
      ensures Valid() && Objects() >= old(Objects()) && (forall e :: e in Objects() && e !in old(Objects()) ==> fresh(e))
      ensures contents == old(contents)[key := value]
    {
      hide Hash, KeysOk, HoldsPairs;
      var entry := NewEntry(key, value, buckets[b]);
      assert ChainOk(b);
      ghost var c := [entry] + chains[b];
      PushedChain(chains[b], entry, b);
      ObjectsPush(chains, b, entry);
      buckets[b] := entry;
      count := count + 1;
      chains := chains[b := c];
      contents := contents[key := value];
      forall k | 0 <= k < |chains| ensures ChainOk(k) {
        if k != b {
          assert old(ChainOk(k));
          ChainUnmoved(k);
        }
      }
    }

    /** The new entry in front of a chain that holds the old pairs. */
    lemma PushedChain(c: seq<Entry>, entry: Entry, b: nat)
      requires buckets.Length > 0 && KeysOk(c, b, buckets.Length) && HoldsPairs(c, b, buckets.Length, contents)
      requires entry.key !in contents && Hash(entry.key, buckets.Length) == b
      ensures KeysOk([entry] + c, b, buckets.Length)
      ensures HoldsPairs([entry] + c, b, buckets.Length, contents[entry.key := entry.value])
    {
      hide Hash;
      var d := [entry] + c;
      assert d[0] == entry && forall i :: 0 < i < |d| ==> d[i] == c[i - 1];
      forall k | k in contents[entry.key := entry.value] && Hash(k, buckets.Length) == b
        ensures exists i :: 0 <= i < |d| && d[i].key == k
      {
        if k == entry.key {
          assert d[0].key == k;
        } else {
          var i :| 0 <= i < |c| && c[i].key == k;
          assert d[i + 1].key == k;
        }
      }
    }

    /** Unlinks the entry of a key. */
    method Remove(key: u16) returns (status: Status)
      requires Valid()
      modifies this, buckets, Objects()
      ensures Valid() && Objects() <= old(Objects())
      ensures status == if key in old(contents) then Ok else RouteNotFound
      ensures contents == old(contents) - {key}
    {
      var entry, prev, i := Find(key);
      var b := Hash(key, buckets.Length);
      if entry == null {
        return RouteNotFound;
      }
      UnlinkEntry(entry, prev, b, i);
      return Ok;
    }

    method UnlinkEntry(entry: Entry, prev: Entry?, b: nat, ghost i: nat)
      requires Valid() && b < |chains| && i < |chains[b]| && chains[b][i] == entry && prev == At(chains[b], i - 1)
      modifies this, buckets, Objects()
      ensures Valid() && Objects() <= old(Objects())
      ensures contents == old(contents) - {entry.key}
    {
      hide Hash, KeysOk, HoldsPairs, CutEntry, ObjectsOf;
      assert ChainOk(b);
      ghost var c := chains[b];
      ghost var d := CutEntry(c, i);
      forall k | 0 <= k < |chains| && k != b ensures prev !in chains[k] {
        ChainsApart(b, k);
      }
      KeyIn(b, i);
      CutChain(c, b, i);
      ObjectsCut(chains, b, d);
      ChainInObjects(chains, b);
      Relink(entry, prev, c, d, b, i, contents - {entry.key});
      OneLess(contents, entry.key);
      count := count - 1;
      chains := chains[b := d];
      contents := contents - {entry.key};
      ghost var n := |chains|;
      assert ChainOk(b);
      hide ChainOk;
      forall k | 0 <= k < n ensures ChainOk(k) {
        if k != b {
          assert old(ChainOk(k));
          ChainUnmoved(k);
        }
      }
    }

    method Relink(entry: Entry, prev: Entry?, ghost c: seq<Entry>, ghost d: seq<Entry>, b: nat, ghost i: nat,
                  ghost pairs: map<u16, RoutePtr>)
      requires b < buckets.Length && i < |c| && c[i] == entry && prev == At(c, i - 1) && Linked(c, b) && d == CutEntry(c, i)
      requires forall j, k :: 0 <= j < k < |c| ==> c[j] != c[k]
      requires HoldsPairs(d, b, buckets.Length, pairs)
      modifies buckets, (set e | e in c && e == prev)`next
      ensures Linked(d, b) && HoldsPairs(d, b, buckets.Length, pairs)
      ensures forall k :: 0 <= k < buckets.Length && k != b ==> buckets[k] == old(buckets[k])
    {
      if prev == null {
        buckets[b] := entry.next;
      } else {
        prev.next := entry.next;
      }
    }

    lemma CutChain(c: seq<Entry>, b: nat, i: nat)
      requires buckets.Length > 0 && i < |c|
      requires KeysOk(c, b, buckets.Length) && HoldsPairs(c, b, buckets.Length, contents)
      ensures KeysOk(CutEntry(c, i), b, buckets.Length)
      ensures HoldsPairs(CutEntry(c, i), b, buckets.Length, contents - {c[i].key})
      ensures forall j, k :: 0 <= j < k < |c| ==> c[j] != c[k]
      ensures forall e :: e in CutEntry(c, i) ==> e in c
    {
      hide Hash;
      var d := CutEntry(c, i);
      assert |d| == |c| - 1 && forall j :: 0 <= j < |d| ==> d[j] == c[if j < i then j else j + 1];
      hide CutEntry;
      forall k | k in contents - {c[i].key} && Hash(k, buckets.Length) == b ensures exists j :: 0 <= j < |d| && d[j].key == k {
        var j :| 0 <= j < |c| && c[j].key == k;
        assert d[if j < i then j else j - 1].key == k;
      }
    }

    /** Frees every chain. */
    method Clear()
      requires Valid()
      modifies this, buckets
      ensures Valid() && contents == map[] && Objects() == {}
    {
      var i := 0;
      while i < buckets.Length
        invariant 0 <= i <= buckets.Length == |chains|
        invariant forall b :: 0 <= b < i ==> buckets[b] == null
      {
        buckets[i] := null;
        i := i + 1;
      }
      count := 0;
      chains := seq(buckets.Length, _ => []);
      contents := map[];
    }
  }
}
