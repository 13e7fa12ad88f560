/** basic.c: the linear-probing table, with the header key functions of http.c. */
module HashTables {
  import opened Views

  datatype Slot<V> = Empty | Used(key: string, value: V)

  // ---- header_key_eq and header_key_hash ----

  /** size_t arithmetic is modulo this. */
  const TWO_64: nat := 0x1_0000_0000_0000_0000

  /** djb2 over the lower-cased bytes: hash * 33 + c. */
  function HashFrom(s: string, h: nat): nat {
    if s == "" then h else HashFrom(s[1..], (h * 33 + LowerChar(s[0]) as int % 256) % TWO_64)
  }

  /** The slot a key is looked for first. */
  function Home(key: string, capacity: nat): (h: nat)
    requires capacity > 0
    ensures h < capacity
  {
    HashFrom(key, 5381) % capacity
  }

  method HeaderKeyHash(key: string, capacity: nat) returns (h: nat)
    requires capacity > 0
    ensures h == Home(key, capacity)
  {
    var hash: nat := 5381;
    var i := 0;
    assert key[0..] == key;
    while i < |key|
      invariant 0 <= i <= |key| && HashFrom(key[i..], hash) == HashFrom(key, 5381)
    {
      assert key[i..][1..] == key[i + 1..];
      hash := (hash * 33 + LowerChar(key[i]) as int % 256) % TWO_64;
      i := i + 1;
    }
    h := hash % capacity;
  }

  lemma {:induction false} HashIgnoresCase(a: string, b: string, h: nat)
    requires EqualIgnoreCase(a, b)
    ensures HashFrom(a, h) == HashFrom(b, h)
  {
    if a != "" {
      assert EqualIgnoreCase(a[1..], b[1..]);
      HashIgnoresCase(a[1..], b[1..], (h * 33 + LowerChar(a[0]) as int % 256) % TWO_64);
    }
  }

  lemma HomeIgnoresCase(a: string, b: string, capacity: nat)
    requires EqualIgnoreCase(a, b) && capacity > 0
    ensures Home(a, capacity) == Home(b, capacity)
  {
    HashIgnoresCase(a, b, 5381);
  }

  lemma SameKey(a: string, b: string, c: string)
    ensures EqualIgnoreCase(a, a) && (EqualIgnoreCase(a, b) <==> EqualIgnoreCase(b, a))
    ensures EqualIgnoreCase(a, b) ==> (EqualIgnoreCase(a, c) <==> EqualIgnoreCase(b, c))
  {
    EqualIgnoreCaseIsLower(a, a);
    EqualIgnoreCaseIsLower(a, b);
    EqualIgnoreCaseIsLower(b, a);
    EqualIgnoreCaseIsLower(a, c);
    EqualIgnoreCaseIsLower(b, c);
  }

  // ---- probing ----

  /** The d-th slot tried from h, around the end of the table. */
  function Cyc(h: nat, d: nat, n: nat): (i: nat)
    requires h < n && d < n
    ensures i < n
  {
    if h + d < n then h + d else h + d - n
  }

  /** How far slot i is from h in probe order. */
  function Dist(h: nat, i: nat, n: nat): (d: nat)
    requires h < n && i < n
    ensures d < n && Cyc(h, d, n) == i
  {
    if i >= h then i - h else i + n - h
  }

  lemma CycIsMod(h: nat, d: nat, n: nat)
    requires h < n && d < n
    ensures (d + h) % n == Cyc(h, d, n)
  {
    if h + d < n {
      ModSmall(h + d, n);
    } else {
      ModSmall(h + d - n, n);
      ModPlus(h + d - n, n);
    }
  }

  lemma ModSmall(x: nat, n: nat)
    requires x < n
    ensures x % n == x
  {
  }

  lemma ModPlus(x: nat, n: nat)
    requires x < n
    ensures (x + n) % n == x
  {
    var q: int := (x + n) / n;
    var r: int := (x + n) % n;
    assert x + n == q * n + r;
    MultipleBelow(q - 1, n);
  }

  lemma MultipleBelow(k: int, n: int)
    requires -n < k * n < n
    ensures k == 0
  {
    assert k >= 1 ==> k * n >= n;
    assert k <= -1 ==> k * n <= -n;
  }

  /** Slot i holds this key, up to case. */
  predicate Holds<V>(s: seq<Slot<V>>, i: nat, key: string)
    requires i < |s|
  {
    s[i].Used? && EqualIgnoreCase(s[i].key, key)
  }

  /** No key stands twice, and from its home on every slot up to a key's own is in use. */
  ghost predicate Good<V>(s: seq<Slot<V>>) {
    && |s| > 0
    && (forall i, j :: 0 <= i < j < |s| && s[i].Used? ==> !Holds(s, j, s[i].key))
    && (forall i, d :: 0 <= i < |s| && s[i].Used? && 0 <= d < Dist(Home(s[i].key, |s|), i, |s|) ==>
          s[Cyc(Home(s[i].key, |s|), d, |s|)].Used?)
  }

  // ---- the map it stands for ----

  ghost function Keys<V>(s: seq<Slot<V>>): set<string> {
    set i | 0 <= i < |s| && s[i].Used? :: Lower(s[i].key)
  }

  ghost function SlotOf<V>(s: seq<Slot<V>>, k: string): (i: nat)
    requires k in Keys(s)
    ensures i < |s| && s[i].Used? && Lower(s[i].key) == k
  {
    var i :| 0 <= i < |s| && s[i].Used? && Lower(s[i].key) == k;
    i
  }

  /** The map from lower-cased keys to values. */
  ghost function Contents<V>(s: seq<Slot<V>>): map<string, V> {
    map k | k in Keys(s) :: s[SlotOf(s, k)].value
  }

  lemma ContentsHas<V>(s: seq<Slot<V>>, i: nat)
    requires Good(s) && i < |s| && s[i].Used?
    ensures Lower(s[i].key) in Contents(s) && Contents(s)[Lower(s[i].key)] == s[i].value
  {
    var k := Lower(s[i].key);
    assert k in Keys(s);
    var j := SlotOf(s, k);
    EqualIgnoreCaseIsLower(s[i].key, s[j].key);
    EqualIgnoreCaseIsLower(s[j].key, s[i].key);
    assert Holds(s, j, s[i].key) && Holds(s, i, s[j].key);
  }

  lemma ContentsLacks<V>(s: seq<Slot<V>>, key: string)
    requires forall i :: 0 <= i < |s| ==> !Holds(s, i, key)
    ensures Lower(key) !in Contents(s)
  {
    forall i | 0 <= i < |s| && s[i].Used? ensures Lower(s[i].key) != Lower(key) {
      EqualIgnoreCaseIsLower(s[i].key, key);
      assert !Holds(s, i, key);
    }
  }

  /** Storing in the first slot of the probe order that is free or already holds the key. */
  lemma StoreSpec<V>(s: seq<Slot<V>>, key: string, value: V, d: nat)
    requires Good(s) && d < |s|
    requires var h := Home(key, |s|);
             forall e :: 0 <= e < d ==> s[Cyc(h, e, |s|)].Used? && !Holds(s, Cyc(h, e, |s|), key)
    requires var i := Cyc(Home(key, |s|), d, |s|); s[i].Empty? || Holds(s, i, key)
    ensures var s' := s[Cyc(Home(key, |s|), d, |s|) := Used(key, value)];
            Good(s') && Contents(s') == Contents(s)[Lower(key) := value]
  {
    var h, n := Home(key, |s|), |s|;
    var i := Cyc(h, d, n);
    var s' := s[i := Used(key, value)];
    NoOtherSlot(s, key, d);
    StoredGood(s, key, value, d);
    StoredContents(s, key, value, i);
  }

  /** Probing from the home finds the key before any free slot if it is there at all. */
  lemma NoOtherSlot<V>(s: seq<Slot<V>>, key: string, d: nat)
    requires Good(s) && d < |s|
    requires var h := Home(key, |s|);
             forall e :: 0 <= e < d ==> s[Cyc(h, e, |s|)].Used? && !Holds(s, Cyc(h, e, |s|), key)
    requires var i := Cyc(Home(key, |s|), d, |s|); s[i].Empty? || Holds(s, i, key)
    ensures forall j :: 0 <= j < |s| && j != Cyc(Home(key, |s|), d, |s|) ==> !Holds(s, j, key)
  {
    forall j | 0 <= j < |s| && j != Cyc(Home(key, |s|), d, |s|) ensures !Holds(s, j, key) {
      if Holds(s, j, key) {
        FoundFirst(s, key, d, j);
      }
    }
  }

  lemma FoundFirst<V>(s: seq<Slot<V>>, key: string, d: nat, j: nat)
    requires Good(s) && d < |s| && j < |s| && Holds(s, j, key)
    requires var h := Home(key, |s|);
             forall e :: 0 <= e < d ==> s[Cyc(h, e, |s|)].Used? && !Holds(s, Cyc(h, e, |s|), key)
    requires var i := Cyc(Home(key, |s|), d, |s|); s[i].Empty? || Holds(s, i, key)
    ensures j == Cyc(Home(key, |s|), d, |s|)
  {
    hide HashFrom, EqualIgnoreCase;
    var h, n := Home(key, |s|), |s|;
    var i, e := Cyc(h, d, n), Dist(h, j, n);
    HomeIgnoresCase(s[j].key, key, n);
    assert Home(s[j].key, n) == h && s[j].Used?;
    assert d <= e;
    assert d < e ==> s[i].Used?;
    if s[i].Used? {
      OneHolder(s, i, j, key);
    }
  }

  lemma OneHolder<V>(s: seq<Slot<V>>, i: nat, j: nat, key: string)
    requires Good(s) && i < |s| && j < |s| && Holds(s, i, key) && Holds(s, j, key)
    ensures i == j
  {
    hide HashFrom, Home, EqualIgnoreCase;
    SameKey(s[i].key, key, s[j].key);
    SameKey(s[j].key, key, s[i].key);
    SameKey(key, s[i].key, key);
    SameKey(key, s[j].key, key);
    assert Holds(s, j, s[i].key) && Holds(s, i, s[j].key);
  }

  lemma StoredGood<V>(s: seq<Slot<V>>, key: string, value: V, d: nat)
    requires Good(s) && d < |s|
    requires var h := Home(key, |s|); forall e :: 0 <= e < d ==> s[Cyc(h, e, |s|)].Used?
    requires forall j :: 0 <= j < |s| && j != Cyc(Home(key, |s|), d, |s|) ==> !Holds(s, j, key)
    ensures Good(s[Cyc(Home(key, |s|), d, |s|) := Used(key, value)])
  {
    hide HashFrom;
    var h, n := Home(key, |s|), |s|;
    var i := Cyc(h, d, n);
    var s' := s[i := Used(key, value)];
    forall a, b | 0 <= a < b < n && s'[a].Used? ensures !Holds(s', b, s'[a].key) {
      if a == i {
        assert !Holds(s, b, key);
      } else if b == i {
        assert !Holds(s, a, key);
        SameKey(key, s[a].key, key);
      } else {
        assert !Holds(s, b, s[a].key);
      }
    }
    forall j, e | 0 <= j < n && s'[j].Used? && 0 <= e < Dist(Home(s'[j].key, n), j, n)
      ensures s'[Cyc(Home(s'[j].key, n), e, n)].Used?
    {
      if j == i {
        assert Dist(h, i, n) == d;
      } else {
        assert s[Cyc(Home(s[j].key, n), e, n)].Used?;
      }
    }
  }

  lemma StoredContents<V>(s: seq<Slot<V>>, key: string, value: V, i: nat)
    requires Good(s) && i < |s| && Good(s[i := Used(key, value)])
    requires s[i].Empty? || Holds(s, i, key)
    ensures Contents(s[i := Used(key, value)]) == Contents(s)[Lower(key) := value]
  {
    var s' := s[i := Used(key, value)];
    var m := Contents(s)[Lower(key) := value];
    ContentsHas(s', i);
    if s[i].Used? {
      EqualIgnoreCaseIsLower(s[i].key, key);
    }
    forall k ensures (k in Contents(s') <==> k in m) && (k in m ==> Contents(s')[k] == m[k]) {
      if k in Keys(s') {
        var j := SlotOf(s', k);
        if j != i {
          ContentsHas(s, j);
          ContentsHas(s', j);
          if k == Lower(key) {
            EqualIgnoreCaseIsLower(s'[j].key, key);
            EqualIgnoreCaseIsLower(key, s'[j].key);
            assert Holds(s', j, s'[i].key) && Holds(s', i, s'[j].key);
          }
        }
      }
      if k in Keys(s) && k != Lower(key) {
        var j := SlotOf(s, k);
        ContentsHas(s', j);
        ContentsHas(s, j);
      }
    }
  }

  /** At most one key per slot, and all slots in use exactly when there are as many keys as slots. */
  lemma FullMeansCapacity<V>(s: seq<Slot<V>>)
    requires Good(s)
    ensures |Contents(s)| <= |s|
    ensures (forall i :: 0 <= i < |s| ==> s[i].Used?) <==> |Contents(s)| == |s|
  {
    var used := set i | 0 <= i < |s| && s[i].Used?;
    assert Contents(s).Keys == Keys(s);
    KeysCount(s, |s|);
    UsedCount(s, |s|);
    assert KeysUpTo(s, |s|) == Keys(s);
  }

  ghost function KeysUpTo<V>(s: seq<Slot<V>>, n: nat): set<string>
    requires n <= |s|
  {
    set i | 0 <= i < n && s[i].Used? :: Lower(s[i].key)
  }

  function Count<V>(s: seq<Slot<V>>, n: nat): nat
    requires n <= |s|
  {
    if n == 0 then 0 else Count(s, n - 1) + (if s[n - 1].Used? then 1 else 0)
  }

  lemma {:induction false} KeysCount<V>(s: seq<Slot<V>>, n: nat)
    requires Good(s) && n <= |s|
    ensures |KeysUpTo(s, n)| == Count(s, n)
  {
    if n > 0 {
      KeysCount(s, n - 1);
      var a, b := KeysUpTo(s, n - 1), KeysUpTo(s, n);
      if s[n - 1].Used? {
        assert b == a + {Lower(s[n - 1].key)};
        forall i | 0 <= i < n - 1 && s[i].Used? ensures Lower(s[i].key) != Lower(s[n - 1].key) {
          EqualIgnoreCaseIsLower(s[n - 1].key, s[i].key);
          assert !Holds(s, n - 1, s[i].key);
        }
      } else {
        assert b == a;
      }
    }
  }

  lemma {:induction false} UsedCount<V>(s: seq<Slot<V>>, n: nat)
    requires n <= |s|
    ensures Count(s, n) <= n && (Count(s, n) == n <==> forall i :: 0 <= i < n ==> s[i].Used?)
  {
    if n > 0 {
      UsedCount(s, n - 1);
    }
  }

  lemma EmptyGood<V>(s: seq<Slot<V>>)
    requires |s| > 0 && forall i :: 0 <= i < |s| ==> s[i].Empty?
    ensures Good(s) && Contents(s) == map[]
  {
  }

  lemma ProbedAll<V>(s: seq<Slot<V>>, h: nat, key: string)
    requires h < |s|
    requires forall e :: 0 <= e < |s| ==> s[Cyc(h, e, |s|)].Used? && !Holds(s, Cyc(h, e, |s|), key)
    ensures forall i :: 0 <= i < |s| ==> s[i].Used? && !Holds(s, i, key)
  {
    forall i | 0 <= i < |s| ensures s[i].Used? && !Holds(s, i, key) {
      assert i == Cyc(h, Dist(h, i, |s|), |s|);
    }
  }

  lemma NotProbed<V>(s: seq<Slot<V>>, h: nat, key: string)
    requires h < |s|
    requires forall e :: 0 <= e < |s| ==> !Holds(s, Cyc(h, e, |s|), key)
    ensures forall i :: 0 <= i < |s| ==> !Holds(s, i, key)
  {
    forall i | 0 <= i < |s| ensures !Holds(s, i, key) {
      assert i == Cyc(h, Dist(h, i, |s|), |s|);
    }
  }

  /** Finding the key in slot i decides what the map holds. */
  lemma HeldValue<V>(s: seq<Slot<V>>, i: nat, key: string)
    requires Good(s) && i < |s| && Holds(s, i, key)
    ensures Lower(key) in Contents(s) && Contents(s)[Lower(key)] == s[i].value
  {
    ContentsHas(s, i);
    EqualIgnoreCaseIsLower(s[i].key, key);
  }

  /** A slot the probe stops at tells whether there was room. */
  lemma RoomOrHeld<V>(s: seq<Slot<V>>, i: nat, key: string)
    requires Good(s) && i < |s| && (s[i].Empty? || Holds(s, i, key))
    ensures Lower(key) in Contents(s) || |Contents(s)| < |s|
  {
    FullMeansCapacity(s);
    if s[i].Used? {
      HeldValue(s, i, key);
    }
  }

  lemma NoRoom<V>(s: seq<Slot<V>>, h: nat, key: string)
    requires Good(s) && h < |s|
    requires forall e :: 0 <= e < |s| ==> s[Cyc(h, e, |s|)].Used? && !Holds(s, Cyc(h, e, |s|), key)
    ensures Lower(key) !in Contents(s) && |Contents(s)| == |s|
  {
    ProbedAll(s, h, key);
    ContentsLacks(s, key);
    FullMeansCapacity(s);
  }

  /** What hash_table_set does to the map: it refuses only a new key on a full table. */
  ghost predicate SetResult<V>(before: map<string, V>, capacity: nat, key: string, value: V, ok: bool,
                               after: map<string, V>)
  {
    && (ok <==> Lower(key) in before || |before| < capacity)
    && after == (if ok then before[Lower(key) := value] else before)
  }

  class HashTable<V> {
    const entries: array<Slot<V>>
    var length: nat

    ghost predicate Valid()
      reads this, entries
    {
      Good(entries[..])
    }

    ghost function Map(): map<string, V>
      reads this, entries
      requires Valid()
    {
      Contents(entries[..])
    }

    constructor (capacity: nat)
      requires capacity > 0
      ensures Valid() && Map() == map[] && length == 0 && entries.Length == capacity && fresh(entries)
    {
      entries := new Slot<V>[capacity](_ => Empty);
      length := 0;
      new;
      EmptyGood(entries[..]);
    }

    method Set(key: string, value: V) returns (ok: bool)
      requires Valid()
      modifies this, entries
      ensures Valid() && SetResult(old(Map()), entries.Length, key, value, ok, Map())
      ensures length == old(length) + (if ok then 1 else 0)
    {
      var capacity := entries.Length;
      assert capacity > 0;
      hide Good, Contents;
      var index := HeaderKeyHash(key, capacity);
      ghost var s := entries[..];
      var i := 0;
      while i < capacity
        invariant 0 <= i <= capacity && entries[..] == s && length == old(length)
        invariant forall e :: 0 <= e < i ==> s[Cyc(index, e, capacity)].Used? && !Holds(s, Cyc(index, e, capacity), key)
      {
        CycIsMod(index, i, capacity);
        var tryIndex := (i + index) % capacity;
        var entry := entries[tryIndex];
        assert entry == s[Cyc(index, i, capacity)];
        if entry.Empty? || EqualIgnoreCase(entry.key, key) {
          assert s[tryIndex].Empty? || Holds(s, tryIndex, key);
          StoreSpec(s, key, value, i);
          RoomOrHeld(s, tryIndex, key);
          entries[tryIndex] := Used(key, value);
          assert entries[..] == s[tryIndex := Used(key, value)];
          length := length + 1;
          return true;
        }
        assert !Holds(s, Cyc(index, i, capacity), key);
        i := i + 1;
      }
      NoRoom(s, index, key);
      return false;
    }

    method Get(key: string) returns (r: Option<V>)
      requires Valid()
      ensures r == if Lower(key) in Map() then Some(Map()[Lower(key)]) else None
    {
      var capacity := entries.Length;
      assert capacity > 0;
      hide Good, Contents;
      var index := HeaderKeyHash(key, capacity);
      ghost var s := entries[..];
      var i := 0;
      while i < capacity
        invariant 0 <= i <= capacity
        invariant forall e :: 0 <= e < i ==> !Holds(s, Cyc(index, e, capacity), key)
      {
        CycIsMod(index, i, capacity);
        var tryIndex := (i + index) % capacity;
        var entry := entries[tryIndex];
        assert entry == s[Cyc(index, i, capacity)];
        if entry.Used? && EqualIgnoreCase(entry.key, key) {
          assert Holds(s, tryIndex, key);
          HeldValue(s, tryIndex, key);
          return Some(entry.value);
        }
        assert !Holds(s, Cyc(index, i, capacity), key);
        i := i + 1;
      }
      NotProbed(s, index, key);
      ContentsLacks(s, key);
      return None;
    }
  }
}
