/**
  The cache of mapped data files: least-recently-used eviction in two separately locked
  phases, first choosing the entries and then erasing them.
 */
module LruCache {

  datatype Entry = Entry(lastUsed: int, evictable: bool)

  type Key = nat

  datatype EvictionEntry = EvictionEntry(lastUsed: int, key: Key)

  /** The effect of each locked region on the map. */
  function AddEntry(m: map<Key, Entry>, key: Key, lastUsed: int, evictable: bool): map<Key, Entry> {
    m[key := Entry(lastUsed, evictable)]
  }

  function Touch(m: map<Key, Entry>, key: Key, lastUsed: int): map<Key, Entry> {
    if key in m then m[key := Entry(lastUsed, m[key].evictable)] else m
  }

  function Mark(m: map<Key, Entry>, key: Key, evictable: bool): map<Key, Entry> {
    if key in m then m[key := Entry(m[key].lastUsed, evictable)] else m
  }

  ghost function Evictable(m: map<Key, Entry>): set<Key> {
    set k | k in m && m[k].evictable
  }

  ghost function Min(x: nat, y: nat): nat {
    if x <= y then x else y
  }

  /** The entries that one eviction should remove: as many evictable ones as there are too many, the least recently used. */
  ghost predicate LeastRecentlyUsed(m: map<Key, Entry>, maxSize: nat, victims: set<Key>) {
    && victims <= Evictable(m)
    && |victims| == (if |m| > maxSize then Min(|m| - maxSize, |Evictable(m)|) else 0)
    && forall v, s | v in victims && s in Evictable(m) - victims :: m[v].lastUsed <= m[s].lastUsed
  }

  ghost function Keys(list: seq<EvictionEntry>): set<Key> {
    set i | 0 <= i < |list| :: list[i].key
  }

  ghost predicate Sorted(list: seq<EvictionEntry>) {
    forall i, j | 0 <= i < j < |list| :: list[i].lastUsed <= list[j].lastUsed
  }

  /** Evictable entries of `m` among the keys in `seen`, sorted, each once. */
  ghost predicate Candidates(m: map<Key, Entry>, seen: set<Key>, list: seq<EvictionEntry>) {
    && seen <= m.Keys
    && Sorted(list)
    && (forall i, j | 0 <= i < j < |list| :: list[i].key != list[j].key)
    && (forall i | 0 <= i < |list| :: list[i].key in seen && m[list[i].key] == Entry(list[i].lastUsed, true))
  }

  /** `list` is the least recently used part, at most `count` long, of the evictable keys in `seen`. */
  ghost predicate Best(m: map<Key, Entry>, seen: set<Key>, count: nat, list: seq<EvictionEntry>) {
    && Candidates(m, seen, list)
    && |list| <= count && (|list| < count ==> Evictable(m) * seen <= Keys(list))
    && forall i, s | 0 <= i < |list| && s in Evictable(m) * seen && s !in Keys(list) :: list[i].lastUsed <= m[s].lastUsed
  }

  /** The insertion-sort step of the loop over the entries. */
  method Consider(list: seq<EvictionEntry>, key: Key, e: Entry, count: nat) returns (r: seq<EvictionEntry>)
    requires Sorted(list) && |list| <= count
    ensures Sorted(r)
    ensures !e.evictable ==> r == list
    ensures e.evictable ==>
              exists i ::
                && 0 <= i <= |list|
                && (forall j | 0 <= j < i :: list[j].lastUsed <= e.lastUsed)
                && (i < |list| ==> e.lastUsed < list[i].lastUsed)
                && r == Prefix(list[..i] + [EvictionEntry(e.lastUsed, key)] + list[i..], count)
  {
    var i := 0;
    var itemInserted := false;
    r := list;
    while i < |list|
      invariant 0 <= i <= |list| && !itemInserted
      invariant e.evictable ==> forall j | 0 <= j < i :: list[j].lastUsed <= e.lastUsed
    {
      if e.evictable && e.lastUsed < list[i].lastUsed {
        r := list[..i] + [EvictionEntry(e.lastUsed, key)] + list[i..];
        itemInserted := true;
        break;
      }
      i := i + 1;
    }
    if !itemInserted && e.evictable && |list| < count {
      r := r + [EvictionEntry(e.lastUsed, key)];
    }
    ghost var whole := list[..i] + [EvictionEntry(e.lastUsed, key)] + list[i..];
    if |r| > count {
      r := r[..|r| - 1];
    }
    assert e.evictable ==> r == Prefix(whole, count);
  }

  ghost function Prefix<T>(s: seq<T>, n: nat): seq<T> {
    if n <= |s| then s[..n] else s
  }

  lemma KeysDistinct(list: seq<EvictionEntry>)
    requires forall i, j | 0 <= i < j < |list| :: list[i].key != list[j].key
    ensures |Keys(list)| == |list|
  {
    if list != [] {
      var init := list[..|list| - 1];
      KeysDistinct(init);
      assert Keys(list) == Keys(init) + {list[|list| - 1].key};
    }
  }

  lemma InsertedKeys(list: seq<EvictionEntry>, i: nat, x: EvictionEntry)
    requires i <= |list|
    ensures Keys(list[..i] + [x] + list[i..]) == Keys(list) + {x.key}
  {
    var whole := list[..i] + [x] + list[i..];
    assert whole[i] == x;
    forall k | k in Keys(list)
      ensures k in Keys(whole)
    {
      var j :| 0 <= j < |list| && list[j].key == k;
      assert whole[if j < i then j else j + 1].key == k;
    }
  }

  lemma InsertCandidate(m: map<Key, Entry>, seen: set<Key>, list: seq<EvictionEntry>, key: Key, i: nat)
    requires Candidates(m, seen, list) && key in m && key !in seen && m[key].evictable && i <= |list|
    requires forall j | 0 <= j < i :: list[j].lastUsed <= m[key].lastUsed
    requires i < |list| ==> m[key].lastUsed < list[i].lastUsed
    ensures Candidates(m, seen + {key}, list[..i] + [EvictionEntry(m[key].lastUsed, key)] + list[i..])
  {
    var x := EvictionEntry(m[key].lastUsed, key);
    var whole := list[..i] + [x] + list[i..];
    assert forall j | 0 <= j < |whole| :: whole[j] == if j < i then list[j] else if j == i then x else list[j - 1];
  }

  /** The insertion step keeps the best part. */
  lemma InsertKeepsBest(m: map<Key, Entry>, seen: set<Key>, count: nat, list: seq<EvictionEntry>, key: Key, i: nat)
    requires Best(m, seen, count, list) && count > 0
    requires key in m && key !in seen && m[key].evictable && i <= |list|
    requires forall j | 0 <= j < i :: list[j].lastUsed <= m[key].lastUsed
    requires i < |list| ==> m[key].lastUsed < list[i].lastUsed
    ensures Best(m, seen + {key}, count, Prefix(list[..i] + [EvictionEntry(m[key].lastUsed, key)] + list[i..], count))
  {
    hide Keys, Evictable;
    var x := EvictionEntry(m[key].lastUsed, key);
    var whole := list[..i] + [x] + list[i..];
    InsertCandidate(m, seen, list, key, i);
    InsertedKeys(list, i, x);
    var next := seen + {key};
    if |whole| > count {
      assert whole[count - 1].lastUsed <= list[count - 1].lastUsed;
      forall s | s in Evictable(m) * next && s !in Keys(whole)
        ensures whole[count - 1].lastUsed <= m[s].lastUsed
      {
        assert s in Evictable(m) * seen && s !in Keys(list);
      }
      DropLast(m, next, count, whole);
      assert Prefix(whole, count) == whole[..count];
    } else {
      assert Prefix(whole, count) == whole;
      assert Evictable(m) * next <= Keys(whole);
    }
  }

  /** Dropping the last of one candidate too many. */
  lemma DropLast(m: map<Key, Entry>, seen: set<Key>, count: nat, whole: seq<EvictionEntry>)
    requires Candidates(m, seen, whole) && |whole| == count + 1 && count > 0
    requires forall s | s in Evictable(m) * seen && s !in Keys(whole) :: whole[count - 1].lastUsed <= m[s].lastUsed
    ensures Best(m, seen, count, whole[..count])
  {
    hide Keys;
    var r, d := whole[..count], whole[count];
    assert Keys(whole) == Keys(r) + {d.key} by {
      assert whole == r + [d];
      InsertedKeys(r, count, d);
      assert r[..count] + [d] + r[count..] == whole;
    }
    forall n, s | 0 <= n < |r| && s in Evictable(m) * seen && s !in Keys(r)
      ensures r[n].lastUsed <= m[s].lastUsed
    {
      assert r[n] == whole[n] && whole[n].lastUsed <= whole[count - 1].lastUsed <= whole[count].lastUsed;
    }
  }

  lemma BestIsLeastRecentlyUsed(m: map<Key, Entry>, maxSize: nat, list: seq<EvictionEntry>)
    requires |m| > maxSize && Best(m, m.Keys, |m| - maxSize, list)
    ensures LeastRecentlyUsed(m, maxSize, Keys(list))
  {
    KeysDistinct(list);
    var e := Evictable(m);
    assert e * m.Keys == e;
    assert Keys(list) <= e;
    SubsetSize(Keys(list), e);
    forall v, s | v in Keys(list) && s in e - Keys(list)
      ensures m[v].lastUsed <= m[s].lastUsed
    {
      var i :| 0 <= i < |list| && list[i].key == v;
    }
  }

  lemma SubsetSize<T>(a: set<T>, b: set<T>)
    requires a <= b
    ensures |a| <= |b| && (b <= a ==> |a| == |b|)
  {
    assert b == a + (b - a);
  }

  /** What is left when the victims have gone. */
  lemma VictimsSize(m: map<Key, Entry>, maxSize: nat, victims: set<Key>)
    requires LeastRecentlyUsed(m, maxSize, victims)
    ensures |m - victims| == |m| - |victims|
    ensures forall v | v in victims :: v in m && m[v].evictable
    ensures |m - victims| >= Min(maxSize, |m|)
    ensures |m - victims| <= maxSize || forall k | k in m - victims :: !m[k].evictable
  {
    assert (m - victims).Keys == m.Keys - victims;
    assert |m.Keys| == |m| && |(m - victims).Keys| == |m - victims|;
    if |m - victims| > maxSize {
      assert |victims| == |Evictable(m)|;
      assert Evictable(m) == victims + (Evictable(m) - victims);
      forall k | k in m - victims
        ensures !m[k].evictable
      {
        assert k !in victims && k !in Evictable(m);
      }
    }
  }

  /** The position of the last use of a key, or -1. */
  ghost function LastUse(uses: seq<Key>, k: Key): (n: int)
    ensures -1 <= n < |uses|
    ensures n >= 0 ==> uses[n] == k
    ensures forall j | n < j < |uses| :: uses[j] != k
  {
    if uses == [] then -1
    else if uses[|uses| - 1] == k then |uses| - 1
    else LastUse(uses[..|uses| - 1], k)
  }

  /** The stamps are the times of the last uses, counted by `lastUsed`. */
  ghost predicate Stamped(m: map<Key, Entry>, uses: seq<Key>, lastUsed: int) {
    forall k | k in m :: LastUse(uses, k) >= 0 && m[k].lastUsed == lastUsed - |uses| + 1 + LastUse(uses, k)
  }

  /** So they order the entries by their last use, strictly, and none is beyond the counter. */
  lemma StampsAreRecency(m: map<Key, Entry>, uses: seq<Key>, lastUsed: int, a: Key, b: Key)
    requires Stamped(m, uses, lastUsed) && a in m && b in m
    ensures m[a].lastUsed <= lastUsed
    ensures m[a].lastUsed < m[b].lastUsed <==> LastUse(uses, a) < LastUse(uses, b)
    ensures a != b ==> m[a].lastUsed != m[b].lastUsed
  {
  }

  /** One more use: of `key`, at the next tick of the counter. */
  lemma UseStamps(m: map<Key, Entry>, uses: seq<Key>, lastUsed: int, key: Key, evictable: bool)
    requires Stamped(m, uses, lastUsed)
    ensures Stamped(m[key := Entry(lastUsed + 1, evictable)], uses + [key], lastUsed + 1)
    ensures forall k | k in m && k != key :: m[k].lastUsed < lastUsed + 1
  {
    assert (uses + [key])[..|uses|] == uses;
    forall k | k in m && k != key
      ensures LastUse(uses + [key], k) == LastUse(uses, k)
    {
    }
  }

  /** Each victim was last used before every evictable entry that is left. */
  lemma VictimsOrder(m: map<Key, Entry>, maxSize: nat, victims: set<Key>, uses: seq<Key>, lastUsed: int)
    requires LeastRecentlyUsed(m, maxSize, victims) && Stamped(m, uses, lastUsed)
    ensures forall v, s | v in victims && s in Evictable(m - victims) :: LastUse(uses, v) < LastUse(uses, s)
  {
    hide Stamped, LastUse;
    forall v, s | v in victims && s in Evictable(m - victims)
      ensures LastUse(uses, v) < LastUse(uses, s)
    {
      assert s in Evictable(m) - victims;
      StampsAreRecency(m, uses, lastUsed, v, s);
      StampsAreRecency(m, uses, lastUsed, s, v);
    }
  }

  lemma NoKeys(list: seq<EvictionEntry>)
    requires list == []
    ensures Keys(list) == {}
  {
  }

  class ConcurrentLRUCache {
    var entries: map<Key, Entry>
    var lastUsed: int
    const maxCacheSize: nat
    /** The keys added or found, in order. */
    ghost var uses: seq<Key>

    ghost predicate Valid()
      reads this
    {
      Stamped(entries, uses, lastUsed)
    }

    /** The counter starts at whatever it is. */
    constructor (maxCacheSize: nat, initial: int)
      ensures Valid() && uses == []
      ensures entries == map[] && lastUsed == initial && this.maxCacheSize == maxCacheSize
    {
      uses := [];
      entries := map[];
      lastUsed := initial;
      this.maxCacheSize := maxCacheSize;
    }

    method Add(key: Key, evictable: bool)
      requires Valid()
      modifies this
      ensures Valid() && uses == old(uses) + [key]
      ensures lastUsed == old(lastUsed) + 1 && entries == AddEntry(old(entries), key, lastUsed, evictable)
      ensures entries.Keys == old(entries).Keys + {key}
      ensures entries[key].evictable == evictable && entries[key].lastUsed == lastUsed
      ensures forall k | k in entries && k != key :: entries[k] == old(entries)[k]
      ensures forall k | k in entries && k != key :: entries[k].lastUsed < entries[key].lastUsed
    {
      hide Stamped, LastUse;
      UseStamps(entries, uses, lastUsed, key, evictable);
      uses := uses + [key];
      lastUsed := lastUsed + 1;
      entries := entries[key := Entry(lastUsed, evictable)];
    }

    method Find(key: Key) returns (found: bool)
      requires Valid()
      modifies this
      ensures Valid() && uses == if found then old(uses) + [key] else old(uses)
      ensures found == (key in old(entries))
      ensures lastUsed == old(lastUsed) + (if found then 1 else 0) && entries == Touch(old(entries), key, lastUsed)
      ensures entries.Keys == old(entries).Keys
      ensures forall k | k in entries :: entries[k].evictable == old(entries)[k].evictable
      ensures forall k | k in entries :: entries[k].lastUsed == if k == key then lastUsed else old(entries)[k].lastUsed
      ensures found ==> forall k | k in entries && k != key :: entries[k].lastUsed < entries[key].lastUsed
    {
      hide Stamped, LastUse;
      if key in entries {
        UseStamps(entries, uses, lastUsed, key, entries[key].evictable);
        uses := uses + [key];
        lastUsed := lastUsed + 1;
        entries := entries[key := entries[key].(lastUsed := lastUsed)];
        return true;
      } else {
        return false;
      }
    }

    method SetEvictable(key: Key, evictable: bool) returns (found: bool)
      requires Valid()
      modifies this
      ensures Valid() && uses == old(uses)
      ensures found == (key in old(entries)) && entries == Mark(old(entries), key, evictable)
      ensures entries.Keys == old(entries).Keys
      ensures found ==> entries[key].evictable == evictable && entries[key].lastUsed == old(entries)[key].lastUsed
      ensures forall k | k in entries && k != key :: entries[k] == old(entries)[k]
      ensures lastUsed == old(lastUsed)
    {
      if key in entries {
        entries := entries[key := entries[key].(evictable := evictable)];
        return true;
      } else {
        return false;
      }
    }

    /** The first phase of the eviction, under the reader lock. The map is walked in any order. */
    method CollectKeysToEvict() returns (keysToEvict: seq<EvictionEntry>)
      ensures LeastRecentlyUsed(entries, maxCacheSize, Keys(keysToEvict))
    {
      keysToEvict := [];
      if |entries| > maxCacheSize {
        var itemsToEvictCount := |entries| - maxCacheSize;
        var rest := entries.Keys;
        while rest != {}
          invariant rest <= entries.Keys
          invariant Best(entries, entries.Keys - rest, itemsToEvictCount, keysToEvict)
          decreases rest
        {
          var key :| key in rest;
          keysToEvict := ConsiderNext(entries.Keys - rest, itemsToEvictCount, keysToEvict, key);
          assert entries.Keys - (rest - {key}) == (entries.Keys - rest) + {key};
          rest := rest - {key};
        }
        BestIsLeastRecentlyUsed(entries, maxCacheSize, keysToEvict);
      }
    }

    method ConsiderNext(ghost seen: set<Key>, count: nat, list: seq<EvictionEntry>, key: Key) returns (r: seq<EvictionEntry>)
      requires Best(entries, seen, count, list) && count > 0 && key in entries && key !in seen
      ensures Best(entries, seen + {key}, count, r)
    {
      r := Consider(list, key, entries[key], count);
      if entries[key].evictable {
        ghost var i :|
          && 0 <= i <= |list|
          && (forall j | 0 <= j < i :: list[j].lastUsed <= entries[key].lastUsed)
          && (i < |list| ==> entries[key].lastUsed < list[i].lastUsed)
          && r == Prefix(list[..i] + [EvictionEntry(entries[key].lastUsed, key)] + list[i..], count);
        InsertKeepsBest(entries, seen, count, list, key, i);
      } else {
        assert Evictable(entries) * (seen + {key}) == Evictable(entries) * seen;
      }
    }

    /** The second phase, under the writer lock: the chosen keys go, whatever has happened since. */
    method EraseKeys(keysToEvict: seq<EvictionEntry>)
      requires Valid()
      modifies this`entries
      ensures Valid()
      ensures entries == old(entries) - Keys(keysToEvict)
    {
      for n := 0 to |keysToEvict|
        invariant entries == old(entries) - Keys(keysToEvict[..n])
      {
        assert Keys(keysToEvict[..n + 1]) == Keys(keysToEvict[..n]) + {keysToEvict[n].key};
        entries := entries - {keysToEvict[n].key};
      }
      assert keysToEvict[..|keysToEvict|] == keysToEvict;
    }

    /**
      Both phases without interruption: evictable entries are gone, as many as there are too many or
      all of them, and each was last used before every evictable entry that stays.
     */
    method PerformEviction() returns (ghost victims: set<Key>)
      requires Valid()
      modifies this`entries
      ensures Valid() && LeastRecentlyUsed(old(entries), maxCacheSize, victims)
      ensures entries == old(entries) - victims
      ensures forall v | v in victims :: v in old(entries) && old(entries)[v].evictable
      ensures |entries| <= maxCacheSize || forall k | k in entries :: !entries[k].evictable
      ensures |entries| >= Min(maxCacheSize, |old(entries)|)
      ensures forall v, s | v in victims && s in Evictable(entries) :: LastUse(uses, v) < LastUse(uses, s)
    {
      hide Stamped, LeastRecentlyUsed, Keys, Evictable, LastUse;
      var keysToEvict := CollectKeysToEvict();
      victims := Keys(keysToEvict);
      VictimsSize(entries, maxCacheSize, victims);
      VictimsOrder(entries, maxCacheSize, victims, uses, lastUsed);
      if |keysToEvict| > 0 {
        EraseKeys(keysToEvict);
      } else {
        NoKeys(keysToEvict);
        assert entries - victims == entries;
      }
    }
  }
}
