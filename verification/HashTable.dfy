/** The hash table of the assembler (cctools/as/hash.c): every lookup moves what it finds to the front. */
module HashTable {
  import opened Wrappers

  const DEFAULT_SIZE := 4051

  const WORD := 0x1_0000_0000

  type Word = n: nat | n < WORD

  /** A character as an unsigned int, by way of a signed char. */
  function CharWord(c: char): Word {
    var n := c as int % 256;
    if n >= 128 then WORD - 256 + n else n
  }

  /** hash ^= hash >> 2. */
  function Mix(hash: Word): Word {
    (hash as bv32 ^ (hash as bv32 >> 2)) as nat
  }

  /** hash += c + (c << 17), and mixed. */
  function Roll(hash: Word, c: Word): Word {
    Mix((hash + c + c * 0x2_0000) % WORD)
  }

  /** The hash of the characters so far. */
  function Rolled(key: string): Word {
    if key == "" then 0 else Roll(Rolled(key[..|key| - 1]), CharWord(key[|key| - 1]))
  }

  /** The full hash code of a key, the length included. */
  function HashOf(key: string): Word {
    Roll(Rolled(key), |key| % WORD)
  }

  function Slot(key: string, size: nat): (i: nat)
    requires size > 0
    ensures i < size
  {
    HashOf(key) % size
  }

  method ComputeHash(key: string) returns (hash: Word)
    ensures hash == HashOf(key)
  {
    hide Roll, CharWord;
    hash := 0;
    for n := 0 to |key|
      invariant hash == Rolled(key[..n])
    {
      assert key[..n + 1][..n] == key[..n];
      hash := Roll(hash, CharWord(key[n]));
    }
    assert key[..|key|] == key;
    hash := Roll(hash, |key| % WORD);
  }

  class Entry<V> {
    var next: Entry?<V>
    const key: string
    const hash: Word
    var data: V

    constructor (key: string, hash: Word, data: V, next: Entry?<V>)
      ensures this.key == key && this.hash == hash && this.data == data && this.next == next
    {
      this.key, this.hash, this.data, this.next := key, hash, data, next;
    }
  }

  // ---------------------------------------------------------------- chains

  /** The entries hang together in this order from the head on. */
  ghost predicate Linked<V>(head: Entry?<V>, s: seq<Entry<V>>)
    reads s`next
  {
    && head == First(s)
    && forall j :: 0 <= j < |s| ==> s[j].next == First(s[j + 1..])
  }

  ghost function First<V>(s: seq<Entry<V>>): Entry?<V> {
    if s == [] then null else s[0]
  }

  ghost predicate UniqueKeys<V>(s: seq<Entry<V>>) {
    forall i, j :: 0 <= i < j < |s| ==> s[i].key != s[j].key
  }

  ghost predicate HasKey<V>(s: seq<Entry<V>>, key: string) {
    exists e :: e in s && e.key == key
  }

  ghost function MoveToFront<V>(s: seq<Entry<V>>, k: nat): (r: seq<Entry<V>>)
    requires k < |s|
    ensures |r| == |s|
  {
    [s[k]] + s[..k] + s[k + 1..]
  }

  /** The same entries in another order. */
  lemma MoveToFrontPermutes<V>(s: seq<Entry<V>>, k: nat)
    requires k < |s|
    ensures multiset(MoveToFront(s, k)) == multiset(s)
  {
    assert s == s[..k] + ([s[k]] + s[k + 1..]);
    assert multiset(s) == multiset(s[..k]) + multiset([s[k]]) + multiset(s[k + 1..]);
  }

  lemma MoveToFrontAt<V>(s: seq<Entry<V>>, k: nat, j: nat)
    requires k < |s| && j < |s|
    ensures MoveToFront(s, k)[j] == if j == 0 then s[k] else if j <= k then s[j - 1] else s[j]
  {
  }

  lemma MoveToFrontKeys<V>(s: seq<Entry<V>>, k: nat)
    requires k < |s| && UniqueKeys(s)
    ensures UniqueKeys(MoveToFront(s, k))
    ensures forall e :: e in MoveToFront(s, k) <==> e in s
    ensures forall key :: HasKey(MoveToFront(s, k), key) == HasKey(s, key)
  {
    var r := MoveToFront(s, k);
    forall i, j | 0 <= i < j < |r| ensures r[i].key != r[j].key {
      MoveToFrontAt(s, k, i);
      MoveToFrontAt(s, k, j);
    }
    assert s == s[..k] + ([s[k]] + s[k + 1..]);
  }

  /** Relinking two entries moves one to the front. */
  lemma Relinked<V>(s: seq<Entry<V>>, k: nat)
    requires 0 < k < |s|
    requires s[k - 1].next == First(s[k + 1..]) && s[k].next == s[0]
    requires forall j :: 0 <= j < |s| && j != k - 1 && j != k ==> s[j].next == First(s[j + 1..])
    ensures Linked(s[k], MoveToFront(s, k))
  {
    var r := MoveToFront(s, k);
    forall j | 0 <= j < |r| ensures r[j].next == First(r[j + 1..]) {
      if j == 0 {
        assert r[1] == s[0];
      } else if j < k {
        assert r[j] == s[j - 1] && r[j + 1] == s[j] && First(s[j..]) == s[j];
      } else if j == k {
        assert r[j] == s[k - 1] && r[j + 1..] == s[k + 1..];
      } else {
        assert r[j] == s[j] && r[j + 1..] == s[j + 1..];
      }
    }
  }

  /** Searches a chain. */
  method Walk<V>(head: Entry?<V>, key: string, hash: Word, ghost s: seq<Entry<V>>)
    returns (p: Entry?<V>, prev: Entry?<V>, ghost k: nat)
    requires Linked(head, s) && hash == HashOf(key) && forall e :: e in s ==> e.hash == HashOf(e.key)
    ensures p == null ==> forall e :: e in s ==> e.key != key
    ensures p != null ==> k < |s| && p == s[k] && p.key == key
    ensures p != null ==> prev == if k == 0 then null else s[k - 1]
  {
    hide HashOf;
    prev, k := null, 0;
    p := head;
    assert s[0..] == s;
    while p != null
      invariant 0 <= k <= |s| && p == First(s[k..]) && prev == (if k == 0 then null else s[k - 1])
      invariant forall j :: 0 <= j < k ==> s[j].key != key
      decreases |s| - k
    {
      if p.hash == hash && p.key == key {
        return;
      }
      prev := p;
      p := p.next;
      k := k + 1;
    }
  }

  /** Unlinks the entry after prev and links it in front of the chain. */
  method Relink<V>(head: Entry<V>, prev: Entry<V>, p: Entry<V>, ghost s: seq<Entry<V>>, ghost k: nat)
    requires Linked(head, s) && 0 < k < |s| && prev == s[k - 1] && p == s[k]
    requires forall j :: 0 <= j < |s| ==> (j != k ==> s[j] != p) && (j != k - 1 ==> s[j] != prev)
    modifies prev`next, p`next
    ensures Linked(p, MoveToFront(s, k))
  {
    prev.next := p.next;
    p.next := head;
    Relinked(s, k);
  }

  class Table<V> {
    const table: array<Entry?<V>>
    ghost var chains: seq<seq<Entry<V>>>
    ghost var entries: set<Entry<V>>
    ghost var contents: map<string, V>

    /** Every chain hangs from its slot and holds the keys of that slot, each once; together they hold the contents. */
    ghost predicate Valid()
      reads this, table, entries
    {
      && table.Length > 0 && |chains| == table.Length
      && (forall i, e :: 0 <= i < |chains| && e in chains[i] ==> e in entries)
      && (forall i :: 0 <= i < |chains| ==> InSlot(i, chains[i]))
      && (forall i :: 0 <= i < |chains| ==> Linked(table[i], chains[i]))
      && (forall key :: key in contents ==> HasKey(chains[Slot(key, table.Length)], key))
    }

    ghost predicate InSlot(i: nat, s: seq<Entry<V>>)
      requires table.Length > 0
      reads this`contents, s`data
    {
      && UniqueKeys(s)
      && forall e :: e in s ==>
           && Slot(e.key, table.Length) == i && e.hash == HashOf(e.key)
           && e.key in contents && contents[e.key] == e.data
    }

    /** hash_new. */
    constructor ()
      ensures Valid() && contents == map[] && fresh(table) && fresh(entries) && table.Length == DEFAULT_SIZE
    {
      table := new Entry?<V>[DEFAULT_SIZE](_ => null);
      chains := seq(DEFAULT_SIZE, _ => []);
      entries := {};
      contents := map[];
    }

    /** Looks for a key in the chain of its slot. */
    method Search(key: string, i: nat, hash: Word) returns (p: Entry?<V>, prev: Entry?<V>, ghost k: nat)
      requires Valid() && i == Slot(key, table.Length) && hash == HashOf(key)
      ensures p == null ==> key !in contents
      ensures p != null ==> k < |chains[i]| && p == chains[i][k] && p.key == key
      ensures p != null ==> prev == if k == 0 then null else chains[i][k - 1]
    {
      hide HashOf, Linked, UniqueKeys;
      p, prev, k := Walk(table[i], key, hash, chains[i]);
    }

    /** Unlinks an entry that is not the first and links it in front. */
    method MoveFirst(i: nat, prev: Entry<V>, p: Entry<V>, ghost k: nat)
      requires Valid() && i < table.Length && 0 < k < |chains[i]| && prev == chains[i][k - 1] && p == chains[i][k]
      modifies this`chains, table, entries`next
      ensures Valid() && chains == old(chains)[i := MoveToFront(old(chains)[i], k)] && table[i] == p
    {
      hide HashOf, Slot, UniqueKeys, MoveToFront, Linked, HasKey;
      ghost var s := chains[i];
      OwnEntries(i, k);
      OwnEntries(i, k - 1);
      HeadIs(i);
      Relink(table[i], prev, p, s, k);
      table[i] := p;
      MoveToFrontKeys(s, k);
      chains := chains[i := MoveToFront(s, k)];
    }

    /** The entries of a chain are all different, and in no other chain. */
    lemma OwnEntries(i: nat, k: nat)
      requires Valid() && i < table.Length && k < |chains[i]|
      ensures forall j :: 0 <= j < |chains[i]| && j != k ==> chains[i][j] != chains[i][k]
      ensures forall i' :: 0 <= i' < |chains| && i' != i ==> chains[i][k] !in chains[i']
    {
      hide HashOf, Slot;
    }

    /** hash_lookup: finds the entry of a key and moves it to the front of its chain. Nothing but the order of
        that chain changes. */
    method Lookup(key: string) returns (p: Entry?<V>, i: nat, hash: Word, ghost k: nat)
      requires Valid()
      modifies this`chains, table, entries`next
      ensures Valid() && i == Slot(key, table.Length) && hash == HashOf(key)
      ensures p == null ==> key !in contents && chains == old(chains)
      ensures p != null ==> key in contents && p in entries && p.key == key && p == table[i] && p.data == contents[key]
      ensures p != null ==> k < |old(chains)[i]| && chains == old(chains)[i := MoveToFront(old(chains)[i], k)]
    {
      hide HashOf, Linked, UniqueKeys;
      hash := ComputeHash(key);
      i := hash % table.Length;
      var prev;
      p, prev, k := Search(key, i, hash);
      if p != null {
        assert p in chains[i];
        if prev != null {
          MoveFirst(i, prev, p, k);
        } else {
          FirstStays(i);
        }
      }
    }

    lemma FirstStays(i: nat)
      requires Valid() && i < table.Length && chains[i] != []
      ensures table[i] == chains[i][0] && chains == chains[i := MoveToFront(chains[i], 0)]
    {
      assert MoveToFront(chains[i], 0) == chains[i];
    }

    lemma HeadIs(i: nat)
      requires Valid() && i < table.Length && chains[i] != []
      ensures table[i] == chains[i][0]
    {
    }

    /** Allocates an entry for a new key and links it in front of its chain. */
    method Prepend(key: string, hash: Word, i: nat, value: V)
      requires Valid() && i == Slot(key, table.Length) && hash == HashOf(key) && key !in contents
      modifies this, table
      ensures Valid() && contents == old(contents)[key := value]
      ensures fresh(entries - old(entries)) && |chains[i]| == |old(chains)[i]| + 1 && chains[i][1..] == old(chains)[i]
    {
      hide HashOf, Linked, HasKey, UniqueKeys;
      ghost var s := chains[i];
      var p := new Entry<V>(key, hash, value, table[i]);
      table[i] := p;
      LinkedInFront(p, s);
      KeysInFront(p, s);
      contents := contents[key := value];
      entries := entries + {p};
      chains := chains[i := [p] + s];
    }

    /** Overwrites the value of an entry. */
    method Overwrite(p: Entry<V>, key: string, value: V)
      requires Valid() && key in contents && p in entries && p.key == key && p in chains[Slot(key, table.Length)]
      modifies this`contents, p`data
      ensures Valid() && contents == old(contents)[key := value]
    {
      hide HashOf, Linked;
      p.data := value;
      contents := contents[key := value];
      OnlyEntryOf(p, key);
    }

    /** A key is in one entry of all chains. */
    lemma OnlyEntryOf(p: Entry<V>, key: string)
      requires table.Length > 0 && |chains| == table.Length
      requires forall i :: 0 <= i < |chains| ==> UniqueKeys(chains[i])
      requires forall i, e :: 0 <= i < |chains| && e in chains[i] ==> Slot(e.key, table.Length) == i
      requires p in chains[Slot(key, table.Length)] && p.key == key
      ensures forall i, e :: 0 <= i < |chains| && e in chains[i] && e.key == key ==> e == p
    {
      hide HashOf;
    }

    /** hash_insert: an error when the key is there already. */
    method Insert(key: string, value: V) returns (error: Option<string>)
      requires Valid()
      modifies this, table, entries
      ensures Valid() && fresh(entries - old(entries))
      ensures if key in old(contents) then error == Some("exists") && contents == old(contents)
              else error == None && contents == old(contents)[key := value]
    {
      hide HashOf, Slot, UniqueKeys, MoveToFront, Linked, HasKey, InSlot;
      var p, i, hash, k := Lookup(key);
      if p != null {
        return Some("exists");
      }
      Prepend(key, hash, i, value);
      return None;
    }

    /** hash_jam: inserts or replaces. */
    method Jam(key: string, value: V)
      requires Valid()
      modifies this, table, entries
      ensures Valid() && fresh(entries - old(entries)) && contents == old(contents)[key := value]
    {
      hide HashOf, UniqueKeys, MoveToFront, Linked, HasKey, InSlot;
      var p, i, hash, k := Lookup(key);
      if p != null {
        FrontEntry(i);
        Overwrite(p, key, value);
      } else {
        Prepend(key, hash, i, value);
      }
    }

    lemma FrontEntry(i: nat)
      requires Valid() && i < table.Length && table[i] != null
      ensures chains[i] != [] && chains[i][0] == table[i] && table[i] in chains[i] && Slot(table[i].key, table.Length) == i
    {
    }

    /** hash_replace: the old value, or nothing and no change. */
    method Replace(key: string, value: V) returns (before: Option<V>)
      requires Valid()
      modifies this, table, entries
      ensures Valid() && entries == old(entries)
      ensures if key in old(contents) then before == Some(old(contents)[key]) && contents == old(contents)[key := value]
              else before == None && contents == old(contents)
    {
      hide HashOf, UniqueKeys, MoveToFront, Linked, HasKey, InSlot;
      var p, i, hash, k := Lookup(key);
      if p == null {
        return None;
      }
      before := Some(p.data);
      FrontEntry(i);
      Overwrite(p, key, value);
    }

    /** hash_find, and hash_find_n of the first characters of a longer text. */
    method Find(key: string) returns (value: Option<V>)
      requires Valid()
      modifies this`chains, table, entries`next
      ensures Valid() && value == if key in contents then Some(contents[key]) else None
    {
      hide HashOf, UniqueKeys, MoveToFront, Linked, HasKey, InSlot;
      var p, i, hash, k := Lookup(key);
      if p == null {
        return None;
      }
      return Some(p.data);
    }

    /** hash_delete. The entry that was found is at the front, so that the call of abort cannot be reached. */
    method Delete(key: string) returns (before: Option<V>)
      requires Valid()
      modifies this, table, entries
      ensures Valid() && entries == old(entries) && contents == old(contents) - {key}
      ensures before == if key in old(contents) then Some(old(contents)[key]) else None
    {
      hide HashOf, UniqueKeys, MoveToFront, Linked, HasKey, InSlot;
      var p, i, hash, k := Lookup(key);
      if p == null {
        assert contents - {key} == contents;
        return None;
      }
      if p != table[i] {
        assert false;
      }
      before := Some(p.data);
      RemoveFront(key, i);
    }

    method RemoveFront(key: string, i: nat)
      requires Valid() && i < table.Length && table[i] != null && table[i].key == key
      modifies this, table
      ensures Valid() && entries == old(entries) && contents == old(contents) - {key}
      ensures chains == old(chains)[i := old(chains)[i][1..]]
    {
      hide HashOf, Linked, HasKey, UniqueKeys;
      FrontEntry(i);
      ghost var s := chains[i];
      LinkedRest(table[i], s);
      KeysOfRest(s);
      table[i] := table[i].next;
      chains := chains[i := s[1..]];
      contents := contents - {key};
    }
  }

  lemma LinkedInFront<V>(p: Entry<V>, s: seq<Entry<V>>)
    requires Linked(p.next, s)
    ensures Linked(p, [p] + s)
  {
    assert ([p] + s)[1..] == s;
    forall j | 0 <= j < |s| + 1 ensures ([p] + s)[j].next == First(([p] + s)[j + 1..]) {
      if j > 0 {
        assert ([p] + s)[j + 1..] == s[j..] && ([p] + s)[j] == s[j - 1];
      }
    }
  }

  lemma KeysInFront<V>(p: Entry<V>, s: seq<Entry<V>>)
    requires UniqueKeys(s) && forall e :: e in s ==> e.key != p.key
    ensures UniqueKeys([p] + s)
    ensures forall key :: HasKey([p] + s, key) <==> key == p.key || HasKey(s, key)
  {
    forall key ensures HasKey([p] + s, key) <==> key == p.key || HasKey(s, key) {
      if HasKey(s, key) {
        var e :| e in s && e.key == key;
        assert e in [p] + s;
      }
      assert p in [p] + s;
    }
  }

  lemma KeysOfRest<V>(s: seq<Entry<V>>)
    requires UniqueKeys(s) && s != []
    ensures UniqueKeys(s[1..])
    ensures forall e :: e in s[1..] ==> e in s && e.key != s[0].key
    ensures forall key :: HasKey(s[1..], key) <==> key != s[0].key && HasKey(s, key)
  {
    forall key ensures HasKey(s[1..], key) <==> key != s[0].key && HasKey(s, key) {
      assert s == [s[0]] + s[1..];
    }
  }

  lemma LinkedRest<V>(p: Entry<V>, s: seq<Entry<V>>)
    requires Linked(p, s) && s != []
    ensures Linked(p.next, s[1..])
  {
    forall j | 0 <= j < |s| - 1 ensures s[1..][j].next == First(s[1..][j + 1..]) {
      assert s[1..][j + 1..] == s[j + 2..];
    }
  }
}
