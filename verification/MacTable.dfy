/** The MAC address table: chained buckets, entries that expire when they are looked up. */
module MacTable {

  const HASH_TABLE_SIZE := 4096
  const MAC_SIZE := 6
  const ENTRY_TTL := 300

  type Mac = m: seq<bv8> | |m| == MAC_SIZE witness [0, 0, 0, 0, 0, 0]

  datatype Key = Key(mac: Mac, vlan: bv16)

  // ---- the table as a map

  /** `expired` is sticky: nothing ever resets it. */
  datatype Record = Record(port: int, lastSeen: int, expired: bool)

  type Table = map<Key, Record>

  function Learn(t: Table, key: Key, port: int, now: int): Table {
    t[key := Record(port, now, key in t && t[key].expired)]
  }

  predicate Findable(t: Table, key: Key, now: int) {
    key in t && !t[key].expired && now - t[key].lastSeen <= ENTRY_TTL
  }

  function Find(t: Table, key: Key, now: int): int {
    if Findable(t, key, now) then t[key].port else -1
  }

  /** Looking up an entry that is too old marks it. */
  function Expire(t: Table, key: Key, now: int): Table {
    if key in t && now - t[key].lastSeen > ENTRY_TTL then t[key := t[key].(expired := true)] else t
  }

  // ---- FNV-1a

  function Fnv(mac: seq<bv8>): bv32 {
    if mac == [] then 2166136261
    else TimesPrime(Fnv(mac[..|mac| - 1]) ^ mac[|mac| - 1] as bv32)
  }

  function TimesPrime(hash: bv32): bv32 {
    hash * 16777619
  }

  function Bucket(key: Key): (b: nat)
    ensures b < HASH_TABLE_SIZE
  {
    Masked(Fnv(key.mac) ^ (key.vlan & 0xFF) as bv32 ^ ((key.vlan >> 8) & 0xFF) as bv32)
  }

  function Masked(hash: bv32): (b: nat)
    ensures b < HASH_TABLE_SIZE
  {
    assert hash & 0xFFF <= 0xFFF;
    (hash & 0xFFF) as nat
  }

  lemma FnvStep(mac: seq<bv8>, i: nat)
    requires i < |mac|
    ensures Fnv([]) == 2166136261
    ensures Fnv(mac[..i + 1]) == TimesPrime(Fnv(mac[..i]) ^ mac[i] as bv32)
  {
    hide TimesPrime;
    assert mac[..i + 1][..i] == mac[..i];
  }

  /** `hash_mac` */
  method HashMac(mac: Mac, vlan: bv16) returns (index: nat)
    ensures index == Bucket(Key(mac, vlan)) && index < HASH_TABLE_SIZE
  {
    hide Fnv, TimesPrime, Masked;
    var hash: bv32 := 2166136261;
    FnvStep(mac, 0);
    assert mac[..0] == [];
    for i := 0 to MAC_SIZE
      invariant hash == Fnv(mac[..i])
    {
      FnvStep(mac, i);
      hash := hash ^ mac[i] as bv32;
      hash := TimesPrime(hash);
    }
    assert mac[..MAC_SIZE] == mac;
    hash := hash ^ (vlan & 0xFF) as bv32;
    hash := hash ^ ((vlan >> 8) & 0xFF) as bv32;
    index := Masked(hash);
  }

  /** Two buckets, as FNV-1a with the 32-bit offset basis and prime and the low twelve bits give them. */
  lemma TwoBuckets()
    ensures Bucket(Key([0, 0, 0, 0, 0, 0], 1)) == 1948
    ensures Bucket(Key([0x02, 0x11, 0x22, 0x33, 0x44, 0xff], 0x0203)) == 2279
  {
    FnvOfSix(0, 0, 0, 0, 0, 0);
    FnvOfSix(0x02, 0x11, 0x22, 0x33, 0x44, 0xff);
  }

  function Mixed(hash: bv32, b: bv8): bv32 {
    TimesPrime(hash ^ b as bv32)
  }

  lemma FnvSnoc(mac: seq<bv8>, b: bv8)
    ensures Fnv(mac + [b]) == Mixed(Fnv(mac), b)
  {
    hide TimesPrime, Fnv;
    var longer := mac + [b];
    FnvStep(longer, |mac|);
    assert longer[..|mac|] == mac && longer[..|mac| + 1] == longer;
  }

  lemma FnvOfSix(a: bv8, b: bv8, c: bv8, d: bv8, e: bv8, f: bv8)
    ensures Fnv([a, b, c, d, e, f])
         == Mixed(Mixed(Mixed(Mixed(Mixed(Mixed(2166136261, a), b), c), d), e), f)
  {
    hide Mixed, Fnv;
    FnvStep([a], 0);
    FnvSnoc([], a);
    FnvSnoc([a], b);
    FnvSnoc([a, b], c);
    FnvSnoc([a, b, c], d);
    FnvSnoc([a, b, c, d], e);
    FnvSnoc([a, b, c, d, e], f);
    assert [] + [a] == [a] && [a] + [b] == [a, b] && [a, b] + [c] == [a, b, c];
    assert [a, b, c] + [d] == [a, b, c, d] && [a, b, c, d] + [e] == [a, b, c, d, e];
    assert [a, b, c, d, e] + [f] == [a, b, c, d, e, f];
  }

  // ---- the chains

  class Entry {
    const mac: Mac
    const vlan: bv16
    /** Entries are only ever added in front, so the link is set once. */
    const next: Entry?
    var port: int
    var lastSeen: int
    var valid: bool

    constructor (mac: Mac, vlan: bv16, port: int, now: int, next: Entry?)
      ensures this.mac == mac && this.vlan == vlan && this.port == port && lastSeen == now && valid && this.next == next
    {
      this.mac, this.vlan, this.port, lastSeen, valid, this.next := mac, vlan, port, now, true, next;
    }

    function KeyOf(): Key {
      Key(mac, vlan)
    }

    function State(): Record
      reads this
    {
      Record(port, lastSeen, !valid)
    }
  }

  /** A bucket's list of entries. */
  ghost predicate Chain(head: Entry?, entries: seq<Entry>) {
    head == (if entries == [] then null else entries[0])
    && forall i {:trigger entries[i].next} :: 0 <= i < |entries| ==>
         entries[i].next == if i + 1 < |entries| then entries[i + 1] else null
  }

  /** The entries of bucket b are the entries of their keys, which belong there; none stands there twice. */
  ghost predicate InBucket(index: map<Key, Entry>, entries: seq<Entry>, b: nat) {
    (forall i :: 0 <= i < |entries| ==>
       var k := entries[i].KeyOf(); k in index && index[k] == entries[i] && Bucket(k) == b)
    && (forall i, j :: 0 <= i < j < |entries| ==> entries[i] != entries[j])
  }

  /** Every key's entry stands in the key's bucket. */
  ghost predicate Indexed(index: map<Key, Entry>, chains: seq<seq<Entry>>)
    requires |chains| == HASH_TABLE_SIZE
  {
    forall k :: k in index ==> index[k].KeyOf() == k && index[k] in chains[Bucket(k)]
  }

  lemma BucketStays(index: map<Key, Entry>, entries: seq<Entry>, b: nat, e: Entry)
    requires InBucket(index, entries, b) && e.KeyOf() !in index
    ensures InBucket(index[e.KeyOf() := e], entries, b)
  {
    hide Bucket;
  }

  lemma BucketGrows(index: map<Key, Entry>, entries: seq<Entry>, b: nat, e: Entry)
    requires InBucket(index, entries, b) && e.KeyOf() !in index && Bucket(e.KeyOf()) == b
    ensures InBucket(index[e.KeyOf() := e], [e] + entries, b)
  {
    hide Bucket;
    var longer := [e] + entries;
    forall i | 0 <= i < |entries|
      ensures longer[i + 1] == entries[i] && longer[i + 1] != e
    {
      assert entries[i].KeyOf() in index;
    }
    forall i, j | 0 <= i < j < |longer|
      ensures longer[i] != longer[j]
    {
      assert longer[j] == entries[j - 1];
    }
  }

  lemma ChainGrows(head: Entry?, entries: seq<Entry>, e: Entry)
    requires Chain(head, entries) && e.next == head
    ensures Chain(e, [e] + entries)
  {
    var longer := [e] + entries;
    assert forall i :: 0 < i < |longer| ==> longer[i] == entries[i - 1];
  }

  lemma IndexGrows(index: map<Key, Entry>, chains: seq<seq<Entry>>, b: nat, e: Entry)
    requires |chains| == HASH_TABLE_SIZE && Indexed(index, chains) && Bucket(e.KeyOf()) == b && e.KeyOf() !in index
    ensures Indexed(index[e.KeyOf() := e], chains[b := [e] + chains[b]])
  {
    hide Bucket;
    var index', chains' := index[e.KeyOf() := e], chains[b := [e] + chains[b]];
    forall k | k in index'
      ensures index'[k].KeyOf() == k && index'[k] in chains'[Bucket(k)]
    {
      if k == e.KeyOf() {
        assert chains'[b][0] == e;
      } else {
        var i :| 0 <= i < |chains[Bucket(k)]| && chains[Bucket(k)][i] == index[k];
        assert Bucket(k) == b ==> chains'[b][i + 1] == index[k];
      }
    }
  }

  class HashTable {
    const buckets: array<Entry?>
    var size: nat

    ghost var chains: seq<seq<Entry>>
    /** The entry of every key. */
    ghost var index: map<Key, Entry>

    /** All entries. */
    ghost function Repr(): set<Entry>
      reads this
    {
      set k | k in index :: index[k]
    }

    /** Each key has one entry, in its own bucket, and `size` counts them. */
    ghost predicate Valid()
      reads this, buckets
    {
      buckets.Length == HASH_TABLE_SIZE == |chains| && size == |index| && Indexed(index, chains)
      && forall b :: 0 <= b < HASH_TABLE_SIZE ==> InBucket(index, chains[b], b) && Chain(buckets[b], chains[b])
    }

    /** The table as a map. */
    ghost function Contents(): Table
      reads this, Repr()
    {
      map k | k in index :: index[k].State()
    }

    /** `mac_table_create` */
    constructor ()
      ensures Valid() && Contents() == map[] && fresh(buckets)
    {
      buckets := new Entry?[HASH_TABLE_SIZE](_ => null);
      size := 0;
      chains := seq(HASH_TABLE_SIZE, _ => []);
      index := map[];
    }

    /** Place i in bucket b, NULL behind the last one. */
    ghost function At(b: nat, i: nat): Entry?
      requires b < |chains|
      reads this
    {
      if i < |chains[b]| then chains[b][i] else null
    }

    lemma HeadOf(b: nat)
      requires Valid() && b < HASH_TABLE_SIZE
      ensures b < |chains| && b < buckets.Length && buckets[b] == At(b, 0)
    {
      hide Indexed, InBucket;
    }

    lemma PlaceOf(b: nat, i: nat)
      requires Valid() && b < HASH_TABLE_SIZE && b < |chains| && At(b, i) != null
      ensures var e := At(b, i); e.KeyOf() in index && index[e.KeyOf()] == e && e in Repr() && e.next == At(b, i + 1)
    {
      hide Indexed, Bucket;
    }

    lemma KeyIsPlaced(key: Key) returns (i: nat)
      requires Valid() && key in index
      ensures Bucket(key) < |chains| && i < |chains[Bucket(key)]|
      ensures At(Bucket(key), i) == index[key] && index[key].KeyOf() == key
    {
      hide InBucket, Chain, Bucket;
      i :| 0 <= i < |chains[Bucket(key)]| && chains[Bucket(key)][i] == index[key];
    }

    /** `mac_table_insert`. An existing entry is refreshed, but its `valid` is left as it is. */
    method Insert(mac: Mac, vlan: bv16, port: int, now: int) returns (ok: bool)
      requires Valid()
      modifies this, buckets, Repr()
      ensures Valid() && ok && fresh(Repr() - old(Repr()))
      ensures Contents() == Learn(old(Contents()), Key(mac, vlan), port, now)
    {
      hide Valid, Bucket, Learn, Contents;
      ghost var key := Key(mac, vlan);
      var b := HashMac(mac, vlan);
      HeadOf(b);
      var entry := buckets[b];
      ghost var i: nat := 0;
      ok := true;
      while entry != null
        invariant b < |chains| && i <= |chains[b]| && entry == At(b, i)
        invariant forall j :: 0 <= j < i ==> chains[b][j].KeyOf() != key
        invariant Valid() && index == old(index) && chains == old(chains) && Contents() == old(Contents())
        decreases |chains[b]| - i
      {
        PlaceOf(b, i);
        if entry.mac == mac && entry.vlan == vlan {
          Refresh(entry, port, now);
          return;
        }
        entry := entry.next;
        i := i + 1;
      }
      if key in index {
        var j := KeyIsPlaced(key);
      }
      AddEntry(mac, vlan, port, now, b);
    }

    lemma KeysDiffer()
      requires Valid()
      ensures forall k :: k in index ==> index[k].KeyOf() == k
    {
    }

    method Refresh(entry: Entry, port: int, now: int)
      requires Valid() && entry in Repr()
      modifies entry`port, entry`lastSeen
      ensures Valid() && Repr() == old(Repr())
      ensures Contents() == Learn(old(Contents()), entry.KeyOf(), port, now)
    {
      hide Valid, Bucket;
      KeysDiffer();
      entry.port := port;
      entry.lastSeen := now;
    }

    /** The new entry goes to the head of its chain. */
    method AddEntry(mac: Mac, vlan: bv16, port: int, now: int, b: nat)
      requires Valid() && b == Bucket(Key(mac, vlan)) && Key(mac, vlan) !in index
      modifies this, buckets
      ensures Valid() && fresh(Repr() - old(Repr()))
      ensures Contents() == Learn(old(Contents()), Key(mac, vlan), port, now)
    {
      hide Bucket, InBucket, Chain, Indexed;
      var entry := new Entry(mac, vlan, port, now, buckets[b]);
      ChainGrows(buckets[b], chains[b], entry);
      IndexGrows(index, chains, b, entry);
      BucketGrows(index, chains[b], b, entry);
      forall c | 0 <= c < HASH_TABLE_SIZE
        ensures InBucket(index[entry.KeyOf() := entry], chains[c], c)
      {
        BucketStays(index, chains[c], c, entry);
      }
      buckets[b] := entry;
      size := size + 1;
      chains := chains[b := [entry] + chains[b]];
      index := index[entry.KeyOf() := entry];
    }

    /** `mac_table_lookup` */
    method Lookup(mac: Mac, vlan: bv16, now: int) returns (port: int)
      requires Valid()
      modifies Repr()
      ensures Valid() && Repr() == old(Repr())
      ensures port == Find(old(Contents()), Key(mac, vlan), now)
      ensures Contents() == Expire(old(Contents()), Key(mac, vlan), now)
    {
      hide Valid, Bucket;
      ghost var key := Key(mac, vlan);
      var b := HashMac(mac, vlan);
      HeadOf(b);
      KeysDiffer();
      var entry := buckets[b];
      ghost var i: nat := 0;
      while entry != null
        invariant b < |chains| && i <= |chains[b]| && entry == At(b, i)
        invariant forall j :: 0 <= j < i ==> chains[b][j].KeyOf() == key ==> !chains[b][j].valid
        invariant Valid() && index == old(index) && chains == old(chains) && Contents() == old(Contents())
        decreases |chains[b]| - i
      {
        PlaceOf(b, i);
        if entry.mac == mac && entry.vlan == vlan && entry.valid {
          if now - entry.lastSeen > ENTRY_TTL {
            Invalidate(entry);
            return -1;
          }
          return entry.port;
        }
        entry := entry.next;
        i := i + 1;
      }
      if key in index {
        var j := KeyIsPlaced(key);
      }
      port := -1;
    }

    method Invalidate(entry: Entry)
      requires Valid() && entry in Repr()
      modifies entry`valid
      ensures Valid() && Repr() == old(Repr())
      ensures Contents() == old(Contents())[entry.KeyOf() := old(Contents())[entry.KeyOf()].(expired := true)]
    {
      hide Valid, Bucket;
      KeysDiffer();
      entry.valid := false;
    }
  }
}
