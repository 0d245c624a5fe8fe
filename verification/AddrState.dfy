/** The address manager (`CAddrMan`) as a value: its tables, what makes them consistent, and the small
    steps all its operations are made of. */
module AddrState {

  const NEW_BUCKETS: nat := 1024
  const TRIED_BUCKETS: nat := 256
  const BUCKET_SIZE: nat := 64
  const TRIED_BUCKETS_PER_GROUP: nat := 8
  const NEW_BUCKETS_PER_SOURCE_GROUP: nat := 64
  const NEW_BUCKETS_PER_ADDRESS: nat := 8

  type NetAddr = nat

  datatype Service = Service(ip: NetAddr, port: nat)

  /** Service flags are a set of bit numbers. */
  datatype Address = Address(service: Service, nTime: nat, nServices: set<nat>)

  datatype AddrInfo = AddrInfo(
    addr: Address,
    source: NetAddr,
    nLastTry: int,
    nLastCountAttempt: int,
    nLastSuccess: int,
    nAttempts: int,
    nRefCount: int,
    fInTried: bool,
    nRandomPos: int)

  datatype Slot = Slot(bucket: nat, pos: nat)

  /** The salted hash, and the two readings of an address that are hashed. Any functions will do. */
  datatype Hasher = Hasher(cheapHash: seq<nat> -> nat, key: Service -> nat, group: NetAddr -> nat)

  function GetTriedBucket(h: Hasher, nKey: nat, s: Service): (b: nat)
    ensures b < TRIED_BUCKETS
  {
    var hash1 := h.cheapHash([nKey, h.key(s)]);
    h.cheapHash([nKey, h.group(s.ip), hash1 % TRIED_BUCKETS_PER_GROUP]) % TRIED_BUCKETS
  }

  function GetNewBucket(h: Hasher, nKey: nat, s: Service, src: NetAddr): (b: nat)
    ensures b < NEW_BUCKETS
  {
    var hash1 := h.cheapHash([nKey, h.group(s.ip), h.group(src)]);
    h.cheapHash([nKey, h.group(src), hash1 % NEW_BUCKETS_PER_SOURCE_GROUP]) % NEW_BUCKETS
  }

  function GetBucketPosition(h: Hasher, nKey: nat, fNew: bool, bucket: nat, s: Service): (p: nat)
    ensures p < BUCKET_SIZE
  {
    h.cheapHash([nKey, if fNew then 'N' as nat else 'K' as nat, bucket, h.key(s)]) % BUCKET_SIZE
  }

  /** Where an address belongs: its one tried slot, and its slot in each new bucket. */
  function TriedSlot(h: Hasher, nKey: nat, s: Service): Slot {
    var b := GetTriedBucket(h, nKey, s);
    Slot(b, GetBucketPosition(h, nKey, false, b, s))
  }

  function NewSlot(h: Hasher, nKey: nat, bucket: nat, s: Service): Slot {
    Slot(bucket, GetBucketPosition(h, nKey, true, bucket, s))
  }

  /** A slot that holds -1 is absent from its table. */
  type Table = map<Slot, int>

  function Held(t: Table, slot: Slot): int
    requires slot in t
  {
    t[slot]
  }

  function IdAt(random: seq<int>, i: nat): int
    requires i < |random|
  {
    random[i]
  }

  function IdOf(byAddr: map<NetAddr, int>, a: NetAddr): int
    requires a in byAddr
  {
    byAddr[a]
  }

  datatype State = State(
    nIdCount: nat,
    info: map<int, AddrInfo>,
    byAddr: map<NetAddr, int>,
    random: seq<int>,
    nTried: int,
    tried: Table,
    nNew: int,
    newTable: Table,
    nLastGood: int,
    nKey: nat)

  // --- Consistency --------------------------------------------------------------------------

  /** The slots of the new table that refer to an entry. */
  function Refs(t: Table, id: int): set<Slot> {
    set slot | slot in t && Held(t, slot) == id
  }

  function TriedIds(info: map<int, AddrInfo>): set<int> {
    set id | id in info && info[id].fInTried
  }

  function NewIds(info: map<int, AddrInfo>): set<int> {
    set id | id in info && !info[id].fInTried
  }

  type Infos = map<int, AddrInfo>

  /** vRandom lists every entry once, and nRandomPos is its inverse. */
  predicate RandomOk(info: Infos, random: seq<int>) {
    && (forall i | 0 <= i < |random| :: IdAt(random, i) in info && info[IdAt(random, i)].nRandomPos == i)
    && (forall id <- info :: 0 <= info[id].nRandomPos < |random| && IdAt(random, info[id].nRandomPos) == id)
  }

  /** mapAddr is exactly the inverse of the addresses in mapInfo, and ids are below the counter. */
  predicate AddrOk(info: Infos, byAddr: map<NetAddr, int>, nIdCount: nat) {
    && (forall id <- info :: 0 <= id < nIdCount)
    && (forall id <- info :: info[id].addr.service.ip in byAddr && IdOf(byAddr, info[id].addr.service.ip) == id)
    && (forall a <- byAddr :: IdOf(byAddr, a) in info && info[IdOf(byAddr, a)].addr.service.ip == a)
  }

  /** The tried table holds exactly the tried entries, each in its slot. */
  predicate TriedOk(h: Hasher, nKey: nat, info: Infos, tried: Table) {
    && (forall slot <- tried ::
          && Held(tried, slot) in info && info[Held(tried, slot)].fInTried
          && slot == TriedSlot(h, nKey, info[Held(tried, slot)].addr.service))
    && (forall id <- info :: info[id].fInTried ==>
          && TriedSlot(h, nKey, info[id].addr.service) in tried
          && Held(tried, TriedSlot(h, nKey, info[id].addr.service)) == id)
  }

  /** The new table holds new entries only, each at its position in the bucket. */
  predicate NewOk(h: Hasher, nKey: nat, info: Infos, newTable: Table) {
    forall slot <- newTable ::
      && Held(newTable, slot) in info && !info[Held(newTable, slot)].fInTried
      && slot.bucket < NEW_BUCKETS
      && slot == NewSlot(h, nKey, slot.bucket, info[Held(newTable, slot)].addr.service)
  }

  /** Reference counts count table slots; they are positive except for entries in `floating`. */
  predicate RefsOk(info: Infos, newTable: Table, floating: set<int>) {
    && (forall id <- floating :: id in info && !info[id].fInTried && info[id].nRefCount == 0)
    && (forall id <- info ::
          && info[id].nRefCount == |Refs(newTable, id)|
          && info[id].nRefCount <= NEW_BUCKETS_PER_ADDRESS
          && (!info[id].fInTried && id !in floating ==> info[id].nRefCount >= 1))
  }

  predicate TimesOk(info: Infos) {
    forall id <- info ::
      && info[id].nLastTry >= 0 && info[id].nLastSuccess >= 0
      && (info[id].fInTried ==> info[id].nLastSuccess != 0)
  }

  predicate CountsOk(info: Infos, nTried: int, nNew: int, floating: set<int>, extra: int) {
    && nTried == |TriedIds(info)|
    && nNew == |NewIds(info) - floating| + extra
  }

  /** Consistency with some entries under way: those in `floating` are in neither table, and nNew
      counts `extra` of them. */
  predicate Inv(h: Hasher, s: State, floating: set<int>, extra: int) {
    && RandomOk(s.info, s.random)
    && AddrOk(s.info, s.byAddr, s.nIdCount)
    && TriedOk(h, s.nKey, s.info, s.tried)
    && NewOk(h, s.nKey, s.info, s.newTable)
    && RefsOk(s.info, s.newTable, floating)
    && TimesOk(s.info)
    && CountsOk(s.info, s.nTried, s.nNew, floating, extra)
    && s.nKey != 0
  }

  /** What Check_ checks, and that the address map is exact and ids are below the counter. */
  predicate Consistent(h: Hasher, s: State) {
    Inv(h, s, {}, 0)
  }

  // --- Steps that leave the tables alone ----------------------------------------------------

  predicate AlikeEntry(a: AddrInfo, b: AddrInfo) {
    a.addr.service == b.addr.service && a.nRefCount == b.nRefCount && a.fInTried == b.fInTried
  }

  /** The same entries in the same places, as far as the tables can tell. */
  predicate Alike(a: Infos, b: Infos) {
    && (forall id <- b :: id in a)
    && (forall id <- a :: id in b && AlikeEntry(a[id], b[id]))
  }

  lemma AlikeAddr(a: Infos, b: Infos, byAddr: map<NetAddr, int>, nIdCount: nat)
    requires Alike(a, b) && AddrOk(a, byAddr, nIdCount)
    ensures AddrOk(b, byAddr, nIdCount)
  {
  }

  lemma AlikeTables(h: Hasher, nKey: nat, a: Infos, b: Infos, tried: Table, newTable: Table, floating: set<int>)
    requires Alike(a, b) && TriedOk(h, nKey, a, tried) && NewOk(h, nKey, a, newTable) && RefsOk(a, newTable, floating)
    ensures TriedOk(h, nKey, b, tried) && NewOk(h, nKey, b, newTable) && RefsOk(b, newTable, floating)
    ensures TriedIds(a) == TriedIds(b) && NewIds(a) == NewIds(b)
  {
    forall id: int
      ensures id in TriedIds(a) <==> id in TriedIds(b)
      ensures id in NewIds(a) <==> id in NewIds(b)
    {
      if id in a {
        assert AlikeEntry(a[id], b[id]);
      }
    }
  }

  /** An entry changes in what the tables do not depend on. */
  function Touched(s: State, id: int, i: AddrInfo): State {
    s.(info := s.info[id := i])
  }

  lemma TouchKeepsInv(h: Hasher, s: State, id: int, i: AddrInfo, floating: set<int>, extra: int)
    requires Inv(h, s, floating, extra) && id in s.info && Alike(s.info, s.info[id := i])
    requires i.nRandomPos == s.info[id].nRandomPos
    requires i.nLastTry >= 0 && i.nLastSuccess >= 0 && (i.fInTried ==> i.nLastSuccess != 0)
    ensures Inv(h, Touched(s, id, i), floating, extra)
  {
    AlikeAddr(s.info, s.info[id := i], s.byAddr, s.nIdCount);
    AlikeTables(h, s.nKey, s.info, s.info[id := i], s.tried, s.newTable, floating);
  }

  /** Two entries trade places in vRandom. */
  function Swapped(s: State, i: nat, j: nat): State
    requires i < |s.random| && j < |s.random|
  {
    if i == j || IdAt(s.random, i) !in s.info || IdAt(s.random, j) !in s.info then s
    else
      var a, b := IdAt(s.random, i), IdAt(s.random, j);
      var info1 := s.info[a := s.info[a].(nRandomPos := j)];
      s.(info := info1[b := info1[b].(nRandomPos := i)], random := s.random[i := b][j := a])
  }

  lemma SwapKeepsInv(h: Hasher, s: State, i: nat, j: nat, floating: set<int>, extra: int)
    requires Inv(h, s, floating, extra) && i < |s.random| && j < |s.random|
    ensures Inv(h, Swapped(s, i, j), floating, extra)
  {
    var t := Swapped(s, i, j);
    SwapRandomOk(s, i, j);
    AlikeAddr(s.info, t.info, s.byAddr, s.nIdCount);
    AlikeTables(h, s.nKey, s.info, t.info, s.tried, s.newTable, floating);
  }

  lemma SwapRandomOk(s: State, i: nat, j: nat)
    requires RandomOk(s.info, s.random) && i < |s.random| && j < |s.random|
    ensures RandomOk(Swapped(s, i, j).info, Swapped(s, i, j).random)
    ensures Alike(s.info, Swapped(s, i, j).info) && (TimesOk(s.info) ==> TimesOk(Swapped(s, i, j).info))
  {
    var t := Swapped(s, i, j);
    forall k | 0 <= k < |t.random|
      ensures IdAt(t.random, k) in t.info && t.info[IdAt(t.random, k)].nRandomPos == k
    {
      SwappedAt(s, i, j, k);
    }
    forall id | id in t.info
      ensures 0 <= t.info[id].nRandomPos < |t.random| && IdAt(t.random, t.info[id].nRandomPos) == id
    {
      SwappedAt(s, i, j, s.info[id].nRandomPos);
      SwappedAt(s, i, j, i);
      SwappedAt(s, i, j, j);
    }
  }

  lemma SwappedAt(s: State, i: nat, j: nat, k: nat)
    requires RandomOk(s.info, s.random) && i < |s.random| && j < |s.random| && k < |s.random|
    ensures var t := Swapped(s, i, j);
            var from := if k == i then j else if k == j then i else k;
            && |t.random| == |s.random| && IdAt(t.random, k) == IdAt(s.random, from)
            && IdAt(s.random, from) in s.info && IdAt(t.random, k) in t.info
            && t.info[IdAt(t.random, k)] == s.info[IdAt(s.random, from)].(nRandomPos := k)
  {
  }

  // --- Entries come and go ------------------------------------------------------------------

  /** A new entry, in no table yet. */
  function Created(s: State, addr: Address, source: NetAddr): State {
    s.(nIdCount := s.nIdCount + 1,
       info := s.info[s.nIdCount := AddrInfo(addr, source, 0, 0, 0, 0, 0, false, |s.random|)],
       byAddr := s.byAddr[addr.service.ip := s.nIdCount],
       random := s.random + [s.nIdCount])
  }

  lemma CreateKeepsInv(h: Hasher, s: State, addr: Address, source: NetAddr, floating: set<int>, extra: int)
    requires Inv(h, s, floating, extra) && addr.service.ip !in s.byAddr
    ensures Inv(h, Created(s, addr, source), floating + {s.nIdCount}, extra)
  {
    hide RandomOk, AddrOk, TriedOk, NewOk, RefsOk, TimesOk, TriedIds, NewIds;
    CreateAddrOk(s, addr, source);
    CreateTables(h, s, addr, source, floating);
    CreateCounts(s, addr, source, floating);
  }

  lemma CreateCounts(s: State, addr: Address, source: NetAddr, floating: set<int>)
    requires AddrOk(s.info, s.byAddr, s.nIdCount) && TimesOk(s.info)
    ensures var t := Created(s, addr, source);
            && TriedIds(t.info) == TriedIds(s.info) && TimesOk(t.info)
            && NewIds(t.info) - (floating + {s.nIdCount}) == NewIds(s.info) - floating
  {
  }

  lemma CreateAddrOk(s: State, addr: Address, source: NetAddr)
    requires AddrOk(s.info, s.byAddr, s.nIdCount) && addr.service.ip !in s.byAddr && RandomOk(s.info, s.random)
    ensures var t := Created(s, addr, source); AddrOk(t.info, t.byAddr, t.nIdCount) && RandomOk(t.info, t.random)
  {
    var t := Created(s, addr, source);
    assert forall i | 0 <= i < |s.random| :: IdAt(t.random, i) == IdAt(s.random, i);
  }

  lemma CreateTables(h: Hasher, s: State, addr: Address, source: NetAddr, floating: set<int>)
    requires AddrOk(s.info, s.byAddr, s.nIdCount) && TriedOk(h, s.nKey, s.info, s.tried)
    requires NewOk(h, s.nKey, s.info, s.newTable) && RefsOk(s.info, s.newTable, floating)
    ensures var t := Created(s, addr, source);
            && TriedOk(h, t.nKey, t.info, t.tried) && NewOk(h, t.nKey, t.info, t.newTable)
            && RefsOk(t.info, t.newTable, floating + {s.nIdCount})
  {
    hide TriedSlot, NewSlot;
    assert Refs(s.newTable, s.nIdCount) == {};
  }

  /** An entry in no table, last in vRandom, is forgotten. */
  function Dropped(s: State, id: int): State
    requires id in s.info && |s.random| > 0
  {
    s.(info := s.info - {id}, byAddr := s.byAddr - {s.info[id].addr.service.ip},
       random := s.random[..|s.random| - 1], nNew := s.nNew - 1)
  }

  lemma DropKeepsInv(h: Hasher, s: State, id: int, floating: set<int>, extra: int)
    requires Inv(h, s, floating, extra) && id in floating && s.info[id].nRandomPos == |s.random| - 1
    ensures Inv(h, Dropped(s, id), floating - {id}, extra - 1)
  {
    var t := Dropped(s, id);
    DropAddrOk(s, id);
    DropTables(h, s, id, floating);
    assert TriedIds(t.info) == TriedIds(s.info);
    assert NewIds(t.info) - (floating - {id}) == NewIds(s.info) - floating;
  }

  lemma DropAddrOk(s: State, id: int)
    requires AddrOk(s.info, s.byAddr, s.nIdCount) && RandomOk(s.info, s.random)
    requires id in s.info && s.info[id].nRandomPos == |s.random| - 1
    ensures var t := Dropped(s, id); AddrOk(t.info, t.byAddr, t.nIdCount) && RandomOk(t.info, t.random)
  {
    var t := Dropped(s, id);
    assert forall i | 0 <= i < |t.random| :: IdAt(t.random, i) == IdAt(s.random, i);
  }

  lemma Unreferenced(info: Infos, newTable: Table, floating: set<int>, id: int)
    requires RefsOk(info, newTable, floating) && id in floating
    ensures forall slot <- newTable :: Held(newTable, slot) != id
  {
    forall slot | slot in newTable
      ensures Held(newTable, slot) != id
    {
      assert Held(newTable, slot) == id ==> slot in Refs(newTable, id);
    }
  }

  lemma DropTables(h: Hasher, s: State, id: int, floating: set<int>)
    requires TriedOk(h, s.nKey, s.info, s.tried) && NewOk(h, s.nKey, s.info, s.newTable)
    requires RefsOk(s.info, s.newTable, floating) && id in floating && |s.random| > 0
    ensures var t := Dropped(s, id);
            && TriedOk(h, t.nKey, t.info, t.tried) && NewOk(h, t.nKey, t.info, t.newTable)
            && RefsOk(t.info, t.newTable, floating - {id})
  {
    Unreferenced(s.info, s.newTable, floating, id);
  }

  /** Delete swaps the entry to the end of vRandom first. */
  function Deleted(s: State, id: int): State
    requires RandomOk(s.info, s.random) && id in s.info
  {
    Dropped(Swapped(s, s.info[id].nRandomPos, |s.random| - 1), id)
  }

  lemma DeleteKeepsInv(h: Hasher, s: State, id: int, floating: set<int>, extra: int)
    requires Inv(h, s, floating, extra) && id in floating
    ensures Inv(h, Deleted(s, id), floating - {id}, extra - 1)
  {
    hide AddrOk, TriedOk, NewOk, TimesOk, CountsOk, Dropped;
    var i, j := s.info[id].nRandomPos, |s.random| - 1;
    SwapKeepsInv(h, s, i, j, floating, extra);
    SwappedLast(s, id);
    hide Swapped, RandomOk, RefsOk;
    DropKeepsInv(h, Swapped(s, i, j), id, floating, extra);
  }

  /** Deleting keeps vRandom and nRandomPos mutual inverses, and touches nothing else of other entries. */
  lemma DeleteRandomOk(s: State, id: int)
    requires RandomOk(s.info, s.random) && id in s.info
    ensures RandomOk(Deleted(s, id).info, Deleted(s, id).random)
    ensures forall x :: x in Deleted(s, id).info <==> x in s.info && x != id
    ensures Deleted(s, id).nIdCount == s.nIdCount
  {
    hide Swapped, Dropped;
    var i, j := s.info[id].nRandomPos, |s.random| - 1;
    SwapRandomOk(s, i, j);
    SwappedLast(s, id);
    DropRandomOk(Swapped(s, i, j), id);
  }

  lemma DropRandomOk(s: State, id: int)
    requires RandomOk(s.info, s.random) && id in s.info && s.info[id].nRandomPos == |s.random| - 1
    ensures RandomOk(Dropped(s, id).info, Dropped(s, id).random)
    ensures forall x :: x in Dropped(s, id).info <==> x in s.info && x != id
    ensures Dropped(s, id).nIdCount == s.nIdCount
  {
    var t := Dropped(s, id);
    assert forall k | 0 <= k < |t.random| :: IdAt(t.random, k) == IdAt(s.random, k);
  }

  lemma SwappedLast(s: State, id: int)
    requires RandomOk(s.info, s.random) && id in s.info
    ensures var t := Swapped(s, s.info[id].nRandomPos, |s.random| - 1);
            && |t.random| == |s.random| && id in t.info && t.info[id].nRandomPos == |t.random| - 1
            && t.info.Keys == s.info.Keys && t.nIdCount == s.nIdCount
  {
  }

  // --- Entries move between the tables ------------------------------------------------------

  /** An entry gets another reference count. */
  function Recounted(info: Infos, id: int, n: int): Infos
    requires id in info
  {
    info[id := info[id].(nRefCount := n)]
  }

  lemma RecountPlaces(info: Infos, random: seq<int>, byAddr: map<NetAddr, int>, nIdCount: nat, id: int, n: int)
    requires RandomOk(info, random) && AddrOk(info, byAddr, nIdCount) && TimesOk(info) && id in info
    ensures RandomOk(Recounted(info, id, n), random) && AddrOk(Recounted(info, id, n), byAddr, nIdCount)
    ensures TimesOk(Recounted(info, id, n))
  {
  }

  lemma RecountTables(h: Hasher, nKey: nat, info: Infos, tried: Table, newTable: Table, id: int, n: int)
    requires TriedOk(h, nKey, info, tried) && NewOk(h, nKey, info, newTable) && id in info
    ensures TriedOk(h, nKey, Recounted(info, id, n), tried) && NewOk(h, nKey, Recounted(info, id, n), newTable)
    ensures TriedIds(Recounted(info, id, n)) == TriedIds(info) && NewIds(Recounted(info, id, n)) == NewIds(info)
  {
  }

  lemma RecountFrames(h: Hasher, s: State, id: int, n: int, floating: set<int>, extra: int)
    requires Inv(h, s, floating, extra) && id in s.info
    ensures var info := Recounted(s.info, id, n);
            && RandomOk(info, s.random) && AddrOk(info, s.byAddr, s.nIdCount) && TimesOk(info)
            && TriedOk(h, s.nKey, info, s.tried) && NewOk(h, s.nKey, info, s.newTable)
            && CountsOk(info, s.nTried, s.nNew, floating, extra)
  {
    hide RandomOk, AddrOk, TriedOk, NewOk, RefsOk, TimesOk;
    RecountPlaces(s.info, s.random, s.byAddr, s.nIdCount, id, n);
    RecountTables(h, s.nKey, s.info, s.tried, s.newTable, id, n);
  }

  /** A slot of the new table is cleared. */
  function Unlinked(s: State, slot: Slot): State
    requires slot in s.newTable && Held(s.newTable, slot) in s.info
  {
    var id := Held(s.newTable, slot);
    s.(info := Recounted(s.info, id, s.info[id].nRefCount - 1), newTable := s.newTable - {slot})
  }

  lemma RefsWithout(t: Table, slot: Slot, id: int)
    requires slot in t
    ensures |Refs(t - {slot}, id)| == |Refs(t, id)| - if Held(t, slot) == id then 1 else 0
  {
    if Held(t, slot) == id {
      assert Refs(t - {slot}, id) == Refs(t, id) - {slot} && slot in Refs(t, id);
    } else {
      assert Refs(t - {slot}, id) == Refs(t, id);
    }
  }

  /** The floating entries after one reference of `id` is gone. */
  function FloatAfterUnlink(s: State, slot: Slot, floating: set<int>): set<int>
    requires slot in s.newTable && Held(s.newTable, slot) in s.info
  {
    var id := Held(s.newTable, slot);
    if s.info[id].nRefCount == 1 then floating + {id} else floating
  }

  lemma UnlinkRefsOk(info: Infos, newTable: Table, slot: Slot, floating: set<int>)
    requires RefsOk(info, newTable, floating) && slot in newTable && Held(newTable, slot) in info
    requires !info[Held(newTable, slot)].fInTried
    ensures var id := Held(newTable, slot);
            && id !in floating
            && RefsOk(Recounted(info, id, info[id].nRefCount - 1), newTable - {slot},
                      if info[id].nRefCount == 1 then floating + {id} else floating)
  {
    var id := Held(newTable, slot);
    forall i | i in info
      ensures |Refs(newTable - {slot}, i)| == |Refs(newTable, i)| - if i == id then 1 else 0
    {
      RefsWithout(newTable, slot, i);
    }
    if id in floating {
      Unreferenced(info, newTable, floating, id);
    }
  }

  lemma CountsFloat(info: Infos, nTried: int, nNew: int, floating: set<int>, extra: int, id: int)
    requires id in info && !info[id].fInTried && id !in floating
    ensures CountsOk(info, nTried, nNew, floating, extra) <==> CountsOk(info, nTried, nNew, floating + {id}, extra + 1)
  {
    assert NewIds(info) - (floating + {id}) == (NewIds(info) - floating) - {id};
    assert id in NewIds(info) - floating;
  }

  lemma UnlinkNewOk(h: Hasher, nKey: nat, info: Infos, newTable: Table, slot: Slot)
    requires NewOk(h, nKey, info, newTable)
    ensures NewOk(h, nKey, info, newTable - {slot})
  {
    assert forall k <- newTable - {slot} :: k in newTable && Held(newTable - {slot}, k) == Held(newTable, k);
  }

  lemma NewEntry(h: Hasher, nKey: nat, info: Infos, newTable: Table, slot: Slot)
    requires NewOk(h, nKey, info, newTable) && slot in newTable
    ensures Held(newTable, slot) in info && !info[Held(newTable, slot)].fInTried
  {
  }

  lemma UnlinkKeepsInv(h: Hasher, s: State, slot: Slot, floating: set<int>, extra: int)
    requires Inv(h, s, floating, extra) && slot in s.newTable
    ensures Held(s.newTable, slot) in s.info && Held(s.newTable, slot) !in floating
    ensures Inv(h, Unlinked(s, slot), FloatAfterUnlink(s, slot, floating),
                if s.info[Held(s.newTable, slot)].nRefCount == 1 then extra + 1 else extra)
  {
    hide RandomOk, AddrOk, TriedOk, NewOk, RefsOk, TimesOk, CountsOk;
    var id := Held(s.newTable, slot);
    NewEntry(h, s.nKey, s.info, s.newTable, slot);
    var info := Recounted(s.info, id, s.info[id].nRefCount - 1);
    RecountFrames(h, s, id, s.info[id].nRefCount - 1, floating, extra);
    UnlinkNewOk(h, s.nKey, info, s.newTable, slot);
    UnlinkRefsOk(s.info, s.newTable, slot, floating);
    CountsFloat(info, s.nTried, s.nNew, floating, extra, id);
  }

  /** ClearNew: the slot becomes free, and an entry that loses its last reference is deleted. */
  function ClearedNew(s: State, slot: Slot): State
    requires RandomOk(s.info, s.random)
    requires slot in s.newTable ==> Held(s.newTable, slot) in s.info
  {
    if slot !in s.newTable then s
    else
      var u, id := Unlinked(s, slot), Held(s.newTable, slot);
      if u.info[id].nRefCount == 0 then
        RecountRandom(s.info, s.random, id, 0);
        Deleted(u, id)
      else u
  }

  lemma RecountRandom(info: Infos, random: seq<int>, id: int, n: int)
    requires RandomOk(info, random) && id in info
    ensures RandomOk(Recounted(info, id, n), random)
  {
  }

  /** ClearNew may be called in any consistent state, and its assert holds. */
  lemma ClearNewReady(h: Hasher, s: State, slot: Slot, floating: set<int>, extra: int)
    requires Inv(h, s, floating, extra)
    ensures RandomOk(s.info, s.random)
    ensures slot in s.newTable ==>
              && Held(s.newTable, slot) in s.info && !s.info[Held(s.newTable, slot)].fInTried
              && s.info[Held(s.newTable, slot)].nRefCount > 0
  {
    hide RandomOk, AddrOk, TriedOk, TimesOk, CountsOk;
    if slot in s.newTable && Held(s.newTable, slot) in floating {
      Unreferenced(s.info, s.newTable, floating, Held(s.newTable, slot));
    }
  }

  lemma ClearNewKeepsInv(h: Hasher, s: State, slot: Slot, floating: set<int>, extra: int)
    requires Inv(h, s, floating, extra)
    ensures slot in s.newTable ==> Held(s.newTable, slot) in s.info
    ensures Inv(h, ClearedNew(s, slot), floating, extra)
  {
    hide RandomOk, AddrOk, TriedOk, NewOk, RefsOk, TimesOk, CountsOk, Deleted;
    if slot in s.newTable {
      var id := Held(s.newTable, slot);
      UnlinkKeepsInv(h, s, slot, floating, extra);
      if s.info[id].nRefCount == 1 {
        DeleteKeepsInv(h, Unlinked(s, slot), id, floating + {id}, extra + 1);
        assert floating + {id} - {id} == floating;
      }
    }
  }

  /** Everything but the order of vRandom stays as it is, for every other entry. */
  predicate Untouched(a: State, b: State, id: int) {
    id in a.info ==> id in b.info && b.info[id] == a.info[id].(nRandomPos := b.info[id].nRandomPos)
  }

  lemma ClearNewFrames(h: Hasher, s: State, slot: Slot, floating: set<int>, extra: int)
    requires Inv(h, s, floating, extra)
    ensures slot in s.newTable ==> Held(s.newTable, slot) in s.info
    ensures var t := ClearedNew(s, slot);
            && t.newTable == s.newTable - {slot} && t.tried == s.tried && t.nKey == s.nKey
            && t.nIdCount == s.nIdCount && t.nTried == s.nTried && t.nLastGood == s.nLastGood
            && (forall id :: (slot in s.newTable ==> id != Held(s.newTable, slot)) ==> Untouched(s, t, id))
            && (forall id <- floating :: Untouched(s, t, id))
  {
    hide AddrOk, TriedOk, NewOk, TimesOk, CountsOk, RefsOk;
    if slot in s.newTable {
      UnlinkKeepsInv(h, s, slot, floating, extra);
      RecountRandom(s.info, s.random, Held(s.newTable, slot), 0);
    }
  }

  /** Only the owner of the slot can go, and only with its last reference. */
  lemma ClearNewOwner(h: Hasher, s: State, slot: Slot, floating: set<int>, extra: int)
    requires Inv(h, s, floating, extra) && slot in s.newTable
    ensures var id, t := Held(s.newTable, slot), ClearedNew(s, slot);
            && id in s.info && s.info[id].nRefCount >= 1
            && (forall x :: x in t.info <==> x in s.info && (x != id || s.info[id].nRefCount > 1))
            && (s.info[id].nRefCount > 1 ==> t.info[id] == s.info[id].(nRefCount := s.info[id].nRefCount - 1))
  {
    hide AddrOk, TriedOk, NewOk, TimesOk, CountsOk, RefsOk, Deleted;
    ClearNewReady(h, s, slot, floating, extra);
    var id := Held(s.newTable, slot);
    RecountRandom(s.info, s.random, id, 0);
    if s.info[id].nRefCount == 1 {
      DeleteRandomOk(Unlinked(s, slot), id);
    }
  }

  /** A free slot of the new table is given to an entry. */
  function Linked(s: State, slot: Slot, id: int): State
    requires id in s.info
  {
    s.(info := Recounted(s.info, id, s.info[id].nRefCount + 1), newTable := s.newTable[slot := id])
  }

  lemma RefsWith(t: Table, slot: Slot, id: int, i: int)
    requires slot !in t
    ensures |Refs(t[slot := id], i)| == |Refs(t, i)| + if i == id then 1 else 0
  {
    var u := t[slot := id];
    assert forall k <- t :: Held(u, k) == Held(t, k);
    if i == id {
      assert Refs(u, i) == Refs(t, i) + {slot};
    } else {
      assert Refs(u, i) == Refs(t, i);
    }
  }

  lemma LinkTables(h: Hasher, nKey: nat, info: Infos, newTable: Table, slot: Slot, id: int, floating: set<int>)
    requires NewOk(h, nKey, info, newTable) && RefsOk(info, newTable, floating)
    requires id in info && !info[id].fInTried && info[id].nRefCount < NEW_BUCKETS_PER_ADDRESS
    requires slot !in newTable && slot.bucket < NEW_BUCKETS
    requires slot == NewSlot(h, nKey, slot.bucket, info[id].addr.service)
    ensures NewOk(h, nKey, info, newTable[slot := id])
    ensures RefsOk(Recounted(info, id, info[id].nRefCount + 1), newTable[slot := id], floating - {id})
  {
    var u := newTable[slot := id];
    assert forall k <- newTable :: Held(u, k) == Held(newTable, k);
    assert Held(u, slot) == id;
    forall i | i in info
      ensures |Refs(u, i)| == |Refs(newTable, i)| + if i == id then 1 else 0
    {
      RefsWith(newTable, slot, id, i);
    }
  }

  lemma LinkKeepsInv(h: Hasher, s: State, slot: Slot, id: int, floating: set<int>, extra: int)
    requires Inv(h, s, floating, extra)
    requires id in s.info && !s.info[id].fInTried && s.info[id].nRefCount < NEW_BUCKETS_PER_ADDRESS
    requires slot !in s.newTable && slot.bucket < NEW_BUCKETS
    requires slot == NewSlot(h, s.nKey, slot.bucket, s.info[id].addr.service)
    ensures Inv(h, Linked(s, slot, id), floating - {id}, if id in floating then extra - 1 else extra)
  {
    hide RandomOk, AddrOk, TriedOk, NewOk, RefsOk, TimesOk, CountsOk;
    var n := s.info[id].nRefCount + 1;
    RecountFrames(h, s, id, n, floating, extra);
    LinkTables(h, s.nKey, s.info, s.newTable, slot, id, floating);
    RecountTables(h, s.nKey, s.info, s.tried, s.newTable[slot := id], id, n);
    if id in floating {
      CountsFloat(Recounted(s.info, id, n), s.nTried, s.nNew, floating - {id}, extra - 1, id);
      assert floating - {id} + {id} == floating;
    } else {
      assert floating - {id} == floating;
    }
  }

  /** An entry leaves all its new buckets, and the count of new entries. */
  function Detached(s: State, id: int): State
    requires id in s.info
  {
    s.(info := Recounted(s.info, id, 0), newTable := s.newTable - Refs(s.newTable, id), nNew := s.nNew - 1)
  }

  lemma DetachTables(h: Hasher, nKey: nat, info: Infos, newTable: Table, id: int, floating: set<int>)
    requires NewOk(h, nKey, info, newTable) && RefsOk(info, newTable, floating)
    requires id in info && !info[id].fInTried && id !in floating
    ensures NewOk(h, nKey, info, newTable - Refs(newTable, id))
    ensures RefsOk(Recounted(info, id, 0), newTable - Refs(newTable, id), floating + {id})
  {
    var u := newTable - Refs(newTable, id);
    assert forall k <- u :: k in newTable && Held(u, k) == Held(newTable, k);
    forall i | i in info
      ensures i != id ==> Refs(u, i) == Refs(newTable, i)
      ensures Refs(u, id) == {}
    {
    }
  }

  lemma DetachKeepsInv(h: Hasher, s: State, id: int, floating: set<int>, extra: int)
    requires Inv(h, s, floating, extra) && id in s.info && !s.info[id].fInTried && id !in floating
    ensures Inv(h, Detached(s, id), floating + {id}, extra)
  {
    hide RandomOk, AddrOk, TriedOk, NewOk, RefsOk, TimesOk;
    RecountFrames(h, s, id, 0, floating, extra);
    DetachTables(h, s.nKey, s.info, s.newTable, id, floating);
    RecountTables(h, s.nKey, s.info, s.tried, s.newTable - Refs(s.newTable, id), id, 0);
    CountsFloat(Recounted(s.info, id, 0), s.nTried, s.nNew, floating, extra, id);
  }

  /** An entry gets another fInTried flag. */
  function Flagged(info: Infos, id: int, fInTried: bool): Infos
    requires id in info
  {
    info[id := info[id].(fInTried := fInTried)]
  }

  /** An entry leaves the tried table for neither table. */
  function Evicted(h: Hasher, s: State, id: int): State
    requires id in s.info
  {
    s.(info := Flagged(s.info, id, false), nTried := s.nTried - 1,
       tried := s.tried - {TriedSlot(h, s.nKey, s.info[id].addr.service)})
  }

  lemma FlagPlaces(info: Infos, random: seq<int>, byAddr: map<NetAddr, int>, nIdCount: nat, id: int, fInTried: bool)
    requires RandomOk(info, random) && AddrOk(info, byAddr, nIdCount) && TimesOk(info) && id in info
    requires fInTried ==> info[id].nLastSuccess != 0
    ensures var b := Flagged(info, id, fInTried); RandomOk(b, random) && AddrOk(b, byAddr, nIdCount) && TimesOk(b)
  {
  }

  lemma EvictTables(h: Hasher, nKey: nat, info: Infos, tried: Table, newTable: Table, id: int, floating: set<int>)
    requires TriedOk(h, nKey, info, tried) && NewOk(h, nKey, info, newTable) && RefsOk(info, newTable, floating)
    requires id in info && info[id].fInTried
    ensures TriedOk(h, nKey, Flagged(info, id, false), tried - {TriedSlot(h, nKey, info[id].addr.service)})
    ensures NewOk(h, nKey, Flagged(info, id, false), newTable) && id !in floating
    ensures RefsOk(Flagged(info, id, false), newTable, floating + {id})
  {
    hide TriedSlot, NewSlot;
    var slot := TriedSlot(h, nKey, info[id].addr.service);
    var u := tried - {slot};
    assert forall k <- u :: k in tried && Held(u, k) == Held(tried, k);
    assert forall k <- tried :: k != slot ==> k in u;
    assert Refs(newTable, id) == {};
  }

  lemma EvictKeepsInv(h: Hasher, s: State, id: int, floating: set<int>, extra: int)
    requires Inv(h, s, floating, extra) && id in s.info && s.info[id].fInTried
    ensures Inv(h, Evicted(h, s, id), floating + {id}, extra) && id !in floating
  {
    hide RandomOk, AddrOk, TriedOk, NewOk, RefsOk, TimesOk;
    FlagPlaces(s.info, s.random, s.byAddr, s.nIdCount, id, false);
    EvictTables(h, s.nKey, s.info, s.tried, s.newTable, id, floating);
    var info := Flagged(s.info, id, false);
    assert TriedIds(info) == TriedIds(s.info) - {id} && id in TriedIds(s.info);
    assert NewIds(info) - (floating + {id}) == NewIds(s.info) - floating;
  }

  /** An entry in neither table enters the tried table. */
  function Promoted(h: Hasher, s: State, id: int): State
    requires id in s.info
  {
    s.(info := Flagged(s.info, id, true), nTried := s.nTried + 1,
       tried := s.tried[TriedSlot(h, s.nKey, s.info[id].addr.service) := id])
  }

  lemma PromoteTables(h: Hasher, nKey: nat, info: Infos, tried: Table, newTable: Table, id: int, floating: set<int>)
    requires TriedOk(h, nKey, info, tried) && NewOk(h, nKey, info, newTable) && RefsOk(info, newTable, floating)
    requires id in floating && TriedSlot(h, nKey, info[id].addr.service) !in tried
    ensures TriedOk(h, nKey, Flagged(info, id, true), tried[TriedSlot(h, nKey, info[id].addr.service) := id])
    ensures NewOk(h, nKey, Flagged(info, id, true), newTable)
    ensures RefsOk(Flagged(info, id, true), newTable, floating - {id})
  {
    hide TriedSlot, NewSlot;
    var slot := TriedSlot(h, nKey, info[id].addr.service);
    var u := tried[slot := id];
    assert forall k <- tried :: k in u && Held(u, k) == Held(tried, k);
    assert Held(u, slot) == id;
    Unreferenced(info, newTable, floating, id);
  }

  lemma PromoteKeepsInv(h: Hasher, s: State, id: int, floating: set<int>, extra: int)
    requires Inv(h, s, floating, extra) && id in floating
    requires id in s.info && s.info[id].nLastSuccess != 0 && !s.info[id].fInTried
    requires TriedSlot(h, s.nKey, s.info[id].addr.service) !in s.tried
    ensures Inv(h, Promoted(h, s, id), floating - {id}, extra)
  {
    hide RandomOk, AddrOk, TriedOk, NewOk, RefsOk, TimesOk;
    FlagPlaces(s.info, s.random, s.byAddr, s.nIdCount, id, true);
    PromoteTables(h, s.nKey, s.info, s.tried, s.newTable, id, floating);
    var info := Flagged(s.info, id, true);
    assert TriedIds(info) == TriedIds(s.info) + {id} && id !in TriedIds(s.info);
    assert NewIds(info) - (floating - {id}) == NewIds(s.info) - floating;
  }
}
