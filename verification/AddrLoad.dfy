/** Loading an address manager from any well-formed file, whatever its version and bucket count: the result
    is consistent, and which entries are lost. */
module AddrLoad {
  import opened AddrState
  import opened AddrOps
  import opened AddrHistory
  import opened AddrWire

  // --- Well-formed files --------------------------------------------------------------------

  predicate Sized(w: Wire) {
    w.nNew <= |w.newEntries| && w.nTried <= |w.triedEntries|
  }

  /** The k-th entry on the wire, new ones first. */
  function EntryAt(w: Wire, k: nat): Saved
    requires Sized(w) && k < w.nNew + w.nTried
  {
    if k < w.nNew then w.newEntries[k] else w.triedEntries[k - w.nNew]
  }

  /** What any program that keeps its tables consistent writes: a key, no address twice, and tried entries
      with a success. */
  ghost predicate WellFormed(w: Wire) {
    Sized(w) && Proper(w)
  }

  ghost predicate Proper(w: Wire)
    requires Sized(w)
  {
    && w.nKey != 0
    && (forall j: nat, k: nat | j < k < w.nNew + w.nTried ::
          EntryAt(w, j).addr.service.ip != EntryAt(w, k).addr.service.ip)
    && (forall k: nat | k < w.nNew + w.nTried ::
          EntryAt(w, k).nLastSuccess >= 0 && (k >= w.nNew ==> EntryAt(w, k).nLastSuccess != 0))
  }

  /** A consistent manager writes such a file. */
  lemma SerializedWellFormed(h: Hasher, s: State)
    requires Consistent(h, s)
    ensures Writable(s) && s.nNew >= 0 && s.nTried >= 0 && WellFormed(Serialized(s))
  {
    hide RandomOk, TriedOk, NewOk, RefsOk, CountsOk, AddrOk, Ascending;
    ConsistentWritable(h, s);
    Counted(h, s);
    var w := Serialized(s);
    forall k: nat | k < w.nNew + w.nTried
      ensures k < Total(s) && EntryAt(w, k) == Save(Src(s, k)) && Src(s, k).nLastSuccess >= 0
      ensures k >= w.nNew ==> Src(s, k).nLastSuccess != 0
    {
      OriginIs(s, k);
    }
    forall j: nat, k: nat | j < k < w.nNew + w.nTried
      ensures EntryAt(w, j).addr.service.ip != EntryAt(w, k).addr.service.ip
    {
      AddressOnce(h, s, j, k);
    }
  }

  // --- One entry ----------------------------------------------------------------------------

  /** Entries without a place. */
  function Loose(info: Infos): set<int> {
    set id | id in info && !info[id].fInTried && info[id].nRefCount == 0
  }

  /** Consistent but for entries without a place, which are counted. */
  ghost predicate Loading(h: Hasher, s: State) {
    Inv(h, s, Loose(s.info), |Loose(s.info)|)
  }

  /** An entry read from the wire joins the others, in no table yet. */
  function Joined(s: State, v: Saved): State {
    Enter(s, s.nIdCount, Load(v)).(nIdCount := s.nIdCount + 1, nNew := s.nNew + 1)
  }

  lemma JoinKeepsLoading(h: Hasher, s: State, v: Saved)
    requires Loading(h, s) && v.addr.service.ip !in s.byAddr && v.nLastSuccess >= 0
    ensures Loading(h, Joined(s, v)) && s.nIdCount in Loose(Joined(s, v).info)
    ensures Loose(Joined(s, v).info) == Loose(s.info) + {s.nIdCount} && s.nIdCount !in Loose(s.info)
  {
    hide RandomOk, TriedOk, NewOk, RefsOk, TimesOk, CountsOk;
    var loose := Loose(s.info);
    var c := Created(s, v.addr, v.source);
    CreateKeepsInv(h, s, v.addr, v.source, loose, |loose|);
    CountsMore(h, c, loose + {s.nIdCount}, |loose|);
    var d := c.(nNew := c.nNew + 1);
    var i := d.info[s.nIdCount].(nLastSuccess := v.nLastSuccess, nAttempts := v.nAttempts);
    TouchKeepsInv(h, d, s.nIdCount, i, loose + {s.nIdCount}, |loose| + 1);
    assert s.nIdCount !in s.info;
    assert Touched(d, s.nIdCount, i) == Joined(s, v);
    assert Loose(Joined(s, v).info) == loose + {s.nIdCount};
  }

  /** A loose entry gets a free slot of the new table. */
  lemma LinkKeepsLoading(h: Hasher, s: State, slot: Slot, id: int)
    requires Loading(h, s) && id in s.info && !s.info[id].fInTried && s.info[id].nRefCount < NEW_BUCKETS_PER_ADDRESS
    requires slot !in s.newTable && slot.bucket < NEW_BUCKETS
    requires slot == NewSlot(h, s.nKey, slot.bucket, s.info[id].addr.service)
    ensures Loading(h, Linked(s, slot, id)) && Loose(Linked(s, slot, id).info) == Loose(s.info) - {id}
  {
    hide RandomOk, AddrOk, TriedOk, NewOk, TimesOk, CountsOk, NewSlot;
    LinkKeepsInv(h, s, slot, id, Loose(s.info), |Loose(s.info)|);
    assert s.info[id].nRefCount >= 0;
    assert Loose(Linked(s, slot, id).info) == Loose(s.info) - {id};
  }

  /** A loose entry gets its free slot of the tried table. */
  function Moved(h: Hasher, s: State, id: int): State
    requires id in s.info
  {
    var p := Promoted(h, s, id);
    p.(nNew := p.nNew - 1)
  }

  lemma MoveKeepsLoading(h: Hasher, s: State, id: int)
    requires Loading(h, s) && id in Loose(s.info) && s.info[id].nLastSuccess != 0
    requires TriedSlot(h, s.nKey, s.info[id].addr.service) !in s.tried
    ensures Loading(h, Moved(h, s, id)) && Loose(Moved(h, s, id).info) == Loose(s.info) - {id}
  {
    hide RandomOk, AddrOk, TriedOk, NewOk, RefsOk, TimesOk, TriedSlot;
    var loose := Loose(s.info);
    PromoteKeepsInv(h, s, id, loose, |loose|);
    assert Loose(Moved(h, s, id).info) == loose - {id};
  }

  /** A loose entry is forgotten. */
  lemma DropKeepsLoading(h: Hasher, s: State, id: int)
    requires Loading(h, s) && id in Loose(s.info)
    ensures RandomOk(s.info, s.random) && Loading(h, Deleted(s, id))
    ensures Loose(Deleted(s, id).info) == Loose(s.info) - {id}
    ensures forall x :: x in Deleted(s, id).info <==> x in s.info && x != id
    ensures forall x :: x != id ==> Untouched(s, Deleted(s, id), x)
    ensures var t := Deleted(s, id);
            t.newTable == s.newTable && t.tried == s.tried && t.nTried == s.nTried && t.nKey == s.nKey
  {
    hide RandomOk, AddrOk, TriedOk, NewOk, RefsOk, TimesOk, CountsOk, Deleted;
    DeleteKeepsInv(h, s, id, Loose(s.info), |Loose(s.info)|);
    DeletedFrames(s, id);
    LooseAfter(s, Deleted(s, id), id);
  }

  lemma LooseAfter(s: State, t: State, id: int)
    requires (forall x :: x in t.info <==> x in s.info && x != id) && (forall x :: x != id ==> Untouched(s, t, x))
    ensures Loose(t.info) == Loose(s.info) - {id}
  {
    forall x: int
      ensures x in Loose(t.info) <==> x in Loose(s.info) - {id}
    {
      assert x != id ==> Untouched(s, t, x);
    }
  }

  // --- New entries --------------------------------------------------------------------------

  /** The state while new entries are read, with the counters it will have when they all are. */
  function At(s: State, n: nat): State {
    s.(nIdCount := n, nNew := n, nTried := 0)
  }

  /** Every entry comes from one of the first `m` on the wire. */
  ghost predicate FromFile(w: Wire, info: Infos, m: nat)
    requires Sized(w) && m <= w.nNew + w.nTried
  {
    forall id <- info :: IsSaved(w, info[id], m)
  }

  ghost predicate IsSaved(w: Wire, i: AddrInfo, m: nat)
    requires Sized(w) && m <= w.nNew + w.nTried
  {
    exists k: nat :: k < m && Save(i) == EntryAt(w, k)
  }

  /** The first `n` ids are those of the new entries, in order. */
  ghost predicate NewAre(w: Wire, info: Infos, n: nat)
    requires n <= |w.newEntries|
  {
    forall k: nat | k < n :: k in info && !info[k].fInTried && Save(info[k]) == w.newEntries[k]
  }

  /** The address of the next entry is not known yet. */
  lemma NextUnknown(h: Hasher, w: Wire, s: State, m: nat)
    requires WellFormed(w) && m < w.nNew + w.nTried && FromFile(w, s.info, m) && AddrOk(s.info, s.byAddr, s.nIdCount)
    ensures EntryAt(w, m).addr.service.ip !in s.byAddr
  {
    var a := EntryAt(w, m).addr.service.ip;
    forall id | id in s.info
      ensures s.info[id].addr.service.ip != a
    {
      assert IsSaved(w, s.info[id], m);
      var k: nat :| k < m && Save(s.info[id]) == EntryAt(w, k);
    }
  }

  lemma SavedLater(w: Wire, info: Infos, m: nat)
    requires Sized(w) && m < w.nNew + w.nTried && FromFile(w, info, m)
    ensures FromFile(w, info, m + 1)
  {
    forall id | id in info
      ensures IsSaved(w, info[id], m + 1)
    {
      assert IsSaved(w, info[id], m);
      var k: nat :| k < m && Save(info[id]) == EntryAt(w, k);
    }
  }

  lemma JoinedFromFile(w: Wire, s: State, m: nat)
    requires Sized(w) && m < w.nNew + w.nTried && FromFile(w, s.info, m)
    ensures FromFile(w, Joined(s, EntryAt(w, m)).info, m + 1)
  {
    SavedLater(w, s.info, m);
    assert Save(Load(EntryAt(w, m)).(nRandomPos := |s.random|)) == EntryAt(w, m);
    assert IsSaved(w, Joined(s, EntryAt(w, m)).info[s.nIdCount], m + 1);
  }

  /** One turn of the loop over new entries. */
  function NewTurn(h: Hasher, w: Wire, s: State, n: nat): State
    requires n < |w.newEntries|
  {
    var t := Enter(s, n, Load(w.newEntries[n]));
    var slot := HomeSlot(h, w.nKey, t.info[n]);
    if !UsesTable(w) && slot !in t.newTable then Linked(t, slot, n) else t
  }

  lemma NewTurns(h: Hasher, w: Wire, n: nat)
    requires n < |w.newEntries|
    ensures LoadNew(h, w, n + 1) == NewTurn(h, w, LoadNew(h, w, n), n)
  {
  }

  /** What holds after `n` new entries. */
  ghost predicate NewDone(h: Hasher, w: Wire, s: State, n: nat)
    requires Sized(w) && n <= w.nNew
  {
    && Loading(h, At(s, n)) && s.nKey == w.nKey && s.nTried == w.nTried && s.nNew == w.nNew
    && FromFile(w, s.info, n) && NewAre(w, s.info, n)
  }

  lemma {:induction false} NewLoading(h: Hasher, w: Wire, n: nat)
    requires WellFormed(w) && n <= w.nNew
    ensures NewDone(h, w, LoadNew(h, w, n), n)
  {
    hide NewDone, LoadNew, NewTurn;
    if n == 0 {
      NothingLoaded(h, w);
    } else {
      NewLoading(h, w, n - 1);
      NewTurns(h, w, n - 1);
      NewNext(h, w, n - 1, LoadNew(h, w, n - 1));
    }
  }

  lemma NothingLoaded(h: Hasher, w: Wire)
    requires WellFormed(w)
    ensures NewDone(h, w, LoadNew(h, w, 0), 0)
  {
    ClearedConsistent(h, w.nKey);
    assert Loose(map[]) == {};
    assert At(LoadNew(h, w, 0), 0) == Cleared(w.nKey).(nIdCount := 0, nNew := 0, nTried := 0);
  }

  /** One more new entry. */
  lemma NewNext(h: Hasher, w: Wire, n: nat, s: State)
    requires WellFormed(w) && n < w.nNew && NewDone(h, w, s, n)
    ensures NewDone(h, w, NewTurn(h, w, s, n), n + 1)
  {
    hide Loading, FromFile, NewAre, HomeSlot, Linked, Enter;
    var t := Enter(s, n, Load(w.newEntries[n]));
    NewEntered(h, w, n, s);
    var slot := HomeSlot(h, w.nKey, t.info[n]);
    if !UsesTable(w) && slot !in t.newTable {
      HomeLinked(h, w, n + 1, t, n);
    }
  }

  lemma NewEntered(h: Hasher, w: Wire, n: nat, s: State)
    requires WellFormed(w) && n < w.nNew && NewDone(h, w, s, n)
    ensures NewDone(h, w, Enter(s, n, Load(w.newEntries[n])), n + 1)
    ensures n in Enter(s, n, Load(w.newEntries[n])).info && Enter(s, n, Load(w.newEntries[n])).info[n].nRefCount == 0
  {
    hide RandomOk, TriedOk, NewOk, RefsOk, TimesOk, CountsOk, IsSaved, Proper;
    var a := At(s, n);
    NextUnknown(h, w, a, n);
    FileEntry(w, n);
    JoinKeepsLoading(h, a, w.newEntries[n]);
    JoinedFromFile(w, a, n);
    assert At(Enter(s, n, Load(w.newEntries[n])), n + 1) == Joined(a, w.newEntries[n]);
  }

  lemma FileEntry(w: Wire, k: nat)
    requires WellFormed(w) && k < w.nNew + w.nTried
    ensures EntryAt(w, k).nLastSuccess >= 0 && (k >= w.nNew ==> EntryAt(w, k).nLastSuccess != 0)
  {
  }

  lemma HomeLinked(h: Hasher, w: Wire, n: nat, t: State, id: nat)
    requires WellFormed(w) && n <= w.nNew && NewDone(h, w, t, n) && id < n && id in t.info && t.info[id].nRefCount == 0
    requires HomeSlot(h, w.nKey, t.info[id]) !in t.newTable
    ensures NewDone(h, w, Linked(t, HomeSlot(h, w.nKey, t.info[id]), id), n)
  {
    hide Loading, IsSaved, NewSlot, Proper;
    var slot := HomeSlot(h, w.nKey, t.info[id]);
    NewSlotBucket(h, w.nKey, GetNewBucket(h, w.nKey, t.info[id].addr.service, t.info[id].source),
        t.info[id].addr.service);
    LinkKeepsLoading(h, At(t, n), slot, id);
    assert At(Linked(t, slot, id), n) == Linked(At(t, n), slot, id);
    LinkedFromFile(w, t, slot, id, n);
  }

  lemma LinkedFromFile(w: Wire, s: State, slot: Slot, id: int, m: nat)
    requires Sized(w) && m <= w.nNew + w.nTried
    requires FromFile(w, s.info, m) && id in s.info
    ensures FromFile(w, Linked(s, slot, id).info, m)
  {
    var t := Linked(s, slot, id);
    forall x | x in t.info
      ensures IsSaved(w, t.info[x], m)
    {
      assert IsSaved(w, s.info[x], m) && Save(t.info[x]) == Save(s.info[x]);
    }
  }

  // --- Tried entries ------------------------------------------------------------------------

  /** The state while tried entries are read, with the counter of those read so far. */
  function Within(w: Wire, s: State, n: nat): State {
    s.(nTried := s.nTried - (w.nTried - n))
  }

  /** One turn of the loop over tried entries. */
  function TriedTurn(h: Hasher, w: Wire, s: State, n: nat): State
    requires n < |w.triedEntries|
  {
    var i := Load(w.triedEntries[n]).(fInTried := true);
    var slot := TriedSlot(h, w.nKey, i.addr.service);
    if slot in s.tried then s.(nTried := s.nTried - 1)
    else Enter(s, s.nIdCount, i).(tried := s.tried[slot := s.nIdCount], nIdCount := s.nIdCount + 1)
  }

  lemma TriedTurns(h: Hasher, w: Wire, n: nat)
    requires w.nNew <= |w.newEntries| && n < |w.triedEntries|
    ensures LoadTried(h, w, n + 1) == TriedTurn(h, w, LoadTried(h, w, n), n)
  {
  }

  /** What holds after all new and `n` tried entries. */
  ghost predicate TriedDone(h: Hasher, w: Wire, s: State, n: nat)
    requires Sized(w) && n <= w.nTried
  {
    && Loading(h, Within(w, s, n)) && s.nKey == w.nKey && s.nIdCount >= w.nNew
    && FromFile(w, s.info, w.nNew + n) && NewAre(w, s.info, w.nNew)
  }

  lemma {:induction false} TriedLoading(h: Hasher, w: Wire, n: nat)
    requires WellFormed(w) && n <= w.nTried
    ensures TriedDone(h, w, LoadTried(h, w, n), n)
  {
    hide TriedDone, LoadTried, TriedTurn;
    if n == 0 {
      NewLoading(h, w, w.nNew);
      NewAsTried(h, w);
    } else {
      TriedLoading(h, w, n - 1);
      TriedTurns(h, w, n - 1);
      TriedNext(h, w, n - 1, LoadTried(h, w, n - 1));
    }
  }

  lemma NewAsTried(h: Hasher, w: Wire)
    requires WellFormed(w) && NewDone(h, w, LoadNew(h, w, w.nNew), w.nNew)
    ensures TriedDone(h, w, LoadTried(h, w, 0), 0)
  {
    hide Loading, FromFile, NewAre, LoadNew;
    var s := LoadNew(h, w, w.nNew);
    assert LoadTried(h, w, 0) == s.(nIdCount := w.nNew);
    assert Within(w, s.(nIdCount := w.nNew), 0) == At(s, w.nNew);
  }

  /** One more tried entry. */
  lemma TriedNext(h: Hasher, w: Wire, n: nat, s: State)
    requires WellFormed(w) && n < w.nTried && TriedDone(h, w, s, n)
    ensures TriedDone(h, w, TriedTurn(h, w, s, n), n + 1)
  {
    hide Loading, FromFile, NewAre, TriedSlot, Enter;
    var slot := TriedSlot(h, w.nKey, w.triedEntries[n].addr.service);
    if slot in s.tried {
      SavedLater(w, s.info, w.nNew + n);
      assert Within(w, s.(nTried := s.nTried - 1), n + 1) == Within(w, s, n);
    } else {
      TriedEntered(h, w, n, s);
    }
  }

  lemma TriedEntered(h: Hasher, w: Wire, n: nat, s: State)
    requires WellFormed(w) && n < w.nTried && TriedDone(h, w, s, n)
    requires TriedSlot(h, w.nKey, w.triedEntries[n].addr.service) !in s.tried
    ensures TriedDone(h, w, TriedTurn(h, w, s, n), n + 1)
  {
    hide Loading, TriedSlot, IsSaved, Proper, Joined, Moved, TriedTurn, Loose;
    var v, m, a, id := w.triedEntries[n], w.nNew + n, Within(w, s, n), s.nIdCount;
    assert v == EntryAt(w, m);
    LoadingAddresses(h, a);
    NextUnknown(h, w, a, m);
    FileEntry(w, m);
    JoinKeepsLoading(h, a, v);
    JoinedIs(a, v);
    MoveKeepsLoading(h, Joined(a, v), id);
    TriedTurnIs(h, w, s, n);
    TriedFromFile(w, s, Load(v).(fInTried := true), m);
  }

  lemma LoadingAddresses(h: Hasher, s: State)
    requires Loading(h, s)
    ensures AddrOk(s.info, s.byAddr, s.nIdCount)
  {
  }

  lemma JoinedIs(s: State, v: Saved)
    ensures var t := Joined(s, v);
            && s.nIdCount in t.info && t.info[s.nIdCount] == Load(v).(nRandomPos := |s.random|)
            && t.nKey == s.nKey && t.tried == s.tried
  {
  }

  lemma TriedTurnIs(h: Hasher, w: Wire, s: State, n: nat)
    requires n < w.nTried <= |w.triedEntries| && w.nNew <= |w.newEntries|
    requires s.nKey == w.nKey && s.nIdCount >= w.nNew && NewAre(w, s.info, w.nNew)
    requires TriedSlot(h, w.nKey, w.triedEntries[n].addr.service) !in s.tried
    ensures var t, v := TriedTurn(h, w, s, n), w.triedEntries[n];
            && s.nIdCount in Joined(Within(w, s, n), v).info
            && Within(w, t, n + 1) == Moved(h, Joined(Within(w, s, n), v), s.nIdCount)
            && t.info == Enter(s, s.nIdCount, Load(v).(fInTried := true)).info
            && t.nKey == w.nKey && t.nIdCount >= w.nNew && NewAre(w, t.info, w.nNew)
  {
    hide TriedSlot;
  }

  lemma TriedFromFile(w: Wire, s: State, i: AddrInfo, m: nat)
    requires Sized(w) && m < w.nNew + w.nTried
    requires FromFile(w, s.info, m) && Save(i) == EntryAt(w, m)
    ensures FromFile(w, Enter(s, s.nIdCount, i).info, m + 1)
  {
    SavedLater(w, s.info, m);
    var t := Enter(s, s.nIdCount, i);
    assert Save(t.info[s.nIdCount]) == EntryAt(w, m);
    forall id | id in t.info
      ensures IsSaved(w, t.info[id], m + 1)
    {
      assert id != s.nIdCount ==> IsSaved(w, s.info[id], m + 1);
    }
  }

  // --- References ---------------------------------------------------------------------------

  lemma IndexLoading(h: Hasher, w: Wire, s: State, bucket: nat, nIndex: int)
    requires WellFormed(w) && Loading(h, s) && s.nKey == w.nKey && NewAre(w, s.info, w.nNew)
    requires UsesTable(w) ==> bucket < NEW_BUCKETS
    ensures var t := LoadIndex(h, w, s, bucket, nIndex);
            Loading(h, t) && t.nKey == w.nKey && NewAre(w, t.info, w.nNew)
  {
    hide Inv, NewSlot;
    if 0 <= nIndex < w.nNew {
      var slot := NewSlot(h, w.nKey, bucket, s.info[nIndex].addr.service);
      NewSlotBucket(h, w.nKey, bucket, s.info[nIndex].addr.service);
      if UsesTable(w) && slot !in s.newTable && s.info[nIndex].nRefCount < NEW_BUCKETS_PER_ADDRESS {
        LinkKeepsLoading(h, s, slot, nIndex);
      }
    }
  }

  lemma NewSlotBucket(h: Hasher, nKey: nat, bucket: nat, service: Service)
    ensures NewSlot(h, nKey, bucket, service).bucket == bucket
  {
  }

  lemma {:induction false} ListLoading(h: Hasher, w: Wire, s: State, bucket: nat, list: seq<int>)
    requires WellFormed(w) && Loading(h, s) && s.nKey == w.nKey && NewAre(w, s.info, w.nNew)
    requires UsesTable(w) ==> bucket < NEW_BUCKETS
    ensures var t := LoadList(h, w, s, bucket, list);
            Loading(h, t) && t.nKey == w.nKey && NewAre(w, t.info, w.nNew)
  {
    hide Loading, NewAre, LoadIndex, Proper;
    if list != [] {
      var front := list[..|list| - 1];
      ListLoading(h, w, s, bucket, front);
      IndexLoading(h, w, LoadList(h, w, s, bucket, front), bucket, IdAt(list, |list| - 1));
    }
  }

  lemma {:induction false} BucketsLoading(h: Hasher, w: Wire, s: State, n: nat)
    requires WellFormed(w) && Loading(h, s) && s.nKey == w.nKey && NewAre(w, s.info, w.nNew)
    requires n <= |w.buckets| && n <= Buckets(w)
    ensures var t := LoadBuckets(h, w, s, n);
            Loading(h, t) && t.nKey == w.nKey && NewAre(w, t.info, w.nNew)
  {
    hide Loading, NewAre, LoadList, Proper;
    if n > 0 {
      BucketsLoading(h, w, s, n - 1);
      ListLoading(h, w, LoadBuckets(h, w, s, n - 1), n - 1, w.buckets[n - 1]);
    }
  }

  // --- Pruning ------------------------------------------------------------------------------

  /** Pruning the ids below `n` has removed exactly the loose ones among them, and left the rest alone. */
  ghost predicate PrunedTo(h: Hasher, s: State, t: State, n: nat) {
    && Loading(h, t) && t.tried == s.tried && t.newTable == s.newTable && t.nTried == s.nTried && t.nKey == s.nKey
    && (forall x: int :: x in t.info <==> x in s.info && (x in Loose(s.info) ==> x >= n))
    && (forall x: int :: x in t.info ==> Untouched(s, t, x))
  }

  lemma {:induction false} PrunedIs(h: Hasher, s: State, n: nat)
    requires Loading(h, s) && forall id <- s.info :: id >= 0
    ensures PrunedTo(h, s, Pruned(s, Ascending(s.info.Keys, n)), n)
  {
    hide Loading, Deleted, Ascending, PrunedTo, Pruned, RandomOk;
    if n == 0 {
      NothingPruned(h, s);
    } else {
      PrunedIs(h, s, n - 1);
      AscendingNext(s.info.Keys, n - 1);
      var front := Ascending(s.info.Keys, n - 1);
      PruneOne(h, s, Pruned(s, front), n - 1);
      PrunedSnoc(s, front, n - 1);
      StillThere(h, s, Pruned(s, front), n - 1);
      assert n - 1 in s.info.Keys <==> n - 1 in s.info;
      assert front + [] == front;
    }
  }

  lemma PrunedSnoc(s: State, front: seq<int>, id: int)
    ensures var t := Pruned(s, front);
            Pruned(s, front + [id]) ==
            if RandomOk(t.info, t.random) && id in t.info && !t.info[id].fInTried &&
                t.info[id].nRefCount == 0 then Deleted(t, id)
            else t
  {
    assert (front + [id])[..|front|] == front && IdAt(front + [id], |front|) == id;
  }

  lemma StillThere(h: Hasher, s: State, t: State, n: nat)
    requires PrunedTo(h, s, t, n)
    ensures n in t.info <==> n in s.info
  {
  }

  lemma NothingPruned(h: Hasher, s: State)
    requires Loading(h, s) && forall id <- s.info :: id >= 0
    ensures PrunedTo(h, s, Pruned(s, Ascending(s.info.Keys, 0)), 0)
  {
    hide Loading, RandomOk, Deleted;
    assert Pruned(s, Ascending(s.info.Keys, 0)) == s;
  }

  lemma PruneOne(h: Hasher, s: State, t: State, n: nat)
    requires PrunedTo(h, s, t, n)
    ensures RandomOk(t.info, t.random)
    ensures if n in t.info && !t.info[n].fInTried && t.info[n].nRefCount == 0 then PrunedTo(h, s, Deleted(t, n), n + 1)
            else PrunedTo(h, s, t, n + 1)
  {
    hide RandomOk, AddrOk, TriedOk, NewOk, RefsOk, TimesOk, CountsOk, Deleted;
    assert n in t.info ==> Untouched(s, t, n);
    if n in t.info && !t.info[n].fInTried && t.info[n].nRefCount == 0 {
      DropKeepsLoading(h, t, n);
      var u := Deleted(t, n);
      forall x: int | x in u.info
        ensures Untouched(s, u, x)
      {
        assert Untouched(s, t, x) && Untouched(t, u, x);
      }
    }
  }

  // --- The result ---------------------------------------------------------------------------

  /** Loading a well-formed file of any version ends consistent. */
  lemma FileConsistent(h: Hasher, w: Wire)
    requires WellFormed(w) && Unserialized(h, w).Success?
    ensures Consistent(h, Unserialized(h, w).state)
  {
    hide Loading, Pruned, Ascending, LoadBuckets, LoadTried, NewAre, FromFile, Buckets;
    TriedLoading(h, w, w.nTried);
    var s := LoadTried(h, w, w.nTried);
    assert Within(w, s, w.nTried) == s;
    BucketsLoading(h, w, s, Buckets(w));
    var t := LoadBuckets(h, w, s, Buckets(w));
    LoadingIds(h, t);
    PrunedIs(h, t, t.nIdCount);
    AllPruned(h, t, Pruned(t, Ascending(t.info.Keys, t.nIdCount)));
  }

  lemma LoadingIds(h: Hasher, s: State)
    requires Loading(h, s)
    ensures forall id <- s.info :: 0 <= id < s.nIdCount
  {
  }

  lemma AllPruned(h: Hasher, s: State, t: State)
    requires PrunedTo(h, s, t, s.nIdCount) && forall id <- s.info :: 0 <= id < s.nIdCount
    ensures Consistent(h, t)
  {
    hide RandomOk, AddrOk, TriedOk, NewOk, RefsOk, TimesOk, CountsOk;
    forall x: int
      ensures x !in Loose(t.info)
    {
      assert x in t.info ==> Untouched(s, t, x);
    }
    NoneLoose(t.info);
  }

  lemma NoneLoose(info: Infos)
    requires forall x: int :: x !in Loose(info)
    ensures Loose(info) == {}
  {
    if |Loose(info)| > 0 {
      var x := Member(Loose(info));
    }
  }

  // --- Lost tried entries -------------------------------------------------------------------

  function TriedSlotAt(h: Hasher, w: Wire, j: nat): Slot
    requires j < |w.triedEntries|
  {
    TriedSlot(h, w.nKey, w.triedEntries[j].addr.service)
  }

  /** No tried entry before this one has its slot. */
  ghost predicate FirstTried(h: Hasher, w: Wire, j: nat)
    requires j < |w.triedEntries|
  {
    forall i: nat | i < j :: TriedSlotAt(h, w, i) != TriedSlotAt(h, w, j)
  }

  /** After `n` tried entries the first of each slot is in it. */
  ghost predicate FirstsIn(h: Hasher, w: Wire, s: State, n: nat)
    requires n <= |w.triedEntries|
  {
    && (forall j: nat | j < n :: TriedSlotAt(h, w, j) in s.tried)
    && (forall slot <- s.tried :: Held(s.tried, slot) < s.nIdCount && TakenBy(h, w, slot, n))
    && (forall j: nat | j < n && FirstTried(h, w, j) :: InSlot(h, w, s, j))
  }

  ghost predicate TakenBy(h: Hasher, w: Wire, slot: Slot, n: nat)
    requires n <= |w.triedEntries|
  {
    exists j: nat :: j < n && TriedSlotAt(h, w, j) == slot
  }

  /** The j-th tried entry is in its slot. */
  ghost predicate InSlot(h: Hasher, w: Wire, s: State, j: nat)
    requires j < |w.triedEntries|
  {
    var slot := TriedSlotAt(h, w, j);
    slot in s.tried && Held(s.tried, slot) in s.info && Save(s.info[Held(s.tried, slot)]) == w.triedEntries[j]
  }

  lemma {:induction false} TriedFirsts(h: Hasher, w: Wire, n: nat)
    requires w.nNew <= |w.newEntries| && n <= |w.triedEntries|
    ensures FirstsIn(h, w, LoadTried(h, w, n), n)
  {
    hide FirstsIn, TriedTurn, LoadTried;
    if n == 0 {
      NoFirsts(h, w);
    } else {
      TriedFirsts(h, w, n - 1);
      TriedTurns(h, w, n - 1);
      FirstsNext(h, w, LoadTried(h, w, n - 1), n - 1);
    }
  }

  lemma NoFirsts(h: Hasher, w: Wire)
    requires w.nNew <= |w.newEntries|
    ensures FirstsIn(h, w, LoadTried(h, w, 0), 0)
  {
    NoTriedYet(h, w, w.nNew);
  }

  lemma {:induction false} NoTriedYet(h: Hasher, w: Wire, n: nat)
    requires n <= |w.newEntries|
    ensures LoadNew(h, w, n).tried == map[]
  {
    hide HomeSlot;
    if n > 0 {
      NoTriedYet(h, w, n - 1);
    }
  }

  lemma FirstsNext(h: Hasher, w: Wire, s: State, n: nat)
    requires n < |w.triedEntries| && FirstsIn(h, w, s, n)
    ensures FirstsIn(h, w, TriedTurn(h, w, s, n), n + 1)
  {
    hide TriedSlotAt, TriedTurn, FirstTried, InSlot, TakenBy;
    var t, slot := TriedTurn(h, w, s, n), TriedSlotAt(h, w, n);
    TurnIs(h, w, s, n);
    forall k | k in s.tried
      ensures TakenBy(h, w, k, n + 1)
    {
      StillTaken(h, w, k, n);
    }
    if slot in s.tried {
      TakenNotFirst(h, w, n);
    } else {
      assert forall k <- s.tried :: Held(t.tried, k) == Held(s.tried, k);
      assert Held(t.tried, slot) == s.nIdCount;
      TakenNow(h, w, n);
    }
    forall j: nat | j < n && FirstTried(h, w, j)
      ensures InSlot(h, w, t, j)
    {
      StillIn(h, w, s, n, j);
    }
  }

  lemma TurnIs(h: Hasher, w: Wire, s: State, n: nat)
    requires n < |w.triedEntries|
    ensures var t, slot := TriedTurn(h, w, s, n), TriedSlotAt(h, w, n);
            if slot in s.tried then t == s.(nTried := s.nTried - 1)
            else t.tried == s.tried[slot := s.nIdCount] && t.nIdCount == s.nIdCount + 1 && InSlot(h, w, t, n)
  {
    hide TriedSlot;
  }

  lemma StillTaken(h: Hasher, w: Wire, slot: Slot, n: nat)
    requires n < |w.triedEntries| && TakenBy(h, w, slot, n)
    ensures TakenBy(h, w, slot, n + 1)
  {
    hide TriedSlotAt;
  }

  lemma TakenNow(h: Hasher, w: Wire, n: nat)
    requires n < |w.triedEntries|
    ensures TakenBy(h, w, TriedSlotAt(h, w, n), n + 1)
  {
    hide TriedSlotAt;
  }

  lemma TakenNotFirst(h: Hasher, w: Wire, n: nat)
    requires n < |w.triedEntries| && TakenBy(h, w, TriedSlotAt(h, w, n), n)
    ensures !FirstTried(h, w, n)
  {
    hide TriedSlotAt;
  }

  lemma StillIn(h: Hasher, w: Wire, s: State, n: nat, j: nat)
    requires n < |w.triedEntries| && j < n && InSlot(h, w, s, j)
    requires forall slot <- s.tried :: Held(s.tried, slot) < s.nIdCount
    ensures InSlot(h, w, TriedTurn(h, w, s, n), j)
  {
    hide TriedSlot;
    var t := TriedTurn(h, w, s, n);
    if TriedSlotAt(h, w, n) !in s.tried {
      assert forall k <- s.tried :: Held(t.tried, k) == Held(s.tried, k);
    }
  }

  // --- Lost new entries when the table cannot be used ---------------------------------------

  function HomeAt(h: Hasher, w: Wire, k: nat): Slot
    requires k < |w.newEntries|
  {
    HomeSlot(h, w.nKey, Load(w.newEntries[k]))
  }

  /** No new entry before this one has its home slot. */
  ghost predicate FirstHome(h: Hasher, w: Wire, k: nat)
    requires k < |w.newEntries|
  {
    forall i: nat | i < k :: HomeAt(h, w, i) != HomeAt(h, w, k)
  }

  /** After `n` new entries the first of each home slot has it as its one reference. */
  ghost predicate HomesIn(h: Hasher, w: Wire, s: State, n: nat)
    requires n <= |w.newEntries|
  {
    && (forall k: nat | k < n :: HomeAt(h, w, k) in s.newTable)
    && (forall slot <- s.newTable :: HomeOfOne(h, w, slot, n))
    && (forall k: nat | k < n :: HomeRead(h, w, s, k))
  }

  ghost predicate HomeOfOne(h: Hasher, w: Wire, slot: Slot, n: nat)
    requires n <= |w.newEntries|
  {
    exists k: nat :: k < n && HomeAt(h, w, k) == slot
  }

  /** The k-th new entry has its home slot if it is the first, and no reference otherwise. */
  ghost predicate HomeRead(h: Hasher, w: Wire, s: State, k: nat)
    requires k < |w.newEntries|
  {
    && k in s.info && Save(s.info[k]) == w.newEntries[k] && !s.info[k].fInTried
    && if FirstHome(h, w, k) then
         s.info[k].nRefCount == 1 && HomeAt(h, w, k) in s.newTable && Held(s.newTable, HomeAt(h, w, k)) == k
       else s.info[k].nRefCount == 0
  }

  lemma {:induction false} NewHomes(h: Hasher, w: Wire, n: nat)
    requires n <= |w.newEntries| && !UsesTable(w)
    ensures HomesIn(h, w, LoadNew(h, w, n), n)
  {
    hide HomesIn, NewTurn, LoadNew;
    if n == 0 {
      NoHomes(h, w);
    } else {
      NewHomes(h, w, n - 1);
      NewTurns(h, w, n - 1);
      HomesNext(h, w, LoadNew(h, w, n - 1), n - 1);
    }
  }

  lemma NoHomes(h: Hasher, w: Wire)
    ensures HomesIn(h, w, LoadNew(h, w, 0), 0)
  {
  }

  lemma HomesNext(h: Hasher, w: Wire, s: State, n: nat)
    requires n < |w.newEntries| && !UsesTable(w) && HomesIn(h, w, s, n)
    ensures HomesIn(h, w, NewTurn(h, w, s, n), n + 1)
  {
    hide HomeAt, NewTurn, FirstHome, HomeRead, HomeOfOne;
    var t, slot := NewTurn(h, w, s, n), HomeAt(h, w, n);
    HomeTurnIs(h, w, s, n);
    forall k | k in s.newTable
      ensures HomeOfOne(h, w, k, n + 1)
    {
      StillHome(h, w, k, n);
    }
    HomeNow(h, w, n);
    forall k: nat | k < n
      ensures HomeRead(h, w, t, k)
    {
      HomeReadStays(h, w, s, n, k);
    }
    NewHomeRead(h, w, s, n);
  }

  lemma HomeTurnIs(h: Hasher, w: Wire, s: State, n: nat)
    requires n < |w.newEntries| && !UsesTable(w)
    ensures var t, slot := NewTurn(h, w, s, n), HomeAt(h, w, n);
            && t.newTable == (if slot in s.newTable then s.newTable else s.newTable[slot := n])
            && t.info == s.info[n :=
                Load(w.newEntries[n]).(nRandomPos := |s.random|, nRefCount := if slot in s.newTable then 0 else 1)]
  {
    hide NewSlot, GetNewBucket;
  }

  lemma StillHome(h: Hasher, w: Wire, slot: Slot, n: nat)
    requires n < |w.newEntries| && HomeOfOne(h, w, slot, n)
    ensures HomeOfOne(h, w, slot, n + 1)
  {
    hide HomeAt;
  }

  lemma HomeNow(h: Hasher, w: Wire, n: nat)
    requires n < |w.newEntries|
    ensures HomeOfOne(h, w, HomeAt(h, w, n), n + 1)
    ensures HomeOfOne(h, w, HomeAt(h, w, n), n) <==> !FirstHome(h, w, n)
  {
    hide HomeAt;
  }

  lemma HomeReadStays(h: Hasher, w: Wire, s: State, n: nat, k: nat)
    requires n < |w.newEntries| && !UsesTable(w) && k < n && HomeRead(h, w, s, k)
    ensures HomeRead(h, w, NewTurn(h, w, s, n), k)
  {
    hide HomeAt, NewTurn, FirstHome;
    HomeTurnIs(h, w, s, n);
    var t := NewTurn(h, w, s, n);
    assert forall slot <- s.newTable ::
        slot in t.newTable && (slot != HomeAt(h, w, n) ==> Held(t.newTable, slot) == Held(s.newTable, slot));
    assert HomeAt(h, w, n) in s.newTable ==> t.newTable == s.newTable;
  }

  lemma NewHomeRead(h: Hasher, w: Wire, s: State, n: nat)
    requires n < |w.newEntries| && !UsesTable(w) && HomesIn(h, w, s, n)
    ensures HomeRead(h, w, NewTurn(h, w, s, n), n)
  {
    hide HomeAt, NewTurn, FirstHome, HomeOfOne;
    HomeTurnIs(h, w, s, n);
    HomeNow(h, w, n);
    if !FirstHome(h, w, n) {
      var j := Sharer(h, w, n);
      assert HomeAt(h, w, j) in s.newTable;
    }
    assert HomeAt(h, w, n) !in s.newTable ==> Held(NewTurn(h, w, s, n).newTable, HomeAt(h, w, n)) == n;
  }

  lemma Sharer(h: Hasher, w: Wire, n: nat) returns (j: nat)
    requires n < |w.newEntries| && !FirstHome(h, w, n)
    ensures j < n && HomeAt(h, w, j) == HomeAt(h, w, n)
  {
    hide HomeAt;
    j :| j < n && HomeAt(h, w, j) == HomeAt(h, w, n);
  }

  /** Tried entries do not touch the new ones. */
  lemma {:induction false} HomesStay(h: Hasher, w: Wire, n: nat)
    requires w.nNew <= |w.newEntries| && n <= |w.triedEntries| && !UsesTable(w)
    ensures HomesIn(h, w, LoadTried(h, w, n), w.nNew) && LoadTried(h, w, n).nIdCount >= w.nNew
  {
    hide TriedSlot, HomesIn, LoadNew, LoadTried, TriedTurn;
    if n == 0 {
      NewHomes(h, w, w.nNew);
      StartsHomes(h, w);
    } else {
      HomesStay(h, w, n - 1);
      TriedTurns(h, w, n - 1);
      HomesKept(h, w, LoadTried(h, w, n - 1), n - 1);
    }
  }

  lemma StartsHomes(h: Hasher, w: Wire)
    requires w.nNew <= |w.newEntries| && HomesIn(h, w, LoadNew(h, w, w.nNew), w.nNew)
    ensures HomesIn(h, w, LoadTried(h, w, 0), w.nNew) && LoadTried(h, w, 0).nIdCount >= w.nNew
  {
    hide LoadNew, HomeAt, FirstHome, HomeOfOne;
    var s, t := LoadNew(h, w, w.nNew), LoadTried(h, w, 0);
    assert t == s.(nIdCount := w.nNew);
    forall k: nat | k < w.nNew
      ensures HomeRead(h, w, t, k)
    {
      assert HomeRead(h, w, s, k);
    }
  }

  lemma HomesKept(h: Hasher, w: Wire, s: State, n: nat)
    requires w.nNew <= |w.newEntries| && n < |w.triedEntries| && HomesIn(h, w, s, w.nNew) && s.nIdCount >= w.nNew
    ensures HomesIn(h, w, TriedTurn(h, w, s, n), w.nNew) && TriedTurn(h, w, s, n).nIdCount >= w.nNew
  {
    hide HomeAt, FirstHome, HomeOfOne, TriedSlot;
    var t := TriedTurn(h, w, s, n);
    forall k: nat | k < w.nNew
      ensures HomeRead(h, w, t, k)
    {
      assert HomeRead(h, w, s, k);
    }
  }

  /** And lists that cannot be used are skipped. */
  lemma {:induction false} ListSkipped(h: Hasher, w: Wire, s: State, bucket: nat, list: seq<int>)
    requires !UsesTable(w)
    ensures LoadList(h, w, s, bucket, list) == s
  {
    if list != [] {
      ListSkipped(h, w, s, bucket, list[..|list| - 1]);
    }
  }

  lemma {:induction false} BucketsSkipped(h: Hasher, w: Wire, s: State, n: nat)
    requires !UsesTable(w) && n <= |w.buckets|
    ensures LoadBuckets(h, w, s, n) == s
  {
    if n > 0 {
      BucketsSkipped(h, w, s, n - 1);
      ListSkipped(h, w, s, n - 1, w.buckets[n - 1]);
    }
  }

  // --- What is left -------------------------------------------------------------------------

  /** The state before pruning. */
  function Unpruned(h: Hasher, w: Wire): State
    requires Unserialized(h, w).Success?
  {
    LoadBuckets(h, w, LoadTried(h, w, w.nTried), Buckets(w))
  }

  lemma UnprunedIs(h: Hasher, w: Wire)
    requires WellFormed(w) && Unserialized(h, w).Success?
    ensures PrunedTo(h, Unpruned(h, w), Unserialized(h, w).state, Unpruned(h, w).nIdCount)
    ensures forall id <- Unpruned(h, w).info :: 0 <= id < Unpruned(h, w).nIdCount
    ensures Unpruned(h, w).nKey == w.nKey
  {
    hide Loading, Pruned, Ascending, LoadBuckets, LoadTried, NewAre, FromFile, Buckets, PrunedTo;
    TriedLoading(h, w, w.nTried);
    var s := LoadTried(h, w, w.nTried);
    assert Within(w, s, w.nTried) == s;
    BucketsLoading(h, w, s, Buckets(w));
    var t := LoadBuckets(h, w, s, Buckets(w));
    LoadingIds(h, t);
    PrunedIs(h, t, t.nIdCount);
  }

  /** When the new table on the wire cannot be used, a new entry is kept exactly if no earlier one has its
      home slot; it then has that slot and no other. */
  lemma OtherVersionKeeps(h: Hasher, w: Wire, k: nat)
    requires WellFormed(w) && Unserialized(h, w).Success? && !UsesTable(w) && k < w.nNew
    ensures var t := Unserialized(h, w).state;
            && (k in t.info <==> FirstHome(h, w, k))
            && (k in t.info ==>
                  && Save(t.info[k]) == w.newEntries[k] && !t.info[k].fInTried && t.info[k].nRefCount == 1
                  && HomeAt(h, w, k) in t.newTable && Held(t.newTable, HomeAt(h, w, k)) == k)
  {
    hide Loading, HomeAt, FirstHome, HomeOfOne, LoadTried, LoadBuckets, Unserialized, Buckets;
    UnprunedIs(h, w);
    HomesStay(h, w, w.nTried);
    SkippedIs(h, w);
    var s, t := Unpruned(h, w), Unserialized(h, w).state;
    assert HomeRead(h, w, s, k);
    assert k in t.info ==> Untouched(s, t, k);
  }

  lemma SkippedIs(h: Hasher, w: Wire)
    requires Unserialized(h, w).Success? && !UsesTable(w)
    ensures Unpruned(h, w) == LoadTried(h, w, w.nTried)
  {
    hide LoadBuckets, LoadTried, Buckets;
    BucketsSkipped(h, w, LoadTried(h, w, w.nTried), Buckets(w));
  }

  /** References change nothing else. */
  ghost predicate SameFile(s: State, t: State) {
    && t.tried == s.tried && t.nKey == s.nKey && t.nIdCount == s.nIdCount
    && (forall id: int :: id in t.info <==> id in s.info)
    && (forall id <- s.info :: Save(t.info[id]) == Save(s.info[id]) && t.info[id].fInTried == s.info[id].fInTried)
  }

  lemma {:induction false} ListFrames(h: Hasher, w: Wire, s: State, bucket: nat, list: seq<int>)
    ensures SameFile(s, LoadList(h, w, s, bucket, list))
  {
    hide NewSlot;
    if list != [] {
      ListFrames(h, w, s, bucket, list[..|list| - 1]);
    }
  }

  lemma {:induction false} BucketsFrames(h: Hasher, w: Wire, s: State, n: nat)
    requires n <= |w.buckets|
    ensures SameFile(s, LoadBuckets(h, w, s, n))
  {
    hide LoadList;
    if n > 0 {
      BucketsFrames(h, w, s, n - 1);
      ListFrames(h, w, LoadBuckets(h, w, s, n - 1), n - 1, w.buckets[n - 1]);
    }
  }

  /** Ids behind those of the new entries are tried ones. */
  ghost predicate OthersTried(w: Wire, s: State) {
    && s.nIdCount >= w.nNew
    && forall id <- s.info :: id >= w.nNew ==> s.info[id].fInTried
  }

  lemma {:induction false} OthersAreTried(h: Hasher, w: Wire, n: nat)
    requires WellFormed(w) && n <= w.nTried
    ensures OthersTried(w, LoadTried(h, w, n))
  {
    hide TriedSlot, LoadNew, TriedTurn, LoadTried, Proper;
    if n == 0 {
      NewLoading(h, w, w.nNew);
      StartsTried(h, w);
    } else {
      OthersAreTried(h, w, n - 1);
      TriedTurns(h, w, n - 1);
      OthersNext(h, w, LoadTried(h, w, n - 1), n - 1);
    }
  }

  lemma StartsTried(h: Hasher, w: Wire)
    requires WellFormed(w) && NewDone(h, w, LoadNew(h, w, w.nNew), w.nNew)
    ensures OthersTried(w, LoadTried(h, w, 0))
  {
    hide LoadNew, Proper, FromFile, NewAre;
    LoadingIds(h, At(LoadNew(h, w, w.nNew), w.nNew));
  }

  lemma OthersNext(h: Hasher, w: Wire, s: State, n: nat)
    requires n < |w.triedEntries| && OthersTried(w, s)
    ensures OthersTried(w, TriedTurn(h, w, s, n))
  {
    hide TriedSlot;
  }

  /** The first entry that shares a tried slot. */
  lemma {:induction false} FirstSharer(h: Hasher, w: Wire, j: nat) returns (i: nat)
    requires j < |w.triedEntries|
    ensures i <= j && TriedSlotAt(h, w, i) == TriedSlotAt(h, w, j) && FirstTried(h, w, i)
    decreases j
  {
    hide TriedSlotAt;
    if FirstTried(h, w, j) {
      i := j;
    } else {
      var k: nat :| k < j && TriedSlotAt(h, w, k) == TriedSlotAt(h, w, j);
      i := FirstSharer(h, w, k);
    }
  }

  /** What reading references and pruning leave of the entries. */
  ghost predicate Survives(s: State, t: State) {
    && t.tried == s.tried && t.nKey == s.nKey
    && (forall id <- t.info :: id in s.info && Save(t.info[id]) == Save(s.info[id]))
    && (forall id <- t.info :: t.info[id].fInTried == s.info[id].fInTried)
  }

  lemma ResultSurvives(h: Hasher, w: Wire)
    requires WellFormed(w) && Unserialized(h, w).Success?
    ensures Survives(LoadTried(h, w, w.nTried), Unserialized(h, w).state)
  {
    hide Loading, LoadTried, LoadBuckets, Unserialized, Buckets, SameFile, PrunedTo;
    UnprunedIs(h, w);
    Enough(h, w);
    BucketsFrames(h, w, LoadTried(h, w, w.nTried), Buckets(w));
    SurvivesBoth(h, LoadTried(h, w, w.nTried), Unpruned(h, w), Unserialized(h, w).state, Unpruned(h, w).nIdCount);
  }

  lemma Enough(h: Hasher, w: Wire)
    requires Unserialized(h, w).Success?
    ensures Buckets(w) <= |w.buckets| && Unpruned(h, w) == LoadBuckets(h, w, LoadTried(h, w, w.nTried), Buckets(w))
  {
    hide LoadTried, LoadBuckets, Buckets, Pruned, Ascending;
  }

  lemma SurvivesBoth(h: Hasher, s: State, u: State, t: State, n: nat)
    requires SameFile(s, u) && PrunedTo(h, u, t, n)
    ensures Survives(s, t)
  {
    hide Loading;
    forall id | id in t.info
      ensures id in s.info && Save(t.info[id]) == Save(s.info[id]) && t.info[id].fInTried == s.info[id].fInTried
    {
      assert Untouched(u, t, id);
    }
  }

  /** Whatever the version, a tried entry is kept, in its slot, exactly if no earlier one has that slot. */
  lemma TriedKept(h: Hasher, w: Wire, j: nat)
    requires WellFormed(w) && Unserialized(h, w).Success? && j < w.nTried
    ensures var t, slot := Unserialized(h, w).state, TriedSlotAt(h, w, j);
            && (w.triedEntries[j].addr.service.ip in t.byAddr <==> FirstTried(h, w, j))
            && (FirstTried(h, w, j) ==>
                  && slot in t.tried && Held(t.tried, slot) in t.info && t.info[Held(t.tried, slot)].fInTried
                  && Save(t.info[Held(t.tried, slot)]) == w.triedEntries[j])
  {
    hide Loading, LoadTried, Unserialized, Proper, FromFile, NewAre, OthersTried, FirstsIn, Inv;
    var s, t := LoadTried(h, w, w.nTried), Unserialized(h, w).state;
    FileConsistent(h, w);
    ResultSurvives(h, w);
    TriedFirsts(h, w, w.nTried);
    TriedLoading(h, w, w.nTried);
    OthersAreTried(h, w, w.nTried);
    if FirstTried(h, w, j) {
      FirstKept(h, w, s, t, j);
    } else {
      LaterLost(h, w, s, t, j);
    }
  }

  lemma FirstKept(h: Hasher, w: Wire, s: State, t: State, j: nat)
    requires WellFormed(w) && j < w.nTried && Consistent(h, t) && Survives(s, t) && FirstsIn(h, w, s, w.nTried)
    requires FirstTried(h, w, j)
    ensures var slot := TriedSlotAt(h, w, j);
            && w.triedEntries[j].addr.service.ip in t.byAddr
            && slot in t.tried && Held(t.tried, slot) in t.info && t.info[Held(t.tried, slot)].fInTried
            && Save(t.info[Held(t.tried, slot)]) == w.triedEntries[j]
  {
    hide RandomOk, NewOk, RefsOk, TimesOk, CountsOk, FirstTried, TriedSlot, Proper, TakenBy;
    assert InSlot(h, w, s, j);
    var id := Held(t.tried, TriedSlotAt(h, w, j));
    assert Save(t.info[id]) == w.triedEntries[j];
  }

  lemma LaterLost(h: Hasher, w: Wire, s: State, t: State, j: nat)
    requires WellFormed(w) && j < w.nTried && Consistent(h, t) && Survives(s, t) && FirstsIn(h, w, s, w.nTried)
    requires s.nKey == w.nKey && FromFile(w, s.info, w.nNew + w.nTried) && NewAre(w, s.info, w.nNew)
    requires OthersTried(w, s)
    requires !FirstTried(h, w, j)
    ensures w.triedEntries[j].addr.service.ip !in t.byAddr
  {
    hide RandomOk, NewOk, RefsOk, TimesOk, CountsOk, TriedOk, FirstTried, FromFile, NewAre, OthersTried, FirstsIn,
      Survives;
    forall id | id in t.info
      ensures t.info[id].addr.service.ip != w.triedEntries[j].addr.service.ip
    {
      NotThisOne(h, w, s, t, j, id);
    }
  }

  lemma NotThisOne(h: Hasher, w: Wire, s: State, t: State, j: nat, id: int)
    requires WellFormed(w) && j < w.nTried && Consistent(h, t) && Survives(s, t) && FirstsIn(h, w, s, w.nTried)
    requires s.nKey == w.nKey && FromFile(w, s.info, w.nNew + w.nTried) && NewAre(w, s.info, w.nNew)
    requires OthersTried(w, s)
    requires !FirstTried(h, w, j) && id in t.info
    ensures t.info[id].addr.service.ip != w.triedEntries[j].addr.service.ip
  {
    hide Inv, Survives, FirstsIn, FirstTried, Proper, FromFile, NewAre, OthersTried;
    SurvivesAt(s, t, id);
    var k := WhichEntry(w, s.info, id, w.nNew + w.nTried);
    if t.info[id].addr.service.ip == w.triedEntries[j].addr.service.ip {
      SameAddress(w, k, w.nNew + j);
      WhichKind(w, s, id, j);
      var i := FirstSharer(h, w, j);
      TriedHolder(h, w, s, t, id, j);
      FirstIn(h, w, s, i);
      SameAddress(w, w.nNew + i, w.nNew + j);
      assert false;
    }
  }

  lemma SurvivesAt(s: State, t: State, id: int)
    requires Survives(s, t) && id in t.info
    ensures id in s.info && Save(t.info[id]) == Save(s.info[id]) && t.info[id].fInTried == s.info[id].fInTried
  {
  }

  lemma SameAddress(w: Wire, j: nat, k: nat)
    requires WellFormed(w) && j < w.nNew + w.nTried && k < w.nNew + w.nTried
    requires EntryAt(w, j).addr.service.ip == EntryAt(w, k).addr.service.ip
    ensures j == k
  {
  }

  /** An entry saved as a tried one is one. */
  lemma WhichKind(w: Wire, s: State, id: int, j: nat)
    requires WellFormed(w) && j < w.nTried && NewAre(w, s.info, w.nNew) && OthersTried(w, s)
    requires id in s.info && Save(s.info[id]) == w.triedEntries[j]
    ensures id >= 0 ==> s.info[id].fInTried
  {
    hide Proper;
    if 0 <= id < w.nNew {
      SameAddress(w, id, w.nNew + j);
    }
  }

  lemma TriedHolder(h: Hasher, w: Wire, s: State, t: State, id: int, j: nat)
    requires Consistent(h, t) && Survives(s, t) && s.nKey == w.nKey && id in t.info && j < |w.triedEntries|
    requires Save(s.info[id]) == w.triedEntries[j] && (id >= 0 ==> s.info[id].fInTried)
    ensures TriedSlotAt(h, w, j) in s.tried && Held(s.tried, TriedSlotAt(h, w, j)) == id
  {
    hide RandomOk, NewOk, RefsOk, TimesOk, CountsOk, TriedSlot;
  }

  lemma FirstIn(h: Hasher, w: Wire, s: State, i: nat)
    requires Sized(w) && i < w.nTried && FirstsIn(h, w, s, w.nTried) && FirstTried(h, w, i)
    ensures InSlot(h, w, s, i)
  {
    hide FirstTried, TriedSlotAt, InSlot, TakenBy;
  }

  lemma WhichEntry(w: Wire, info: Infos, id: int, m: nat) returns (k: nat)
    requires Sized(w) && m <= w.nNew + w.nTried && FromFile(w, info, m) && id in info
    ensures k < m && Save(info[id]) == EntryAt(w, k)
  {
    assert IsSaved(w, info[id], m);
    k :| k < m && Save(info[id]) == EntryAt(w, k);
  }
}
