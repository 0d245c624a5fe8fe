/** What a search of the mempool and of the extra transactions finds for the slots of a block
    (blockencodings.cpp), for any map from short ids to slots. */
module PoolScan {
  import opened Options
  import opened BlockSlots

  /** The short id of a transaction hash. */
  type ShortIds = nat -> nat

  // --- Hits ---------------------------------------------------------------------------------

  /** The map sends the transaction's short id to this slot. */
  predicate Lands(short: ShortIds, ids: map<nat, nat>, t: Tx, s: nat) {
    short(t.hash) in ids && ids[short(t.hash)] == s
  }

  /** The transactions that land in a slot, in order. */
  function Hits(short: ShortIds, ids: map<nat, nat>, txs: seq<Tx>, s: nat): (r: seq<Tx>)
    ensures forall k | 0 <= k < |r| :: r[k] in txs && Lands(short, ids, r[k], s)
  {
    if txs == [] then []
    else
      var n := |txs| - 1;
      Hits(short, ids, txs[..n], s) + if Lands(short, ids, txs[n], s) then [txs[n]] else []
  }

  lemma HitsNext(short: ShortIds, ids: map<nat, nat>, txs: seq<Tx>, t: Tx, s: nat)
    ensures Hits(short, ids, txs + [t], s) ==
            if Lands(short, ids, t, s) then Hits(short, ids, txs, s) + [t] else Hits(short, ids, txs, s)
  {
    assert (txs + [t])[..|txs|] == txs;
  }

  lemma NoHits(short: ShortIds, ids: map<nat, nat>, s: nat)
    ensures Hits(short, ids, [], s) == []
  {
  }

  lemma SingleHit(short: ShortIds, ids: map<nat, nat>, t: Tx, s: nat)
    ensures Hits(short, ids, [t], s) == if Lands(short, ids, t, s) then [t] else []
  {
    assert [t][..0] == [];
  }

  lemma {:induction false} HitsPrefix(short: ShortIds, ids: map<nat, nat>, txs: seq<Tx>, n: nat, s: nat)
    requires n <= |txs|
    ensures Hits(short, ids, txs[..n], s) <= Hits(short, ids, txs, s)
    decreases |txs|
  {
    if n < |txs| {
      var last := |txs| - 1;
      HitsPrefix(short, ids, txs[..last], n, s);
      assert txs[..last][..n] == txs[..n];
    } else {
      assert txs[..n] == txs;
    }
  }

  lemma {:induction false} EveryHit(short: ShortIds, ids: map<nat, nat>, txs: seq<Tx>, t: Tx, s: nat)
    requires t in txs && Lands(short, ids, t, s)
    ensures t in Hits(short, ids, txs, s)
  {
    var n := |txs| - 1;
    if txs[n] != t {
      assert t in txs[..n];
      EveryHit(short, ids, txs[..n], t, s);
    }
  }

  ghost predicate NoRepeats(txs: seq<Tx>) {
    forall i, j | 0 <= i < j < |txs| :: txs[i] != txs[j]
  }

  lemma {:induction false} HitsOnce(short: ShortIds, ids: map<nat, nat>, txs: seq<Tx>, s: nat, t: Tx)
    requires NoRepeats(txs)
    requires forall x <- Hits(short, ids, txs, s) :: x == t
    ensures |Hits(short, ids, txs, s)| <= 1
  {
    if txs != [] {
      var n := |txs| - 1;
      var front, hits := Hits(short, ids, txs[..n], s), Hits(short, ids, txs, s);
      assert forall x <- front :: x in hits;
      HitsOnce(short, ids, txs[..n], s, t);
      assert Lands(short, ids, txs[n], s) ==> txs[n] in hits;
      if front != [] {
        assert front[0] in front && front[0] in txs[..n];
        var i :| 0 <= i < n && txs[..n][i] == front[0];
        assert txs[i] == t && txs[i] != txs[n];
      }
    }
  }

  // --- What a slot gets ---------------------------------------------------------------------

  predicate SameWitness(c: seq<Tx>) {
    forall k | 0 <= k < |c| :: c[k].witnessHash == c[0].witnessHash
  }

  /** What the hits of a slot decide: nothing if two come from the mempool or if two of all differ in
      witness hash; otherwise the first of them. */
  function Verdict(mempool: seq<Tx>, extra: seq<Tx>): Option<Tx> {
    var c := mempool + extra;
    if |mempool| >= 2 || c == [] || !SameWitness(c) then None else Some(c[0])
  }

  /** A slot that held `first` before: without a hit it is left alone. */
  function Outcome(first: Option<Tx>, mempool: seq<Tx>, extra: seq<Tx>): Option<Tx> {
    if mempool + extra == [] then first else Verdict(mempool, extra)
  }

  predicate Settled(first: Option<Tx>, slot: Option<Tx>, have: bool, mempool: seq<Tx>, extra: seq<Tx>) {
    slot == Outcome(first, mempool, extra) && (have <==> mempool + extra != [])
  }

  /** One more mempool transaction lands. */
  function PoolStep(slot: Option<Tx>, have: bool, t: Tx): Option<Tx> {
    if !have then Some(t) else None
  }

  /** One more extra transaction lands. */
  function ExtraStep(slot: Option<Tx>, have: bool, t: Tx): Option<Tx> {
    if !have then Some(t) else if slot.Some? && slot.value.witnessHash != t.witnessHash then None else slot
  }

  lemma PoolSettles(first: Option<Tx>, slot: Option<Tx>, have: bool, mempool: seq<Tx>, t: Tx)
    requires Settled(first, slot, have, mempool, [])
    ensures Settled(first, PoolStep(slot, have, t), true, mempool + [t], [])
  {
    assert mempool + [] == mempool && mempool + [t] + [] == mempool + [t];
  }

  lemma ExtraSettles(first: Option<Tx>, slot: Option<Tx>, have: bool, mempool: seq<Tx>, extra: seq<Tx>, t: Tx)
    requires Settled(first, slot, have, mempool, extra)
    ensures Settled(first, ExtraStep(slot, have, t), true, mempool, extra + [t])
  {
    var c, d := mempool + extra, mempool + (extra + [t]);
    assert d == c + [t] && forall k | 0 <= k < |c| :: d[k] == c[k];
    assert d[|c|] == t;
  }

  // --- All slots ----------------------------------------------------------------------------

  ghost predicate InRange(ids: map<nat, nat>, n: nat) {
    forall id <- ids :: ids[id] < n
  }

  /** The slots after this much of the mempool and of the extra transactions was looked at. */
  ghost predicate Scanned(short: ShortIds, ids: map<nat, nat>, placed: Slots, a: Slots, have: seq<bool>,
                          mempool: seq<Tx>, extra: seq<Tx>)
  {
    && |a| == |have| == |placed|
    && (forall s: nat | s < |a| ::
          Settled(placed[s], a[s], have[s], Hits(short, ids, mempool, s), Hits(short, ids, extra, s)))
  }

  lemma NothingScanned(short: ShortIds, ids: map<nat, nat>, placed: Slots, have: seq<bool>)
    requires |have| == |placed| && forall s | 0 <= s < |have| :: !have[s]
    ensures Scanned(short, ids, placed, placed, have, [], []) && FoundSlots(placed, have) == {}
  {
  }

  lemma PoolScanned(short: ShortIds, ids: map<nat, nat>, placed: Slots, a: Slots, have: seq<bool>,
                    mempool: seq<Tx>, t: Tx)
    requires InRange(ids, |a|) && Scanned(short, ids, placed, a, have, mempool, [])
    ensures var id := short(t.hash);
            if id in ids then
              var s := ids[id];
              Scanned(short, ids, placed, a[s := PoolStep(a[s], have[s], t)], have[s := true], mempool + [t], [])
            else Scanned(short, ids, placed, a, have, mempool + [t], [])
  {
    hide Settled, PoolStep, Hits;
    forall s: nat | s < |a|
      ensures Hits(short, ids, mempool + [t], s) ==
              if Lands(short, ids, t, s) then Hits(short, ids, mempool, s) + [t] else Hits(short, ids, mempool, s)
    {
      HitsNext(short, ids, mempool, t, s);
    }
    if short(t.hash) in ids {
      var s := ids[short(t.hash)];
      NoHits(short, ids, s);
      PoolSettles(placed[s], a[s], have[s], Hits(short, ids, mempool, s), t);
    }
  }

  lemma ExtraScanned(short: ShortIds, ids: map<nat, nat>, placed: Slots, a: Slots, have: seq<bool>,
                     mempool: seq<Tx>, extra: seq<Tx>, t: Tx)
    requires InRange(ids, |a|) && Scanned(short, ids, placed, a, have, mempool, extra)
    ensures var id := short(t.hash);
            if id in ids then
              var s := ids[id];
              Scanned(short, ids, placed, a[s := ExtraStep(a[s], have[s], t)], have[s := true], mempool, extra + [t])
            else Scanned(short, ids, placed, a, have, mempool, extra + [t])
  {
    hide Settled, ExtraStep, Hits;
    forall s: nat | s < |a|
      ensures Hits(short, ids, extra + [t], s) ==
              if Lands(short, ids, t, s) then Hits(short, ids, extra, s) + [t] else Hits(short, ids, extra, s)
    {
      HitsNext(short, ids, extra, t, s);
    }
    if short(t.hash) in ids {
      var s := ids[short(t.hash)];
      ExtraSettles(placed[s], a[s], have[s], Hits(short, ids, mempool, s), Hits(short, ids, extra, s), t);
    }
  }

  lemma Unchanged<T>(s: seq<T>, i: nat)
    requires i < |s|
    ensures s[i := s[i]] == s
  {
  }

  // --- Counting -----------------------------------------------------------------------------

  /** The slots that were found in a list and are still filled. */
  function FoundSlots(a: Slots, have: seq<bool>): set<nat>
    requires |a| == |have|
  {
    set s: nat | s < |a| && have[s] && a[s].Some?
  }

  lemma FoundOne(a: Slots, have: seq<bool>, slot: nat, tx: Tx)
    requires |a| == |have| && slot < |a| && !have[slot]
    ensures |FoundSlots(a[slot := Some(tx)], have[slot := true])| == |FoundSlots(a, have)| + 1
  {
    assert FoundSlots(a[slot := Some(tx)], have[slot := true]) == FoundSlots(a, have) + {slot};
  }

  lemma LostOne(a: Slots, have: seq<bool>, slot: nat)
    requires |a| == |have| && slot < |a| && have[slot] && a[slot].Some?
    ensures |FoundSlots(a[slot := None], have)| == |FoundSlots(a, have)| - 1 && |FoundSlots(a, have)| > 0
  {
    assert FoundSlots(a[slot := None], have) == FoundSlots(a, have) - {slot};
    assert slot in FoundSlots(a, have);
  }

  /** Every slot that a short id stands for was found and is filled. */
  ghost predicate AllFilled(short: ShortIds, ids: map<nat, nat>, a: Slots, mempool: seq<Tx>, extra: seq<Tx>) {
    forall id <- ids ::
      ids[id] < |a| && a[ids[id]].Some? && Hits(short, ids, mempool, ids[id]) + Hits(short, ids, extra, ids[id]) != []
  }

  /** When as many slots were found as there are short ids, every one of them is filled. */
  lemma AllFound(short: ShortIds, ids: map<nat, nat>, placed: Slots, a: Slots, have: seq<bool>,
                 mempool: seq<Tx>, extra: seq<Tx>)
    requires Scanned(short, ids, placed, a, have, mempool, extra) && |FoundSlots(a, have)| == |ids|
    ensures AllFilled(short, ids, a, mempool, extra)
  {
    var wanted := Image(ids);
    var found := FoundSlots(a, have);
    forall s | s in found
      ensures s in wanted
    {
      var c := Hits(short, ids, mempool, s) + Hits(short, ids, extra, s);
      assert c != [] && Lands(short, ids, c[0], s);
    }
    ImageSize(ids);
    SameSet(found, wanted);
    forall id | id in ids
      ensures ids[id] in found
    {
      assert ids[id] in wanted;
    }
  }

  function Image(ids: map<nat, nat>): set<nat> {
    set id | id in ids :: ids[id]
  }

  /** No two short ids share a slot. */
  ghost predicate OneEach(ids: map<nat, nat>) {
    forall i, j | i in ids && j in ids && i != j :: ids[i] != ids[j]
  }

  lemma {:induction false} ImageSize(ids: map<nat, nat>)
    ensures |Image(ids)| <= |ids| && (OneEach(ids) ==> |Image(ids)| == |ids|)
    decreases |ids|
  {
    if ids != map[] {
      var id :| id in ids.Keys;
      var rest := ids - {id};
      assert rest.Keys == ids.Keys - {id};
      ImageSize(rest);
      ImageWithout(ids, id);
    } else {
      assert Image(ids) == {};
    }
  }

  lemma ImageWithout(ids: map<nat, nat>, id: nat)
    requires id in ids
    ensures Image(ids) == Image(ids - {id}) + {ids[id]}
    ensures OneEach(ids) ==> OneEach(ids - {id}) && ids[id] !in Image(ids - {id})
  {
    forall s | s in Image(ids)
      ensures s in Image(ids - {id}) + {ids[id]}
    {
      var i :| i in ids && ids[i] == s;
      assert i != id ==> i in ids - {id};
    }
  }

  lemma {:induction false} SameSet(a: set<nat>, b: set<nat>)
    requires a <= b && |b| <= |a|
    ensures a == b
  {
    assert |b - a| == |b| - |a|;
  }

  // --- In spite of the early stops ----------------------------------------------------------

  /** A slot against the hits of the full lists: untouched without any, the verdict if there is one,
      and never anything but a hit. */
  predicate Recovers(first: Option<Tx>, slot: Option<Tx>, mempool: seq<Tx>, extra: seq<Tx>) {
    && (mempool + extra == [] ==> slot == first)
    && (Verdict(mempool, extra).Some? ==> slot == Verdict(mempool, extra))
    && (mempool + extra != [] && slot.Some? ==> slot.value in mempool + extra)
  }

  ghost predicate Recovered(short: ShortIds, ids: map<nat, nat>, placed: Slots, a: Slots, pool: seq<Tx>, extra: seq<Tx>)
  {
    && |a| == |placed|
    && (forall s: nat | s < |a| :: Recovers(placed[s], a[s], Hits(short, ids, pool, s), Hits(short, ids, extra, s)))
  }

  lemma RecoversOne(first: Option<Tx>, slot: Option<Tx>, t: Tx)
    requires Recovers(first, slot, [t], [])
    ensures slot == Some(t)
  {
    assert [t] + [] == [t];
  }

  lemma RecoversNone(first: Option<Tx>, slot: Option<Tx>)
    requires Recovers(first, slot, [], [])
    ensures slot == first
  {
  }

  /** One slot, of which prefixes of the hits were seen. */
  lemma RecoversSlot(first: Option<Tx>, mid: Option<Tx>, slot: Option<Tx>,
                     p: seq<Tx>, mempool: seq<Tx>, e: seq<Tx>, extra: seq<Tx>)
    requires p <= mempool && e <= extra && mid == Outcome(first, p, []) && slot == Outcome(first, p, e)
    requires p == mempool || (mid.Some? && p != [])
    requires e == extra || (slot.Some? && p + e != [])
    ensures Recovers(first, slot, mempool, extra)
  {
    assert p + [] == p;
    var c, d := p + e, mempool + extra;
    if Verdict(mempool, extra).Some? {
      assert p == mempool;
      assert forall k | 0 <= k < |c| :: d[k] == c[k];
    } else if c != [] {
      assert c[0] in d;
    }
  }

  /** What the full lists decide on for a slot is there, although the scans may stop early. */
  lemma RecoveredAll(short: ShortIds, ids: map<nat, nat>, placed: Slots,
                     mid: Slots, had: seq<bool>, pool: seq<Tx>, nPool: nat,
                     a: Slots, have: seq<bool>, extra: seq<Tx>, nExtra: nat)
    requires nPool <= |pool| && Scanned(short, ids, placed, mid, had, pool[..nPool], [])
    requires nExtra <= |extra| && Scanned(short, ids, placed, a, have, pool[..nPool], extra[..nExtra])
    requires nPool == |pool| || AllFilled(short, ids, mid, pool[..nPool], [])
    requires nExtra == |extra| || AllFilled(short, ids, a, pool[..nPool], extra[..nExtra])
    ensures Recovered(short, ids, placed, a, pool, extra)
  {
    hide Recovers, Scanned, AllFilled;
    ScannedLength(short, ids, placed, a, have, pool[..nPool], extra[..nExtra]);
    forall s: nat | s < |a|
      ensures Recovers(placed[s], a[s], Hits(short, ids, pool, s), Hits(short, ids, extra, s))
    {
      RecoveredAt(short, ids, placed, mid, had, pool, nPool, a, have, extra, nExtra, s);
    }
  }

  lemma ScannedLength(short: ShortIds, ids: map<nat, nat>, placed: Slots, a: Slots, have: seq<bool>,
                      mempool: seq<Tx>, extra: seq<Tx>)
    requires Scanned(short, ids, placed, a, have, mempool, extra)
    ensures |a| == |have| == |placed|
  {
  }

  lemma RecoveredAt(short: ShortIds, ids: map<nat, nat>, placed: Slots,
                    mid: Slots, had: seq<bool>, pool: seq<Tx>, nPool: nat,
                    a: Slots, have: seq<bool>, extra: seq<Tx>, nExtra: nat, s: nat)
    requires nPool <= |pool| && Scanned(short, ids, placed, mid, had, pool[..nPool], [])
    requires nExtra <= |extra| && Scanned(short, ids, placed, a, have, pool[..nPool], extra[..nExtra])
    requires nPool == |pool| || AllFilled(short, ids, mid, pool[..nPool], [])
    requires nExtra == |extra| || AllFilled(short, ids, a, pool[..nPool], extra[..nExtra])
    requires s < |a| == |placed|
    ensures Recovers(placed[s], a[s], Hits(short, ids, pool, s), Hits(short, ids, extra, s))
  {
    hide Hits, Recovers, Outcome;
    var p, e := Hits(short, ids, pool[..nPool], s), Hits(short, ids, extra[..nExtra], s);
    var mempool, more := Hits(short, ids, pool, s), Hits(short, ids, extra, s);
    HitsPrefix(short, ids, pool, nPool, s);
    HitsPrefix(short, ids, extra, nExtra, s);
    NoHits(short, ids, s);
    assert nPool == |pool| ==> pool[..nPool] == pool;
    assert nExtra == |extra| ==> extra[..nExtra] == extra;
    if mempool + more == [] {
      assert p == mempool && e == more;
    } else {
      OwnedSlot(short, ids, pool, extra, s);
      assert p + [] == p;
    }
    RecoversSlot(placed[s], mid[s], a[s], p, mempool, e, more);
  }

  /** A slot with a hit is the slot of a short id. */
  lemma OwnedSlot(short: ShortIds, ids: map<nat, nat>, pool: seq<Tx>, extra: seq<Tx>, s: nat)
    requires Hits(short, ids, pool, s) + Hits(short, ids, extra, s) != []
    ensures exists id :: id in ids && ids[id] == s
  {
    var c := Hits(short, ids, pool, s) + Hits(short, ids, extra, s);
    assert Lands(short, ids, c[0], s);
  }
}
