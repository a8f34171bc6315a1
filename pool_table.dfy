/**
 * One model type's table in the endpoint pool of the on-demand service:
 * endpoint id -> {endpoint object, created_at, in_use}. Python dicts keep
 * insertion order and `max`/`min` with a key return the FIRST extreme element
 * in that order, so a table is an insertion-ordered sequence of slots with
 * distinct ids. Timestamps are whole seconds.
 */
module PoolTable {
  import opened Wrappers

  type EndpointId = string

  /** The remote endpoint object the pool holds on to; only its identity
      matters here. */
  datatype Handle = Handle(resourceName: string)

  /** `created_at` is the creation time until the first release and the
      time of the latest release afterwards. */
  datatype Entry = Entry(handle: Handle, createdAt: int, inUse: bool)

  datatype Slot = Slot(id: EndpointId, entry: Entry)

  type Table = seq<Slot>

  /** MAX_ENDPOINTS_PER_TYPE */
  const MaxEndpointsPerType: nat := 2

  /** A dict has at most one entry per key. */
  predicate DistinctIds(t: Table)
  {
    forall i, j :: 0 <= i < j < |t| ==> t[i].id != t[j].id
  }

  /** The position of `id` in the table, if it is there. */
  function IndexOf(t: Table, id: EndpointId): (r: Option<nat>)
    ensures r.Some? ==> r.value < |t| && t[r.value].id == id
    ensures r.Some? ==> forall j :: 0 <= j < r.value ==> t[j].id != id
    ensures r.None? <==> forall j :: 0 <= j < |t| ==> t[j].id != id
  {
    if t == [] then None
    else if t[0].id == id then Some(0)
    else match IndexOf(t[1..], id)
      case None => None
      case Some(k) => Some(k + 1)
  }

  /** `table.get(id)` */
  function EntryOf(t: Table, id: EndpointId): Option<Entry>
  {
    match IndexOf(t, id)
    case None => None
    case Some(k) => Some(t[k].entry)
  }

  lemma IndexOfDistinct(t: Table, k: nat)
    requires DistinctIds(t) && k < |t|
    ensures IndexOf(t, t[k].id) == Some(k)
    ensures EntryOf(t, t[k].id) == Some(t[k].entry)
  {
  }

  /** Two tables with the same ids at the same positions find every id at
      the same place. */
  lemma IndexOfSameIds(t: Table, u: Table, id: EndpointId)
    requires |t| == |u|
    requires forall i :: 0 <= i < |t| ==> t[i].id == u[i].id
    ensures IndexOf(t, id) == IndexOf(u, id)
  {
    var a, b := IndexOf(t, id), IndexOf(u, id);
    if a.Some? {
      assert u[a.value].id == id;
    }
    if b.Some? {
      assert t[b.value].id == id;
    }
  }

  /** `table[id] = entry`: an existing key keeps its position, a new key
      goes last. */
  function Put(t: Table, id: EndpointId, e: Entry): (r: Table)
    ensures |r| == if IndexOf(t, id).Some? then |t| else |t| + 1
    ensures DistinctIds(t) ==> DistinctIds(r)
    ensures IndexOf(r, id).Some? && EntryOf(r, id) == Some(e)
    ensures IndexOf(t, id).None? ==> r == t + [Slot(id, e)]
    ensures IndexOf(t, id).Some? ==> r == t[IndexOf(t, id).value := Slot(id, e)]
  {
    match IndexOf(t, id)
    case Some(k) =>
      var r := t[k := Slot(id, e)];
      IndexOfSameIds(t, r, id);
      r
    case None =>
      var r := t + [Slot(id, e)];
      assert forall j :: 0 <= j < |t| ==> r[j] == t[j];
      assert r[|t|].id == id;
      assert IndexOf(r, id) == Some(|t|);
      r
  }

  /** Put leaves every slot with another id where it was. */
  lemma PutKeepsOthers(t: Table, id: EndpointId, e: Entry)
    ensures forall s :: s in t && s.id != id ==> s in Put(t, id, e)
    ensures forall s :: s in Put(t, id, e) && s.id != id ==> s in t
  {
    var r := Put(t, id, e);
    forall s | s in t && s.id != id ensures s in r {
      var j :| 0 <= j < |t| && t[j] == s;
      assert r[j] == s;
    }
    forall s | s in r && s.id != id ensures s in t {
      var j :| 0 <= j < |r| && r[j] == s;
      assert j < |t| && t[j] == s;
    }
  }

  /** `del table[id]` for an id that may be absent. */
  function Remove(t: Table, id: EndpointId): (r: Table)
    ensures |r| == if IndexOf(t, id).Some? then |t| - 1 else |t|
    ensures DistinctIds(t) ==> DistinctIds(r) && IndexOf(r, id).None?
  {
    match IndexOf(t, id)
    case None => t
    case Some(k) =>
      var r := t[..k] + t[k + 1..];
      assert forall j :: 0 <= j < k ==> r[j] == t[j];
      assert forall j :: k < j < |t| ==> r[j - 1] == t[j];
      r
  }

  /** Remove deletes no slot but the one with its id. */
  lemma RemoveKeepsOthers(t: Table, id: EndpointId)
    ensures forall s :: s in Remove(t, id) ==> s in t
    ensures forall s :: s in t && s.id != id ==> s in Remove(t, id)
  {
    if IndexOf(t, id).Some? {
      var k := IndexOf(t, id).value;
      assert Remove(t, id) == t[..k] + t[k + 1..];
      DropAt(t, k);
    }
  }

  /** Cutting out position k loses only t[k]. */
  lemma DropAt(t: Table, k: nat)
    requires k < |t|
    ensures forall s :: s in t[..k] + t[k + 1..] ==> s in t
    ensures forall s :: s in t && s != t[k] ==> s in t[..k] + t[k + 1..]
  {
    var r := t[..k] + t[k + 1..];
    forall s | s in t && s != t[k] ensures s in r {
      var j :| 0 <= j < |t| && t[j] == s;
      if j < k { assert r[j] == s; } else { assert r[j - 1] == s; }
    }
    forall s | s in r ensures s in t {
      var j :| 0 <= j < |r| && r[j] == s;
      if j < k { assert t[j] == s; } else { assert t[j + 1] == s; }
    }
  }

  /** Removing the one slot with its id from the middle of a table leaves
      the slots before it and the slots after it. */
  lemma RemoveMiddle(p: Table, x: Slot, q: Table)
    requires DistinctIds(p + [x] + q)
    ensures Remove(p + [x] + q, x.id) == p + q
  {
    var t := p + [x] + q;
    IndexOfDistinct(t, |p|);
    assert t[..|p|] == p;
    assert t[|p| + 1..] == q;
  }

  /** The free slot `get_available_endpoint` picks: among the slots that are
      not in use, the first one whose `created_at` is the largest. */
  function MostRecentFree(t: Table): (r: Option<nat>)
    ensures r.None? <==> forall i :: 0 <= i < |t| ==> t[i].entry.inUse
    ensures r.Some? ==> r.value < |t| && !t[r.value].entry.inUse
    ensures r.Some? ==> forall i :: 0 <= i < |t| && !t[i].entry.inUse ==>
                          t[i].entry.createdAt <= t[r.value].entry.createdAt
    ensures r.Some? ==> forall i :: 0 <= i < r.value && !t[i].entry.inUse ==>
                          t[i].entry.createdAt < t[r.value].entry.createdAt
    decreases |t|
  {
    if t == [] then None
    else
      var best := MostRecentFree(t[..|t| - 1]);
      var last := t[|t| - 1];
      if !last.entry.inUse && (best.None? || last.entry.createdAt > t[best.value].entry.createdAt)
      then Some(|t| - 1)
      else best
  }

  /** The slot the capacity rule of `add_endpoint` looks at: the first one
      whose `created_at` is the smallest. */
  function Oldest(t: Table): (k: nat)
    requires t != []
    ensures k < |t|
    ensures forall i :: 0 <= i < |t| ==> t[k].entry.createdAt <= t[i].entry.createdAt
    ensures forall i :: 0 <= i < k ==> t[k].entry.createdAt < t[i].entry.createdAt
    decreases |t|
  {
    if |t| == 1 then 0
    else
      var k := Oldest(t[..|t| - 1]);
      if t[|t| - 1].entry.createdAt < t[k].entry.createdAt then |t| - 1 else k
  }

  /** `EndpointPool.get_available_endpoint` on a table that exists: the id
      handed out, and the table afterwards. */
  function Acquire(t: Table): (Option<EndpointId>, Table)
  {
    match MostRecentFree(t)
    case None => (None, t)
    case Some(k) => (Some(t[k].id), t[k := Slot(t[k].id, t[k].entry.(inUse := true))])
  }

  /** `EndpointPool.release_endpoint` on a table that exists. */
  function Released(t: Table, id: EndpointId, now: int): Table
  {
    match IndexOf(t, id)
    case None => t
    case Some(k) => t[k := Slot(id, t[k].entry.(createdAt := now, inUse := false))]
  }

  /** The slot the capacity rule of `add_endpoint` deletes from the table `t1`
      it has just inserted `id` into, if any. */
  function Evicted(t1: Table, id: EndpointId): Option<Slot>
  {
    if |t1| > MaxEndpointsPerType && t1[Oldest(t1)].id != id && !t1[Oldest(t1)].entry.inUse
    then Some(t1[Oldest(t1)])
    else None
  }

  /** `EndpointPool.add_endpoint` on a table (an absent table is `[]`). */
  function Added(t: Table, id: EndpointId, h: Handle, now: int): Table
  {
    var t1 := Put(t, id, Entry(h, now, true));
    match Evicted(t1, id)
    case None => t1
    case Some(s) => Remove(t1, s.id)
  }

  lemma AddedKeepsDistinct(t: Table, id: EndpointId, h: Handle, now: int)
    requires DistinctIds(t)
    ensures DistinctIds(Added(t, id, h, now))
  {
    AddedSpec(t, id, h, now);
  }

  /** `cleanup_all` on one table: the slots that are in use. */
  function Swept(t: Table): (r: Table)
    ensures |r| <= |t|
    decreases |t|
  {
    if t == [] then []
    else if t[|t| - 1].entry.inUse then Swept(t[..|t| - 1]) + [t[|t| - 1]]
    else Swept(t[..|t| - 1])
  }

  /** The number of slots that are not in use. */
  function CountFree(t: Table): nat
    decreases |t|
  {
    if t == [] then 0
    else CountFree(t[..|t| - 1]) + (if t[|t| - 1].entry.inUse then 0 else 1)
  }

  // ---------------------------------------------------------------------
  // What the operations promise.

  /** Acquire hands out a free slot with the latest `created_at` (the first
      such) and marks only that slot in use; with no free slot it hands out
      nothing and changes nothing. */
  lemma AcquireSpec(t: Table)
    requires DistinctIds(t)
    ensures var (r, u) := Acquire(t);
      && |u| == |t| && DistinctIds(u)
      && (r.None? <==> forall i :: 0 <= i < |t| ==> t[i].entry.inUse)
      && (r.None? ==> u == t)
      && (r.Some? ==>
            exists k :: (0 <= k < |t| && t[k].id == r.value
              && !t[k].entry.inUse
              && (forall i :: 0 <= i < |t| && !t[i].entry.inUse ==> t[i].entry.createdAt <= t[k].entry.createdAt)
              && u[k] == Slot(t[k].id, t[k].entry.(inUse := true))
              && (forall i :: 0 <= i < |t| && i != k ==> u[i] == t[i])))
  {
  }

  /** Two acquires in a row never hand out the same endpoint; when exactly
      one slot was free, the second finds none. */
  lemma {:induction false} NeverDoubleServe(t: Table)
    requires DistinctIds(t)
    requires Acquire(t).0.Some?
    ensures Acquire(Acquire(t).1).0 != Acquire(t).0
    ensures CountFree(t) == 1 ==> Acquire(Acquire(t).1).0.None?
  {
    var k := MostRecentFree(t).value;
    var u := Acquire(t).1;
    var r2 := Acquire(u).0;
    if r2.Some? {
      var k2 := MostRecentFree(u).value;
      assert k2 != k;
      assert u[k2].id != t[k].id;
    }
    if CountFree(t) == 1 {
      CountFreeOne(t, k);
      assert forall i :: 0 <= i < |u| ==> u[i].entry.inUse;
    }
  }

  /** With exactly one free slot, that slot is the only one not in use. */
  lemma {:induction false} CountFreeOne(t: Table, k: nat)
    requires k < |t| && !t[k].entry.inUse && CountFree(t) == 1
    ensures forall i :: 0 <= i < |t| && i != k ==> t[i].entry.inUse
  {
    forall i | 0 <= i < |t| && i != k ensures t[i].entry.inUse {
      if !t[i].entry.inUse {
        CountFreeTwo(t, i, k);
      }
    }
  }

  lemma {:induction false} CountFreeTwo(t: Table, i: nat, k: nat)
    requires i < |t| && k < |t| && i != k
    requires !t[i].entry.inUse && !t[k].entry.inUse
    ensures CountFree(t) >= 2
  {
    var n := |t| - 1;
    if i == n || k == n {
      var other := if i == n then k else i;
      CountFreeAtLeastOne(t[..n], other);
    } else {
      CountFreeTwo(t[..n], i, k);
    }
  }

  lemma {:induction false} CountFreeAtLeastOne(t: Table, i: nat)
    requires i < |t| && !t[i].entry.inUse
    ensures CountFree(t) >= 1
  {
    if i < |t| - 1 {
      CountFreeAtLeastOne(t[..|t| - 1], i);
    }
  }

  /** Release of an absent id changes nothing; otherwise the slot keeps its
      place and handle, becomes free and takes `now` as its timestamp, and
      every other slot is unchanged. */
  lemma ReleasedSpec(t: Table, id: EndpointId, now: int)
    requires DistinctIds(t)
    ensures var r := Released(t, id, now);
      && DistinctIds(r) && |r| == |t|
      && (IndexOf(t, id).None? ==> r == t)
      && (IndexOf(t, id).Some? ==>
            EntryOf(r, id) == Some(Entry(EntryOf(t, id).value.handle, now, false)))
      && (forall i :: 0 <= i < |t| && t[i].id != id ==> r[i] == t[i])
  {
    var r := Released(t, id, now);
    if IndexOf(t, id).Some? {
      IndexOfSameIds(t, r, id);
    }
  }

  /** add_endpoint stores the new entry in use with timestamp `now`, changes
      no other entry, and deletes at most one other: a free slot with the
      smallest timestamp, and only when the table then holds more than
      MaxEndpointsPerType entries. An in-use oldest slot blocks the
      deletion, so the table may stay above capacity. */
  lemma AddedSpec(t: Table, id: EndpointId, h: Handle, now: int)
    requires DistinctIds(t)
    ensures var t1 := Put(t, id, Entry(h, now, true));
      var r := Added(t, id, h, now);
      var ev := Evicted(t1, id);
      && DistinctIds(r)
      && EntryOf(r, id) == Some(Entry(h, now, true))
      && (forall s :: s in r && s.id != id ==> s in t)
      && (forall s :: s in t && s.id != id ==> s in r || ev == Some(s))
      && |r| == (if ev.Some? then |t1| - 1 else |t1|)
      && (ev.Some? <==> |t1| > MaxEndpointsPerType && t1[Oldest(t1)].id != id && !t1[Oldest(t1)].entry.inUse)
      && (ev.Some? ==>
            (ev.value in t && ev.value.id != id && !ev.value.entry.inUse
             && forall s :: s in t1 ==> ev.value.entry.createdAt <= s.entry.createdAt))
  {
    var t1 := Put(t, id, Entry(h, now, true));
    PutKeepsOthers(t, id, Entry(h, now, true));
    var ev := Evicted(t1, id);
    if ev.Some? {
      var s := ev.value;
      RemoveKeepsOthers(t1, s.id);
      assert s in t1;
      assert IndexOf(t1, s.id).Some?;
      EntryAfterRemove(t1, s.id, id);
    }
  }

  /** Removing one id leaves every other id's entry as it was. */
  lemma EntryAfterRemove(t: Table, gone: EndpointId, id: EndpointId)
    requires DistinctIds(t) && gone != id
    ensures EntryOf(Remove(t, gone), id) == EntryOf(t, id)
  {
    var r := Remove(t, gone);
    RemoveKeepsOthers(t, gone);
    match IndexOf(t, id)
    case None =>
      assert forall j :: 0 <= j < |r| ==> r[j].id != id by {
        forall j | 0 <= j < |r| ensures r[j].id != id {
          assert r[j] in t;
        }
      }
    case Some(k) =>
      assert t[k] in r;
      var k' :| 0 <= k' < |r| && r[k'] == t[k];
      IndexOfDistinct(r, k');
  }

  /** Capacity bound: a brand-new endpoint added to a full table
      whose oldest slot is free leaves exactly MaxEndpointsPerType slots, the
      oldest one gone. */
  lemma {:induction false} CapacityBound(t: Table, id: EndpointId, h: Handle, now: int)
    requires DistinctIds(t) && |t| == MaxEndpointsPerType
    requires IndexOf(t, id).None?
    requires forall i :: 0 <= i < |t| ==> t[i].entry.createdAt < now
    requires !t[Oldest(t)].entry.inUse
    ensures |Added(t, id, h, now)| == MaxEndpointsPerType
    ensures IndexOf(Added(t, id, h, now), t[Oldest(t)].id).None?
  {
    var t1 := Put(t, id, Entry(h, now, true));
    assert t1 == t + [Slot(id, Entry(h, now, true))];
    assert t1[..|t1| - 1] == t;
    assert Oldest(t1) == Oldest(t);
    var o := Oldest(t);
    assert t1[o] == t[o];
    assert t[o].id != id;
    assert Evicted(t1, id) == Some(t[o]);
    assert DistinctIds(t1);
  }

  /** Single free-handle reuse: after a release at `now`, when
      every other free slot is older, the next acquire hands out the
      released endpoint. */
  lemma {:induction false} ReuseAfterRelease(t: Table, id: EndpointId, now: int)
    requires DistinctIds(t) && IndexOf(t, id).Some?
    requires forall i :: 0 <= i < |t| && t[i].id != id && !t[i].entry.inUse ==> t[i].entry.createdAt < now
    ensures Acquire(Released(t, id, now)).0 == Some(id)
  {
    var k := IndexOf(t, id).value;
    var r := Released(t, id, now);
    assert r[k].id == id && !r[k].entry.inUse && r[k].entry.createdAt == now;
    assert MostRecentFree(r).Some?;
  }

  /** After add and then release of the same endpoint into a table whose
      other free slots are all older than the release, acquire returns it. */
  lemma {:induction false} AddReleaseAcquire(t: Table, id: EndpointId, h: Handle, created: int, released: int)
    requires DistinctIds(t)
    requires forall i :: 0 <= i < |t| && !t[i].entry.inUse ==> t[i].entry.createdAt < released
    ensures Acquire(Released(Added(t, id, h, created), id, released)).0 == Some(id)
  {
    var a := Added(t, id, h, created);
    AddedOthersOlder(t, id, h, created, released);
    ReuseAfterRelease(a, id, released);
  }

  lemma AddedOthersOlder(t: Table, id: EndpointId, h: Handle, created: int, released: int)
    requires DistinctIds(t)
    requires forall i :: 0 <= i < |t| && !t[i].entry.inUse ==> t[i].entry.createdAt < released
    ensures var a := Added(t, id, h, created);
      && DistinctIds(a) && IndexOf(a, id).Some?
      && forall i :: 0 <= i < |a| && a[i].id != id && !a[i].entry.inUse ==> a[i].entry.createdAt < released
  {
    var a := Added(t, id, h, created);
    AddedSpec(t, id, h, created);
    forall i | 0 <= i < |a| && a[i].id != id && !a[i].entry.inUse
      ensures a[i].entry.createdAt < released
    {
      assert a[i] in t;
    }
  }

  /** The sweep keeps exactly the slots in use, in their order, and removes
      CountFree(t) slots. */
  lemma {:induction false} SweptSpec(t: Table)
    ensures forall s :: s in Swept(t) ==> s in t && s.entry.inUse
    ensures forall s :: s in t && s.entry.inUse ==> s in Swept(t)
    ensures |Swept(t)| + CountFree(t) == |t|
    decreases |t|
  {
    if t != [] {
      var p := t[..|t| - 1];
      SweptSpec(p);
      assert t == p + [t[|t| - 1]];
    }
  }

  /** Sweeping the slots already visited keeps ids distinct next to the
      slots still to visit. */
  lemma {:induction false} SweptDistinct(a: Table, b: Table)
    requires DistinctIds(a + b)
    ensures DistinctIds(Swept(a) + b)
    decreases |a|
  {
    if a != [] {
      var p := a[..|a| - 1];
      var x := a[|a| - 1];
      assert a == p + [x];
      assert a + b == p + ([x] + b);
      if x.entry.inUse {
        SweptDistinct(p, [x] + b);
        assert Swept(a) + b == Swept(p) + ([x] + b);
      } else {
        DistinctDrop(p, x, b);
        SweptDistinct(p, b);
      }
    }
  }

  lemma DistinctDrop(p: Table, x: Slot, q: Table)
    requires DistinctIds(p + ([x] + q))
    ensures DistinctIds(p + q)
  {
    var t := p + ([x] + q);
    var u := p + q;
    forall i, j | 0 <= i < j < |u| ensures u[i].id != u[j].id {
      var i' := if i < |p| then i else i + 1;
      var j' := if j < |p| then j else j + 1;
      assert u[i] == t[i'] && u[j] == t[j'];
    }
  }

  /** One step of cleanup_all's inner loop: the slot at position k either
      stays (in use) or is deleted (free). */
  lemma {:induction false} SweepStep(t: Table, k: nat)
    requires k < |t|
    ensures t[..k + 1] == t[..k] + [t[k]]
    ensures Swept(t[..k + 1]) == if t[k].entry.inUse then Swept(t[..k]) + [t[k]] else Swept(t[..k])
    ensures CountFree(t[..k + 1]) == CountFree(t[..k]) + (if t[k].entry.inUse then 0 else 1)
  {
    assert t[..k + 1][..k] == t[..k];
  }

  /** The table while cleanup_all's inner loop is at position k of its
      snapshot t: the visited slots swept, the rest untouched. */
  function PartlySwept(t: Table, k: nat): Table
    requires k <= |t|
  {
    Swept(t[..k]) + t[k..]
  }

  /** The number of free slots among the first k of t. */
  function FreeSeen(t: Table, k: nat): nat
    requires k <= |t|
  {
    CountFree(t[..k])
  }

  /** Before the first step nothing is swept; after the last, all is. */
  lemma SweepEnds(t: Table)
    ensures PartlySwept(t, 0) == t && FreeSeen(t, 0) == 0
    ensures PartlySwept(t, |t|) == Swept(t) && FreeSeen(t, |t|) == CountFree(t)
  {
    assert t[..0] == [] && t[0..] == t;
    assert t[..|t|] == t && t[|t|..] == [];
  }

  /** One whole step of cleanup_all's inner loop over a snapshot t of the
      table: a slot in use stays, a free one is removed by id. */
  lemma SweepProgress(t: Table, k: nat)
    requires DistinctIds(t) && k < |t|
    ensures DistinctIds(PartlySwept(t, k))
    ensures t[k].entry.inUse ==> PartlySwept(t, k + 1) == PartlySwept(t, k)
    ensures !t[k].entry.inUse ==> Remove(PartlySwept(t, k), t[k].id) == PartlySwept(t, k + 1)
    ensures FreeSeen(t, k + 1) == FreeSeen(t, k) + (if t[k].entry.inUse then 0 else 1)
  {
    assert t[..k] + t[k..] == t;
    SweptDistinct(t[..k], t[k..]);
    SweepStep(t, k);
    var p := Swept(t[..k]);
    assert t[k..] == [t[k]] + t[k + 1..];
    assert p + t[k..] == p + [t[k]] + t[k + 1..];
    if !t[k].entry.inUse {
      RemoveMiddle(p, t[k], t[k + 1..]);
    }
  }
}
