/** Storage as a join-semilattice.

    Any two storages have a least upper bound.  An authorised revocation or suspension joins the
    storage with a one-entry storage, as does the creation of an absent anchor.
 */
module StorageLattice {
  import opened Digests
  import opened MerkleTrees
  import opened Anchors
  import opened Runs

  // Different block numbers have no bound below revocation.
  function JoinAnchor(x: Option<Revokable>, y: Option<Revokable>): Option<Revokable> {
    match (x, y)
    case (None, _) => y
    case (_, None) => x
    case (Some(a), Some(b)) => if a == b then x else Some(Revoked)
  }

  function JoinEnd(x: Option<U64>, y: Option<U64>): Option<U64> {
    match (x, y)
    case (None, _) => y
    case (_, None) => x
    case (Some(a), Some(b)) => if a < b then y else x
  }

  function Join(s: Storage, t: Storage): Storage {
    Storage(
      map k: (Out, Out) | k in s.anchors.Keys + t.anchors.Keys ::
        JoinAnchor(LookupAnchor(s, k.0, k.1), LookupAnchor(t, k.0, k.1)).value,
      map k: (Out, Out) | k in s.suspendedLeaves.Keys + t.suspendedLeaves.Keys ::
        JoinEnd(LookupSuspension(s, k.0, k.1), LookupSuspension(t, k.0, k.1)).value)
  }

  function JoinEntry(x: Entry, y: Entry): Entry {
    match (x, y)
    case (Anchor(a), Anchor(b)) => Anchor(JoinAnchor(a, b))
    case (Suspension(a), Suspension(b)) => Suspension(JoinEnd(a, b))
    case _ => x
  }

  lemma JoinAt(s: Storage, t: Storage, cell: Cell)
    ensures EntryAt(Join(s, t), cell) == JoinEntry(EntryAt(s, cell), EntryAt(t, cell))
  {
    match cell
    case AnchorCell(admins, root) =>
      assert (admins, root) in Join(s, t).anchors <==> (admins, root) in s.anchors || (admins, root) in t.anchors;
    case LeafCell(admins, leaf) =>
      assert (admins, leaf) in Join(s, t).suspendedLeaves
        <==> (admins, leaf) in s.suspendedLeaves || (admins, leaf) in t.suspendedLeaves;
  }

  // `Join` is the least upper bound.
  lemma {:induction false} JoinIsLeastUpperBound(s: Storage, t: Storage, u: Storage)
    ensures StorageLeq(s, Join(s, t)) && StorageLeq(t, Join(s, t))
    ensures StorageLeq(Join(s, t), u) <==> StorageLeq(s, u) && StorageLeq(t, u)
  {
    forall cell
      ensures EntryLeq(EntryAt(s, cell), EntryAt(Join(s, t), cell))
      ensures EntryLeq(EntryAt(t, cell), EntryAt(Join(s, t), cell))
      ensures EntryLeq(EntryAt(Join(s, t), cell), EntryAt(u, cell))
         <==> EntryLeq(EntryAt(s, cell), EntryAt(u, cell)) && EntryLeq(EntryAt(t, cell), EntryAt(u, cell))
    {
      JoinAt(s, t, cell);
    }
  }

  // An authorised call joins its one entry, unless it creates an anchor that is already there,
  // which changes nothing.
  lemma {:induction false} CallsJoin(h: HashFn, now: BlockNumber, s: Storage, c: Call)
    requires Authorised(h, c)
    ensures After(h, now, s, c)
         == if c.CreateAnchor? && LookupAnchor(s, c.admins, c.root).Some? then s else Join(s, Write(now, EMPTY, c))
  {
    if !(c.CreateAnchor? && LookupAnchor(s, c.admins, c.root).Some?) {
      var one := Write(now, EMPTY, c);
      forall cell ensures EntryAt(After(h, now, s, c), cell) == EntryAt(Join(s, one), cell) {
        CellStep(h, now, s, c, cell);
        EffectIsJoin(EntryAt(s, cell), now, c, cell);
        JoinAt(s, one, cell);
      }
      StorageExtensional(After(h, now, s, c), Join(s, one));
    }
  }

  lemma EffectIsJoin(x: Entry, now: BlockNumber, c: Call, cell: Cell)
    requires x.Anchor? <==> cell.AnchorCell?
    requires c.CreateAnchor? && CellOf(c) == cell ==> x == Anchor(None)
    ensures JoinEntry(x, EntryAt(Write(now, EMPTY, c), cell)) == if CellOf(c) == cell then Effect(x, now, c) else x
  {}

  // A run of revocations and suspensions from any storage joins it with the same run from nothing.
  lemma {:induction false} RunsJoin(h: HashFn, s: Storage, hist: History)
    requires forall e | e in hist :: !e.call.CreateAnchor?
    ensures RunFrom(h, s, hist) == Join(s, Run(h, hist))
  {
    forall cell ensures EntryAt(RunFrom(h, s, hist), cell) == EntryAt(Join(s, Run(h, hist)), cell) {
      RunsJoinAt(h, s, hist, cell);
      JoinAt(s, Run(h, hist), cell);
    }
    StorageExtensional(RunFrom(h, s, hist), Join(s, Run(h, hist)));
  }

  lemma {:induction false} RunsJoinAt(h: HashFn, s: Storage, hist: History, cell: Cell)
    requires forall e | e in hist :: !e.call.CreateAnchor?
    ensures EntryAt(RunFrom(h, s, hist), cell) == JoinEntry(EntryAt(s, cell), EntryAt(Run(h, hist), cell))
    decreases |hist|
  {
    if hist == [] {
      assert EntryAt(EMPTY, cell) == if cell.AnchorCell? then Anchor(None) else Suspension(None);
    } else {
      var init, last := hist[..|hist| - 1], hist[|hist| - 1];
      RunsJoinAt(h, s, init, cell);
      CellStep(h, last.block, RunFrom(h, s, init), last.call, cell);
      CellStep(h, last.block, Run(h, init), last.call, cell);
    }
  }
}
