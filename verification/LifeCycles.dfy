/** The life of one entry over a whole run: which calls on it succeed, in which order, and what they
    leave.
 */
module LifeCycles {
  import opened Cardinality
  import opened Digests
  import opened MerkleTrees
  import opened Anchors
  import opened Runs

  // Storage after the first `i` calls is below storage at the end.
  lemma {:induction false} PrefixClimbs(h: HashFn, hist: History, i: nat)
    requires i <= |hist|
    ensures StorageLeq(Run(h, hist[..i]), Run(h, hist))
  {
    assert hist == hist[..i] + hist[i..];
    RunAppend(h, EMPTY, hist[..i], hist[i..]);
    RunsClimb(h, Run(h, hist[..i]), hist[i..]);
  }

  // No later run undoes anything: revocation is final, a block number stays until revocation, and
  // a suspension only grows.
  lemma {:induction false} NothingIsUndone(h: HashFn, s: Storage, hist: History, admins: Out, item: Out)
    ensures LookupAnchor(s, admins, item) == Some(Revoked) ==>
              LookupAnchor(RunFrom(h, s, hist), admins, item) == Some(Revoked)
    ensures forall n :: LookupAnchor(s, admins, item) == Some(NotRevoked(n)) ==>
              LookupAnchor(RunFrom(h, s, hist), admins, item) in {Some(NotRevoked(n)), Some(Revoked)}
    ensures forall end :: LookupSuspension(s, admins, item) == Some(end) ==>
              LookupSuspension(RunFrom(h, s, hist), admins, item).Some? &&
              end <= LookupSuspension(RunFrom(h, s, hist), admins, item).value
  {
    RunsClimb(h, s, hist);
    var t := RunFrom(h, s, hist);
    assert EntryLeq(EntryAt(s, AnchorCell(admins, item)), EntryAt(t, AnchorCell(admins, item)));
    assert EntryLeq(EntryAt(s, LeafCell(admins, item)), EntryAt(t, LeafCell(admins, item)));
  }

  // A successful call leaves its effect, which was a change, below the final entry.
  lemma {:induction false} SuccessLeavesEffect(h: HashFn, hist: History, i: nat, j: nat)
    requires i < j <= |hist| && ResultAt(h, hist, i).Ok?
    ensures var c, before := hist[i].call, EntryAt(Run(h, hist[..i]), CellOf(hist[i].call));
            && Effect(before, hist[i].block, c) != before
            && EntryLeq(Effect(before, hist[i].block, c), EntryAt(Run(h, hist[..j]), CellOf(c)))
  {
    var c := hist[i].call;
    CellStep(h, hist[i].block, Run(h, hist[..i]), c, CellOf(c));
    RunStep(h, EMPTY, hist[..i], hist[i]);
    assert hist[..i + 1] == hist[..i] + [hist[i]];
    PrefixClimbs(h, hist[..j], i + 1);
    assert hist[..j][..i + 1] == hist[..i + 1];
    assert EntryLeq(EntryAt(Run(h, hist[..i + 1]), CellOf(c)), EntryAt(Run(h, hist[..j]), CellOf(c)));
  }

  // Anchors

  // Of two successful calls on one anchor, the first is its creation and the second its revocation.
  lemma {:induction false} AnchorSuccessOrder(h: HashFn, hist: History, admins: Out, root: Out, i: nat, j: nat)
    requires i < j < |hist| && ResultAt(h, hist, i).Ok? && ResultAt(h, hist, j).Ok?
    requires CellOf(hist[i].call) == CellOf(hist[j].call) == AnchorCell(admins, root)
    ensures hist[i].call.CreateAnchor? && hist[j].call.RevokeAnchor?
  {
    SuccessLeavesEffect(h, hist, i, j);
    SuccessLeavesEffect(h, hist, j, j + 1);
  }

  // Hence at most two calls on an anchor ever succeed.
  lemma {:induction false} AnchorSuccessBound(h: HashFn, hist: History, admins: Out, root: Out)
    ensures |set i | 0 <= i < |hist| && ResultAt(h, hist, i).Ok? && CellOf(hist[i].call) == AnchorCell(admins, root)|
         <= 2
  {
    var s := set i | 0 <= i < |hist| && ResultAt(h, hist, i).Ok? && CellOf(hist[i].call) == AnchorCell(admins, root);
    var kind := i requires 0 <= i < |hist| => if hist[i].call.CreateAnchor? then 0 else 1;
    var kinds := set i | i in s :: kind(i);
    forall i, j | i in s && j in s && kind(i) == kind(j) ensures i == j {
      if i < j {
        AnchorSuccessOrder(h, hist, admins, root, i, j);
      } else if j < i {
        AnchorSuccessOrder(h, hist, admins, root, j, i);
      }
    }
    ImageSize(s, kind, kinds);
    BoundedCount(kinds, 2);
  }

  // The successful call that put an anchor where it is.
  lemma {:induction false} AnchorSetBy(h: HashFn, hist: History, admins: Out, root: Out) returns (i: nat)
    requires LookupAnchor(Run(h, hist), admins, root).Some?
    ensures i < |hist| && ResultAt(h, hist, i).Ok? && CellOf(hist[i].call) == AnchorCell(admins, root)
    ensures match LookupAnchor(Run(h, hist), admins, root).value
            case NotRevoked(n) => hist[i].call.CreateAnchor? && hist[i].block == n
            case Revoked => hist[i].call.RevokeAnchor?
    decreases |hist|
  {
    var init, last := hist[..|hist| - 1], hist[|hist| - 1];
    CellStep(h, last.block, Run(h, init), last.call, AnchorCell(admins, root));
    if LookupAnchor(Run(h, init), admins, root) == LookupAnchor(Run(h, hist), admins, root) {
      i := AnchorSetBy(h, init, admins, root);
      assert hist[..i] == init[..i];
    } else {
      i := |hist| - 1;
    }
  }

  // The entry tells which calls have succeeded: none, a creation only, or a revocation.
  lemma {:induction false} AnchorLifeCycle(h: HashFn, hist: History, admins: Out, root: Out)
    ensures LookupAnchor(Run(h, hist), admins, root) == None
       <==> !exists i: nat :: i < |hist| && ResultAt(h, hist, i).Ok? && CellOf(hist[i].call) == AnchorCell(admins, root)
    ensures LookupAnchor(Run(h, hist), admins, root) == Some(Revoked)
       <==> exists i: nat :: i < |hist| && ResultAt(h, hist, i).Ok? && CellOf(hist[i].call) == AnchorCell(admins, root)
                          && hist[i].call.RevokeAnchor?
    ensures forall i: nat | i < |hist| && ResultAt(h, hist, i).Ok? && CellOf(hist[i].call) == AnchorCell(admins, root)
                         && hist[i].call.CreateAnchor? ::
              LookupAnchor(Run(h, hist), admins, root) in {Some(NotRevoked(hist[i].block)), Some(Revoked)}
  {
    if LookupAnchor(Run(h, hist), admins, root).Some? {
      var i := AnchorSetBy(h, hist, admins, root);
    }
    forall i: nat | i < |hist| && ResultAt(h, hist, i).Ok? && CellOf(hist[i].call) == AnchorCell(admins, root)
      ensures if hist[i].call.CreateAnchor? then
                LookupAnchor(Run(h, hist), admins, root) in {Some(NotRevoked(hist[i].block)), Some(Revoked)}
              else LookupAnchor(Run(h, hist), admins, root) == Some(Revoked)
    {
      SuccessLeavesEffect(h, hist, i, |hist|);
      assert hist[..|hist|] == hist;
    }
  }

  // Suspensions

  // Of two successful suspensions of one leaf, the later reaches strictly further.
  lemma {:induction false} SuspensionSuccessOrder(h: HashFn, hist: History, admins: Out, leaf: Out, i: nat, j: nat)
    requires i < j < |hist| && ResultAt(h, hist, i).Ok? && ResultAt(h, hist, j).Ok?
    requires CellOf(hist[i].call) == CellOf(hist[j].call) == LeafCell(admins, leaf)
    ensures hist[i].call.end < hist[j].call.end
  {
    SuccessLeavesEffect(h, hist, i, j);
    SuccessLeavesEffect(h, hist, j, j + 1);
  }

  // The successful call that put a suspension where it is.
  lemma {:induction false} SuspensionSetBy(h: HashFn, hist: History, admins: Out, leaf: Out) returns (i: nat)
    requires LookupSuspension(Run(h, hist), admins, leaf).Some?
    ensures i < |hist| && ResultAt(h, hist, i).Ok? && CellOf(hist[i].call) == LeafCell(admins, leaf)
    ensures hist[i].call.end == LookupSuspension(Run(h, hist), admins, leaf).value
    decreases |hist|
  {
    var init, last := hist[..|hist| - 1], hist[|hist| - 1];
    CellStep(h, last.block, Run(h, init), last.call, LeafCell(admins, leaf));
    if LookupSuspension(Run(h, init), admins, leaf) == LookupSuspension(Run(h, hist), admins, leaf) {
      i := SuspensionSetBy(h, init, admins, leaf);
      assert hist[..i] == init[..i];
    } else {
      i := |hist| - 1;
    }
  }

  // The stored end is that of the furthest successful suspension, and absent if none succeeded.
  lemma {:induction false} LeafLifeCycle(h: HashFn, hist: History, admins: Out, leaf: Out)
    ensures LookupSuspension(Run(h, hist), admins, leaf) == None
       <==> !exists i: nat :: i < |hist| && ResultAt(h, hist, i).Ok? && CellOf(hist[i].call) == LeafCell(admins, leaf)
    ensures LookupSuspension(Run(h, hist), admins, leaf).Some? ==>
              exists i: nat :: i < |hist| && ResultAt(h, hist, i).Ok? && CellOf(hist[i].call) == LeafCell(admins, leaf)
                            && LookupSuspension(Run(h, hist), admins, leaf) == Some(hist[i].call.end)
    ensures forall i: nat | i < |hist| && ResultAt(h, hist, i).Ok? && CellOf(hist[i].call) == LeafCell(admins, leaf) ::
              LookupSuspension(Run(h, hist), admins, leaf).Some? &&
              hist[i].call.end <= LookupSuspension(Run(h, hist), admins, leaf).value
  {
    if LookupSuspension(Run(h, hist), admins, leaf).Some? {
      var i := SuspensionSetBy(h, hist, admins, leaf);
    }
    forall i: nat | i < |hist| && ResultAt(h, hist, i).Ok? && CellOf(hist[i].call) == LeafCell(admins, leaf)
      ensures LookupSuspension(Run(h, hist), admins, leaf).Some?
      ensures hist[i].call.end <= LookupSuspension(Run(h, hist), admins, leaf).value
    {
      SuccessLeavesEffect(h, hist, i, |hist|);
      assert hist[..|hist|] == hist;
    }
  }

  // At most one success for each end up to the stored one: 2^64 over any run.
  lemma {:induction false} SuspensionSuccessBound(h: HashFn, hist: History, admins: Out, leaf: Out)
    ensures |set i | 0 <= i < |hist| && ResultAt(h, hist, i).Ok? && CellOf(hist[i].call) == LeafCell(admins, leaf)|
         <= match LookupSuspension(Run(h, hist), admins, leaf) case None => 0 case Some(end) => end as int + 1
    ensures |set i | 0 <= i < |hist| && ResultAt(h, hist, i).Ok? && CellOf(hist[i].call) == LeafCell(admins, leaf)|
         <= 0x1_0000_0000_0000_0000
  {
    var s := set i | 0 <= i < |hist| && ResultAt(h, hist, i).Ok? && CellOf(hist[i].call) == LeafCell(admins, leaf);
    var stored := LookupSuspension(Run(h, hist), admins, leaf);
    forall i | i in s ensures stored.Some? && hist[i].call.end <= stored.value {
      SuccessLeavesEffect(h, hist, i, |hist|);
      assert hist[..|hist|] == hist;
    }
    if stored == None {
      assert s == {};
    } else {
      var end := i requires 0 <= i < |hist| && hist[i].call.SuspendLeaf? => hist[i].call.end as int;
      var ends := set i | i in s :: end(i);
      forall i, j | i in s && j in s && end(i) == end(j) ensures i == j {
        if i < j {
          SuspensionSuccessOrder(h, hist, admins, leaf, i, j);
        } else if j < i {
          SuspensionSuccessOrder(h, hist, admins, leaf, j, i);
        }
      }
      ImageSize(s, end, ends);
      BoundedCount(ends, stored.value as int + 1);
    }
  }
}
