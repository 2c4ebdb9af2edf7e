/** Calls on one entry of storage are invisible to every other entry.

    Deletion is stated by positions: `at` lists, in order, the positions of the calls that stay, and
    `kept` holds those calls.  `KeptPositions` finds such a list for any choice of entries.
 */
module NonInterference {
  import opened Digests
  import opened Anchors
  import opened Runs

  function KeptPositions(hist: History, keep: Cell -> bool): (at: seq<nat>)
    ensures forall k | 0 <= k < |at| :: at[k] < |hist|
    ensures forall k, m | 0 <= k < m < |at| :: at[k] < at[m]
    ensures forall i: nat | i < |hist| :: i in at <==> keep(CellOf(hist[i].call))
    decreases |hist|
  {
    if hist == [] then []
    else
      var n := |hist| - 1;
      var before := KeptPositions(hist[..n], keep);
      assert forall i: nat | i < n :: i in before <==> keep(CellOf(hist[i].call));
      if keep(CellOf(hist[n].call)) then before + [n] else before
  }

  // `kept` is what is left of `hist`.
  ghost predicate Leaves(hist: History, keep: Cell -> bool, at: seq<nat>, kept: History) {
    && |kept| == |at|
    && (forall k | 0 <= k < |at| :: at[k] < |hist| && kept[k] == hist[at[k]])
    && (forall k, m | 0 <= k < m < |at| :: at[k] < at[m])
    && (forall i: nat | i < |hist| :: i in at <==> keep(CellOf(hist[i].call)))
  }

  // What is left of all calls but the last.
  lemma {:induction false} LeavesInit(hist: History, keep: Cell -> bool, at: seq<nat>, kept: History)
    requires Leaves(hist, keep, at, kept) && hist != []
    ensures var n := |hist| - 1;
            if keep(CellOf(hist[n].call)) then
              at != [] && at[|at| - 1] == n && kept[|at| - 1] == hist[n] &&
              Leaves(hist[..n], keep, at[..|at| - 1], kept[..|at| - 1])
            else Leaves(hist[..n], keep, at, kept)
  {
    var n, init := |hist| - 1, hist[..|hist| - 1];
    if keep(CellOf(hist[n].call)) {
      var k :| 0 <= k < |at| && at[k] == n;
      assert k == |at| - 1;
      var at' := at[..|at| - 1];
      forall i: nat | i < n ensures i in at' <==> i in at {
        if i in at {
          var m :| 0 <= m < |at| && at[m] == i;
          assert at'[m] == i;
        }
      }
      assert forall i: nat | i < n :: init[i] == hist[i];
    } else {
      forall k | 0 <= k < |at| ensures at[k] < n {
        assert at[k] in at;
      }
      assert forall i: nat | i < n :: init[i] == hist[i];
    }
  }

  lemma {:induction false} KeptEntries(h: HashFn, hist: History, keep: Cell -> bool, at: seq<nat>, kept: History)
    requires Leaves(hist, keep, at, kept)
    ensures forall cell | keep(cell) :: EntryAt(Run(h, hist), cell) == EntryAt(Run(h, kept), cell)
    decreases |hist|
  {
    if hist == [] {
      assert kept == [];
    } else {
      var init, last := hist[..|hist| - 1], hist[|hist| - 1];
      LeavesInit(hist, keep, at, kept);
      var there := keep(CellOf(last.call));
      var kept' := if there then kept[..|at| - 1] else kept;
      KeptEntries(h, init, keep, if there then at[..|at| - 1] else at, kept');
      forall cell | keep(cell) ensures EntryAt(Run(h, hist), cell) == EntryAt(Run(h, kept), cell) {
        CellStep(h, last.block, Run(h, init), last.call, cell);
        CellStep(h, last.block, Run(h, kept'), last.call, cell);
      }
    }
  }

  // What is left of the calls before a kept one.
  lemma {:induction false} LeavesPrefix(hist: History, keep: Cell -> bool, at: seq<nat>, kept: History, k: nat)
    requires Leaves(hist, keep, at, kept) && k < |at|
    ensures Leaves(hist[..at[k]], keep, at[..k], kept[..k])
  {
    forall i: nat | i < at[k] ensures i in at[..k] <==> i in at {
      if i in at {
        var m :| 0 <= m < |at| && at[m] == i;
        assert m < k;
        assert at[..k][m] == i;
      }
    }
    assert forall i: nat | i < at[k] :: hist[..at[k]][i] == hist[i];
  }

  lemma {:induction false} KeptResult(h: HashFn, hist: History, keep: Cell -> bool, at: seq<nat>, kept: History, k: nat)
    requires Leaves(hist, keep, at, kept) && k < |at|
    ensures ResultAt(h, kept, k) == ResultAt(h, hist, at[k])
  {
    LeavesPrefix(hist, keep, at, kept, k);
    KeptEntries(h, hist[..at[k]], keep, at[..k], kept[..k]);
    assert at[k] in at;
    OutcomeIsLocal(h, Run(h, hist[..at[k]]), Run(h, kept[..k]), hist[at[k]].call);
  }

  // Deleting all calls on other entries changes neither the kept entries nor the result of any
  // kept call.
  lemma {:induction false} DeletionIsInvisible(h: HashFn, hist: History, keep: Cell -> bool, at: seq<nat>,
                                               kept: History)
    requires |kept| == |at| && forall k | 0 <= k < |at| :: at[k] < |hist| && kept[k] == hist[at[k]]
    requires forall k, m | 0 <= k < m < |at| :: at[k] < at[m]
    requires forall i: nat | i < |hist| :: i in at <==> keep(CellOf(hist[i].call))
    ensures forall cell | keep(cell) :: EntryAt(Run(h, hist), cell) == EntryAt(Run(h, kept), cell)
    ensures forall k: nat | k < |at| :: ResultAt(h, kept, k) == ResultAt(h, hist, at[k])
  {
    KeptEntries(h, hist, keep, at, kept);
    forall k: nat | k < |at| ensures ResultAt(h, kept, k) == ResultAt(h, hist, at[k]) {
      KeptResult(h, hist, keep, at, kept, k);
    }
  }

  // Runs under one admin set ignore every other admin set.
  lemma {:induction false} AdminSetsAreIndependent(h: HashFn, hist: History, admins: Out, at: seq<nat>, kept: History)
    requires |kept| == |at| && forall k | 0 <= k < |at| :: at[k] < |hist| && kept[k] == hist[at[k]]
    requires forall k, m | 0 <= k < m < |at| :: at[k] < at[m]
    requires forall i: nat | i < |hist| :: i in at <==> hist[i].call.admins == admins
    ensures forall root: Out :: LookupAnchor(Run(h, hist), admins, root) == LookupAnchor(Run(h, kept), admins, root)
    ensures forall leaf: Out ::
              LookupSuspension(Run(h, hist), admins, leaf) == LookupSuspension(Run(h, kept), admins, leaf)
    ensures forall k: nat | k < |at| :: ResultAt(h, kept, k) == ResultAt(h, hist, at[k])
  {
    var keep := (cell: Cell) => cell.admins == admins;
    DeletionIsInvisible(h, hist, keep, at, kept);
    var s, t := Run(h, hist), Run(h, kept);
    forall root: Out ensures LookupAnchor(s, admins, root) == LookupAnchor(t, admins, root) {
      assert keep(AnchorCell(admins, root));
      assert EntryAt(s, AnchorCell(admins, root)) == EntryAt(t, AnchorCell(admins, root));
    }
    forall leaf: Out ensures LookupSuspension(s, admins, leaf) == LookupSuspension(t, admins, leaf) {
      assert keep(LeafCell(admins, leaf));
      assert EntryAt(s, LeafCell(admins, leaf)) == EntryAt(t, LeafCell(admins, leaf));
    }
  }

  // Suspensions never touch anchors.
  lemma {:induction false} AnchorsIgnoreSuspensions(h: HashFn, hist: History, at: seq<nat>, kept: History)
    requires |kept| == |at| && forall k | 0 <= k < |at| :: at[k] < |hist| && kept[k] == hist[at[k]]
    requires forall k, m | 0 <= k < m < |at| :: at[k] < at[m]
    requires forall i: nat | i < |hist| :: i in at <==> !hist[i].call.SuspendLeaf?
    ensures Run(h, hist).anchors == Run(h, kept).anchors
    ensures forall k: nat | k < |at| :: ResultAt(h, kept, k) == ResultAt(h, hist, at[k])
  {
    DeletionIsInvisible(h, hist, (cell: Cell) => cell.AnchorCell?, at, kept);
    var s, t := Run(h, hist), Run(h, kept);
    forall a: Out, b: Out ensures LookupAnchor(s, a, b) == LookupAnchor(t, a, b) {
      assert EntryAt(s, AnchorCell(a, b)) == EntryAt(t, AnchorCell(a, b));
    }
    AnchorsExtensional(s, t);
  }

  // Creations and revocations never touch suspensions.
  lemma {:induction false} SuspensionsIgnoreAnchors(h: HashFn, hist: History, at: seq<nat>, kept: History)
    requires |kept| == |at| && forall k | 0 <= k < |at| :: at[k] < |hist| && kept[k] == hist[at[k]]
    requires forall k, m | 0 <= k < m < |at| :: at[k] < at[m]
    requires forall i: nat | i < |hist| :: i in at <==> hist[i].call.SuspendLeaf?
    ensures Run(h, hist).suspendedLeaves == Run(h, kept).suspendedLeaves
    ensures forall k: nat | k < |at| :: ResultAt(h, kept, k) == ResultAt(h, hist, at[k])
  {
    DeletionIsInvisible(h, hist, (cell: Cell) => cell.LeafCell?, at, kept);
    var s, t := Run(h, hist), Run(h, kept);
    forall a: Out, b: Out ensures LookupSuspension(s, a, b) == LookupSuspension(t, a, b) {
      assert EntryAt(s, LeafCell(a, b)) == EntryAt(t, LeafCell(a, b));
    }
    LeavesExtensional(s, t);
  }
}
