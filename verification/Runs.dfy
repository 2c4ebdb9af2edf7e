/** Whole runs: any sequence of submitted calls, each in some block.

    The storage a run leaves is characterised by the calls submitted, not by the order of checks;
    calls on other entries are invisible; and inside one block the order does not matter.
 */
module Runs {
  import opened Digests
  import opened Merkle
  import opened MerkleTrees
  import opened Anchors

  datatype Event = Event(block: BlockNumber, call: Call)

  type History = seq<Event>

  function RunFrom(h: HashFn, s: Storage, hist: History): Storage
    decreases |hist|
  {
    if hist == [] then s
    else
      var last := hist[|hist| - 1];
      After(h, last.block, RunFrom(h, s, hist[..|hist| - 1]), last.call)
  }

  function Run(h: HashFn, hist: History): Storage {
    RunFrom(h, EMPTY, hist)
  }

  function ResultAt(h: HashFn, hist: History, i: nat): DispatchResult
    requires i < |hist|
  {
    Outcome(h, Run(h, hist[..i]), hist[i].call)
  }

  predicate Chronological(hist: History) {
    forall i, j | 0 <= i < j < |hist| :: hist[i].block <= hist[j].block
  }

  lemma RunStep(h: HashFn, s: Storage, hist: History, e: Event)
    ensures RunFrom(h, s, hist + [e]) == After(h, e.block, RunFrom(h, s, hist), e.call)
  {
    assert (hist + [e])[..|hist|] == hist;
  }

  lemma {:induction false} RunAppend(h: HashFn, s: Storage, a: History, b: History)
    ensures RunFrom(h, s, a + b) == RunFrom(h, RunFrom(h, s, a), b)
    decreases |b|
  {
    if b == [] {
      assert a + b == a;
    } else {
      assert (a + b)[..|a + b| - 1] == a + b[..|b| - 1];
      RunAppend(h, s, a, b[..|b| - 1]);
    }
  }

  // Every run climbs.
  lemma {:induction false} RunsClimb(h: HashFn, s: Storage, hist: History)
    ensures StorageLeq(s, RunFrom(h, s, hist))
    decreases |hist|
  {
    if hist == [] {
      LeqIsPartialOrder(s, s, s);
    } else {
      var init, last := hist[..|hist| - 1], hist[|hist| - 1];
      RunsClimb(h, s, init);
      CallsClimb(h, last.block, RunFrom(h, s, init), last.call);
      LeqIsPartialOrder(s, RunFrom(h, s, init), RunFrom(h, s, hist));
    }
  }

  // Order inside a block

  predicate SameBlock(hist: History, now: BlockNumber) {
    forall e | e in hist :: e.block == now
  }

  lemma {:induction false} MoveToEnd(h: HashFn, s: Storage, now: BlockNumber, pre: History, e: Event, post: History)
    requires e.block == now && SameBlock(post, now)
    ensures RunFrom(h, s, pre + [e] + post) == RunFrom(h, s, pre + post + [e])
    decreases |post|
  {
    if post == [] {
      assert pre + [e] + post == pre + post + [e];
    } else {
      var f := post[0];
      MoveToEnd(h, s, now, pre + [f], e, post[1..]);
      assert pre + [f] + post[1..] + [e] == pre + post + [e];
      Swap(h, s, pre, e, f);
      RunAppend(h, s, pre + [e] + [f], post[1..]);
      RunAppend(h, s, pre + [f] + [e], post[1..]);
      assert pre + [e] + [f] + post[1..] == pre + [e] + post;
    }
  }

  lemma {:induction false} Swap(h: HashFn, s: Storage, pre: History, e: Event, f: Event)
    requires e.block == f.block
    ensures RunFrom(h, s, pre + [e] + [f]) == RunFrom(h, s, pre + [f] + [e])
  {
    RunStep(h, s, pre, e);
    RunStep(h, s, pre, f);
    RunStep(h, s, pre + [e], f);
    RunStep(h, s, pre + [f], e);
    CallsCommute(h, e.block, RunFrom(h, s, pre), e.call, f.call);
  }

  // From any storage, two runs through the same blocks with the same calls in each of them leave
  // the same storage, whatever the order inside each block.
  lemma {:induction false} OrderInBlocksIsIrrelevant(h: HashFn, s: Storage, a: History, b: History)
    requires Chronological(a) && Chronological(b) && multiset(a) == multiset(b)
    ensures RunFrom(h, s, a) == RunFrom(h, s, b)
    decreases |a|
  {
    if a == [] {
      assert |multiset(b)| == 0;
      assert b == [];
    } else {
      var init, e := a[..|a| - 1], a[|a| - 1];
      var pre, post := FindLast(a, b);
      LaterAreSameBlock(a, b, pre, post);
      MoveToEnd(h, s, e.block, pre, e, post);
      OrderInBlocksIsIrrelevant(h, s, init, pre + post);
      RunStep(h, s, init, e);
      RunStep(h, s, pre + post, e);
      assert a == init + [e];
    }
  }

  // The permutation of a single block.
  lemma {:induction false} BlockOrderIsIrrelevant(h: HashFn, s: Storage, now: BlockNumber, a: History, b: History)
    requires SameBlock(a, now) && multiset(a) == multiset(b)
    ensures RunFrom(h, s, a) == RunFrom(h, s, b)
  {
    forall e | e in b ensures e.block == now {
      assert e in multiset(a);
    }
    OrderInBlocksIsIrrelevant(h, s, a, b);
  }

  // What follows the last event of `a` in `b` belongs to the same block.
  lemma {:induction false} LaterAreSameBlock(a: History, b: History, pre: History, post: History)
    requires a != [] && Chronological(a) && Chronological(b) && multiset(a) == multiset(b)
    requires b == pre + [a[|a| - 1]] + post
    ensures SameBlock(post, a[|a| - 1].block)
    ensures Chronological(a[..|a| - 1]) && Chronological(pre + post)
  {
    var e := a[|a| - 1];
    assert b[|pre|] == e;
    forall f | f in post ensures f.block == e.block {
      var k :| 0 <= k < |post| && post[k] == f;
      assert b[|pre| + 1 + k] == f;
      assert f in multiset(b);
      var m :| 0 <= m < |a| && a[m] == f;
      assert m < |a| - 1 ==> a[m].block <= e.block;
    }
    forall i, j | 0 <= i < j < |pre + post| ensures (pre + post)[i].block <= (pre + post)[j].block {
      var i', j' := if i < |pre| then i else i + 1, if j < |pre| then j else j + 1;
      assert (pre + post)[i] == b[i'] && (pre + post)[j] == b[j'];
    }
  }

  // Where the last event of one order stands in the other.
  lemma {:induction false} FindLast(a: History, b: History) returns (pre: History, post: History)
    requires a != [] && multiset(a) == multiset(b)
    ensures b == pre + [a[|a| - 1]] + post && multiset(pre + post) == multiset(a[..|a| - 1])
  {
    var init, e := a[..|a| - 1], a[|a| - 1];
    assert a == init + [e];
    assert e in multiset(a);
    var i :| 0 <= i < |b| && b[i] == e;
    pre, post := b[..i], b[i + 1..];
    assert b == pre + [e] + post;
    CancelMiddle(pre, e, post, init);
  }

  lemma CancelMiddle(pre: History, e: Event, post: History, init: History)
    requires multiset(pre + [e] + post) == multiset(init + [e])
    ensures multiset(pre + post) == multiset(init)
  {
    assert multiset(pre + post) == multiset(pre + [e] + post) - multiset{e};
    assert multiset(init) == multiset(init + [e]) - multiset{e};
  }

  // The results may differ: for every hash function, a creation and a revocation of one anchor.
  lemma {:induction false} ResultsDependOnOrder(h: HashFn, who: AccountId, root: Out, now: BlockNumber)
    returns (a: History, b: History)
    ensures SameBlock(a, now) && multiset(a) == multiset(b)
    ensures |a| == |b| == 2 && ResultAt(h, a, 0).Ok? && ResultAt(h, a, 1).Ok?
    ensures ResultAt(h, b, 0).Ok? && ResultAt(h, b, 1) == Err(AlreadyAnchored)
  {
    var admins := Node(h, AccountHash(h, who), []);
    var create, revoke := CreateAnchor(Signed(who), admins, root), RevokeAnchor(Signed(who), admins, root, []);
    assert ValidMembership(h, revoke);
    var e, f := Event(now, create), Event(now, revoke);
    TwoResults(h, e, f);
    TwoResults(h, f, e);
    SwappedMultiset(e, f);
    a, b := [e, f], [f, e];
  }

  lemma TwoResults(h: HashFn, e: Event, f: Event)
    ensures ResultAt(h, [e, f], 0) == Outcome(h, EMPTY, e.call)
    ensures ResultAt(h, [e, f], 1) == Outcome(h, After(h, e.block, EMPTY, e.call), f.call)
  {
    assert [e, f][..0] == [];
    assert [e, f][..1] == [] + [e];
    RunStep(h, EMPTY, [], e);
  }

  lemma SwappedMultiset(e: Event, f: Event)
    ensures multiset([e, f]) == multiset([f, e])
  {
    assert multiset([e, f]) == multiset{e, f} == multiset([f, e]);
  }

  // Storage as a function of the calls submitted

  predicate TouchesAt(h: HashFn, hist: History, i: int, cell: Cell) {
    0 <= i < |hist| && Touches(h, hist[i].call, cell)
  }

  predicate CreatesAt(h: HashFn, hist: History, i: int, cell: Cell) {
    TouchesAt(h, hist, i, cell) && hist[i].call.CreateAnchor?
  }

  predicate RevokesAt(h: HashFn, hist: History, i: int, cell: Cell) {
    TouchesAt(h, hist, i, cell) && hist[i].call.RevokeAnchor?
  }

  predicate SuspendsAt(h: HashFn, hist: History, i: int, cell: Cell) {
    TouchesAt(h, hist, i, cell) && hist[i].call.SuspendLeaf?
  }

  ghost predicate FirstCreatedIn(h: HashFn, hist: History, cell: Cell, n: BlockNumber) {
    exists i :: CreatesAt(h, hist, i, cell) && hist[i].block == n && forall j | j < i :: !CreatesAt(h, hist, j, cell)
  }

  ghost predicate EverRevoked(h: HashFn, hist: History, cell: Cell) {
    exists i :: RevokesAt(h, hist, i, cell)
  }

  ghost predicate EverCreated(h: HashFn, hist: History, cell: Cell) {
    exists i :: CreatesAt(h, hist, i, cell)
  }

  // The entry the declarative reading predicts.
  ghost predicate AnchorReading(h: HashFn, hist: History, cell: Cell, state: Option<Revokable>) {
    match state
    case None => !EverRevoked(h, hist, cell) && !EverCreated(h, hist, cell)
    case Some(NotRevoked(n)) => !EverRevoked(h, hist, cell) && FirstCreatedIn(h, hist, cell, n)
    case Some(Revoked) => EverRevoked(h, hist, cell)
  }

  // A history has at most one reading.
  lemma {:induction false} ReadingIsUnique(h: HashFn, hist: History, cell: Cell, x: Option<Revokable>,
                                           y: Option<Revokable>)
    requires AnchorReading(h, hist, cell, x) && AnchorReading(h, hist, cell, y)
    ensures x == y
  {
    forall m, n | FirstCreatedIn(h, hist, cell, m) && FirstCreatedIn(h, hist, cell, n) ensures m == n {
      var i :| CreatesAt(h, hist, i, cell) && hist[i].block == m && forall j | j < i :: !CreatesAt(h, hist, j, cell);
      var k :| CreatesAt(h, hist, k, cell) && hist[k].block == n && forall j | j < k :: !CreatesAt(h, hist, j, cell);
      assert i == k;
    }
    forall n | FirstCreatedIn(h, hist, cell, n) ensures EverCreated(h, hist, cell) {
      var i :| CreatesAt(h, hist, i, cell) && hist[i].block == n;
    }
  }

  lemma {:induction false} AnchorReadingStep(h: HashFn, hist: History, e: Event, admins: Out, root: Out,
                                             state: Option<Revokable>)
    requires AnchorReading(h, hist, AnchorCell(admins, root), state)
    ensures Touches(h, e.call, AnchorCell(admins, root)) ==>
              AnchorReading(h, hist + [e], AnchorCell(admins, root), Effect(Anchor(state), e.block, e.call).state)
    ensures !Touches(h, e.call, AnchorCell(admins, root)) ==>
              AnchorReading(h, hist + [e], AnchorCell(admins, root), state)
  {
    var cell, next := AnchorCell(admins, root), hist + [e];
    forall i: nat | i < |hist|
      ensures TouchesAt(h, next, i, cell) == TouchesAt(h, hist, i, cell) && next[i] == hist[i]
    {}
    assert TouchesAt(h, next, |hist|, cell) == Touches(h, e.call, cell);
    if EverRevoked(h, hist, cell) {
      var i :| RevokesAt(h, hist, i, cell);
      assert RevokesAt(h, next, i, cell);
    }
    if Touches(h, e.call, cell) && e.call.RevokeAnchor? {
      assert RevokesAt(h, next, |hist|, cell);
    } else if !EverRevoked(h, hist, cell) {
      assert !EverRevoked(h, next, cell) by {
        if i :| RevokesAt(h, next, i, cell) { assert i < |hist| && RevokesAt(h, hist, i, cell); }
      }
      CreationStep(h, hist, e, cell);
    }
  }

  lemma {:induction false} CreationStep(h: HashFn, hist: History, e: Event, cell: Cell)
    ensures forall n :: FirstCreatedIn(h, hist, cell, n) ==> FirstCreatedIn(h, hist + [e], cell, n)
    ensures !EverCreated(h, hist, cell) && Touches(h, e.call, cell) && e.call.CreateAnchor? ==>
              FirstCreatedIn(h, hist + [e], cell, e.block)
    ensures !EverCreated(h, hist, cell) && !(Touches(h, e.call, cell) && e.call.CreateAnchor?) ==>
              !EverCreated(h, hist + [e], cell)
  {
    var next := hist + [e];
    forall i ensures CreatesAt(h, next, i, cell)
        == (CreatesAt(h, hist, i, cell) || (i == |hist| && Touches(h, e.call, cell) && e.call.CreateAnchor?)) {}
    forall n | FirstCreatedIn(h, hist, cell, n) ensures FirstCreatedIn(h, next, cell, n) {
      var i :| CreatesAt(h, hist, i, cell) && hist[i].block == n && forall j | j < i :: !CreatesAt(h, hist, j, cell);
      assert CreatesAt(h, next, i, cell) && next[i].block == n;
    }
    if !EverCreated(h, hist, cell) && Touches(h, e.call, cell) && e.call.CreateAnchor? {
      assert CreatesAt(h, next, |hist|, cell) && next[|hist|].block == e.block;
    }
  }

  lemma {:induction false} AnchorReads(h: HashFn, hist: History, admins: Out, root: Out)
    ensures AnchorReading(h, hist, AnchorCell(admins, root), LookupAnchor(Run(h, hist), admins, root))
    decreases |hist|
  {
    if hist == [] {
    } else {
      var init, last := hist[..|hist| - 1], hist[|hist| - 1];
      assert hist == init + [last];
      AnchorReads(h, init, admins, root);
      AnchorReadingStep(h, init, last, admins, root, LookupAnchor(Run(h, init), admins, root));
      CellStep(h, last.block, Run(h, init), last.call, AnchorCell(admins, root));
    }
  }

  // An anchor is revoked iff an authorised revocation was submitted, at any time; otherwise it
  // carries the block of the first signed creation; otherwise it is absent.
  lemma {:induction false} AnchorsReadHistory(h: HashFn, hist: History, admins: Out, root: Out)
    ensures LookupAnchor(Run(h, hist), admins, root) == Some(Revoked)
       <==> EverRevoked(h, hist, AnchorCell(admins, root))
    ensures forall n :: (LookupAnchor(Run(h, hist), admins, root) == Some(NotRevoked(n)) <==>
                         !EverRevoked(h, hist, AnchorCell(admins, root)) &&
                         FirstCreatedIn(h, hist, AnchorCell(admins, root), n))
    ensures LookupAnchor(Run(h, hist), admins, root) == None
      <==> !EverRevoked(h, hist, AnchorCell(admins, root)) && !EverCreated(h, hist, AnchorCell(admins, root))
  {
    var cell := AnchorCell(admins, root);
    AnchorReads(h, hist, admins, root);
    forall state | AnchorReading(h, hist, cell, state) ensures state == LookupAnchor(Run(h, hist), admins, root) {
      ReadingIsUnique(h, hist, cell, state, LookupAnchor(Run(h, hist), admins, root));
    }
    forall n ensures AnchorReading(h, hist, cell, Some(NotRevoked(n)))
                 <==> !EverRevoked(h, hist, cell) && FirstCreatedIn(h, hist, cell, n) {}
    assert AnchorReading(h, hist, cell, None) <==> !EverRevoked(h, hist, cell) && !EverCreated(h, hist, cell);
    assert AnchorReading(h, hist, cell, Some(Revoked)) <==> EverRevoked(h, hist, cell);
  }

  // A stored block number is not in the future.
  lemma {:induction false} BlocksArePast(h: HashFn, hist: History, admins: Out, root: Out, now: BlockNumber)
    requires Chronological(hist) && (hist != [] ==> hist[|hist| - 1].block <= now)
    requires LookupAnchor(Run(h, hist), admins, root).Some?
    requires LookupAnchor(Run(h, hist), admins, root).value.NotRevoked?
    ensures LookupAnchor(Run(h, hist), admins, root).value.block <= now
  {
    var n := LookupAnchor(Run(h, hist), admins, root).value.block;
    AnchorsReadHistory(h, hist, admins, root);
    var i :| CreatesAt(h, hist, i, AnchorCell(admins, root)) && hist[i].block == n;
    assert i < |hist| - 1 ==> hist[i].block <= hist[|hist| - 1].block;
  }

  // The largest authorised end submitted.
  ghost predicate MaxEnd(h: HashFn, hist: History, cell: Cell, end: U64) {
    (exists i :: SuspendsAt(h, hist, i, cell) && hist[i].call.end == end) &&
    (forall i | SuspendsAt(h, hist, i, cell) :: hist[i].call.end <= end)
  }

  ghost predicate SuspensionReading(h: HashFn, hist: History, cell: Cell, end: Option<U64>) {
    match end
    case None => forall i :: !SuspendsAt(h, hist, i, cell)
    case Some(e) => MaxEnd(h, hist, cell, e)
  }

  lemma {:induction false} SuspensionReadingStep(h: HashFn, hist: History, e: Event, admins: Out, leaf: Out,
                                                 end: Option<U64>)
    requires SuspensionReading(h, hist, LeafCell(admins, leaf), end)
    ensures Touches(h, e.call, LeafCell(admins, leaf)) ==>
              SuspensionReading(h, hist + [e], LeafCell(admins, leaf), Effect(Suspension(end), e.block, e.call).end)
    ensures !Touches(h, e.call, LeafCell(admins, leaf)) ==>
              SuspensionReading(h, hist + [e], LeafCell(admins, leaf), end)
  {
    var cell, next := LeafCell(admins, leaf), hist + [e];
    forall i
      ensures SuspendsAt(h, next, i, cell)
           == (SuspendsAt(h, hist, i, cell) || (i == |hist| && Touches(h, e.call, cell)))
    {
      if 0 <= i < |hist| { assert next[i] == hist[i]; }
    }
    if Touches(h, e.call, cell) {
      assert SuspendsAt(h, next, |hist|, cell);
    }
    if end.Some? {
      var i :| SuspendsAt(h, hist, i, cell) && hist[i].call.end == end.value;
      assert SuspendsAt(h, next, i, cell) && next[i].call.end == end.value;
    }
  }

  lemma {:induction false} SuspensionReads(h: HashFn, hist: History, admins: Out, leaf: Out)
    ensures SuspensionReading(h, hist, LeafCell(admins, leaf), LookupSuspension(Run(h, hist), admins, leaf))
    decreases |hist|
  {
    if hist == [] {
    } else {
      var init, last := hist[..|hist| - 1], hist[|hist| - 1];
      assert hist == init + [last];
      SuspensionReads(h, init, admins, leaf);
      SuspensionReadingStep(h, init, last, admins, leaf, LookupSuspension(Run(h, init), admins, leaf));
      CellStep(h, last.block, Run(h, init), last.call, LeafCell(admins, leaf));
    }
  }

  // A suspension is the maximum end over all authorised suspensions submitted, else absent.
  lemma {:induction false} SuspensionsReadHistory(h: HashFn, hist: History, admins: Out, leaf: Out)
    ensures forall end :: (LookupSuspension(Run(h, hist), admins, leaf) == Some(end) <==>
                           MaxEnd(h, hist, LeafCell(admins, leaf), end))
    ensures LookupSuspension(Run(h, hist), admins, leaf) == None
       <==> forall i :: !SuspendsAt(h, hist, i, LeafCell(admins, leaf))
  {
    SuspensionReads(h, hist, admins, leaf);
  }

  // A leaf is suspended at `now` iff some authorised suspension reaches that far.
  lemma {:induction false} SuspendedIff(h: HashFn, hist: History, admins: Out, leaf: Out, now: U64)
    ensures LeafSuspendedBy(Run(h, hist), admins, leaf, now)
       <==> exists i :: SuspendsAt(h, hist, i, LeafCell(admins, leaf)) && now <= hist[i].call.end
  {
    SuspensionReads(h, hist, admins, leaf);
    var cell := LeafCell(admins, leaf);
    match LookupSuspension(Run(h, hist), admins, leaf)
    case None =>
    case Some(e) =>
      var i :| SuspendsAt(h, hist, i, cell) && hist[i].call.end == e;
  }

  // A suspension never lapses as the run goes on, covers all earlier times, and with the largest
  // end covers every time.
  lemma {:induction false} SuspensionPersists(h: HashFn, hist: History, more: History, admins: Out, leaf: Out,
                                              now: U64, time: U64)
    requires LeafSuspendedBy(Run(h, hist), admins, leaf, now)
    requires time <= now || LookupSuspension(Run(h, hist), admins, leaf) == Some(U64_MAX)
    ensures LeafSuspendedBy(Run(h, hist + more), admins, leaf, time)
  {
    RunAppend(h, EMPTY, hist, more);
    RunsClimb(h, Run(h, hist), more);
    var cell := LeafCell(admins, leaf);
    assert EntryLeq(EntryAt(Run(h, hist), cell), EntryAt(Run(h, hist + more), cell));
  }
}
