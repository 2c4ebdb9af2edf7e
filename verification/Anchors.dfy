/** The dispatch rules of the pallet as functions of its storage, and what they do to one entry.

    `Outcome` is the result of the checks, in their order; `After` the storage the call leaves.
    Both depend on the storage through a single entry, the `Cell` the call names.
 */
module Anchors {
  import opened Digests
  import opened Hasher
  import opened Merkle
  import opened MerkleTrees

  const MAX_PROOF_SIZE: nat := 16

  newtype U64 = x: int | 0 <= x < 0x1_0000_0000_0000_0000

  const U64_MAX: U64 := 0xFFFF_FFFF_FFFF_FFFF

  type BlockNumber = nat

  // The runtime's account ids are 32 bytes.
  type AccountId = Out

  datatype Origin = Signed(who: AccountId) | RootOrigin | NoOrigin

  datatype Revokable = NotRevoked(block: BlockNumber) | Revoked

  datatype Storage = Storage(anchors: map<(Out, Out), Revokable>, suspendedLeaves: map<(Out, Out), U64>)

  const EMPTY := Storage(map[], map[])

  datatype Call =
    | CreateAnchor(origin: Origin, admins: Out, root: Out)
    | RevokeAnchor(origin: Origin, admins: Out, root: Out, proof: Proof)
    | SuspendLeaf(origin: Origin, admins: Out, leaf: Out, proof: Proof, end: U64)

  datatype Error =
    | BadOrigin
    | AlreadyAnchored
    | ProofTooLong
    | AlreadyRevoked
    | AlreadySuspended
    | InvalidProof

  datatype DispatchResult = Ok | Err(error: Error)

  // An account id is hashed as a byte slice.
  function AccountHash(h: HashFn, who: AccountId): Out {
    h(who)
  }

  method HashAccountId(h: HashFn, preimage: AccountId) returns (r: Out)
    ensures r == AccountHash(h, preimage) == HashOf(h, SliceValue(preimage))
  {
    var hasher := new Digest(h);
    HashInto(SliceValue(preimage), hasher);
    assert [] + preimage == preimage;
    r := hasher.Result();
  }

  // Queries

  function LookupAnchor(s: Storage, admins: Out, root: Out): Option<Revokable> {
    if (admins, root) in s.anchors then Some(s.anchors[(admins, root)]) else None
  }

  function LookupSuspension(s: Storage, admins: Out, leaf: Out): Option<U64> {
    if (admins, leaf) in s.suspendedLeaves then Some(s.suspendedLeaves[(admins, leaf)]) else None
  }

  predicate LeafSuspendedBy(s: Storage, admins: Out, leaf: Out, now: U64) {
    match LookupSuspension(s, admins, leaf)
    case None => false
    case Some(end) => now <= end
  }

  // Dispatch

  predicate ValidMembership(h: HashFn, c: Call)
    requires !c.CreateAnchor? && c.origin.Signed?
  {
    VerifyProof(h, c.admins, c.proof, AccountHash(h, c.origin.who))
  }

  function Outcome(h: HashFn, s: Storage, c: Call): DispatchResult {
    if !c.origin.Signed? then Err(BadOrigin)
    else
      match c
      case CreateAnchor(_, admins, root) =>
        if (admins, root) in s.anchors then Err(AlreadyAnchored) else Ok
      case RevokeAnchor(_, admins, root, proof) =>
        if |proof| > MAX_PROOF_SIZE then Err(ProofTooLong)
        else if LookupAnchor(s, admins, root) == Some(Revoked) then Err(AlreadyRevoked)
        else if !ValidMembership(h, c) then Err(InvalidProof)
        else Ok
      case SuspendLeaf(_, admins, leaf, proof, end) =>
        if |proof| > MAX_PROOF_SIZE then Err(ProofTooLong)
        else if (admins, leaf) in s.suspendedLeaves && !(end > s.suspendedLeaves[(admins, leaf)]) then
          Err(AlreadySuspended)
        else if !ValidMembership(h, c) then Err(InvalidProof)
        else Ok
  }

  function Write(now: BlockNumber, s: Storage, c: Call): Storage {
    match c
    case CreateAnchor(_, admins, root) => s.(anchors := s.anchors[(admins, root) := NotRevoked(now)])
    case RevokeAnchor(_, admins, root, _) => s.(anchors := s.anchors[(admins, root) := Revoked])
    case SuspendLeaf(_, admins, leaf, _, end) => s.(suspendedLeaves := s.suspendedLeaves[(admins, leaf) := end])
  }

  function After(h: HashFn, now: BlockNumber, s: Storage, c: Call): Storage {
    if Outcome(h, s, c).Ok? then Write(now, s, c) else s
  }

  // One entry at a time

  datatype Cell = AnchorCell(admins: Out, root: Out) | LeafCell(admins: Out, leaf: Out)

  datatype Entry = Anchor(state: Option<Revokable>) | Suspension(end: Option<U64>)

  function CellOf(c: Call): Cell {
    match c
    case CreateAnchor(_, admins, root) => AnchorCell(admins, root)
    case RevokeAnchor(_, admins, root, _) => AnchorCell(admins, root)
    case SuspendLeaf(_, admins, leaf, _, _) => LeafCell(admins, leaf)
  }

  function EntryAt(s: Storage, cell: Cell): Entry {
    match cell
    case AnchorCell(admins, root) => Anchor(LookupAnchor(s, admins, root))
    case LeafCell(admins, leaf) => Suspension(LookupSuspension(s, admins, leaf))
  }

  // The part of the checks that does not look at storage.
  predicate Authorised(h: HashFn, c: Call) {
    c.origin.Signed? && (c.CreateAnchor? || (|c.proof| <= MAX_PROOF_SIZE && ValidMembership(h, c)))
  }

  predicate Touches(h: HashFn, c: Call, cell: Cell) {
    Authorised(h, c) && CellOf(c) == cell
  }

  // What an authorised call does to its entry: the first creation stays, revocation absorbs, the
  // later suspension end wins.
  function Effect(x: Entry, now: BlockNumber, c: Call): Entry {
    match (x, c)
    case (Anchor(None), CreateAnchor(_, _, _)) => Anchor(Some(NotRevoked(now)))
    case (Anchor(_), RevokeAnchor(_, _, _, _)) => Anchor(Some(Revoked))
    case (Suspension(None), SuspendLeaf(_, _, _, _, end)) => Suspension(Some(end))
    case (Suspension(Some(e)), SuspendLeaf(_, _, _, _, end)) => Suspension(Some(if e < end then end else e))
    case _ => x
  }

  // A call changes its own cell only, by `Effect`, and succeeds exactly when that is a change.
  lemma {:induction false} CellStep(h: HashFn, now: BlockNumber, s: Storage, c: Call, cell: Cell)
    ensures EntryAt(After(h, now, s, c), cell)
         == if Touches(h, c, cell) then Effect(EntryAt(s, cell), now, c) else EntryAt(s, cell)
    ensures Outcome(h, s, c).Ok?
       <==> Authorised(h, c) && Effect(EntryAt(s, CellOf(c)), now, c) != EntryAt(s, CellOf(c))
  {
    match c
    case CreateAnchor(_, _, _) =>
    case RevokeAnchor(_, _, _, _) =>
    case SuspendLeaf(_, _, _, _, _) =>
  }

  // Why a call fails: the origin first, then the proof's length, then an entry it would not change,
  // and only then an invalid proof.
  lemma {:induction false} ErrorsExplained(h: HashFn, now: BlockNumber, s: Storage, c: Call)
    ensures var r, x := Outcome(h, s, c), EntryAt(s, CellOf(c));
            var checked := c.origin.Signed? && (c.CreateAnchor? || |c.proof| <= MAX_PROOF_SIZE);
            && (r == Err(BadOrigin) <==> !c.origin.Signed?)
            && (r == Err(ProofTooLong) <==> c.origin.Signed? && !checked)
            && (r == Err(AlreadyAnchored) <==> c.CreateAnchor? && checked && Effect(x, now, c) == x)
            && (r == Err(AlreadyRevoked) <==> c.RevokeAnchor? && checked && Effect(x, now, c) == x)
            && (r == Err(AlreadySuspended) <==> c.SuspendLeaf? && checked && Effect(x, now, c) == x)
            && (r == Err(InvalidProof) <==>
                !c.CreateAnchor? && checked && Effect(x, now, c) != x && !ValidMembership(h, c))
  {
    CellStep(h, now, s, c, CellOf(c));
    match c
    case CreateAnchor(_, _, _) =>
    case RevokeAnchor(_, _, _, _) =>
    case SuspendLeaf(_, _, _, _, _) =>
  }

  lemma {:induction false} StorageExtensional(s: Storage, t: Storage)
    requires forall cell :: EntryAt(s, cell) == EntryAt(t, cell)
    ensures s == t
  {
    forall a: Out, b: Out
      ensures LookupAnchor(s, a, b) == LookupAnchor(t, a, b) && LookupSuspension(s, a, b) == LookupSuspension(t, a, b)
    {
      assert EntryAt(s, AnchorCell(a, b)) == EntryAt(t, AnchorCell(a, b));
      assert EntryAt(s, LeafCell(a, b)) == EntryAt(t, LeafCell(a, b));
    }
    AnchorsExtensional(s, t);
    LeavesExtensional(s, t);
  }

  lemma AnchorsExtensional(s: Storage, t: Storage)
    requires forall a: Out, b: Out :: LookupAnchor(s, a, b) == LookupAnchor(t, a, b)
    ensures s.anchors == t.anchors
  {
    var m, n := s.anchors, t.anchors;
    forall k ensures k in m <==> k in n {
      assert LookupAnchor(s, k.0, k.1) == LookupAnchor(t, k.0, k.1);
    }
    forall k | k in m ensures m[k] == n[k] {
      assert LookupAnchor(s, k.0, k.1) == LookupAnchor(t, k.0, k.1);
    }
  }

  lemma LeavesExtensional(s: Storage, t: Storage)
    requires forall a: Out, b: Out :: LookupSuspension(s, a, b) == LookupSuspension(t, a, b)
    ensures s.suspendedLeaves == t.suspendedLeaves
  {
    var m, n := s.suspendedLeaves, t.suspendedLeaves;
    forall k ensures k in m <==> k in n {
      assert LookupSuspension(s, k.0, k.1) == LookupSuspension(t, k.0, k.1);
    }
    forall k | k in m ensures m[k] == n[k] {
      assert LookupSuspension(s, k.0, k.1) == LookupSuspension(t, k.0, k.1);
    }
  }

  // Progress

  ghost predicate EntryLeq(x: Entry, y: Entry) {
    match (x, y)
    case (Anchor(None), Anchor(_)) => true
    case (Anchor(Some(a)), Anchor(Some(b))) => a == b || b == Revoked
    case (Suspension(None), Suspension(_)) => true
    case (Suspension(Some(a)), Suspension(Some(b))) => a <= b
    case _ => false
  }

  // Entries are never removed, block numbers never change, revocation is final, ends never drop.
  ghost predicate StorageLeq(s: Storage, t: Storage) {
    forall cell :: EntryLeq(EntryAt(s, cell), EntryAt(t, cell))
  }

  lemma {:induction false} LeqIsPartialOrder(s: Storage, t: Storage, u: Storage)
    ensures StorageLeq(s, s)
    ensures StorageLeq(s, t) && StorageLeq(t, s) ==> s == t
    ensures StorageLeq(s, t) && StorageLeq(t, u) ==> StorageLeq(s, u)
  {
    if StorageLeq(s, t) && StorageLeq(t, s) {
      forall cell ensures EntryAt(s, cell) == EntryAt(t, cell) {
        assert EntryLeq(EntryAt(s, cell), EntryAt(t, cell)) && EntryLeq(EntryAt(t, cell), EntryAt(s, cell));
      }
      StorageExtensional(s, t);
    }
    if StorageLeq(s, t) && StorageLeq(t, u) {
      forall cell ensures EntryLeq(EntryAt(s, cell), EntryAt(u, cell)) {
        assert EntryLeq(EntryAt(s, cell), EntryAt(t, cell)) && EntryLeq(EntryAt(t, cell), EntryAt(u, cell));
      }
    }
  }

  // Storage only climbs, and a call succeeds exactly when it changes storage.
  lemma {:induction false} CallsClimb(h: HashFn, now: BlockNumber, s: Storage, c: Call)
    ensures StorageLeq(s, After(h, now, s, c))
    ensures Outcome(h, s, c).Ok? <==> After(h, now, s, c) != s
  {
    forall cell ensures EntryLeq(EntryAt(s, cell), EntryAt(After(h, now, s, c), cell)) {
      CellStep(h, now, s, c, cell);
    }
    CellStep(h, now, s, c, CellOf(c));
  }

  // The outcome depends on the call's own entry only.
  lemma {:induction false} OutcomeIsLocal(h: HashFn, s: Storage, t: Storage, c: Call)
    requires EntryAt(s, CellOf(c)) == EntryAt(t, CellOf(c))
    ensures Outcome(h, s, c) == Outcome(h, t, c)
  {
    match c
    case CreateAnchor(_, admins, root) => assert LookupAnchor(s, admins, root) == LookupAnchor(t, admins, root);
    case RevokeAnchor(_, _, _, _) =>
    case SuspendLeaf(_, _, _, _, _) =>
  }

  // A suspension until `end` shows to nobody who asks about a later time.
  lemma {:induction false} PastSuspensionIsInvisible(h: HashFn, now: BlockNumber, s: Storage, c: Call, admins: Out,
                                                     leaf: Out, time: U64)
    requires c.SuspendLeaf? && c.end < time
    ensures LeafSuspendedBy(After(h, now, s, c), admins, leaf, time) == LeafSuspendedBy(s, admins, leaf, time)
  {
    CellStep(h, now, s, c, LeafCell(admins, leaf));
  }

  // Two calls of one block commute on storage.
  lemma {:induction false} CallsCommute(h: HashFn, now: BlockNumber, s: Storage, a: Call, b: Call)
    ensures After(h, now, After(h, now, s, a), b) == After(h, now, After(h, now, s, b), a)
  {
    var ab, ba := After(h, now, After(h, now, s, a), b), After(h, now, After(h, now, s, b), a);
    forall cell ensures EntryAt(ab, cell) == EntryAt(ba, cell) {
      CellStep(h, now, s, a, cell);
      CellStep(h, now, s, b, cell);
      CellStep(h, now, After(h, now, s, a), b, cell);
      CellStep(h, now, After(h, now, s, b), a, cell);
      EffectsCommute(EntryAt(s, cell), now, a, b);
    }
    StorageExtensional(ab, ba);
  }

  lemma EffectsCommute(x: Entry, now: BlockNumber, a: Call, b: Call)
    ensures Effect(Effect(x, now, a), now, b) == Effect(Effect(x, now, b), now, a)
  {}
}
