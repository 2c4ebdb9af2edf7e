/** Merkle soundness joined with whole runs: who can have changed what.

    A forged membership yields a collision between the tree and the one accepted call; hypotheses
    about collisions cover only the tree in question and accepted calls under its own root.
 */
module Authorisation {
  import opened Cardinality
  import opened Digests
  import opened Merkle
  import opened MerkleTrees
  import opened MerkleCounting
  import opened Anchors
  import opened Runs
  import opened LifeCycles

  // What checking the membership of one caller hashes.
  ghost function CallPreimages(h: HashFn, c: Call): set<Bytes> {
    if !c.origin.Signed? || c.CreateAnchor? then {}
    else {c.origin.who} + Trace(h, AccountHash(h, c.origin.who), c.proof)
  }

  predicate Accepted(h: HashFn, hist: History, i: int) {
    0 <= i < |hist| && ResultAt(h, hist, i).Ok?
  }

  // Accepted, and with the caller's membership checked.
  predicate AcceptedFor(h: HashFn, hist: History, i: int, admins: Out) {
    Accepted(h, hist, i) && !hist[i].call.CreateAnchor? && hist[i].call.admins == admins
  }

  // What the run hashes for the calls it accepts under `admins`.
  ghost function AcceptedPreimages(h: HashFn, hist: History, admins: Out): set<Bytes> {
    set i, x | 0 <= i < |hist| && AcceptedFor(h, hist, i, admins) && x in CallPreimages(h, hist[i].call) :: x
  }

  lemma {:induction false} AcceptedIsAuthorised(h: HashFn, hist: History, i: int)
    requires Accepted(h, hist, i)
    ensures Authorised(h, hist[i].call)
  {
    CellStep(h, hist[i].block, Run(h, hist[..i]), hist[i].call, CellOf(hist[i].call));
  }

  lemma CallIsCovered(h: HashFn, hist: History, i: int, admins: Out)
    requires AcceptedFor(h, hist, i, admins)
    ensures CallPreimages(h, hist[i].call) <= AcceptedPreimages(h, hist, admins)
  {
    forall x | x in CallPreimages(h, hist[i].call) ensures x in AcceptedPreimages(h, hist, admins) {}
  }

  // The sets above, spelled out: a verified call hashes the account, then the leaf hash, then each
  // proof element joined with the node so far.
  lemma {:induction false} CallPreimagesAre(h: HashFn, c: Call)
    requires c.origin.Signed? && !c.CreateAnchor?
    ensures var leaf := AccountHash(h, c.origin.who);
            var joined := set k | 0 <= k < |c.proof| :: c.proof[k].Join(Node(h, leaf, c.proof[..k]));
            CallPreimages(h, c) == {c.origin.who, leaf} + joined
  {
    TraceIsFoldSteps(h, AccountHash(h, c.origin.who), c.proof);
  }

  lemma AcceptedPreimagesAre(h: HashFn, hist: History, admins: Out, x: Bytes)
    ensures x in AcceptedPreimages(h, hist, admins)
       <==> exists i: nat :: i < |hist| && ResultAt(h, hist, i).Ok? && !hist[i].call.CreateAnchor?
                          && hist[i].call.admins == admins && x in CallPreimages(h, hist[i].call)
  {}

  // A leaf is suspended at `now` iff a suspension the run accepted reaches that far.
  lemma {:induction false} SuspendedIffAccepted(h: HashFn, hist: History, admins: Out, leaf: Out, now: U64)
    ensures LeafSuspendedBy(Run(h, hist), admins, leaf, now)
       <==> exists i :: AcceptedFor(h, hist, i, admins) && hist[i].call.SuspendLeaf? && hist[i].call.leaf == leaf
                     && now <= hist[i].call.end
  {
    if LeafSuspendedBy(Run(h, hist), admins, leaf, now) {
      var i := SuspensionSetBy(h, hist, admins, leaf);
      assert AcceptedFor(h, hist, i, admins);
    }
    forall i | AcceptedFor(h, hist, i, admins) && hist[i].call.SuspendLeaf? && hist[i].call.leaf == leaf
            && now <= hist[i].call.end
      ensures LeafSuspendedBy(Run(h, hist), admins, leaf, now)
    {
      AcceptedIsAuthorised(h, hist, i);
      assert SuspendsAt(h, hist, i, LeafCell(admins, leaf));
      SuspendedIff(h, hist, admins, leaf, now);
    }
  }

  // Soundness over runs

  // The extractor, run on the tree and the proof of an accepted call, clears the sender as a leaf
  // deep enough for the proof limit, or returns a collision between the two.
  lemma {:induction false} AcceptedByMemberOrCollision(h: HashFn, hist: History, i: int, t: MTree)
    requires AcceptedFor(h, hist, i, RootHash(h, t))
    ensures hist[i].call.origin.Signed?
    ensures var c := hist[i].call;
            var leaf := AccountHash(h, c.origin.who);
            match Extract(h, t, c.proof, leaf)
            case None => Occurs(t, leaf, MAX_PROOF_SIZE)
            case Some((x, y)) =>
              x != y && h(x) == h(y) && x in TreePreimages(h, t) && y in Trace(h, leaf, c.proof)
  {
    AcceptedIsAuthorised(h, hist, i);
    var c := hist[i].call;
    Soundness(h, t, c.proof, AccountHash(h, c.origin.who));
    if LeafAt(t, Directions(c.proof), AccountHash(h, c.origin.who)) {
      assert |Directions(c.proof)| <= MAX_PROOF_SIZE;
    }
  }

  // In every reachable state, a revoked anchor under a tree's root was revoked by a signed call,
  // and that call's sender is in the tree or its proof collides with the tree.
  lemma {:induction false} RevocationByMemberOrCollision(h: HashFn, hist: History, t: MTree, root: Out)
    returns (i: int)
    requires LookupAnchor(Run(h, hist), RootHash(h, t), root) == Some(Revoked)
    ensures AcceptedFor(h, hist, i, RootHash(h, t)) && hist[i].call.RevokeAnchor? && hist[i].call.root == root
    ensures hist[i].call.origin.Signed?
    ensures var c := hist[i].call;
            var leaf := AccountHash(h, c.origin.who);
            match Extract(h, t, c.proof, leaf)
            case None => Occurs(t, leaf, MAX_PROOF_SIZE)
            case Some((x, y)) =>
              x != y && h(x) == h(y) && x in TreePreimages(h, t) && y in Trace(h, leaf, c.proof)
  {
    i := AnchorSetBy(h, hist, RootHash(h, t), root);
    AcceptedByMemberOrCollision(h, hist, i, t);
  }

  // A stored suspension was issued, with exactly that end, by such a call.
  lemma {:induction false} SuspensionByMemberOrCollision(h: HashFn, hist: History, t: MTree, leaf: Out, end: U64)
    returns (i: int)
    requires LookupSuspension(Run(h, hist), RootHash(h, t), leaf) == Some(end)
    ensures AcceptedFor(h, hist, i, RootHash(h, t)) && hist[i].call.SuspendLeaf? && hist[i].call.leaf == leaf
    ensures hist[i].call.end == end && hist[i].call.origin.Signed?
    ensures var c := hist[i].call;
            var account := AccountHash(h, c.origin.who);
            match Extract(h, t, c.proof, account)
            case None => Occurs(t, account, MAX_PROOF_SIZE)
            case Some((x, y)) =>
              x != y && h(x) == h(y) && x in TreePreimages(h, t) && y in Trace(h, account, c.proof)
  {
    i := SuspensionSetBy(h, hist, RootHash(h, t), leaf);
    AcceptedByMemberOrCollision(h, hist, i, t);
  }

  // With no collision between the tree and this one call, the sender is in the tree.
  lemma {:induction false} AcceptedByMember(h: HashFn, hist: History, i: int, t: MTree)
    requires AcceptedFor(h, hist, i, RootHash(h, t))
    requires CollisionFree(h, TreePreimages(h, t) + CallPreimages(h, hist[i].call))
    ensures hist[i].call.origin.Signed?
    ensures Occurs(t, AccountHash(h, hist[i].call.origin.who), MAX_PROOF_SIZE)
  {
    AcceptedByMemberOrCollision(h, hist, i, t);
  }

  lemma {:induction false} RevocationIsByMember(h: HashFn, hist: History, t: MTree, root: Out)
    requires LookupAnchor(Run(h, hist), RootHash(h, t), root) == Some(Revoked)
    requires CollisionFree(h, TreePreimages(h, t) + AcceptedPreimages(h, hist, RootHash(h, t)))
    ensures exists i :: AcceptedFor(h, hist, i, RootHash(h, t)) && hist[i].call.RevokeAnchor?
                     && hist[i].call.root == root && hist[i].call.origin.Signed?
                     && Occurs(t, AccountHash(h, hist[i].call.origin.who), MAX_PROOF_SIZE)
  {
    var i := RevocationByMemberOrCollision(h, hist, t, root);
    FreeForCall(h, hist, i, t);
    AcceptedByMember(h, hist, i, t);
  }

  lemma {:induction false} SuspensionIsByMember(h: HashFn, hist: History, t: MTree, leaf: Out, end: U64)
    requires LookupSuspension(Run(h, hist), RootHash(h, t), leaf) == Some(end)
    requires CollisionFree(h, TreePreimages(h, t) + AcceptedPreimages(h, hist, RootHash(h, t)))
    ensures exists i :: AcceptedFor(h, hist, i, RootHash(h, t)) && hist[i].call.SuspendLeaf?
                     && hist[i].call.leaf == leaf && hist[i].call.end == end && hist[i].call.origin.Signed?
                     && Occurs(t, AccountHash(h, hist[i].call.origin.who), MAX_PROOF_SIZE)
  {
    var i := SuspensionByMemberOrCollision(h, hist, t, leaf, end);
    FreeForCall(h, hist, i, t);
    AcceptedByMember(h, hist, i, t);
  }

  lemma {:induction false} FreeForCall(h: HashFn, hist: History, i: int, t: MTree)
    requires AcceptedFor(h, hist, i, RootHash(h, t))
    requires CollisionFree(h, TreePreimages(h, t) + AcceptedPreimages(h, hist, RootHash(h, t)))
    ensures CollisionFree(h, TreePreimages(h, t) + CallPreimages(h, hist[i].call))
  {
    CallIsCovered(h, hist, i, RootHash(h, t));
    SubsetFree(h, TreePreimages(h, t) + CallPreimages(h, hist[i].call),
               TreePreimages(h, t) + AcceptedPreimages(h, hist, RootHash(h, t)));
  }

  // With the tree built over a roster of accounts, the sender itself is on the roster, barring a
  // collision between the roster, its tree and this one call.
  lemma {:induction false} AcceptedByListedAccount(h: HashFn, hist: History, i: int, roster: MTree)
    requires AcceptedFor(h, hist, i, RootHash(h, HashLeaves(h, roster)))
    requires CollisionFree(h, LeafSet(roster) + TreePreimages(h, HashLeaves(h, roster))
                              + CallPreimages(h, hist[i].call))
    ensures hist[i].call.origin.Signed? && Occurs(roster, hist[i].call.origin.who, MAX_PROOF_SIZE)
  {
    var t, c := HashLeaves(h, roster), hist[i].call;
    var all := LeafSet(roster) + TreePreimages(h, t) + CallPreimages(h, c);
    SubsetFree(h, TreePreimages(h, t) + CallPreimages(h, c), all);
    AcceptedByMember(h, hist, i, t);
    var who := c.origin.who;
    assert who in CallPreimages(h, c);
    SubsetFree(h, LeafSet(roster) + {who}, all);
    var path :| |path| <= MAX_PROOF_SIZE && LeafAt(t, path, AccountHash(h, who));
    HashLeavesAt(h, roster, path, who);
  }

  // Completeness over states

  // A member's revocation succeeds in every state where the anchor is not yet revoked, and its
  // suspension wherever it would extend the current one.
  lemma {:induction false} MembersCanAct(h: HashFn, s: Storage, t: MTree, path: Path, who: AccountId, item: Out,
                                         end: U64)
    requires LeafAt(t, path, AccountHash(h, who)) && |path| <= MAX_PROOF_SIZE
    ensures Outcome(h, s, RevokeAnchor(Signed(who), RootHash(h, t), item, ProofAt(h, t, path)))
         == if LookupAnchor(s, RootHash(h, t), item) == Some(Revoked) then Err(AlreadyRevoked) else Ok
    ensures Outcome(h, s, SuspendLeaf(Signed(who), RootHash(h, t), item, ProofAt(h, t, path), end))
         == if LeafSuspendedBy(s, RootHash(h, t), item, end) then Err(AlreadySuspended) else Ok
  {
    var proof := ProofAt(h, t, path);
    assert |proof| <= MAX_PROOF_SIZE && VerifyProof(h, RootHash(h, t), proof, AccountHash(h, who)) by {
      ProofAtVerifies(h, t, path, AccountHash(h, who));
    }
    AuthorisedOutcome(h, s, RevokeAnchor(Signed(who), RootHash(h, t), item, proof));
    AuthorisedOutcome(h, s, SuspendLeaf(Signed(who), RootHash(h, t), item, proof, end));
  }

  lemma AuthorisedOutcome(h: HashFn, s: Storage, c: Call)
    requires Authorised(h, c)
    ensures c.RevokeAnchor? ==>
              Outcome(h, s, c) == if LookupAnchor(s, c.admins, c.root) == Some(Revoked) then Err(AlreadyRevoked) else Ok
    ensures c.SuspendLeaf? ==>
              Outcome(h, s, c) == if LeafSuspendedBy(s, c.admins, c.leaf, c.end) then Err(AlreadySuspended) else Ok
  {}

  // An account has a proof that passes both checks, found without a collision, exactly when its
  // hash occurs in the tree at depth at most 16.
  lemma {:induction false} AuthorisedIff(h: HashFn, t: MTree, who: AccountId, root: Out)
    requires CollisionFree(h, TreePreimages(h, t))
    ensures Occurs(t, AccountHash(h, who), MAX_PROOF_SIZE)
       <==> exists proof :: Authorised(h, RevokeAnchor(Signed(who), RootHash(h, t), root, proof))
                         && CollisionFree(h, TreePreimages(h, t) + Trace(h, AccountHash(h, who), proof))
  {
    var leaf := AccountHash(h, who);
    MembershipIff(h, t, leaf, MAX_PROOF_SIZE);
    forall proof ensures Authorised(h, RevokeAnchor(Signed(who), RootHash(h, t), root, proof))
                      == (|proof| <= MAX_PROOF_SIZE && VerifyProof(h, RootHash(h, t), proof, leaf)) {}
  }

  // How many accounts

  // The accounts that have revoked or suspended anything under `admins`.
  ghost function Actors(h: HashFn, hist: History, admins: Out): set<AccountId> {
    set i | 0 <= i < |hist| && AcceptedFor(h, hist, i, admins) && hist[i].call.origin.Signed? :: hist[i].call.origin.who
  }

  // An account is among them exactly when the run accepted a revocation or suspension it signed.
  lemma {:induction false} ActorsAre(h: HashFn, hist: History, admins: Out, who: AccountId)
    ensures who in Actors(h, hist, admins)
       <==> exists i: nat :: i < |hist| && ResultAt(h, hist, i).Ok? && hist[i].call.origin == Signed(who)
                          && (hist[i].call.RevokeAnchor? || hist[i].call.SuspendLeaf?) && hist[i].call.admins == admins
    ensures forall i | AcceptedFor(h, hist, i, admins) ::
              hist[i].call.origin.Signed? && hist[i].call.origin.who in Actors(h, hist, admins)
  {
    forall i | AcceptedFor(h, hist, i, admins) ensures hist[i].call.origin.Signed? {
      AcceptedIsAuthorised(h, hist, i);
    }
    forall i: nat | i < |hist| && ResultAt(h, hist, i).Ok? && !hist[i].call.CreateAnchor?
                 && hist[i].call.admins == admins
      ensures AcceptedFor(h, hist, i, admins)
    {}
  }

  ghost predicate ActedWith(h: HashFn, hist: History, admins: Out, who: AccountId, proof: Proof) {
    exists i :: AcceptedFor(h, hist, i, admins) && hist[i].call.origin == Signed(who) && hist[i].call.proof == proof
  }

  ghost function ProofUsed(h: HashFn, hist: History, admins: Out, who: AccountId): (proof: Proof)
    requires who in Actors(h, hist, admins)
    ensures ActedWith(h, hist, admins, who, proof)
  {
    var i :| 0 <= i < |hist| && AcceptedFor(h, hist, i, admins) && hist[i].call.origin == Signed(who);
    assert ActedWith(h, hist, admins, who, hist[i].call.proof);
    var proof :| ActedWith(h, hist, admins, who, proof);
    proof
  }

  lemma {:induction false} ActorFacts(h: HashFn, hist: History, admins: Out, who: AccountId, proof: Proof)
    requires ActedWith(h, hist, admins, who, proof)
    ensures |proof| <= MAX_PROOF_SIZE && VerifyProof(h, admins, proof, AccountHash(h, who))
    ensures {who} + Trace(h, AccountHash(h, who), proof) <= AcceptedPreimages(h, hist, admins)
  {
    var i :| AcceptedFor(h, hist, i, admins) && hist[i].call.origin == Signed(who) && hist[i].call.proof == proof;
    AcceptedIsAuthorised(h, hist, i);
    CallIsCovered(h, hist, i, admins);
  }

  // Whatever `admins` is, no run lets more than 2^16 accounts act under it.
  lemma {:induction false} MaxRevokers(h: HashFn, hist: History, admins: Out)
    requires CollisionFree(h, AcceptedPreimages(h, hist, admins))
    ensures |Actors(h, hist, admins)| <= Pow2(MAX_PROOF_SIZE) == 65536
  {
    var s := ActorOpenings(h, hist, admins);
    ActorsAreOpenings(h, hist, admins);
    Kraft(h, admins, s, MAX_PROOF_SIZE);
    CountBelowWeight(s, MAX_PROOF_SIZE);
    Pow2Of16();
  }

  // One opening of `admins` for each of them.
  ghost function ActorOpenings(h: HashFn, hist: History, admins: Out): set<Opening> {
    set who | who in Actors(h, hist, admins) :: Opening(AccountHash(h, who), ProofUsed(h, hist, admins, who))
  }

  lemma {:induction false} ActorsAreOpenings(h: HashFn, hist: History, admins: Out)
    requires CollisionFree(h, AcceptedPreimages(h, hist, admins))
    ensures |ActorOpenings(h, hist, admins)| == |Actors(h, hist, admins)|
    ensures Within(ActorOpenings(h, hist, admins), MAX_PROOF_SIZE) && Open(h, admins, ActorOpenings(h, hist, admins))
    ensures CollisionFree(h, Traces(h, ActorOpenings(h, hist, admins)))
  {
    var actors, s := Actors(h, hist, admins), ActorOpenings(h, hist, admins);
    forall who | who in actors
      ensures var proof := ProofUsed(h, hist, admins, who);
              && |proof| <= MAX_PROOF_SIZE && VerifyProof(h, admins, proof, AccountHash(h, who))
              && {who} + Trace(h, AccountHash(h, who), proof) <= AcceptedPreimages(h, hist, admins)
    {
      ActorFacts(h, hist, admins, who, ProofUsed(h, hist, admins, who));
    }
    forall who, who' | who in actors && who' in actors && h(who) == h(who') ensures who == who' {
      assert {who} <= AcceptedPreimages(h, hist, admins) && {who'} <= AcceptedPreimages(h, hist, admins);
    }
    ImageSize(actors, who requires who in actors => Opening(AccountHash(h, who), ProofUsed(h, hist, admins, who)), s);
    SubsetFree(h, Traces(h, s), AcceptedPreimages(h, hist, admins));
  }

  // The account can pass both checks under `admins`.
  ghost predicate HasProof(h: HashFn, admins: Out, who: AccountId) {
    exists proof :: |proof| <= MAX_PROOF_SIZE && VerifyProof(h, admins, proof, AccountHash(h, who))
  }

  lemma {:induction false} ListedHasProof(h: HashFn, roster: MTree, path: Path, who: AccountId)
    requires LeafAt(roster, path, who) && |path| <= MAX_PROOF_SIZE
    ensures HasProof(h, RootHash(h, HashLeaves(h, roster)), who)
  {
    HashLeavesKeeps(h, roster, path, who);
    ProofAtVerifies(h, HashLeaves(h, roster), path, AccountHash(h, who));
  }

  ghost function ProofFor(h: HashFn, admins: Out, who: AccountId): (proof: Proof)
    requires HasProof(h, admins, who)
    ensures |proof| <= MAX_PROOF_SIZE && VerifyProof(h, admins, proof, AccountHash(h, who))
  {
    var proof :| |proof| <= MAX_PROOF_SIZE && VerifyProof(h, admins, proof, AccountHash(h, who));
    proof
  }

  ghost predicate AllHaveProofs(h: HashFn, admins: Out, accounts: seq<AccountId>) {
    forall i | 0 <= i < |accounts| :: HasProof(h, admins, accounts[i])
  }

  // Each account suspends the leaf of its own name.
  ghost function SuspendInTurn(h: HashFn, admins: Out, accounts: seq<AccountId>): (hist: History)
    requires AllHaveProofs(h, admins, accounts)
    ensures |hist| == |accounts|
  {
    seq(|accounts|, i requires 0 <= i < |accounts| && AllHaveProofs(h, admins, accounts) =>
      Event(0, SuspendLeaf(Signed(accounts[i]), admins, accounts[i], ProofFor(h, admins, accounts[i]), 0)))
  }

  lemma {:induction false} TurnIsAccepted(h: HashFn, admins: Out, accounts: seq<AccountId>, i: nat)
    requires AllHaveProofs(h, admins, accounts) && i < |accounts|
    requires forall j, k | 0 <= j < k < |accounts| :: accounts[j] != accounts[k]
    ensures AcceptedFor(h, SuspendInTurn(h, admins, accounts), i, admins)
  {
    var hist, cell := SuspendInTurn(h, admins, accounts), LeafCell(admins, accounts[i]);
    forall j ensures !SuspendsAt(h, hist[..i], j, cell) {
      if 0 <= j < i { assert CellOf(hist[..i][j].call) == LeafCell(admins, accounts[j]); }
    }
    SuspensionsReadHistory(h, hist[..i], admins, accounts[i]);
    assert Authorised(h, hist[i].call);
    AuthorisedOutcome(h, Run(h, hist[..i]), hist[i].call);
  }

  // Distinct accounts that have proofs can all act in one run.
  lemma {:induction false} AllAct(h: HashFn, admins: Out, accounts: seq<AccountId>)
    requires AllHaveProofs(h, admins, accounts)
    requires forall j, k | 0 <= j < k < |accounts| :: accounts[j] != accounts[k]
    ensures Actors(h, SuspendInTurn(h, admins, accounts), admins) == set who | who in accounts
  {
    var hist := SuspendInTurn(h, admins, accounts);
    forall who | who in accounts ensures who in Actors(h, hist, admins) {
      var i :| 0 <= i < |accounts| && accounts[i] == who;
      TurnIsAccepted(h, admins, accounts, i);
      assert hist[i].call.origin.who == who;
    }
  }

  // For every hash function some run lets 2^16 accounts act under one root.
  lemma {:induction false} MaxRevokersAttained(h: HashFn) returns (admins: Out, hist: History)
    ensures |Actors(h, hist, admins)| == Pow2(MAX_PROOF_SIZE) == 65536
  {
    var roster := NumberedTree(MAX_PROOF_SIZE);
    var accounts := Leaves(roster);
    admins := RootHash(h, HashLeaves(h, roster));
    forall i | 0 <= i < |accounts| ensures HasProof(h, admins, accounts[i]) {
      LeavesAreLeafSet(roster, accounts[i]);
      var path := LeafHasPath(roster, accounts[i]);
      PerfectDepth(roster, MAX_PROOF_SIZE, path, accounts[i]);
      ListedHasProof(h, roster, path, accounts[i]);
    }
    hist := SuspendInTurn(h, admins, accounts);
    AllAct(h, admins, accounts);
    DistinctCount(accounts);
    Pow2Of16();
  }

  // Irrevocable anchors

  ghost function AccountHashes(h: HashFn): iset<Out> {
    iset who: AccountId :: AccountHash(h, who)
  }

  lemma {:induction false} OpenableByRun(h: HashFn, admins: Out, item: Out, end: U64) returns (hist: History)
    requires Openable(h, admins, MAX_PROOF_SIZE, AccountHashes(h))
    ensures LookupAnchor(Run(h, hist), admins, item) == Some(Revoked)
    ensures LookupSuspension(Run(h, hist), admins, item) == Some(end)
  {
    var leaf, proof := OpenableImpliesAccepted(h, admins, MAX_PROOF_SIZE, AccountHashes(h));
    var who: AccountId :| leaf == AccountHash(h, who);
    var revoke := Event(0, RevokeAnchor(Signed(who), admins, item, proof));
    var suspend := Event(0, SuspendLeaf(Signed(who), admins, item, proof, end));
    hist := [] + [revoke] + [suspend];
    RunStep(h, EMPTY, [], revoke);
    RunStep(h, EMPTY, [] + [revoke], suspend);
  }

  lemma {:induction false} AcceptedOpens(h: HashFn, hist: History, i: int, admins: Out)
    requires AcceptedFor(h, hist, i, admins)
    ensures Openable(h, admins, MAX_PROOF_SIZE, AccountHashes(h))
  {
    AcceptedIsAuthorised(h, hist, i);
    var c := hist[i].call;
    AcceptedImpliesOpenable(h, admins, MAX_PROOF_SIZE, AccountHashes(h), AccountHash(h, c.origin.who), c.proof);
  }

  // Exactly when some run revokes an anchor under `admins`, and likewise suspends a leaf.
  lemma {:induction false} RevocableIff(h: HashFn, admins: Out, item: Out)
    ensures (exists hist :: LookupAnchor(Run(h, hist), admins, item) == Some(Revoked))
       <==> Openable(h, admins, MAX_PROOF_SIZE, AccountHashes(h))
    ensures (exists hist :: LookupSuspension(Run(h, hist), admins, item).Some?)
       <==> Openable(h, admins, MAX_PROOF_SIZE, AccountHashes(h))
  {
    if Openable(h, admins, MAX_PROOF_SIZE, AccountHashes(h)) {
      var hist := OpenableByRun(h, admins, item, 0);
    }
    forall hist | LookupAnchor(Run(h, hist), admins, item) == Some(Revoked)
      ensures Openable(h, admins, MAX_PROOF_SIZE, AccountHashes(h))
    {
      var i := AnchorSetBy(h, hist, admins, item);
      AcceptedOpens(h, hist, i, admins);
    }
    forall hist | LookupSuspension(Run(h, hist), admins, item).Some?
      ensures Openable(h, admins, MAX_PROOF_SIZE, AccountHashes(h))
    {
      var i := SuspensionSetBy(h, hist, admins, item);
      AcceptedOpens(h, hist, i, admins);
    }
  }

  // A root that no 32-byte and no 64-byte string hashes to is never acted under.
  lemma {:induction false} IrrevocableWithoutPreimage(h: HashFn, hist: History, admins: Out, item: Out)
    requires forall x: Bytes | |x| == OUT_SIZE || |x| == 2 * OUT_SIZE :: h(x) != admins
    ensures LookupAnchor(Run(h, hist), admins, item) != Some(Revoked)
    ensures LookupSuspension(Run(h, hist), admins, item) == None
  {
    if LookupAnchor(Run(h, hist), admins, item) == Some(Revoked) {
      var i := AnchorSetBy(h, hist, admins, item);
      AcceptedIsAuthorised(h, hist, i);
      NothingOpens(h, admins, hist[i].call.proof, AccountHash(h, hist[i].call.origin.who));
    }
    if LookupSuspension(Run(h, hist), admins, item).Some? {
      var i := SuspensionSetBy(h, hist, admins, item);
      AcceptedIsAuthorised(h, hist, i);
      NothingOpens(h, admins, hist[i].call.proof, AccountHash(h, hist[i].call.origin.who));
    }
  }

  const ZEROS: Out := seq(OUT_SIZE, _ => 0)

  // That the all-zero root is irrevocable rests on the hash function alone: the pallet does not
  // treat it specially, and under a hash function that reaches it the anchor can be revoked.
  lemma {:induction false} ZeroRootIsNotSpecial(item: Out) returns (h: HashFn, hist: History)
    ensures LookupAnchor(Run(h, hist), ZEROS, item) == Some(Revoked)
  {
    h := _ => ZEROS;
    var who: AccountId := ZEROS;
    assert AccountHash(h, who) in AccountHashes(h);
    assert h(ZEROS) == ZEROS && ZEROS in AccountHashes(h);
    hist := OpenableByRun(h, ZEROS, item, 0);
  }
}
