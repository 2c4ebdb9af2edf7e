/** The pallet as an object: two storage maps, the current block, and the calls submitted so far.

    Every method leaves the object's storage equal to the run of its history, so each statement
    about runs is a statement about every reachable object.
 */
module Pallet {
  import opened Digests
  import opened Merkle
  import opened MerkleTrees
  import opened Anchors
  import opened Runs

  class Module {
    const treeHash: HashFn
    var blockNumber: BlockNumber
    var anchors: map<(Out, Out), Revokable>
    var suspendedLeaves: map<(Out, Out), U64>
    ghost var history: History

    ghost function Contents(): Storage
      reads this
    {
      Storage(anchors, suspendedLeaves)
    }

    ghost predicate Valid()
      reads this
    {
      && Contents() == Run(treeHash, history)
      && Chronological(history)
      && forall e | e in history :: e.block <= blockNumber
    }

    constructor (h: HashFn, genesis: BlockNumber)
      ensures Valid() && Contents() == EMPTY && history == []
      ensures treeHash == h && blockNumber == genesis
    {
      treeHash := h;
      blockNumber := genesis;
      anchors := map[];
      suspendedLeaves := map[];
      history := [];
    }

    method NextBlock()
      requires Valid()
      modifies this
      ensures Valid() && Contents() == old(Contents()) && history == old(history)
      ensures blockNumber == old(blockNumber) + 1
    {
      blockNumber := blockNumber + 1;
    }

    // What every call keeps, and how its result reads in the history.
    lemma CallKeepsValid(before: Storage, past: History, call: Call, r: DispatchResult)
      requires before == Run(treeHash, past) && Chronological(past)
      requires forall e | e in past :: e.block <= blockNumber
      requires history == past + [Event(blockNumber, call)]
      requires r == Outcome(treeHash, before, call) && Contents() == After(treeHash, blockNumber, before, call)
      ensures Valid() && (r.Ok? <==> Contents() != before) && r == ResultAt(treeHash, history, |past|)
    {
      RunStep(treeHash, EMPTY, past, Event(blockNumber, call));
      CallsClimb(treeHash, blockNumber, before, call);
      assert history[..|past|] == past;
    }

    method CreateAnchor(origin: Origin, admins: Out, root: Out) returns (r: DispatchResult)
      requires Valid()
      modifies this
      ensures Valid() && blockNumber == old(blockNumber)
      ensures history == old(history) + [Event(blockNumber, Call.CreateAnchor(origin, admins, root))]
      ensures r == Outcome(treeHash, old(Contents()), Call.CreateAnchor(origin, admins, root))
      ensures Contents()
           == After(treeHash, blockNumber, old(Contents()), Call.CreateAnchor(origin, admins, root))
      ensures r == ResultAt(treeHash, history, |old(history)|)
      ensures r.Ok? <==> Contents() != old(Contents())
    {
      ghost var call := Call.CreateAnchor(origin, admins, root);
      history := history + [Event(blockNumber, call)];
      r := Ok;
      if !origin.Signed? {
        r := Err(BadOrigin);
      } else {
        var key := (admins, root);
        if key in anchors {
          r := Err(AlreadyAnchored);
        } else {
          anchors := anchors[key := NotRevoked(blockNumber)];
        }
      }
      CallKeepsValid(old(Contents()), old(history), call, r);
    }

    method RevokeAnchor(origin: Origin, admins: Out, root: Out, proof: Proof) returns (r: DispatchResult)
      requires Valid()
      modifies this
      ensures Valid() && blockNumber == old(blockNumber)
      ensures history == old(history) + [Event(blockNumber, Call.RevokeAnchor(origin, admins, root, proof))]
      ensures r == Outcome(treeHash, old(Contents()), Call.RevokeAnchor(origin, admins, root, proof))
      ensures Contents()
           == After(treeHash, blockNumber, old(Contents()), Call.RevokeAnchor(origin, admins, root, proof))
      ensures r == ResultAt(treeHash, history, |old(history)|)
      ensures r.Ok? <==> Contents() != old(Contents())
    {
      ghost var call := Call.RevokeAnchor(origin, admins, root, proof);
      history := history + [Event(blockNumber, call)];
      r := Ok;
      if !origin.Signed? {
        r := Err(BadOrigin);
      } else if |proof| > MAX_PROOF_SIZE {
        r := Err(ProofTooLong);
      } else {
        var key := (admins, root);
        if key in anchors && anchors[key] == Revoked {
          r := Err(AlreadyRevoked);
        } else {
          var leaf := HashAccountId(treeHash, origin.who);
          var valid := VerifyProof(treeHash, admins, proof, leaf);
          if !valid {
            r := Err(InvalidProof);
          } else {
            anchors := anchors[key := Revoked];
          }
        }
      }
      CallKeepsValid(old(Contents()), old(history), call, r);
    }

    method SuspendLeaf(origin: Origin, admins: Out, leaf: Out, proof: Proof, end: U64) returns (r: DispatchResult)
      requires Valid()
      modifies this
      ensures Valid() && blockNumber == old(blockNumber)
      ensures history == old(history) + [Event(blockNumber, Call.SuspendLeaf(origin, admins, leaf, proof, end))]
      ensures r == Outcome(treeHash, old(Contents()), Call.SuspendLeaf(origin, admins, leaf, proof, end))
      ensures Contents()
           == After(treeHash, blockNumber, old(Contents()), Call.SuspendLeaf(origin, admins, leaf, proof, end))
      ensures r == ResultAt(treeHash, history, |old(history)|)
      ensures r.Ok? <==> Contents() != old(Contents())
    {
      ghost var call := Call.SuspendLeaf(origin, admins, leaf, proof, end);
      history := history + [Event(blockNumber, call)];
      r := Ok;
      if !origin.Signed? {
        r := Err(BadOrigin);
      } else if |proof| > MAX_PROOF_SIZE {
        r := Err(ProofTooLong);
      } else {
        var key := (admins, leaf);
        if key in suspendedLeaves && !(end > suspendedLeaves[key]) {
          r := Err(AlreadySuspended);
        } else {
          var account := HashAccountId(treeHash, origin.who);
          var valid := VerifyProof(treeHash, admins, proof, account);
          if !valid {
            r := Err(InvalidProof);
          } else {
            suspendedLeaves := suspendedLeaves[key := end];
          }
        }
      }
      CallKeepsValid(old(Contents()), old(history), call, r);
    }

    // The stored state of an anchor, read against the calls submitted.
    function LookupAnchor(auths: Out, root: Out): (r: Option<Revokable>)
      requires Valid()
      reads this
      ensures AnchorReading(treeHash, history, AnchorCell(auths, root), r)
      ensures r.Some? && r.value.NotRevoked? ==> r.value.block <= blockNumber
    {
      AnchorReads(treeHash, history, auths, root);
      BlockBound(auths, root);
      if (auths, root) in anchors then Some(anchors[(auths, root)]) else None
    }

    lemma {:induction false} BlockBound(auths: Out, root: Out)
      requires Valid()
      ensures (auths, root) in anchors && anchors[(auths, root)].NotRevoked? ==>
                anchors[(auths, root)].block <= blockNumber
    {
      if (auths, root) in anchors && anchors[(auths, root)].NotRevoked? {
        assert Anchors.LookupAnchor(Contents(), auths, root) == Some(anchors[(auths, root)]);
        BlocksArePast(treeHash, history, auths, root, blockNumber);
      }
    }

    // Some authorised suspension submitted so far reaches `now`.
    function LeafSuspendedBy(auths: Out, leaf: Out, now: U64): (r: bool)
      requires Valid()
      reads this
      ensures r <==> exists i :: SuspendsAt(treeHash, history, i, LeafCell(auths, leaf)) && now <= history[i].call.end
    {
      SuspendedIff(treeHash, history, auths, leaf, now);
      if (auths, leaf) in suspendedLeaves then now <= suspendedLeaves[(auths, leaf)] else false
    }
  }
}
