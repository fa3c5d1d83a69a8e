/**
 * The election messages and states shared by the registry and its simulation
 * (src/registry/election.rs).  Candidate, leader and requester names only reach log
 * lines and are left out; the registry's name is kept because it is stored.
 */
module ElectionMessages {
  import opened Identity

  const U64_MAX: nat := 0xFFFF_FFFF_FFFF_FFFF

  datatype Status = Follower | Candidate | Leader

  datatype Message =
    | Request(candidate: NodeId, term: nat)
    | Vote(voter: NodeId, candidate: NodeId, term: nat, granted: bool)
    | Result(leader: NodeId, term: nat)
    | Change(registry: NodeId, name: string, addr: string, term: nat)
    | Sync(requester: NodeId, term: nat)
    /** A leader's answer to Sync, sent under Sync's own type byte. */
    | Data(leader: NodeId, term: nat)
}
