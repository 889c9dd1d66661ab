/**
 * Sequences of requests handled one after another, and what holds of the
 * store after any such sequence.
 */
module Traces {
  import opened Models
  import opened Store

  /** One HTTP request with the id and clock reading the server would draw for it. */
  datatype Request =
    | PostProposal(body: ProposalRequest, id: string, now: Instant)
    | GetProposalById(id: string)
    | PatchProposal(id: string, update: JsonValue<bool>, now: Instant)
    | ListAllProposals
    | PostStatus(clientName: JsonValue<string>, id: string, now: Instant)
    | ListStatus

  /** A fresh proposal id is never already a key (a uuid4 collision is not modelled). */
  predicate Admissible(db: Db, r: Request)
  {
    r.PostProposal? ==> r.id !in db.proposals
  }

  /** The store after one request; reads leave it as it was. */
  function Step(db: Db, r: Request): Db
    requires Admissible(db, r)
  {
    match r
    case PostProposal(body, id, now) => CreateProposal(db, body, id, now).db
    case GetProposalById(_) => db
    case PatchProposal(id, update, now) => UpdateProposal(db, id, update, now).db
    case ListAllProposals => db
    case PostStatus(name, id, now) => CreateStatusCheck(db, name, id, now).db
    case ListStatus => db
  }

  /** Every request of the sequence is admissible in the store it meets. */
  predicate Runnable(db: Db, rs: seq<Request>)
    decreases |rs|
  {
    rs == [] || (Admissible(db, rs[0]) && Runnable(Step(db, rs[0]), rs[1..]))
  }

  function Run(db: Db, rs: seq<Request>): Db
    requires Runnable(db, rs)
    decreases |rs|
  {
    if rs == [] then db else Run(Step(db, rs[0]), rs[1..])
  }

  /** The number of proposal creations in `rs` whose body passes validation. */
  function AcceptedCreates(rs: seq<Request>): nat
  {
    if rs == [] then 0
    else
      var counted := if rs[0].PostProposal? && InvalidFields(rs[0].body) == {} then 1 else 0;
      counted + AcceptedCreates(rs[1..])
  }

  lemma StepKeepsValid(db: Db, r: Request)
    requires Valid(db) && Admissible(db, r)
    ensures Valid(Step(db, r))
  {
  }

  /** Under any sequence of requests every record keeps its id as key and its invariant. */
  lemma {:induction false} RunKeepsValid(db: Db, rs: seq<Request>)
    requires Valid(db) && Runnable(db, rs)
    ensures Valid(Run(db, rs))
    decreases |rs|
  {
    if rs != [] {
      StepKeepsValid(db, rs[0]);
      RunKeepsValid(Step(db, rs[0]), rs[1..]);
    }
  }

  /**
   * No request deletes a proposal or changes its id, name, message,
   * character or creation time.
   */
  lemma {:induction false} RunKeepsRecords(db: Db, rs: seq<Request>)
    requires Runnable(db, rs)
    ensures forall k :: k in db.proposals ==>
      k in Run(db, rs).proposals && SameIdentity(db.proposals[k], Run(db, rs).proposals[k])
    decreases |rs|
  {
    if rs != [] {
      var next := Step(db, rs[0]);
      assert forall k :: k in db.proposals ==> k in next.proposals && SameIdentity(db.proposals[k], next.proposals[k]);
      RunKeepsRecords(next, rs[1..]);
    }
  }

  /** The status-check collection only grows at its end. */
  lemma {:induction false} RunAppendsStatusChecks(db: Db, rs: seq<Request>)
    requires Runnable(db, rs)
    ensures db.statusChecks <= Run(db, rs).statusChecks
    decreases |rs|
  {
    if rs != [] {
      RunAppendsStatusChecks(Step(db, rs[0]), rs[1..]);
    }
  }

  /** Each creation that passes validation adds exactly one record; nothing else adds or removes one. */
  lemma {:induction false} RunCountsProposals(db: Db, rs: seq<Request>)
    requires Runnable(db, rs)
    ensures |Run(db, rs).proposals| == |db.proposals| + AcceptedCreates(rs)
    decreases |rs|
  {
    if rs != [] {
      var next := Step(db, rs[0]);
      match rs[0] {
      case PostProposal(body, id, now) =>
        if InvalidFields(body) == {} {
          assert next.proposals.Keys == db.proposals.Keys + {id};
        }
      case PatchProposal(id, update, now) =>
        if update.Given? && id in db.proposals {
          assert next.proposals.Keys == db.proposals.Keys;
        }
      case _ =>
      }
      RunCountsProposals(next, rs[1..]);
    }
  }

  /**
   * Starting from empty collections, after at most 1000 successful creations a
   * listing returns exactly one record per successful creation, and every
   * stored record among them.
   */
  lemma ListingAfterCreates(rs: seq<Request>, listing: seq<Proposal>)
    requires Runnable(EmptyDb, rs)
    requires AcceptedCreates(rs) <= ListLimit
    requires IsProposalListing(Run(EmptyDb, rs), listing)
    ensures |listing| == AcceptedCreates(rs)
    ensures forall k :: k in Run(EmptyDb, rs).proposals ==> Run(EmptyDb, rs).proposals[k] in listing
  {
    RunCountsProposals(EmptyDb, rs);
    RunKeepsValid(EmptyDb, rs);
    ListingIsComplete(Run(EmptyDb, rs), listing);
  }

  /** A later decision on a proposal overwrites an earlier one. */
  lemma {:induction false} UpdateLastWriteWins(db: Db, id: string, first: bool, second: bool, t1: Instant, t2: Instant)
    ensures Runnable(db, [PatchProposal(id, Given(first), t1), PatchProposal(id, Given(second), t2)])
    ensures Run(db, [PatchProposal(id, Given(first), t1), PatchProposal(id, Given(second), t2)])
      == Run(db, [PatchProposal(id, Given(second), t2)])
  {
    var both := [PatchProposal(id, Given(first), t1), PatchProposal(id, Given(second), t2)];
    var last := [PatchProposal(id, Given(second), t2)];
    var mid := Step(db, both[0]);
    assert both[1..] == last;
    assert Run(db, both) == Run(mid, last);
    assert last[1..] == [];
    assert Run(mid, last) == Step(mid, last[0]);
    assert Run(db, last) == Step(db, last[0]);
    if id in db.proposals {
      DecideLastWriteWins(db.proposals[id], first, second, t1, t2);
      assert mid.proposals[id := Decide(mid.proposals[id], second, t2)]
        == db.proposals[id := Decide(db.proposals[id], second, t2)];
    }
  }

  /** Sending the same decision twice with the same clock reading is sending it once. */
  lemma {:induction false} UpdateIdempotent(db: Db, id: string, accepted: bool, now: Instant)
    ensures Runnable(db, [PatchProposal(id, Given(accepted), now), PatchProposal(id, Given(accepted), now)])
    ensures Run(db, [PatchProposal(id, Given(accepted), now), PatchProposal(id, Given(accepted), now)])
      == Run(db, [PatchProposal(id, Given(accepted), now)])
  {
    UpdateLastWriteWins(db, id, accepted, accepted, now, now);
  }

  /**
   * The session the backend's smoke test drives: create a proposal for
   * "Alice", accept it, then reject it.
   */
  lemma AliceScenario(id: string, t0: Instant, t1: Instant, t2: Instant)
    ensures
      var body := ProposalRequest(Given("Alice"), Given("Will you be my Valentine?"), Given("panda"));
      var created := CreateProposal(EmptyDb, body, id, t0);
      var accepted := UpdateProposal(created.db, id, Given(true), t1);
      var rejected := UpdateProposal(accepted.db, id, Given(false), t2);
      && created.response == Ok(Proposal(id, "Alice", "Will you be my Valentine?", "panda", t0.iso, None, None))
      && accepted.response == Ok(Proposal(id, "Alice", "Will you be my Valentine?", "panda", t0.iso, Some(true), Some(t1.iso)))
      && rejected.response == Ok(Proposal(id, "Alice", "Will you be my Valentine?", "panda", t0.iso, Some(false), None))
      && GetProposal(rejected.db, id) == rejected.response
  {
  }

  /** The smoke test's invalid body: an empty name is refused and nothing is stored. */
  lemma EmptyNameRefused(db: Db, id: string, now: Instant)
    requires id !in db.proposals
    ensures
      var out := CreateProposal(db, ProposalRequest(Given(""), Given("Test message"), Absent), id, now);
      out.response == Err(ValidationError({ValentineName})) && out.db == db
  {
  }
}
