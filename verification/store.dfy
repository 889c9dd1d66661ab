/**
 * What each request handler does to the two collections, as functions of the
 * collections before the request. The document store is a value: the
 * `proposals` collection is keyed by the proposal id, and the `status_checks`
 * collection is the sequence of inserted documents in insertion order.
 */
module Store {
  import opened Models

  /** The most documents one `to_list` call returns. */
  const ListLimit: nat := 1000

  datatype Db = Db(proposals: map<string, Proposal>, statusChecks: seq<StatusDocument>)

  /** The state of a handler call: the collections afterwards and the response. */
  datatype Outcome<T> = Outcome(db: Db, response: Result<T>)

  const EmptyDb: Db := Db(map[], [])

  function Min(a: nat, b: nat): nat
  {
    if a <= b then a else b
  }

  /** Each proposal is stored under its own id and keeps the record invariant. */
  predicate Valid(db: Db)
  {
    forall k :: k in db.proposals ==> db.proposals[k].id == k && WellFormed(db.proposals[k])
  }

  /**
   * POST /proposals. A body that fails validation is refused with the
   * offending fields and nothing is stored; otherwise exactly one new,
   * undecided record is stored under the fresh id and returned.
   */
  function CreateProposal(db: Db, req: ProposalRequest, id: string, now: Instant): (out: Outcome<Proposal>)
    requires id !in db.proposals
    ensures out.response.Ok? <==> InvalidFields(req) == {}
    ensures out.response.Err? ==>
      && out.db == db
      && out.response.error == ValidationError(InvalidFields(req))
    ensures out.response.Ok? ==>
      var p := out.response.value;
      && out.db == db.(proposals := db.proposals[id := p])
      && p.id == id
      && p.valentineName == req.valentineName.value
      && p.createdAt == IsoFormat(now)
      && p.accepted == None && p.acceptedAt == None
      && (if req.customMessage.Given? && req.customMessage.value != ""
          then p.customMessage == req.customMessage.value
          else p.customMessage == DefaultMessage)
      && (if req.characterChoice.Given?
          then p.characterChoice == req.characterChoice.value
          else p.characterChoice == DefaultCharacter)
      && WellFormed(p)
    ensures Valid(db) ==> Valid(out.db)
  {
    match ValidateProposal(req)
    case Err(e) => Outcome(db, Err(e))
    case Ok(input) =>
      var p := NewProposal(input, id, now);
      Outcome(db.(proposals := db.proposals[id := p]), Ok(p))
  }

  /** GET /proposals/{id}: the stored record, or NotFound. */
  function GetProposal(db: Db, id: string): (r: Result<Proposal>)
    ensures r.Ok? <==> id in db.proposals
    ensures r.Ok? ==> r.value == db.proposals[id]
    ensures r.Err? ==> r.error == NotFound
  {
    if id in db.proposals then Ok(db.proposals[id]) else Err(NotFound)
  }

  /**
   * PATCH /proposals/{id}. The body is validated first (a missing or null
   * `accepted` is refused even for an unknown id); an unknown id is NotFound;
   * both leave the store alone. Otherwise the record is decided and the
   * stored and the returned record are the same.
   */
  function UpdateProposal(db: Db, id: string, update: JsonValue<bool>, now: Instant): (out: Outcome<Proposal>)
    ensures out.response.Err? ==> out.db == db
    ensures !update.Given? ==> out.response == Err(ValidationError({Accepted}))
    ensures update.Given? && id !in db.proposals ==> out.response == Err(NotFound)
    ensures out.response.Ok? <==> update.Given? && id in db.proposals
    ensures out.response.Ok? ==>
      var q := out.response.value;
      && out.db == db.(proposals := db.proposals[id := q])
      && SameIdentity(db.proposals[id], q)
      && q.accepted == Some(update.value)
      && q.acceptedAt == (if update.value then Some(IsoFormat(now)) else None)
    ensures Valid(db) ==> Valid(out.db)
  {
    if !update.Given? then
      Outcome(db, Err(ValidationError({Accepted})))
    else if id !in db.proposals then
      Outcome(db, Err(NotFound))
    else
      var q := Decide(db.proposals[id], update.value, now);
      Outcome(db.(proposals := db.proposals[id := q]), Ok(q))
  }

  /**
   * What GET /proposals may answer: at most 1000 records, as many as the
   * store holds up to that cap, each a stored record, none twice. The order
   * is the store's and is left open.
   */
  predicate IsProposalListing(db: Db, r: seq<Proposal>)
  {
    && |r| == Min(|db.proposals|, ListLimit)
    && (forall i :: 0 <= i < |r| ==> r[i].id in db.proposals && db.proposals[r[i].id] == r[i])
    && (forall i, j :: 0 <= i < j < |r| ==> r[i].id != r[j].id)
  }

  /** POST /status: a missing or null client name is refused; otherwise one document is appended. */
  function CreateStatusCheck(db: Db, clientName: JsonValue<string>, id: string, now: Instant): (out: Outcome<StatusCheck>)
    ensures out.response.Ok? <==> clientName.Given?
    ensures out.response.Err? ==>
      && out.db == db
      && out.response.error == ValidationError({ClientName})
    ensures out.response.Ok? ==>
      var sc := out.response.value;
      && sc == StatusCheck(id, clientName.value, now)
      && out.db == db.(statusChecks := db.statusChecks + [StoredForm(sc)])
    ensures out.db.proposals == db.proposals
  {
    match clientName
    case Given(name) =>
      var sc := StatusCheck(id, name, now);
      Outcome(db.(statusChecks := db.statusChecks + [StoredForm(sc)]), Ok(sc))
    case _ => Outcome(db, Err(ValidationError({ClientName})))
  }

  /** Every document of `docs`, normalised, in the same order. */
  function NormaliseAll(docs: seq<StatusDocument>): (r: seq<StatusDocument>)
    ensures |r| == |docs|
    ensures forall i :: 0 <= i < |r| ==> r[i] == Normalise(docs[i])
  {
    if docs == [] then [] else [Normalise(docs[0])] + NormaliseAll(docs[1..])
  }

  /** GET /status: the first 1000 documents, each timestamp turned back into an instant. */
  function ListStatusChecks(db: Db): (r: seq<StatusDocument>)
    ensures |r| == Min(|db.statusChecks|, ListLimit)
    ensures forall i :: 0 <= i < |r| ==>
      && r[i].id == db.statusChecks[i].id
      && r[i].clientName == db.statusChecks[i].clientName
      && r[i].timestamp.TimestampValue?
    ensures forall i :: 0 <= i < |r| ==> r[i] == Normalise(db.statusChecks[i])
  {
    NormaliseAll(db.statusChecks[..Min(|db.statusChecks|, ListLimit)])
  }

  /** A created proposal is what a following GET returns. */
  lemma GetAfterCreate(db: Db, req: ProposalRequest, id: string, now: Instant)
    requires id !in db.proposals
    ensures
      var out := CreateProposal(db, req, id, now);
      out.response.Ok? ==> GetProposal(out.db, id) == out.response
    ensures
      var out := CreateProposal(db, req, id, now);
      out.response.Err? ==> GetProposal(out.db, id) == Err(NotFound)
  {
  }

  /** An updated proposal is what a following GET returns; other records are not touched. */
  lemma GetAfterUpdate(db: Db, id: string, update: JsonValue<bool>, now: Instant, other: string)
    requires other != id
    ensures
      var out := UpdateProposal(db, id, update, now);
      && (out.response.Ok? ==> GetProposal(out.db, id) == out.response)
      && GetProposal(out.db, other) == GetProposal(db, other)
  {
  }

  /** A created status check reads back, at its position, as the record create returned. */
  lemma ListStatusAfterCreate(db: Db, clientName: string, id: string, now: Instant)
    requires |db.statusChecks| < ListLimit
    ensures
      var out := CreateStatusCheck(db, Given(clientName), id, now);
      var listed := ListStatusChecks(out.db);
      && |listed| == |db.statusChecks| + 1
      && listed[|db.statusChecks|] == StatusDocument(id, clientName, TimestampValue(now))
      && listed[..|db.statusChecks|] == ListStatusChecks(db)
  {
  }

  /** Distinct ids in a listing mean as many ids as records. */
  lemma {:induction false} DistinctIdsCount(r: seq<Proposal>)
    requires forall i, j :: 0 <= i < j < |r| ==> r[i].id != r[j].id
    ensures |set i | 0 <= i < |r| :: r[i].id| == |r|
  {
    if r != [] {
      var rest := r[1..];
      DistinctIdsCount(rest);
      var ids := set i | 0 <= i < |r| :: r[i].id;
      var restIds := set i | 0 <= i < |rest| :: rest[i].id;
      assert ids == restIds + {r[0].id} by {
        forall x | x in ids ensures x in restIds + {r[0].id} {
          var i :| 0 <= i < |r| && r[i].id == x;
          if i > 0 { assert rest[i - 1].id == x; }
        }
      }
      assert r[0].id !in restIds;
    }
  }

  /**
   * While the store holds at most 1000 proposals, a listing returns every one
   * of them.
   */
  lemma ListingIsComplete(db: Db, r: seq<Proposal>)
    requires Valid(db)
    requires |db.proposals| <= ListLimit
    requires IsProposalListing(db, r)
    ensures forall k :: k in db.proposals ==> db.proposals[k] in r
  {
    var ids := set i | 0 <= i < |r| :: r[i].id;
    DistinctIdsCount(r);
    assert ids <= db.proposals.Keys;
    assert |ids| == |db.proposals.Keys|;
    SubsetOfSameSize(ids, db.proposals.Keys);
    forall k | k in db.proposals ensures db.proposals[k] in r {
      assert k in ids;
      var i :| 0 <= i < |r| && r[i].id == k;
    }
  }

  lemma {:induction false} SubsetOfSameSize<T>(a: set<T>, b: set<T>)
    requires a <= b && |a| == |b|
    ensures a == b
  {
    if a != b {
      assert b - a != {} by {
        if b - a == {} {
          forall x | x in b ensures x in a { assert x !in b - a; }
        }
      }
      var x :| x in b - a;
      assert a <= b - {x};
      SubsetSize(a, b - {x});
    }
  }

  lemma {:induction false} SubsetSize<T>(a: set<T>, b: set<T>)
    requires a <= b
    ensures |a| <= |b|
  {
    if a != {} {
      var x :| x in a;
      SubsetSize(a - {x}, b - {x});
    }
  }
}
