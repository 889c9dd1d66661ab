/**
 * The request handlers over the two collections they update in place. Each
 * method does what its handler does step by step (validate, look up, insert
 * or set fields) and is proved to agree with the function of the same name
 * in Store, whose properties are proved there and in Traces.
 */
module Server {
  import opened Models
  import opened Store

  class Backend {
    /** The `proposals` collection, keyed by the document's `id`. */
    var proposals: map<string, Proposal>
    /** The `status_checks` collection in insertion order. */
    var statusChecks: seq<StatusDocument>

    function State(): Db
      reads this
    {
      Db(proposals, statusChecks)
    }

    ghost predicate Valid()
      reads this
    {
      Store.Valid(State())
    }

    constructor ()
      ensures Valid()
      ensures State() == EmptyDb
    {
      proposals := map[];
      statusChecks := [];
    }

    /** POST /proposals, with the fresh uuid and the current time supplied by the caller. */
    method CreateProposal(req: ProposalRequest, id: string, now: Instant) returns (r: Result<Proposal>)
      requires Valid()
      requires id !in proposals
      modifies this
      ensures Valid()
      ensures Outcome(State(), r) == Store.CreateProposal(old(State()), req, id, now)
    {
      var validated := ValidateProposal(req);
      if validated.Err? {
        return Err(validated.error);
      }
      var doc := NewProposal(validated.value, id, now);
      proposals := proposals[id := doc];
      r := Ok(doc);
    }

    /** GET /proposals/{id}. */
    method GetProposal(id: string) returns (r: Result<Proposal>)
      ensures r == Store.GetProposal(State(), id)
    {
      if id !in proposals {
        return Err(NotFound);
      }
      r := Ok(proposals[id]);
    }

    /** PATCH /proposals/{id}: read the record, set the two decision fields, return it. */
    method UpdateProposal(id: string, update: JsonValue<bool>, now: Instant) returns (r: Result<Proposal>)
      requires Valid()
      modifies this
      ensures Valid()
      ensures Outcome(State(), r) == Store.UpdateProposal(old(State()), id, update, now)
    {
      if !update.Given? {
        return Err(ValidationError({Accepted}));
      }
      if id !in proposals {
        return Err(NotFound);
      }
      var proposal := proposals[id];
      var acceptedAt := AcceptedAt(update.value, now);
      proposals := proposals[id := proposal.(accepted := Some(update.value), acceptedAt := acceptedAt)];
      proposal := proposal.(accepted := Some(update.value));
      proposal := proposal.(acceptedAt := acceptedAt);
      r := Ok(proposal);
    }

    /** GET /proposals: up to 1000 stored records, drawn from the collection in its own order. */
    method ListProposals() returns (r: seq<Proposal>)
      requires Valid()
      ensures IsProposalListing(State(), r)
    {
      r := [];
      var remaining := proposals.Keys;
      ghost var listed: set<string> := {};
      while remaining != {} && |r| < ListLimit
        invariant remaining <= proposals.Keys
        invariant listed !! remaining && listed + remaining == proposals.Keys
        invariant |r| == |listed| <= ListLimit
        invariant forall i :: 0 <= i < |r| ==> r[i].id in listed && proposals[r[i].id] == r[i]
        invariant forall i, j :: 0 <= i < j < |r| ==> r[i].id != r[j].id
        decreases remaining
      {
        var key :| key in remaining;
        r := r + [proposals[key]];
        remaining := remaining - {key};
        listed := listed + {key};
      }
      assert |proposals| == |listed| + |remaining|;
    }

    /** POST /status, with the fresh uuid and the current time supplied by the caller. */
    method CreateStatusCheck(clientName: JsonValue<string>, id: string, now: Instant) returns (r: Result<StatusCheck>)
      modifies this
      ensures Outcome(State(), r) == Store.CreateStatusCheck(old(State()), clientName, id, now)
    {
      if !clientName.Given? {
        return Err(ValidationError({ClientName}));
      }
      var check := StatusCheck(id, clientName.value, now);
      statusChecks := statusChecks + [StoredForm(check)];
      r := Ok(check);
    }

    /**
     * GET /status: fetch up to 1000 documents, then rewrite, in place, every
     * timestamp still held as text into an instant.
     */
    method GetStatusChecks() returns (r: seq<StatusDocument>)
      ensures r == Store.ListStatusChecks(State())
    {
      var fetched := statusChecks[..Min(|statusChecks|, ListLimit)];
      var checks := new StatusDocument[|fetched|](i requires 0 <= i < |fetched| => fetched[i]);
      for i := 0 to checks.Length
        invariant forall j :: 0 <= j < i ==> checks[j] == Normalise(fetched[j])
        invariant forall j :: i <= j < checks.Length ==> checks[j] == fetched[j]
      {
        if checks[i].timestamp.TimestampText? {
          checks[i] := checks[i].(timestamp := TimestampValue(FromIsoFormat(checks[i].timestamp.text)));
        }
      }
      r := checks[..];
      assert r == NormaliseAll(fetched);
    }
  }
}
