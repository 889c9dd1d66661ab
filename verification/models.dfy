/**
 * The request and record models of the proposal backend: the JSON fields a
 * client sends, the field constraints the schema layer enforces, the defaults
 * applied at creation, and the accept/reject transition of a stored proposal.
 */
module Models {

  datatype Option<T> = None | Some(value: T)

  /** The literal that replaces an absent, null or empty custom message. */
  const DefaultMessage: string := "Will you be my Valentine?"
  /** The character used when the client sends none. */
  const DefaultCharacter: string := "panda"
  const MinNameLength: nat := 1
  const MaxNameLength: nat := 100
  const MaxMessageLength: nat := 500

  /**
   * One field of a JSON request body as the schema layer sees it: left out
   * of the body, sent as `null`, or sent with a value.
   */
  datatype JsonValue<T> = Absent | Null | Given(value: T)

  /** The request fields a validation error can name. */
  datatype FieldName = ValentineName | CustomMessage | CharacterChoice | Accepted | ClientName

  datatype Error =
    | ValidationError(fields: set<FieldName>)  // answered with status 422
    | NotFound                                 // answered with status 404

  datatype Result<T> = Ok(value: T) | Err(error: Error)

  /** An instant in UTC, identified by its ISO 8601 rendering. */
  datatype Instant = Instant(iso: string)

  /** `datetime.isoformat()`: the text stored in a document. */
  function IsoFormat(t: Instant): string
  {
    t.iso
  }

  /** `datetime.fromisoformat(...)`: the instant a stored text denotes. */
  function FromIsoFormat(s: string): Instant
  {
    Instant(s)
  }

  // ---------------------------------------------------------------------
  // Proposals
  // ---------------------------------------------------------------------

  /** The body of POST /proposals, before validation. */
  datatype ProposalRequest = ProposalRequest(
    valentineName: JsonValue<string>,
    customMessage: JsonValue<string>,
    characterChoice: JsonValue<string>)

  /** A validated ProposalCreate: field defaults applied, `null` message kept as None. */
  datatype ProposalCreate = ProposalCreate(
    valentineName: string,
    customMessage: Option<string>,
    characterChoice: string)

  /** A stored proposal document, which is also the ProposalResponse returned to clients. */
  datatype Proposal = Proposal(
    id: string,
    valentineName: string,
    customMessage: string,
    characterChoice: string,
    createdAt: string,
    accepted: Option<bool>,
    acceptedAt: Option<string>)

  /** `valentine_name`: required, a string of 1 to 100 characters. */
  predicate NameValid(v: JsonValue<string>)
  {
    v.Given? && MinNameLength <= |v.value| <= MaxNameLength
  }

  /** `custom_message`: optional and nullable; a given string has at most 500 characters. */
  predicate MessageValid(v: JsonValue<string>)
  {
    v.Given? ==> |v.value| <= MaxMessageLength
  }

  /** `character_choice`: a plain string with a default, so only `null` is refused. */
  predicate CharacterValid(v: JsonValue<string>)
  {
    !v.Null?
  }

  /** The fields of a proposal body that violate their constraint. */
  function InvalidFields(req: ProposalRequest): (bad: set<FieldName>)
    ensures bad <= {ValentineName, CustomMessage, CharacterChoice}
    ensures ValentineName in bad <==> !NameValid(req.valentineName)
    ensures CustomMessage in bad <==> !MessageValid(req.customMessage)
    ensures CharacterChoice in bad <==> !CharacterValid(req.characterChoice)
  {
    (if NameValid(req.valentineName) then {} else {ValentineName})
    + (if MessageValid(req.customMessage) then {} else {CustomMessage})
    + (if CharacterValid(req.characterChoice) then {} else {CharacterChoice})
  }

  /** The value the schema layer gives `custom_message`: its field default when absent. */
  function ParsedMessage(v: JsonValue<string>): Option<string>
  {
    match v
    case Absent => Some(DefaultMessage)
    case Null => None
    case Given(s) => Some(s)
  }

  /** The value the schema layer gives `character_choice`, which must not be `null`. */
  function ParsedCharacter(v: JsonValue<string>): string
    requires CharacterValid(v)
  {
    match v
    case Absent => DefaultCharacter
    case Given(s) => s
  }

  /**
   * Validation of a proposal body. It succeeds exactly when the name has 1 to
   * 100 characters, a given message has at most 500 and the character is not
   * `null`; otherwise it names every offending field.
   */
  function ValidateProposal(req: ProposalRequest): (r: Result<ProposalCreate>)
    ensures r.Ok? <==>
      && req.valentineName.Given? && 1 <= |req.valentineName.value| <= 100
      && (req.customMessage.Given? ==> |req.customMessage.value| <= 500)
      && !req.characterChoice.Null?
    ensures r.Err? ==>
      && r.error.ValidationError?
      && r.error.fields != {}
      && r.error.fields == InvalidFields(req)
    ensures r.Ok? ==>
      && r.value.valentineName == req.valentineName.value
      && (req.customMessage.Absent? ==> r.value.customMessage == Some(DefaultMessage))
      && (req.customMessage.Null? ==> r.value.customMessage == None)
      && (req.customMessage.Given? ==> r.value.customMessage == Some(req.customMessage.value))
      && (req.characterChoice.Absent? ==> r.value.characterChoice == "panda")
      && (req.characterChoice.Given? ==> r.value.characterChoice == req.characterChoice.value)
  {
    var bad := InvalidFields(req);
    if bad != {} then
      Err(ValidationError(bad))
    else
      Ok(ProposalCreate(
        req.valentineName.value,
        ParsedMessage(req.customMessage),
        ParsedCharacter(req.characterChoice)))
  }

  /** `input.custom_message or "Will you be my Valentine?"`: None and "" are falsy. */
  function StoredMessage(m: Option<string>): (s: string)
    ensures s != ""
    ensures s == DefaultMessage <==> m == None || m == Some("") || m == Some(DefaultMessage)
    ensures m.Some? && m.value != "" ==> s == m.value
  {
    if m.None? || m.value == "" then DefaultMessage else m.value
  }

  /** The record invariant every stored proposal keeps. */
  predicate WellFormed(p: Proposal)
  {
    && MinNameLength <= |p.valentineName| <= MaxNameLength
    && 1 <= |p.customMessage| <= MaxMessageLength
    && DecisionConsistent(p)
  }

  /** `accepted_at` is set exactly when `accepted` is true. */
  predicate DecisionConsistent(p: Proposal)
  {
    p.acceptedAt.Some? <==> p.accepted == Some(true)
  }

  /** The fields that never change after creation agree. */
  predicate SameIdentity(p: Proposal, q: Proposal)
  {
    && p.id == q.id
    && p.valentineName == q.valentineName
    && p.customMessage == q.customMessage
    && p.characterChoice == q.characterChoice
    && p.createdAt == q.createdAt
  }

  /** The document create_proposal inserts for a validated body. */
  function NewProposal(input: ProposalCreate, id: string, now: Instant): (p: Proposal)
    requires MinNameLength <= |input.valentineName| <= MaxNameLength
    requires input.customMessage.Some? ==> |input.customMessage.value| <= MaxMessageLength
    ensures WellFormed(p)
    ensures p.id == id && p.createdAt == IsoFormat(now)
    ensures p.accepted == None && p.acceptedAt == None
    ensures p.valentineName == input.valentineName
    ensures p.characterChoice == input.characterChoice
    ensures p.customMessage == StoredMessage(input.customMessage)
  {
    Proposal(
      id,
      input.valentineName,
      StoredMessage(input.customMessage),
      input.characterChoice,
      IsoFormat(now),
      None,
      None)
  }

  /** The `accepted_at` value an update writes: the current time only on acceptance. */
  function AcceptedAt(accepted: bool, now: Instant): (t: Option<string>)
    ensures t.Some? <==> accepted
    ensures t.Some? ==> t.value == IsoFormat(now)
  {
    if accepted then Some(IsoFormat(now)) else None
  }

  /** The accept/reject transition: only `accepted` and `accepted_at` change. */
  function Decide(p: Proposal, accepted: bool, now: Instant): (q: Proposal)
    ensures SameIdentity(p, q)
    ensures q.accepted == Some(accepted)
    ensures DecisionConsistent(q)
    ensures WellFormed(p) ==> WellFormed(q)
    ensures q.acceptedAt.Some? ==> q.acceptedAt.value == IsoFormat(now)
  {
    p.(accepted := Some(accepted), acceptedAt := AcceptedAt(accepted, now))
  }

  /** A later decision overwrites an earlier one: nothing of the first survives. */
  lemma DecideLastWriteWins(p: Proposal, first: bool, second: bool, t1: Instant, t2: Instant)
    ensures Decide(Decide(p, first, t1), second, t2) == Decide(p, second, t2)
  {
  }

  /** Deciding the same way twice at the same time is deciding once. */
  lemma DecideIdempotent(p: Proposal, accepted: bool, now: Instant)
    ensures Decide(Decide(p, accepted, now), accepted, now) == Decide(p, accepted, now)
  {
  }

  /**
   * End to end from body to stored record: the stored message is the one sent
   * when it is a non-empty string, and the default literal when it is left out,
   * `null` or empty; the character is the one sent, or "panda".
   */
  lemma CreateAppliesDefaults(req: ProposalRequest, id: string, now: Instant)
    requires ValidateProposal(req).Ok?
    ensures
      var p := NewProposal(ValidateProposal(req).value, id, now);
      && p.valentineName == req.valentineName.value
      && (if req.customMessage.Given? && req.customMessage.value != ""
          then p.customMessage == req.customMessage.value
          else p.customMessage == DefaultMessage)
      && (if req.characterChoice.Given?
          then p.characterChoice == req.characterChoice.value
          else p.characterChoice == DefaultCharacter)
  {
  }

  // ---------------------------------------------------------------------
  // Status checks
  // ---------------------------------------------------------------------

  /** A status check as returned to clients. */
  datatype StatusCheck = StatusCheck(id: string, clientName: string, timestamp: Instant)

  /** A timestamp in a stored document: ISO text as inserted, or already a datetime. */
  datatype StoredTime = TimestampText(text: string) | TimestampValue(at: Instant)

  /** A status-check document as the store holds it. */
  datatype StatusDocument = StatusDocument(id: string, clientName: string, timestamp: StoredTime)

  /** The document create_status_check inserts: the timestamp rendered as text. */
  function StoredForm(sc: StatusCheck): (d: StatusDocument)
    ensures d.id == sc.id && d.clientName == sc.clientName
    ensures d.timestamp == TimestampText(IsoFormat(sc.timestamp))
  {
    StatusDocument(sc.id, sc.clientName, TimestampText(IsoFormat(sc.timestamp)))
  }

  /** The rewrite get_status_checks applies to each fetched document. */
  function Normalise(d: StatusDocument): (e: StatusDocument)
    ensures e.id == d.id && e.clientName == d.clientName
    ensures e.timestamp.TimestampValue?
    ensures d.timestamp.TimestampValue? ==> e == d
  {
    match d.timestamp
    case TimestampText(s) => d.(timestamp := TimestampValue(FromIsoFormat(s)))
    case TimestampValue(_) => d
  }

  /** Reading back a stored status check yields the record create returned. */
  lemma NormaliseStoredForm(sc: StatusCheck)
    ensures Normalise(StoredForm(sc)) == StatusDocument(sc.id, sc.clientName, TimestampValue(sc.timestamp))
  {
  }
}
