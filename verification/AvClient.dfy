/** The voting client against an arbitrary bulletin board: a step function over the client's
    fields, a class whose methods refine it, and what holds after every run of calls. */
module AvClient {
  import opened BoardItems
  import opened Outcomes

  const VOTER_SESSION_ITEM := "VoterSessionItem"
  const VOTER_COMMITMENT_ITEM := "VoterEncryptionCommitmentItem"
  const BOARD_COMMITMENT_ITEM := "BoardEncryptionCommitmentItem"
  const BALLOT_CRYPTOGRAMS_ITEM := "BallotCryptogramsItem"
  const CAST_REQUEST_ITEM := "CastRequestItem"
  const SPOIL_REQUEST_ITEM := "SpoilRequestItem"

  /** The latest config item's address and the board's public key in it. */
  datatype Config = Config(address: string, dbbPublicKey: Option<string>)

  /** What constructContestEnvelopes returns; envelopes and opening as their serialisations. */
  datatype Construction = Construction(commitment: string, opening: string, envelopes: string)

  /** The board's answers, any of whose items may be missing. */
  datatype SessionResponse = SessionResponse(voterSession: Option<Item>, receipt: string)
  datatype CommitmentResponse = CommitmentResponse(
    voterCommitment: Option<Item>, boardCommitment: Option<Item>, envelopes: string, receipt: string)
  datatype VoteResponse = VoteResponse(
    vote: Option<Item>, verification: Option<Item>, receipt: string, shortAddressReadable: bool)
  datatype CastResponse = CastResponse(castRequest: Option<Item>, receipt: string)
  datatype SpoilResponse = SpoilResponse(
    spoilRequest: Option<Item>, receipt: string, boardCommitmentOpening: string)

  /** The fields of the client that the protocol reads or writes. */
  datatype State = State(
    dbbPublicKey: Option<string>, latestConfig: Option<Config>, voterSession: Option<Item>,
    clientEnvelopes: Option<string>, serverEnvelopes: Option<string>, voterCommitmentOpening: Option<string>,
    boardCommitment: Option<Item>, ballotCryptogramItem: Option<Item>, spoilRequest: Option<Item>)

  datatype Outcome = Threw | Returned | Accepted(request: Item)

  /** A call with everything its environment answers; None where a service or an earlier
      computation throws. */
  datatype Call =
    | Initialize(config: Option<Config>)
    | CreateVoterRegistration(claims: Option<Content>, session: Option<SessionResponse>)
    | ConstructBallot(
        construction: Option<Construction>, commitment: Option<CommitmentResponse>, votes: Option<VoteResponse>)
    | CastBallot(attachment: Option<string>, cast: Option<CastResponse>)
    | SpoilBallot(spoil: Option<SpoilResponse>)

  // ---------------------------------------------------------------- one call

  /** getDbbPublicKey; an absent or empty key is falsy, and no config throws. */
  function DbbPublicKey(s: State): Option<string> {
    if s.latestConfig.None? then None
    else if s.dbbPublicKey.Some? && s.dbbPublicKey.value != "" then s.dbbPublicKey
    else
      var key := s.latestConfig.value.dbbPublicKey;
      if key.Some? && key.value != "" then key else None
  }

  predicate SessionValid(w: World, r: SessionResponse, config: string, claims: Content, key: string) {
    && r.voterSession.Some?
    && ValidPayload(w, r.voterSession.value, Expectation(VOTER_SESSION_ITEM, config, Some(claims)), Some(key))
    && ValidReceipt(w, r.voterSession.value, r.voterSession.value, r.receipt, key)
  }

  function Register(w: World, s: State, claims: Option<Content>, r: Option<SessionResponse>): (State, Outcome) {
    var key := DbbPublicKey(s);
    if s.latestConfig.None? || claims.None? || r.None? || key.None? then (s, Threw)
    else if SessionValid(w, r.value, s.latestConfig.value.address, claims.value, key.value) then
      (s.(voterSession := r.value.voterSession), Returned)
    else (s, Threw)
  }

  /** The checks of submitVoterCommitment. */
  predicate CommitmentValid(w: World, r: CommitmentResponse, session: string, commitment: string, key: string) {
    && r.voterCommitment.Some? && r.boardCommitment.Some?
    && var voter, board := r.voterCommitment.value, r.boardCommitment.value;
    && ValidPayload(
         w, voter, Expectation(VOTER_COMMITMENT_ITEM, session, Some(map["commitment" := commitment])), None)
    && ValidPayload(w, board, Expectation(BOARD_COMMITMENT_ITEM, voter.address, None), Some(key))
    && ValidReceipt(w, voter, board, r.receipt, key)
  }

  /** The checks of submitBallotCryptograms. */
  predicate VoteValid(w: World, r: VoteResponse, board: string, cryptograms: string, key: string) {
    && r.vote.Some? && r.verification.Some?
    && ValidPayload(
         w, r.vote.value, Expectation(BALLOT_CRYPTOGRAMS_ITEM, board, Some(map["cryptograms" := cryptograms])), None)
    && ValidReceipt(w, r.vote.value, r.verification.value, r.receipt, key)
  }

  function Construct(
    w: World, s: State, construction: Option<Construction>, r: Option<CommitmentResponse>, v: Option<VoteResponse>)
    : (State, Outcome)
  {
    if s.voterSession.None? || s.latestConfig.None? || construction.None? then (s, Threw)
    else
      var built := construction.value;
      var s1 := s.(clientEnvelopes := Some(built.envelopes), voterCommitmentOpening := Some(built.opening));
      var key := DbbPublicKey(s1);
      if key.None? || r.None? then (s1, Threw)
      else if !CommitmentValid(w, r.value, s.voterSession.value.address, built.commitment, key.value) then (s1, Threw)
      else
        var s2 := s1.(boardCommitment := r.value.boardCommitment, serverEnvelopes := Some(r.value.envelopes));
        var finalized := w.finalize(built.envelopes, r.value.envelopes);
        if finalized.None? || v.None? then (s2, Threw)
        else if !VoteValid(w, v.value, s2.boardCommitment.value.address, finalized.value, key.value) then (s2, Threw)
        else
          (s2.(ballotCryptogramItem := v.value.vote), if v.value.shortAddressReadable then Returned else Threw)
  }

  function CastContent(attachment: Option<string>): Content {
    match attachment
    case None => map[]
    case Some(hash) => map["attachment" := hash]
  }

  function Cast(w: World, s: State, attachment: Option<string>, r: Option<CastResponse>): Outcome {
    if s.voterSession.None? || s.ballotCryptogramItem.None? || r.None? || r.value.castRequest.None? then Threw
    else
      var key, request := DbbPublicKey(s), r.value.castRequest.value;
      var e := Expectation(CAST_REQUEST_ITEM, s.ballotCryptogramItem.value.address, Some(CastContent(attachment)));
      if ValidPayload(w, request, e, None) && key.Some? && ValidReceipt(w, request, request, r.value.receipt, key.value)
      then Accepted(request)
      else Threw
  }

  /** The spoil request is stored before it is checked. */
  function Spoil(w: World, s: State, r: Option<SpoilResponse>): (State, Outcome) {
    if s.voterSession.None? || s.ballotCryptogramItem.None? || r.None? then (s, Threw)
    else
      var s1 := s.(spoilRequest := r.value.spoilRequest);
      (s1, if SpoilValid(w, s1, r.value) then Accepted(r.value.spoilRequest.value) else Threw)
  }

  predicate SpoilValid(w: World, s: State, r: SpoilResponse)
    requires s.ballotCryptogramItem.Some?
  {
    var key := DbbPublicKey(s);
    && r.spoilRequest.Some?
    && var request := r.spoilRequest.value;
    && ValidPayload(
         w, request, Expectation(SPOIL_REQUEST_ITEM, s.ballotCryptogramItem.value.address, Some(map[])), None)
    && key.Some? && ValidReceipt(w, request, request, r.receipt, key.value)
    && s.boardCommitment.Some? && "commitment" in s.boardCommitment.value.content
    && w.opens(r.boardCommitmentOpening, s.boardCommitment.value.content["commitment"])
  }

  function Step(w: World, s: State, call: Call): (State, Outcome) {
    match call
    case Initialize(config) => if config.None? then (s, Threw) else (s.(latestConfig := config), Returned)
    case CreateVoterRegistration(claims, session) => Register(w, s, claims, session)
    case ConstructBallot(construction, commitment, votes) => Construct(w, s, construction, commitment, votes)
    case CastBallot(attachment, cast) => (s, Cast(w, s, attachment, cast))
    case SpoilBallot(spoil) => Spoil(w, s, spoil)
  }

  /** A fresh client after a sequence of calls. */
  function Run(w: World, dbbPublicKey: Option<string>, calls: seq<Call>): State {
    if calls == [] then State(dbbPublicKey, None, None, None, None, None, None, None, None)
    else Step(w, Run(w, dbbPublicKey, calls[..|calls| - 1]), calls[|calls| - 1]).0
  }

  lemma RunGrows(w: World, key: Option<string>, calls: seq<Call>, call: Call)
    ensures Run(w, key, calls + [call]) == Step(w, Run(w, key, calls), call).0
  {
    hide Step;
    assert (calls + [call])[..|calls|] == calls;
  }

  // ---------------------------------------------------------------- the chain

  /** The items between a configuration and a ballot, with what each was checked against. */
  datatype Line = Line(
    config: string, claims: Content, session: Item, construction: Construction, voterCommitment: Item,
    boardCommitment: Item, serverEnvelopes: string, cryptograms: string, ballot: Item)

  /** What the client was given to trust: addresses of configurations and board keys. */
  datatype Root = ConfigAddress(address: string) | BoardKey(key: string)

  /** One trusted key signed the item's content and a receipt from `first` to `last`. */
  ghost predicate SignedAndReceipted(w: World, roots: set<Root>, i: Item, first: Item, last: Item) {
    exists key, receipt ::
      BoardKey(key) in roots
      && w.signed(i.signature, i.content, i.kind, i.parentAddress, key)
      && w.receiptSigned(receipt, first.signature, last.address, key)
  }

  ghost predicate Receipted(w: World, roots: set<Root>, first: Item, last: Item) {
    exists key, receipt :: BoardKey(key) in roots && w.receiptSigned(receipt, first.signature, last.address, key)
  }

  ghost predicate SessionLinked(w: World, roots: set<Root>, config: string, claims: Content, session: Item) {
    && ConfigAddress(config) in roots && Hangs(w, session, VOTER_SESSION_ITEM, config) && Carries(w, session, claims)
    && SignedAndReceipted(w, roots, session, session, session)
  }

  ghost predicate CommitmentLinked(
    w: World, roots: set<Root>, session: Item, construction: Construction, voter: Item, board: Item)
  {
    && Hangs(w, voter, VOTER_COMMITMENT_ITEM, session.address)
    && Carries(w, voter, map["commitment" := construction.commitment])
    && Hangs(w, board, BOARD_COMMITMENT_ITEM, voter.address)
    && SignedAndReceipted(w, roots, board, voter, board)
  }

  ghost predicate BallotLinked(
    w: World, roots: set<Root>, construction: Construction, board: Item, serverEnvelopes: string, cryptograms: string,
    ballot: Item)
  {
    && Hangs(w, ballot, BALLOT_CRYPTOGRAMS_ITEM, board.address)
    && Carries(w, ballot, map["cryptograms" := cryptograms])
    && w.finalize(construction.envelopes, serverEnvelopes) == Some(cryptograms)
    && exists verification :: Receipted(w, roots, ballot, verification)
  }

  /** The unbroken chain from one of the loaded configurations to the ballot. */
  ghost predicate Linked(w: World, roots: set<Root>, l: Line) {
    && SessionLinked(w, roots, l.config, l.claims, l.session)
    && CommitmentLinked(w, roots, l.session, l.construction, l.voterCommitment, l.boardCommitment)
    && BallotLinked(w, roots, l.construction, l.boardCommitment, l.serverEnvelopes, l.cryptograms, l.ballot)
  }

  /** An absent or empty key is falsy. */
  predicate Given(key: Option<string>) {
    key.Some? && key.value != ""
  }

  /** The roots a run was given: the addresses of the loaded configurations, and the key the
      client was built with or, only if it was built without one, the configurations' keys. */
  function Loaded(key: Option<string>, calls: seq<Call>): set<Root> {
    if calls == [] then KeyRoot(key)
    else Loaded(key, calls[..|calls| - 1]) + LoadedBy(key, calls[|calls| - 1])
  }

  function KeyRoot(key: Option<string>): set<Root> {
    if Given(key) then {BoardKey(key.value)} else {}
  }

  /** A client built with a key trusts no other. */
  lemma {:induction false} FixedKeyOnly(key: Option<string>, calls: seq<Call>, other: string)
    requires Given(key)
    ensures BoardKey(other) in Loaded(key, calls) <==> other == key.value
  {
    if calls != [] { FixedKeyOnly(key, calls[..|calls| - 1], other); }
  }

  lemma {:induction false} KeyKept(w: World, key: Option<string>, calls: seq<Call>)
    ensures Run(w, key, calls).dbbPublicKey == key
  {
    hide CommitmentValid, VoteValid, SessionValid;
    if calls != [] { KeyKept(w, key, calls[..|calls| - 1]); }
  }

  /** What is known of the stored items: each has been validated and hangs on a chain. */
  ghost predicate Stored(w: World, roots: set<Root>, s: State) {
    && KeyRoot(s.dbbPublicKey) <= roots
    && (s.latestConfig.Some? ==> ConfigRoots(s.dbbPublicKey, s.latestConfig.value) <= roots)
    && (s.voterSession.Some? ==> exists config, claims :: SessionLinked(w, roots, config, claims, s.voterSession.value))
    && (s.boardCommitment.Some? ==> HasCommitmentLine(w, roots, s.boardCommitment.value))
    && (s.ballotCryptogramItem.Some? ==> s.boardCommitment.Some? && s.voterSession.Some?)
    && (s.ballotCryptogramItem.Some? ==> exists l :: Linked(w, roots, l) && l.ballot == s.ballotCryptogramItem.value)
  }

  ghost predicate HasCommitmentLine(w: World, roots: set<Root>, board: Item) {
    exists config, claims, session, construction, voter ::
      SessionLinked(w, roots, config, claims, session) && CommitmentLinked(w, roots, session, construction, voter, board)
  }

  function ConfigRoots(key: Option<string>, config: Config): set<Root> {
    {ConfigAddress(config.address)} + if Given(key) then {} else KeyRoot(config.dbbPublicKey)
  }

  function LoadedBy(key: Option<string>, call: Call): set<Root> {
    if call.Initialize? && call.config.Some? then ConfigRoots(key, call.config.value) else {}
  }

  /** Whatever key the client checks with is a root. */
  lemma KeyTrusted(w: World, roots: set<Root>, s: State)
    requires Stored(w, roots, s) && DbbPublicKey(s).Some?
    ensures BoardKey(DbbPublicKey(s).value) in roots
  {
  }

  lemma MoreCommitment(
    w: World, roots: set<Root>, all: set<Root>, session: Item, construction: Construction, voter: Item, board: Item)
    requires roots <= all && CommitmentLinked(w, roots, session, construction, voter, board)
    ensures CommitmentLinked(w, all, session, construction, voter, board)
  {
  }

  lemma MoreSession(w: World, roots: set<Root>, all: set<Root>, config: string, claims: Content, session: Item)
    requires roots <= all && SessionLinked(w, roots, config, claims, session)
    ensures SessionLinked(w, all, config, claims, session)
  {
  }

  lemma MoreBallot(
    w: World, roots: set<Root>, all: set<Root>, construction: Construction, board: Item, serverEnvelopes: string,
    cryptograms: string, ballot: Item)
    requires roots <= all && BallotLinked(w, roots, construction, board, serverEnvelopes, cryptograms, ballot)
    ensures BallotLinked(w, all, construction, board, serverEnvelopes, cryptograms, ballot)
  {
    var verification :| Receipted(w, roots, ballot, verification);
    assert Receipted(w, all, ballot, verification);
  }

  lemma MoreLinked(w: World, roots: set<Root>, all: set<Root>, l: Line)
    requires roots <= all && Linked(w, roots, l)
    ensures Linked(w, all, l)
  {
    hide SessionLinked, CommitmentLinked, BallotLinked;
    MoreSession(w, roots, all, l.config, l.claims, l.session);
    MoreCommitment(w, roots, all, l.session, l.construction, l.voterCommitment, l.boardCommitment);
    MoreBallot(w, roots, all, l.construction, l.boardCommitment, l.serverEnvelopes, l.cryptograms, l.ballot);
  }

  lemma MoreRoots(w: World, roots: set<Root>, more: set<Root>, s: State)
    requires Stored(w, roots, s)
    ensures Stored(w, roots + more, s)
  {
    hide CommitmentLinked, BallotLinked, SessionLinked, Linked;
    var all := roots + more;
    if s.voterSession.Some? {
      var config, claims :| SessionLinked(w, roots, config, claims, s.voterSession.value);
      MoreSession(w, roots, all, config, claims, s.voterSession.value);
    }
    if s.boardCommitment.Some? {
      var config, claims, session, construction, voter :|
        SessionLinked(w, roots, config, claims, session)
        && CommitmentLinked(w, roots, session, construction, voter, s.boardCommitment.value);
      MoreSession(w, roots, all, config, claims, session);
      MoreCommitment(w, roots, all, session, construction, voter, s.boardCommitment.value);
    }
    if s.ballotCryptogramItem.Some? {
      var l :| Linked(w, roots, l) && l.ballot == s.ballotCryptogramItem.value;
      MoreLinked(w, roots, all, l);
    }
  }

  lemma RegisterStores(w: World, roots: set<Root>, s: State, claims: Option<Content>, r: Option<SessionResponse>)
    requires Stored(w, roots, s)
    ensures Stored(w, roots, Register(w, s, claims, r).0)
  {
    hide CommitmentLinked, BallotLinked, HasCommitmentLine, ValidPayload, Hangs, Carries;
    if Register(w, s, claims, r).1.Returned? {
      KeyTrusted(w, roots, s);
      PayloadExactly(w, r.value.voterSession.value,
                     Expectation(VOTER_SESSION_ITEM, s.latestConfig.value.address, Some(claims.value)), DbbPublicKey(s));
      assert SessionLinked(w, roots, s.latestConfig.value.address, claims.value, r.value.voterSession.value);
    }
  }

  /** The checks of the two halves of constructBallot, spelled out. */
  lemma CommitmentMeans(w: World, r: CommitmentResponse, session: string, commitment: string, key: string)
    ensures CommitmentValid(w, r, session, commitment, key)
            <==> && r.voterCommitment.Some? && r.boardCommitment.Some?
                 && var voter, board := r.voterCommitment.value, r.boardCommitment.value;
                 && Hangs(w, voter, VOTER_COMMITMENT_ITEM, session)
                 && Carries(w, voter, map["commitment" := commitment])
                 && Hangs(w, board, BOARD_COMMITMENT_ITEM, voter.address)
                 && w.signed(board.signature, board.content, board.kind, board.parentAddress, key)
                 && w.receiptSigned(r.receipt, voter.signature, board.address, key)
  {
    hide ValidPayload, Hangs, Carries;
    if r.voterCommitment.Some? && r.boardCommitment.Some? {
      var voter, board := r.voterCommitment.value, r.boardCommitment.value;
      PayloadExactly(
        w, voter, Expectation(VOTER_COMMITMENT_ITEM, session, Some(map["commitment" := commitment])), None);
      PayloadExactly(w, board, Expectation(BOARD_COMMITMENT_ITEM, voter.address, None), Some(key));
    }
  }

  lemma VoteMeans(w: World, r: VoteResponse, board: string, cryptograms: string, key: string)
    ensures VoteValid(w, r, board, cryptograms, key)
            <==> && r.vote.Some? && r.verification.Some?
                 && Hangs(w, r.vote.value, BALLOT_CRYPTOGRAMS_ITEM, board)
                 && Carries(w, r.vote.value, map["cryptograms" := cryptograms])
                 && w.receiptSigned(r.receipt, r.vote.value.signature, r.verification.value.address, key)
  {
    hide ValidPayload, Hangs, Carries;
    if r.vote.Some? {
      PayloadExactly(
        w, r.vote.value, Expectation(BALLOT_CRYPTOGRAMS_ITEM, board, Some(map["cryptograms" := cryptograms])), None);
    }
  }

  /** What the commitment half of constructBallot leaves behind. */
  lemma CommitmentLine(w: World, roots: set<Root>, s: State, call: Call)
    requires Stored(w, roots, s) && CommitmentAccepted(w, s, call)
    ensures call.commitment.value.voterCommitment.Some? && call.commitment.value.boardCommitment.Some?
    ensures CommitmentLinked(w, roots, s.voterSession.value, call.construction.value,
                             call.commitment.value.voterCommitment.value, call.commitment.value.boardCommitment.value)
    ensures HasCommitmentLine(w, roots, call.commitment.value.boardCommitment.value)
  {
    hide SessionLinked, CommitmentValid, Hangs, Carries;
    var config, claims :| SessionLinked(w, roots, config, claims, s.voterSession.value);
    CommitmentMeans(w, call.commitment.value, s.voterSession.value.address, call.construction.value.commitment,
                    DbbPublicKey(s).value);
    KeyTrusted(w, roots, s);
    assert CommitmentLinked(w, roots, s.voterSession.value, call.construction.value,
                            call.commitment.value.voterCommitment.value, call.commitment.value.boardCommitment.value);
  }

  /** What an accepted ballot hangs on. */
  lemma BallotLine(w: World, roots: set<Root>, s: State, call: Call)
    requires Stored(w, roots, s) && BallotAccepted(w, s, call)
    ensures HasLine(w, roots, call.votes.value.vote.value, call.construction.value)
  {
    hide CommitmentLinked, HasCommitmentLine, CommitmentValid, VoteValid, Hangs, Carries;
    CommitmentLine(w, roots, s, call);
    var config, claims :| SessionLinked(w, roots, config, claims, s.voterSession.value);
    hide SessionLinked;
    var built, r := call.construction.value, call.commitment.value;
    var cryptograms := w.finalize(built.envelopes, r.envelopes).value;
    VoteMeans(w, call.votes.value, r.boardCommitment.value.address, cryptograms, DbbPublicKey(s).value);
    var ballot := call.votes.value.vote.value;
    KeyTrusted(w, roots, s);
    assert Receipted(w, roots, ballot, call.votes.value.verification.value);
    var l := Line(config, claims, s.voterSession.value, built, r.voterCommitment.value, r.boardCommitment.value,
                  r.envelopes, cryptograms, ballot);
    assert Linked(w, roots, l);
  }

  /** A chain to the ballot whose commitment and cryptograms come from one construction. */
  ghost predicate HasLine(w: World, roots: set<Root>, ballot: Item, construction: Construction) {
    exists l :: Linked(w, roots, l) && l.ballot == ballot && l.construction == construction
  }

  lemma ConstructStores(w: World, roots: set<Root>, s: State, call: Call)
    requires Stored(w, roots, s) && call.ConstructBallot?
    ensures Stored(w, roots, Step(w, s, call).0)
  {
    hide SessionLinked, HasCommitmentLine, Linked, CommitmentAccepted, BallotAccepted, Step;
    MatchingStep(w, s, call);
    SessionKept(w, s, call);
    AcceptedBallotHasCommitment(w, s, call);
    if CommitmentAccepted(w, s, call) { CommitmentLine(w, roots, s, call); }
    if BallotAccepted(w, s, call) { BallotLine(w, roots, s, call); }
  }

  lemma SessionKept(w: World, s: State, call: Call)
    requires call.ConstructBallot?
    ensures Step(w, s, call).0.voterSession == s.voterSession && Step(w, s, call).0.latestConfig == s.latestConfig
    ensures Step(w, s, call).0.dbbPublicKey == s.dbbPublicKey
    ensures CommitmentAccepted(w, s, call) ==> s.voterSession.Some?
  {
  }

  lemma StepStores(w: World, roots: set<Root>, s: State, call: Call)
    requires Stored(w, roots, s)
    ensures Stored(w, roots + LoadedBy(s.dbbPublicKey, call), Step(w, s, call).0)
  {
    hide Linked, HasCommitmentLine, SessionLinked, Register, Construct, SpoilValid;
    match call
    case Initialize(config) => MoreRoots(w, roots, LoadedBy(s.dbbPublicKey, call), s);
    case CreateVoterRegistration(claims, session) =>
      RegisterStores(w, roots, s, claims, session);
      assert roots + {} == roots;
    case ConstructBallot(construction, commitment, votes) =>
      ConstructStores(w, roots, s, call);
      assert roots + {} == roots;
    case CastBallot(attachment, cast) => assert roots + {} == roots;
    case SpoilBallot(spoil) => assert roots + {} == roots;
  }

  /** After every run of calls against any board, every stored session, board commitment and
      ballot item has been validated, those of calls that threw included. */
  lemma {:induction false} RunStores(w: World, key: Option<string>, calls: seq<Call>)
    ensures Stored(w, Loaded(key, calls), Run(w, key, calls))
  {
    hide Stored, Step;
    if calls == [] {
      FreshStores(w, key);
    } else {
      var n := |calls| - 1;
      RunStores(w, key, calls[..n]);
      KeyKept(w, key, calls[..n]);
      StepStores(w, Loaded(key, calls[..n]), Run(w, key, calls[..n]), calls[n]);
    }
  }

  lemma FreshStores(w: World, key: Option<string>)
    ensures Stored(w, KeyRoot(key), Run(w, key, []))
  {
  }

  /** What an accepted request has been checked for. */
  ghost predicate RequestLinked(w: World, roots: set<Root>, ballot: Item, request: Item, call: Call) {
    && Hangs(w, request, if call.CastBallot? then CAST_REQUEST_ITEM else SPOIL_REQUEST_ITEM, ballot.address)
    && Receipted(w, roots, request, request)
    && (call.CastBallot? && call.attachment.Some? ==>
          Carries(w, request, map["attachment" := call.attachment.value]))
  }

  /** Every accepted cast or spoil request of every run is the tip of an unbroken chain from a
      configuration the client loaded. */
  lemma AcceptedIsLinked(w: World, key: Option<string>, calls: seq<Call>, call: Call)
    requires Step(w, Run(w, key, calls), call).1.Accepted?
    ensures exists l :: Linked(w, Loaded(key, calls), l)
                        && RequestLinked(
                             w, Loaded(key, calls), l.ballot, Step(w, Run(w, key, calls), call).1.request, call)
  {
    hide Linked, HasCommitmentLine, SessionLinked, Run, Loaded, ValidPayload, Hangs, Carries;
    RunStores(w, key, calls);
    var s := Run(w, key, calls);
    var request := Step(w, s, call).1.request;
    assert call.CastBallot? || call.SpoilBallot?;
    RequestMeans(w, request, s.ballotCryptogramItem.value.address, call);
    var l :| Linked(w, Loaded(key, calls), l) && l.ballot == s.ballotCryptogramItem.value;
    KeyTrusted(w, Loaded(key, calls), s);
    assert RequestLinked(w, Loaded(key, calls), l.ballot, request, call);
  }

  lemma RequestMeans(w: World, request: Item, ballot: string, call: Call)
    ensures call.CastBallot? ==>
              (ValidPayload(w, request, Expectation(CAST_REQUEST_ITEM, ballot, Some(CastContent(call.attachment))), None)
               <==> && Hangs(w, request, CAST_REQUEST_ITEM, ballot)
                    && (call.attachment.Some? ==> Carries(w, request, map["attachment" := call.attachment.value])))
    ensures ValidPayload(w, request, Expectation(SPOIL_REQUEST_ITEM, ballot, Some(map[])), None)
            <==> Hangs(w, request, SPOIL_REQUEST_ITEM, ballot)
  {
    hide ValidPayload, Hangs;
    NothingSent(w, request);
    PayloadExactly(w, request, Expectation(SPOIL_REQUEST_ITEM, ballot, Some(map[])), None);
    if call.CastBallot? {
      PayloadExactly(w, request, Expectation(CAST_REQUEST_ITEM, ballot, Some(CastContent(call.attachment))), None);
    }
  }

  /** With a collision-free address hash the request's address fixes the whole chain: two
      chains, of whatever clients, that end in one address agree in every hashed field. */
  lemma TipFixesChain(
    w: World, c1: set<Root>, l1: Line, q1: Item, call1: Call, c2: set<Root>, l2: Line, q2: Item, call2: Call)
    requires CollisionFree(w) && Linked(w, c1, l1) && Linked(w, c2, l2)
    requires RequestLinked(w, c1, l1.ballot, q1, call1) && RequestLinked(w, c2, l2.ballot, q2, call2)
    requires q1.address == q2.address
    ensures q1 == q2.(signature := q1.signature) && l1.ballot == l2.ballot.(signature := l1.ballot.signature)
    ensures l1.boardCommitment == l2.boardCommitment.(signature := l1.boardCommitment.signature)
    ensures l1.voterCommitment == l2.voterCommitment.(signature := l1.voterCommitment.signature)
    ensures l1.session == l2.session.(signature := l1.session.signature) && l1.config == l2.config
  {
    hide CollisionFree;
    SameAddress(w, q1, q2);
    SameAddress(w, l1.ballot, l2.ballot);
    SameAddress(w, l1.boardCommitment, l2.boardCommitment);
    SameAddress(w, l1.voterCommitment, l2.voterCommitment);
    SameAddress(w, l1.session, l2.session);
  }

  lemma SameAddress(w: World, a: Item, b: Item)
    requires CollisionFree(w) && a.address == b.address
    requires Hangs(w, a, a.kind, a.parentAddress) && Hangs(w, b, b.kind, b.parentAddress)
    ensures a == b.(signature := a.signature)
  {
  }

  /** With a serialisation that tells contents apart, the chain carries the voter's own
      commitment and the cryptograms finalized from the same construction. */
  lemma ChainCarries(w: World, roots: set<Root>, l: Line)
    requires (forall a, b :: w.form(a) == w.form(b) ==> a == b) && Linked(w, roots, l)
    ensures forall k :: k in l.claims ==> k in l.session.content && l.session.content[k] == l.claims[k]
    ensures "commitment" in l.voterCommitment.content
            && l.voterCommitment.content["commitment"] == l.construction.commitment
    ensures "cryptograms" in l.ballot.content && l.ballot.content["cryptograms"] == l.cryptograms
    ensures w.finalize(l.construction.envelopes, l.serverEnvelopes) == Some(l.cryptograms)
  {
    hide Hangs, Carries;
    forall k | k in l.claims ensures k in l.session.content && l.session.content[k] == l.claims[k] {
      CarriesAll(w, l.session, l.claims, k);
    }
    CarriesAll(w, l.voterCommitment, map["commitment" := l.construction.commitment], "commitment");
    CarriesAll(w, l.ballot, map["cryptograms" := l.cryptograms], "cryptograms");
  }

  /** What a throwing call can have changed: never the session; the ballot only to an accepted
      one whose tracking code could not be read; the board commitment only to one that passed
      every check. */
  lemma ThrowingKeeps(w: World, s: State, call: Call)
    requires Step(w, s, call).1.Threw?
    ensures var s' := Step(w, s, call).0;
            && s'.voterSession == s.voterSession && s'.latestConfig == s.latestConfig
            && (s'.ballotCryptogramItem != s.ballotCryptogramItem ==>
                  BallotAccepted(w, s, call) && !call.votes.value.shortAddressReadable
                  && s'.ballotCryptogramItem == call.votes.value.vote)
            && (s'.boardCommitment != s.boardCommitment ==>
                  CommitmentAccepted(w, s, call) && s'.boardCommitment == call.commitment.value.boardCommitment)
            && (s'.spoilRequest != s.spoilRequest ==> call.SpoilBallot?)
  {
  }

  /** The commitment half of constructBallot went through. */
  predicate CommitmentAccepted(w: World, s: State, call: Call) {
    && call.ConstructBallot? && s.voterSession.Some? && s.latestConfig.Some?
    && call.construction.Some? && call.commitment.Some? && DbbPublicKey(s).Some?
    && CommitmentValid(
         w, call.commitment.value, s.voterSession.value.address, call.construction.value.commitment,
         DbbPublicKey(s).value)
  }

  /** Without an affidavit a cast request of any content is accepted whose kind, parent and
      address are right and whose receipt is valid. */
  lemma CastChecksNoContent(w: World, s: State, request: Item, receipt: string)
    ensures Cast(w, s, None, Some(CastResponse(Some(request), receipt))) == Accepted(request)
            <==> && s.voterSession.Some? && s.ballotCryptogramItem.Some? && DbbPublicKey(s).Some?
                 && Hangs(w, request, CAST_REQUEST_ITEM, s.ballotCryptogramItem.value.address)
                 && w.receiptSigned(receipt, request.signature, request.address, DbbPublicKey(s).value)
  {
    assert Filtered(request.content, {}) == map[];
  }

  /** A spoil request of any content is accepted whose kind, parent and address are right,
      whose receipt is valid and whose opening fits the stored board commitment. */
  lemma SpoilChecksNoContent(w: World, s: State, request: Item, receipt: string, opening: string)
    ensures Spoil(w, s, Some(SpoilResponse(Some(request), receipt, opening))).1 == Accepted(request)
            <==> && s.voterSession.Some? && s.ballotCryptogramItem.Some? && DbbPublicKey(s).Some?
                 && Hangs(w, request, SPOIL_REQUEST_ITEM, s.ballotCryptogramItem.value.address)
                 && w.receiptSigned(receipt, request.signature, request.address, DbbPublicKey(s).value)
                 && s.boardCommitment.Some? && "commitment" in s.boardCommitment.value.content
                 && w.opens(opening, s.boardCommitment.value.content["commitment"])
  {
    assert Filtered(request.content, {}) == map[];
  }

  // ---------------------------------------------------------------- which answers are accepted

  /** The configuration loaded last. */
  function LastConfig(calls: seq<Call>): Option<Config> {
    if calls == [] then None
    else
      var last := calls[|calls| - 1];
      if last.Initialize? && last.config.Some? then last.config else LastConfig(calls[..|calls| - 1])
  }

  /** The key every check is made with: once a configuration has been loaded, the key the client
      was built with and otherwise that of the configuration loaded last. */
  function KeyInForce(key: Option<string>, calls: seq<Call>): Option<string> {
    match LastConfig(calls)
    case None => None
    case Some(config) => if Given(key) then key else if Given(config.dbbPublicKey) then config.dbbPublicKey else None
  }

  lemma {:induction false} RunKey(w: World, key: Option<string>, calls: seq<Call>)
    ensures var s := Run(w, key, calls);
            s.latestConfig == LastConfig(calls) && DbbPublicKey(s) == KeyInForce(key, calls)
  {
    hide CommitmentValid, VoteValid, SessionValid, SpoilValid, Cast;
    KeyKept(w, key, calls);
    if calls != [] { RunKey(w, key, calls[..|calls| - 1]); }
  }

  /** After every run: a session is stored exactly when it hangs on the last configuration,
      carries the claims, and key in force has signed it and its receipt. */
  lemma RegistersExactly(
    w: World, key: Option<string>, calls: seq<Call>, claims: Option<Content>, session: Option<SessionResponse>)
    ensures var s, k, config := Run(w, key, calls), KeyInForce(key, calls), LastConfig(calls);
            var good := && k.Some? && config.Some? && claims.Some? && session.Some? && session.value.voterSession.Some?
                        && var i := session.value.voterSession.value;
                        && Hangs(w, i, VOTER_SESSION_ITEM, config.value.address) && Carries(w, i, claims.value)
                        && w.signed(i.signature, i.content, i.kind, i.parentAddress, k.value)
                        && w.receiptSigned(session.value.receipt, i.signature, i.address, k.value);
            Step(w, s, CreateVoterRegistration(claims, session))
            == if good then (s.(voterSession := session.value.voterSession), Returned) else (s, Threw)
  {
    hide Run, KeyInForce, LastConfig, ValidPayload, Hangs, Carries;
    RunKey(w, key, calls);
    var s := Run(w, key, calls);
    if s.latestConfig.Some? && claims.Some? && session.Some? && session.value.voterSession.Some? {
      PayloadExactly(w, session.value.voterSession.value,
                     Expectation(VOTER_SESSION_ITEM, s.latestConfig.value.address, Some(claims.value)), DbbPublicKey(s));
    }
  }

  /** Likewise what a construction stores, half by half, and when it returns. */
  lemma ConstructsExactly(
    w: World, key: Option<string>, calls: seq<Call>, construction: Option<Construction>,
    commitment: Option<CommitmentResponse>, votes: Option<VoteResponse>)
    ensures var s, k := Run(w, key, calls), KeyInForce(key, calls);
            var started := s.voterSession.Some? && LastConfig(calls).Some? && construction.Some?;
            var committed := && started && k.Some? && commitment.Some?
                             && commitment.value.voterCommitment.Some? && commitment.value.boardCommitment.Some?
                             && var r, voter, board := commitment.value, commitment.value.voterCommitment.value,
                                                       commitment.value.boardCommitment.value;
                             && Hangs(w, voter, VOTER_COMMITMENT_ITEM, s.voterSession.value.address)
                             && Carries(w, voter, map["commitment" := construction.value.commitment])
                             && Hangs(w, board, BOARD_COMMITMENT_ITEM, voter.address)
                             && w.signed(board.signature, board.content, board.kind, board.parentAddress, k.value)
                             && w.receiptSigned(r.receipt, voter.signature, board.address, k.value);
            var voted := && committed && votes.Some? && votes.value.vote.Some? && votes.value.verification.Some?
                         && var vote, final := votes.value.vote.value,
                                               w.finalize(construction.value.envelopes, commitment.value.envelopes);
                         && final.Some?
                         && Hangs(w, vote, BALLOT_CRYPTOGRAMS_ITEM, commitment.value.boardCommitment.value.address)
                         && Carries(w, vote, map["cryptograms" := final.value])
                         && w.receiptSigned(votes.value.receipt, vote.signature,
                                            votes.value.verification.value.address, k.value);
            Step(w, s, ConstructBallot(construction, commitment, votes))
            == (s.(clientEnvelopes := if started then Some(construction.value.envelopes) else s.clientEnvelopes,
                   voterCommitmentOpening := if started then Some(construction.value.opening)
                                             else s.voterCommitmentOpening,
                   boardCommitment := if committed then commitment.value.boardCommitment else s.boardCommitment,
                   serverEnvelopes := if committed then Some(commitment.value.envelopes) else s.serverEnvelopes,
                   ballotCryptogramItem := if voted then votes.value.vote else s.ballotCryptogramItem),
                if voted && votes.value.shortAddressReadable then Returned else Threw)
  {
    hide Run, KeyInForce, LastConfig, CommitmentValid, VoteValid, Hangs, Carries;
    RunKey(w, key, calls);
    var s := Run(w, key, calls);
    var k := DbbPublicKey(s);
    if s.voterSession.Some? && construction.Some? && k.Some? && commitment.Some? {
      var r := commitment.value;
      CommitmentMeans(w, r, s.voterSession.value.address, construction.value.commitment, k.value);
      var final := w.finalize(construction.value.envelopes, r.envelopes);
      if r.boardCommitment.Some? && final.Some? && votes.Some? {
        VoteMeans(w, votes.value, r.boardCommitment.value.address, final.value, k.value);
      }
    }
  }

  /** Likewise which cast requests are accepted; no field changes. */
  lemma CastsExactly(
    w: World, key: Option<string>, calls: seq<Call>, attachment: Option<string>, response: Option<CastResponse>)
    ensures var s, k := Run(w, key, calls), KeyInForce(key, calls);
            var good := && s.voterSession.Some? && s.ballotCryptogramItem.Some? && k.Some?
                        && response.Some? && response.value.castRequest.Some?
                        && var i := response.value.castRequest.value;
                        && Hangs(w, i, CAST_REQUEST_ITEM, s.ballotCryptogramItem.value.address)
                        && (attachment.Some? ==> Carries(w, i, map["attachment" := attachment.value]))
                        && w.receiptSigned(response.value.receipt, i.signature, i.address, k.value);
            Step(w, s, CastBallot(attachment, response))
            == (s, if good then Accepted(response.value.castRequest.value) else Threw)
  {
    hide Run, KeyInForce, LastConfig, ValidPayload, Hangs, Carries;
    RunKey(w, key, calls);
    var s := Run(w, key, calls);
    if s.ballotCryptogramItem.Some? && response.Some? && response.value.castRequest.Some? {
      RequestMeans(w, response.value.castRequest.value, s.ballotCryptogramItem.value.address,
                   CastBallot(attachment, response));
    }
  }

  /** Likewise which spoil requests are stored and which of them accepted. */
  lemma SpoilsExactly(w: World, key: Option<string>, calls: seq<Call>, response: Option<SpoilResponse>)
    ensures var s, k := Run(w, key, calls), KeyInForce(key, calls);
            var stored := s.voterSession.Some? && s.ballotCryptogramItem.Some? && response.Some?;
            var good := && stored && k.Some? && response.value.spoilRequest.Some?
                        && var i := response.value.spoilRequest.value;
                        && Hangs(w, i, SPOIL_REQUEST_ITEM, s.ballotCryptogramItem.value.address)
                        && w.receiptSigned(response.value.receipt, i.signature, i.address, k.value)
                        && s.boardCommitment.Some? && "commitment" in s.boardCommitment.value.content
                        && w.opens(response.value.boardCommitmentOpening, s.boardCommitment.value.content["commitment"]);
            Step(w, s, SpoilBallot(response))
            == (if stored then s.(spoilRequest := response.value.spoilRequest) else s,
                if good then Accepted(response.value.spoilRequest.value) else Threw)
  {
    hide Run, KeyInForce, LastConfig, ValidPayload, Hangs, Carries;
    RunKey(w, key, calls);
    var s := Run(w, key, calls);
    if s.ballotCryptogramItem.Some? && response.Some? && response.value.spoilRequest.Some? {
      RequestMeans(w, response.value.spoilRequest.value, s.ballotCryptogramItem.value.address, SpoilBallot(response));
    }
  }

  // ---------------------------------------------------------------- which commitment spoiling opens

  /** The last call whose commitment half went through stored its ballot as well. */
  predicate Settled(w: World, key: Option<string>, calls: seq<Call>) {
    calls == []
    || var n := |calls| - 1;
       var s := Run(w, key, calls[..n]);
       if CommitmentAccepted(w, s, calls[n]) then BallotAccepted(w, s, calls[n]) else Settled(w, key, calls[..n])
  }

  predicate BallotAccepted(w: World, s: State, call: Call) {
    && CommitmentAccepted(w, s, call)
    && var cryptograms := w.finalize(call.construction.value.envelopes, call.commitment.value.envelopes);
    && cryptograms.Some? && call.votes.Some?
    && VoteValid(
         w, call.votes.value, call.commitment.value.boardCommitment.value.address, cryptograms.value,
         DbbPublicKey(s).value)
  }

  /** The board commitment that spoilBallot opens is the parent of the ballot it spoils. */
  predicate Matching(s: State) {
    s.ballotCryptogramItem.Some? && s.boardCommitment.Some?
    ==> s.boardCommitment.value.address == s.ballotCryptogramItem.value.parentAddress
  }

  /** The board never repeats the address of the commitment under the stored ballot. */
  predicate NewCommitments(w: World, key: Option<string>, calls: seq<Call>) {
    calls == []
    || var n := |calls| - 1;
       var s := Run(w, key, calls[..n]);
       && NewCommitments(w, key, calls[..n])
       && (CommitmentAccepted(w, s, calls[n]) && s.ballotCryptogramItem.Some? ==>
             calls[n].commitment.value.boardCommitment.value.address != s.ballotCryptogramItem.value.parentAddress)
  }

  /** Spoiling opens the right commitment exactly when the last accepted commitment was
      followed by its ballot; a ballot of an earlier attempt is matched with a later one. */
  lemma {:induction false} MatchingExactly(w: World, key: Option<string>, calls: seq<Call>)
    requires NewCommitments(w, key, calls)
    ensures Run(w, key, calls).ballotCryptogramItem.Some? ==>
              (Matching(Run(w, key, calls)) <==> Settled(w, key, calls))
  {
    hide CommitmentAccepted, BallotAccepted, Step;
    if calls != [] {
      var n := |calls| - 1;
      MatchingExactly(w, key, calls[..n]);
      BallotHasCommitment(w, key, calls[..n]);
      MatchingStep(w, Run(w, key, calls[..n]), calls[n]);
      AcceptedBallotHasCommitment(w, Run(w, key, calls[..n]), calls[n]);
    }
  }

  lemma BallotHasCommitment(w: World, key: Option<string>, calls: seq<Call>)
    ensures Run(w, key, calls).ballotCryptogramItem.Some? ==> Run(w, key, calls).boardCommitment.Some?
  {
    hide Run, Loaded, Linked, HasCommitmentLine, SessionLinked;
    RunStores(w, key, calls);
  }

  lemma AcceptedBallotHasCommitment(w: World, s: State, call: Call)
    ensures BallotAccepted(w, s, call) ==> CommitmentAccepted(w, s, call)
    ensures CommitmentAccepted(w, s, call) ==>
              call.ConstructBallot? && call.commitment.Some? && call.commitment.value.boardCommitment.Some?
  {
  }

  /** One call changes the pair of commitment and ballot only through constructBallot. */
  lemma MatchingStep(w: World, s: State, call: Call)
    requires s.ballotCryptogramItem.Some? ==> s.boardCommitment.Some?
    ensures var s' := Step(w, s, call).0;
            if BallotAccepted(w, s, call) then
              s'.boardCommitment == call.commitment.value.boardCommitment
              && s'.ballotCryptogramItem == call.votes.value.vote && Matching(s')
            else if CommitmentAccepted(w, s, call) then
              s'.boardCommitment == call.commitment.value.boardCommitment
              && s'.ballotCryptogramItem == s.ballotCryptogramItem
            else s'.boardCommitment == s.boardCommitment && s'.ballotCryptogramItem == s.ballotCryptogramItem
  {
  }

  /** An accepted spoil request opened a validated board commitment of this run, and the
      ballot's own one whenever the last accepted commitment was followed by its ballot. */
  lemma SpoilOpens(w: World, key: Option<string>, calls: seq<Call>, spoil: SpoilResponse)
    requires Step(w, Run(w, key, calls), SpoilBallot(Some(spoil))).1.Accepted?
    ensures var s := Run(w, key, calls);
            && s.boardCommitment.Some? && s.ballotCryptogramItem.Some?
            && HasCommitmentLine(w, Loaded(key, calls), s.boardCommitment.value)
            && "commitment" in s.boardCommitment.value.content
            && w.opens(spoil.boardCommitmentOpening, s.boardCommitment.value.content["commitment"])
            && (Settled(w, key, calls) ==> s.boardCommitment.value.address == s.ballotCryptogramItem.value.parentAddress)
  {
    hide Run, Loaded, Settled, HasCommitmentLine, Linked, SessionLinked, ValidPayload, ValidReceipt, Hangs;
    RunStores(w, key, calls);
    SettledMatches(w, key, calls);
  }

  lemma {:induction false} SettledMatches(w: World, key: Option<string>, calls: seq<Call>)
    ensures Settled(w, key, calls) ==> Matching(Run(w, key, calls))
  {
    hide CommitmentAccepted, BallotAccepted, Step;
    if calls != [] {
      var n := |calls| - 1;
      SettledMatches(w, key, calls[..n]);
      BallotHasCommitment(w, key, calls[..n]);
      MatchingStep(w, Run(w, key, calls[..n]), calls[n]);
      AcceptedBallotHasCommitment(w, Run(w, key, calls[..n]), calls[n]);
    }
  }

  // ---------------------------------------------------------------- which opening is kept

  /** constructBallot got as far as replacing envelopes and opening. */
  predicate Constructs(s: State, call: Call) {
    call.ConstructBallot? && s.voterSession.Some? && s.latestConfig.Some? && call.construction.Some?
  }

  /** The last construction led to an accepted ballot. */
  predicate OpeningSettled(w: World, key: Option<string>, calls: seq<Call>) {
    calls == []
    || var n := |calls| - 1;
       var s := Run(w, key, calls[..n]);
       if Constructs(s, calls[n]) then BallotAccepted(w, s, calls[n]) else OpeningSettled(w, key, calls[..n])
  }

  /** The opening of the construction behind the last accepted ballot. */
  function BallotOpening(w: World, key: Option<string>, calls: seq<Call>): Option<string> {
    if calls == [] then None
    else
      var n := |calls| - 1;
      if BallotAccepted(w, Run(w, key, calls[..n]), calls[n]) then Some(calls[n].construction.value.opening)
      else BallotOpening(w, key, calls[..n])
  }

  /** It is the opening of the chain to the stored ballot, after every run. */
  lemma {:induction false} BallotOpeningLinked(w: World, key: Option<string>, calls: seq<Call>)
    requires Run(w, key, calls).ballotCryptogramItem.Some?
    ensures exists construction ::
              HasLine(w, Loaded(key, calls), Run(w, key, calls).ballotCryptogramItem.value, construction)
              && BallotOpening(w, key, calls) == Some(construction.opening)
  {
    hide Step, BallotAccepted, Stored, Linked;
    if calls != [] {
      var n := |calls| - 1;
      var s := Run(w, key, calls[..n]);
      OpeningStep(w, s, calls[n]);
      if BallotAccepted(w, s, calls[n]) {
        RunStores(w, key, calls[..n]);
        BallotLine(w, Loaded(key, calls[..n]), s, calls[n]);
        MoreLines(w, Loaded(key, calls[..n]), LoadedBy(key, calls[n]), calls[n].votes.value.vote.value,
                  calls[n].construction.value);
      } else {
        BallotOpeningLinked(w, key, calls[..n]);
        var construction :| HasLine(w, Loaded(key, calls[..n]), s.ballotCryptogramItem.value, construction)
                            && BallotOpening(w, key, calls[..n]) == Some(construction.opening);
        MoreLines(w, Loaded(key, calls[..n]), LoadedBy(key, calls[n]), s.ballotCryptogramItem.value, construction);
      }
    }
  }

  /** No construction repeats the opening behind the ballot stored so far. */
  predicate NewOpenings(w: World, key: Option<string>, calls: seq<Call>) {
    calls == []
    || var n := |calls| - 1;
       && NewOpenings(w, key, calls[..n])
       && (Constructs(Run(w, key, calls[..n]), calls[n]) ==>
             BallotOpening(w, key, calls[..n]) != Some(calls[n].construction.value.opening))
  }

  /** The kept opening is that of the stored ballot exactly when the last construction led to
      an accepted ballot. */
  lemma {:induction false} OpeningExactly(w: World, key: Option<string>, calls: seq<Call>)
    requires NewOpenings(w, key, calls) && Run(w, key, calls).ballotCryptogramItem.Some?
    ensures Run(w, key, calls).voterCommitmentOpening == BallotOpening(w, key, calls)
            <==> OpeningSettled(w, key, calls)
  {
    hide Step, BallotAccepted;
    if calls != [] {
      var n := |calls| - 1;
      OpeningStep(w, Run(w, key, calls[..n]), calls[n]);
      if Run(w, key, calls[..n]).ballotCryptogramItem.Some? { OpeningExactly(w, key, calls[..n]); }
    }
  }

  lemma {:induction false} SettledOpening(w: World, key: Option<string>, calls: seq<Call>)
    requires OpeningSettled(w, key, calls) && Run(w, key, calls).ballotCryptogramItem.Some?
    ensures Run(w, key, calls).voterCommitmentOpening == BallotOpening(w, key, calls)
  {
    hide Step, BallotAccepted;
    if calls != [] {
      var n := |calls| - 1;
      OpeningStep(w, Run(w, key, calls[..n]), calls[n]);
      if !Constructs(Run(w, key, calls[..n]), calls[n]) { SettledOpening(w, key, calls[..n]); }
    }
  }

  /** Then the kept opening is the one of the construction behind the stored ballot. */
  lemma OpeningBelongs(w: World, key: Option<string>, calls: seq<Call>)
    requires OpeningSettled(w, key, calls) && Run(w, key, calls).ballotCryptogramItem.Some?
    ensures OpeningOfBallot(w, Loaded(key, calls), Run(w, key, calls))
  {
    hide Run, Loaded, BallotOpening, HasLine;
    SettledOpening(w, key, calls);
    BallotOpeningLinked(w, key, calls);
  }

  ghost predicate OpeningOfBallot(w: World, roots: set<Root>, s: State) {
    && s.ballotCryptogramItem.Some?
    && exists construction :: HasLine(w, roots, s.ballotCryptogramItem.value, construction)
                              && s.voterCommitmentOpening == Some(construction.opening)
  }

  lemma OpeningStep(w: World, s: State, call: Call)
    ensures var s' := Step(w, s, call).0;
            && (BallotAccepted(w, s, call) ==>
                  && Constructs(s, call) && call.votes.Some? && call.votes.value.vote.Some?
                  && s'.ballotCryptogramItem == call.votes.value.vote)
            && (!BallotAccepted(w, s, call) ==> s'.ballotCryptogramItem == s.ballotCryptogramItem)
            && s'.voterCommitmentOpening
               == (if Constructs(s, call) then Some(call.construction.value.opening) else s.voterCommitmentOpening)
  {
  }

  lemma MoreLines(w: World, roots: set<Root>, more: set<Root>, ballot: Item, construction: Construction)
    requires HasLine(w, roots, ballot, construction)
    ensures HasLine(w, roots + more, ballot, construction)
  {
    hide Linked;
    var l :| Linked(w, roots, l) && l.ballot == ballot && l.construction == construction;
    MoreLinked(w, roots, roots + more, l);
  }

  // ---------------------------------------------------------------- which spoil request is kept

  /** spoilBallot got as far as storing the board's request. */
  predicate StoresSpoil(s: State, call: Call) {
    call.SpoilBallot? && s.voterSession.Some? && s.ballotCryptogramItem.Some? && call.spoil.Some?
  }

  /** Some spoilBallot of the run accepted this request. */
  predicate SpoilAccepted(w: World, key: Option<string>, calls: seq<Call>, request: Item) {
    calls != []
    && var n := |calls| - 1;
       || (calls[n].SpoilBallot? && Step(w, Run(w, key, calls[..n]), calls[n]).1 == Accepted(request))
       || SpoilAccepted(w, key, calls[..n], request)
  }

  /** An accepted spoil request is the tip of a chain. */
  lemma {:induction false} SpoilAcceptedLinked(w: World, key: Option<string>, calls: seq<Call>, request: Item)
    requires SpoilAccepted(w, key, calls, request)
    ensures exists l :: Linked(w, Loaded(key, calls), l)
                        && RequestLinked(w, Loaded(key, calls), l.ballot, request, SpoilBallot(None))
  {
    hide Step, Run, Linked, Receipted;
    var n := |calls| - 1;
    var roots := Loaded(key, calls[..n]);
    if calls[n].SpoilBallot? && Step(w, Run(w, key, calls[..n]), calls[n]).1 == Accepted(request) {
      AcceptedIsLinked(w, key, calls[..n], calls[n]);
      var l :| Linked(w, roots, l) && RequestLinked(w, roots, l.ballot, request, calls[n]);
      assert RequestLinked(w, roots, l.ballot, request, SpoilBallot(None));
    } else {
      SpoilAcceptedLinked(w, key, calls[..n], request);
    }
    var l :| Linked(w, roots, l) && RequestLinked(w, roots, l.ballot, request, SpoilBallot(None));
    var all := Loaded(key, calls);
    assert roots <= all;
    MoreLinked(w, roots, all, l);
    MoreRequest(w, roots, all, l.ballot, request, SpoilBallot(None));
  }

  lemma MoreRequest(w: World, roots: set<Root>, all: set<Root>, ballot: Item, request: Item, call: Call)
    requires roots <= all && RequestLinked(w, roots, ballot, request, call)
    ensures RequestLinked(w, all, ballot, request, call)
  {
  }

  /** The last spoilBallot that stored a request accepted it. */
  predicate SpoilSettled(w: World, key: Option<string>, calls: seq<Call>) {
    calls == []
    || var n := |calls| - 1;
       var s := Run(w, key, calls[..n]);
       if StoresSpoil(s, calls[n]) then Step(w, s, calls[n]).1.Accepted? else SpoilSettled(w, key, calls[..n])
  }

  /** The board does not answer with a request it already had accepted. */
  predicate NewSpoils(w: World, key: Option<string>, calls: seq<Call>) {
    calls == []
    || var n := |calls| - 1;
       && NewSpoils(w, key, calls[..n])
       && (StoresSpoil(Run(w, key, calls[..n]), calls[n]) && calls[n].spoil.value.spoilRequest.Some? ==>
             !SpoilAccepted(w, key, calls[..n], calls[n].spoil.value.spoilRequest.value))
  }

  /** The stored spoil request has been accepted exactly when the last spoilBallot that stored
      one did not throw. */
  lemma {:induction false} SpoilExactly(w: World, key: Option<string>, calls: seq<Call>)
    requires NewSpoils(w, key, calls) && Run(w, key, calls).spoilRequest.Some?
    ensures SpoilAccepted(w, key, calls, Run(w, key, calls).spoilRequest.value) <==> SpoilSettled(w, key, calls)
  {
    hide Step;
    if calls != [] {
      var n := |calls| - 1;
      var s := Run(w, key, calls[..n]);
      SpoilStep(w, s, calls[n]);
      if !StoresSpoil(s, calls[n]) { SpoilExactly(w, key, calls[..n]); }
    }
  }

  lemma SpoilStep(w: World, s: State, call: Call)
    ensures var (s', r) := Step(w, s, call);
            && s'.spoilRequest == (if StoresSpoil(s, call) then call.spoil.value.spoilRequest else s.spoilRequest)
            && (call.SpoilBallot? && r.Accepted? ==>
                  StoresSpoil(s, call) && call.spoil.value.spoilRequest == Some(r.request))
  {
  }

  // ---------------------------------------------------------------- mismatches

  function Posted(kind: string, parent: string, address: string): Item {
    Item(kind, map["commitment" := ""], parent, "", address, address, "")
  }

  /** A board whose every signature holds and which addresses items by their time stamp. */
  function ObligingWorld(): World {
    World(
      (h: Hashed) => h.registeredAt, (c: Content) => "", (s, c, k, p, y) => true, (r, s, a, y) => true,
      (m, t) => Some(""), (o, c) => true)
  }

  function FirstAttempt(): seq<Call> {
    [ Initialize(Some(Config("config", Some("key")))),
      CreateVoterRegistration(
        Some(map[]), Some(SessionResponse(Some(Posted(VOTER_SESSION_ITEM, "config", "session")), ""))),
      ConstructBallot(
        Some(Construction("", "", "")),
        Some(CommitmentResponse(
          Some(Posted(VOTER_COMMITMENT_ITEM, "session", "voter1")),
          Some(Posted(BOARD_COMMITMENT_ITEM, "voter1", "board1")), "", "")),
        Some(VoteResponse(
          Some(Posted(BALLOT_CRYPTOGRAMS_ITEM, "board1", "ballot1")), Some(Posted("", "", "")), "", true))) ]
  }

  /** The second attempt gets its commitments, then the network fails. */
  function SecondAttempt(): Call {
    ConstructBallot(
      Some(Construction("", "second", "")),
      Some(CommitmentResponse(
        Some(Posted(VOTER_COMMITMENT_ITEM, "session", "voter2")),
        Some(Posted(BOARD_COMMITMENT_ITEM, "voter2", "board2")), "", "")),
      None)
  }

  /** The first two calls, then the whole first attempt. */
  lemma FirstCalls()
    ensures var w, calls := ObligingWorld(), FirstAttempt();
            && calls[..2][..1] == calls[..1] && calls[..1][..0] == []
            && Run(w, None, []) == State(None, None, None, None, None, None, None, None, None)
            && Run(w, None, calls[..1])
               == State(None, Some(Config("config", Some("key"))), None, None, None, None, None, None, None)
            && Run(w, None, calls[..2])
               == State(None, Some(Config("config", Some("key"))),
                        Some(Posted(VOTER_SESSION_ITEM, "config", "session")), None, None, None, None, None, None)
  {
    var w, calls := ObligingWorld(), FirstAttempt();
    assert calls[..2][..1] == calls[..1] && calls[..1][..0] == [];
    var s1 := Run(w, None, calls[..1]);
    assert s1 == Step(w, Run(w, None, []), calls[0]).0;
    assert Run(w, None, calls[..2]) == Step(w, s1, calls[1]).0;
  }

  lemma AfterFirstAttempt()
    ensures var w, calls := ObligingWorld(), FirstAttempt();
            && Run(w, None, calls) == State(
                 None, Some(Config("config", Some("key"))), Some(Posted(VOTER_SESSION_ITEM, "config", "session")),
                 Some(""), Some(""), Some(""), Some(Posted(BOARD_COMMITMENT_ITEM, "voter1", "board1")),
                 Some(Posted(BALLOT_CRYPTOGRAMS_ITEM, "board1", "ballot1")), None)
            && NewCommitments(w, None, calls)
  {
    var w, calls := ObligingWorld(), FirstAttempt();
    FirstCalls();
    assert NewCommitments(w, None, calls[..1]) && NewCommitments(w, None, calls[..2]);
  }

  lemma FirstOpening()
    ensures var w, calls := ObligingWorld(), FirstAttempt();
            NewOpenings(w, None, calls) && BallotOpening(w, None, calls) == Some("")
  {
    var w, calls := ObligingWorld(), FirstAttempt();
    FirstCalls();
    assert BallotOpening(w, None, calls[..1]) == None && NewOpenings(w, None, calls[..1]);
    assert BallotOpening(w, None, calls[..2]) == None && NewOpenings(w, None, calls[..2]);
  }

  /** A spoil request accepted although the opened commitment is not the ballot's parent. */
  lemma MismatchedSpoil()
    ensures var w, calls := ObligingWorld(), FirstAttempt() + [SecondAttempt()];
            var s := Run(w, None, calls);
            var spoil := SpoilBallot(Some(SpoilResponse(Some(Posted(SPOIL_REQUEST_ITEM, "ballot1", "spoil")), "", "")));
            && Step(w, s, spoil).1.Accepted?
            && !Matching(s) && NewCommitments(w, None, calls)
  {
    hide FirstAttempt;
    var w, calls := ObligingWorld(), FirstAttempt() + [SecondAttempt()];
    AfterFirstAttempt();
    assert calls[..|calls| - 1] == FirstAttempt();
    assert Run(w, None, calls) == Step(w, Run(w, None, FirstAttempt()), SecondAttempt()).0;
  }

  /** In the same run the kept opening is not that of the stored ballot. */
  lemma MismatchedOpening()
    ensures var w, calls := ObligingWorld(), FirstAttempt() + [SecondAttempt()];
            && Run(w, None, calls).voterCommitmentOpening == Some("second")
            && BallotOpening(w, None, calls) == Some("") && NewOpenings(w, None, calls)
  {
    hide FirstAttempt;
    var w, calls := ObligingWorld(), FirstAttempt() + [SecondAttempt()];
    AfterFirstAttempt();
    FirstOpening();
    assert calls[..|calls| - 1] == FirstAttempt();
    assert Run(w, None, calls) == Step(w, Run(w, None, FirstAttempt()), SecondAttempt()).0;
  }

  /** A board's answer of the wrong kind is refused, and kept. */
  lemma UncheckedSpoil()
    ensures var w, forged := ObligingWorld(), Posted(CAST_REQUEST_ITEM, "ballot1", "spoil");
            var (s, r) := Step(w, Run(w, None, FirstAttempt()), SpoilBallot(Some(SpoilResponse(Some(forged), "", ""))));
            r.Threw? && s.spoilRequest == Some(forged)
  {
    hide FirstAttempt;
    AfterFirstAttempt();
  }

  // ---------------------------------------------------------------- the client object

  class AVClient {
    const w: World
    var dbbPublicKey: Option<string>
    var latestConfig: Option<Config>
    var voterSession: Option<Item>
    var clientEnvelopes: Option<string>
    var serverEnvelopes: Option<string>
    var voterCommitmentOpening: Option<string>
    var boardCommitment: Option<Item>
    var ballotCryptogramItem: Option<Item>
    var spoilRequest: Option<Item>
    ghost var history: seq<Call>

    ghost function Fields(): State
      reads this
    {
      State(dbbPublicKey, latestConfig, voterSession, clientEnvelopes, serverEnvelopes, voterCommitmentOpening,
            boardCommitment, ballotCryptogramItem, spoilRequest)
    }

    /** The fields are those of the run so far. */
    ghost predicate Valid(key: Option<string>)
      reads this
    {
      Fields() == Run(w, key, history)
    }

    constructor (w: World, dbbPublicKey: Option<string>)
      ensures this.w == w && history == [] && Valid(dbbPublicKey)
    {
      this.w := w;
      this.dbbPublicKey := dbbPublicKey;
      latestConfig, voterSession, clientEnvelopes, serverEnvelopes := None, None, None, None;
      voterCommitmentOpening, boardCommitment, ballotCryptogramItem, spoilRequest := None, None, None, None;
      history := [];
    }

    /** initialize: a configuration that loads replaces the earlier one. */
    method Initialize(config: Option<Config>, ghost key: Option<string>) returns (r: Outcome)
      requires Valid(key)
      modifies this
      ensures history == old(history) + [Call.Initialize(config)] && Valid(key)
      ensures (Fields(), r) == Step(w, old(Fields()), Call.Initialize(config))
    {
      history := history + [Call.Initialize(config)];
      if config.None? { return Threw; }
      latestConfig := config;
      return Returned;
    }

    method GetDbbPublicKey() returns (key: Option<string>)
      ensures key == DbbPublicKey(Fields())
    {
      if latestConfig.None? { return None; }
      var fromConfig := latestConfig.value.dbbPublicKey;
      if dbbPublicKey.Some? && dbbPublicKey.value != "" { return dbbPublicKey; }
      if fromConfig.Some? && fromConfig.value != "" { return fromConfig; }
      return None;
    }

    method CreateVoterRegistration(
      claims: Option<Content>, response: Option<SessionResponse>, ghost key: Option<string>) returns (r: Outcome)
      requires Valid(key)
      modifies this
      ensures history == old(history) + [Call.CreateVoterRegistration(claims, response)] && Valid(key)
      ensures (Fields(), r) == Step(w, old(Fields()), Call.CreateVoterRegistration(claims, response))
    {
      history := history + [Call.CreateVoterRegistration(claims, response)];
      if latestConfig.None? || claims.None? || response.None? { return Threw; }
      var expected := Expectation(VOTER_SESSION_ITEM, latestConfig.value.address, claims);
      var dbb := GetDbbPublicKey();
      if dbb.None? || response.value.voterSession.None? { return Threw; }
      var session := response.value.voterSession.value;
      if !ValidPayload(w, session, expected, dbb) { return Threw; }
      if !ValidReceipt(w, session, session, response.value.receipt, dbb.value) { return Threw; }
      voterSession := Some(session);
      return Returned;
    }

    method ConstructBallot(
      construction: Option<Construction>, commitment: Option<CommitmentResponse>, votes: Option<VoteResponse>,
      ghost key: Option<string>) returns (r: Outcome)
      requires Valid(key)
      modifies this
      ensures history == old(history) + [Call.ConstructBallot(construction, commitment, votes)] && Valid(key)
      ensures (Fields(), r) == Step(w, old(Fields()), Call.ConstructBallot(construction, commitment, votes))
    {
      hide CommitmentValid, VoteValid, Hangs, Carries, SignedAndReceipted, Receipted, Run;
      RunGrows(w, key, history, Call.ConstructBallot(construction, commitment, votes));
      history := history + [Call.ConstructBallot(construction, commitment, votes)];
      if voterSession.None? || latestConfig.None? || construction.None? { return Threw; }
      clientEnvelopes := Some(construction.value.envelopes);
      voterCommitmentOpening := Some(construction.value.opening);
      var dbb := GetDbbPublicKey();
      if dbb.None? { return Threw; }
      var submitted := SubmitVoterCommitment(
        w, commitment, voterSession.value.address, construction.value.commitment, dbb.value);
      if submitted.None? { return Threw; }
      boardCommitment := Some(submitted.value.0);
      serverEnvelopes := Some(submitted.value.1);
      var vote := SubmitBallotCryptograms(
        w, votes, construction.value.envelopes, submitted.value.1, submitted.value.0.address, dbb.value);
      if vote.None? { return Threw; }
      ballotCryptogramItem := vote;
      return if votes.value.shortAddressReadable then Returned else Threw;
    }

    method CastBallot(attachment: Option<string>, response: Option<CastResponse>, ghost key: Option<string>)
      returns (r: Outcome)
      requires Valid(key)
      modifies this`history
      ensures history == old(history) + [Call.CastBallot(attachment, response)] && Valid(key)
      ensures (Fields(), r) == Step(w, old(Fields()), Call.CastBallot(attachment, response))
    {
      history := history + [Call.CastBallot(attachment, response)];
      if voterSession.None? || ballotCryptogramItem.None? { return Threw; }
      var expected :=
        Expectation(CAST_REQUEST_ITEM, ballotCryptogramItem.value.address, Some(CastContent(attachment)));
      if response.None? || response.value.castRequest.None? { return Threw; }
      var request := response.value.castRequest.value;
      if !ValidPayload(w, request, expected, None) { return Threw; }
      var dbb := GetDbbPublicKey();
      if dbb.None? || !ValidReceipt(w, request, request, response.value.receipt, dbb.value) { return Threw; }
      return Accepted(request);
    }

    method SpoilBallot(response: Option<SpoilResponse>, ghost key: Option<string>) returns (r: Outcome)
      requires Valid(key)
      modifies this
      ensures history == old(history) + [Call.SpoilBallot(response)] && Valid(key)
      ensures (Fields(), r) == Step(w, old(Fields()), Call.SpoilBallot(response))
    {
      history := history + [Call.SpoilBallot(response)];
      if voterSession.None? || ballotCryptogramItem.None? || response.None? { return Threw; }
      var expected := Expectation(SPOIL_REQUEST_ITEM, ballotCryptogramItem.value.address, Some(map[]));
      spoilRequest := response.value.spoilRequest;
      if spoilRequest.None? || !ValidPayload(w, spoilRequest.value, expected, None) { return Threw; }
      var dbb := GetDbbPublicKey();
      if dbb.None? || !ValidReceipt(w, spoilRequest.value, spoilRequest.value, response.value.receipt, dbb.value) {
        return Threw;
      }
      if boardCommitment.None? || "commitment" !in boardCommitment.value.content { return Threw; }
      if !w.opens(response.value.boardCommitmentOpening, boardCommitment.value.content["commitment"]) { return Threw; }
      return Accepted(spoilRequest.value);
    }
  }

  /** submitVoterCommitment: the board commitment and the board's envelopes, if no check throws.
      Then the commitment is signed by the key and hangs on the session through a copy of what
      was submitted. */
  method SubmitVoterCommitment(
    w: World, r: Option<CommitmentResponse>, session: string, commitment: string, key: string)
    returns (o: Option<(Item, string)>)
    ensures o.Some? <==> r.Some? && CommitmentValid(w, r.value, session, commitment, key)
    ensures o.Some? ==> r.value.boardCommitment == Some(o.value.0) && r.value.envelopes == o.value.1
    ensures o.Some? ==>
              exists voter: Item :: Hangs(w, voter, VOTER_COMMITMENT_ITEM, session)
                              && Carries(w, voter, map["commitment" := commitment])
                              && Hangs(w, o.value.0, BOARD_COMMITMENT_ITEM, voter.address)
                              && SignedAndReceipted(w, {BoardKey(key)}, o.value.0, voter, o.value.0)
  {
    hide Hangs, Carries;
    if r.Some? { CommitmentMeans(w, r.value, session, commitment, key); }
    if r.None? { return None; }
    var item := Expectation(VOTER_COMMITMENT_ITEM, session, Some(map["commitment" := commitment]));
    if r.value.voterCommitment.None? { return None; }
    var copy := r.value.voterCommitment.value;
    if !ValidPayload(w, copy, item, None) { return None; }
    var expectation := Expectation(BOARD_COMMITMENT_ITEM, copy.address, None);
    if r.value.boardCommitment.None? { return None; }
    var board := r.value.boardCommitment.value;
    if !ValidPayload(w, board, expectation, Some(key)) { return None; }
    if !ValidReceipt(w, copy, board, r.value.receipt, key) { return None; }
    return Some((board, r.value.envelopes));
  }

  /** submitBallotCryptograms: the ballot item, if finalizing and no check throws. Then it
      hangs on the board commitment and carries the finalized cryptograms. */
  method SubmitBallotCryptograms(
    w: World, v: Option<VoteResponse>, mine: string, theirs: string, board: string, key: string)
    returns (o: Option<Item>)
    ensures o.Some? <==> w.finalize(mine, theirs).Some? && v.Some?
                         && VoteValid(w, v.value, board, w.finalize(mine, theirs).value, key)
    ensures o.Some? ==> v.value.vote == o
    ensures o.Some? ==>
              && Hangs(w, o.value, BALLOT_CRYPTOGRAMS_ITEM, board)
              && Carries(w, o.value, map["cryptograms" := w.finalize(mine, theirs).value])
              && exists last :: Receipted(w, {BoardKey(key)}, o.value, last)
  {
    var finalized := w.finalize(mine, theirs);
    if finalized.None? || v.None? { return None; }
    var item := Expectation(BALLOT_CRYPTOGRAMS_ITEM, board, Some(map["cryptograms" := finalized.value]));
    VoteMeans(w, v.value, board, finalized.value, key);
    if v.value.vote.None? { return None; }
    var copy := v.value.vote.value;
    if !ValidPayload(w, copy, item, None) { return None; }
    if v.value.verification.None? { return None; }
    if !ValidReceipt(w, copy, v.value.verification.value, v.value.receipt, key) { return None; }
    assert Receipted(w, {BoardKey(key)}, copy, v.value.verification.value);
    return Some(copy);
  }
}
