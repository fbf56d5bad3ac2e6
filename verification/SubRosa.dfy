/**
 * The RFQ commands of the Sub Rosa plugin (plugins/sub-rosa/index.ts): what each
 * decides about a record it has read, and what it does run alone.
 */
module SubRosa {
  import opened Common
  import opened Utf8
  import opened CanonicalJson

  // ---------- Records ----------

  datatype Network = Testnet | Mainnet
  datatype Protocol = CoreV2 | RevealPolicyV3

  /** Mode and schema are constants, and `itemRef` is the record's own, so they are not repeated here. */
  datatype Round = Round(
    network: Network, contractId: string, roundId: string, protocol: Protocol, revealRound: nat,
    creator: Option<string>, createTx: Option<string>, attachedAt: int)

  datatype Selection = Selection(
    provider: string, receiptHash: string, receiptUri: Option<string>, receiptVersion: nat,
    openRevealTx: string, revealTx: string, clearTx: string, notes: Option<string>, recordedAt: int)

  datatype Status = Draft | RoundAttached | ProviderSelected

  datatype Record = Record(
    terms: Rfq, itemRef: string, status: Status, createdAt: int, updatedAt: int,
    round: Option<Round>, selection: Option<Selection>, payment: Option<string>)

  type Id = seq<Unit>

  type Store = map<Id, Record>

  // ---------- Constants ----------

  /** The reviewed contract, when one is published. */
  function Deployment(network: Network, protocol: Protocol): Option<string> {
    match (network, protocol)
    case (Testnet, CoreV2) => Some("CCOVGOQQZJKZ2R55GRWBLTJTGBAMSHXZVN3ICPG3WRVMLMM6RHISC5OV")
    case (Testnet, RevealPolicyV3) => Some("CB7VIYY4RQLZG2Y6HLDWB3UKSVOAIDYFZ5TGW5AUBCIPJHTCZV4ZWQFF")
    case (Mainnet, CoreV2) => Some("CDQOFNCJE5Z4ZZL76DU5652FOUKJVEIZWHFGCZVWH63UYBGPSZIPC325")
    case (Mainnet, RevealPolicyV3) => None
  }

  const SEALED_PROPOSAL_SCHEMA := "b84a413c18205d4e45e80eff8ef29d322fbac1fd2f634b3fca9d9740c6176f6a"

  function ReceiptVersion(protocol: Protocol): nat {
    match protocol
    case CoreV2 => 2
    case RevealPolicyV3 => 3
  }

  function IntentNetwork(network: Network): string {
    match network
    case Testnet => "testnet"
    case Mainnet => "public"
  }

  const LINKABLE := {"PENDING", "SUBMITTED", "SUCCEEDED"}

  // ---------- Commands ----------

  /**
   * A field is None when its reader refuses it, and an optional field that is
   * absent is Some(None). An unexpected field counts as a refused id.
   */
  datatype Command =
    | Create(id: Option<Id>, title: Option<seq<Unit>>, description: Option<Option<seq<Unit>>>,
        commitDeadline: Option<Seconds>, revealDeadline: Option<Seconds>, itemRef: Option<string>)
    | AttachRound(id: Option<Id>, itemRef: Option<string>, schemaRef: Option<string>, network: Option<Network>,
        protocol: Option<Protocol>, contractId: Option<string>, roundId: Option<string>, mode: bool,
        revealRound: Option<nat>, creator: Option<Option<string>>, createTx: Option<Option<string>>)
    | RecordResult(id: Option<Id>, clientVerified: bool, version: Option<nat>, openRevealTx: Option<string>,
        revealTx: Option<string>, clearTx: Option<string>, provider: Option<string>, receiptHash: Option<string>,
        receiptUri: Option<Option<string>>, notes: Option<Option<string>>)
    | LinkPayment(id: Option<Id>, paymentId: Option<string>)

  datatype Intent = Intent(chain: Chain, network: string, destination: string, status: string)

  /** What a command reads besides the record: the clock, in milliseconds, and the payment intent it names. */
  datatype Readings = Readings(now: int, intent: Option<Intent>)

  datatype Error =
    | Malformed | DeadlinesOutOfOrder | DeadlinePassed | WrongItemRef | AlreadyExists
    | NotFound | HasRound | WrongSchema | NoDeployment | WrongContract
    | NoRound | HasSelection | NotVerified | TooEarly | WrongReceiptVersion | RepeatedTransaction
    | NoSelection | HasPayment | IntentNotFound | NotOnStellar | WrongNetwork | WrongDestination | NotLinkable
    | Changed

  /** `canonicalItemRef`. */
  type Hasher = Rfq -> string

  /** `Math.floor(Date.now() / 1000)`. */
  function UnixSeconds(now: int): int {
    now / 1000
  }

  /** `create-rfq`, up to the write. */
  function NewRecord(hasher: Hasher, c: Command, now: int): Result<Record, Error>
    requires c.Create?
  {
    if c.id.None? || c.title.None? || c.description.None? || c.commitDeadline.None? || c.revealDeadline.None? then
      Err(Malformed)
    else if c.commitDeadline.value >= c.revealDeadline.value then Err(DeadlinesOutOfOrder)
    else if c.commitDeadline.value <= UnixSeconds(now) then Err(DeadlinePassed)
    else if c.itemRef.None? then Err(Malformed)
    else
      var terms := Rfq(c.id.value, c.title.value, c.description.value, c.commitDeadline.value, c.revealDeadline.value);
      if c.itemRef.value != hasher(terms) then Err(WrongItemRef)
      else Ok(Record(terms, c.itemRef.value, Draft, now, now, None, None, None))
  }

  /** `attach-sub-rosa-round`, on the record it read. */
  function WithRound(c: Command, current: Record, now: int): Result<Record, Error>
    requires c.AttachRound?
  {
    if current.round.Some? then Err(HasRound)
    else if c.itemRef.None? then Err(Malformed)
    else if c.itemRef.value != current.itemRef then Err(WrongItemRef)
    else if c.schemaRef.None? then Err(Malformed)
    else if c.schemaRef.value != SEALED_PROPOSAL_SCHEMA then Err(WrongSchema)
    else if c.network.None? || c.protocol.None? || c.contractId.None? then Err(Malformed)
    else
      var reviewed := Deployment(c.network.value, c.protocol.value);
      if reviewed.None? then Err(NoDeployment)
      else if c.contractId != reviewed then Err(WrongContract)
      else if c.roundId.None? || !c.mode || c.revealRound.None? || c.creator.None? || c.createTx.None? then
        Err(Malformed)
      else Ok(current.(
        status := RoundAttached, updatedAt := now,
        round := Some(Round(c.network.value, c.contractId.value, c.roundId.value, c.protocol.value, c.revealRound.value,
                            c.creator.value, c.createTx.value, now))))
  }

  /** The round's creating transaction, when it is known, and the three steps: no two the same. */
  predicate DifferentTransactions(createTx: Option<string>, openTx: string, revealTx: string, clearTx: string) {
    && openTx != revealTx && openTx != clearTx && revealTx != clearTx
    && (createTx.Some? ==> createTx.value != openTx && createTx.value != revealTx && createTx.value != clearTx)
  }

  /** `record-result`, on the record it read. */
  function WithSelection(c: Command, current: Record, now: int): Result<Record, Error>
    requires c.RecordResult?
  {
    if current.round.None? then Err(NoRound)
    else if current.selection.Some? then Err(HasSelection)
    else if !c.clientVerified then Err(NotVerified)
    else if UnixSeconds(now) < current.terms.commitDeadline then Err(TooEarly)
    else if c.version.None? then Err(Malformed)
    else if c.version.value != ReceiptVersion(current.round.value.protocol) then Err(WrongReceiptVersion)
    else if c.openRevealTx.None? || c.revealTx.None? || c.clearTx.None? then Err(Malformed)
    else if !DifferentTransactions(current.round.value.createTx, c.openRevealTx.value, c.revealTx.value, c.clearTx.value) then
      Err(RepeatedTransaction)
    else if c.provider.None? || c.receiptHash.None? || c.receiptUri.None? || c.notes.None? then Err(Malformed)
    else Ok(current.(
      status := ProviderSelected, updatedAt := now,
      selection := Some(Selection(c.provider.value, c.receiptHash.value, c.receiptUri.value, c.version.value,
                                  c.openRevealTx.value, c.revealTx.value, c.clearTx.value, c.notes.value, now))))
  }

  /** `attach-payment-intent` before it asks for the intent: None is "ask". */
  function BeforeIntent(c: Command, current: Record): Option<Result<Record, Error>>
    requires c.LinkPayment?
  {
    if current.round.None? || current.selection.None? then Some(Err(NoSelection))
    else if c.paymentId.None? then Some(Err(Malformed))
    else if current.payment == c.paymentId then Some(Ok(current))
    else if current.payment.Some? then Some(Err(HasPayment))
    else None
  }

  /** And once it has the answer. */
  function WithPayment(c: Command, current: Record, r: Readings): Result<Record, Error>
    requires c.LinkPayment? && BeforeIntent(c, current).None?
  {
    if r.intent.None? then Err(IntentNotFound)
    else
      var intent := r.intent.value;
      if intent.chain != Stellar then Err(NotOnStellar)
      else if intent.network != IntentNetwork(current.round.value.network) then Err(WrongNetwork)
      else if intent.destination != current.selection.value.provider then Err(WrongDestination)
      else if intent.status !in LINKABLE then Err(NotLinkable)
      else Ok(current.(updatedAt := r.now, payment := c.paymentId))
  }

  // ---------- Commands run alone ----------

  datatype Answer = Answered(record: Record) | Failed(error: Error)

  /** What a command decides about the record it read: the record to answer with, written first if it differs. */
  function Decide(c: Command, current: Record, r: Readings): Result<Record, Error>
    requires !c.Create?
  {
    match c
    case AttachRound(_, _, _, _, _, _, _, _, _, _, _) => WithRound(c, current, r.now)
    case RecordResult(_, _, _, _, _, _, _, _, _, _) => WithSelection(c, current, r.now)
    case LinkPayment(_, _) =>
      if BeforeIntent(c, current).Some? then BeforeIntent(c, current).value else WithPayment(c, current, r)
  }

  /** The whole command at one instant. */
  function Alone(hasher: Hasher, store: Store, c: Command, r: Readings): (Store, Answer) {
    if c.Create? then (
      match NewRecord(hasher, c, r.now)
      case Err(e) => (store, Failed(e))
      case Ok(record) =>
        if c.id.value in store then (store, Failed(AlreadyExists))
        else (store[c.id.value := record], Answered(record)))
    else if c.id.None? then (store, Failed(Malformed))
    else if c.id.value !in store then (store, Failed(NotFound))
    else
      match Decide(c, store[c.id.value], r)
      case Err(e) => (store, Failed(e))
      case Ok(record) => (store[c.id.value := record], Answered(record))
  }

  /** What a command answers by itself: for no identifier, a missing RFQ or one that exists; else what it decides. */
  lemma AloneIs(hasher: Hasher, store: Store, c: Command, r: Readings)
    ensures var (store', answer) := Alone(hasher, store, c, r);
            var made := if c.Create? then NewRecord(hasher, c, r.now)
                        else if c.id.Some? && c.id.value in store then Decide(c, store[c.id.value], r) else Err(NotFound);
            && (answer.Answered? ==> made == Ok(answer.record) && store' == store[c.id.value := answer.record])
            && (answer.Answered? <==> made.Ok? && (c.Create? ==> c.id.value !in store))
            && (answer.Failed? ==> store' == store && !(made.Ok? && !c.Create?))
            && (answer.Failed? ==>
                  answer.error == if made.Ok? then AlreadyExists
                    else if !c.Create? && c.id.None? then Malformed else made.error)
  {
  }

  // ---------- What every write keeps ----------

  /** How far the RFQ has got. Each successful write adds one. */
  function Rank(record: Record): nat {
    (if record.round.Some? then 1 else 0) + (if record.selection.Some? then 1 else 0)
    + (if record.payment.Some? then 1 else 0)
  }

  /** The parts come in order, and `status` says exactly which are there. */
  predicate InOrder(record: Record) {
    && (record.selection.Some? ==> record.round.Some?)
    && (record.payment.Some? ==> record.selection.Some?)
    && record.status == (if record.round.None? then Draft else if record.selection.None? then RoundAttached else ProviderSelected)
  }

  /** The three contracts that were reviewed. */
  predicate Reviewed(network: Network, protocol: Protocol, contractId: string) {
    || (network == Testnet && protocol == CoreV2 && contractId == "CCOVGOQQZJKZ2R55GRWBLTJTGBAMSHXZVN3ICPG3WRVMLMM6RHISC5OV")
    || (network == Testnet && protocol == RevealPolicyV3
        && contractId == "CB7VIYY4RQLZG2Y6HLDWB3UKSVOAIDYFZ5TGW5AUBCIPJHTCZV4ZWQFF")
    || (network == Mainnet && protocol == CoreV2 && contractId == "CDQOFNCJE5Z4ZZL76DU5652FOUKJVEIZWHFGCZVWH63UYBGPSZIPC325")
  }

  /** `DEPLOYMENTS` holds those three and no other. */
  lemma DeploymentIs(network: Network, protocol: Protocol, contractId: string)
    ensures Deployment(network, protocol) == Some(contractId) <==> Reviewed(network, protocol, contractId)
    ensures Deployment(network, protocol) == None <==> network == Mainnet && protocol == RevealPolicyV3
  {
    hide Deployment, Reviewed;
    OnTestnet(protocol, contractId);
    OnMainnet(protocol, contractId);
  }

  lemma OnTestnet(protocol: Protocol, contractId: string)
    ensures Deployment(Testnet, protocol) == Some(contractId) <==> Reviewed(Testnet, protocol, contractId)
    ensures Deployment(Testnet, protocol).Some?
  {
  }

  lemma OnMainnet(protocol: Protocol, contractId: string)
    ensures Deployment(Mainnet, protocol) == Some(contractId) <==> Reviewed(Mainnet, protocol, contractId)
    ensures Deployment(Mainnet, protocol) == None <==> protocol == RevealPolicyV3
  {
  }

  predicate RoundIsReviewed(record: Record) {
    record.round.Some? ==> Reviewed(record.round.value.network, record.round.value.protocol, record.round.value.contractId)
  }

  /** A result no earlier than the commit deadline, with its protocol's receipt and four different transactions. */
  predicate SelectionIsDue(record: Record) {
    record.selection.Some? && record.round.Some? ==>
      && record.terms.commitDeadline <= record.selection.value.recordedAt / 1000
      && record.selection.value.receiptVersion == (if record.round.value.protocol == CoreV2 then 2 else 3)
      && DifferentTransactions(record.round.value.createTx, record.selection.value.openRevealTx,
           record.selection.value.revealTx, record.selection.value.clearTx)
  }

  predicate Bound(hasher: Hasher, record: Record) {
    && record.itemRef == hasher(record.terms)
    && record.createdAt / 1000 < record.terms.commitDeadline < record.terms.revealDeadline
  }

  predicate Sound(hasher: Hasher, record: Record) {
    InOrder(record) && RoundIsReviewed(record) && SelectionIsDue(record) && Bound(hasher, record)
  }

  /** `later` is `record` with more parts: what was there is there still. */
  predicate Extends(record: Record, later: Record) {
    && later.terms == record.terms && later.itemRef == record.itemRef && later.createdAt == record.createdAt
    && (record.round.Some? ==> later.round == record.round)
    && (record.selection.Some? ==> later.selection == record.selection)
    && (record.payment.Some? ==> later.payment == record.payment)
  }

  /** The part a command adds: its place in the order. */
  function PartOf(c: Command): nat {
    match c
    case Create(_, _, _, _, _, _) => 0
    case AttachRound(_, _, _, _, _, _, _, _, _, _, _) => 1
    case RecordResult(_, _, _, _, _, _, _, _, _, _) => 2
    case LinkPayment(_, _) => 3
  }

  lemma CreateGives(hasher: Hasher, c: Command, now: int)
    requires c.Create? && NewRecord(hasher, c, now).Ok?
    ensures var record := NewRecord(hasher, c, now).value;
            Sound(hasher, record) && Rank(record) == 0 && Some(record.terms.rfqId) == c.id
  {
    hide Deployment, Reviewed, DifferentTransactions;
  }

  /** `next` keeps what `current` had, stays sound and is one part further. */
  predicate OnePartMore(hasher: Hasher, current: Record, next: Record, part: nat) {
    Sound(hasher, next) && Extends(current, next) && Rank(current) + 1 == Rank(next) == part
  }

  lemma RoundKeeps(hasher: Hasher, c: Command, current: Record, now: int)
    requires c.AttachRound? && Sound(hasher, current) && WithRound(c, current, now).Ok?
    ensures OnePartMore(hasher, current, WithRound(c, current, now).value, 1)
  {
    hide Deployment, Reviewed, ReceiptVersion, DifferentTransactions;
    DeploymentIs(c.network.value, c.protocol.value, c.contractId.value);
  }

  lemma SelectionKeeps(hasher: Hasher, c: Command, current: Record, now: int)
    requires c.RecordResult? && Sound(hasher, current) && WithSelection(c, current, now).Ok?
    ensures OnePartMore(hasher, current, WithSelection(c, current, now).value, 2)
  {
    hide Deployment, Reviewed, DifferentTransactions;
  }

  lemma PaymentKeeps(hasher: Hasher, c: Command, current: Record, r: Readings)
    requires c.LinkPayment? && Sound(hasher, current) && BeforeIntent(c, current).None? && WithPayment(c, current, r).Ok?
    ensures OnePartMore(hasher, current, WithPayment(c, current, r).value, 3)
  {
    hide Deployment, Reviewed, DifferentTransactions;
  }

  /** A decision keeps the record sound, and either answers it unchanged or adds exactly the command's own part. */
  lemma DecideKeeps(hasher: Hasher, c: Command, current: Record, r: Readings)
    requires !c.Create? && Sound(hasher, current) && Decide(c, current, r).Ok?
    ensures var next := Decide(c, current, r).value;
            if next == current then c.LinkPayment? && current.payment == c.paymentId && c.paymentId.Some?
            else OnePartMore(hasher, current, next, PartOf(c))
  {
    hide WithRound, WithSelection, WithPayment, Sound, Extends;
    match c {
      case AttachRound(_, _, _, _, _, _, _, _, _, _, _) => RoundKeeps(hasher, c, current, r.now);
      case RecordResult(_, _, _, _, _, _, _, _, _, _) => SelectionKeeps(hasher, c, current, r.now);
      case LinkPayment(_, _) =>
        if BeforeIntent(c, current).None? {
          PaymentKeeps(hasher, c, current, r);
        }
    }
  }

  /** A link names an intent that was on Stellar, on the round's network, payable, and paid the chosen provider. */
  predicate Pays(record: Record, intent: Intent) {
    && record.round.Some? && record.selection.Some?
    && intent.chain == Stellar
    && (record.round.value.network == Mainnet ==> intent.network == "public")
    && (record.round.value.network == Testnet ==> intent.network == "testnet")
    && intent.destination == record.selection.value.provider
    && (intent.status == "PENDING" || intent.status == "SUBMITTED" || intent.status == "SUCCEEDED")
  }

  lemma LinkPays(c: Command, current: Record, r: Readings)
    requires c.LinkPayment? && Decide(c, current, r).Ok? && Decide(c, current, r).value != current
    ensures r.intent.Some? && Pays(Decide(c, current, r).value, r.intent.value)
  {
  }

  /** The record holds what the command sent, each value in its own place. */
  predicate HoldsSent(c: Command, record: Record, now: int) {
    match c
    case Create(id, title, description, commitDeadline, revealDeadline, itemRef) =>
      && id == Some(record.terms.rfqId) && title == Some(record.terms.title)
      && description == Some(record.terms.description) && commitDeadline == Some(record.terms.commitDeadline)
      && revealDeadline == Some(record.terms.revealDeadline) && itemRef == Some(record.itemRef)
      && record.createdAt == now
    case AttachRound(_, _, _, network, protocol, contractId, roundId, _, revealRound, creator, createTx) =>
      record.round.Some?
      && var round := record.round.value;
      && network == Some(round.network) && protocol == Some(round.protocol) && contractId == Some(round.contractId)
      && roundId == Some(round.roundId) && revealRound == Some(round.revealRound)
      && creator == Some(round.creator) && createTx == Some(round.createTx) && round.attachedAt == now
    case RecordResult(_, _, version, openRevealTx, revealTx, clearTx, provider, receiptHash, receiptUri, notes) =>
      record.selection.Some?
      && var sel := record.selection.value;
      && version == Some(sel.receiptVersion) && openRevealTx == Some(sel.openRevealTx)
      && revealTx == Some(sel.revealTx) && clearTx == Some(sel.clearTx) && provider == Some(sel.provider)
      && receiptHash == Some(sel.receiptHash) && receiptUri == Some(sel.receiptUri) && notes == Some(sel.notes)
      && sel.recordedAt == now
    case LinkPayment(_, paymentId) => paymentId.Some? && record.payment == paymentId
  }

  lemma StoresWhatWasSent(hasher: Hasher, c: Command, current: Record, r: Readings)
    ensures c.Create? && NewRecord(hasher, c, r.now).Ok? ==>
      var record := NewRecord(hasher, c, r.now).value; HoldsSent(c, record, r.now) && record.updatedAt == r.now
    ensures !c.Create? && Decide(c, current, r).Ok? && Decide(c, current, r).value != current ==>
      var record := Decide(c, current, r).value; HoldsSent(c, record, r.now) && record.updatedAt == r.now
  {
    hide Deployment, DifferentTransactions, ReceiptVersion, IntentNetwork;
  }

  /** More parts leave what was sent where it is. */
  lemma SentKept(c: Command, record: Record, later: Record, now: int)
    requires HoldsSent(c, record, now) && Extends(record, later)
    ensures HoldsSent(c, later, now)
  {
  }

  // ---------- When each command succeeds ----------

  /** `create-rfq` succeeds for fields it accepts, deadlines ahead and in order, and the reference its terms hash to. */
  lemma CreateExactly(hasher: Hasher, c: Command, now: int)
    requires c.Create?
    ensures var accepted := c.id.Some? && c.title.Some? && c.description.Some? && c.commitDeadline.Some? && c.revealDeadline.Some?;
            var made := NewRecord(hasher, c, now);
            && (made.Ok? <==>
                  && accepted && now / 1000 < c.commitDeadline.value < c.revealDeadline.value && c.itemRef.Some?
                  && c.itemRef.value == hasher(Rfq(c.id.value, c.title.value, c.description.value,
                                                   c.commitDeadline.value, c.revealDeadline.value)))
            && (made.Ok? ==>
                  made.value == Record(Rfq(c.id.value, c.title.value, c.description.value, c.commitDeadline.value,
                                           c.revealDeadline.value),
                                       c.itemRef.value, Draft, now, now, None, None, None))
            && (made.Err? ==>
                  made.error == if !accepted then Malformed
                    else if c.commitDeadline.value >= c.revealDeadline.value then DeadlinesOutOfOrder
                    else if c.commitDeadline.value <= now / 1000 then DeadlinePassed
                    else if c.itemRef.None? then Malformed else WrongItemRef)
  {
  }

  const SCHEMA_REF := "b84a413c18205d4e45e80eff8ef29d322fbac1fd2f634b3fca9d9740c6176f6a"

  /** What a round must bring: this RFQ's reference, the sealed-proposal schema, and a reviewed contract. */
  predicate RoundFits(c: Command, current: Record)
    requires c.AttachRound?
  {
    && current.round.None? && c.itemRef == Some(current.itemRef) && c.schemaRef == Some(SCHEMA_REF)
    && c.network.Some? && c.protocol.Some? && c.contractId.Some?
    && Reviewed(c.network.value, c.protocol.value, c.contractId.value)
    && c.roundId.Some? && c.mode && c.revealRound.Some? && c.creator.Some? && c.createTx.Some?
  }

  lemma RoundExactly(c: Command, current: Record, r: Readings)
    requires c.AttachRound?
    ensures Decide(c, current, r).Ok? <==> RoundFits(c, current)
    ensures RoundFits(c, current) ==>
      Decide(c, current, r).value == current.(
        status := RoundAttached, updatedAt := r.now,
        round := Some(Round(c.network.value, c.contractId.value, c.roundId.value, c.protocol.value, c.revealRound.value,
                            c.creator.value, c.createTx.value, r.now)))
    ensures Decide(c, current, r).Err? ==>
      Decide(c, current, r).error ==
        if current.round.Some? then HasRound
        else if c.itemRef.Some? && c.itemRef.value != current.itemRef then WrongItemRef
        else if c.itemRef.Some? && c.schemaRef.Some? && c.schemaRef.value != SCHEMA_REF then WrongSchema
        else if c.itemRef.None? || c.schemaRef.None? || c.network.None? || c.protocol.None? || c.contractId.None? then Malformed
        else if c.network.value == Mainnet && c.protocol.value == RevealPolicyV3 then NoDeployment
        else if !Reviewed(c.network.value, c.protocol.value, c.contractId.value) then WrongContract
        else Malformed
  {
    hide Deployment, Reviewed, SEALED_PROPOSAL_SCHEMA, SCHEMA_REF;
    SchemaIs();
    if c.network.Some? && c.protocol.Some? && c.contractId.Some? {
      DeploymentIs(c.network.value, c.protocol.value, c.contractId.value);
    }
  }

  lemma SchemaIs()
    ensures SEALED_PROPOSAL_SCHEMA == SCHEMA_REF
  {
  }

  /** What a result must bring: the client's verification, its protocol's receipt, and four different transactions. */
  predicate ResultFits(c: Command, current: Record, now: int)
    requires c.RecordResult?
  {
    && current.round.Some? && current.selection.None? && c.clientVerified && current.terms.commitDeadline <= now / 1000
    && c.version == Some(if current.round.value.protocol == CoreV2 then 2 else 3)
    && c.openRevealTx.Some? && c.revealTx.Some? && c.clearTx.Some? && Different(c, current)
    && c.provider.Some? && c.receiptHash.Some? && c.receiptUri.Some? && c.notes.Some?
  }

  predicate Different(c: Command, current: Record)
    requires c.RecordResult? && current.round.Some? && c.openRevealTx.Some? && c.revealTx.Some? && c.clearTx.Some?
  {
    var (created, first, second, third) :=
      (current.round.value.createTx, c.openRevealTx.value, c.revealTx.value, c.clearTx.value);
    first != second && second != third && third != first && created !in {Some(first), Some(second), Some(third)}
  }

  lemma ResultExactly(c: Command, current: Record, r: Readings)
    requires c.RecordResult?
    ensures Decide(c, current, r).Ok? <==> ResultFits(c, current, r.now)
    ensures ResultFits(c, current, r.now) ==>
      Decide(c, current, r).value == current.(
        status := ProviderSelected, updatedAt := r.now,
        selection := Some(Selection(c.provider.value, c.receiptHash.value, c.receiptUri.value, c.version.value,
                                    c.openRevealTx.value, c.revealTx.value, c.clearTx.value, c.notes.value, r.now)))
    ensures Decide(c, current, r).Err? ==>
      Decide(c, current, r).error ==
        if current.round.None? then NoRound
        else if current.selection.Some? then HasSelection
        else if !c.clientVerified then NotVerified
        else if r.now / 1000 < current.terms.commitDeadline then TooEarly
        else if c.version.None? then Malformed
        else if c.version.value != (if current.round.value.protocol == CoreV2 then 2 else 3) then WrongReceiptVersion
        else if c.openRevealTx.None? || c.revealTx.None? || c.clearTx.None? then Malformed
        else if !Different(c, current) then RepeatedTransaction
        else Malformed
  {
  }

  /** A link succeeds for the intent that is linked already, or for the first, if it pays the chosen provider. */
  lemma LinkExactly(c: Command, current: Record, r: Readings)
    requires c.LinkPayment?
    ensures var linkable := current.round.Some? && current.selection.Some? && c.paymentId.Some?;
            var decided := Decide(c, current, r);
            && (decided.Ok? <==>
                  linkable && (current.payment == c.paymentId
                               || (current.payment.None? && r.intent.Some? && Pays(current, r.intent.value))))
            && (decided.Ok? ==>
                  decided.value == if current.payment == c.paymentId then current
                    else current.(updatedAt := r.now, payment := c.paymentId))
            && (decided.Err? ==>
                  decided.error == if current.round.None? || current.selection.None? then NoSelection
                    else if c.paymentId.None? then Malformed
                    else if current.payment.Some? then HasPayment
                    else if r.intent.None? then IntentNotFound
                    else if r.intent.value.chain != Stellar then NotOnStellar
                    else if r.intent.value.network != (if current.round.value.network == Mainnet then "public" else "testnet") then
                      WrongNetwork
                    else if r.intent.value.destination != current.selection.value.provider then WrongDestination
                    else NotLinkable)
  {
  }
}
