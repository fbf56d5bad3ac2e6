# Verified model of the payment gateway's core

A Dafny model of the parts of the gateway whose correctness rests on
interleaving, arithmetic or encoding, with proofs of what they promise.
`dafny verify dfyconfig.toml` checks all of it.

## What is modelled

**The alias protocol** (`Alias*.dfy`). Four tables - aliases with their address
rows, challenges and recoveries - are changed by any number of requests, an
operator and a sweeper. A request is a program counter and each database statement
or transaction is one step, so a run is any interleaving of steps, clock ticks,
suspensions and sweeps. `AliasTables` has the statements, `AliasProtocol` the steps
and the system, `AliasHistory` and `AliasSafety` the invariant that ties the tables
and the requests to the log of what happened, `AliasTheorems`, `AliasCap`,
`AliasLastAddress`, `AliasDefaults` and `AliasSweep` what follows from it,
`AliasOperations` what single operations promise, and `AliasWitness` and `AliasRaces`
runs from the empty tables that show where a promise ends. `AliasService` is the
service as an object whose methods run their statements in order; each method is
proved to do what its request does in the interleaved model when nothing runs in
between. `AliasAnswers` and `AliasEffects` say what that is without the functions that
do it: who may do what, what is answered, and every table afterwards. `AliasRequests`
carries it to whole runs: what a request does, notes and answers is what it came asking
for, and only an owner's request takes an alias or changes its rows. `AliasSweeper` is
the sweep's own loop and `AliasSweepCycle` ties a cycle of it to the model's sweep;
`AliasSigning` is the text that is signed and `AliasSignedBytes` its bytes on each chain.

**The Sub Rosa plugin.** `Utf8`, `Sha256` and `Sha256Hex` are its hand-written UTF-8
and SHA-256, over JavaScript's 32-bit operators (`Bits`) and exact float64 integers,
against RFC 3629 and FIPS 180-4 (`Sha256Spec`, with the `Primes` its constants come
from). `CanonicalJson` is the JSON text it hashes and `CanonicalReader` a reader that
reads it back. `SubRosa` says what each RFQ command decides, `SubRosaRuns` runs any number
of them at once against compare-and-set, and `SubRosaStorage` has the commands as
they are written.

**Encodings and amounts.** `Base58` and `ChainAddress`, and `Units` for decimal
amounts, on positional numerals (`Radix`).

**Cache and calendar.** `ReadThroughCache` is the cache object and `CacheRuns` its
whole runs; `Calendar` is JavaScript's UTC Date, `SeriesWindow` the chart's buckets
and `SeriesRows` the rows placed on them.

## What it assumes

Signature verification is an arbitrary predicate over chain, address, message and
signature. The hash of a token is taken to be injective. Identifiers, nonces and
tokens are drawn fresh. Payment intents, clocks and what a load returns are inputs.

A challenge's message is uniquely decodable while the name, the address and the
nonce are single lines, and the service's readers let no newline through.
`AliasSigning.NewlineForges` shows that the assumption is needed.

## Where the code does not keep its promise

The migration `20260910120000_aliases` creates a unique index on
`(aliasId, network) WHERE isPrimary` and no later migration widens it to the chain,
although the service promotes an alias's first address on a chain's network to that
chain's default. `AliasDefaults.FirstOnChainRefusedExactlyWhen` gives the exact
condition: the add is answered as a duplicate if and only if the alias already has
an address on that network, which is then another chain's, and
`AliasWitness.FirstSolanaAddressIsRefused` is a run from the empty tables that ends in it.

The cap of 20 addresses is checked before the insert. `AliasCap.AddressCap` bounds an
alias by 20 + k - 1 addresses for k overlapping adds, and `AliasWitness.BoundIsReached`
gives for every k a run that reaches the bound, so two overlapping adds break the cap.

The last-address rule is checked before the removal in the same way.
`AliasLastAddress.AnAddressIsLeft` keeps it as long as no two removals of an alias are
past that check at once, whatever else overlaps, and
`AliasRaces.OverlappingRemovalsEmptyAnAlias` is a run from the empty tables in which two
are and both addresses go.

An add counts its group before it inserts, so an alias can be left with an address and
no default: `AliasRaces.ResolveCanLoseItsDefault` is a run from the empty tables after
which `resolve` lists an address and answers a null `primaryAddress`.
`AliasDefaults.TidyExactlyWhen` says for every run exactly when that, and an empty alias,
cannot happen: when each insert into a group that is empty by then brings its default,
and each removal leaves another row and hands its default on.
`AliasDefaults.TidyWithoutOverlap` is so for requests that do not overlap on the rows.

Expiry is read before the spending update, not in it, so the sweeper is invisible
only to requests that write within its grace of a day after that read.
`AliasSweep.UntimelyRequestSeesTheSweep` and `AliasSweep.UntimelyRecoverySeesTheSweep`
say for a challenge and for a recovery exactly when a sweep changes the answer.

`bucketStart` hands the year to `Date.UTC`, which reads 0 to 99 as other years:
`SeriesWindow.BucketStart` is the start of the instant's own bucket exactly outside
those.

`formatNumericAmount` keeps a superfluous zero in front: `Units.TrimmingTruncates` and
`Units.NeverMinusZero` give the exact texts for which it truncates and for which it
writes a negative zero. No sum the database writes is among the latter.

## Model

| member | source | states |
|---|---|---|
| `AliasSigning.MessageDeterminesBody` | src/aliases/alias-signing.ts:73-86 | two challenges with the same message are the same challenge in purpose, name, chain, address, network and nonce, whatever text the networks hold |
| `AliasSigning.EndingIsUnique` | src/aliases/alias-signing.ts:73-86 | a network may hold newlines of its own: the nonce is still what follows the last one |
| `AliasSigning.NewlineForges` | src/aliases/alias-signing.ts:73-86 | with a newline in the name or the address two different claims share a message, so the single-line condition is needed |
| `AliasSigning.MessageText` | src/aliases/alias-signing.ts:73-86 | the signed text line by line, each purpose and chain in its own words; a Stellar challenge names no chain |
| `AliasSignedBytes.BytesDetermineText` | src/aliases/alias-signing.ts:89-97 | the UTF-8 of a text determines it |
| `AliasSignedBytes.PreimageDeterminesBody` | src/aliases/alias-signing.ts:73-97 | two challenges have one digest preimage only if they are one challenge |
| `AliasSignedBytes.OtherDomainsDiffer` | src/aliases/alias-signing.ts:89-97 | no challenge has the preimage of a message framed under another domain |
| `AliasSignedBytes.SignedBytesDetermineBody` | src/chains/message-signature.ts:48-54 | the bytes a key signs - preimage, message or EIP-191 framing by chain - are the same for two challenges only if they are one challenge, across chains too |
| `AliasSigning.BigEndian32IsInjective` | src/aliases/alias-signing.ts:89-97 | the 32-bit length in the preimage determines the length |
| `AliasSigning.DigestPreimageIsInjective` | src/aliases/alias-signing.ts:89-97 | no two (domain, message) pairs hash the same bytes, for domains without NUL and messages below 2^32 bytes |
| `AliasSignedBytes.SignedBytesAre` | src/chains/message-signature.ts:48-54 | what each chain's key signs: domain, zero byte, big-endian length and message on Stellar, the message on Solana, the EIP-191 prefix with the decimal length and the message on Monad |
| `AliasProtocol.Step` | src/aliases/aliases.service.ts:89-845 | every statement but the last leaves a request with fewer to run, so a request that keeps running ends |
| `AliasSteps.AnyStepFollows` | src/aliases/aliases.service.ts:89-845 | any single statement: only a fresh challenge, recovery or alias appears, consumed flags only rise and only by a noted spend, attempts rise by one only below five, names never change, a row is an old one or the one registered |
| `AliasSteps.StepRows` | src/aliases/aliases.service.ts:231-466 | an alias's rows change only by a claim, a recovery, an add's insert or a removal |
| `AliasHistory.ChecksAtMostAttempts` | src/aliases/aliases.service.ts:777-806 | in any sound history the signature checks under a token are at most its counted attempts, and those at most five |
| `AliasHistory.TidsAreCount` | src/aliases/aliases.service.ts:738-845 | each request leaves each kind of note at most once, so counting notes counts requests |
| `AliasSafety.RunFollows` | src/aliases/aliases.service.ts:156-402 | whatever a request does next is allowed by the history: a spend needs a created challenge, a valid signature and a nonce never spent, a row needs the request's own spend |
| `AliasSafety.RunBacks` | src/aliases/aliases.service.ts:156-402 | what a waiting request relies on - its spent challenge, its counted token, the alias it read - is in the history after its own step |
| `AliasSafety.BackedKept` | src/aliases/aliases.service.ts:156-402 | and stays there through anyone else's step |
| `AliasSafety.RowsKept` | src/aliases/aliases.service.ts:378-402 | every address row stays traceable to a registration under its alias's name |
| `AliasSafety.RecoveriesKept` | src/aliases/aliases.service.ts:785-796 | a recovery's stored attempts stay equal to the attempts in the history |
| `AliasSafety.ChallengesKept` | src/aliases/aliases.service.ts:165-209 | a spent nonce never has an unconsumed row again |
| `AliasSafety.NamesKept` | src/aliases/aliases.service.ts:262-287 | the name index and the aliases stay each other's inverse |
| `AliasSafety.StepKeepsBound` | src/aliases/aliases.service.ts:101-130 | a challenge for an existing alias stays bound to the alias of its name and ends with it |
| `AliasSafety.ChallengeIsTargets` | src/aliases/aliases.service.ts:156-184 | so what a request is about to spend was issued for the very alias it is about, while that is there |
| `AliasSafety.InvAlways` | src/aliases/aliases.service.ts:89-845 | the invariant holds in every state of every run: requests, clock, suspensions and sweeps in any order |
| `AliasTheorems.EveryRowIsProven` | src/aliases/aliases.service.ts:156-402 | in every reachable state each address row has its own challenge, issued, then checked while it was alive and then consumed by the registering request under a signature over exactly that purpose, name, chain, address and network; a challenge that was not for a claim was issued for the very alias |
| `AliasTheorems.NonceMakesOneRow` | src/aliases/aliases.service.ts:185-218 | no two address rows ever registered, by claim, add or recovery, share a nonce |
| `AliasTheorems.NonceSpentOnce` | src/aliases/aliases.service.ts:199-217 | a nonce is consumed at most once in any run |
| `AliasTheorems.SpentWhileAlive` | src/aliases/aliases.service.ts:165-217 | in any run a challenge that was consumed had not expired when the very request that consumed it checked it |
| `AliasTheorems.OneRowPerRequest` | src/aliases/aliases.service.ts:256-402 | in any run one request registers at most one address |
| `AliasTheorems.RowIdsAreUnique` | src/aliases/aliases.service.ts:378-402 | in every reachable state two rows of one identifier are one address |
| `AliasTheorems.ConsumedForGood` | src/aliases/aliases.service.ts:199-217 | a consumed challenge never becomes unconsumed, not even when its row is deleted and others come |
| `AliasTheorems.TokenIsBounded` | src/aliases/aliases.service.ts:738-806 | in every interleaving the signature checks under one token are at most its attempts, the attempts at most five, and the stored count is the true one |
| `AliasTheorems.TokenTransfersOnce` | src/aliases/aliases.service.ts:808-818 | a token causes at most one transfer of ownership |
| `AliasTheorems.TransferIsProven` | src/aliases/aliases.service.ts:785-839 | each transfer was counted against its token and consumed its own RECOVER challenge, signed by the new address |
| `AliasTheorems.OwnerChangesByTransfer` | src/aliases/aliases.service.ts:808-839 | an alias changes owner only in a completed recovery, to the consumer who asked for it; it keeps its name and email and is left the one signed row |
| `AliasTheorems.JunkTokenWritesNothing` | src/aliases/aliases.service.ts:745-774 | a request whose token never names a live recovery of its alias is refused and changes no table in any interleaving |
| `AliasTheorems.BadSignatureWritesNothing` | src/aliases/aliases.service.ts:186-198 | from its signature check on, a request whose signature does not verify is refused and changes no table in any interleaving |
| `AliasAnswers.OnlyTheOwnerGoesOn` | src/aliases/aliases.service.ts:598-610 | adding, removing and releasing go on exactly when the alias of that name is the caller's; anyone else is told there is none and writes nothing |
| `AliasAnswers.OnlyTheMailboxGoesOn` | src/aliases/aliases.service.ts:659-670 | a recovery starts exactly for the e-mail on record of an active alias; every other request is answered alike and writes nothing |
| `AliasAnswers.OnlyActiveIsRecovered` | src/aliases/aliases.service.ts:745-756 | a recovery is completed only on an active alias |
| `AliasAnswers.SuspendedIsHeld` | src/aliases/aliases.service.ts:498-500 | a suspended alias neither resolves nor recovers, and asking writes nothing |
| `AliasRequests.EveryRequestServes` | src/aliases/aliases.service.ts:89-845 | in every state of every run what a request is about to do - name, address, challenge, signature, row, token - is what it arrived asking for |
| `AliasRequests.NotesTell` | src/aliases/aliases.service.ts:89-845 | in every run what a request notes is about its own challenge, signature, token and consumer |
| `AliasRequests.TransferIsToTheCaller` | src/aliases/aliases.service.ts:808-839 | in every run a transfer names the consumer its request arrived with, and the token and challenge that request presented |
| `AliasRequests.AnswersAreTrue` | src/aliases/aliases.service.ts:89-845 | in every run each answer is true of the tables at that moment and of its own request: a recovered alias is the caller's with the one address he asked for, an added row is there, a released alias is gone, a failure wrote nothing in its last statement |
| `AliasRequests.ActorsOwned` | src/aliases/aliases.service.ts:598-610 | in every run a request past the ownership check belongs to a consumer who owned the alias when it was found |
| `AliasRequests.OnlyForTheOwner` | src/aliases/aliases.service.ts:340-839 | in every run an alias's rows change, other than by a recovery, only by an add or a removal, and the alias goes only by a release, of a consumer who owned it when the request found it |
| `AliasCap.StepRowCount` | src/aliases/aliases.service.ts:347-402 | a step adds at most one row to an alias, and only as an add leaves the window between its count and its insert |
| `AliasCap.AddressCap` | src/aliases/aliases.service.ts:347-402 | with at most k overlapping adds of an alias it never holds more than 20 + k - 1 addresses, whatever removals and recoveries run |
| `AliasDefaults.IndexesAlways` | prisma/migrations/20260910120000_aliases/migration.sql:66-71 | in every interleaving no network of an alias has two defaults and no group an address twice |
| `AliasDefaults.PlaceKeepsTidy` | src/aliases/aliases.service.ts:374-402 | an add's demotion and insert leave every group with a default exactly when a row inserted into an empty group comes as its default |
| `AliasDefaults.RemoveCommits` | src/aliases/aliases.service.ts:446-466 | removing a row that is still there never meets the unique indexes: its slot is free for the promoted row |
| `AliasDefaults.RemoveKeepsTidy` | src/aliases/aliases.service.ts:425-466 | a removal leaves an address, and a default in every group that still has rows, exactly when another row is left and the row did not become its group's default after it was read, or nothing else is in its group |
| `AliasDefaults.TidyExactlyWhen` | src/aliases/aliases.service.ts:231-466 | in any run, whatever overlaps, an alias has an address and every group of it a default in every state exactly when each of its writes meets those two conditions when it commits |
| `AliasDefaults.TidyWithoutOverlap` | src/aliases/aliases.service.ts:231-466 | and each does if no two requests are at once between their read and their write of its rows |
| `AliasDefaults.StepLeavesRows` | src/aliases/aliases.service.ts:231-466 | only a request between its read and its write of an alias's rows changes them |
| `AliasDefaults.EveryGroupHasItsDefault` | src/aliases/aliases.service.ts:231-466 | and then it has an address and in every group exactly one default |
| `AliasDefaults.ResolveAnswersItsHead` | src/aliases/aliases.service.ts:486-510 | with a default in every group resolve lists exactly the rows asked for, and its primary address is the head of the list, or null only for an empty one |
| `AliasDefaults.ResolveNeverLosesItsDefault` | src/aliases/aliases.service.ts:486-510 | so in every state of every run whose writes to that alias meet them: an active alias always resolves, and an address listed means a primary one |
| `AliasRaces.ResolveCanLoseItsDefault` | src/aliases/aliases.service.ts:368-466 | a run from the empty tables in which an add and a removal overlap, after which resolve lists an address and no primary one |
| `AliasAnswers.ResolveIs` | src/aliases/aliases.service.ts:486-510 | resolve answers exactly for an active alias, with exactly the rows on the chain, and the network when one is named, defaults first and then by age, and the first one listed as primary when it is a default |
| `AliasLastAddress.AnAddressIsLeft` | src/aliases/aliases.service.ts:425-466 | in every state of every run in which no two removals of an alias are past their counts at once it has an address, whatever adds, recoveries and counts overlap |
| `AliasLastAddress.StepLeavesAddress` | src/aliases/aliases.service.ts:425-466 | a removal past its count leaves a row or finds its own gone, and every other write leaves one |
| `AliasLastAddress.StepKeepsAllowed` | src/aliases/aliases.service.ts:425-466 | no write but a second removal takes away what an allowed removal counted |
| `AliasRaces.OverlappingRemovalsEmptyAnAlias` | src/aliases/aliases.service.ts:425-466 | a run from the empty tables in which two removals that both counted two leave an alias without an address |
| `AliasDefaults.PlaceCommitsExactlyWhen` | src/aliases/aliases.service.ts:378-415 | the insert is refused exactly when the address is listed already or another chain's default holds the network |
| `AliasDefaults.FirstOnChainRefusedExactlyWhen` | src/aliases/aliases.service.ts:368-415 | a chain's first address is refused exactly when its network has an address of another chain |
| `AliasWitness.FirstSolanaAddressIsRefused` | src/aliases/aliases.service.ts:368-415 | a run from the empty tables in which a first Solana address beside a Stellar one is refused |
| `AliasWitness.BoundIsReached` | src/aliases/aliases.service.ts:347-402 | for every k a run from the empty tables, never with more than k overlapping adds of an alias, to one of exactly 20 + k - 1 addresses |
| `AliasOperations.IssuedIsSpendable` | src/aliases/aliases.service.ts:89-145 | an issued challenge is spendable for exactly what it was asked for, until its five minutes are over |
| `AliasOperations.NewTokenRetiresOlder` | src/aliases/aliases.service.ts:681-700 | a new recovery token is the alias's only live one, for thirty minutes |
| `AliasOperations.ReleaseForgets` | src/aliases/aliases.service.ts:591-596 | a release frees the name, leaves no challenge or recovery of the alias, and no other alias changed |
| `AliasOperations.PlacementIsExact` | src/aliases/aliases.service.ts:378-402 | an add keeps every row, takes the default flag in its own group only, and puts its row last |
| `AliasOperations.RemovalIsExact` | src/aliases/aliases.service.ts:446-466 | a removal takes out its row only, and hands its default flag to the oldest row left in the group |
| `AliasEffects.SpendingIs` | src/aliases/aliases.service.ts:156-218 | a spend is refused for a challenge not issued for exactly this, spent or expired, then for its signature, and otherwise consumes that challenge and nothing else |
| `AliasEffects.ChallengeExactly` | src/aliases/aliases.service.ts:89-145 | a challenge is issued for five minutes under the alias of its name, or refused without one when it is not for a claim |
| `AliasEffects.ClaimExactly` | src/aliases/aliases.service.ts:231-305 | a claim's whole effect and the order of its refusals: 25 aliases held, challenge, signature, name taken |
| `AliasEffects.AddExactly` | src/aliases/aliases.service.ts:340-415 | an add's whole effect for the owner: the cap of 20, the challenge, the clash with an index, the default it takes from its own group only, or a refusal with only the challenge spent |
| `AliasEffects.RemoveExactly` | src/aliases/aliases.service.ts:425-466 | a removal's whole effect: the owner's row, not the last, out, its default with the oldest left in its group, and nothing else |
| `AliasEffects.ReleaseExactly` | src/aliases/aliases.service.ts:591-610 | a release's whole effect: the owner's alias, its name, its challenges and its recoveries, and no other alias's |
| `AliasEffects.StartExactly` | src/aliases/aliases.service.ts:651-702 | a recovery's start, whole: the mailbox on record, once a minute, thirty minutes, every older token of that alias spent and no other alias's |
| `AliasEffects.CompleteExactly` | src/aliases/aliases.service.ts:738-845 | a recovery's completion, whole: a live token counted whatever the signature, then the alias with the caller, with the one signed address, the challenge and the token spent |
| `AliasEffects.GoneInBetween` | src/aliases/aliases.service.ts:89-845 | what each statement answers when its alias is gone by then, having written nothing |
| `AliasEffects.RowGoneInBetween` | src/aliases/aliases.service.ts:446-466 | the same for a row |
| `AliasEffects.SpentInBetween` | src/aliases/aliases.service.ts:199-217 | the same for a challenge or a token that was spent in between |
| `AliasEffects.HoldExactly` | prisma/schema.prisma:1464-1470 | an operator's hold sets the status of its alias and changes nothing else |
| `AliasEffects.SweepExactly` | src/aliases/alias-challenge-sweeper.service.ts:49-91 | a sweep may pick exactly the rows that expired more than a day ago, and deletes those it picks and nothing else |
| `AliasSweep.StepsAlike` | src/aliases/aliases.service.ts:165-184 | a timely statement does the same on the swept tables as on the full ones, but for a claim's first look at its challenge |
| `AliasSweep.ClaimDoomed` | src/aliases/aliases.service.ts:315-327 | there the swept system answers one statement early what the other is about to answer |
| `AliasSweep.MailedAlike` | src/aliases/aliases.service.ts:672-680 | a swept recovery is too old for the resend window |
| `AliasSweep.SweepsKeepSimilar` | src/aliases/alias-challenge-sweeper.service.ts:49-91 | the simulation, over whole runs with sweeps anywhere |
| `AliasSweep.SweepsAreInvisible` | src/aliases/alias-challenge-sweeper.service.ts:49-91 | deleting the sweeps from a timely run changes no alias, no history and no answer |
| `AliasSweep.AtomicRunsAreTimely` | src/aliases/aliases.service.ts:156-218 | runs whose clock moves only between requests are timely |
| `AliasSweep.UntimelyRequestSeesTheSweep` | src/aliases/aliases.service.ts:165-209 | a request that outwaits the grace between check and write can be refused because of a sweep, exactly when its challenge is past the cutoff |
| `AliasSweep.UntimelyRecoverySeesTheSweep` | src/aliases/aliases.service.ts:808-818 | the same for a recovery that outwaits it before its transfer |
| `AliasService.FinishIsARun` | src/aliases/aliases.service.ts:89-845 | a request run alone is a run of the system, with one draw |
| `AliasService.AliasesService.constructor` | src/aliases/aliases.service.ts:72-80 | an empty service |
| `AliasService.AliasesService.CreateChallenge` | src/aliases/aliases.service.ts:89-145 | does what its request does in the interleaved model |
| `AliasService.AliasesService.SpendChallenge` | src/aliases/aliases.service.ts:156-218 | consumes exactly the challenge issued for these coordinates, or says which check failed and changes nothing |
| `AliasService.SpendingFinishes` | src/aliases/aliases.service.ts:156-218 | the three statements of a spend, run together, are that method |
| `AliasService.AliasesService.Claim` | src/aliases/aliases.service.ts:231-305 | does what its request does in the interleaved model, and `AliasEffects.ClaimExactly` says what that is |
| `AliasService.AliasesService.AddAddress` | src/aliases/aliases.service.ts:340-415 | does what its request does in the interleaved model, rollback included, and `AliasEffects.AddExactly` says what that is |
| `AliasService.AliasesService.Place` | src/aliases/aliases.service.ts:378-415 | the transaction commits as one statement or leaves the tables alone |
| `AliasService.AliasesService.RemoveAddress` | src/aliases/aliases.service.ts:425-466 | does what its request does in the interleaved model, and `AliasEffects.RemoveExactly` says what that is |
| `AliasService.AliasesService.Release` | src/aliases/aliases.service.ts:591-596 | does what its request does, with the cascade to addresses, challenges and recoveries; `AliasEffects.ReleaseExactly` says what that is |
| `AliasService.AliasesService.IssueRecovery` | src/aliases/aliases.service.ts:651-700 | does what its request does: the older tokens spent, one new one; `AliasEffects.StartExactly` says what that is |
| `AliasService.AliasesService.CountPresentation` | src/aliases/aliases.service.ts:785-796 | counts the presentation exactly when the recovery is live and below five |
| `AliasService.AliasesService.HandOver` | src/aliases/aliases.service.ts:808-839 | the transfer commits as one statement or leaves the tables alone |
| `AliasService.AliasesService.CompleteRecovery` | src/aliases/aliases.service.ts:738-845 | does what its request does in the interleaved model, and `AliasEffects.CompleteExactly` says what that is |
| `AliasSweeper.Table.FindPage` | src/aliases/alias-challenge-sweeper.service.ts:93-108 | the page holds only expired rows, no later than any left out, and all of them if it is not full |
| `AliasSweeper.Table.SweepPage` | src/aliases/alias-challenge-sweeper.service.ts:93-108 | a turn deletes its page and touches nothing else, however other replicas race it |
| `AliasSweeper.Table.Drain` | src/aliases/alias-challenge-sweeper.service.ts:93-111 | at most 50 pages and 50 000 rows whatever the deletes return, only rows expired by the cutoff, and alone all of them or as many as a cycle may examine |
| `AliasSweepCycle.RunCycle` | src/aliases/alias-challenge-sweeper.service.ts:49-91 | a cycle, raced or not, deletes what a sweep the model allows deletes, and alone leaves no row past the cutoff unless a table filled its cycle |
| `Bits.OrAdds` | plugins/sub-rosa/index.ts:207-223 | bitwise or of disjoint bits is addition |
| `Bits.AndMask` | plugins/sub-rosa/index.ts:207-223 | masking low bits is the remainder |
| `Utf8.PointAt` | plugins/sub-rosa/index.ts:197-206 | reads a pair as its code point, and a lone surrogate as U+FFFD |
| `Utf8.PushPoint` | plugins/sub-rosa/index.ts:207-223 | the bit operations write the octets of RFC 3629, section 3 |
| `Utf8.PointReadsBack` | plugins/sub-rosa/index.ts:207-223 | those octets are well-formed by section 4 and read back as the code point |
| `Utf8.DecodeEncode` | plugins/sub-rosa/index.ts:195-227 | decoding gives back any code points that were encoded |
| `Utf8.Utf16OfCodePoints` | plugins/sub-rosa/index.ts:195-207 | the code points of well-formed text determine the text |
| `Utf8.Utf8` | plugins/sub-rosa/index.ts:195-227 | always well-formed UTF-8 that decodes to the text's code points, each lone surrogate replaced |
| `Sha256Spec.PaddingIsMinimal` | plugins/sub-rosa/index.ts:233-242 | the padding of FIPS 180-4, section 5.1.1, has the least number of zero bits |
| `Sha256Spec.PaddingIsUnique` | plugins/sub-rosa/index.ts:233-242 | and is the only one |
| `Sha256Spec.DigestIsUnique` | plugins/sub-rosa/index.ts:233-290 | so a message has at most one digest |
| `Sha256.RotrHolds` | plugins/sub-rosa/index.ts:229-231 | `rotr` rotates, on a word held signed or unsigned |
| `Sha256.SumHolds` | plugins/sub-rosa/index.ts:252-287 | `>>> 0` of an exact sum of such words is addition modulo 2^32 |
| `Sha256.Expand` | plugins/sub-rosa/index.ts:248-255 | the schedule of section 6.2.2 |
| `Sha256.RunRounds` | plugins/sub-rosa/index.ts:256-279 | the 64 rounds of section 6.2.2, every sum exact in a float64 |
| `Sha256.Pad` | plugins/sub-rosa/index.ts:234-242 | the padded buffer is the padding |
| `Sha256.Digest` | plugins/sub-rosa/index.ts:233-289 | the digest of FIPS 180-4, for every message below 2^53 bits |
| `Sha256Hex.HexDigitsSpell` | plugins/sub-rosa/index.ts:289-289 | eight hexadecimal digits that spell the word |
| `Sha256Hex.DigestTextDeterminesWords` | plugins/sub-rosa/index.ts:289-289 | 64 digits that determine the eight words |
| `Sha256Hex.DigestTextSpells` | plugins/sub-rosa/index.ts:289-289 | in the digits 0 to 9 and a to f |
| `Sha256Hex.Sha256OfText` | plugins/sub-rosa/index.ts:233-290 | the hexadecimal SHA-256 of the text's UTF-8 |
| `Sha256Hex.RoundConstants` | plugins/sub-rosa/index.ts:180-192 | the constants are the first 32 fractional bits of the cube roots of the first 64 primes, as section 4.2.2 defines them |
| `Sha256Hex.InitialHash` | plugins/sub-rosa/index.ts:244-247 | the initial hash value is the square roots' of the first eight, as section 5.3.3 defines it |
| `Primes.PrimesAreTheFirst` | plugins/sub-rosa/index.ts:180-192 | those are the first 64: all prime, in order, and no other prime before any of them |
| `CanonicalJson.StringReadsBack` | plugins/sub-rosa/index.ts:304-313 | a quoted string, with any escape, reads back as itself whatever follows it |
| `CanonicalJson.CanonicalDeterminesRfq` | plugins/sub-rosa/index.ts:297-314 | RFQs that differ in id, title, description or a deadline differ in their canonical text |
| `CanonicalJson.CanonicalWellFormed` | plugins/sub-rosa/index.ts:297-314 | the text is well-formed UTF-16, lone surrogates escaped |
| `CanonicalJson.BytesDetermineRfq` | plugins/sub-rosa/index.ts:297-314 | so they differ in the bytes that are hashed |
| `CanonicalJson.CanonicalIsShort` | plugins/sub-rosa/index.ts:547-556 | every RFQ the readers let through is far below the limit of the hash |
| `CanonicalJson.QuotesAsStringify` | plugins/sub-rosa/index.ts:297-314 | each code unit of a string is written as `JSON.stringify` does: seven short escapes, lower-case hexadecimal for other controls and lone surrogates, itself otherwise |
| `CanonicalReader.CanonicalReads` | plugins/sub-rosa/index.ts:297-314 | a JSON reader of its own reads from the text exactly the six members in the order of their keys, each with its own field, the schema's name, and null exactly for no description |
| `CanonicalReader.CanonicalItemRef` | plugins/sub-rosa/index.ts:297-314 | the reference is the hexadecimal SHA-256 of the canonical bytes, whose text a JSON reader reads back as the six members |
| `SubRosa.CreateGives` | plugins/sub-rosa/index.ts:533-588 | a created record is sound: the reference its terms hash to, its deadlines ahead and in order |
| `SubRosa.RoundKeeps` | plugins/sub-rosa/index.ts:599-673 | an attached round is on the reviewed contract, and nothing else changes |
| `SubRosa.SelectionKeeps` | plugins/sub-rosa/index.ts:676-749 | a recorded result is after the commit deadline, with its protocol's receipt and four different transactions |
| `SubRosa.DecideKeeps` | plugins/sub-rosa/index.ts:599-802 | a command answers the record as it is or adds exactly its own part, in order |
| `SubRosa.DeploymentIs` | plugins/sub-rosa/index.ts:69-83 | the three reviewed contracts, and none for reveal-policy v3 on mainnet |
| `SubRosa.CreateExactly` | plugins/sub-rosa/index.ts:533-588 | when an RFQ is created, the record, and which refusal comes first otherwise |
| `SubRosa.RoundExactly` | plugins/sub-rosa/index.ts:599-673 | when a round is attached, the whole new record, and which refusal comes first otherwise: the RFQ's own reference, the schema, the reviewed contract |
| `SubRosa.ResultExactly` | plugins/sub-rosa/index.ts:676-749 | when a result is recorded, the whole new record, and which refusal comes first otherwise: verified by the client, after the commit deadline, version 2 or 3 by protocol, four different transactions |
| `SubRosa.LinkExactly` | plugins/sub-rosa/index.ts:752-802 | when an intent is linked, the whole new record, and which refusal comes first otherwise |
| `SubRosa.AloneIs` | plugins/sub-rosa/index.ts:494-523 | a whole command: an existing identifier, a missing one or a missing RFQ is refused in its own words, a refusal writes nothing, and what is answered is what is stored |
| `SubRosaRuns.CommandsRunOneAtATime` | plugins/sub-rosa/index.ts:506-523 | any interleaving leaves the store its writes leave one at a time at their compare-and-sets, and every answer is the one its command gives alone between its arrival and its answer, or says that it lost a race it did lose |
| `SubRosaRuns.EveryAnswerIsExplained` | plugins/sub-rosa/index.ts:506-523 | every call that has its answer has exactly one place in that order, with the answer it got, the command it sent and the moment it came |
| `SubRosaRuns.RecordsAreSound` | plugins/sub-rosa/index.ts:533-802 | in every state of every run status matches the parts, the parts are in order and each meets its conditions |
| `SubRosaRuns.RfqsOnlyGrow` | plugins/sub-rosa/index.ts:506-523 | from any state on an RFQ stays, its creation fields and parts never change, and it is the same exactly while nothing writes it |
| `SubRosaRuns.NoValueRecurs` | plugins/sub-rosa/index.ts:506-523 | over any run from any state, a stored value that is the same at the end was the same all along |
| `SubRosaRuns.RankCountsWrites` | plugins/sub-rosa/index.ts:506-523 | a record's parts count its writes |
| `SubRosaRuns.AtMostFourWrites` | plugins/sub-rosa/index.ts:531-803 | at most four writes to one RFQ in any run |
| `SubRosaRuns.EachPartIsWrittenOnce` | plugins/sub-rosa/index.ts:531-803 | one creation, one round, one selection and one payment an RFQ |
| `SubRosaRuns.PartsComeInOrder` | plugins/sub-rosa/index.ts:531-803 | and in that order |
| `SubRosaRuns.WhatWasSentStays` | plugins/sub-rosa/index.ts:533-802 | in every state of every run the record of each command that wrote holds what it sent, each value in its own place, whatever was written since |
| `SubRosaRuns.PaymentsPaidTheProvider` | plugins/sub-rosa/index.ts:752-802 | in every state of every run a linked payment traces to the command that linked it and to a Stellar intent - on "public" for a round on mainnet, on "testnet" for one on testnet - that paid the provider stored still |
| `SubRosaStorage.Storage.CompareAndSet` | src/plugins/plugin-storage.service.ts:106-131 | writes exactly when the stored value is the expected one, or absent for none |
| `SubRosaStorage.Storage.Commit` | plugins/sub-rosa/index.ts:506-523 | answers the written record, or that it changed, and then writes nothing |
| `SubRosaStorage.Storage.CreateRfq` | plugins/sub-rosa/index.ts:533-597 | run alone, the command of the interleaved model |
| `SubRosaStorage.Storage.AttachSubRosaRound` | plugins/sub-rosa/index.ts:599-674 | run alone, the command of the interleaved model |
| `SubRosaStorage.Storage.StoreResult` | plugins/sub-rosa/index.ts:676-750 | run alone, the command of the interleaved model |
| `SubRosaStorage.Storage.AttachPaymentIntent` | plugins/sub-rosa/index.ts:752-802 | run alone, the command of the interleaved model: a repeated link is answered without a write; `SubRosa.LinkExactly` says when it links |
| `Base58.DecodeOfEncode` | src/chains/chain-address.ts:21-74 | decoding the encoding of any non-empty bytes gives them back, leading zeros included, up to 128 characters |
| `Base58.EncodeOfDecode` | src/chains/chain-address.ts:21-74 | encoding what any accepted string decodes to gives that string back, leading ones included |
| `Base58.DecodedDeterminesText` | src/chains/chain-address.ts:21-54 | no two accepted strings decode alike |
| `Base58.DecodesExactlyWhen` | src/chains/chain-address.ts:21-54 | exactly the texts of 1 to 128 digits and letters other than 0, I, O and l decode |
| `Base58.KeyAndSignatureLengths` | src/chains/chain-address.ts:57-82 | 32 bytes encode to 32 to 44 characters and 64 bytes to at most 88 |
| `Base58.EncodedAtLeast` | src/chains/chain-address.ts:57-74 | no encoding is shorter than its bytes |
| `Base58.EncodedAtMost` | src/chains/chain-address.ts:57-74 | if n bytes fit in t digits, no n bytes encode to more than t characters |
| `Base58.RebaseTwice` | src/chains/chain-address.ts:21-74 | changing base with leading zeros kept, and back, is the identity |
| `Base58.DecodeBase58` | src/chains/chain-address.ts:21-54 | the loops compute the change of base, or refuse the empty, the long and the foreign |
| `Base58.EncodeBase58` | src/chains/chain-address.ts:57-74 | the loops compute the change of base |
| `ChainAddress.SolanaGateLosesNothing` | src/chains/chain-address.ts:77-82 | an address is exactly a string that decodes to 32 bytes: the length gate turns none away |
| `ChainAddress.EveryKeyHasOneAddress` | src/chains/chain-address.ts:77-82 | each 32-byte key has exactly one address |
| `ChainAddress.ShapesAreDisjoint` | src/chains/chain-address.ts:123-145 | no string is an address on two chains |
| `ChainAddress.BothChainsAgree` | src/chains/chain-address.ts:158-165 | both `chainOfAddress` functions answer the one chain whose rule accepts the string, on every string |
| `ChainAddress.ToChecksumAddress` | src/chains/chain-address.ts:95-105 | the loop spells each character of any text as its hash digit says, and those past the hash as they are |
| `ChainAddress.OneSpellingPerAccount` | src/chains/chain-address.ts:89-105 | EVM addresses are stored alike exactly when they differ at most in case, and the stored spelling is kept |
| `ChainAddress.EvmShape` | src/chains/chain-address.ts:84-87 | an EVM address is exactly 0x and forty hexadecimal digits of either case |
| `ChainAddress.ChecksumRule` | src/chains/chain-address.ts:89-105 | the stored spelling is EIP-55's: a letter is in upper case exactly where the hash digit is 8 or more |
| `Units.ParseOfFormat` | src/chains/units.ts:22-44 | parsing what was formatted gives the value back, at any number of places |
| `Units.FormatOfParse` | src/chains/units.ts:22-44 | formatting what was parsed gives the one normal form of the amount, and a normal amount back unchanged |
| `Units.NormalIsUnique` | src/chains/units.ts:35-44 | one value has one normal form |
| `Units.ParsesExactlyWhen` | src/chains/units.ts:22-32 | exactly the plain decimals with few enough places parse |
| `Units.DecimalIs` | src/chains/units.ts:22-32 | a plain decimal is digits, or digits, a point and digits |
| `Units.PartsAre` | src/chains/units.ts:35-44 | the two slices are the quotient and the remainder by ten to the places |
| `Units.PlainDigits` | src/chains/units.ts:22-44 | the digits of a plain decimal are its value's, up to zeros past its own places |
| `Units.CutText` | src/common/money.ts:30-46 | cutting any plain decimal at p places, whatever zeros end it, formats its value without the digits past them |
| `Units.TrimmingTruncates` | src/common/money.ts:30-46 | for every signed decimal text trimming to p places is truncation toward zero, or leaves the amount as it is when p is past its places, exactly when the text has no superfluous zero in front |
| `Units.TrimmingFormatted` | src/common/money.ts:30-46 | so for every amount `formatUnits` writes |
| `Units.NeverMinusZero` | src/common/money.ts:43-45 | for every input the output is a negative zero exactly when the text is negative, zero up to the cut and has a superfluous zero in front; so never for a sum |
| `Units.NoAmountIsZero` | src/common/money.ts:30-46 | whatever is no decimal is "0" |
| `Units.ExtraZeroKeepsItsSign` | src/common/money.ts:43-45 | "-00.0" shows that the condition is needed |
| `Units.MinusMeansBelowZero` | src/chains/units.ts:35-44 | `formatUnits` writes a minus sign exactly for amounts below zero |
| `ReadThroughCache.Cache.constructor` | src/common/read-through-cache.ts:19-23 | an empty map |
| `ReadThroughCache.Cache.Get` | src/common/read-through-cache.ts:26-46 | the whole new map, its order included, and whose promise is returned; the eviction loop leaves the newest entries |
| `ReadThroughCache.Cache.OnRejected` | src/common/read-through-cache.ts:38-40 | the callback takes the entry away only if it is still its own |
| `ReadThroughCache.RejectTakesOnlyItsOwn` | src/common/read-through-cache.ts:38-40 | a late rejection leaves a newer entry under the same key |
| `ReadThroughCache.GetExactly` | src/common/read-through-cache.ts:26-46 | a young entry answers and moves to the end; a load takes its key's place at the end and evicts from the front until exactly the maximum are left |
| `CacheRuns.ReadsAreYoung` | src/common/read-through-cache.ts:26-46 | every read of every run returns an earlier load begun for its own key less than the ttl before, or the one it began itself: a hit never extends an entry's life |
| `CacheRuns.LoadsAreApart` | src/common/read-through-cache.ts:26-46 | a load of a key begins in a get that came the ttl or more after the load before it, unless that one had been rejected or evicted by then |
| `CacheRuns.YoungLoadsAreShared` | src/common/read-through-cache.ts:28-34 | while a load is young, neither rejected nor evicted, every get of its key returns it |
| `CacheRuns.RejectedIsNotKept` | src/common/read-through-cache.ts:38-40 | a rejected load is never returned again |
| `CacheRuns.MapIsInReadOrder` | src/common/read-through-cache.ts:28-45 | at most the maximum of keys, each once, in the order of their last reads |
| `CacheRuns.EvictsLeastRecentlyRead` | src/common/read-through-cache.ts:41-44 | what is evicted was read longer ago than anything left |
| `CacheRuns.LateRejection` | src/common/read-through-cache.ts:38-40 | in every reachable state a rejection removes its own entry and no other |
| `Calendar.YearAfter` | src/analytics/series-window.ts:13-36 | a year is 365 or 366 days by the Gregorian rule |
| `Calendar.GregorianMonths` | src/analytics/series-window.ts:13-36 | the days the setters count are the Gregorian calendar's |
| `Calendar.CivilIs` | src/analytics/series-window.ts:13-36 | the getters give the date of the day, in its month and year |
| `SeriesWindow.HeldByOneBucket` | src/analytics/series-window.ts:13-22 | every instant is in exactly one numbered bucket |
| `SeriesWindow.BucketStart` | src/analytics/series-window.ts:13-22 | the mutated Date ends at the boundary of its midnight's bucket, which is the instant's own exactly outside the years 0 to 99 |
| `SeriesWindow.TruncatedIsGreatest` | src/analytics/series-window.ts:13-22 | that boundary is the greatest not past the instant |
| `SeriesWindow.TruncatedIsIdempotent` | src/analytics/series-window.ts:13-22 | truncation is idempotent |
| `SeriesWindow.TruncatedIsMonotone` | src/analytics/series-window.ts:13-22 | truncation is monotone |
| `SeriesWindow.ShiftedBoundary` | src/analytics/series-window.ts:25-36 | shifting a bucket start by n lands on the nth boundary from it, across months, years and leap days |
| `SeriesWindow.ShiftBuckets` | src/analytics/series-window.ts:25-36 | the mutated copy is that shift and the argument is left alone |
| `SeriesWindow.ShiftsAdd` | src/analytics/series-window.ts:25-36 | shifts of a bucket start add up and undo each other |
| `SeriesWindow.BucketHoldsItsInstant` | src/analytics/series-window.ts:13-36 | an instant is from its bucket's start up to the next one |
| `SeriesWindow.SeriesWindow` | src/analytics/series-window.ts:42-53 | consecutive buckets, the last the current one: 30 days, 12 weeks, 12 months or 5 years |
| `SeriesWindow.BucketsTile` | src/analytics/series-window.ts:42-53 | each instant of the window is in exactly one bucket, and now in the last |
| `SeriesWindow.PreviousWindowMeetsThisOne` | src/analytics/series-window.ts:42-53 | the window before has as many buckets and ends where this one starts |
| `SeriesWindow.SplitsAlike` | src/analytics/analytics.service.ts:741-751 | a truncated instant is before the window exactly when the instant is |
| `SeriesRows.KeyIsItsDay` | src/analytics/series-window.ts:56-58 | two instants have one key exactly when they fall on one day, for years of four digits |
| `SeriesRows.BucketKeysDiffer` | src/analytics/series-window.ts:56-58 | different buckets have different keys |
| `SeriesRows.KeySpells` | src/analytics/series-window.ts:56-58 | the key reads back as the year, the month and the day of the month |
| `SeriesRows.LookUpIsLast` | src/analytics/series-window.ts:65-77 | of rows that share a key the last one is shown |
| `SeriesRows.FillingConserves` | src/analytics/series-window.ts:65-77 | filling loses nothing and counts nothing twice, whatever is summed |
| `SeriesRows.RowHasItsEntry` | src/analytics/series-window.ts:65-77 | each row is the item of exactly one entry |
| `SeriesRows.ChartTotalsAreTheQuerys` | src/analytics/series-window.ts:42-77 | over one window every queried row lands on a bucket and the chart's total is the query's |
| `SeriesRows.SplitRows` | src/analytics/analytics.service.ts:738-751 | the loop's three results are the rows before, the rows since and those of each key, in order |
| `SeriesRows.SplitIsByCreation` | src/analytics/analytics.service.ts:736-771 | splitting by truncated bucket is splitting by creation time |

## Left out

- Controllers, DTOs, guards, rate limits, configuration, the SQL of the analytics and their prices: wiring or data.
- The cryptography: ed25519, secp256k1, keccak and the check of a Stellar key's checksum are parameters, and the hash of tokens is taken to be injective; only the plugin's SHA-256 is computed.
- Names, addresses, e-mails and networks reach the alias model as their readers leave them, already normalised and valid.
- Consumers are identifiers: resolving them, deleting them with what they own, display names, labels, mailing and the admin lists are not part of this model.
- Addresses created in the same millisecond are ordered by insertion, and a transaction is one step.
- `AliasDefaults.EveryGroupHasItsDefault`: for runs that meet the condition of `AliasDefaults.TidyExactlyWhen`, because the service reads before it writes; `AliasRaces` has runs that do not.
- `AliasSweep.SweepsAreInvisible`: for timely runs, because expiry is read before the spending update; the untimely cases are lemmas of their own.
- `AliasSweeper.Table.Drain`: rows are known by their expiry and identifiers only, and other replicas act between its statements as one arbitrary change that deletes rows or brings unexpired ones.
- RFQ input formats: each field arrives as its reader's result, with refused fields told apart from accepted ones; the expressions themselves are not part of this model.
- The plugin storage's limit on the number of records, its listing queries and `get-rfq`.
- Clock readings within one uninterrupted stretch of a command are taken equal.
- `SubRosaRuns.CommandsRunOneAtATime`: the hash a reference is compared with is an arbitrary function of the terms; `CanonicalReader.CanonicalItemRef` computes it.
- A cache whose maximum is negative, whose eviction loop would not end, and a load that reads the cache while it begins.
- Instants past the range of a Date are not excluded, and `toLowerCase` and `toUpperCase` are those of ASCII.
- A string of the alias model is Unicode text: a lone surrogate in a network, which UTF-8 writes as U+FFFD, is not part of this model.
- `SeriesRows.KeyIsItsDay`: for years of four digits, because the key of a longer one is cut short.
- `Units.FormatOfParse`: for a non-negative number of places, as every caller passes; values a driver returns other than as text are given as the text they convert to.
