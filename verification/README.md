# Ephemera in Dafny

A Dafny 4.11 model of the protocol cores of Ephemera, a decentralised social network in which
content expires, with proofs of what those cores are meant to guarantee. Check it with

    dafny verify dfyconfig.toml

Each core is a specification in functions, the mutable code as classes and loops proved against
it, and theorems about every run:

- **Messaging** (`SymbolicCrypto`, `X3dh`, `Ratchet`, `Session`, `Conversation`, `Attempts`,
  `RatchetKeys`, `MessageNumbers`). Two session managers start with X3DH and go on with a Double
  Ratchet that keeps no skipped keys, over a network that drops, duplicates and reorders, and
  databases that may fail. All ratchet keys of both sides form one schedule on which the two sides
  are always one place apart. Main results: `BobAcceptanceRule`, `AliceAcceptanceRule`,
  `MessageKeysNeverRepeat`, `NeverOnZeroChain`, `RootsOneStepApart`, `RootMovesExactly`,
  `SameKeyExactly`, `MessagesAreNumbered`.
- **Gossip** (`Fanout`, `GossipNode`, `GossipNetwork`, `GossipTermination`, `GossipDelivery`). Eager
  push, lazy announcements, requests after a timeout. Main results: `EveryoneHasSeen`,
  `EverySubscriberHasIt`, `DeliveredWasPublished`, `AtMostOnce`, `CopiesPerPeer`, `GossipStops`,
  `Drains`.
- **Handles** (`ByteOrder`, `HandleFormat`, `HandleRegistry`, `HandleRuns`, `HandleLife`,
  `HandleOwnership`, `HandleOutcomes`, `HandleConvergence`). Four maps, local registration and
  network records. Main results: `ReverseLookupIsSound`, `InsertKeepsInverse`,
  `OneHandlePerIdentity`, `RegistrationsAreSpaced`, `ReleasedNamesCoolDown`, `RegistrationRule`,
  `OwnershipLasts`, `ReplicasConverge`.
- **Video metadata** (`Mp4Metadata`, `Mp4Theorems`, `Mp4Exact`, `Mp4Reference`). An in-place
  recursive walk over MP4 boxes and an independent checker. Main results: `CheckerAcceptsStripped`,
  `StripTwice`, `StripErasesExactly`, `ScanFindsExposed`, `CheckerAcceptsExactly`,
  `StripTwiceExactly`.
- **Lookup** (`NodeIds`, `Routing`, `RoutingContents`, `Lookup`). Kademlia's routing table and
  iterative lookup. Main results: `FindNode`, `LookupFindsNearest`, `FirstResponsesBounded`,
  `TableIdsStayUnique`, `BucketRunsStayTidy`, `OfferedIdsAreHeld`.
- **Mnemonics, proof of work** (`BitGroups`, `Numbers`, `Mnemonic`, `LeadingZeros`). Main results:
  `AcceptsExactlyGenerated`, `IndicesAreDigits`, `TestsAgreeExactly`, `ZerosBoundValue`.
- **Rate limits, framing, replicated sets, deduplication** (`RateLimit`, `Codec`, `OrSets`,
  `Dedup`). Main results: `AllowedInWindow`, `RetryRule`, `StreamIsReassembled`, `TagsAreUnique`,
  `MergesConverge`, `MarkedIsDuplicate`, `ReportedExactly`.

## Where the code and its promises differ

- `encrypt_for_peer` seals before it saves (crates/ephemera-message/src/session.rs:160-161). When the
  save fails, the caller gets an error and the next send seals another plaintext under the same
  message key (`Attempts.FailedWriteRepeatsKey`, `Attempts.RunWithRepeatedKey`).
  `Attempts.SameKeyExactly` says exactly when two boxes share a key; the key of a message that was
  handed out is never used again (`Attempts.HandedOutIsNeverUsedAgain`).
- The comment on `OrSet::merge` (crates/ephemera-crdt/src/orset.rs:97-102) says tags removed on one
  side are absent afterwards. The code takes a plain union, so merging any state that missed a
  removal undoes it: `OrSets.RemovalIsUndone` is a run, `OrSets.MergeContainsEither` says exactly
  what comes back.
- `insert_validated` can give an owner a second name; `HandleRuns.TwoNamesForOneOwner` shows it and
  `HandleRuns.InsertKeepsInverse` and `HandleRuns.OneHandlePerIdentity` say exactly when it does not.
- `gc` drops the reverse entry of every expired record's owner, even when it points at another,
  live handle (`HandleLife.CollectKeepsLookup`, `HandleLife.CollectCanHideLiveHandle`).
- A renewed handle carries 5 bits of work, which `validate` refuses everywhere
  (`HandleRuns.RenewedHandlesNeverValidate`), and loses to the original it renews
  (`HandleLife.RenewalLosesToOriginal`).
- The documentation of `strip_video_metadata` says box sizes are preserved. A 64-bit size lies where
  content is cleared and is lost in whole or in part (`Mp4Exact.HeadExact`).
- A timestamp box with a 64-bit size of 4 GiB or more keeps half of its size field, and the second
  walk can go astray (`Mp4Theorems.LargeFilesCanFail`); `Mp4Exact.CheckerAcceptsExactly` and
  `Mp4Exact.StripTwiceExactly` say exactly when. Below 2^32 bytes it never does, and video input is
  limited to 50 MiB (crates/ephemera-media/src/video_validation.rs:12).
- `encode` compares the payload length after cutting it to 32 bits
  (`Codec.FrameComesBackExactly`, `Codec.OversizedFrameIsLost`).
- `refill` reads the clock twice, and the time between the readings restores nothing. The reported
  wait is therefore enough only up to that loss (`RateLimit.RetryRule`,
  `RateLimit.PeekCanDelayRetry`).
- `has_leading_zeros` accepts an all-zero hash at any difficulty, `count_leading_zeros` counts no
  further than the hash is long (`LeadingZeros.TestsAgreeExactly`, `LeadingZeros.TestsCanDisagree`).
- `KBucket::evict_oldest` can duplicate an id (`Routing.EvictionCanDuplicate`); the table does not
  call it. `Routing.EvictKeepsDistinct` and `Routing.BucketRunsStayTidy` say exactly when ids stay
  unique.

## Model

| member | source | states |
|---|---|---|
| X3dh.AgreementHolds | crates/ephemera-message/src/x3dh.rs:71-174 | initiator and responder derive the same secret from a bundle and its initial message, with and without a one-time prekey |
| X3dh.Initiate | crates/ephemera-message/src/x3dh.rs:71-126 | the appended buffer of three or four Diffie-Hellman outputs gives the secret of the specification, and the header names the keys used |
| X3dh.Respond | crates/ephemera-message/src/x3dh.rs:136-174 | the mirrored buffer; a used one-time prekey without its secret is an error |
| X3dh.RespondFailsExactly | crates/ephemera-message/src/x3dh.rs:136-174 | responding fails if and only if a one-time prekey was used and its secret is missing |
| X3dh.AgreementNeedsSecrets | crates/ephemera-message/src/x3dh.rs:71-174 | the two sides agree if and only if the responder uses the very secrets of the bundle's keys |
| RatchetKeys.SecretBindsKeys | crates/ephemera-message/src/x3dh.rs:71-126 | the shared secret depends on every Diffie-Hellman output that goes into it and on whether there is a fourth |
| RatchetKeys.HeaderNamesKeys | crates/ephemera-message/src/x3dh.rs:110-126 | the initial message names identity, ephemeral key and the prekeys used |
| Ratchet.RatchetState.InitSender | crates/ephemera-message/src/ratchet.rs:72-92 | the initiator's first state: one root step, an all-zero receive chain |
| Ratchet.RatchetState.InitReceiver | crates/ephemera-message/src/ratchet.rs:99-110 | the responder's first state: both chains all-zero, no peer key |
| Ratchet.RatchetState.FromPersisted | crates/ephemera-message/src/ratchet.rs:114-135 | a state rebuilt from a row has exactly the row's value |
| Ratchet.RatchetState.EncryptMessage | crates/ephemera-message/src/ratchet.rs:187-208 | the header carries the counters from before the call, the box is sealed under the current message key, and the send chain moves one step |
| Ratchet.RatchetState.DecryptMessage | crates/ephemera-message/src/ratchet.rs:212-244 | the skip loop advances the receive chain to the header's number (keys on the way are thrown away), the state moves whether or not the box opens, and the result is what the derived key opens |
| Ratchet.RatchetState.DhRatchetStep | crates/ephemera-message/src/ratchet.rs:248-273 | two root steps, a new receive chain, a new key and send chain, counters reset |
| Session.SessionManager.LoadSession | crates/ephemera-message/src/session.rs:36-79 | an error exactly when the database read fails; otherwise nothing exactly when there is no row, or a fresh state with the stored value |
| Session.SessionManager.SaveSession | crates/ephemera-message/src/session.rs:82-122 | replaces one conversation's row and no other; a failing write is an error and changes nothing |
| Session.SessionManager.EncryptForPeer | crates/ephemera-message/src/session.rs:128-168 | load or initiate, encrypt, store; every error, a failing read or write included, leaves the whole table as it was |
| Session.SessionManager.DecryptFromPeer | crates/ephemera-message/src/session.rs:174-203 | load or respond, decrypt, store only on success; every error, a failing read or write included, leaves the whole table as it was |
| Conversation.BobAcceptanceRule | crates/ephemera-message/src/session.rs:128-203 | in every run over a network that drops, duplicates and reorders and a database that may fail at any call, a message decrypts at the responder if and only if his database works and it was sent after every message he accepted before (the first also needs the X3DH secret and the prekey); success returns the sealed plaintext, failure changes no stored session |
| Conversation.AliceAcceptanceRule | crates/ephemera-message/src/ratchet.rs:187-273 | the same rule, if and only if, for messages to the initiator |
| Conversation.FirstMessageNeedsSecret | crates/ephemera-message/src/session.rs:186-197 | without a session only the true prekey and the true X3DH secret open anything |
| Conversation.NextChainOpens | crates/ephemera-message/src/ratchet.rs:212-273 | a message on the peer's next chain always opens and moves the receiver two places along the joint key schedule |
| Conversation.CurrentChainOpens | crates/ephemera-message/src/ratchet.rs:222-243 | on the current chain a message opens if and only if its number was not passed |
| Conversation.OldChainStaysShut | crates/ephemera-message/src/ratchet.rs:216-243 | a message on an abandoned chain never opens |
| Conversation.StepKeepsInv | crates/ephemera-message/src/session.rs:128-203 | every send and every delivery keeps the joint invariant of both stored sessions, both logs and both acceptance records |
| Conversation.MessageKeysNeverRepeat | crates/ephemera-message/src/ratchet.rs:187-208 | over both directions, all reloads and all database failures no two messages handed out share a message key |
| Conversation.NeverOnZeroChain | crates/ephemera-message/src/ratchet.rs:72-110 | no message handed out is sealed on the all-zero chain |
| RatchetKeys.DerivationsBind | crates/ephemera-message/src/ratchet.rs:278-313 | each derivation depends on all its inputs, no two derivations ever give the same key, and none gives the zero key |
| RatchetKeys.RootsRemember | crates/ephemera-message/src/ratchet.rs:278-298 | equal roots of one X3DH secret are equally many steps on and took the same Diffie-Hellman outputs on the way |
| RatchetKeys.RootsDiffer | crates/ephemera-message/src/ratchet.rs:248-273 | in every run with both sessions the two stored roots differ |
| RatchetKeys.RootMovesExactly | crates/ephemera-message/src/ratchet.rs:248-273 | over every run a side's stored root is the same at two moments if and only if it accepted nothing on a new chain in between; no root ever comes back |
| RatchetKeys.RootsLeaveSecret | crates/ephemera-message/src/ratchet.rs:72-110 | no stored root is ever the X3DH secret |
| MessageNumbers.MessagesAreNumbered | crates/ephemera-message/src/ratchet.rs:187-273 | in every run each side's messages are numbered one by one under each of its ratchet keys, and each names how many it sent under the key before |
| Session.SessionErrors | crates/ephemera-message/src/session.rs:128-203 | which error each call gives and when; the initial header is there exactly on the first message |
| Session.StorageErrors | crates/ephemera-message/src/session.rs:128-203 | a failing read hides every other error, a failing write spoils only what would have succeeded |
| Attempts.SameKeyExactly | crates/ephemera-message/src/session.rs:160-161 | over every run and all sealed boxes, also those of sends whose write then fails: two share a key if and only if one side sealed both, it had a stored session before the first, and up to the second it stored no send and accepted nothing on a new chain |
| Attempts.RunMovesChain | crates/ephemera-message/src/ratchet.rs:187-273 | over every run a side's sending chain stays where it is exactly while it stores no send and accepts nothing on a new chain, and otherwise only moves to later messages and newer keys |
| Attempts.FailedWriteRepeatsKey | crates/ephemera-message/src/session.rs:160-161 | with a session, a send whose write fails and the next send seal two plaintexts under one key, and only the second is handed out |
| Attempts.RunWithRepeatedKey | crates/ephemera-message/src/session.rs:128-168 | a run of three sends in which that happens |
| Attempts.HandedOutIsNeverUsedAgain | crates/ephemera-message/src/session.rs:160-161 | in every run the key of a message handed out is never used by a later attempt, whether or not that one is stored |
| Attempts.SealedOffZeroChain | crates/ephemera-message/src/ratchet.rs:72-110 | no box, handed out or not, is sealed on the all-zero chain |
| Conversation.RootsOneStepApart | crates/ephemera-message/src/ratchet.rs:248-298 | once both sides have a session their root keys are exactly one Diffie-Hellman step apart |
| Fanout.SelectFanout | crates/ephemera-gossip/src/fanout.rs:56-75 | eager and lazy peers are consecutive stretches of the shuffled list, within their limits, and full when any peer is left over |
| Fanout.FullSplitCoversAll | crates/ephemera-gossip/src/fanout.rs:56-75 | whatever the shuffle, a split that leaves no one over reaches every candidate |
| GossipNode.GossipService.Publish | crates/ephemera-gossip/src/service.rs:241-323 | marks and caches the content and delivers it to the local subscriber; sends it to the eager peers, an announcement to the lazy ones and to every peer left over |
| GossipNode.GossipService.HandleFullMessage | crates/ephemera-gossip/src/service.rs:394-452 | a seen content changes nothing; a new one is marked, cached, no longer pending, delivered to a subscriber, and flooded to all peers but sender, origin and self |
| GossipNode.GossipService.HandleIHave | crates/ephemera-gossip/src/service.rs:455-483 | the first announcement of an unseen content is remembered, later ones ignored |
| GossipNode.GossipService.HandleIWant | crates/ephemera-gossip/src/service.rs:486-524 | answers from the cache or not at all |
| GossipNode.GossipService.LazyTimeoutTick | crates/ephemera-gossip/src/service.rs:538-592 | drops seen and timed-out announcements and asks for exactly the timed-out ones |
| GossipNetwork.PublishReachesPeers | crates/ephemera-gossip/src/service.rs:258-320 | every peer of a publisher gets the content or an announcement, for every shuffle and every fanout setting |
| GossipNetwork.AcceptedIsForwarded | crates/ephemera-gossip/src/service.rs:405-451 | after a node accepts a content it is seen by, or on its way to, each of its peers |
| GossipNetwork.StepKeepsInv | crates/ephemera-gossip/src/service.rs:241-594 | each step keeps: each neighbour of a node that saw a content saw it, has it pending, or has a packet for it in flight, always from a node that still caches it |
| GossipNetwork.RunsKeepInv | crates/ephemera-gossip/src/service.rs:241-594 | the invariant holds in every reachable state |
| GossipNetwork.EveryoneHasSeen | crates/ephemera-gossip/src/service.rs:241-594 | on a connected graph, in every reachable state with nothing in flight and nothing pending, every node has seen every content any node has seen |
| GossipNetwork.AtMostOnce | crates/ephemera-gossip/src/service.rs:405-451 | in every run a node's receive path sends, for one content, nothing or exactly one flood of one message to its peers without sender, origin and itself, and hands it to a subscriber at most once |
| GossipNetwork.CopiesPerPeer | crates/ephemera-gossip/src/service.rs:439-451 | so no position of the peer list gets a second copy |
| GossipDelivery.SubscribersAreServed | crates/ephemera-gossip/src/service.rs:274-283 | in every run a node's inbox holds the message of each content it holds under a subscribed topic, with its payload and origin, and nothing of another topic |
| GossipDelivery.DeliveredWasPublished | crates/ephemera-gossip/src/service.rs:428-440 | in every run whatever a subscriber got was published at its source under that topic with that payload |
| GossipDelivery.EverySubscriberHasIt | crates/ephemera-gossip/src/service.rs:241-594 | on a connected graph at quiescence everyone who subscribed to a topic has got every payload published under it alone |
| GossipDelivery.EagerPeersGetContent | crates/ephemera-gossip/src/service.rs:286-295 | the first peers of the shuffle are sent the content itself |
| GossipDelivery.OtherPeersHearOfIt | crates/ephemera-gossip/src/service.rs:297-320 | all other peers are sent the announcement |
| GossipDelivery.PublishSendsNothingElse | crates/ephemera-gossip/src/service.rs:286-320 | and nothing else is sent |
| GossipDelivery.AskedAfterTimeout | crates/ephemera-gossip/src/service.rs:538-592 | in every run content is asked for only of a node that announced it, only while unseen, and not before the timeout has passed since the announcement was delivered |
| GossipDelivery.FirstAnnouncementCounts | crates/ephemera-gossip/src/service.rs:455-483 | while content is waited for, later announcements change nothing |
| GossipDelivery.ArrivalSettlesContent | crates/ephemera-gossip/src/service.rs:405-425 | content that arrives is held as sent and no longer waited for; other content is not touched |
| GossipTermination.StepLowers | crates/ephemera-gossip/src/service.rs:394-594 | between publishes each step changes nothing or strictly lowers a measure over unseen contents, pending entries and packets in flight |
| GossipTermination.GossipStops | crates/ephemera-gossip/src/service.rs:394-594 | a run without publishes makes at most as many changes as the measure of its start |
| GossipTermination.NeverStuck | crates/ephemera-gossip/src/service.rs:528-594 | at any time a network that is not quiescent has a step, no earlier than that time, that changes it |
| GossipTermination.Drains | crates/ephemera-gossip/src/service.rs:241-594 | from every reachable state the protocol can run to quiescence with nothing published, by steps each possible in its turn and with a clock that never goes back behind anything before |
| HandleFormat.ValidateHandleFormat | crates/ephemera-social/src/handle_validation.rs:151-193 | the first broken rule in the order of the checks, with the first bad character found by the loop; lengths in UTF-8 bytes |
| HandleFormat.FormatProblemExact | crates/ephemera-social/src/handle_validation.rs:138-193 | a name passes if and only if it meets the documented rules counted in characters |
| HandleFormat.FormatErrors | crates/ephemera-social/src/handle_validation.rs:151-193 | which rule is reported for which names, with the reserved names |
| HandleRegistry.LocalRegistry.RegisterWithDifficulty | crates/ephemera-social/src/handle.rs:190-280 | all checks in order with their errors, including the evictions that a later failure leaves behind |
| HandleRegistry.LocalRegistry.RenewHandle | crates/ephemera-social/src/handle.rs:359-404 | ownership and expiry checks, then new times, new 5-bit work and a new signature |
| HandleRegistry.LocalRegistry.ReleaseHandle | crates/ephemera-social/src/handle.rs:413-443 | removes record and reverse entry and starts the cooldown |
| HandleRegistry.LocalRegistry.Insert | crates/ephemera-social/src/handle.rs:458-531 | conflict resolution and the three outcomes, with the displaced owner's reverse entry dropped |
| HandleRegistry.LocalRegistry.CollectGarbage | crates/ephemera-social/src/handle.rs:546-561 | removes exactly the expired records, their owners' reverse entries and the finished cooldowns |
| HandleRegistry.LocalRegistry.ReverseLookup | crates/ephemera-social/src/handle.rs:344-348 | reads name, then record |
| HandleRuns.ReverseLookupIsSound | crates/ephemera-social/src/handle.rs:344-348 | in every run, including registrations that fail halfway, a reverse lookup returns only handles of the owner asked about and no two owners share a name |
| HandleRuns.InsertKeepsInverse | crates/ephemera-social/src/handle.rs:495-531 | inserting a network record keeps name map and owner map exact inverses if and only if a live record that comes no later holds its name, or its owner holds no other name |
| HandleRuns.OneHandlePerIdentity | crates/ephemera-social/src/handle.rs:190-280 | over every run the two maps are exact inverses throughout if and only if every network record meets that condition when it is inserted |
| HandleRuns.TwoNamesForOneOwner | crates/ephemera-social/src/handle.rs:495-531 | without it, for any owner, a run of records that all pass validation leaves that owner with two names |
| HandleRuns.RegistrationsAreSpaced | crates/ephemera-social/src/handle.rs:218-230 | whatever the clock does, successful registrations of one identity are at least 24 hours apart |
| HandleRuns.ReleasedNamesCoolDown | crates/ephemera-social/src/handle.rs:413-443 | with a clock that does not go back, no registration of a released name succeeds within 24 hours, whatever happens in between |
| HandleRuns.RegisteredHandlesValidate | crates/ephemera-social/src/handle.rs:290-331 | a registered record validates exactly when it carries the required work and has not expired |
| HandleRuns.RenewedHandlesNeverValidate | crates/ephemera-social/src/handle.rs:359-404 | a renewed record never validates, at any time |
| HandleLife.RegisterSucceedsExactly | crates/ephemera-social/src/handle.rs:190-280 | a registration succeeds if and only if the name is well formed, signing works, the identity has no live handle and is not rate limited, and the name is neither taken nor cooling down, all judged on the registry before the call |
| HandleLife.RateLimitIsHistory | crates/ephemera-social/src/handle.rs:218-226 | in every run an identity is rate limited if and only if it registered successfully in the last 24 hours |
| HandleLife.CoolingDownIsHistory | crates/ephemera-social/src/handle.rs:244-251 | in every run with a clock that does not go back a name is cooling down if and only if it was released in the last 24 hours |
| HandleLife.RegistrationRule | crates/ephemera-social/src/handle.rs:190-280 | in every such run a registration succeeds if and only if the name is well formed and free, signing works, the identity has no live handle, and the history of the run shows no registration by the identity and no release of the name in the last 24 hours |
| HandleLife.RegisterKeepsLive | crates/ephemera-social/src/handle.rs:190-280 | whatever its outcome, a registration removes and changes no live record |
| HandleLife.RegisteredIsFound | crates/ephemera-social/src/handle.rs:254-280 | after success both lookups find the new live record |
| HandleLife.CollectKeepsLookup | crates/ephemera-social/src/handle.rs:546-561 | gc keeps an identity's live handle findable if and only if none of that identity's records has expired; otherwise the lookup finds nothing |
| HandleLife.CollectIsExact | crates/ephemera-social/src/handle.rs:546-561 | with one handle per identity gc changes no live lookup and clears all others |
| HandleLife.CollectCanHideLiveHandle | crates/ephemera-social/src/handle.rs:546-561 | without it, a run of validated records in which gc hides a live handle from its owner's lookup |
| HandleLife.RenewalLosesToOriginal | crates/ephemera-social/src/handle.rs:359-404 | where the original record is held, the renewed one is rejected if and only if the original is live and was registered no later than the renewal |
| HandleOwnership.ReleaseExactly | crates/ephemera-social/src/handle.rs:413-443 | a release succeeds if and only if the caller owns the name; then the name is gone, the cooldown runs 24 hours, and nothing else changed |
| HandleOwnership.RenewExactly | crates/ephemera-social/src/handle.rs:359-404 | a renewal succeeds if and only if signing works and the caller owns the live record; then only its times, work and signature change |
| HandleOwnership.RenewErrors | crates/ephemera-social/src/handle.rs:359-404 | which error a failing renewal gives |
| HandleOwnership.LiveRecordFate | crates/ephemera-social/src/handle.rs:190-561 | no operation changes a live record except a renewal or release by its owner or a network record that comes before it |
| HandleOwnership.OwnershipLasts | crates/ephemera-social/src/handle.rs:190-561 | over every run an owner keeps a name until it releases it, its record has expired, or a network record of another owner comes before it |
| HandleOwnership.HoldersWereBrought | crates/ephemera-social/src/handle.rs:190-531 | in every run whoever holds a name registered it, signing for it, or came with a network record |
| HandleOutcomes.RegisterErrors | crates/ephemera-social/src/handle.rs:190-280 | each registration error has its own condition on the registry before the call |
| HandleOutcomes.RateLimitTells | crates/ephemera-social/src/handle.rs:218-226 | the wait reported to a rate-limited identity and when it is reported |
| HandleOutcomes.InsertOutcomes | crates/ephemera-social/src/handle.rs:495-531 | when a network record is inserted, replaces whom, or is rejected, and what is stored then |
| HandleOutcomes.CollectKeepsExactly | crates/ephemera-social/src/handle.rs:546-561 | exactly the expired records and the finished cooldowns go |
| HandleOutcomes.ValidatesExactly | crates/ephemera-social/src/handle.rs:290-331 | a record validates if and only if it is unexpired, lasts 90 days, and signature and enough work are for this very name, owner and time |
| HandleOutcomes.ValidateErrors | crates/ephemera-social/src/handle.rs:290-331 | which error an invalid record gives |
| HandleOutcomes.RenewalLacksOnlyWork | crates/ephemera-social/src/handle.rs:359-404 | a renewed record fails validation for its work alone |
| ByteOrder.LexLessExact | crates/ephemera-social/src/handle.rs:470-478 | byte order: the first difference decides and a proper prefix comes first |
| HandleConvergence.WinnerIsFirst | crates/ephemera-social/src/handle.rs:458-531 | after any unexpired validated records, each name is held by the least of them by registration time, then owner bytes |
| HandleConvergence.ReplicasConverge | crates/ephemera-social/src/handle.rs:458-531 | two replicas given the same records in any order, with any repetition and at any times, agree on every name's owner and registration time |
| Mp4Metadata.StripBoxesRecursive | crates/ephemera-media/src/video_metadata.rs:45-90 | the in-place walk with its recursion ends and computes the functional walk: same bytes, same success |
| Mp4Metadata.StripVideoMetadata | crates/ephemera-media/src/video_metadata.rs:37-42 | a copy of the input is walked from 0 to its length |
| Mp4Metadata.StripTimestamps | crates/ephemera-media/src/video_metadata.rs:142-166 | clears 8 or 16 bytes from offset 12 by version, or nothing when the box is too short |
| Mp4Metadata.ScanForMetadataBoxes | crates/ephemera-media/src/video_metadata.rs:177-223 | the checking walk computes the functional scan |
| Mp4Metadata.VerifyMetadataStripped | crates/ephemera-media/src/video_metadata.rs:172-174 | clean exactly when the scan finds nothing |
| Mp4Metadata.HasContent | crates/ephemera-media/src/video_metadata.rs:202-210 | true exactly when some byte in the range is not zero |
| Mp4Theorems.StripFrame | crates/ephemera-media/src/video_metadata.rs:45-166 | stripping a range writes nothing before its ninth byte and nothing at or after its end |
| Mp4Theorems.StripWipesExactly | crates/ephemera-media/src/video_metadata.rs:120-166 | on success a byte is zeroed if and only if it lies after the 8-byte header of a visited udta, meta or uuid box or in the timestamp bytes of a visited mvhd or tkhd box of the input; all others keep their value |
| Mp4Reference.HeadIsBox | crates/ephemera-media/src/video_metadata.rs:45-75 | the header reader sees exactly the boxes of the format, written on the bytes: a 32-bit size, size 0 up to the end, or a 64-bit size |
| Mp4Reference.TagsDiffer | crates/ephemera-media/src/video_metadata.rs:19-90 | metadata boxes are exactly udta, meta and uuid, containers moov, trak and mdia, timestamp boxes mvhd and tkhd |
| Mp4Reference.StripErasesExactly | crates/ephemera-media/src/video_metadata.rs:45-166 | on success a byte is zeroed if and only if it is content of a udta, meta or uuid box or a creation or modification time of an mvhd or tkhd box reached through moov, trak and mdia, stated on the bytes alone |
| Mp4Reference.ScanFindsExposed | crates/ephemera-media/src/video_metadata.rs:177-223 | the checker finds something if and only if a udta, meta or uuid box reached through moov, trak and mdia has a content byte that is not zero |
| Mp4Reference.FailsExactlyCutShort | crates/ephemera-media/src/video_metadata.rs:45-60 | stripping fails if and only if a level reached ends in the middle of a 64-bit size |
| Mp4Theorems.WipedInRange | crates/ephemera-media/src/video_metadata.rs:127-166 | wiped bytes lie inside the walked range, after its first header |
| Mp4Theorems.FixedPointIsClean | crates/ephemera-media/src/video_metadata.rs:172-223 | bytes that stripping leaves alone pass the independent checker |
| Mp4Exact.HeadAfter | crates/ephemera-media/src/video_metadata.rs:45-75 | if no visited timestamp box has a 64-bit size of 4 GiB or more: after a box was handled its header reads as before or stops the walk, although its 64-bit size field may have been zeroed (the general case is HeadExact) |
| Mp4Exact.StripTwice | crates/ephemera-media/src/video_metadata.rs:37-90 | under the same condition: stripping what was stripped succeeds and changes nothing (the general case is StripTwiceExactly) |
| Mp4Exact.CheckerAcceptsTame | crates/ephemera-media/src/video_metadata.rs:172-223 | the checker accepts every successful result if no visited mvhd or tkhd box has a 64-bit size of 4 GiB or more |
| Mp4Exact.CheckerAcceptsStripped | crates/ephemera-media/src/video_metadata.rs:37-223 | in particular for every input shorter than 2^32 bytes, where stripping is also idempotent |
| Mp4Theorems.LargeFilesCanFail | crates/ephemera-media/src/video_metadata.rs:45-166 | the bound matters: a file just above 4 GiB whose stripped form the checker rejects and a second stripping changes |
| Mp4Exact.HeadExact | crates/ephemera-media/src/video_metadata.rs:45-166 | exactly what a handled box's header reads: its old size, a size that ends the level, or a 64-bit size without its low half |
| Mp4Exact.CheckerAcceptsExactly | crates/ephemera-media/src/video_metadata.rs:172-223 | for inputs of any length the checker accepts a successful result if and only if no halved 64-bit size leads the second walk to content that looks like metadata, decided on the input |
| Mp4Exact.TameNeverLeaks | crates/ephemera-media/src/video_metadata.rs:142-166 | which cannot happen unless a visited timestamp box has a 64-bit size of 4 GiB or more |
| Mp4Exact.StripTwiceExactly | crates/ephemera-media/src/video_metadata.rs:37-90 | for inputs of any length a second stripping succeeds without a change if and only if nothing a halved size leads to would be changed by it, decided on the input |
| NodeIds.XorInjective | crates/ephemera-types/src/identity.rs:184-190 | distance to a fixed target identifies the node, so the distance-keyed candidate map loses none |
| RoutingContents.XorMetric | crates/ephemera-types/src/identity.rs:184-190 | the distance is symmetric, zero exactly between equal ids, and composes |
| RoutingContents.CloserIsSmaller | crates/ephemera-types/src/identity.rs:184-190 | closer means a smaller XOR distance read as a number |
| RoutingContents.BucketIsLeadingZeros | crates/ephemera-types/src/identity.rs:195-203 | an id's bucket is the number of leading zero bits of its distance; only the own id has none |
| NodeIds.NearestIsUnique | crates/ephemera-dht/src/query.rs:119-121 | the description `the k nearest, nearest first` determines the list |
| NodeIds.TakeNearest | crates/ephemera-dht/src/query.rs:64-71 | taking the first k of a distance-ordered map gives the k nearest |
| Routing.EvictKeepsDistinct | crates/ephemera-dht/src/routing.rs:123-129 | eviction keeps the entries' ids distinct if and only if nothing is cached or the promoted id is not among the entries that stay |
| Routing.BucketRunsStayTidy | crates/ephemera-dht/src/routing.rs:94-129 | over every run of inserts and evictions on a bucket, entries and cache together stay free of duplicates throughout if and only if no full bucket is offered an id it still caches |
| Routing.CachedAgainSurfaces | crates/ephemera-dht/src/routing.rs:109-129 | the condition is needed: after such an offer, in every run from a new bucket, evictions bring two entries of one id up |
| Routing.EvictionCanDuplicate | crates/ephemera-dht/src/routing.rs:94-129 | an example with a bucket of two (the table itself never evicts) |
| RoutingContents.EvictExactly | crates/ephemera-dht/src/routing.rs:123-129 | eviction drops the oldest entry and puts the newest cached one at the back |
| RoutingContents.BucketInsertExactly | crates/ephemera-dht/src/routing.rs:94-119 | when an entry is updated, inserted or refused, where it is then, what stays and whom to ping |
| RoutingContents.UpdateKeepsOthers | crates/ephemera-dht/src/routing.rs:96-100 | the other entries stay in their order |
| RoutingContents.CacheKeepsNewest | crates/ephemera-dht/src/routing.rs:108-112 | a full cache loses only its oldest entry |
| RoutingContents.TableInsertExactly | crates/ephemera-dht/src/routing.rs:191-202 | an insert puts the entry into the table beside all ids there, unless its bucket is full without it, and then changes no entry |
| RoutingContents.OfferedIdsAreHeld | crates/ephemera-dht/src/routing.rs:191-202 | over every run of inserts each id offered is in the table or its bucket holds k ids |
| Routing.InsertsKeepTableOk | crates/ephemera-dht/src/routing.rs:94-119 | every run of inserts keeps bucket i at no more than k different ids, all at bucket distance i |
| Routing.TableIdsStayUnique | crates/ephemera-dht/src/routing.rs:191-202 | over every run of inserts into a new table ids stay unique and never include the local node |
| Routing.SortByDistance | crates/ephemera-dht/src/routing.rs:205-213 | a permutation sorted by XOR distance |
| Routing.PrefixIsNearest | crates/ephemera-dht/src/routing.rs:205-213 | the first entries of a sorted duplicate-free list are the nearest ones |
| Routing.RoutingTable.Insert | crates/ephemera-dht/src/routing.rs:191-202 | own id ignored, otherwise an insert into the bucket of that distance |
| Routing.RoutingTable.InsertIntoBucket | crates/ephemera-dht/src/routing.rs:94-119 | known id moves to the back, free room is used, a full bucket caches and names the entry to ping |
| Routing.RoutingTable.Closest | crates/ephemera-dht/src/routing.rs:205-213 | exactly the count nearest entries of the whole table, never the local node |
| Lookup.StartQuery | crates/ephemera-dht/src/query.rs:39-59 | the seeds are the k nearest entries of the table |
| Lookup.DhtQuery.NextToQuery | crates/ephemera-dht/src/query.rs:64-71 | the alpha nearest candidates not queried; empty exactly when none is left |
| Lookup.DhtQuery.ProcessFindNodeResponse | crates/ephemera-dht/src/query.rs:76-99 | records the responder, learns the new nodes, reports whether any was new and sets the finished flag |
| Lookup.DhtQuery.ClosestResults | crates/ephemera-dht/src/query.rs:119-121 | the k nearest candidates |
| Lookup.LearnAdds | crates/ephemera-dht/src/query.rs:76-99 | a response adds exactly the nodes it names other than the local one |
| Lookup.ResponseExactly | crates/ephemera-dht/src/query.rs:76-99 | a response is recorded and finishes a query that asks no one more |
| Lookup.LookupStaysOk | crates/ephemera-dht/src/query.rs:76-99 | in whatever order and however often responses arrive, only reachable nodes are learned or queried |
| Lookup.FirstResponsesBounded | crates/ephemera-dht/src/query.rs:64-99 | there are at most as many first responses as reachable nodes |
| Lookup.LookupNeverStuck | crates/ephemera-dht/src/query.rs:64-71 | the next nodes to ask are none exactly when no candidate is left, and each of them brings a first response |
| Lookup.FinishedMeansDone | crates/ephemera-dht/src/query.rs:88-111 | the finished flag is set exactly when a response came and no candidate is left |
| Lookup.FindNode | crates/ephemera-dht/src/query.rs:3-121 | the described algorithm from the routing table to the result ends, asks every node reachable from the seeds exactly once and no other, and returns exactly the k nearest of them without the local node |
| Lookup.LookupFindsNearest | crates/ephemera-dht/src/query.rs:39-121 | when no candidate is left the results are exactly the k XOR-nearest of all nodes reachable from the seeds, without the local node |
| BitGroups.GatherSpread | crates/ephemera-crypto/src/export.rs:50-69 | cutting the bits of numbers into groups of the same width gives the numbers back |
| BitGroups.SpreadGather | crates/ephemera-crypto/src/export.rs:50-69 | spreading gathered groups gives the bits back |
| Mnemonic.PushBits | crates/ephemera-crypto/src/export.rs:52-56 | the shift loop appends a number's bits, highest first |
| Mnemonic.ShiftIn | crates/ephemera-crypto/src/export.rs:63-67 | the shift-and-or loop in a register of limited width reads a group of bits as a number |
| Mnemonic.WriteMnemonic | crates/ephemera-crypto/src/export.rs:38-72 | the loops compute the regrouping of secret and checksum from 8-bit to 11-bit units |
| Mnemonic.ReadMnemonic | crates/ephemera-crypto/src/export.rs:80-133 | the loops compute the inverse regrouping with its three errors |
| Mnemonic.LookUpFinds | crates/ephemera-crypto/src/export.rs:90-99 | all lower-cased words were found where the indices say, or the first word not in the list is reported |
| Mnemonic.IndicesAreDigits | crates/ephemera-crypto/src/export.rs:50-69 | the word indices are the 24 digits in base 2048 of the number whose bytes are the secret and then the checksum |
| Mnemonic.ReadErrors | crates/ephemera-crypto/src/export.rs:80-133 | which error a list gives |
| Mnemonic.MnemonicRoundTrip | crates/ephemera-crypto/src/export.rs:38-133 | any spelling of the list generated for a secret is read back as that secret |
| Mnemonic.GeneratedIsLowered | crates/ephemera-crypto/src/export.rs:38-133 | the generated list itself is such a spelling |
| Mnemonic.AcceptedIsGenerated | crates/ephemera-crypto/src/export.rs:80-133 | what is accepted is, in lower case, the list generated for the result |
| Mnemonic.AcceptsExactlyGenerated | crates/ephemera-crypto/src/export.rs:80-133 | a list is accepted if and only if it is a spelling of some secret's generated list |
| RateLimit.RateLimiter.Check | crates/ephemera-abuse/src/rate_limit.rs:167-187 | one bucket is created if missing, refilled, and a token taken or the wait reported; other buckets stay |
| RateLimit.RateLimiter.WouldAllow | crates/ephemera-abuse/src/rate_limit.rs:190-199 | the same without taking a token |
| RateLimit.CheckPays | crates/ephemera-abuse/src/rate_limit.rs:120-145 | a call's gains cover the tokens left and the token taken |
| RateLimit.AllowedInWindow | crates/ephemera-abuse/src/rate_limit.rs:119-199 | after any calls, in every interleaving over all keys and in every time window, at most capacity + rate * length calls of one key are allowed |
| RateLimit.LimitsPerHour | crates/ephemera-abuse/src/rate_limit.rs:51-98 | the burst and the hourly limit of each action |
| RateLimit.AllowedInHour | crates/ephemera-abuse/src/rate_limit.rs:51-199 | in any hour, after whatever happened before, no more than the hourly limit is allowed |
| RateLimit.NewKeyAllowsBurst | crates/ephemera-abuse/src/rate_limit.rs:110-135 | a key not used before can do exactly its burst at once |
| RateLimit.PeekTellsCheck | crates/ephemera-abuse/src/rate_limit.rs:167-199 | `would_allow` says what `check` would answer, and neither touches another key |
| RateLimit.RetryRule | crates/ephemera-abuse/src/rate_limit.rs:138-187 | after a refusal with nothing allowed meanwhile, asking again succeeds if and only if the time waited, less the time lost between the two clock readings of each refill, restores the missing part of a token |
| RateLimit.WaitingIsEnough | crates/ephemera-abuse/src/rate_limit.rs:138-145 | so waiting the reported seconds plus the lost time is enough |
| RateLimit.EarlierIsTooSoon | crates/ephemera-abuse/src/rate_limit.rs:138-145 | and asking a second or more before the reported time is refused, whatever happens meanwhile |
| RateLimit.PeekCanDelayRetry | crates/ephemera-abuse/src/rate_limit.rs:120-124 | without the lost time the wait need not be enough: a run from an empty limiter in which a slow `would_allow` delays it |
| Codec.ByteBuffer.EncodeInto | crates/ephemera-protocol/src/codec.rs:39-52 | appends length and payload, or leaves the buffer alone on an error |
| Codec.ByteBuffer.DecodeFrom | crates/ephemera-protocol/src/codec.rs:58-86 | consumes one frame, or nothing when more data is needed or the frame is too large |
| Codec.DecodeOutcomes | crates/ephemera-protocol/src/codec.rs:58-86 | when decode asks for more, returns an envelope or gives which error, and what it consumes then |
| Codec.EncodeOutcomes | crates/ephemera-protocol/src/codec.rs:39-52 | when encode gives which error, and what it appends otherwise |
| Codec.FrameIsEncoded | crates/ephemera-protocol/src/codec.rs:39-52 | an envelope within the limit is encoded as its length and payload |
| Codec.DecodeStartOfStream | crates/ephemera-protocol/src/codec.rs:58-86 | on any beginning of a stream of frames the first envelope is returned once complete, and before that nothing is consumed |
| Codec.StreamIsReassembled | crates/ephemera-protocol/src/codec.rs:39-86 | for every cut of the stream into arrivals and every placement of decode calls, nothing fails, the envelopes returned are the first ones in order, and the rest is in the buffer or yet to arrive |
| Codec.DrainedIsComplete | crates/ephemera-protocol/src/codec.rs:58-86 | once all has arrived and decode asks for more, exactly the whole sequence was returned |
| Codec.PollsDrain | crates/ephemera-protocol/src/codec.rs:58-86 | as many calls as envelopes after the last arrival always suffice |
| Codec.FrameComesBackExactly | crates/ephemera-protocol/src/codec.rs:39-52 | of what encode accepts, a frame decodes to its envelope with nothing left if and only if the payload is within the limit before the length is cut to 32 bits |
| Codec.OversizedFrameIsLost | crates/ephemera-protocol/src/codec.rs:39-52 | a payload of 2^32 bytes is accepted by encode and not returned by decode |
| OrSets.OrSetReplica.AddValue | crates/ephemera-crdt/src/orset.rs:51-57 | the actor's counter moves on and the new tag is filed under the value |
| OrSets.OrSetReplica.RemoveValue | crates/ephemera-crdt/src/orset.rs:62-64 | drops the value's tags; true when an entry was there |
| OrSets.OrSetReplica.MergeFrom | crates/ephemera-crdt/src/orset.rs:103-131 | the two loops compute union of tags without empty sets and maximum of counters |
| OrSets.AddExactly | crates/ephemera-crdt/src/orset.rs:51-57 | an add puts one new tag to one value and moves one counter |
| OrSets.RemoveExactly | crates/ephemera-crdt/src/orset.rs:62-64 | a removal takes all tags of one value and touches nothing else |
| OrSets.MergeCommutes | crates/ephemera-crdt/src/orset.rs:103-131 | merge is commutative on the full state |
| OrSets.MergeAssociates | crates/ephemera-crdt/src/orset.rs:103-131 | merge is associative on the full state |
| OrSets.MergeIdempotent | crates/ephemera-crdt/src/orset.rs:117-122 | merging a state with itself changes nothing if and only if no value has an empty tag set |
| OrSets.MergeContainsEither | crates/ephemera-crdt/src/orset.rs:97-122 | a merge contains what either side contains; after a removal, a merge brings back exactly the tags of the other side |
| OrSets.RemovalIsUndone | crates/ephemera-crdt/src/orset.rs:97-122 | a run in which a value added, sent and removed is back after merging what was sent |
| OrSets.MergesConverge | crates/ephemera-crdt/src/orset.rs:103-131 | replicas that merged the same states in any order and any number of times are equal |
| OrSets.TagsAreUnique | crates/ephemera-crdt/src/orset.rs:51-57 | in every run of replicas with adds, removes and late, repeated or lost merges, where an actor adds only at its home, no tag is issued twice and every tag found was issued for that value |
| OrSets.ReachableMergeLaws | crates/ephemera-crdt/src/orset.rs:103-131 | on all states that occur in such runs merge is commutative, associative and idempotent |
| Dedup.MessageDedup.IsDuplicate | crates/ephemera-gossip/src/plumtree.rs:213-216 | rotates if due, then looks in both epochs |
| Dedup.MessageDedup.MarkSeen | crates/ephemera-gossip/src/plumtree.rs:219-221 | adds to the current epoch without rotating |
| Dedup.MessageDedup.MaybeRotate | crates/ephemera-gossip/src/plumtree.rs:224-229 | after 300 seconds the current set becomes the previous one |
| Dedup.MarkedIsDuplicate | crates/ephemera-gossip/src/plumtree.rs:213-229 | a hash marked at t is reported by every query before t + 300, whatever marks, queries and rotations come between |
| Dedup.ReportedExactly | crates/ephemera-gossip/src/plumtree.rs:213-229 | in every run, whatever the clock does, a query reports a hash if and only if it was marked and at most one query since, itself included, rotated |
| Dedup.EpochsLast | crates/ephemera-gossip/src/plumtree.rs:224-229 | after a rotation the next query to rotate is the first at least 300 seconds after its second clock reading |
| Dedup.UnmarkedIsNew | crates/ephemera-gossip/src/plumtree.rs:213-229 | a hash never marked is never reported, whatever the clock does |
| Dedup.ForgottenAfterTwoEpochs | crates/ephemera-gossip/src/plumtree.rs:213-229 | a hash last marked at t is not reported any more after a query at or after t + 300 and another 300 seconds later |
| LeadingZeros.HasLeadingZeros | crates/ephemera-crypto/src/pow.rs:45-63 | true exactly when the hash has that many leading zero bits or is all zero and shorter than that; up to its length, exactly when its big-endian value is below 2^(8n-d) |
| LeadingZeros.CountLeadingZeros | crates/ephemera-abuse/src/pow.rs:131-142 | the loop counts the leading zero bits |
| LeadingZeros.MaskCountsZeros | crates/ephemera-crypto/src/pow.rs:45-63 | the byte-and-mask test is the counting test, for all lengths and difficulties |
| LeadingZeros.ZerosBoundValue | crates/ephemera-abuse/src/pow.rs:131-142 | at least d leading zeros if and only if the big-endian value is below 2^(8n-d) |
| LeadingZeros.TestsAgreeExactly | crates/ephemera-crypto/src/pow.rs:45-63 | the two programs' tests agree if and only if the difficulty is within the hash length or the hash is not all zero |
| LeadingZeros.TestsCanDisagree | crates/ephemera-crypto/src/pow.rs:45-63 | 32 zero bytes pass the one test for 257 bits and not the other |

## Left out

- Cryptography: X25519, HKDF, XChaCha20-Poly1305, Ed25519, BLAKE3, SHA-256 and Argon2id are symbolic terms, parameters, or a number of bits of work done; what an attacker could forge is not modelled.
- X3DH: the Ed25519 identity keys and the prekey bundle's signature check are not modelled.
- Ratchet.RatchetState.EncryptMessage: counters are unbounded, so the 32-bit overflow after 2^32 messages on one chain is not modelled.
- Session.SessionManager.LoadSession: a database error and a malformed row are one failure of the read; SQL, row encodings, the peer key and the time columns are not modelled.
- Session.SessionManager.SaveSession: which database error occurred, the peer key and the time columns are not modelled.
- Conversation: exactly one side initiates; two simultaneous X3DH exchanges and forged messages are not modelled.
- Gossip: each handler is one atomic step, so interleavings between its lock sections are not modelled; peers and subscriptions do not change during a run, the transport is reliable, subscriber channels are never full, and senders put the payload's own hash on the wire.
- Fanout.SelectFanout: the shuffle is a parameter, any permutation of the peers.
- Handle registry: `handles_mut` (used by automatic renewal elsewhere), prefix search and display; times are unbounded, so `u64` saturation is not modelled; a proof of work is the claim it is bound to and its number of bits, and the text in `InvalidPow` is dropped.
- Mp4Metadata.StripBoxesRecursive: positions are unbounded, so overflow of `pos + size` in `usize` is not modelled.
- Mp4Exact.CheckerAcceptsTame: sufficient and not necessary above 4 GiB; the exact condition is Mp4Exact.CheckerAcceptsExactly.
- Mp4Exact.HeadAfter: needs the size condition; Mp4Exact.HeadExact does not.
- Mp4Exact.StripTwice: needs the size condition; Mp4Exact.StripTwiceExactly does not.
- Conversation.MessageKeysNeverRepeat: speaks of messages handed out; boxes of sends that fail to store are the subject of Attempts.SameKeyExactly.
- Conversation.NeverOnZeroChain: speaks of messages handed out; all boxes are covered by Attempts.SealedOffZeroChain.
- Routing.RoutingTable.Insert: buckets are values owned by the table; liveness fields other than the time last seen, and staleness, are not modelled.
- Lookup: `find_value` results, and nodes that never answer; a lookup is over when every candidate has answered.
- Mnemonic.ReadMnemonic: the word list, the checksum and lower-casing are parameters; the list has 2048 different lower-case words. The QR and encrypted backup formats are not modelled.
- RateLimit.RateLimiter.Check: tokens are reals, so floating-point rounding is not modelled; `clear_identity` and `clear_all` are left out.
- Codec.ByteBuffer.DecodeFrom: the JSON serializer is a parameter that reads back what it wrote.
- OrSets.OrSetReplica.AddValue: counters are unbounded; `elements` and `len` only filter and count.
- LeadingZeros: the search loops that generate stamps, and the difficulty adjustment.
- Plumtree topic state, epoch keys, grow-only counters, registers, DHT storage, chunking, group roles, moderation lists, reputation: small rules about sets and maps, left out.
- Node wiring, background loops, RPC, user interfaces and configuration.
