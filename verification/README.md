# FleetingDNS: verified models of its state-and-time logic

FleetingDNS gives a developer a short-lived tunnel: a name under a root domain, a port, a
certificate and DNS records, all of which end by themselves. Most of what can go wrong in it
is about time: leases, windows, grace periods and caches that run out at slightly different
moments. This project models that logic in Dafny and proves what holds over every run.

Five parts are covered.

* **Admission control.** A sliding-window limiter for connections (`DdosProtection`,
  `DdosRuns`, `DdosTracking`) and a fixed-window limiter for API requests (`IpRateLimit`,
  `IpRateHistory`), both with blocking and removal of old entries.
* **Certificates.** The issuance limiter of the certificate authority with its check and its
  record as separate steps (`CaLimiter`, `CaInterleaving`, `CaOvershoot`), the rotation of the router's
  wildcard certificate within that limit (`WildcardRotation`), and the registry of issued
  certificates in front of a durable store (`CertificateRegistry`).
* **Tunnel storage.** Records, user lists, subdomain claims and DNS slots in Redis
  (`TunnelStorage`, `TunnelIndexes`, `TunnelAnswers`, `TunnelClaims`), the scan by which the
  router finds a tunnel (`TunnelRouting`), and the port allocator, sequentially and with every probe a step
  of its own (`PortAllocator`, `PortLeases`, `PortStarvation`).
* **The edge router.** The bounded reader of a request head (section 2.1 of RFC 9112), the
  cookie search, the session gate and the replay (`RequestHead`, `SessionGate`,
  `CookieRoundTrip`).
* **DNSSEC.** Signing keys with rotation, grace period and signature cache behind the RRSIG
  records of section 3.1 of RFC 4034 (`DnssecKeys`, `DnssecRuns`, `DnssecRetention`,
  `DnssecKeyCount`), and the validator's statistics (`ValidationStats`, `AverageExactness`).

`Basics`, `Redis`, `SpacedLogs` and `Arithmetic` hold what they share: runs and clocks, keys
with a deadline, counting the events of a log in a time interval, and facts about products
and quotients.

## How it is built

State that the program updates in place is a class. Each method is proved to do what a
function on values says: `ensures (Value(), result) == F(old(Value()), ...)`. A run is a list
of such operations, each with its clock reading; the theorems are about the state that
function reaches after *any* run whose clock does not go back. Times are integers in
nanoseconds.

Modelling decisions:

* Every method is atomic and reads the clock once, with these exceptions. The certificate
  manager reads it up to four times per call, a key rotation twice: when it makes and ages
  keys, and when it notes that it is done. The CA limiter and the port allocator are also
  modelled step by step, interleaved with other requests.
* Redis is a map from key to value and deadline; a key is live strictly before its deadline.
  Redis refuses an expiry below one second, which the storage reports as an error before it
  has written anything.
* The message authentication code, key material, serial numbers, start ports, measured
  durations, dial results and the splitting of a byte stream into reads are parameters; the
  theorems hold for all of them.
* The edge router finds a tunnel by scanning the lists of all users
  (`crates/common/src/redis/tunnel.rs:265-339`, called at `cmd/edgehub-bin/src/main.rs:145`),
  not by the claim of the subdomain, which only decides whether a subdomain is available
  (`crates/backendapi/src/storage.rs:420-423`). Both look-ups are modelled and compared. The
  same scan in `crates/edgehub/src/redis.rs` is not compiled into its crate.

## Guarantees that fail, and exactly when

Each of these is something a caller would expect; the named results show an input for which
the code does not provide it and the condition under which it does.

* Ports are exclusive only if owners release in time: `release_port` deletes the key whoever
  holds it by now (`LateReleaseBreaksExclusivity`, `ReleaseIsSafeExactly`).
* Whether a port scan can fail is not decided by any single moment. It can fail although at
  most one port is ever taken at a time; what counts is whether 1000 different ports are taken
  during the scan (`OnePortCanStarve`, `ScansSucceedExactly`).
* A block of the API limiter longer than 59 minutes can be cut short by a clean-up, because
  a clean-up removes entries whose window began an hour ago, blocked or not
  (`HonoursBlocksExactly`).
* The API limiter admits up to 2 max - 1 requests in 60 seconds, and no more
  (`FixedWindowBound`, `BurstIsReached`).
* With parallel requests the CA limiter overshoots by exactly the number of additional
  requests in flight, and a limit of zero still admits one (`InterleavingBound`,
  `OvershootIsReached`, `HourlyBoundIsReached`).
* The wildcard certificate can be refused by the limiter if the delay between generating and
  recording a certificate is not allowed for (`NeverLimitedExactly`).
* A store that is rejected because the subdomain is taken has already written its record and
  list entry, so the router may send the viewers of the tunnel that holds the subdomain to
  the rejected one (`RejectedIsServed`). Router and claim agree exactly as long as no store
  collides (`RouterAgreesExactly`, `StoredIsServedExactly`).
* Deleting a rejected tunnel removes the claim and the name of the tunnel that holds the
  subdomain, although the router still finds it (`DeletedLoserRun`,
  `DeleteSparesClaimsExactly`). Otherwise a stored tunnel keeps both until its last second
  (`StoredKeepsClaim`).
* After a restart a certificate can be unknown up to a second before it expires
  (`RestartGap`, `DurableValidExactly`, `OnceValidExactly`).
* A cached signature can outlive its key if it is cached longer than the grace period
  (`StaleSignature`, `SignersKeptExactly`).
* From an interval after a rotation began to an interval after it ended, rotation is not yet
  due and no key is live (`KeylessGap`, `AvailableAfterCheck`).
* Signing and validating at once can fail, because the cache may serve a signature whose key
  has just expired (`ServedAtExpiry`, `SelfValidatesExactly`).
* The cookie search also covers bytes that were read past the header block, so whether a
  request is let through can depend on how its bytes arrive (`ChunkingDecides`,
  `GateIgnoresChunkingExactly`).
* The validator's average divides by all validations although those without a key contribute
  no time. It can be below every sample (`NoKeysDilute`, `AboveMinimumExactly`) or above their
  mean (`LateNoKeyInflates`, `BelowMeanExactly`, `BelowMeanWithoutGap`).

## Model

| member | source | states |
|---|---|---|
| `DdosProtection.Protection.constructor` | crates/common/src/ddos_protection.rs:59-64 | A new limiter knows no address. |
| `DdosProtection.Protection.IsBlocked` | crates/common/src/ddos_protection.rs:67-77 | An address is reported blocked exactly while its block runs; the end instant is free again. |
| `DdosProtection.Protection.CheckConnectionLimit` | crates/common/src/ddos_protection.rs:80-136 | Performs one admission decision on the table; DdosRuns.DecisionMatchesHistory says which decision that is. |
| `DdosProtection.Protection.ConnectionClosed` | crates/common/src/ddos_protection.rs:139-143 | Gives back one open connection of a known address, never below zero, and touches no other entry. |
| `DdosProtection.Protection.GetStats` | crates/common/src/ddos_protection.rs:158-180 | The loop reports the size of the set of open connections over all addresses and of the set of blocked addresses. |
| `DdosProtection.Protection.CleanupOldEntries` | crates/common/src/ddos_protection.rs:183-208 | Removes exactly the entries without open connections, activity in twice the window, or a running block. |
| `DdosProtection.CountConnections` | crates/common/src/ddos_protection.rs:165-175 | Adding an entry adds its open connections to the total. |
| `DdosRuns.RecentIsTail` | crates/common/src/ddos_protection.rs:97-99 | Filtering timestamps by age keeps exactly a tail of the ordered list. |
| `DdosRuns.TailRemembered` | crates/common/src/ddos_protection.rs:80-136 | In every run an entry, present or removed, remembers every accepted connection that can still matter. |
| `DdosRuns.SlidingWindowBound` | crates/common/src/ddos_protection.rs:80-136 | For every address and run, clean-ups included, no half-open interval of the window length holds more accepted connections than the rate. |
| `DdosRuns.BlockPersists` | crates/common/src/ddos_protection.rs:123-128 | A block set by a limit rejection survives every later operation until it ends. |
| `DdosRuns.BlockIsHonoured` | crates/common/src/ddos_protection.rs:67-128 | Every check within the block duration after a limit rejection is answered "blocked". |
| `DdosRuns.ActivePerIp` | crates/common/src/ddos_protection.rs:130-143 | In every run the count of an address is its open connections, a close without any being lost, and never exceeds the limit; with no more closes than accepts it is accepts minus closes. |
| `DdosRuns.ActiveTotal` | crates/common/src/ddos_protection.rs:158-180 | In every run the reported total is all accepts minus all closes that were not lost; none is lost while no address closes more than it opened. |
| `DdosRuns.BlockMatchesHistory` | crates/common/src/ddos_protection.rs:67-77 | An address is blocked exactly for the block duration after its last limit rejection. |
| `DdosRuns.DecisionMatchesHistory` | crates/common/src/ddos_protection.rs:80-136 | In every run every decision equals the one a stateless reference takes from accepted times, open connections and last rejection alone. |
| `DdosRuns.CleanupIsSimilar` | crates/common/src/ddos_protection.rs:183-208 | Clean-up keeps, of every entry, all that can influence an answer now or later. |
| `DdosRuns.SimilarCheck` | crates/common/src/ddos_protection.rs:80-136 | Tables that agree on what can still matter give the same decision and go on agreeing. |
| `DdosRuns.CleanupIsInvisible` | crates/common/src/ddos_protection.rs:183-208 | Two runs that differ only in where clean-ups happen give the same decisions, the same "is blocked" answers and the same totals. |
| `DdosTracking.TrackedExactly` | crates/common/src/ddos_protection.rs:183-208 | In every run, after a clean-up an address is tracked if and only if it has an open connection, its last decision left an accepted time less than two windows old, or it is blocked. |
| `DdosTracking.BlockedIpsMatchHistory` | crates/common/src/ddos_protection.rs:158-180 | The blocked addresses reported are exactly those whose last limit rejection is less than the block duration ago. |
| `IpRateLimit.RateLimitState.CheckIpRateLimit` | crates/backendapi/src/rate_limiting.rs:248-281 | Performs one decision of the fixed-window limiter; IpRateHistory.DecisionMatchesHistory says which decision that is. |
| `IpRateLimit.RateLimitState.CleanupOldEntries` | crates/backendapi/src/rate_limiting.rs:450-454 | Removes exactly the entries whose window began an hour or more ago. |
| `IpRateLimit.EntryExplainsLog` | crates/backendapi/src/rate_limiting.rs:248-281 | In every run an entry, present or removed, accounts for the accepted requests of its window and for earlier ones having left it. |
| `IpRateLimit.ZeroLimitAcceptsNothing` | crates/backendapi/src/rate_limiting.rs:270-276 | With a limit of zero no run accepts anything. |
| `IpRateLimit.FixedWindowBound` | crates/backendapi/src/rate_limiting.rs:248-281 | No closed 60-second interval of any run holds more than 2 max - 1 accepted requests of one address. |
| `IpRateLimit.BurstIsReached` | crates/backendapi/src/rate_limiting.rs:248-281 | For every positive limit some run has exactly 2 max - 1 accepted requests in 60 seconds. |
| `IpRateLimit.BlockIsHonoured` | crates/backendapi/src/rate_limiting.rs:248-281 | A rejected address is refused for its block duration, up to 59 minutes, whatever clean-ups happen. |
| `IpRateLimit.LongBlockCutShort` | crates/backendapi/src/rate_limiting.rs:450-454 | For every block longer than 59 minutes some run accepts a request before it is over. |
| `IpRateLimit.HonoursBlocksExactly` | crates/backendapi/src/rate_limiting.rs:248-281 | Blocks are honoured in every run if and only if they last at most 59 minutes or the limit is zero. |
| `IpRateHistory.DecisionMatchesHistory` | crates/backendapi/src/rate_limiting.rs:248-281 | In every run every decision equals the one a stateless reference takes from accepted times, the opening of the window, the last rejection and what clean-ups made the limiter forget. |
| `IpRateHistory.BlockEnds` | crates/backendapi/src/rate_limiting.rs:248-281 | Every block ends: at or after its end, and more than 60 seconds after the window opened, a request is accepted if the limit is positive. |
| `CaLimiter.RateLimiter.constructor` | crates/edf-ca/src/ca.rs:527-533 | A new limiter has recorded nothing. |
| `CaLimiter.RateLimiter.IsRateLimited` | crates/edf-ca/src/ca.rs:535-546 | A client is limited exactly if its window is less than an hour old and full. |
| `CaLimiter.RateLimiter.RecordIssuance` | crates/edf-ca/src/ca.rs:548-563 | Counts one certificate in the running window or opens a new one, and counts it in the total. |
| `CaInterleaving.RecordKeepsBound` | crates/edf-ca/src/ca.rs:548-563 | Recording a pending request keeps count plus pending within the cap, across window resets. |
| `CaInterleaving.StaysBounded` | crates/edf-ca/src/ca.rs:114-157 | In every interleaving, recorded certificates of the running window plus pending requests stay within the cap. |
| `CaInterleaving.InterleavingBound` | crates/edf-ca/src/ca.rs:94-157 | With at most p requests of a client in flight, no window records more than max(limit, 1) + p - 1 certificates, and no hour twice that or more. |
| `CaInterleaving.SequentialBound` | crates/edf-ca/src/ca.rs:94-157 | One request at a time never exceeds a positive limit. |
| `CaInterleaving.TotalIsExact` | crates/edf-ca/src/ca.rs:548-567 | In every interleaving the total reported is the number of certificates recorded. |
| `CaOvershoot.OvershootIsReached` | crates/edf-ca/src/ca.rs:114-157 | For every limit and p some run records exactly max(limit, 1) + p - 1 certificates in one window. |
| `CaOvershoot.HourlyBoundIsReached` | crates/edf-ca/src/ca.rs:114-157 | For every limit and p some run records exactly 2 (max(limit, 1) + p - 1) - 1 certificates within one hour. |
| `WildcardRotation.CertificateAuthority.IssueServerCertificate` | crates/edf-ca/src/ca.rs:179-241 | Checks name, limit and lifetime in this order, and records a certificate only if it was generated. |
| `WildcardRotation.CertificateManager.constructor` | crates/edgehub/src/certificate_manager.rs:76-88 | A new manager has its own authority whose maximal lifetime covers the configured validity, and nothing cached. |
| `WildcardRotation.CertificateManager.CurrentCertificate` | crates/edgehub/src/certificate_manager.rs:117-172 | Serves the cached certificate unless it is due, else issues and caches one; a failure leaves the cache alone. |
| `WildcardRotation.IssuanceCountsOnce` | crates/edf-ca/src/ca.rs:179-241 | A request that is not served uses up nothing; one that is counts once, limits no other name, and is good for the lifetime asked from its generation on. |
| `WildcardRotation.TooLongIsRefused` | crates/edf-ca/src/ca.rs:179-206 | A manager whose validity exceeds the authority's cap is told so by every call of every run. |
| `WildcardRotation.DueIsNotLimited` | crates/edgehub/src/certificate_manager.rs:117-140 | When the pace has been kept, a certificate that is due is never refused by the limiter. |
| `WildcardRotation.CallStaysPaced` | crates/edgehub/src/certificate_manager.rs:117-172 | A call keeps the pace: the next renewal is not due before the window has room for it. |
| `WildcardRotation.RotationNeverStarves` | crates/edgehub/src/certificate_manager.rs:117-172 | With enough issuances per hour for the lifetime and the delay in recording, no call of any run is refused by the limiter, and every certificate served has more than renew_before left when it is looked up, a new one even when the call returns. |
| `WildcardRotation.ImpatienceIsLimited` | crates/edgehub/src/certificate_manager.rs:117-172 | With too few, calling at every renewal, after a first certificate that was slow to be recorded, runs into the limit. |
| `WildcardRotation.NeverLimitedExactly` | crates/edgehub/src/certificate_manager.rs:117-172 | For every delay between generating and recording, rotation is never refused if and only if the lifetime is positive and max(certs per hour, 1) lifetimes cover an hour plus the smaller of delay and lifetime, or nothing can be issued at all. |
| `WildcardRotation.OwnAuthorityNeverLimitedExactly` | crates/edgehub/src/certificate_manager.rs:76-88 | For a manager over its own authority: if and only if ten lifetimes cover an hour plus that delay; with lifetimes of exactly six minutes any positive delay leads to a refusal. |
| `CertificateRegistry.Registry.RegisterCertificate` | crates/edf-ca/src/lib.rs:183-217 | Puts a certificate in memory and, for its remaining whole seconds, in the store. |
| `CertificateRegistry.Registry.GetCertificate` | crates/edf-ca/src/lib.rs:229-258 | Finds a certificate in memory or in the store, and refills memory from the store. |
| `CertificateRegistry.Registry.IsCertificateValid` | crates/edf-ca/src/lib.rs:220-225 | A serial is valid exactly if it is found and unexpired. |
| `CertificateRegistry.Registry.RemoveCertificate` | crates/edf-ca/src/lib.rs:265-281 | Removes a serial from memory and store; RemoveAnswersExactly says what it reports. |
| `CertificateRegistry.Registry.RevokeCertificate` | crates/edf-ca/src/ca.rs:277-304 | Revocation removes the serial everywhere; RevokeAnswersExactly says what it reports. |
| `CertificateRegistry.Registry.CleanupExpired` | crates/edf-ca/src/lib.rs:284-296 | Removes exactly the expired certificates from memory and counts them. |
| `CertificateRegistry.StaysSound` | crates/edf-ca/src/lib.rs:183-296 | In every run all that is held under a serial was registered and not revoked since, and no durable record outlives its certificate. |
| `CertificateRegistry.StaysHeld` | crates/edf-ca/src/lib.rs:183-296 | In every run the latest certificate is in memory unless expired or restarted, and in the store until its last second. |
| `CertificateRegistry.ValidOnlyIfStanding` | crates/edf-ca/src/lib.rs:220-258 | A serial validates only if a certificate registered under it, and not revoked since, is unexpired. |
| `CertificateRegistry.StandingValidates` | crates/edf-ca/src/lib.rs:183-296 | Such a certificate validates until it expires without a restart, and until one second before after any number of restarts. |
| `CertificateRegistry.ValidExactly` | crates/edf-ca/src/lib.rs:183-296 | While the process runs, validity is exactly "registered, not revoked, unexpired" for serials used once. |
| `CertificateRegistry.MemoryOnlyValidExactly` | crates/edf-ca/src/lib.rs:165-173 | Without a store a serial validates exactly if its latest certificate was registered by this process and is unexpired. |
| `CertificateRegistry.AfterHoldsPast` | crates/edf-ca/src/lib.rs:183-296 | In every run, with or without a store, memory and store hold for a serial exactly what its registrations, revocations, look-ups, clean-ups and restarts leave. |
| `CertificateRegistry.FindsExactly` | crates/edf-ca/src/lib.rs:229-258 | In every run a look-up finds exactly the certificate the process remembers (registered or looked up since the last restart) or, when it remembers none, the last one registered with a whole second to live, for its whole seconds. |
| `CertificateRegistry.RevokeAnswersExactly` | crates/edf-ca/src/ca.rs:277-304 | In every run revoking reports a known serial if and only if such a certificate is found, expired or not: always for one that validates, never for one of which no certificate stands. Afterwards nothing is found at any time. |
| `CertificateRegistry.RemoveAnswersExactly` | crates/edf-ca/src/lib.rs:265-281 | In every run removing reports a removal if and only if the process remembered the serial; afterwards nothing is found at any time. |
| `CertificateRegistry.StaysAccounted` | crates/edf-ca/src/lib.rs:183-296 | For a serial used once, memory and store hold exactly what its one registration accounts for. |
| `CertificateRegistry.DurableValidExactly` | crates/edf-ca/src/lib.rs:175-258 | In every run a serial validates if and only if the certificate the process remembers is unexpired or, when it remembers none, the whole seconds of the last certificate registered with any to live are not over. |
| `CertificateRegistry.PastStands` | crates/edf-ca/src/lib.rs:183-296 | Both certificates were registered and not revoked since. |
| `CertificateRegistry.OnceValidExactly` | crates/edf-ca/src/lib.rs:175-258 | The same for a serial registered once between revocations, in terms of its one registration: a certificate stands, is unexpired, and is remembered or its lifetime, cut to whole seconds, is not over. |
| `CertificateRegistry.RegisteredStands` | crates/edf-ca/src/lib.rs:183-217 | The registration that decides is that of the one certificate registered and not revoked since. |
| `CertificateRegistry.RestartGap` | crates/edf-ca/src/lib.rs:175-217 | For every certificate and moment in the fraction of a second that the store cut off, a run with a restart in which it stands and is unexpired but does not validate. |
| `TunnelStorage.Storage.Store` | crates/backendapi/src/storage.rs:50-162 | Record and list entry are written first; a claim held by another tunnel then stops the store before claim and name. TunnelAnswers.StoreAnswersExactly says when it succeeds. |
| `TunnelStorage.Storage.TunnelBySubdomain` | crates/backendapi/src/storage.rs:263-281 | Looks the claim up, then the record of its holder. |
| `TunnelStorage.Storage.IsSubdomainAvailable` | crates/backendapi/src/storage.rs:420-423 | Available exactly if that look-up finds nothing. |
| `TunnelStorage.Storage.ListUserTunnels` | crates/backendapi/src/storage.rs:284-309 | The loop returns the live records of the user's list, in order. |
| `TunnelStorage.Storage.Update` | crates/backendapi/src/storage.rs:312-322 | Stores the live record again with the new status; an unknown tunnel is no error. |
| `TunnelStorage.Storage.Delete` | crates/backendapi/src/storage.rs:325-376 | Removes record, claim, name and list entry of a live tunnel. |
| `TunnelStorage.Storage.Cleanup` | crates/backendapi/src/storage.rs:379-405 | Deletes the records of expired tunnels, and counts them. |
| `TunnelStorage.DropOverdue` | crates/backendapi/src/storage.rs:379-405 | Visiting the keys one by one deletes exactly the live records of expired tunnels. |
| `TunnelStorage.WithoutIdDistinct` | crates/backendapi/src/storage.rs:360-368 | Removing an identifier keeps a list free of duplicates. |
| `TunnelStorage.ScanBySubdomain` | crates/common/src/redis/tunnel.rs:265-339 | The router's nested loops return a match if there is one, in whatever order users are visited, and nothing only if there is none. |
| `TunnelIndexes.StoreKeepsTied` | crates/backendapi/src/storage.rs:50-162 | Storing, rejected or not, keeps claims, records, names and lists tied together. |
| `TunnelIndexes.StoreKeepsIndexedExactly` | crates/backendapi/src/storage.rs:120-145 | Storing keeps every live record indexed if and only if no other tunnel holds the live claim of the subdomain (or nothing is stored). |
| `TunnelIndexes.StoredIsFound` | crates/backendapi/src/storage.rs:50-162 | A successful store by itself: the tunnel is found by its claim and its name resolves until less than a second before it expires, and the claim's answer for every other subdomain is unchanged, now and later. |
| `TunnelIndexes.DeleteKeepsTied` | crates/backendapi/src/storage.rs:325-376 | Deleting keeps them tied, and keeps the index complete. |
| `TunnelIndexes.NothingOverdue` | crates/backendapi/src/storage.rs:379-405 | In every reachable state clean-up finds nothing: records end before their tunnels. |
| `TunnelIndexes.ClaimRecordAndNameTied` | crates/backendapi/src/storage.rs:60-158 | In every reachable state a live claim has a live record with that subdomain, the name resolves exactly while the claim lives, none outlives the tunnel, and availability is exactly the absence of a live claim. |
| `TunnelIndexes.NamesPointToEdge` | crates/backendapi/src/storage.rs:147-158 | Every name that resolves, resolves to the address of the edge. |
| `TunnelIndexes.UpdateKeepsClaim` | crates/backendapi/src/storage.rs:312-322 | A status update of a tunnel found by its claim succeeds, shows in the next look-up, and affects no other subdomain. |
| `TunnelIndexes.HitIsMatch` | crates/backendapi/src/storage.rs:263-281 | In every reachable state what the claim leads to is one of the router's matches. |
| `TunnelIndexes.IndexRefinesScan` | crates/backendapi/src/storage.rs:263-281 | While no store was rejected, the possible answers of the scan are exactly the answer of the claim. |
| `TunnelIndexes.DeleteClearsTunnel` | crates/backendapi/src/storage.rs:325-376 | In every reachable state a deletion reports true if and only if the tunnel's record is live; then no record, claim or list entry of it is left, otherwise nothing changes. |
| `TunnelIndexes.ListingIsExact` | crates/backendapi/src/storage.rs:284-309 | In every reachable state a user's listing shows exactly the live tunnels of that user, each once and in the order of the user's list. |
| `TunnelAnswers.StoreAnswersExactly` | crates/backendapi/src/storage.rs:50-162 | In every reachable state a store is an error if and only if less than a second is left, and is refused if and only if the claim of the subdomain leads to another tunnel; otherwise, in particular for an available subdomain, it succeeds, the tunnel is found by its claim, shown to its user, and at the end of the user's list if new. |
| `TunnelAnswers.UpdateAnswersExactly` | crates/backendapi/src/storage.rs:312-322 | In every reachable state a status update of an unknown tunnel does nothing, and that of a known one fails exactly when storing it would; unless less than a second is left its record has the new status. |
| `TunnelAnswers.CleanupLeavesUnexpired` | crates/backendapi/src/storage.rs:379-405 | In any state whatever, clean-up leaves exactly the live records whose tunnels have not expired and counts the others. |
| `TunnelClaims.StepKeepsClaim` | crates/backendapi/src/storage.rs:50-162 | No operation of others, status updates and rejected stores included, takes the claim or the record of a tunnel that holds its claim. |
| `TunnelClaims.StoredKeepsClaim` | crates/backendapi/src/storage.rs:50-162 | After a successful store, in every continuation that neither stores the tunnel again nor deletes a tunnel of its subdomain, the claim names the tunnel and leads to it unchanged but for the status, and its name resolves to the edge, until its last second. |
| `TunnelClaims.RejectedStoreLeavesMatch` | crates/backendapi/src/storage.rs:66-145 | A rejected store leaves a second scan match that the claim does not lead to; the claim still leads to the holder. |
| `TunnelClaims.DeletingLoserDropsClaim` | crates/backendapi/src/storage.rs:325-353 | Deleting a tunnel that lost the claim removes the claim and the name of the holder, while the holder remains a match of the router's scan. |
| `TunnelClaims.DeleteSparesClaimsExactly` | crates/backendapi/src/storage.rs:325-376 | In every reachable state a deletion leaves all other tunnels found by their claims as before, now and later, if and only if the claim of the subdomain leads to the deleted tunnel or to nobody; which is always so if no store was rejected. |
| `TunnelRouting.AgreesIfIndexed` | crates/common/src/redis/tunnel.rs:265-339 | In a tied state every scan answers as the claim does if and only if every live record of the subdomain holds its claim. |
| `TunnelRouting.StepKeepsAgreement` | crates/backendapi/src/storage.rs:50-162 | From agreement between router and claim, an operation leads to agreement if and only if it does not store a tunnel under the subdomain while another claims it. |
| `TunnelRouting.AgreesSinceExactly` | crates/common/src/redis/tunnel.rs:265-339 | From any reachable state of agreement on, router and claim agree at every step if and only if no store collides. |
| `TunnelRouting.RouterAgreesExactly` | crates/common/src/redis/tunnel.rs:265-339 | In every run router and claim of a subdomain agree at every step if and only if no tunnel is ever stored under it while another claims it. |
| `TunnelRouting.StoredIsServedExactly` | cmd/edgehub-bin/src/main.rs:142-164 | After a successful store, in every continuation that neither stores the tunnel again nor deletes a tunnel of its subdomain, every scan of the router finds that tunnel at every step up to its last second if and only if router and claim agreed at first and no store has collided since. |
| `TunnelRouting.ServedLater` | cmd/edgehub-bin/src/main.rs:142-164 | What the router serves alone it serves alone until the next operation or the last second of the tunnel. |
| `TunnelRouting.RejectedIsServed` | cmd/edgehub-bin/src/main.rs:142-164 | For any two tunnels of one subdomain a run of two stores, the second rejected, after which the first holds the claim but the router may serve the second. |
| `TunnelRouting.DeleteTakesOneMatch` | crates/backendapi/src/storage.rs:325-376 | A deletion takes exactly the deleted tunnel from the matches of every scan, now and later. |
| `TunnelRouting.DeletedLoserRun` | crates/backendapi/src/storage.rs:50-162 | For any two tunnels of one subdomain a run of two stores and a deletion after which every scan of the router finds the first, but its claim and name are gone and the subdomain counts as available. |
| `PortAllocator.Ports.AllocatePort` | crates/backendapi/src/storage.rs:426-479 | Run alone, the scan takes the first free port of its order within the range, and fails if and only if all 1000 ports it may probe are taken. |
| `PortAllocator.NthDistinct` | crates/backendapi/src/storage.rs:466-473 | The attempts of a scan probe different ports, despite the wrap-around. |
| `PortAllocator.ProbedSize` | crates/backendapi/src/storage.rs:466-475 | n attempts visit n different ports. |
| `PortAllocator.Pigeonhole` | crates/backendapi/src/storage.rs:443-478 | A set that covers every port of a full scan has at least 1000 elements. |
| `PortLeases.RunStaysSound` | crates/backendapi/src/storage.rs:426-493 | In every interleaving with harmless releases, overlapping leases have different ports and every running lease is backed by its key. |
| `PortLeases.PortsAreExclusive` | crates/backendapi/src/storage.rs:426-493 | In every interleaving of probes, expiries and releases before the lease ends, overlapping unreleased leases hold different ports, all in 10000..65535. |
| `PortLeases.ReleaseIsSafeExactly` | crates/backendapi/src/storage.rs:482-493 | After a release all further allocations stay exclusive if and only if nobody else leased the port at that moment. |
| `PortLeases.LateReleaseBreaksExclusivity` | crates/backendapi/src/storage.rs:482-493 | A run in which an owner releases after its lease ended, and two overlapping leases share a port. |
| `PortLeases.ProbedWereTaken` | crates/backendapi/src/storage.rs:443-475 | Every port a scan probed in vain was taken at some step of the scan. |
| `PortLeases.ScanEnds` | crates/backendapi/src/storage.rs:443-478 | In every interleaving a scan ends after at most 1000 probes. |
| `PortLeases.FailureMeansThousandTaken` | crates/backendapi/src/storage.rs:443-478 | A scan fails only if at least 1000 different ports were taken while it ran. |
| `PortStarvation.OnePortCanStarve` | crates/backendapi/src/storage.rs:443-478 | A run in which a scan fails although at most one port is ever taken at a time and at most 1000 during the scan. |
| `PortStarvation.ScansSucceedExactly` | crates/backendapi/src/storage.rs:443-478 | Scans during which at most n different ports are taken succeed in every run if and only if n is below 1000. |
| `RequestHead.ReadRequestHead` | cmd/edgehub-bin/src/main.rs:34-58 | The loop leaves in the buffer exactly the bytes taken from the stream, and stops where and why the reference reader does. |
| `RequestHead.PrefixHasTerminator` | cmd/edgehub-bin/src/main.rs:40-43 | A prefix shows the terminator exactly when it covers the header block. |
| `RequestHead.ReadOutcome` | cmd/edgehub-bin/src/main.rs:34-58 | From any position, for any chunking: the buffer stays bounded, and success means a terminator is in it. |
| `RequestHead.ChunkingIndependence` | cmd/edgehub-bin/src/main.rs:34-58 | The buffer never exceeds MAX_HEADER_BYTES + 2048; every chunking succeeds if the block ends within MAX_HEADER_BYTES + 1, none if it ends beyond MAX_HEADER_BYTES + 2048. |
| `RequestHead.NoHeadNoSuccess` | cmd/edgehub-bin/src/main.rs:34-58 | Without a terminator no chunking succeeds. |
| `RequestHead.NoHeadOutcome` | cmd/edgehub-bin/src/main.rs:34-58 | Without a terminator, for every chunking in which no read fails before, a stream is too long if it exceeds MAX_HEADER_BYTES and ends unexpectedly otherwise. |
| `RequestHead.LimitsAreSharp` | cmd/edgehub-bin/src/main.rs:34-58 | Both limits are attained: full chunks succeed exactly up to the upper one, single bytes exactly up to the lower one. |
| `RequestHead.CompleteExactly` | cmd/edgehub-bin/src/main.rs:34-58 | For every chunking in which no read fails before, the reader succeeds if and only if no read ends beyond MAX_HEADER_BYTES but before the end of the block; it then has read less than a chunk too many. |
| `RequestHead.CanStopAt` | cmd/edgehub-bin/src/main.rs:34-58 | Every position from the end of a short enough block to less than a chunk beyond is where some chunking stops. |
| `SessionGate.CookieFromRequestHead` | cmd/edgehub-bin/src/main.rs:61-78 | The nested loops return the value of the first cookie of that name. |
| `SessionGate.CookieOfPrefix` | cmd/edgehub-bin/src/main.rs:188-189 | Bytes read past the header block are searched only after the block itself. |
| `SessionGate.CookieIsFromBlockExactly` | cmd/edgehub-bin/src/main.rs:188-189 | Wherever up to a given position the reader stops it finds the header block's own cookie, if and only if the block has one or none of the extra bytes give one. |
| `SessionGate.HandleConnection` | cmd/edgehub-bin/src/main.rs:172-270 | Reads, checks, dials, replays and splices in this order; what the slot receives is what the reference says. |
| `SessionGate.ForwardedOnceInOrder` | cmd/edgehub-bin/src/main.rs:246-270 | For every chunking and failure the slot receives a prefix of the client's bytes, each once and in order: all of them after a complete splice, none on refusal. |
| `SessionGate.UnprotectedIsForwarded` | cmd/edgehub-bin/src/main.rs:172-270 | For an unprotected tunnel the dial alone decides the answer and, when connected, the slot receives exactly the first bytes up to what the splice carries, whatever the reads, cookies, grants and replay. |
| `SessionGate.GrantedIsForwarded` | cmd/edgehub-bin/src/main.rs:172-270 | For a protected tunnel with a granted cookie the dial and the replay decide the answer, and the slot receives exactly the bytes read and then those the splice carries, or the replayed part of those read. |
| `SessionGate.ProtectedRefusesExactly` | cmd/edgehub-bin/src/main.rs:172-218 | For a protected tunnel the answer is 400, 403 or 500 if and only if the head was not read, no grant is live for the cookie, or the look-up failed; the slot then receives nothing. |
| `SessionGate.GateHolds` | cmd/edgehub-bin/src/main.rs:172-218 | Nothing reaches the slot of a protected tunnel without a head read within bounds and a cookie that names a live grant. |
| `SessionGate.GateIgnoresChunkingExactly` | cmd/edgehub-bin/src/main.rs:172-218 | All chunkings get the same answer if and only if the header block is too long for all of them, or short enough for all and every position less than a chunk beyond its end leads to the same authorization. |
| `CookieRoundTrip.PairRoundTrip` | cmd/edgehub-bin/src/main.rs:68-72 | A rendered name=value pair, with any white space around it, gives back its value. |
| `CookieRoundTrip.SpacedPairRoundTrip` | cmd/edgehub-bin/src/main.rs:68-72 | So does one with any white space around its equals sign. |
| `CookieRoundTrip.LineRoundTrip` | cmd/edgehub-bin/src/main.rs:63-74 | A Cookie line, its name in any mixture of cases, gives back the first value for the name. |
| `CookieRoundTrip.OtherHeaderGivesNone` | cmd/edgehub-bin/src/main.rs:63-67 | A line of any other header gives no cookie, whatever its value. |
| `CookieRoundTrip.HeadRoundTrip` | cmd/edgehub-bin/src/main.rs:61-78 | Within any request head the search finds the value the Cookie line gives, if no line before gives one; lines end with carriage return and line feed. |
| `CookieRoundTrip.ChunkingDecides` | cmd/edgehub-bin/src/main.rs:172-218 | For every block without the cookie, followed by a Cookie line with a granted token: read byte by byte the request is forbidden, read at once it is spliced. |
| `CookieRoundTrip.EmptyBlock` | cmd/edgehub-bin/src/main.rs:34-58 | The bare terminator is such a block. |
| `DnssecKeys.KeyManager.constructor` | crates/dnsd/src/sign.rs:165-222 | A new manager has a key for the default algorithm and, with a secret, an HMAC key. |
| `DnssecKeys.KeyManager.GenerateKey` | crates/dnsd/src/sign.rs:225-298 | Appends a key that lives for a rotation interval to the list of its algorithm, if material could be made. |
| `DnssecKeys.KeyManager.GetActiveKey` | crates/dnsd/src/sign.rs:314-332 | Finds the first key of the list that is active and unexpired. |
| `DnssecKeys.KeyManager.RotateKeys` | crates/dnsd/src/sign.rs:345-371 | Appends a key per algorithm and ages the lists at the first reading of the clock, keeps the cache, and notes the time at the second. |
| `DnssecKeys.KeyManager.DeactivateOldKeys` | crates/dnsd/src/sign.rs:374-401 | Ages the list of every algorithm. |
| `DnssecKeys.KeyManager.AgeList` | crates/dnsd/src/sign.rs:380-396 | The loop and the retain deactivate expired keys and drop those past the grace period, in order. |
| `DnssecKeys.KeyManager.CheckAndRotateKeys` | crates/dnsd/src/sign.rs:580-585 | Rotates exactly when more than an interval has passed since the last rotation ended. |
| `DnssecKeys.KeyManager.SignData` | crates/dnsd/src/sign.rs:404-468 | Answers from the cache while an entry is fresh, else signs with the selected key and caches the result. |
| `DnssecRuns.KeyListChange` | crates/dnsd/src/sign.rs:345-401 | Every operation keeps, appends to, or extends and ages the list of an algorithm, independently of the others. |
| `DnssecRuns.AgedFirstLive` | crates/dnsd/src/sign.rs:374-401 | Ageing never changes the selected key. |
| `DnssecRuns.KeyIsStable` | crates/dnsd/src/sign.rs:314-401 | A selected key stays selected until it expires, through any generation, rotation and signing. |
| `DnssecRuns.CacheOrigin` | crates/dnsd/src/sign.rs:438-468 | Every cached signature was made when it was cached, with the key selected then. |
| `DnssecRuns.SignatureOrigin` | crates/dnsd/src/sign.rs:404-468 | Every signature returned was made, at the part of the run the history names, with the key selected then: less than the cache lifetime ago, or just now. |
| `DnssecRuns.ValidatesExactly` | crates/dnsd/src/sign.rs:713-753 | In every state validating accepts exactly the signature that signing without a cache would make, refuses any other bytes, and has no answer exactly when signing has none. |
| `DnssecRuns.SignatureValidates` | crates/dnsd/src/sign.rs:713-753 | At every later time at which the key a signature was made with is unexpired, in every run, that signature is accepted and any other bytes are refused. |
| `DnssecRuns.CacheServesForTtl` | crates/dnsd/src/sign.rs:404-468 | A signature that was made is served again for the whole cache lifetime, whatever is generated, rotated or signed meanwhile. |
| `DnssecRuns.SigningDropsStale` | crates/dnsd/src/sign.rs:451-468 | After a new signature was cached no stale entry is left. |
| `DnssecRuns.NothingCachedWhenOff` | crates/dnsd/src/sign.rs:404-435 | With caching switched off no run caches anything. |
| `DnssecRuns.FirstKeysSign` | crates/dnsd/src/sign.rs:165-222 | For an interval from construction the default algorithm signs with the first key and HMAC with the configured secret, whatever happens; at first nothing else signs. |
| `DnssecRuns.KeyIsRetained` | crates/dnsd/src/sign.rs:374-401 | A selected key stays in the store until its grace period is over. |
| `DnssecRuns.SigningKeyStillStored` | crates/dnsd/src/sign.rs:374-468 | If signatures are cached no longer than the grace period, the very key every returned signature was made with is still in the store. |
| `DnssecRetention.ZeroIntervalNeverSigns` | crates/dnsd/src/sign.rs:265-272 | With a rotation interval of zero no run ever signs. |
| `DnssecRetention.StaleSignature` | crates/dnsd/src/sign.rs:404-468 | If signatures are cached longer than the grace period, some run serves one whose key is gone from the store, which only has a key made since. |
| `DnssecRetention.SignersKeptExactly` | crates/dnsd/src/sign.rs:374-468 | The key of every signature returned is stored in every run if and only if nothing is cached, nothing is ever signed, or the cache lifetime is at most the grace period, whatever the message authentication code. |
| `DnssecRetention.ServedAtExpiry` | crates/dnsd/src/sign.rs:944-964 | A run in which signing is answered from the cache at the instant the key expires, and validating finds no key. |
| `DnssecRetention.SelfValidatesExactly` | crates/dnsd/src/sign.rs:944-964 | Every signature validates at the moment it is returned, in every run, if and only if nothing is cached or nothing is ever signed. |
| `DnssecRetention.FlagsAreExact` | crates/dnsd/src/sign.rs:374-401 | In every reachable state a stored key is active exactly if unexpired when the last rotation aged the keys, and none was past its grace period then. |
| `DnssecKeyCount.ChainBound` | crates/dnsd/src/sign.rs:335-342 | Keys made more than an interval apart and all within grace are at most MostKept many. |
| `DnssecKeyCount.KeysFormChain` | crates/dnsd/src/sign.rs:335-401 | Rotated only when due, a list is what is left of the first keys followed by keys more than an interval apart. |
| `DnssecKeyCount.RetainedKeysBounded` | crates/dnsd/src/sign.rs:335-401 | Rotated only when due, an algorithm keeps at most MostKept keys, and so at most 1 + ceil(grace / interval), besides those made at construction. |
| `DnssecKeyCount.RetainedBoundIsReached` | crates/dnsd/src/sign.rs:335-401 | For every configuration and algorithm some run keeps exactly MostKept keys besides those made at construction. |
| `DnssecRetention.LastRotationKey` | crates/dnsd/src/sign.rs:345-371 | Since the last rotation every algorithm has had an active key that expires an interval after that rotation began. |
| `DnssecRetention.AvailableAfterCheck` | crates/dnsd/src/sign.rs:335-371 | Right after a rotation check every algorithm has a live key if, and without extra keys only if, less than an interval has passed since the last rotation began; if there is none, no more than an interval had passed since it ended, or the rotation itself took an interval. |
| `DnssecRetention.KeylessGap` | crates/dnsd/src/sign.rs:335-371 | For every rotation and every moment from an interval after its beginning to an interval after its end, a run with a check at that moment that leaves every algorithm without a key. |
| `DnssecRetention.AvailableForInterval` | crates/dnsd/src/sign.rs:314-371 | From a rotation on every algorithm has a live key until an interval after it began, whatever else happens. |
| `ValidationStats.Validator.ValidateRrsig` | crates/dnsd/src/sign.rs:713-753 | Validates against the key live now, and counts the validation even when there is no key. |
| `ValidationStats.CountsAddUp` | crates/dnsd/src/sign.rs:848-883 | The successes are the validations found valid, the failures those found invalid, and the total adds those without a key. |
| `ValidationStats.LostTime` | crates/dnsd/src/sign.rs:861-872 | Over n validations rounding loses at most n (n - 1) / 2 of the total time, and never adds any. |
| `ValidationStats.LossIsReached` | crates/dnsd/src/sign.rs:861-872 | For every n some n validations lose exactly n (n - 1) / 2 of the total time to rounding. |
| `ValidationStats.AverageAboveMinimum` | crates/dnsd/src/sign.rs:861-872 | If the first validation had a key, the average is never below the smallest sample. |
| `ValidationStats.FilledAverage` | crates/dnsd/src/sign.rs:861-872 | To the average, a validation without a key is a sample equal to the average so far. |
| `ValidationStats.AverageErrorBound` | crates/dnsd/src/sign.rs:861-872 | Over any n validations the average is at most the mean of their times and below it by at most (n - 1) / 2, one without a key counting as a sample equal to the average so far. |
| `ValidationStats.NoKeysDilute` | crates/dnsd/src/sign.rs:713-753 | After k validations without a key the first sample is divided by k + 1, so the average is below the only sample unless k or the sample is zero. |
| `ValidationStats.LateNoKeyInflates` | crates/dnsd/src/sign.rs:713-753 | A history in which a validation without a key lifts the average above the mean. |
| `AverageExactness.AboveMinimumExactly` | crates/dnsd/src/sign.rs:713-753 | For every pattern of validations with and without a key, the average is at least the smallest sample for all samples if and only if the first validation had a key. |
| `AverageExactness.AverageWithinShare` | crates/dnsd/src/sign.rs:861-872 | The average is at most the share it keeps of the first sample, applied to the total time. |
| `AverageExactness.BelowMeanExactly` | crates/dnsd/src/sign.rs:713-753 | For every pattern, the average is at most the mean of the samples for all samples if and only if the share kept of the first is at most one of their number. |
| `AverageExactness.BelowMeanWithoutGap` | crates/dnsd/src/sign.rs:713-753 | If the first validation had a key, that is so if and only if no validation without a key lies between two samples. |

## Left out

- Cryptography, certificate and DNS message encoding, TLS, SSH, sockets, tracing, metrics and configuration loading: library code or I/O.
- Redis failures and malformed JSON: every Redis command succeeds and every stored value parses.
- Machine integers: counters (`u32`, `u64`, `usize`) do not wrap around, and adding a duration to a time does not overflow.
- Concurrency inside `store_tunnel`, inside the router's scan, inside a registry look-up that refills memory, and between `is_blocked` and the rest of `check_connection_limit`: methods are atomic, so interleavings of their read and write steps are not captured.
- Registration of a certificate inside issuance: issuance and registry are modelled separately.
- Text is taken byte for byte: lossy UTF-8 decoding of the request head and Unicode white space in trimming are not modelled, only ASCII white space.
- `validate_dns_message`, alerts and per-algorithm validation counts in `crates/dnsd/src/sign.rs`: sums of single validations.
- Key identifiers, key tags and key backup: random or unimplemented in the program, and no decision depends on them. `max_keys` is never consulted by the program.
- GitHub user names in the lookup lists, SSH sessions, session grant storage, `get_port_stats` and tunnel counts: plain reads and writes of one key.
- Rate limits by user and by endpoint in `crates/backendapi/src/rate_limiting.rs`: they delegate to a library.
- `check_request_size` and the name lookup from the TLS server name: a single comparison or split.
- Quota enforcement, shutdown handling, the command line tools and the modules that are not compiled into their crates: no rule that spans several operations.
- DdosRuns.CleanupIsInvisible: does not cover the number of tracked addresses in the statistics, because removing entries is what clean-up is for; DdosTracking.TrackedExactly says which remain.
