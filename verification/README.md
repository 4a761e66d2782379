# Hoviyat: a verified model of the service layer

This project models the parts of Hoviyat's backend that carry state, loops and guarantees over whole
runs, and proves what those guarantees are. Where the code keeps a promise of its documentation the promise is
a theorem; where it does not, the exact condition is.

| file | models |
|---|---|
| `Directory.dfy`, `Decision.dfy`, `Authorization.dfy`, `AuthzReference.dfy` | the tables an authorization check reads; the layered decision (RBAC, ACL, ABAC, deny); the services with their loops; the check a second time, from the columns alone |
| `AuthzCache.dfy`, `Staleness.dfy` | string cache keys, expiry, glob invalidation; whole runs of writes, evictions and checks |
| `PolicyLifecycle.dfy`, `Isolation.dfy` | policy administration interleaved with checks; tenant non-interference |
| `AuditChain.dfy`, `Decimals.dfy` | the hash-chained audit log and its verification |
| `RateLimit.dfy`, `SignupRisk.dfy`, `Clock.dfy` | the sliding-window limiter, the risk scorer, and the two composed |
| `AuthCodes.dfy`, `MagicLinks.dfy`, `BackupCodes.dfy`, `CredentialRace.dfy` | one-time credentials; the first two also among concurrent callers |
| `SigningKeys.dfy` | key rotation, the published key set, and the one-slot mutex |
| `Codecs.dfy`, `Backoff.dfy` | scope strings, role columns, invalidation messages; webhook retry delays |
| `Text.dfy`, `Sequences.dfy`, `Wrappers.dfy` | joining and splitting, row selection, options and results |

## Conventions and assumptions

- Services are classes; the tables they share are values in their fields. Every method is proved equal to a
  function on those values, and the theorems are about that function and about runs of it. Theorems that say what such
  a function is name columns, constants and the clock, not the function's own helpers.
- SHA-256, the Rego engine, the parsing of stored public keys and token hashing are function parameters.
  No hash function is assumed to be injective: lemmas exhibit the collision of two named texts, or
  exclude it. Hashes are not empty.
- Every operation takes the instant `now` as a parameter; each request is one serial step at one instant, except in
  `KeySlot` and `CredentialRace`, which interleave callers.
- A repository's `Update` overwrites the record, as the `domain` interfaces suggest, but GORM's `Updates` on a struct
  skips zero values, so that a flag set to false is not written. A parameter `writesFalse` tells the two readings
  apart; the results on active policies, active keys and primary methods are proved for both.
- IDs that the database or a random generator chooses are parameters; a table refuses an ID (or a token hash, or an
  audit hash) it already holds. A new policy ID has never been used before.
- Redis is a map with expiry times; the JSON form of a cached result is read back unchanged. Storage keeps timestamps
  at the precision in which they are written.
- Multipliers are reals and durations unbounded integers; the conversion back to a duration truncates toward zero.

## What the code does not do

- The design asks that every change immediately invalidates affected cache entries (`docs/PRD.md:188`). No write path
  calls an invalidation, so the guarantee is bounded staleness; `Staleness.RevokedGrantStillHonoured` shows that the
  bound is reached, `Staleness.FreshWhileUnchanged` when an answer is current all the same, and
  `Staleness.InvalidatingRunIsFresh` that the design's rule would make every answer current.
- The cache key does not escape colons. A request with a colon in a field shares its key with another request and may
  be answered by that one's grant, across tenants too (`AuthzCaching.OwnKeyIff`, `Staleness.AnswerForAnotherRequest`,
  `Staleness.AnswerForAnotherTenant`); a request without colons is not affected by others that have them
  (`Staleness.BoundedStalenessForTheRequest`).
- The cache key leaves the request's context out. A policy's answer for one context is returned for another
  (`Staleness.AnswerForAnotherContext`); answers from roles and ACL entries are not affected
  (`Staleness.BoundedStalenessWithContext`).
- With `Updates` as shipped, false flags are not written, so that nothing is ever switched off:
  `PolicyLifecycle.OneActiveWithoutFalseIff`, `SigningKeys.ActiveKeysAddUp` and `BackupCodes.AllPrimary` say what that
  leaves of "at most one". With the flags written, an activation that stops half way can leave two active policies
  (`PolicyLifecycle.InterruptedActivation`).
- `Create` and `VerifyChain` of the audit log disagree in four places: the timestamp is replaced after hashing, nil maps
  are hashed as `{}` but stored as `null`, the walk starts from the first row's PrevHash instead of its Hash, and a
  caller's PrevHash is hashed but not stored. `AuditChain.VerifyAcceptsIff` and `AuditChain.VerifyAcceptsAtMostOneRow` give the
  consequence, `AuditChain.RepairedCreateVerifies` the behaviour with the four repaired (a caller's PrevHash is then ignored).
- A comment in `risk.go` speaks of "one strong signal"; no single signal reaches the threshold
  (`SignupRisk.ReviewMeansTwoSignals`). With the shipped limiter the velocity signal is unreachable
  (`SignupRisk.ShippedSettings`).
- `GetActiveKey` waits for the slot it holds when no valid key is at hand. That path is modelled as a call that
  never returns (`SigningKeys.GetReturnsIff`, `KeySlot.StuckForever`).
- The audit log's hashed text does not escape bars: a record with a bar in a field has a twin with the same text
  (`AuditChain.BarFreeIff`, `AuditChain.BarsAllowTampering`).
- Finding a one-time credential and using it up are two statements, and the second does not look whether another caller
  has come first: any number of callers can succeed with one authorization code or one magic link
  (`CredentialRace.AnyNumberSucceed`), exactly those that found it in time (`CredentialRace.SucceedsIff`).
- The error of deleting a consumed authorization code is ignored (`backend/internal/service/idp.go:262-264`), and the
  code then yields further responses until it expires (`AuthCodes.ReplayIff`).
- Initialization does not see an active signing key that has expired and adds another one next to it; that key then
  stays active for good (`SigningKeys.InitializationBesideAnExpiredKey`, `SigningKeys.TwoActiveKeysIff`).
- The email limit of the signup limiter is one key shared by all emails and addresses (`SignupRisk.EmailPassesSpread`).
- Below a multiplier of one the retry delay can stick to the maximum (`Backoff.ShrinkingClosedFormIff`).
- The token endpoint does not compare the client of an authorization code with the client presenting it
  (`AuthCodes.IssuingClientNotConsulted`).

## Model

| member | source | states |
|---|---|---|
| Authorization.Allow | backend/internal/service/rbac.go:20-29 | permission granted exactly if some role of the list carries it in the fixed table |
| Authorization.CollectRoles | backend/internal/service/authorization.go:201-215 | tenant roles followed by the roles of the user's teams in that tenant, in listing order |
| Authorization.AuthorizationService.GetEffectiveRoles | backend/internal/service/authorization.go:193-216 | the effective roles, or none without a membership |
| Authorization.AuthorizationService.CheckTeamAcls | backend/internal/service/authorization.go:99-120 | the verdict of the first in-tenant team with an entry; other tenants' teams are passed over |
| Authorization.AuthorizationService.CheckRoleAcls | backend/internal/service/authorization.go:122-136 | the verdict of the first role with an entry |
| Authorization.AuthorizationService.CheckPolicies | backend/internal/service/authorization.go:138-183 | missing queries are prepared, and any one of the policies' answers may decide; an evaluation error means no verdict |
| Authorization.AuthorizationService.Decide | backend/internal/service/authorization.go:68-191 | the uncached check returns a verdict the layered specification allows, or the membership error exactly without a membership |
| Authorization.AuthorizationService.Check | backend/internal/service/authorization.go:60-191 | a live cache entry is returned and nothing changes; otherwise the layers decide and the verdict is stored for one TTL |
| Authorization.ABACService.PrepareMissing | backend/internal/service/authorization.go:160-166 | policies not yet prepared are compiled from their stored source; compile errors are skipped |
| Authorization.ABACService.EvaluateEach | backend/internal/service/abac.go:61-71 | all answers by policy ID, or none if one evaluation fails; undefined and non-boolean answers count as false |
| Authorization.AuthService.RolesForTenant | backend/internal/service/auth.go:113-143 | the session's roles, with the errors for an inactive tenant and a missing membership |
| Decision.LookupIsFirst | backend/internal/repository/acl_repository.go:72-85 | the row found is the first, in the order of the table, that is equal on all six columns; none exactly if no row matches |
| Decision.AclVerdictIsFirst | backend/internal/service/authorization.go:84-136 | the ACL layer's verdict is that of the first consulted subject with an entry, in both directions |
| Decision.AllowHasAGrant | backend/internal/service/authorization.go:74-190 | deny by default: every allow comes from a granting role, an allow entry of the tenant for a consulted subject, or an active policy of the tenant, and from the first layer that speaks |
| Decision.AddingAnEntryOnlyAddsItsOwnEffect | backend/internal/service/authorization.go:84-136 | inserting an ACL entry anywhere makes no verdict possible that was not possible before, except one with the entry's own effect: allow entries never turn allow into deny, deny entries never turn deny into allow |
| AuthzReference.CheckIsReference | backend/internal/service/authorization.go:68-191 | the layers give exactly the verdicts of an independent definition in the columns of the tables: role permissions, then the first entry for the user, the first team or the first role with one, then any active policy, asked with all the effective roles |
| AuthzReference.RolesAreReference | backend/internal/service/authorization.go:193-216 | the roles are those of the membership and then of the user's teams in the tenant, in one pass over the rows; without a membership, or for a session without an active tenant, there are none |
| AuthzReference.AclVerdictHasEntry | backend/internal/repository/acl_repository.go:72-85 | an ACL verdict has an entry equal to the request on all columns, for the user, a team of theirs in the tenant or a role of theirs, with the verdict's effect; and where no role decides, every such entry brings an ACL verdict |
| AuthzReference.IrrelevantEntry | backend/internal/repository/acl_repository.go:72-85 | an entry that differs in any column, subject included, changes no verdict wherever it is inserted |
| AuthzCaching.SplitKey | backend/internal/service/authz_cache.go:29-31 | the pieces of a cache key are its fields |
| AuthzCaching.KeyInjective | backend/internal/service/authz_cache.go:29-31 | keys are equal exactly if all five fields are, when one of the two requests has no colon, whatever the other has, or both have them in the action alone |
| AuthzCaching.KeyCollision | backend/internal/service/authz_cache.go:29-31 | for every request with a colon in any field there is another one with the same key |
| AuthzCaching.OwnKeyIff | backend/internal/service/authz_cache.go:29-31 | a request has its key to itself exactly if none of its fields holds a colon |
| AuthzCaching.TenantPatternExact | backend/internal/service/authz_cache.go:96-106 | the tenant pattern matches exactly the tenant's keys, whatever their other fields hold |
| AuthzCaching.InstancePatternExact | backend/internal/service/authz_cache.go:59-70 | the instance pattern matches exactly the keys of that user and resource instance, for every action, glob characters in keys included |
| AuthzCaching.ResourcePatternExact | backend/internal/service/authz_cache.go:84-94 | the pattern with a wildcard in the middle matches exactly the keys of the resource instance, for every user and every action without a colon |
| AuthzCaching.InvalidationExact | backend/internal/service/authz_cache.go:59-106 | each of the three invalidations removes an entry exactly if its key is one of those meant, and keeps all others unchanged |
| AuthzCaching.AuthzCache.Get | backend/internal/service/authz_cache.go:33-48 | the entry's result while it has not expired, and a miss otherwise |
| AuthzCaching.AuthzCache.Set | backend/internal/service/authz_cache.go:50-57 | the result is stored under the key until one TTL from now |
| AuthzCaching.AuthzCache.InvalidateByResource | backend/internal/service/authz_cache.go:84-94 | exactly the entries whose key matches the pattern are removed |
| Staleness.EntriesHaveOrigins | backend/internal/service/authorization.go:60-82 | in every run each cache entry was computed by an earlier call and expires one TTL after that computation; hits do not renew it |
| Staleness.BoundedStaleness | backend/internal/service/authorization.go:60-191 | in every run of writes, evictions, cache failures and checks, a returned verdict is one the tables gave less than one TTL ago, or now, for a request with the same key |
| Staleness.BoundedStalenessForTheRequest | backend/internal/service/authorization.go:60-191 | and for a request with the same tenant, user, resource and action, if the request holds no colon, whatever others ask (or if no request so far has one before the action) |
| Staleness.PreparedAlwaysAgree | backend/internal/service/authorization.go:159-166 | in every run whose writes keep policy IDs unique and give no prepared ID another source, prepared queries agree with the stored sources at every moment |
| Staleness.FreshWhileUnchanged | docs/PRD.md:188 | in every such run, a verdict for such a request is one the present tables give for the same tenant, user, resource and action, if the tenant's rows have not changed for one TTL |
| Staleness.OnlyPoliciesSeeTheContext | backend/internal/service/authorization.go:74-190 | requests that differ in their context alone have the same verdicts by roles and ACL entries, and the same verdicts altogether if the tenant has no active policy |
| Staleness.BoundedStalenessWithContext | backend/internal/service/authorization.go:60-190 | an answer by a role or an ACL entry, or any answer if the tenant has had no active policy for one TTL, held for the very request, its context included, less than one TTL ago |
| Staleness.AnswerForAnotherContext | backend/internal/service/authz_cache.go:29-31 | for every policy that tells two contexts apart there is a run in which the grant for the one is returned for the other |
| Staleness.AnswerForSharedKey | backend/internal/service/authz_cache.go:29-31 | for any two different requests with one key there is a run in which the grant for the one is returned for the other, though the tables do not allow it |
| Staleness.AnswerForAnotherRequest | backend/internal/service/authz_cache.go:29-31 | there is such a run against every request with a colon in a field |
| Staleness.AnswerForAnotherTenant | backend/internal/service/authz_cache.go:29-31 | and one in which the two requests name different tenants and the second one's user is no member |
| Staleness.RevokedGrantStillHonoured | backend/internal/service/authorization.go:62-66 | for every age below the TTL there is a run in which a revoked grant is honoured at that age |
| Staleness.WriteThenInvalidateIsCoherent | backend/internal/service/authz_cache.go:96-106 | after a write confined to one tenant and the invalidation of that tenant, every entry left is what the tables now give |
| Staleness.InvalidatingRunIsFresh | docs/PRD.md:188 | if every write is confined to a tenant and followed by the invalidation of that tenant, every verdict for a request with its own key is one the present tables give, evictions, cache failures and requests with colons included |
| PolicyLifecycle.PolicyService.Activate | backend/internal/service/policy.go:54-75 | the tenant's rows the walk got through are switched, the target on and the others off, all others untouched; it stops with an error exactly at the first write that fails |
| PolicyLifecycle.PolicyService.Deactivate | backend/internal/service/policy.go:77-84 | the policy is switched off and nothing else changes; an unknown ID is an error |
| PolicyLifecycle.RowsAfter | backend/internal/service/policy.go:17-88 | each row after creating, activating, deactivating and deleting, told from the row before |
| PolicyLifecycle.SwitchedOffGrantsNothing | backend/internal/service/policy.go:77-88 | a policy that is switched off or deleted grants nothing any more |
| PolicyLifecycle.InterruptedActivation | backend/internal/service/policy.go:61-73 | an activation, cut short or not, keeps at most one active policy exactly unless the target is on and another active policy was not switched off |
| PolicyLifecycle.CompletedActivationRepairs | backend/internal/service/policy.go:54-75 | a completed activation leaves at most one active policy in its tenant, whatever it found, and changes no other tenant for the worse |
| PolicyLifecycle.RunKeeps | backend/internal/service/policy.go:54-88 | in every run of administration, interruptions included, and checks, IDs stay unique and prepared queries agree with stored sources |
| PolicyLifecycle.RunSound | backend/internal/service/policy.go:54-88 | in every such run at most one policy per tenant is active until, and exactly until, an activation leaves a tenant half switched |
| PolicyLifecycle.ActiveMeansSwitchedOn | backend/internal/repository/policy_repository.go:79-81 | if false flags are not written, a policy is active exactly if an activation ever switched it on |
| PolicyLifecycle.OneActiveWithoutFalseIff | backend/internal/repository/policy_repository.go:79-81 | and at most one per tenant is active exactly if no two live policies of a tenant were both switched on |
| PolicyLifecycle.PreparedIrrelevant | backend/internal/service/authorization.go:162-165 | what earlier checks prepared does not influence a verdict |
| PolicyLifecycle.PreparedKeys | backend/internal/service/authorization.go:160-166 | preparation adds only listed policies and never replaces what is prepared |
| PolicyLifecycle.VerdictUnique | backend/internal/service/authorization.go:168-181 | with at most one active policy per tenant the order of the result map does not matter |
| PolicyLifecycle.OutcomeUniqueIff | backend/internal/service/authorization.go:159-183 | with any number of active policies, a check has one possible outcome exactly if the user is no member, a role or ACL entry decides, no policy is active, an evaluation fails, or all active policies answer alike |
| PolicyLifecycle.DeterministicChecks | backend/internal/service/authorization.go:159-181 | in every such run, before any tenant is half switched, each check returns the one verdict that freshly compiled policies give |
| Isolation.NonInterference | backend/internal/service/authorization.go:68-216 | databases that agree on one tenant's rows allow the same verdicts for it, whatever other tenants hold |
| Isolation.NonInterferenceOfHistories | backend/internal/service/authorization.go:159-166 | and whatever either side's earlier checks prepared |
| Isolation.RolesAreLocal | backend/internal/service/auth.go:113-143 | and give the same session roles |
| Isolation.SessionRolesAreTheTenants | backend/internal/service/auth.go:72-95 | a session carries exactly the roles granted by the membership of its tenant and of that tenant's teams |
| AuditChain.AuditLogRepository.Create | backend/internal/repository/audit_repository.go:24-84 | appends the row as hashed and stored by the code, or nothing if the hash is taken |
| Decimals.DecimalValue | backend/internal/repository/audit_repository.go:26-38 | the decimal form of a timestamp stands for it |
| AuditChain.CreatedRow | backend/internal/repository/audit_repository.go:24-84 | in every run, what each call stores, column by column, hashed text and PrevHash included: the link is the hash of the tenant's last row, or none if the caller gave a PrevHash or the tenant has no row |
| AuditChain.ChainLinked | backend/internal/repository/audit_repository.go:41-60 | if no caller gives one, every row's PrevHash is the hash of its tenant's row before it, and empty exactly for the first |
| AuditChain.LatestIsMax | backend/internal/repository/audit_repository.go:46-53 | the row linked to is one of the tenant's with the greatest timestamp |
| AuditChain.AuditLogRepository.VerifyChain | backend/internal/repository/audit_repository.go:186-237 | succeeds exactly if every selected row after the first has the hash of its text after the previous hash |
| AuditChain.AcceptsIff | backend/internal/repository/audit_repository.go:201-233 | the comparison of each row after the first, column by column |
| AuditChain.RangeIs | backend/internal/repository/audit_repository.go:186-196 | of any table, the check reads exactly the tenant's rows from the start time on, in the order of their timestamps |
| AuditChain.BarFreeIff | backend/internal/repository/audit_repository.go:208-220 | the hashed text determines the record exactly if no field holds a bar |
| AuditChain.TextDeterminesRecord | backend/internal/repository/audit_repository.go:208-224 | the text after a bar-free previous hash, of a record without bars, determines both, whatever the other record holds |
| AuditChain.TamperEvidence | backend/internal/repository/audit_repository.go:186-237 | with a log at hand that has no bars after its first row, any other accepted log of its length with the same last hash, bars or not, records the same in every row after the first, or exhibits a hash collision |
| AuditChain.TamperEvidenceAnyHash | backend/internal/repository/audit_repository.go:186-237 | the same for two logs without bars, whatever the hash function and the first PrevHashes |
| AuditChain.BarsAllowTampering | backend/internal/repository/audit_repository.go:208-220 | for every log with a bar in a row there is another one with the same hashes, another record there, and the same outcome |
| AuditChain.FirstRowUnprotected | backend/internal/repository/audit_repository.go:201-205 | the first row may be any record with the same PrevHash |
| AuditChain.FieldBoundaryUnprotected | backend/internal/repository/audit_repository.go:208-220 | in any row of any log, a bar moved across the boundary of any two text fields changes the record and not the outcome, for any hash |
| AuditChain.CreatedRowPassesIff | backend/internal/repository/audit_repository.go:24-84 | the text created and the text checked are equal exactly if the check arrives with the hash the row was created after, the caller's timestamp is the clock's, and no map is nil; the row passes exactly then or by a collision of the two |
| AuditChain.VerifyAcceptsIff | backend/internal/repository/audit_repository.go:186-237 | on every table built by Create under a strictly increasing clock, the check as written succeeds exactly if every row after the first selected one is stored as hashed, the second was created with the first's PrevHash as its own, and each later one with none or its predecessor's hash |
| AuditChain.VerifyAcceptsAtMostOneRow | backend/internal/repository/audit_repository.go:186-237 | so for records without a PrevHash of their own it succeeds exactly if it selects at most one row |
| AuditChain.RepairedCreateVerifies | backend/internal/repository/audit_repository.go:24-84 | with the four repairs every such table is accepted for every tenant and start time |
| AuditChain.RepairedCreatedRow | backend/internal/repository/audit_repository.go:24-84 | what each call of a repaired run stores, column by column, always linked |
| RateLimit.TenantSignupRateLimiter.Allow | backend/internal/middleware/rate_limit.go:28-51 | admits exactly below the limit within the window, and stores the pruned list, with the new instant if admitted |
| RateLimit.TenantSignupRateLimiter.Pass | backend/internal/middleware/rate_limit.go:53-93 | the address key is asked first, the shared email key only after it and only if the body seems to hold an email |
| RateLimit.FindEmailInJSON | backend/internal/middleware/rate_limit.go:95-105 | the index of the first occurrence, or -1 exactly if there is none |
| RateLimit.PruningExact | backend/internal/middleware/rate_limit.go:32-50 | a call is admitted exactly if fewer than the limit of all past admissions lie in its window |
| RateLimit.AdmissionsSpread | backend/internal/middleware/rate_limit.go:28-51 | in every run any limit+1 consecutive admissions of a key span at least the window |
| RateLimit.StoredListBounded | backend/internal/middleware/rate_limit.go:36-50 | the stored list stays sorted and no longer than the limit |
| RateLimit.KeysIndependent | backend/internal/middleware/rate_limit.go:36-50 | calls for other keys change nothing for a key |
| SignupRisk.LimiterByHistory | backend/internal/middleware/rate_limit.go:28-93 | in every run a signup passes exactly if fewer than the limit of its address's admissions lie in the window and, if its body mentions an email, fewer than the limit of anyone's admitted emails do |
| SignupRisk.EmailSeenIff | backend/internal/middleware/rate_limit.go:69-105 | a body mentions an email exactly if it begins with a brace and holds the quoted word |
| SignupRisk.RiskScorer.AssessSignup | backend/internal/service/risk.go:64-111 | flags, score and review decision from the three signals |
| SignupRisk.ReviewMeansTwoSignals | backend/internal/service/risk.go:105-108 | the threshold is reached exactly by two or more signals |
| SignupRisk.SignalsAre | backend/internal/service/risk.go:71-102 | each signal has its own cause and weight |
| SignupRisk.DomainIs | backend/internal/service/risk.go:124-129 | the domain looked up is what follows the one @ of the address, in lower case; with none or several there is none |
| SignupRisk.LowerIs | backend/internal/service/risk.go:126 | lower-casing changes ASCII capitals to their small letters and nothing else |
| SignupRisk.Handle | backend/internal/api/tenant_handler.go:41-75 | limiter, assessment and recording in sequence; the flags are those of the assessment of a request that passes and binds |
| SignupRisk.CreationsAreRecorded | backend/internal/api/tenant_handler.go:41-65 | what the scorer counts for an address in a run is exactly its requests that passed, bound and created their tenant |
| SignupRisk.CreationsWereAdmitted | backend/internal/service/risk.go:113-118 | recorded creations are at most the admissions, in every window |
| SignupRisk.NeverRaised | backend/internal/service/risk.go:88-102 | if five admissions of one address take at least an hour under the limiter's settings, no run whatever raises the velocity signal |
| SignupRisk.VelocityUnreachableIff | backend/internal/service/risk.go:88-102 | over all runs of requests whose bodies are complete forms with distinct slugs, the velocity signal is unreachable exactly under that condition; both of the limiter's keys admit the runs that reach it |
| SignupRisk.EmailPassesSpread | backend/internal/middleware/rate_limit.go:64-84 | any limit+1 requests that mention an email and pass span at least the window, whatever their addresses |
| SignupRisk.ShippedSettings | backend/internal/config/config.go:33-34 | with five per hour, review means a disposable domain and a bad address |
| AuthCodes.IdentityProvider.CreateAuthCode | backend/internal/service/idp.go:237-255 | the code is stored with the grant and a ten-minute expiry |
| AuthCodes.IdentityProvider.HandleAuthorizationCodeGrant | backend/internal/api/idp_handler.go:353-421 | the outcome and the store after it, error by error; tokens that cannot be signed cost the code, an ID token that cannot be signed is left out |
| AuthCodes.OutcomeIff | backend/internal/api/idp_handler.go:353-421 | which request gets which error or the tokens: the client must be registered, enabled and present its secret, the code be stored and unexpired, the redirect URI equal; and what each leaves in the store |
| AuthCodes.IdentityProvider.ConsumeAuthCode | backend/internal/service/idp.go:257-265 | the unexpired code is returned and removed, unless the deletion silently fails |
| AuthCodes.CodesConserved | backend/internal/service/idp.go:257-265 | in every run responses plus the stored code are at most issues plus failed deletions |
| AuthCodes.AtMostOneResponse | backend/internal/service/idp.go:262-264 | a code issued once yields at most one token response in every run in which no response leaves it stored (section 4.1.2 of RFC 6749) |
| AuthCodes.ReplayIff | backend/internal/service/idp.go:257-265 | after a response, a later request with the code gets another one exactly if no deletion of the code has worked, that of the first response included, it has not expired, and client, redirect URI and signing are in order |
| AuthCodes.ResponseOrigin | backend/internal/api/idp_handler.go:366-420 | each response carries user, tenant and scopes of the issue, for its redirect URI, within ten minutes, with no consuming response in between |
| AuthCodes.StoredCodeOrigin | backend/internal/service/idp.go:237-265 | a stored code is as it was issued, with an expiry of ten minutes, and no response since has removed it |
| AuthCodes.FailureSpendsTheCode | backend/internal/api/idp_handler.go:366-406 | a redirect mismatch or a failure to sign uses the code up |
| AuthCodes.IssuingClientNotConsulted | backend/internal/api/idp_handler.go:359-377 | no outcome depends on the client recorded with the code |
| MagicLinks.PasswordlessService.CreateMagicLink | backend/internal/service/passwordless.go:57-86 | a link for a member of the tenant, valid fifteen minutes; nothing for an unknown address |
| MagicLinks.PasswordlessService.VerifyMagicLink | backend/internal/service/passwordless.go:96-122 | the outcome and the table after it; the link is marked before user and roles are looked up and tokens signed, and nothing else happens if marking fails |
| MagicLinks.OutcomeIff | backend/internal/service/passwordless.go:96-122 | which verification gets which error or the session |
| MagicLinks.OthersUntouched | backend/internal/repository/auth_ext_repository.go:58-61 | a verification changes no link with another ID, and of its own only the mark |
| MagicLinks.AddsIff | backend/internal/service/passwordless.go:57-86 | a link is added exactly for a member under a free token hash, with a fifteen-minute expiry |
| MagicLinks.UnusedUntilMarked | backend/internal/repository/auth_ext_repository.go:40-61 | in every run with distinct IDs a link stays unused exactly until a verification of that very link gets as far as marking it |
| MagicLinks.SessionIff | backend/internal/service/passwordless.go:96-122 | exactly which verifications of a run open a session |
| MagicLinks.SessionsConserved | backend/internal/repository/auth_ext_repository.go:40-61 | in every run sessions plus the unused link are at most the links created with that token |
| MagicLinks.AtMostOneSession | backend/internal/repository/auth_ext_repository.go:40-61 | a link yields at most one session |
| MagicLinks.SessionOrigin | backend/internal/service/passwordless.go:96-145 | each session is for the link's user and own tenant, before expiry, with that tenant's roles |
| CredentialRace.RedeemIsFindThenSpend | backend/internal/service/idp.go:257-265 | a token request alone is a find and a deletion |
| CredentialRace.VerifiedIsFindThenSpend | backend/internal/service/passwordless.go:96-122 | the verification of a link alone is a find and a marking |
| CredentialRace.SucceedsIff | backend/internal/service/idp.go:257-265 | in every interleaving a caller succeeds exactly if it found the credential before anything had removed it and took its second step |
| CredentialRace.TwoSuccessesOverlap | backend/internal/service/idp.go:257-265 | with working writes two callers succeed exactly if each found the credential before the other used it up |
| CredentialRace.AtMostOneSerial | backend/internal/service/passwordless.go:96-107 | with working writes and no caller between another's two steps, at most one caller succeeds |
| CredentialRace.AnyNumberSucceed | backend/internal/service/passwordless.go:96-107 | for any number of callers there is an interleaving in which all of them succeed |
| BackupCodes.RemoveFirstAt | backend/internal/service/mfa.go:101-104 | the removal takes the first occurrence and keeps the order of the rest |
| BackupCodes.MFAService.VerifyBackupCode | backend/internal/service/mfa.go:93-113 | succeeds exactly if a TOTP method of the user holds the code and the update works, and removes it from the first such method; a failure changes nothing |
| BackupCodes.UseIs | backend/internal/service/mfa.go:99-108 | the first copy of the code leaves the first of the user's TOTP methods that has one, the time is noted there, and nothing else changes |
| BackupCodes.UseTakesOne | backend/internal/service/mfa.go:99-112 | one copy of the code leaves that user's codes and no other user's |
| BackupCodes.CodesConserved | backend/internal/service/mfa.go:42-113 | in every run the codes left and the codes used are the codes issued |
| BackupCodes.UsedWithinIssued | backend/internal/service/mfa.go:93-113 | so no code is accepted more often than it was issued to the user |
| BackupCodes.ChoiceIs | backend/internal/service/mfa.go:151-164 | a choice changes nothing but the flags of that user's methods: on for the chosen one, off for the others if false flags are written |
| BackupCodes.OnePrimaryIff | backend/internal/service/mfa.go:151-164 | after the choice there is exactly one primary method, the chosen one, if it is the user's, and none otherwise |
| BackupCodes.PrimariesSinceChoice | backend/internal/service/mfa.go:42-164 | in every run the number of primary methods is one or none from the last choice plus the enrolments since then |
| BackupCodes.AllPrimary | backend/internal/repository/mfa_repository.go:77-91 | without a choice, or with false flags not written, all of the user's methods are primary |
| SigningKeys.JWKSService.Rotate | backend/internal/service/jwks.go:53-102 | the state after a rotation, with failures of the update and of the insertion |
| SigningKeys.JWKSService.GetActive | backend/internal/service/jwks.go:104-127 | the key returned, or the state in which the call waits for its own slot |
| SigningKeys.JWKSService.GetJWKS | backend/internal/service/jwks.go:133-177 | lists the key IDs of all rows but inactive expired and unreadable ones |
| SigningKeys.PublishedIff | backend/internal/service/jwks.go:133-177 | a key ID is listed exactly if it is that of a readable key that is active or unexpired |
| SigningKeys.ReturnedKeyUnexpired | backend/internal/service/jwks.go:104-127 | in every run no request returns a key that has expired at that moment |
| SigningKeys.ReturnedKeyIff | backend/internal/service/jwks.go:104-127 | which key a request returns in any state: the current one if unexpired, else the first active of the table if that is |
| SigningKeys.RotationIff | backend/internal/service/jwks.go:53-102 | when a rotation is completed, and every row and the current key after it; the new key is active for ninety days |
| SigningKeys.InitializeIff | backend/internal/service/jwks.go:38-51 | initialization takes over the first active key of the table unless that has expired, and rotates then |
| SigningKeys.RotationKeepsValid | backend/internal/service/jwks.go:57-101 | rotation keeps the current key stored and loses no key wherever it fails, and leaves no other key active if false flags are written |
| SigningKeys.InitializeValidIff | backend/internal/service/jwks.go:38-51 | initialization leaves at most one active key exactly unless the table can and does take the new key and holds an active one that has expired |
| SigningKeys.InitializationBesideAnExpiredKey | backend/internal/service/jwks.go:38-51 | started on a table whose only key is active and expired, the service ends with two active keys |
| SigningKeys.RotationWithoutInitialization | backend/internal/service/jwks.go:57-101 | a first rotation without initialization does so exactly if no key was active |
| SigningKeys.OneActiveKey | backend/internal/service/jwks.go:38-127 | if false flags are written: in every run after an initialization that found no active key that had expired, with failures anywhere, at most one stored key is active |
| SigningKeys.TwoActiveKeysIff | backend/internal/service/jwks.go:38-127 | and after one that did find it, that key stays active, and there are two active keys exactly while a key of the service's own is active |
| SigningKeys.ActiveKeysAddUp | backend/internal/repository/idp_repository.go:412-423 | if they are not: the active keys are those of the start plus one per completed rotation, so at most one exactly if that sum is at most one |
| SigningKeys.ReturnedKeyStaysPublished | backend/internal/service/jwks.go:104-177 | a key returned for signing stays listed through any later events until it expires, whether false flags are written or not |
| SigningKeys.GetReturnsIff | backend/internal/service/jwks.go:104-127 | in a valid state a request for the active key returns exactly if the current key has no expiry or one after now, and otherwise blocks or fails to read |
| SigningKeys.BlockedForGood | backend/internal/service/jwks.go:123-125 | after a blocked request every later call blocks |
| KeySlot.OneHolder | backend/internal/service/jwks.go:53-55 | in every interleaving at most one caller holds the slot |
| KeySlot.StuckForever | backend/internal/service/jwks.go:104-125 | once a holder waits for the slot again, nobody takes it ever after |
| Scopes.ParseScopes | backend/internal/api/idp_handler.go:596-617 | the non-empty pieces between spaces, in order |
| Scopes.ParseJoin | backend/internal/api/idp_handler.go:596-637 | parsing undoes joining exactly on lists of non-empty tokens without spaces (section 3.3 of RFC 6749) |
| Scopes.ParseJoinParse | backend/internal/api/idp_handler.go:596-637 | parsing, joining and parsing again is parsing |
| Scopes.JoinScopes | backend/internal/api/idp_handler.go:628-637 | the tokens joined by single spaces |
| Scopes.JoinScopesRelyingParty | backend/internal/service/oauth2.go:370-379 | the same string as the identity provider's version |
| RoleColumn.RolesRoundTrip | backend/internal/repository/membership_repository.go:88-108 | a role list is read back unchanged exactly if its names are comma-free and it is not the list of one empty name |
| RoleColumn.ColumnRoundTrip | backend/internal/repository/membership_repository.go:88-108 | reading and storing a column changes nothing |
| InvalidationMessages.ParseInvalidationMessage | backend/internal/service/authz_cache.go:174-182 | the text before and after the first colon, or the whole message |
| InvalidationMessages.PublishParse | backend/internal/service/authz_cache.go:166-182 | a published message is parsed into its type and payload exactly if the type has no colon |
| Backoff.WebhookDelivery.ScheduleRetry | backend/internal/service/webhook.go:325-345 | no retry from the maximum on; otherwise the delay for the attempt is added to the clock |
| Backoff.TruncateTowardZero | backend/internal/service/webhook.go:332 | the grown interval is cut to whole nanoseconds toward zero |
| Backoff.WholeMultiplier | backend/internal/service/webhook.go:330-332 | with a whole multiplier the freely grown interval is the first times the power of the multiplier |
| Backoff.ClosedForm | backend/internal/service/webhook.go:330-337 | from the second attempt the delay is the minimum of the maximum interval and the freely grown one |
| Backoff.MonotoneIff | backend/internal/service/webhook.go:330-337 | delays never shrink exactly if the first interval does not exceed the maximum |
| Backoff.ShrinkingClosedFormIff | backend/internal/service/webhook.go:330-337 | with a multiplier below one the delay is the closed form exactly if the first grown interval is within the maximum or the last is still at or beyond it |
| Backoff.ShrinkingPolicySticks | backend/internal/service/webhook.go:332-336 | a policy for which it is not |

## Left out

- Gin handlers, routing, HTTP status codes, GORM, Postgres and Redis clients: I/O; only the token-grant logic and the signup route are kept.
- Database errors inside an authorization check: the code treats every failed lookup but that of the membership as an empty result, so such a check is a check on tables without those rows.
- Descriptive columns (names of methods, policy descriptions, created and updated timestamps): no modelled operation reads them.
- The policy service's own update, and DryRun: the first is not routed and can set any flag, the second forwards to Check.
- A cache TTL of zero: the client library reads it as no expiry; the shipped TTL is five minutes and the model's is positive.
- InvalidateBySubject: its pattern puts the subject type where keys have the user ID, so no exactness holds; InvalidateAll is the pattern of all keys.
- Redis bracket classes, question marks and escapes in patterns: excluded by the plain components of the exactness lemmas.
- An authorization check that overlaps a write between reading and storing: every check is one instant.
- Order of audit rows with equal timestamps: the database leaves it open; the model keeps insertion order, and the theorems about Create use a strictly increasing clock.
- PKCE verification, client and consent management, refresh-token and client-credentials grants: skipped by the code, or plain lookups.
- Cryptography, JWT encoding, TOTP, PEM, OPA evaluation, SAML, WebAuthn, email and webhook transport, SCIM, SOC2 and GDPR services: abstract parameters, network code or placeholders.
- Lower-casing outside ASCII in email domains, and ill-formed UTF-8 in scope strings.
- Floating-point rounding and 64-bit overflow in retry delays.
- RemoveMethod of MFA methods: deletes a row together with its codes.
- A failing write inside SetPrimaryMethod: it ends the walk over the methods, which is modelled as completed.
- Signup bodies that bind but are not the plain JSON text of a form: the runs that reach the velocity signal are built from plain ones, and NeverRaised covers all.
