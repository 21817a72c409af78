# Customer portal: a verified model

This project models the logic of the customer portal's .NET service and of the scripts and documents around it, and
proves properties of that model with Dafny 4.11. `dafny verify dfyconfig.toml` checks all of it.

What is modelled:

- **Accounts** (`Accounts`, `Protocol`, `Linearizability`, `Registration`, `AccountRuns`, `AccountLife`, `Services`).
  Registration is check-then-act over a shared table with a unique index on the email. `Protocol` is a transition
  system: any number of requests in flight, each database call one atomic action, an administrator who may switch
  accounts on and off between any two of them. Its runs start from any well-formed table. `Services` holds the same
  operations as methods of the service classes, for a request that runs undisturbed.
- **Passwords** (`Text`, `PasswordPolicy`, `PasswordOrder`, `Bcrypt`). Passwords are UTF-16 strings; the policy counts
  their UTF-8 bytes. BCrypt's key is the first 72 bytes of the NUL-terminated password repeated without end; what
  follows is an abstract function, injective in the key for each salt.
- **Keys and ids** (`Email`, `LongText`), **audit timestamps** (`Audit`).
- **The delivery workflow** (`StageMap`, `Workflow`, `ArtifactVersions`, `Orchestration`): the routing table stage by
  stage, runs with artifact versions, and the orchestrator that writes state and history.
- **The launcher script** (`Gradlew`): quoting for `eval`, and the in-place conversion of arguments.

`Platform` collects what the portal takes from .NET, Unicode and BCrypt as function-valued fields, with the laws relied
on: white space is no letter or digit; lower-casing is idempotent and keeps white space white space; the digest is
injective in the 72-byte key. `LawfulRuntimeExists` shows that the laws can be met. General categories are one value per
code unit, so the character classes are disjoint by construction.

Where the code and its documentation differ, or a claim needs a proviso:

- A duplicate registration is documented as a 409. The code answers 500 when the unique index, not the existence check,
  refuses it. The model follows the code: `ConflictIffTakenAtCheck` and `ServerErrorIffTakenAtCommit` say exactly when
  each answer is given, `RaceLoserAnswers500` gives the run.
- The 72-byte bound is said to be BCrypt's input limit. The key is lossless on accepted passwords without NUL
  characters; with them it is not. `KeysMatchIff` says for any two byte strings whether their keys agree,
  `AnySharesKeyIff` which accepted passwords share their key with another accepted one, and `SharesKeyIff` which do
  among those without NULs: with `n` bytes, those with `n <= 35`, and those with `36 <= n <= 71` whose byte `71 - n`
  starts a character. `VerifiesIff` and `OpensIff` say which passwords open an account, NULs included.
- The password verdict is independent of the order of the characters on strings without surrogates.
  `OrderIsImmaterialIff` says exactly for which strings it is.
- The launcher's comments warn of newlines and unmatched quotes only; a token that `echo` takes as one of its options is
  lost as well (`ExactRoundTripIff`).
- The artifact rules say when a version is incremented but not what a re-run that changes nothing records. In the model
  a passing stage leaves an output at its version only if the whole artifact, `inputs` block included, would be the
  same.
- The `ACTIVATED` marker is modelled as the pass of `BACKLOG_SYNC`, and the `story` artifact is given versions like
  every other output of that stage. An unknown loop-back key holds the stage, as the routing table says; a verdict the
  stage cannot have is refused and changes nothing.
- At stage `COMPLETED` two documents name different status values; the model uses the waiting status, by the rule for
  human gates.

## Model

| member | source | states |
|---|---|---|
| Text.ByteCountIsEncodedLength | dotnet/CustomerPortal/src/CustomerPortal.Api/Validation/PasswordPolicy.cs:29 | the byte count the policy uses is the length of the UTF-8 encoding, for every UTF-16 string, unpaired surrogates (encoded as U+FFFD) included |
| Text.ByteCountBounds | dotnet/CustomerPortal/src/CustomerPortal.Api/Validation/PasswordPolicy.cs:29-33 | the count lies between the number of UTF-16 units and three times that number |
| Text.ByteCountAppend | dotnet/CustomerPortal/src/CustomerPortal.Api/Validation/PasswordPolicy.cs:29-33 | counts add up under concatenation, less exactly 2 where a surrogate pair is cut in two |
| Text.Utf8RoundTrip | dotnet/CustomerPortal/src/CustomerPortal.Api/Validation/PasswordPolicy.cs:29 | decoding an encoding (strict decoder of section 3 of RFC 3629) gives the scalar values back |
| Text.DecodedUtf8Reencodes | dotnet/CustomerPortal/src/CustomerPortal.Api/Validation/PasswordPolicy.cs:29 | whatever the strict decoder accepts is the encoding of what it returns, so encodings and scalar strings correspond one to one |
| Text.Utf8Injective | dotnet/CustomerPortal/src/CustomerPortal.Api/Services/CustomerService.cs:37 | different well-formed strings have different UTF-8 bytes |
| Text.EncodingOfText | dotnet/CustomerPortal/src/CustomerPortal.Api/Validation/PasswordPolicy.cs:29 | the first example of section 7 of RFC 3629, byte for byte |
| Text.EncodingOfSurrogates | dotnet/CustomerPortal/src/CustomerPortal.Api/Validation/PasswordPolicy.cs:29 | its last example, a surrogate pair, and the three bytes of an unpaired surrogate |
| PasswordPolicy.IsCompliant | dotnet/CustomerPortal/src/CustomerPortal.Api/Validation/PasswordPolicy.cs:22-61 | the flag loop with its early returns accepts exactly the non-null strings of 12 to 72 UTF-8 bytes with a character of category Lu, one of Ll, one of Nd, and one that is no letter and no decimal digit |
| PasswordPolicy.AsciiVerdict | dotnet/CustomerPortal/src/CustomerPortal.Api/Validation/PasswordPolicy.cs:15-16 | of ASCII strings with the four classes exactly those of 12 to 72 characters are compliant |
| PasswordPolicy.ByteBoundsAreTight | dotnet/CustomerPortal/src/CustomerPortal.Api/Validation/PasswordPolicy.cs:29-33 | for every length, a string of that many bytes with the four classes, which is compliant exactly within the bounds: 11 and 73 bytes are refused, 12 and 72 accepted |
| PasswordPolicy.CompliantLength | dotnet/CustomerPortal/src/CustomerPortal.Api/Validation/PasswordPolicy.cs:15-33 | a compliant password has 4 to 72 UTF-16 units |
| PasswordPolicy.CompliantLengthIsTight | dotnet/CustomerPortal/src/CustomerPortal.Api/Validation/PasswordPolicy.cs:15-33 | both ends of that range occur |
| PasswordOrder.VerdictOfPermutation | dotnet/CustomerPortal/src/CustomerPortal.Api/Validation/PasswordPolicy.cs:29-60 | of a permutation of a string only the number of its surrogate pairs matters: it is compliant exactly if the string has all classes and its units' bytes, less two for each pair of the permutation, are within the bounds |
| PasswordOrder.OrderIsImmaterialIff | dotnet/CustomerPortal/src/CustomerPortal.Api/Validation/PasswordPolicy.cs:29-60 | every permutation of a string gets the same verdict exactly if a class is missing, or the byte counts with no pair and with as many pairs as its surrogates can form are both within the bounds or both outside |
| PasswordOrder.VerdictIgnoresOrder | dotnet/CustomerPortal/src/CustomerPortal.Api/Validation/PasswordPolicy.cs:40-60 | in particular, on strings without surrogates the verdict is the same for every permutation of the characters |
| PasswordOrder.VerdictDependsOnSurrogateOrder | dotnet/CustomerPortal/src/CustomerPortal.Api/Validation/PasswordPolicy.cs:29-33 | with surrogates it need not be: a compliant 72-byte string and a permutation of it that is refused |
| PasswordPolicy.AppendedTextKeepsCompliance | dotnet/CustomerPortal/src/CustomerPortal.Api/Validation/PasswordPolicy.cs:29-60 | appending text to a compliant password keeps it compliant exactly if the result fits 72 bytes |
| PasswordPolicy.GatesAgree | dotnet/CustomerPortal/src/CustomerPortal.Api/Validation/ValidPasswordAttribute.cs:18-26 | NotBlank and ValidPassword together accept exactly what the service's own check accepts, null and empty included; alone, ValidPassword lets null and empty through besides |
| Bcrypt.KeysMatchIff | dotnet/CustomerPortal/src/CustomerPortal.Api/Validation/PasswordPolicy.cs:9-11 | for any two byte strings, NULs or not: b has the 72-byte key of a exactly if b begins with that key, or b with its NUL is a prefix of the key and its length a period of it |
| Bcrypt.KeysMatchNulFreeIff | dotnet/CustomerPortal/src/CustomerPortal.Api/Validation/PasswordPolicy.cs:9-11 | for a NUL-free a: b has the key of a exactly if b begins with that key, or b with its NUL is a with its NUL written one or more times |
| Bcrypt.KeysAgreeIff | dotnet/CustomerPortal/src/CustomerPortal.Api/Validation/PasswordPolicy.cs:9-11 | two NUL-free byte strings have the same 72-byte BCrypt key exactly if they are equal, or both have 72 bytes or more and agree on the first 72 |
| Bcrypt.AcceptedPasswordsHaveDistinctKeys | dotnet/CustomerPortal/src/CustomerPortal.Api/Validation/PasswordPolicy.cs:15-33 | different accepted passwords (well-formed, NUL-free) have different BCrypt keys: the 72-byte bound loses nothing |
| Bcrypt.VerifiesIff | dotnet/CustomerPortal/src/CustomerPortal.Api/Services/AuthService.cs:24 | any password q verifies against the hash of any p exactly if q begins with the key of p, or q with its NUL is a prefix of that key whose length is a period of it |
| Bcrypt.OpensIff | dotnet/CustomerPortal/src/CustomerPortal.Api/Services/AuthService.cs:24 | for a NUL-free p: exactly if q begins with the key of p or is p repeated with NULs in between; for a NUL-free q and a p within the bound: exactly if q is p, or p has exactly 72 bytes and q's bytes extend p's |
| Bcrypt.Bound73IsNotLossless | dotnet/CustomerPortal/src/CustomerPortal.Api/Validation/PasswordPolicy.cs:16 | with a bound of 73 two different accepted passwords share a key |
| Bcrypt.RepeatedKey | dotnet/CustomerPortal/src/CustomerPortal.Api/Validation/PasswordPolicy.cs:9-11 | any byte string, a NUL, and the string again, whole or up to the 72nd byte, has the key of the string |
| Bcrypt.SharesKeyIff | dotnet/CustomerPortal/src/CustomerPortal.Api/Validation/PasswordPolicy.cs:22-61 | an accepted well-formed NUL-free password of n bytes shares its key with another accepted well-formed one exactly if n is at most 35, or at most 71 and its byte 71 - n starts a character |
| Bcrypt.AnySharesKeyIff | dotnet/CustomerPortal/src/CustomerPortal.Api/Validation/PasswordPolicy.cs:22-61 | any accepted well-formed password shares its key with another accepted well-formed one exactly if that condition holds or the key has, at another place than the password's end, a NUL that ends a period of it and before which there is an accepted text |
| Bcrypt.RoomMeansShared | dotnet/CustomerPortal/src/CustomerPortal.Api/Validation/PasswordPolicy.cs:22-61 | that condition suffices for accepted passwords with NULs too |
| Email.TrimAndLowerCommute | dotnet/CustomerPortal/src/CustomerPortal.Api/Services/CustomerService.cs:65 | trimming and lower-casing commute |
| Email.NormalizeIsIdempotent | dotnet/CustomerPortal/src/CustomerPortal.Api/Services/CustomerService.cs:65 | normalising a normalised address changes nothing |
| Email.NormalizeNeverLengthens | dotnet/CustomerPortal/src/CustomerPortal.Api/Models/Requests/RegistrationRequest.cs:16-19 | the stored key is never longer than the submitted address, hence at most 254 characters after validation |
| Email.SameKeyIff | dotnet/CustomerPortal/src/CustomerPortal.Api/Services/AuthService.cs:34 | two addresses have the same key exactly if they are white-space paddings of two strings that differ in case only; registration and login use the same key |
| Email.NotBlankIff | dotnet/CustomerPortal/src/CustomerPortal.Api/Validation/NotBlankAttribute.cs:17 | a value passes NotBlank exactly if its key is not empty |
| LongText.IdRoundTrip | dotnet/CustomerPortal/src/CustomerPortal.Api/Security/TokenService.cs:28 | the decimal text of an id parses back to the id exactly if the id is a 64-bit number, in digits |
| Accounts.LookupsAreSingle | dotnet/CustomerPortal/src/CustomerPortal.Api/Data/CustomerPortalDbContext.cs:55-57 | on a well-formed table neither SingleOrDefaultAsync lookup ever meets several rows |
| Accounts.TheOneWithEmail | dotnet/CustomerPortal/src/CustomerPortal.Api/Services/AuthService.cs:22 | the lookup by email returns the row that has the email |
| Accounts.TheOneWithId | dotnet/CustomerPortal/src/CustomerPortal.Api/Services/CustomerService.cs:55 | the lookup by id returns the row that has the id |
| Accounts.InsertKeepsTableOk | dotnet/CustomerPortal/src/CustomerPortal.Api/Data/Migrations/20260903105652_InitialCreate.cs:18-36 | a committed insert keeps emails distinct, ids increasing and every row well-formed |
| Accounts.ErrorBodies | dotnet/CustomerPortal/src/CustomerPortal.Api/ErrorHandling/ApiExceptionHandler.cs:19-26 | status, title and message of every exception, word for word |
| Accounts.SetEnabledMeans | dotnet/CustomerPortal/src/CustomerPortal.Api/Data/CustomerPortalDbContext.cs:75-90 | switching an account sets its flag, stamps the row if that was a change, and touches no other row |
| Protocol.EveryStateOk | dotnet/CustomerPortal/src/CustomerPortal.Api/Services/CustomerService.cs:29-43 | in every reachable state the table is well-formed and each pending registration still holds exactly the entity its request calls for |
| Protocol.RunGrows | dotnet/CustomerPortal/src/CustomerPortal.Api/Services/CustomerService.cs:42-45 | between any two points of a run, answers, requests and accounts persist; only the enabled flag and its timestamp change |
| Protocol.CallsCanFinish | dotnet/CustomerPortal/src/CustomerPortal.Api/Services/CustomerService.cs:19-46 | whatever other calls have done, a call in flight can finish by at most four actions of its own |
| Linearizability.ActionIsItsEffect | dotnet/CustomerPortal/src/CustomerPortal.Api/Services/CustomerService.cs:29-43 | each database call changes the table and answers its request exactly as one atomic operation does, or leaves the table alone; no other call is answered by it |
| Linearizability.EffectsLinearize | dotnet/CustomerPortal/src/CustomerPortal.Api/Services/CustomerService.cs:19-46 | the linearization points (commit for 201 and 500, existence check for 400 and 409, row read for logins and profiles) give a sequential run with the same final table and the same answers, a 500 of the unique index read as 409 |
| Linearizability.EveryRunIsLinearizable | dotnet/CustomerPortal/src/CustomerPortal.Api/Services/CustomerService.cs:19-63 | every interleaving of any number of registrations, logins, profile views and administrative updates is linearizable |
| Linearizability.LinearizableVerbatimIff | dotnet/CustomerPortal/src/CustomerPortal.Api/ErrorHandling/ApiExceptionHandler.cs:19-26 | a run has a linearization with its own answers, none read as another, exactly if no registration in it was answered 500 |
| Linearizability.RealTimeOrder | dotnet/CustomerPortal/src/CustomerPortal.Api/Services/CustomerService.cs:19-46 | in any linearization a call that returned before another was invoked takes effect before it |
| Registration.AccountsInvariant | dotnet/CustomerPortal/src/CustomerPortal.Api/Services/CustomerService.cs:34-45 | in every reachable state emails are distinct and normalised, ids increase in commit order, every row is a CUSTOMER with the hash of a compliant password, and the rows the run added and the 201 answers own one another one to one |
| Registration.EmailsAccountedFor | dotnet/CustomerPortal/src/CustomerPortal.Api/Services/CustomerService.cs:29-43 | at any point of a run the emails in the table are those of the start and those for which compliant registrations have been answered |
| Registration.ExactlyOneWinner | dotnet/CustomerPortal/src/CustomerPortal.Api/Services/CustomerService.cs:29-43 | if an email is free at the start and compliant registrations for it all finish, exactly one gets 201 and every other 409 or 500 |
| Registration.RegistrationAnswers | dotnet/CustomerPortal/src/CustomerPortal.Api/Services/CustomerService.cs:24-45 | an answered registration got the 400 if the password is not compliant, else the 409, the 500, or a 201 that shows the id, email, role text and creation time of a row the run added; the error bodies are written out |
| Registration.ServerErrorMeansRace | dotnet/CustomerPortal/src/CustomerPortal.Api/ErrorHandling/ApiExceptionHandler.cs:19-26 | a registration answered 500 was checked before, and tried to commit after, the winner's commit; the two calls overlap in time |
| Registration.ConflictIffTakenAtCheck | dotnet/CustomerPortal/src/CustomerPortal.Api/Services/CustomerService.cs:29-32 | a finished compliant registration is answered 409 exactly if the email was taken at its existence check |
| Registration.ServerErrorIffTakenAtCommit | dotnet/CustomerPortal/src/CustomerPortal.Api/Services/CustomerService.cs:42-45 | a registration that reaches its commit is answered 500 if the email is taken by then and 201 if not |
| Registration.RaceLoserAnswers500 | dotnet/CustomerPortal/src/CustomerPortal.Api/ErrorHandling/ApiExceptionHandler.cs:25 | for every table, free email and compliant password there is a run in which the second of two registrations is answered 500 instead of 409 |
| Registration.ValidatedIsNeverBadRequest | dotnet/CustomerPortal/src/CustomerPortal.Api/Services/CustomerService.cs:24-27 | a registration that passed the request gates is never refused for its password |
| AccountRuns.LoginReadsTheRow | dotnet/CustomerPortal/src/CustomerPortal.Api/Services/AuthService.cs:20-31 | after a 201, any later login for the same email key is answered with that account if it is enabled and the password verifies, and 401 otherwise |
| AccountRuns.OwnPasswordSucceeds | dotnet/CustomerPortal/src/CustomerPortal.Api/Services/AuthService.cs:24 | with the registered password the login succeeds exactly if the account is enabled when its row is read |
| AccountRuns.LoginSucceedsIff | dotnet/CustomerPortal/src/CustomerPortal.Api/Services/AuthService.cs:20-31 | in any run a login with any password q, NULs included, is answered with the account exactly if the account is enabled and q opens it, in the three forms of VerifiesIff and OpensIff; the token's subject parses back to the id |
| AccountRuns.ProfileShowsTheAccount | dotnet/CustomerPortal/src/CustomerPortal.Api/Controllers/CustomersController.cs:35-40 | with a token for the account of a 201, the profile of that id shows in every later state what the 201 showed, and every other id is denied |
| AccountRuns.JourneyReturnsToTheAccount | dotnet/CustomerPortal/src/CustomerPortal.Api/Services/CustomerService.cs:48-63 | registration, login and profile composed: the token a login was given leads back to the account the registration was answered with |
| AccountRuns.LoginAnswered | dotnet/CustomerPortal/src/CustomerPortal.Api/Services/AuthService.cs:20-31 | in any run a login is answered with a token exactly if a row with the email's key is enabled and its hash verifies the password; token and account carry that row's id, email, role text and creation time; every other login gets the 401, written out |
| AccountRuns.FailedLoginIs401 | dotnet/CustomerPortal/src/CustomerPortal.Api/Services/AuthService.cs:24-27 | a login in a run succeeds with 200 or gets the one 401; for a key no row has it gets the 401 |
| AccountRuns.ProfileAnswered | dotnet/CustomerPortal/src/CustomerPortal.Api/Services/CustomerService.cs:48-63 | in any run a profile is shown exactly if the caller asks for their own id and a row has it, with that row's fields; otherwise the answer is the 403, or 500 without a numeric id in the token |
| AccountRuns.FailedLoginsLookAlike | dotnet/CustomerPortal/src/CustomerPortal.Api/ErrorHandling/ApiExceptionHandler.cs:19-33 | in any two runs any two failing logins get the same answer, whatever the reason |
| AccountRuns.ForeignProfileIs403 | dotnet/CustomerPortal/src/CustomerPortal.Api/Services/CustomerService.cs:50-60 | in any run a profile view for another id, or for an id without a row, gets the same 403 |
| AccountLife.CommittedRow | dotnet/CustomerPortal/src/CustomerPortal.Api/Services/CustomerService.cs:34-45 | the row a 201 commits, field by field: the next id, the email's key, the hash of the password, CUSTOMER, enabled, created and updated at the instant at which the call stamped it; the 201 shows that row |
| AccountLife.CreatedWasCommitted | dotnet/CustomerPortal/src/CustomerPortal.Api/Services/CustomerService.cs:42-45 | every 201 in a run stems from a commit of its call |
| AccountLife.FlagFollowsAdministrator | dotnet/CustomerPortal/tests/CustomerPortal.Api.Tests/Login/CustomerLoginApiTests.cs:47-54 | between any two points of a run an account is enabled as the last administration of its email left it; nothing else changes the flag |
| AccountLife.LoginAfterCommit | dotnet/CustomerPortal/src/CustomerPortal.Api/Services/AuthService.cs:20-31 | a login after a 201 is answered with the account exactly if the account was not last switched off since the commit and the password opens it; nothing else in the run matters |
| AccountLife.RegisteredLogsIn | dotnet/CustomerPortal/src/CustomerPortal.Api/Services/CustomerService.cs:39 | after a 201 with no administration of that email since, the registered password logs in |
| AccountLife.AdministersExisting | dotnet/CustomerPortal/tests/CustomerPortal.Api.Tests/Login/CustomerLoginApiTests.cs:47-54 | the administrator can act on an email exactly if an account has it |
| Services.CustomerService.RegisterAsync | dotnet/CustomerPortal/src/CustomerPortal.Api/Services/CustomerService.cs:19-46 | undisturbed, the method performs the atomic registration on the shared table, never meets the unique index, keeps the table well-formed, and appends a row whose fields are listed; it refuses exactly non-compliant passwords and taken emails |
| Services.CustomerService.GetProfileAsync | dotnet/CustomerPortal/src/CustomerPortal.Api/Services/CustomerService.cs:48-63 | the method answers as the profile operation does: the caller's own row, field by field, if it exists, and the refusal otherwise |
| Services.AuthService.LoginAsync | dotnet/CustomerPortal/src/CustomerPortal.Api/Services/AuthService.cs:18-32 | the method succeeds exactly if an enabled row with the email's key has a hash that verifies the password, with a token of that row's id, email and role; otherwise, an unknown email included, it refuses |
| Audit.ChangeTracker.ApplyAuditTimestamps | dotnet/CustomerPortal/src/CustomerPortal.Api/Data/CustomerPortalDbContext.cs:75-90 | one pass sets both timestamps of added entities and the second of modified ones to the same instant, and leaves unchanged ones alone |
| Audit.TimestampsTellWhen | dotnet/CustomerPortal/src/CustomerPortal.Api/Data/CustomerPortalDbContext.cs:61-90 | over any sequence of saves a row's timestamps are the instant of the save that inserted it and of the last save that wrote it |
| Audit.CreatedBeforeUpdated | dotnet/CustomerPortal/src/CustomerPortal.Api/Data/CustomerPortalDbContext.cs:80-88 | with a clock that never goes back no row is updated before it was created |
| Audit.CreationTimeIsFixed | dotnet/CustomerPortal/src/CustomerPortal.Api/Data/CustomerPortalDbContext.cs:80-88 | once inserted, a row stays and keeps its creation time |
| StageMap.ForwardIsNextInOrder | docs/workflow/stage-map.yaml:32-54 | every forward edge of the routing table leads to the next stage in order |
| StageMap.BackwardNeverAdvances | docs/workflow/stage-map.yaml:116-318 | every loop-back and rejection stays or goes back, by at most 16 stages |
| StageMap.InputsComeFromEarlier | docs/workflow/stage-map.yaml:96-294 | every input of a stage is owned by an earlier stage |
| StageMap.WaysBackAgree | docs/workflow/stage-map.yaml:116-294 | the loop-backs read by target stage are the loop-backs read by source stage |
| Workflow.PassesAreFresh | docs/workflow/stage-map.yaml:81-328 | in every run each stage before the current one was last left by a pass, approval or permitted NOT_APPLICABLE, and nothing up to it was visited since |
| Workflow.FreshPassesInOrder | docs/workflow/state-schema.md:93-108 | these last passes happened in stage order |
| Workflow.GatesAreApprovedAgain | docs/workflow/state-schema.md:105-108 | after any return to or before a human gate, the run is beyond the gate only after a new approval there |
| Workflow.EarlierStagesSettled | docs/workflow/artifact-schema.md:38-42 | in every run the outputs of every stage before the current one are excused, or present and recorded against the versions their inputs have now |
| Workflow.InputsAreCurrent | docs/workflow/artifact-schema.md:38-42 | on entry to any stage every listed input is excused, or present, complete and current together with everything it was made from; the staleness rule never blocks a required input |
| ArtifactVersions.VersionsCountRevisions | docs/workflow/artifact-schema.md:31 | at any point of a run an artifact exists once it has been revised, and its version is the number of events that revised it |
| ArtifactVersions.RevisedAfterInputs | docs/workflow/artifact-schema.md:38-42 | without versions: in every run the last revision of every non-excused artifact of an earlier stage comes after the last revision of everything it is made from |
| ArtifactVersions.StaleIff | docs/workflow/artifact-schema.md:40-41 | at any point of a run an artifact is stale exactly if an event revised something it was made from and none revised it since |
| ArtifactVersions.RevisionMakesStale | docs/workflow/artifact-schema.md:41 | a revision makes every artifact that recorded the earlier version stale until that is revised itself |
| ArtifactVersions.PassRefreshesOutputs | docs/workflow/artifact-schema.md:42 | a stage passes only by revising its stale outputs |
| ArtifactVersions.FlagsTellLastVerdict | docs/workflow/stage-map.yaml:56-60 | at any point of a run the stages held not applicable are those whose last recorded verdict was NOT_APPLICABLE |
| ArtifactVersions.SkippedStages | docs/workflow/stage-map.yaml:134-165 | only the design stages are skipped and then write nothing; the design review is skipped only when both designs were, and still has its artifact |
| ArtifactVersions.RecordableIff | docs/workflow/state-schema.md:97-108 | which verdicts a stage can have: decisions exactly at the five gates, results elsewhere, none at the end |
| ArtifactVersions.VerdictLeads | docs/workflow/state-schema.md:97-108 | where each verdict of a run leads: one stage on, back by the loop-back of its key, back from a rejection, or nowhere |
| ArtifactVersions.HeldIff | docs/workflow/state-schema.md:97-101 | a stage is held exactly by BLOCKED and by a loop-back key that leads nowhere from it |
| ArtifactVersions.StepsBackReachAnOwner | docs/workflow/stage-map.yaml:116-318 | every step back in a run leads to the owner of an artifact that the stage it leaves had before it |
| Workflow.ApprovedArtifactsUnchanged | docs/workflow/stage-map.yaml:119-126 | past a human gate every artifact owned before it is still as it was at the approval |
| Workflow.StepAccounting | docs/workflow/stage-map.yaml:81-328 | the position is the forward steps less the stages dropped; a run with r steps back and h holds has at most 21 + 17 r + h steps |
| Workflow.EveryRunCanArchive | docs/workflow/stage-map.yaml:32-54 | from wherever a run is, as many passes and approvals as stages are left take it to ARCHIVED |
| Workflow.ArchivingTakes | docs/workflow/stage-map.yaml:81-328 | no continuation gets there in fewer steps |
| Workflow.LongestRun | docs/workflow/stage-map.yaml:257-273 | the bound is met for every r: a run with r steps back, no holds and exactly 21 + 17 r steps ends in ARCHIVED |
| Orchestration.Orchestrator.Record | docs/workflow/state-schema.md:93-108 | recording a result follows the routing table, appends one history entry, never rewrites history, keeps a gate pending exactly at human-gate stages, and changes nothing when the result is not allowed |
| Orchestration.EntriesTellStages | docs/workflow/state-schema.md:112-129 | each history entry's from and to stages are those of the replay, which ends in the current stage |
| Workflow.GateInputsAreComplete | docs/workflow/state-schema.md:70-86 | at a human gate, in every run, no listed artifact is missing, excused or out of date |
| Orchestration.PendingGateIsComplete | docs/workflow/state-schema.md:70-86 | a pending gate is that of the current stage and lists every artifact it requires, each current and at the version that counts its revisions |
| Gradlew.EvalYieldsPieces | gradlew:241-246 | whatever text xargs prints, eval sets the parameters to its non-empty lines followed by the old arguments |
| Gradlew.EscapedLength | gradlew:244 | the escaping leaves a text alone exactly if it consists of kept characters, and at most doubles it |
| Gradlew.QuotingRoundTrip | gradlew:241-246 | of newline-free tokens those that echo prints come back exactly, in order, without the empty ones, before the untouched arguments; if echo prints all, these are all non-empty tokens |
| Gradlew.ExactRoundTripIff | gradlew:241-246 | the tokens all come back unchanged if, and only if, none is empty, contains a newline or is taken by echo as an option |
| Gradlew.Shell.ConvertArguments | gradlew:178-198 | the rotation loop leaves each argument in its original place: a slash, a first component that exists, and what follows is converted; every other argument, options included, stays |

## Left out

- ASP.NET routing and binding, Entity Framework, JWT signing and expiry, SQLite internals, cancellation and lock
  timeouts: they appear as abstract functions or as the atomic table.
- Blowfish and salt generation: an abstract digest; the salt and the clock reading are parameters of the action.
- BCrypt's exception for passwords with unpaired surrogates: the hash is modelled on their U+FFFD encoding; the theorems
  about passwords ask for well-formed strings.
- The id column's upper limit: ids in the table are unbounded; reading one back from a token needs a 64-bit id, as
  LongText.IdRoundTrip says.
- Lower-casing is per UTF-16 unit; letters outside the basic plane, whose case mapping spans a pair, are not covered.
- Leading and trailing white space and trailing NULs that `long.Parse` tolerates: claims are printed ids and have none.
- The email format check, the content-type filter, field errors, timestamps and paths in error bodies.
- `xargs` parsing its input into tokens. The `echo` it runs for each token is a parameter that prints the token and a
  newline, or at most a newline for a token it takes as an option; the help texts some `echo`s print and the escapes
  some interpret are left out.
- Symbolic links, JVM discovery and ulimit handling in the launcher.
- The Java twin of the service, the web page, and the recorded trace's manual jump to the last stage, which the routing
  table does not contain.
- The workflow's `attempt` counter, whose rule is loosely worded, the previous-stage fields, and text fields of the
  state file.
