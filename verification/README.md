# HeelonVault: verified model

HeelonVault is a multi-user password vault. This project models the services that keep its state over long runs and proves
what they promise, as Dafny functions and lemmas for the values and the histories, and as Dafny classes and methods for the
services that change state step by step. Each such method is proved equal to a function of the state before the call; the
properties are proved about those functions, over single calls and over whole runs.

Run `dafny verify dfyconfig.toml` to check everything.

| files | what they model |
|---|---|
| `Types`, `Crypto`, `Store` | values, uninterpreted primitives, the tables, foreign-key cascades, permission checks |
| `PasswordEnvelope`, `Auth`, `Accounts`, `AccountServices` | credentials in memory and in the database, user administration, start-up |
| `Vaults`, `Teams`, `Secrets`, `SharingServices` | vaults, the access view, teams, key shares, rotation, the trash |
| `Machine`, `KeyAgreement`, `ShareHistory`, `SecretHistory`, `CredentialHistory` | all calls as one state machine; runs, the key agreement, the histories of the share table, of a secret and of the credentials in memory |
| `FirstDay` | a run from the empty database on which the premises of the theorems are met and the failures below happen |
| `LoginPolicy`, `Totp`, `LoginFlow`, `LoginAnswers` | throttling, one-time codes, both steps of the login dialog over runs, and what exactly they answer |
| `Sampling`, `Passwords`, `GeneratedPasswords` | unbiased random choice, the shuffle, password generation and its whole range, policy and score |
| `FileStore`, `Restore`, `RestoreRuns`, `Backup` | the restore protocol at every crash point and over repeated attempts, backup containers |
| `Base64`, `AuditKey` | base64, hexadecimal, the audit key file |

Conventions. Cryptographic primitives are function values constrained only by what is used: opening undoes sealing under the
same key and nonce, a sealed text is 16 bytes longer, key derivation is a function that accepts 32-byte salts and returns 32
bytes. Nothing is assumed of wrong keys or wrong passwords. Random values, clocks and answers of collaborators are parameters.
Every call runs to completion or to its first error; `writes`, `statements`, `outcomes` say how many storage operations
succeed before the storage fails, so that a call may stop between any two of them. Transactions are all or nothing.

What was found to hold only under a condition, each proved as an exact condition, and shown to happen on a run or an input:

* Resetting or changing a password writes the credential in memory before the row. If the row write is lost, the user's row and
  memory differ until a start that loads the envelopes or a further replacement that reaches the row
  (`Machine.RunAgreementExactly`, `FirstDay.LostReset`).
* Start-up loads no envelope at all when the first administrator row has none. An initialization cut between its two writes
  leaves such a row: from the next start on, through any further starts and initialization attempts, nobody can log in and
  initialization is refused as already done (`Accounts.RestartAgrees`, `FirstDay.HalfBootstrapLocksOut`).
* Deleting a user leaves the credential in memory, and a creation that loses its first row write leaves one without a row. Until
  a start that comes up, creating a user of that name is refused as a conflict (`Machine.RunRowless`, `Accounts.RowlessRefused`).
* Removing a team member deletes the membership before the shares. If the storage fails in between, the former member keeps
  access, and every removal fails, until some other call takes effect on the share or adds the user to the team again
  (`ShareHistory.TornRemovalStays`, `ShareHistory.TornRemovalEnds`, `FirstDay.CutRemoval`). A rotation may list shares as
  coming from a team the user is not in (`ShareHistory.StepMembership`, `FirstDay.OutsiderRotation`).
* Deleting a team revokes nothing: the foreign key sets the team of its shares to null and they stay usable
  (`ShareHistory.TeamDeletionKeepsAccess`). The comment in `migrations/0012_vault_key_shares.sql` speaks of bulk revocation;
  the model follows the schema.
* A rotation writes every share anew with the role `read`, so a direct grant, which allows writing, no longer does after it
  (`Teams.GrantExactly`, `Teams.RotationOutcome`). Since no call writes a share with the vault administrator role, only owners,
  and global administrators who hold a share, ever delete a vault (`ShareHistory.OnlyOwnersDelete`).
* The replay cache lives in memory: a code can log in twice when the process is restarted in between, and only then if a call
  reads the clock once (`LoginFlow.ReloginExactly`, `LoginFlow.RestartReplay`). A code of a secret still under
  the former development key is accepted without being recorded, so it can log in once more (`LoginFlow.LegacyReplay`).
* The code check and the replay cache read the clock separately; a code can also be accepted twice when the second reading of
  the second call comes 90 seconds or more after the first acceptance (`Totp.SecondAcceptanceExactly`,
  `Totp.DoubleAcceptanceExample`).
* The login sequence refuses a user only from the fifth failure on; the shorter back-off delays are reported but not enforced
  (`LoginPolicy.RemainingLockLaws`).
* Rejection sampling accepts more than half of all words except for the bound 2^31, where it accepts exactly half
  (`Sampling.DrawIsUniform`).
* Base64 key text that happens to be hexadecimal is read as hexadecimal; padding rules this out for 32- and 64-byte keys
  (`AuditKey.KeyTextRoundTrip`, `AuditKey.AmbiguousKeyText`).
* A database whose own extension is `old` is deleted by the restore as if it were an earlier rotation
  (`Restore.RestoreSafeExactly`).
* A restore cut off between its two renames leaves the database at its rotated path only. The next restore deletes that file
  before anything takes its place, and a start creates an empty database that the next restore rotates over it. Attempts and
  starts keep the copy exactly as long as the rotated path does not hold the only one (`RestoreRuns.AttemptsKeepExactly`,
  `RestoreRuns.StartsKeepExactly`, `RestoreRuns.TwoAttemptsLose`, `RestoreRuns.StartBetweenLoses`).
* A secret can be created in a deleted vault, which is the only way a live secret comes to be in one (`Machine.StepOrphans`,
  `FirstDay.SecretInDeletedVault`).

## Model

| member | source | states |
|---|---|---|
| KeyAgreement.TeamShareEndToEnd | src/services/team_service.rs:239-338 | main theorem over any run: whoever opens a vault with a login key and shares it with a team without supplied keys gives each served member whose own row and memory agree exactly the key that was opened, however many calls lie between share and login, as long as none takes effect against this channel (refused calls never do); a member who owns the vault opens the own envelope, so is covered as sharer or if that envelope holds the same key |
| FirstDay.PremisesMet | src/ui/dialogs/manage_teams_dialog.rs:549-569 | the theorem's premises are all met on a run from the empty database with two users of different passwords and salts |
| FirstDay.BobOpens | src/ui/dialogs/manage_teams_dialog.rs:549-569 | on that run the second user logs in with the own password and opens the first user's vault to its key |
| KeyAgreement.OwnerUnaffected | src/services/vault_service.rs:236-283 | sharing a vault with its owner changes nothing about what the owner opens |
| KeyAgreement.GrantOpens | src/services/team_service.rs:580-623 | after a direct grant the recipient opens the vault under the recipient key to exactly the granted key |
| Teams.ServedMayOpenNotDelete | src/services/team_service.rs:274-297 | a member served by a team share who is neither owner nor global administrator opens the vault to the shared key and may not delete it: the share is read-only |
| ShareHistory.OnlyOwnersDelete | src/services/vault_service.rs:398-444 | over any run from a share table without vault administrators, as the empty one is, a vault is deleted only by its owner or by a global administrator who holds a share |
| SecretHistory.MemberReadsLatest | src/services/secret_service.rs:153-260 | while a member's channel is undisturbed, the member reads, through the own login, the latest text that anyone stored or updated under its vault key, at the end of any run |
| SecretHistory.ReadsLastWrite | src/repositories/secret_repository.rs:222-343 | over any run, with deletions, restores and failed calls in it, a live secret reads as the text of its last completed creation or update |
| SecretHistory.NewSecretWasWritten | src/repositories/secret_repository.rs:222-257 | every secret live at the end and absent at the start has such a last write |
| SecretHistory.StepKeepsBlob | src/repositories/secret_repository.rs:292-455 | no call but a completed creation or update of a secret changes the blob its row holds |
| SecretHistory.WritesReported | src/services/secret_service.rs:153-260 | creation and update report success exactly under the stated guards, and a refused one changes nothing |
| SecretHistory.MemberReadsSecret | src/services/secret_service.rs:153-234 | a secret stored under the vault key is read back by a member through the own login, after any calls that disturb neither channel nor secret |
| SecretHistory.StepKeepsSecret | src/repositories/secret_repository.rs:292-455 | one call keeps a readable secret exactly unless it gets through and deletes it, its vault or the vault's owner, or replaces its value by one that does not read the same |
| SecretHistory.RunKeepsSecret | src/repositories/secret_repository.rs:292-455 | a live secret keeps its value over any run without such a call |
| KeyAgreement.ShareOpensChannels | src/services/team_service.rs:625-668 | right after the share, a served member's key material opens under the hash that both the stored envelope and the credential in memory hold |
| KeyAgreement.StepKeepsChannel | src/services/vault_service.rs:230-299 | one call, complete or cut short, keeps a channel exactly unless it gets through and replaces the user's hash, loads no credentials, deletes the user, the vault or its owner, revokes the share, removes the user from its team, or rotates or re-grants to an envelope in which the user does not find the key; each such call is described by the guards of its checks |
| KeyAgreement.RunKeepsChannel | src/services/vault_service.rs:230-299 | a channel outlasts any run without such a call |
| KeyAgreement.SameGrantKeepsChannel | src/services/team_service.rs:580-623 | granting the same vault key again under the hash in memory keeps the channel |
| KeyAgreement.ChannelLogin | src/services/auth_service.rs:294-327 | any password the login accepts yields a key that opens the vault to the shared key |
| KeyAgreement.CreatedUserLogsIn | src/services/admin_service.rs:135-197 | the master key returned by account creation is the one the new password logs in with |
| KeyAgreement.ResetPasswordLogsIn | src/services/admin_service.rs:282-355 | the key a reset returns is the one the new password logs in with |
| KeyAgreement.ChangedPasswordLogsIn | src/services/user_service.rs:168-201 | after a password change the new password logs in, and the stored envelope holds the same hash |
| CredentialHistory.LatestPasswordLogsIn | src/services/auth_service.rs:156-327 | main theorem over any run: after the last creation, reset or change of a name, with no start since, a password logs its bearer in exactly if it derives, with the salt of that call, the key that the call's own password derives, and then yields that key; every other password yields none; whether the row write went through does not matter |
| CredentialHistory.StoredPasswordLogsIn | src/main.rs:1218-1242 | the same with a start as the last such call: the envelope stored then decides, and if none were loaded nobody logs in |
| CredentialHistory.StepHeld | src/services/auth_service.rs:156-347 | one call: what memory holds under a name afterwards, exactly, and whether the services are shutting down |
| CredentialHistory.RunHeld | src/services/auth_service.rs:156-347 | over any run memory holds under a name what the last creation, reset, change or start put there |
| CredentialHistory.RunShutdown | src/services/auth_service.rs:70-75 | over any run the services are shutting down exactly if that was signalled and no start has come up since |
| Auth.DeriveExactly | src/services/auth_service.rs:294-327 | a login hands out exactly the key its password derives, only if it is the stored hash; any other password that derives, and any unknown name, gets none |
| Auth.RegisterExactly | src/services/auth_service.rs:156-193 | when registration succeeds, exactly, and that it sets this one credential |
| Auth.ChangeExactly | src/services/auth_service.rs:226-292 | a change succeeds exactly if the current password logs in and the new one differs; it sets this one credential |
| Auth.UpsertExactly | src/services/auth_service.rs:329-347 | an import succeeds exactly for a decodable envelope under a name that is not blank; what is handed out afterwards is that envelope |
| ShareHistory.SharesAreSurvivingGrants | src/repositories/vault_repository.rs:322-455 | main theorem over any run from any share table, interrupted calls included: a share row exists exactly when its latest write is later than every revocation, rotation without the user, deletion of user or owner, and removal from the team it still counts for; and the row is that write's |
| ShareHistory.ReplayIsSurvivors | src/repositories/vault_repository.rs:374-455 | replaying a history step by step gives exactly the rows its declarative reading calls surviving |
| ShareHistory.FactApplies | src/services/team_service.rs:500-722 | the recorded facts account for every change any call makes to the share table |
| ShareHistory.StepMembership | src/services/team_service.rs:500-537 | a share counted as granted through a team belongs to a current member after every call, exactly unless a removal is cut between its writes or a rotation lists a non-member |
| ShareHistory.RunMembership | src/services/team_service.rs:500-537 | the same over runs |
| ShareHistory.TornRemovalStays | src/services/team_service.rs:500-537 | after a removal cut between its writes, over any run in which no call takes effect on the share or re-adds the user, the former member keeps the key material and every removal of the user from the team fails without effect |
| ShareHistory.StepKeepsHolding | src/services/team_service.rs:463-537 | one call leaves the former member with the envelope exactly unless it gets through and deletes user, owner or vault, revokes or replaces the share, or makes the user a member again; refused calls never end it |
| ShareHistory.TornRemovalEnds | src/services/team_service.rs:463-537 | adding the user again and removing once more ends the share |
| FirstDay.CutRemoval | src/services/team_service.rs:500-537 | such a removal on a run from the empty database |
| FirstDay.OutsiderRotation | src/services/team_service.rs:697-722 | a rotation on such a run that leaves a team share with a non-member |
| ShareHistory.TeamDeletionKeepsAccess | migrations/0012_vault_key_shares.sql:15-28 | deleting a team leaves every user's key material in place, as a direct share |
| Teams.ShareMembersOutcome | src/services/team_service.rs:299-338 | an error-free pass grants exactly the resolvable members, each by a read-only share through the team, given by the sharer, with the vault key wrapped for the resolved key; it leaves the rows of skipped members and of other vaults alone, and granted + skipped is the number of members; a pass cut short leaves only such grants |
| Teams.ResolveExactly | src/services/team_service.rs:239-270 | whose key a share is wrapped for: the first key supplied for the member, else the hash in the stored envelope, else none |
| Teams.PassExactly | src/services/team_service.rs:299-338 | a pass goes through exactly if every resolvable member's row can be written and that many writes succeed; then it reports exactly how many members resolve and how many do not |
| Teams.ShareVaultOutcome | src/services/team_service.rs:625-668 | a share is reported done exactly if the team exists, some member resolves, all resolvable rows can be written and the writes with the audit entry succeed; when nobody resolves it is refused and changes nothing |
| Teams.GrantExactly | src/services/team_service.rs:580-623 | when a direct grant goes through, exactly; the one row it writes allows reading and writing, belongs to no team and holds the vault key under the recipient's key |
| Teams.RevokeExactly | src/services/team_service.rs:670-695 | a revocation ends this one share and no other, and is reported once the audit entry is written |
| Teams.RotationOutcome | src/services/team_service.rs:697-722 | a rotation is reported done exactly for insertable entries of a live vault when all writes succeed; then just the listed users hold the listed envelopes, read-only, with the owner envelope replaced, the version bumped and nothing else changed |
| Teams.RotationTouchesOneVault | src/repositories/vault_repository.rs:409-439 | however far a rotation gets, rows and shares of other vaults are unchanged |
| Teams.InsertAllReplaces | src/repositories/vault_repository.rs:409-439 | deleting a vault's shares and inserting distinct entries gives exactly those entries, read-only and granted by the acting user, plus the other vaults' rows |
| Teams.InsertableExtends | src/repositories/vault_repository.rs:409-439 | inside the transaction an entry can be inserted exactly when its foreign keys resolve and its user has no row yet |
| Teams.ShareMembersStops | src/services/team_service.rs:299-338 | after an error no further member is handled |
| Teams.DeleteTeamConfined | src/services/team_service.rs:437-461 | a team is deleted exactly by administrators and its leaders; then just this team and its memberships are gone |
| Teams.AddMemberConfined | src/services/team_service.rs:463-498 | a member is added or re-ranked exactly by those, for an existing user and team; this membership alone changes, to the given role |
| Teams.RemoveMemberConfined | src/services/team_service.rs:500-537 | a member is removed exactly by those; this membership alone ends, then exactly the user's shares that came through the team |
| Teams.CreateTeamOutcome | src/services/team_service.rs:405-435 | when a creation is reported done, exactly: a known creator, a new id and a name that is not blank and not taken; the team has exactly its creator as member, as leader; a creation cut short leaves nothing, the bare team or all; other teams are untouched |
| Machine.RunTeams | src/repositories/team_repository.rs:76-181 | over any run team names stay unique and memberships belong to existing teams |
| Machine.RunReferences | migrations/0012_vault_key_shares.sql:15-28 | over any run, wherever calls are cut short, every foreign key of memberships, vaults, shares and secrets points at a row that exists |
| Store.PurgeUserExactly | migrations/0011_teams.sql:15-25 | which rows the deletion of a user takes with it, table by table, and that every other row stays as it is |
| SharingServices.TeamService.DeleteTeam | src/services/team_service.rs:437-461 | permission, existence, cascade over memberships and shares |
| SharingServices.TeamService.AddMember | src/services/team_service.rs:463-498 | permission, user existence, membership upsert |
| SharingServices.TeamService.RemoveMember | src/services/team_service.rs:500-537 | membership deleted first, shares through the team second; each failure point |
| SharingServices.TeamService.InsertKeyShare | src/repositories/vault_repository.rs:322-350 | upsert of one share row, refused when a foreign key does not resolve |
| SharingServices.TeamService.GrantVaultAccess | src/services/team_service.rs:580-623 | a direct grant wraps the vault key for the recipient and writes one row |
| SharingServices.TeamService.RevokeVaultAccess | src/services/team_service.rs:670-695 | deletes exactly one share row |
| SharingServices.TeamService.ShareVaultWithMembers | src/services/team_service.rs:299-338 | the loop over members equals the specified pass, errors included |
| SharingServices.TeamService.ShareVaultWithTeam | src/services/team_service.rs:625-668 | team check, pass, refusal when nobody could be served |
| SharingServices.TeamService.ReplaceAllKeyShares | src/repositories/vault_repository.rs:409-439 | commits all entries exactly when every insert is allowed, otherwise changes nothing |
| SharingServices.TeamService.RotateVaultKey | src/services/team_service.rs:697-722 | share replacement commits before the owner envelope is written; each failure point |
| Vaults.AccessRowsUnique | src/repositories/vault_repository.rs:506-528 | the access view has at most one row per user and vault, and one exactly for the owner or a share holder of a live vault |
| Vaults.OpensExactly | src/services/vault_service.rs:236-299 | opening succeeds exactly for existing users holding key material of a live vault that the given key decrypts, global administrators included |
| Vaults.OwnerOpensExactly | src/services/vault_service.rs:216-228 | opening by vault alone succeeds exactly as its owner would open it |
| Vaults.RightsExactly | src/services/access_control.rs:69-136 | what a row of the access view entitles to: opening always, writing by role, and sharing, revoking, rotating and deleting for owners, vault administrators and global administrators |
| Vaults.CreateVaultAdds | src/services/vault_service.rs:169-214 | when a creation is reported done, exactly; however far it gets it at most adds the row of a new vault of this owner and name |
| Vaults.CreatedVaultOpens | src/services/vault_service.rs:169-214 | a new vault opens for its owner with exactly the generated key and for nobody without a share, and no other row changes |
| Vaults.DeletesExactly | src/services/vault_service.rs:398-444 | who may delete a vault, exactly; what a deletion marks and keeps; afterwards nobody opens it; a refused one changes nothing |
| SharingServices.VaultService.CreateVault | src/services/vault_service.rs:169-214 | validation, permission, row, envelope; each failure point |
| SharingServices.VaultService.OpenVault | src/services/vault_service.rs:216-228 | opens as the owner of a live vault |
| SharingServices.VaultService.OpenVaultForUser | src/services/vault_service.rs:230-299 | view, permission, owner envelope or share, decryption, in this order |
| SharingServices.VaultService.DeleteVault | src/services/vault_service.rs:398-444 | permission and view, then the cascading soft delete |
| Secrets.DeleteThenRestore | src/repositories/vault_repository.rs:217-241 | deleting a vault and restoring, in any order, the secrets that were live gives back the very same tables once one was live; restoring some leaves exactly those live, the rest and the older trash in the trash |
| Secrets.RestoreAllOrNothing | src/repositories/secret_repository.rs:381-422 | a restore succeeds exactly for a secret in that vault's trash, then revives vault and secret; a failed one changes nothing |
| Secrets.CreateGetRoundTrip | src/services/secret_service.rs:153-234 | a stored value is read back under the vault key; its row belongs to the given vault and type, passwords, tokens and SSH keys in the inline column and documents alone in the file column; no other row changes |
| Secrets.GetExactly | src/services/secret_service.rs:213-234 | a secret is read exactly if it is live, the column of its storage mode holds a blob and the key opens it |
| Secrets.UpdateGetRoundTrip | src/repositories/secret_repository.rs:292-343 | an updated value is read back, storage mode and the other rows stay |
| SharingServices.SecretService.CreateSecret | src/services/secret_service.rs:153-211 | validation, encryption, insert into the column of the storage mode |
| SharingServices.SecretService.UpdateSecret | src/services/secret_service.rs:236-260 | only live secrets; the blob replaces the one in its column |
| Secrets.SoftDeleteOutcome | src/repositories/secret_repository.rs:364-379 | succeeds exactly for a live secret, marks it with the time, moves it from its vault's live set to its trash, other vaults unchanged |
| SharingServices.SecretService.RestoreSecret | src/repositories/secret_repository.rs:381-422 | the transaction revives vault and secret or nothing |
| Secrets.PermanentDeleteOutcome | src/repositories/secret_repository.rs:424-441 | succeeds exactly for a secret in that vault's trash and removes just it; live sets and other vaults unchanged |
| Secrets.EmptyTrashOutcome | src/repositories/secret_repository.rs:443-455 | leaves the vault's trash empty, reports its former size; live sets and other vaults unchanged |
| Machine.StepOrphans | src/repositories/secret_repository.rs:222-257 | live secrets stay inside live vaults after every call, exactly unless the call creates a secret in a deleted vault |
| FirstDay.SecretInDeletedVault | src/repositories/secret_repository.rs:222-257 | such a call on a run from the empty database |
| Machine.RunOrphans | src/repositories/secret_repository.rs:381-422 | the same over runs |
| Machine.RunAgreementExactly | src/main.rs:1218-1242 | over any run a user's stored envelope decodes to the credential in memory exactly if nothing broke them apart since they were last settled, by a loading start or a replacement that reached the row |
| Machine.RunAgreement | src/main.rs:1218-1242 | all users at once: the agreement is kept over runs without a call that breaks it for some user |
| Accounts.StepAgreementFor | src/services/admin_service.rs:282-355 | one call, one user, any state: agreement afterwards exactly if the user is gone, the call settles it, or it held and the call does not break it |
| Accounts.StepAgreement | src/services/user_service.rs:168-201 | one account call keeps names unique, and keeps the agreement of all users exactly unless it breaks that of one: by a start that loads nothing, or by a credential put in memory that the row does not follow |
| FirstDay.LostReset | src/services/admin_service.rs:282-355 | a reset on a run from the empty database whose lost row write leaves row and memory apart |
| Accounts.RestartAgrees | src/main.rs:891-909 | a start that comes up establishes the agreement exactly when the first administrator row has an envelope or no row has |
| FirstDay.HalfBootstrapLocksOut | src/main.rs:1159-1216 | on a run from the empty database an initialization is cut between its writes: after the next start and any further starts and initialization attempts, memory is empty, every initialization is refused, and no password logs anyone in |
| FirstDay.HalfBootstrapCanStart | src/main.rs:1165-1185 | such a start is possible on that run |
| Machine.RunRowless | src/services/admin_service.rs:135-229 | over any run a name has a credential in memory and no row exactly if a call stranded it, or it started so, and no start has come up since |
| Accounts.StepRowless | src/services/admin_service.rs:135-229 | one call: a name is so afterwards exactly if the call is an effective deletion of its user or a creation that loses its first row write, or it was so and the call is no start that comes up |
| Accounts.RowlessRefused | src/services/auth_service.rs:156-193 | such a name cannot be created: the call changes nothing and an administrator is told of a conflict |
| Accounts.DeletesExactly | src/services/admin_service.rs:199-229 | when a user deletion takes effect and when it is reported as done, exactly; it leaves the credential in memory |
| Accounts.RoleExactly | src/services/admin_service.rs:231-275 | when a role change takes effect and when it is reported, exactly; the user then has the requested role and nothing else changes; the last administrator is never demoted |
| AccountServices.EnsurePrivilegedAccount | src/main.rs:1159-1216 | imports the first administrator's credential, or asks for initialization |
| AccountServices.StartProcess | src/main.rs:891-909 | the start of a process equals the specified restart, in any listing order of the envelopes |
| Accounts.RegisterOutcome | src/services/admin_service.rs:135-197 | what an account creation can leave behind, whatever fails |
| Accounts.RegisterExactly | src/services/admin_service.rs:135-197 | which of these states it leaves, by the writes that succeed, and the key handed out |
| Accounts.CreationReported | src/services/admin_service.rs:135-197 | with storage working, creation and bootstrap succeed exactly under the stated guards |
| Accounts.ReplacementReported | src/services/admin_service.rs:282-355 | a reset or change is reported done exactly if its checks pass and its writes succeed |
| Accounts.StartsExactly | src/main.rs:891-909 | a start comes up exactly if no envelope is to be loaded or every stored one loads |
| Machine.StepKeepsAdmin | src/services/admin_service.rs:199-275 | no call, failing or not, removes the last administrator |
| Machine.RunKeepsAdmin | src/services/admin_service.rs:357-402 | a run that starts with an administrator always has one, and bootstrap is refused throughout |
| AccountServices.AccountService.Register | src/services/admin_service.rs:135-197 | credential, key derivation, row, envelope in order; each failure point |
| AccountServices.AccountService.CreateUser | src/services/admin_service.rs:135-197 | administrator check, trimming, registration |
| AccountServices.AccountService.BootstrapFirstAdmin | src/services/admin_service.rs:357-402 | only on an empty user table |
| AccountServices.AccountService.DeleteUser | src/services/admin_service.rs:199-229 | refuses the last administrator, else the row with its cascades |
| AccountServices.AccountService.UpdateUserRole | src/services/admin_service.rs:231-275 | refuses to demote the last administrator |
| AccountServices.AccountService.ResetUserPassword | src/services/admin_service.rs:282-355 | throw-away registration, import, row write, key derivation; each failure point |
| AccountServices.AccountService.ChangeMasterPassword | src/services/user_service.rs:168-201 | credential in memory first, stored envelope second |
| AccountServices.LoadPasswordEnvelopes | src/main.rs:1218-1242 | the loop succeeds exactly when every envelope decodes; it then holds the listed users' credentials and leaves all others in memory as they were |
| Auth.ConstantTimeEq | src/services/auth_service.rs:83-96 | the accumulating comparison loop decides equality |
| Auth.AuthService.Register | src/services/auth_service.rs:156-193 | new credential for a fresh, non-blank name |
| Auth.AuthService.DeriveKey | src/services/auth_service.rs:294-327 | the key exactly when the derived hash equals the stored one |
| Auth.AuthService.Change | src/services/auth_service.rs:226-292 | replaces the credential only after the current password checked out |
| Auth.AuthService.Upsert | src/services/auth_service.rs:329-347 | imports a decodable envelope |
| Auth.ShutdownRefuses | src/services/auth_service.rs:70-75 | once the shutdown flag is set every call is refused and the state no longer changes |
| PasswordEnvelope.DecodeEncode | src/services/auth_service.rs:98-149 | decoding undoes encoding exactly for salt and hash lengths 1 to 65535, and is refused otherwise |
| PasswordEnvelope.LayoutExactly | src/services/auth_service.rs:98-110 | version 1, two 16-bit lengths most significant byte first, salt, hash |
| PasswordEnvelope.EncodeDecode | src/services/auth_service.rs:112-149 | every accepted envelope is the encoding of what was read |
| PasswordEnvelope.DecodersAgree | src/services/team_service.rs:203-237 | the looser decoders return the strict decoder's hash wherever that one accepts |
| PasswordEnvelope.LooserAcceptsSaltless | src/services/totp_service.rs:154-184 | they accept in addition exactly the envelopes with an empty salt |
| Crypto.SerializeRoundTrip | src/services/vault_service.rs:127-149 | stored payloads: both directions, and which byte strings are accepted |
| Crypto.WrapRoundTrip | src/services/crypto_service.rs:128-165 | wrapping succeeds exactly for 32-byte keys, and unwrapping with the same key undoes it |
| LoginFlow.FailureBound | src/services/auth_policy_service.rs:65-157 | main theorem over any run of both dialog steps and any process restarts: failures of a user with no success between them number at most 5 + T/300 within any T seconds |
| LoginAnswers.FiveRefusalsLock | src/services/auth_policy_service.rs:18-157 | main theorem over any run and any process restarts, whatever the clock: an attempt is turned away as locked exactly if five or more refusals, by either step, came with no success since, the last less than 300 seconds before; the announced time is what is left of these |
| LoginAnswers.RunCounts | src/services/auth_policy_service.rs:91-189 | the stored row is the account of the refusals since the last success |
| LoginAnswers.RefusalsAreFailures | src/services/auth_policy_service.rs:124-157 | the refusals so defined by what was typed are the failures of the rate bound |
| LoginAnswers.CodeAnswers | src/ui/dialogs/login_dialog/login_flow.rs:63-147 | when the code step answers success, locked, wrong code or wrong password, exactly, with the time announced, and what it leaves in the counter |
| LoginAnswers.PasswordAnswers | src/ui/dialogs/login_dialog/parts/new_body.inc:1169-1290 | the same for the password step, with the hand-over to the code |
| LoginAnswers.UnknownRefused | src/ui/dialogs/login_dialog/parts/new_body.inc:1169-1190 | an identifier that resolves to nobody is refused without a trace |
| LoginFlow.BoundIsAttained | src/services/auth_policy_service.rs:7-8 | the bound is attained: for every n from 5 on a run records n failures within 300(n-5) seconds |
| LoginFlow.CounterIsHistory | src/services/auth_policy_service.rs:124-189 | the stored counter and time are those of the failures since it was cleared, and from the fifth on these are 300 seconds apart |
| LoginFlow.AttemptOutcome | src/ui/dialogs/login_dialog/login_flow.rs:63-147 | an attempt counts one failure, clears the counter or leaves it, only for the resolved name; counts only for unlocked users; an announced failure is a counted one |
| LoginFlow.PasswordOutcome | src/ui/dialogs/login_dialog/parts/new_body.inc:1169-1290 | the same for the password step, which leaves the replay cache alone |
| LoginFlow.OneLoginPerStep | src/ui/dialogs/login_dialog/login_flow.rs:86-147 | over any run, two logins of a user whose secret the password opens with one code that belongs to one time step, with one clock reading per call, have a restart of the process between them; that the clock was in the window of the step both times is concluded |
| LoginFlow.ReloginExactly | src/ui/dialogs/login_dialog/login_flow.rs:86-147 | a repeated code logs in exactly if the process was restarted in between or the cache's clock reads a lifetime more; with one reading per call, exactly if it was restarted |
| LoginFlow.RestartReplay | src/services/totp_service.rs:62-87 | a run with one restart on which one code logs in twice |
| LoginFlow.LegacyReplay | src/services/totp_service.rs:375-408 | a run without a restart on which a code checked against a secret under the former development key logs in twice |
| LoginFlow.GuardOfRun | src/services/totp_service.rs:349-425 | over any run, restarts included, the cache is what the run's presentations made of it |
| LoginFlow.SubmitLogin | src/ui/dialogs/login_dialog/login_flow.rs:63-147 | the early-return sequence over both services equals the specified attempt |
| LoginFlow.SubmitPassword | src/ui/dialogs/login_dialog/parts/new_body.inc:1169-1290 | the password step over the throttling service equals the specified one |
| LoginPolicy.RemainingLockExactly | src/services/auth_policy_service.rs:55-83 | remaining time is max(0, D(f) - elapsed) with D 300 from five failures on and min(2^(f-1), 30) below |
| LoginPolicy.RemainingLockLaws | src/services/auth_policy_service.rs:18-22 | it counts down with the clock, never shrinks with more failures, and locks exactly from the fifth failure for 300 seconds |
| LoginPolicy.AuthPolicyService.State | src/services/auth_policy_service.rs:91-122 | reads the state, creating the row if needed; blank names are exempt |
| LoginPolicy.AuthPolicyService.RecordFailedAttempt | src/services/auth_policy_service.rs:124-157 | increments the counter and stores the time |
| LoginPolicy.AuthPolicyService.ResetFailedAttempts | src/services/auth_policy_service.rs:159-189 | clears counter and time |
| Totp.AcceptedExactly | src/services/totp_service.rs:89-110 | over any run with a forward clock, restarts included, a valid code of a secret the password opens is accepted exactly when the same process had not accepted that user's same code in the last 90 seconds |
| Totp.CheckExactly | src/services/totp_service.rs:112-127 | a code is valid exactly from 30 seconds before its step begins until 30 seconds after it ends (section 5.2 of RFC 6238) |
| Totp.VerifyExactly | src/services/totp_service.rs:349-425 | when a presentation is accepted, exactly, by kind of secret, and what it leaves in the cache |
| Totp.PresentedExactly | src/services/totp_service.rs:411-424 | the cache is asked exactly for well-formed codes of a step whose window is open |
| Totp.ValidCodeExactly | src/services/totp_service.rs:129-131 | a code is well formed exactly if it is a number below a million printed with six digits |
| Totp.GuardIsHistory | src/services/totp_service.rs:89-110 | the live entries of the cache are exactly the recent acceptances of the running process |
| Totp.ReplayKeyInjective | src/services/totp_service.rs:89-91 | cache keys tell user and code apart, colons in user names notwithstanding |
| Totp.LifetimeCoversWindow | src/services/totp_service.rs:15-18 | 90 seconds is the least lifetime that outlasts every step's window |
| Totp.SingleAcceptance | src/services/totp_service.rs:411-424 | with one clock reading per call a code that belongs to one time step is accepted twice only across a restart (section 5.2 of RFC 6238); acceptance itself puts the clock into the window |
| Totp.SecondAcceptance | src/services/totp_service.rs:411-424 | a second acceptance of such a code by one process needs a longer delay between the two readings of the second call |
| Totp.SecondAcceptanceExactly | src/services/totp_service.rs:411-424 | a second acceptance of a code happens exactly across a restart or when the second record comes 90 seconds after the first |
| Totp.DoubleAcceptanceExample | src/services/totp_service.rs:411-424 | a run of one process in which it happens |
| Totp.TotpService.RejectReplay | src/services/totp_service.rs:93-110 | purge, lookup, insert |
| Totp.TotpService.VerifyLogin | src/services/totp_service.rs:349-425 | format, enrolment, key, code, replay, in this order; a code of a secret under the former development key is accepted without the cache |
| Sampling.DrawIsUniform | src/services/password_service.rs:83-97 | the zone is a positive multiple of the bound, every index has exactly zone/bound accepted words, and more than half of all words are accepted exactly unless the bound is 2^31 |
| Sampling.DrawIsFirstAccepted | src/services/password_service.rs:85-97 | on any word stream the result is the first accepted word modulo the bound |
| Sampling.RandomIndex | src/services/password_service.rs:72-98 | the rejection loop equals the specified draw and consumes as much |
| Sampling.ShuffleIsBijective | src/services/password_service.rs:247-252 | choice vectors and arrangements of distinct positions correspond one to one |
| Sampling.ShuffleDrawnIsShuffle | src/services/password_service.rs:247-252 | the loop performs the swaps of the choice vector it draws |
| Sampling.ShuffleArranges | src/services/password_service.rs:247-252 | no element is lost or invented |
| Sampling.ShuffleInPlace | src/services/password_service.rs:247-252 | the in-place loop leaves the array as specified, also when the random source fails midway |
| Passwords.GeneratedMeetsPolicy | src/services/password_service.rs:217-257 | the final check never rejects; generation fails only for a bad length or a failing random source and otherwise returns a conforming password of the requested length |
| GeneratedPasswords.GeneratedExactly | src/services/password_service.rs:217-257 | main theorem: the passwords the generator can return for a request are exactly the strings of 16 to 128 characters, of the requested length (24 if none is given), over the four charsets with a character of each, in any order |
| GeneratedPasswords.GenerateDraws | src/services/password_service.rs:217-257 | a generation is one list of draws: one per class, one per further character, one per swap from the last position down; it fails exactly if a draw does, and else returns the characters drawn, shuffled by the swaps drawn |
| Passwords.GeneratePassword | src/services/password_service.rs:217-257 | the generating method equals the specification |
| Passwords.CharsetClasses | src/services/password_service.rs:11-14 | which letters and digits each charset holds, exactly; symbols are symbols, and none holds white space |
| Passwords.PolicyOfMultiset | src/services/password_service.rs:113-149 | the policy does not depend on the order of characters |
| Passwords.PolicyScore | src/services/password_service.rs:151-215 | a conforming password scores 85 or 95 below 24 characters and 100 from there on |
| Passwords.ScoreExactly | src/services/password_service.rs:151-215 | the score of any password: grade of the length, ten for each class that occurs, ten for variety, ten off for white space, from 0 to 100 |
| Passwords.ScoreRewardsDiversity | src/services/password_service.rs:151-215 | a further new character never lowers the score |
| Passwords.ScorePasswordStrength | src/services/password_service.rs:151-215 | the scoring method equals the specification |
| Passwords.CountUnique | src/services/password_service.rs:189-197 | the marking loop counts the different bytes |
| Restore.RestoreKeepsOriginal | src/main.rs:386-430 | at every crash point and error return the original bytes are at the database path or its rotated path; success leaves staged bytes, rotated original, no staging file and every other file as it was |
| Restore.RestoreStates | src/main.rs:386-430 | in every state of a run the database is unmoved, or at its rotated path only, or replaced by the staged bytes with the original rotated |
| RestoreRuns.RunKeepsCopy | src/main.rs:386-430 | main theorem over any sequence of restores, each cut off anywhere, and starts: if the database file is present whenever one begins, the recoverable copy is that of the last promotion, or the original |
| RestoreRuns.AttemptsKeepExactly | src/main.rs:1048-1090 | every restore, wherever cut off, keeps the copy or promotes its own exactly unless the only copy is the rotated one |
| RestoreRuns.StartsKeepExactly | src/main.rs:868-870 | every start keeps it under exactly the same condition |
| RestoreRuns.RetryLoses | src/main.rs:1057-1065 | over a lone rotated copy a restore passes a state with neither file |
| RestoreRuns.TwoAttemptsLose | src/main.rs:1048-1090 | two restores of a present database, both cut off, that end with neither file |
| RestoreRuns.StartBetweenLoses | src/main.rs:868-870 | a restore cut off, a start and a completed restore that end with the original at neither path |
| Restore.RestoreSafeExactly | src/main.rs:1048-1090 | the protocol is safe in every run exactly for databases whose extension is not `old` |
| Restore.OldExtensionLosesOriginal | src/main.rs:1057-1065 | with that extension a successful restore passes through a state without the original |
| Restore.RestoreCompletes | src/main.rs:386-430 | good inputs and working file operations complete |
| Restore.StageTouches | src/services/backup_service.rs:161-179 | nothing before the promotion touches any file but the two staging files |
| Restore.PromoteOutcome | src/main.rs:1048-1090 | a promotion that succeeds moved the staged file, keeps the original rotated and touches only the three paths |
| Restore.PromoteExactly | src/main.rs:1048-1090 | a promotion over a present database succeeds exactly if all its operations do; when it fails the original is back at the database path unless the rename and then the rename back both fail |
| Restore.RefusedInputs | src/main.rs:386-430 | a backup that cannot be read or refuses the new password never reaches the promotion: the restore fails and only staging files differ |
| Restore.CleanupLeavesNone | src/main.rs:1025-1046 | a clean-up that succeeds leaves neither leftover |
| Restore.ReplaceRotates | src/services/backup_service.rs:161-179 | a present target is rotated, not overwritten |
| Restore.RestoreDatabase | src/main.rs:386-430 | the sequence as run equals the specification |
| Restore.CleanupStagingPath | src/main.rs:1025-1046 | removes leftovers of an earlier attempt |
| Restore.ReplaceExistingDatabase | src/services/backup_service.rs:161-179 | rotates a present target and writes it anew |
| Restore.PromoteStagedRestore | src/main.rs:1048-1090 | rotate, rename, roll back |
| Paths.OldPathCollision | src/main.rs:1057-1057 | replacing the extension by `old` is the identity exactly on names with that extension |
| Paths.RestorePathsDiffer | src/main.rs:1017-1023 | staging and rotated names never clash with each other or the database |
| Backup.ParseSerialize | src/services/backup_service.rs:228-285 | parsing undoes serializing exactly for hexadecimal digests and non-empty ciphertexts |
| Backup.SerializeParse | src/services/backup_service.rs:249-285 | every accepted file re-serializes to itself |
| Backup.SealRoundTrip | src/services/backup_service.rs:181-226 | sealing succeeds exactly for SQLite files under 32-byte keys and is undone under the same key; what opens, exactly: the decrypted text, if it has the header and the recorded digest |
| Backup.ImportAfterExport | src/services/backup_service.rs:478-534 | an import after an export writes exactly the exported bytes to the target and nothing else, and fails only if a file operation does |
| Backup.ImportTouches | src/services/backup_service.rs:507-534 | an import writes its target alone, and only once the container has been opened |
| Backup.ExportTouches | src/services/backup_service.rs:478-505 | an export writes the backup alone, which holds the database sealed under the key, and refuses what is not a database or a 32-byte key |
| Backup.HvbRoundTrip | src/services/backup_service.rs:325-476 | the recovery container returns the exported bytes under the same phrase |
| Backup.DecodeHvbExactly | src/services/backup_service.rs:419-476 | when the recovery container is decoded, exactly, and to what |
| Backup.RestoreOfExport | src/services/backup_service.rs:419-476 | export and restore together: the exported database is at the database path, the replaced one rotated, every crash point safe |
| Backup.BackupService.ExportBackup | src/services/backup_service.rs:478-505 | the exporting method equals the specification |
| Backup.BackupService.ImportBackup | src/services/backup_service.rs:507-534 | the importing method equals the specification |
| Base64.DecodeEncode | src/services/license_service.rs:335-335 | base64 decoding undoes encoding (section 4 of RFC 4648) |
| Base64.EncodeDecode | src/services/license_service.rs:494-496 | every accepted text is the canonical encoding of its bytes |
| Base64.StandardAlphabet | src/services/license_service.rs:335-335 | the symbols are those of the standard alphabet, in order |
| Base64.GroupBits | src/services/license_service.rs:335-335 | the digits of a group are its 24 bits from the most significant on |
| AuditKey.KeyFileRoundTrip | src/services/license_service.rs:327-420 | the file printed for any 32-byte seed loads to that seed with the auto-generated flag; 64-byte keys load to their first half |
| AuditKey.KeyTextRoundTrip | src/services/license_service.rs:486-497 | base64 key text is read back exactly unless it is hexadecimal less a leading `0x`, which padding rules out |
| AuditKey.KeyMaterialExactly | src/services/license_service.rs:486-497 | key text is read as hexadecimal if it can be, else as base64, else refused |
| AuditKey.LoadKeyExactly | src/services/license_service.rs:394-422 | a file loads exactly if its key text is read as 32 or 64 bytes; the first 32 are the seed |
| AuditKey.ClassifyExactly | src/services/license_service.rs:499-522 | which lines are blank, comments and keys, and that a comment is the marker exactly if it equals it up to the case of letters |
| AuditKey.AmbiguousKeyText | src/services/license_service.rs:486-497 | three zero bytes are read back as other bytes |
| AuditKey.HexKeyText | src/services/license_service.rs:30-41 | hexadecimal key text is read as such, with or without prefix (section 8 of RFC 4648) |
| AuditKey.SpacedHexKey | src/services/license_service.rs:30-41 | white space between the digits of prefixed hexadecimal key text does not matter |
| AuditKey.ScanFinds | src/services/license_service.rs:499-522 | the parser returns the first line that is neither blank nor comment, and whether a marker stands before it |
| AuditKey.ParseAuditKeyFile | src/services/license_service.rs:499-522 | the line loop equals the specification |

## Left out

- Audit log, login history, CSV import, PDF reports, licence lookup, settings and profile fields: they would add only easy members. A failing audit write is modelled where the call returns its error.
- Failures of the random source before a call had any effect: the random values are parameters, except in password generation.
- A start that fails leaves no process; the model keeps the state as it was. The order of rows in the user table is not modelled: which administrator row comes first is an input, as the database answers it.
- Concurrent calls: every service call is one step, interrupted only by storage failures. The clock of the login runs is read in sequence and does not run backwards.
- Key agreement across a password replacement: the services do not rewrap vault keys, so such a member drops out of `KeyAgreement.TeamShareEndToEnd`.
- SharingServices.TeamService.RotateVaultKey: does not model the plaintext key that `rotate_vault_key` returns, because it is generated independently of the envelopes passed in.
- The entries of a replaced share table get the schema's default role; roles are carried only as the repository writes them.
- `is_vault_shared_with_others`, listing calls, usage counters, secret metadata, `verify_password`: queries without state of their own.
- Totp.TotpService.VerifyLogin: does not model the re-encryption of a secret still under the former development key. Set-up and removal of a secret are left out; a user's secret is fixed over a run.
- LoginPolicy.RemainingLockLaws: the differences of timestamps are assumed to fit 64 bits; `RemainingLockExactly` keeps the saturation.
- File names that are not UTF-8, files reached through links or under several names, unreadable metadata (`exists` then answers no), and the write-ahead and journal files of the database.
- Durability below the file system: a state that a file operation returned from is taken to survive a crash.
- The JSON text of the recovery container, the phrase word list and Argon2id are uninterpreted; the export's own re-reading of the file it wrote is left out.
- Creation of the audit key file (directory, permissions, creation race, environment overrides): only its text and its reading are modelled.
- `str` is a sequence of characters; byte lengths matter only for ASCII text here.
