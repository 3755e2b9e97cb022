# QuestionShaper core, modelled in Dafny

QuestionShaper is a multi-tenant question-bank platform. It has a Spring
backend (users, roles, institutes, academic structure, questions,
settings and backups) and a React admin front end. This project models
the decision logic of both halves as pure functions over immutable
records. It then proves what the services and pages promise.

- **Backend services.** Each repository is a finite map from id to record, and each service call is a function from one store to the next, with a `Result` for its error paths. The covered services are:
  - settings lookup and caching (security and general settings), password policy and sensitive-value masking;
  - the login lockout state machine, impersonation and the user-details authorities;
  - the per-IP fixed-window rate limiter and its client-address choice;
  - user and role store operations, and the user-search filter of the repository query;
  - academic sessions (at most one active), subjects, class–subject links, chapters and topics;
  - the question lifecycle (MCQ validation, create, approve, reject, delete);
  - institutes, plans and usage, the subscription and AI-usage schedulers;
  - backup history, database-name parsing and file naming;
  - tenant defaulting on persist.
- **Admin pages.** A page's state is a record and each handler is a function from state to state. An effect runs only when its dependency changed. The covered pages are:
  - the MCQ, CQ and short-question forms with their class → subject → chapter → topic cascade and submit payloads;
  - the academic structure page, the chapter and topic lists, the question list;
  - the user list's route filter and pager, role management, and subscription totals.
- **Outside the model, supplied as parameters.** These are:
  - encryption, password hashing and `plusMonths` are uninterpreted functions;
  - the clock is an integer (milliseconds, or a day number for dates);
  - the dump process is an exit-code oracle;
  - authentication is decided by a password-matching function;
  - each network fetch or service call is a `fetched` list or an `ok` flag;
  - `window.confirm` is a `confirmed` flag.
- **Java and JavaScript semantics made explicit.**
  - `int` arithmetic wraps at 32 bits (`Text.WrapInt`).
  - `Integer.parseInt` and `Long.parseLong` have their ranges.
  - `String.split` drops trailing empty strings.
  - JavaScript `x || 0` treats a missing value as 0.
  - Jackson binds a request body by the entity's field names: Lombok exposes a boolean `isCorrect` as the property `correct`, and an unknown key such as `subject` is ignored.

## Model

| member | source | states |
|---|---|---|
| Tenancy.PrePersist | backend/src/main/java/com/testshaper/entity/BaseTenantEntity.java:17-29 | an id already on the entity is kept; otherwise the tenant context supplies it, and "DEFAULT" when there is none |
| Tenancy.PrePersistIdempotent | backend/src/main/java/com/testshaper/entity/BaseTenantEntity.java:19 | saving an entity again never changes its tenant, whatever the context is then |
| Identity.UserByEmail | backend/src/main/java/com/testshaper/repository/UserRepository.java:17 | a single hit is the one account with that email; no hit exactly when the email is not taken |
| Identity.RoleAuthorities | backend/src/main/java/com/testshaper/security/CustomUserDetailsService.java:47-49 | every role name appears prefixed with "ROLE_", and every such authority strips back to a role name |
| Identity.RoleAuthoritiesInjective | backend/src/main/java/com/testshaper/security/CustomUserDetailsService.java:47-49 | two role-name sets with the same authorities are equal: prefixing loses nothing |
| UserDetailsService.AuthoritiesCharacterised | backend/src/main/java/com/testshaper/security/CustomUserDetailsService.java:46-58 | an authority is either "ROLE_" plus the name of one of the user's roles or the name of a permission one of those roles grants, and nothing else |
| UserDetailsService.LoadUserByUsername | backend/src/main/java/com/testshaper/security/CustomUserDetailsService.java:26-44 | an unknown email fails with its message; otherwise enabled is `active`, non-locked is the negated lock flag, both expiry flags are true, and a user without institute gets tenant "DEFAULT" |
| UserSearch.PercentMatchesAll | backend/src/main/java/com/testshaper/repository/UserRepository.java:26 | the pattern `%` matches every string |
| UserSearch.PrefixPattern | backend/src/main/java/com/testshaper/repository/UserRepository.java:26 | a wildcard-free prefix followed by `%` matches exactly the strings that start with it |
| UserSearch.LeadingPercent | backend/src/main/java/com/testshaper/repository/UserRepository.java:26 | a leading `%` matches when the rest matches some suffix |
| UserSearch.ContainsPatternIsSubstring | backend/src/main/java/com/testshaper/repository/UserRepository.java:26 | for a query without `%`, `_` or backslash, `LIKE CONCAT('%', q, '%')` is substring search |
| UserSearch.Search | backend/src/main/java/com/testshaper/repository/UserRepository.java:25-51 | a user is listed exactly when the text, role, active and locked filters admit it, it is not deleted, and it belongs to the institute when one is given (under ASCII case folding and exact role names) |
| UserSearch.LowerKeepsWildcardFree | backend/src/main/java/com/testshaper/repository/UserRepository.java:26 | lower-casing a query adds no wildcard |
| UserSearch.LowerContainsPattern | backend/src/main/java/com/testshaper/repository/UserRepository.java:26 | lower-casing the built pattern is the pattern of the lower-cased query |
| UserSearch.PlainQueryIsSubstring | backend/src/main/java/com/testshaper/repository/UserRepository.java:25-31 | with a wildcard-free query, the text filter is a case-insensitive substring test on name or email (ASCII case folding) |
| UserSearch.EmptyQueryMatchesAll | backend/src/main/java/com/testshaper/repository/UserRepository.java:25-31 | an empty query drops the text filter: every non-deleted user the other filters admit is listed |
| UserSearch.UnderscoreIsWildcard | backend/src/main/java/com/testshaper/repository/UserRepository.java:26 | a typed `_` is a wildcard: a query `a_c` finds every name `a x c`, though only `a_c` itself contains the query |
| Auth.Authenticate | backend/src/main/java/com/testshaper/service/impl/AuthServiceImpl.java:52-53 | the provider accepts exactly a single account with that email that is unlocked, active and whose password matches; the authentication carries the email and the account's authorities |
| Auth.Login | backend/src/main/java/com/testshaper/service/impl/AuthServiceImpl.java:29-83 | login rewrites only user rows and never adds or removes one; an unknown email changes nothing and fails |
| Auth.Attempt | backend/src/main/java/com/testshaper/service/impl/AuthServiceImpl.java:51-82 | the attempt succeeds exactly when the authentication provider accepts, and returns the provider's authentication; it rewrites only the user rows |
| Auth.LockedRefused | backend/src/main/java/com/testshaper/service/impl/AuthServiceImpl.java:35-47 | a locked account whose lock has not run out is refused with "Account is locked" and nothing is written, whatever the password |
| Auth.SuccessResets | backend/src/main/java/com/testshaper/service/impl/AuthServiceImpl.java:55-61 | after a successful login the account is unlocked with a zero counter and no lock time, and no other account changes |
| Auth.SuccessCharacterised | backend/src/main/java/com/testshaper/service/impl/AuthServiceImpl.java:35-64 | a login succeeds exactly for an active account whose password matches and whose lock, if any, has run out under the tenant's lock duration |
| Auth.SameEmailsSameLookup | backend/src/main/java/com/testshaper/service/impl/AuthServiceImpl.java:43 | saving a user without changing any email keeps every email lookup |
| Auth.OneFailure | backend/src/main/java/com/testshaper/service/impl/AuthServiceImpl.java:66-80 | a wrong password on an unlocked account writes back only that account, with the failure counted |
| Auth.RepeatedFailuresLock | backend/src/main/java/com/testshaper/service/impl/AuthServiceImpl.java:72-78 | k failed logins after `done` earlier ones leave the counter at done + k, and the account is locked exactly when that reaches the tenant's maximum |
| Auth.Impersonate | backend/src/main/java/com/testshaper/service/impl/AuthServiceImpl.java:107-134 | impersonating an unknown user fails; otherwise the principal is the user's email and the authorities are exactly "ROLE_" followed by each of the user's role names |
| Auth.ImpersonationAgreesWithLogin | backend/src/main/java/com/testshaper/service/impl/AuthServiceImpl.java:107-134 | impersonating the user a login succeeds for gives that login's principal and a subset of its authorities |
| Auth.ImpersonationWithinLogin | backend/src/main/java/com/testshaper/service/impl/AuthServiceImpl.java:123-126 | impersonation carries only the "ROLE_" authorities: they are among the login authorities, and the login authorities are exactly the impersonation's plus the permission names |
| SecuritySettings.Reveal | backend/src/main/java/com/testshaper/service/impl/SecuritySettingServiceImpl.java:73-82 | an unencrypted row's value is kept as stored; a value is null only when the stored one is; a failed decryption keeps the stored text |
| SecuritySettings.Load | backend/src/main/java/com/testshaper/service/impl/SecuritySettingServiceImpl.java:67-85 | the loaded snapshot has exactly the scope's keys, each with its revealed value |
| SecuritySettings.GetCached | backend/src/main/java/com/testshaper/service/impl/SecuritySettingServiceImpl.java:59-65 | a hit returns the slot unchanged; a miss loads the scope from the table into the slot; no other slot and no row changes |
| SecuritySettings.EffectiveValue | backend/src/main/java/com/testshaper/service/impl/SecuritySettingServiceImpl.java:117-134 | reference resolution: the tenant's row, else the global row, else the caller's default, else the built-in default, else ""; a null tenant never reads tenant rows |
| SecuritySettings.GetSettingValue | backend/src/main/java/com/testshaper/service/impl/SecuritySettingServiceImpl.java:119-134 | a read never writes the table |
| SecuritySettings.GetCachedKeepsCoherent | backend/src/main/java/com/testshaper/service/impl/SecuritySettingServiceImpl.java:59-65 | filling a slot keeps every slot equal to a fresh load of its scope, for a tenant id other than "GLOBAL" |
| SecuritySettings.GetSettingValueMatchesTable | backend/src/main/java/com/testshaper/service/impl/SecuritySettingServiceImpl.java:119-134 | on a coherent cache the cached read returns exactly the reference resolution and leaves the cache coherent |
| SecuritySettings.UpdateSettings | backend/src/main/java/com/testshaper/service/impl/SecuritySettingServiceImpl.java:136-164 | every submitted key is created or overwritten in the scope, encrypted exactly when its name contains "SECRET" or "KEY"; other keys and scopes are untouched; only the scope's cache slot is dropped |
| SecuritySettings.UpdateKeepsCoherent | backend/src/main/java/com/testshaper/service/impl/SecuritySettingServiceImpl.java:136-164 | an update keeps a coherent cache coherent |
| SecuritySettings.ReadAfterUpdate | backend/src/main/java/com/testshaper/service/impl/SecuritySettingServiceImpl.java:119-164 | after a scope saves a key, the next read for that tenant returns the saved plain value when encryption round-trips |
| SecuritySettings.GlobalReadIgnoresTenants | backend/src/main/java/com/testshaper/service/impl/SecuritySettingServiceImpl.java:121-130 | a read without a tenant depends only on the global rows |
| SecuritySettings.Find | backend/src/main/java/com/testshaper/service/impl/SecuritySettingServiceImpl.java:179-188 | a character-class search succeeds exactly when some character of the password is in the class |
| SecuritySettings.ValidatePassword | backend/src/main/java/com/testshaper/service/impl/SecuritySettingServiceImpl.java:169-191 | a password passes exactly when it complies with the policy; an unparsable minimum fails first, then the length in UTF-16 units, then upper case, lower case, digit and special character, in that order |
| SecuritySettings.EmptyTableDefaults | backend/src/main/java/com/testshaper/service/impl/SecuritySettingServiceImpl.java:33-43 | with no rows the attempt limit is 5, the lock 15 minutes, access tokens 60 minutes and refresh tokens 30 days |
| SecuritySettings.EmptyTablePasswordPolicy | backend/src/main/java/com/testshaper/service/impl/SecuritySettingServiceImpl.java:170-190 | with no rows a password passes exactly when it has 8 UTF-16 units and an upper-case letter, a lower-case letter, a digit and a special character |
| GeneralSettings.SensitiveBySuffixAlone | backend/src/main/java/com/testshaper/service/impl/GeneralSettingServiceImpl.java:24-29 | a key is treated as sensitive exactly when it ends in _PASSWORD, _KEY or _SECRET; the explicit list adds no key |
| GeneralSettings.RowsIn | backend/src/main/java/com/testshaper/repository/GeneralSettingRepository.java:14-19 | the rows of a scope and category are exactly the table's rows with that tenant and category, keyed by setting key |
| GeneralSettings.DecryptIfNeeded | backend/src/main/java/com/testshaper/service/impl/GeneralSettingServiceImpl.java:131-141 | an unencrypted or null value is returned as stored |
| GeneralSettings.ListSettings | backend/src/main/java/com/testshaper/service/impl/GeneralSettingServiceImpl.java:118-129 | the listing has exactly the scope and category's keys; an encrypted value is shown as the mask and any other value as stored |
| GeneralSettings.UpdateSettings | backend/src/main/java/com/testshaper/service/impl/GeneralSettingServiceImpl.java:71-116 | every submitted key of the scope and category is created or overwritten by the store rule, and no other row changes |
| GeneralSettings.UpdateStoresValue | backend/src/main/java/com/testshaper/service/impl/GeneralSettingServiceImpl.java:92-112 | a sensitive non-empty value other than the mask is stored encrypted; the mask leaves the row as it was; anything else is stored plain and unencrypted |
| GeneralSettings.UpdateKeepsWellStored | backend/src/main/java/com/testshaper/service/impl/GeneralSettingServiceImpl.java:92-112 | an update keeps every encrypted row sensitive and non-null, and every plain sensitive row null or empty |
| GeneralSettings.SaveListedIsIdentity | backend/src/main/java/com/testshaper/service/impl/GeneralSettingServiceImpl.java:71-129 | saving back the masked listing of a scope and category leaves the table unchanged |
| GeneralSettings.ListedRowSavesBack | backend/src/main/java/com/testshaper/service/impl/GeneralSettingServiceImpl.java:105-125 | a listed value saved back reproduces its row |
| GeneralSettings.Hits | backend/src/main/java/com/testshaper/repository/GeneralSettingRepository.java:16-21 | a key search finds nothing exactly when no category of the scope holds the key, and every hit is such a row |
| GeneralSettings.GetSettingValue | backend/src/main/java/com/testshaper/service/impl/GeneralSettingServiceImpl.java:56-69 | with no tenant or global row for the key the value is null |
| GeneralSettings.SettingValueResolution | backend/src/main/java/com/testshaper/service/impl/GeneralSettingServiceImpl.java:56-69 | the tenant's own row for the key wins; with none, the global row is used; two rows for the key in the scope consulted fail as non-unique |
| GeneralSettings.FindTwo | backend/src/main/java/com/testshaper/repository/GeneralSettingRepository.java:16-21 | a key stored in two categories of one scope makes the single-result lookup fail |
| GeneralSettings.FindSingle | backend/src/main/java/com/testshaper/repository/GeneralSettingRepository.java:16-21 | a key held by exactly one category of the scope is found as that row |
| GeneralSettings.ReadAfterUpdate | backend/src/main/java/com/testshaper/service/impl/GeneralSettingServiceImpl.java:56-116 | after a scope saves a plain value for a key held only in that category, the next read for that tenant returns it, when encryption round-trips |
| RateLimit.Pieces | backend/src/main/java/com/testshaper/security/RateLimitFilter.java:85 | splitting gives at least one piece, a string without the separator splits into itself, and no piece holds the separator |
| RateLimit.DropTrailingEmpty | backend/src/main/java/com/testshaper/security/RateLimitFilter.java:85 | Java's split drops only trailing empty pieces: the result is a prefix of the pieces, ending in a non-empty one, and everything dropped is empty |
| RateLimit.ClientIpAsWrittenFailsOnCommas | backend/src/main/java/com/testshaper/security/RateLimitFilter.java:80-86 | a forwarded-for header made only of commas yields no client address: the first element of an empty split result is read |
| RateLimit.FirstHop | backend/src/main/java/com/testshaper/security/RateLimitFilter.java:85 | the first hop is the header up to its first comma |
| RateLimit.ClientIp | backend/src/main/java/com/testshaper/security/RateLimitFilter.java:80-86 | without the header the remote address is used; otherwise a comma-free prefix of the header |
| RateLimit.FirstPieceIsFirstHop | backend/src/main/java/com/testshaper/security/RateLimitFilter.java:85 | the first piece of the split is the first hop |
| RateLimit.ClientIpAgrees | backend/src/main/java/com/testshaper/security/RateLimitFilter.java:80-86 | whenever the code as written yields an address, the corrected one yields the same |
| RateLimit.EffectiveLimit | backend/src/main/java/com/testshaper/security/RateLimitFilter.java:61-69 | without the setting the limit is 100; the limit is always a 32-bit int |
| RateLimit.Tick | backend/src/main/java/com/testshaper/security/RateLimitFilter.java:43-54 | a request more than 60000 ms after the window start opens a new window counting 1; otherwise the count rises by one, wrapping at 32 bits |
| RateLimit.Filter | backend/src/main/java/com/testshaper/security/RateLimitFilter.java:28-78 | a path outside /api/ passes with no counter touched; otherwise only the client's counter is created or ticked, and the request is refused exactly when its count exceeds the limit (keyed by the corrected client address; see Findings) |
| RateLimit.NewWindowForwarded | backend/src/main/java/com/testshaper/security/RateLimitFilter.java:43-75 | the first request of a client's window passes whenever the limit is at least 1 |
| RateLimit.Run | backend/src/main/java/com/testshaper/security/RateLimitFilter.java:28-78 | a run of requests forwards at most as many requests as it holds |
| RateLimit.WindowBound | backend/src/main/java/com/testshaper/security/RateLimitFilter.java:43-75 | within one window one client gets at most the limit minus its earlier count of requests through, and its count grows by one per request |
| UserService.ResolveRoles | backend/src/main/java/com/testshaper/service/impl/UserServiceImpl.java:60-68 | the lookup succeeds exactly when every name names one role, and then yields exactly the roles carrying those names |
| UserService.CreateUser | backend/src/main/java/com/testshaper/service/impl/UserServiceImpl.java:41-81 | creation succeeds exactly when the email is free, the password meets the tenant's policy, every requested role exists and the institute exists; a taken email is refused first; the new user is active, unlocked, not deleted, with the encoded password, and no other user changes |
| UserService.RequestedRoles | backend/src/main/java/com/testshaper/service/impl/UserServiceImpl.java:59-68 | a null or empty role list gives no roles; otherwise the roles resolve exactly when every name names one role, and the user gets exactly the roles carrying the requested names |
| UserService.StoreNew | backend/src/main/java/com/testshaper/service/impl/UserServiceImpl.java:70-79 | the institute check fails exactly when an institute id is given that does not exist; otherwise exactly one new user row is added, active, unlocked, not deleted, with the encoded password, and the response is that row's view |
| UserService.CreatedRolesAsRequested | backend/src/main/java/com/testshaper/service/impl/UserServiceImpl.java:59-69 | a created user shows exactly the requested role names, none when no roles were sent |
| UserService.GetUserById | backend/src/main/java/com/testshaper/service/impl/UserServiceImpl.java:83-89 | a missing id is NOT_FOUND, otherwise the user's view |
| UserService.UpdateUser | backend/src/main/java/com/testshaper/service/impl/UserServiceImpl.java:91-128 | the update succeeds exactly when the user exists, the email is unchanged or free, every sent role name resolves and a given institute exists; the failures come in that order (NOT_FOUND, email exists, role not found, institute not found); on success name, email, phone and active are replaced, roles only when sent, the institute only when given, password, lock state and deletion stay, and no other user changes |
| UserService.UpdateKeepsEmailsUnique | backend/src/main/java/com/testshaper/service/impl/UserServiceImpl.java:97-99 | an update never leaves two accounts with the same email |
| UserService.CreateKeepsEmailsUnique | backend/src/main/java/com/testshaper/service/impl/UserServiceImpl.java:44-46 | a created account never shares its email with an existing one |
| UserService.ChangeStatus | backend/src/main/java/com/testshaper/service/impl/UserServiceImpl.java:130-156 | delete, activate and deactivate fail only for a missing user; delete sets deleted and inactive, activate and deactivate set only active; nothing else changes |
| UserService.DeletedNeverListed | backend/src/main/java/com/testshaper/service/impl/UserServiceImpl.java:130-138 | a deleted user never appears in a search |
| UserService.ResetUserPassword | backend/src/main/java/com/testshaper/service/impl/UserServiceImpl.java:158-167 | only the user's password changes, to the encoding of Default@123; a missing user is NOT_FOUND |
| UserService.ResetPasswordMeetsDefaultPolicy | backend/src/main/java/com/testshaper/service/impl/UserServiceImpl.java:165 | the reset password meets the default password policy |
| UserService.ResetPasswordShape | backend/src/main/java/com/testshaper/service/impl/UserServiceImpl.java:165 | the reset password has at least 8 UTF-16 units and every required character class |
| UserService.ChangePassword | backend/src/main/java/com/testshaper/service/impl/UserServiceImpl.java:169-181 | a missing user is NOT_FOUND, a wrong old password is refused, and otherwise only the user's password changes, to the new one encoded |
| UserService.ChangedPasswordIsCurrent | backend/src/main/java/com/testshaper/service/impl/UserServiceImpl.java:169-181 | with an exact encoder, after a change the new password is the one a further change accepts and any other old password is refused |
| UserService.GetAllUsers | backend/src/main/java/com/testshaper/service/impl/UserServiceImpl.java:183-195 | the result is exactly the non-deleted users of the institute, when one is given, that match the query and filters; an absent query is "" |
| UserService.GetAllUsersArguments | backend/src/main/java/com/testshaper/service/impl/UserServiceImpl.java:185-195 | includeDeleted has no effect, and with no query each filter only narrows the non-deleted users |
| RoleService.ResolvePermissions | backend/src/main/java/com/testshaper/service/impl/RoleServiceImpl.java:41-51 | the permissions set are exactly the existing permissions whose id some submitted entry carries; entries without an id or with an unknown id are skipped |
| RoleService.CreateRole | backend/src/main/java/com/testshaper/service/impl/RoleServiceImpl.java:31-54 | creation succeeds exactly when no role has the name, and a taken name is refused; the new role has the name, description and only existing permissions; no other role, user or permission changes |
| RoleService.UpdateRole | backend/src/main/java/com/testshaper/service/impl/RoleServiceImpl.java:56-77 | a missing role fails; otherwise name and description are replaced, permissions only when sent and then by the resolution rule; nothing else changes |
| RoleService.DeleteRole | backend/src/main/java/com/testshaper/service/impl/RoleServiceImpl.java:79-86 | a missing role fails; otherwise exactly that role is removed and nothing else changes |
| RoleService.DeleteUndoesCreate | backend/src/main/java/com/testshaper/service/impl/RoleServiceImpl.java:31-86 | deleting a role just created gives back the directory it was created in |
| RoleService.DeleteDropsRoleNames | backend/src/main/java/com/testshaper/service/impl/RoleServiceImpl.java:79-86 | after a delete, a user's role names are those of the user's other stored roles |
| RoleService.ToView | backend/src/main/java/com/testshaper/service/impl/RoleServiceImpl.java:88-105 | the view carries the role's id, name and description, and exactly its existing permissions with their names and descriptions |
| RoleService.CreatedViewPermissions | backend/src/main/java/com/testshaper/service/impl/RoleServiceImpl.java:33-53 | a created role shows exactly the existing permissions whose ids were submitted, none when no list was sent |
| RoleService.UpdateWithOwnPermissions | backend/src/main/java/com/testshaper/service/impl/RoleServiceImpl.java:56-77 | saving a role with its own name, description and permission ids leaves the directory unchanged |
| Sessions.DeactivateOthers | backend/src/main/java/com/testshaper/service/impl/AcademicSessionServiceImpl.java:78-87 | every active session other than the excluded one becomes inactive, and nothing else changes |
| Sessions.CreateSession | backend/src/main/java/com/testshaper/service/impl/AcademicSessionServiceImpl.java:20-27 | the call fails exactly when another session already has the name, as the unique name column refuses it; otherwise the new session is stored as given; an active one becomes the only active session, an inactive one changes no other session; other sessions change only in their active flag |
| Sessions.SetActiveSession | backend/src/main/java/com/testshaper/service/impl/AcademicSessionServiceImpl.java:66-76 | a missing id fails; otherwise exactly the chosen session is active and nothing else changes |
| Sessions.UpdateSession | backend/src/main/java/com/testshaper/service/impl/AcademicSessionServiceImpl.java:29-48 | a missing id fails with not-found, and a name another session holds fails with a conflict, each exactly in that case; otherwise the session takes the given details; activating an inactive session deactivates all others, and any other update leaves the other sessions alone |
| Sessions.DeleteSession | backend/src/main/java/com/testshaper/service/impl/AcademicSessionServiceImpl.java:60-64 | the call fails exactly when the session exists and some class-subject names it, which its foreign key refuses; otherwise exactly the session is removed (an unknown id is a no-op) and every other session is unchanged |
| Sessions.ActiveSession | backend/src/main/java/com/testshaper/service/impl/AcademicSessionServiceImpl.java:55-58 | the active session, when there is one; none exactly when no session is active |
| Sessions.CreateKeepsInvariant | backend/src/main/java/com/testshaper/service/impl/AcademicSessionServiceImpl.java:20-27 | a successful create keeps at most one session active |
| Sessions.SetActiveKeepsInvariant | backend/src/main/java/com/testshaper/service/impl/AcademicSessionServiceImpl.java:66-76 | after activation at most one session is active and it is the chosen one |
| Sessions.UpdateKeepsInvariant | backend/src/main/java/com/testshaper/service/impl/AcademicSessionServiceImpl.java:29-48 | an update keeps at most one session active |
| Sessions.DeleteKeepsInvariant | backend/src/main/java/com/testshaper/service/impl/AcademicSessionServiceImpl.java:60-64 | a successful delete keeps at most one session active |
| Sessions.UpdateCanLeaveNoneActive | backend/src/main/java/com/testshaper/service/impl/AcademicSessionServiceImpl.java:43-45 | deactivating the active session through an update leaves no session active |
| Sessions.SavesKeepNamesUnique | backend/src/main/java/com/testshaper/service/impl/AcademicSessionServiceImpl.java:20-48 | a successful create or update keeps session names unique |
| Sessions.DeleteKeepsUsedSessions | backend/src/main/java/com/testshaper/service/impl/AcademicSessionServiceImpl.java:60-64 | a successful delete removes no session a class-subject names |
| Academic.ActiveSession | backend/src/main/java/com/testshaper/service/impl/AcademicServiceImpl.java:59-60 | the lookup finds the active session, finds none exactly when no session is active, and is never ambiguous while at most one session is active |
| Academic.ActiveSessionAgrees | backend/src/main/java/com/testshaper/service/impl/AcademicServiceImpl.java:59-60 | while at most one session is active, the academic service finds the same active session as the session service, or none when it finds none |
| Academic.SubjectByCode | backend/src/main/java/com/testshaper/service/impl/AcademicServiceImpl.java:63-64 | the lookup finds a subject with the code, and none exactly when no subject has it |
| Academic.CreateAndAssignSubject | backend/src/main/java/com/testshaper/service/impl/AcademicServiceImpl.java:53-82 | the call that saves a subject not found by code and links it: a missing class and a missing active session are refused in that order; the call succeeds exactly when the subject found by code is not already linked to the class in the active session; on success the subject is reused or saved as given, and exactly one active link of class, subject and session is added |
| Academic.AssignSubjectToClass | backend/src/main/java/com/testshaper/service/impl/AcademicServiceImpl.java:84-102 | the call succeeds exactly when class, subject and session exist, and then adds one active link with no duplicate check |
| Academic.AssignAllowsDuplicates | backend/src/main/java/com/testshaper/service/impl/AcademicServiceImpl.java:84-102 | assigning the same subject twice gives two links for the same class, subject and session |
| Academic.LinksOfClass | backend/src/main/java/com/testshaper/service/impl/AcademicServiceImpl.java:112 | the class's links are exactly the links in store order whose class is the given one |
| Academic.GetSubjectsByClass | backend/src/main/java/com/testshaper/service/impl/AcademicServiceImpl.java:104-131 | a missing class is NOT_FOUND; otherwise the rows are exactly the class's links, each with its subject's id and code |
| Academic.DeleteClassSubject | backend/src/main/java/com/testshaper/service/impl/AcademicServiceImpl.java:133-138 | a missing link changes nothing; the call fails exactly when the link exists and some question names the link, one of its chapters or one of their topics, as the question table's foreign keys refuse it; otherwise the link goes and with it exactly its chapters and their topics |
| Academic.DeleteClassSubjectKeepsConsistent | backend/src/main/java/com/testshaper/service/impl/AcademicServiceImpl.java:133-138 | a successful link delete keeps every chapter's link and every topic's chapter present |
| Academic.Without | backend/src/main/java/com/testshaper/service/impl/AcademicServiceImpl.java:137 | removing an id from the link order keeps every other id |
| Academic.WithoutDistinct | backend/src/main/java/com/testshaper/service/impl/AcademicServiceImpl.java:137 | removing an id keeps the link order free of duplicates |
| Academic.DeleteSubject | backend/src/main/java/com/testshaper/service/impl/AcademicServiceImpl.java:145-161 | a database failure is reported with its message; otherwise a subject still linked to a class is refused with CONFLICT, and an unlinked subject is removed with nothing else changed |
| Academic.DeleteSubjectKeepsConsistent | backend/src/main/java/com/testshaper/service/impl/AcademicServiceImpl.java:145-161 | a successful subject delete keeps the store consistent |
| Academic.CreateChapter | backend/src/main/java/com/testshaper/service/impl/AcademicServiceImpl.java:163-170 | the call fails exactly when the link is missing; otherwise the chapter is stored under the link, and consistency is kept |
| Academic.CreateTopic | backend/src/main/java/com/testshaper/service/impl/AcademicServiceImpl.java:189-196 | the call fails exactly when the chapter is missing; otherwise the topic is stored under the chapter, and consistency is kept |
| Academic.CreateAndAssignListed | backend/src/main/java/com/testshaper/service/impl/AcademicServiceImpl.java:53-131 | with the call that saves the subject and links it, a subject created and assigned to a class is then listed among that class's subjects |
| Academic.CreateAndAssignSubjectAsWritten | backend/src/main/java/com/testshaper/service/impl/AcademicServiceImpl.java:55-82 | the call read against the NOT NULL class column that Subject.java maps: it fails exactly when class and active session exist and no subject has the code, since nothing sets the new subject's class; a successful call never adds a subject, and otherwise it agrees with the corrected call |
| Academic.AsWrittenNewSubjectFails | backend/src/main/java/com/testshaper/service/impl/AcademicServiceImpl.java:62-67 | for a new code, with the class and one active session present, the call read against that column fails, while the call without it stores the subject and links it |
| Academic.SessionsInUse | backend/src/main/java/com/testshaper/entity/ClassSubject.java:21-23 | a session is in use exactly when some class-subject names it |
| Academic.DeleteSessionKeepsConsistent | backend/src/main/java/com/testshaper/service/impl/AcademicSessionServiceImpl.java:60-64 | a session delete that goes through leaves no class-subject naming a missing session |
| Academic.DeleteClassSubjectKeepsQuestionRefs | backend/src/main/java/com/testshaper/service/impl/AcademicServiceImpl.java:133-138 | a successful link delete leaves every link, chapter and topic a question names in place |
| Questions.CorrectCount | backend/src/main/java/com/testshaper/service/impl/QuestionServiceImpl.java:31 | the count of options marked correct is at most the number of options, and 0 exactly when none is marked |
| Questions.CorrectCountOne | backend/src/main/java/com/testshaper/service/impl/QuestionServiceImpl.java:31-32 | a list with exactly one option marked correct counts 1 |
| Questions.CorrectCountOneInverse | backend/src/main/java/com/testshaper/service/impl/QuestionServiceImpl.java:31-32 | a count of 1 means exactly one option is marked correct |
| Questions.SaveOptions | backend/src/main/java/com/testshaper/service/impl/QuestionServiceImpl.java:41-45 | saving labelled options adds exactly the new option ids and changes no other option |
| Questions.CreateMCQ | backend/src/main/java/com/testshaper/service/impl/QuestionServiceImpl.java:24-48 | an MCQ is accepted exactly when it has at least two options, one correct answer and a label on every option; too few options are refused first, then a wrong number of correct answers; an unlabelled option fails its save (QuestionOption.java:17) and nothing is stored; on success the question is stored as a pending MCQ with the content and approver fields as bound, no other question changes, and its options are added |
| Questions.MCQAcceptance | backend/src/main/java/com/testshaper/service/impl/QuestionServiceImpl.java:27-34 | acceptance holds exactly when there are at least two options, every option is labelled, and some option is the only one marked correct |
| Questions.SavedOptionRows | backend/src/main/java/com/testshaper/service/impl/QuestionServiceImpl.java:41-45 | each saved option keeps its label, text and flag and points at the new question |
| Questions.CreateShortQuestion | backend/src/main/java/com/testshaper/service/impl/QuestionServiceImpl.java:50-56 | the question is stored with the content and the approver fields as bound, typed SHORT and PENDING; no other question and no option is touched |
| Questions.CreateCQ | backend/src/main/java/com/testshaper/service/impl/QuestionServiceImpl.java:58-66 | the question is stored with the content and the approver fields as bound, typed CQ and PENDING; no other question and no option is touched |
| Questions.GetQuestion | backend/src/main/java/com/testshaper/service/impl/QuestionServiceImpl.java:68-72 | the stored question, and an error exactly when the id is missing |
| Questions.OptionsOf | backend/src/main/java/com/testshaper/service/impl/QuestionServiceImpl.java:74-77 | exactly the options that point at the question |
| Questions.DeleteQuestion | backend/src/main/java/com/testshaper/service/impl/QuestionServiceImpl.java:84-93 | the question and exactly its options are removed, nothing else changes, and no option is left pointing at a missing question |
| Questions.ApproveQuestion | backend/src/main/java/com/testshaper/service/impl/QuestionServiceImpl.java:95-103 | a missing question fails; otherwise only its status becomes APPROVED with the approver and the time recorded |
| Questions.RejectQuestion | backend/src/main/java/com/testshaper/service/impl/QuestionServiceImpl.java:105-111 | a missing question fails; otherwise only its status becomes REJECTED |
| Questions.ReviewKeepsConsistent | backend/src/main/java/com/testshaper/service/impl/QuestionServiceImpl.java:95-111 | approving or rejecting keeps every option pointing at a stored question |
| Questions.LaterReviewDecides | backend/src/main/java/com/testshaper/service/impl/QuestionServiceImpl.java:95-111 | the later review sets the status; a rejection keeps an earlier approval's approver and time, and an approval after a rejection equals the approval alone |
| Questions.DeleteUndoesCreateMCQ | backend/src/main/java/com/testshaper/service/impl/QuestionServiceImpl.java:24-93 | deleting an MCQ just created restores the store exactly |
| Questions.DeleteUndoesSave | backend/src/main/java/com/testshaper/service/impl/QuestionServiceImpl.java:36-93 | deleting a question removes every option saved with it and restores the store |
| Questions.SavedRowsPointAt | backend/src/main/java/com/testshaper/service/impl/QuestionServiceImpl.java:42-44 | every option row written by the save points at the new question |
| Questions.NewQuestion | backend/src/main/java/com/testshaper/service/impl/QuestionServiceImpl.java:37-38 | the saved question has the requested type, PENDING status, the bound content and approver fields, and the tenant the persist hook resolves |
| Questions.DeleteUndoesCreateShortOrCQ | backend/src/main/java/com/testshaper/service/impl/QuestionServiceImpl.java:50-93 | deleting a short or creative question just created restores the store exactly |
| Questions.SentApproverUntilReview | backend/src/main/java/com/testshaper/service/impl/QuestionServiceImpl.java:50-56 | approver fields sent with a create stay on the PENDING question; a later approval replaces them and a rejection keeps them |
| Institutes.CreateInstitute | backend/src/main/java/com/testshaper/service/impl/InstituteServiceImpl.java:24-47 | creation fails exactly when the code is taken (checked first) or another institute has the name (the unique column rejects the save); the new institute is stored as given except that a logo gets a path from the code, a missing start is today and a missing expiry is a month on; no other institute changes |
| Institutes.GetInstitute | backend/src/main/java/com/testshaper/service/impl/InstituteServiceImpl.java:79-83 | the stored institute, and an error exactly when the id is missing |
| Institutes.UpdateInstitute | backend/src/main/java/com/testshaper/service/impl/InstituteServiceImpl.java:49-77 | a missing id fails, and a name another institute holds is refused by the save; otherwise the profile fields and the four limits are replaced, code, type, plan, status, usage, expiry and deletion stay, and a logo gets a path from the code and the clock |
| Institutes.ChangeStatus | backend/src/main/java/com/testshaper/service/impl/InstituteServiceImpl.java:101-124 | delete, activate and suspend fail only for a missing id; delete sets INACTIVE and deleted, activate ACTIVE, suspend SUSPENDED; nothing else changes |
| Institutes.PlanLimits | backend/src/main/java/com/testshaper/service/impl/InstituteServiceImpl.java:134-155 | every plan's teacher, student and AI limits are positive, with fewer teachers than students and fewer students than AI requests |
| Institutes.PlanLimitsMonotone | backend/src/main/java/com/testshaper/service/impl/InstituteServiceImpl.java:134-155 | a higher plan never has a lower limit |
| Institutes.UpgradePlan | backend/src/main/java/com/testshaper/service/impl/InstituteServiceImpl.java:126-159 | a missing id fails; otherwise the plan starts today, ends and expires after the given months, the three limits follow the plan table, and storage, status and usage stay |
| Institutes.IncrementAiUsage | backend/src/main/java/com/testshaper/service/impl/InstituteServiceImpl.java:161-167 | a missing id fails; otherwise only the usage rises by the tokens, with 32-bit wrap-around |
| Institutes.UsageNotCapped | backend/src/main/java/com/testshaper/service/impl/InstituteServiceImpl.java:161-167 | an institute at its AI limit can still be charged beyond it |
| Institutes.CreateKeepsKeysUnique | backend/src/main/java/com/testshaper/entity/Institute.java:13-20 | a successful create keeps institute codes and names unique |
| Institutes.UpdateKeepsKeysUnique | backend/src/main/java/com/testshaper/entity/Institute.java:13-20 | a successful update keeps institute codes and names unique |
| Institutes.KeysUniqueKept | backend/src/main/java/com/testshaper/entity/Institute.java:13-20 | changing one institute without touching its code or name keeps both unique |
| Institutes.StatusAndPlanKeepKeysUnique | backend/src/main/java/com/testshaper/service/impl/InstituteServiceImpl.java:101-159 | status changes and plan upgrades keep codes and names unique |
| Institutes.StatusLastWins | backend/src/main/java/com/testshaper/service/impl/InstituteServiceImpl.java:101-124 | of two status changes the second decides the status, and a deletion is never undone |
| Institutes.UpgradeLastWins | backend/src/main/java/com/testshaper/service/impl/InstituteServiceImpl.java:126-159 | two upgrades in a row leave exactly what the second alone leaves |
| Schedulers.FindExpired | backend/src/main/java/com/testshaper/repository/InstituteRepository.java:19-20 | exactly the active institutes whose expiry date is before today |
| Schedulers.CheckExpiredSubscriptions | backend/src/main/java/com/testshaper/scheduler/SubscriptionScheduler.java:22-42 | an institute is newly suspended exactly when it is expired and today is after its expiry plus the grace days; every other institute is unchanged, and nothing but the status changes |
| Schedulers.WithinGraceStaysActive | backend/src/main/java/com/testshaper/scheduler/SubscriptionScheduler.java:31-40 | an expired institute within its grace period stays active |
| Schedulers.CheckIdempotent | backend/src/main/java/com/testshaper/scheduler/SubscriptionScheduler.java:22-42 | running the daily check twice on the same day changes nothing more |
| Schedulers.NoneLeftExpired | backend/src/main/java/com/testshaper/scheduler/SubscriptionScheduler.java:22-42 | when every expired institute is past its grace, none is left expired after the check |
| Schedulers.ResetAiUsage | backend/src/main/java/com/testshaper/scheduler/AiUsageScheduler.java:20-34 | every institute's monthly AI usage becomes 0 and nothing else changes |
| Schedulers.ResetIdempotent | backend/src/main/java/com/testshaper/scheduler/AiUsageScheduler.java:20-34 | resetting twice equals resetting once |
| Backup.DbNameAsWritten | backend/src/main/java/com/testshaper/service/impl/BackupServiceImpl.java:110-113 | the name as the code reads it holds no '/' and no '?' |
| Backup.DbNameAsWrittenMisreadsQuery | backend/src/main/java/com/testshaper/service/impl/BackupServiceImpl.java:111-113 | for a URL base/name?query/tail the code reads tail as the database name, where the name is name (h/qb?tz=A/B reads B instead of qb) |
| Backup.DbName | backend/src/main/java/com/testshaper/service/impl/BackupServiceImpl.java:110-113 | the corrected name holds no '/' and no '?' |
| Backup.DbNameOfUrl | backend/src/main/java/com/testshaper/service/impl/BackupServiceImpl.java:110-113 | the corrected name is the path segment after the last '/' before any query, with or without a query |
| Backup.DbNameAsWrittenOfUrl | backend/src/main/java/com/testshaper/service/impl/BackupServiceImpl.java:110-113 | the code's name is right whenever the query holds no '/' |
| Backup.Digits2 | backend/src/main/java/com/testshaper/service/impl/BackupServiceImpl.java:73 | a two-digit field (MM, dd, HH, mm, ss) has two digits and reads back as the number |
| Backup.Digits4 | backend/src/main/java/com/testshaper/service/impl/BackupServiceImpl.java:73 | the four-digit year field has four digits and reads back as the year |
| Backup.Stamp | backend/src/main/java/com/testshaper/service/impl/BackupServiceImpl.java:73 | the timestamp has 15 characters: the date as yyyyMMdd, an underscore, the time as HHmmss |
| Backup.StampRoundTrip | backend/src/main/java/com/testshaper/service/impl/BackupServiceImpl.java:73 | the timestamp reads back as the date and time it was made from |
| Backup.FileName | backend/src/main/java/com/testshaper/service/impl/BackupServiceImpl.java:70-73 | the file name starts with backup_, the type, the tenant or FULL and an underscore, and ends with the timestamp and .sql |
| Backup.FileNameStampReadsBack | backend/src/main/java/com/testshaper/service/impl/BackupServiceImpl.java:70-73 | the timestamp part of a file name reads back as the backup time |
| Backup.DumpArgs | backend/src/main/java/com/testshaper/service/impl/BackupServiceImpl.java:115-122 | the dump command has seven arguments, starting with mysqldump and ending with the database name (named by the corrected database name; see Findings) |
| Backup.Started | backend/src/main/java/com/testshaper/service/impl/BackupServiceImpl.java:54-61 | the history row is first saved IN_PROGRESS with the PENDING path and the start time |
| Backup.FailureOf | backend/src/main/java/com/testshaper/service/impl/BackupServiceImpl.java:64-103 | a run fails exactly unless the directory is ready, the type is FULL, the dump exits 0 and the size can be read; the reason is the first failing step in the code's order: directory, type, exit code |
| Backup.TriggerManualBackup | backend/src/main/java/com/testshaper/service/impl/BackupServiceImpl.java:50-107 | a run always ends SUCCESS or FAILED with its completion time; success records the size, failure the first failing step's message; the final path is recorded exactly when the dump succeeded, even if reading the size then fails, and the path stays PENDING otherwise (dumping the database the corrected name gives; see Findings) |
| Backup.GetBackupHistory | backend/src/main/java/com/testshaper/service/impl/BackupServiceImpl.java:135-141 | without a tenant every record, newest first; with a tenant exactly that tenant's records |
| Backup.Filter | backend/src/main/java/com/testshaper/service/impl/BackupServiceImpl.java:140 | exactly the records of the tenant |
| Backup.TenantListingWithinFull | backend/src/main/java/com/testshaper/service/impl/BackupServiceImpl.java:135-141 | a tenant's listing holds exactly those records of the full listing that belong to the tenant |
| Backup.RunListed | backend/src/main/java/com/testshaper/service/impl/BackupServiceImpl.java:50-141 | a finished manual run, once saved, shows in its tenant's listing and in the full listing |
| SubscriptionPage.CountPlan | frontend/src/pages/admin/Institutes/SubscriptionManagement.jsx:31 | a plan's count never exceeds the number of institutes |
| SubscriptionPage.TotalSubscribers | frontend/src/pages/admin/Institutes/SubscriptionManagement.jsx:31 | the subscribers and the FREE institutes together are all institutes |
| SubscriptionPage.NoSubscribersIffAllFree | frontend/src/pages/admin/Institutes/SubscriptionManagement.jsx:31 | there are no subscribers exactly when every institute is on FREE |
| SubscriptionPage.Price | frontend/src/pages/admin/Institutes/SubscriptionManagement.jsx:42-44 | only a plan other than FREE has a price |
| SubscriptionPage.Revenue | frontend/src/pages/admin/Institutes/SubscriptionManagement.jsx:39-47 | the revenue is at most 299 per institute |
| SubscriptionPage.RevenueByPlan | frontend/src/pages/admin/Institutes/SubscriptionManagement.jsx:39-47 | the revenue is 29 per BASIC, 99 per PREMIUM and 299 per ENTERPRISE institute |
| SubscriptionPage.RevenueAdditive | frontend/src/pages/admin/Institutes/SubscriptionManagement.jsx:39-47 | the revenue of two lists together is the sum of their revenues |
| SubscriptionPage.SubscribersAdditive | frontend/src/pages/admin/Institutes/SubscriptionManagement.jsx:31 | the subscribers of two lists together are the sum of their subscribers |
| SubscriptionPage.RevenueNeedsSubscribers | frontend/src/pages/admin/Institutes/SubscriptionManagement.jsx:31-47 | any revenue implies at least one subscriber |
| SubscriptionPage.CalculateRevenue | frontend/src/pages/admin/Institutes/SubscriptionManagement.jsx:39-47 | the loop's total is 29 per BASIC, 99 per PREMIUM and 299 per ENTERPRISE institute |
| QuestionList.FilterForPath | frontend/src/pages/admin/QuestionBank/QuestionList.jsx:12-20 | the first of /approved, /pending, /rejected found in the path selects that status, and none of them selects all |
| QuestionList.WithStatus | frontend/src/pages/admin/QuestionBank/QuestionList.jsx:36 | exactly the rows with the status, never more rows than given |
| QuestionList.Filtered | frontend/src/pages/admin/QuestionBank/QuestionList.jsx:34-37 | ALL shows every row unchanged; a status shows exactly the rows with it |
| QuestionList.WithStatusDistributes | frontend/src/pages/admin/QuestionBank/QuestionList.jsx:36 | filtering two lists together is filtering each, in order |
| QuestionList.WithStatusSingle | frontend/src/pages/admin/QuestionBank/QuestionList.jsx:36 | a single row is kept exactly when its status matches |
| QuestionList.RemoveId | frontend/src/pages/admin/QuestionBank/QuestionList.jsx:43 | exactly the rows whose id differs are kept |
| QuestionList.RemoveCommutesWithFilter | frontend/src/pages/admin/QuestionBank/QuestionList.jsx:34-43 | deleting then filtering shows the same rows as filtering then deleting |
| QuestionList.RemoveDistributes | frontend/src/pages/admin/QuestionBank/QuestionList.jsx:43 | removing from two lists together is removing from each, in order |
| QuestionList.HandleDelete | frontend/src/pages/admin/QuestionBank/QuestionList.jsx:39-48 | nothing happens unless confirmed; a confirmed delete is requested for the id, and only a successful one removes exactly that id's rows |
| RoleManagement.Without | frontend/src/pages/admin/Users/RoleManagement.jsx:69 | exactly the other ids are kept, never more than given |
| RoleManagement.Toggle | frontend/src/pages/admin/Users/RoleManagement.jsx:66-74 | toggling adds the id at the end when it was not selected and removes it when it was; every other id keeps its membership |
| RoleManagement.WithoutShrinks | frontend/src/pages/admin/Users/RoleManagement.jsx:69 | removing a selected id shortens the selection |
| RoleManagement.WithoutDistinct | frontend/src/pages/admin/Users/RoleManagement.jsx:69 | removing an id keeps a duplicate-free selection duplicate-free |
| RoleManagement.ToggleKeepsDistinct | frontend/src/pages/admin/Users/RoleManagement.jsx:66-74 | toggling never selects an id twice |
| RoleManagement.ToggleTwice | frontend/src/pages/admin/Users/RoleManagement.jsx:66-74 | toggling an id twice restores the selected set |
| RoleManagement.ToggleTwiceAbsent | frontend/src/pages/admin/Users/RoleManagement.jsx:66-74 | ticking and unticking an unselected id restores the selection exactly |
| RoleManagement.WithoutAppended | frontend/src/pages/admin/Users/RoleManagement.jsx:69-71 | removing an id just appended restores the selection |
| RoleManagement.AddForm | frontend/src/pages/admin/Users/RoleManagement.jsx:38-44 | Add opens an empty form that edits no role |
| RoleManagement.EditForm | frontend/src/pages/admin/Users/RoleManagement.jsx:46-52 | Edit presets the role's name, its description or "", and its permission ids in order, none when the role has no list |
| RoleManagement.Payload | frontend/src/pages/admin/Users/RoleManagement.jsx:79-83 | the body carries the name, the description and one id-only reference per selected permission, in order |
| RoleManagement.Submit | frontend/src/pages/admin/Users/RoleManagement.jsx:76-96 | an edited role is updated under its id and a new one created, with the form's body; the modal stays open only when the call fails (with a working role client; as written see SubmitAsWritten) |
| RoleManagement.DeleteClick | frontend/src/pages/admin/Users/RoleManagement.jsx:54-64 | the delete call is made for the id exactly when confirmed (with a working role client) |
| RoleManagement.AddedRoleHasTicked | frontend/src/pages/admin/Users/RoleManagement.jsx:38-96 | a role added with permissions ticked from the empty form is created with exactly the ticked permissions that exist (with a working role client) |
| RoleManagement.EditSaveUnchanged | frontend/src/pages/admin/Users/RoleManagement.jsx:46-96 | opening a role with a description and saving it untouched leaves the roles unchanged (with a working role client) |
| RoleManagement.EditSaveFillsDescription | frontend/src/pages/admin/Users/RoleManagement.jsx:49 | a role without a description is saved back with an empty one (with a working role client) |
| UserList.GetRouteState | frontend/src/pages/admin/Users/UserList.jsx:21-57 | teachers, students, pending and blocked paths each set one filter, checked in that order; pending filters on active by the tab; any other path keeps the default role "" and active null |
| UserList.RequestParams | frontend/src/pages/admin/Users/UserList.jsx:86-98 | the request carries the page, size 10 and the search term; a falsy role and a null active are dropped; the other filters pass as set |
| UserList.AtMostOneFilter | frontend/src/pages/admin/Users/UserList.jsx:21-98 | a request never carries more than one of role, active and accountLocked |
| UserList.DefaultRouteUnfiltered | frontend/src/pages/admin/Users/UserList.jsx:21-98 | a path of none of the four kinds requests every user |
| UserList.Previous | frontend/src/pages/admin/Users/UserList.jsx:343 | Previous never goes below page 0 and otherwise steps back one |
| UserList.Next | frontend/src/pages/admin/Users/UserList.jsx:349-350 | Next advances exactly when the page is before the last |
| UserList.RouteChanged | frontend/src/pages/admin/Users/UserList.jsx:78-84 | a route or tab change resets to page 0 and recomputes the route state |
| UserList.Loaded | frontend/src/pages/admin/Users/UserList.jsx:101-104 | a fetch replaces only the page count |
| UserList.PagerStaysValid | frontend/src/pages/admin/Users/UserList.jsx:78-84 | Previous, Next and a route change keep the page within the page count |
| UserList.LoadedMayOvershoot | frontend/src/pages/admin/Users/UserList.jsx:101-104 | a fetch keeps the page shown, so the pager stays valid exactly when that page is the first or still exists; past the last, "Previous" steps back one page |
| UserList.TabAfterRoute | frontend/src/pages/admin/Users/UserList.jsx:71-76 | the tab resets to unverified off the pending path and is kept on it |
| RoleManagement.Fetch | frontend/src/pages/admin/Users/RoleManagement.jsx:17-32 | a load in which either call throws keeps both lists; otherwise each list is replaced exactly when its answer reports success |
| RoleManagement.SubmitAsWritten | frontend/src/services/userService.js:73-89 | with the role client as written, a save sends nothing, leaves the modal open and alerts, whatever the form holds |
| RoleManagement.DeleteClickAsWritten | frontend/src/services/userService.js:91-97 | with the role client as written, a delete sends nothing, and alerts exactly when confirmed |
| RoleManagement.AsWrittenNeverManagesRoles | frontend/src/services/userService.js:55-97 | as written the page loads no roles or permissions and never sends a save or a delete, while with a working client it sends the body it builds and the confirmed delete |
| RoleManagement.LoadShowsServerLists | frontend/src/pages/admin/Users/RoleManagement.jsx:17-36 | with a working client a successful load shows the roles and permissions the server lists |
| FormCascade.ChangeClass | frontend/src/pages/admin/QuestionBank/MCQCreate.jsx:47-55 | a class pick clears subject, chapter and topic and their lists below the subjects, and shows the class's subjects, none for an empty pick |
| FormCascade.ChangeSubject | frontend/src/pages/admin/QuestionBank/MCQCreate.jsx:57-65 | a subject pick keeps the class and its subjects, clears chapter and topic, and shows the subject's chapters, none for an empty pick |
| FormCascade.ChangeChapter | frontend/src/pages/admin/QuestionBank/MCQCreate.jsx:67-75 | a chapter pick keeps the lists above, clears the topic, and shows the chapter's topics, none for an empty pick |
| FormCascade.ChangeTopic | frontend/src/pages/admin/QuestionBank/MCQCreate.jsx:191 | a topic pick changes only the topic |
| FormCascade.Refs | frontend/src/pages/admin/QuestionBank/MCQCreate.jsx:133-135 | the body refers to class, class-subject and chapter under exactly three keys, the class-subject under the key the form uses |
| FormCascade.TopicRef | frontend/src/pages/admin/QuestionBank/MCQCreate.jsx:136 | the topic is sent exactly when one is picked, else null |
| FormCascade.HandlersKeepChained | frontend/src/pages/admin/QuestionBank/MCQCreate.jsx:47-75 | with the selects offering "" or a listed entry, every handler keeps each pick under the pick above and in the list shown |
| FormCascade.ClearingClears | frontend/src/pages/admin/QuestionBank/MCQCreate.jsx:47-75 | clearing a pick clears every pick and list below it |
| FormCascade.EmptyChained | frontend/src/pages/admin/QuestionBank/MCQCreate.jsx:16-22 | the initial form is chained |
| RequestBinding.BindOption | backend/src/main/java/com/testshaper/entity/QuestionOption.java:23-24 | a bound option is correct exactly when the flag was sent under "correct" and true; its label, absent or not, and its text are kept |
| RequestBinding.BindOptions | backend/src/main/java/com/testshaper/controller/QuestionController.java:21-23 | every option is bound in order |
| RequestBinding.BindQuestion | backend/src/main/java/com/testshaper/entity/Question.java:66-77 | the class-subject and chapter bind only from the keys classSubject and chapter; the scalar fields and the topic are kept |
| RequestBinding.BoundCorrectCount | backend/src/main/java/com/testshaper/entity/QuestionOption.java:23-24 | options whose flag is sent under any other key bind with no correct answer; under "correct" each keeps its flag |
| FormCascade.ChangeSubjectAsWritten | frontend/src/pages/admin/QuestionBank/CQCreate.jsx:54-62 | as written a subject pick clears chapter and topic and never loads chapters, because the chapter call it makes is missing from the academic service |
| FormCascade.AsWrittenSubjectNeverPicked | frontend/src/pages/admin/QuestionBank/CQCreate.jsx:163 | with the subject options as written, any row chosen leaves the subject pick empty and no chapters listed |
| FormCascade.ClassSubjectPicked | frontend/src/pages/admin/QuestionBank/MCQCreate.jsx:57-65 | with class-subject options, choosing a row picks its class-subject under the class and lists that class-subject's chapters |
| CqCreate.AsWrittenSubjectBlocksSubmit | frontend/src/pages/admin/QuestionBank/CQCreate.jsx:163 | as written a CQ form whose subject was chosen from the select is refused for missing fields by both submits |
| ShortQuestionCreate.AsWrittenSubjectBlocksSubmit | frontend/src/pages/admin/QuestionBank/ShortQuestionCreate.jsx:131 | as written a short-question form whose subject was chosen from the select is refused for missing fields by both submits |
| RequestBinding.UnlabelledOptionRefused | backend/src/main/java/com/testshaper/entity/QuestionOption.java:17 | an MCQ body with an option sent without a label is refused by the service |
| McqCreate.LabelAt | frontend/src/pages/admin/QuestionBank/MCQCreate.jsx:92 | there is a label exactly for the first six positions |
| McqCreate.InitialOptions | frontend/src/pages/admin/QuestionBank/MCQCreate.jsx:28-33 | the form starts with four empty, unmarked options labelled A to D |
| McqCreate.AddOption | frontend/src/pages/admin/QuestionBank/MCQCreate.jsx:91-95 | at six options nothing changes; otherwise one empty, unmarked option is appended with the next label |
| McqCreate.RemoveAt | frontend/src/pages/admin/QuestionBank/MCQCreate.jsx:99 | a valid index drops exactly that option; any other index changes nothing |
| McqCreate.Relabel | frontend/src/pages/admin/QuestionBank/MCQCreate.jsx:101-102 | every option keeps its content and gets its position's label |
| McqCreate.RemoveOption | frontend/src/pages/admin/QuestionBank/MCQCreate.jsx:97-104 | at two options nothing changes; otherwise the option goes, the rest keep text and mark in order and are relabelled from A |
| McqCreate.EditsKeepWellLabelled | frontend/src/pages/admin/QuestionBank/MCQCreate.jsx:91-104 | adding and removing keep two to six options labelled A onwards in order |
| McqCreate.RemoveThenAdd | frontend/src/pages/admin/QuestionBank/MCQCreate.jsx:91-104 | removing then adding an option gives as many options as before, still labelled in order |
| McqCreate.HandleCorrectOption | frontend/src/pages/admin/QuestionBank/MCQCreate.jsx:83-89 | exactly the chosen option is marked correct, and labels and texts stay |
| McqCreate.ChangeOptionText | frontend/src/pages/admin/QuestionBank/MCQCreate.jsx:77-81 | only the chosen option's text changes |
| McqCreate.QuestionBody | frontend/src/pages/admin/QuestionBank/MCQCreate.jsx:129-137 | the question object refers to class, class-subject and chapter by id, sends an empty topic as null, and carries text, marks and explanation |
| McqCreate.OptionBodies | frontend/src/pages/admin/QuestionBank/MCQCreate.jsx:138 | each option is sent with its label, text and flag, in order, under the given key |
| McqCreate.SubmitAsWritten | frontend/src/pages/admin/QuestionBank/MCQCreate.jsx:106-139 | the code sends exactly when the fields are filled, some option is marked and no option is blank, with the flag under isCorrect |
| McqCreate.AsWrittenAlwaysRefused | frontend/src/pages/admin/QuestionBank/MCQCreate.jsx:138 | every MCQ the form as written sends is refused by the service as having no single correct answer |
| McqCreate.Check | frontend/src/pages/admin/QuestionBank/MCQCreate.jsx:110-123 | missing fields, then no correct answer, then a blank option text are reported in that order; the form passes exactly when none applies |
| McqCreate.Submit | frontend/src/pages/admin/QuestionBank/MCQCreate.jsx:106-139 | the corrected submit sends exactly when the checks pass, with the flag under the key the service binds |
| McqCreate.RadioChoiceAccepted | frontend/src/pages/admin/QuestionBank/MCQCreate.jsx:83-139 | a filled form with one option chosen by the radio buttons is accepted by the service and keeps its class-subject and chapter |
| CqCreate.InitialSubQuestions | frontend/src/pages/admin/QuestionBank/CQCreate.jsx:22-27 | the form starts with four empty sub-questions a to d worth 1, 2, 3 and 4 marks, 10 in all |
| CqCreate.TotalMarks | frontend/src/pages/admin/QuestionBank/CQCreate.jsx:112 | non-negative marks give a non-negative total |
| CqCreate.TotalMarksAdditive | frontend/src/pages/admin/QuestionBank/CQCreate.jsx:112 | the total of two lists together is the sum of their totals |
| CqCreate.ChangeText | frontend/src/pages/admin/QuestionBank/CQCreate.jsx:74-78 | only the chosen sub-question's text changes, and the total stays |
| CqCreate.ChangeMarks | frontend/src/pages/admin/QuestionBank/CQCreate.jsx:80-84 | only the chosen sub-question's marks change, and the total moves by the difference |
| CqCreate.MarksAfterUpdate | frontend/src/pages/admin/QuestionBank/CQCreate.jsx:80-84 | replacing a sub-question moves the total by the difference in its marks |
| CqCreate.Item | frontend/src/pages/admin/QuestionBank/CQCreate.jsx:108 | each list item opens with the marks attribute holding the marks as written |
| CqCreate.ItemMarksReadBack | frontend/src/pages/admin/QuestionBank/CQCreate.jsx:108 | the marks attribute of an item reads back as the sub-question's marks |
| CqCreate.ItemsDistribute | frontend/src/pages/admin/QuestionBank/CQCreate.jsx:107-109 | the items of two lists together are the items of each, in order |
| CqCreate.CombinedHtml | frontend/src/pages/admin/QuestionBank/CQCreate.jsx:105-110 | the HTML is the stem block and the list opening, then the items, then the list closing |
| CqCreate.Body | frontend/src/pages/admin/QuestionBank/CQCreate.jsx:114-123 | the body carries the combined HTML, the total marks, the picks and no explanation |
| CqCreate.Check | frontend/src/pages/admin/QuestionBank/CQCreate.jsx:90-99 | missing fields are reported first; the form passes exactly when filled and no sub-question is blank |
| CqCreate.SubmitAsWritten | frontend/src/pages/admin/QuestionBank/CQCreate.jsx:86-125 | the code sends exactly when the checks pass, with the class-subject under subject |
| CqCreate.AsWrittenLosesClassSubject | frontend/src/pages/admin/QuestionBank/CQCreate.jsx:120 | a creative question sent by the form as written is stored without a class-subject |
| CqCreate.Submit | frontend/src/pages/admin/QuestionBank/CQCreate.jsx:86-125 | the corrected submit sends exactly when the checks pass, with the class-subject under classSubject |
| CqCreate.SubmittedQuestionStored | frontend/src/pages/admin/QuestionBank/CQCreate.jsx:105-125 | the stored creative question keeps the class-subject, chapter, combined HTML and total marks |
| ShortQuestionCreate.WithPicks | frontend/src/pages/admin/QuestionBank/ShortQuestionCreate.jsx:40-68 | a cascade handler changes only the form's picks (with class-subject options; as written see AsWrittenSubjectBlocksSubmit) |
| ShortQuestionCreate.Body | frontend/src/pages/admin/QuestionBank/ShortQuestionCreate.jsx:82-92 | the body carries text, marks, difficulty, language and the sample answer as explanation, the picks, and an empty topic as null |
| ShortQuestionCreate.SubmitUnder | frontend/src/pages/admin/QuestionBank/ShortQuestionCreate.jsx:70-94 | the submit sends exactly when text, class, subject and chapter are filled, with the class-subject under the given key |
| ShortQuestionCreate.SubmitAsWritten | frontend/src/pages/admin/QuestionBank/ShortQuestionCreate.jsx:70-94 | the code sends exactly when text, class, subject and chapter are filled, with the class-subject under subject and no classSubject key |
| ShortQuestionCreate.AsWrittenLosesClassSubject | frontend/src/pages/admin/QuestionBank/ShortQuestionCreate.jsx:89 | a short question sent by the form as written is stored without a class-subject |
| ShortQuestionCreate.Submit | frontend/src/pages/admin/QuestionBank/ShortQuestionCreate.jsx:70-94 | the corrected submit sends exactly when the form is filled, with the picked class-subject under classSubject |
| ShortQuestionCreate.SubmittedQuestionStored | frontend/src/pages/admin/QuestionBank/ShortQuestionCreate.jsx:82-94 | the stored short question keeps class-subject, chapter, topic, text, marks and sample answer, typed SHORT and PENDING |
| ShortQuestionCreate.ClassChangeNeedsRepick | frontend/src/pages/admin/QuestionBank/ShortQuestionCreate.jsx:16-48 | the initial form cannot be sent, and after a class change or a cleared subject the form must be completed again |
| AcademicStructure.SelectClass | frontend/src/pages/admin/Academic/AcademicStructure.jsx:47-55 | picking a class clears the subject and chapter picks and the lists below, and shows the class's subjects |
| AcademicStructure.SelectSubject | frontend/src/pages/admin/Academic/AcademicStructure.jsx:57-63 | picking a subject keeps the class and its subjects, clears the chapter pick and topics, and shows the subject's chapters (with class-subject ids and the chapter call present; as written see SelectSubjectAsWritten) |
| AcademicStructure.SelectChapter | frontend/src/pages/admin/Academic/AcademicStructure.jsx:65-69 | picking a chapter changes only the chapter pick and the topics |
| AcademicStructure.SelectsKeepNested | frontend/src/pages/admin/Academic/AcademicStructure.jsx:47-69 | the select handlers keep every pick under a pick of the level above |
| AcademicStructure.AddRequest | frontend/src/pages/admin/Academic/AcademicStructure.jsx:71-86 | a class is always created; a subject, chapter or topic is created exactly when the level above is picked (with class-subject ids and the subject call present; as written see HandleAddAsWritten) |
| AcademicStructure.Refreshed | frontend/src/pages/admin/Academic/AcademicStructure.jsx:76-85 | a refresh replaces only the level's own list |
| AcademicStructure.HandleAdd | frontend/src/pages/admin/Academic/AcademicStructure.jsx:71-92 | a blank name does nothing; otherwise the level's create is made when possible, the level is refreshed after a success, and the name is cleared unless the create failed |
| AcademicStructure.AddTargetsSelection | frontend/src/pages/admin/Academic/AcademicStructure.jsx:71-92 | every create carries the typed name and goes under the current pick of the level above, and a chapter is numbered one past the chapters shown (with class-subject ids; as written see AsWrittenSubjectColumnInert) |
| AcademicStructure.ChapterNumbersAdvance | frontend/src/pages/admin/Academic/AcademicStructure.jsx:81-82 | chapters added one after another under a subject get consecutive numbers |
| AcademicStructure.HandleDelete | frontend/src/pages/admin/Academic/AcademicStructure.jsx:94-117 | nothing happens unless confirmed; a confirmed delete is requested; a success refreshes the level and clears only its own pick; a failure changes nothing |
| AcademicStructure.DeleteKeepsDescendants | frontend/src/pages/admin/Academic/AcademicStructure.jsx:94-117 | deleting a class or subject leaves the picks below it in place, so they are no longer nested |
| AcademicStructure.EditsKeepNested | frontend/src/pages/admin/Academic/AcademicStructure.jsx:71-117 | adds at every level and deletes of chapters and topics keep the picks nested |
| AcademicListing.OrderKey | frontend/src/pages/admin/Academic/TopicList.jsx:75 | a class without an order sorts under 0, otherwise under its order |
| AcademicListing.SortClasses | frontend/src/pages/admin/Academic/TopicList.jsx:75 | the classes are a permutation of the fetched ones in ascending display order |
| AcademicListing.MissingOrderSortsAsZero | frontend/src/pages/admin/Academic/TopicList.jsx:75 | a class without an order lands after every negative order and before every positive one |
| AcademicListing.ListingFor | frontend/src/pages/admin/Academic/TopicList.jsx:30-56 | an empty filter lists everything, any other filter exactly its children |
| AcademicListing.RefreshAfterCreate | frontend/src/pages/admin/Academic/TopicList.jsx:135-138 | a create refreshes the table exactly when the filter is empty or equals the new item's parent, and then with the filter's own listing |
| AcademicListing.RefreshIffVisible | frontend/src/pages/admin/Academic/ChapterList.jsx:110-113 | a create refreshes the table exactly when the new item belongs in the listing shown |
| TopicList.Settle | frontend/src/pages/admin/Academic/TopicList.jsx:30-56 | a changed class fetches its subjects or, when cleared, clears everything below; an unchanged class keeps the subjects |
| TopicList.ChangeClassClears | frontend/src/pages/admin/Academic/TopicList.jsx:168 | a class change clears the subject and chapter filters and the chapter list, lists every topic, and shows the class's subjects |
| TopicList.ChangeSubjectClears | frontend/src/pages/admin/Academic/TopicList.jsx:180 | a subject change keeps the class and its subjects, clears the chapter filter, lists every topic, and shows the subject's chapters |
| TopicList.FiltersKeepConsistent | frontend/src/pages/admin/Academic/TopicList.jsx:30-56 | every filter change keeps each pick under the one above and the table listing what the chapter filter selects |
| TopicList.OpenModal | frontend/src/pages/admin/Academic/TopicList.jsx:206-208 | Add Topic opens the modal exactly when a chapter is filtered, preset with the filter's class, subject and chapter |
| TopicList.ModalClass | frontend/src/pages/admin/Academic/TopicList.jsx:59-63 | a class pick in the modal clears its subject and chapter and changes only the subject list of the page |
| TopicList.ModalSubject | frontend/src/pages/admin/Academic/TopicList.jsx:65-69 | a subject pick in the modal clears its chapter and changes only the chapter list of the page |
| TopicList.ModalOverwritesFilterSubjects | frontend/src/pages/admin/Academic/TopicList.jsx:59-63 | a class picked in the modal replaces the filter's subject list while the filter's class stays |
| TopicList.Submit | frontend/src/pages/admin/Academic/TopicList.jsx:123-143 | a topic is created under the form's chapter exactly when every field is filled; a success closes and resets the modal and refreshes by the shared rule; a failure keeps both |
| TopicList.PrefilledCreateRefreshes | frontend/src/pages/admin/Academic/TopicList.jsx:123-143 | a topic added from the modal opened on the filter always shows up in the table |
| ChapterList.SortChapters | frontend/src/pages/admin/Academic/ChapterList.jsx:76 | the chapters are a permutation of the fetched ones in ascending chapter number, a missing number sorting as 0 |
| ChapterList.NumberedChaptersInOrder | frontend/src/pages/admin/Academic/ChapterList.jsx:76 | chapters numbered 1 to n in any order come back as chapter 1, 2, …, n |
| ChapterList.Settle | frontend/src/pages/admin/Academic/ChapterList.jsx:28-44 | a changed class fetches its subjects or, when cleared, clears the subject; a changed subject sets the listing to its chapters or to all (with class-subject options and the chapter call present; as written see SettleAsWritten) |
| ChapterList.FiltersKeepConsistent | frontend/src/pages/admin/Academic/ChapterList.jsx:154-165 | a class change clears the subject and lists every chapter; both filters keep the table listing what the subject filter selects (with class-subject options; as written see AsWrittenFilterNeverNarrows) |
| ChapterList.ModalClass | frontend/src/pages/admin/Academic/ChapterList.jsx:47-51 | a class pick in the modal clears its subject and changes only the page's subject list |
| ChapterList.Submit | frontend/src/pages/admin/Academic/ChapterList.jsx:98-117 | a chapter is created under the form's subject exactly when every field is filled; a success closes and resets the modal and refreshes by the shared rule; a failure keeps both |
| ChapterList.CreateRefreshesIffVisible | frontend/src/pages/admin/Academic/ChapterList.jsx:110-113 | a created chapter refreshes the table exactly when it belongs in the listing shown, and then with that listing |
| ChapterList.Delete | frontend/src/pages/admin/Academic/ChapterList.jsx:119-128 | the delete is requested exactly when confirmed, and a success refreshes the listing of the subject filter |
| AcademicListing.SubjectOptions | backend/src/main/java/com/testshaper/dto/ClassSubjectDTO.java:9-12 | each subject option carries its row's class-subject id, in row order |
| AcademicListing.SubjectOptionsAsWritten | frontend/src/pages/admin/Academic/ChapterList.jsx:170 | options that read the missing `id` all carry the same shown text as their value |
| AcademicListing.OptionsIdentifyRows | frontend/src/pages/admin/Academic/ChapterList.jsx:240 | options as written cannot tell two rows apart; class-subject options tell them apart exactly when their ids differ |
| AcademicStructure.SelectSubjectAsWritten | frontend/src/pages/admin/Academic/AcademicStructure.jsx:57-63 | as written a subject row is selected under the id "undefined" and its chapters never load |
| AcademicStructure.HandleAddAsWritten | frontend/src/pages/admin/Academic/AcademicStructure.jsx:71-92 | as written an add at the subject level sends nothing and keeps the name; any other add sends what the corrected page sends, and a call naming "undefined" fails and changes nothing |
| AcademicStructure.HandleDeleteAsWritten | frontend/src/pages/admin/Academic/AcademicStructure.jsx:94-117 | as written a delete sends what the corrected page sends, and one naming "undefined" fails and changes nothing |
| AcademicStructure.AsWrittenSubjectColumnInert | frontend/src/pages/admin/Academic/AcademicStructure.jsx:57-117 | as written adding a subject sends nothing, a chapter added under a chosen subject is numbered 1 and sent under "undefined" where it fails, and deleting a subject row fails |
| AcademicStructure.SubjectColumnWorks | frontend/src/pages/admin/Academic/AcademicStructure.jsx:57-92 | with class-subject ids a subject is created under the selected class and the name cleared, and a chapter is created under the chosen subject numbered after its chapters |
| ChapterList.SettleAsWritten | frontend/src/pages/admin/Academic/ChapterList.jsx:28-44 | as written a non-empty subject filter leaves the listing as it was, because the chapter call fails and is caught; clearing it lists every chapter |
| ChapterList.ChangeSubjectAsWritten | frontend/src/pages/admin/Academic/ChapterList.jsx:84-95 | as written picking a subject sets the filter and leaves the class, its subjects and the listing |
| ChapterList.AsWrittenFilterNeverNarrows | frontend/src/pages/admin/Academic/ChapterList.jsx:170 | as written every subject option is "()", and picking one keeps every chapter listed, so the page no longer lists what its filter names |
| ChapterList.FilterNarrowsToClassSubject | frontend/src/pages/admin/Academic/ChapterList.jsx:37-44 | with class-subject options, picking a row lists exactly that class-subject's chapters and keeps the page consistent |
| ChapterList.AsWrittenModalNeverCreates | frontend/src/pages/admin/Academic/ChapterList.jsx:240 | as written a subject chosen in the modal leaves no request |
| ChapterList.ModalCreatesUnderClassSubject | frontend/src/pages/admin/Academic/ChapterList.jsx:240 | with class-subject ids as options, a filled modal sends the create under the class-subject picked |
| Text.ParseInt | backend/src/main/java/com/testshaper/service/impl/SecuritySettingServiceImpl.java:195 | a stored value parses only to an int in the 32-bit range; anything else is the NumberFormatException path |
| Text.ParseIntToString | backend/src/main/java/com/testshaper/service/impl/SecuritySettingServiceImpl.java:195 | every int written out in decimal parses back to itself, so a saved numeric setting reads back unchanged |
| Text.ParseLong | backend/src/main/java/com/testshaper/service/impl/SecuritySettingServiceImpl.java:200 | a stored value parses only to a long in the 64-bit range |
| Text.WrapInt | backend/src/main/java/com/testshaper/service/impl/AuthServiceImpl.java:72 | Java int arithmetic: the result is in the 32-bit range, congruent to the exact value modulo 2^32, and equal to it when it fits |
| Text.Lower | backend/src/main/java/com/testshaper/repository/UserRepository.java:26 | LOWER keeps the length and lower-cases each ASCII capital in place |
| Identity.RoleByName | backend/src/main/java/com/testshaper/service/impl/UserServiceImpl.java:63 | the name lookup finds the role carrying that name, and reports missing exactly when no role has it |
| Sorting.SortBy | frontend/src/pages/admin/Academic/ChapterList.jsx:76 | sorting by a numeric key gives a sequence in non-decreasing key order that is a permutation of the input |
| Sorting.SortStable | frontend/src/pages/admin/Academic/ChapterList.jsx:76 | the sort is stable: for every key, the elements carrying it appear in the same order as in the input |
| Sorting.InsertStable | frontend/src/pages/admin/Academic/ChapterList.jsx:76 | inserting into a sorted sequence puts the new element ahead of every element of its key |

## Left out

- Process and file I/O in BackupServiceImpl.java: `mysqldump` is an exit-code oracle (its output size is a parameter). `deleteBackup`, `getBackupFile` and `restoreBackup` (lines 144-200) only run processes and touch files, so they are not modelled. The `Paths.get` join of the storage path is modelled as concatenation with '/', without the path normalisation `Paths.get` performs.
- The TTL bookkeeping of SecuritySettingServiceImpl.java (`lastCacheUpdate`, `CACHE_TTL_MS`) is never read by the code. The `@PostConstruct` refresh is modelled as an empty cache that loads lazily.
- Concurrency: the `ConcurrentHashMap` and atomic counters of RateLimitFilter.java and the settings cache are modelled sequentially, one request at a time.
- Logging, `@Transactional` and `@Async` mechanics: a failing call is modelled as leaving the store unchanged.
- JWT generation and parsing: the token is an uninterpreted function of the authenticated user. `logout` and `refreshToken` in AuthServiceImpl.java are stubs; `register` only forwards to `createUser`.
- Plain repository calls with no logic are not modelled: `createClass`, `createSubject`, `deleteClass`, `deleteChapter`, `deleteTopic` and the `getAll…`/`get…By…` listings of AcademicServiceImpl.java, `getAllSessions` of AcademicSessionServiceImpl.java, `getOptions` and `getAllQuestions` of QuestionServiceImpl.java, `getAllRoles` of RoleServiceImpl.java, and PermissionServiceImpl.java.
- InstituteServiceImpl.java: `getInstituteByCode` and `getAllInstitutes` are repository lookups (the latter ignores its search and status arguments). `updateStorageUsage` works on doubles. The logo upload in create and update is file storage.
- UserServiceImpl.java: `uploadProfileImage` is file storage. The MapStruct user mapper is generated code and is not part of this model; `UserService.ToView` keeps the fields the contracts talk about.
- Floating point: the `expiringSoon` day count in SubscriptionManagement.jsx (lines 32-36) is not modelled.
- CqCreate.TotalMarks: sub-question marks are integers; `parseFloat` and `NaN` in CQCreate.jsx line 82 are not modelled.
- The regex engine: the password character classes are predicates over characters.
- Random subject codes in AcademicStructure.jsx (line 78) are not modelled; a subject create carries only class and name.
- academicService.js exports neither `createSubject` nor `getChaptersBySubject`, yet four pages call them. Each call throws a TypeError before any request is sent. The `...AsWritten` members model that: no subject is created, no subject's chapters load, and the chapter list's filter leaves the table as it was. The other members model the pages with both calls present.
- The class-subject rows the server lists have `classSubjectId`, `subjectName` and `subjectCode`, but the CQ, short-question, chapter-list and academic-structure pages read `id`, `name` and `code` from them. The `...AsWritten` members model the values those selects then carry. The other members model the pages with class-subject options.
- userService.js line 48 (`impersonateUser`) uses an undeclared `api`; no page in this model calls it.
- ShortQuestionCreate.WithPicks: models the form with class-subject options and a chapter call that exists. As written no subject can be picked (ShortQuestionCreate.AsWrittenSubjectBlocksSubmit).
- AcademicStructure.SelectSubject: models the page with class-subject ids and a chapter call that exists. As written the chapters never load (AcademicStructure.SelectSubjectAsWritten).
- AcademicStructure.AddRequest: models the subject create as sent. As written it is never sent, and a chapter create names "undefined" (AcademicStructure.HandleAddAsWritten).
- AcademicStructure.AddTargetsSelection: models the page with class-subject ids. As written the chapter create goes under "undefined" (AcademicStructure.AsWrittenSubjectColumnInert).
- ChapterList.Settle: models the subject filter with class-subject options and a chapter call that exists. As written a picked subject never changes the listing (ChapterList.SettleAsWritten).
- ChapterList.FiltersKeepConsistent: holds for the page with class-subject options. As written the filter names "()" while every chapter stays listed (ChapterList.AsWrittenFilterNeverNarrows).
- RoleManagement.Submit: this models the page with a working role client. As written every role call in userService.js throws, so nothing loads or saves (RoleManagement.AsWrittenNeverManagesRoles).
- RoleManagement.DeleteClick: this models the page with a working role client. As written every role call in userService.js throws, so nothing loads or saves (RoleManagement.AsWrittenNeverManagesRoles).
- RoleManagement.AddedRoleHasTicked: this models the page with a working role client. As written every role call in userService.js throws, so nothing loads or saves (RoleManagement.AsWrittenNeverManagesRoles).
- RoleManagement.EditSaveUnchanged: this models the page with a working role client. As written every role call in userService.js throws, so nothing loads or saves (RoleManagement.AsWrittenNeverManagesRoles).
- RoleManagement.EditSaveFillsDescription: this models the page with a working role client. As written every role call in userService.js throws, so nothing loads or saves (RoleManagement.AsWrittenNeverManagesRoles).
- UserSearch.Search: the text filter folds only ASCII capitals, and the role filter compares names exactly. The database's case- and accent-insensitive collation, under which "teacher" matches the role TEACHER, is not modelled.
- UserSearch.PlainQueryIsSubstring: the substring test is stated under ASCII case folding only, for the collation reason given for UserSearch.Search.
- UserSearch.Search: the pattern treats a backslash as an ordinary character, while MySQL's LIKE takes the backslash as its default escape character, so a query holding a backslash can match differently there.
- Academic.CreateAndAssignSubject: models the call as saving a subject not found by code and linking it. Whether that save succeeds depends on the subjects table: Subject.java maps a NOT NULL class column that nothing sets, but other code uses a `description` that file lacks, so that file looks stale. `Academic.CreateAndAssignSubjectAsWritten` models the reading in which the save fails (see Findings).
- Academic.CreateAndAssignListed: is stated for the call whose save succeeds. Under the NOT NULL class column a newly created subject is never listed, because the call fails.
- Text.Lower: lower-cases ASCII capitals only. Unicode case mapping and accent folding are not modelled.
- Questions.CreateMCQ: marks are integers, while Question.java line 26 declares them `Double`. Fractional marks are not modelled. No contract here depends on a mark's value beyond its being stored. The entity's other settable fields (negative marks, Bloom level, source reference, the AI fields, `createdBy`) are stored as bound like the modelled ones but are not modelled. A client-sent `id` is not modelled either: the new question always gets a fresh id, and how `save` treats a given id depends on BaseEntity.java, which is not part of this model.
- Questions.CreateShortQuestion: marks are integers, while Question.java line 26 declares them `Double`. Fractional marks are not modelled. No contract here depends on a mark's value beyond its being stored. The entity's other settable fields (negative marks, Bloom level, source reference, the AI fields, `createdBy`) are stored as bound like the modelled ones but are not modelled. A client-sent `id` is not modelled either: the new question always gets a fresh id, and how `save` treats a given id depends on BaseEntity.java, which is not part of this model.
- Questions.CreateCQ: marks are integers, while Question.java line 26 declares them `Double`. Fractional marks are not modelled. No contract here depends on a mark's value beyond its being stored. The entity's other settable fields (negative marks, Bloom level, source reference, the AI fields, `createdBy`) are stored as bound like the modelled ones but are not modelled. A client-sent `id` is not modelled either: the new question always gets a fresh id, and how `save` treats a given id depends on BaseEntity.java, which is not part of this model.
- RateLimit.Filter: keys clients by the corrected `RateLimit.ClientIp`. For an X-Forwarded-For made only of commas the code as written throws (see Findings), while the model counts the request under the empty key.
- Backup.DumpArgs: use the corrected `Backup.DbName`. For a URL whose query holds a `/` the code as written dumps the wrong database (see Findings).
- Backup.TriggerManualBackup: use the corrected `Backup.DbName`. For a URL whose query holds a `/` the code as written dumps the wrong database (see Findings).
- Fetch failures and loading flags in the pages are not modelled. Every fetch completes immediately with the list given as a parameter, so stale-response races are out of scope.
- The browser's `required` attribute is modelled as "no request is made" when a required field is empty.
- The refetch that TopicList.jsx runs when its modal opens is not modelled; the modal's own class and subject effects are.
- Backup.Stamp: years are limited to 0..9999, the range `yyyyMMdd` prints in four digits.
- Exception messages are taken as present (non-null) wherever the services copy them into a record or a response.
- Seeding (DataInitializer, DatabaseSeeder) and the presentation-only pages are not modelled.

## Findings

| source | as written | input that shows it | evidently intended | confidence | as-written member | corrected member |
|---|---|---|---|---|---|---|
| backend/src/main/java/com/testshaper/security/RateLimitFilter.java:85 | the client key is `split(",")[0]` of X-Forwarded-For; Java drops trailing empty pieces, so a header made only of commas gives an empty array and the index throws | header `","` | take the first hop, or fall back to the remote address, without throwing | high, not executed | RateLimit.ClientIpAsWrittenFailsOnCommas | RateLimit.ClientIpAgrees |
| backend/src/main/java/com/testshaper/service/impl/BackupServiceImpl.java:111-113 | the database name is taken after the last `/` of the whole URL, query included, and cut at `?` only afterwards | `jdbc:mysql://h/qb?tz=A/B` gives `B` | the path segment before the query: `qb` | high, not executed | Backup.DbNameAsWrittenMisreadsQuery | Backup.DbNameOfUrl |
| frontend/src/pages/admin/QuestionBank/MCQCreate.jsx:28-33,138 | options are sent under the key `isCorrect`; the entity field is the Lombok boolean `isCorrect`, which Jackson binds from `correct`, so every option arrives not correct and the service refuses every MCQ | any form with one option ticked | the ticked option arrives correct and the MCQ is stored | medium, not executed | McqCreate.AsWrittenAlwaysRefused | McqCreate.RadioChoiceAccepted |
| frontend/src/pages/admin/QuestionBank/CQCreate.jsx:120 | the class-subject is sent under `subject`, but the question entity's field is `classSubject`, so the stored question has no class-subject | any filled CQ form (as written the subject cannot be picked, see the row for line 163) | the picked class-subject is stored | low, not executed | CqCreate.AsWrittenLosesClassSubject | CqCreate.SubmittedQuestionStored |
| frontend/src/pages/admin/QuestionBank/ShortQuestionCreate.jsx:89 | the same `subject` key as the CQ form | any filled short-question form (as written the subject cannot be picked, see the row for line 131) | the picked class-subject is stored | low, not executed | ShortQuestionCreate.AsWrittenLosesClassSubject | ShortQuestionCreate.SubmittedQuestionStored |
| frontend/src/services/userService.js:55-97 | every role call (`getRoles`, `getPermissions`, `createRole`, `updateRole`, `deleteRole`) uses an undeclared `api`, so each throws a ReferenceError: the role page loads nothing, and every save or delete only alerts | open the role page; save any role | the calls go through the imported axios client like the rest of the file | high, not executed | RoleManagement.AsWrittenNeverManagesRoles | RoleManagement.AddedRoleHasTicked |
| frontend/src/pages/admin/QuestionBank/CQCreate.jsx:54-62,163 | subject options read `subj.id` from class-subject rows that have none, so every option's value is "", and the chapter call `getChaptersBySubject` is not exported | pick a class with one subject, then pick that subject | the option carries `classSubjectId` and the class-subject's chapters load | high, not executed | CqCreate.AsWrittenSubjectBlocksSubmit | FormCascade.ClassSubjectPicked |
| frontend/src/pages/admin/QuestionBank/ShortQuestionCreate.jsx:50-58,131 | the same subject options and chapter call as the CQ form | pick a class with one subject, then pick that subject | the option carries `classSubjectId` and the class-subject's chapters load | high, not executed | ShortQuestionCreate.AsWrittenSubjectBlocksSubmit | FormCascade.ClassSubjectPicked |
| frontend/src/pages/admin/Academic/ChapterList.jsx:84-95,170 | the subject filter's options are all "()", and the listing call `getChaptersBySubject` throws and is caught, so the table never narrows | pick a class, then any subject in the filter | the table lists that class-subject's chapters | high, not executed | ChapterList.AsWrittenFilterNeverNarrows | ChapterList.FilterNarrowsToClassSubject |
| frontend/src/pages/admin/Academic/ChapterList.jsx:240 | the modal's subject options are all "", so the required select stays empty and no chapter can be created | open Add Chapter, pick a class and a subject | the chapter is created under the chosen class-subject | high, not executed | ChapterList.AsWrittenModalNeverCreates | ChapterList.ModalCreatesUnderClassSubject |
| frontend/src/pages/admin/Academic/AcademicStructure.jsx:57-81 | `createSubject` is not exported, so adding a subject only alerts; a subject row is selected under `id` undefined, so its chapters never load and a chapter create is sent to `/class-subjects/undefined/chapters`, which the server rejects | pick a class and add a subject; or pick a subject and add a chapter | the subject is created under the class, and chapters are listed and created under the class-subject | high, not executed | AcademicStructure.AsWrittenSubjectColumnInert | AcademicStructure.SubjectColumnWorks |
| backend/src/main/java/com/testshaper/service/impl/AcademicServiceImpl.java:62-67 | a subject not found by code is saved as submitted, and nothing sets its `academicClass`, which Subject.java:20-23 maps to a NOT NULL column; if the table has that column, the save fails and the transaction rolls back. Against this: Subject.java declares no `description`, yet AcademicServiceImpl.java:122 and DataInitializer.java:151 use one, and DataInitializer.java:146-153 saves subjects without a class too, so that entity file is likely stale and the model keeps `description` | create-and-assign a subject with a code no stored subject has, while the class and an active session exist | the subject is saved and linked to the class in the active session | low, not executed | Academic.AsWrittenNewSubjectFails | Academic.CreateAndAssignListed |

