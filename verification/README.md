# Admin back-office: authentication and RBAC core, in Dafny

This project models the authentication and role-based access control core
of a Kotlin/Spring admin back-office:

- the administrator account and its lockout state machine;
- refresh-token storage;
- the permission `resource:action` authority string;
- the error taxonomy and the exception advice;
- the authentication service: sign-up, login, refresh rotation, logout and
  the caller's profile;
- the security principal's authorities;
- the menu tree pruned by authority, and menu administration;
- role and permission administration, including replace-style assignment;
- the start-up RBAC seeding and legacy-role migration;
- the paged user-list query and its service.

Database tables are sequences of rows that carry their own ids. A service
that changes state returns a `Step(state, result)`. The result is `Ok(value)`
or `Err(BusinessException)`.

Some inputs are parameters of the model:

- the clock, the password encoder and the token generators (fields of
  `AuthService.Env`);
- the rows the user-list queries return (`UserList.QueryRows`);
- the list query itself in `UserQuery.FindUsers`;
- the set of permission ids that other tables still refer to, in
  `PermissionService.Delete`.

Modules follow the source: `AdminUsers`, `RefreshTokens`, `Permissions`,
`Roles`, `Menus` (entities), `Store` (tables and lookups), `Errors`,
`AuthService`, `UserDetails`, `MenuService`, `RoleService`,
`PermissionService`, `RbacInit`, `UserList`, `UserQuery`. `Seqs` and
`Strings` are shared sequence and string utilities.

## Model

| member | source | states |
|---|---|---|
| AdminUsers.IncreaseLoginFailCount | src/main/kotlin/com/dh/admin/domain/user/entity/AdminUser.kt:49-54 | The counter goes up by one. The account is locked iff it was locked or the counter reached 5. The lock time becomes `now` at the threshold and is otherwise kept. Identity, credentials, roles and the active flag are untouched. |
| AdminUsers.ResetUndoesFailures | src/main/kotlin/com/dh/admin/domain/user/entity/AdminUser.kt:49-59 | A reset after any run of failures leaves the account a reset of the account before them would: no failure outlives a successful login. |
| AdminUsers.ResetIsIdempotent | src/main/kotlin/com/dh/admin/domain/user/entity/AdminUser.kt:56-59 | Resetting twice is the same as resetting once. |
| AdminUsers.IncreaseNeverUnlocks | src/main/kotlin/com/dh/admin/domain/user/entity/AdminUser.kt:49-54 | A failure never unlocks a locked account. |
| AdminUsers.FailuresFromFreshAccount | src/main/kotlin/com/dh/admin/domain/user/entity/AdminUser.kt:43-54 | From a fresh account, n failures leave the counter at n. The account is locked exactly when n ≥ 5. |
| AdminUsers.LockoutOperationsPreserveConsistency | src/main/kotlin/com/dh/admin/domain/user/entity/AdminUser.kt:37-59 | Both operations keep the invariant "counter ≥ 0, and counter ≥ 5 implies locked". |
| RefreshTokens.NotExpiredAtExpiryInstant | src/main/kotlin/com/dh/admin/domain/auth/entity/RefreshToken.kt:22-23 | A token is still valid at its expiry instant. It is expired one second later ("is after", strictly). |
| RefreshTokens.ExpiryIsPermanent | src/main/kotlin/com/dh/admin/domain/auth/entity/RefreshToken.kt:22-23 | Once expired, a token stays expired at every later time. |
| RefreshTokens.FindByToken | src/main/kotlin/com/dh/admin/domain/auth/repository/RefreshTokenRepository.kt:8 | Returns a row holding the value, or none exactly when no row holds it. |
| RefreshTokens.DeleteByUser | src/main/kotlin/com/dh/admin/domain/auth/repository/RefreshTokenRepository.kt:12 | Keeps exactly the other users' rows, in order. The user is left with no rows. |
| RefreshTokens.DeleteByUserKeepsOthers | src/main/kotlin/com/dh/admin/domain/auth/repository/RefreshTokenRepository.kt:12 | Every other user's row count is unchanged. |
| Permissions.AuthorityRoundTrip | src/main/kotlin/com/dh/admin/domain/role/entity/Permission.kt:25-26 | For a colon-free resource, splitting the authority at its first colon gives back (resource, action). |
| Permissions.AuthorityInjective | src/main/kotlin/com/dh/admin/domain/role/entity/Permission.kt:7-26 | For colon-free resources, two permissions have equal authorities iff they have the same unique (resource, action) key. |
| Errors.ErrorCodeTableWellFormed | src/main/kotlin/com/dh/admin/common/exception/ErrorCode.kt:5-16 | No two entries share a code or an HTTP status, and every code starts with "EFC9". |
| Errors.LoginApiTestRows | src/test/kotlin/com/dh/admin/interfaces/api/AuthControllerLoginApiTest.kt:66-101 | The Unauthorized and Validation entries carry the codes, statuses and titles the login API test expects. |
| Errors.ErrorCodeOfIdentifiesKind | src/main/kotlin/com/dh/admin/common/exception/BusinessException.kt:3-21 | Two business exceptions with the same error code and message are the same exception: each kind has its own code. |
| Errors.HandleBusinessException | src/main/kotlin/com/dh/admin/interfaces/advice/GlobalExceptionHandler.kt:15-50 | Each of the five handlers answers with the status of the exception's own error code, that code, and the exception's message. |
| Errors.HandleFieldErrors | src/main/kotlin/com/dh/admin/interfaces/advice/GlobalExceptionHandler.kt:35-45 | A bean-validation failure is answered exactly as a thrown validation exception with the same message would be: 400 with the validation code. |
| Errors.FormattedIsNotBlank | src/main/kotlin/com/dh/admin/interfaces/advice/GlobalExceptionHandler.kt:52-53 | A formatted field error is never blank. |
| Errors.FieldErrorMessage | src/main/kotlin/com/dh/admin/interfaces/advice/GlobalExceptionHandler.kt:35-53 | The default text is used exactly when there are no field errors. Otherwise the message starts with the first field name and contains every "field: message" entry. |
| AuthService.TruncDiv | src/main/kotlin/com/dh/admin/domain/auth/service/AuthService.kt:134 | Long division of the lifetime truncates toward zero, for either sign of the dividend. |
| AuthService.IssueTokens | src/main/kotlin/com/dh/admin/domain/auth/service/AuthService.kt:124-139 | Both tokens are minted from (id, email, role codes), with type "Bearer". The user then has exactly one stored token, the new one, expiring at now plus the lifetime. Other users' tokens and all other tables are unchanged. |
| AuthService.SignUp | src/main/kotlin/com/dh/admin/domain/auth/service/AuthService.kt:30-50 | Refused as duplicate, with nothing changed, exactly when the email is taken. Otherwise exactly one account is appended and the other tables are unchanged. |
| AuthService.SignUpCreatesFreshAccount | src/main/kotlin/com/dh/admin/domain/auth/service/AuthService.kt:35-49 | The new account has a fresh id, the request's email and name, and the encoded password. It has no roles, is active, unlocked, and has a zero counter. The response mirrors it. |
| AuthService.SignUpKeepsEmailsUnique | src/main/kotlin/com/dh/admin/domain/auth/service/AuthService.kt:31-41 | Sign-up keeps emails unique. |
| AuthService.PrincipalFlagsMatchLoginCheck | src/main/kotlin/com/dh/admin/infrastructure/security/CustomUserDetails.kt:48-52 | The principal is enabled and non-locked exactly when the login's state check passes. |
| AuthService.Login | src/main/kotlin/com/dh/admin/domain/auth/service/AuthService.kt:53-69 | A refusal leaves the token table alone. Roles, permissions and menus never change, and the user count is kept. |
| AuthService.UnknownEmailLooksLikeWrongPassword | src/main/kotlin/com/dh/admin/domain/auth/service/AuthService.kt:54-62 | An unknown email and a wrong password give the same error. |
| AuthService.LoginRefusalOrder | src/main/kotlin/com/dh/admin/domain/auth/service/AuthService.kt:53-63 | An inactive account is refused, then a locked one, before the password is checked. Neither refusal changes anything. |
| AuthService.WrongPasswordCountsOneFailure | src/main/kotlin/com/dh/admin/domain/auth/service/AuthService.kt:59-63 | A wrong password on a usable account applies exactly one failure to that account and issues nothing. |
| AuthService.LoginSuccess | src/main/kotlin/com/dh/admin/domain/auth/service/AuthService.kt:65-68 | Success needs an active, unlocked account and a matching password. It resets the counter and issues the tokens. |
| AuthService.LoginNeedsKnownEmail | src/main/kotlin/com/dh/admin/domain/auth/service/AuthService.kt:54-55 | No login succeeds for an unknown email. |
| AuthService.FifthFailureLocksLogin | src/main/kotlin/com/dh/admin/domain/auth/service/AuthService.kt:57-63 | After four wrong passwords the right one still logs in. After five it is refused as locked. This is the intended behaviour: it holds only when the recorded failures persist (see Findings). |
| AuthService.LoginKeepsCountersBounded | src/main/kotlin/com/dh/admin/domain/auth/service/AuthService.kt:53-69 | Login keeps every counter in 0..5, with 5 only on locked accounts. |
| AuthService.Refresh | src/main/kotlin/com/dh/admin/domain/auth/service/AuthService.kt:72-86 | Only the token table can change. |
| AuthService.RefreshUnknownToken | src/main/kotlin/com/dh/admin/domain/auth/service/AuthService.kt:73-74 | An unknown token is refused as invalid and nothing changes. |
| AuthService.RefreshExpiredToken | src/main/kotlin/com/dh/admin/domain/auth/service/AuthService.kt:76-79 | An expired token is deleted and refused as expired. |
| AuthService.RefreshMissingOwner | src/main/kotlin/com/dh/admin/domain/auth/service/AuthService.kt:81-82 | A live token whose owner is gone is refused and kept. |
| AuthService.RefreshRotates | src/main/kotlin/com/dh/admin/domain/auth/service/AuthService.kt:84-85 | A successful refresh was for a stored live token. Its owner is left with exactly one token, and the presented value survives only if it equals the new one. |
| AuthService.RefreshTokenIsSingleUse | src/main/kotlin/com/dh/admin/domain/auth/service/AuthService.kt:72-86 | Presenting a refreshed token again is refused as invalid, when the new token differs from the presented one. |
| AuthService.ExpiredTokenThenInvalid | src/main/kotlin/com/dh/admin/domain/auth/service/AuthService.kt:73-79 | An expired token is refused once as expired and afterwards as invalid. This is the intended behaviour: it holds only when the deletion persists (see Findings). |
| AuthService.RefreshIgnoresLock | src/main/kotlin/com/dh/admin/domain/auth/service/AuthService.kt:81-85 | A locked account with a live token still gets new tokens. |
| AuthService.WrongPasswordsCommitNothing | src/main/kotlin/com/dh/admin/domain/auth/service/AuthService.kt:52-63 | As the method runs, inside its transaction: any number of wrong passwords leave the database exactly as it was, because the counted failure is rolled back with the exception. |
| AuthService.LockoutNeverPersists | src/main/kotlin/com/dh/admin/domain/auth/service/AuthService.kt:52-68 | As the method runs: after any number of wrong passwords, five included, the right password still logs in. |
| AuthService.ExpiredTokenNeverDeleted | src/main/kotlin/com/dh/admin/domain/auth/service/AuthService.kt:71-79 | As the method runs: presenting an expired token leaves the database as it was. Presenting it again, then or later, is refused as expired once more. |
| AuthService.Logout | src/main/kotlin/com/dh/admin/domain/auth/service/AuthService.kt:89-91 | The user is left with no tokens. Every other user's token count and every other table are unchanged. |
| AuthService.LogoutIsIdempotent | src/main/kotlin/com/dh/admin/domain/auth/service/AuthService.kt:89-91 | Logging out twice is logging out once. |
| AuthService.IssueTokensKeepsTableOk | src/main/kotlin/com/dh/admin/domain/auth/service/AuthService.kt:129-136 | Issuing keeps the token table invariant: unique tokens, at most one per user, each token's subject its owner. |
| AuthService.SignUpKeepsTableOk | src/main/kotlin/com/dh/admin/domain/auth/service/AuthService.kt:30-50 | Sign-up keeps the token table invariant. |
| AuthService.LoginKeepsTableOk | src/main/kotlin/com/dh/admin/domain/auth/service/AuthService.kt:53-69 | Login keeps the token table invariant. |
| AuthService.RefreshKeepsTableOk | src/main/kotlin/com/dh/admin/domain/auth/service/AuthService.kt:72-86 | Refresh keeps the token table invariant. |
| AuthService.LogoutKeepsTableOk | src/main/kotlin/com/dh/admin/domain/auth/service/AuthService.kt:89-91 | Logout keeps the token table invariant. |
| AuthService.GetMyInfo | src/main/kotlin/com/dh/admin/domain/auth/service/AuthService.kt:93-113 | Refused exactly when no account has the id. Otherwise the profile has the caller's id and strictly sorted (so duplicate-free) permissions. |
| AuthService.MyInfoMatchesPrincipal | src/main/kotlin/com/dh/admin/domain/auth/service/AuthService.kt:97-103 | The profile's roles are the principal's roles. Its permission list holds exactly the principal's permission authorities, and its menus are the menus for that set. |
| UserDetails.PermissionAuthoritiesAreUnion | src/main/kotlin/com/dh/admin/infrastructure/security/CustomUserDetails.kt:19-22 | The permission-authority set is exactly the authorities of the permissions of the roles. |
| UserDetails.GetAuthorities | src/main/kotlin/com/dh/admin/infrastructure/security/CustomUserDetails.kt:24-40 | The list is one "ROLE_"+code entry per role, then the flat permission authorities. |
| UserDetails.GetAuthoritiesLength | src/main/kotlin/com/dh/admin/infrastructure/security/CustomUserDetails.kt:24-40 | The list has one entry per role plus one per (role, permission) pair; nothing is merged. |
| UserDetails.PermissionBlockIsPermissionAuthorities | src/main/kotlin/com/dh/admin/infrastructure/security/CustomUserDetails.kt:19-40 | The entries after the role block form exactly `permissionAuthorities`. |
| UserDetails.GrantedAuthorities | src/main/kotlin/com/dh/admin/infrastructure/security/CustomUserDetails.kt:24-40 | An authority is granted iff it is some role's "ROLE_" authority or some role's permission authority. |
| UserDetails.LockedPrincipalAfterFiveFailures | src/main/kotlin/com/dh/admin/infrastructure/security/CustomUserDetails.kt:48-52 | Four failures leave the principal non-locked. The fifth locks it and leaves it enabled. |
| MenuService.FilterAccessibleMenu | src/main/kotlin/com/dh/admin/domain/menu/service/MenuService.kt:97-121 | A node is dropped iff its required authority is missing. A kept node carries its own fields, and every node below it is active and permitted. |
| MenuService.FilterChildren | src/main/kotlin/com/dh/admin/domain/menu/service/MenuService.kt:103-105 | Every kept child is active, points at its parent, and is sound. |
| MenuService.FindAccessibleMenus | src/main/kotlin/com/dh/admin/domain/menu/service/MenuService.kt:57-62 | Every listed root is active, has no parent, and is sound at every depth. |
| MenuService.FilterChildrenKeepsVisible | src/main/kotlin/com/dh/admin/domain/menu/service/MenuService.kt:103-105 | Nothing is over-pruned: every active, permitted child appears in the output. |
| MenuService.FilterCodesWithin | src/main/kotlin/com/dh/admin/domain/menu/service/MenuService.kt:97-121 | The pruned tree holds only codes of the input tree. |
| MenuService.DeniedSubtreeIsHidden | src/main/kotlin/com/dh/admin/domain/menu/service/MenuService.kt:97-105 | When a node is denied, no code of its subtree appears in the pruned tree, whatever its descendants would allow. |
| MenuService.DeniedMenuIsHidden | src/main/kotlin/com/dh/admin/domain/menu/service/MenuService.kt:57-62 | The same holds for the whole accessible-menu list. |
| MenuService.FilterIsMonotone | src/main/kotlin/com/dh/admin/domain/menu/service/MenuService.kt:97-121 | More authorities never hide a node that fewer authorities show. |
| MenuService.AccessibleMenusAreMonotone | src/main/kotlin/com/dh/admin/domain/menu/service/MenuService.kt:57-62 | More authorities never shrink the accessible menu codes. |
| MenuService.FilterChildrenPreservesOrder | src/main/kotlin/com/dh/admin/domain/menu/service/MenuService.kt:103-105 | The kept children are a subsequence of the children, in their order. |
| MenuService.FilterChildrenKeepsSortOrder | src/main/kotlin/com/dh/admin/domain/menu/service/MenuService.kt:103-105 | Children sorted by sort order stay sorted after pruning. |
| MenuService.ToResponseWithChildren | src/main/kotlin/com/dh/admin/domain/menu/service/MenuService.kt:137-150 | Every node keeps its fields and all of its children. |
| MenuService.FindAllTree | src/main/kotlin/com/dh/admin/domain/menu/service/MenuService.kt:52-55 | One response per root. |
| MenuService.FindAllTreeRoundTrip | src/main/kotlin/com/dh/admin/domain/menu/service/MenuService.kt:52-55 | Reading the full tree back gives the menus it was built from. |
| MenuService.FullyVisibleTreeIsUnpruned | src/main/kotlin/com/dh/admin/domain/menu/service/MenuService.kt:97-121 | When every node is active and permitted, pruning gives the full tree. |
| MenuService.Create | src/main/kotlin/com/dh/admin/domain/menu/service/MenuService.kt:23-50 | A refusal changes nothing. A success appends exactly the returned row. |
| MenuService.CreateOutcomes | src/main/kotlin/com/dh/admin/domain/menu/service/MenuService.kt:23-50 | A taken code is refused first. The create succeeds iff the code is free and any named parent and permission exist. The new row is active, carries the request's fields, and has a fresh id. |
| MenuService.Update | src/main/kotlin/com/dh/admin/domain/menu/service/MenuService.kt:65-88 | A refusal changes nothing. A success replaces the row with the id and nothing else. |
| MenuService.UpdateFieldRules | src/main/kotlin/com/dh/admin/domain/menu/service/MenuService.kt:69-85 | The name is always replaced. Each optional field is replaced when given and kept when absent. The id and code are kept. |
| MenuService.UpdateMissingMenu | src/main/kotlin/com/dh/admin/domain/menu/service/MenuService.kt:66-67 | Updating a missing menu is not found and changes nothing. |
| MenuService.Delete | src/main/kotlin/com/dh/admin/domain/menu/service/MenuService.kt:91-95 | Not found, with nothing changed, exactly when no row has the id. Otherwise exactly that row is removed and the others keep their order. |
| RoleService.Create | src/main/kotlin/com/dh/admin/domain/role/service/RoleService.kt:23-36 | A refusal changes nothing. A success appends exactly one role. |
| RoleService.CreateOutcomes | src/main/kotlin/com/dh/admin/domain/role/service/RoleService.kt:23-36 | Refused as duplicate iff the code is taken. Otherwise the role is active, not a system role, has no permissions and a fresh id, and codes stay unique. |
| RoleService.Update | src/main/kotlin/com/dh/admin/domain/role/service/RoleService.kt:49-58 | Not found, with nothing changed, exactly when no role has the id. |
| RoleService.UpdateFieldRules | src/main/kotlin/com/dh/admin/domain/role/service/RoleService.kt:53-55 | The name is replaced. The description and active flag change only when given. Code, system flag and permissions are kept, and every other role is unchanged. |
| RoleService.UpdateIsIdempotent | src/main/kotlin/com/dh/admin/domain/role/service/RoleService.kt:49-58 | Repeating an update changes nothing more. |
| RoleService.Delete | src/main/kotlin/com/dh/admin/domain/role/service/RoleService.kt:61-70 | A refusal changes nothing. A success removes exactly one row. |
| RoleService.DeleteOutcomes | src/main/kotlin/com/dh/admin/domain/role/service/RoleService.kt:61-70 | Missing is not found. A system role is forbidden and stays. Any other role is removed, and every other role stays. |
| RoleService.FoundIds | src/main/kotlin/com/dh/admin/domain/role/service/RoleService.kt:77 | The requested ids that name a stored row, each once. |
| RoleService.AssignPermissions | src/main/kotlin/com/dh/admin/domain/role/service/RoleService.kt:73-82 | Not found exactly when no role has the id. Only the role table changes. |
| RoleService.AssignPermissionsReplaces | src/main/kotlin/com/dh/admin/domain/role/service/RoleService.kt:77-79 | Afterwards the role holds exactly the requested ids of stored permissions, each once. Old grants are gone and nothing else about the role changes. |
| RoleService.AssignPermissionsIsIdempotent | src/main/kotlin/com/dh/admin/domain/role/service/RoleService.kt:73-82 | Assigning twice is the same as assigning once. |
| RoleService.GetUserRoles | src/main/kotlin/com/dh/admin/domain/role/service/RoleService.kt:84-89 | Not found exactly when no account has the id. |
| RoleService.AssignUserRoles | src/main/kotlin/com/dh/admin/domain/role/service/RoleService.kt:92-100 | Not found exactly when no account has the id. Only the user table changes. |
| RoleService.AssignUserRolesIsIdempotent | src/main/kotlin/com/dh/admin/domain/role/service/RoleService.kt:92-100 | Assigning twice is the same as assigning once. |
| RoleService.ListedRolesFollowUser | src/main/kotlin/com/dh/admin/domain/role/service/RoleService.kt:84-89 | When all of a user's role ids name stored roles, `getUserRoles` lists one summary per id, in order. |
| RoleService.AssignUserRolesStores | src/main/kotlin/com/dh/admin/domain/role/service/RoleService.kt:96-99 | The user's role ids become the stored roles among the requested ids. Nothing else about the user changes. |
| RoleService.AssignUserRolesListsOnce | src/main/kotlin/com/dh/admin/domain/role/service/RoleService.kt:92-100 | Afterwards `getUserRoles` lists no role twice. |
| RoleService.AssignUserRolesThenGet | src/main/kotlin/com/dh/admin/domain/role/service/RoleService.kt:84-100 | Afterwards `getUserRoles` lists a role iff it was requested and stored. |
| PermissionService.Create | src/main/kotlin/com/dh/admin/domain/role/service/PermissionService.kt:19-33 | A refusal changes nothing. A success appends exactly one row. |
| PermissionService.CreateOutcomes | src/main/kotlin/com/dh/admin/domain/role/service/PermissionService.kt:19-33 | Refused iff the pair is taken, with the authority in the message. Otherwise the row carries the request's fields and a fresh id, and the (resource, action) key stays unique. |
| PermissionService.Update | src/main/kotlin/com/dh/admin/domain/role/service/PermissionService.kt:56-64 | Not found, with nothing changed, exactly when no row has the id. |
| PermissionService.UpdateFieldRules | src/main/kotlin/com/dh/admin/domain/role/service/PermissionService.kt:60-61 | Name and description are overwritten, the description even with none. The key and authority are kept, the other rows are unchanged, and the key stays unique. |
| PermissionService.Delete | src/main/kotlin/com/dh/admin/domain/role/service/PermissionService.kt:67-77 | A refusal changes nothing. A success removes exactly one row. |
| PermissionService.DeleteOutcomes | src/main/kotlin/com/dh/admin/domain/role/service/PermissionService.kt:67-77 | Not found iff no row has the id. "In use" iff the row exists and is referenced. Otherwise exactly that permission is gone. |
| PermissionService.InResources | src/main/kotlin/com/dh/admin/domain/role/service/PermissionService.kt:49-50 | A resource is listed iff some permission has it. |
| PermissionService.FindAllResources | src/main/kotlin/com/dh/admin/domain/role/service/PermissionService.kt:48-53 | Strictly ascending, hence duplicate-free, and holding exactly the table's resources. |
| PermissionService.GroupBy | src/main/kotlin/com/dh/admin/domain/role/service/PermissionService.kt:38 | No two groups share a resource. Each group is the group of a resource of the table: that resource's permissions in table order. |
| PermissionService.FindAll | src/main/kotlin/com/dh/admin/domain/role/service/PermissionService.kt:35-46 | The groups are sorted by resource, and each is its resource's group. |
| PermissionService.FindAllCoversResources | src/main/kotlin/com/dh/admin/domain/role/service/PermissionService.kt:35-46 | A resource has a group iff some permission has that resource. |
| PermissionService.FindAllOneGroupPerResource | src/main/kotlin/com/dh/admin/domain/role/service/PermissionService.kt:38-45 | No resource has two groups. |
| PermissionService.FindAllResourcesMatchesGroups | src/main/kotlin/com/dh/admin/domain/role/service/PermissionService.kt:35-53 | `findAllResources` lists exactly the group resources of `findAll`, in the same order. |
| PermissionService.FindAllGroupContents | src/main/kotlin/com/dh/admin/domain/role/service/PermissionService.kt:38-42 | A group is non-empty. It holds only its resource's permissions, as a subsequence of the table. |
| PermissionService.FindAllPlacesEveryPermission | src/main/kotlin/com/dh/admin/domain/role/service/PermissionService.kt:35-46 | Every permission is in its resource's group. |
| RbacInit.SeedDefsAreTheGrid | src/main/kotlin/com/dh/admin/infrastructure/security/RbacDataInitializer.kt:42-63 | The 16 definitions are the 4 resources × 4 actions grid, resource-major, with distinct pairs. |
| RbacInit.FindOrCreatePermission | src/main/kotlin/com/dh/admin/infrastructure/security/RbacDataInitializer.kt:66-67 | Returns a stored permission with the pair. The table is unchanged when the pair exists; otherwise one row is appended with a fresh id. |
| RbacInit.FindOrCreateKeepsTableUnique | src/main/kotlin/com/dh/admin/infrastructure/security/RbacDataInitializer.kt:66-67 | Find-or-create keeps keys and ids unique. |
| RbacInit.SeedPermissions | src/main/kotlin/com/dh/admin/infrastructure/security/RbacDataInitializer.kt:65-68 | One permission per definition, with its pair and stored in the table. The old table is a prefix of the new one. |
| RbacInit.SeedKeepsTableUnique | src/main/kotlin/com/dh/admin/infrastructure/security/RbacDataInitializer.kt:65-68 | Seeding keeps keys and ids unique. |
| RbacInit.SeedOverFullTableAddsNothing | src/main/kotlin/com/dh/admin/infrastructure/security/RbacDataInitializer.kt:65-68 | When every pair is already stored, seeding adds nothing. |
| RbacInit.SeedListCoversSeedKeys | src/main/kotlin/com/dh/admin/infrastructure/security/RbacDataInitializer.kt:65-68 | In a table with unique keys, the stored row for a definition's pair is the one seeding returns for it. |
| RbacInit.SeededIdsDistinct | src/main/kotlin/com/dh/admin/infrastructure/security/RbacDataInitializer.kt:65-72 | Distinct pairs give distinct seeded ids, so the `toSet()` loses nothing. |
| RbacInit.IdSet | src/main/kotlin/com/dh/admin/infrastructure/security/RbacDataInitializer.kt:72-78 | The ids of a list of permissions, each once, exactly. |
| RbacInit.FindOrCreateRole | src/main/kotlin/com/dh/admin/infrastructure/security/RbacDataInitializer.kt:80-90 | An existing code leaves the table as is, grants included. A missing code appends a system role with a fresh id and the grant. |
| RbacInit.CreateRoleWhenAbsent | src/main/kotlin/com/dh/admin/infrastructure/security/RbacDataInitializer.kt:80-90 | A missing code appends exactly that role. |
| RbacInit.SeedRolesIntoEmptyTable | src/main/kotlin/com/dh/admin/infrastructure/security/RbacDataInitializer.kt:71-93 | An empty table gets SUPER_ADMIN, ADMIN and VIEWER, in that order. All are system roles, with all / admin / read grants. |
| RbacInit.FindOrCreateRoleExtends | src/main/kotlin/com/dh/admin/infrastructure/security/RbacDataInitializer.kt:80-90 | Find-or-create keeps the stored rows as a prefix and adds the code. |
| RbacInit.SeedRolesKeepsExistingRoles | src/main/kotlin/com/dh/admin/infrastructure/security/RbacDataInitializer.kt:80-90 | Existing roles are kept as they are. With all three codes present nothing changes. |
| RbacInit.GrantsNest | src/main/kotlin/com/dh/admin/infrastructure/security/RbacDataInitializer.kt:72-78 | Read grants ⊆ admin grants ⊆ all grants. |
| RbacInit.SeedGrantSizes | src/main/kotlin/com/dh/admin/infrastructure/security/RbacDataInitializer.kt:42-78 | Of the 16 definitions, 10 fit ADMIN's rule and 4 are reads. |
| RbacInit.SeededGrantCounts | src/main/kotlin/com/dh/admin/infrastructure/security/RbacDataInitializer.kt:65-90 | Over a table with unique keys and ids, SUPER_ADMIN gets 16 permissions, ADMIN 10 and VIEWER 4. |
| RbacInit.MigrateUserRule | src/main/kotlin/com/dh/admin/infrastructure/security/RbacDataInitializer.kt:100-106 | An account changes iff it has no roles, a legacy role, and a role with that code exists. It then gets exactly that role. |
| RbacInit.MigrateIsIdempotent | src/main/kotlin/com/dh/admin/infrastructure/security/RbacDataInitializer.kt:95-115 | A second migration changes nothing. |
| RbacInit.Run | src/main/kotlin/com/dh/admin/infrastructure/security/RbacDataInitializer.kt:25-39 | Tokens and menus are untouched, and roles exist afterwards. |
| RbacInit.RunSkipsSeedingWhenRolesExist | src/main/kotlin/com/dh/admin/infrastructure/security/RbacDataInitializer.kt:26-30 | With roles present, only the migration runs. |
| RbacInit.RunSeedsEmptyRoleTable | src/main/kotlin/com/dh/admin/infrastructure/security/RbacDataInitializer.kt:34-36 | On an empty role table the three system roles are created. |
| RbacInit.RunKeepsPermissionTable | src/main/kotlin/com/dh/admin/infrastructure/security/RbacDataInitializer.kt:34 | Stored permissions are kept as a prefix, and keys and ids stay unique. |
| RbacInit.RunIsIdempotent | src/main/kotlin/com/dh/admin/infrastructure/security/RbacDataInitializer.kt:25-39 | A second start changes nothing. |
| UserList.BuildConditions | src/main/kotlin/com/dh/admin/domain/user/repository/AdminUserRepositoryImpl.kt:109-130 | At most three conditions. |
| UserList.BuildConditionsRules | src/main/kotlin/com/dh/admin/domain/user/repository/AdminUserRepositoryImpl.kt:116-127 | A condition is present iff its filter is given: non-blank keyword or role code, non-null flag. Each carries the given value, and there is one condition per given filter. |
| UserList.RoleRowsAreRoleOf | src/main/kotlin/com/dh/admin/domain/user/repository/AdminUserRepositoryImpl.kt:84-92 | Role summaries come exactly from the rows that have a role id, with null columns read as "". |
| UserList.FirstByIdIsDedup | src/main/kotlin/com/dh/admin/domain/user/repository/AdminUserRepositoryImpl.kt:88-91 | `putIfAbsent` keeps one summary per role id and loses no id. |
| UserList.FirstByIdKeepsFirst | src/main/kotlin/com/dh/admin/domain/user/repository/AdminUserRepositoryImpl.kt:88-91 | The kept summary is the first one with its id. |
| UserList.AggregateRows | src/main/kotlin/com/dh/admin/domain/user/repository/AdminUserRepositoryImpl.kt:70-93 | There is an accumulator exactly for users with rows. Each equals the reference fold of that user's rows: the first row's columns, then the user's roles once each, in row order. |
| UserList.OrderedFollowsIds | src/main/kotlin/com/dh/admin/domain/user/repository/AdminUserRepositoryImpl.kt:95-105 | The items follow the page's ids: exactly the ids that have an aggregate, in order, each built from its own aggregate. |
| UserList.FindUserList | src/main/kotlin/com/dh/admin/domain/user/repository/AdminUserRepositoryImpl.kt:20-107 | A zero count gives an empty page with total 0. No page ids gives an empty page that keeps the total. Otherwise there is one item per page id with rows, in id order, each the reference aggregate of that user. The total is the count as `PageImpl` adjusts it. It equals the count whenever the rows are consistent with it, and it never falls below offset + items on a non-empty page. |
| UserList.PageImplTotalKeepsCount | src/main/kotlin/com/dh/admin/domain/user/repository/AdminUserRepositoryImpl.kt:106 | An empty page, or one that stops short of the count, keeps the count. A page reaching past the count keeps it exactly when offset + items equals the count. |
| UserList.PageImplTotalCoversPage | src/main/kotlin/com/dh/admin/domain/user/repository/AdminUserRepositoryImpl.kt:106 | A non-empty page's total is at least offset + items. |
| UserList.PageImplTotalMovesBothWays | src/main/kotlin/com/dh/admin/domain/user/repository/AdminUserRepositoryImpl.kt:105-106 | The adjusted total can be lower than the count, for example when ids without rows are dropped by `mapNotNull`, and it can be higher. |
| UserList.ListedRoles | src/main/kotlin/com/dh/admin/domain/user/repository/AdminUserRepositoryImpl.kt:84-101 | A listed user's roles are exactly the role ids of that user's rows, each once. |
| UserQuery.SafePage | src/main/kotlin/com/dh/admin/domain/user/service/UserQueryService.kt:22 | The page number is the nearest non-negative number to the request, and is unchanged when the request is valid. |
| UserQuery.SafeSize | src/main/kotlin/com/dh/admin/domain/user/service/UserQueryService.kt:23 | The size is the nearest value in 1..100 to the request, and is unchanged when the request is in range. |
| UserQuery.TotalPages | src/main/kotlin/com/dh/admin/domain/user/service/UserQueryService.kt:38 | The page count is the least n with n·size ≥ total. |
| UserQuery.TotalPagesIsLeast | src/main/kotlin/com/dh/admin/domain/user/service/UserQueryService.kt:38 | No smaller page count holds the total. |
| UserQuery.FindUsers | src/main/kotlin/com/dh/admin/domain/user/service/UserQueryService.kt:15-40 | The query runs with the built conditions and the clamped page. The response copies the page's content, number and size, plus the total as `PageImpl` adjusts it (the count itself for consistent rows), and derives the page count from them. |

## Left out

- Transactions are modelled explicitly only for `login` and `refresh`. `AuthService.Login` and `AuthService.Refresh` keep the writes they make before refusing, which is the evidently intended behaviour. `LoginAsWritten` and `RefreshAsWritten` roll those writes back, as the program does (see Findings). Most other services refuse before writing. Two write first: `MenuService.update` assigns the name and the optional fields (MenuService.kt:69-73) before the parent or permission lookup can fail (:75-85), and `PermissionService.delete` deletes and flushes (PermissionService.kt:72-73) before refusing (:75). The rollback undoes those writes together with the refusal. `MenuService.Update` and `PermissionService.Delete` therefore return the table unchanged on those refusals, which is the committed outcome.
- AuthService.FifthFailureLocksLogin: holds of the intended `Login` only. In the program the refusal's failure count is rolled back, so five wrong passwords never lock the account (`LockoutNeverPersists`).
- AuthService.ExpiredTokenThenInvalid: holds of the intended `Refresh` only. In the program the expired token's deletion is rolled back, so the token is refused as expired again (`ExpiredTokenNeverDeleted`).
- The menu tree that `getMyInfo` and `findAccessibleMenus` prune (`Db.menuTree`) is an independent input. It is not rebuilt from the `MenuRow` table that menu create, update and delete change. Nothing in this model links the two.
- JWT internals are not modelled: signing, parsing, the access-token expiry claim, and the provider's `validateToken` and `isExpired`. The token generators are opaque functions of the claims.
- Password hashing is not modelled. The encoder and the matcher are parameters.
- Controllers, request-DTO bean validation and the `ApiResponse` envelope are not modelled. Only the exception advice is.
- The advice's error-body shape is not modelled. The business-exception handlers pass the enum, the field-error handler writes the literal string "VALIDATION_ERROR", and the login API test reads `title`, `status` and `detail`. `ErrorResponse` is not part of this model, so the reply is reduced to (status, code, message).
- `CustomUserDetailsService` and the JWT authentication filter are not modelled. The principal is built directly from an account and its loaded roles.
- Logging in the RBAC initializer is not modelled.
- The `role_permissions` and `admin_user_roles` join tables are modelled as id lists on the owning row. Their order is insertion order, not Hibernate's hash-set order.
- RoleService `findAll` and `findById` are plain reads and are not modelled.
- RoleService.Delete: deleting a role that accounts still reference leaves dangling ids in their role lists. The database's foreign key would instead fail with an unhandled error.
- MenuService.Delete: a menu with children is removed. The database's foreign key would instead fail with an unhandled error.
- AuthService.TokenTableOk lemmas: cross-user token uniqueness rests on the hypothesis `SubjectReadable`. It says the provider's `getUserId` reads back the subject a token was minted for, which is a property of the JWT library.
- AuthService.Refresh: the model refreshes for any live token, even on a locked or inactive account. The source does too (`RefreshIgnoresLock`).
- The user-list queries are not executed. The count, the page's ids (descending, grouped) and the join rows are the input `QueryRows`. `containsIgnoreCase`, the SQL joins and the offset/limit are not modelled. Conditions are data only.
- Spring's `PageImpl` is not part of this model's sources. `UserList.PageImplTotal` follows its constructor: a non-empty page that reaches past the given total sets the total to offset + item count. The offset is `pageNumber * pageSize`, unbounded rather than a `Long`.
- Kotlin `Int` and `Long` overflow is not modelled: counts, ids and page numbers are unbounded.
- Time is whole seconds. The clock (`Env.now`) and `RefreshToken.expiresAt` drop `LocalDateTime`'s sub-second part, so `RefreshTokens.NotExpiredAtExpiryInstant`, `RefreshTokens.ExpiryIsPermanent` and the refresh outcomes decide expiry per second. For example, a token issued at 10.7 s with a 1000 ms lifetime expires at 11.7 s in the program and is refused at 11.9 s. Here it is issued at 10, expires at 11, and is still accepted at 11.
- String comparison is lexicographic on characters (code points). `isBlank` uses the JVM's full `Char.isWhitespace` set: all Unicode space separators, the no-break spaces included, the line and paragraph separators, plus TAB, LF, VT, FF, CR and U+001C..U+001F.

## Findings

| source | as written | input that shows it | evidently intended | confidence | as-written member | corrected member |
|---|---|---|---|---|---|---|
| src/main/kotlin/com/dh/admin/domain/auth/service/AuthService.kt:52-63 | `login` is `@Transactional`. On a wrong password it saves the increased failure count, then throws `UnauthorizedException`, a `RuntimeException`, so Spring rolls the save back. | An active, unlocked account; five logins with a wrong password, then one with the right password. The sixth login succeeds. | The failure count persists and the fifth failure locks the account, so the right password is then refused as locked. | medium: follows from Spring's default rollback rule for unchecked exceptions; not executed | AuthService.LockoutNeverPersists | AuthService.FifthFailureLocksLogin |
| src/main/kotlin/com/dh/admin/domain/auth/service/AuthService.kt:71-79 | `refresh` is `@Transactional`. It deletes an expired token, then throws `UnauthorizedException`, so the delete is rolled back. | A stored token past its expiry, presented twice. Both calls are refused as expired, and the token stays stored. | The expired token is removed, so a second presentation is refused as invalid. | medium: same rollback rule; the visible effect is a stale row and a repeated message; not executed | AuthService.ExpiredTokenNeverDeleted | AuthService.ExpiredTokenThenInvalid |
