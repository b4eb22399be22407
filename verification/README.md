# Role-based access control of the Chore core, in Dafny

This project models the access-control engine of a Symfony application:

- the access voter, which decides attributes of the form `ACCESS_<controller>_<level>`, in both of its copies (the current namespace and the legacy one);
- the `checkRights` helper, which derives such an attribute from a controller's class name;
- the entities the voter reads: statuses, which are roles or controllers; permissions; assignments with a validity window; and users with their derived role list and current assignments;
- the provisioning that writes those entities:
  - the first registration, which creates a super-admin role with full access to every registered controller;
  - the password `save` step;
  - the role administration actions `index`, `show`, `new`, `edit` and `delete`;
- the parser of the `sort` request parameter.

Objects live in one immutable `Store` of maps keyed by integer ids, so object identity is id equality. The inverse collections (a status's permissions, a user's assignments) are stored lists, as in memory. `Persistence.Reload` rebuilds them from the owning columns; it is what the next request loads. Time is an integer instant passed in. Password hashes and the hashed random secret key are inputs. CSRF validity and form validity are boolean inputs.

The modules follow the source:

| module | file |
|---|---|
| `Entities`, `Levels`, `Assignments` | the data model |
| `Access` | the grant relation the voters are proved against |
| `MainVoter`, `LegacyMainVoter` | the two voters |
| `Rights` | the two `checkRights` helpers |
| `Statuses` | the Status entity |
| `Users` | the User entity |
| `Persistence` | loads and inserts |
| `Registration` | the registration controller |
| `RoleController` | the role controller |
| `RequestAnalyzer` | the `sort` parser |

`Strings`, `Decimal`, `Collections` and `Wrappers` hold the PHP string, integer and collection primitives the model needs:

- `explode`, `implode`, `str_replace`, `strtolower`;
- `ctype_digit`, `intval` and integer-to-string conversion;
- `removeElement`.

## Model

| member | source | states |
|---|---|---|
| Levels.LevelOrder | src/Chore/Entity/Permission.php:11-16 | The six levels are strictly increasing in declaration order, so CREATE meets a DELETE threshold and DELETE does not meet a CREATE one. |
| Levels.RegistryDistinct | src/Chore/Entity/Permission.php:17-20 | The registry is exactly Users, Roles, and its lower-cased entries users, roles are distinct. |
| Levels.ToString | src/Chore/Entity/Permission.php:79-90 | A label exists exactly for levels 0..5; a null or out-of-range level throws (None). Reading the label back gives the level. |
| Levels.ToStringInjective | src/Chore/Entity/Permission.php:81-87 | Two valid levels with the same label are equal. |
| Levels.SatisfiesMonotone | src/Chore/Security/Voter/MainVoter.php:78 | An access that meets a level meets every lower non-negative level, including PHP's comparison of a null access. |
| Decimal.IntVal | src/Chore/Security/Voter/MainVoter.php:65 | `intval` of a digit string is the number the digits denote, saturated at PHP_INT_MAX; so it is never negative. |
| Decimal.IntValLeadingZero | src/Chore/Security/Voter/MainVoter.php:65 | A leading zero does not change the value: "007" reads as 7. |
| Decimal.DecimalOfRoundTrip | src/Chore/Controller/RightsController.php:30 | Printing a non-negative int gives a digit string that reads back to it. A negative int prints with a leading minus, which is not a digit string. |
| Decimal.DigitsExclude | src/Chore/Security/Voter/MainVoter.php:41-43 | A `ctype_digit` string holds no non-digit character, in particular no separator. |
| Assignments.ActiveIffInWindow | src/Entity/Chore/Assignment.php:74-87 | Started and not ended holds exactly on the half-open window [start, end), which is unbounded without an end date. |
| Assignments.EmptyWindowNeverActive | src/Entity/Chore/Assignment.php:74-87 | An assignment whose end is not after its start is never active. |
| Assignments.SetRole | src/Entity/Chore/Assignment.php:53-60 | The status becomes ROLE_TYPE and the assignment's role becomes it; nothing else changes, and the store stays consistent. |
| Access.VoterWindowVersusActive | src/Chore/Security/Voter/MainVoter.php:72-73 | The voter's window is the entity's active window minus its opening instant. |
| Access.StartBoundaryDiffers | src/Chore/Security/Voter/MainVoter.php:72 | At the start instant the entity says started while the voter's strict test does not count the assignment. |
| Access.GrantedMonotone | src/Chore/Security/Voter/MainVoter.php:77-78 | A grant at a level is a grant at every lower non-negative level of the same controller. |
| Access.GrantedIgnoresActive | src/Chore/Security/Voter/MainVoter.php:70-84 | Switching any status's active flag changes no decision. |
| MainVoter.SplitFormat | src/Chore/Security/Voter/MainVoter.php:32-35 | `ACCESS_<c>_<d>` with underscore-free `c` and `d` explodes into exactly ACCESS, c, d. |
| MainVoter.SupportsIffWellFormed | src/Chore/Security/Voter/MainVoter.php:24-52 | `supports` accepts an attribute exactly when it is `ACCESS_<c>_<d>`, where `c` has no underscore and is registered up to case and `d` is all digits. |
| MainVoter.ParseFormat | src/Chore/Security/Voter/MainVoter.php:64-65 | Such an attribute decodes to the lower-cased controller and the `intval` of the digits. |
| MainVoter.VoteOnAttribute | src/Chore/Security/Voter/MainVoter.php:62-87 | The early-return double loop returns true exactly when some assignment in the voter's window has a role with a permission on the controller (compared lower-cased) at a sufficient level. |
| MainVoter.VoteOn | src/Chore/Security/Voter/MainVoter.php:24-87 | The voter abstains exactly on malformed attributes and grants exactly when the attribute is supported and the grant relation holds. |
| MainVoter.VoteAsWritten | src/Chore/Security/Voter/MainVoter.php:62-70 | On a token that may carry no user: abstains exactly on unsupported attributes, grants exactly on an authenticated grant, and throws exactly when a supported attribute meets a missing user. |
| MainVoter.AnonymousCrashes | src/Chore/Security/Voter/MainVoter.php:67-70 | An unauthenticated request on `ACCESS_Users_1` ends in the Error. |
| MainVoter.VoteOnToken | src/Chore/Security/Voter/MainVoter.php:62-87 | The corrected voter: without a user it abstains exactly on unsupported attributes and never grants; with one it votes as written. |
| MainVoter.AnonymousIsUnassigned | src/Chore/Security/Voter/MainVoter.php:67-70 | The corrected voter decides a missing user as it decides a user without assignments. |
| MainVoter.DecisionMonotone | src/Chore/Security/Voter/MainVoter.php:77-78 | A granted `ACCESS_<c>_<n>` implies a granted `ACCESS_<c>_<m>` for every m <= n. |
| MainVoter.DeniedWithoutLiveRole | src/Chore/Security/Voter/MainVoter.php:70-86 | A supported attribute is denied when no assignment is both in the window and holding a role: no assignment, only expired ones, or only role-less ones. |
| MainVoter.GrantingScenario | src/Chore/Security/Voter/MainVoter.php:70-80 | A user assigned from yesterday to tomorrow to a role with level 1 on Users is granted `ACCESS_Users_1`. |
| LegacyMainVoter.Supports | src/Security/Voter/Chore/MainVoter.php:13-41 | The legacy `supports` accepts exactly the same well-formed attributes. |
| LegacyMainVoter.ScanPermissions | src/Security/Voter/Chore/MainVoter.php:56-62 | The inner scan returns true exactly when some remaining permission matches. |
| LegacyMainVoter.ScanAssignments | src/Security/Voter/Chore/MainVoter.php:51-65 | The outer scan returns true exactly when some remaining assignment grants. |
| LegacyMainVoter.VoteOnAttribute | src/Security/Voter/Chore/MainVoter.php:43-68 | The legacy decision is the same grant relation. |
| LegacyMainVoter.AgreesWithCurrent | src/Security/Voter/Chore/MainVoter.php:13-68 | Both voters give the same vote on every store, user, attribute and instant. |
| Rights.ControllerClassName | src/Chore/Controller/RightsController.php:23-27 | Only the last namespace segment is used, and `<base>Controller` becomes `<base>s`. |
| Rights.RegisteredControllerNames | src/Chore/Controller/RightsController.php:23-27 | UserController and RoleController derive Users and Roles, in any namespace. |
| Rights.RightsAttributeSupported | src/Chore/Controller/RightsController.php:30 | The built attribute is accepted exactly when the access is non-negative and the derived name is underscore-free and registered. |
| Rights.RightsRoundTrip | src/Chore/Controller/RightsController.php:30 | Decoding the built attribute gives back the lower-cased name and the access. |
| Rights.CheckRights | src/Chore/Controller/RightsController.php:20-31 | The request passes exactly when the access is non-negative, the derived name is registered, and the user holds that grant. |
| Rights.LegacySupportedNeedsAccessPrefix | src/Controller/Chore/RightsController.php:12-16 | The prefix-less attribute is decided on only when the derived name, and so the short class name, starts with `ACCESS_`: a name that is exactly ACCESS gives two pieces only. |
| Rights.LegacyCheckRights | src/Controller/Chore/RightsController.php:10-17 | The legacy check passes only for classes whose short name starts with `ACCESS_`. |
| Rights.LegacyDeniesRegistered | src/Controller/Chore/RightsController.php:12-16 | The legacy base denies UserController and RoleController everything. |
| Rights.LegacyDeniesClass | src/Controller/Chore/RightsController.php:12-16 | A class whose short name does not start with `ACCESS_`, such as `ACCESSFoo`, is always denied. |
| Statuses.ConstructorDefaults | src/Chore/Entity/Status.php:59-68 | A new status is active, coloured 000000, icon-less, without permissions and without type. |
| Statuses.FullColorInjective | src/Chore/Entity/Status.php:104-107 | A fresh status shows #000000, and two statuses show the same full colour exactly when they store the same colour. |
| Statuses.SortByLabel | src/Chore/Entity/Status.php:201-207 | Given the attributes `getAttributes` lists, `label_up` sorts statuses by label, descending. |
| Statuses.SortByActive | src/Chore/Entity/Status.php:201-207 | `active_down` sorts them by the active flag, ascending. |
| Statuses.SortByColorRefused | src/Chore/Entity/Status.php:201-207 | `color_down` is refused with a bad-attribute warning, because the colour is not listed. |
| Statuses.AddPermission | src/Chore/Entity/Status.php:172-187 | Afterwards the permission is listed. An already-listed one changes nothing. A new one is appended and points back through role for a role and through controller for a controller; for another type, neither is set. Nothing else changes. |
| Statuses.AddPermissionIdempotent | src/Chore/Entity/Status.php:174 | Adding twice is adding once. |
| Statuses.AddPermissionValid | src/Chore/Entity/Status.php:172-187 | Adding a permission keeps referential integrity. |
| Statuses.AddPermissionKeepsSync | src/Chore/Entity/Status.php:172-187 | Adding a free permission to a role keeps every list equal to the owning side. |
| Statuses.SyncedAgreesWithReload | src/Chore/Entity/Status.php:56-57 | When lists agree with the owning side, a reload lists the same permissions. |
| Statuses.RemovePermission | src/Chore/Entity/Status.php:189-196 | The first occurrence is dropped. The role is cleared exactly when something was dropped and the permission's controller is this status. Nothing else changes. |
| Statuses.RemovePermissionComesBack | src/Chore/Entity/Status.php:193-195 | As written, removing a permission from its role leaves the role column set, so a reload lists it again. |
| Statuses.RemovePermissionOwningSide | src/Chore/Entity/Status.php:189-196 | The corrected removal clears the role exactly when it is this status. |
| Statuses.RemoveOwningSideKeepsSync | src/Chore/Entity/Status.php:189-196 | The corrected removal keeps lists and owning side in agreement and the permission stays removed. |
| Collections.RemoveFirst | src/Chore/Entity/Status.php:191 | `removeElement` drops one occurrence: the multiset loses exactly that element. |
| Collections.RemoveFirstDistinct | src/Chore/Entity/User.php:226 | On a duplicate-free list the element is gone and every other member stays. |
| Users.EmailVersusIdentifier | src/Chore/Entity/User.php:69-89 | The displayed email equals the identifier exactly when the stored address holds no `&#64;`, and it is never longer. |
| Users.EmailDecodesEachOccurrence | src/Chore/Entity/User.php:71 | Each `&#64;` becomes `@`, and the text on either side is decoded independently. |
| Users.ActiveRoleNames | src/Chore/Entity/User.php:100-108 | The names added are exactly ROLE_ plus the upper-cased label of each started, not-ended assignment. |
| Users.GetRoles | src/Chore/Entity/User.php:94-111 | The result holds ROLE_USER, has no duplicates, and holds exactly the stored roles, ROLE_USER and the active assignments' role names. |
| Users.GetRolesIgnoresActiveFlag | src/Chore/Entity/User.php:100-108 | A role's active flag does not change the role list. |
| Users.NamesIgnoreActiveFlag | src/Chore/Entity/User.php:100-108 | Changing anything of the statuses except their labels leaves the added role names unchanged. |
| Collections.Dedupe | src/Chore/Entity/User.php:110 | `array_unique` keeps exactly the same members, without duplicates, in the order of their first occurrences. |
| Users.Picks | src/Chore/Entity/User.php:198-209 | The loop keeps increasing positions, exactly those that are the first eligible one of their label. |
| Users.PicksSound | src/Chore/Entity/User.php:198-209 | Every kept assignment is eligible, and labels are pairwise distinct. |
| Users.PicksComplete | src/Chore/Entity/User.php:198-209 | Every eligible assignment shares its label with a kept one. |
| Users.FirstPickedSharesLabel | src/Chore/Entity/User.php:204 | An eligible assignment before the scan bound shares its label with a kept one. |
| Users.GetCurrentAssignments | src/Chore/Entity/User.php:193-212 | The result is eligible, label-distinct and complete in the above sense. |
| Users.CurrentAssignmentsAreFirstOfLabel | src/Chore/Entity/User.php:193-212 | The result is the order-preserving selection of the first eligible assignment per label. |
| Users.AddAssignment | src/Chore/Entity/User.php:214-222 | Afterwards the assignment is listed. A listed one changes nothing. A new one is appended and points back to the user. Nothing else changes. |
| Users.AddAssignmentIdempotent | src/Chore/Entity/User.php:216 | Adding twice is adding once. |
| Users.AddAssignmentKeepsSync | src/Chore/Entity/User.php:214-222 | Adding a free assignment keeps lists and owning side in agreement. |
| Users.RemoveAssignment | src/Chore/Entity/User.php:224-234 | The first occurrence is dropped. The back-reference is cleared exactly when something was dropped and it pointed to this user. Nothing else changes. |
| Users.RemoveAssignmentKeepsSync | src/Chore/Entity/User.php:224-234 | Removal keeps lists and owning side in agreement and the assignment stays removed. |
| Persistence.Reload | src/Chore/Entity/User.php:48-49 | Loading rebuilds each inverse list as exactly the rows whose owning column points at the object, and keeps consistency. |
| Persistence.ReloadIdempotent | src/Chore/Entity/Status.php:56-57 | Loading twice is loading once. |
| Persistence.FirstId | src/Chore/Controller/RegistrationController.php:232-234 | `findOneBy` returns a matching row with no smaller matching id, or none exactly when no row matches. |
| Persistence.InsertStatus | src/Chore/Controller/RoleController.php:92-93 | Persisting a status stores it under the next id, touches nothing else, and keeps consistency when its permissions are stored. |
| Persistence.InsertPermission | src/Chore/Controller/RegistrationController.php:216-217 | Persisting a permission stores it under the next id and keeps consistency when its role and controller are stored. |
| Persistence.InsertAssignment | src/Chore/Controller/RegistrationController.php:101-102 | Persisting an assignment stores it under the next id and keeps consistency when its user and role are stored. |
| Persistence.InsertUser | src/Chore/Controller/RegistrationController.php:101-102 | Persisting a user stores it under the next id and keeps consistency when its assignments are stored. |
| Registration.FindByLabel | src/Chore/Controller/RegistrationController.php:249-251 | A status with the label is found exactly when one is stored. |
| Registration.CreateSuperAdminRole | src/Chore/Controller/RegistrationController.php:230-238 | The stored status labelled admin is returned as it is. Without one, a new admin role with the person icon is added. |
| Registration.CreateController | src/Chore/Controller/RegistrationController.php:247-254 | The stored status with the label is reused. Without one, a new controller status of that label is added. |
| Registration.CreatePermission | src/Chore/Controller/RegistrationController.php:264-273 | The result links the controller to the role, and stored permissions are kept. |
| Registration.FindPermission | src/Chore/Controller/RegistrationController.php:266-268 | `findOneBy` on the pair finds a permission of that controller and role exactly when one is stored. |
| Registration.CreatePermissionReuses | src/Chore/Controller/RegistrationController.php:266-268 | A stored permission of the pair is returned unchanged: no duplicate, no raised access. |
| Registration.CreatePermissionFresh | src/Chore/Controller/RegistrationController.php:269-272 | Without one, the new permission has full access. |
| Registration.GrantOne | src/Chore/Controller/RegistrationController.php:213-217 | One iteration leaves the role with a permission on a controller of that label, full when the role is new. |
| Registration.GrantAll | src/Chore/Controller/RegistrationController.php:212-218 | The loop over the registered names only adds rows and keeps every stored permission unchanged. |
| Registration.GrantAllGrants | src/Chore/Controller/RegistrationController.php:212-218 | After the loop, the role holds such a permission for every name. |
| Registration.CreateAssignment | src/Chore/Controller/RegistrationController.php:282-291 | The returned assignment has the role and starts now, whether reused or new. |
| Registration.FindByRole | src/Chore/Controller/RegistrationController.php:284-286 | A stored assignment of the role is found exactly when one exists. |
| Registration.NewAssignment | src/Chore/Controller/RegistrationController.php:286-287 | A new assignment of the role is added, open-ended, starting at the given instant; the role becomes a role-type status. |
| Registration.RestartAssignment | src/Chore/Controller/RegistrationController.php:289-290 | Only the start date of the reused assignment changes, to now. |
| Registration.CreateAssignmentReuses | src/Chore/Controller/RegistrationController.php:284-290 | A stored assignment of the role is the one returned, restarted now. |
| Registration.CreateAssignmentFresh | src/Chore/Controller/RegistrationController.php:286-290 | Without one, a new open-ended assignment of the role, starting now, is added. |
| Registration.CreateSuperAdminAssignment | src/Chore/Controller/RegistrationController.php:208-222 | Role, controllers and permissions, then an assignment of the admin-labelled role starting now. |
| Registration.SuperAdminGrants | src/Chore/Controller/RegistrationController.php:212-218 | On a store without an admin status, the new role holds full access on every registered controller. |
| Registration.FreshSuperAdminAssignment | src/Chore/Controller/RegistrationController.php:208-222 | Without a stored admin status, the assignment is new, open-ended from now, and points at the new role. |
| Registration.Register | src/Chore/Controller/RegistrationController.php:66-110 | Nothing is stored unless the form is valid, the CSRF token is valid and the passwords match. Otherwise the account is stored under a fresh id; only the first user also gets the one admin assignment starting now. |
| Registration.FirstRegistration | src/Chore/Controller/RegistrationController.php:96-102 | The first registration stores the user, the admin role, one full permission per registered controller and the assignment linking them. |
| Registration.FirstUserIsSuperAdmin | src/Chore/Controller/RegistrationController.php:96-99 | The first user is granted every level on every registered controller at every later instant, and nothing at or before the registration instant. |
| Registration.GrantedThroughRole | src/Chore/Security/Voter/MainVoter.php:70-79 | An assignment in the voter window whose role holds full access on a registered controller grants every level up to CAN_ALL on it. |
| Registration.NothingGrantedOutside | src/Chore/Security/Voter/MainVoter.php:72-73 | A user whose only assignment is outside the voter window is granted nothing. |
| Registration.FirstUserHasAdminRole | src/Chore/Controller/RegistrationController.php:96-99 | From the registration instant on, the first user's role list holds ROLE_ADMIN. |
| Registration.AdminRoleListed | src/Chore/Entity/User.php:100-108 | A user whose only assignment is active and holds the admin role lists ROLE_ADMIN. |
| Registration.AdminRoleName | src/Chore/Entity/User.php:106 | The admin label gives ROLE_ADMIN. |
| Registration.LaterUserHasNoAccess | src/Chore/Controller/RegistrationController.php:96-104 | A later registration stores only the account: no assignment, no grant, and no role beyond ROLE_USER. |
| Registration.UnassignedHasNoAccess | src/Chore/Entity/User.php:96-98 | A user no assignment refers to holds only ROLE_USER and is granted nothing. |
| Registration.Save | src/Chore/Controller/RegistrationController.php:122-172 | The login redirect happens exactly when a stored user was found, the form is submitted and valid, the CSRF token is valid, the secret key matches and the passwords match. A request naming no stored user ends in the Error exactly when the form passes the CSRF check. An empty body renders the form. Any outcome but the redirect stores nothing. |
| Registration.SaveErrorOrder | src/Chore/Controller/RegistrationController.php:133-155 | The checks run CSRF, then secret key, then confirmation, and the first failing one names the error. An empty body or an unsubmitted form gives the bare form. |
| Registration.SaveChangesOnlyPassword | src/Chore/Controller/RegistrationController.php:157-165 | On a stored user, only the password changes, and only when every check passed. |
| Registration.SaveIdempotent | src/Chore/Controller/RegistrationController.php:143-165 | Saving the same form twice stores what saving once does. |
| Registration.RegisteredUserCanSetPassword | src/Chore/Controller/RegistrationController.php:143-148 | A registered user typing the stored secret key and equal passwords gets the new password. |
| Registration.UnknownEmailCrashes | src/Chore/Controller/RegistrationController.php:124-143 | A request that names no stored user never stores anything. Once its form passes the CSRF check, it ends in the Error at the secret-key read. |
| RoleController.CheckRightsOfRoles | src/Chore/Controller/RightsController.php:23-30 | The role controller's rights check passes exactly when the user holds the action's level on roles. |
| RoleController.AllowedOrder | src/Chore/Entity/Permission.php:12-15 | A user allowed to create may delete, one allowed to delete may edit, and one allowed to edit may view. |
| RoleController.AllowedMonotone | src/Chore/Security/Voter/MainVoter.php:78 | Being allowed an action implies being allowed every action with a lower required level. |
| RoleController.IndexRoles | src/Chore/Controller/RoleController.php:48-55 | The list page is rendered exactly when VIEW on roles is granted, and denied otherwise. |
| RoleController.ShowRole | src/Chore/Controller/RoleController.php:113-120 | A missing status is not found; otherwise the page is rendered exactly when VIEW is granted. |
| RoleController.RemoveRole | src/Chore/Controller/RoleController.php:185-189 | The role and exactly the permissions pointing at it go. Every other permission stays unchanged. |
| RoleController.RemoveRoleKeepsStatuses | src/Chore/Controller/RoleController.php:185-189 | Every other status survives as the next load would see it. |
| RoleController.RemoveRoleValid | src/Chore/Controller/RoleController.php:185-190 | Without other references to the role, the removal keeps referential integrity. |
| RoleController.DeleteRole | src/Chore/Controller/RoleController.php:179-194 | Not found, then denied without DELETE, then rejected when another row still refers to the role. The store changes only on a redirect with a valid token. |
| RoleController.DeleteCascades | src/Chore/Controller/RoleController.php:185-190 | A successful delete leaves neither the role nor any of its permissions, and keeps every other row. |
| RoleController.DeleteNeedsToken | src/Chore/Controller/RoleController.php:183 | Without a valid CSRF token nothing changes. |
| RoleController.LinkNew | src/Chore/Controller/RoleController.php:82-87 | A new permission of the role on the controller, with no access, is appended to the role's list. |
| RoleController.LinkNewValid | src/Chore/Controller/RoleController.php:82-87 | Linking a new permission to a role keeps referential integrity. |
| RoleController.NewOne | src/Chore/Controller/RoleController.php:74-87 | One iteration keeps the new role staged and only grows its list. |
| RoleController.NewOneLinks | src/Chore/Controller/RoleController.php:82-87 | The iteration appends exactly one permission, back-filled for its name. |
| RoleController.NewBackFill | src/Chore/Controller/RoleController.php:73-88 | The loop appends one new permission per name, in order. Each belongs to the role, has no access, and sits on the stored controller of that label when there is one. |
| RoleController.NewRoleFilled | src/Chore/Controller/RoleController.php:69-88 | From the loaded store, the fresh role ends with exactly those permissions and no stored permission changes. |
| RoleController.NewRole | src/Chore/Controller/RoleController.php:65-104 | Denied exactly without CREATE. Otherwise the rows are flushed and the browser redirected exactly when the form is submitted and valid and every submitted access is one of the offered levels; otherwise nothing is stored. |
| RoleController.NewRoleCreates | src/Chore/Controller/RoleController.php:69-95 | The stored role is fresh, of the role type, with the form's fields and one permission per name. |
| RoleController.NewRoleKeeps | src/Chore/Controller/RoleController.php:73-95 | Every stored row survives; no stored permission or assignment changes. |
| RoleController.NewRoleBackFills | src/Chore/Controller/RoleController.php:73-91 | The k-th permission of the new role belongs to it and sits on the controller of the k-th name. Its access is the one submitted at position k, and none when the request submits none there. |
| RoleController.NewRoleChoices | src/Chore/Form/PermissionType.php:53-74 | A role made through an accepted form holds, on each of its permissions, no access or one of the five offered levels, so never the delete level. |
| RoleController.BindAccessesOnly | src/Chore/Form/RoleType.php:70-83 | Binding the permission collection changes only accesses, and only of permissions at positions the request submits an access for; every other permission is unchanged. |
| RoleController.BindAccessesSets | src/Chore/Form/PermissionType.php:53-74 | A permission at a submitted position that no later submitted position holds ends with the access submitted there. |
| RoleController.BindRoleKeeps | src/Chore/Form/RoleType.php:17-83 | Binding gives the status the form's label, colour and icon, changes no other status, assignment or user, and changes permissions only in their access, only at submitted positions of the status's list. |
| RoleController.BindRoleAt | src/Chore/Form/RoleType.php:70-83 | On a duplicate-free list, the permission at position k takes the access submitted at k when there is one and keeps its own otherwise; its other fields stay. |
| RoleController.FindOrNewPermission | src/Chore/Controller/RoleController.php:144-145 | The permission found for the pair belongs to the role; otherwise a new role-less one on the controller is added. |
| RoleController.EditReusesPermission | src/Chore/Controller/RoleController.php:144-145 | A stored permission of the pair is reused and the store is unchanged exactly when one exists, so no duplicate is made. |
| RoleController.EditPermission | src/Chore/Controller/RoleController.php:144-149 | The same, raised to full access exactly for the admin role; no other row is touched. |
| RoleController.EditOne | src/Chore/Controller/RoleController.php:135-153 | One iteration links the role to a controller of the name, with full access for admin. |
| RoleController.EditAll | src/Chore/Controller/RoleController.php:135-153 | After the loop, each name's permission links the role to that controller. |
| RoleController.EditFilled | src/Chore/Controller/RoleController.php:135-153 | From the loaded store, the edit only adds rows, keeps assignments, and links the role to every name with one permission each. |
| RoleController.EditRole | src/Chore/Controller/RoleController.php:131-168 | Not found, then denied without EDIT. Rows are flushed exactly when the form is submitted and valid and every submitted access is an offered level; otherwise nothing changes. |
| RoleController.EditKeepsStored | src/Chore/Controller/RoleController.php:135-162 | A stored permission keeps every field but its access. Its access changes only when it is on the edited status's list and either the request submits an access at its position or the role is the admin role, raised to full access. Other statuses keep their labels; assignments are unchanged. |
| RoleController.EditNonAdminKeeps | src/Chore/Controller/RoleController.php:144-156 | Editing a non-admin role leaves every stored permission the request submits no access for exactly as it was. |
| RoleController.EditBindsAccess | src/Chore/Controller/RoleController.php:147-156 | Whatever the role, the admin role included, the permission at position k of the edited list ends with the access submitted at k: the binding comes after the admin raise. |
| RoleController.EditGrants | src/Chore/Controller/RoleController.php:135-156 | After editing a role, each name's permission belongs to it, sits on a controller of that name and is on its list. Its access is the one submitted at its position; where none is submitted, the admin role holds full access. |
| RequestAnalyzer.SortTokens | src/Chore/Service/RequestAnalyzer.php:30-31 | Exploding yields a second piece exactly when the value holds an underscore, and no piece holds one. |
| RequestAnalyzer.SeparatedIsSorted | src/Chore/Service/RequestAnalyzer.php:26-28 | No "no order" value holds a separator. |
| RequestAnalyzer.GetSortParams | src/Chore/Service/RequestAnalyzer.php:22-53 | At most one entry. The no-order values give nothing and no warning; a value without separator gives a format warning. Warning-free exactly when unsorted or one entry. Each key is a listed attribute mapped to ASC or DESC. |
| RequestAnalyzer.DirectionValues | src/Chore/Service/RequestAnalyzer.php:48 | down becomes ASC and up becomes DESC. |
| RequestAnalyzer.SortAccepted | src/Chore/Service/RequestAnalyzer.php:43-48 | `attr_down` or `attr_up`, whatever follows, gives the single entry attr mapped to ASC or DESC when the object lists attr. |
| RequestAnalyzer.SortRequestTokens | src/Chore/Service/RequestAnalyzer.php:31-33 | A request `attribute_direction...` explodes with the attribute and the direction first. |
| RequestAnalyzer.SortOnlyAccepted | src/Chore/Service/RequestAnalyzer.php:30-48 | Conversely, an entry comes only from such a request. |
| RequestAnalyzer.SortIgnoresTail | src/Chore/Service/RequestAnalyzer.php:31-48 | Pieces after the second are ignored. |
| RequestAnalyzer.SortTailSplits | src/Chore/Service/RequestAnalyzer.php:31 | Every value with a separator is its first two pieces joined by the separator, then the rest. |
| RequestAnalyzer.SortBadDirection | src/Chore/Service/RequestAnalyzer.php:33-36 | A direction other than down or up gives nothing, with a direction warning. |
| RequestAnalyzer.SortBadAttribute | src/Chore/Service/RequestAnalyzer.php:38-46 | No `getAttributes`, or an unlisted attribute, gives nothing, with the matching warning. |
| Strings.JoinSplit | src/Chore/Security/Voter/MainVoter.php:32 | Joining the exploded pieces with the separator gives back the string. |
| Strings.Split | src/Chore/Security/Voter/MainVoter.php:32 | `explode` gives at least one piece, and none holds the separator. |
| Strings.Lower | src/Chore/Security/Voter/MainVoter.php:64 | `strtolower` leaves no upper-case ASCII letter, keeps every other character, and keeps each letter's upper-case form. |
| Strings.Upper | src/Chore/Entity/User.php:106 | `strtoupper` leaves no lower-case ASCII letter, keeps every other character, and keeps each letter's lower-case form. |
| Strings.LowerIdempotent | src/Chore/Security/Voter/MainVoter.php:46-48 | Lower-casing twice is lower-casing once, and a string without upper-case letters is its own lower-case form. |
| Strings.LowerUpper | src/Chore/Security/Voter/MainVoter.php:64 | Upper-casing before lower-casing changes nothing, so `ACCESS_USERS_1` and `ACCESS_users_1` name the same controller; and upper-casing a lower-cased string gives the original's upper-case form. |
| Strings.ReplaceSplits | src/Chore/Controller/RightsController.php:27 | `str_replace` of a needle that cannot overlap itself replaces each occurrence and treats the text on either side independently. |

## Left out

- HTTP handling, routing, template rendering and redirects. Responses are a datatype; CSRF and form validity are booleans.
- Password hashing and `rand()`: the hashes are inputs. The clock: the instant is a parameter, and the voter's two `new DateTime()` calls are one instant.
- Form binding. `RoleForm` carries the label, colour and icon, and one access per entry of the permission collection, bound to the permission at the same position of the role's list. Entries a request adds or leaves out (the collection's `allow_add` and `allow_delete`) are not modelled: a position without a submitted access keeps its permission as it was. The disabled controller field is never bound.
- RoleController.EditNonAdminKeeps: no longer states that a non-admin edit keeps every stored permission, which the form's binding contradicts (tests/Chore/Controller/RoleControllerTest.php:118-135 stores access 5 on the non-admin `editable` role). It states that the permissions without a submitted access are kept.
- Database column constraints are not checked on flush, except for a foreign key still pointing at a deleted role: `delete` then answers `Rejected` (the flush fails).
- `index` lists roles through `StatusRepository::findAllRoles`, which is not part of this model; only its rights check is.
- `save` looks the user up by the email of the request's registration payload. The model takes the outcome of that lookup as `SaveTarget`: a stored user, none, or the new user of an empty body. The lookup itself is left out.
- FrontLogger's output: `getSortParams` returns its message as a `Warning` value. The class name the messages carry is not modelled.
- RequestAnalyzer.GetSortParams: the `in_array` tests are exact membership. On these lists that agrees with PHP 8's loose comparison: none of their strings is numeric, and `null` only equals `''`, which the no-order list holds too. The parameter is `Option<string>`, so non-string request values are out of scope.
- RoleController.EditGrants: requires that the edited role's own label not be one of the names. Without that, binding the form could relabel a controller that is the role itself.
- `new` relies on Doctrine's cascade persist for the permissions; the model stores them directly.
- `Status::getFullIcon` calls a `stringStartsWith` helper that is not part of this model.
- `Permission.controller` is never null here, because every construction site sets it. A null label is modelled as the empty string.
- Decimal.IntVal: models `intval` only on digit strings, the only ones `supports` lets through.
- Users.GetCurrentAssignments: the label test compares exactly. PHP's loose `in_array` treats numeric labels such as "1" and "01" as one label and keeps only the first. The model keeps both. The same holds for Users.Picks.
- Users.GetRoles: requires that every started, not-ended assignment has a role (`ActiveHaveRoles`). On one without, `getRole()->getLabel()` at src/Chore/Entity/User.php:106 throws an Error, which the model does not represent. The NOT NULL role column (src/Entity/Chore/Assignment.php:21-22) rules such an assignment out once loaded; only an unsaved one in memory can lack a role.
- Users.ActiveRoleNames: the same requirement and the same Error as Users.GetRoles.
- Users.GetCurrentAssignments: requires that every assignment has a role (`AllHaveRoles`). On one without, `getRole()->isActive()` at src/Chore/Entity/User.php:201 throws an Error, which the model does not represent; the same NOT NULL column rules it out once loaded.
- Users.Picks: the same requirement and the same Error as Users.GetCurrentAssignments.
- Users.CurrentAssignmentsAreFirstOfLabel: characterises the selection under exact label equality, for the reason above.
- Persistence.FirstId: `findOneBy` without an ordering returns whichever matching row the database yields first. The model picks the least id. The properties built on it hold whichever row is found, except where a lemma names the row. Likewise `Persistence.Reload` rebuilds each inverse collection in ascending id order, while Doctrine loads a OneToMany without `OrderBy` in whatever order the database yields; that order decides which assignment of a label Users.GetCurrentAssignments keeps after a load.
- Registration.FirstUserIsSuperAdmin: assignment dates are `DATE_IMMUTABLE` columns, so a reloaded start date is midnight of its day. The model keeps the exact instant. The half "nothing granted at or before the registration instant" holds for the in-memory entities; after a reload, access starts at the day's midnight.
- MainVoter.VoteOn: takes an authenticated user. The token without a user is modelled by MainVoter.VoteAsWritten (the Error) and MainVoter.VoteOnToken (the intended deny).
- Rights.CheckRights: takes an authenticated user. An anonymous request reaches the voter's missing-user case above.
- LegacyMainVoter.VoteOnAttribute: takes an authenticated user. The legacy copy calls `getAssignments()` on the token's user in the same way, and the missing-user case is modelled once, for the current voter.
- `Status::__toString` returns the label (`Statuses.ToString`). On a null label its `string` return type makes PHP throw a TypeError; the model returns the empty string. Nothing further is stated about it.
- Getters and setters that only read or write a field are folded into the record updates.

## Findings

| source | as written | input that shows it | evidently intended | confidence | as-written member | corrected member |
|---|---|---|---|---|---|---|
| src/Chore/Entity/Status.php:193-195 | `removePermission` clears the permission's role only when the permission's controller is this status | A role 1 holding permission 2 on controller 0: removing 2 from role 1 leaves its role column at 1, so the next load lists it on role 1 again | Clear the role when it is this status, as the comment "set the owning side to null" says | not executed | Statuses.RemovePermissionComesBack | Statuses.RemoveOwningSideKeepsSync |
| src/Chore/Security/Voter/MainVoter.php:67-70 | `voteOnAttribute` calls `getAssignments()` on `$token->getUser()` without checking for null | An unauthenticated request (a token whose user is null) on `ACCESS_Users_1`: `supports` accepts, and the call on null throws an Error | Deny the request, as for a user without assignments | not executed | MainVoter.AnonymousCrashes | MainVoter.AnonymousIsUnassigned |
