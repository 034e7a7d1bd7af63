# Verified model of the residential-complex backend

Dafny models of six parts of the backend whose correctness rests on an algorithm or on
what a whole run of calls keeps, with proofs of what their comments and callers rely on.

| part | files |
|---|---|
| Role forest with upward permission inheritance | `RoleForest`, `RoleTraversal`, `RolePermissions`, `RoleOperations`, `RoleContracts`, `RolesService`, `RoleLevels`, `RoleAgreement`, `RoleCleanup`, `RoleRuns` |
| Relocation of stored objects, with crashes and retries | `PercentCoding`, `ObjectKeys`, `RelocationPlan`, `RelocationProtocol`, `RelocationScript`, `RelocationLimits` |
| Staff assignments; account suspension, deletion and passwords | `UserDomain`, `Staff`, `Accounts` |
| Special numbers: cached merged list and dense ordering | `SpecialNumbers`, `SpecialNumbersService` |
| Redaction of secrets and of rejected values in logs | `Strings`, `SecretScrubber`, `SecretValues`, `RedactValues` |
| Two data migrations | `ModuleListMigration`, `SystemCodes` |

`Wrappers` holds shared idioms. `dafny verify dfyconfig.toml` checks everything.

## How the parts are built

The services are classes whose fields are the tables they write (`rows`, `users`,
`codes`, `store`). Each method follows the code's branches and loops and is proved
against a function of the old table (`SubtreeMoved`, `Dismissed`, `Renumber`, ...) and an
exact condition for success (`CanHang`, `CanRehire`, ...). Next to these each method states, without
them, what a caller can see: which columns of which rows differ afterwards and what they hold
(`RoleContracts`, `Staff.DismissedAs`, `SpecialNumbers.Renumbered`, ...). The theorems are then about
the functions over every run: `RoleRuns.Run`, `Staff.Run`, `Accounts.Run`, `SpecialNumbersService.Trace`,
`RelocationProtocol.Trace`. A method returns a flag (or an option) instead of the source's
exceptions; a refused call leaves the state unchanged.

**Roles.** Reads inside a transaction go through the committed rows: a batch validates every
item against the rows before it, and reparenting, batch, removal and restoration store at
each ancestor the union computed from the rows before (`RoleOperations.WithUnions`), whether
the write goes over the transaction or over the repository's own connection. `update` does the
same for the ancestors it recomputes. `create` and `refreshInverseInheritance` have no
transaction and read their own writes. So `RoleRuns.Apply` is the whole effect of a call on
the table, permissions included.

**Relocation.** A head, a copy, a row update and a delete are one step each. Any of them
may fail, a failed write may still have happened, and the process may stop after any step
and start again with or without deletion. The script's methods record every configuration
they pass through, and the recorded trace is proved to be a trace of that machine. The first
store must have a configured public address and relocated keys without `%` that do not end in
white space (`RelocationProtocol.Readable`). A row can be completed if each of its moves has its
original or something at its target. Every reference is kept if, for these rows,

- no slot of another row leads to an original that is to be moved,
- originals that are to be moved to one key have the same content,
- what the other rows copy before they are given up has the content of the original whose
  target it lies at,
- what already lies at a target key has the content of the original, and
- no object is moved to a key that another of these rows is to move away

(`RelocationProtocol.SeparateOn`), and only then: `RelocationLimits.ContentIsKeptIff`, for all
stores in which no move supplies what an incomplete row lacks. In the others the conditions are
necessary for these rows (`RelocationLimits.KeepingAllIsSeparate`) and enough for all rows
(`RelocationLimits.SeparateKeepsAll`). Unique file names, on which the script relies (they are
UUIDs), leave only the fourth: `RelocationLimits.UniqueNamesAreKeptIff` is exact for every such
store, missing originals or not.

**Cache keys** are `sn:` followed by the complex, as in
`src/core/infrastructure/cache/business-cache.constants.ts:170-174`, and deletion by prefix
removes every key that starts with it.

## Where the code and its promises part

- `moveRoleSubtree` saves at the end the row it loaded at the start, whose level is the old
  one (`src/modules/roles/roles.service.ts:1279-1280`), although its documentation says that all
  levels are recomputed (1192-1194). The model follows the code (`RoleOperations.SubtreeMoved`).
  `RoleLevels.MoveKeepsLevelsIff` says exactly when levels stay strict, and
  `RoleLevels.MoveBreaksLevelsExample` gives a permitted move after which they are not.
- `update` does not compare a bare level change with parent and children (`src/modules/roles/roles.service.ts:899`).
  `RoleLevels.LevelEditKeepsLevelsIff` gives the exact condition, `RoleLevels.LevelEditBreaksExample`
  two permitted edits that fail it, and `RoleRuns.RunIsLayeredIff` joins both: levels stay strict
  in a run exactly when each of its calls meets its condition.
- Reparenting, batch assignment and `update` recompute the ancestors so that parents hold what their
  subtrees hold (`src/modules/roles/roles.service.ts:984-993`, 1146-1160, 1371-1380 and 2020-2028). They compute
  from the rows before, so where the stored sets are complete they store nothing new: the new
  ancestors do not gain the moved permissions and the former ones lose none
  (`RoleAgreement.ReparentingStoresNothing`, `RoleAgreement.UpdateStoresNothingAbove`).
  `RoleCleanup.ParentChangeExample` is a table where both go wrong, and `RoleRuns.RunAgreesIff` says
  exactly which runs keep every stored set equal to its recomputation. A later refresh supplies
  what the new ancestors miss (`RoleCleanup.RefreshAfterHang`) and never withdraws anything from
  the former ones (`RoleCleanup.FormerAncestorKeepsAll`), which is what the recomputation of the old
  branch was to do (1154-1160, 1346-1347 and 1638-1643).
- The header of the relocation script recommends a second pass with `--delete-source` to
  clean the originals (`scripts/migrate-r2-layout.ts:32-34`). Migrated rows are no longer
  planned, so that pass deletes none of their originals: `RelocationProtocol.MigratedOriginalsSurvive`.
- Foreign addresses are meant to be reported and kept
  (`scripts/migrate-r2-layout.ts:157-161` and 317-320). Any whose path decodes to a key
  is planned as a move (`ObjectKeys.ForeignUrlIsPlanned`), so a note holding one is never updated
  and its other files never move (`RelocationLimits.ForeignUrlBlocksRow`).
- Redaction can spell a secret that overlaps the replacement text. No secret of a list
  survives if none can touch `[redactado]`; for a single secret, whatever it looks like,
  `SecretScrubber.AlwaysGoneIffNeverExposed` gives the exact condition. Secrets without square
  brackets that are no piece of "redactado" always meet both.
- The down migration leaves the second of two neighbouring SERVICIOS entries in place
  (`ModuleListMigration.DropsAllIffNoNeighbours`) and does not restore a list with a comma at either end
  (`ModuleListMigration.DownUndoesUpIff`).
- A partial reorder of special numbers keeps orders 1..n only when it lists the first rows
  (`SpecialNumbersService.PartialReorderKeepsNumberingIff`).
- Suspension and deletion protect the last active super administrator; dismissal of staff does
  not. `Staff.DismissalTakesLastSuperAdminIff` says exactly when it takes the last one away.
- An update to the empty name skips the check that names differ (`src/modules/roles/roles.service.ts:834` and 915);
  `RoleRuns.NamesDifferIff` says exactly when names stay different in a run.
- `getDescendantChain` is exact on cyclic parent maps too, not only on forests.
- `validatePermissions` refuses a repeated id as "not found", because it compares lengths
  (`src/modules/roles/roles.service.ts:443`).
- Comments of the users service speak of hiring supervisors; `STAFF_ROLES` does not contain
  that role (`src/modules/users/dto/inputs/create-staff-member.input.ts:18-22`). The model follows the list.

## Model

| member | source | states |
|---|---|---|
| RoleForest.ReparentKeepsForest | src/modules/roles/roles.service.ts:1925-1949 | Hanging any number of roles under one parent that lies in none of their subtrees keeps the links acyclic, although every subtree check is made against the table before the first write. |
| RoleForest.ForestIffRanked | src/modules/roles/roles.service.ts:271-292 | Acyclicity is equivalent to a numbering that falls towards the root, which is what makes the recursive walks end. |
| RoleForest.AddLeaf | src/modules/roles/roles.service.ts:180-192 | A new row under an existing parent changes nobody's ancestors and keeps the forest. |
| RoleTraversal.CollectDescendants | src/modules/roles/roles.service.ts:1489-1502 | The recursive closure ends on every parent map, cyclic or not, and pushes each row whose parent it newly visited exactly once. |
| RoleTraversal.DescendantChain | src/modules/roles/roles.service.ts:1485-1506 | Returns exactly the proper descendants, each once, on every parent map. |
| RoleTraversal.AncestorChain | src/modules/roles/roles.service.ts:271-292 | On a forest the climb ends and lists the role and its ancestors bottom-up, position i being i links above. |
| RoleTraversal.AncestorChainIsShort | src/modules/roles/roles.service.ts:271-292 | With strict non-negative levels no chain has more links than the role's level. |
| RoleTraversal.StrictLevelsMakeForest | src/modules/roles/roles.service.ts:526-532 | A parent strictly below its child in level everywhere already excludes cycles. |
| RolePermissions.PermissionsFromDescendants | src/modules/roles/roles.service.ts:322-346 | Collects exactly the permissions stored at some proper descendant. |
| RolePermissions.InheritedFromChildren | src/modules/roles/roles.service.ts:131-160 | The second collector, with children loaded or queried, collects the same permissions. |
| RolePermissions.CalculateEffectivePermissions | src/modules/roles/roles.service.ts:295-319 | Yields the union over the whole subtree, and nothing for an unknown role. |
| RolePermissions.GetEffectivePermissions | src/modules/roles/roles.service.ts:100-128 | Yields the same union for an active role and refuses every other. |
| RolePermissions.SaturateKeepsUnions | src/modules/roles/roles.service.ts:255-262 | Storing subtree unions at any set of roles changes no subtree's union, so later recomputations are unaffected. |
| RolePermissions.SaturateTwice | src/modules/roles/roles.service.ts:360-364 | The order in which ancestors are recomputed does not matter. |
| RolePermissions.SaturateIsLeastFixpoint | src/modules/roles/roles.service.ts:247-268 | The stored result only grows, holds every target's subtree, is stable under repetition and is the least such table. |
| RolePermissions.ContainmentIffAgreement | src/modules/roles/roles.service.ts:295-346 | Parents contain their children's sets exactly when every stored set equals its recomputation. |
| RolePermissions.AllDirectIffComplete | src/modules/roles/roles.service.ts:1422-1482 | The hierarchy view labels every effective permission DIRECT exactly when the stored set is complete. |
| RolePermissions.ValidatePermissions | src/modules/roles/roles.service.ts:427-505 | Accepts exactly the non-empty repetition-free lists of known active permissions closed under their dependencies. |
| RolePermissions.FoundAllIff | src/modules/roles/roles.service.ts:438-451 | Comparing lengths detects exactly unknown and repeated ids. |
| RolePermissions.ClosedHoldsTransitiveDependencies | src/modules/roles/roles.service.ts:474-505 | A set closed under direct dependencies holds all transitive ones. |
| RolePermissions.UnionStaysClosed | src/modules/roles/roles.service.ts:312-318 | An inheritance union of closed sets is closed. |
| RoleOperations.RefreshStep | src/modules/roles/roles.service.ts:360-364 | Processing one more active role extends the recomputed set by exactly its proper ancestors. |
| RoleOperations.HangKeepsForest | src/modules/roles/roles.service.ts:1925-1973 | The guard on a new parent is enough for the forest, for one role or a batch. |
| RolesService.Service.UpdateParents | src/modules/roles/roles.service.ts:247-268 | Writes into each role from the parent upwards its subtree's union of the rows before, and touches no other row. |
| RolesService.Service.RefreshInverseInheritance | src/modules/roles/roles.service.ts:349-367 | For any processing order each proper ancestor of an active role ends with exactly the permissions its subtree stored before, and no other row changes. |
| RolesService.Service.Create | src/modules/roles/roles.service.ts:163-212 | Succeeds exactly for an unused name, grantable permissions and a place on level 0 or 4 or right below an active parent; the new row holds exactly what was asked for, every role above it also the new permissions, and nothing else changes. |
| RoleContracts.CreatedMeans | src/modules/roles/roles.service.ts:181-195 | The effect as a relation of rows before and after: all columns of the new row, its permissions at every ancestor, all else unchanged. |
| RoleContracts.CanCreateIff | src/modules/roles/roles.service.ts:163-169 | The five checks accept exactly unused names, valid requests, and levels 0 and 4 for roots and one more than an active parent's for the others. |
| RoleContracts.UnionIsStoredUnder | src/modules/roles/roles.service.ts:295-319 | The union of a role holds exactly the permissions stored at it or somewhere below it. |
| RoleContracts.ParentChangeMeans | src/modules/roles/roles.service.ts:1112-1182 | A change of parent as a relation: one link, and at exactly the old and new ancestors what was stored in their subtrees before. |
| RoleContracts.MoveMeans | src/modules/roles/roles.service.ts:1250-1286 | A subtree move as a relation: one link, below the moved role one level more than the new parent's per link, and the unions at exactly the new ancestors. |
| RoleContracts.BatchMeans | src/modules/roles/roles.service.ts:1309-1380 | A batch as a relation: parent and level of exactly the listed known roles, and the unions at exactly the ancestors on either side. |
| RoleContracts.StatusMeans | src/modules/roles/roles.service.ts:1638-1648 | Removal and restoration as a relation: one status, and the unions at exactly the ancestors. |
| RoleContracts.UpdateMeans | src/modules/roles/roles.service.ts:905-993 | An update as a relation: given columns take the given values, all others stay, and exactly the concerned ancestors store their unions. |
| RoleContracts.CanUpdateIff | src/modules/roles/roles.service.ts:806-899 | Which updates pass, in terms of the rows alone. |
| RoleContracts.RefreshMeans | src/modules/roles/roles.service.ts:349-367 | A refresh as a relation: the unions at exactly the roles above an active one. |
| RolesService.Service.ValidateNewParent | src/modules/roles/roles.service.ts:1925-1973 | Accepts exactly an active role outside the subtree and on a smaller level. |
| RolesService.Service.ChangeRoleParent | src/modules/roles/roles.service.ts:1112-1182 | Succeeds exactly when the new parent is acceptable; changes one parent link and stores at old and new ancestors their unions of the rows before. |
| RolesService.Service.MoveRoleSubtree | src/modules/roles/roles.service.ts:1250-1286 | Moves the link, puts each role below the moved one on base level plus depth, saves the moved role with the level it was loaded with and stores at the new ancestors their unions of the rows before; all else unchanged. |
| RolesService.Service.AssignMultipleChildren | src/modules/roles/roles.service.ts:1309-1380 | All items or none; each is checked against the rows before the batch, unknown ids are skipped, and every old or new ancestor gets its union of the rows before. |
| RolesService.Service.Remove | src/modules/roles/roles.service.ts:1508-1664 | Deactivates exactly an active, unprotected role without active children or active holders, stores its ancestors' unions of the rows before and outdates the tokens of exactly its holders, of no complex. |
| RolesService.StoreUnions | src/modules/roles/roles.service.ts:1638-1648 | Writes into each listed ancestor of the pending rows its subtree's union of the committed rows, and nothing else. |
| RolesService.Service.Restore | src/modules/roles/roles.service.ts:1727-1828 | Reactivates exactly an inactive role whose parent and permissions are active, stores its ancestors' unions and outdates the tokens of exactly its holders. |
| RolesService.Service.Update | src/modules/roles/roles.service.ts:774-995 | Succeeds exactly under the identity, permission and position checks, writes only the given fields, and stores unions of the rows before at the present ancestors and, when the parent changed, at the former ones. |
| RolesService.Service.ValidatePosition | src/modules/roles/roles.service.ts:860-899 | The cycle, parent and level checks of an update together accept exactly the allowed positions. |
| RolesService.UpdateSubtreeLevels | src/modules/roles/roles.service.ts:1988-2012 | The recursion over children in any order gives each role of the subtree base plus depth and changes nothing else. |
| RoleRuns.RunIsSound | src/modules/roles/roles.service.ts:507-535 | In every table of every run: links form a forest, parents of active roles are active, stored sets are dependency-closed. |
| RoleRuns.AncestorsActive | src/modules/roles/roles.service.ts:1757-1765 | Then every ancestor of an active role is active. |
| RoleRuns.HangKeepsSound | src/modules/roles/roles.service.ts:1332-1353 | Single and batch reparenting keep that invariant although a batch is checked on the old rows. |
| RoleRuns.StepKeepsSound | src/modules/roles/roles.service.ts:1638-1643 | Every operation keeps it, its permission writes at ancestors included. |
| RoleRuns.UnionsKeepSound | src/modules/roles/roles.service.ts:1371-1380 | Storing unions computed from the old rows in a table already changed keeps it. |
| RoleRuns.RunIsLayeredIff | src/modules/roles/roles.service.ts:552-565 | Levels are strict and within 0 to 10 in every table of a run exactly when each level edit fits between parent and children and each moved role keeps its level or has no children. |
| RoleRuns.StepKeepsLayeredIff | src/modules/roles/roles.service.ts:526-532 | The same for one call of any kind. |
| RoleLevels.MoveLevels | src/modules/roles/roles.service.ts:1265-1280 | A subtree move raises no level, puts every role below the moved one on base plus depth, saves the moved one with its loaded level and leaves all other rows alone. |
| RoleLevels.IntendedMoveLevels | src/modules/roles/roles.service.ts:1192-1194 | The move as documented would also put the moved role on the base level and keep levels strict. |
| RoleLevels.AssignKeepsLayered | src/modules/roles/roles.service.ts:1349-1351 | A batch assignment raises no level and keeps levels strict. |
| RoleRuns.CreateKeepsContainment | src/modules/roles/roles.service.ts:190-195 | Creation keeps every parent's stored set above its children's. |
| RoleRuns.RunAgreesIff | src/modules/roles/roles.service.ts:255-262 | Every stored set equals its recomputation in every table of a run exactly when each new parent already stored what the moved roles store and each updated set lies between its children's sets and its parent's. |
| RoleRuns.StepKeepsAgreementIff | src/modules/roles/roles.service.ts:255-262 | The same for one call of any kind; creation, removal, restoration and refresh always keep it. |
| RoleAgreement.HangKeepsAgreementIff | src/modules/roles/roles.service.ts:1925-1973 | Hanging roles elsewhere keeps parents above their children exactly when the new parent already stores all their permissions. |
| RoleAgreement.UpdateKeepsAgreementIff | src/modules/roles/roles.service.ts:899-953 | So does an update exactly when the new set lies between the children's sets and that of the new parent. |
| RoleAgreement.ReparentingStoresNothing | src/modules/roles/roles.service.ts:1146-1160 | Where stored sets are complete, the ancestors' permissions written by a change of parent or a subtree move are those already stored, at old and new ancestors. |
| RoleAgreement.BatchStoresNothing | src/modules/roles/roles.service.ts:1371-1380 | The same for a batch. |
| RoleAgreement.UpdateStoresNothingAbove | src/modules/roles/roles.service.ts:984-993 | The same for an update, even one that changes the role's permissions. |
| RoleAgreement.RemovalStoresNothing | src/modules/roles/roles.service.ts:1638-1643 | The same for removal and restoration. |
| RoleCleanup.RecomputedAfterHang | src/modules/roles/roles.service.ts:295-319 | Where stored sets were complete, querying any role after a reparenting yields its stored set and, if it is the new parent or above it, the moved roles' sets: nothing is withdrawn. |
| RoleCleanup.FormerAncestorKeepsAll | src/modules/roles/roles.service.ts:1154-1160 | A former ancestor of a role moved away, alone or with its subtree, is written, and later recomputed, to what it already has. |
| RoleCleanup.BatchIsRecomputedLater | src/modules/roles/roles.service.ts:1371-1380 | A batch gives no role a permission; a later recomputation adds exactly the children's sets, at the new parent and above it. |
| RoleCleanup.RefreshAfterHang | src/modules/roles/roles.service.ts:349-367 | A refresh after a reparenting stores exactly that at every ancestor of an active role. |
| RoleCleanup.ParentChangeExample | src/modules/roles/roles.service.ts:1146-1160 | A table with complete sets and a permitted change of parent after which the former parent keeps a permission no role below it stores and the new parent misses one its child stores. |
| RoleRuns.RefreshIsLeastFixpoint | src/modules/roles/roles.service.ts:349-367 | No set shrinks, the result is the least table in which those ancestors hold their subtrees, and a second refresh changes nothing. |
| RoleRuns.NamesDifferIff | src/modules/roles/roles.service.ts:833-850 | In every table of a run no two roles share a name exactly when no update sets the empty name, which is stored unchecked, beside another of that name. |
| RoleRuns.SystemRolesStay | src/modules/roles/roles.service.ts:810-830 | An active system role stays active and a system role through every run. |
| RoleRuns.PermissionsAlwaysKnown | src/modules/roles/roles.service.ts:438-470 | In every table of a run every stored permission is a known, active one. |
| RoleLevels.MoveKeepsLevelsIff | src/modules/roles/roles.service.ts:1279-1280 | A move keeps levels strict and in range exactly if the moved role's level does not change or it has no children. |
| RoleLevels.MoveBreaksLevelsExample | src/modules/roles/roles.service.ts:1279-1280 | A permitted move in a four-role chain after which a role and its child stand on one level. |
| RoleLevels.LevelEditKeepsLevelsIff | src/modules/roles/roles.service.ts:862-899 | An update keeps levels strict and in range exactly when the level it leaves lies between parent and children. |
| RoleLevels.LevelEditBreaksExample | src/modules/roles/roles.service.ts:899 | Two permitted level edits in a three-role chain, one onto the parent's level and one above the child's. |
| ObjectKeys.KeyUrlRoundTrip | scripts/migrate-r2-layout.ts:162-183 | The key read from the URL written for a key is that key exactly when it has no `%` and does not end in white space. |
| PercentCoding.DecodeWithoutPercent | scripts/migrate-r2-layout.ts:166-168 | Decoding of percent triplets (section 2.1 of RFC 3986) leaves other text alone. |
| PercentCoding.DecodeShortens | scripts/migrate-r2-layout.ts:166-168 | Decoding never lengthens a text, and makes one with a `%` shorter. |
| PercentCoding.DecodeEncode | scripts/migrate-r2-layout.ts:503-509 | Decoding undoes the encoding of every text, for UTF-8 of one to four octets. |
| PercentCoding.DecodeIff | scripts/migrate-r2-layout.ts:166-176 | Decoding yields a text exactly from its spellings: each character as it is or as its UTF-8 triplets in either case; overlong forms, surrogates and broken triplets throw. |
| PercentCoding.EncodingIsPlain | scripts/migrate-r2-layout.ts:503-509 | The encoding leaves letters, digits and the listed marks, and yields nothing but these and triplets. |
| ObjectKeys.CopySourceNamesKey | scripts/migrate-r2-layout.ts:503-509 | The encoded source of a copy request, percent-decoded, is exactly bucket and old key. |
| ObjectKeys.KeyFromOtherDomain | scripts/migrate-r2-layout.ts:170-178 | Under another domain the path without its leading slashes, however many, gives the key; an empty one counts as foreign. |
| ObjectKeys.ForeignUrlIsPlanned | scripts/migrate-r2-layout.ts:194-202 | An address under any other domain is reported as foreign exactly when its path names no key; otherwise it is planned as a move of that key or taken as in place. |
| ObjectKeys.FileNameIsStable | scripts/migrate-r2-layout.ts:186-188 | Relocation keeps the file name. |
| ObjectKeys.NameIsLastSegment | scripts/migrate-r2-layout.ts:185-188 | The file name is what stands after the last slash, whatever stands before it. |
| ObjectKeys.MoveKeepsName | scripts/migrate-r2-layout.ts:194-202 | An object goes into the folder under its own last segment, and stays exactly if it already lies there. |
| ObjectKeys.TargetsMeetIff | scripts/migrate-r2-layout.ts:185-202 | Two moves get one new key exactly if folder and last segment are the same. |
| ObjectKeys.OwnUrlIsPlanned | scripts/migrate-r2-layout.ts:166-168 | The rest of an own address is the key, decoded; planning throws exactly if it cannot be decoded. |
| ObjectKeys.NormalizedForms | scripts/migrate-r2-layout.ts:137-141 | The public address loses surrounding white space and one slash, and gets a scheme if it has none. |
| Strings.TrimKeepsCore | scripts/migrate-r2-layout.ts:138 | Trimming takes exactly the white space of ECMA-262 off both ends. |
| ObjectKeys.PlanMoveIsProjection | scripts/migrate-r2-layout.ts:190-202 | Planning a relocated URL again plans nothing. |
| ObjectKeys.NormalizedIsConfigured | scripts/migrate-r2-layout.ts:137-141 | Normalisation yields an address the round trip holds for, or none. |
| RelocationPlan.PlanSlots | scripts/migrate-r2-layout.ts:314-340 | The slot loop plans exactly the rows with something to move; URLs keep number and order, unmapped ones stay. |
| RelocationPlan.PlanSimple | scripts/migrate-r2-layout.ts:268-288 | The one-column groups plan the same, with the stored key kept in step. |
| RelocationPlan.MovesAreSlots | scripts/migrate-r2-layout.ts:363-393 | The planned moves are exactly those of the relocating slots. |
| RelocationPlan.TargetIsSettled | scripts/migrate-r2-layout.ts:190-193 | A migrated row has nothing left to move, and its list keeps length, order and unmapped entries. |
| RelocationPlan.TargetRelocates | scripts/migrate-r2-layout.ts:268-340 | The update gives each moving slot the address of its new key and keeps all else; a stored key follows the last move. |
| RelocationProtocol.StepKeepsInv | scripts/migrate-r2-layout.ts:522-547 | Every request, failed or not, and every crash keeps the safety invariant. |
| RelocationProtocol.EveryReferenceKeepsItsContent | scripts/migrate-r2-layout.ts:19-21 | If the rows keep out of each other's way, all of them or those that can be completed, after every step of every history each row is untouched or wholly updated, and each reference that led to content leads to the same content. |
| RelocationProtocol.UniqueNamesSeparate | scripts/migrate-r2-layout.ts:185-188 | Unique file names imply all of the conditions but the one on what already lies at the targets. |
| RelocationLimits.ContentIsKeptIff | scripts/migrate-r2-layout.ts:19-21 | Missing originals or not: where no move supplies what an incomplete row lacks, every history keeps every reference exactly when the rows that can be completed meet the five conditions. |
| RelocationLimits.UniqueNamesAreKeptIff | scripts/migrate-r2-layout.ts:185-188 | With unique file names every history keeps every reference exactly when what lies at the targets of those rows is a copy. |
| RelocationLimits.ContentIsKeptWithAllSourcesIff | scripts/migrate-r2-layout.ts:19-21 | Where all originals exist, exactly when all rows meet the conditions. |
| RelocationLimits.KeepingAllIsSeparate | scripts/migrate-r2-layout.ts:522-547 | In every store the conditions are necessary for the rows that can be completed. |
| RelocationProtocol.CopyKeepsSafe | scripts/migrate-r2-layout.ts:524-531 | A copy to a free key disturbs no reference. |
| RelocationProtocol.WriteKeepsSafe | scripts/migrate-r2-layout.ts:533 | Updating the row after its copies exist is safe, all columns at once. |
| RelocationProtocol.DeleteKeepsSafe | scripts/migrate-r2-layout.ts:535-541 | Deleting an original of an updated row disturbs no reference. |
| RelocationProtocol.CollectedIsPlanned | scripts/migrate-r2-layout.ts:190-193 | Whatever happened before, a collection plans only rows not yet migrated, and as the first one would have. |
| RelocationProtocol.SettledStoreStays | scripts/migrate-r2-layout.ts:32-34 | Once all rows are migrated no later pass does anything, deletion included. |
| RelocationProtocol.MigratedOriginalsSurvive | scripts/migrate-r2-layout.ts:32-34 | The originals of any migrated row that still exist survive all later histories with deletion, whatever the other rows do. |
| RelocationProtocol.MissingSourceBlocksRow | scripts/migrate-r2-layout.ts:527-529 | A row with one slot whose source is missing, and whose target no other move creates, is never updated in any history. |
| RelocationLimits.SharedOriginalIsLost | scripts/migrate-r2-layout.ts:535-541 | An original that a slot of another row reads: some history with deletion takes it from that slot, for rows with any number of URLs. |
| RelocationLimits.ForeignTargetIsTaken | scripts/migrate-r2-layout.ts:525 | A different object at a target key is taken for the copy, and the reference changes. |
| RelocationLimits.StrayCopyIsTaken | scripts/migrate-r2-layout.ts:524-531 | So is one that a row left there before it was given up. |
| RelocationLimits.ClashingTargetsMix | scripts/migrate-r2-layout.ts:525 | Of two different originals with one target key, in one row or two, one reference changes. |
| RelocationLimits.MovedAwayTargetIsLost | scripts/migrate-r2-layout.ts:535-541 | An object moved to a key that another row moves away is deleted with that row's original. |
| RelocationLimits.ForeignUrlBlocksRow | scripts/migrate-r2-layout.ts:314-330 | A file under another domain, without an object under its path or target, keeps its row from ever being updated. |
| RelocationScript.Migration.CopyObject | scripts/migrate-r2-layout.ts:524-531 | One iteration is a path of the machine; on success the target exists, and at most it was added with the content of the original; a missing source leaves everything. |
| RelocationScript.Migration.UpdateRow | scripts/migrate-r2-layout.ts:533 | The update writes all planned columns or none. |
| RelocationScript.Migration.DeleteOriginals | scripts/migrate-r2-layout.ts:535-541 | Every original is gone or reported as an orphan, no other object is touched, and the rows stay. |
| RelocationScript.Migration.ApplyPlan | scripts/migrate-r2-layout.ts:522-547 | Applying a plan is a path of the machine; the outcome tells what happened to the row, and only a successful plan with deletion loses objects, exactly its originals. |
| RelocationScript.Migration.Collect | scripts/migrate-r2-layout.ts:265-290 | Plans exactly the selected rows with something to move; an undecodable URL ends the collection. |
| RelocationScript.Migration.Run | scripts/migrate-r2-layout.ts:616-633 | A whole run is a history of the machine; rows not selected stay, selected ones are untouched or wholly updated, and if all plans succeed every one of them is. Without deletion no object is lost. |
| Staff.Service.FindByEmail | src/modules/users/users.service.ts:473-477 | Finds an account with the address whenever there is one. |
| Staff.Service.CreateStaffMember | src/modules/users/users.service.ts:457-741 | Recruits, reinstates or adds; succeeds exactly when role, telephone and existing assignments allow it; states every column of the account and of the new assignment, and every success is a step of the machine. |
| Staff.Service.RemoveStaffMember | src/modules/users/users.service.ts:755-863 | Removes one active assignment and updates role, complex and status as the counts demand. |
| Staff.DismissedLetsGo | src/modules/users/users.service.ts:810-863 | A dismissal as a relation: the role goes exactly with its last assignment, a guard's complex goes, the account becomes inactive exactly if nothing keeps it, all else stays. |
| Staff.CanRehireIff | src/modules/users/users.service.ts:565-600 | Who may be hired again, in terms of the assignments alone. |
| Staff.AddressesAlwaysDiffer | src/modules/users/users.service.ts:473-477 | No address ever belongs to two accounts, in any run. |
| Staff.RehireKeepsSound | src/modules/users/users.service.ts:565-709 | Rehiring creates no double assignment and leaves the guard in an active account of the complex. |
| Staff.DismissKeepsSound | src/modules/users/users.service.ts:836-863 | Dismissal never disturbs a remaining guard assignment. |
| Staff.RunIsSound | src/modules/users/users.service.ts:565-584 | In every run a user has at most one active guard assignment and one per complex and role, and guards sit in accounts of that complex that are neither inactive nor deleted. |
| Staff.StepKeepsRolesMatching | src/modules/users/users.service.ts:810-846 | One step keeps staff roles equal to active assignments. |
| Staff.RunKeepsRolesMatching | src/modules/users/users.service.ts:682-709 | Accounts only these calls touched hold a staff role exactly while some active assignment has it. |
| Staff.DismissalTakesLastSuperAdminIff | src/modules/users/users.service.ts:843-863 | A dismissal takes the last active super administrator away exactly if it is that account and neither residence nor another assignment keeps it active, or the role dismissed is its own. |
| Staff.LastSuperAdminDismissed | src/modules/users/users.service.ts:854-858 | An account for which that happens. |
| Accounts.Service.AssertSuperAdminCanBeRemoved | src/modules/users/users.service.ts:1218-1256 | Passes exactly for ordinary accounts and for super administrators removed by another while a further active one exists. |
| Accounts.Service.SuspendUser | src/modules/users/users.service.ts:1106-1171 | Succeeds exactly under its checks, spelled out; sets status Suspended and raises the version, and changes nothing else. |
| Accounts.Service.ReactivateUser | src/modules/users/users.service.ts:1300-1341 | Reactivates exactly suspended accounts and raises the version again. |
| Accounts.Service.Delete | src/modules/users/users.service.ts:1414-1472 | Soft-deletes under its checks and raises the version in the same transaction. |
| Accounts.Service.Restore | src/modules/users/users.service.ts:1368-1393 | Restores exactly deleted accounts and leaves the version. |
| Accounts.Service.ChangePassword | src/modules/users/users.service.ts:1526-1577 | Succeeds exactly with a confirmed, different new password and a matching current one, and raises the version. |
| Accounts.Service.AdminResetPassword | src/modules/users/users.service.ts:1598-1659 | Succeeds exactly for roles the caller may set; raises the version and demands a change. |
| Accounts.Service.CompleteRequiredPasswordChange | src/modules/users/users.service.ts:1904-1929 | Succeeds exactly when a change is demanded, clears the demand, raises the version. |
| Accounts.VersionNeverFalls | src/modules/users/users.service.ts:1164-1171 | The token version never decreases in any run. |
| Accounts.OldTokensNeverPassAgain | src/modules/users/users.service.ts:1335-1341 | A token issued before a suspension, reactivation, deletion or password change never matches again, whatever follows. |
| Accounts.SuspendedUntilLifted | src/modules/users/users.service.ts:1165-1171 | In every later state a suspended account is suspended until a reactivation, deletion or restoration of it goes through. |
| Accounts.StandingAfter | src/modules/users/users.service.ts:1335-1341 | Status and deletion mark after each kind of call in a run; password calls leave them. |
| Accounts.MarksAlwaysAgree | src/modules/users/users.service.ts:1390-1391 | In every state of a run exactly the deleted accounts are marked as deleted. |
| Accounts.ResetDemandsChange | src/modules/users/users.service.ts:1652-1660 | After a reset the change is demanded and accepted in every later state until the password is changed. |
| Accounts.ChangeMeetsDemand | src/modules/users/users.service.ts:1904-1929 | After a change the completion is refused in every later state until the next reset. |
| Accounts.OnlyOwnAccountChanges | src/modules/users/users.service.ts:1164-1171 | No call changes another account, or roles or complex of its own, or makes or drops an account. |
| Accounts.StepKeepsSuperAdmin | src/modules/users/users.service.ts:1213-1217 | None of these account calls takes the number of active super administrators from positive to zero. |
| Accounts.SuperAdminsRemain | src/modules/users/users.service.ts:1213-1217 | Nor does any run of suspension, reactivation, deletion, restoration and password changes. |
| SpecialNumbers.NumberedListIsUnique | src/modules/special-numbers/special-numbers.service.ts:330-333 | With orders 1..n every sorted query of the scope returns the same sequence. |
| SpecialNumbers.RenumberOrders | src/modules/special-numbers/special-numbers.service.ts:235-238 | Listed rows get their position as order and no other row changes. |
| SpecialNumbers.QuerySorted | src/modules/special-numbers/special-numbers.service.ts:228-233 | A query returns the wanted rows once each, sorted. |
| SpecialNumbersService.Service.FindByComplex | src/modules/special-numbers/special-numbers.service.ts:36-63 | Fills the cache at most; the answer is a fresh one whenever the cache was in order. |
| SpecialNumbersService.Service.CreateNumber | src/modules/special-numbers/special-numbers.service.ts:69-133 | Succeeds exactly under scope, access and a limit of twenty; writes exactly the given row, by default at the end, and drops exactly the lists of its scope. |
| SpecialNumbersService.Service.UpdateNumber | src/modules/special-numbers/special-numbers.service.ts:162-193 | Writes the given order and data of one writable row, keeps what is not given and all other rows, and drops exactly the lists of its scope. |
| SpecialNumbersService.Service.RemoveNumber | src/modules/special-numbers/special-numbers.service.ts:220-247 | Deletes one writable row and renumbers the rest of its scope in order. |
| SpecialNumbersService.Service.ReorderComplex | src/modules/special-numbers/special-numbers.service.ts:274-299 | Renumbers rows of the complex only and answers with the new list. |
| SpecialNumbersService.Service.ReorderGlobal | src/modules/special-numbers/special-numbers.service.ts:305-334 | Renumbers global rows, drops every list, and reads back the given ids if they were a full list. |
| SpecialNumbersService.IdsWithinScope | src/modules/special-numbers/special-numbers.service.ts:399-414 | Accepts exactly lists of ids of the scope. |
| SpecialNumbersService.RenumberInPlace | src/modules/special-numbers/special-numbers.service.ts:235-238 | The loop over entities equals the renumbering, repeated ids included. |
| SpecialNumbersService.StepKeepsAgreement | src/modules/special-numbers/special-numbers.service.ts:125-133 | Every write drops all cached lists it could have made stale. |
| SpecialNumbersService.SurvivorSeesNoChange | src/modules/special-numbers/special-numbers.service.ts:241-247 | A list that survives an invalidation by prefix shows no row of that scope; a global change leaves none. |
| SpecialNumbersService.WrittenDataIsRead | src/modules/special-numbers/special-numbers.service.ts:178-193 | What a creation or an update writes is in every list that shows the row, fresh or cached, in every later state until it is overwritten or removed. |
| SpecialNumbersService.WriteDropsLists | src/modules/special-numbers/special-numbers.service.ts:241-247 | Right after the write no list that shows the row is cached. |
| SpecialNumbers.AnswerShows | src/modules/special-numbers/special-numbers.service.ts:50-55 | A list answers the query exactly when it shows the globals first and then the own rows, each once, as they are, by rising order. |
| SpecialNumbers.RenumberRenumbers | src/modules/special-numbers/special-numbers.service.ts:235-238 | Renumbering changes orders only; a row listed more than once keeps its last position. |
| SpecialNumbersService.CacheAlwaysAgrees | src/modules/special-numbers/special-numbers.service.ts:44-62 | In every state of every run with arbitrary expiry each cached list is a possible answer of a fresh query. |
| SpecialNumbersService.AlwaysCapped | src/modules/special-numbers/special-numbers.service.ts:96-105 | No complex ever has more than twenty numbers. |
| SpecialNumbersService.CreateAppends | src/modules/special-numbers/special-numbers.service.ts:389-397 | A number created without an order goes to the end of its scope. |
| SpecialNumbersService.RemoveRenumbers | src/modules/special-numbers/special-numbers.service.ts:227-239 | Removal leaves 1..n-1 in the old relative order. |
| SpecialNumbersService.ReorderReadsBack | src/modules/special-numbers/special-numbers.service.ts:288-294 | A full reorder makes the given sequence the order 1..n. |
| SpecialNumbersService.AnswerIsGlobalsThenOwn | src/modules/special-numbers/special-numbers.service.ts:50-55 | Over numbered scopes the list of a complex is exactly the globals in order followed by its own numbers in order. |
| SpecialNumbersService.OrdersAreAlwaysDense | src/modules/special-numbers/special-numbers.service.ts:108-113 | In runs with default orders and full reorders every scope's orders are exactly 1..n at every moment. |
| SpecialNumbersService.PartialReorderKeepsNumberingIff | src/modules/special-numbers/special-numbers.service.ts:283-294 | A reorder of some rows keeps the numbering exactly when they are the first ones. |
| SecretScrubber.RedactSecrets | src/core/config/secret-scrubber.ts:32-41 | No secret occurs in the output if none can touch the replacement; text without secrets is unchanged. |
| SecretScrubber.NoSecretLeft | src/core/config/secret-scrubber.ts:32-41 | The same for every list and replacement, whatever the order of the secrets. |
| SecretScrubber.RedactionIsIdempotent | src/core/config/secret-scrubber.ts:32-41 | A second pass changes nothing. |
| SecretScrubber.ReplaceLeavesAbsent | src/core/config/secret-scrubber.ts:38 | One replacement removes its secret and brings in no other that cannot touch the replacement. |
| Strings.FirstIsReplaced | src/core/config/secret-scrubber.ts:38 | Of an occurring text the first occurrence becomes the replacement, what stands before it is copied and the search goes on behind it. |
| SecretScrubber.RedactedInParts | src/core/config/secret-scrubber.ts:36-39 | A list is worked off from the front, each secret being replaced throughout. |
| SecretScrubber.BracketFreeSecretsNeverTouch | src/core/config/secret-scrubber.ts:14 | Secrets without square brackets that are no piece of "redactado" cannot touch the replacement. |
| SecretScrubber.ExposedSecretLeaks | src/core/config/secret-scrubber.ts:37-39 | A secret that overlaps the replacement, with a front part that starts no earlier match, is spelled again by its own redaction. |
| SecretScrubber.UnexposedIsGone | src/core/config/secret-scrubber.ts:37-39 | Every other secret is gone from every text. |
| SecretScrubber.AlwaysGoneIffNeverExposed | src/core/config/secret-scrubber.ts:31-41 | For every non-empty secret: it is gone from every text after its redaction exactly when it has no such overlap. |
| SecretValues.SecretValuesFrom | src/core/config/secret-scrubber.ts:17-29 | Returns exactly the values of secret variables and the pieces between their separators, without version, trimmed and of at least eight characters, each once, longest first. |
| SecretValues.VersionIsDropped | src/core/config/secret-scrubber.ts:21-25 | A versioned key counts without its version number, another part as it is, trimmed. |
| SecretValues.PartsRejoin | src/core/config/secret-scrubber.ts:23 | The pieces of a list value hold everything but the separators, in order. |
| SecretValues.PartsAreCut | src/core/config/secret-scrubber.ts:23 | No piece holds a comma or a semicolon, and a value without them is its own only piece. |
| SecretValues.PartsOfTwo | src/core/config/secret-scrubber.ts:23 | A value is cut at each comma and at each semicolon. |
| SecretValues.SecretNameIff | src/core/config/secret-scrubber.ts:8-9 | Exactly the names with one of the marks, in any letter case, are those of secrets. |
| SecretValues.IsSecretIff | src/core/config/secret-scrubber.ts:17-29 | What counts as secret, in terms of positions in the value alone. |
| SecretValues.ListedKeyIsSecret | src/core/config/secret-scrubber.ts:21-25 | Each versioned key of a list, whichever separators it uses, is a secret by itself. |
| SecretValues.EarlierNotInsideLater | src/core/config/secret-scrubber.ts:28 | No earlier secret of the list is part of a later one. |
| SecretValues.WholeSecretIsReplacedWhole | src/core/config/secret-scrubber.ts:28-41 | Therefore a text that is one secret becomes exactly the replacement. |
| SecretValues.ScrubSecrets | src/core/config/secret-scrubber.ts:46-49 | The whole scrubber: for any environment of ordinary secrets none is left in any text, and a text that is a secret becomes the replacement. |
| RedactValues.MatchLengthIff | src/core/config/redact.ts:8 | The scanner matches exactly what the regular expression matches, with the same extent. |
| RedactValues.FirstMatchIsRewritten | src/core/config/redact.ts:6-11 | Text before the first match is copied, the match becomes the replacement with its own quote, and the scan goes on behind it. |
| RedactValues.NoMatchLeavesText | src/core/config/redact.ts:6-11 | A text without a match stays as it is. |
| RedactValues.OutputIsClean | src/core/config/redact.ts:1-5 | In the output every marker whose quote closes on its line holds exactly the replacement. |
| RedactValues.RedactionIsProjection | src/core/config/redact.ts:6-11 | Redaction is idempotent, and the texts it leaves alone are exactly the clean ones. |
| RedactValues.NoNewMatch | src/core/config/redact.ts:6-11 | Rewriting never creates a match where there was none. |
| ModuleListMigration.ComplexTable.Up | src/core/database/migrations/1781006600000-MarketplaceServiceDirectory.ts:29-36 | Lists with CLASIFICADOS and without SERVICIOS gain exactly that last entry; NULL, the empty text and every other cell stay. |
| ModuleListMigration.ComplexTable.Down | src/core/database/migrations/1781006600000-MarketplaceServiceDirectory.ts:40-44 | Lists with SERVICIOS lose it where it does not directly follow a removed one, and the commas at their ends; every other cell stays. |
| ModuleListMigration.ComplexTable.UpThenDown | src/core/database/migrations/1781006600000-MarketplaceServiceDirectory.ts:29-44 | Forward and back restores the table exactly when no list had SERVICIOS and no list with CLASIFICADOS had a comma at an end. |
| ModuleListMigration.DownRemovesAll | src/core/database/migrations/1781006600000-MarketplaceServiceDirectory.ts:40-44 | On a list of non-empty names without neighbouring SERVICIOS the undo removes exactly these. |
| ModuleListMigration.ListedIffInList | src/core/database/migrations/1781006600000-MarketplaceServiceDirectory.ts:34-35 | The comma-wrapped LIKE test holds exactly when the name is in the split list. |
| ModuleListMigration.UpAppends | src/core/database/migrations/1781006600000-MarketplaceServiceDirectory.ts:29-36 | SERVICIOS is appended to exactly the lists with CLASIFICADOS and without SERVICIOS. |
| ModuleListMigration.UpIsIdempotent | src/core/database/migrations/1781006600000-MarketplaceServiceDirectory.ts:29-36 | A second forward edit changes nothing. |
| ModuleListMigration.RemovedIsListEdit | src/core/database/migrations/1781006600000-MarketplaceServiceDirectory.ts:42 | On any text the undo is a list edit with the outer commas stripped. |
| ModuleListMigration.TrimCommasKeepsCore | src/core/database/migrations/1781006600000-MarketplaceServiceDirectory.ts:42 | Exactly the commas at both ends are stripped, however many. |
| ModuleListMigration.DropsAllIffNoNeighbours | src/core/database/migrations/1781006600000-MarketplaceServiceDirectory.ts:42 | It removes every SERVICIOS exactly when no two are neighbours. |
| ModuleListMigration.NeighboursMeaning | src/core/database/migrations/1781006600000-MarketplaceServiceDirectory.ts:42 | The recursive condition is the one on adjacent positions. |
| ModuleListMigration.DownUndoesUpIff | src/core/database/migrations/1781006600000-MarketplaceServiceDirectory.ts:29-44 | Undo restores a text exactly when SERVICIOS was not listed and, if CLASIFICADOS was, the text has no comma at its ends. |
| ModuleListMigration.NameListsAreRestored | src/core/database/migrations/1781006600000-MarketplaceServiceDirectory.ts:29-44 | Every comma-joined list of non-empty names without SERVICIOS is restored. |
| SystemCodes.GenerateSystemCode | src/modules/users/utils/system-code.util.ts:33-40 | The code is the prefix and for each octet its symbol of the alphabet, and it conforms. |
| SystemCodes.GeneratedConforms | src/modules/users/utils/system-code.util.ts:16-21 | Every generated code matches the canonical pattern. |
| SystemCodes.ConformsIff | src/modules/users/utils/system-code.util.ts:21 | Conforming codes are exactly the prefix followed by five letters or digits. |
| SystemCodes.CodesMeetIff | src/modules/users/utils/system-code.util.ts:33-40 | Two draws give one code exactly if all their octets agree modulo 32. |
| SystemCodes.Users.SetCode | src/core/database/migrations/1781001700000-NormalizeUserSystemCodes.ts:53-56 | One UPDATE needs, and keeps, the unique index. |
| SystemCodes.FreshIsUnused | src/core/database/migrations/1781001700000-NormalizeUserSystemCodes.ts:46-51 | A conforming code outside the used set belongs to no row, not even to one still to be rewritten. |
| SystemCodes.Users.FreshCode | src/core/database/migrations/1781001600000-BackfillUserSystemCodes.ts:33-37 | The retry loop ends with a conforming unused code while the draws keep varying. |
| SystemCodes.Users.AssignCodes | src/core/database/migrations/1781001700000-NormalizeUserSystemCodes.ts:46-57 | Each single update keeps codes distinct; exactly the pending rows get conforming codes. |
| SystemCodes.Users.Backfill | src/core/database/migrations/1781001600000-BackfillUserSystemCodes.ts:19-44 | Exactly the missing codes are filled. |
| SystemCodes.Users.Normalize | src/core/database/migrations/1781001700000-NormalizeUserSystemCodes.ts:28-58 | Every user has a conforming code, conforming ones are untouched, a second run writes nothing. |
| SystemCodes.Users.BackfillThenNormalize | src/core/database/migrations/1781001700000-NormalizeUserSystemCodes.ts:19-22 | Both migrations: all codes conform and differ, conforming ones survive, rerunning changes nothing. |

## Left out

- RolesService.Service.ChangeRoleParent: a failing commit, after which the unions already stored at the new ancestors stay.
- RolesService.Service.Update: the same at every ancestor it recomputes.
- RolesService.Service.Restore: the same at the parent and the roles above it.
- RolesService.Service.AssignMultipleChildren: the ancestors' rows are written by an update statement with a many-to-many column, which is taken to store it.
- RolesService.Service.BumpRoleHolders: the cached token versions, dropped after the commit.
- RelocationProtocol.EveryReferenceKeepsItsContent: application writes to rows and bucket during a run are not modelled.
- RelocationLimits.ContentIsKeptIff: stores in which one row's move supplies the original or the target another row lacks, with file names that are not unique; there the conditions are proved necessary for some rows and enough for all.
- ObjectKeys.CopySourceNamesKey: `encodeURI` leaves `?` as it is, which a storage service may read as the start of a version query; only percent-decoding is modelled.
- Accounts.SuperAdminsRemain: dismissal of staff, which has no such protection, is a step of `Staff` and characterised there.
- ObjectKeys.PlanMoveIsProjection: the URL parser of the second branch is an arbitrary function of the address.
- SystemCodes.Users.AssignCodes: assumes draws that never stay within a set smaller than the table; random draws do so only almost surely.
- SpecialNumbersService.OrdersAreAlwaysDense: runs with explicit orders or partial reorders, for which the code gives no such invariant.
- SpecialNumbersService.CacheAlwaysAgrees: errors of the cache server, which the client swallows.
- Staff.Service.CreateStaffMember: the address arrives normalised; role lookup and telephone check are parameters.
- Accounts.Service.ChangePassword: the hash comparison is a parameter.
- Error kinds and messages: a refused call is a flag.
- Audit entries, notifications, sockets, sessions and the cached token version: effects that do not change the modelled state.
- Interleavings of two service calls: operations are serial; crashes within the relocation and the reads of committed rows inside a transaction are the exceptions.
- Strings are sequences of characters; UTF-16 surrogates are not modelled.
- Dry-run output and the report of the relocation script: formatting.
