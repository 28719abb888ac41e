# Verified model of the collector backend

A Dafny 4.11 model of the stateful parts of the backend and of the one tree
algorithm of its frontend, with proofs about all inputs, all runs and all
interleavings. `dafny verify dfyconfig.toml` checks everything.

| files | what they model |
|---|---|
| `RelaySpec`, `RelayProtocol`, `RelayInvariant`, `RelaySafety`, `RelayTheorems`, `RelayOpens`, `RelayObjects` | the relay of terminal sessions between browsers, the hub and the one attached host agent: tables, FIFO links that can break in each direction, the agent's read loop, PTY output loops |
| `Forest`, `Permissions`, `StoreSpec`, `StoreRows`, `StoreInvariant`, `StoreSeed`, `StoreTheorems`, `StoreAccess`, `StoreWrites`, `Store` | the access-control store: menu and department forests, roles, users and grants, and the recursive SQL queries that compute the same answers |
| `FileRows`, `FileLibrary` | managed files: rows under a partial unique index, and the upload directory kept in step with them |
| `FileSearch` | the bounded breadth-first file search, on the host and over SFTP |
| `SshExit` | the race that decides whether a page reconnects after an SSH session |
| `PdfText`, `Pdf`, `PdfReader` | the PDF export and a reader that gets the lines back |
| `RateLimiter`, `Conversation` | the limit on new customer conversations and their life |
| `Resize`, `MenuTree`, `UserMenuTree`, `MediaRewrite` | image shrinking, menu flattening, media address rewriting |

How the parts are built. Each object that the source updates in place is a
class; its methods are proved against functions on values (`StoreSpec`,
`RelaySpec`, `Record`, `Release`, ...), and the laws are lemmas about those
functions or about runs of a state machine whose steps are the critical
sections, store calls and network writes of the source. Failing disk, database
and network calls are parameters or separate steps, except in the in-memory
store, which makes none. Theorems of the store are about every state that some
sequence of operations reaches from the seeded tables; theorems of the relay
are about every state that some interleaving reaches;
`StoreInvariant.Consistent` and `RelayInvariant.Inv` are the invariants behind
them.

Assumptions. Session ids, conversation ids and generated file names are fresh;
different contents have different hashes; a file system does not change during
a search. Attempts at a new conversation may be processed out of the order of
their times, because the clock is read before the lock is taken; lemmas that
need an order say how late an attempt may be processed.

Where the code does less than one might expect, the model follows the code, a
lemma gives the input, and others say when it happens, exactly (for the four
conversations, by a bound that no run beats):

| what can happen | input | condition |
|---|---|---|
| an accepted `open` is dropped | `RelayOpens.OpenCanBeDropped` | `OpenHonouredIffRoom` |
| a root department created or coded anew lacks menus | `StoreTheorems.RecreatedRootLacksMenus` | `NewDepartmentHoldsAll`, `RecodedDepartmentHoldsAll` |
| a failed upload or update changes a row | `FileLibrary.UnreadUploadKeepsRow`, `UnreadUpdateBreaksMatch` | `FailedUploadKeepsRows`, `FailedUpdateKeepsRows`, `MatchIsKept` |
| a failed update loses the old bytes | `FileLibrary.OldBytesCanBeLost` | `OldBytesStay`, `NoBytesStay` |
| four new conversations start within less than a minute, and the announced wait is wrong | `RateLimiter.OutOfOrderGrants` | `FourGrantsSpan` with `LagBoundIsTight`, `AnnouncedTimeIsExact` |
| a conversation closes less than ten seconds after it was left | `Conversation.GraceCanBeCutShort` | `GraceIsWhole` |
| a timer's close hits a customer | `Conversation.CloseCanHitACustomer` | `CloseHitsWhoStays` |
| a conversation is shown offline with a customer connected | `Conversation.CloseCanHitACustomer` | `FlagAgrees` |
| a thin image is sampled outside itself | `Resize.ThinImageMissesItsRow` | `SingleSampleInside` |
| replacing media addresses uncovers another | `MediaRewrite.DroppedPreviewUncoversAnother`, `PublicPreviewUncoversAnother` | `AddressLeftIff` |

## Model

| member | source | states |
|---|---|---|
| RelaySafety.StepKeeps | backend/handlers/host_agent.go:131-282 | every step of hub threads, links, the agent's read loop and the PTY output loops keeps the joint invariant of the two session tables |
| RelaySafety.RunKeeps | backend/handlers/host_agent.go:131-282 | every interleaving of any length keeps that invariant |
| RelayInvariant.DrainedOrClosing | backend/cmd/host-agent/main.go:205-215 | a session the agent will still hold after reading everything queued is held now and has no close queued, or is announced in the queue |
| RelayTheorems.NoLeakedSession | backend/handlers/host_agent.go:241-250 | in every reachable state a session in the agent's table has a browser thread that is registered or still owes its close, or a close is in the link, or the link towards the agent is down |
| RelayTheorems.DrainedAgentHoldsNothing | backend/cmd/host-agent/main.go:352-361 | once no browser thread owes a close and the link is drained and idle, the agent holds no session and no PTY of that connection runs |
| RelayTheorems.StoppedAgentHoldsNothing | backend/cmd/host-agent/main.go:378-392 | after closeAllSessions has finished, no session and no running PTY is left, whatever the browsers still do |
| RelayTheorems.AgentProgresses | backend/cmd/host-agent/main.go:153-217 | until it is drained or stopped the agent always has a step of its own that brings it closer |
| RelayTheorems.AgentStepIsCloser | backend/cmd/host-agent/main.go:304-361 | every step the agent takes on its own, whatever its outcome, lowers a bound on the steps it has left |
| RelayTheorems.EveryRunEmpties | backend/cmd/host-agent/main.go:290-361 | in every reachable state in which no browser thread owes a close and the link works, the agent's own steps, in any order and with any outcome of its starts, are bounded in number, and when none is left its table is empty and no PTY runs |
| RelayTheorems.AgentEmptiesItself | backend/cmd/host-agent/main.go:290-361 | such a run exists: the agent can get there by steps of its own alone |
| RelayTheorems.BindingHolds | backend/handlers/host_agent.go:227-238 | both tables stay within 32 entries, and every entry of the hub was registered by its own thread with exactly the agent attached now |
| RelayTheorems.RouteReachesOpener | backend/handlers/host_agent.go:253-282 | an envelope is handed to the browser that opened its id on that very connection exactly while that agent is attached and the session bound, and to nobody otherwise; a close of the attached agent, and nothing else routed, takes its session out of the table |
| RelayTheorems.AttachDecides | backend/handlers/host_agent.go:188-196 | the first agent is attached; another is turned away and its connection unusable |
| RelayTheorems.DetachingCloses | backend/handlers/host_agent.go:199-224 | when serving the attached agent ends, or a close to it is lost, the table is empty and its connection gets closed |
| RelayTheorems.RegisterBinds | backend/handlers/host_agent.go:227-238 | a new browser is admitted exactly while an agent is attached and fewer than 32 sessions are bound, and then bound under its id to that agent |
| RelayTheorems.HubWritesInOrder | backend/handlers/host_agent.go:241-250 | an open, a request or a close arrives behind everything written before, or fails and sends its thread to detach the agent |
| RelayTheorems.RequestIsHandled | backend/cmd/host-agent/main.go:304-349 | a connect starts a PTY exactly for a session that has none, a disconnect takes the entry and releases the PTY exactly of a session that has one, and exactly the requests that do not fit are answered with an error |
| RelayTheorems.ActivationIsAnnounced | backend/cmd/host-agent/session.go:73-86 | a stored PTY is announced with its file browser and read, or taken out again and ended when the hub cannot hear it |
| RelayTheorems.AgentWritesInOrder | backend/cmd/host-agent/session.go:133-154 | output, exit messages, close envelopes and start errors each arrive behind what was sent before |
| RelayTheorems.NaturalExitIsAnnounced | backend/cmd/host-agent/main.go:364-375 | a PTY that ends while it owns its entry gives it up and sends the exit message and then the close envelope; any other ends silently |
| RelayTheorems.StoppingReleases | backend/cmd/host-agent/main.go:378-392 | when the connection ends the table is emptied at once and every PTY in it is being released |
| RelayTheorems.StaleAgentIsPowerless | backend/handlers/host_agent.go:199-204 | a connection that is not the attached agent cannot change the hub's tables by routing, detaching, ending or failing |
| RelayTheorems.BrowserLeavesOnlyBy | backend/handlers/host_agent.go:199-265 | an entry leaves the hub's table only by its own thread, by a close of its attached agent, or with that agent |
| RelayTheorems.UndeliveredCloseDetaches | backend/handlers/host_agent.go:245-249 | when a close could not be delivered, the agent is no longer the attached one and the browser is gone from the table |
| RelayTheorems.LivePtyIsOwned | backend/cmd/host-agent/main.go:304-361 | a running PTY is owned by exactly one entry of its own connection's table, or the read loop is storing or releasing it |
| RelayTheorems.InstallFindsItsSession | backend/cmd/host-agent/main.go:331-341 | the second existence check before storing a started PTY always succeeds and the stored PTY overwrites no other |
| RelayTheorems.TerminatorIsFinal | backend/cmd/host-agent/main.go:352-375 | a PTY gets its terminator (close, disconnect, failed activation, link loss or natural exit) exactly when its entry goes, and keeps it |
| RelayTheorems.TerminatorIsForever | backend/cmd/host-agent/main.go:352-392 | over any further run the terminator stays and no table owns the PTY again |
| RelayTheorems.ExitAnnouncedOnce | backend/cmd/host-agent/main.go:364-375 | the exit message and the close envelope are sent at most once each, in that order, only after a natural exit, and both are sent when the output loop of a naturally ended session finishes |
| RelayTheorems.OnlyOutputLoopAnnounces | backend/cmd/host-agent/session.go:133-154 | no other step puts an exit message or a close envelope into a link |
| RelayOpens.OpenHonouredIffRoom | backend/cmd/host-agent/main.go:290-301 | reading an open registers its session if and only if the agent holds fewer than 32 |
| RelayOpens.OpenCanBeDropped | backend/handlers/host_agent.go:241-250 | a reachable state in which an accepted browser's open is dropped, because the hub frees a slot before it writes the close |
| RelayOpens.RunStaysFresh | backend/handlers/host_agent.go:227-238 | over every run the opens queued on a link are distinct and new to the agent |
| RelayObjects.HostAgentHub.AttachAgent | backend/handlers/host_agent.go:188-196 | attaches the first agent and refuses a second |
| RelayObjects.HostAgentHub.DetachAgent | backend/handlers/host_agent.go:199-224 | only the attached agent clears the table, closes its connection and sends each bound browser one retryable exit; another agent changes nothing |
| RelayObjects.HostAgentHub.RegisterBrowser | backend/handlers/host_agent.go:227-238 | binds a browser to the attached agent while fewer than 32 are bound, with the error cases |
| RelayObjects.HostAgentHub.UnregisterBrowser | backend/handlers/host_agent.go:241-250 | removes the entry, writes the close and detaches the agent exactly when that write fails |
| RelayObjects.HostAgentHub.RouteAgentEnvelope | backend/handlers/host_agent.go:253-282 | while its source is attached, hands a usable payload to the one browser bound to the id, or the exit notice with the envelope's retryable flag, and closes it; a close also ends the binding; every other browser, and every browser when the source is stale or the id unbound, is untouched |
| RelayObjects.AgentClient.OpenSession | backend/cmd/host-agent/main.go:290-301 | adds an entry only if it is new and the table holds fewer than 32 |
| RelayObjects.AgentClient.StoreSession | backend/cmd/host-agent/main.go:331-346 | stores a started PTY if its entry still exists and closes it otherwise |
| RelayObjects.AgentClient.CloseSession | backend/cmd/host-agent/main.go:352-361 | takes the entry out and closes the PTY it held |
| RelayObjects.AgentClient.SessionExited | backend/cmd/host-agent/main.go:364-375 | removes the entry, and announces the exit, only if the entry still holds this very PTY |
| RelayObjects.AgentClient.CloseAllSessions | backend/cmd/host-agent/main.go:378-392 | empties the table and closes every PTY that was in it |
| Forest.WalkUp | backend/store/store.go:803-818 | on a forest the upward walk ends and accepts exactly the parents whose path to the root avoids the moved node |
| Forest.AddKeepsForest | backend/store/store.go:767-792 | a new node under an existing one keeps every path finite |
| Forest.RemoveKeepsForest | backend/store/store.go:831-856 | removing a childless node keeps the forest |
| Forest.MoveKeepsForest | backend/store/store.go:795-828 | an accepted move keeps the forest |
| Forest.WalkAgreesWithQuery | backend/repository/sqlite_store.go:1202-1217 | the upward walk refuses exactly the node itself and the rows of the recursive descendants query |
| Forest.UnionAllEnds | backend/repository/departments.go:254-267 | on a forest the descendants query that keeps duplicates ends within as many rounds as there are rows and returns exactly the descendants |
| Forest.UnionAllLoops | backend/repository/departments.go:254-267 | below a node that is its own ancestor that query would find rows in every round |
| Forest.ExpandIsLeast | backend/store/store.go:1368-1387 | on every table, cyclic or not, the worklist ends and returns each id once, together the least superset closed under "parent of" |
| Forest.ExpandAgreesWithQuery | backend/repository/sqlite_store.go:1305-1313 | the worklist and the fixed point of the recursive query are the same set |
| Forest.ExpandAncestors | backend/store/store.go:1368-1387 | the loop with its seen set computes that least closure without duplicates |
| Forest.UniqueIDs | backend/store/store.go:1458-1471 | first occurrences in order, no duplicates, same set |
| Forest.UniqueKeepsOrder | backend/store/store.go:1458-1471 | an earlier id of the result occurs before the first occurrence of a later one |
| Permissions.SelectedCodes | backend/permissions/actions.go:233-243 | the selected codes of the catalogue, in catalogue order |
| Permissions.SelectedFollowsCatalogue | backend/permissions/actions.go:233-243 | the selected codes are those at ascending places of the catalogue, every place of a selected code among them |
| Permissions.FilterCodes | backend/permissions/actions.go:246-256 | the codes of the definitions that the caller's test keeps, in catalogue order |
| Permissions.MergeCodes | backend/permissions/actions.go:215-230 | the loop computes the canonical union of the known codes |
| Permissions.NormalizeCodes | backend/permissions/actions.go:199-212 | refuses a request with any unknown code, and otherwise returns the canonical union |
| Permissions.MergedIsExact | backend/permissions/actions.go:215-230 | a merge holds a code exactly if it is in the catalogue and, trimmed, was asked for |
| Permissions.MergedIgnoresOrder | backend/permissions/actions.go:215-230 | requests that name the same known codes merge to the same sequence |
| Permissions.MergedIsIdempotent | backend/permissions/actions.go:215-230 | merging a merged list changes nothing |
| Permissions.MergedAbsorbs | backend/permissions/actions.go:215-230 | a group may be merged beforehand |
| Permissions.CatalogueIsTrimmed | backend/permissions/actions.go:89-134 | no code of the catalogue has blanks around it, which the laws of the merge rest on |
| Permissions.CatalogueIsDistinct | backend/permissions/actions.go:89-134 | the codes of the catalogue all differ |
| Permissions.MergedRepeatsNone | backend/permissions/actions.go:89-134 | a merge over the catalogue repeats no code |
| Permissions.TrimIsExact | backend/permissions/actions.go:199-212 | trimming takes away exactly the white space at both ends |
| Permissions.CaseIsFolded | backend/permissions/actions.go:64-72 | letter case makes no difference between codes, up to the dotted capital I |
| Permissions.AdministratorInAnyCase | backend/permissions/actions.go:69-72 | blanks around an administrator code and its letter case make no difference, and no other code is one, the dotted capital I and the long s aside |
| StoreInvariant.CreateMenuKeeps | backend/store/store.go:767-792 | creating a menu keeps the store consistent: administrators and the root department receive it |
| StoreInvariant.UpdateMenuKeeps | backend/store/store.go:795-828 | updating a menu keeps the store consistent |
| StoreInvariant.DeleteMenuKeeps | backend/store/store.go:831-856 | deleting a menu keeps the store consistent: every grant loses it |
| StoreInvariant.CreateDepartmentKeeps | backend/store/store.go:435-466 | creating a department keeps the store consistent |
| StoreInvariant.UpdateDepartmentKeeps | backend/store/store.go:469-523 | updating a department keeps the store consistent: codes stay distinct, users follow a renaming |
| StoreInvariant.DeleteDepartmentKeeps | backend/store/store.go:526-549 | deleting a department keeps the store consistent |
| StoreInvariant.UpdateDepartmentMenusKeeps | backend/store/store.go:572-601 | granting menus to a department keeps the store consistent; for the root department the comparison of lengths is enough |
| StoreInvariant.CreateRoleKeeps | backend/store/store.go:618-639 | creating a role keeps the store consistent: no third role gets an administrator code |
| StoreInvariant.UpdateRoleKeeps | backend/store/store.go:642-684 | updating a role keeps the store consistent: administrator roles stay as seeded, users follow a renaming |
| StoreInvariant.DeleteRoleKeeps | backend/store/store.go:687-707 | deleting a role keeps the store consistent |
| StoreInvariant.UpdateRoleMenusKeeps | backend/store/store.go:721-750 | granting menus to a role keeps the store consistent: administrators keep all menus |
| StoreInvariant.CreateUserKeeps | backend/store/store.go:177-231 | creating a user keeps the store consistent |
| StoreInvariant.UpdateUserKeeps | backend/store/store.go:234-301 | updating a user keeps the store consistent |
| StoreInvariant.DeleteUserKeeps | backend/store/store.go:304-316 | deleting a user keeps the store consistent: personal grants go too |
| StoreInvariant.UpdateUserMenusKeeps | backend/store/store.go:1005-1019 | granting menus to a user keeps the store consistent |
| StoreInvariant.UpdateUserActionsKeeps | backend/store/store.go:1022-1040 | granting actions to a user keeps the store consistent |
| StoreSeed.SeedIsConsistent | backend/store/store.go:59-135 | the seeded tables are consistent |
| StoreTheorems.RunIsConsistent | backend/store/store.go:59-135 | every sequence of operations, accepted or refused, leads from the seed to a consistent store |
| StoreTheorems.AdministratorsHoldEverything | backend/store/store.go:721-750 | in every reachable state a role carries an administrator code exactly if it is one of the two seeded ones, and then it is enabled and holds exactly all menus |
| StoreTheorems.BothAdministratorsStay | backend/store/store.go:642-707 | in every reachable state both administrator roles exist with their seeded name, code and status |
| StoreTheorems.RootHoldsEverything | backend/store/store.go:572-601 | while it exists, the seeded root department is enabled, on top, and holds exactly all menus |
| StoreTheorems.CachedNamesMatch | backend/store/store.go:469-523 | in every reachable state a user's cached role name, role code and department name are those of the rows it refers to |
| StoreTheorems.NewDepartmentHoldsAll | backend/store/store.go:435-466 | a department holds all menus when created exactly if it is the board office or there is no menu besides the dashboard |
| StoreTheorems.RecodedDepartmentHoldsAll | backend/store/store.go:469-523 | a department changed to any code, also the root's, holds all menus exactly if it did before |
| StoreTheorems.RootCodeKeepsAll | backend/store/store.go:435-601 | the department with the root code, whichever it is, never loses a menu once it holds them all |
| StoreTheorems.RecreatedRootLacksMenus | backend/store/store.go:435-466 | a run after which a department with the root code, created again, does not hold all menus |
| StoreWrites.CreateMenuWrites | backend/store/store.go:767-792 | a menu is refused exactly for a missing parent; a new one goes to both administrator roles, the root department and the board office, and to nobody else |
| StoreWrites.UpdateMenuWrites | backend/store/store.go:795-828 | an accepted update gives exactly the one row the requested values; with MenuMovesAgree this says when it is accepted |
| StoreWrites.DeleteMenuWrites | backend/store/store.go:831-856 | when deleting a menu is refused and why, and that it is otherwise taken from the table and from every grant |
| StoreWrites.CreateDepartmentWrites | backend/store/store.go:435-466 | when a department is refused and why; the new row, and what it is granted: all menus for the board office, the first dashboard otherwise |
| StoreWrites.UpdateDepartmentWrites | backend/store/store.go:469-523 | for which requests without a parent an update is refused and why |
| StoreWrites.UpdatedDepartmentRow | backend/store/store.go:469-523 | an accepted update gives exactly the one row the requested values and exactly its users the new name |
| StoreWrites.DeleteDepartmentWrites | backend/store/store.go:526-549 | when deleting a department is refused and why; otherwise the row and its grants go and nothing else |
| StoreWrites.UpdateDepartmentMenusWrites | backend/store/store.go:572-601 | when a grant is refused and why; otherwise the department is granted exactly the menus asked for and nobody else changes |
| StoreWrites.CreateRoleWrites | backend/store/store.go:618-639 | a role is refused exactly for a taken code; the new row, and that it is granted the first dashboard |
| StoreWrites.UpdateRoleWrites | backend/store/store.go:642-684 | when an update is refused and why; otherwise exactly the one row and the users of the role change |
| StoreWrites.DeleteRoleWrites | backend/store/store.go:687-707 | when deleting a role is refused and why; otherwise the row and its grants go and nothing else |
| StoreWrites.UpdateRoleMenusWrites | backend/store/store.go:721-750 | when a grant is refused and why; otherwise the role is granted exactly the menus asked for and nobody else changes |
| StoreWrites.MadeUserResolves | backend/store/store.go:177-231 | which user requests can be resolved, which record they come to, and which reason is given otherwise |
| StoreWrites.CreateUserWrites | backend/store/store.go:177-231 | a user is refused exactly for a taken name or a request that cannot be resolved, and added without personal menus otherwise |
| StoreWrites.UpdateUserWrites | backend/store/store.go:234-301 | an update is refused exactly if another user has the name or the request cannot be resolved, and changes exactly the one row otherwise |
| StoreWrites.DeleteUserWrites | backend/store/store.go:304-316 | the row goes with its personal menus and actions, and nothing else |
| StoreWrites.UpdateUserMenusWrites | backend/store/store.go:1005-1019 | when a grant is refused and why; otherwise the user is granted exactly the menus asked for |
| StoreWrites.UpdateUserActionsWrites | backend/store/store.go:1022-1040 | when a grant is refused and why; otherwise the user is granted exactly the actions asked for, trimmed and in catalogue order |
| StoreWrites.RunKeepsApart | backend/store/store.go:177-301 | in every reachable state no two users share a login name and no two roles a code, up to case |
| StoreAccess.EffectiveMenusAgree | backend/store/store.go:937-1002 | the effective menus shown for a user are, as a set, those enforced |
| StoreAccess.EffectiveActionsAgree | backend/store/store.go:895-1002 | the effective actions shown for a user are, as a sequence, those enforced, in any state |
| StoreAccess.ActionsAreExact | backend/store/store.go:895-915 | in any state the enforced actions are, in catalogue order, exactly those of the definitions the user may use: all for an administrator, the read-only ones (or all) through an enabled role whose row is found, and the personal ones |
| StoreAccess.DisabledRoleAddsNothing | backend/store/store.go:895-915 | without an enabled role a user who is no administrator has exactly the personally granted actions |
| StoreAccess.DetailShowsSources | backend/store/store.go:937-1002 | the page shows, each once, the menus granted to the department, to the role and to the user, enabled or not |
| StoreAccess.DetailShowsActions | backend/store/store.go:937-1002 | the page shows for the role the actions of its row and for the user the known personal ones |
| StoreAccess.UserMenusAgreeWithQuery | backend/repository/sqlite_store.go:1284-1329 | the in-memory listing returns exactly the rows of the recursive SQL query, each once |
| StoreAccess.ListedMenusHaveParents | backend/store/store.go:859-892 | with a listed menu its parent is listed |
| StoreAccess.MenuMovesAgree | backend/repository/sqlite_store.go:1194-1217 | moving a menu is accepted exactly when the SQL checks accept it, and refused for the same reason |
| StoreAccess.DepartmentMovesAgree | backend/repository/departments.go:243-267 | moving a department is accepted exactly when the SQL checks accept it; only the reason for "itself" differs |
| StoreAccess.EqualIDs | backend/repository/departments.go:539-552 | the sorted comparison decides equality as sets |
| StoreAccess.SameIDs | backend/store/store.go:1474-1493 | the comparison by length and membership decides equality as sets |
| StoreAccess.LengthsSuffice | backend/store/store.go:587-598 | for requests of existing menus comparing lengths decides equality as sets |
| Store.MemoryStore.CreateMenu | backend/store/store.go:767-792 | does to the tables what the specification says, reports its refusal, and keeps the store consistent |
| Store.MemoryStore.UpdateMenu | backend/store/store.go:795-828 | the same, with the walk that refuses cycles and dangling parents |
| Store.MemoryStore.DeleteMenu | backend/store/store.go:831-856 | the same, with the child check and the revocation in all grant maps |
| Store.MemoryStore.CreateDepartment | backend/store/store.go:435-466 | the same |
| Store.MemoryStore.UpdateDepartment | backend/store/store.go:469-523 | the same, with the root department's rules, the walk and the renaming in users |
| Store.MemoryStore.DeleteDepartment | backend/store/store.go:526-549 | the same, refused while sub-departments or users remain |
| Store.MemoryStore.UpdateDepartmentMenus | backend/store/store.go:572-601 | the same, with the root department's length check |
| Store.MemoryStore.CreateRole | backend/store/store.go:618-639 | the same |
| Store.MemoryStore.UpdateRole | backend/store/store.go:642-684 | the same, with the administrator rules and the renaming in users |
| Store.MemoryStore.DeleteRole | backend/store/store.go:687-707 | the same, refused for administrators and while users remain |
| Store.MemoryStore.UpdateRoleMenus | backend/store/store.go:721-750 | the same, administrators must keep all menus |
| Store.MemoryStore.CreateUser | backend/store/store.go:177-231 | the same, with the order of the checks |
| Store.MemoryStore.UpdateUser | backend/store/store.go:234-301 | the same, with the order of the checks |
| Store.MemoryStore.DeleteUser | backend/store/store.go:304-316 | the same, with personal grants and actions removed |
| Store.MemoryStore.UpdateUserMenus | backend/store/store.go:1005-1019 | the same |
| Store.MemoryStore.UpdateUserActions | backend/store/store.go:1022-1040 | the same, refused for administrators and unknown codes |
| Store.MemoryStore.ListUserMenus | backend/store/store.go:859-892 | returns what the specification says, which in a consistent store is the SQL query's result |
| Store.MemoryStore.ListUserActionPermissions | backend/store/store.go:895-915 | returns, in catalogue order, exactly the codes of the definitions that the user may use |
| Store.MemoryStore.GetUserPermissionDetail | backend/store/store.go:937-1002 | returns what the permission page shows |
| FileRows.RunIsIndexed | backend/repository/sqlite_store.go:529 | over every run of statements live rows never share an owner and a non-empty hash |
| FileRows.RowsLeaveOnlyByPurge | backend/repository/sqlite_store.go:1760-1780 | a row that is gone was deleted for good while in the trash |
| FileRows.StepWrites | backend/repository/sqlite_store.go:1648-1780 | what each statement writes, told from the rows before it: inserts, hash updates and backfills are refused exactly for a live rival, and no other row changes |
| FileRows.RestoreSucceeds | backend/repository/sqlite_store.go:1720-1757 | restoring any trashed row succeeds; it keeps its hash exactly if no live row of its owner has it, and no other row changes |
| FileRows.ContentUpdateDecides | backend/repository/sqlite_store.go:1688-1703 | replacing a content fails in the database exactly when another live file of the owner has it |
| FileRows.InsertDecides | backend/repository/sqlite_store.go:1648-1665 | an insert fails on the unique index exactly when a live row of the owner has the hash |
| FileRows.BackfillSucceeds | backend/repository/sqlite_store.go:668-684 | the conditional backfill of a hash never runs into the unique index |
| FileLibrary.FailedUploadKeepsRows | backend/handlers/files.go:250-273 | a failed upload leaves every row exactly unless its row was inserted and could not be read back; `Upload` ensures the same of the table itself |
| FileLibrary.UnreadUploadKeepsRow | backend/repository/sqlite_store.go:1648-1665 | an input for which it does not |
| FileLibrary.FailedUpdateKeepsRows | backend/repository/sqlite_store.go:1688-1703 | a failed update leaves every row exactly unless the row was changed, to another hash, and could not be read back |
| FileLibrary.UpdatesExactly | backend/handlers/files.go:320-411 | which calls an update needs, with the rivals that refuse it; it then leaves the new bytes and the new hash, and if every call works a refused one leaves both as they were |
| FileLibrary.OldBytesStay | backend/handlers/files.go:376-406 | a failed update keeps the old bytes exactly if they were never set aside or could be renamed back |
| FileLibrary.NoBytesStay | backend/handlers/files.go:376-406 | where there was no file, it leaves none exactly if the new one never got there or was removed |
| FileLibrary.MatchIsKept | backend/handlers/files.go:320-411 | exactly when the row's hash still matches the bytes after any update, successful or not |
| FileLibrary.UnreadUpdateBreaksMatch | backend/handlers/files.go:394-406 | an input for which everything is undone on disk and the row keeps the new hash |
| FileLibrary.OldBytesCanBeLost | backend/handlers/files.go:395-406 | an input for which the old bytes are gone |
| FileLibrary.Library.Upload | backend/handlers/files.go:141-273 | for every combination of failing calls: success is reported exactly when all needed calls work and there is no live rival, and then exactly the one row and the one file are new; otherwise the rows are those of UploadedRows, no other file is touched, and nothing is left if cleaning up works |
| FileLibrary.Library.Place | backend/handlers/files.go:376-392 | moves the new file in with the old one as backup, or reports failure with the old file back in place unless bringing it back failed |
| FileLibrary.Library.Retract | backend/handlers/files.go:395-406 | brings the old file back, or removes the new one |
| FileLibrary.Library.UpdateContent | backend/handlers/files.go:320-411 | for every combination of failing calls: success is reported exactly when the row is live, all needed calls work and there is no live rival, and then the file holds the new bytes and only the row's hash changed; otherwise rows and bytes are those of ContentRows and ContentBytes, no other file differs, and if every call works nothing is left behind |
| FileLibrary.Library.Swap | backend/handlers/files.go:376-409 | the part of that from the written temporary file on; after success the new bytes are in place |
| FileLibrary.Library.SoftDelete | backend/repository/sqlite_store.go:1706-1717 | trashes exactly live rows, unless the statement fails |
| FileLibrary.Library.Restore | backend/repository/sqlite_store.go:1720-1757 | restores exactly trashed rows, giving up a hash that a live row has, unless the transaction fails; a failed query afterwards only changes the answer |
| FileLibrary.Library.HardDelete | backend/repository/sqlite_store.go:1760-1780 | deletes exactly trashed rows, unless the query or the statement fails, and then removes exactly that row's file if that works |
| FileLibrary.Library.ReconcileUploadFiles | backend/repository/sqlite_store.go:633-710 | every readable file the pass came to has a row, unless its INSERT failed, and a row lacks its hash only because a live row of its owner has it; existing rows survive; only a failing query or update ends the pass early; other rows stay as they were, and each new row is a live one of the given owner for a file of the directory that had none |
| FileSearch.Search | backend/cmd/host-agent/session.go:309-367 | on any file system at most 10001 directories are read; every result is listed in a reachable directory and matches; an untruncated result holds all such nodes; it is truncated exactly at one of the two limits; each node once if listings name nothing twice; nodes of directories nearer to the root come first |
| FileSearch.ScanDirectory | backend/handlers/server.go:870-887 | one directory: everything before the limits is queued or returned as it should |
| FileSearch.AllVisited | backend/cmd/host-agent/session.go:324-349 | when nothing is pending every reachable directory has been visited |
| FileSearch.NothingMissed | backend/handlers/server.go:839-899 | a complete visit has found every wanted node |
| SshExit.VerdictIsExact | backend/handlers/server.go:618-642 | over every interleaving the retry verdict is true exactly when a transport failure was seen before anything closed the session, or nothing had closed it and the wait failed in the transport |
| SshExit.FlagIsFrozen | backend/handlers/server.go:581-600 | after closing, the failure flag never changes |
| SshExit.VerdictIsSettled | backend/handlers/server.go:618-642 | once the session is closed no later event changes the verdict |
| SshExit.NoBrowserLeaks | backend/handlers/server.go:669-715 | after a close no SFTP client is left open, also if it finished opening during the close |
| SshExit.BrowserIsExact | backend/handlers/server.go:669-715 | over every interleaving an SFTP client is stored exactly if it finished opening before anything closed the session and the session was not released since |
| SshExit.SshTerminalConnection.FinalizeAfterExit | backend/handlers/server.go:618-642 | in one critical section closes the session and advises a retry exactly if a transport failure was recorded, or the session was open and the wait failed in the transport |
| SshExit.SshTerminalConnection.CloseAfterTransportFailure | backend/handlers/server.go:581-589 | records the failure unless already closed, then releases |
| SshExit.SshTerminalConnection.MarkTransportFailure | backend/handlers/server.go:592-600 | records the failure unless already closed |
| SshExit.SshTerminalConnection.CloseConnection | backend/handlers/server.go:669-696 | closes and releases once |
| SshExit.SshTerminalConnection.InitializeFileBrowser | backend/handlers/server.go:699-715 | keeps the SFTP client only if the session is not closed |
| PdfText.TenDigitsReadBack | backend/handlers/article_exports.go:210-212 | the padded offset reads back and takes exactly ten digits below 10^10 (section 7.5.4 of ISO 32000-1) |
| PdfText.HexReadBack | backend/handlers/article_exports.go:218-229 | the hexadecimal text decodes to the line, with characters above U+FFFF as question marks |
| PdfText.LinesJoinBack | backend/handlers/article_exports.go:126-131 | the source lines joined by line feeds are the normalised text |
| PdfText.NormalisingSplits | backend/handlers/article_exports.go:127-131 | the normalised lines, with one of the three line breaks after each but the last, are the text again |
| PdfText.PiecesConcatBack | backend/handlers/article_exports.go:131-143 | the wrapped pieces of a line join back to it, all but the last are full, none is longer |
| PdfText.WrapPDFText | backend/handlers/article_exports.go:126-145 | for every text and width the result is, line by line of the text, that line cut into full pieces and a last one; a carriage return with a line feed, or either alone, ends a line, and no other character is lost |
| Pdf.WriteContent | backend/handlers/article_exports.go:180-191 | writes the content stream of one page |
| Pdf.BuildObjects | backend/handlers/article_exports.go:148-193 | builds catalog, page tree, fonts, pages and streams under their object numbers |
| Pdf.WritePages | backend/handlers/article_exports.go:173-193 | writes each page and its stream under their object numbers |
| Pdf.WriteObjects | backend/handlers/article_exports.go:196-205 | each recorded offset is where its object begins, and objects follow each other without gaps |
| Pdf.WriteEntries | backend/handlers/article_exports.go:206-213 | the free entry, then one entry for each object in order |
| Pdf.EntriesHaveFixedWidth | backend/handlers/article_exports.go:206-213 | below 10^10 every cross-reference entry takes 20 bytes, holds its object's offset and is found by its number |
| Pdf.RenderCJKPDF | backend/handlers/article_exports.go:148-215 | for every list of lines the file is exactly the objects at their offsets, the table and a trailer whose startxref is where the table begins |
| Pdf.WrittenIsLaidOut | backend/handlers/article_exports.go:196-215 | below 10^10 such a file has every part at the place where a reader looks for it |
| PdfReader.ObjectReadBack | backend/handlers/article_exports.go:196-212 | a reader finds each object where the cross-reference table says |
| PdfReader.FrameReadBack | backend/handlers/article_exports.go:173 | each page names its size, its font object and its stream, read as numbers |
| PdfReader.SetupReadBack | backend/handlers/article_exports.go:180-182 | each stream sets font size, first position and line distance, read as numbers |
| PdfReader.StreamReadBack | backend/handlers/article_exports.go:191-193 | each Length cuts out exactly its stream |
| PdfReader.WrittenFileReadsBack | backend/handlers/article_exports.go:148-215 | reading a written file below 10^10 through startxref, trailer, table, page tree and streams gives the pages back, with their size and line positions |
| PdfReader.PagesHoldEveryLine | backend/handlers/article_exports.go:173-179 | every page but the last holds exactly fifty lines and the last one to fifty, all of them inside the page, and together every line in order |
| PdfReader.FileReadsBack | backend/handlers/article_exports.go:148-229 | a rendered file below 10^10 bytes reads back to full pages of fifty lines and a last one, all lines inside the page, that together are the lines, with characters above U+FFFF as question marks |
| RateLimiter.FourGrantsSpanAMinute | backend/handlers/socket.go:702-727 | if attempts are processed in the order of their times, any four grants in a row span at least a minute |
| RateLimiter.FourGrantsSpan | backend/handlers/socket.go:702-727 | if no attempt is processed more than a given lag behind an earlier one, one of any four grants lies at least a minute less that lag before the last of them |
| RateLimiter.LagBoundIsTight | backend/handlers/socket.go:708-712 | for every lag up to a minute, a run whose four grants span exactly that |
| RateLimiter.OutOfOrderGrants | backend/handlers/socket.go:708-727 | a run with four grants in less than a minute, after which the announced time is too late |
| RateLimiter.AnnouncedTimeIsExact | backend/handlers/socket.go:721-724 | with a full log, the announced time is the first at which an attempt is granted exactly if the first stored attempt is the oldest |
| RateLimiter.LogIsRecentGrants | backend/handlers/socket.go:714-727 | in any order, the stored attempts of the minute before the latest time seen are exactly the grants of that minute, and at most three are stored; in order of time nothing else is stored |
| RateLimiter.RefusalIsExact | backend/handlers/socket.go:721-724 | if the first stored attempt is the oldest, every attempt before the announced time is refused and changes nothing, and one exactly then is granted |
| RateLimiter.RefusedLogIsFull | backend/handlers/socket.go:721-724 | after a refusal exactly three attempts are stored, and every attempt earlier than the announced time less the lag is refused |
| RateLimiter.FilterInPlace | backend/handlers/socket.go:714-720 | filtering into the slice's own array equals the functional filter |
| RateLimiter.Appended | backend/handlers/socket.go:725 | appending in place or into a grown array adds the attempt at the end |
| RateLimiter.KeysAreClients | backend/handlers/socket.go:702-706 | two keys count together exactly if they are equal without the blanks around them, an empty one standing for "unknown" |
| RateLimiter.Limiter.AllowNewConversation | backend/handlers/socket.go:702-727 | decides by the client's own earlier attempts alone, so that what is stored for each client is the log of that client's attempts; lets a client through that never tried before, changes nothing for others, and announces when the first stored attempt leaves |
| Conversation.StatusMovesForward | backend/repository/socket.go:51-147 | over every interleaving the status only moves from open to closed to deleted |
| Conversation.StatusIsHistory | backend/repository/socket.go:11-147 | over every interleaving the conversation exists exactly if it was created, is deleted exactly if somebody deleted it, and is otherwise closed exactly if a timer or a customer closed it |
| Conversation.OnlineIsOpen | backend/repository/socket.go:51-79 | an online conversation is open |
| Conversation.OnlineIsLastMark | backend/repository/socket.go:51-79 | an open conversation is online exactly if no timer has cleared its flag since it was last set |
| Conversation.FlagAgrees | backend/repository/socket.go:51-79 | its flag says whether a customer is connected exactly if it was last set, not cleared, just when somebody entered and has not left |
| Conversation.ClosedIsNeverReadmitted | backend/handlers/socket.go:146-169 | once closed or deleted no later connection is admitted and nothing puts it online again |
| Conversation.TimerClosesAfterGrace | backend/handlers/socket.go:183-202 | a timer closes only after its last customer left at least ten seconds before a check that found no customer |
| Conversation.GraceRunsIffEmptied | backend/handlers/socket.go:183-202 | in every reachable state some timer's grace period runs exactly if the conversation was emptied less than ten seconds ago |
| Conversation.GraceIsWhole | backend/handlers/socket.go:183-202 | a timer's close comes at least ten seconds after every departure that emptied the conversation exactly if no timer's grace period runs |
| Conversation.CustomersStay | backend/handlers/socket.go:826-855 | a customer is connected exactly if it entered and has not left |
| Conversation.CloseHitsWhoStays | backend/handlers/socket.go:183-202 | a timer's close finds nobody connected exactly if everyone who entered since its check has left again |
| Conversation.QuietGraceIsWhole | backend/handlers/socket.go:183-202 | if nobody entered between a timer's departure and its close, no grace period runs at the close |
| Conversation.GraceCanBeCutShort | backend/handlers/socket.go:183-202 | a run in which an earlier timer closes one second after the latest departure |
| Conversation.CloseCanHitACustomer | backend/handlers/socket.go:183-202 | a run in which a customer enters between the check and the close, and is shown offline |
| Conversation.SocketHub.AddCustomer | backend/handlers/socket.go:827-835 | adds the client and returns the number of clients |
| Conversation.SocketHub.RemoveCustomer | backend/handlers/socket.go:838-848 | removes the client, keeps no empty set, returns what remains |
| Conversation.SocketHub.CustomerCount | backend/handlers/socket.go:851-855 | is zero exactly when nobody is connected |
| Conversation.ConversationStore.CreateSocketConversation | backend/repository/socket.go:11-27 | creates an open, online row unless the id exists or the INSERT fails, and reports it if it can be read back |
| Conversation.ConversationStore.CloseSocketConversation | backend/repository/socket.go:51-65 | closes exactly open conversations unless the UPDATE fails, and reports it if the row can be read back |
| Conversation.ConversationStore.SetSocketConversationOnline | backend/repository/socket.go:68-79 | changes the flag of exactly open conversations unless the UPDATE fails |
| Conversation.ConversationStore.SoftDeleteSocketConversation | backend/repository/socket.go:136-147 | deletes exactly conversations not deleted yet unless the UPDATE fails |
| Conversation.ConversationStore.ValidateSocketConversationToken | backend/repository/socket.go:40-47 | accepts a right token exactly for an open conversation, if the query works |
| Resize.ResultFitsBox | backend/utils/image_resize.go:19-40 | for positive limits the result has at least one pixel and never exceeds the box |
| Resize.ScaleIsLargest | backend/utils/image_resize.go:19-31 | no larger factor, up to 1, fits the box |
| Resize.TargetIsNearest | backend/utils/image_resize.go:32-40 | each side of the result is the scaled side rounded, or 1 |
| Resize.NegativeLimit | backend/utils/image_resize.go:19-40 | with a negative limit the result is the one pixel at the corner |
| Resize.ZeroLimit | backend/utils/image_resize.go:19-40 | with a limit of zero and none negative the scale is zero and the result one pixel |
| Resize.CentreIsSampled | backend/utils/image_resize.go:47-66 | the sampled coordinate is the centre of the result's pixel scaled back, or the first centre |
| Resize.SamplesInside | backend/utils/image_resize.go:47-56 | unless a size was rounded up to 1, every sampled coordinate is inside the source |
| Resize.SingleSampleInside | backend/utils/image_resize.go:32-56 | when it was, the one sample is inside exactly if scale * (size + 1/2) > 1/2 |
| Resize.SampleIsBilinear | backend/utils/image_resize.go:50-82 | each channel of each pixel is the bilinear mean of the four source pixels around its coordinate, rounded, repeating the last column and row |
| Resize.ThinImageMissesItsRow | backend/utils/image_resize.go:32-56 | shrinking a 1000 by 1 image into 100 by 100 samples outside its only row |
| Resize.InterpolateChannel | backend/utils/image_resize.go:88-93 | each output channel is the bilinear mean of its four samples, rounded, and lies between the least and the greatest of them |
| Resize.ResizeToFit | backend/utils/image_resize.go:12-85 | returns the image itself if it fits, and otherwise a new one of the rounded size, within the box for positive limits, whose every pixel is the blended sample; for a limit of zero one pixel |
| MenuTree.TreeHoldsRootedMenus | frontend/src/utils/menu.ts:7-11 | the list holds exactly the menus whose parent chain reaches null, cyclic and orphaned ones excluded |
| MenuTree.TreeIsWellOrdered | frontend/src/utils/menu.ts:4-14 | each menu once, after its parent and one level deeper, roots at depth 0, siblings by sort then id |
| MenuTree.NothingDroppedFromForest | frontend/src/utils/menu.ts:4-14 | nothing is dropped when every chain reaches null |
| MenuTree.ListedBelongs | frontend/src/utils/menu.ts:7-11 | the depth of a listed menu is the length of its chain less one |
| MenuTree.SortedIsPermutation | frontend/src/utils/menu.ts:6 | sorting orders by sort then id and neither loses, adds nor repeats a menu |
| UserMenuTree.PageDropsNothing | backend/store/store.go:859-892 | in every consistent store the page shows every menu that the user's listing returns |
| MediaRewrite.RewritePattern | backend/content/sanitize.go:203-227 | the editing loop ends and equals one recursive left-to-right pass |
| MediaRewrite.RewriteRendersPieces | backend/content/sanitize.go:203-227 | the output is the input's pieces in order, texts unchanged and each id resolved |
| MediaRewrite.PiecesRebuildInput | backend/content/sanitize.go:203-227 | putting the cut-out spans back gives the input |
| MediaRewrite.ParseIsLeftmost | backend/content/sanitize.go:207-217 | each replaced span starts at the leftmost prefix and ends at the first suffix, and none is left in the last text |
| MediaRewrite.RemovalCanLeaveAnAddress | backend/content/sanitize.go:218-222 | for every resolver, when the first resolution joins its neighbours into a new start of an address, the pass leaves that in |
| MediaRewrite.AddressLeftIff | backend/content/sanitize.go:203-227 | for every resolver the output has an address exactly if, among the pieces of the input, the prefix comes about across a seam or stands inside a resolution, with the suffix after it |
| MediaRewrite.NoAddressLeft | backend/content/sanitize.go:203-227 | for every resolver none is left if no text before a replaced span ends in a proper start of the prefix and no resolution holds the prefix or ends in such a start |
| MediaRewrite.PublicPassLeavesNone | backend/handlers/public.go:877-889 | with the resolver of the public pages, only a text before a preview that ends in a start of the prefix can leave one |
| MediaRewrite.DroppedPreviewUncoversAnother | backend/content/sanitize.go:196-227 | a text in which that happens |
| MediaRewrite.PublicPreviewUncoversAnother | backend/handlers/public.go:877-889 | a text in which that resolver leaves one |
| MediaRewrite.RewriteLocalMedia | backend/content/sanitize.go:196-200 | runs the pass for previews, then for thumbnails |

## Left out

- Heartbeats, deadlines and read limits of the sockets: they only end a link, which the relay model already allows at any step.
- JSON, session-id trimming, message texts and file operations inside a terminal session: payloads of the relay are reduced to the kinds that change a table, session ids are numbers.
- Menu paths and icons, contact data, login flags, passwords and time stamps of the store: no rule of the access-control tables depends on them.
- Permissions: lower-casing and case folding are exact for ASCII letters and for the characters that become or match one (the Kelvin sign, the long s, the dotted capital I); other pairs of letters that differ only in case are compared as different.
- SQL text, the unique constraint on menu codes and database failures of the SQL store: only the recursive queries and the checks around them are modelled; the query that keeps duplicates is modelled round by round as sets.
- StoreAccess.DepartmentMovesAgree: states the agreement for requests that pass the earlier checks, because the SQL lookup by code folds only ASCII letters.
- Who may see or change a file, image dimensions and metadata of files: they do not touch hashes or bytes.
- FileLibrary.Library.UpdateContent: handlers run one after the other; two simultaneous replacements of one file are not modelled, while the statements of FileRows may interleave freely.
- FileSearch.Search: results stay in the order of discovery; the final sort for display, by a library function, is not modelled.
- SshExit.SshTerminalConnection.FinalizeAfterExit: the short wait for the transport monitor is not modelled; either order of the two is covered.
- SshExit.SshTerminalConnection.CloseAfterTransportFailure: as a method its two critical sections follow each other; the lemmas about runs let other threads in between.
- Resize.ResizeToFit: floating-point rounding; the model computes with exact reals. For a limit of zero beside one that is not negative the coordinate is infinite and its conversion to an integer depends on the platform, so the one pixel of that result is a parameter.
- Compression, PDF viewers and fonts: the reader interprets only what the writer produces.
- Article, data-point, chat, mail, metrics and visitor-analytics handlers: plumbing without shared state worth an invariant.
- HTML sanitising, slugs, tag normalisation and image-header detection: parsing by libraries, or without a law that holds.
