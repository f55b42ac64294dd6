# A verified model of parts of Zabbix 5.0.47

This project models the wire codec that the server processes talk with, the ownership rules of agent
check results, and the stateful planners and editors of the web frontend, in Dafny, and proves what they
are for. Code that changes state in place is a class or a method over arrays and reassigned sequences,
proved against a specification function; the main results are lemmas about those functions, for every
input and every run.

- `Serialize`: length-prefixed binary messages, the separately computed size, and three string decoders
  of the same bytes (include/zbxserialize.h).
- `HostMacros`, `HostMacroPlans`, `HostMacroEffects`: the macro mass update of hosts, a plan of adds,
  updates and removals executed in one transaction on the macro table (ui/hosts.php and the user macro API).
- `HostTags`: the tag mass update of hosts (ui/hosts.php).
- `AlertStream`: the newest alerts merged from one truncated stream per event source (ui/auditacts.php).
- `GraphOrder`: the repair of graph item sort orders (ui/graphs.php).
- `HttpPairs`: web scenario fields shown as typed pairs and turned back (ui/httpconf.php).
- `PreprocParams`: preprocessing parameters joined and split (ui/items.php).
- `FormulaIds`, `Conditions`, `Correlation`, `ActionConditions`, `ActionOperations`: the editors of
  conditions and operations as state machines over requests (ui/correlation.php, ui/actionconf.php).
- `ItemMassUpdate`, `Subfilters`: the item mass update with its shared record, and the item list's
  subfilters (ui/items.php).
- `Inventory`: the host inventory list and the overview that links into it (ui/hostinventories.php,
  ui/hostinventoriesoverview.php).
- `AgentResult`: who owns and who frees what an agent check returns (include/sysinfo.h,
  include/module.h).
- `StableSort`, `Strings`, `Wrappers`: shared vocabulary.

`dafny verify dfyconfig.toml` checks everything.

## Where the code falls short of what one would expect

Each point is a lemma with a concrete input, or an exact condition:

- Graph items are fetched by `gitemid`, so their sort orders need not be in order. Then the repair can
  leave two equal orders (`GraphOrder.OutOfOrderKeepsDuplicate`). It succeeds exactly when no order's gap
  to the least solution exceeds all gaps before it by more than one (`GraphOrder.RepairedIsLeast`).
- A descending inventory list is the reverse of the ascending one only without ties
  (`Inventory.DescendingList`): hosts that compare equal come in the same order in both
  (`Inventory.TiedHostsKeepOrder`).
- Tags are told apart by name, colon and value, so colons in names make different tags collide
  (`HostTags.ColonCollision`); every set law is stated with the exact condition.
- "Remove all macros except the selected ones" with nothing selected removes nothing
  (`HostMacroEffects.ExceptNothingRemovesNothing`, `HostMacroEffects.RemoveIsRestriction`).
- The user macro API refuses some requests of different macros, depending on their order: a macro without
  context and regular expression may not follow both one with a context and one with a regular
  expression of its name (`HostMacroEffects.OrderDecides`, `HostMacroPlans.DuplicateIs`).
- Variable names of a web scenario are trimmed after empty pairs have been dropped, so an empty pair can
  be sent to the API, which then refuses the whole scenario (`HttpPairs.BlankVariableRefused`).
- CSV preprocessing gets a third parameter on the first save when there are fewer than three, and
  parameters with newlines change on a second save for most types (`PreprocParams.SaveLoadSave`).
- Strings of 2^32 - 1 bytes and more do not fit the length prefix (`Serialize.ReadBackExactly`); one of
  just that length is read back as NULL (`Serialize.LongStringBecomesNull`).
- A SET on a flag that is already set loses the earlier allocation (`AgentResult.SecondSetLosesFirst`,
  `AgentResult.NothingLost`).

## Model

| member | source | states |
|---|---|---|
| Serialize.Prepare | sources/zabbix-5.0.47/include/zbxserialize.h:25-34 | The prepare macros over any list of fields: the 32-bit length they accumulate is the number of bytes the fields will take, modulo 2^32, so it is that number exactly when it fits; every string length counts the terminating NUL (0 for NULL). |
| Serialize.SerializeStr | sources/zabbix-5.0.47/include/zbxserialize.h:46-60 | Writes the length-prefixed string (or four zero bytes for NULL) at the given position, nothing outside that range, and returns the bytes advanced. |
| Serialize.SerializeAll | sources/zabbix-5.0.47/include/zbxserialize.h:36-62 | A sequence of serialize calls writes the fields one after the other; the advances add up to the encoded length and the rest of the buffer keeps its old contents. |
| Serialize.Message | sources/zabbix-5.0.47/src/zabbix_server/alerter/alerter_protocol.c:73-94 | Prepare, allocate, serialize: the message fills its buffer exactly, for every list of fields below 4 GiB. |
| Serialize.U32RoundTrip | sources/zabbix-5.0.47/include/zbxserialize.h:56-56 | A 32-bit length copied into the buffer is read back as the same number. |
| Serialize.DeserializeStr | sources/zabbix-5.0.47/include/zbxserialize.h:81-90 | The copying decoder allocates exactly the counted bytes and a NUL, or gives NULL for length 0, and advances past the string. |
| Serialize.DeserializeStrS | sources/zabbix-5.0.47/include/zbxserialize.h:92-98 | The fixed-buffer decoder writes the counted bytes and a NUL at the start of the caller's buffer, which needs length + 1 bytes, and leaves the rest of it alone. |
| Serialize.DeserializeStrPtr | sources/zabbix-5.0.47/include/zbxserialize.h:100-105 | The zero-copy decoder points behind the length in the message itself, or gives NULL. |
| Serialize.DeserializeBin | sources/zabbix-5.0.47/include/zbxserialize.h:111-117 | The binary decoder copies the length together with the data, so the copy can be read again like the message. |
| Serialize.PointerAgreesWithCopy | sources/zabbix-5.0.47/include/zbxserialize.h:81-105 | On any buffer the zero-copy decoder reads the string of the copying decoder if and only if the length is 0 or a NUL comes no later than right behind the counted bytes. |
| Serialize.FixedAgreesWithCopy | sources/zabbix-5.0.47/include/zbxserialize.h:81-98 | On any buffer the fixed-buffer decoder reads the string of the copying decoder, with NULL turned into the empty string. |
| Serialize.StrReadBack | sources/zabbix-5.0.47/include/zbxserialize.h:52-90 | A string written anywhere in a message is read back with its own length and extent; its text is the original cut to its length modulo 2^32. |
| Serialize.KeptIsOriginal | sources/zabbix-5.0.47/include/zbxserialize.h:25-31 | The text read back is the original exactly when its length with the NUL fits 32 bits. |
| Serialize.DecodersAgree | sources/zabbix-5.0.47/include/zbxserialize.h:81-105 | On a string that was written and fits, all three decoders give the original; only NULL reads as empty in the fixed buffer. |
| Serialize.DeserializeAll | sources/zabbix-5.0.47/src/zabbix_server/alerter/alerter_protocol.c:96-105 | A sequence of deserialize calls reads the fields in order, each where the previous one ended. |
| Serialize.ReadBackExactly | sources/zabbix-5.0.47/include/zbxserialize.h:25-105 | Decoding in order gives back the list of fields, at the offsets at which they were written and ending where they end, if and only if every string fits its length prefix. |
| HostMacros.PlanAddMacro | sources/zabbix-5.0.47/ui/hosts.php:571-583 | ADD, one requested macro against one host: the first macro of the host with that text is updated if the option says so; without one, a macro is added. |
| HostMacros.PlanAdd | sources/zabbix-5.0.47/ui/hosts.php:566-586 | The nested walk of ADD folds that step over hosts and requested macros, in this order. |
| HostMacros.PlanReplaceMacro | sources/zabbix-5.0.47/ui/hosts.php:593-605 | REPLACE, one requested macro against one host: the first macro of the host with that text is updated; without one, a macro is added if the option says so. |
| HostMacros.PlanReplace | sources/zabbix-5.0.47/ui/hosts.php:588-608 | The nested walk of REPLACE folds that step over hosts and requested macros, in this order. |
| HostMacros.PlanRemove | sources/zabbix-5.0.47/ui/hosts.php:610-623 | The walk accumulates the ids to remove for REMOVE with and without "except selected". |
| HostMacroPlans.PlanIs | sources/zabbix-5.0.47/ui/hosts.php:565-608 | Both walks collect, host by host in the order of the request, the macros a host lacks and the updates of those it has, each list under its mode's condition. |
| HostMacroPlans.PlannedIdsOnce | sources/zabbix-5.0.47/ui/hosts.php:574-619 | For any request: no macro id occurs twice among the planned updates if and only if no macro that some host has is requested twice; none ever does among the removals. |
| HostMacroPlans.DuplicateIs | sources/zabbix-5.0.47/ui/include/classes/api/services/CUserMacro.php:833-866 | The one-pass check refuses an entry if and only if an earlier one of its host reads the same, or it has neither context nor regular expression and follows both an entry with a context and one with a regular expression of its name. |
| HostMacroPlans.DuplicateFreeApart | sources/zabbix-5.0.47/ui/include/classes/api/services/CUserMacro.php:833-866 | In a request that passes, no two entries of a host read the same. |
| HostMacroPlans.EntriesDuplicateFree | sources/zabbix-5.0.47/ui/include/classes/api/services/CUserMacro.php:833-866 | The check on the whole planned list passes if and only if it passes on every host's part of it. |
| HostMacroPlans.HostDuplicateFree | sources/zabbix-5.0.47/ui/include/classes/api/services/CUserMacro.php:833-866 | For one host the check on the planned entries amounts to a condition on the requested macros, one by one against those before. |
| HostMacros.Database.MassUpdateMacros | sources/zabbix-5.0.47/ui/hosts.php:654-690 | The lists are sent in the order delete, create, update inside one transaction: after a failure every row is as before. |
| HostMacroEffects.HostGetsWanted | sources/zabbix-5.0.47/ui/hosts.php:564-680 | After an accepted update every selected host has exactly the macros its mode asks for: requested-wins or old-wins merge (ADD), override with or without missing ones (REPLACE), restriction or difference (REMOVE), nothing (REMOVE ALL). |
| HostMacroEffects.OthersUntouched | sources/zabbix-5.0.47/ui/hosts.php:564-680 | Rows of hosts that are not selected are neither changed, added nor removed, and no two macros of a host collide afterwards. |
| HostMacroEffects.SucceedsExactly | sources/zabbix-5.0.47/ui/include/classes/api/services/CUserMacro.php:477-654 | The whole update goes through if and only if it is acceptable for every selected host: it is editable where anything is planned, every planned macro can be parsed and is a text (type 0) or secret (type 1) macro, the API tells the planned macros apart, and no macro to add reads as one the host has. |
| HostMacroEffects.SubmitOkIs | sources/zabbix-5.0.47/ui/include/classes/api/services/CUserMacro.php:477-576 | Create and update both pass if and only if both lists are editable, well-formed and pass the one-pass duplicate check, and no macro to add exists; the updates can then not collide with any macro, not even one just created. |
| HostMacroEffects.AcceptsIs | sources/zabbix-5.0.47/ui/include/classes/api/services/CUserMacro.php:728-756 | For one host, the API's checks on the planned entries amount to the condition on the host's own macros and the request. |
| HostMacroEffects.TakenIs | sources/zabbix-5.0.47/ui/include/classes/api/services/CUserMacro.php:888-973 | A macro to add is refused as existing exactly when it reads as one of the host's own macros. |
| HostMacroEffects.MalformedIsRefused | sources/zabbix-5.0.47/ui/include/classes/api/services/CUserMacro.php:728-744 | A requested text that cannot be parsed makes the update fail. |
| HostMacroEffects.AddedTypes | sources/zabbix-5.0.47/ui/include/classes/api/services/CUserMacro.php:751-756 | A macro to add is accepted with type text (0) or secret (1), and with no other. |
| HostMacroEffects.UpdatedTypes | sources/zabbix-5.0.47/ui/include/classes/api/services/CUserMacro.php:751-756 | So is a macro to update, whatever its type was. |
| HostMacroEffects.OrderDecides | sources/zabbix-5.0.47/ui/include/classes/api/services/CUserMacro.php:838-864 | Three different macros of one name, one with a context, one with a regular expression and one with neither, are refused when the last comes last and accepted when it comes first. |
| HostMacroEffects.AddUpdatingIsUpdateAdding | sources/zabbix-5.0.47/ui/hosts.php:566-608 | The two walks, each by its own loop, collect the same lists for "add, and update existing" and "update, and add missing", so the outcome is the same. |
| HostMacroEffects.RemoveIsRestriction | sources/zabbix-5.0.47/ui/hosts.php:610-623 | REMOVE leaves exactly the meant macros if and only if something is requested, or "except selected" is off, or the host has no macros: an empty request with "except selected" removes nothing. |
| HostMacroEffects.SubmitIs | sources/zabbix-5.0.47/ui/hosts.php:664-680 | After create and update a host has a macro exactly when it was added, or set by an update, or was there and not touched. |
| HostMacroEffects.SubmitValid | sources/zabbix-5.0.47/ui/include/classes/api/services/CUserMacro.php:507-600 | Create and update keep the table free of two macros of one host that the API takes for the same. |
| HostTags.MassUpdateTags | sources/zabbix-5.0.47/ui/hosts.php:534-562 | Every host's tag list becomes the specified update of its old list, with the requested tags made unique first. |
| HostTags.MakeUnique | sources/zabbix-5.0.47/ui/hosts.php:376-382 | Tags keyed by name, colon and value: a later tag replaces an earlier one of the same key in its place. |
| HostTags.RemoveRequested | sources/zabbix-5.0.47/ui/hosts.php:548-560 | The double loop keeps, in order, the tags that equal no requested tag in both name and value. |
| HostTags.UniqueIs | sources/zabbix-5.0.47/ui/hosts.php:376-382 | The unique list has no two tags of one key and holds, for each key, the last tag given with it. |
| HostTags.UniqueKeepsAll | sources/zabbix-5.0.47/ui/hosts.php:376-382 | No tag is lost by making a list unique if and only if no two different tags share a key. |
| HostTags.ColonFreeInjective | sources/zabbix-5.0.47/ui/hosts.php:379-379 | With colon-free names the key determines the tag. |
| HostTags.ColonCollision | sources/zabbix-5.0.47/ui/hosts.php:536-542 | With a colon in a name ADD can push an existing tag out. |
| HostTags.AddIsUnion | sources/zabbix-5.0.47/ui/hosts.php:535-543 | ADD is exactly the union of host and requested tags if and only if nothing is requested or no two of them share a key; it never leaves two tags of one key. |
| HostTags.RemoveIsDifference | sources/zabbix-5.0.47/ui/hosts.php:547-561 | REMOVE drops, for each key, the last tag requested with it, and keeps the order of the rest; it is the exact difference if and only if no tag of the host that is requested is followed among the requested tags by another with its key. |
| HostTags.ReplaceIsRequest | sources/zabbix-5.0.47/ui/hosts.php:544-546 | REPLACE leaves, for each key, the last tag requested with it and nothing of the host's own; it is exactly the request if and only if no two different requested tags share a key. |
| HostTags.NothingRequested | sources/zabbix-5.0.47/ui/hosts.php:534-562 | Without a request ADD and REMOVE change nothing and REPLACE clears the list. |
| HostTags.UpdateTwice | sources/zabbix-5.0.47/ui/hosts.php:534-562 | ADD, REPLACE and REMOVE are idempotent, whatever the keys. |
| HostTags.AddThenRemove | sources/zabbix-5.0.47/ui/hosts.php:534-562 | ADD followed by REMOVE of the same tags equals REMOVE alone if and only if nothing is requested or no two of the host's tags and the requested tags, once these are made unique, share a key. |
| AlertStream.MergedAlerts | sources/zabbix-5.0.47/ui/auditacts.php:105-128 | For any event sources and any limit L, fetching L+1 newest alerts per source, merging, sorting and slicing gives the L+1 newest of all matching alerts. |
| AlertStream.ListIsDescending | sources/zabbix-5.0.47/ui/auditacts.php:124-128 | The list holds as many alerts as match, up to the limit, each once, by strictly descending id, all of the table and of one of the sources. |
| AlertStream.MatchingAre | sources/zabbix-5.0.47/ui/auditacts.php:106-122 | Exactly the alerts of the table whose source and object are among those given compete for the list. |
| AlertStream.ListedAreNewest | sources/zabbix-5.0.47/ui/auditacts.php:124-128 | If a matching alert is not listed, the list is full and every listed alert is newer. |
| AlertStream.MergeStep | sources/zabbix-5.0.47/ui/auditacts.php:106-122 | The loop invariant: appending one more truncated stream keeps the first L+1 of the merged alerts equal to the first L+1 of all alerts of the sources so far. |
| GraphOrder.RepairSortOrder | sources/zabbix-5.0.47/ui/graphs.php:668-685 | The nested in-place loops change sort orders as specified and no item's identity. |
| GraphOrder.BumpSortOrders | sources/zabbix-5.0.47/ui/graphs.php:678-682 | The inner loop changes sort orders as specified and no item's identity. |
| GraphOrder.RepairedIsLeast | sources/zabbix-5.0.47/ui/graphs.php:668-685 | On any sort orders the loops never go above the least strictly increasing orders at or above the given ones; they reach them, and any strictly increasing orders at all, if and only if no order's gap to its least one exceeds all gaps before it by more than one. |
| GraphOrder.RepairedIsLeastIncreasing | sources/zabbix-5.0.47/ui/graphs.php:668-685 | On non-decreasing sort orders the loops compute the least strictly increasing orders at or above the given ones. |
| GraphOrder.LeastIncreasingIsLeast | sources/zabbix-5.0.47/ui/graphs.php:668-685 | The reference is strictly increasing, at or above the input, and below every other such sequence. |
| GraphOrder.RepairedNeighboursDiffer | sources/zabbix-5.0.47/ui/graphs.php:668-685 | On any sort orders neighbours end up different, the first is unchanged and item k rises by at most k. |
| GraphOrder.RepairedIsFixpoint | sources/zabbix-5.0.47/ui/graphs.php:668-685 | The repair changes nothing exactly when no two neighbours are equal, so a second repair never changes anything. |
| GraphOrder.ShownIsSorted | sources/zabbix-5.0.47/ui/graphs.php:686-687 | The form shows the graph's items in the order of their sort orders. |
| GraphOrder.ShownAfterRepair | sources/zabbix-5.0.47/ui/graphs.php:686-687 | The form shows the items in the order they came, with no sort order twice, if and only if that same condition on the gaps holds. |
| GraphOrder.OutOfOrderKeepsDuplicate | sources/zabbix-5.0.47/ui/graphs.php:566-572 | The items are fetched by gitemid, so the input need not be in order: 1, 2, 1 keeps its duplicate through repair and sort. |
| GraphOrder.OutOfOrderRepaired | sources/zabbix-5.0.47/ui/graphs.php:668-685 | Order is not needed for the repair to succeed: 0, 0, 5, 4 becomes 0, 1, 5, 6. |
| HttpPairs.Load | sources/zabbix-5.0.47/ui/httpconf.php:581-649 | Loading fills the form's pairs of the scenario and of every step as specified, with one running id. |
| HttpPairs.Save | sources/zabbix-5.0.47/ui/httpconf.php:211-290 | Saving turns the form's pairs back into the lists of the scenario and of every step. |
| HttpPairs.SaveOfLoad | sources/zabbix-5.0.47/ui/httpconf.php:211-290 | For any scenario, saving the loaded form gives every list its filled pairs in order, variables in name order with trimmed names, raw posts as they are, and steps renumbered in their order. |
| HttpPairs.UntouchedFormKeepsScenario | sources/zabbix-5.0.47/ui/httpconf.php:581-649 | Saving an untouched form gives the scenario back if and only if no pair is empty, variables are in name order with trimmed names, and steps are numbered 1, 2, ... |
| HttpPairs.VariablesAccepted | sources/zabbix-5.0.47/ui/include/classes/validators/CApiInputValidator.php:1748-1768 | The API accepts the variable names sent for a form if and only if every filled variable has, after trimming, a name in braces, of at most 255 characters, that no other one has. |
| HttpPairs.BlankVariableRefused | sources/zabbix-5.0.47/ui/httpconf.php:228-244 | A variable with a blank, non-empty name counts as filled because names are trimmed after that test: an empty pair is sent exactly when such a variable has no value, and the API then refuses the scenario. |
| HttpPairs.LoadedIds | sources/zabbix-5.0.47/ui/httpconf.php:582-649 | Pair ids are unique across the scenario and all its steps: in order they are 1, 2, 3, ... |
| HttpPairs.SelectIs | sources/zabbix-5.0.47/ui/httpconf.php:226-237 | A saved list holds exactly the filled pairs of its type, missing keys read as empty. |
| HttpPairs.SavedFieldIs | sources/zabbix-5.0.47/ui/httpconf.php:226-237 | A saved list holds exactly the pairs of its type that have a name or a value, missing ones read as empty. |
| HttpPairs.ScenarioShown | sources/zabbix-5.0.47/ui/httpconf.php:585-601 | The form shows the scenario's headers as they are, then its variables in the order of their names, each pair with its type. |
| HttpPairs.StepsShown | sources/zabbix-5.0.47/ui/httpconf.php:614-615 | The form shows all steps, by their number. |
| HttpPairs.StepShown | sources/zabbix-5.0.47/ui/httpconf.php:617-648 | A step shows its headers, its variables in name order, its query fields and, if it posts a form, its post fields, in this order and with their types; a raw post stays text. |
| HttpPairs.VariableNameIs | sources/zabbix-5.0.47/ui/include/classes/validators/CApiInputValidator.php:1748-1761 | A variable name is a non-empty text without braces, in braces, of at most 255 characters in all; a newline may follow. |
| HttpPairs.NormalVariablesIs | sources/zabbix-5.0.47/ui/httpconf.php:590-590 | Sorting, dropping empty pairs and trimming keep a variable list exactly when it is filled, sorted and trimmed. |
| PreprocParams.SavePreprocessing | sources/zabbix-5.0.47/ui/items.php:560-614 | Every step of the list is saved in place by its type's rule, with defaults for missing error handling; other steps are untouched by each iteration. |
| PreprocParams.LoadPreprocessing | sources/zabbix-5.0.47/ui/items.php:1405-1413 | Every step's stored string is turned into the form's parameter list: scripts whole, all others by lines. |
| PreprocParams.ImplodeExplode | sources/zabbix-5.0.47/ui/items.php:1410-1410 | Joining the lines of a string gives the string back, and no line holds a newline. |
| PreprocParams.ExplodeImplode | sources/zabbix-5.0.47/ui/items.php:588-594 | Splitting a joined list gives it back if and only if it has an entry and no entry holds a newline. |
| PreprocParams.LoadThenSave | sources/zabbix-5.0.47/ui/items.php:1405-1413 | Loading any stored string and saving it gives it back if and only if it is canonical for its type (one line, trimmed lines, three CSV lines, ...). |
| PreprocParams.SaveLoadSave | sources/zabbix-5.0.47/ui/items.php:1069-1126 | For every type and any parameters: saving, loading and saving again gives the first stored string if and only if the stated condition on the parameters holds. |
| PreprocParams.SaveThenLoad | sources/zabbix-5.0.47/ui/items.php:1405-1413 | For newline-free parameters the form shows after a save: the first one (trimmed for multiplier and Prometheus to JSON), all of them (trimmed for range and Prometheus pattern), CSV's with a third one, a script with an empty second. |
| PreprocParams.ScriptKept | sources/zabbix-5.0.47/ui/items.php:577-579 | A script is stored and shown whole, newlines included. |
| PreprocParams.HandlersKept | sources/zabbix-5.0.47/ui/items.php:609-612 | Error handling given with a step is kept; without it a step gets the default 0 and no parameters. |
| Strings.TrimIs | sources/zabbix-5.0.47/ui/items.php:566-566 | Trimming takes off blanks at both ends, all of them and nothing else; blanks are space, tab, newline, carriage return, NUL and vertical tab. |
| PreprocParams.OneLineRequestsSurvive | sources/zabbix-5.0.47/ui/items.php:560-614 | Newline-free parameters survive for every type, CSV with its first two parameters. |
| PreprocParams.CountLines | sources/zabbix-5.0.47/ui/items.php:588-594 | A joined list has as many lines as its entries together. |
| FormulaIds.CompareIsValue | sources/zabbix-5.0.47/ui/include/classes/helpers/CConditionHelper.php:187-197 | Comparing formula ids compares their numbers, and different ids have different numbers. |
| FormulaIds.NextIsSuccessor | sources/zabbix-5.0.47/ui/include/classes/helpers/CConditionHelper.php:215-227 | The next id after any id is numbered one higher, through Z, ZZ and so on. |
| FormulaIds.NextIsNew | sources/zabbix-5.0.47/ui/include/classes/helpers/CConditionHelper.php:206-233 | The id handed out is numbered above every id in use, so it is never in use. |
| Conditions.ExtendIds | sources/zabbix-5.0.47/ui/correlation.php:239-254 | Appending conditions one by one keeps formula ids pairwise distinct. |
| Conditions.ExtendKeys | sources/zabbix-5.0.47/ui/actionconf.php:236-245 | Appending new keys leaves no key twice if and only if the request does not repeat itself. |
| Conditions.ExtendAt | sources/zabbix-5.0.47/ui/actionconf.php:237-245 | Each appended condition has the requested key of its place, the request's operator and the formula id next to those before it. |
| Correlation.CorrelationForm.RemoveKnown | sources/zabbix-5.0.47/ui/correlation.php:173-217 | The pass over the existing conditions leaves of the new condition exactly what no condition of its type says already. |
| Correlation.CorrelationForm.AddGroups | sources/zabbix-5.0.47/ui/correlation.php:239-254 | One condition per valid group id is appended, in order, each with the next free formula id. |
| Correlation.CorrelationForm.AddCondition | sources/zabbix-5.0.47/ui/correlation.php:162-290 | The branch as a whole turns the condition list into the specified one. |
| Correlation.AddedOnce | sources/zabbix-5.0.47/ui/correlation.php:173-289 | One request keeps the earlier conditions in front and ids distinct; a key is there afterwards exactly when it was there or is requested and valid; no key is there twice exactly when no fresh key is requested twice. |
| Correlation.AddedConditions | sources/zabbix-5.0.47/ui/correlation.php:219-289 | Every condition added has the request's operator and one of its keys, and the next formula id. |
| Correlation.GroupsAdded | sources/zabbix-5.0.47/ui/correlation.php:233-257 | After a request for groups there is a condition for a group exactly when there was one or the group is requested and its id is not zero. |
| Correlation.GroupsInOrder | sources/zabbix-5.0.47/ui/correlation.php:239-254 | New groups are appended in the order requested. |
| Correlation.TagsAdded | sources/zabbix-5.0.47/ui/correlation.php:220-287 | A tag condition is added exactly when none of its tags is empty, both tags for a pair; the value may be empty. |
| Correlation.RunInvariant | sources/zabbix-5.0.47/ui/correlation.php:162-290 | Over every run of requests: ids distinct, earlier conditions an unchanged prefix, every valid requested key present, and no key twice when no request repeats itself. |
| Correlation.RunKeepsKeysApart | sources/zabbix-5.0.47/ui/correlation.php:162-290 | Over every run, no key is there twice if and only if no request names a valid key twice that is neither there at the start nor in an earlier request. |
| Correlation.KnownAfterRun | sources/zabbix-5.0.47/ui/correlation.php:162-290 | After a run a key is there exactly when it was there or is valid and was requested. |
| Correlation.GroupsLeft | sources/zabbix-5.0.47/ui/correlation.php:188-198 | Unsetting group ids condition by condition leaves exactly the ids no condition has. |
| ActionConditions.ActionForm.RemoveTaken | sources/zabbix-5.0.47/ui/actionconf.php:215-232 | The pass leaves exactly the requested values that no condition of the type has. |
| ActionConditions.ActionForm.AddCondition | sources/zabbix-5.0.47/ui/actionconf.php:204-248 | The branch as a whole turns the condition list into the specified one. |
| ActionConditions.AddedOnce | sources/zabbix-5.0.47/ui/actionconf.php:207-247 | One request keeps the earlier conditions in front and ids distinct; every requested value is answered; no key is there twice exactly when no new value is requested twice. |
| ActionConditions.AddedConditions | sources/zabbix-5.0.47/ui/actionconf.php:238-244 | Every condition added has the operator, type and second value of the request, and the next formula id. |
| ActionConditions.ScalarAdded | sources/zabbix-5.0.47/ui/actionconf.php:210-232 | For a single value one condition is appended, unless one of the type has the value and, if the request gives one, the second value; a request for suppressed problems (type 16) has the empty value. |
| ActionConditions.ListAdded | sources/zabbix-5.0.47/ui/actionconf.php:218-224 | Of a list, a condition is added for exactly the values that no condition of the type has; second values are not compared. |
| ActionConditions.ListInOrder | sources/zabbix-5.0.47/ui/actionconf.php:237-245 | Values that are all new are appended in the order requested. |
| ActionConditions.RunInvariant | sources/zabbix-5.0.47/ui/actionconf.php:204-248 | The same over every run of requests. |
| ActionConditions.RunKeepsKeysApart | sources/zabbix-5.0.47/ui/actionconf.php:204-248 | Over every run, no key is there twice if and only if no request names a value twice that is new at that point. |
| ActionOperations.OperationsForm.AddOperation | sources/zabbix-5.0.47/ui/actionconf.php:250-300 | A request is accepted exactly when it is valid and does not repeat one of the five unique types; a refused one leaves the list as it is. |
| ActionOperations.StepKeepsUnique | sources/zabbix-5.0.47/ui/actionconf.php:262-297 | An accepted unique operation occurs exactly once afterwards; an addition changes no other type's number; keys stay distinct. |
| ActionOperations.RefusedIs | sources/zabbix-5.0.47/ui/actionconf.php:262-286 | A request is refused exactly when it is invalid, or of type 2, 3, 8, 9 or 10 and another entry than the edited one has that type. |
| ActionOperations.StepIs | sources/zabbix-5.0.47/ui/actionconf.php:288-297 | An accepted operation takes the place of the edited one or is added, no other is lost, and the list is sorted: by escalation with keys 0, 1, 2, ... for triggers and internal events, by type otherwise. |
| ActionOperations.KeysKept | sources/zabbix-5.0.47/ui/include/actions.inc.php:1100-1102 | Where keys are kept, every other entry stays under its key, an edited one too, and a new one gets a key above all. |
| ActionOperations.RunKeepsUnique | sources/zabbix-5.0.47/ui/actionconf.php:250-300 | Over every run of additions and edits each of the five types occurs at most once. |
| ActionOperations.PlacedCount | sources/zabbix-5.0.47/ui/actionconf.php:288-294 | An edit replaces one operation, an addition adds one: how the number of operations of each type changes. |
| ActionOperations.SortKeeps | sources/zabbix-5.0.47/ui/include/actions.inc.php:1079-1103 | Sorting keeps the number of operations of every type, and keys distinct, for both ways of sorting. |
| ItemMassUpdate.NextValues | sources/zabbix-5.0.47/ui/items.php:1142-1170 | What the shared record holds for one item, whatever the previous item left in it. |
| ItemMassUpdate.CollectUpdates | sources/zabbix-5.0.47/ui/items.php:1131-1182 | The loop over the selected items with its one mutated record collects updates that reach what is meant. |
| ItemMassUpdate.MassUpdate | sources/zabbix-5.0.47/ui/items.php:1131-1197 | Every selected item becomes what is meant for it, whatever the other selected items are and in whatever order they come; all other items stay. |
| ItemMassUpdate.NormalItemGets | sources/zabbix-5.0.47/ui/items.php:1184-1193 | A normal item gets every requested value, except the JMX endpoint unless its type, the requested one if there is one, is 16; all other fields stay. |
| ItemMassUpdate.DiscoveredItemGets | sources/zabbix-5.0.47/ui/items.php:1133-1179 | An item made by discovery gets the requested status and nothing else. |
| ItemMassUpdate.ApplicationsKept | sources/zabbix-5.0.47/ui/items.php:1142-1170 | An invisible application list, and an empty request to add or remove, leave the list as it is; a changed list has no id twice. |
| ItemMassUpdate.ApplicationsAsSets | sources/zabbix-5.0.47/ui/items.php:1142-1170 | ADD is union, REPLACE replacement, REMOVE difference; an empty request changes nothing for ADD and REMOVE. |
| Subfilters.Rate | sources/zabbix-5.0.47/ui/items.php:1895-1931 | The twelve subfilters of an item, evaluated one by one, are all true exactly when the item passes each of them. |
| Subfilters.PassesIs | sources/zabbix-5.0.47/ui/items.php:1895-1931 | What each of the twelve subfilters asks of an item: host, type, value type, status, state, inheritance, discovery, triggers, history, trends, interval and applications. |
| Subfilters.AtLeastOne | sources/zabbix-5.0.47/ui/items.php:1948-1960 | The scan finds a passing item exactly when there is one; an empty list counts as fine. |
| Subfilters.SwitchOff | sources/zabbix-5.0.47/ui/items.php:1961-1971 | Switching off empties every subfilter of the request and makes every item pass. |
| Subfilters.Show | sources/zabbix-5.0.47/ui/items.php:1895-1983 | The list is always what the kept request selects, never empty when there are items, and the request changes only when it would select nothing. |
| Subfilters.PassingIs | sources/zabbix-5.0.47/ui/items.php:1975-1983 | Removing items one by one keeps exactly those that pass, and all of them exactly when all pass. |
| Inventory.ListHosts | sources/zabbix-5.0.47/ui/hostinventories.php:217-258 | For both directions the list holds the first hosts of the sorted filtered hosts up to the limit; the descending list is the ascending one reversed if and only if no two of them compare equal. |
| Inventory.FilteredIs | sources/zabbix-5.0.47/ui/hostinventories.php:217-228 | The list is filtered only for an exact match on a non-empty value, and then keeps the hosts whose value equals it in any letter case. |
| Inventory.AscendingIsFirst | sources/zabbix-5.0.47/ui/hostinventories.php:247-252 | The ascending list holds as many hosts as there are, up to the limit, each once and in order; a host left out comes before none that is listed. |
| Inventory.DescendingOrder | sources/zabbix-5.0.47/ui/hostinventories.php:247-258 | The descending list runs from the last to the first of the order, and hosts that compare equal come as in the ascending list, which fixes it. |
| Inventory.DescendingList | sources/zabbix-5.0.47/ui/hostinventories.php:247-258 | Sort, cut from the end, sort again: exactly the hosts of the ascending list, reversed if and only if there are no ties. |
| Inventory.TiedHostsKeepOrder | sources/zabbix-5.0.47/ui/hostinventories.php:247-258 | Two hosts that compare equal come in the same order in both lists. |
| Inventory.ResortReversed | sources/zabbix-5.0.47/ui/include/func.inc.php:958-991 | Sorting a reversed sorted list and reversing again gives the reversed list if and only if there are no ties. |
| Inventory.ExactMatchesDistinct | sources/zabbix-5.0.47/ui/hostinventories.php:217-228 | The exact filter keeps exactly the hosts whose value equals the needle in any letter case, each once. |
| Inventory.Overview | sources/zabbix-5.0.47/ui/hostinventoriesoverview.php:100-115 | Each value, in any letter case, has one row with its first spelling; the row's count is the number of hosts its drill-down filter keeps on the same hosts; the counts add up to the hosts with a value. |
| Inventory.RowStep | sources/zabbix-5.0.47/ui/hostinventoriesoverview.php:107-115 | What one more host does to a row keeps its count equal to the drill-down. |
| AgentResult.Result.SetLogResult | sources/zabbix-5.0.47/include/module.h:142-146 | Sets the log flag and the newly allocated record; the earlier record, if any, is not freed. |
| AgentResult.Result.UnsetLog | sources/zabbix-5.0.47/include/sysinfo.h:82-93 | Frees source, value and record in this order, each only while it is live, and clears field and flag; nothing happens on a clear flag. |
| AgentResult.Result.UnsetResultExcluding | sources/zabbix-5.0.47/include/sysinfo.h:108-119 | Every free meets live memory only, and the result is the specified one, with flags and ownership still consistent. |
| AgentResult.Result.GetLog | sources/zabbix-5.0.47/src/libs/zbxsysinfo/sysinfo.c:1419-1446 | The log record is allocated only while its field is NULL, from any other value, and is returned exactly when the flag is set afterwards. |
| AgentResult.Result.GetStr | sources/zabbix-5.0.47/src/libs/zbxsysinfo/sysinfo.c:1356-1389 | The string is allocated only when its flag is clear, and returned exactly when the flag is set afterwards. |
| AgentResult.ExcludingFlags | sources/zabbix-5.0.47/include/sysinfo.h:108-119 | Of the flags exactly the excluded ones and AR_META remain. |
| AgentResult.ExcludingFrees | sources/zabbix-5.0.47/include/sysinfo.h:108-119 | Exactly the allocations of the dropped types are freed, in the order of the macro. |
| AgentResult.ExcludingHeld | sources/zabbix-5.0.47/include/sysinfo.h:108-119 | An excluded type keeps its allocations, every other type owns nothing afterwards. |
| AgentResult.DroppedOnce | sources/zabbix-5.0.47/include/sysinfo.h:58-119 | Each dropped allocation is freed once, and none of them had been freed before. |
| AgentResult.NumbersDropped | sources/zabbix-5.0.47/include/sysinfo.h:40-56 | A number that is not excluded becomes zero, set or not; an excluded one keeps its value. |
| AgentResult.AllDropped | sources/zabbix-5.0.47/src/libs/zbxsysinfo/sysinfo.c:774-794 | What free_result gives back, in order: string, text, the log's source, value and record, message. |
| AgentResult.ExcludingTwice | sources/zabbix-5.0.47/include/sysinfo.h:108-119 | A second call frees nothing and changes no flag. |
| AgentResult.RunAccounts | sources/zabbix-5.0.47/include/module.h:115-153 | Over every run of SET, UNSET and GET: a pointer flag is set exactly when its field points to something, and every allocation made is, exactly once, freed, owned under a set flag, or overwritten by a SET on a set flag. |
| AgentResult.NothingLost | sources/zabbix-5.0.47/include/module.h:127-153 | No allocation is lost over a run if and only if every SET on a pointer type starts from a clear flag. |
| AgentResult.FreedAtTheEnd | sources/zabbix-5.0.47/src/libs/zbxsysinfo/sysinfo.c:786-794 | If every SET starts from a clear flag, free_result at the end leaves every allocation of the run freed exactly once. |
| AgentResult.RunHoldsLive | sources/zabbix-5.0.47/include/sysinfo.h:58-104 | At any time of a run, what a flag holds was allocated, is not freed and is owned once. |
| AgentResult.GetAccounts | sources/zabbix-5.0.47/src/libs/zbxsysinfo/sysinfo.c:1274-1446 | Fetching a value in another type never loses or frees an allocation. |
| AgentResult.Fetchable | sources/zabbix-5.0.47/src/libs/zbxsysinfo/sysinfo.c:1356-1446 | A log record can be fetched exactly from a number, a double, a string, a text or a log record; a string or a text exactly from the same but a log record; a message only from a message. |
| AgentResult.WholeFetched | sources/zabbix-5.0.47/src/libs/zbxsysinfo/sysinfo.c:1274-1314 | A whole number can be fetched exactly from a whole number, a double, or a string or text that parses as one; the value stored is the number, its cast or the parsed value, in this order of preference. |
| AgentResult.DoubleFetched | sources/zabbix-5.0.47/src/libs/zbxsysinfo/sysinfo.c:1316-1354 | The same for a double. |
| AgentResult.NumberSet | sources/zabbix-5.0.47/include/module.h:115-125 | Setting a number sets its flag and its value and nothing else. |
| AgentResult.LogFetched | sources/zabbix-5.0.47/src/libs/zbxsysinfo/sysinfo.c:1424-1442 | A log record made from another value is a new allocation with a value of its own and no source. |
| AgentResult.GetKeepsOthers | sources/zabbix-5.0.47/src/libs/zbxsysinfo/sysinfo.c:1274-1446 | Fetching one type leaves the flags and allocations of all others alone. |

## Left out

What is abstract or bounded in the modelled parts:

- Numbers in a message are in little-endian byte order, that of the usual hosts; doubles are eight opaque
  bytes, and the values of a field are its bytes.
- Serialize.Message: the caller's requirement that the message stays below 4 GiB is a precondition, since
  the length variable wraps and the buffer would be too small otherwise.
- Serialize.DecodersAgree: text fields are C strings, so a string to be written holds no NUL.
- HostMacroEffects.SucceedsExactly: the parser of macro texts (CUserMacroParser) is a parameter that says
  whether a text can be parsed, and its name and context or regular expression. Every macro in the table
  can be parsed, as the API admits no others.
- HostMacros.Database.MassUpdateMacros: a macro is its text, its type and an opaque rest (value and
  description), all of which the form sends; the surrounding host update (groups, templates, inventory,
  TLS, tags) is assumed to succeed, its failure only rolls everything back. Discovered hosts enter as
  hosts that are not editable.
- Conditions.ExtendIds: ids already in use are formula ids, that is, non-empty strings of the letters A
  to Z, as the form produces them.
- ActionConditions.AddedOnce: PHP's loose equality of values is an equivalence given as a parameter.
- ActionOperations.OperationsForm.AddOperation: the verdict of the API's validation and the order by
  escalation steps, period and type are parameters; an operation is its type and an opaque rest.
- Inventory.DescendingList: natural, case-insensitive order is an abstract order, sorting is stable (as
  in PHP 8), and the sort field is present in every host, as the page requests it; order_result returns
  early otherwise.
- Inventory.Overview: mb_strtolower is abstract and never makes a value empty. The final sort of the
  report is left out.
- HttpPairs.VariablesAccepted: of the API's validation of a scenario only that of variable names is
  modelled; a list that did not change is not sent when a scenario is updated.
- HttpPairs.SaveOfLoad: the natural order of variable names is abstract. Other columns of scenarios and
  steps, and the cleaning of inherited ids, are not part of the model.
- PreprocParams.SavePreprocessing: the parameters of a step are keyed 0, 1, 2, ... without gaps.
- ItemMassUpdate.MassUpdate: creating new applications is not modelled, their ids are among the
  requested ones; fields other than the applications and the JMX endpoint are opaque.
- Subfilters.Show: values are compared as strings, and units of intervals, history and trends come as
  the page shows them.
- AgentResult.Result.UnsetResultExcluding: the type is a set of AR_* flags rather than the bits of an
  integer; an allocation is numbered, so addresses that the allocator reuses count as new ones, and the
  value given to a pointer SET is a new allocation, as the header demands.
- AgentResult.GetAccounts: what a conversion to a number yields is a parameter, and the contents of
  strings are not modelled, including the trimming done in place before parsing.

What is not modelled at all:

- Containers, allocators, caches, JSON, sockets and other server code that the headers only declare.
- Request validation, permissions, paging, profiles, translation and rendering in the frontend.
- The mass update of item prototypes, whose shared record behaves differently from the item one.
- Removing empty host interfaces on a full host update.
- The editors of recovery and update operations.
- Macro clearing with secret values, and macro inheritance and resolution.
- Image drawing, charts and login pages.
