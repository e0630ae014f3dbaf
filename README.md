# ACL discovery and the installation history of the AC Tool

This project models two pieces of the Netcentric Access Control Tool for
Adobe AEM / Apache Jackrabbit Oak, and proves properties of the model.

**`QueryHelper`** finds the access-control lists stored in a JCR repository.
- `getRepPolicyNodes` does the discovery in four steps:
  - it collects the root's children, except authorizable folders and excluded paths, into a `TreeSet`;
  - it adds the three special policy nodes that exist to a `LinkedHashSet`;
  - it picks one query template, by whether the `rep:ACL` index exists;
  - it queries once per candidate path, skipping the two root-level policy paths.
- Without the index, it de-duplicates the entry rows to their parent ACL nodes (`getDistinctParentNodes`).
- `getAuthorizablesAcls` looks up the ACLs of a set of authorizables. It issues one statement per batch of at most 100 ids; `getAuthorizablesQueryStringBuilder` builds each batch's predicate. It then turns every entry node into an `AclBean` with `buildAclBeansFromNodeSet`. A repository-level policy node has no parent path and the jcr path `"/" + REPO_POLICY_NODE`. The principal of every entry is recorded in the caller's set, even when the entry is skipped.

**`AcInstallationHistoryPojo`** is the audit log of one installation run.
- It holds four categories of entries: warnings, messages, exceptions and verbose messages.
- A shared counter gives every entry the next sequence number.
- A `success` flag is cleared by `setException` and set by `setSuccess`.
- Read-only renderers merge the categories and print one line per entry. In the model the merge is by sequence number; the comparator is assumed to order so. `toString` frames that history with the installation date, the execution time and a green or red success banner.

Files, one module each (`wrappers.dfy` holds two):
- `wrappers.dfy` (`Wrappers`, `Exceptions`): `Option` stands for a Java `null`, `Result` for a thrown exception, and `Error` lists the Java exceptions the core throws.
- `jcr.dfy` (`Jcr`): the repository session as a value.
  - A map from node path to name, parent and `rep:principalName`.
  - The outcome of enumerating the root's children.
  - The query engine and `AccessControlManager.getPolicies`, as given functions.
  - The paths at which `nodeExists` throws, and whether `getAccessControlManager()` throws.
- `string_order.dfy` (`StringOrder`): `String.compareTo` as the lexicographic order of UTF-16 code units, with `TreeSet<String>` as a strictly ascending sequence.
- `collections.dfy` (`Collections`): `LinkedHashSet` as a duplicate-free sequence filled in place. A `TreeSet` under an unseen comparator drops the later of two equivalent elements.
- `query_helper.dfy` (`QueryHelper`): the loops of `QueryHelper` as methods. Each is proved against a specification function of the session and its inputs; the properties are lemmas about those functions.
- `installation_history.dfy` (`InstallationHistory`): the class `AcInstallationHistoryPojo`, with its fields and methods, and the renderers proved against `Chronological` and `Lines`.

The code does not recover from these failures:
- If enumerating the root's children fails, `nodeIt` stays `null` and the loop throws a `NullPointerException` (`QueryHelper.java:56-64`).
- A non-folder child whose `getPath` failed is added to the `TreeSet` as `null`, which also throws (`QueryHelper.java:65-76`).
- "Exceptions recorded implies not successful" is not an invariant of the class. `setSuccess(true)` after `setException` breaks it; `InstallationHistory.ExceptionThenSuccess` exhibits this.

## Model

| member | source | states |
|---|---|---|
| Jcr.ParentOf | accesscontroltool-bundle/src/main/java/biz/netcentric/cq/tools/actool/helper/QueryHelper.java:139 | `getParent()` succeeds exactly for an existing node that has a parent; otherwise it is an `ItemNotFoundException` |
| Jcr.NameOf | accesscontroltool-bundle/src/main/java/biz/netcentric/cq/tools/actool/helper/QueryHelper.java:215 | `getName()` succeeds exactly for an existing node |
| Jcr.PrincipalNameOf | accesscontroltool-bundle/src/main/java/biz/netcentric/cq/tools/actool/helper/QueryHelper.java:209 | reading `rep:principalName` succeeds exactly when the node exists and has that property |
| Jcr.NodeExists | accesscontroltool-bundle/src/main/java/biz/netcentric/cq/tools/actool/helper/QueryHelper.java:86-98 | `session.nodeExists(p)` throws exactly at the paths where the lookup fails, and otherwise answers whether a node is at `p` |
| StringOrder.Less | accesscontroltool-bundle/src/main/java/biz/netcentric/cq/tools/actool/helper/QueryHelper.java:63 | the order of `TreeSet<String>` is `String.compareTo`: the first differing UTF-16 code unit decides, and otherwise the shorter string comes first |
| StringOrder.Utf16Injective | accesscontroltool-bundle/src/main/java/biz/netcentric/cq/tools/actool/helper/QueryHelper.java:63 | different strings have different UTF-16 code units, so comparing code units loses no distinction between strings |
| StringOrder.LessTotal | accesscontroltool-bundle/src/main/java/biz/netcentric/cq/tools/actool/helper/QueryHelper.java:63 | of two different strings one is below the other, so the `TreeSet` ordering is total |
| StringOrder.SupplementaryBeforeHighBmp | accesscontroltool-bundle/src/main/java/biz/netcentric/cq/tools/actool/helper/QueryHelper.java:63 | a string with a character above U+FFFF sorts before one with U+FFFF at that place, because the first unit of a surrogate pair is below 0xE000 |
| StringOrder.Insert | accesscontroltool-bundle/src/main/java/biz/netcentric/cq/tools/actool/helper/QueryHelper.java:63-76 | `TreeSet<String>.add` keeps the set strictly ascending. It holds exactly the old elements plus the new one, is unchanged when that one was present, and grows by one otherwise |
| StringOrder.SortedUnique | accesscontroltool-bundle/src/main/java/biz/netcentric/cq/tools/actool/helper/QueryHelper.java:63 | two strictly ascending sequences with the same elements are equal, so the `TreeSet`'s iteration order is determined by its contents |
| Collections.AddIfAbsent | accesscontroltool-bundle/src/main/java/biz/netcentric/cq/tools/actool/helper/QueryHelper.java:86-95 | `LinkedHashSet.add` keeps the set duplicate-free and keeps the earlier elements in place. The elements are the old ones plus the new one |
| Collections.AppendAll | accesscontroltool-bundle/src/main/java/biz/netcentric/cq/tools/actool/helper/QueryHelper.java:117 | `LinkedHashSet.addAll(HashSet)`, whatever order the `HashSet` yields, keeps the set duplicate-free and keeps the old contents as a prefix. The elements are the union |
| Collections.Dedup | accesscontroltool-bundle/src/main/java/biz/netcentric/cq/tools/actool/helper/QueryHelper.java:207-234 | filling a `TreeSet` keeps no two equivalent beans and only beans that were added. Every bean added is kept or has an equivalent kept. The set is never larger than the input |
| QueryHelper.CollectCandidatePaths | accesscontroltool-bundle/src/main/java/biz/netcentric/cq/tools/actool/helper/QueryHelper.java:56-82 | The candidate list is strictly ascending. A path is in it iff some root child has that path, lacks `rep:AuthorizableFolder` and is not excluded. The call throws a `NullPointerException` iff some non-folder child's path is `null` |
| QueryHelper.SpecialNodes | accesscontroltool-bundle/src/main/java/biz/netcentric/cq/tools/actool/helper/QueryHelper.java:86-96 | The special nodes are found iff none of the three `nodeExists` checks throws; otherwise the outcome is the exception of one that did. When found, they are duplicate-free, and a path is among them iff it is one of the three special policy paths and exists |
| QueryHelper.StatementForInjective | accesscontroltool-bundle/src/main/java/biz/netcentric/cq/tools/actool/helper/QueryHelper.java:98-110 | the statement issued for a path identifies both the path and the template, so with the index the `rep:ACL` query is used and without it the `rep:ACE` query, each with the path substituted |
| QueryHelper.GetNodes | accesscontroltool-bundle/src/main/java/biz/netcentric/cq/tools/actool/helper/QueryHelper.java:149-164 | draining the result iterator gives the set of all result rows, or the query's `RepositoryException` |
| QueryHelper.GetNodesXPath | accesscontroltool-bundle/src/main/java/biz/netcentric/cq/tools/actool/helper/QueryHelper.java:126-131 | the XPath overload is the general query in the XPath language |
| QueryHelper.GetDistinctParentNodes | accesscontroltool-bundle/src/main/java/biz/netcentric/cq/tools/actool/helper/QueryHelper.java:134-143 | the loop over the rows gives `DistinctParents`: the set of the rows' parents, or the first exception |
| QueryHelper.DistinctParentsNoLarger | accesscontroltool-bundle/src/main/java/biz/netcentric/cq/tools/actool/helper/QueryHelper.java:138-140 | the set of parents of a set of rows is no larger than the set of rows |
| QueryHelper.DistinctParentsSpec | accesscontroltool-bundle/src/main/java/biz/netcentric/cq/tools/actool/helper/QueryHelper.java:134-143 | `getDistinctParentNodes` returns exactly the parents of the result rows and never more nodes than rows. N entries under one ACL yield that one ACL node, and a failing query propagates unchanged |
| QueryHelper.DiscoveredFailureSticks | accesscontroltool-bundle/src/main/java/biz/netcentric/cq/tools/actool/helper/QueryHelper.java:105-121 | once a per-path query has failed, later paths change nothing; the failure is the outcome |
| QueryHelper.DiscoveredContents | accesscontroltool-bundle/src/main/java/biz/netcentric/cq/tools/actool/helper/QueryHelper.java:105-121 | the per-path loop completes iff the query of every path it does not skip succeeds, and then it has found exactly the nodes of all those queries |
| QueryHelper.QueryCandidatePaths | accesscontroltool-bundle/src/main/java/biz/netcentric/cq/tools/actool/helper/QueryHelper.java:98-118 | A failing `nodeExists` on the index path ends the phase with that exception and no statement. Otherwise the candidate paths are walked in order, and the two root-level policy paths issue no statement. On success the statements issued are exactly `IssuedStatements`, and the result keeps the nodes already collected as a prefix, stays duplicate-free, and is their union with every per-path result. A failing query ends the loop with that exception; the statements issued are then `IssuedStatements` of the candidates up to and including the failing path, which is not skipped, and every query before it succeeded |
| QueryHelper.GetRepPolicyNodes | accesscontroltool-bundle/src/main/java/biz/netcentric/cq/tools/actool/helper/QueryHelper.java:54-123 | Without a root enumeration, a `NullPointerException` and no statement issued; a failing index lookup also issues no statement. Otherwise the candidates are strictly ascending and are exactly the non-folder, non-excluded root children. A failing special-node check, index lookup or query becomes an `IllegalStateException` wrapping it. On success the result is duplicate-free, starts with the existing special nodes and holds exactly those nodes plus every per-path result, and the statements are `IssuedStatements` of the candidates. When a per-path query fails, the statements are `IssuedStatements` of the candidates up to and including the failing path |
| QueryHelper.IdPredicateAppend | accesscontroltool-bundle/src/main/java/biz/netcentric/cq/tools/actool/helper/QueryHelper.java:247-254 | the id predicates of two non-empty runs of ids join with exactly one `" or "` between them |
| QueryHelper.IdPredicateFirst | accesscontroltool-bundle/src/main/java/biz/netcentric/cq/tools/actool/helper/QueryHelper.java:247-254 | a predicate starts with the first id's clause, and a separator follows only when another clause does (no trailing `" or "`) |
| QueryHelper.IdPredicateSnoc | accesscontroltool-bundle/src/main/java/biz/netcentric/cq/tools/actool/helper/QueryHelper.java:248-251 | appending the next id adds its clause, after `" or "` unless it is the first |
| QueryHelper.GetAuthorizablesQueryStringBuilder | accesscontroltool-bundle/src/main/java/biz/netcentric/cq/tools/actool/helper/QueryHelper.java:239-256 | With no id left it returns `""` and consumes nothing. Otherwise it consumes the next `min(left, max(limit, 1))` ids and returns their clauses joined with `" or "` |
| QueryHelper.BatchesPartition | accesscontroltool-bundle/src/main/java/biz/netcentric/cq/tools/actool/helper/QueryHelper.java:180-192 | The batches the outer loop consumes, concatenated, are the ids in iteration order, so each id is covered exactly once. Every batch holds between 1 and the limit, and all but the last are full |
| QueryHelper.BatchCount | accesscontroltool-bundle/src/main/java/biz/netcentric/cq/tools/actool/helper/QueryHelper.java:180-192 | with the limit of 100, n ids issue ceil(n/100) statements |
| QueryHelper.BatchesStep | accesscontroltool-bundle/src/main/java/biz/netcentric/cq/tools/actool/helper/QueryHelper.java:185 | the next batch is exactly what one builder call consumes from the current iterator position |
| QueryHelper.BatchesFoundContents | accesscontroltool-bundle/src/main/java/biz/netcentric/cq/tools/actool/helper/QueryHelper.java:180-192 | the batch lookup succeeds iff every batch statement succeeds, and then finds exactly the rows of all of them |
| QueryHelper.BatchStatementsInOrder | accesscontroltool-bundle/src/main/java/biz/netcentric/cq/tools/actool/helper/QueryHelper.java:180-192 | the batch loop issues the statements of the batches in order, each once, and every statement but the last succeeded |
| QueryHelper.BatchStatementsContents | accesscontroltool-bundle/src/main/java/biz/netcentric/cq/tools/actool/helper/QueryHelper.java:180-192 | When the lookup succeeds, the loop issues a statement for every batch. When it fails, the last statement issued is the failing one, and its exception is the lookup's |
| QueryHelper.AuthorizablesStatementCount | accesscontroltool-bundle/src/main/java/biz/netcentric/cq/tools/actool/helper/QueryHelper.java:180-192 | a successful lookup of n authorizable ids issues ceil(n/100) statements |
| QueryHelper.NextBatchStatement | accesscontroltool-bundle/src/main/java/biz/netcentric/cq/tools/actool/helper/QueryHelper.java:181-187 | one turn of the loop builds the query prefix followed by the predicate of the next batch, and advances the iterator past that batch |
| QueryHelper.CollectBatchNodes | accesscontroltool-bundle/src/main/java/biz/netcentric/cq/tools/actool/helper/QueryHelper.java:175-192 | The loop drains the ids batch by batch, and the statements it issues are exactly `BatchStatementsIssued` (one per batch, up to the first failing one). A failing batch query ends it with that exception. Otherwise the `LinkedHashSet` is duplicate-free and holds exactly the rows of all batch statements |
| QueryHelper.GetAuthorizablesAcls | accesscontroltool-bundle/src/main/java/biz/netcentric/cq/tools/actool/helper/QueryHelper.java:166-199 | The statements issued are exactly `BatchStatementsIssued`, so ceil(n/100) of them on success. A failing batch query is thrown unchanged, and no principal is recorded. Otherwise the collected node set is duplicate-free and holds exactly the rows of all batch statements. The result and the filled principal set are those of `buildAclBeansFromNodeSet` on it |
| QueryHelper.BuildKeepsPrincipals | accesscontroltool-bundle/src/main/java/biz/netcentric/cq/tools/actool/helper/QueryHelper.java:208-210 | the output principal set only grows: what it held, and what was recorded before an entry threw, is still there when the loop ends, normally or by an exception |
| QueryHelper.BuildRecordsEveryPrincipal | accesscontroltool-bundle/src/main/java/biz/netcentric/cq/tools/actool/helper/QueryHelper.java:208-235 | After a completed loop, the principal set is the initial set plus the principal of EVERY entry, also of entries skipped for a `null` ACL. The beans built are exactly the initial ones plus those the entries yield |
| QueryHelper.FirstPolicy | accesscontroltool-bundle/src/main/java/biz/netcentric/cq/tools/actool/helper/QueryHelper.java:225-232 | `getPolicies(path)[0]` cast to an ACL: the manager's exception, `ArrayIndexOutOfBoundsException` for an empty array, `ClassCastException` for a policy that is not a Jackrabbit ACL, `None` for a `null` element, and otherwise that ACL |
| QueryHelper.LocateAcl | accesscontroltool-bundle/src/main/java/biz/netcentric/cq/tools/actool/helper/QueryHelper.java:211-229 | the steps after the principal is recorded give `EntryAcl`. The ACL node is the entry's parent, and its name decides the effective path and the jcr path. The first policy there is the ACL, with `None` for a `null` policy and an exception from any failing step |
| QueryHelper.EntryAclLocation | accesscontroltool-bundle/src/main/java/biz/netcentric/cq/tools/actool/helper/QueryHelper.java:211-233 | An ACL node named `REPO_POLICY_NODE` yields a bean with no parent path and the jcr path `"/" + REPO_POLICY_NODE`. Any other ACL node yields its parent's path and its own path. The bean's ACL is the first policy at that parent path |
| QueryHelper.ChildPathNotRepoPolicy | accesscontroltool-bundle/src/main/java/biz/netcentric/cq/tools/actool/helper/QueryHelper.java:215-223 | a child path whose name is not `REPO_POLICY_NODE` is never `"/" + REPO_POLICY_NODE` |
| QueryHelper.NoParentIffRepoPolicy | accesscontroltool-bundle/src/main/java/biz/netcentric/cq/tools/actool/helper/QueryHelper.java:215-223 | in a tree-shaped repository, a bean has no parent path iff its jcr path is `"/" + REPO_POLICY_NODE` |
| QueryHelper.BuildAclBeansFromNodeSet | accesscontroltool-bundle/src/main/java/biz/netcentric/cq/tools/actool/helper/QueryHelper.java:201-237 | When `getAccessControlManager()` throws, its exception, with no principal recorded. Otherwise the loop gives the beans of `BuildSpec`, de-duplicated as a `TreeSet`, and the principal set is the one the loop leaves behind, also when it throws |
| InstallationHistory.WarningText | accesscontroltool-bundle/src/main/java/biz/netcentric/cq/tools/actool/installationhistory/AcInstallationHistoryPojo.java:56 | the stored warning text contains `"WARNING: " + warning` right after the orange font tag |
| InstallationHistory.ExceptionText | accesscontroltool-bundle/src/main/java/biz/netcentric/cq/tools/actool/installationhistory/AcInstallationHistoryPojo.java:64 | the stored exception text contains `"EXCEPTION:"` right after the red font tag, followed (after `"</b> "`) by the exception text |
| InstallationHistory.MessageText | accesscontroltool-bundle/src/main/java/biz/netcentric/cq/tools/actool/installationhistory/AcInstallationHistoryPojo.java:60 | a stored message or verbose message is the message after a single space |
| InstallationHistory.InsertByIndex | accesscontroltool-bundle/src/main/java/biz/netcentric/cq/tools/actool/installationhistory/AcInstallationHistoryPojo.java:126 | `TreeSet.add` under sequence-number order keeps the sequence ascending. It adds the entry only when its number is new, and the number is present afterwards |
| InstallationHistory.Chronological | accesscontroltool-bundle/src/main/java/biz/netcentric/cq/tools/actool/installationhistory/AcInstallationHistoryPojo.java:122 | the merged listing of a set of entries is ascending by sequence number, draws only on the set and has every number of the set |
| InstallationHistory.MergeIsChronological | accesscontroltool-bundle/src/main/java/biz/netcentric/cq/tools/actool/installationhistory/AcInstallationHistoryPojo.java:121-130 | With distinct sequence numbers, any ascending merge with those contents is `Chronological`, so the merge does not depend on the `HashSet`s' iteration order |
| InstallationHistory.ChronologicalAppend | accesscontroltool-bundle/src/main/java/biz/netcentric/cq/tools/actool/installationhistory/AcInstallationHistoryPojo.java:55-71 | an entry numbered above every recorded entry comes last in the merged listing |
| InstallationHistory.OneLinePerEntry | accesscontroltool-bundle/src/main/java/biz/netcentric/cq/tools/actool/installationhistory/AcInstallationHistoryPojo.java:132-140 | when no timestamp or message holds a line break, the rendering has exactly one line break per entry |
| InstallationHistory.BoolText | accesscontroltool-bundle/src/main/java/biz/netcentric/cq/tools/actool/installationhistory/AcInstallationHistoryPojo.java:104 | the flag prints as `"true"` iff it is set |
| InstallationHistory.LongText | accesscontroltool-bundle/src/main/java/biz/netcentric/cq/tools/actool/installationhistory/AcInstallationHistoryPojo.java:97 | `Long.toString` of the execution time: a minus sign for a negative number, then the decimal digits of its magnitude |
| InstallationHistory.LongTextReadsBack | accesscontroltool-bundle/src/main/java/biz/netcentric/cq/tools/actool/installationhistory/AcInstallationHistoryPojo.java:97 | `Long.toString` starts with a minus sign exactly for a negative number, followed by decimal digits without leading zeros that read back as the magnitude |
| InstallationHistory.DigitTextValue | accesscontroltool-bundle/src/main/java/biz/netcentric/cq/tools/actool/installationhistory/AcInstallationHistoryPojo.java:97 | the digits of a number are decimal digits without a leading zero and read back as that number |
| InstallationHistory.BannerOpen | accesscontroltool-bundle/src/main/java/biz/netcentric/cq/tools/actool/installationhistory/AcInstallationHistoryPojo.java:99-103 | the banner opens green iff the run succeeded, red otherwise |
| InstallationHistory.Report | accesscontroltool-bundle/src/main/java/biz/netcentric/cq/tools/actool/installationhistory/AcInstallationHistoryPojo.java:90-108 | the report starts with the date header and has the message history right after it, and it ends with the banner colour followed by `"\nSuccess: " + success` and the closing tag |
| InstallationHistory.AppendReport | accesscontroltool-bundle/src/main/java/biz/netcentric/cq/tools/actool/installationhistory/AcInstallationHistoryPojo.java:91-107 | the `StringBuilder` appends of `toString` build `Report` |
| InstallationHistory.AcInstallationHistoryPojo.constructor | accesscontroltool-bundle/src/main/java/biz/netcentric/cq/tools/actool/installationhistory/AcInstallationHistoryPojo.java:24-33 | a fresh log has `success`, counter 0, four empty sets and no installation date; it satisfies the invariant `Valid` |
| InstallationHistory.AcInstallationHistoryPojo.SetInstallationDate | accesscontroltool-bundle/src/main/java/biz/netcentric/cq/tools/actool/installationhistory/AcInstallationHistoryPojo.java:39-41 | sets the date, `null` included, and nothing else |
| InstallationHistory.AcInstallationHistoryPojo.SetExecutionTime | accesscontroltool-bundle/src/main/java/biz/netcentric/cq/tools/actool/installationhistory/AcInstallationHistoryPojo.java:47-49 | sets the execution time and nothing else |
| InstallationHistory.AcInstallationHistoryPojo.AddWarning | accesscontroltool-bundle/src/main/java/biz/netcentric/cq/tools/actool/installationhistory/AcInstallationHistoryPojo.java:55-58 | adds exactly one warning tagged with the current counter and increments the counter. It changes no other set and not `success`, and keeps the sequence numbers distinct and below the counter |
| InstallationHistory.AcInstallationHistoryPojo.AddMessage | accesscontroltool-bundle/src/main/java/biz/netcentric/cq/tools/actool/installationhistory/AcInstallationHistoryPojo.java:59-62 | as `AddWarning`, for one message |
| InstallationHistory.AcInstallationHistoryPojo.SetException | accesscontroltool-bundle/src/main/java/biz/netcentric/cq/tools/actool/installationhistory/AcInstallationHistoryPojo.java:63-67 | adds exactly one exception tagged with the current counter, clears `success`, increments the counter and changes no other set; keeps `Valid` |
| InstallationHistory.AcInstallationHistoryPojo.AddVerboseMessage | accesscontroltool-bundle/src/main/java/biz/netcentric/cq/tools/actool/installationhistory/AcInstallationHistoryPojo.java:68-71 | as `AddWarning`, for one verbose message |
| InstallationHistory.AcInstallationHistoryPojo.SetSuccess | accesscontroltool-bundle/src/main/java/biz/netcentric/cq/tools/actool/installationhistory/AcInstallationHistoryPojo.java:85-87 | sets `success` to the argument and changes nothing else |
| InstallationHistory.AcInstallationHistoryPojo.GetMessageSet | accesscontroltool-bundle/src/main/java/biz/netcentric/cq/tools/actool/installationhistory/AcInstallationHistoryPojo.java:121-130 | the merged `TreeSet` is ascending by sequence number, holds only entries of the given sets and has every number that occurs in them |
| InstallationHistory.AcInstallationHistoryPojo.GetMessageString | accesscontroltool-bundle/src/main/java/biz/netcentric/cq/tools/actool/installationhistory/AcInstallationHistoryPojo.java:132-140 | `""` for an empty merge. Otherwise one `"\n" + timestamp + ": " + message` line per entry, in merge order |
| InstallationHistory.AcInstallationHistoryPojo.GetMessageHistory | accesscontroltool-bundle/src/main/java/biz/netcentric/cq/tools/actool/installationhistory/AcInstallationHistoryPojo.java:112-114 | the lines of warnings, messages and exceptions, in sequence-number order; reads the state and changes nothing |
| InstallationHistory.AcInstallationHistoryPojo.GetVerboseMessageHistory | accesscontroltool-bundle/src/main/java/biz/netcentric/cq/tools/actool/installationhistory/AcInstallationHistoryPojo.java:117-119 | the lines of all four categories, in sequence-number order; changes nothing |
| InstallationHistory.AcInstallationHistoryPojo.ToString | accesscontroltool-bundle/src/main/java/biz/netcentric/cq/tools/actool/installationhistory/AcInstallationHistoryPojo.java:90-108 | With no installation date, a `NullPointerException`. Otherwise the `Report` of the date, the message history, the execution time and `success`. It changes nothing, so repeated calls give the same text |
| InstallationHistory.HistoryContents | accesscontroltool-bundle/src/main/java/biz/netcentric/cq/tools/actool/installationhistory/AcInstallationHistoryPojo.java:112-119 | The message history holds exactly the warnings, messages and exceptions and never a verbose message. The verbose history holds every entry |
| InstallationHistory.HistoryGrowsByOneLine | accesscontroltool-bundle/src/main/java/biz/netcentric/cq/tools/actool/installationhistory/AcInstallationHistoryPojo.java:55-67 | recording one more entry with the next sequence number appends exactly that entry's line to the history |
| InstallationHistory.ExceptionThenSuccess | accesscontroltool-bundle/src/main/java/biz/netcentric/cq/tools/actool/installationhistory/AcInstallationHistoryPojo.java:63-87 | `setException` then `setSuccess(true)` leaves a log with an exception that reports success |

## Left out

- Logging, the `StopWatch` and `System.currentTimeMillis` calls are diagnostics only, and are not modelled.
- Query semantics are not modelled. JCR-SQL2 and XPath evaluation, `QueryManager` and `query.execute()` are the given function `Session.query`, from statement and language to result rows or a failure.
- `AccessControlManager.getPolicies` is not modelled either; it is the given function `Session.policies`. An ACL is identified by a number.
- Nodes are identified by their paths. `Node` object identity and the `equals`/`hashCode` of JCR nodes are not modelled.
- The value of `Constants.REPO_POLICY_NODE` is taken to be `"rep:repoPolicy"`, the Jackrabbit name, because `Constants` is not part of this model.
- Collections.Dedup: the natural ordering of `AclBean` is not part of this model. It is a given equivalence `sameBean`, and the beans come out in first-insertion order rather than sorted by it.
- `HistoryEntry` and `HistoryEntryComparator` are not part of this model. The merge is ordered by sequence number, and entries that compare equal are merged the way a `TreeSet` merges them.
- Timestamps and the installation date are opaque values. Their `toString` renderings are the parameters `showTime` and `showDate`, and the clock is the `now` argument of each recording method. Nothing is claimed about clock monotonicity.
- `msgIndex` and `executionTime` are Java `long`s and are modelled as unbounded integers. Overflow after 2^63 entries is not modelled.
- The getters (`getWarnings`, `getMessages`, `getException`, `isSuccess`, `getInstallationDate`, `getExecutionTime`) are not modelled as methods. `getWarnings`, `getMessages` and `getException` hand out the live `HashSet`s, not copies, so a caller can add, remove or clear entries. `AcInstallationHistoryPojo.Valid` (distinct sequence numbers, all below the counter, disjoint categories) therefore assumes that callers do not mutate the returned sets; that aliasing is not modelled.
- `null` string arguments are not modelled: every `string` parameter stands for a non-null Java `String`. In Java, `addWarning(null)` stores `"WARNING: null"` inside its markup, and a `null` authorizable id becomes `'null'` in the batch predicate.
- The iteration order of a `HashSet` is modelled as an arbitrary choice at each step: in `nodes.addAll` (`QueryHelper.java:117` and `:191`, `Collections.AppendAll`), in the loop of `getDistinctParentNodes` and in the merge of `getMessageSet`. Which order the JVM picks is not modelled.
- A `session.getNode(p)` that throws right after `session.nodeExists(p)` returned `true` (a concurrent removal) is not modelled; a failing lookup is a failing `nodeExists`.
- QueryHelper.GetAuthorizablesAcls: the id `Set<String>` is modelled as the sequence its iterator yields. The iterator is modelled as that sequence and a position.
- QueryHelper.GetRepPolicyNodes: the `IllegalStateException` carries the wrapped exception, but its message text is not modelled.
- QueryHelper.CollectCandidatePaths: an exclusion list containing `null` is not modelled; paths are never `null` in the exclusion list.
- `CqActionsMappingTest` exercises code that is not part of this model.
