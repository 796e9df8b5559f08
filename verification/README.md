# Alder: a verified model of its directory algorithms

Alder is a tool for people who run LDAP directories. Around its HTTP handlers sit a few
algorithms whose answers somebody acts on: which group members no longer exist, who is in a
group through nesting, which Ansible tasks repeat a change, whether a list of changes can be
applied in the order given. This project models those algorithms in Dafny and proves, for
every input, what they promise, or, where they do not keep it, exactly when they do.

`dafny verify dfyconfig.toml` checks everything.

## The parts

| file | what it models |
|---|---|
| `Paths.dfy`, `Dn.dfy`, `Text.dfy`, `Options.dfy`, `Basics.dfy` | paths and reachability in a graph; DNs as sequences of RDNs, most specific first; ASCII text; a value that may be missing; minimum, sequences without repeats, and where in a sequence something holds |
| `OnCycles.dfy` | Tarjan's algorithm over arrays and a stack, as the audit uses it |
| `AuditReport.dfy` | what an audit says about each group: what remains of it, and whether it holds nobody through nesting |
| `NarrowBases.dfy` | where the audit searches for a set of names |
| `Paging.dfy` | a server as a pager over a finite result; the bounded count of a subtree |
| `AuditServer.dfy`, `AuditSearch.dfy`, `Audit.dfy`, `AuditAnswers.dfy`, `AuditValues.dfy` | the server as the membership audit meets it; its searches and checks; the audit as a whole, with what it records and why; what the answers come to; what it says of the values of the groups |
| `Expand.dfy`, `SharedChains.dfy` | the bounded walk through nested groups; the chains it reports, as the slices they are stored in |
| `Ansible.dfy`, `AnsibleLaws.dfy` | an LDAP modify as a sequence of declarative tasks |
| `Gate.dfy` | the in-flight gate: slots, and who gives them back |
| `Tally.dfy` | the inventory of an attribute's values, page by page |
| `Compare.dfy` | the comparison of two entries |
| `Changeset.dfy` | the warnings about a list of changes, and its run |
| `Rules.dfy`, `RulesLaws.dfy` | cutting an OpenLDAP access rule into clauses and tokens; which grants a clause gives |
| `Allowlist.dfy`, `AllowlistLaws.dfy` | reading, writing and asking the list of permitted directories; which texts are entries, and which are names |

Code that works by changing things step by step is modelled by methods and classes with the
same fields and loops, and each is proved against a specification function or predicate; what
the source promises is then proved of that specification.

## How the outside world appears

- A DN is the sequence of its folded RDNs, so equality of DNs is equality of values, and a DN is
  its own map key. `HasSuffix` is "at or below".
- A server is truthful about a fixed set of entries, closed under parents below every naming
  context, but pages as it likes, fails when it likes, and may end a search early if it says so
  (section 4.5.1 of RFC 4511, and RFC 2696 for pages). Searches are `Pager` values; reads are
  answers looked up by DN.
- A loop that asks for pages until there is no cookie ends exactly when it is not sent empty pages
  for ever (`EndsIff`). `CountSubtree` requires that and no more of the server; the audit requires it
  of every way its searches may ask (`Patient`).
- In `Gate`, each thread is a set of steps of one state machine, taken in any order.
- In `Changeset`, each change comes with what the server and the network make of it: done,
  refused, or the connection lost with the change done or not.
- In `Allowlist`, the library that reads and prints addresses is a `Book`, which must read back
  what it prints; in `Compare`, DN parsing and the schema are tables.

## Where the code and its documentation part

Each of these is proved, with the condition under which the promise holds, exactly.

- **Ansible.** A run of adjacent modifications becomes one mapping from attribute names to values
  (`internal/ansible/ansible.go:138-147`). Two adds, or two value deletes, of one attribute in one
  run give that mapping a key twice, and a reader of the document keeps the last: the earlier
  values are lost (`TwoAddsLoseOne`). The tasks agree with the modify at every run boundary exactly
  when no run loses a value in this way (`PlaybookFollows`, `RunAgrees`), and in the end exactly when
  each value lost is set again by a later run, or lost back the other way (`PlaybookIsModifyIff`).
- **Chains of groups.** `append(via, …)` (`internal/api/expand.go:192-193`) writes into the array of the
  slice it is given while there is room, so sibling groups share cells, and the chain reported for
  a member can name a group that does not hold it. `ReportedChains` says exactly when a chain is
  right; those of up to three groups, of five and of nine always are. `Expand` states the chain
  as it is meant, an immutable sequence. The growth of arrays (doubling, for fewer than 256
  strings) is that of the Go runtime, not of the language.
- **Referrals in the audit.** The design says a name below a referral is never reported as not found.
  A name is reported not found exactly when the server does not hold it and nothing recorded marks it
  (`NotFoundIff`). What is recorded is what the server referred to (`RecordsHaveCause`), under the DN of
  the referral's URL; and what marks a name is the text of the first recorded referral at or above it
  (`internal/api/memberaudit.go:439-449`), so that an empty one marks nothing, and keeps those recorded
  after it from marking. So of a server that answers "no such object" below a referral the name is
  reported exactly when the first reference recorded at or above it, with the groups or for the contexts
  in use, is an empty text, or there is none (`SilentNotFoundIff`); and a name whose own read is referred,
  exactly when no referral recorded before marks it and its own does not or comes after one without a text
  (`ReferredNotFoundIff`). Where every URL covers its referral object and no reference is an empty text the
  design's promise holds (`NotFoundMeansNotHeld`). `ElsewhereNotFound` is a server whose referral's URL
  names another DN, and `BlankNotFound` one that refers the read of the name with neither a URL nor a
  DN matched, as the driver passes on a referral result that has neither
  (`internal/directory/ldapdriver/driver.go:429-431`): every audit of these reports the name.
- **Values that are no DNs.** The expansion says that it reports membership values that cannot be followed
  rather than dropping them (`internal/api/expand.go:20-28`). `plan.AppendNew`
  (`internal/plan/reconcile.go:79-95`) drops one that is like an earlier one but for case, though `Bob` and
  `bob` are two login names: a walk that did not stop short leaves out exactly those (`WholeWalkReportsText`),
  and so none exactly when no two are alike (`EveryTextIff`). `TwoNamesOneReported` is such a group.
- **Rules.** The clauses of a text carry its tokens exactly when the first token is the word `by`
  and what is trimmed off at each cut is spaces and tabs (`ClausesKeepTokensIff`): `bygone` is cut in
  two, and a rule folded over two lines loses the line break from the token it belongs to
  (`LineBreakLost`), since trimming takes off more than separates tokens. A whole rule, cut by the first
  clause first, keeps its tokens under the second condition alone (`RuleKeepsTokens`).
- **Inventory.** An answer that does not say it was truncated covers the whole search exactly when no page
  was cut short without a cookie (`WholeUnlessCut`, of a server that says so only when it leaves something
  out); a server that pages never does that (`PagingIsNotCut`), and one that does is reported as whole
  (`CutGoesUnsaid`), because `truncated` looks only at the cookie (`internal/api/inventory.go:297-299`).
- **Paged loops.** The inventory stops at an empty page that comes with a cookie; the audit's searches and
  the subtree count ask again, and end exactly when the server does not go on so for ever (`EndsIff`,
  `EmptyPagesNeverEnd`).
- **Counting.** A subtree of exactly `limit` entries is counted as cut short (`CountSubtree`).
- **Comparison.** Two spellings of one DN on one side and one of them on the other differ, yet every row
  says both sides hold the value (`TwoSpellings`): exactly where the keys are the same but not as often
  (`DiffersYetBoth`). Whether anything was cut short can depend on which entry is on the left; it does
  not exactly when the listings, whose lengths differ by what each side repeats of the other, pass the
  limit from both sides or from neither (`LengthMirrors`, `CutMirrorsIff`), as where no entry has one
  key twice (`CutMirrors`).
- **Changesets.** A list with no warnings never has an add refused for want of a parent the list itself
  creates, unless a rename between the two moves that parent away; where nothing is moved to the
  parent's name or above it instead, exactly unless (`ParentsInTime`, `StopsForWantOfParent`), and in
  general exactly as the last such rename decides (`ParentIff`). `RenameMovesParent` is such a list.

## Model

| member | source | states |
|---|---|---|
| `OnCycles.OnCycles` | internal/api/memberaudit.go:697-759 | for every graph, exactly the nodes with a non-empty path back to themselves, in ascending order and each once; it terminates |
| `OnCycles.Finder.Connect` | internal/api/memberaudit.go:711-746 | one call keeps the invariant of the walk and either leaves the node on the stack, reaching an older one there, or pops its whole component; `low` is the least number reached |
| `OnCycles.Finder.LookAt` | internal/api/memberaudit.go:716-723 | after all edges, `low` is a number that is attained and bounds every edge into the stack below |
| `OnCycles.Finder.PopComponent` | internal/api/memberaudit.go:724-745 | pops down to the node, keeps the invariant, and with it that done nodes are marked exactly when on a cycle |
| `OnCycles.SealedIsOneComponent` | internal/api/memberaudit.go:724-736 | what is popped together is one strongly connected component |
| `OnCycles.SealedCycles` | internal/api/memberaudit.go:737-745 | a popped node is on a cycle exactly when its component has two nodes or the node closing it points at itself |
| `OnCycles.StackEmpties` | internal/api/memberaudit.go:747-751 | between top-level calls nothing is left on the stack, and every visited node's mark is right |
| `AuditReport.NoPerson` | internal/api/memberaudit.go:669-686 | the loop ends at the greatest set of groups whose remaining members are all groups that are empty or in the set |
| `AuditReport.NoPersonMeansNobodyReached` | internal/api/memberaudit.go:669-689 | without a fixpoint: in the greatest stable set are exactly the groups that keep something and reach nothing but groups |
| `AuditReport.Edges` | internal/api/memberaudit.go:650-667 | the edges of a group are its remaining members among the groups read, and it has only groups exactly when no remaining member is anything else |
| `AuditReport.KeptCount` | internal/api/memberaudit.go:630-648 | every value is either reported not found or remaining |
| `AuditReport.Report` | internal/api/memberaudit.go:609-695 | for each group: how many members remain, whether it holds nobody through nesting, and the groups on a cycle in order |
| `NarrowBases.Narrow` | internal/api/memberaudit.go:525-585 | exactly the bases of the source's loop, in its order: while more than 50 are left the deepest go up and the outermost are kept; so every name is in the scope of some base, no base is above the context of every name it is for, none is at or below another, one level exactly when all names under it are children, and there are at most 50 or the number of contexts; it terminates |
| `NarrowBases.BasesAreCut` | internal/api/memberaudit.go:517-571 | without the loop: the bases are the outermost of the names' parents, each cut to one depth but not above its context; to cut less leaves the same bases or more than 50, and more than 50 are left only when all are contexts |
| `NarrowBases.BasesNarrowed` | internal/api/memberaudit.go:517-585 | and they see every name, with the scope each needs, as few as promised |
| `NarrowBases.OuterCovers` | internal/api/memberaudit.go:587-607 | whatever DN is dropped, one at or above it is kept |
| `NarrowBases.OuterApart` | internal/api/memberaudit.go:587-607 | no DN kept is at or below another |
| `NarrowBases.ContextsBoundBases` | internal/api/memberaudit.go:555-564 | when no base can be moved up any more, there are no more of them than naming contexts |
| `NarrowBases.TotalFalls` | internal/api/memberaudit.go:555-571 | moving a base up makes the total length of the bases fall, so the loop ends |
| `NarrowBases.UpSees` | internal/api/memberaudit.go:542-548 | moving bases up, never past a context, keeps every name in sight and every base between a name and its context |
| `Paging.CountSubtree` | internal/api/handlers.go:421-447 | of any server that does not stall it for ever: an error only when some page was answered with one; an answer not truncated is the exact size and below the limit; with a server that pages, the size if it is below the limit and otherwise exactly the limit, truncated |
| `Paging.EndsIff` | internal/api/handlers.go:424-446 | a loop that asks until there is no cookie, for as many entries as it still wants, ends exactly when it is not, from some round on, sent nothing but empty pages that promise another; this covers the count and the audit's searches (`internal/api/memberaudit.go:269-303`, `internal/api/memberaudit.go:411-431`) |
| `Paging.EmptyPagesNeverEnd` | internal/api/handlers.go:424-446 | against a server that sends only such pages no such loop ends |
| `AuditSearch.MemberAuditor.Search` | internal/api/memberaudit.go:262-306 | whole or refused: a search that succeeds short of its cap is all of it; more than the audit may read is a refusal; each refusal has its cause in the last answer or in that bound; and it records exactly the references of the pages it was answered with |
| `AuditSearch.MemberAuditor.ReadGroups` | internal/api/memberaudit.go:182-228 | the groups are all of them, and at most `limit`; the refusal for too many means there are more; a refusal as incomplete or for a failure means some answer said so |
| `Audit.RecordsHaveCause` | internal/api/memberaudit.go:349-370 | every referral an audit records is that of a reference of a page its searches were answered with, of a referral object of a context in use, or of one a read or search was answered with |
| `AuditSearch.MemberAuditor.FindReferrals` | internal/api/memberaudit.go:392-437 | what is recorded is every reference that came back from each context a name is in, one context after the other in the order the names come to them, and nothing else, or the audit is refused |
| `AuditSearch.MemberAuditor.MarkBelow` | internal/api/memberaudit.go:439-449 | a name is marked exactly when the first recorded referral at or above it has a text to be called by: one without keeps those after it from marking |
| `AuditSearch.MemberAuditor.ReadEach` | internal/api/memberaudit.go:451-479 | read one by one, every name is found exactly when the server holds it; exactly the referrals given are recorded, and a name is marked exactly when its own read is referred and the first referral recorded by then at or above it has a text to be called by |
| `AuditSearch.MemberAuditor.SearchUnder` | internal/api/memberaudit.go:481-511 | searched for under common ancestors, every name is found exactly when the server holds it; the searches are exactly those of the bases, exactly what they heard is recorded, and a name is marked exactly when the first referral recorded at or above it has a text to be called by; refused only when these searches come to too much |
| `AuditSearch.MemberAuditor.CheckNames` | internal/api/memberaudit.go:139-150 | the two ways agree, whichever side of 200 names is taken |
| `AuditSearch.NothingUnderMissing` | internal/api/memberaudit.go:494-496 | a base that is not there has nothing below it |
| `AuditSearch.NothingUnderReferral` | internal/api/memberaudit.go:497-498 | a base that is answered with a referral has nothing the server holds at or below it |
| `Audit.CoveredByUrl` | internal/api/memberaudit.go:127-135 | where URLs cover their referral objects, a name below one is under a DN recorded for its context |
| `Audit.MarkedBeforeReading` | internal/api/memberaudit.go:127-137 | a name is left unchecked from the start exactly when the first reference at or above it, of those with the groups and then of those from the contexts in use, is no empty text; where none is empty, exactly when there is one |
| `Audit.NotFoundIff` | internal/api/memberaudit.go:630-648 | a name is reported not found exactly when the server does not hold it and nothing marks it: neither what was recorded before the checks nor, if it was checked, what was recorded by its check |
| `Audit.SilentNotFoundIff` | internal/api/memberaudit.go:394-449 | of a server that refers no read and no search: exactly when it is not held and the first reference at or above it, with the groups or from a context, is an empty text, or there is none |
| `Audit.ReferredNotFoundIff` | internal/api/memberaudit.go:458-468 | of a name whose own read is referred: exactly when nothing recorded before marks it, and its own referrals do not either or come too late, after one without a text |
| `AuditAnswers.SearchedNotFoundIff` | internal/api/memberaudit.go:481-511 | of a name that is searched for, with more than 200 to look for: exactly when it is not held and, unless what was recorded before is at or above it without a text, no search decides that it is marked: the first with a page or a final referral at or above it, by the first such reference, if that is no empty text |
| `AuditAnswers.SearchesMark` | internal/api/memberaudit.go:487-505 | so of the searches the first with a say decides, and nothing else marks |
| `AuditAnswers.GroupsMark` | internal/api/memberaudit.go:262-306 | the search for groups marks a name exactly as the first of its pages with a reference at or above it decides |
| `Audit.BlankNotFound` | internal/api/memberaudit.go:349-370 | the server that refers the read of a name with neither URL nor DN matched: every audit of it reports the name as not found |
| `Audit.ElsewhereNotFound` | internal/api/memberaudit.go:349-370 | the server whose referral names another DN: every audit of it reports a name below the referral object as not found |
| `Audit.MemberNotFoundIff` | internal/api/memberaudit.go:349-370 | of every server with that one name below a referral object, whatever the object's URL and the answer to the read: not found exactly when neither marks it |
| `Audit.MemberNotRefused` | internal/api/memberaudit.go:101-155 | and there is no reason to refuse an audit of any of them |
| `Audit.NotFoundMeansNotHeld` | internal/api/memberaudit.go:635-645 | a name reported not found is not held, and, where URLs cover and no reference is an empty text, not below a referral |
| `AuditSearch.MemberAuditor.SearchBases` | internal/api/memberaudit.go:487-505 | the searches between them settle every name in the scope of a base; they succeed only when complete answers come to no more than may be read, and from a willing server fail only when they come to more |
| `Audit.AuditMembers` | internal/api/memberaudit.go:101-155 | an audit that is made read all groups and looked for exactly the names they give; what it records is decided by what it was answered, what it marks by what it recorded, and every name not marked is found exactly when held; it reports on exactly these; from a server that fails and limits nothing it is refused only for more groups than the limit, for more than 50000 entries to read, which are the groups and complete answers to the searches made for the more than 200 names that nothing marks, or for the answer its search for groups ended with |
| `AuditValues.NamesAreGiven` | internal/api/memberaudit.go:101-125 | of the groups as they were read: an audit looks for exactly the DNs that some group names and that are in some naming context |
| `AuditValues.RemainingIs` | internal/api/memberaudit.go:630-648 | what is said to remain of a group is its number of values less the positions whose DN is in a context, not held and not marked |
| `AuditValues.EdgesAre` | internal/api/memberaudit.go:650-667 | from a group to the last group read of that DN, exactly when a value of it that is not reported as not found names that |
| `AuditValues.NoPersonIs` | internal/api/memberaudit.go:669-689 | a group is said to hold nobody exactly when something remains of it and, through remaining values, it reaches only groups of which nothing but groups remains |
| `AuditServer.NotesMark` | internal/api/memberaudit.go:349-370 | references mark a name exactly when, for the first whose DN, or else the matched DN or the base, is at or above it, its URL or what was matched is no empty text |
| `AuditServer.OwnReferralsMark` | internal/api/memberaudit.go:458-468 | so do the referrals its own read is answered with; none counts as one empty URL |
| `AuditServer.ContextsMark` | internal/api/memberaudit.go:404-437 | of the contexts asked for referral objects, the first of which a reference is at or above the name decides |
| `AuditServer.UsedInOrder` | internal/api/memberaudit.go:397-403 | contexts are asked in the order the names come to them |
| `AuditServer.NamesInOrder` | internal/api/memberaudit.go:109-126 | names are in the order in which the groups first give them |
| `AuditServer.UnmarkedInOrder` | internal/api/memberaudit.go:134-139 | and the ones looked for keep that order |
| `Audit.NeverBoth` | internal/api/memberaudit.go:101-155 | where an audit can be made there is no such reason: so of a server that fails and limits nothing it is refused exactly for these |
| `Audit.EveryNameChecked` | internal/api/memberaudit.go:101-155 | of a server that gives no referral it records nothing, marks no name, and finds each exactly when the server holds it |
| `Expand.ExpandGroup` | internal/api/expand.go:86-200 | for every graph, limit and read: each DN at most once and never the root, at most `limit` members and 1000 reads, one read for each member, dangling or error, every chain a real one of at most nine groups without a repetition, every cycle reported a cycle; truncated only at a bound, at the deepest level, or when the request ended; if not truncated, exactly the DNs reached, every cycle meets a reported group, and the values that are not DNs are those met in the groups reached, less those like an earlier one but for case |
| `Expand.Expansion.Walk` | internal/api/expand.go:106-200 | the invariant of the walk, `path` restored, and unless it stopped short every value of the group dealt with |
| `Expand.WholeWalkReadsAll` | internal/api/expand.go:86-200 | a walk that did not stop short read exactly what is reachable from the root through groups |
| `Expand.ListedByAnswer` | internal/api/expand.go:155-185 | a DN that was read is a member exactly when it read as an entry, dangling exactly when the answer was that there is none, and an error exactly when the read failed, whether or not the request ended with it |
| `Expand.WholeWalkLists` | internal/api/expand.go:86-200 | a walk that did not stop short lists exactly the DNs reached from the root, each once and in one of the three lists |
| `Expand.GraphIsRead` | internal/api/expand.go:106-200 | the graph of that reaching is that of the answers: from the root, and from what reads as a group, to what their values name |
| `Expand.MembersAreRead` | internal/api/expand.go:178-187 | a member is a group exactly if it reads as one, direct exactly if its chain is empty, and is named, under the attribute shown, by the last group of its chain or else by the root |
| `Expand.WholeWhenSmall` | internal/api/expand.go:86-200 | where no more DNs are reached, with the root, than either bound, no group is ten levels down a path without repetition, and the request does not end, the walk does not stop short |
| `Expand.WholeWalkReportsText` | internal/api/expand.go:133-139 | of the values that are not DNs in a group reached, a walk that did not stop short leaves out exactly those of which another, alike but for case, was met first; one alike is then reported, and no two reported are alike |
| `Expand.EveryTextIff` | internal/plan/reconcile.go:79-95 | so it reports every such value exactly when no two of them are alike but for case |
| `Expand.TwoNamesOneReported` | internal/plan/reconcile.go:79-95 | a group of two login names, of which every walk is whole and reports one |
| `Expand.CycleMeetsReported` | internal/api/expand.go:141-148 | and every cycle that can be reached goes through a group it reported |
| `Expand.CyclesIffCyclic` | internal/api/expand.go:141-148 | so it reports a cycle exactly when there is one to be reached |
| `Expand.PathMemberCycles` | internal/api/expand.go:141-148 | a group on the way that the current one names is on a cycle |
| `SharedChains.ReportedChains` | internal/api/expand.go:178-197 | the chain kept for a group's members is the groups on the way exactly when every group on it that shares the whole chain's array was the last walked from the one before |
| `SharedChains.WalkLeaves` | internal/api/expand.go:191-193 | what a walk leaves alone: other arrays, its own slice's cells, and a full array; the next cell ends with the last group walked |
| `SharedChains.ShortChainsAreRight` | internal/api/expand.go:191-193 | chains of up to three groups, of five and of nine are always right |
| `SharedChains.SiblingTakesPlace` | internal/api/expand.go:191-193 | four groups deep, a sibling walked later replaces the last group on the chain |
| `Ansible.GroupByOp` | internal/ansible/ansible.go:240-253 | the loop computes the one grouping there is |
| `Ansible.GroupIsGrouping` | internal/ansible/ansible.go:240-253 | flattening the runs gives the list back, each run has one operation, adjacent runs differ |
| `AnsibleLaws.RunsAre` | internal/ansible/ansible.go:221-253 | a run is of one operation, with deletes of whole attributes apart from deletes of values, and differs from the one before it in this |
| `Ansible.GroupingIsUnique` | internal/ansible/ansible.go:240-253 | no other way of cutting the list does |
| `Ansible.WriteModify` | internal/ansible/ansible.go:116-150 | one task for each run, in order, with its state and each modification's values |
| `Ansible.RunAgrees` | internal/ansible/ansible.go:138-147 | a run the directory accepts and its task leave the same entry exactly when no value is lost to a repeated name |
| `Ansible.PlaybookFollows` | internal/ansible/ansible.go:116-150 | playbook and modify agree at every run boundary exactly when every run keeps all its values |
| `Ansible.PlaybookIsModify` | internal/ansible/ansible.go:116-150 | then running all the tasks has the effect of the modify |
| `Ansible.PlaybookIsModifyIff` | internal/ansible/ansible.go:116-150 | in the end playbook and modify agree exactly when no value is owed: each value lost is set again by a later run or lost back |
| `Ansible.RepeatLoses` | internal/ansible/ansible.go:138-147 | of two adds or value deletes of one name in a run, what the task leaves differs in that attribute |
| `Ansible.TwoAddsLoseOne` | internal/ansible/ansible.go:138-147 | the concrete modify for which the playbook differs |
| `Gate.InvKept` | internal/api/limit.go:110-177 | every step of every thread keeps the invariant |
| `Gate.RunKeepsInv` | internal/api/limit.go:110-177 | so every run does |
| `Gate.SlotsAreHolders` | internal/api/limit.go:110-148 | slots taken are the live holders, never more than the capacity, none without a gate |
| `Gate.RunsWithASlot` | internal/api/limit.go:80-148 | in every run: a request that runs holds a slot, or its release was called, or it came as GET or DELETE of the session or of its reference, or for the source; those never wait, are never refused and never hold one |
| `Gate.RunningAreBounded` | internal/api/limit.go:110-148 | so of the other requests no more than the capacity run with their release not called |
| `Gate.GateFills` | internal/api/limit.go:110-125 | and any number up to the capacity can hold a slot at once |
| `Gate.NoGateNoQueue` | internal/api/limit.go:110-115 | without a gate no request waits or is refused |
| `Gate.NoReleaseBlocks` | internal/api/limit.go:138-146 | no release ever waits on the channel |
| `Gate.IdleHoldsNothing` | internal/api/limit.go:110-177 | when nothing runs no slot is taken, and every admitted request gave its slot back exactly once |
| `Gate.KeptSlotStays` | internal/api/limit.go:162-177 | over any run: a kept slot is still held exactly when neither its writer finished nor the release it was given was called |
| `Gate.ReleaseOnce` | internal/api/limit.go:138-139 | in every reachable state each slot was given back at most once, and exactly if it was taken and is not held |
| `Gate.AdmittedWhileRoom` | internal/api/limit.go:117-125 | a waiting request can be admitted exactly while fewer hold a slot than the gate admits |
| `Gate.NotStuck` | internal/api/limit.go:110-177 | a server that is not idle can take a step that leaves less to do |
| `Gate.GateFor` | internal/api/limit.go:58-78 | no gate exactly for a negative setting, 64 for zero, and otherwise the setting |
| `Gate.Server.Select` | internal/api/limit.go:117-125 | the select either takes a slot while there is room or times out, as the state machine does |
| `Gate.Server.Return` | internal/api/limit.go:141-146 | the deferred function is the state machine's step, and is always enabled |
| `Gate.Server.Release` | internal/api/limit.go:138-139 | so is a call of the release handed out |
| `Tally.Tallier.Add` | internal/api/inventory.go:130-159 | folding a page into the counts is counting the entries so far and the page |
| `Tally.Tallier.Result` | internal/api/inventory.go:161-203 | the rendered counts are the plain summary of the entries folded in |
| `Tally.TallyAll` | internal/api/inventory.go:205-213 | the same fold in one call gives the summary of the entries |
| `Tally.SummaryAnyOrder` | internal/api/inventory.go:105-203 | any order and any paging of the same entries gives the same answer |
| `Tally.SummaryIsComplete` | internal/api/inventory.go:161-203 | rows and other values are the distinct values, with and without are all entries, and rows and other entries are all pairs of an entry and a value |
| `Tally.SummaryListsCommonest` | internal/api/inventory.go:184-203 | each row counts the entries holding its value, and no value left out is commoner than a row |
| `Tally.RowsInOrder` | internal/api/inventory.go:182-191 | of two rows the earlier is held by more entries, or by as many and comes first in bytes: at the first difference the lower, or a prefix |
| `Tally.RowsAreBounded` | internal/api/inventory.go:161-203 | there are as many rows as asked for, at most 200, or as there are values; 200 where no number from 1 to 200 is asked for |
| `Tally.SummaryCounts` | internal/api/inventory.go:130-182 | the counts as sizes: entries holding any value, distinct values, and values held by one entry |
| `Tally.HeldIs` | internal/api/inventory.go:130-152 | the values an entry counts for are those of every description of it whose part before the first semicolon is the attribute, but for case |
| `Tally.OptionsDoNotCount` | internal/api/inventory.go:130-137 | two descriptions count as one attribute exactly when those parts are the same but for case |
| `Tally.CollectSays` | internal/api/inventory.go:264-299 | the loop fails only on an answer that is an error, and says truncated only at the limit, at the last round, or for an empty page with a cookie |
| `Tally.Inventory` | internal/api/inventory.go:257-301 | the loop tallies a prefix of the search, of the length and with the truncation the pages determine |
| `Tally.WholeUnlessCut` | internal/api/inventory.go:264-299 | an answer not said to be truncated covers the whole search unless the server cut it short, and exactly unless where the server says so only when it left something out |
| `Tally.PagingIsNotCut` | internal/api/inventory.go:286-299 | a server that pages never cuts short |
| `Tally.CutGoesUnsaid` | internal/api/inventory.go:286-299 | one that does not page and stops at its own limit is reported as whole |
| `Compare.ValueRows` | internal/api/compare.go:287-341 | the listing is the first rows, up to the limit, of the whole one, truncated exactly when that is longer |
| `Compare.SameKeySetsIff` | internal/api/compare.go:272-285 | sorting both sides and comparing is equality of multisets |
| `Compare.SameMeansBoth` | internal/api/compare.go:90-105 | a row that says the same lists every value as held by both; the converse where no side has a key twice |
| `Compare.AllBothIff` | internal/api/compare.go:287-341 | every row is on both sides exactly when the two sides have the same set of keys |
| `Compare.DiffersYetBoth` | internal/api/compare.go:90-105 | a row differs with every value on both sides exactly when the sides have the same keys, not each as often |
| `Compare.TwoSpellings` | internal/api/compare.go:90-105 | such a row, whose listing is longer from one side than from the other |
| `Compare.StatusMeans` | internal/api/compare.go:73-139 | what each status says: withheld exactly for a secret both hold, same and differs only for what was compared, one-sided exactly as presence is |
| `Compare.RowMirrors` | internal/api/compare.go:73-139 | exchanging the entries mirrors a row |
| `Compare.ComparisonMirrors` | internal/api/compare.go:45-71 | and the whole comparison: the same attributes in the same order, statuses and counts mirrored |
| `Compare.LengthMirrors` | internal/api/compare.go:287-341 | the two sides give listings of one length exactly when they share as many positions each way |
| `Compare.CutMirrorsIff` | internal/api/compare.go:45-71 | whether anything was cut short is the same either way exactly when from both sides or from neither some listing is longer than the limit |
| `Compare.CutMirrors` | internal/api/compare.go:45-71 | as it is where no entry has one key twice |
| `Compare.SecretsDoNotShow` | internal/api/compare.go:45-139 | changing only the bytes of secrets, with their number and schemes kept, leaves the whole comparison as it was |
| `Compare.SecretsAreWithheld` | internal/api/compare.go:109-131 | of a description whose part before the first semicolon is a secret's no value is listed and nothing is said to be cut; it is withheld where both sides hold it, and nothing else is |
| `Compare.ComparisonSays` | internal/api/compare.go:45-71 | and so it is in the whole comparison: values are listed exactly in the rows that are no secret's, and no more than 500 or the limit asked for |
| `Compare.SidesAreTheirs` | internal/api/compare.go:139-171 | what a row says of a side is that entry's: whether and how often it holds the attribute, whether its classes require or permit it, and of each secret the scheme in braces it begins with, up to 31 characters |
| `Compare.DnsCompareAsDns` | internal/api/compare.go:232-270 | two spellings of one DN are the same where the attribute names entries, and two values where it does not |
| `Compare.ListingSays` | internal/api/compare.go:287-341 | the listing without a limit, place by place: the left values in order, each held by both exactly when the right holds its key, then the right ones whose key the left does not hold |
| `Compare.OrderSays` | internal/api/compare.go:198-228 | the object class comes first, operational attributes last, and in between and among these the order is that of the bytes |
| `Compare.ValuesAreFirst` | internal/api/compare.go:343-351 | the values of a name are those of the first attribute that has it |
| `Compare.UnionNames` | internal/api/compare.go:173-211 | exactly the attributes held or required by either, each once, in the one order there is |
| `Compare.CompareEntries` | internal/api/compare.go:43-71 | one row for each, the counts those of the rows, truncated exactly when some row is |
| `Compare.CountsPartition` | internal/api/compare.go:534-554 | every row is in exactly one bucket |
| `Compare.CountsSay` | internal/api/compare.go:53-66 | each count is the number of rows with that status |
| `Compare.ResolveOneSided` | internal/api/compare.go:480-532 | in place, only the first 50 one-sided rows are asked about, those denied become undetermined, nothing else changes; truncated exactly when there are more than 50 |
| `Compare.SettledSays` | internal/api/compare.go:491-532 | row by row: undetermined, and marked on the side that lacks it, exactly where it is one-sided, fewer than 50 before it are, and the probe answers denied; otherwise as it was |
| `Compare.SettledCounts` | internal/api/compare.go:491-554 | settling moves rows from the one-sided buckets to the undetermined one and changes no other count |
| `Compare.Answer` | internal/api/compare.go:415-430 | the counts answered are always those of the rows answered |
| `Changeset.ApplyChangeset` | internal/api/changeset.go:112-167 | applied, then at most one failed or unknown, then not attempted; the directory is the fold of the applied ones, each allowed in its turn, and of the unknown one if it happened |
| `Changeset.ReportSays` | internal/api/changeset.go:112-167 | of each change, by its place and DN: applied exactly if before the place where the run stopped, not attempted exactly if after it, and failed or unknown exactly there; it stopped exactly if fewer were applied than there are |
| `Changeset.AppliedAreCounted` | internal/api/changeset.go:159-166 | as many outcomes are applied as the report counts |
| `Changeset.EntryHolds` | internal/api/changeset.go:112-167 | what the applied changes leave of an entry: what it was added as or held, and then the texts of the changes made to it, in order |
| `Changeset.RenamePuts` | internal/api/changeset.go:112-167 | a rename takes the entry and each below it, with what they hold, under the new RDN, below the new superior or else the old parent |
| `Changeset.ResumeCompletes` | internal/api/changeset.go:112-167 | running the rest after a failure goes on where the first run stopped, and if it completes leaves the directory a complete run would |
| `Changeset.ChangesetWarnings` | internal/api/changeset.go:291-355 | each warning the list deserves is given once, no other is, and none exactly when no entry is changed twice and no entry is added before its parent is |
| `Changeset.TidyIff` | internal/api/changeset.go:291-355 | deserving no warning is that condition, whatever the order of the map entries |
| `Changeset.ParentIff` | internal/api/changeset.go:299-325 | in such a list an add finds the parent the list adds, in every directory, when no rename between concerns the parent, and otherwise exactly when the last that does leaves an entry there |
| `Changeset.ParentsInTime` | internal/api/changeset.go:299-325 | it finds it unless a rename between moves the parent away; and exactly unless, where nothing is moved to the parent's name or above it |
| `Changeset.StopsForWantOfParent` | internal/api/changeset.go:299-325 | a run that comes to such an add, new but for its parent, stops there for want of it exactly when a rename between moved the parent away |
| `Changeset.NeverForWantOfParent` | internal/api/changeset.go:299-325 | a run that stops there without such a rename did not stop for want of that parent |
| `Changeset.RenameMovesParent` | internal/api/changeset.go:299-325 | the list for which it does, without a warning |
| `Changeset.WarnedNeverCompletes` | internal/api/changeset.go:301-323 | a list warned of for a later parent completes in no directory and on no server, where no entry is changed twice or renamed |
| `Changeset.DeletedIff` | internal/api/changeset.go:327-337 | where a list is warned of for a change to an entry deleted before, the entry is there again, in every directory, exactly when the list adds it in between, if no rename concerns its name; and otherwise as the last that does decides, with what is added after it |
| `Changeset.DeletedStops` | internal/api/changeset.go:327-337 | so, if no rename concerns the name, such a list completes only when the change adds the entry and nothing did since, or does something else to it and something did |
| `Rules.SplitFirstBy` | internal/access/openldap.go:64-78 | what and rest are the text, cut at the first clause start outside quotes |
| `Rules.SplitTokens` | internal/access/openldap.go:126-152 | the loop computes the tokens |
| `Rules.TokensAreTokens` | internal/access/openldap.go:126-152 | every token is whole: no blank of it is outside quotes, and only the last may leave a quote open |
| `Rules.SplitJoined` | internal/access/openldap.go:126-152 | splitting tokens joined by a space gives them back |
| `Rules.AccessSplitsBack` | internal/access/openldap.go:185-188 | a grant's access, split again, is the tokens it was made from |
| `Rules.ParseByClauses` | internal/access/openldap.go:162-197 | the grants are those of the clauses in order, and it says the text was read exactly when each clause names a subject and an access to the end; it terminates |
| `RulesLaws.ClauseReadsBack` | internal/access/openldap.go:174-194 | a clause written with the keyword, in any case, a subject and its access gives that one grant: the subject without its quotes, the access as it was; without an access it is not read in full |
| `RulesLaws.SubjectReadsBack` | internal/access/openldap.go:154-160 | the subject of a quoted DN is what is between the quotes |
| `RulesLaws.PlainIsItself` | internal/access/openldap.go:154-160 | a subject not quoted at both ends stays as it is |
| `RulesLaws.JoinedIs` | internal/access/openldap.go:185-188 | an access is its tokens with one space between each two and nothing at either end |
| `RulesLaws.AllReadIff` | internal/access/openldap.go:162-197 | a text is read in full exactly when it has nothing but clauses, each with a subject and an access |
| `Rules.TokensTrimIff` | internal/access/openldap.go:176-180 | trimming a piece loses no token exactly when it takes off nothing but spaces and tabs |
| `Rules.ClausesKeepTokens` | internal/access/openldap.go:162-197 | the clauses with their keywords are the tokens of a text that begins with one, exactly when no cut loses a character |
| `Rules.ClausesKeepTokensIff` | internal/access/openldap.go:162-197 | for every text: exactly when it begins with the word and no cut loses a character |
| `Rules.RuleKeepsTokens` | internal/access/openldap.go:47-54 | a whole rule, cut into what it is about and its clauses, keeps every token exactly when what is trimmed at its cuts is spaces and tabs |
| `Rules.PlainCutsOf` | internal/access/openldap.go:176-180 | as it is in a text without line breaks and the like |
| `Rules.LineBreakLost` | internal/access/openldap.go:162-197 | a rule text folded over two lines whose clauses do not spell its tokens |
| `Allowlist.EndpointRoundTrip` | internal/allowlist/allowlist.go:101-138 | an entry that was read, printed and read again is the same entry |
| `Allowlist.ListRoundTrip` | internal/allowlist/allowlist.go:292-311 | and so is a list, joined by commas |
| `Allowlist.EndpointSettles` | internal/allowlist/allowlist.go:101-189 | every entry read has a host that reads as itself, and a port in range or none |
| `Allowlist.HostSettles` | internal/allowlist/allowlist.go:58-99 | reading a host a second time changes nothing |
| `Allowlist.NormalTwice` | internal/allowlist/allowlist.go:218-252 | normalising a name again changes nothing |
| `Allowlist.NormaliseName` | internal/allowlist/allowlist.go:218-252 | the loops accept exactly the names, in lower case and without the last dot |
| `AllowlistLaws.NamesAre` | internal/allowlist/allowlist.go:218-252 | which texts are names, without cutting them up: letters, digits, hyphens, underscores and dots, at most 253, with one to 63 characters before, between and after dots, when in lower case and without one last dot |
| `Allowlist.Parse` | internal/allowlist/allowlist.go:292-311 | the entries of the parts that are not blank, in order, or nothing when one is wrong |
| `AllowlistLaws.RefusedIff` | internal/allowlist/allowlist.go:292-311 | a list is refused exactly when some part of it that is not blank is no entry |
| `AllowlistLaws.EntriesInOrder` | internal/allowlist/allowlist.go:292-311 | otherwise its entries are those of its parts that are not blank, in order |
| `AllowlistLaws.UrlsRead` | internal/allowlist/allowlist.go:147-189 | an entry written as a URL is for the port it names, or else for 389 with ldap and for 636 with ldaps |
| `AllowlistLaws.OtherUrlsRefused` | internal/allowlist/allowlist.go:147-173 | a URL of another scheme, or with a path, query, fragment or credentials, is no entry |
| `AllowlistLaws.HostsInBrackets` | internal/allowlist/allowlist.go:71-90 | brackets around a host make no difference, and an address with a zone is none |
| `AllowlistLaws.OnlyOuterBrackets` | internal/allowlist/allowlist.go:71-77 | a host with any other bracket is refused |
| `AllowlistLaws.PortsAre` | internal/allowlist/allowlist.go:129-136 | the texts read as a port are its decimal digits, perhaps after zeros, and these after a plus sign |
| `Allowlist.Check` | internal/allowlist/allowlist.go:328-347 | malformed exactly for what is no target, whatever the list; else allowed exactly when the list is empty or some entry matches |
| `Allowlist.EntryAllows` | internal/allowlist/allowlist.go:274-284 | an entry allows exactly the targets whose host reads as the entry's does, on its port or any |
| `Allowlist.SpellingsAgree` | internal/allowlist/allowlist.go:218-252 | the case of a name and a dot after it make no difference |

## Left out

- Reading an audit's schema, group classes and attribute descriptions: a group comes with its membership values in one list, already parsed.
- The audit's log of reads, its wording and its times; of what a referral is called by, only whether it is empty.
- How DNs are parsed, folded and printed, and the places where folding is by lower case rather than by key.
- Parsing the URL of a referral, or the DN matched: it is empty, names no DN (which is what a URL that names the empty DN counts as), or names one.
- NarrowBases.Narrow: says nothing about the empty DN, which is in the scope of no one-level search and which the parser of names refuses.
- Gate.NotStuck: says a step is possible, not that the scheduler takes it; a kept slot whose writer never runs stays taken.
- Changeset.EntryHolds: what a modification does to the attributes of an entry is not modelled; its text is kept.
- Changeset.ParentsInTime: where entries are moved to the parent's name, or to above it, no condition on the list alone decides; `Changeset.ParentIff` then refers to the directory before the last such move.
- The order in which a `select` with both channels ready decides, and time: either step may be taken.
- Expand.WholeWalkReportsText: texts are ASCII, so that to be alike but for case is to be the same in lower case, which is also how DNs are compared there.
- Expand.ExpandGroup: a member's chain is an immutable sequence; what sharing makes of it is in `SharedChains`. The membership attributes of a group are one list of values, and whether an entry is a group is part of what reading it answers; a read that ends the request may come at any point.
- SharedChains.ReportedChains: the walk is the tree of groups that are entered, each once from one group; reads and limits, which decide that tree, are in `Expand`.
- The YAML text of a task, headers, names and comments, and attribute names that differ only in case; attributes with their own matching rules, so values are compared as they are.
- Tasks for add, delete, rename and password changes.
- Tally.Tallier.Result: rows carry values, not their rendering; the sort of the library is an insertion sort here, which is the same since the order is strict.
- Compare.SidesAreTheirs: a scheme that is no valid UTF-8 is shown as none by the code; here texts are characters.
- Compare.UnionNames: attribute names are folded, so the spelling shown, which is the first seen, is not modelled; nor is the rendering of values.
- What an entry's classes require and permit is given with the entry, and the visibility probe is a table of answers; a probe that fails and one that says absent change nothing.
- Changeset.ApplyChangeset: recovery records, plan checks before the run and validation of each change are left out, and so are the entries' contents beyond the texts of the changes made to them.
- Changeset.ChangesetWarnings: which warnings are given, not their wording or order.
- Allowlist: texts are ASCII. The code lowers a name with the library's Unicode rule, which also turns the Kelvin sign and the dotted capital I into ASCII letters; the comment there speaks of ASCII only.
- Allowlist.Check: the text of the refusal; why a target or an entry is malformed is not told apart.
- The target of a rule, whether it applies to an entry, and the access control syntax of other servers.
- HTTP handlers, sessions, LDAP connections, TLS, logging, the web interface and the command line.
