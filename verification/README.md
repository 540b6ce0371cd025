# bitbucket-sunset, modelled in Dafny

bitbucket-sunset moves repository permissions from Bitbucket Data Center to a GitHub
organisation. It runs in three batch stages: extract, expand and apply. This project models the
pure decision logic of the last two stages and proves properties about it:

- **Permission vocabulary** (`Perms`).
  - The order `REPO_READ < REPO_WRITE < REPO_ADMIN`.
  - The Bitbucket-to-GitHub level table.
  - The strength merge `max_perm`.
  - The `{project_key}-{repo_slug}` naming of GitHub repositories.
- **Expand** (`ExpandGroups`, `ExpandSpec`, `ExpandProperties`).
  - Direct user grants are folded into an insertion-ordered dictionary keyed by
    `(project_key, repo_slug, email)`. Then every (group grant × indexed group member) pair is
    folded in.
  - The result is sorted by that key.
  - `ExpandSpec` gives an independent reference meaning: the ordered list of contributions of
    each key, and the row that list determines. It proves that the dictionary fold computes exactly that row.
- **Apply** (`ApplyInputs`, `ApplyGithub`, `ApplyProperties`).
  - Load the email-to-login mapping.
  - Group the effective rows by target repository and visit the repositories in sorted name order.
  - Per entry, map the permission to a GitHub level and resolve the login.
  - Normalise the permission GitHub reports, then decide between skip, no-op, dry-run report
    and grant.
  - GitHub is a state value: the set of repositories that open, and the result of each permission read.
    A grant updates that state, so a later read in the same run sees it.

Two shared modules support this:

- `Strings`: Python's `str.strip` (over the `str.isspace` character set) and `str.lower`.
- `Ordering`: lexicographic order, strict total orders, and an insertion sort with a
  uniqueness theorem for strictly sorted sequences.

"Strongest wins" might be read as keeping the earlier row's `source`/`source_principal` when a
later row brings an equal or weaker permission. The code does not do that: every contributing row
overwrites the attribution (`bitbucket_sunset/expand_groups.py:47-54`, `:73-80`), and `Summary` and
`ExpandAttribution` state that behaviour.

## Model

| member | source | states |
|---|---|---|
| Perms.IndexOf | bitbucket_sunset/utils.py:44 | `list.index`: `None` exactly when the value is absent; otherwise the first position holding it |
| Perms.Rank | bitbucket_sunset/utils.py:12 | a known permission's strength is its position in `PERM_ORDER` |
| Perms.MaxPerm | bitbucket_sunset/utils.py:40-48 | no stored value yields the new value; an unknown value on either side keeps the stored one; two known values yield one of them, at least as strong as both |
| Perms.RankInjective | bitbucket_sunset/utils.py:12 | distinct known permissions have distinct strengths |
| Perms.MaxPermIsMax | bitbucket_sunset/utils.py:44 | on known values the merge is the maximum under READ < WRITE < ADMIN |
| Perms.MaxPermNoneYieldsNew | bitbucket_sunset/utils.py:41-42 | `max_perm(None, p) == p` for every string, unknown or empty included |
| Perms.MaxPermUnknownAbsorbing | bitbucket_sunset/utils.py:43-48 | an unknown stored value survives every merge |
| Perms.MaxPermUnknownIgnored | bitbucket_sunset/utils.py:43-48 | an unknown new value leaves the stored value unchanged |
| Perms.MaxPermCommutative | bitbucket_sunset/utils.py:44 | on known values the merge is commutative |
| Perms.MaxPermAssociative | bitbucket_sunset/utils.py:44 | on known values the merge is associative |
| Perms.MaxPermIdempotent | bitbucket_sunset/utils.py:44 | merging a value with itself gives it back |
| Perms.BitbucketToGithubOrderPreserving | bitbucket_sunset/utils.py:12-17 | the level table is defined exactly on the three permissions, is injective, and maps rank i to the i-th of pull, push, admin |
| Perms.FromProjectRepo | bitbucket_sunset/utils.py:57-60 | the organisation is kept and the repository is named `project_key-repo_slug` |
| Perms.FirstHyphen | bitbucket_sunset/utils.py:59 | with a hyphen-free project key, the first hyphen of the name ends the key |
| Perms.FromProjectRepoInjective | bitbucket_sunset/utils.py:57-60 | with hyphen-free project keys, distinct Bitbucket repositories get distinct GitHub names |
| Perms.FromProjectRepoCollision | bitbucket_sunset/utils.py:57-60 | without that condition names collide: `A-B`/`c` and `A`/`B-c` |
| Strings.LeadingSpace | bitbucket_sunset/expand_groups.py:38 | counts exactly the run of whitespace that opens the string |
| Strings.TrailingSpace | bitbucket_sunset/expand_groups.py:38 | counts exactly the run of whitespace that closes the string |
| Strings.StripSpec | bitbucket_sunset/expand_groups.py:38 | stripping never lengthens; the result has no whitespace at either end; it is empty exactly when the input is all whitespace; an input with no whitespace at either end is unchanged |
| Strings.StripTrimsOnlySpace | bitbucket_sunset/expand_groups.py:38 | the result is a contiguous slice of the input, and everything cut off is whitespace |
| Strings.StripIdempotent | bitbucket_sunset/expand_groups.py:66 | stripping twice equals stripping once |
| Strings.LowerChar | bitbucket_sunset/apply_github_permissions.py:19 | `A`-`Z` become the letter 32 code points up (`a`-`z`); every character other than `A`-`Z` is unchanged; the result is never upper-case and whitespace status is kept |
| Strings.LowerSpec | bitbucket_sunset/apply_github_permissions.py:19 | lower-casing keeps the length and acts character by character |
| Strings.LowerIdempotent | bitbucket_sunset/apply_github_permissions.py:69 | lower-casing twice equals lower-casing once |
| Strings.NormalizeIdempotent | bitbucket_sunset/apply_github_permissions.py:19 | a normalised email normalises to itself |
| Ordering.LexIrreflexive | bitbucket_sunset/expand_groups.py:83 | lexicographic order over an irreflexive element order is irreflexive |
| Ordering.LexTransitive | bitbucket_sunset/expand_groups.py:83 | lexicographic order over a strict total element order is transitive |
| Ordering.LexTrichotomous | bitbucket_sunset/expand_groups.py:83 | any two distinct sequences are comparable |
| Ordering.LexStrictTotal | bitbucket_sunset/expand_groups.py:83 | lexicographic order over a strict total order is one too |
| Ordering.StrLtIsStrictTotal | bitbucket_sunset/apply_github_permissions.py:60 | Python's string comparison is a strict total order |
| Ordering.TupleLtIsStrictTotal | bitbucket_sunset/expand_groups.py:83 | Python's comparison of string tuples is a strict total order |
| Ordering.ConsSorted | bitbucket_sunset/expand_groups.py:83 | an element below all others can be put in front of a sorted list |
| Ordering.Insert | bitbucket_sunset/expand_groups.py:83 | insertion into a sorted list keeps it sorted and adds exactly that element |
| Ordering.SortedTail | bitbucket_sunset/expand_groups.py:83 | the tail of a sorted list is sorted |
| Ordering.DistinctTail | bitbucket_sunset/expand_groups.py:83 | the tail of a list with distinct keys has distinct keys |
| Ordering.BelowHead | bitbucket_sunset/expand_groups.py:83 | an element below the head of a sorted list is below all of it |
| Ordering.HeadBelowRest | bitbucket_sunset/expand_groups.py:83 | the head stays below a rearranged tail extended by a larger element |
| Ordering.HeadKeyFresh | bitbucket_sunset/expand_groups.py:83 | with distinct keys, the head's key occurs nowhere in any rearrangement of the tail, and head plus tail is the whole multiset |
| Ordering.Sort | bitbucket_sunset/expand_groups.py:83 | for distinct keys, the result is sorted and a permutation of the input |
| Ordering.SortedUnique | bitbucket_sunset/expand_groups.py:83 | two strictly sorted lists with the same elements are equal, so the order is fully determined |
| ExpandGroups.SortKeyInjective | bitbucket_sunset/expand_groups.py:83 | equal sort tuples mean equal dictionary keys |
| ExpandGroups.Get | bitbucket_sunset/expand_groups.py:43 | a hit is a stored row with that key; a miss means no stored row has it |
| ExpandGroups.Upsert | bitbucket_sunset/expand_groups.py:47-54 | after the assignment the key maps to the new row and every other key is unchanged; keys stay unique |
| ExpandGroups.Combine | bitbucket_sunset/expand_groups.py:45-54 | the written row carries the key it is stored under |
| ExpandGroups.Record | bitbucket_sunset/expand_groups.py:43-54 | one update changes only its own key, to the merged permission with the new row's attribution |
| ExpandGroups.IndexFrom | bitbucket_sunset/expand_groups.py:27-31 | the index loop continued from an accumulator appends each group's rows in file order and never indexes the empty group |
| ExpandGroups.IndexMembers | bitbucket_sunset/expand_groups.py:27-31 | `members_by_group[g]` is the member rows of group g in file order; the empty group is never a key |
| ExpandGroups.ApplyDirect | bitbucket_sunset/expand_groups.py:37-54 | the direct loop keeps keys unique |
| ExpandGroups.IndexStep | bitbucket_sunset/expand_groups.py:28-31 | one iteration of the index loop keeps "indexed so far + still to come" unchanged for every group |
| ExpandGroups.IndexStepAt | bitbucket_sunset/expand_groups.py:28-31 | the same for one named group |
| ExpandGroups.ApplyMembers | bitbucket_sunset/expand_groups.py:65-80 | the member loop keeps keys unique |
| ExpandGroups.GroupStep | bitbucket_sunset/expand_groups.py:57-80 | one group row keeps keys unique |
| ExpandGroups.ApplyGroups | bitbucket_sunset/expand_groups.py:57-80 | the group loop keeps keys unique |
| ExpandGroups.EffectiveMap | bitbucket_sunset/expand_groups.py:34-80 | the dictionary has one entry per key |
| ExpandGroups.UniqueSortKeys | bitbucket_sunset/expand_groups.py:82-83 | unique keys mean unique sort tuples |
| ExpandGroups.Expand | bitbucket_sunset/expand_groups.py:82-83 | the output is strictly sorted by (project_key, repo_slug, email), has one row per key, and is a permutation of the dictionary's values |
| ExpandSpec.AccumulateConcat | bitbucket_sunset/expand_groups.py:43-54 | folding two lists of contributions in a row is folding their concatenation |
| ExpandSpec.ApplyDirectAt | bitbucket_sunset/expand_groups.py:37-54 | the direct loop leaves each key at the fold of that key's direct contributions |
| ExpandSpec.ApplyMembersAt | bitbucket_sunset/expand_groups.py:65-80 | the member loop leaves each key at the fold of that key's contributions from those members |
| ExpandSpec.ApplyGroupsAt | bitbucket_sunset/expand_groups.py:57-80 | the group loop leaves each key at the fold of that key's group contributions |
| ExpandSpec.EffectiveAt | bitbucket_sunset/expand_groups.py:34-80 | the dictionary's entry for each key is the fold of all its contributions, direct first |
| ExpandSpec.AccumulateIsSummary | bitbucket_sunset/expand_groups.py:43-54 | folding from an empty entry yields the reference row: the left `max_perm` fold and the last contribution's attribution |
| ExpandSpec.GetMember | bitbucket_sunset/expand_groups.py:43 | in a dictionary with unique keys, looking up a stored row's key finds that row |
| ExpandSpec.GetPermutation | bitbucket_sunset/expand_groups.py:82-83 | lookups agree between two permutations with unique keys |
| ExpandSpec.ExpandMatchesReference | bitbucket_sunset/expand_groups.py:36-83 | the output row of every key is exactly what the reference definition gives for that key's contributions |
| ExpandProperties.FoldPermKnownMax | bitbucket_sunset/expand_groups.py:46 | over known permissions the fold is the strongest one occurring |
| ExpandProperties.FoldPermFirstUnknown | bitbucket_sunset/expand_groups.py:46 | an unknown first permission sticks whatever follows |
| ExpandProperties.FoldPermOrderIndependent | bitbucket_sunset/expand_groups.py:46 | over known permissions the fold depends only on which permissions occur |
| ExpandProperties.MembersOfMembership | bitbucket_sunset/expand_groups.py:28-31 | a group's indexed rows are exactly the member rows naming it |
| ExpandProperties.DirectContribsMembership | bitbucket_sunset/expand_groups.py:37-42 | a direct contribution comes exactly from a row with that key and a non-empty stripped email |
| ExpandProperties.MemberContribsMembership | bitbucket_sunset/expand_groups.py:65-69 | a member contribution comes exactly from a member with a non-empty stripped email |
| ExpandProperties.GroupContribsMembership | bitbucket_sunset/expand_groups.py:57-69 | a group contribution comes exactly from a (row with a non-empty group, member of that group) pair |
| ExpandProperties.ContribsMembership | bitbucket_sunset/expand_groups.py:36-80 | the contributions of a key are exactly the direct and group-derived ones |
| ExpandProperties.ExpandShape | bitbucket_sunset/expand_groups.py:82-83 | rows are strictly increasing by the sort tuple, keys are distinct, and each row is its key's reference row |
| ExpandProperties.ExpandPermissionIsMax | bitbucket_sunset/expand_groups.py:46 | when every contribution to a key is known, the key's permission is the strongest one contributed |
| ExpandProperties.SameRowsSameContributions | bitbucket_sunset/expand_groups.py:36-80 | inputs with the same rows in any order give a key the same set of contributions |
| ExpandProperties.SameElementsSamePermission | bitbucket_sunset/expand_groups.py:46 | contribution lists with the same elements, all known, fold to the same permission |
| ExpandProperties.ExpandKeysOrderIndependent | bitbucket_sunset/expand_groups.py:36-80 | reordering (or repeating) the rows of the input files never changes which keys appear, whatever the permissions |
| ExpandProperties.ExpandOrderIndependent | bitbucket_sunset/expand_groups.py:36-80 | the same for the keys; when every contribution to a key is a known permission, reordering also leaves that key's permission unchanged |
| ExpandProperties.LastContribution | bitbucket_sunset/expand_groups.py:36-80 | with direct contributions folded before group ones, the last contribution is a group one exactly when there is any, and then it is the last group one; otherwise it is the last direct one |
| ExpandProperties.ExpandAttribution | bitbucket_sunset/expand_groups.py:47-54 | attribution follows the last contributing row even when it did not raise the permission; group rows come last |
| ExpandProperties.ContribsAttribution | bitbucket_sunset/expand_groups.py:36-80 | the last contribution to a key is group-sourced exactly when the key has group contributions, and carries the principal of the last group row, or else of the last direct row |
| ExpandProperties.SourcesOfContribs | bitbucket_sunset/expand_groups.py:47-80 | every direct contribution is user-sourced and every group-derived one group-sourced |
| ExpandProperties.ReachedThroughGroup | bitbucket_sunset/expand_groups.py:57-80 | a key reached through a group is output with `source == group` |
| ExpandProperties.GroupContributionSource | bitbucket_sunset/expand_groups.py:78 | group contributions carry `source == group` |
| ExpandProperties.DirectContributionSource | bitbucket_sunset/expand_groups.py:52 | direct contributions carry `source == user` |
| ExpandProperties.ExpandProvenance | bitbucket_sunset/expand_groups.py:36-80 | every output key has a non-empty email and comes from a direct row or a (group row, member) pair; the email is stripped and its case is kept |
| ExpandProperties.DirectContribsConcat | bitbucket_sunset/expand_groups.py:37 | direct contributions of concatenated files concatenate |
| ExpandProperties.MembersOfConcat | bitbucket_sunset/expand_groups.py:28 | indexed members of concatenated files concatenate |
| ExpandProperties.MemberContribsConcat | bitbucket_sunset/expand_groups.py:65 | member contributions of concatenated member lists concatenate |
| ExpandProperties.GroupContribsConcat | bitbucket_sunset/expand_groups.py:57 | group contributions of concatenated files concatenate |
| ExpandProperties.ExpandDetermined | bitbucket_sunset/expand_groups.py:36-83 | the output depends on the inputs only through each key's contributions |
| ExpandProperties.DirectRowWithoutEmailIgnored | bitbucket_sunset/expand_groups.py:38-41 | a direct row whose stripped email is empty can be removed without changing the output |
| ExpandProperties.MemberContribsNone | bitbucket_sunset/expand_groups.py:66-68 | members without a stripped email contribute nothing |
| ExpandProperties.GroupRowIgnored | bitbucket_sunset/expand_groups.py:58-68 | a group row with an empty group, or with no member that has an email, can be removed without changing the output |
| ExpandProperties.GroupRowContribsMemberIgnored | bitbucket_sunset/expand_groups.py:28-31 | for one group row, a member row with an empty group or email adds no contribution |
| ExpandProperties.GroupContribsMemberIgnored | bitbucket_sunset/expand_groups.py:28-31 | a member row with an empty group or email adds no group contribution |
| ExpandProperties.MemberRowIgnored | bitbucket_sunset/expand_groups.py:28-31 | such a member row can be removed without changing the output |
| ExpandProperties.ExampleGroupRaises | bitbucket_sunset/expand_groups.py:70-80 | direct READ then group WRITE gives WRITE attributed to the group |
| ExpandProperties.ExampleAttributionWithoutIncrease | bitbucket_sunset/expand_groups.py:70-80 | direct ADMIN then group READ keeps ADMIN but is attributed to the group |
| ExpandProperties.SingleKeyOutput | bitbucket_sunset/expand_groups.py:82-83 | inputs that reach a single key produce exactly that key's row |
| ExpandProperties.ExampleDirectPlusGroup | bitbucket_sunset/expand_groups.py:36-83 | a direct READ plus a group WRITE for the same email give one WRITE row attributed to the group |
| ApplyInputs.NormEmailSpec | bitbucket_sunset/apply_github_permissions.py:19 | `NormEmail`, the `.strip().lower()` of apply_github_permissions.py:19 and :69: never longer than the input, no upper-case letter, no whitespace at either end, and empty exactly when the input is all whitespace |
| ApplyInputs.LastLoginSnoc | bitbucket_sunset/apply_github_permissions.py:18-22 | a further mapping row decides its own email and leaves every other email alone |
| ApplyInputs.LastLoginStep | bitbucket_sunset/apply_github_permissions.py:18-22 | if a map agrees with the rows read so far, one more row is reflected by assigning its email when the row is usable and by nothing otherwise |
| ApplyInputs.LastLoginMeaning | bitbucket_sunset/apply_github_permissions.py:18-22 | an email has a login exactly when some usable row names it, and the login comes from such a row |
| ApplyInputs.LastLoginLastWins | bitbucket_sunset/apply_github_permissions.py:18-22 | later rows overwrite earlier ones for the same normalised email |
| ApplyInputs.NormalisedStep | bitbucket_sunset/apply_github_permissions.py:19-22 | storing a usable row keeps every key normalised and every value stripped and non-empty |
| ApplyInputs.LoadStep | bitbucket_sunset/apply_github_permissions.py:18-22 | one iteration of the loading loop keeps the map in agreement with the rows read and keeps it normalised |
| ApplyInputs.LoadEmailToLogin | bitbucket_sunset/apply_github_permissions.py:14-23 | no file gives an empty map; otherwise each email maps to the login of its last usable row; keys are non-empty, stripped and lower-case, and values are non-empty and stripped |
| ApplyInputs.RepoOf | bitbucket_sunset/apply_github_permissions.py:54-57 | an entry targets `org/project_key-repo_slug` |
| ApplyInputs.RowsFor | bitbucket_sunset/apply_github_permissions.py:52-58 | a repository's rows are exactly the rows aimed at it |
| ApplyInputs.Find | bitbucket_sunset/apply_github_permissions.py:58 | a lookup hits exactly when some bucket has that name |
| ApplyInputs.AddEntry | bitbucket_sunset/apply_github_permissions.py:58 | `setdefault(...).append` adds the row to the end of its own bucket only, creating the bucket if needed; names stay distinct |
| ApplyInputs.GroupByRepo | bitbucket_sunset/apply_github_permissions.py:52-58 | bucket names are distinct |
| ApplyInputs.GroupByRepoContents | bitbucket_sunset/apply_github_permissions.py:52-58 | each targeted repository has exactly one bucket, holding its rows in row order; untargeted repositories have none |
| ApplyInputs.Plan | bitbucket_sunset/apply_github_permissions.py:60 | repositories are visited in strictly increasing name order, each once, with the buckets of the grouping |
| ApplyInputs.PlanContents | bitbucket_sunset/apply_github_permissions.py:52-60 | every visited bucket is non-empty and holds exactly its repository's rows in order; every row's repository is visited |
| ApplyInputs.FindDistinct | bitbucket_sunset/apply_github_permissions.py:58 | with distinct names, looking up a bucket's name finds that bucket |
| ApplyGithub.DesiredLevel | bitbucket_sunset/apply_github_permissions.py:70-74 | an empty permission counts as READ; the three permissions map to their levels; any other gives no level |
| ApplyGithub.ResolveLogin | bitbucket_sunset/apply_github_permissions.py:76-83 | a non-empty mapped login wins; otherwise a non-empty default is used; otherwise there is none |
| ApplyGithub.Resolve | bitbucket_sunset/apply_github_permissions.py:69-83 | an entry resolves exactly when it has both a level and a login; the target is the resolved login (mapped, else the default) and the entry's desired level (`BITBUCKET_TO_GITHUB[permission or REPO_READ]`, via `DesiredLevel`); the login is non-empty and the level is pull, push or admin |
| ApplyGithub.Normalize | bitbucket_sunset/apply_github_permissions.py:93-99 | the reported name is mapped onto the tool's levels: only `write` and `read` change, to `push` and `pull`; `admin`, `triage`, `maintain` and any unlisted name are kept as they are |
| ApplyGithub.ReportedName | bitbucket_sunset/apply_github_permissions.py:90-101 | the name GitHub reports for a granted level normalises back to that level |
| ApplyGithub.NormalizeInverse | bitbucket_sunset/apply_github_permissions.py:91-101 | a reported name counts as a level exactly when it is the level itself or GitHub's name for it |
| ApplyGithub.NormalizeKeepsExtraRoles | bitbucket_sunset/apply_github_permissions.py:93-99 | `maintain` and `triage` never count as a granted level |
| ApplyGithub.Read | bitbucket_sunset/apply_github_permissions.py:88-104 | `get_collaborator_permission`: a (repository, login) pair GitHub has no record of takes the exception path; a recorded pair reads as recorded, possibly no value or an empty name (`ReadFailureForcesGrant` gives the consequence) |
| ApplyGithub.Grant | bitbucket_sunset/apply_github_permissions.py:115 | after a grant the exact (repository, login) pair reads as the granted level; nothing else changes (case-sensitive, no inherited permissions: see Left out) |
| ApplyGithub.ProcessEntry | bitbucket_sunset/apply_github_permissions.py:68-119 | one action per entry, and the four-way decision is pinned: an unknown permission is skipped exactly when the level table has no entry for it; no-mapping exactly when the level is known but no login resolves; a no-op exactly when the entry resolves and the current read already gives the level; otherwise a grant outside a dry run and a would-apply report in one; only a grant changes state, and it grants the resolved login and level |
| ApplyGithub.ProcessEntries | bitbucket_sunset/apply_github_permissions.py:68 | one action per entry; repository reachability never changes |
| ApplyGithub.ProcessRepo | bitbucket_sunset/apply_github_permissions.py:62-66 | a repository that cannot be opened yields a single report and no change |
| ApplyGithub.ProcessRepos | bitbucket_sunset/apply_github_permissions.py:60-68 | reachability never changes over the run |
| ApplyGithub.ApplyPermissions | bitbucket_sunset/apply_github_permissions.py:52-119 | `apply_permissions` after loading: group, sort, visit every repository; the set of reachable repositories never changes. Its effect is stated by `ApplyDryRun`, `ApplyGrantTargets`, `ApplyFrame`, `ApplySettles` and `ApplyIdempotent` |
| ApplyProperties.EntriesDryRun | bitbucket_sunset/apply_github_permissions.py:110-112 | a dry run over a repository's entries grants nothing and changes nothing |
| ApplyProperties.EntriesActions | bitbucket_sunset/apply_github_permissions.py:68-119 | every entry action names its repository, and every grant, report or no-op is for what some entry resolves to |
| ApplyProperties.EntriesFrame | bitbucket_sunset/apply_github_permissions.py:114-115 | only pairs that received a grant read differently afterwards |
| ApplyProperties.EntriesPreserve | bitbucket_sunset/apply_github_permissions.py:86-119 | a settled collaborator stays settled when every entry for that login asks for the same level |
| ApplyProperties.EntriesSettle | bitbucket_sunset/apply_github_permissions.py:68-119 | when entries resolving to the same login ask for the same level (`ConsistentEntries`), after a real run every resolvable entry's collaborator holds its level; `ExampleInconsistentRegrants` shows this fails without the condition |
| ApplyProperties.EntriesQuiet | bitbucket_sunset/apply_github_permissions.py:106-108 | when every entry is settled, nothing is granted or reported and the state is unchanged |
| ApplyProperties.ReposDryRun | bitbucket_sunset/apply_github_permissions.py:110-112 | a dry run over all repositories grants nothing and changes nothing |
| ApplyProperties.ReposActions | bitbucket_sunset/apply_github_permissions.py:60-119 | every action is for a visited repository; an unreachable repository yields only its report; grants come from that repository's entries |
| ApplyProperties.ReposFrame | bitbucket_sunset/apply_github_permissions.py:114-115 | only pairs that received a grant read differently afterwards |
| ApplyProperties.ReposSettle | bitbucket_sunset/apply_github_permissions.py:60-119 | with distinct repository names and consistent entries, every resolvable entry of a reachable repository ends settled |
| ApplyProperties.ReposQuiet | bitbucket_sunset/apply_github_permissions.py:106-108 | a run over settled repositories grants nothing and changes nothing |
| ApplyProperties.ApplyDryRun | bitbucket_sunset/apply_github_permissions.py:110-112 | with `--dry-run` no write is ever emitted and GitHub is unchanged |
| ApplyProperties.ApplyGrantTargets | bitbucket_sunset/apply_github_permissions.py:54-58 | every write goes to a reachable `org/project_key-repo_slug` of some row, with a level in {pull, push, admin} and the login that row resolves to; unreachable repositories get only their report |
| ApplyProperties.ApplyFrame | bitbucket_sunset/apply_github_permissions.py:114-115 | reachability is unchanged, and only pairs that received a grant read differently after the run |
| ApplyProperties.PlanConsistent | bitbucket_sunset/apply_github_permissions.py:52-60 | consistent rows give consistent buckets |
| ApplyProperties.ApplySettles | bitbucket_sunset/apply_github_permissions.py:60-119 | after a real run over consistent rows, every resolvable row of a reachable repository has its collaborator at its level |
| ApplyProperties.ApplyIdempotent | bitbucket_sunset/apply_github_permissions.py:86-108 | a second real run over the same consistent rows writes nothing and changes nothing |
| ApplyProperties.ReadFailureForcesGrant | bitbucket_sunset/apply_github_permissions.py:86-104 | a failed read, no value or an empty name always leads to a write for a resolvable entry |
| ApplyProperties.ExampleDowngrade | bitbucket_sunset/apply_github_permissions.py:100-115 | an administrator whose entry asks for REPO_READ is rewritten to `pull` |
| ApplyProperties.ExampleInconsistentRegrants | bitbucket_sunset/apply_github_permissions.py:76-115 | two entries of one repository falling back to the same default login with READ and ADMIN make a second run write `pull` again |

## Left out

- CSV reading and writing, and `expand`'s `dry_run` flag, which only suppresses the output file. Inputs and outputs are sequences of records.
- The Bitbucket REST client, the extract stage and the command-line parser.
- Logging and warnings. No statement is made about warning counts.
- CSV fields are strings. A short CSV row that gives `None` for a field is modelled as an empty
  string. The code treats both the same way wherever it uses `or ""`.
- The mapping file path is an `Option` of its rows. An empty path and no path are both `None`.
- The GitHub client calls:
  - `get_repo` succeeds exactly for the names in `Github.reachable`.
  - `get_collaborator_permission` is `Read`. A pair missing from the map reads as an exception.
  - `add_to_collaborators` is `Grant`. It is assumed to succeed and to take effect at once, so a
    failed write is not modelled. An invitation still waiting to be accepted is not modelled either.
- Strings.LowerChar: only ASCII letters are lower-cased, while Python's `str.lower` is Unicode-wide.
- ApplyProperties.ApplyIdempotent and ApplyProperties.ApplySettles require consistent rows:
  within one repository, two rows that resolve to the same login ask for the same level. This is
  needed because the code applies entries in order and the last one wins.
  `ExampleInconsistentRegrants` shows a second run writing again when the rows are not consistent.
  Such rows arise in several ways:
  - several unmapped emails fall back to one `--default-missing` login;
  - two mapping rows for different emails name one login;
  - two effective rows have emails that differ only in case. Expand keeps the case
    (`bitbucket_sunset/expand_groups.py:38`) and apply lower-cases it
    (`bitbucket_sunset/apply_github_permissions.py:69`), so both rows resolve to one login.
  Both lemmas also compare logins and repository names as exact strings, and so does `Grant`.
  GitHub treats names that differ only in case as one account or repository. So rows such as
  `a ↦ Alice` at REPO_READ and `b ↦ alice` at REPO_ADMIN on one repository count as consistent
  here, yet on GitHub they are one collaborator and every run writes again.
- ApplyGithub.Grant: a read after a grant reports exactly the granted level. Case-insensitive
  login and repository names are not modelled, and neither are higher permissions inherited from
  the organisation or a team. On GitHub such an inherited permission is what the read reports,
  and the entry is then rewritten on every run.
- Perms.FromProjectRepoInjective assumes project keys contain no hyphen, as Bitbucket keys do not.
  Without that, `FromProjectRepoCollision` shows two repositories sharing one GitHub name.
