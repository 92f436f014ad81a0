# Contributor statistics: records, new-contributor test and merging

This project models the contributor-aggregation core of a tool that reports
the contributors of a set of GitHub repositories. It covers three parts:

- the `ContributorStats` record with its construction and its equality;
- `is_new_contributor`, which decides whether a user counts as new against
  the users who contributed before the reporting period;
- `merge_contributors`, which merges the per-repository contributor lists into
  one list with one record per user.

The Dafny modules follow the source:

- `Records` (records.dfy) holds the class `ContributorStats` and the value
  `Stats`, a snapshot of its six fields.
- `NewContributor` (new_contributor.dfy) holds the substring test and
  `IsNewContributor`.
- `MergeSpec` (merge_spec.dfy) holds the specification of the merge, with its
  properties. The merge is a left fold `Merge` over the flattened input. Each
  input element is an `Entry`: the object together with its field values
  before merging.
- `Merging` (merge.dfy) holds the imperative merge. The three nested loops of
  the source are split into `MergeContributors` (the loop over repositories),
  `MergeRepository` (the body of that loop, one repository),
  `MergeRow` (the loop over one repository's contributors), `AddContributor`
  (the membership test and the append) and `MergeIntoExisting` (the in-place
  update loop). Each method is proved against the fold.

The fold is built from three definitions. `Combine` merges one record's
values into another's: the counts are added, the commit URLs are joined with
", ", the new-contributor flags are or-ed, and every other field stays the
first record's (contributor_stats.py:111-123). `Updated` applies `Combine` to a
merged entry of the same user. When the new entry is that very object, it
combines the entry with its own current values. `Step` updates every entry
of the new entry's user when that user is present, and otherwise appends the
entry (contributor_stats.py:108-126). `Merge` folds `Step` over the flattened
input, starting from the empty list (contributor_stats.py:104-126).

The merge mutates the first object seen for each user. The fold keeps object
identity so that it stays exact when one object is listed more than once. In
that case the object takes in its own, already merged, values, as in the
source. The per-user aggregate properties (sum, join, or) are proved for input
in which no object is listed twice (`NoAlias`). `MergeAliasedDoubles` shows
what happens otherwise.

## Model

| member | source | states |
|---|---|---|
| Records.ContributorStats.constructor | contributor_stats.py:38-54 | The new record holds the given user name, avatar URL, contribution count, commit URL and sponsor page, and its new-contributor flag is false whatever was passed. |
| Records.ContributorStats.Equals | contributor_stats.py:66-74 | Two records are equal exactly when they agree on every field once the sponsor page is disregarded. |
| Records.EqualsReflexive | contributor_stats.py:66-74 | Every record equals itself. |
| Records.EqualsSymmetric | contributor_stats.py:66-74 | Equality does not depend on the order of its operands. |
| Records.EqualsTransitive | contributor_stats.py:66-74 | Equality is transitive. |
| Records.EqualsIgnoresSponsor | contributor_stats.py:66-74 | Records that differ only in their sponsor page are equal. |
| NewContributor.ContainsIff | contributor_stats.py:89 | The recursive substring test holds exactly when the user name occurs at some position of the other name. |
| NewContributor.ContainsInfix | contributor_stats.py:89 | A name that occurs anywhere inside another name passes the substring test, so an exact match counts as returning. |
| NewContributor.IsNewContributor | contributor_stats.py:77-91 | The result is true exactly when the user name is a substring of no returning contributor's name; it is true for an empty list. |
| MergeSpec.FlattenCons | contributor_stats.py:105-106 | Flattening visits the first repository's list first, then the rest in order. |
| MergeSpec.MergeNames | contributor_stats.py:102-126 | The merged user names are pairwise distinct and are exactly the user names of the input. |
| MergeSpec.MergeFirstOccurrences | contributor_stats.py:105-126 | Each merged entry is the first input object of its user and keeps that object's avatar URL and sponsor page. Merged entries appear in the order of their users' first occurrences. |
| MergeSpec.OccurrencesEmpty | contributor_stats.py:108 | A user has no entries exactly when the user's name is not among the input names. |
| MergeSpec.MergeCombinesOccurrences | contributor_stats.py:108-126 | Without aliasing, each merged entry is all entries of its user combined in input order. |
| MergeSpec.CombineAllFields | contributor_stats.py:111-123 | Combining entries sums their counts, joins their commit URLs with ", " in order, and ors their new-contributor flags. The user name, avatar URL and sponsor page stay those of the first entry. |
| MergeSpec.MergedEntryAggregates | contributor_stats.py:111-123 | Without aliasing, a merged entry's count is the sum of its user's counts, its commit URL is the user's URLs joined with ", ", and its flag is the or of the user's flags. |
| MergeSpec.StepUpdateTotal | contributor_stats.py:109-114 | When the merged user names are distinct and the entry's object is not itself one of the merged objects, folding in an entry of a user who is already merged raises the total count by exactly that entry's count. |
| MergeSpec.MergeAvoidsLater | contributor_stats.py:109-126 | Without aliasing, no merged object is the object of a later input entry. |
| MergeSpec.MergePreservesTotal | contributor_stats.py:111-114 | Without aliasing, the total contribution count of the merged list equals that of the input. |
| MergeSpec.MergeAliasedDoubles | contributor_stats.py:109-123 | When one object is listed twice around another record of the same user, its count ends up as twice the sum of the two counts, and the merged total is the input's total plus the other record's count. |
| Merging.Usernames | contributor_stats.py:108 | The list of user names has one element per record, in the same order. |
| Merging.EntriesFlatten | contributor_stats.py:105-106 | Pairing the flattened input with its values gives the same list as doing so repository by repository. |
| Merging.MergeContributors | contributor_stats.py:94-128 | The returned objects, with their new field values, are exactly the fold over the input's original values. Every input object that is not returned keeps its fields. |
| Merging.MergeRepository | contributor_stats.py:105-126 | Merging one repository's list extends the fold by that list. Objects outside the result keep their values. |
| Merging.MergeRow | contributor_stats.py:106-126 | The loop over one repository's contributors extends the fold by that repository's entries. It only appends, and it leaves the unmerged records as they were. |
| Merging.AddContributor | contributor_stats.py:107-126 | One contributor extends the fold by one step. The merged list is either unchanged or gains that contributor at its end. |
| Merging.MergeIntoExisting | contributor_stats.py:109-123 | Every merged record of the contributor's user takes in the contributor's count, commit URL and flag. When the contributor is that record itself, it takes in its own values. Every other record is left as it was. |
| Merging.EntriesAfterUpdate | contributor_stats.py:109-123 | After the in-place update, the merged list with its values is one fold step. |

## Left out

- `get_sponsor_information` (contributor_stats.py:131-177) is left out. It is network I/O: an HTTP request, JSON decoding and status-code checks. The sponsor page enters the model only as a given string field.
- `ContributorStats.__repr__` is left out, because it is debug formatting only.
- `ContributorStats.__new__` is left out, because it is object-allocation plumbing.
- The environment-variable resolver lives in a separate module (`env.py`) that this model does not cover.
- Records.ContributorStats: the user name is a constant. Nothing in the source reassigns it after construction.
- Records.ContributorStats.Equals: it only compares two records. Comparing a record with an object of another type is not modelled.
- Records.ContributorStats: the contribution count is an unbounded integer. The source accepts any value that supports `+`, such as a string, and that duck typing is not modelled.
- MergeSpec.MergedEntryAggregates: the sum, join and or properties are stated only for input in which no object is listed twice. With aliasing the fold is still exact, but the aggregates differ, as MergeAliasedDoubles shows.
- MergeSpec.MergePreservesTotal: stated for input without aliasing, for the same reason.
