/** `merge_contributors`: merging the per-repository contributor lists into one
    list with one record per user, updating the first record of each user in
    place. */
module Merging {
  import opened Records
  import opened MergeSpec

  /** The user names of a list of records, as the list comprehension builds them. */
  function Usernames(cs: seq<ContributorStats>): (r: seq<string>)
    reads set c | c in cs
    ensures |r| == |cs| && forall i :: 0 <= i < |cs| ==> r[i] == cs[i].username
  {
    if cs == [] then [] else Usernames(cs[..|cs| - 1]) + [cs[|cs| - 1].username]
  }

  /** The objects of a list paired with their current field values. */
  function Entries(cs: seq<ContributorStats>): (r: seq<Entry>)
    reads set c | c in cs
    ensures |r| == |cs| && forall i :: 0 <= i < |cs| ==> r[i] == Entry(cs[i], cs[i].Value())
  {
    if cs == [] then [] else Entries(cs[..|cs| - 1]) + [Entry(cs[|cs| - 1], cs[|cs| - 1].Value())]
  }

  /** The objects of each repository's list paired with their current field values. */
  function RowEntries(contributors: seq<seq<ContributorStats>>): (r: seq<seq<Entry>>)
    reads set c | c in Flatten(contributors)
    ensures |r| == |contributors| && forall k :: 0 <= k < |contributors| ==> |r[k]| == |contributors[k]|
    ensures forall k, j :: 0 <= k < |contributors| && 0 <= j < |contributors[k]| ==>
              r[k][j] == Entry(contributors[k][j], contributors[k][j].Value())
  {
    seq(|contributors|, k requires 0 <= k < |contributors| reads set c | c in Flatten(contributors) =>
      Entries(contributors[k]))
  }

  /** The result lists the merged objects, which carry exactly the fields the
      fold over the input's original values computes; every input object that
      is not in the result is left as it was. */
  method MergeContributors(contributors: seq<seq<ContributorStats>>) returns (merged: seq<ContributorStats>)
    modifies set c | c in Flatten(contributors)
    ensures Entries(merged) == Merge(old(Entries(Flatten(contributors))))
    ensures forall k, j :: 0 <= k < |contributors| && 0 <= j < |contributors[k]| && contributors[k][j] !in merged ==>
              contributors[k][j].Value() == old(contributors[k][j].Value())
  {
    ghost var all := Flatten(contributors);
    ghost var rows: seq<seq<Entry>> := RowEntries(contributors);  // every repository's entries before merging
    ghost var es := Entries(all);
    EntriesFlatten(contributors);
    assert es == Flatten(rows);
    merged := [];
    assert rows[..0] == [];
    for i := 0 to |contributors|
      invariant Entries(merged) == Merge(Flatten(rows[..i]))
      invariant forall c :: c in merged ==> c in all
      invariant forall k, j :: 0 <= k < |contributors| && 0 <= j < |contributors[k]| && contributors[k][j] !in merged ==>
                  contributors[k][j].Value() == rows[k][j].stats
    {
      assert forall j :: 0 <= j < |contributors[i]| ==> contributors[i][j] in all;
      merged := MergeRepository(merged, contributors, i, rows);
    }
    assert rows[..|contributors|] == rows;
    assert Entries(merged) == Merge(es);
  }

  /** One pass of the outer loop: the contributors of repository `i`. */
  method MergeRepository(merged: seq<ContributorStats>, contributors: seq<seq<ContributorStats>>, i: nat,
                         ghost rows: seq<seq<Entry>>)
    returns (merged': seq<ContributorStats>)
    requires i < |contributors| == |rows|
    requires forall k :: 0 <= k < |rows| ==> |rows[k]| == |contributors[k]|
    requires forall k, j :: 0 <= k < |rows| && 0 <= j < |rows[k]| ==>
               rows[k][j].obj == contributors[k][j] && rows[k][j].stats.username == contributors[k][j].username
    requires Entries(merged) == Merge(Flatten(rows[..i]))
    requires forall k, j :: 0 <= k < |contributors| && 0 <= j < |contributors[k]| && contributors[k][j] !in merged ==>
               contributors[k][j].Value() == rows[k][j].stats
    modifies set c | c in merged + contributors[i]
    ensures Entries(merged') == Merge(Flatten(rows[..i + 1]))
    ensures merged <= merged' && forall c :: c in merged' ==> c in merged || c in contributors[i]
    ensures forall k, j :: 0 <= k < |contributors| && 0 <= j < |contributors[k]| && contributors[k][j] !in merged' ==>
              contributors[k][j].Value() == rows[k][j].stats
  {
    merged' := MergeRow(merged, contributors[i], Flatten(rows[..i]), rows[i]);
    FlattenSnoc(rows, i);
  }

  /** The loop over one repository's contributors. */
  method MergeRow(merged: seq<ContributorStats>, row: seq<ContributorStats>,
                  ghost seen: seq<Entry>, ghost rowEs: seq<Entry>)
    returns (merged': seq<ContributorStats>)
    requires Entries(merged) == Merge(seen)
    requires |rowEs| == |row|
    requires forall j :: 0 <= j < |row| ==> rowEs[j].obj == row[j] && rowEs[j].stats.username == row[j].username
    requires forall j :: 0 <= j < |row| && row[j] !in merged ==> row[j].Value() == rowEs[j].stats
    modifies set c | c in merged + row
    ensures Entries(merged') == Merge(seen + rowEs)
    ensures merged <= merged' && forall c :: c in merged' ==> c in merged || c in row
    ensures forall c :: c in row && c !in merged' ==> unchanged(c)
  {
    merged' := merged;
    PrefixEmpty(seen, rowEs);
    for j := 0 to |row|
      invariant Entries(merged') == Merge(seen + rowEs[..j])
      invariant merged <= merged' && forall c :: c in merged' ==> c in merged || c in row
      invariant forall k :: j <= k < |row| && row[k] !in merged' ==> row[k].Value() == rowEs[k].stats
      invariant forall c :: c in row && c !in merged' ==> unchanged(c)
    {
      merged' := AddContributor(merged', row[j], seen + rowEs[..j], rowEs[j]);
      PrefixSnoc(seen, rowEs, j);
    }
    PrefixFull(seen, rowEs);
  }

  /** One contributor of one repository: if a record of its user is already
      merged, every such record takes in its count, commit URL and
      new-contributor flag; otherwise the record itself is appended. */
  method AddContributor(merged: seq<ContributorStats>, x: ContributorStats,
                        ghost seen: seq<Entry>, ghost e: Entry)
    returns (merged': seq<ContributorStats>)
    requires Entries(merged) == Merge(seen)
    requires e.obj == x && e.stats.username == x.username
    requires x !in merged ==> x.Value() == e.stats
    modifies set c | c in merged
    ensures Entries(merged') == Merge(seen + [e])
    ensures merged' == merged || merged' == merged + [x]
  {
    ghost var acc := Merge(seen);
    MergeNames(seen);
    assert (seen + [e])[..|seen|] == seen;
    assert Usernames(merged) == Names(acc);
    if x.username in Usernames(merged) {
      MergeIntoExisting(merged, x, acc, e);
      EntriesAfterUpdate(merged, acc, e);
      merged' := merged;
    } else {
      assert x !in merged;
      merged' := merged + [x];
      assert Entries(merged') == acc + [e];
    }
  }

  /** The loop over the merged list: every merged record of `x`'s user takes
      in `x`'s count, commit URL and new-contributor flag. When `x` is itself
      that record, it takes in its own values. */
  method MergeIntoExisting(merged: seq<ContributorStats>, x: ContributorStats,
                           ghost acc: seq<Entry>, ghost e: Entry)
    requires |acc| == |merged| && Distinct(Names(acc))
    requires forall q :: 0 <= q < |merged| ==> acc[q] == Entry(merged[q], merged[q].Value())
    requires e.obj == x && e.stats.username == x.username
    requires x !in merged ==> x.Value() == e.stats
    modifies set c | c in merged
    ensures forall q :: 0 <= q < |merged| ==> merged[q].Value() == Updated(acc[q], e).stats
  {
    assert forall q :: 0 <= q < |merged| ==> Names(acc)[q] == merged[q].username;
    assert forall q, r :: 0 <= q < r < |merged| ==> merged[q] != merged[r];
    for p := 0 to |merged|
      invariant forall q :: 0 <= q < p ==> merged[q].Value() == Updated(acc[q], e).stats
      invariant forall q :: p <= q < |merged| ==> merged[q].Value() == acc[q].stats
      invariant x !in merged ==> x.Value() == e.stats
    {
      var m := merged[p];
      if m.username == x.username {
        ghost var add := x.Value();
        assert add == if m == x then acc[p].stats else e.stats by {
          assert forall q :: 0 <= q < |merged| && q != p ==> merged[q] != x;
        }
        label before:
        m.contributionCount := m.contributionCount + x.contributionCount;
        m.commitUrl := m.commitUrl + ", " + x.commitUrl;
        m.newContributor := m.newContributor || x.newContributor;
        assert m.Value() == Combine(acc[p].stats, add);
        assert forall q :: 0 <= q < |merged| && q != p ==> merged[q].Value() == old@before(merged[q].Value());
      }
    }
  }

  /** Entries of the concatenation of all lists, list by list. */
  lemma {:induction false} EntriesFlatten(xss: seq<seq<ContributorStats>>)
    ensures Entries(Flatten(xss)) == Flatten(RowEntries(xss))
  {
    if xss != [] {
      var m := |xss| - 1;
      EntriesFlatten(xss[..m]);
      EntriesAppend(Flatten(xss[..m]), xss[m]);
      assert RowEntries(xss)[..m] == RowEntries(xss[..m]);
    }
  }

  lemma EntriesAppend(a: seq<ContributorStats>, b: seq<ContributorStats>)
    ensures Entries(a + b) == Entries(a) + Entries(b)
  {
  }

  lemma FlattenSnoc<T>(xss: seq<seq<T>>, i: nat)
    requires i < |xss|
    ensures Flatten(xss[..i + 1]) == Flatten(xss[..i]) + xss[i]
  {
    assert xss[..i + 1][..i] == xss[..i];
  }


  lemma PrefixSnoc<T>(a: seq<T>, s: seq<T>, j: nat)
    requires j < |s|
    ensures a + s[..j + 1] == (a + s[..j]) + [s[j]]
  {
    assert s[..j + 1] == s[..j] + [s[j]];
  }


  lemma PrefixEmpty<T>(a: seq<T>, s: seq<T>)
    ensures a + s[..0] == a
  {
  }

  lemma PrefixFull<T>(a: seq<T>, s: seq<T>)
    ensures a + s[..|s|] == a + s
  {
    assert s[..|s|] == s;
  }

  /** The merged list after every record of `e`'s user took `e` in. */
  lemma EntriesAfterUpdate(merged: seq<ContributorStats>, acc: seq<Entry>, e: Entry)
    requires |merged| == |acc| && e.stats.username in Names(acc)
    requires forall q :: 0 <= q < |merged| ==>
               merged[q] == acc[q].obj && merged[q].Value() == Updated(acc[q], e).stats
    ensures Entries(merged) == Step(acc, e)
  {
    var s := Step(acc, e);
    forall q | 0 <= q < |merged|
      ensures Entries(merged)[q] == s[q]
    {
      assert s[q] == Updated(acc[q], e) && s[q].obj == acc[q].obj;
    }
  }
}
