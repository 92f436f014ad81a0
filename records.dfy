/** The contributor statistics record: one contributor's aggregated data. */
module Records {

  /** A snapshot of the six fields of a ContributorStats object, as a value. */
  datatype Stats = Stats(
    username: string,
    newContributor: bool,
    avatarUrl: string,
    contributionCount: int,
    commitUrl: string,
    sponsorInfo: string)

  /** The mutable record; merging updates its fields in place. Nothing ever
      reassigns the user name, so it is fixed at construction. */
  class ContributorStats {
    const username: string
    var newContributor: bool
    var avatarUrl: string
    var contributionCount: int
    var commitUrl: string
    var sponsorInfo: string

    /** The argument `newContributor` is accepted and discarded: every new
        record starts out as not new. */
    constructor (username: string, newContributor: bool, avatarUrl: string,
                 contributionCount: int, commitUrl: string, sponsorInfo: string)
      ensures Value() == Stats(username, false, avatarUrl, contributionCount, commitUrl, sponsorInfo)
    {
      this.username := username;
      this.newContributor := false;
      this.avatarUrl := avatarUrl;
      this.contributionCount := contributionCount;
      this.commitUrl := commitUrl;
      this.sponsorInfo := sponsorInfo;
    }

    /** The current field values of this object. */
    function Value(): Stats
      reads this
    {
      Stats(username, newContributor, avatarUrl, contributionCount, commitUrl, sponsorInfo)
    }

    /** Field-wise equality on five fields: the sponsor page is the one field
        that never takes part, so two records are equal exactly when they
        coincide once the sponsor page is overwritten. */
    function Equals(other: ContributorStats): (r: bool)
      reads this, other
      ensures r <==> Value().(sponsorInfo := other.sponsorInfo) == other.Value()
    {
      && username == other.username
      && newContributor == other.newContributor
      && avatarUrl == other.avatarUrl
      && contributionCount == other.contributionCount
      && commitUrl == other.commitUrl
    }
  }

  lemma EqualsReflexive(a: ContributorStats)
    ensures a.Equals(a)
  {
  }

  lemma EqualsSymmetric(a: ContributorStats, b: ContributorStats)
    ensures a.Equals(b) <==> b.Equals(a)
  {
  }

  lemma EqualsTransitive(a: ContributorStats, b: ContributorStats, c: ContributorStats)
    requires a.Equals(b) && b.Equals(c)
    ensures a.Equals(c)
  {
  }

  /** Two records whose sponsor pages differ are still equal when everything
      else agrees. */
  lemma EqualsIgnoresSponsor(a: ContributorStats, b: ContributorStats)
    requires a.Value().(sponsorInfo := "") == b.Value().(sponsorInfo := "")
    ensures a.Equals(b)
  {
  }
}
