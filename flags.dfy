/**
 * Resolution of the three reward flags (-bounty-only, -swag-only, -all) into
 * the pair of reward types the catalog filter enables, or a configuration error.
 */
module Flags {
  import opened Catalog

  /** The two fatal configuration errors of the reward flags. */
  datatype ConfigError =
    | BountyAndSwagOnly  // -bounty-only and -swag-only given together
    | NoRewardType       // -all switched off and neither exclusive flag given

  /** Either a configuration error or the reward types to include. */
  datatype Resolution = Rejected(error: ConfigError) | Include(bounty: bool, swag: bool)

  /**
   * The flag checks in the order the program makes them: reject both exclusive
   * flags, switch `allTypes` off when either is given, reject when nothing is
   * left, then derive the include pair.
   */
  method ResolveRewardFlags(bountyOnly: bool, swagOnly: bool, all: bool) returns (r: Resolution)
    ensures bountyOnly && swagOnly ==> r == Rejected(BountyAndSwagOnly)
    ensures bountyOnly && !swagOnly ==> r == Include(true, false)
    ensures !bountyOnly && swagOnly ==> r == Include(false, true)
    ensures !bountyOnly && !swagOnly && all ==> r == Include(true, true)
    ensures !bountyOnly && !swagOnly && !all ==> r == Rejected(NoRewardType)
    ensures r.Include? ==> r.bounty || r.swag
  {
    var allTypes := all;
    if bountyOnly && swagOnly {
      return Rejected(BountyAndSwagOnly);
    }
    if bountyOnly || swagOnly {
      allTypes := false;
    }
    if !allTypes && !bountyOnly && !swagOnly {
      return Rejected(NoRewardType);
    }
    r := Include(allTypes || bountyOnly, allTypes || swagOnly);
  }

  /** With -bounty-only, every program selected for download pays a bounty and gives no swag. */
  lemma BountyOnlySelectsPureBounty(entries: seq<ProgramEntry>, target: string)
    ensures forall e :: e in Filter(entries, Criteria(true, false, target)) ==> e.bounty && !e.swag
  {
  }

  /** With -swag-only, every program selected for download gives swag and pays no bounty. */
  lemma SwagOnlySelectsPureSwag(entries: seq<ProgramEntry>, target: string)
    ensures forall e :: e in Filter(entries, Criteria(false, true, target)) ==> e.swag && !e.bounty
  {
  }

  /**
   * With the default -all and no target, an entry is on the download list
   * exactly when it is in the catalog and has at least one reward type.
   */
  lemma {:induction false} DefaultSelectsEveryClassified(entries: seq<ProgramEntry>)
    ensures forall e :: e in Filter(entries, Criteria(true, true, "")) <==> e in entries && (e.bounty || e.swag)
  {
    FilterComplete(entries, Criteria(true, true, ""));
  }
}
