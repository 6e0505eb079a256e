/**
 * The program catalog and the filter that picks the programs to download.
 *
 * An entry of the remote index names a program, the URL of its archive and
 * whether it pays a bounty and/or hands out swag. The filter walks the index
 * in order and keeps an entry when its reward types are all enabled, it has at
 * least one reward type, and (when a target is given) the lower-cased target
 * occurs in the lower-cased program name or URL.
 */
module Catalog {
  import opened Text

  /** One object of index.json. */
  datatype ProgramEntry = ProgramEntry(url: string, program: string, bounty: bool, swag: bool)

  /** What the filter is asked for: the enabled reward types and the target text ("" for none). */
  datatype Criteria = Criteria(includeBounty: bool, includeSwag: bool, target: string)

  /**
   * The lower-cased target occurs in the lower-cased program name or URL. The
   * empty target matches every entry; a match is never longer than both fields.
   */
  function TargetMatches(e: ProgramEntry, target: string): (r: bool)
    ensures target == "" ==> r
    ensures r ==> |target| <= |e.program| || |target| <= |e.url|
  {
    Contains(Lower(e.program), Lower(target)) || Contains(Lower(e.url), Lower(target))
  }

  /** An entry matches exactly when the lower-cased target occurs at some position of its lower-cased name or URL. */
  lemma TargetMatchesAt(e: ProgramEntry, target: string)
    ensures TargetMatches(e, target) <==>
              (exists i :: OccursAt(Lower(e.program), Lower(target), i))
              || (exists i :: OccursAt(Lower(e.url), Lower(target), i))
  {
    ContainsAt(Lower(e.program), Lower(target));
    ContainsAt(Lower(e.url), Lower(target));
  }

  /**
   * Whether the filter keeps `e`, tested in the order the loop tests it: a
   * disabled bounty, then a disabled swag, then no reward type at all, then
   * the target. The tests are a conjunction, so their order does not matter.
   */
  function Keep(e: ProgramEntry, c: Criteria): (r: bool)
    ensures r <==> && (e.bounty || e.swag)
                   && (e.bounty ==> c.includeBounty)
                   && (e.swag ==> c.includeSwag)
                   && (c.target != "" ==> TargetMatches(e, c.target))
  {
    if e.bounty && !c.includeBounty then false
    else if e.swag && !c.includeSwag then false
    else if !e.bounty && !e.swag then false
    else if Lower(c.target) != "" then TargetMatches(e, c.target)
    else true
  }

  /** The entries of `entries` that the filter keeps, in catalog order. */
  function Filter(entries: seq<ProgramEntry>, c: Criteria): (r: seq<ProgramEntry>)
    ensures |r| <= |entries|
    ensures forall e :: e in r ==> e in entries && Keep(e, c)
  {
    if entries == [] then []
    else if Keep(entries[0], c) then [entries[0]] + Filter(entries[1..], c)
    else Filter(entries[1..], c)
  }

  /** Filtering a catalog with one more entry at the end adds at most that entry, at the end. */
  lemma {:induction false} FilterSnoc(entries: seq<ProgramEntry>, e: ProgramEntry, c: Criteria)
    ensures Filter(entries + [e], c) == Filter(entries, c) + (if Keep(e, c) then [e] else [])
  {
    if entries == [] {
      assert [e][1..] == [];
    } else {
      assert (entries + [e])[1..] == entries[1..] + [e];
      FilterSnoc(entries[1..], e, c);
    }
  }

  /** The loop building the download list (the `toDownload` slice). */
  method BuildDownloadList(entries: seq<ProgramEntry>, c: Criteria) returns (toDownload: seq<ProgramEntry>)
    ensures toDownload == Filter(entries, c)
  {
    var targetSubstr := Lower(c.target);
    toDownload := [];
    for i := 0 to |entries|
      invariant toDownload == Filter(entries[..i], c)
    {
      var e := entries[i];
      assert entries[..i + 1] == entries[..i] + [e];
      FilterSnoc(entries[..i], e, c);
      if e.bounty && !c.includeBounty {
        continue;
      }
      if e.swag && !c.includeSwag {
        continue;
      }
      if !e.bounty && !e.swag {
        continue;
      }
      if targetSubstr != "" {
        if !Contains(Lower(e.program), targetSubstr) && !Contains(Lower(e.url), targetSubstr) {
          continue;
        }
      }
      toDownload := toDownload + [e];
    }
    assert entries[..|entries|] == entries;
  }

  /** Nothing that passes the rule is dropped. */
  lemma {:induction false} FilterComplete(entries: seq<ProgramEntry>, c: Criteria)
    ensures forall e :: e in entries && Keep(e, c) ==> e in Filter(entries, c)
  {
    if entries != [] {
      FilterComplete(entries[1..], c);
      forall e | e in entries && Keep(e, c)
        ensures e in Filter(entries, c)
      {
        if e != entries[0] {
          assert e in entries[1..];
        }
      }
    }
  }

  /** Positions of the kept entries of `entries`, in increasing order. */
  ghost function KeptPositions(entries: seq<ProgramEntry>, c: Criteria): seq<nat>
  {
    if entries == [] then []
    else KeptPositions(entries[..|entries| - 1], c)
         + (if Keep(entries[|entries| - 1], c) then [|entries| - 1] else [])
  }

  /** `pos` picks `r` out of `entries`: the k-th element of `r` is the entry at position `pos[k]`. */
  ghost predicate Picks(entries: seq<ProgramEntry>, pos: seq<nat>, r: seq<ProgramEntry>)
  {
    && |pos| == |r|
    && forall k :: 0 <= k < |pos| ==> pos[k] < |entries| && r[k] == entries[pos[k]]
  }

  /** The positions are strictly increasing. */
  ghost predicate Increasing(pos: seq<nat>)
  {
    forall k, l :: 0 <= k < l < |pos| ==> pos[k] < pos[l]
  }

  /** `pos` holds exactly the positions of the entries that pass the rule. */
  ghost predicate ExactlyKept(entries: seq<ProgramEntry>, c: Criteria, pos: seq<nat>)
  {
    forall j :: 0 <= j < |entries| ==> (Keep(entries[j], c) <==> j in pos)
  }

  /** The kept positions lie inside the catalog, increase, and are exactly those of passing entries. */
  lemma {:induction false} KeptPositionsExact(entries: seq<ProgramEntry>, c: Criteria)
    ensures forall k :: 0 <= k < |KeptPositions(entries, c)| ==> KeptPositions(entries, c)[k] < |entries|
    ensures Increasing(KeptPositions(entries, c))
    ensures ExactlyKept(entries, c, KeptPositions(entries, c))
  {
    if entries != [] {
      var n := |entries| - 1;
      var front := entries[..n];
      KeptPositionsExact(front, c);
      var pos' := KeptPositions(front, c);
      var pos := KeptPositions(entries, c);
      assert pos == pos' + (if Keep(entries[n], c) then [n] else []);
      forall k | 0 <= k < |pos|
        ensures pos[k] < |entries|
      {
        if k < |pos'| {
          assert pos[k] == pos'[k];
        }
      }
      forall k, l | 0 <= k < l < |pos|
        ensures pos[k] < pos[l]
      {
        assert pos[k] == pos'[k];
        if l < |pos'| {
          assert pos[l] == pos'[l];
        }
      }
      forall j | 0 <= j < |entries|
        ensures Keep(entries[j], c) <==> j in pos
      {
        if j < n {
          assert entries[j] == front[j];
          assert j in pos <==> j in pos';
        }
      }
    }
  }

  /**
   * The filter's result is exactly the kept entries, picked out of the catalog
   * at strictly increasing positions: an order-preserving subsequence that
   * holds every entry passing the rule (as often as it occurs) and nothing else.
   */
  lemma {:induction false} FilterIsKeptSubsequence(entries: seq<ProgramEntry>, c: Criteria)
    ensures Picks(entries, KeptPositions(entries, c), Filter(entries, c))
    ensures Increasing(KeptPositions(entries, c))
    ensures ExactlyKept(entries, c, KeptPositions(entries, c))
  {
    KeptPositionsExact(entries, c);
    FilterPicksKept(entries, c);
  }

  /** The filter's result is what the kept positions pick out of the catalog. */
  lemma {:induction false} FilterPicksKept(entries: seq<ProgramEntry>, c: Criteria)
    ensures Picks(entries, KeptPositions(entries, c), Filter(entries, c))
  {
    if entries != [] {
      var n := |entries| - 1;
      var front, last := entries[..n], entries[n];
      FilterPicksKept(front, c);
      assert entries == front + [last];
      FilterSnoc(front, last, c);
      var pos', r' := KeptPositions(front, c), Filter(front, c);
      var pos, r := KeptPositions(entries, c), Filter(entries, c);
      if Keep(last, c) {
        assert pos == pos' + [n] && r == r' + [last];
      } else {
        assert pos == pos' && r == r';
      }
      forall k | 0 <= k < |pos|
        ensures pos[k] < |entries| && r[k] == entries[pos[k]]
      {
        if k < |pos'| {
          assert pos[k] == pos'[k] && r[k] == r'[k] && entries[pos'[k]] == front[pos'[k]];
        }
      }
    }
  }

  /** Filtering the filter's own result with the same criteria changes nothing. */
  lemma {:induction false} FilterIdempotent(entries: seq<ProgramEntry>, c: Criteria)
    ensures Filter(Filter(entries, c), c) == Filter(entries, c)
  {
    if entries != [] {
      FilterIdempotent(entries[1..], c);
      var rest := Filter(entries[1..], c);
      if Keep(entries[0], c) {
        assert ([entries[0]] + rest)[1..] == rest;
      }
    }
  }

  /**
   * Reward rules on the result: every kept entry has a reward type, none has a
   * disabled one, and an entry with both types is kept only when both are enabled.
   */
  lemma FilterRespectsRewardTypes(entries: seq<ProgramEntry>, c: Criteria)
    ensures forall e :: e in Filter(entries, c) ==> e.bounty || e.swag
    ensures !c.includeBounty ==> forall e :: e in Filter(entries, c) ==> !e.bounty
    ensures !c.includeSwag ==> forall e :: e in Filter(entries, c) ==> !e.swag
    ensures forall e :: e in Filter(entries, c) && e.bounty && e.swag ==> c.includeBounty && c.includeSwag
  {
  }

  /** An entry with neither reward type never reaches the download list, whatever the criteria. */
  lemma UnclassifiedNeverKept(entries: seq<ProgramEntry>, c: Criteria)
    ensures forall j :: 0 <= j < |entries| && !entries[j].bounty && !entries[j].swag ==>
              entries[j] !in Filter(entries, c)
  {
  }

  /** With a target, every kept entry mentions it (ignoring ASCII case) in its name or URL. */
  lemma TargetRespected(entries: seq<ProgramEntry>, c: Criteria)
    requires c.target != ""
    ensures forall e :: e in Filter(entries, c) ==> TargetMatches(e, c.target)
  {
  }

  /** Without a target, the filter keeps every entry whose reward types are allowed. */
  lemma {:induction false} EmptyTargetKeepsAllowedRewards(entries: seq<ProgramEntry>, includeBounty: bool, includeSwag: bool)
    ensures forall e ::
              (e in entries && (e.bounty || e.swag) && (e.bounty ==> includeBounty) && (e.swag ==> includeSwag))
              ==> e in Filter(entries, Criteria(includeBounty, includeSwag, ""))
  {
    FilterComplete(entries, Criteria(includeBounty, includeSwag, ""));
  }
}
