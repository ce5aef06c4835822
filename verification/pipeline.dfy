/** The dataset builder from listing to row set: the dedup filter against
    the store's ids, then the fetch loop over the survivors, each paired
    with the reply its detail request gets. The replies stand in for the
    network: one per survivor, in request order. Beside the run as the
    script does it sits the run over the corrected filter, which keeps the
    store's key unique even when the listing repeats an id. */
module Pipeline {
  import opened Records
  import opened Responses
  import Dedup
  import opened FetchLoop

  /** Each survivor paired with the loop body's reading of its reply. */
  function Attempts(cands: seq<Candidate>, replies: seq<Response>): (xs: seq<Attempt>)
    requires |replies| == |cands|
    ensures |xs| == |cands|
    ensures forall i :: 0 <= i < |xs| ==> xs[i] == Attempt(cands[i], Classify(replies[i]))
  {
    seq(|cands|, i requires 0 <= i < |cands| => Attempt(cands[i], Classify(replies[i])))
  }

  /** The run: what the loop has collected when it ends. */
  function Harvest(listing: seq<Candidate>, existing: set<int>, replies: seq<Response>): Progress
    requires |replies| == |Dedup.DropExisting(listing, existing)|
  {
    FetchAll(Attempts(Dedup.DropExisting(listing, existing), replies))
  }

  /** No two listing entries share an id. */
  predicate DistinctListing(cands: seq<Candidate>) {
    forall i, j :: 0 <= i < j < |cands| ==> cands[i].id != cands[j].id
  }

  /** The store's key stays unique: no row of a run and no failed entry has
      an id the store already held, and when the listing has no repeated
      id the new rows have pairwise different keys too. */
  lemma FreshKeys(listing: seq<Candidate>, existing: set<int>, replies: seq<Response>)
    requires |replies| == |Dedup.DropExisting(listing, existing)|
    ensures forall k :: 0 <= k < |Harvest(listing, existing, replies).success| ==>
              Harvest(listing, existing, replies).success[k].id !in existing
    ensures forall k :: 0 <= k < |Harvest(listing, existing, replies).failed| ==>
              Harvest(listing, existing, replies).failed[k].id !in existing
    ensures DistinctListing(listing) ==>
              forall j, k :: 0 <= j < k < |Harvest(listing, existing, replies).success| ==>
                Harvest(listing, existing, replies).success[j].id
                != Harvest(listing, existing, replies).success[k].id
  {
    var kept := Dedup.DropExisting(listing, existing);
    var xs := Attempts(kept, replies);
    RunIds(xs);
    assert CandIds(xs) !! existing;
    if DistinctListing(listing) {
      var idx := Dedup.KeptPositions(listing, existing);
      Dedup.DropExistingSelects(listing, existing);
      assert DistinctCands(xs) by {
        forall i, j | 0 <= i < j < |xs|
          ensures xs[i].cand.id != xs[j].cand.id
        {
          assert xs[i].cand == listing[idx[i]] && xs[j].cand == listing[idx[j]];
        }
      }
    }
  }

  /** The dedup filter compares against the store only: two listing
      entries with the same unstored id both survive, and when both
      detail requests come back as records and no 429 comes before the
      second of them, the run holds two rows under that one key. */
  lemma RepeatedIdFetchedTwice(listing: seq<Candidate>, existing: set<int>, replies: seq<Response>, i: nat, j: nat)
    requires i < j < |listing| && listing[i].id == listing[j].id && listing[i].id !in existing
    requires |replies| == |Dedup.DropExisting(listing, existing)|
    requires forall k :: 0 <= k < |replies| && k < |Dedup.KeptPositions(listing, existing)|
                         && Dedup.KeptPositions(listing, existing)[k] <= j ==>
                           !(replies[k].Reply? && replies[k].status == 429)
    requires forall k :: 0 <= k < |replies| && k < |Dedup.KeptPositions(listing, existing)|
                         && (Dedup.KeptPositions(listing, existing)[k] == i || Dedup.KeptPositions(listing, existing)[k] == j) ==>
                           replies[k].Reply? && replies[k].status == 200 && replies[k].payload.Fields?
    ensures exists a, b :: 0 <= a < b < |Harvest(listing, existing, replies).success|
              && Harvest(listing, existing, replies).success[a].id == listing[i].id
              && Harvest(listing, existing, replies).success[b].id == listing[i].id
  {
    var xs := Attempts(Dedup.DropExisting(listing, existing), replies);
    var p, q := KeptPair(listing, existing, replies, i, j);
    SameKeyTwice(xs, p, q);
    var rows := FetchAll(xs).success;
    assert rows == Harvest(listing, existing, replies).success;
    var a, b :| 0 <= a < b < |rows| && rows[a].id == listing[i].id && rows[b].id == listing[i].id;
  }

  /** Where the two entries of a repeated id land among the attempts. */
  lemma KeptPair(listing: seq<Candidate>, existing: set<int>, replies: seq<Response>, i: nat, j: nat)
    returns (p: nat, q: nat)
    requires i < j < |listing| && listing[i].id == listing[j].id && listing[i].id !in existing
    requires |replies| == |Dedup.DropExisting(listing, existing)|
    requires forall k :: 0 <= k < |replies| && k < |Dedup.KeptPositions(listing, existing)|
                         && Dedup.KeptPositions(listing, existing)[k] <= j ==>
                           !(replies[k].Reply? && replies[k].status == 429)
    requires forall k :: 0 <= k < |replies| && k < |Dedup.KeptPositions(listing, existing)|
                         && (Dedup.KeptPositions(listing, existing)[k] == i || Dedup.KeptPositions(listing, existing)[k] == j) ==>
                           replies[k].Reply? && replies[k].status == 200 && replies[k].payload.Fields?
    ensures p < q < |replies|
    ensures var xs := Attempts(Dedup.DropExisting(listing, existing), replies);
            && xs[p].cand == listing[i] && xs[q].cand == listing[j]
            && xs[p].outcome.OkRecord? && xs[q].outcome.OkRecord?
            && forall k :: 0 <= k <= q ==> !xs[k].outcome.RateLimited?
  {
    var kept := Dedup.DropExisting(listing, existing);
    var idx := Dedup.KeptPositions(listing, existing);
    Dedup.DropExistingSelects(listing, existing);
    p, q := Dedup.BothKept(listing, existing, i, j);
    var xs := Attempts(kept, replies);
    forall k | 0 <= k <= q
      ensures !xs[k].outcome.RateLimited?
    {
      assert xs[k].outcome == Classify(replies[k]);
    }
    assert xs[p] == Attempt(listing[i], Classify(replies[p]));
    assert xs[q] == Attempt(listing[j], Classify(replies[q]));
  }

  /** The run over the corrected filter, which also drops ids the listing
      repeats. */
  function HarvestUnique(listing: seq<Candidate>, existing: set<int>, replies: seq<Response>): Progress
    requires |replies| == |Dedup.DropKnown(listing, existing)|
  {
    FetchAll(Attempts(Dedup.DropKnown(listing, existing), replies))
  }

  /** With the corrected filter the store's key stays unique for every
      listing: no row or failed entry has a stored id, and the new rows'
      keys are pairwise different without any condition on the listing. */
  lemma UniqueKeys(listing: seq<Candidate>, existing: set<int>, replies: seq<Response>)
    requires |replies| == |Dedup.DropKnown(listing, existing)|
    ensures forall k :: 0 <= k < |HarvestUnique(listing, existing, replies).success| ==>
              HarvestUnique(listing, existing, replies).success[k].id !in existing
    ensures forall k :: 0 <= k < |HarvestUnique(listing, existing, replies).failed| ==>
              HarvestUnique(listing, existing, replies).failed[k].id !in existing
    ensures forall j, k :: 0 <= j < k < |HarvestUnique(listing, existing, replies).success| ==>
              HarvestUnique(listing, existing, replies).success[j].id
              != HarvestUnique(listing, existing, replies).success[k].id
  {
    var kept := Dedup.DropKnown(listing, existing);
    var xs := Attempts(kept, replies);
    RunIds(xs);
    assert CandIds(xs) !! existing;
    assert DistinctCands(xs);
  }
}
