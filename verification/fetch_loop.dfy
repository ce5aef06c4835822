/** The fetch loop: one detail request per listing entry, in listing order.
    A success is appended to the success list and followed by a pause; any
    other handled outcome puts the listing entry on the failed list; a 429
    ends the loop at once. The batch counter `count` runs 0..10 and picks
    the long pause on the success that finds it at 10. */
module FetchLoop {
  import opened Records
  import opened Responses
  import Seqs

  /** The pause taken after a success (0.5 s and 1 s in the script). */
  datatype Pause = Short | Long

  /** One iteration's input: the listing entry and what its request produced. */
  datatype Attempt = Attempt(cand: Candidate, outcome: Outcome)

  /** The counter value at which a success takes the long pause and the
      counter starts again from 0. */
  const BatchEnd: nat := 10

  /** The loop's accumulators. `aborted` records that the loop left by its
      `break` on a 429. */
  datatype Progress = Progress(
    success: seq<AnimeRow>,
    failed: seq<Candidate>,
    count: nat,
    pauses: seq<Pause>,
    aborted: bool)

  /** The accumulators before the first iteration. */
  const Start: Progress := Progress([], [], 0, [], false)

  /** Outcomes that send the listing entry to the failed list. */
  predicate IsFailure(o: Outcome) {
    o.OkError? || o.OtherStatus? || o.Raised?
  }

  /** The pause that follows the success with 0-based index `k` among all
      successes: long exactly when its 1-based index is a multiple of 11. */
  function PauseAt(k: nat): Pause {
    if (k + 1) % (BatchEnd + 1) == 0 then Long else Short
  }

  /** The pauses that follow the first `n` successes, in order. */
  function PausePlan(n: nat): (plan: seq<Pause>)
    ensures |plan| == n
    ensures forall k :: 0 <= k < n ==> plan[k] == PauseAt(k)
  {
    if n == 0 then [] else PausePlan(n - 1) + [PauseAt(n - 1)]
  }

  /** The pacing invariant: the counter is the number of successes modulo
      11 and one pause of the planned kind has followed each success. */
  predicate Paced(p: Progress) {
    p.count == |p.success| % (BatchEnd + 1) && p.pauses == PausePlan(|p.success|)
  }

  /** The counter's update on a success keeps it equal to the success count
      modulo 11, and the pause it picks is the planned one. */
  lemma CounterAdvance(n: nat, count: nat)
    requires count == n % (BatchEnd + 1)
    ensures (if count == BatchEnd then 0 else count + 1) == (n + 1) % (BatchEnd + 1)
    ensures PausePlan(n + 1) == PausePlan(n) + [if count == BatchEnd then Long else Short]
  {
  }

  /** One pass through the loop body. */
  function Step(p: Progress, a: Attempt): (q: Progress)
    ensures q.aborted <==> p.aborted || a.outcome.RateLimited?
    ensures a.outcome.RateLimited? ==>
              q.success == p.success && q.failed == p.failed && q.count == p.count && q.pauses == p.pauses
    ensures IsFailure(a.outcome) ==>
              q.success == p.success && q.failed == p.failed + [a.cand]
              && q.count == p.count && q.pauses == p.pauses
    ensures a.outcome.OkRecord? ==>
              q.success == p.success + [MakeRow(a.cand, a.outcome.detail, a.outcome.genreNames)]
              && q.failed == p.failed && |q.pauses| == |p.pauses| + 1
    ensures p.count <= BatchEnd ==> q.count <= BatchEnd
    ensures Paced(p) ==> Paced(q)
  {
    match a.outcome
    case RateLimited => p.(aborted := true)
    case OkRecord(d, g) =>
      var success := p.success + [MakeRow(a.cand, d, g)];
      assert Paced(p) ==> Paced(Progress(success, p.failed, if p.count == BatchEnd then 0 else p.count + 1,
                                         p.pauses + [if p.count == BatchEnd then Long else Short], false)) by {
        if Paced(p) {
          CounterAdvance(|p.success|, p.count);
        }
      }
      if p.count == BatchEnd then
        p.(success := success, count := 0, pauses := p.pauses + [Long])
      else
        p.(success := success, count := p.count + 1, pauses := p.pauses + [Short])
    case _ => p.(failed := p.failed + [a.cand])
  }

  /** The loop from accumulators `p` over the remaining attempts `xs`. */
  function Fetch(p: Progress, xs: seq<Attempt>): Progress
    decreases |xs|
  {
    if |xs| == 0 || p.aborted then p else Fetch(Step(p, xs[0]), xs[1..])
  }

  /** The whole loop over the deduplicated listing. */
  function FetchAll(xs: seq<Attempt>): Progress {
    Fetch(Start, xs)
  }

  /** The attempts the loop works through: the longest prefix without a
      429. It is all of them when no 429 comes, and otherwise ends just
      before the first one. */
  function Examined(xs: seq<Attempt>): (pre: seq<Attempt>)
    ensures |pre| <= |xs| && pre == xs[..|pre|]
    ensures forall i :: 0 <= i < |pre| ==> !pre[i].outcome.RateLimited?
    ensures |pre| < |xs| ==> xs[|pre|].outcome.RateLimited?
    decreases |xs|
  {
    if |xs| == 0 || xs[0].outcome.RateLimited? then []
    else [xs[0]] + Examined(xs[1..])
  }

  /** The examined prefix is pinned down by where the first 429 sits. */
  lemma ExaminedAt(xs: seq<Attempt>, i: nat)
    requires i <= |xs|
    requires forall j :: 0 <= j < i ==> !xs[j].outcome.RateLimited?
    requires i == |xs| || xs[i].outcome.RateLimited?
    ensures Examined(xs) == xs[..i]
  {
  }

  /** Reference definition of the success list: the row of every attempt
      with a record outcome, in attempt order. */
  function Successes(xs: seq<Attempt>): seq<AnimeRow>
    decreases |xs|
  {
    if |xs| == 0 then []
    else
      var last := xs[|xs| - 1];
      Successes(xs[..|xs| - 1])
      + match last.outcome
        case OkRecord(d, g) => [MakeRow(last.cand, d, g)]
        case _ => []
  }

  /** Reference definition of the failed list: the listing entry of every
      attempt with a failure outcome, in attempt order. */
  function Failures(xs: seq<Attempt>): seq<Candidate>
    decreases |xs|
  {
    if |xs| == 0 then []
    else
      var last := xs[|xs| - 1];
      Failures(xs[..|xs| - 1]) + if IsFailure(last.outcome) then [last.cand] else []
  }

  lemma {:induction false} SuccessesAppend(a: seq<Attempt>, b: seq<Attempt>)
    ensures Successes(a + b) == Successes(a) + Successes(b)
    decreases |b|
  {
    if |b| == 0 {
      assert a + b == a;
    } else {
      var n := |b| - 1;
      assert (a + b)[..|a + b| - 1] == a + b[..n];
      SuccessesAppend(a, b[..n]);
    }
  }

  lemma {:induction false} FailuresAppend(a: seq<Attempt>, b: seq<Attempt>)
    ensures Failures(a + b) == Failures(a) + Failures(b)
    decreases |b|
  {
    if |b| == 0 {
      assert a + b == a;
    } else {
      var n := |b| - 1;
      assert (a + b)[..|a + b| - 1] == a + b[..n];
      FailuresAppend(a, b[..n]);
    }
  }

  /** Every attempt before the first 429 lands in exactly one of the two
      reference lists. */
  lemma {:induction false} SplitCount(xs: seq<Attempt>)
    requires forall i :: 0 <= i < |xs| ==> !xs[i].outcome.RateLimited?
    ensures |Successes(xs)| + |Failures(xs)| == |xs|
    decreases |xs|
  {
    if |xs| > 0 {
      var n := |xs| - 1;
      assert forall i :: 0 <= i < n ==> xs[..n][i] == xs[i];
      SplitCount(xs[..n]);
    }
  }

  /** A step that is not a 429 adds the attempt's share of the reference lists. */
  lemma StepLists(p: Progress, a: Attempt)
    requires !a.outcome.RateLimited?
    ensures Step(p, a).success == p.success + Successes([a])
    ensures Step(p, a).failed == p.failed + Failures([a])
  {
    assert [a][..0] == [];
  }

  /** The loop from any running state appends the reference lists of the
      attempts before the first 429 and ends aborted exactly when it met one. */
  lemma {:induction false} FetchFrom(p: Progress, xs: seq<Attempt>)
    requires !p.aborted
    ensures Fetch(p, xs).success == p.success + Successes(Examined(xs))
    ensures Fetch(p, xs).failed == p.failed + Failures(Examined(xs))
    ensures Fetch(p, xs).aborted <==> |Examined(xs)| < |xs|
    decreases |xs|
  {
    if |xs| > 0 && xs[0].outcome.RateLimited? {
      assert Fetch(p, xs) == Fetch(Step(p, xs[0]), xs[1..]);
    } else if |xs| > 0 {
      var q := Step(p, xs[0]);
      var rest := Examined(xs[1..]);
      assert Fetch(p, xs) == Fetch(q, xs[1..]);
      FetchFrom(q, xs[1..]);
      StepLists(p, xs[0]);
      SuccessesAppend([xs[0]], rest);
      FailuresAppend([xs[0]], rest);
      var s0, s1 := Successes([xs[0]]), Successes(rest);
      var f0, f1 := Failures([xs[0]]), Failures(rest);
      Seqs.Reassociate(p.success, s0, s1);
      Seqs.Reassociate(p.failed, f0, f1);
    }
  }

  /** The loop keeps the pacing invariant. */
  lemma {:induction false} FetchPaced(p: Progress, xs: seq<Attempt>)
    requires Paced(p)
    ensures Paced(Fetch(p, xs))
    decreases |xs|
  {
    if |xs| > 0 && !p.aborted {
      FetchPaced(Step(p, xs[0]), xs[1..]);
    }
  }

  /** What the whole loop computes: the success and failed lists are the
      reference lists of the attempts before the first 429 (so both keep
      listing order), the run is aborted exactly when a 429 came, and the
      counter and pauses follow the number of successes. */
  lemma FetchAllSummary(xs: seq<Attempt>)
    ensures FetchAll(xs).success == Successes(Examined(xs))
    ensures FetchAll(xs).failed == Failures(Examined(xs))
    ensures FetchAll(xs).aborted <==> |Examined(xs)| < |xs|
    ensures FetchAll(xs).count == |FetchAll(xs).success| % (BatchEnd + 1)
    ensures FetchAll(xs).pauses == PausePlan(|FetchAll(xs).success|)
  {
    FetchFrom(Start, xs);
    FetchPaced(Start, xs);
  }

  /** A 429 ends the loop: nothing after it is looked at, and the lists are
      exactly what they were before that entry. */
  lemma AbortKeepsPrefix(pre: seq<Attempt>, c: Candidate, post: seq<Attempt>)
    requires forall i :: 0 <= i < |pre| ==> !pre[i].outcome.RateLimited?
    ensures FetchAll(pre + [Attempt(c, RateLimited)] + post) == FetchAll(pre).(aborted := true)
    ensures !FetchAll(pre).aborted
  {
    var xs := pre + [Attempt(c, RateLimited)] + post;
    assert xs[..|pre|] == pre;
    ExaminedAt(xs, |pre|);
    assert pre[..|pre|] == pre;
    ExaminedAt(pre, |pre|);
    FetchAllSummary(xs);
    FetchAllSummary(pre);
    var r, r' := FetchAll(xs), FetchAll(pre);
    assert r.success == r'.success && r.failed == r'.failed;
    assert r.count == r'.count && r.pauses == r'.pauses;
  }

  /** Each examined entry is counted once: successes plus failures equal the
      number of attempts before the first 429 (all of them when none). */
  lemma Partition(xs: seq<Attempt>)
    ensures |FetchAll(xs).success| + |FetchAll(xs).failed| == |Examined(xs)|
  {
    FetchAllSummary(xs);
    SplitCount(Examined(xs));
  }

  /** The counter never leaves 0..10 and is the success count modulo 11. */
  lemma CounterBound(xs: seq<Attempt>)
    ensures FetchAll(xs).count <= BatchEnd
    ensures FetchAll(xs).count == |FetchAll(xs).success| % (BatchEnd + 1)
  {
    FetchAllSummary(xs);
  }

  /** Exactly one pause per success, long exactly on every 11th success. */
  lemma PauseSchedule(xs: seq<Attempt>)
    ensures |FetchAll(xs).pauses| == |FetchAll(xs).success|
    ensures forall k :: 0 <= k < |FetchAll(xs).pauses| ==>
              (FetchAll(xs).pauses[k] == Long <==> (k + 1) % 11 == 0)
  {
    FetchAllSummary(xs);
  }

  /** The listing ids of a run of attempts. */
  function CandIds(xs: seq<Attempt>): set<int> {
    set i | 0 <= i < |xs| :: xs[i].cand.id
  }

  /** No listing id occurs twice among the attempts. */
  predicate DistinctCands(xs: seq<Attempt>) {
    forall i, j :: 0 <= i < j < |xs| ==> xs[i].cand.id != xs[j].cand.id
  }

  /** Every success row is keyed by, and every failed entry carries, the id
      of one of the attempts. */
  lemma {:induction false} ListedIds(xs: seq<Attempt>)
    ensures forall k :: 0 <= k < |Successes(xs)| ==> Successes(xs)[k].id in CandIds(xs)
    ensures forall k :: 0 <= k < |Failures(xs)| ==> Failures(xs)[k].id in CandIds(xs)
    decreases |xs|
  {
    if |xs| > 0 {
      var n := |xs| - 1;
      var init := xs[..n];
      ListedIds(init);
      assert forall i :: 0 <= i < n ==> init[i] == xs[i];
      assert CandIds(init) <= CandIds(xs);
      assert xs[n].cand.id in CandIds(xs);
    }
  }

  /** When the listing ids of the attempts are distinct, so are the keys of
      the success rows. */
  lemma {:induction false} DistinctKeys(xs: seq<Attempt>)
    requires DistinctCands(xs)
    ensures forall j, k :: 0 <= j < k < |Successes(xs)| ==> Successes(xs)[j].id != Successes(xs)[k].id
    decreases |xs|
  {
    if |xs| > 0 {
      var n := |xs| - 1;
      var init := xs[..n];
      assert forall i :: 0 <= i < n ==> init[i] == xs[i];
      assert DistinctCands(init);
      DistinctKeys(init);
      ListedIds(init);
      assert xs[n].cand.id !in CandIds(init);
    }
  }

  /** The same for the run itself: its rows and failed entries carry ids
      of the attempts, and the row keys are distinct when the attempts' ids are. */
  lemma RunIds(xs: seq<Attempt>)
    ensures forall k :: 0 <= k < |FetchAll(xs).success| ==> FetchAll(xs).success[k].id in CandIds(xs)
    ensures forall k :: 0 <= k < |FetchAll(xs).failed| ==> FetchAll(xs).failed[k].id in CandIds(xs)
    ensures DistinctCands(xs) ==>
              forall j, k :: 0 <= j < k < |FetchAll(xs).success| ==>
                FetchAll(xs).success[j].id != FetchAll(xs).success[k].id
  {
    var pre := Examined(xs);
    FetchAllSummary(xs);
    assert forall i :: 0 <= i < |pre| ==> pre[i] == xs[i];
    assert CandIds(pre) <= CandIds(xs);
    ListedIds(pre);
    if DistinctCands(xs) {
      assert DistinctCands(pre);
      DistinctKeys(pre);
    }
  }

  /** The row of a record attempt sits in the reference success list right
      after the rows of the attempts before it. */
  lemma SuccessAt(xs: seq<Attempt>, p: nat)
    requires p < |xs| && xs[p].outcome.OkRecord?
    ensures |Successes(xs[..p])| < |Successes(xs)|
    ensures Successes(xs)[|Successes(xs[..p])|]
            == MakeRow(xs[p].cand, xs[p].outcome.detail, xs[p].outcome.genreNames)
  {
    assert xs[..p + 1][..p] == xs[..p];
    assert xs[..p + 1] + xs[p + 1..] == xs;
    SuccessesAppend(xs[..p + 1], xs[p + 1..]);
  }

  /** A record attempt at `p` adds a row to every longer prefix. */
  lemma SuccessesGrow(xs: seq<Attempt>, p: nat, q: nat)
    requires p < q <= |xs| && xs[p].outcome.OkRecord?
    ensures |Successes(xs[..p])| < |Successes(xs[..q])|
  {
    var ys := xs[..q];
    assert ys[..p] == xs[..p];
    SuccessAt(ys, p);
  }

  /** Two record attempts before the first 429 give two rows, in their
      order, whatever their listing ids. */
  lemma TwoRecords(xs: seq<Attempt>, p: nat, q: nat)
    requires p < q < |xs|
    requires forall k :: 0 <= k <= q ==> !xs[k].outcome.RateLimited?
    requires xs[p].outcome.OkRecord? && xs[q].outcome.OkRecord?
    ensures exists a, b :: 0 <= a < b < |FetchAll(xs).success|
              && FetchAll(xs).success[a] == MakeRow(xs[p].cand, xs[p].outcome.detail, xs[p].outcome.genreNames)
              && FetchAll(xs).success[b] == MakeRow(xs[q].cand, xs[q].outcome.detail, xs[q].outcome.genreNames)
  {
    var pre := Examined(xs);
    FetchAllSummary(xs);
    assert |pre| > q;
    assert pre[p] == xs[p] && pre[q] == xs[q];
    SuccessAt(pre, p);
    SuccessAt(pre, q);
    SuccessesGrow(pre, p, q);
  }

  /** Two record attempts for one listing id before the first 429 put two
      rows under that id. */
  lemma SameKeyTwice(xs: seq<Attempt>, p: nat, q: nat)
    requires p < q < |xs|
    requires forall k :: 0 <= k <= q ==> !xs[k].outcome.RateLimited?
    requires xs[p].outcome.OkRecord? && xs[q].outcome.OkRecord?
    requires xs[p].cand.id == xs[q].cand.id
    ensures exists a, b :: 0 <= a < b < |FetchAll(xs).success|
              && FetchAll(xs).success[a].id == xs[p].cand.id
              && FetchAll(xs).success[b].id == xs[p].cand.id
  {
    TwoRecords(xs, p, q);
    var rows := FetchAll(xs).success;
    var a, b :| 0 <= a < b < |rows|
                && rows[a] == MakeRow(xs[p].cand, xs[p].outcome.detail, xs[p].outcome.genreNames)
                && rows[b] == MakeRow(xs[q].cand, xs[q].outcome.detail, xs[q].outcome.genreNames);
    RowFromListing(xs[p].cand, xs[p].outcome.detail, xs[p].outcome.genreNames);
    RowFromListing(xs[q].cand, xs[q].outcome.detail, xs[q].outcome.genreNames);
  }

  /** The loop as the script writes it, with its `break` on a 429. It ends
      in the state the fold describes, so its lists are the reference lists
      of the attempts before the first 429. */
  method FetchDetails(xs: seq<Attempt>)
    returns (success: seq<AnimeRow>, failed: seq<Candidate>, count: nat, pauses: seq<Pause>, aborted: bool)
    ensures Progress(success, failed, count, pauses, aborted) == FetchAll(xs)
    ensures success == Successes(Examined(xs))
    ensures failed == Failures(Examined(xs))
    ensures aborted <==> |Examined(xs)| < |xs|
    ensures count <= BatchEnd && count == |success| % (BatchEnd + 1)
    ensures |pauses| == |success| && forall k :: 0 <= k < |pauses| ==> pauses[k] == PauseAt(k)
  {
    success, failed, count, pauses, aborted := [], [], 0, [], false;
    var i := 0;
    while i < |xs|
      invariant 0 <= i <= |xs|
      invariant Fetch(Progress(success, failed, count, pauses, false), xs[i..]) == FetchAll(xs)
    {
      var a := xs[i];
      ghost var before := Progress(success, failed, count, pauses, false);
      assert Fetch(before, xs[i..]) == Fetch(Step(before, a), xs[i + 1..]) by {
        assert xs[i..][1..] == xs[i + 1..];
      }
      if a.outcome.RateLimited? {
        aborted := true;
        break;
      }
      if a.outcome.OkRecord? {
        success := success + [MakeRow(a.cand, a.outcome.detail, a.outcome.genreNames)];
        if count == BatchEnd {
          count := 0;
          pauses := pauses + [Long];
        } else {
          count := count + 1;
          pauses := pauses + [Short];
        }
      } else {
        failed := failed + [a.cand];
      }
      i := i + 1;
    }
    FetchAllSummary(xs);
  }
}
