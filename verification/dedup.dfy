/** The dedup filter: before anything is fetched, every listing entry whose
    id the store's Anime_ID column already holds is dropped. Entries are
    compared by id only, and nothing else is removed: an id the listing
    repeats survives as often as it is listed. */
module Dedup {
  import opened Records

  /** The listing with the stored ids masked out, in listing order. */
  function DropExisting(cands: seq<Candidate>, existing: set<int>): (kept: seq<Candidate>)
    ensures |kept| <= |cands|
    ensures forall k :: 0 <= k < |kept| ==> kept[k].id !in existing
    decreases |cands|
  {
    if |cands| == 0 then []
    else
      var init := DropExisting(cands[..|cands| - 1], existing);
      var last := cands[|cands| - 1];
      if last.id in existing then init else init + [last]
  }

  /** The positions of the listing the mask leaves in, ascending: every
      position whose id is not stored, and no other. */
  function KeptPositions(cands: seq<Candidate>, existing: set<int>): (idx: seq<nat>)
    ensures forall k :: 0 <= k < |idx| ==> idx[k] < |cands|
    ensures forall j, k :: 0 <= j < k < |idx| ==> idx[j] < idx[k]
    ensures forall i {:trigger i in idx} :: 0 <= i < |cands| ==> (i in idx <==> cands[i].id !in existing)
    decreases |cands|
  {
    if |cands| == 0 then []
    else
      var n := |cands| - 1;
      var init := KeptPositions(cands[..n], existing);
      assert forall i :: 0 <= i < n ==> cands[..n][i] == cands[i];
      assert n !in init;
      if cands[n].id in existing then init else init + [n]
  }

  /** The survivors are the listing entries at the kept positions, in that
      order: the filter keeps listing order and drops nothing but stored ids. */
  lemma {:induction false} DropExistingSelects(cands: seq<Candidate>, existing: set<int>)
    ensures |DropExisting(cands, existing)| == |KeptPositions(cands, existing)|
    ensures forall k :: 0 <= k < |KeptPositions(cands, existing)| ==>
              DropExisting(cands, existing)[k] == cands[KeptPositions(cands, existing)[k]]
    decreases |cands|
  {
    if |cands| > 0 {
      var n := |cands| - 1;
      DropExistingSelects(cands[..n], existing);
      assert forall i :: 0 <= i < n ==> cands[..n][i] == cands[i];
    }
  }

  /** Two unstored listing positions both survive, at kept positions `p`
      and `q` in the same order, and no survivor up to `q` comes from a
      listing position after `j`. */
  lemma BothKept(cands: seq<Candidate>, existing: set<int>, i: nat, j: nat) returns (p: nat, q: nat)
    requires i < j < |cands| && cands[i].id !in existing && cands[j].id !in existing
    ensures p < q < |KeptPositions(cands, existing)|
    ensures KeptPositions(cands, existing)[p] == i && KeptPositions(cands, existing)[q] == j
    ensures forall k :: 0 <= k <= q ==> KeptPositions(cands, existing)[k] <= j
  {
    var idx := KeptPositions(cands, existing);
    assert i in idx && j in idx;
    p :| 0 <= p < |idx| && idx[p] == i;
    q :| 0 <= q < |idx| && idx[q] == j;
    forall k | 0 <= k < q ensures idx[k] <= j {
      assert idx[k] < idx[q];
    }
  }

  /** As a set of entries: an entry survives exactly when it is listed and
      its id is not stored. */
  lemma {:induction false} SurvivorsAreUnstored(cands: seq<Candidate>, existing: set<int>)
    ensures forall c :: c in DropExisting(cands, existing) <==> c in cands && c.id !in existing
  {
    var kept := DropExisting(cands, existing);
    var idx := KeptPositions(cands, existing);
    DropExistingSelects(cands, existing);
    forall c | c in kept ensures c in cands {
      var k :| 0 <= k < |kept| && kept[k] == c;
      assert cands[idx[k]] == c;
    }
    forall c | c in cands && c.id !in existing ensures c in kept {
      var i :| 0 <= i < |cands| && cands[i] == c;
      assert i in idx;
      var k :| 0 <= k < |idx| && idx[k] == i;
      assert kept[k] == c;
    }
  }

  /** When the store holds no ids, the whole listing is kept. */
  lemma {:induction false} EmptyStoreKeepsAll(cands: seq<Candidate>)
    ensures DropExisting(cands, {}) == cands
    decreases |cands|
  {
    if |cands| > 0 {
      EmptyStoreKeepsAll(cands[..|cands| - 1]);
      assert cands == cands[..|cands| - 1] + [cands[|cands| - 1]];
    }
  }

  /** Filtering again against the same store removes nothing more. */
  lemma {:induction false} DropExistingIdempotent(cands: seq<Candidate>, existing: set<int>)
    ensures DropExisting(DropExisting(cands, existing), existing) == DropExisting(cands, existing)
    decreases |cands|
  {
    if |cands| > 0 {
      var n := |cands| - 1;
      var init := DropExisting(cands[..n], existing);
      DropExistingIdempotent(cands[..n], existing);
      if cands[n].id !in existing {
        var kept := init + [cands[n]];
        assert kept[..|kept| - 1] == init;
      }
    }
  }

  /** The ids a sequence of entries carries. */
  function Ids(cands: seq<Candidate>): set<int> {
    set k | 0 <= k < |cands| :: cands[k].id
  }

  /** The ids of an entry after a sequence. */
  lemma IdsSnoc(s: seq<Candidate>, c: Candidate)
    ensures Ids(s + [c]) == Ids(s) + {c.id}
  {
    var t := s + [c];
    assert forall k :: 0 <= k < |s| ==> t[k] == s[k];
    assert t[|s|] == c;
  }

  /** Entry `i` is the first of the listing with its id, and that id is
      not stored. */
  predicate FirstOf(cands: seq<Candidate>, i: nat, known: set<int>)
    requires i < |cands|
  {
    cands[i].id !in known && cands[i].id !in Ids(cands[..i])
  }

  /** What the corrected filter promises of its survivors `kept`: pairwise
      different ids, none of them stored, each a listing entry, and every
      unstored id of the listing still among them. */
  predicate Keeps(cands: seq<Candidate>, known: set<int>, kept: seq<Candidate>) {
    && (forall k :: 0 <= k < |kept| ==> kept[k].id !in known && kept[k] in cands)
    && (forall j, k :: 0 <= j < k < |kept| ==> kept[j].id != kept[k].id)
    && (forall i :: 0 <= i < |cands| && cands[i].id !in known ==> cands[i].id in Ids(kept))
    && Ids(kept) <= Ids(cands)
  }

  /** The filter with the key kept unique: an entry is dropped when its id
      is stored or an earlier entry of the listing already carries it, so
      of each unstored id only its first entry survives. */
  function DropKnown(cands: seq<Candidate>, known: set<int>): (kept: seq<Candidate>)
    ensures Keeps(cands, known, kept)
    decreases |cands|
  {
    if |cands| == 0 then []
    else
      var n := |cands| - 1;
      var init := DropKnown(cands[..n], known);
      assert cands == cands[..n] + [cands[n]];
      if FirstOf(cands, n, known) then
        KeepsKeep(cands[..n], cands[n], known, init);
        init + [cands[n]]
      else
        KeepsDrop(cands[..n], cands[n], known, init);
        init
  }

  /** Dropping an entry whose id is stored or already listed keeps the promise. */
  lemma KeepsDrop(pre: seq<Candidate>, last: Candidate, known: set<int>, init: seq<Candidate>)
    requires Keeps(pre, known, init)
    requires last.id in known || last.id in Ids(pre)
    ensures Keeps(pre + [last], known, init)
  {
    var cands := pre + [last];
    IdsSnoc(pre, last);
    assert forall i :: 0 <= i < |pre| ==> cands[i] == pre[i];
    if last.id !in known {
      var j :| 0 <= j < |pre| && pre[j].id == last.id;
    }
  }

  /** Keeping the first entry of an unstored id keeps the promise. */
  lemma KeepsKeep(pre: seq<Candidate>, last: Candidate, known: set<int>, init: seq<Candidate>)
    requires Keeps(pre, known, init)
    requires last.id !in known && last.id !in Ids(pre)
    ensures Keeps(pre + [last], known, init + [last])
  {
    var cands, kept := pre + [last], init + [last];
    IdsSnoc(pre, last);
    IdsSnoc(init, last);
    assert forall i :: 0 <= i < |pre| ==> cands[i] == pre[i];
    assert forall k :: 0 <= k < |init| ==> kept[k] == init[k] && init[k].id in Ids(init);
  }

  /** The positions of the listing the corrected filter keeps, ascending:
      every position whose id is neither stored nor carried by an earlier
      entry, and no other. */
  function FirstPositions(cands: seq<Candidate>, known: set<int>): (idx: seq<nat>)
    ensures forall k :: 0 <= k < |idx| ==> idx[k] < |cands|
    ensures forall j, k :: 0 <= j < k < |idx| ==> idx[j] < idx[k]
    ensures forall i {:trigger i in idx} :: 0 <= i < |cands| ==>
              (i in idx <==> cands[i].id !in known && cands[i].id !in Ids(cands[..i]))
    decreases |cands|
  {
    if |cands| == 0 then []
    else
      var n := |cands| - 1;
      var init := FirstPositions(cands[..n], known);
      assert forall i :: 0 <= i < n ==> cands[..n][i] == cands[i] && cands[..n][..i] == cands[..i];
      assert n !in init;
      if FirstOf(cands, n, known) then init + [n] else init
  }

  /** The corrected filter keeps listing order: its survivors are the
      listing entries at the first positions, in that order. */
  lemma {:induction false} DropKnownSelects(cands: seq<Candidate>, known: set<int>)
    ensures |DropKnown(cands, known)| == |FirstPositions(cands, known)|
    ensures forall k :: 0 <= k < |FirstPositions(cands, known)| ==>
              DropKnown(cands, known)[k] == cands[FirstPositions(cands, known)[k]]
    decreases |cands|
  {
    if |cands| > 0 {
      var n := |cands| - 1;
      DropKnownSelects(cands[..n], known);
      assert forall i :: 0 <= i < n ==> cands[..n][i] == cands[i];
    }
  }

  /** The two columns the loop iterates over (`id_list` and `title_list`),
      read off the masked listing. Zipped back together they give the
      survivors of the dedup filter, position by position. */
  method ListColumns(cands: seq<Candidate>, existing: set<int>) returns (ids: seq<int>, titles: seq<string>)
    ensures |ids| == |titles| == |DropExisting(cands, existing)|
    ensures forall k :: 0 <= k < |ids| ==>
              Candidate(ids[k], titles[k]) == DropExisting(cands, existing)[k]
  {
    ids, titles := [], [];
    var i := 0;
    while i < |cands|
      invariant 0 <= i <= |cands|
      invariant |ids| == |titles| == |DropExisting(cands[..i], existing)|
      invariant forall k :: 0 <= k < |ids| ==>
                  Candidate(ids[k], titles[k]) == DropExisting(cands[..i], existing)[k]
    {
      assert cands[..i + 1][..i] == cands[..i];
      if cands[i].id !in existing {
        ids := ids + [cands[i].id];
        titles := titles + [cands[i].title];
      }
      i := i + 1;
    }
    assert cands[..i] == cands;
  }
}
