/**
 The rolling cache of recently seen ids (`SeenCache<N>` of `relaystar-proto`).
 Its meaning is a history: the sequence of all ids ever recorded, of which the ring
 remembers the last N.
 */
module Seen {
  import opened Proto

  /** The last `min(|history|, n)` recorded ids. */
  function Recent(history: seq<u32>, n: nat): seq<u32> {
    if |history| <= n then history else history[|history| - n..]
  }

  /** `check_and_insert` on histories. */
  function Record(history: seq<u32>, n: nat, id: u32): seq<u32> {
    if id in Recent(history, n) then history else history + [id]
  }

  function RecordAll(history: seq<u32>, n: nat, run: seq<u32>): seq<u32>
    decreases |run|
  {
    if run == [] then history else RecordAll(Record(history, n, run[0]), n, run[1..])
  }

  function Count(history: seq<u32>, id: u32): nat {
    if history == [] then 0
    else Count(history[..|history| - 1], id) + (if history[|history| - 1] == id then 1 else 0)
  }

  /** Between two recordings of one id lie at least n recordings of other ids. */
  ghost predicate Spaced(history: seq<u32>, n: nat) {
    forall i, j :: 0 <= i < j < |history| && history[i] == history[j] ==> j - i > n
  }

  /** The ring's cells spell the recent history, oldest entry at `next` once it is full. */
  ghost predicate IsRing(cells: seq<u32>, next: nat, history: seq<u32>) {
    && (if |cells| == 0 then next == 0 else next < |cells|)
    && if |history| < |cells|
       then next == |history| && cells[..next] == history
       else cells[next..] + cells[..next] == Recent(history, |cells|)
  }

  class SeenCache {
    const ids: array<u32>
    const valid: array<bool>
    var next: nat
    ghost var history: seq<u32>

    ghost predicate Valid()
      reads this, ids, valid
    {
      && ids.Length == valid.Length
      && (forall i :: 0 <= i < valid.Length ==> (valid[i] <==> i < |history|))
      && IsRing(ids[..], next, history)
      && (ids.Length == 0 ==> history == [])
    }

    constructor (n: nat)
      ensures Valid() && fresh(ids) && fresh(valid)
      ensures ids.Length == n && history == []
    {
      ids := new u32[n](_ => 0);
      valid := new bool[n](_ => false);
      next := 0;
      history := [];
    }

    method Contains(id: u32) returns (found: bool)
      requires Valid()
      ensures found <==> id in Recent(history, ids.Length)
    {
      for i := 0 to ids.Length
        invariant forall j :: 0 <= j < i ==> !(valid[j] && ids[j] == id)
      {
        if valid[i] && ids[i] == id {
          if |history| >= ids.Length {
            assert id in ids[..][next..] || id in ids[..][..next];
          }
          return true;
        }
      }
      found := false;
      ghost var recent := Recent(history, ids.Length);
      assert forall k :: 0 <= k < |recent| && |history| >= ids.Length ==>
          recent[k] == if k < ids.Length - next then ids[..][next + k] else ids[..][k - (ids.Length - next)];
    }

    /** Records `id`, for which the cache needs a cell, overwriting the oldest entry once the ring is full. */
    method Insert(id: u32)
      requires Valid() && ids.Length > 0
      modifies this, ids, valid
      ensures Valid() && history == old(history) + [id]
    {
      ids[next] := id;
      valid[next] := true;
      RingStep(old(ids[..]), next, history, id);
      assert ids[..] == old(ids[..])[next := id];
      history := history + [id];
      next := (next + 1) % ids.Length;
    }

    /** Answers whether `id` is new, recording it if so. */
    method CheckAndInsert(id: u32) returns (isNew: bool)
      requires Valid() && ids.Length > 0
      modifies this, ids, valid
      ensures Valid() && history == Record(old(history), ids.Length, id)
      ensures isNew <==> id !in Recent(old(history), ids.Length)
    {
      var known := Contains(id);
      if known {
        isNew := false;
      } else {
        Insert(id);
        isNew := true;
      }
    }
  }

  lemma RecentAfter(history: seq<u32>, n: nat, id: u32)
    requires n > 0
    ensures Recent(history + [id], n)
            == (if |history| < n then history else Recent(history, n)[1..]) + [id]
  {
  }

  /** Writing one cell and moving on keeps the ring in step with the history. */
  lemma RingStep(cells: seq<u32>, next: nat, history: seq<u32>, id: u32)
    requires |cells| > 0 && IsRing(cells, next, history)
    ensures IsRing(cells[next := id], (next + 1) % |cells|, history + [id])
  {
    var after := cells[next := id];
    RecentAfter(history, |cells|, id);
    if next + 1 < |cells| {
      assert (next + 1) % |cells| == next + 1;
      assert after[..next + 1] == cells[..next] + [id];
      assert after[next + 1..] == cells[next..][1..];
    } else {
      assert (next + 1) % |cells| == 0;
      assert after == cells[..next] + [id];
    }
  }

  lemma RecentHolds(history: seq<u32>, n: nat, i: nat)
    requires |history| - n <= i < |history|
    ensures history[i] in Recent(history, n)
  {
    if |history| > n {
      assert Recent(history, n)[i - (|history| - n)] == history[i];
    }
  }

  lemma RecordKeepsSpaced(history: seq<u32>, n: nat, id: u32)
    requires Spaced(history, n)
    ensures Spaced(Record(history, n, id), n)
  {
    forall i | 0 <= i < |history| && |history| - i <= n
      ensures history[i] in Recent(history, n)
    {
      RecentHolds(history, n, i);
    }
  }

  /** A run of `check_and_insert` never repeats an id within any n + 1 consecutive recordings. */
  lemma {:induction false} RunIsSpaced(history: seq<u32>, n: nat, run: seq<u32>)
    requires Spaced(history, n)
    ensures Spaced(RecordAll(history, n, run), n)
    decreases |run|
  {
    if run != [] {
      RecordKeepsSpaced(history, n, run[0]);
      RunIsSpaced(Record(history, n, run[0]), n, run[1..]);
    }
  }

  /** So the ids held by the ring are pairwise distinct on every such run. */
  lemma {:induction false} RingHoldsDistinctIds(n: nat, run: seq<u32>, i: nat, j: nat)
    requires i < j < |Recent(RecordAll([], n, run), n)|
    ensures Recent(RecordAll([], n, run), n)[i] != Recent(RecordAll([], n, run), n)[j]
  {
    RunIsSpaced([], n, run);
    RecentIsDistinct(RecordAll([], n, run), n, i, j);
  }

  lemma RecentIsDistinct(history: seq<u32>, n: nat, i: nat, j: nat)
    requires Spaced(history, n) && i < j < |Recent(history, n)|
    ensures Recent(history, n)[i] != Recent(history, n)[j]
  {
    var lo := |history| - |Recent(history, n)|;
    assert Recent(history, n)[i] == history[lo + i] && Recent(history, n)[j] == history[lo + j];
  }

  /** An id recorded c times takes a history of at least (c - 1)(n + 1) + 1 entries. */
  lemma {:induction false} CountBound(history: seq<u32>, n: nat, id: u32)
    requires Spaced(history, n)
    ensures Count(history, id) * (n + 1) <= |history| + n
    decreases |history|
  {
    if history != [] {
      var last := |history| - 1;
      if history[last] != id {
        CountBound(history[..last], n, id);
      } else {
        var from := if last > n then last - n else 0;
        NoneInside(history[..last], from, id);
        assert history[..last][..from] == history[..from];
        CountBound(history[..from], n, id);
        OneMore(Count(history[..from], id), n + 1);
      }
    }
  }

  lemma OneMore(c: nat, k: nat)
    ensures (c + 1) * k == c * k + k
  {
  }

  lemma {:induction false} NoneInside(history: seq<u32>, from: nat, id: u32)
    requires from <= |history|
    requires forall i :: from <= i < |history| ==> history[i] != id
    ensures Count(history, id) == Count(history[..from], id)
    decreases |history|
  {
    if from == |history| {
      assert history[..from] == history;
    } else {
      var last := |history| - 1;
      NoneInside(history[..last], from, id);
      assert history[..last][..from] == history[..from];
    }
  }
}
