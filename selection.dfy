/** Best-of-sample selection, the algorithm `_get_quotes` and `_get_screenshots` share
    (they differ only in the table they read): draw `count` candidates from the pool, look
    each one up, take the first one never used, else one of those with the smallest count.

    Randomness is passed in: `draws[i]` is the index `random.choice` picked from the pool in
    round i (so `count` is `|draws|`), and `tieBreak` is the position `random.choice` picked
    in the list of indices of minimal count. */
module Selection {
  import opened Errors
  import opened Base64
  import opened UsageStore

  // ---------------------------------------------------------------------------
  // Specification
  // ---------------------------------------------------------------------------

  /** Every draw names an element of the pool; when the pool is empty `random.choice` fails
      before any draw is used, so nothing is asked of the draws then. */
  predicate DrawsInRange(pool: seq<string>, draws: seq<nat>) {
    |pool| == 0 || forall i :: 0 <= i < |draws| ==> draws[i] < |pool|
  }

  /** The partition value a candidate is stored under. */
  function PartitionValue(v: string): string
    requires IsAscii(v)
  {
    EncodeText(v).value
  }

  /** How often a candidate has been used according to the table. */
  function Uses(store: Store, table: Table, v: string): nat
    requires IsAscii(v)
  {
    TimesUsed(store, table, PartitionValue(v))
  }

  /** The items the sampling loop collects, one store lookup per draw, in draw order; it fails
      at the first draw that cannot be made (empty pool) or encoded (not ASCII). */
  function Sample(store: Store, table: Table, pool: seq<string>, draws: seq<nat>): (r: Result<seq<Item>>)
    requires DrawsInRange(pool, draws)
    ensures r.Ok? <==> (|draws| == 0 || (|pool| > 0 && forall i :: 0 <= i < |draws| ==> IsAscii(pool[draws[i]])))
    ensures r.Err? ==> r.error == (if |pool| == 0 then EmptyPool else NotAscii)
    ensures r.Ok? ==> |r.value| == |draws|
    ensures r.Ok? ==> forall i :: 0 <= i < |draws| ==>
      |pool| > 0 && IsAscii(pool[draws[i]]) &&
      r.value[i] == Item(PartitionValue(pool[draws[i]]), Uses(store, table, pool[draws[i]]))
    decreases |draws|
  {
    if |draws| == 0 then Ok([])
    else
      var last := |draws| - 1;
      match Sample(store, table, pool, draws[..last])
      case Err(e) => Err(e)
      case Ok(s) =>
        if |pool| == 0 then Err(EmptyPool)
        else
          match EncodeText(pool[draws[last]])
          case Err(e) => Err(e)
          case Ok(key) => Ok(s + [GetItem(store, table, key)])
  }

  /** The position of the first never-used item, as `next(...)` finds it. */
  function FirstUnused(s: seq<Item>): (r: Option<nat>)
    ensures r.Some? ==> r.value < |s| && s[r.value].timesUsed == 0
    ensures r.Some? ==> forall j :: 0 <= j < r.value ==> s[j].timesUsed != 0
    ensures r.None? ==> forall j :: 0 <= j < |s| ==> s[j].timesUsed != 0
  {
    if |s| == 0 then None
    else if s[0].timesUsed == 0 then Some(0)
    else
      match FirstUnused(s[1..])
      case None => None
      case Some(i) => Some(i + 1)
  }

  /** `min(db_item_counts)`: a count that occurs in the sample and is below or equal to all of them. */
  function MinCount(s: seq<Item>): (m: nat)
    requires |s| > 0
    ensures forall i :: 0 <= i < |s| ==> m <= s[i].timesUsed
    ensures exists i :: 0 <= i < |s| && s[i].timesUsed == m
  {
    if |s| == 1 then s[0].timesUsed
    else
      var rest := MinCount(s[1..]);
      assert forall i :: 1 <= i < |s| ==> s[i] == s[1..][i - 1];
      if s[0].timesUsed <= rest then s[0].timesUsed else rest
  }

  /** The indices at or after `from` whose count is m, in increasing order. */
  function IndicesWithCount(s: seq<Item>, m: nat, from: nat): (r: seq<nat>)
    requires from <= |s|
    ensures forall k :: 0 <= k < |r| ==> from <= r[k] < |s| && s[r[k]].timesUsed == m
    ensures forall i :: from <= i < |s| && s[i].timesUsed == m ==> i in r
    ensures forall j, k :: 0 <= j < k < |r| ==> r[j] < r[k]
    decreases |s| - from
  {
    if from == |s| then []
    else if s[from].timesUsed == m then [from] + IndicesWithCount(s, m, from + 1)
    else IndicesWithCount(s, m, from + 1)
  }

  /** `index_of_items_equal_to_min`: exactly the indices of minimal count, increasing, never empty. */
  function MinIndices(s: seq<Item>): (r: seq<nat>)
    requires |s| > 0
    ensures |r| > 0
    ensures forall k :: 0 <= k < |r| ==> r[k] < |s| && s[r[k]].timesUsed == MinCount(s)
    ensures forall i :: 0 <= i < |s| && s[i].timesUsed == MinCount(s) ==> i in r
  {
    var m := MinCount(s);
    var i :| 0 <= i < |s| && s[i].timesUsed == m;
    assert i in IndicesWithCount(s, m, 0);
    IndicesWithCount(s, m, 0)
  }

  /** The tie-break index is a valid position in the list of minimal indices whenever it is used. */
  predicate TieBreakFits(s: seq<Item>, tieBreak: nat) {
    |s| == 0 || FirstUnused(s).Some? || tieBreak < |MinIndices(s)|
  }

  /** The decision once the sample is known: the first never-used item, else the tie-break's
      pick among the items of minimal count; an empty sample leaves no index to pick from. The chosen item's
      key is decoded back to the candidate. */
  function Choose(s: seq<Item>, tieBreak: nat): (r: Result<string>)
    requires TieBreakFits(s, tieBreak)
    ensures r.Ok? ==> IsAscii(r.value)
  {
    if |s| == 0 then Err(EmptySample)
    else
      match FirstUnused(s)
      case Some(i) => DecodeText(s[i].key)
      case None => DecodeText(s[MinIndices(s)[tieBreak]].key)
  }

  predicate TieBreakInRange(store: Store, table: Table, pool: seq<string>, draws: seq<nat>, tieBreak: nat)
    requires DrawsInRange(pool, draws)
  {
    match Sample(store, table, pool, draws)
    case Err(_) => true
    case Ok(s) => TieBreakFits(s, tieBreak)
  }

  /** The whole selection: sample, then choose. */
  function Select(store: Store, table: Table, pool: seq<string>, draws: seq<nat>, tieBreak: nat): (r: Result<string>)
    requires DrawsInRange(pool, draws) && TieBreakInRange(store, table, pool, draws, tieBreak)
    ensures r.Ok? ==> IsAscii(r.value)
  {
    match Sample(store, table, pool, draws)
    case Err(e) => Err(e)
    case Ok(s) => Choose(s, tieBreak)
  }

  // ---------------------------------------------------------------------------
  // Properties of the specification
  // ---------------------------------------------------------------------------

  /** An error in the first n draws is the error of the whole sampling loop. */
  lemma {:induction false} SamplePrefixError(store: Store, table: Table, pool: seq<string>, draws: seq<nat>, n: nat)
    requires DrawsInRange(pool, draws) && n <= |draws|
    requires DrawsInRange(pool, draws[..n]) && Sample(store, table, pool, draws[..n]).Err?
    ensures Sample(store, table, pool, draws) == Sample(store, table, pool, draws[..n])
    decreases |draws|
  {
    if n < |draws| {
      var last := |draws| - 1;
      assert draws[..last][..n] == draws[..n];
      SamplePrefixError(store, table, pool, draws[..last], n);
    } else {
      assert draws[..n] == draws;
    }
  }

  /** Never-used first: when some draw has never been used, the result is the first such draw
      in sample order, whatever the tie-break. */
  lemma SelectNeverUsedFirst(store: Store, table: Table, pool: seq<string>, draws: seq<nat>, tieBreak: nat, i: nat)
    requires DrawsInRange(pool, draws) && TieBreakInRange(store, table, pool, draws, tieBreak)
    requires |pool| > 0 && forall j :: 0 <= j < |draws| ==> IsAscii(pool[draws[j]])
    requires i < |draws| && Uses(store, table, pool[draws[i]]) == 0
    requires forall j :: 0 <= j < i ==> Uses(store, table, pool[draws[j]]) != 0
    ensures Select(store, table, pool, draws, tieBreak) == Ok(pool[draws[i]])
  {
    var s := Sample(store, table, pool, draws).value;
    assert s[i].timesUsed == 0;
    assert FirstUnused(s) == Some(i);
    TextRoundTrip(pool[draws[i]]);
  }

  /** The item Choose decodes has a count no larger than any other item's. */
  lemma ChooseMinimal(s: seq<Item>, tieBreak: nat, j: nat)
    requires |s| > 0 && TieBreakFits(s, tieBreak)
    requires j == if FirstUnused(s).Some? then FirstUnused(s).value else MinIndices(s)[tieBreak]
    ensures j < |s| && Choose(s, tieBreak) == DecodeText(s[j].key)
    ensures forall k :: 0 <= k < |s| ==> s[j].timesUsed <= s[k].timesUsed
  {
    if FirstUnused(s).None? {
      assert s[j].timesUsed == MinCount(s);
    }
  }

  /** Best of sample: a successful selection is one of the drawn candidates and none of the
      drawn candidates has been used less often. */
  lemma SelectBestOfSample(store: Store, table: Table, pool: seq<string>, draws: seq<nat>, tieBreak: nat)
    requires DrawsInRange(pool, draws) && TieBreakInRange(store, table, pool, draws, tieBreak)
    requires |pool| > 0 && |draws| > 0 && forall j :: 0 <= j < |draws| ==> IsAscii(pool[draws[j]])
    ensures Select(store, table, pool, draws, tieBreak).Ok?
    ensures exists j :: 0 <= j < |draws| && Select(store, table, pool, draws, tieBreak) == Ok(pool[draws[j]]) &&
                        forall k :: 0 <= k < |draws| ==> Uses(store, table, pool[draws[j]]) <= Uses(store, table, pool[draws[k]])
  {
    var s := Sample(store, table, pool, draws).value;
    var j: nat := if FirstUnused(s).Some? then FirstUnused(s).value else MinIndices(s)[tieBreak];
    ChooseMinimal(s, tieBreak, j);
    TextRoundTrip(pool[draws[j]]);
    assert Choose(s, tieBreak) == Ok(pool[draws[j]]);
  }

  /** Random tie-breaking can reach every drawn candidate of minimal count when none is unused. */
  lemma SelectTieReachable(store: Store, table: Table, pool: seq<string>, draws: seq<nat>, j: nat)
    requires DrawsInRange(pool, draws)
    requires |pool| > 0 && forall k :: 0 <= k < |draws| ==> IsAscii(pool[draws[k]])
    requires forall k :: 0 <= k < |draws| ==> Uses(store, table, pool[draws[k]]) != 0
    requires j < |draws| && forall k :: 0 <= k < |draws| ==> Uses(store, table, pool[draws[j]]) <= Uses(store, table, pool[draws[k]])
    ensures exists t :: TieBreakInRange(store, table, pool, draws, t) &&
                        Select(store, table, pool, draws, t) == Ok(pool[draws[j]])
  {
    var s := Sample(store, table, pool, draws).value;
    assert FirstUnused(s).None?;
    var mins := MinIndices(s);
    assert s[j].timesUsed == MinCount(s) by {
      var w :| 0 <= w < |s| && s[w].timesUsed == MinCount(s);
      assert s[j].timesUsed <= s[w].timesUsed;
    }
    assert j in mins;
    var t :| 0 <= t < |mins| && mins[t] == j;
    TextRoundTrip(pool[draws[j]]);
    assert TieBreakInRange(store, table, pool, draws, t);
    assert Select(store, table, pool, draws, t) == Ok(pool[draws[j]]);
  }

  /** The failures: no draws leaves the tie-break nothing to pick from, an empty pool fails at the first draw, and a
      candidate that is not ASCII fails when it is encoded. */
  lemma SelectFailures(store: Store, table: Table, pool: seq<string>, draws: seq<nat>, tieBreak: nat)
    requires DrawsInRange(pool, draws) && TieBreakInRange(store, table, pool, draws, tieBreak)
    ensures |draws| == 0 ==> Select(store, table, pool, draws, tieBreak) == Err(EmptySample)
    ensures |draws| > 0 && |pool| == 0 ==> Select(store, table, pool, draws, tieBreak) == Err(EmptyPool)
    ensures |pool| > 0 && (exists k :: 0 <= k < |draws| && !IsAscii(pool[draws[k]])) ==>
      Select(store, table, pool, draws, tieBreak) == Err(NotAscii)
  {
  }

  // ---------------------------------------------------------------------------
  // Two worked scenarios
  // ---------------------------------------------------------------------------

  /** Candidates a, b, c used 0, 5 and 2 times, drawn in the order b, c, a: the result is a,
      whatever the tie-break. */
  lemma ScenarioNeverUsedWins(store: Store, table: Table, a: string, b: string, c: string, tieBreak: nat)
    requires IsAscii(a) && IsAscii(b) && IsAscii(c)
    requires Uses(store, table, a) == 0 && Uses(store, table, b) == 5 && Uses(store, table, c) == 2
    ensures && DrawsInRange([a, b, c], [1, 2, 0])
            && TieBreakInRange(store, table, [a, b, c], [1, 2, 0], tieBreak)
            && Select(store, table, [a, b, c], [1, 2, 0], tieBreak) == Ok(a)
  {
    var pool, draws := [a, b, c], [1, 2, 0];
    assert forall j :: 0 <= j < |draws| ==> IsAscii(pool[draws[j]]);
    var s := Sample(store, table, pool, draws).value;
    assert s[2].timesUsed == 0;
    assert FirstUnused(s).Some?;
    SelectNeverUsedFirst(store, table, pool, draws, tieBreak, 2);
  }

  /** Candidates x and y used equally often (and at least once), drawn x, y, x: every tie-break
      picks x or y. */
  lemma ScenarioTieBreak(store: Store, table: Table, x: string, y: string, tieBreak: nat)
    requires IsAscii(x) && IsAscii(y)
    requires Uses(store, table, x) == Uses(store, table, y) > 0
    ensures DrawsInRange([x, y], [0, 1, 0])
    ensures TieBreakInRange(store, table, [x, y], [0, 1, 0], tieBreak) ==>
      Select(store, table, [x, y], [0, 1, 0], tieBreak) in {Ok(x), Ok(y)}
  {
    var pool, draws := [x, y], [0, 1, 0];
    assert forall j :: 0 <= j < |draws| ==> IsAscii(pool[draws[j]]);
    if TieBreakInRange(store, table, pool, draws, tieBreak) {
      SelectBestOfSample(store, table, pool, draws, tieBreak);
    }
  }

  /** In the same situation each of x and y is picked by some tie-break: the choice among the
      tied candidates is left to chance, not fixed by the order of the draws. */
  lemma ScenarioTieBreakReachesBoth(store: Store, table: Table, x: string, y: string)
    requires IsAscii(x) && IsAscii(y)
    requires Uses(store, table, x) == Uses(store, table, y) > 0
    ensures exists t :: TieBreakInRange(store, table, [x, y], [0, 1, 0], t) &&
                        Select(store, table, [x, y], [0, 1, 0], t) == Ok(x)
    ensures exists t :: TieBreakInRange(store, table, [x, y], [0, 1, 0], t) &&
                        Select(store, table, [x, y], [0, 1, 0], t) == Ok(y)
  {
    var pool, draws := [x, y], [0, 1, 0];
    assert forall j :: 0 <= j < |draws| ==> IsAscii(pool[draws[j]]);
    assert forall k :: 0 <= k < |draws| ==> Uses(store, table, pool[draws[k]]) == Uses(store, table, x);
    SelectTieReachable(store, table, pool, draws, 0);
    SelectTieReachable(store, table, pool, draws, 1);
  }

  // ---------------------------------------------------------------------------
  // The algorithm
  // ---------------------------------------------------------------------------

  /** The shared body of `_get_quotes` and `_get_screenshots`, reading the given table. */
  method SelectLeastUsed(store: Store, table: Table, pool: seq<string>, draws: seq<nat>, tieBreak: nat)
    returns (r: Result<string>)
    requires DrawsInRange(pool, draws) && TieBreakInRange(store, table, pool, draws, tieBreak)
    ensures r == Select(store, table, pool, draws, tieBreak)
  {
    var sample := SampleItems(store, table, pool, draws);
    if sample.Err? {
      return Err(sample.error);
    }
    r := ChooseItem(sample.value, tieBreak);
  }

  /** The sampling loop: one draw, one encoding and one lookup per round, stopping at the first failure. */
  method SampleItems(store: Store, table: Table, pool: seq<string>, draws: seq<nat>) returns (r: Result<seq<Item>>)
    requires DrawsInRange(pool, draws)
    ensures r == Sample(store, table, pool, draws)
  {
    var sample: seq<Item> := [];
    for i := 0 to |draws|
      invariant DrawsInRange(pool, draws[..i])
      invariant Sample(store, table, pool, draws[..i]) == Ok(sample)
    {
      assert draws[..i + 1][..i] == draws[..i];
      if |pool| == 0 {
        SamplePrefixError(store, table, pool, draws, i + 1);
        return Err(EmptyPool);
      }
      var key := EncodeText(pool[draws[i]]);
      if key.Err? {
        SamplePrefixError(store, table, pool, draws, i + 1);
        return Err(key.error);
      }
      sample := sample + [GetItem(store, table, key.value)];
    }
    assert draws[..|draws|] == draws;
    r := Ok(sample);
  }

  /** The decision over the collected items: `next(...)`, else the minimal indices and the random pick. */
  method ChooseItem(sample: seq<Item>, tieBreak: nat) returns (r: Result<string>)
    requires TieBreakFits(sample, tieBreak)
    ensures r == Choose(sample, tieBreak)
  {
    var i := FindUnused(sample);
    if i < |sample| {
      return DecodeText(sample[i].key);
    }
    if |sample| == 0 {
      return Err(EmptySample);
    }
    var mins := IndicesOfCount(sample, MinCount(sample));
    r := DecodeText(sample[mins[tieBreak]].key);
  }

  /** `next(obj for obj in ... if obj['times_used'] == 0)`: the position of the first unused item,
      or the length of the sample when there is none. */
  method FindUnused(sample: seq<Item>) returns (i: nat)
    ensures i <= |sample|
    ensures FirstUnused(sample) == if i < |sample| then Some(i) else None
  {
    i := 0;
    while i < |sample| && sample[i].timesUsed != 0
      invariant i <= |sample|
      invariant forall j :: 0 <= j < i ==> sample[j].timesUsed != 0
    {
      i := i + 1;
    }
  }

  lemma AppendAssoc(a: seq<nat>, b: seq<nat>, c: seq<nat>)
    ensures (a + b) + c == a + (b + c)
  {
  }

  /** `[i for i, e in enumerate(db_item_counts) if e == m]`. */
  method IndicesOfCount(sample: seq<Item>, m: nat) returns (mins: seq<nat>)
    ensures mins == IndicesWithCount(sample, m, 0)
  {
    mins := [];
    for j := 0 to |sample|
      invariant mins + IndicesWithCount(sample, m, j) == IndicesWithCount(sample, m, 0)
    {
      ghost var later := IndicesWithCount(sample, m, j + 1);
      if sample[j].timesUsed == m {
        assert IndicesWithCount(sample, m, j) == [j] + later;
        AppendAssoc(mins, [j], later);
        mins := mins + [j];
      } else {
        assert IndicesWithCount(sample, m, j) == later;
      }
    }
  }
}
