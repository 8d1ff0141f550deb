/**
 * Resolving a season and a position within it to rows of the table, and
 * reading those rows' draws out of a posterior trace. The trace is the
 * latent-quality draws of the fitted model, one sequence per row position
 * (all chains flattened into one sequence).
 */
module SeasonLookup {

  /** The failures of an episode query. */
  datatype QueryError =
    | NotFitted            // queried before a trace exists
    | InvalidEpisodeIndex  // position at or beyond the season's episode count
    | PositionOutOfRange   // negative position beyond the season's episode count
    | TraceIndexOutOfRange // row position beyond the trace's latent dimension

  datatype Result<T> = Ok(value: T) | Err(error: QueryError)

  /** Positions of the rows whose season is `season`, in table order. */
  function SeasonRows(col: seq<int>, season: int): (idx: seq<nat>)
    ensures forall k :: 0 <= k < |idx| ==> idx[k] < |col| && col[idx[k]] == season
    ensures forall k, l :: 0 <= k < l < |idx| ==> idx[k] < idx[l]
    ensures forall i :: 0 <= i < |col| && col[i] == season ==> i in idx
    decreases |col|
  {
    if col == [] then []
    else
      var p := col[..|col| - 1];
      assert forall i :: 0 <= i < |p| ==> p[i] == col[i];
      var before := SeasonRows(p, season);
      if col[|col| - 1] == season then before + [|col| - 1] else before
  }

  /** SeasonRows grows at the end exactly when the appended row is of that season. */
  lemma SeasonRowsAppend(col: seq<int>, x: int, season: int)
    ensures SeasonRows(col + [x], season) ==
      if x == season then SeasonRows(col, season) + [|col|] else SeasonRows(col, season)
  {
    assert (col + [x])[..|col + [x]| - 1] == col;
  }

  /** The season has as many row positions as the column has rows of that season. */
  lemma {:induction false} SeasonRowsCount(col: seq<int>, season: int)
    ensures |SeasonRows(col, season)| == multiset(col)[season]
    decreases |col|
  {
    if col != [] {
      var p := col[..|col| - 1];
      assert col == p + [col[|col| - 1]];
      SeasonRowsAppend(p, col[|col| - 1], season);
      SeasonRowsCount(p, season);
    }
  }

  /** The k-th position of the season has exactly k rows of that season before it. */
  lemma {:induction false} SeasonRowsPosition(col: seq<int>, season: int, k: nat)
    requires k < |SeasonRows(col, season)|
    ensures multiset(col[..SeasonRows(col, season)[k]])[season] == k
    decreases |col|
  {
    var p := col[..|col| - 1];
    var x := col[|col| - 1];
    var before := SeasonRows(p, season);
    var idx := SeasonRows(col, season);
    assert idx == if x == season then before + [|p|] else before;
    if k < |before| {
      assert idx[k] == before[k];
      SeasonRowsPosition(p, season, k);
      assert col[..idx[k]] == p[..before[k]];
    } else {
      assert k == |before| && idx[k] == |p|;
      assert col[..|p|] == p;
      SeasonRowsCount(p, season);
    }
  }

  /**
   * The row a season and a position within it name. The position is checked
   * only against the season's episode count from above; below zero it counts
   * from the end of the season, as a list index does, and below minus the
   * count it has no row.
   */
  function ResolveEpisode(col: seq<int>, season: int, episodeIdx: int): (r: Result<nat>)
    ensures r == Err(InvalidEpisodeIndex) <==> episodeIdx >= multiset(col)[season]
    ensures r == Err(PositionOutOfRange) <==> episodeIdx + multiset(col)[season] < 0
    ensures r.Ok? <==> 0 <= episodeIdx + multiset(col)[season] && episodeIdx < multiset(col)[season]
    ensures r.Ok? ==> r.value < |col| && col[r.value] == season
    ensures r.Ok? && episodeIdx >= 0 ==> multiset(col[..r.value])[season] == episodeIdx
    ensures r.Ok? && episodeIdx < 0 ==>
      multiset(col[..r.value])[season] == multiset(col)[season] + episodeIdx
  {
    var idx := SeasonRows(col, season);
    SeasonRowsCount(col, season);
    var n := |idx|;
    if episodeIdx >= n then Err(InvalidEpisodeIndex)
    else if episodeIdx < -n then Err(PositionOutOfRange)
    else
      var k := if episodeIdx >= 0 then episodeIdx else n + episodeIdx;
      SeasonRowsPosition(col, season, k);
      Ok(idx[k])
  }

  /** A negative position names the same row as the position that many rows from the season's end. */
  lemma NegativePositionFromEnd(col: seq<int>, season: int, episodeIdx: int)
    requires 0 <= episodeIdx + multiset(col)[season] && episodeIdx < 0
    ensures ResolveEpisode(col, season, episodeIdx) ==
      ResolveEpisode(col, season, multiset(col)[season] + episodeIdx)
  {
    SeasonRowsCount(col, season);
  }

  /** The draws of the row a season and a position name (single-episode mode). */
  function EpisodeDraws(trace: seq<seq<real>>, col: seq<int>, season: int, episodeIdx: int)
    : (r: Result<seq<real>>)
    ensures r.Ok? ==> exists i :: 0 <= i < |col| && i < |trace| && col[i] == season && r.value == trace[i]
    ensures r.Ok? ==>
      && ResolveEpisode(col, season, episodeIdx).Ok?
      && ResolveEpisode(col, season, episodeIdx).value < |trace|
      && r.value == trace[ResolveEpisode(col, season, episodeIdx).value]
    ensures r.Err? ==> r.error != NotFitted
    ensures ResolveEpisode(col, season, episodeIdx).Err? ==>
      r == Err(ResolveEpisode(col, season, episodeIdx).error)
    ensures ResolveEpisode(col, season, episodeIdx).Ok? ==>
      (r.Ok? <==> ResolveEpisode(col, season, episodeIdx).value < |trace|)
    ensures |col| <= |trace| ==>
      (r.Ok? <==> 0 <= episodeIdx + multiset(col)[season] && episodeIdx < multiset(col)[season])
  {
    match ResolveEpisode(col, season, episodeIdx)
    case Err(e) => Err(e)
    case Ok(i) => if i < |trace| then Ok(trace[i]) else Err(TraceIndexOutOfRange)
  }

  /** The draws of every row of a season, in table order (all-episodes mode). */
  function SeasonDraws(trace: seq<seq<real>>, col: seq<int>, season: int)
    : (r: Result<seq<seq<real>>>)
    ensures r.Ok? ==> |r.value| == multiset(col)[season]
    ensures r.Err? ==> r.error == TraceIndexOutOfRange
    ensures r.Ok? <==> forall i :: 0 <= i < |col| && col[i] == season ==> i < |trace|
    ensures |col| <= |trace| ==> r.Ok?
  {
    var idx := SeasonRows(col, season);
    SeasonRowsCount(col, season);
    if forall k :: 0 <= k < |idx| ==> idx[k] < |trace| then
      Ok(seq(|idx|, k requires 0 <= k < |idx| => trace[idx[k]]))
    else Err(TraceIndexOutOfRange)
  }

  /** Reads the draws of the season's rows one by one, stopping at the first row past the trace. */
  method CollectSeasonDraws(trace: seq<seq<real>>, col: seq<int>, season: int) returns (r: Result<seq<seq<real>>>)
    ensures r == SeasonDraws(trace, col, season)
  {
    var idx := SeasonRows(col, season);
    var perEpisode: seq<seq<real>> := [];
    var k := 0;
    while k < |idx|
      invariant 0 <= k <= |idx|
      invariant forall j :: 0 <= j < k ==> idx[j] < |trace|
      invariant |perEpisode| == k
      invariant forall j :: 0 <= j < k ==> perEpisode[j] == trace[idx[j]]
    {
      if idx[k] >= |trace| {
        assert col[idx[k]] == season;
        return Err(TraceIndexOutOfRange);
      }
      perEpisode := perEpisode + [trace[idx[k]]];
      k := k + 1;
    }
    assert SeasonDraws(trace, col, season).Ok?;
    assert SeasonDraws(trace, col, season).value == perEpisode;
    return Ok(perEpisode);
  }

  /**
   * Entry k of the all-episodes answer is the draws of the season's row that
   * has exactly k rows of that season before it: the answer is in table order.
   */
  lemma SeasonDrawsInTableOrder(trace: seq<seq<real>>, col: seq<int>, season: int, k: nat)
    requires SeasonDraws(trace, col, season).Ok?
    requires k < |SeasonDraws(trace, col, season).value|
    ensures exists i ::
      && 0 <= i < |col| && i < |trace| && col[i] == season
      && multiset(col[..i])[season] == k
      && SeasonDraws(trace, col, season).value[k] == trace[i]
  {
    SeasonRowsPosition(col, season, k);
    var i := SeasonRows(col, season)[k];
    assert SeasonDraws(trace, col, season).value[k] == trace[i];
  }

  /** A season no row belongs to has no draws, and that is not a failure. */
  lemma SeasonDrawsUnknownSeason(trace: seq<seq<real>>, col: seq<int>, season: int)
    requires season !in col
    ensures SeasonDraws(trace, col, season) == Ok([])
  {
    assert multiset(col)[season] == 0;
    SeasonRowsCount(col, season);
  }

  /**
   * The all-episodes answer holds, at each position, what the single-episode
   * query for that position answers.
   */
  lemma SingleAgreesWithAll(trace: seq<seq<real>>, col: seq<int>, season: int, k: nat)
    requires SeasonDraws(trace, col, season).Ok?
    requires k < |SeasonDraws(trace, col, season).value|
    ensures EpisodeDraws(trace, col, season, k) == Ok(SeasonDraws(trace, col, season).value[k])
  {
  }

  /**
   * A trace drawn before a row was appended has no draws for that row: the
   * new row is the last episode of its season, and asking for it by its
   * position, from the front or from the back, runs past the trace.
   */
  lemma NewRowOutsideStaleTrace(trace: seq<seq<real>>, col: seq<int>, season: int)
    requires |trace| == |col|
    ensures EpisodeDraws(trace, col + [season], season, multiset(col)[season]) == Err(TraceIndexOutOfRange)
    ensures EpisodeDraws(trace, col + [season], season, -1) == Err(TraceIndexOutOfRange)
  {
    var col' := col + [season];
    SeasonRowsAppend(col, season, season);
    SeasonRowsCount(col, season);
    SeasonRowsCount(col', season);
    assert SeasonRows(col', season)[multiset(col)[season]] == |col|;
    NegativePositionFromEnd(col', season, -1);
  }

  /**
   * A trace drawn after a row was appended covers it: asking for the new row
   * by its position, from the front or with -1, gives the row's own draws.
   */
  lemma NewRowInsideFreshTrace(trace: seq<seq<real>>, col: seq<int>, season: int)
    requires |trace| == |col| + 1
    ensures EpisodeDraws(trace, col + [season], season, multiset(col)[season]) == Ok(trace[|col|])
    ensures EpisodeDraws(trace, col + [season], season, -1) == Ok(trace[|col|])
  {
    var col' := col + [season];
    SeasonRowsAppend(col, season, season);
    SeasonRowsCount(col, season);
    SeasonRowsCount(col', season);
    assert SeasonRows(col', season)[multiset(col)[season]] == |col|;
    NegativePositionFromEnd(col', season, -1);
  }
}
