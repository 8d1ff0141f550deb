/** Rows of the episode table and the cleaning the model applies when it is constructed. */
module Episodes {

  datatype Option<T> = None | Some(value: T) {
    function GetOr(default: T): T {
      match this
      case Some(v) => v
      case None => default
    }
  }

  /** A value in a caller-supplied extra column. */
  datatype Cell = IntCell(i: int) | RealCell(r: real) | TextCell(s: string)

  /**
   * One row of the episode table. `rating` is `None` where the table holds a
   * missing value (NaN); `extras` holds the other columns of the row, and a
   * column absent from the map is missing in that row.
   */
  datatype Episode = Episode(
    season: int,
    episodeNumber: int,
    rating: Option<real>,
    voteCount: int,
    extras: map<string, Cell>)

  /** The value a missing rating is filled with. */
  const RatingFill: real := 1.0

  /** The floor applied to vote counts. */
  const MinVoteCount: int := 1

  /** A row the constructor's cleaning has nothing left to change in. */
  predicate IsClean(e: Episode) {
    e.rating.Some? && e.voteCount >= MinVoteCount
  }

  /** Cleaning of one row: fill a missing rating, clip the vote count from below. */
  function CleanRow(e: Episode): (c: Episode)
    ensures IsClean(c)
    ensures e.rating.Some? ==> c.rating == e.rating
    ensures e.rating.None? ==> c.rating == Some(RatingFill)
    ensures e.voteCount >= MinVoteCount ==> c.voteCount == e.voteCount
    ensures e.voteCount < MinVoteCount ==> c.voteCount == MinVoteCount
    ensures c.season == e.season && c.episodeNumber == e.episodeNumber && c.extras == e.extras
  {
    e.(rating := Some(e.rating.GetOr(RatingFill)),
       voteCount := if e.voteCount < MinVoteCount then MinVoteCount else e.voteCount)
  }

  /** Cleaning of the whole table, row by row, keeping the row order. */
  function CleanTable(rows: seq<Episode>): (t: seq<Episode>)
    ensures |t| == |rows|
    ensures forall i :: 0 <= i < |rows| ==> t[i] == CleanRow(rows[i])
  {
    seq(|rows|, i requires 0 <= i < |rows| => CleanRow(rows[i]))
  }

  /** Cleaning changes nothing in a row that is already clean. */
  lemma CleanRowFixesClean(e: Episode)
    requires IsClean(e)
    ensures CleanRow(e) == e
  {
  }

  /** Cleaning a table twice is the same as cleaning it once. */
  lemma CleanTableIdempotent(rows: seq<Episode>)
    ensures CleanTable(CleanTable(rows)) == CleanTable(rows)
  {
    var t := CleanTable(rows);
    forall i | 0 <= i < |t| ensures CleanTable(t)[i] == t[i] {
      CleanRowFixesClean(t[i]);
    }
  }

  /** The season column of the table. */
  function SeasonColumn(rows: seq<Episode>): (col: seq<int>)
    ensures |col| == |rows|
    ensures forall i :: 0 <= i < |rows| ==> col[i] == rows[i].season
  {
    seq(|rows|, i requires 0 <= i < |rows| => rows[i].season)
  }

  /** Appending a row appends its season to the season column. */
  lemma SeasonColumnAppend(rows: seq<Episode>, e: Episode)
    ensures SeasonColumn(rows + [e]) == SeasonColumn(rows) + [e.season]
  {
  }

  /** Cleaning does not touch the season column. */
  lemma CleanKeepsSeasons(rows: seq<Episode>)
    ensures SeasonColumn(CleanTable(rows)) == SeasonColumn(rows)
  {
  }
}
