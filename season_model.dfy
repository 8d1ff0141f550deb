/**
 * The season hierarchical model object: it owns the cleaned episode table,
 * the list of distinct seasons with each row's code into it, the model
 * graph built from the table, and the trace of the last fit. Only the
 * bookkeeping is modelled; the graph records the shape the sampler sees, and
 * the sampler's draws are a parameter.
 */
module SeasonModel {
  import opened Episodes
  import opened SeasonCoding
  import opened SeasonLookup

  /** The constructor's defaults: column names and the bounds of the latent quality. */
  const DefaultRatingColumn: string := "vote_average"
  const DefaultSeasonColumn: string := "season_number"
  const DefaultVoteCountColumn: string := "vote_count"
  const DefaultLower: real := -0.5
  const DefaultUpper: real := 10.5

  /** The column under which a registered episode's number is stored. */
  const EpisodeNumberColumn: string := "episode_number"

  /** The vote count of a registered episode whose count is not supplied. */
  const DefaultVoteCount: int := 1

  /**
   * The shape of the hierarchical model built from one snapshot of the table:
   * a mean and a spread per season, a latent quality per row tied to its
   * season by code, and per row the observed rating and the vote count that
   * scales its noise.
   */
  datatype ModelGraph = ModelGraph(
    lower: real,
    upper: real,
    seasonCount: nat,
    seasonOf: seq<int>,
    observed: seq<Option<real>>,
    voteCounts: seq<int>)

  function GraphOf(rows: seq<Episode>, seasons: seq<int>, seasonIdx: seq<int>, lower: real, upper: real)
    : (g: ModelGraph)
  {
    ModelGraph(lower, upper, |seasons|, seasonIdx,
      seq(|rows|, i requires 0 <= i < |rows| => rows[i].rating),
      seq(|rows|, i requires 0 <= i < |rows| => rows[i].voteCount))
  }

  /**
   * Built from a consistently coded table, the graph has one pair of season
   * parameters per distinct season and one latent quality per row, and each
   * latent quality hangs off the season of its row. The coding facts come from
   * `SeasonCodes`; this lemma carries them over to the record the sampler sees.
   */
  lemma GraphShape(rows: seq<Episode>, lower: real, upper: real)
    ensures var col := SeasonColumn(rows);
      var g := GraphOf(rows, Unique(col), SeasonCodes(col), lower, upper);
      && g.seasonCount == |Unique(col)|
      && |g.seasonOf| == |g.observed| == |g.voteCounts| == |rows|
      && (forall i :: 0 <= i < |rows| ==>
            0 <= g.seasonOf[i] < g.seasonCount && Unique(col)[g.seasonOf[i]] == rows[i].season)
      && (forall s :: s in col <==> s in Unique(col))
  {
  }

  /** What an episode query answers: one row's draws, or the draws of every row of a season. */
  datatype Answer = One(samples: seq<real>) | Many(perEpisode: seq<seq<real>>)

  /** The caller-supplied columns a registered row keeps: all but the reserved ones. */
  function ExtraColumns(kwargs: map<string, Cell>, reserved: set<string>): (extras: map<string, Cell>)
    ensures extras.Keys == kwargs.Keys - reserved
    ensures forall k :: k in extras ==> extras[k] == kwargs[k]
  {
    map k | k in kwargs && k !in reserved :: kwargs[k]
  }

  /** Copies every supplied column that is not reserved, one key at a time. */
  method CollectExtras(kwargs: map<string, Cell>, reserved: set<string>) returns (extras: map<string, Cell>)
    ensures extras == ExtraColumns(kwargs, reserved)
  {
    extras := map[];
    var pending := kwargs.Keys;
    while pending != {}
      invariant pending <= kwargs.Keys
      invariant extras == map k | k in kwargs && k !in pending && k !in reserved :: kwargs[k]
      decreases pending
    {
      var k :| k in pending;
      if k !in reserved {
        extras := extras[k := kwargs[k]];
      }
      pending := pending - {k};
    }
  }

  class SeasonHierarchicalModel {
    var rows: seq<Episode>
    var ratingCol: string
    var seasonCol: string
    var nCol: string
    var lower: real
    var upper: real
    var seasons: seq<int>
    var seasonIdx: seq<int>
    var model: Option<ModelGraph>
    var trace: Option<seq<seq<real>>>

    /** The season list and the codes are those of the current table. */
    ghost predicate Valid()
      reads this
    {
      && seasons == Unique(SeasonColumn(rows))
      && seasonIdx == SeasonCodes(SeasonColumn(rows))
    }

    /** The columns a registered row fills itself, so that same-named extra columns are dropped. */
    function Reserved(): set<string>
      reads this`seasonCol, this`ratingCol, this`nCol
    {
      {seasonCol, EpisodeNumberColumn, ratingCol, nCol}
    }

    constructor (df: seq<Episode>, ratingCol: string := DefaultRatingColumn,
                 seasonCol: string := DefaultSeasonColumn, nCol: string := DefaultVoteCountColumn,
                 lower: real := DefaultLower, upper: real := DefaultUpper)
      ensures Valid()
      ensures rows == CleanTable(df)
      ensures forall i :: 0 <= i < |rows| ==> IsClean(rows[i])
      ensures this.ratingCol == ratingCol && this.seasonCol == seasonCol && this.nCol == nCol
      ensures this.lower == lower && this.upper == upper
      ensures model == None && trace == None
    {
      var cleaned := CleanTable(df);
      var categories := Unique(SeasonColumn(cleaned));
      rows := cleaned;
      this.ratingCol := ratingCol;
      this.nCol := nCol;
      this.seasonCol := seasonCol;
      this.lower := lower;
      this.upper := upper;
      seasons := categories;
      seasonIdx := Categorize(SeasonColumn(cleaned), categories);
      model := None;
      trace := None;
    }

    /** Builds the graph from the table as it is now and keeps it. */
    method BuildModel() returns (g: ModelGraph)
      modifies this`model
      ensures g == GraphOf(rows, seasons, seasonIdx, lower, upper)
      ensures model == Some(g)
    {
      g := GraphOf(rows, seasons, seasonIdx, lower, upper);
      model := Some(g);
    }

    /**
     * Samples the graph it holds, building one only when it holds none, and
     * keeps the trace: `draws(g, i)` stands for the sampler's draws of the
     * i-th latent quality of graph g.
     */
    method Fit(draws: (ModelGraph, int) -> seq<real>) returns (t: seq<seq<real>>)
      modifies this`model, this`trace
      ensures old(model).Some? ==> model == old(model)
      ensures old(model).None? ==> model == Some(GraphOf(rows, seasons, seasonIdx, lower, upper))
      ensures model.Some? && trace == Some(t)
      ensures |t| == |model.value.seasonOf|
      ensures forall i :: 0 <= i < |t| ==> t[i] == draws(model.value, i)
    {
      if model.None? {
        var _ := BuildModel();
      }
      var g := model.value;
      t := seq(|g.seasonOf|, i => draws(g, i));
      trace := Some(t);
    }

    /**
     * Builds the graph afresh from the current table and samples it, so that
     * every row, registered ones included, has draws in the trace.
     */
    method Refit(draws: (ModelGraph, int) -> seq<real>) returns (t: seq<seq<real>>)
      requires Valid()
      modifies this`model, this`trace
      ensures model == Some(GraphOf(rows, seasons, seasonIdx, lower, upper))
      ensures trace == Some(t) && |t| == |rows|
      ensures forall i :: 0 <= i < |t| ==> t[i] == draws(model.value, i)
    {
      var _ := BuildModel();
      t := Fit(draws);
    }

    /**
     * The draws of the latent quality of one episode of a season (given its
     * position among the season's rows), or of every episode of the season.
     */
    method InferEpisodeQuality(season: int, episodeIdx: Option<int>) returns (r: Result<Answer>)
      ensures trace.None? ==> r == Err(NotFitted)
      ensures trace.Some? && episodeIdx.Some? ==>
        var d := EpisodeDraws(trace.value, SeasonColumn(rows), season, episodeIdx.value);
        && (d.Ok? ==> r == Ok(One(d.value)))
        && (d.Err? ==> r == Err(d.error))
      ensures trace.Some? && episodeIdx.None? ==>
        var d := SeasonDraws(trace.value, SeasonColumn(rows), season);
        && (d.Ok? ==> r == Ok(Many(d.value)))
        && (d.Err? ==> r == Err(d.error))
    {
      if trace.None? {
        return Err(NotFitted);
      }
      var t := trace.value;
      var col := SeasonColumn(rows);
      if episodeIdx.Some? {
        var e := ResolveEpisode(col, season, episodeIdx.value);
        if e.Err? {
          return Err(e.error);
        }
        if e.value >= |t| {
          return Err(TraceIndexOutOfRange);
        }
        return Ok(One(t[e.value]));
      }
      var all := CollectSeasonDraws(t, col, season);
      if all.Err? {
        return Err(all.error);
      }
      return Ok(Many(all.value));
    }

    /**
     * Appends one episode row: the given season and number, the rating if one
     * is supplied (else missing), the vote count if one is supplied (else 1),
     * and the other supplied columns; then recomputes the seasons and codes.
     * The table is not cleaned again, and the graph and the trace are kept.
     */
    method AddEpisode(season: int, episodeNumber: int, rating: Option<real>, voteCount: Option<int>,
                      kwargs: map<string, Cell>)
      requires Valid()
      modifies this`rows, this`seasons, this`seasonIdx
      ensures Valid()
      ensures rows == old(rows) + [Episode(season, episodeNumber, rating,
                                           voteCount.GetOr(DefaultVoteCount),
                                           ExtraColumns(kwargs, Reserved()))]
      ensures seasonIdx[..|old(rows)|] == old(seasonIdx)
      ensures season in old(seasons) ==>
        seasons == old(seasons) && seasonIdx[|old(rows)|] == CodeOf(old(seasons), season)
      ensures season !in old(seasons) ==>
        seasons == old(seasons) + [season] && seasonIdx[|old(rows)|] == |old(seasons)|
    {
      var extras := CollectExtras(kwargs, Reserved());
      var newRow := Episode(season, episodeNumber, rating, voteCount.GetOr(DefaultVoteCount), extras);
      ghost var reserved := Reserved();
      ghost var oldCol := SeasonColumn(rows);
      SeasonColumnAppend(rows, newRow);
      rows := rows + [newRow];
      assert rows == old(rows) + [newRow];
      assert Reserved() == reserved;
      UpdateSeasonIndices();
      RecodeAppend(oldCol, season, old(seasons), old(seasonIdx), seasons, seasonIdx);
    }

    /** Recomputes the season list and the codes from the current table. */
    method UpdateSeasonIndices()
      modifies this`seasons, this`seasonIdx
      ensures Valid()
    {
      var col := SeasonColumn(rows);
      seasons := Unique(col);
      seasonIdx := Categorize(col, seasons);
    }
  }
}
