# Season hierarchical model: table bookkeeping

This project models the discrete part of `SeasonHierarchicalModel`, the object that estimates the latent
quality of television episodes with a season-level hierarchical Bayesian model. It does not model the
statistics. It models what the object does to its episode table and indices:

- **Cleaning on construction.** A missing rating is filled with 1. A vote count is clipped from below at 1.
- **Season coding.** The distinct seasons are listed in order of first appearance. Each row gets a 0-based
  code into that list.
- **Episode lookup.** `infer_episode_quality` resolves a season and a position within it to a row, and reads
  that row's draws from the trace. The all-episodes mode reads every row of the season, in table order. The
  failures are modelled too: not fitted, invalid episode index, and the two index errors Python would raise.
- **Registration.** `add_episode` appends one row with defaults, then recomputes the seasons and codes.
- **Build and fit, as bookkeeping only.** The graph records the shape the sampler sees. The sampler's draws
  are a parameter.

Files:

- `episodes.dfy`: module `Episodes`. The episode row record, `Option`, and row and table cleaning.
- `season_coding.dfy`: module `SeasonCoding`. Distinct seasons (`Unique`) and codes (`SeasonCodes`).
  Includes the proof that appending a row never renumbers existing rows.
- `season_lookup.dfy`: module `SeasonLookup`. A season's row positions, episode resolution, and the draws
  returned by single-episode and all-episodes queries. `CollectSeasonDraws` is the all-episodes loop.
- `season_model.dfy`: module `SeasonModel`. The graph record (`GraphOf`, `GraphShape`) and the extra
  columns a registered row keeps (`ExtraColumns`, and the copy loop `CollectExtras`). Then the class
  `SeasonHierarchicalModel` and its fields: `rows`, `seasons`, `seasonIdx`, `model`, `trace` and the column
  names. It has the constructor, `BuildModel`, `Fit`, `Refit`, `InferEpisodeQuality`, `AddEpisode` and
  `UpdateSeasonIndices`.

Modelling choices:

- Ratings are `real`. A missing value (NaN) is `None`. Vote counts are `int`.
- Columns other than season, episode number, rating and vote count go in a per-row map. A column absent from
  a row's map is missing (NaN) in that row. So when a registered row brings a new column, the earlier rows
  stay unchanged.
- Rows are addressed by position. The code uses the table's index labels as positions into the trace. The
  callers build the table fresh, so its labels are 0..n-1, and registration renumbers them with
  `ignore_index=True` (`src/season_hierarchical_model.py:157`).
- A trace is one sequence of draws per latent quality, with chains already flattened.
- A position below zero is indexed the way Python indexes a list. The guard only rejects
  `episode_idx >= count`, so `-1` names the last episode of the season. Below minus the count, Python raises
  an `IndexError`. The model returns `PositionOutOfRange` for that.
- A row position past the trace's latent dimension makes numpy raise an `IndexError`. The model returns
  `TraceIndexOutOfRange` for that. This happens when an episode is registered after a fit and the object is
  fitted again without a new `build_model`. `fit` builds a graph only when it holds none, so it samples the
  old graph again. `NewRowOutsideStaleTrace` proves that the new row then has no draws. `Fit`'s contract
  says the graph it already holds is kept. This is listed under "Findings".
- Missing ratings in the input table are filled with 1 on construction and passed to the likelihood. They
  are not marked unobserved. A registered row's missing rating is not filled. It reaches the graph as
  `None` (NaN in the source).
- Building a graph checks neither for an empty table nor for vote counts below 1.
- The comment at `src/season_hierarchical_model.py:21` says zero ratings are replaced too. The code only
  fills missing ones, so a rating of 0 is kept (`Episodes.CleanRow`).

## Model

| member | source | states |
|---|---|---|
| `Episodes.CleanRow` | src/season_hierarchical_model.py:21-24 | the cleaned row always has a rating and a vote count of at least 1. A present rating (0 included) is kept. A missing rating becomes 1. A count of at least 1 is kept and a lower count becomes 1. Season, number and extra columns are unchanged |
| `Episodes.CleanTable` | src/season_hierarchical_model.py:21-24 | cleaning keeps the number and order of rows and cleans each row |
| `Episodes.CleanRowFixesClean` | src/season_hierarchical_model.py:21-24 | cleaning changes nothing in a row that already has a rating and a count of at least 1 |
| `Episodes.CleanTableIdempotent` | src/season_hierarchical_model.py:21-24 | cleaning a table twice gives the same table as cleaning it once |
| `Episodes.CleanKeepsSeasons` | src/season_hierarchical_model.py:21-30 | cleaning leaves the season column untouched, so the codes are computed over the input's seasons |
| `SeasonCoding.FirstIndex` | src/season_hierarchical_model.py:29 | gives the first position holding the value, with no earlier occurrence |
| `SeasonCoding.Unique` | src/season_hierarchical_model.py:29 | the season list holds exactly the values of the column, with no duplicates, and is no longer than the column |
| `SeasonCoding.UniqueFirstAppearanceOrder` | src/season_hierarchical_model.py:29 | the season list is in order of first appearance in the column |
| `SeasonCoding.CodeOf` | src/season_hierarchical_model.py:30 | a category's code is its position in the category list, and a value outside the categories gets -1 |
| `SeasonCoding.Categorize` | src/season_hierarchical_model.py:30 | one code per value. Each code is in `[-1, number of categories)`. It is -1 exactly when the value is not a category, and otherwise it names the value's category |
| `SeasonCoding.SeasonCodes` | src/season_hierarchical_model.py:29-30 | there is one code per row, each in `[0, number of seasons)`, and the season it names is the row's season |
| `SeasonCoding.SeasonCodesInjective` | src/season_hierarchical_model.py:30 | two rows get the same code exactly when they have the same season |
| `SeasonCoding.SeasonCodesOnto` | src/season_hierarchical_model.py:29-30 | every code is used by some row |
| `SeasonCoding.UniqueAppend` | src/season_hierarchical_model.py:157-159 | after a row is appended, the season list is the old list, with the row's season added at the end if it is new |
| `SeasonCoding.SeasonCodesStableUnderAppend` | src/season_hierarchical_model.py:157-160 | after appending a row, every earlier row keeps its code. A new season goes at the end of the list and gets code = old number of seasons. A known season gets the code it already had |
| `SeasonCoding.RecodeAppend` | src/season_hierarchical_model.py:157-160 | the same facts, stated for the stored season list and codes before and after the append |
| `SeasonLookup.SeasonRows` | src/season_hierarchical_model.py:108-111 | the positions are exactly those of the rows of the season, strictly increasing (table order) |
| `SeasonLookup.SeasonRowsCount` | src/season_hierarchical_model.py:111-112 | a season has as many positions as the column has rows of that season |
| `SeasonLookup.SeasonRowsPosition` | src/season_hierarchical_model.py:111-115 | the k-th position of a season has exactly k rows of that season before it |
| `SeasonLookup.ResolveEpisode` | src/season_hierarchical_model.py:108-115 | a position at or above the season's count gives the invalid-index error (both directions). Below minus the count gives the index error. Otherwise the result is a row of the requested season. From the front, exactly `episode_idx` rows of the season come before it. From the back, the count plus `episode_idx` rows come before it |
| `SeasonLookup.NegativePositionFromEnd` | src/season_hierarchical_model.py:112-115 | a negative position names the same row as the count plus that position |
| `SeasonLookup.EpisodeDraws` | src/season_hierarchical_model.py:108-116 | returned draws are the trace entry of the row `ResolveEpisode` picks, a row of the requested season. A position that does not resolve gives `ResolveEpisode`'s error (invalid index before the trace is touched). A resolved row succeeds exactly when it lies inside the trace, and otherwise gives the trace index error. A query never reports not-fitted once a trace is given. When the trace covers the table, the query succeeds exactly for positions in range |
| `SeasonLookup.SeasonDraws` | src/season_hierarchical_model.py:125-127 | there is one draw sequence per row of the season. The query succeeds exactly when every row of the season lies inside the trace, so a season whose rows all predate a stale trace still answers. The only failure is the trace index error. When the trace covers the table, the query succeeds |
| `SeasonLookup.CollectSeasonDraws` | src/season_hierarchical_model.py:125-127 | the loop over the season's rows gives exactly `SeasonDraws`: the draws of every row in table order, or the trace index error at the first row past the trace |
| `SeasonLookup.SeasonDrawsInTableOrder` | src/season_hierarchical_model.py:125-127 | entry k of the all-episodes answer is the trace entry of the season's row that has exactly k rows of the season before it, so the answer is in table order |
| `SeasonLookup.SeasonDrawsUnknownSeason` | src/season_hierarchical_model.py:125-127 | a season with no rows gives an empty answer, not a failure |
| `SeasonLookup.SingleAgreesWithAll` | src/season_hierarchical_model.py:108-127 | the all-episodes answer at position k is the single-episode answer for position k |
| `SeasonLookup.NewRowOutsideStaleTrace` | src/season_hierarchical_model.py:74-77 | with a trace drawn before a row was appended, asking for the new row by position (from the front or with -1) fails with the trace index error |
| `SeasonLookup.NewRowInsideFreshTrace` | src/season_hierarchical_model.py:108-116 | with a trace that covers the appended row, asking for the new row by position (from the front or with -1) gives that row's own draws |
| `SeasonModel.GraphShape` | src/season_hierarchical_model.py:47-55 | a graph built from a coded table has one season parameter pair per distinct season and one latent quality per row. Each latent quality is tied to its row's season |
| `SeasonModel.ExtraColumns` | src/season_hierarchical_model.py:154-156 | a registered row keeps exactly the supplied columns that are not reserved, with their values |
| `SeasonModel.CollectExtras` | src/season_hierarchical_model.py:149-156 | the key-by-key copy loop keeps exactly the non-reserved supplied columns. So a supplied season, episode number, rating or vote-count column does not override the row's own |
| `SeasonModel.SeasonHierarchicalModel.constructor` | src/season_hierarchical_model.py:17-32 | the table is the cleaned input, and every row is clean. Seasons and codes are those of the table. No graph or trace exists yet |
| `SeasonModel.SeasonHierarchicalModel.BuildModel` | src/season_hierarchical_model.py:47-57 | the stored graph is built from the current table, seasons and codes, and nothing else changes |
| `SeasonModel.SeasonHierarchicalModel.Fit` | src/season_hierarchical_model.py:74-78 | a graph already held is kept, and a graph is built only when none exists. The trace has one draw sequence per latent quality of that graph |
| `SeasonModel.SeasonHierarchicalModel.Refit` | src/season_hierarchical_model.py:47-78 | a graph built afresh from the current table and then sampled gives a trace with one draw sequence per row of the table, registered rows included |
| `SeasonModel.SeasonHierarchicalModel.InferEpisodeQuality` | src/season_hierarchical_model.py:104-136 | with no trace, the result is not-fitted. With a position, the result is the single-episode draws or their failure. Without a position, it is the draws of every row of the season, in table order, or the failure. The object is never changed |
| `SeasonModel.SeasonHierarchicalModel.AddEpisode` | src/season_hierarchical_model.py:149-160 | the table grows by exactly one row at the end. That row has the given season and number, the rating if supplied (else missing), the vote count if supplied (else 1, and 0 stays 0) and the non-reserved extra columns. Earlier rows and their codes are unchanged. A new season is appended with code = old number of seasons. Graph and trace are untouched |
| `SeasonModel.SeasonHierarchicalModel.UpdateSeasonIndices` | src/season_hierarchical_model.py:159-160 | the season list and the codes are recomputed from the current table |

## Left out

- `build_model`'s distributions are not modelled (`src/season_hierarchical_model.py:40-55`). That covers the
  uniform and half-Cauchy hyperpriors, the truncated normals and the observation noise `1/sqrt(vote_count)`.
  The graph records only the shape: bounds, season count, season code per latent quality, observed ratings
  and vote counts. These are floating-point distributions built by a library.
- The sampling in `fit` is not modelled: NUTS, draws, tune, chains, target acceptance and seed. The draws
  are the parameter `draws(graph, i)`. Sampling is a foreign library's numerical work. Draw counts being
  the same across latent qualities is not enforced.
- A table passed in with index labels other than 0..n-1 is not modelled. The code would then index the
  trace's latent dimension by those labels (`src/season_hierarchical_model.py:111,116`), so labels such as
  10 and 11 on a two-row table would raise an `IndexError`. The model always uses row positions.
- `summary` (`src/season_hierarchical_model.py:80-90`) is not modelled. It is an ArviZ diagnostics call.
- SeasonModel.SeasonHierarchicalModel.InferEpisodeQuality: returns the draws only, not the mean, median and
  3rd/97th percentiles. Those are numpy floating-point statistics with interpolation.
- Flattening the draws across chains is not modelled. A trace entry is already the flattened draws of one
  latent quality.
- Printed messages ("Model has not been fit yet.", "Invalid episode index for this season.") are not
  modelled. Only the returned `None`, which the model gives as an error value, is.
- Non-integer or missing season values are not modelled, and neither are non-integer vote counts or dtype
  changes from concatenation. Seasons and vote counts are integers here.
- Column names only decide which supplied extra columns a registered row drops. Rows are typed records, so
  column names that collide with each other are not modelled. The rating and vote count a caller supplies
  under their column names are the typed parameters `rating` and `voteCount` of `AddEpisode`.
- SeasonModel.SeasonHierarchicalModel.AddEpisode: `voteCount == None` means "not supplied" and stores 1. A
  caller who passes the vote-count column explicitly as `None` or NaN is not modelled. The source's
  `kwargs.get` (`src/season_hierarchical_model.py:152`) would store that missing count unchanged.
- The HTTP layer (`src/api.py`), the fetch script (`data_collection/fetch_tmdb_episodes.py`), the
  orchestration script (`src/main.py`) and the configuration loading (`utils/config.py`) are not modelled.
  They are network, I/O and presentation code. `src/api.py`'s episode-number-to-position glue belongs to
  that layer.

## Findings

| source | as written | input that shows it | evidently intended | confidence | as-written member | corrected member |
|---|---|---|---|---|---|---|
| src/season_hierarchical_model.py:74-75 | `fit` builds a graph only when it holds none, and `add_episode` keeps the graph, so a fit after a registration samples the graph of the old table | construct, `fit`, `add_episode(1, 5)`, `fit`, `infer_episode_quality(1, -1)`: the new row's position is past the trace, so numpy raises an `IndexError` | the docstring at line 147 says the new episode is included in the next fit, so the next fit samples a graph of the current table | not executed; high | `SeasonLookup.NewRowOutsideStaleTrace` | `SeasonLookup.NewRowInsideFreshTrace` |

The as-written half is `SeasonModel.SeasonHierarchicalModel.Fit`, whose contract keeps a held graph, with
`SeasonLookup.NewRowOutsideStaleTrace`. The corrected half is `SeasonModel.SeasonHierarchicalModel.Refit`,
which rebuilds the graph before sampling so the trace covers every row, with
`SeasonLookup.NewRowInsideFreshTrace`.
