# Movie recommender API — verified model of the recommendation pipeline

This project models the core of a small movie recommendation service. At
startup the service loads a pre-trained latent-factor model and a combined
ratings table. From the table it derives a movie catalog (one entry per
movie id) and an interaction table ((user, movie) pairs). Its one query,
`GET /recommend/{user_id}?top_n=N`, does the following:

1. It fails with 503 when the model or the catalog is not loaded.
2. It fails with 404 when the user has no interaction record.
3. Otherwise it scores every catalog movie the user has not rated.
4. It sorts those movies by estimated rating, descending, keeping ties in catalog order.
5. It returns the first `N`, each with the movie's title and poster URL.

The model is an opaque scoring function `Scorer = (int, int) -> real`. It
is passed in when the service is loaded, so every property holds for every
model.

Files:

- `loading.dfy` (module `Loading`): table rows, the catalog built by
  "deduplicate by movie id, keep the first row", catalog lookup, and the
  interaction table.
- `ranking.dfy` (module `Ranking`): the stable descending sort by estimate
  (Python's `list.sort(key=..., reverse=True)`) and Python's slice `s[:n]`,
  including negative `n`.
- `recommender.dfy` (module `Recommender`): the service state, startup
  loading with its failure modes, the request pipeline `Recommend`, and the
  end-to-end properties of a response.

Behaviour of the code that is easy to overlook, and that the model keeps:

- The sort is stable, so movies with equal estimates keep catalog order
  (`Ranking.SortDescStable`, `Recommender.TiedRecommendationsKeepCatalogOrder`).
- The candidate list keeps catalog order (`Recommender.Candidates`).
- The response length counts unseen catalog movies, not rating rows. A user
  with several rows for one movie has only one movie fewer to be offered
  (`Recommender.RecommendationCount`).
- A missing artifact at startup does not stop the process. The loader's
  error is caught, and every request is then answered with 503
  (`Recommender.Load`, `Recommender.FailedLoadIsUnavailable`).

## Model

| member | source | states |
|---|---|---|
| `Loading.BuildCatalog` | app_fastapi.py:61-64 | The catalog holds at most one entry per movie id. Its ids are exactly the movie ids that occur in the ratings table. |
| `Loading.CatalogKeepsFirstRows` | app_fastapi.py:61 | Each catalog entry carries the title and poster URL of the first table row for that movie id. |
| `Loading.CatalogInFirstRowOrder` | app_fastapi.py:61-64 | The catalog, and so `all_movie_ids`, lists movies in the order of their first rows in the table. |
| `Loading.Find` | app_fastapi.py:125 | Looking up a movie id in the catalog returns the catalog entry with that id. |
| `Loading.InteractionsRecordEveryRating` | app_fastapi.py:67 | For every user u and movie m, the interaction table holds (u, m) iff some table row says u rated m. A user is known iff some row names that user. |
| `Recommender.Load` | app_fastapi.py:43-73 | The service holds exactly the model that was deserialised (none when its file is missing). It is ready iff both the model and the table were found. A missing model stops loading before the table is read, so nothing is loaded. A loaded catalog has distinct ids, and they are exactly the table's movie ids. Each entry carries its movie's first row, and the entries are in first-row order. The loaded interaction table holds (u, m) iff some row says user u rated movie m, so a user is known iff some row names them. |
| `Recommender.FailedLoadIsUnavailable` | app_fastapi.py:81-98 | After a failed startup load the process keeps running, and every request fails with status 503, whatever the user and `top_n`. |
| `Recommender.Recommend` | app_fastapi.py:97-108 | A request fails as unavailable (status 503) iff the model or the catalog is missing. On a loaded service it fails with "user not found" for that user (status 404) iff the user has no interaction record; a known user always gets a list. |
| `Recommender.SeenBy` | app_fastapi.py:101 | The seen list holds exactly the movies with an interaction record for the user. It is empty iff the user has no record. |
| `Recommender.Candidates` | app_fastapi.py:111 | An id is a candidate iff it is a catalog id and not in the seen list. The candidates are a subsequence of the catalog ids, so they keep catalog order. |
| `Recommender.CandidatesKeepUnseenOccurrences` | app_fastapi.py:111 | Each unseen id occurs among the candidates as often as among the catalog ids. A seen id does not occur at all. |
| `Ranking.SortDesc` | app_fastapi.py:120 | Sorting rearranges the predictions (same multiset) into non-increasing order of estimate. |
| `Ranking.SortDescStable` | app_fastapi.py:120 | The sort is stable: for every estimate value, the predictions tied at it appear in their original order. |
| `Ranking.SortDescIsTheStableOrder` | app_fastapi.py:120 | Any arrangement that is descending and keeps every tie group in its original order equals `SortDesc`, so `SortDesc` is exactly Python's stable sort with `reverse=True`. |
| `Ranking.SortDescKeepsTieOrder` | app_fastapi.py:120 | Two predictions with equal estimates stand in the sorted list in the order they had before sorting. |
| `Ranking.SortDescKeepsUniqueMovies` | app_fastapi.py:120 | Sorting never introduces a repeated movie id. |
| `Recommender.RankedMovies` | app_fastapi.py:115-120 | The ranked predictions are exactly the candidates, each paired with the model's estimate for the user. |
| `Ranking.Slice` | app_fastapi.py:124 | `predictions[:top_n]` is a prefix of the ranking. |
| `Ranking.SliceLength` | app_fastapi.py:124 | The prefix has `min(n, len)` items for `n >= 0`, and for negative `n` all but the last `-n` items, or none. |
| `Recommender.Join` | app_fastapi.py:125-131 | Each response record keeps the ranked movie's id and estimate, and its title and poster URL form that movie's catalog entry; the order and length of the ranking are kept. |
| `Recommender.RecommendationsAreUnratedCatalogMovies` | app_fastapi.py:111-131 | Every returned movie is in the catalog and has no interaction record for the user. It carries that movie's catalog title and poster URL, and the model's estimate for (user, movie). |
| `Recommender.RecommendationsDescend` | app_fastapi.py:120-124 | Estimated ratings never increase along the response. |
| `Recommender.RecommendationCount` | app_fastapi.py:124 | For `top_n >= 0` the response has `min(top_n, number of unseen catalog movies)` entries, so `top_n = 0` gives an empty list. For negative `top_n` it has all but the last `-top_n` ranked movies, or none. |
| `Recommender.RecommendationsAreTopRated` | app_fastapi.py:113-124 | No unseen movie left out of the response has a higher model estimate (before rounding) than any returned movie. An unseen movie left out with an equal estimate comes after the returned one in catalog order. |
| `Recommender.DefaultRequestLength` | app_fastapi.py:95-124 | A request without `top_n` asks for 10: it returns at most 10 movies, and fewer only when fewer are unseen. |
| `Recommender.TiedRecommendationsKeepCatalogOrder` | app_fastapi.py:111-124 | Returned movies with equal model estimates (before rounding) appear in catalog order. |
| `Recommender.CandidatesKeepDistinct` | app_fastapi.py:111 | Removing the seen movies from a duplicate-free id list leaves it duplicate-free. |
| `Recommender.LoadedRecommendationsAreDistinct` | app_fastapi.py:61-124 | After a successful load, no movie id appears twice in a response. |
| `Recommender.OneUnratedMovieExample` | app_fastapi.py:94-133 | A worked request. Catalog {1: A, 2: B}, user 7 has rated only movie 1, and the model estimates 4.5 for (7, 2). Then `top_n = 5` returns exactly [(2, "B", "urlB", 4.5)]. |

## Left out

- HTTP framework glue is not modelled: routing, the CORS middleware, the
  response schema class, `HTTPException`, and the `__main__` block. Failures
  are the `Failure` datatype, and `StatusCode` maps them to 503 and 404.
- The health-check endpoint `read_root` is not modelled. It returns a constant.
- Reading the model (pickle) and the table (CSV) is not modelled. They are
  the `Option` arguments of `Load`, where `None` stands for a missing file.
- Log prints are not modelled. They are side effects only.
- The scoring model's internals are not modelled. `model.predict(...).est` is
  the opaque total function `Scorer`. Its concurrency safety is not modelled.
- Recommender.Recommend: estimates are exact `real`s, not floats. The response
  carries the estimate without `round(..., 3)`, and NaN estimates are not
  modelled.
- Recommender.Load: the model is loaded once. Concurrent re-invocation of the
  loader is not modelled.
- The global `user_ratings_df` is not bound until the table loads. That never
  shows: the 503 guard fires first whenever the table is missing.
- Movie and user ids are unbounded integers. Pandas' 64-bit integer column
  type is not modelled.
- Running time (list membership on the seen list, one model call per
  candidate) is not modelled.
- Recommender.RecommendationsAreTopRated: compares the model's exact
  estimates. The response shows them rounded to three decimals, so two
  returned movies can show equal ratings while their estimates differ.
- Recommender.TiedRecommendationsKeepCatalogOrder: ties are ties of the exact
  estimate, not of the rounded rating the client sees. Example: estimates
  4.1231 for movie 10 and 4.1234 for movie 20 both show as 4.123, and 20 comes
  first.
