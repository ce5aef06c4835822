# Anime dataset builder: dedup filter and fetch loop

The dataset builder (`data/Create_Dataset.py`) grows a local store of anime
records in three steps:

1. It reads a seasonal listing of `(IDx, Title)` entries.
2. It drops every entry whose id the store's `Anime_ID` column already holds.
3. It asks the catalog API for the details of each remaining entry, one
   request at a time.

Each request ends one of three ways:

- A successful reply becomes a fourteen-column row. Its genre column is the
  genre names joined with `", "`.
- Any other handled outcome puts the listing entry on a failed list.
- A `429 Too Many Requests` reply ends the whole loop at once.

A batch counter paces the successes. It runs from 0 to 10. Each success takes
a short pause, except the success that finds the counter at 10: that one
takes a long pause and resets the counter to 0. A failure neither advances
nor resets `count` (lines 103-110). So the long pause falls on every 11th
success overall, even when failures come between successes.

This project models that core in Dafny:

- `Records` defines the listing entry, the detail fields and the row, and how
  a row is built.
- `Genres` defines the `", "` join and the split that reads it back.
- `Dedup` models the filter against the stored ids, and the two list columns
  the loop iterates over.
- `Responses` models how the loop body sorts a reply. It looks at the status
  first (429, then 200, then anything else), then at the decoded body.
- `FetchLoop` models the loop. It is written as a fold over the attempts, with
  reference definitions of the success and failed lists, the pause schedule,
  and a method that runs the loop with its `break`.
- `Pipeline` chains the dedup filter and the loop. It also holds the
  corrected filter of the finding below.
- `Seqs` holds one generic sequence lemma.

The network is a parameter. Each surviving listing entry comes paired with
the reply its request got. A request that throws is the reply `Threw`. A 200
body that cannot be decoded, or lacks a field the row needs, is `Unreadable`.

## Model

| member | source | states |
|---|---|---|
| Genres.Join | data/Create_Dataset.py:87 | the genre column is empty for no genres; otherwise its length is the names' total length plus two per separator |
| Genres.Split | data/Create_Dataset.py:87 | splitting a genre column at `", "` yields at least one piece, and joining the pieces gives the column back |
| Genres.SplitJoin | data/Create_Dataset.py:87 | when no genre name contains `", "`, splitting the joined column returns exactly the names in order (`[""]` for no names) |
| Records.RowFromListing | data/Create_Dataset.py:87-94 | a success row is keyed by the listing id, not the response's; the title comes from the response; the synopsis is `str` of the response's; the other ten detail fields are copied; the genre column reads back as the genre names in order |
| Dedup.DropExisting | data/Create_Dataset.py:27-31 | no survivor of the filter has a stored id, and the filter never lengthens the listing |
| Dedup.KeptPositions | data/Create_Dataset.py:28-31 | the mask keeps, in ascending order, exactly the positions whose id is not stored |
| Dedup.DropExistingSelects | data/Create_Dataset.py:27-31 | the survivors are the listing entries at the kept positions, in listing order |
| Dedup.SurvivorsAreUnstored | data/Create_Dataset.py:27-31 | an entry survives exactly when it is listed and its id is not stored, so every unstored entry survives (repeated ids included) |
| Dedup.EmptyStoreKeepsAll | data/Create_Dataset.py:27-31 | when the store holds no ids, the whole listing survives |
| Dedup.DropExistingIdempotent | data/Create_Dataset.py:27-31 | filtering the survivors again against the same store removes nothing |
| Dedup.DropKnown | data/Create_Dataset.py:27-31 | the corrected filter: survivors have pairwise different ids, none of them stored, each is a listing entry, every unstored id of the listing is still among them, and no id outside the listing appears |
| Dedup.FirstPositions | data/Create_Dataset.py:27-31 | the corrected filter keeps, in ascending order, exactly the positions whose id is neither stored nor carried by an earlier entry |
| Dedup.DropKnownSelects | data/Create_Dataset.py:27-31 | the corrected filter's survivors are the listing entries at those first positions, in listing order |
| Dedup.ListColumns | data/Create_Dataset.py:27-35 | `id_list` and `title_list` have equal length and, zipped, are the survivors position by position |
| Responses.Classify | data/Create_Dataset.py:55-128 | 429 means rate limited; any status other than 200 and 429 is a failure that keeps its status; a 200 is a failure when the body has an `error` key, a record when it has the fields, and an exception when it cannot be read; a request that throws is an exception |
| FetchLoop.PausePlan | data/Create_Dataset.py:103-112 | the n-th pause is long exactly when n is a multiple of 11 |
| FetchLoop.Step | data/Create_Dataset.py:62-128 | a 429 sets the abort flag and changes nothing else; an error payload, another status or an exception appends the listing entry to failed and leaves success, counter and pauses alone; a record appends its row to success and one pause; the counter stays in 0..10 and the pacing invariant is kept |
| FetchLoop.Examined | data/Create_Dataset.py:62-72 | the attempts the loop works through are the longest prefix without a 429, and the attempt right after them, if any, is a 429 |
| FetchLoop.SplitCount | data/Create_Dataset.py:97-127 | without a 429, every attempt lands in exactly one of the reference success and failed lists |
| FetchLoop.FetchFrom | data/Create_Dataset.py:54-128 | from any running state the loop appends the reference lists of the examined prefix, and ends aborted exactly when it met a 429 |
| FetchLoop.FetchAllSummary | data/Create_Dataset.py:45-128 | the run's success and failed lists are the reference lists of the examined prefix, so both keep listing order; the run is aborted exactly when a 429 came; the counter is the success count modulo 11; the pauses follow the plan |
| FetchLoop.AbortKeepsPrefix | data/Create_Dataset.py:62-72 | whatever follows a 429, the run ends with the lists, counter and pauses it had before that entry |
| FetchLoop.Partition | data/Create_Dataset.py:75-128 | successes plus failures equal the number of entries before the first 429 (all of them when there is none) |
| FetchLoop.CounterBound | data/Create_Dataset.py:51-110 | the batch counter ends within 0..10 and equals the success count modulo 11 |
| FetchLoop.PauseSchedule | data/Create_Dataset.py:103-112 | one pause per success; the k-th (1-based) pause is long exactly when k is a multiple of 11 |
| FetchLoop.ListedIds | data/Create_Dataset.py:90-127 | every reference success row and failed entry carries the id of one of the attempts |
| FetchLoop.DistinctKeys | data/Create_Dataset.py:90-97 | attempts with distinct listing ids give success rows with distinct keys |
| FetchLoop.RunIds | data/Create_Dataset.py:54-127 | the run's rows and failed entries carry ids of the attempts, and its row keys are distinct when the attempts' ids are |
| FetchLoop.TwoRecords | data/Create_Dataset.py:75-97 | two record attempts before the first 429 give two success rows, in their order, built from those attempts |
| FetchLoop.FetchDetails | data/Create_Dataset.py:45-128 | the loop with its `break` ends in the fold's state: reference lists of the examined prefix, abort flag exactly on a 429, counter in 0..10, planned pauses |
| Pipeline.FreshKeys | data/Create_Dataset.py:27-97 | no row and no failed entry of a run has a stored id; with no repeated listing id, the new rows' keys are pairwise distinct |
| Pipeline.RepeatedIdFetchedTwice | data/Create_Dataset.py:27-97 | for any listing and store: two entries with the same unstored id both survive the filter, and when both of their detail requests return records and no 429 comes before the second of them, the run holds two rows keyed by that id |
| Pipeline.UniqueKeys | data/Create_Dataset.py:27-97 | with the corrected filter, no row or failed entry has a stored id, and the new rows' keys are pairwise different for every listing |

## Left out

- HTTP requests and JSON decoding (lines 59 and 81). A reply is an input
  datatype: a status with a payload, or an exception.
- The JSON value types of detail fields. Each field is a scalar: null, a
  boolean, a number kept as the text Python prints for it, or a string. List
  and object values are not modelled.
- pandas, the CSV round trip through `anime.csv`, the sqlite query and the
  `to_sql` append, and the `fetched_animes.csv` fallback (lines 17-24 and
  130-155). These are library and storage plumbing. The store enters the
  model only as the set of ids already held.
- `getSeasonalAnimes`, `cleanTitle`, `cleanSynopsis`, `processSynopsis` and
  `processRatings` (lines 11-12 and 138-144). The modules `fetch_anime` and
  `preprocess` are not part of this model.
- The lower-casing of the genre column into `cGenre` (line 143). It is
  Unicode case folding.
- The sleep durations of 0.5 s and 1 s (lines 107 and 112). Only the
  Short/Long tag of each pause is kept.
- Console output (every `print`).
- Line 27 raises "no such table: Animes" on a fresh `dataset.db`. The table
  only comes into being at the `to_sql` append (line 148), so until then the
  script stops before the filter. The model treats the store only as the set
  of ids it holds, and an empty store as the empty set.

## Findings

| source | as written | input that shows it | evidently intended | confidence | as-written member | corrected member |
|---|---|---|---|---|---|---|
| data/Create_Dataset.py:27-35 | the mask drops only ids the store already holds, so an id the listing repeats survives once per occurrence, is fetched once per occurrence, and each success is appended under the same `Anime_ID` | a listing with two entries of one unstored id whose two detail requests both return records | each anime stored once: entries whose id an earlier entry already carries are dropped too, keeping `Anime_ID` unique | low: the seasonal listing may never repeat an id; not executed | Pipeline.RepeatedIdFetchedTwice | Pipeline.UniqueKeys |

The main model (`Pipeline.Harvest`) keeps the filter as the script writes
it. `Pipeline.HarvestUnique` is the same run over the corrected filter
`Dedup.DropKnown`. That filter keeps, in listing order, the first entry of
each unstored id and drops every later repeat.
