# Semi-Truths pair reconstruction and UFD robustness metrics, in Dafny

This project models the logic at the centre of the evaluation scripts of a study of how
AI-generated-image detectors hold up against localized inpainting. Around that logic the scripts
do a lot of I/O. The project proves properties of three parts.

- **Pair reconstruction** (`semitruths_fetch_pairs.py`). The script works through several steps:
  - It scans the edited shards of the Semi-Truths dataset for inpainted `.png` files. Each file
    name starts with the hex id of its original image.
  - It keeps the ids in discovery order and stops once it has `n_pairs * oversample` distinct
    ids.
  - It selects the first `n_pairs` ids and wants the first edited file found for each.
  - It extracts the wanted edited files and the matching original images from the shards.
  - It joins them into manifest rows and writes `manifest_pairs.csv`. It exits with status 1 or
    2 when there is nothing to work with.

  The model (`fetch_pairs.dfy`) is imperative where the script is. Each loop is a method proved
  equal to a recursive specification function: the member and shard loops of the scan, the
  selection loop, both extraction loops, the join loop and the write loop. `Run` composes them and
  is proved equal to the whole-run function `Pipeline`. The lemmas about `Pipeline` state what a
  run promises:
  - which exit status it ends with, and when;
  - how many rows it writes, and in what order;
  - which files the rows name, and that every original appears once;
  - that the written file reads back as the rows;
  - that the de-duplication script leaves that file unchanged.
- **Rank statistics** (`ufd_score_and_metrics.py`, `summarize_ufd_metrics.py`). `auc` computes a
  Mann–Whitney U from a stable ascending sort by score. It sums the 1-based ranks of the label-1
  items and does not average ties. It divides by `max(pos*neg, 1)`. The attack success rate is the
  fraction of attacked scores strictly below the median of the reference scores.
  - Each copy of `auc` is a method whose loop is proved against the rank-sum function `RankAuc`.
  - `RankAuc` is proved equal to an independent pair count (`PairAuc`) with the following
    consequences:
    - its range is [0, 1];
    - its extreme values are proved;
    - it does not change when the scores are rescored monotonically;
    - a tied (real, fake) pair goes to the element that comes first, which both scripts make the real.
  - The median/ASR threshold is proved against the ordering of the scores.
- **Manifest de-duplication** (`semitruths_rebuild_unique_manifest.py`). It keys each row by the
  stem of its original's path, keeps the first row per key, cuts the result to `n` rows and writes
  the four columns. The model is pure and is proved to do the following:
  - it keeps each key's first occurrence, in order;
  - it leaves keys distinct;
  - its output has the stated length;
  - it is idempotent;
  - its output reads back.

The shared pieces are in separate modules:
- Python string and `pathlib` behaviour: `strings.dfy`.
- Python's stable `sorted`: `sorting.dfy`.
- Python's prefix slice, which `head(n)` shares: `slices.dfy`.
- The unquoted manifest CSV format: `manifest.dfy`.
- `Option`: `wrappers.dfy`.

How some things are represented:
- A shard fetch is an `Option<Archive>`, with `None` for a failed download.
- An archive is the sequence of its members, each a name and an is-file flag.
- Extracting a member into the flat output directory adds its key to a set.
- Scores are exact reals.
- `None` stands for NumPy's NaN of an empty median or mean.

## Model

| member | source | states |
|---|---|---|
| Strings.SplitFirstHead | scripts/semitruths_fetch_pairs.py:94 | `split("_", 1)[0]` is a prefix of the name free of `_`, ending at the first `_` or at the end |
| Strings.RSplitHead | scripts/semitruths_fetch_pairs.py:162 | `rsplit(".", 1)[0]` is a prefix that equals the name exactly when there is no `.`, and otherwise ends at the last `.` |
| Strings.Basename | scripts/semitruths_fetch_pairs.py:93 | the text after the last `/` is a `/`-free suffix of the path; `PathName` agrees with it when it is neither empty nor `.`, as for the `.png` names the scan admits |
| Strings.PathName | scripts/semitruths_rebuild_unique_manifest.py:22 | `Path(p).name` holds no `/`, is never `.`, and is the text after the last `/` whenever that text is neither empty nor `.` |
| Strings.PathNameTrailing | scripts/semitruths_rebuild_unique_manifest.py:22 | a trailing `/` or `/.` does not change `Path(p).name` |
| Strings.PathNameEmpty | scripts/semitruths_rebuild_unique_manifest.py:22 | `.` and `/` have the empty name, stem and suffix |
| Strings.PathSuffix | scripts/ufd_score_and_metrics.py:50 | `Path.suffix` is empty or a dot followed by at least one dot-free character |
| Strings.PathStem | scripts/semitruths_rebuild_unique_manifest.py:22 | `Path.stem` followed by `Path.suffix` is `Path.name`, and holds no `/` |
| Strings.PathStemTrailing | scripts/semitruths_rebuild_unique_manifest.py:22 | the stem and suffix of `p`, `p/` and `p/.` are the same |
| Strings.SplitSuffix | scripts/semitruths_rebuild_unique_manifest.py:22 | a final component is its stem followed by its suffix; a non-empty suffix is a dot and at least one dot-free character after a non-empty stem |
| Strings.Lower | scripts/ufd_score_and_metrics.py:50 | `lower()` keeps the length and maps exactly the ASCII capitals to small letters |
| Strings.HexHeadPrefix | scripts/semitruths_fetch_pairs.py:90-95 | in a `.png` name, a hex head before the first `_` is followed by that `_` |
| Strings.HexPrefixUnique | scripts/semitruths_fetch_pairs.py:117-120 | one name cannot start with two different hex ids, each followed by `_` |
| Strings.HexPrefixDistinct | scripts/semitruths_fetch_pairs.py:117-120 | names that start with different hex ids followed by `_` are different names |
| Strings.StemOfJoin | scripts/semitruths_fetch_pairs.py:186 | the stem of `out/<id>.jpg` is `<id>` for a hex id |
| Strings.LexLeTotal | scripts/ufd_score_and_metrics.py:50 | string comparison is total |
| Strings.LexLeTransitive | scripts/ufd_score_and_metrics.py:50 | string comparison is transitive |
| Strings.LexLeAntisymmetric | scripts/ufd_score_and_metrics.py:50 | strings comparing both ways are equal |
| Sorting.SortBy | scripts/ufd_score_and_metrics.py:73 | `sorted` returns a permutation of its input |
| Sorting.SortBySorted | scripts/ufd_score_and_metrics.py:73 | under a total preorder, the result of `sorted` is ordered |
| Slices.PyPrefix | scripts/semitruths_fetch_pairs.py:112 | `s[:n]` is a prefix of length `min(n, len)` for `n >= 0`, and `len + n` floored at 0 for negative `n` |
| RankStatistic.Zip | scripts/ufd_score_and_metrics.py:73 | `zip` pairs elements index by index up to the shorter input |
| RankStatistic.Sum | scripts/ufd_score_and_metrics.py:74 | `pos` is at most the number of labels |
| RankStatistic.SumIsCountPos | scripts/ufd_score_and_metrics.py:74 | `sum(labels)` counts the label-1 elements of the zipped input |
| RankStatistic.RankSumIdentity | scripts/ufd_score_and_metrics.py:75-79 | the rank sum of the positives is the number of (label-0, label-1) pairs in order plus `pos*(pos+1)/2`, shifted by the starting rank |
| RankStatistic.RankSumMinusTriangle | scripts/ufd_score_and_metrics.py:79 | `U = rsum - pos*(pos+1)/2` is the number of (label-0, label-1) pairs with the label-0 element ranked first |
| RankStatistic.SortedNegBeforePos | scripts/ufd_score_and_metrics.py:73 | after the stable sort, those pairs are the input's pairs with the real scored not above the fake, ties going to the earlier element |
| RankStatistic.RankUIsPairCount | scripts/ufd_score_and_metrics.py:72-79 | after the stable sort, `rsum - pos*(pos+1)/2` equals the number of (label-0, label-1) pairs of the input the statistic counts |
| RankStatistic.RankAuc | scripts/ufd_score_and_metrics.py:72-80 | defines `auc` as a value: stable sort by score, 1-based rank sum of the label-1 items, `U` over `max(pos*neg, 1)`; `RankAucIsPairAuc` and `RankAucMeaning` state what it means |
| RankStatistic.RankAucIsPairAuc | scripts/ufd_score_and_metrics.py:72-80 | the rank-sum AUC equals the pair-count AUC |
| RankStatistic.PairCountBound | scripts/ufd_score_and_metrics.py:79-80 | `U <= pos*neg` |
| RankStatistic.PairAucRange | scripts/ufd_score_and_metrics.py:74-80 | the AUC is in [0, 1], and it is 0 when either class is empty |
| RankStatistic.PairAucAbove | scripts/ufd_score_and_metrics.py:72-80 | with both classes present and every positive strictly above every negative, the AUC is 1 |
| RankStatistic.PairAucBelow | scripts/ufd_score_and_metrics.py:72-80 | with every positive strictly below every negative, the AUC is 0 |
| RankStatistic.RankAucMeaning | scripts/ufd_score_and_metrics.py:72-80 | `auc` is the pair count over `max(pos*neg, 1)` and lies in [0, 1] |
| RankStatistic.SortRescore | scripts/ufd_score_and_metrics.py:73 | a strictly increasing rescoring commutes with the stable sort |
| RankStatistic.RankAucRescore | scripts/ufd_score_and_metrics.py:73 | `auc` does not change under a strictly increasing rescoring |
| RankStatistic.RealsFirstPairCount | scripts/ufd_score_and_metrics.py:88-90 | with reals first, U counts the (real, fake) pairs whose fake scores at least as high |
| RankStatistic.RealsFirstAuc | scripts/ufd_score_and_metrics.py:88-90 | the AUC of reals-then-fakes is that count over `max(#fakes*#reals, 1)` |
| RankStatistic.TieRealFirst | scripts/ufd_score_and_metrics.py:88-90 | a tied real/fake pair with the real first scores 1 |
| RankStatistic.TieFakeFirst | scripts/ufd_score_and_metrics.py:73-79 | the same tie with the fake first scores 0, because the sort is stable |
| RankStatistic.Median | scripts/ufd_score_and_metrics.py:100 | the median is undefined exactly on an empty input |
| RankStatistic.MedianSplits | scripts/ufd_score_and_metrics.py:100 | the median is at least the lower half and at most the upper half of the sorted scores |
| RankStatistic.MedianBetween | scripts/ufd_score_and_metrics.py:100 | the median lies between two scores of the input |
| RankStatistic.Asr | scripts/ufd_score_and_metrics.py:101 | the rate is undefined exactly on an empty attacked set and otherwise lies in [0, 1] |
| RankStatistic.AsrExtremes | scripts/ufd_score_and_metrics.py:101 | the rate is 1 when every attacked score is below the threshold and 0 when none is |
| RankStatistic.AsrAgainstMedian | scripts/ufd_score_and_metrics.py:100-101 | attacked scores all below the reference give rate 1, and all above give rate 0 |
| UfdScoring.Kept | scripts/ufd_score_and_metrics.py:50 | the comprehension's filter: every kept path is accepted and is the path of an entry, and every accepted entry's path is kept |
| UfdScoring.KeptCount | scripts/ufd_score_and_metrics.py:50 | an accepted entry's path is kept as many times as the entry occurs, a rejected one never |
| UfdScoring.ImagePaths | scripts/ufd_score_and_metrics.py:50 | the filter keeps an entry's path exactly when its lower-cased suffix is an image extension, and keeps nothing that is not an entry's path |
| UfdScoring.ImagePathsCount | scripts/ufd_score_and_metrics.py:50 | each passing entry's path occurs in the filtered list as often as the entry, and no failing entry's path occurs |
| UfdScoring.ListImages | scripts/ufd_score_and_metrics.py:48-50 | `list_imgs` is sorted, a permutation of the filtered paths, holds an entry's path exactly when its suffix passes, and holds only entries' paths |
| UfdScoring.Auc | scripts/ufd_score_and_metrics.py:72-80 | the accumulator loop returns the rank-sum AUC; on equal-length inputs this is the pair-count AUC, in [0, 1] |
| UfdScoring.RunSplit | scripts/ufd_score_and_metrics.py:88-90 | the split AUC is the fraction of (real, fake) pairs with the fake scoring at least as high, in [0, 1] |
| UfdScoring.RunRobust | scripts/ufd_score_and_metrics.py:100-101 | the threshold is the reals' median, the rate is against it, and both extremes hold |
| UfdSummary.Auc | scripts/summarize_ufd_metrics.py:23-31 | the second copy of the loop returns the same rank-sum AUC |
| UfdSummary.AucCopiesAgree | scripts/summarize_ufd_metrics.py:23-31 | the two copies of `auc` return the same value on every input |
| UfdSummary.Summarize | scripts/summarize_ufd_metrics.py:33-49 | gives the robust AUC as a pair fraction in [0, 1], the delta, the median threshold, the rate, and the two sample counts with an absent fakes table counting 0 |
| Manifest.Text | scripts/semitruths_fetch_pairs.py:198-201 | defines the written file: the header line, then one comma-joined line per row; `ParseText` and `TextParse` state its round trips with `Parse` |
| Manifest.Parse | scripts/semitruths_rebuild_unique_manifest.py:20 | every row it reads has plain fields (no comma, quote, carriage return or line break) |
| Manifest.Fields | scripts/semitruths_rebuild_unique_manifest.py:20 | splitting a line on commas gives at least one field, none holding a comma |
| Manifest.FieldsChars | scripts/semitruths_rebuild_unique_manifest.py:20 | a character missing from a line is missing from each of its fields |
| Manifest.ParseRow | scripts/semitruths_rebuild_unique_manifest.py:20 | a line reads as a row only when it has no quote or carriage return, and a row read from a single line has only plain fields |
| Manifest.ParseRowOfRow | scripts/semitruths_fetch_pairs.py:198-201 | the line written for a row of plain fields reads back as that row |
| Manifest.FieldsJoin | scripts/semitruths_rebuild_unique_manifest.py:20 | joining the fields back with commas gives the line |
| Manifest.ParseText | scripts/semitruths_fetch_pairs.py:198-201 | the written header and comma-joined rows read back as the rows, when no field holds a comma, quote, carriage return or line break |
| Manifest.TextParse | scripts/semitruths_rebuild_unique_manifest.py:20 | a text that this model's reader accepts (unquoted, newline-terminated, no blank lines) is exactly the text written for the rows read |
| Manifest.ParseRowLine | scripts/semitruths_rebuild_unique_manifest.py:20 | a line that parses is the line written for its row |
| UniqueManifest.OrigId | scripts/semitruths_rebuild_unique_manifest.py:21-22 | defines the dedup key, `Path(original_local).stem` with pathlib's dropping of trailing `/` and `.` components; `StemOfJoin` shows it is `<id>` for the rows a run writes |
| UniqueManifest.DropDuplicates | scripts/semitruths_rebuild_unique_manifest.py:23 | `drop_duplicates` leaves distinct keys, the same key set, and one row per key |
| UniqueManifest.KeptPositions | scripts/semitruths_rebuild_unique_manifest.py:23 | the kept positions are increasing and each is the first position of its key |
| UniqueManifest.DropDuplicatesPositions | scripts/semitruths_rebuild_unique_manifest.py:23 | the rows kept are exactly those at the kept positions, in order |
| UniqueManifest.DropDuplicatesDistinct | scripts/semitruths_rebuild_unique_manifest.py:23 | rows with distinct keys are left as they are |
| UniqueManifest.Rebuild | scripts/semitruths_rebuild_unique_manifest.py:22-24 | the result has distinct ids drawn from the input, `min(n, #ids)` rows for `n >= 0`, and every id once `n` covers them |
| UniqueManifest.RebuildIdempotent | scripts/semitruths_rebuild_unique_manifest.py:23-24 | rebuilding a rebuilt manifest with the same `n >= 0` changes nothing |
| UniqueManifest.RebuildDistinct | scripts/semitruths_rebuild_unique_manifest.py:23-24 | distinct-id rows, no more than `n` of them, come back unchanged |
| UniqueManifest.RebuildManifest | scripts/semitruths_rebuild_unique_manifest.py:20-25 | the script produces output exactly when this model's reader accepts the manifest and no `original_local` is a text pandas reads as missing (`Path` of a NaN raises at :22) |
| UniqueManifest.RebuildManifestFixed | scripts/semitruths_rebuild_unique_manifest.py:20-25 | a manifest whose rows name each original once and none as missing comes back unchanged when `n` covers its rows |
| UniqueManifest.RebuildManifestReads | scripts/semitruths_rebuild_unique_manifest.py:25 | the rebuilt file reads back as the rebuilt rows, in the four columns |
| FetchPairs.AdmittedId | scripts/semitruths_fetch_pairs.py:90-95 | defines the admission test of the scan; `AdmittedIdMeaning` states it |
| FetchPairs.AdmittedIdMeaning | scripts/semitruths_fetch_pairs.py:90-95 | a member is admitted exactly when it is a regular `.png` file whose head before the first `_` is hex; its name then starts with `id_` |
| FetchPairs.ScanArchive | scripts/semitruths_fetch_pairs.py:89-100 | defines the member loop over one edited archive; `ScanMembers` computes it and the `ScanArchive…` lemmas state its properties |
| FetchPairs.ScanShards | scripts/semitruths_fetch_pairs.py:81-105 | defines the shard loop of the scan; `ScanEdited` computes it and the `ScanShards…` lemmas state its properties |
| FetchPairs.AddValid | scripts/semitruths_fetch_pairs.py:96 | appending to the map keeps its invariant, adds the id only when new, and puts the name last in its list |
| FetchPairs.ScanArchiveValid | scripts/semitruths_fetch_pairs.py:92-100 | the member loop keeps the map invariant and only appends |
| FetchPairs.ScanArchiveBound | scripts/semitruths_fetch_pairs.py:98-100 | starting below the cap, the member loop leaves exactly at the cap on a hit and stays below it otherwise |
| FetchPairs.ScanArchiveDrawn | scripts/semitruths_fetch_pairs.py:92-96 | every candidate name is the base name of a regular file of a scanned archive |
| FetchPairs.UsedArchives | scripts/semitruths_fetch_pairs.py:124 | the recorded archives are the fetched shards at the recorded indices, in order |
| FetchPairs.ScanShardsValid | scripts/semitruths_fetch_pairs.py:81-105 | the shard loop keeps the invariant, keeps the id count at most `max(target, 1)`, and only appends |
| FetchPairs.ScanArchiveHitKeys | scripts/semitruths_fetch_pairs.py:94-100 | the member loop breaks only once the number of ids has reached the target |
| FetchPairs.ScanShardsShape | scripts/semitruths_fetch_pairs.py:81-105 | `used_edited_shards` holds strictly increasing shard indices, or such indices followed by the last one again |
| FetchPairs.ShardDrawn | scripts/semitruths_fetch_pairs.py:81-105 | one fetched shard is recorded (twice after a hit) and the candidates stay drawn from the recorded shards |
| FetchPairs.ScanShardsDrawn | scripts/semitruths_fetch_pairs.py:81-105 | the shard loop records only fetched shards and draws all candidates from the shards it records |
| FetchPairs.ScanMembers | scripts/semitruths_fetch_pairs.py:92-100 | the member loop computes the member-scan specification, hit flag included |
| FetchPairs.ScanEdited | scripts/semitruths_fetch_pairs.py:81-105 | the scan loop computes the scan specification, and the result is valid, bounded and drawn from the recorded shards |
| FetchPairs.ScanArchiveQuiet | scripts/semitruths_fetch_pairs.py:92-96 | an archive with nothing admissible changes nothing |
| FetchPairs.ScanArchiveLoud | scripts/semitruths_fetch_pairs.py:92-96 | an archive with an admissible member leaves at least one id |
| FetchPairs.ScanArchiveLoudAt | scripts/semitruths_fetch_pairs.py:92-96 | an archive with an admissible member at any position leaves at least one id |
| FetchPairs.ScanArchivePass | scripts/semitruths_fetch_pairs.py:92-96 | passing over a first member that is not admitted keeps a later admissible member's id |
| FetchPairs.ScanArchiveHit | scripts/semitruths_fetch_pairs.py:92-96 | an archive whose first member is admitted leaves at least one id |
| FetchPairs.ScanArchiveKeys | scripts/semitruths_fetch_pairs.py:92-96 | scanning an archive never loses an id already collected |
| FetchPairs.ScanShardsEmpty | scripts/semitruths_fetch_pairs.py:81-105 | with a positive target, the scan ends empty exactly when no fetched shard holds an admissible member |
| FetchPairs.ScanArchiveFirst | scripts/semitruths_fetch_pairs.py:92-96 | an id added while scanning an archive starts its list with the first member admitted under it |
| FetchPairs.ScanArchiveComplete | scripts/semitruths_fetch_pairs.py:92-100 | a member loop without a hit adds every id admitted in the archive |
| FetchPairs.ScanShardsFirst | scripts/semitruths_fetch_pairs.py:81-105 | an id added by the shard loop starts its list with the first member admitted under it, in shard and member order |
| FetchPairs.ScanFirst | scripts/semitruths_fetch_pairs.py:117-120 | each id's first candidate is the first edited file admitted under it |
| FetchPairs.FirstNamesMembers | scripts/semitruths_fetch_pairs.py:117-120 | the wanted names are exactly the first candidates of the selected ids |
| FetchPairs.FirstNamesUnique | scripts/semitruths_fetch_pairs.py:182 | a wanted name that starts with a selected id and `_` is that id's first candidate |
| FetchPairs.FirstNameFresh | scripts/semitruths_fetch_pairs.py:117-120 | the last selected id's first candidate is not the first candidate of an earlier id |
| FetchPairs.FirstNamesCount | scripts/semitruths_fetch_pairs.py:117-120 | there are as many wanted names as selected ids |
| FetchPairs.EditedForUnique | scripts/semitruths_fetch_pairs.py:182 | exactly one wanted name starts with a selected id and `_` |
| FetchPairs.PrefixSelectable | scripts/semitruths_fetch_pairs.py:112 | the selected ids are distinct and all have candidates |
| FetchPairs.SelectPairs | scripts/semitruths_fetch_pairs.py:112-120 | the selection is the first `n_pairs` ids and the set of their first candidates, one per id |
| FetchPairs.KeyOf | scripts/semitruths_fetch_pairs.py:159-163 | defines the extraction key: `Path(name).name` of an edited member (:128-130), and that name before its last `.` for an original |
| FetchPairs.ExtractArchive | scripts/semitruths_fetch_pairs.py:127-135 | one archive saves what was saved plus the wanted keys of its regular files |
| FetchPairs.ExtractShards | scripts/semitruths_fetch_pairs.py:123-143 | the shard loop saves only wanted keys of fetched files, and saves them all when they are within reach |
| FetchPairs.ExtractVisits | scripts/semitruths_fetch_pairs.py:124-143 | counts the shards the extraction loop goes through, at most all of them, stopping where `ExtractShards` stops |
| FetchPairs.ExtractVisitsWithin | scripts/semitruths_fetch_pairs.py:124-143 | when the wanted names are among those saved and those of the first archives, the loop stops within those archives |
| FetchPairs.KeysBeforeLast | scripts/semitruths_fetch_pairs.py:99-101 | an archive recorded a second time adds no names |
| FetchPairs.ExtractMembers | scripts/semitruths_fetch_pairs.py:126-135 | the member loop computes the one-archive specification and counts each new key once |
| FetchPairs.Extract | scripts/semitruths_fetch_pairs.py:150-175 | the extraction loop computes the shard specification, and each key is extracted once |
| FetchPairs.JoinFrom | scripts/semitruths_fetch_pairs.py:178-192 | the joined ids are an order-preserving, duplicate-free selection of the ids with both sides saved, at most `n_pairs` of them |
| FetchPairs.JoinFromAll | scripts/semitruths_fetch_pairs.py:178-192 | when every id has both sides saved and the cut comes at the end at the earliest, every id is joined |
| FetchPairs.PairRows | scripts/semitruths_fetch_pairs.py:184-189 | there is one row per joined id, naming its first candidate and `<id>.jpg` |
| FetchPairs.BuildRows | scripts/semitruths_fetch_pairs.py:178-192 | each row of the join loop names `<id>.jpg` and some saved edited name that starts with `id_` |
| FetchPairs.JoinAdvance | scripts/semitruths_fetch_pairs.py:178-192 | one round of the join loop takes the id exactly when its original and an edited image were saved, and stops at `n_pairs` |
| FetchPairs.RowsArePairRows | scripts/semitruths_fetch_pairs.py:182-185 | whatever order the saved set is walked in, the edited name picked is the id's first candidate |
| FetchPairs.WriteManifest | scripts/semitruths_fetch_pairs.py:198-201 | the write loop produces the header line and one comma-joined line per row |
| FetchPairs.Pipeline | scripts/semitruths_fetch_pairs.py:75-201 | defines a whole run as a value; the `Exit…` and `Done…` lemmas state what it promises |
| FetchPairs.Run | scripts/semitruths_fetch_pairs.py:75-201 | the main flow computes the whole-run specification |
| FetchPairs.ScanFacts | scripts/semitruths_fetch_pairs.py:81-105 | the scan result is valid, bounded, recorded and drawn from the recorded shards |
| FetchPairs.ExitNoCandidates | scripts/semitruths_fetch_pairs.py:107-109 | with a positive target, status 1 occurs exactly when no fetched edited shard has an admissible member |
| FetchPairs.EditedSaved | scripts/semitruths_fetch_pairs.py:123-143 | the edited extraction saves every wanted name |
| FetchPairs.PurgeOnce | scripts/semitruths_fetch_pairs.py:98-143 | the edited extraction opens no recorded archive twice, so a purged archive is never reopened |
| FetchPairs.ExitNoEdited | scripts/semitruths_fetch_pairs.py:145-147 | status 2 occurs exactly when there are candidates but the selection is empty, never for `n_pairs >= 1` |
| FetchPairs.RowIds | scripts/semitruths_rebuild_unique_manifest.py:22 | lists each row's original id, in order |
| FetchPairs.PairRowIds | scripts/semitruths_fetch_pairs.py:186 | each row's original id is the id it was built for |
| FetchPairs.JoinedRows | scripts/semitruths_fetch_pairs.py:178-192 | the joined rows are an ordered selection of the ids with saved originals, and each names the id's first candidate |
| FetchPairs.JoinedAll | scripts/semitruths_fetch_pairs.py:178-192 | when both sides of every selected id are saved, every selected id gets a row |
| FetchPairs.DoneJoined | scripts/semitruths_fetch_pairs.py:150-192 | a finished run's rows are the joined rows of the selection |
| FetchPairs.DoneRows | scripts/semitruths_fetch_pairs.py:178-192 | a finished run's rows are an order-preserving selection of the chosen ids, no more than `n_pairs`, each original once; each row names `<id>.jpg` for an id found among the originals, and the first edited file admitted under that id |
| FetchPairs.DoneComplete | scripts/semitruths_fetch_pairs.py:150-192 | when the original shards hold every chosen id, every chosen id gets a row, in order |
| FetchPairs.DoneWritten | scripts/semitruths_fetch_pairs.py:194-201 | a file is written exactly when there are rows, and the written file reads back as them |
| FetchPairs.DoneOriginalsPresent | scripts/semitruths_fetch_pairs.py:186 | no `original_local` a run writes is a missing-value text for pandas, since each ends in `.jpg` |
| FetchPairs.DoneRebuildUnchanged | scripts/semitruths_fetch_pairs.py:178-201 | the de-duplication script, keeping at least as many rows, leaves the written manifest unchanged, for `--source` and `--model` values pandas keeps as text |

## Left out

- Downloading shards (`hf_hub_download`), opening and extracting tar archives, and the rename into the flat output directory. These are I/O. A fetch is an input `Option<Archive>`, and an extraction adds a key to a set.
- `rm` and `purge_tar` (scripts/semitruths_fetch_pairs.py:26-42) delete files. The deletion itself is not modelled.
  - An archive is recorded twice only after a mid-shard break, and then last.
  - The edited extraction stops before that second entry (FetchPairs.PurgeOnce), so `--purge_tars` never reopens a deleted archive.
- `list_members` is never called.
- Building the shard names (scripts/semitruths_fetch_pairs.py:69-72) is string formatting over the CLI arguments. The model takes the fetched shards as given.
- The extension of an extracted original is not tracked.
  - The manifest always names `<id>.jpg`, as the script writes it.
  - An original stored under another extension would be saved under its own name and listed under `.jpg`.
- Command-line parsing, `print`, `--verbose`/`--log_every` progress and `tqdm` are not modelled.
  - They are presentation, except for one case. With `--verbose` and `--log_every 0`, the script raises `ZeroDivisionError` at its first extraction (scripts/semitruths_fetch_pairs.py:136, and :168 for originals).
  - `FetchPairs.Run` and `FetchPairs.Pipeline` do not capture that crash: they return the outcome of a run without it.
- The scoring scripts have more left out:
  - loading the CLIP model;
  - extracting the linear head;
  - encoding images (`score_paths`);
  - the CSV files of scores.

  Scores arrive as sequences of exact reals.
- RankStatistic.RankAuc: the rank sum and the division are computed in floating point by the script and exactly here.
- The `round(..., 4)` formatting, the JSON record, the timestamp and `runs_dir` in the summary script are output only.
- Strings.Lower: lower-cases ASCII letters only. The extensions it is compared against are ASCII.
- Manifest.Parse: reads a subset of what pandas `read_csv` accepts.
  - Fields hold no comma, quote, carriage return or line break; a line with a quote or carriage return is refused.
  - The header line is exactly the four column names.
  - Every line, the last included, ends in a line break; pandas also reads a last line without one.
  - A blank line is refused; pandas skips it.
  - A line with fewer than four fields is refused; pandas fills it with missing values.
  - Quoting and type inference are not modelled.
- Manifest.TextParse: holds for the texts this reader accepts. A text pandas reads but this reader refuses has no such round trip here.
- UniqueManifest.RebuildManifest: gives output exactly when this reader accepts the manifest and no `original_local` reads as missing. That is narrower than when pandas reads it.
  - pandas' type inference is not modelled. A column whose every value looks like a number or a boolean is written back in pandas' rendering (`04` as `4`), and an `original_local` column of numbers makes `Path` raise. The model copies every field as text.
  - A missing-value text (`NA`, `nan`, `None`, `null`, the empty field and the rest of `Manifest.MissingTokens`) in another column is written back empty. The model copies it unchanged.
- FetchPairs.DoneRebuildUnchanged: requires that `--source` and `--model` are texts pandas keeps as text (`Manifest.PandasKeeps`).
  - With `--model NA`, pandas reads the column as missing and writes it back empty. With `--model 04`, it writes it back as `4`. Either way the file changes.
  - `Manifest.NumberLike` errs towards calling a text a number, so the requirement excludes a few values pandas would keep.
  - The two path columns always end in `.png` or `.jpg`, so they are kept (`FetchPairs.DoneOriginalsPresent`).
- Strings.Join: renders `dir / name` for a directory given without a trailing slash. Normalising the directory part and `expanduser` are not modelled.
- `stage_exp_sets_from_manifest.py` and `dereference_symlinks.py` are file copying.
