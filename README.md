# commcat `seg.py`: corpus splitting, cached loading, nearest selection, reports

This project is a Dafny model of the non-numerical core of `seg.py`, the
document-clustering script of the commcat repository. The model covers:

- how a corpus text is split into articles and each article into metadata and body;
- how bodies are loaded either from the pickle cache or by parsing the corpus file, and then cached;
- how the articles nearest to each cluster centre are chosen from the distance matrix;
- how the per-cluster report files are written.

The modules follow the script's stages:

- `Common` (`common.dfy`): `Option`, `Result`, and the failures that end a run.
- `Splitter` (`splitter.dfy`): `re.split` with the two multi-line patterns `^##$` and `^\+\+$`.
  A delimiter is the two marker characters at the start of the text or just after a line break,
  followed by a line break or by the end of the text. Only the two characters are consumed.
  The module proves three things about the split:
  - it yields one piece more than there are delimiter lines;
  - the pieces glue back to the text;
  - the pieces have a shape (`ValidPieces`) for which splitting is the inverse of gluing.
- `Corpus` (`corpus.dfy`): `split_articles`, `split_metadata`, `get_body`, and the list of bodies that `load_new_file` builds.
- `Loader` (`loader.dfy`): `pickle_name` and the cache-or-parse loader, modelled in two ways:
  - as functions of the file system (`Load`, `LoadAll`);
  - as the class `Disk`, whose fields are the corpus files and the pickle files (both maps from path to content). Its methods are proved against those functions; `LoadMultiple` is the loop of `load_multiple`.
- `Nearest` (`nearest.dfy`): `find_nearest`. `np.argpartition(dist, n, axis=0)` is specified as `IsPartition`: the first `n` indices of a column are `n` different rows, each at least as near as any row left out. `SmallestN` is one selection that meets this specification, and it is proved to meet it. Numpy leaves the order inside the selection, and the choice among equal distances, unspecified. The model fixes one choice, and `PartitionUnique` shows the chosen set is forced when the distances are all different.
- `Report` (`report.dfy`): the end of `main`. After three distinct labels are checked for, one file `output/cluster<i>.txt` per cluster is written: a header line, then five articles each followed by the divider line. The class `Output` holds the written files. Its methods are the two nested loops of `main`, proved against `WriteAll`.

Notes on what the code does, which the model follows:

- Line breaks around delimiter lines stay in the neighbouring pieces, so a body begins with the line break after its `++` line. A corpus of two articles such as `##\nmeta1\n++\nbody one\n##\nmeta2\n++\nbody two` gives the bodies `\nbody one\n` and `\nbody two`, not `body one` and `body two`.
- A cached payload is rejected only when it is `None` (seg.py:68). A cached empty list is accepted.
- Nothing in the code restricts a cluster's nearest articles to articles labelled with that cluster. Each selection is the `n` nearest rows of the cluster's column among all rows, and the model does the same.

Where the model departs from the code: `find_nearest` fails with fewer than `n + 1` articles, not with fewer than `n` (see "Findings"). `Report.SelectionAsWritten` is the end of `main` with that bound, while `Report.Selection` and `Report.Output.Publish` use the corrected selection (see "## Left out").

## Model

| member | source | states |
|---|---|---|
| Splitter.FindDelimLeftmost | seg.py:21-22 | the scan for the next delimiter line finds a real match and skips none: no match lies between the scan start and the one found, and none at all when nothing is found |
| Splitter.SplitFromCount | seg.py:21-22 | from any position where a scan may resume, `re.split` yields exactly one piece more than there are delimiter lines in the rest of the text |
| Splitter.SplitFromJoin | seg.py:21-22 | the pieces of the rest of the text, glued back with the marker, are that text: only the marker characters are consumed |
| Splitter.SplitFromValid | seg.py:21-22 | the pieces hold no delimiter line; a piece before a delimiter ends with a line break (or is the empty first piece), and a piece after one starts with a line break (or is the empty last piece) |
| Splitter.Split | seg.py:21-22 | the split of a whole text has one piece more than the text has delimiter lines, glues back to the text, and has the shape `ValidPieces` |
| Splitter.CountZero | seg.py:21-22 | no delimiter line is counted exactly when no position starts one |
| Splitter.SplitOfJoin | seg.py:21-22 | splitting is the inverse of gluing: any pieces of the shape `ValidPieces`, glued with the marker, split back into exactly those pieces |
| Corpus.Preamble | seg.py:42 | the text that `split_articles` drops is a prefix of the corpus and holds no `##` line |
| Corpus.SplitArticles | seg.py:41-43 | one article per `##` line; the corpus is the dropped preamble followed by each article behind its `##`; no article holds a `##` line |
| Corpus.NoArticles | seg.py:41-43 | a corpus yields no articles if and only if it has no `##` line |
| Corpus.SplitArticlesOfJoin | seg.py:41-43 | a corpus built from a preamble and articles of the shape `re.split` yields splits back into exactly those articles and that preamble |
| Corpus.SplitMetadata | seg.py:33-36 | succeeds if and only if the article has exactly one `++` line, else fails with `MalformedArticle`; on success the two parts are metadata and body, glue back to the article around the `++` line, and hold no `++` line |
| Corpus.SplitMetadataOfJoin | seg.py:33-39 | metadata and body without `++` lines that properly surround a `++` line are split back into themselves, and `get_body` returns that body |
| Corpus.GetBody | seg.py:38-39 | succeeds exactly when `split_metadata` does, and then returns a suffix of the article |
| Corpus.BodyAfterMarker | seg.py:38-39 | the body is the text right after the article's single `++` line and holds no `++` line |
| Corpus.Bodies | seg.py:57 | succeeds if and only if every article has a body; then it returns one body per article, in article order, each the one `get_body` returns |
| Corpus.BodiesOf | seg.py:57 | the list of bodies is determined article by article: given each article's body, the list is exactly those bodies |
| Corpus.ParseCorpus | seg.py:56-57 | on success there is one body per `##` line of the corpus |
| Corpus.ParseCorpusOfJoin | seg.py:56-57 | parsing a corpus built from well-formed articles returns their bodies, in order |
| Loader.PickleName | seg.py:30-31 | the cache path lies under `PICKLE_DIR`, ends in `.pkl`, and is as long as its parts plus the fixed characters |
| Loader.PickleNameInjective | seg.py:30-31 | for a fixed step name, two basenames give the same cache path string if and only if they are equal |
| Loader.SourceName | seg.py:48 | the corpus path lies under `DATA_DIR` and ends in `.txt` |
| Loader.SourceNameInjective | seg.py:48 | two basenames give the same corpus path string if and only if they are equal |
| Loader.ParseSource | seg.py:47-57 | fails with `MissingSource` of the corpus path if and only if the file does not exist; on success gives one body per `##` line of the file |
| Loader.Unpickle | seg.py:64-69 | a cached payload is returned if and only if it is not `None`; a `None` payload fails with `CorruptCache` of that path |
| Loader.Load | seg.py:72-80 | loading never removes or alters a cache file; a successful load leaves the returned bodies cached under the basename's cache path |
| Loader.CacheHit | seg.py:74-75 | on a cache hit the stored bodies are returned and nothing changes, whatever the corpus files hold |
| Loader.CacheCorrupt | seg.py:68 | a cached `None` fails with `CorruptCache` and changes nothing |
| Loader.CacheMiss | seg.py:76-77 | on a miss the corpus file is parsed; on success the bodies are stored under the cache path and nothing else changes, on failure nothing is stored |
| Loader.LoadTwice | seg.py:72-80 | loading a basename again, on the cache the first load left, returns the identical bodies and changes nothing, even if the corpus files changed |
| Loader.LoadAll | seg.py:82-86 | a run over several basenames never removes or alters a cache file |
| Loader.LoadAllTwice | seg.py:82-86 | repeating a successful run on the cache it left returns the same bodies and leaves the cache as it was, whatever the corpus files hold |
| Loader.LoadAllCached | seg.py:82-86 | when every basename is cached, a run returns the cached bodies concatenated in the order the basenames are given, and writes nothing |
| Loader.Disk.LoadNewFile | seg.py:47-62 | returns the parsed bodies of the basename's corpus file, or `MissingSource` / `MalformedArticle`; caches the bodies under `pickle_name(basename, 'split')` only on success |
| Loader.Disk.LoadPickled | seg.py:64-69 | returns the cached payload unless it is `None` |
| Loader.Disk.LoadFile | seg.py:72-80 | result and new cache are those of `Load` |
| Loader.Disk.LoadMultiple | seg.py:82-86 | the loop's result and new cache are those of `LoadAll`: the bodies of the basenames in order, stopping at the first failure with earlier caches kept |
| Nearest.SmallestN | seg.py:113 | for any column and any `n` up to its length, the rows chosen are a valid argpartition prefix: `n` different rows, none farther than a row left out |
| Nearest.NumClusters | seg.py:114 | the number of distinct labels is at most the number of labels, and is zero only when there are none |
| Nearest.FindNearest | seg.py:112-116 | as written: fails with `InsufficientData` if and only if `n` is not below the number of rows; otherwise returns the corrected selection |
| Nearest.FindNearestFixed | seg.py:112-116 | succeeds if and only if there are at least `n` rows; returns one selection per distinct label, each of `n` articles |
| Nearest.FindNearestSelects | seg.py:113-116 | each selection returned is the articles at the rows of some valid argpartition prefix of that cluster's column |
| Nearest.NoPartitionBeyondRows | seg.py:113 | no valid selection of `n` rows exists when there are fewer than `n` rows, so failing then loses nothing |
| Nearest.PartitionUnique | seg.py:113 | when a column's distances are all different, any two valid selections of the same size choose the same rows |
| Nearest.ExactRowsRejected | seg.py:113 | with exactly `n` rows the program as written fails, although the corrected selection exists |
| Nearest.FiveArticlesRejected | seg.py:112-113 | five articles, one cluster, default `n` = 5: the program as written fails, the corrected one succeeds |
| Report.ReportPathInjective | seg.py:148 | two clusters share a report file if and only if they are the same cluster |
| Report.EntriesAppend | seg.py:150-152 | writing the entries of two lists in turn writes the entries of the joined list |
| Report.ReportLength | seg.py:149-152 | a report is exactly its header, the five articles and five dividers, by length |
| Report.WriteAllReport | seg.py:147-152 | after the reports are written, each cluster's file holds exactly its report |
| Report.WriteAllKeeps | seg.py:147-152 | writing the reports leaves every other file as it was |
| Report.Selection | seg.py:141-146 | succeeds if and only if there are at least five articles and exactly three distinct labels; the failure is `InsufficientData` first, then `UnexpectedClusterCount`; on success there are three selections of five articles each |
| Report.SelectionAsWritten | seg.py:141-146 | the end of `main` as written: succeeds if and only if there are more than five articles and exactly three distinct labels; the failure is `InsufficientData` first, then `UnexpectedClusterCount` |
| Report.SelectionAsWrittenDiffers | seg.py:141-146 | the corrected and the as-written end of `main` agree except with exactly five articles, where the program as written stops with `InsufficientData` and the corrected one goes on to the three-cluster check |
| Report.Output.WriteCluster | seg.py:148-152 | the nested loop leaves cluster `i`'s file holding exactly `ReportText(i, bodies)`, with no other file touched |
| Report.Output.Publish | seg.py:141-152 | result as `Selection`; on success the files are those of `WriteAll` on the selections, and on failure nothing is written |

## Left out

- The vectorisers, k-means and PCA (`cv_encoding`, `tfidf_encoding`, `kmeans`, `visualize`, seg.py:88-129) are library calls. The distance matrix and the labels are inputs to `Nearest` and `Report`.
- The per-article division by the word count in `cv_encoding` (seg.py:93-95) is floating point, and it divides by zero for an article without words.
- Real reading and writing of files, pickling, and the `errors='ignore'` decoding are not modelled. Files are maps from path to content, and a pickle file holds either a list of bodies or `None`.
- Creating `PICKLE_DIR` (seg.py:132-133) and a missing `output` directory are not modelled.
- `vprint`, verbosity and `argparse` (seg.py:26-28, 155-161) are not modelled; they do not affect results.
- Loader.Disk.LoadPickled: requires the cache file to exist. The only caller, `load_file`, checks that first (seg.py:74).
- Nearest.FindNearest: requires every distance-matrix row to have a column for each distinct label. KMeans gives this, because its labels index its centres.
- Nearest.SmallestN: fixes one order inside each selection, and one choice among equal distances, where numpy leaves both open. `FindNearestSelects` states only what numpy promises.
- A corpus file's map entry is its text as `open(filename, 'r')` and `f.read()` return it (seg.py:53-54), after Python's universal-newline translation: a `\r\n` line ending is already `\n` there. Reading raw bytes is not modelled.
- Loader.LoadAll: loops over its `basenames` parameter, whereas `load_multiple` loops over the global `prog_args.basenames` and ignores its parameter (seg.py:84). The two agree because `main` passes that same list (seg.py:135, 161); a caller passing another list is not modelled.
- Report.Selection: models the end of `main` with the corrected selection `Nearest.FindNearestFixed`, so with exactly five articles and three labels it succeeds where the program as written stops at seg.py:113. `Report.SelectionAsWritten` and `Report.SelectionAsWrittenDiffers` state the program as written and the one input size where the two differ.
- Report.Output.Publish: writes the reports with the corrected selection, as `Report.Selection` does; with exactly five articles it writes three report files, where the program as written writes none.
- Paths are map keys compared as strings. Different spellings of one file (`./a` beside `a`, `..`, symbolic links, case-insensitive file systems) are different keys in the model, where the program reaches the same file; so `Loader.PickleNameInjective` and `Loader.SourceNameInjective` speak of path strings, not of files.
- Nearest.FindNearest: returns the article bodies unchanged, whereas `np.array(articles)` (seg.py:115) stores them in a fixed-width string array, from which numpy reads each element back without its trailing NUL (`\x00`) characters. A body ending in NUL is written by the program without those characters and kept whole by the model. The same holds for `Nearest.FindNearestFixed`, `Report.Selection` and `Report.Output.Publish`.
- The model assumes Python runs with assertions enabled (no `-O`). `MissingSource` (seg.py:51), `MalformedArticle` (seg.py:35), `CorruptCache` (seg.py:68) and `UnexpectedClusterCount` (seg.py:144) are `assert` statements. Without them, `get_body` of an article with two or more `++` lines returns the second piece instead of failing (with no `++` line it still fails, with an `IndexError`); `main` with a number of labels other than three writes that many reports instead of stopping; a missing corpus file and a cached `None` still end the run, but with another exception (`open` failing, or `len(None)` at seg.py:79).
- `comp question 1.py`, the Collatz utility, is not part of this model.

## Findings

| source | as written | input that shows it | evidently intended | confidence | as-written member | corrected member |
|---|---|---|---|---|---|---|
| seg.py:113 | `np.argpartition(dist, n, axis=0)` passes `n` as the kth index, which numpy accepts only when `n` is below the number of rows | a distance matrix with exactly five rows (five articles) and the default `n` = 5: numpy rejects kth 5 for an axis of length 5, although the five nearest articles are all five | select the `n` nearest whenever there are at least `n` articles (kth `n - 1`) | not executed | Nearest.FindNearest, Nearest.ExactRowsRejected, Nearest.FiveArticlesRejected, Report.SelectionAsWritten | Nearest.FindNearestFixed, Report.Selection, Report.Output.Publish |
