# vgosDB archive view in Dafny

This project models the virtual archive view of the vgosDB reader: the
`Node` and `VgosDBReader` classes of `baseline/reader/core.py`. A vgosDB
session arrives as a `.tgz` holding NetCDF (`.nc`) files. The reader:

- builds a member index of the regular `.nc` files in the tar table of
  contents;
- skips a redundant single top-level directory (the root prefix);
- lets a caller walk the archive as a tree of nodes;
- decodes a leaf lazily on first access and caches the decoded dataset.

It also lists children, searches member paths, and scans member paths
for VLBI station codes.

The model has five modules:

- `Text` (`text.dfy`): the string methods the view uses on member paths.
  These are `startswith`, `endswith`, `rstrip('/')`, `split('/', 1)[0]`
  and `split('/')`, with `'/'.join` as the partner of the split.
- `Order` (`order.dfy`): Python's ordering of `str`, `sorted(...)` of a
  duplicate-free list, and `list(...)` of a set.
- `Stations` (`stations.dfy`): the station-code scan. It models
  `re.findall(r'[A-Z]{2,8}', part)` and `re.match(r'^[A-Z]{2,8}$', part)`
  as Python evaluates them. The scan that `GetStations` runs uses the
  corrected whole-part match of the Findings row, not the as-written one.
- `Archive` (`archive.dfy`): the tar entries, the member index, root
  detection, prefix normalisation, the path classification, and the
  classes.
  - `Node` is a class with the shared tar file, member index, prefix and
    cache.
  - `Reader` is `VgosDBReader`.
  - `Cache` is the dict of decoded datasets. It is a heap object, so that
    nodes share it by reference.
  - `Dataset` is a class, so that "the same dataset object" and "a new
    dataset object" can be told apart.
  - `TarArchive` holds the table of contents, whether it is closed, and a
    ghost count of extract-and-decode calls.
- `Scenarios` (`scenarios.dfy`): three client methods. They show what
  callers of `Node` and `Reader` can conclude from the contracts alone.

`self._cache = cache or {}` (core.py line 18) is modelled exactly. An empty
dict passed in is falsy, so the node makes a fresh dict of its own. As a
result:

- the reader's `_cache` is never the root node's cache;
- a child node made while its parent's cache is still empty gets a cache
  of its own;
- "decode at most once" holds per cache dict, not per archive.

The loops over the member dict iterate its key set in an arbitrary
order. Every result is proved for any iteration order, because the
source's results are sets or sorted lists.

### What the code does about caching and closing

- **Decode at most once, per cache dict.** The comments at core.py lines
  28 and 34 ("Use cache if available", "Cache the dataset") hold per cache
  dict, not per archive. `Scenarios.RepeatedPathLookup` proves that
  `reader[d][f]`, evaluated twice on a fresh reader, decodes twice and
  gives two different dataset objects.
- **`close()` does not clear the nodes' cache.** Its docstring (core.py
  line 145) says "Close the tarfile and clear cache". The cache it clears
  (line 148) is the reader's own dict, which no node uses.
  `Scenarios.LookUpAcrossClose` proves that a dataset cached before
  `close()` is still returned after it; only uncached leaves fail to read.
- **The guard in `close()`.** `hasattr(self, '_tar')` (line 146) is always
  true once the constructor has run. So the modelled `close()` always
  closes the tar file; closing it twice is allowed.

### What the code does about the root prefix and missing keys

- **The skipped directory can still be a child.** When the single
  top-level directory's name recurs one level down, the root's children
  include that name again. For the single member `S/S/x.nc`, the root
  prefix is `S/` and the root's only child is `S`.
- **Missing keys.** A missing key raises `KeyError` carrying the key
  (line 37, `Lookup.KeyError(key)`).

## Model

| member | source | states |
|---|---|---|
| Text.StartsWith | baseline/reader/core.py:43 | `s.startswith(p)`: `p` is a prefix of `s` |
| Text.EndsWith | baseline/reader/core.py:114 | `s.endswith(x)`: `x` is a suffix of `s` |
| Text.RStrip | baseline/reader/core.py:17 | `s.rstrip(c)` is a prefix of `s` that does not end in `c`, and only `c`s follow it in `s` |
| Text.FirstSegment | baseline/reader/core.py:45-49 | `s.split('/', 1)[0]` is a prefix of `s` without `/`; it is followed by a `/` in `s` when `s` holds one, and is all of `s` otherwise |
| Text.Split | baseline/reader/core.py:173 | `path.split('/')` gives at least one part and no part holds a `/` |
| Text.JoinSplit | baseline/reader/core.py:173 | joining the parts of `path.split('/')` with `/` gives back the path, so the station scan sees every character of the path |
| Text.SplitJoin | baseline/reader/core.py:173 | splitting a `/`-join of parts free of `/` gives back the parts |
| Text.FirstSegmentBeforeSlash | baseline/reader/core.py:45-49 | the first segment of `head + "/" + rest` is `head` when `head` holds no `/` |
| Order.Less | baseline/reader/core.py:101 | Python's `<` on `str`: code point by code point, a proper prefix first |
| Order.LessIrreflexive | baseline/reader/core.py:101 | no string sorts before itself |
| Order.LessTransitive | baseline/reader/core.py:101 | Python's string order is transitive |
| Order.LessTotal | baseline/reader/core.py:101 | any two different strings are ordered one way or the other |
| Order.SortedIsDistinct | baseline/reader/core.py:101 | a strictly sorted list has no duplicates |
| Order.SortedUnique | baseline/reader/core.py:101 | two strictly sorted lists with the same elements are equal: the result of `sorted` is determined by its elements |
| Order.Insert | baseline/reader/core.py:101 | inserting a new element into a strictly sorted list keeps it strictly sorted and adds exactly that element |
| Order.Sort | baseline/reader/core.py:101 | `sorted(matches)` is strictly sorted and a permutation of its duplicate-free input |
| Order.ListOf | baseline/reader/core.py:182 | `list(stations)` holds each element of the set exactly once and nothing else |
| Stations.CapitalRun | baseline/reader/core.py:179 | the greedy run `[A-Z]{2,8}` takes at a position is at most the cap, is all capitals, and stops only at the cap, the end, or a non-capital |
| Stations.FindAll | baseline/reader/core.py:179 | every match of `re.findall(r'[A-Z]{2,8}', part)` is two to eight capitals occurring contiguously in the part; `FindAllMaximalRun` states a partial converse: every maximal run of two to eight capitals is a match (a longer run is cut into pieces of at most eight, so not every such run is one) |
| Stations.RunInsidePrefix | baseline/reader/core.py:179 | on a string ending in a non-capital, the run taken at its start stays inside it, whatever follows |
| Stations.RunStops | baseline/reader/core.py:179 | a run of at most eight capitals followed by the end or a non-capital is taken whole |
| Stations.FindAllSplits | baseline/reader/core.py:179 | the scan never runs across a non-capital: the matches in `a + rest` are those in `a` followed by those in `rest`, when `a` ends in a non-capital |
| Stations.FindAllMaximalRun | baseline/reader/core.py:179 | every maximal run of two to eight capitals in a part (no capital just before or after it) is a match |
| Stations.RunFound | baseline/reader/core.py:179 | the same, for a run given by its position in the part |
| Stations.FindAllWholeCode | baseline/reader/core.py:176-180 | a part that is two to eight capitals is found whole, as the only match |
| Stations.AnchoredMatchAsWritten | baseline/reader/core.py:176 | `re.match(r'^[A-Z]{2,8}$', part)` as Python evaluates it: the part is a station code, or a station code followed by one final newline |
| Stations.PartCodesAsWritten | baseline/reader/core.py:176-180 | the codes the scan adds for one part as written: all the corrected codes, plus at most the whole part when it is not a station code but ends in a newline |
| Stations.AsWrittenReportsNewline | baseline/reader/core.py:176-177 | as written, the anchored match accepts the part "AB\n", which is not a station code, and reports it |
| Stations.PartCodes | baseline/reader/core.py:176-180 | the codes reported for one part with the corrected anchored match are station codes inside that part, and equal the matches of the `findall` |
| Stations.PartsCodes | baseline/reader/core.py:174-180 | reference definition of the loop over the parts of one path: the union of the corrected per-part codes |
| Stations.PathCodes | baseline/reader/core.py:173-180 | reference definition of the codes of one path: those of its `/`-parts |
| Stations.AddPathCodes | baseline/reader/core.py:173-180 | the inner loop, with the corrected whole-part match of the Findings row, adds to the codes found so far exactly `PathCodes` of the path |
| Stations.PartsCodesSound | baseline/reader/core.py:174-180 | every code reported for a list of parts is a station code occurring in one of the parts |
| Stations.PartsCodesComplete | baseline/reader/core.py:174-180 | every `findall` match in any part is reported, and so is every part that is itself a station code |
| Stations.PathReportsRuns | baseline/reader/core.py:173-180 | every maximal run of two to eight capitals in any `/`-part of a path is reported for that path |
| Stations.PathCodesSpec | baseline/reader/core.py:173-180 | a code is reported for a path only if it is a station code inside one of its `/`-parts, and every `findall` match of a part is reported |
| Archive.Indexed | baseline/reader/core.py:114 | the filter `m.isfile() and m.name.endswith('.nc')`: a regular file whose name ends in `.nc` |
| Archive.BuildIndex | baseline/reader/core.py:112-115 | the index holds exactly the names of regular `.nc` file entries, each mapped to the last such entry of that name |
| Archive.IndexStep | baseline/reader/core.py:112-115 | one more entry of the dict comprehension keeps the index exact: a kept entry replaces an earlier one of the same name |
| Archive.RootDir | baseline/reader/core.py:121-125 | what the root scan records for one member: its first segment when it holds a `/`, otherwise "" |
| Archive.RootDirShape | baseline/reader/core.py:121-125 | the recorded root directory is the `/`-free text before the first `/`, or "" for a top-level file |
| Archive.DetectRootPrefix | baseline/reader/core.py:118-131 | the root prefix is the single shared non-empty first segment plus `/` when every member has one, and "" otherwise |
| Archive.RootDecision | baseline/reader/core.py:119-131 | the set of recorded first segments is one non-empty name exactly when all members share one non-empty first segment |
| Archive.RootPrefixShape | baseline/reader/core.py:127-133 | the detected root prefix is "" or ends in `/`, is left unchanged by the node's normalisation, and starts every member |
| Archive.RootDirUnder | baseline/reader/core.py:121-122 | a member under `dir/` records `dir` as its root directory |
| Archive.SingleTopDirectory | baseline/reader/core.py:118-131 | when every member lies under one directory `dir`, the root prefix is `dir/` |
| Archive.NoSingleTopDirectory | baseline/reader/core.py:118-131 | a top-level file, or two members under different first segments, give an empty root prefix |
| Archive.NormalizePrefix | baseline/reader/core.py:17 | the node prefix is "" exactly for "" and "/"; otherwise it is the input without its trailing `/`s plus exactly one `/` |
| Archive.SegmentKept | baseline/reader/core.py:17 | a segment followed by one `/` is already normal |
| Archive.ChildPrefix | baseline/reader/core.py:25 | the subdirectory node for `key` gets prefix `prefix + key + "/"` |
| Archive.Classify | baseline/reader/core.py:24-27 | a path is a directory exactly when some member starts with it and a `/`, even when the path is itself a member; it is a leaf exactly when it is a member and not a directory |
| Archive.TarArchive.ReadDataset | baseline/reader/core.py:32-33 | extracting and decoding fails on a closed archive without decoding; otherwise it decodes once, giving a new dataset for that entry or a decode error |
| Archive.TarArchive.Close | baseline/reader/core.py:146-147 | the archive is closed |
| Archive.Node.constructor | baseline/reader/core.py:14-18 | the prefix is normalised, and a given cache is kept only when it is non-empty; otherwise the node gets a fresh empty cache |
| Archive.Node.Get | baseline/reader/core.py:20-37 | a directory gives a new node with the normalised path as prefix, sharing the cache only if it was non-empty. A cached leaf gives the cached dataset with no decode. An uncached leaf decodes exactly once, and a new dataset is cached under the full path with nothing else changed. A decode failure is not cached. A missing key gives `KeyError(key)` with nothing changed |
| Archive.Node.Keys | baseline/reader/core.py:39-52 | the children are exactly the non-empty first segments of the remainders of the members under the prefix, each without `/` |
| Archive.Node.FindFiles | baseline/reader/core.py:92-101 | the result is strictly sorted, and holds exactly the remainders after the prefix of the members under it that satisfy the pattern |
| Archive.Node.ListNcFiles | baseline/reader/core.py:103-105 | the result is strictly sorted and holds exactly the remainders of all members under the prefix |
| Archive.NcSearch | baseline/reader/core.py:105 | `re.search(r'\.nc$', x)`: `x` ends in `.nc`, or in `.nc` and one final newline |
| Archive.SuffixBelowPrefix | baseline/reader/core.py:103-105 | a member name ending in `.nc` still ends in `.nc` once a node prefix is stripped, so the `\.nc$` search keeps every member |
| Archive.StripRoot | baseline/reader/core.py:170 | the root prefix is removed exactly when the path starts with it: then prefix and result make up the path; otherwise the path is unchanged |
| Archive.Reader.constructor | baseline/reader/core.py:109-133 | the index is exact, the root prefix is the detected one, and the root node has that prefix and a fresh empty cache that is not the reader's own dict |
| Archive.Reader.Get | baseline/reader/core.py:135-136 | `reader[key]` is answered by the root node as `Node.Get` states |
| Archive.Reader.Close | baseline/reader/core.py:144-148 | the tar file is closed and the reader's own dict emptied; the nodes' cache is unchanged |
| Archive.Reader.FindFiles | baseline/reader/core.py:156-158 | as `Node.FindFiles` on the root prefix |
| Archive.Reader.ListNcFiles | baseline/reader/core.py:160-162 | strictly sorted, and every member appears in it with the root prefix stripped, and nothing else |
| Archive.Reader.GetStations | baseline/reader/core.py:164-182 | with the corrected whole-part match of the Findings row: strictly sorted; holds exactly `PathCodes` of the member paths with the root prefix stripped; each is two to eight capitals; every maximal run of two to eight capitals in a part of a stripped member path is included |
| Scenarios.LookUpTwice | baseline/reader/core.py:28-35 | a second lookup of a leaf on the same node returns the same dataset object, and the two lookups decode at most once |
| Scenarios.RepeatedPathLookup | baseline/reader/core.py:18-25 | on a reader whose root cache is empty, `reader[d][f]` twice decodes twice and gives two different dataset objects |
| Scenarios.LookUpAcrossClose | baseline/reader/core.py:144-148 | a dataset cached before `close()` is still returned after it; an uncached leaf then fails to read |

## Left out

- Tar and NetCDF I/O are not modelled. `tarfile.open`, `extractfile` and
  `xr.open_dataset` are reduced to an entry flag saying whether its bytes
  decode. A failure to open or read the archive file is not modelled, and
  neither are the contents of a decoded dataset.
- Archive.TarArchive.ReadDataset: reading from a closed archive is one
  `ReadError`. The exact exception Python raises there is not modelled.
- Archive.Node.FindFiles: the regular expression is a total predicate on the
  relative path. Compiling it, and a pattern that fails to compile, are not
  modelled. `list_nc_files`'s own pattern `\.nc$` is modelled exactly
  (`NcSearch`).
- Archive.Reader.GetStations: uses the corrected whole-part match of the
  Findings row. As written, a part that is a station code followed by a
  final newline is also reported, newline included (`PartCodesAsWritten`
  states what that adds).
- Stations.AddPathCodes: likewise runs the corrected whole-part match.
- Order.Sort: requires a duplicate-free input. Every list the source sorts
  is one: the relative paths of distinct members, or a list made from a
  set.
- The `path` attribute, `__repr__`, `pretty_print`, `summary` and
  `_format_size` are not modelled: they only format console output, partly
  with floating point.
- `__enter__` returns the reader and `__exit__` calls `close()`, which is
  modelled; the `with` statement itself is not.
- Member names are sequences of Unicode scalar values (`char`). A name
  that `tarfile` decodes with surrogate escapes, because its bytes are not
  UTF-8, cannot be represented in the model.
- The `__main__` demonstration script is not modelled.
- baseline/reader/analysis_interface.py is not part of this model: it
  builds pandas and numpy structures and converts times in floating point.
- Dict iteration order is not modelled. Each loop over the member dict
  takes the keys in an arbitrary order, and each result is proved for
  every order.
- The extract-and-decode call count is a ghost counter on the archive. It
  is a proof device, not program state.

## Findings

| source | as written | input that shows it | evidently intended | confidence | as-written member | corrected member |
|---|---|---|---|---|---|---|
| baseline/reader/core.py:176 | `re.match(r'^[A-Z]{2,8}$', part)` accepts a part that ends in a newline, because `$` also matches just before a final `\n`. The whole part, newline included, is then added as a station | a member `Sess/AB\n/Time.nc`; its part `"AB\n"` is reported as a station | report a part only when the whole part is two to eight capitals | not executed | Stations.AsWrittenReportsNewline | Stations.PartCodes |
