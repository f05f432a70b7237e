# vim-clap filtering and filer core, in Dafny

This project models two sequential pieces of the vim-clap backend, the
engine behind an interactive fuzzy finder:

- **Ranking (`sync_run` of the `filter` crate).** One matcher is built from
  the algorithm, the match type and the bonuses. It scores every item of a
  source. Items that do not match are dropped. What matched becomes
  `(item, score, indices)` results, sorted so that scores never increase.
  A source error ends the run with that error and no ranking.
- **The filer provider.** A directory is listed as display strings. A
  directory entry shows as its file name plus the path separator, and any
  other entry as its bare file name. An icon may be prepended. The listing
  takes the first `max` entries when a maximum is given. Any read error
  among those fails the whole listing. Otherwise the strings are sorted
  lexicographically. The result becomes a `result` response (`entries`,
  `dir`, `total`) or an `error` response (`message`, `dir`). Moving the
  cursor asks for a preview whose size is the provider default or half
  the preview window, whichever is larger.

Files:

- `wrappers.dfy`: `Option`, `Result`, and `CollectResults`, which is Rust's
  `collect::<Result<Vec<_>, _>>()`.
- `sorting.dfy`: `Ordering`, the comparator contract a Rust sort needs, and
  an in-place insertion sort on an array driven by a comparator. Both
  Rust sorts in the core are modelled with it: `par_sort_unstable_by` on
  the filter results and `Vec<String>::sort` on the listing. It also holds
  the lemma that a sorted permutation is unique when only equal values
  compare `Equal`.
- `filter.dfy`: sources, the matcher as a scoring function, `Source::filter`,
  the score comparator and `SyncRun`.
- `filer.dfy`: `DisplayPath`, the string order, `ReadDirEntries`, the
  response, `HandleFilerMessage` and the preview size.

The filter sort is unstable and compares scores only. The model does not
promise any order among results of equal score. `SortBy` promises only
"sorted by the comparator" and "a permutation of its input".
`TieOrderUnconstrained` shows both orders of a tie are allowed.
`RankingsAgreeOnScores` shows what is still determined: the score at every
position.

Two behaviours of `sync_run` are worth stating outright, because a reader
might expect otherwise.

- `sync_run` sorts with `par_sort_unstable_by` on the score alone
  (crates/filter/src/lib.rs:39). Nothing breaks ties by enumeration order,
  so the model leaves the order of equal scores open.
- If `Source::filter` returns an error, `sync_run` returns it with `?`
  (crates/filter/src/lib.rs:37) and no ranking.

## Model

| member | source | states |
|---|---|---|
| `Wrappers.CollectResults` | crates/stdio_server/src/session/providers/filer.rs:67-73 | `collect` into a `Result` succeeds exactly when every element is `Ok`, and then holds every value in order; otherwise it returns an error that some element carries, with every element before that one `Ok` |
| `Wrappers.FirstErrorIsCollected` | crates/stdio_server/src/session/providers/filer.rs:70-72 | the error `collect` reports is the error of the first element that is not `Ok` |
| `Wrappers.FirstError` | crates/stdio_server/src/session/providers/filer.rs:70-72 | the index where a lazy `collect` stops: every element before it is `Ok`, and the element there, if any, is an error |
| `Wrappers.CollectedCounts` | crates/filter/src/lib.rs:37 | a successful `collect` holds each value exactly as often as the sequence holds it wrapped in `Ok` |
| `Sorting.SortBy` | crates/filter/src/lib.rs:39 | the in-place sort leaves the array sorted by the comparator and a permutation of what it held; it promises nothing about elements that compare `Equal` |
| `Sorting.SortedUnique` | crates/stdio_server/src/session/providers/filer.rs:75 | when only equal values compare `Equal`, two sorted permutations of one multiset are identical |
| `Filter.Source.Filter` | crates/filter/src/lib.rs:37 | filtering a source succeeds exactly when every item was read, and otherwise fails with the first read error |
| `Filter.Matches` | crates/filter/src/lib.rs:37 | the results number at most the items; every result is an item of the source with exactly the score and indices the matcher gave it; every matching item appears, with its score and indices, exactly as often as it occurs among the items, and no other result appears |
| `Filter.PartialCmp` | crates/filter/src/lib.rs:39 | `partial_cmp` on `i64` always answers, so the `unwrap` cannot fail; it answers `Less` or `Greater` exactly as the first score is below or above the second |
| `Filter.ByScoreDescending` | crates/filter/src/lib.rs:39 | the sort comparator looks at the two scores only: `Greater` when the first score is lower, `Equal` when they are equal |
| `Filter.ByScoreDescendingIsTotalOrder` | crates/filter/src/lib.rs:39 | the score comparator meets what a Rust sort requires of a comparator |
| `Filter.SyncRun` | crates/filter/src/lib.rs:29-42 | with the matcher built once from `algo`, `match_type` and `bonuses`, a source error is returned unchanged with no ranking; otherwise the output is the filtered results reordered, sorted by descending score, no longer than the source, each result is a source item scored by that one matcher, and each matching item appears exactly as often as the source holds it |
| `Filter.RankingContents` | crates/filter/src/lib.rs:37-41 | any permutation of the filtered results sorted by the comparator has non-increasing scores and no more results than the source has items; it holds only results the matcher produced for items of the source, and each matching item exactly as often as the source holds it |
| `Filter.RankingsAgreeOnScores` | crates/filter/src/lib.rs:39 | two rankings of the same results have the same length and the same score at every position; only the order among ties may differ |
| `Filter.TieOrderUnconstrained` | crates/filter/src/lib.rs:39 | two results of equal score are a valid ranking in either order |
| `Filer.DisplayPath.Label` | crates/stdio_server/src/session/providers/filer.rs:41-49 | a directory shows as its file name followed by the separator; anything else shows as exactly its file name |
| `Filer.DisplayPath.Fmt` | crates/stdio_server/src/session/providers/filer.rs:39-57 | with icons disabled the display string is the label; with icons enabled it is the icon function applied to the path and the already suffixed label |
| `Filer.ParseLabel` | crates/stdio_server/src/session/providers/filer.rs:41-49 | a label is read back as a directory exactly when it ends with the separator |
| `Filer.ParseLabelInverts` | crates/stdio_server/src/session/providers/filer.rs:41-49 | since a file name holds no separator, the undecorated label gives back the file name and whether the entry is a directory |
| `Filer.LexCmp` | crates/stdio_server/src/session/providers/filer.rs:75 | the string order answers `Equal` exactly for equal strings |
| `Filer.LexCmpAntisymmetric` | crates/stdio_server/src/session/providers/filer.rs:75 | `a` compares `Greater` than `b` exactly when `b` compares `Less` than `a` |
| `Filer.LexCmpTransitive` | crates/stdio_server/src/session/providers/filer.rs:75 | "not greater" in the string order is transitive |
| `Filer.LexCmpIsTotalOrder` | crates/stdio_server/src/session/providers/filer.rs:75 | the string order meets what a Rust sort requires of a comparator |
| `Filer.Consumed` | crates/stdio_server/src/session/providers/filer.rs:67-73 | `take(m)` keeps the first `min(m, n)` entries; with no maximum every entry is kept |
| `Filer.Pulled` | crates/stdio_server/src/session/providers/filer.rs:64-72 | `collect` pulls through the lazy `map` every entry up to and including the first read error, and all entries when there is none |
| `Filer.Formatted` | crates/stdio_server/src/session/providers/filer.rs:64-65 | exactly the pulled entries are formatted: a read entry becomes its display string, and the read error that stops `collect` is kept in place |
| `Filer.ReadDirEntries` | crates/stdio_server/src/session/providers/filer.rs:59-78 | the result is the error of opening the directory, else the first read error among the consumed entries, else their display strings sorted lexicographically as a permutation; with a maximum `m` it holds at most `m` strings |
| `Filer.ListingIsUnique` | crates/stdio_server/src/session/providers/filer.rs:75 | the listing is determined by the directory, the icon flag and the maximum |
| `Filer.ListingIsSortedNames` | crates/stdio_server/src/session/providers/filer.rs:75 | a successful listing equals any lexicographically sorted arrangement of the consumed entries' display strings |
| `Filer.ListingSize` | crates/stdio_server/src/session/providers/filer.rs:67-73 | a successful listing holds one string per consumed entry: all entries with no maximum, otherwise `min(m, n)` |
| `Filer.ListingFailsOnConsumedError` | crates/stdio_server/src/session/providers/filer.rs:64-73 | the listing fails exactly when some consumed entry could not be read; an error beyond the first `m` entries does not matter |
| `Filer.FormattedPermutation` | crates/stdio_server/src/session/providers/filer.rs:64-65 | formatting error-free entries that are permutations of each other gives strings that are permutations of each other |
| `Filer.ErrorStopsFormatting` | crates/stdio_server/src/session/providers/filer.rs:64-72 | an unreadable entry followed by an entry with no UTF-8 name is accepted, and lists as exactly that read error: the nameless entry is never formatted |
| `Filer.ListingIgnoresEnumerationOrder` | crates/stdio_server/src/session/providers/filer.rs:64-75 | with no maximum and no read error, every enumeration order of the same entries gives the same listing |
| `Filer.ListsCargoTomlAndSrc` | crates/stdio_server/src/session/providers/filer.rs:160-175 | a directory with the file `Cargo.toml` and the directory `src` lists as exactly `["Cargo.toml", "src/"]` with icons off, in either enumeration order |
| `Filer.FilerResponse` | crates/stdio_server/src/session/providers/filer.rs:138-151 | a listing gives a `result` with the entries, `dir == cwd` and `total == len(entries)`; an error gives an `error` with its message and `dir == cwd`, and never a result |
| `Filer.HandleFilerMessage` | crates/stdio_server/src/session/providers/filer.rs:134-154 | the response answers the message's id as provider `filer` with `dir == cwd`; a result carries the complete sorted listing of `cwd` and its length as `total`; an error carries the listing's error message |
| `Filer.PreviewSize` | crates/stdio_server/src/session/providers/filer.rs:92-95 | the preview size is the larger of the provider default and half the window height, rounded down |

## Left out

- Rayon's parallel sort is modelled as a sequential insertion sort. Only its result matters here.
- The matcher's scoring is a function parameter `scorer`. `Algo`, `MatchType` and `Bonus` are opaque types. The matcher crate is not part of this model.
- `NewWithBonuses` only records `algo`, `match_type` and `bonuses`. How `Matcher::new_with_bonuses` builds the matcher is not part of this model.
- `Source::filter` internals, the `Source` variants, and `dyn_run` with subprocess sources are not part of this model. A source is a sequence of items, each of which may instead be a read error.
- `Filter.Source.Filter`: the model assumes `Source::filter` fails with the error of the first unreadable item and keeps no items read before it. The code of `Source::filter` is not part of this model, so that behaviour is an assumption, not a promise of the source.
- `fs::read_dir`, `DirEntry::path`, `Path::is_dir` and `Path::file_name` are file-system I/O. A directory is an input value: opening may fail, and each entry is its path, its file name and its directory flag, or a read error.
- `ReadDirEntries`: the source panics at `unwrap` when a path has no UTF-8 final component. `collect` pulls entries lazily and stops at the first read error, so only the entries before that error reach the `unwrap`. The model requires a file name of exactly those entries among the first `max` (all entries when no maximum is given). It does not model the panic itself.
- `prepend_filer_icon` and the icon crate are a function parameter.
- `crate::env::global().enable_icon` is a parameter.
- `std::path::MAIN_SEPARATOR` is fixed to `/`, the Unix value. On Windows it is `\`.
- `write_response`, `json!`, serde and the `debug!` log line are output plumbing. The response is a datatype, and `HandleFilerMessage` returns it instead of writing it.
- `FilerMessageHandler::handle`'s dispatch and its OnMove branch are not modelled, apart from the preview size. That covers `get_curline`, `build_abs_path`, `OnMoveHandler::handle` and the error response it writes. Those parts are not part of this model.
- `PreviewSize`: `get_preview_size()` and the type of `preview_winheight` are not part of this model. The default is a parameter, and the height is taken as a natural number.
- `FilerSession::spawn`, the session event loop and the crossbeam channels are concurrency and session plumbing.
- Match indices are `usize` in the source and `nat` here. Scores keep the `i64` range.
