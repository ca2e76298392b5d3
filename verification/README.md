# golden-dawn daily directories in Dafny

golden-dawn keeps one directory per calendar day under a parent directory.
Each directory is named after its date (`YYYY-MM-DD`). The `DailyDirectory`
type names that directory and decides whether it is old. It finds the
daily directories in a parent by scanning it. It creates a directory from a
template, with a link to the previous day's directory. It points a link such
as `current` at a day's directory, and it moves or removes the directory.

This project models that core:

- `results.dfy`: `Option` and `Result`.
- `dates.dfy`: the proleptic Gregorian date that chrono's `NaiveDate` stores,
  with chrono's year range. It gives a day ordinal (`DayNumber`), so elapsed
  days are a difference of ordinals. `Pred` is `checked_sub_days(1)`.
- `decimal.dfy`: the decimal text Rust prints for an `i32`, and its exact
  inverse.
- `dir_name.dfy`: `get_dir_name_of`, the directory name of a date, and a
  parser that is its exact partial inverse.
- `filesystem.dfy`: the filesystem as a map from paths (sequences of names)
  to nodes (directory, file, or link to a path). It also models the library
  calls the core makes: `create_dir_all`, `fs_extra::dir::copy` with
  `content_only`, `junction::create`, `remove_dir`, `rename` and
  `remove_dir_all`. Each call fails on the state it finds. Where the
  model is stricter than the library, "## Left out" says so. Each call can
  also fail for an outside reason, named in a `faults` set.
- `daily_directory.dfy`: `DailyDirectory` and its operations. Each operation
  returns an `Effect`: its status and the filesystem after it.
- `daily_directory_properties.dfy`: what the operations guarantee.

Two inputs of the original are parameters here. The local date
(`Local::now()`) is passed in as `today`. A `read_dir` listing is passed to
the scan as a sequence of entries. A path "exists" when it resolves to an
entry, following at most 63 links at its last name, as `Path::exists` does.
A dangling link therefore does not exist. The link calls are the Windows
ones, because the `junction` crate is Windows-only. On Windows `remove_dir`
removes a junction.

## Model

| member | source | states |
|---|---|---|
| `Dates.Pred` | src/daily_directory.rs:123 | The day before a date is absent only at the earliest representable date; otherwise its day ordinal is one less. |
| `Decimal.IntRoundTrip` | src/lib.rs:18 | Parsing the year as printed by `{}` gives the year back. |
| `Decimal.StringRoundTrip` | src/lib.rs:18 | Any year text that parses is exactly what `{}` prints for that year. No leading zeros, no `-0`. |
| `DirName.RenderShape` | src/lib.rs:18 | A directory name ends in `-MM-DD` with two zero-padded digits for month and day. What comes before is the printed year. |
| `DirName.ParseRender` | src/lib.rs:17-19 | Parsing a rendered name recovers the date. |
| `DirName.RenderParse` | src/lib.rs:17-19 | Every name that parses is the rendering of the date it parses to. |
| `DirName.ParseIffRender` | src/lib.rs:17-19 | A name parses to a date exactly when it is that date's rendering. |
| `DirName.RenderInjective` | src/lib.rs:17-19 | Distinct dates get distinct directory names. |
| `DirName.RenderExample` | src/lib.rs:30-34 | 1900-01-02 is a valid date and renders as `"1900-01-02"`. |
| `DirName.RenderIsFullDate` | src/lib.rs:17-19 | For years 1000 to 9999 the name is an RFC 3339 `full-date` (sections 5.6 and 5.7) naming the same year, month and day. |
| `DailyDirectories.DirPath` | src/daily_directory.rs:116-119 | The canonical path is one name below the parent. That last name parses back to the directory's date and to no other date. |
| `DailyDirectories.PreviousDirPath` | src/daily_directory.rs:122-126 | Absent only at the earliest date. Otherwise a sibling of the canonical path whose name parses to the date one day earlier, so it is never the canonical path itself. |
| `DailyDirectoryProperties.PreviousDirPathIsPredecessors` | src/daily_directory.rs:122-126 | The previous-day path is present exactly when the date has a predecessor, and then it is the canonical path of that predecessor under the same parent. |
| `DailyDirectories.FromDirEntry` | src/daily_directory.rs:129-154 | An entry yields a daily directory exactly when its metadata says directory, its name is Unicode and the name parses as a date. The result sits under the scanned directory at the entry's own path. |
| `FileSystem.Exists` | src/daily_directory.rs:95 | No contract of its own: the path resolves within 63 links at its last name, so a dangling link does not exist. `DanglingLinkIsNotReplaced` uses it. |
| `DailyDirectories.SearchDailyDirectories` | src/daily_directory.rs:32-46 | A failure to open the directory is returned. Otherwise the first failed entry is returned. Otherwise the result is the daily directories of the entries, in listing order. |
| `DailyDirectories.DirectoryOfToday` | src/daily_directory.rs:21-30 | No contract of its own: the daily directory of the `today` parameter under the given parent. |
| `DailyDirectories.IsOld` | src/daily_directory.rs:49-56 | No contract of its own. `IsOldMeaning`, `FutureIsNeverOld`, `OldStaysOld` and `IsOldExamples` describe it. |
| `DirName.Render` | src/lib.rs:17-19 | No contract of its own. `RenderShape`, `ParseIffRender`, `RenderInjective`, `RenderExample` and `RenderIsFullDate` describe it. |
| `DirName.Parse` | src/daily_directory.rs:145 | No contract of its own. It stands for `parse_from_str` with the rendered format; `ParseRender`, `RenderParse` and `ParseIffRender` make it the exact inverse of `Render`. |
| `DailyDirectories.Create` | src/daily_directory.rs:59-85 | No contract of its own. `CreateIsIdempotent`, `CreateFreshLinksPrevious`, `CreateFreshWithoutPrevious`, `CreateFailureKeepsEarlierSteps` and `CreateWithoutTemplate` describe it. |
| `DailyDirectories.CreateJunction` | src/daily_directory.rs:88-100 | No contract of its own. `CreateJunctionSuccess`, `CreateJunctionFailure`, `CreateJunctionPreservesTree`, `DanglingLinkIsNotReplaced` and `DanglingLinkExample` describe it. |
| `DailyDirectories.CreateJunctionReplacing` | src/daily_directory.rs:94-99 | No contract of its own: the corrected `create_junction` of the finding below. `ReplacingOverwritesLink` and `ReplacingAgreesUnlessDangling` describe it. |
| `DailyDirectories.MoveTo` | src/daily_directory.rs:103-108 | No contract of its own. `MoveToOutcome` and `MoveToEffect` describe it. |
| `DailyDirectories.Remove` | src/daily_directory.rs:111-113 | No contract of its own. `RemoveEffect` describes it. |
| `DailyDirectoryProperties.IsOldMeaning` | src/daily_directory.rs:49-56 | `is_old` against a day-by-day count. A threshold of 0 is never old. Otherwise a directory is old exactly when stepping back `n` single days from today lands on or after its date. |
| `DailyDirectoryProperties.FutureIsNeverOld` | src/daily_directory.rs:49-56 | A date after today is never old. |
| `DailyDirectoryProperties.OldStaysOld` | src/daily_directory.rs:49-56 | An old directory stays old as today advances. It is also old for every smaller non-zero threshold. |
| `DailyDirectoryProperties.IsOldExamples` | src/daily_directory.rs:54-55 | The threshold is inclusive: exactly `n` days back is old and `n - 1` days back is not. One pair spans 29 February 2024: with today 2024-03-01 and `n` = 30, 2024-01-31 is old and 2024-02-01 is not. |
| `DailyDirectoryProperties.DirPathInjective` | src/daily_directory.rs:116-119 | Two daily directories share a canonical path exactly when they have the same parent and date. |
| `DailyDirectoryProperties.DailyEntriesMembers` | src/daily_directory.rs:38-44 | A daily directory is in the scan result exactly when some entry of the listing yields it. |
| `DailyDirectoryProperties.DailyEntriesAppend` | src/daily_directory.rs:36-45 | The scan keeps listing order: scanning two listings in a row gives the first result followed by the second. |
| `DailyDirectoryProperties.ScanFindsDatedChildren` | src/daily_directory.rs:135-152 | Over a faithful listing, the paths found are exactly the child directories whose names parse as dates. Files, links and other names are left out. |
| `DailyDirectoryProperties.CreateIsIdempotent` | src/daily_directory.rs:64-67 | If the directory already resolves, `create` succeeds and changes nothing. After a successful `create`, a second one succeeds and changes nothing. |
| `DailyDirectoryProperties.CreateFreshLinksPrevious` | src/daily_directory.rs:59-85 | A fresh successful `create` when the previous day's directory resolves: a link to it named `previous_dir_junction_name`, plus exactly a copy of the template's contents, and no existing entry changed. The tree stays a tree. |
| `DailyDirectoryProperties.CreateFreshWithoutPrevious` | src/daily_directory.rs:59-85 | A fresh successful `create` when there is no previous day's directory: exactly a copy of the template's contents and no link. The link name is taken only if the template has that entry. |
| `DailyDirectoryProperties.LinkPreviousEffect` | src/daily_directory.rs:77-82 | The link step adds one link to the previous day's directory when that directory resolves. Otherwise it changes nothing. |
| `DailyDirectoryProperties.LinkPreviousFailure` | src/daily_directory.rs:77-81 | The link step fails only when the previous day's directory resolves, and a failure changes nothing. |
| `DailyDirectoryProperties.CreateFailureKeepsEarlierSteps` | src/daily_directory.rs:68-80 | A failing `create` stops at the failing step. Either nothing changed, or the directory exists and is empty, or it holds the template's contents and no link. |
| `DailyDirectoryProperties.CreateWithoutTemplate` | src/daily_directory.rs:68-74 | When the template path is missing or is a file, `create` fails at the copy after making the directory. The new directory stays behind, empty, and nothing else was added. Without an outside failure the error is "not found" or "invalid input". |
| `DailyDirectoryProperties.CreateJunctionSuccess` | src/daily_directory.rs:88-100 | On success the link path holds a link to the canonical path and resolves to it when that is a directory. No other entry changed. |
| `DailyDirectoryProperties.CreateJunctionFailure` | src/daily_directory.rs:94-99 | On failure, either nothing changed or only the old entry was removed. If the old entry cannot be removed, no link is made. |
| `DailyDirectoryProperties.CreateJunctionPreservesTree` | src/daily_directory.rs:88-100 | A successful `create_junction` keeps every entry's parent a real directory. |
| `DailyDirectoryProperties.DanglingLinkIsNotReplaced` | src/daily_directory.rs:94-99 | A dangling link at the link path is not removed. Creating the new link then fails, and the stale link stays. |
| `DailyDirectoryProperties.DanglingLinkExample` | src/daily_directory.rs:92-99 | Concrete case: `current` points to a deleted directory. The code as written fails with "already exists"; the replacing version links `current` to the new directory. |
| `DailyDirectoryProperties.ReplacingOverwritesLink` | src/daily_directory.rs:94-97 | The corrected version replaces any link at the link path, dangling or not, with a link to the canonical path. Nothing else changes. |
| `DailyDirectoryProperties.ReplacingAgreesUnlessDangling` | src/daily_directory.rs:94-99 | The corrected version behaves as written whenever the link path is empty or resolves. |
| `DailyDirectoryProperties.MoveToOutcome` | src/daily_directory.rs:103-108 | The destination keeps the directory's name. The move succeeds exactly when the directory is there and either stays put or its new place is free, not inside itself, and inside an existing directory. On failure nothing changed. |
| `DailyDirectoryProperties.MoveToEffect` | src/daily_directory.rs:103-108 | After a successful move to a new parent, the whole subtree is at the new place and nothing is left at the old one. Nothing else changed, and the tree stays a tree. |
| `DailyDirectoryProperties.RemoveEffect` | src/daily_directory.rs:111-113 | `remove` succeeds exactly when a directory or link is at the canonical path. Then it and everything below it are gone and nothing else changed; on failure nothing changed. |
| `FileSystem.CreateDirAll` | src/daily_directory.rs:68 | `create_dir_all` makes the path a directory, adding only it and its missing ancestors as directories. The tree stays a tree. |
| `FileSystem.CopyDirContentsEffect` | src/daily_directory.rs:71-74 | A content-only copy adds a copy of everything below the source below the destination and changes no existing entry. |
| `FileSystem.CopyDirContents` | src/daily_directory.rs:71-74 | No contract of its own. `CopyDirContentsEffect` and `CopyDirContentsPreservesTree` describe it. |
| `FileSystem.JunctionCreate` | src/daily_directory.rs:80 | No contract of its own: fails when the link path is taken or its parent is not a directory, else adds the link. `JunctionCreatePreservesTree` describes it. |
| `FileSystem.RemoveDir` | src/daily_directory.rs:96 | No contract of its own: removes a link or an empty directory, else fails. `RemoveDirPreservesTree` describes it. |
| `FileSystem.Rename` | src/daily_directory.rs:107 | No contract of its own. `RenameMovesSubtree`, `RenameClearsSource` and `RenamePreservesTree` describe it. |
| `FileSystem.RemoveDirAll` | src/daily_directory.rs:112 | No contract of its own. `RemoveDirAllPreservesTree` describes it. |
| `FileSystem.RenameMovesSubtree` | src/daily_directory.rs:107 | `rename` puts every entry below the source at the same relative place below the destination. |
| `FileSystem.RenameClearsSource` | src/daily_directory.rs:107 | `rename` leaves nothing below the source and changes nothing outside both ends. |
| `FileSystem.RenamePreservesTree` | src/daily_directory.rs:107 | `rename` keeps every entry's parent a real directory. |
| `FileSystem.RemoveDirAllPreservesTree` | src/daily_directory.rs:112 | `remove_dir_all` keeps every entry's parent a real directory. |

## Left out

- The clock: `direcory_of_today` and `is_old` read the local date. Here the date is the `today` parameter.
- The date format: the format string is fixed to the one `get_dir_name_of` renders. The parser accepts exactly the rendered names. chrono's `parse_from_str` is more lenient (for example, single-digit months), and those extra names are not modelled.
- `main` in `src/lib.rs` and the rest of the program (`main.rs`, `config.rs`, `util.rs`) are not part of this model. `main` only prints today's name, `config.rs` loads settings and `util.rs` holds helpers. The model covers each operation on its own. A run that chains them (create today's directory, link `current`, archive and remove old ones) is not modelled.
- Each filesystem call either fails without effect or succeeds completely. A copy that fails half-way, leaving some files behind, is not modelled.
- Links are followed only at the last name of a path, up to 63 times. A link in the middle of a path is not followed.
- Links inside the template are copied as links. `fs_extra` follows them and copies what they point to.
- `rename` onto an existing empty directory fails here with "already exists". Platforms differ on this, and the model does not replace the directory.
- Overflow: the chrono date range and the `u32` threshold keep `num_days` far from the `i64` limits, so no wrap-around is modelled.
- Names compare exactly. NTFS compares names without regard to case, so a template entry `Prev` and a link name `prev` collide there, and `junction::create` at line 80 fails. The model treats them as different names.
- `Path::join` replaces the base when its argument is absolute (lines 79 and 92). The model always appends the link path to the parent, so an absolute `junction_path_from_parent` is not modelled.
- DailyDirectoryProperties.CreateFreshLinksPrevious: requires that the new directory does not lie inside the template, so the template is not the parent directory or an ancestor of it. The source accepts that setup; the copy then also sees the new directory. It also compares names exactly (see above), so a template entry that differs from the link name only in case is not treated as a collision.
- FileSystem.CopyDirContents: fails with "already exists" on any entry of the source that is already present under the destination, and with "not found" on a missing destination. `fs_extra` merges into an existing subdirectory and creates a missing destination. `create` always copies into the directory it has just made, fresh and empty, so it never reaches either case.
- DailyDirectoryProperties.CreateFreshWithoutPrevious: requires that the new directory does not lie inside the template, as for `CreateFreshLinksPrevious`.
- DailyDirectoryProperties.CreateFreshWithoutPrevious: covers only the case where nothing is at the previous day's path. A dangling link there that comes to resolve during `create` is not covered.
- DailyDirectoryProperties.CreateFailureKeepsEarlierSteps: requires that the template is a directory and that the new directory does not lie inside it. A missing template or a template that is a file is covered by `CreateWithoutTemplate`. A template containing the new directory is not covered.
- DailyDirectories.FromDirEntry: the found directory sits at the entry's own path only because the parser accepts exactly the rendered names. chrono's parser also accepts, for example, `2024-3-5`. Such an entry yields a directory whose canonical path is the sibling `2024-03-05`, so `move_to` and `remove` would act on that other path or fail with "not found". The model does not cover that case.
- DailyDirectoryProperties.ScanFindsDatedChildren: relies on the same exact parser. Under chrono's lenient parse, a child such as `2024-3-5` is found, but its canonical path is not the child's path.
- DailyDirectoryProperties.ScanFindsDatedChildren: states the result up to the listing being faithful. Entries whose names are not Unicode are skipped without being related to the tree.

## Findings

| source | as written | input that shows it | evidently intended | confidence | as-written member | corrected member |
|---|---|---|---|---|---|---|
| src/daily_directory.rs:94-99 | The old link is removed only when `exists()` holds, and `exists()` follows the link. | `current` is a junction to a directory that has since been removed or archived. It is not removed, and `junction::create` then fails because the path is taken. Every later run fails the same way. | Remove whatever entry is at the link path, dangling links included, before creating the new link. | medium; not executed | `DailyDirectoryProperties.DanglingLinkExample` (about `DailyDirectories.CreateJunction`) | `DailyDirectories.CreateJunctionReplacing`, with `DailyDirectoryProperties.ReplacingOverwritesLink` |
