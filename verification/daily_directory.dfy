/** `DailyDirectory`: one dated directory under a parent path. It names its
    canonical path (parent joined with the rendered date), decides whether it
    is old, is found by scanning a parent directory, and creates, links,
    moves and removes its directory on the filesystem.

    The date format is the renderer of `DirName`; "today" is a parameter
    instead of the local clock; each operation returns its outcome together
    with the filesystem it leaves behind. */
module DailyDirectories {
  import opened Results
  import opened Dates
  import opened DirName
  import opened FileSystem

  /** Rust's `u32`, the type of the day thresholds. */
  type U32 = n: int | 0 <= n < 0x1_0000_0000

  datatype DailyDirectory = DailyDirectory(parent: Path, date: NaiveDate)

  /** What an operation reports, and the filesystem after it. Effects of
      the steps that ran before a failure stay in `fs`. */
  datatype Effect = Effect(status: Result<(), IoError>, fs: Tree)

  /** `direcory_of_today`, with the local date passed in. */
  function DirectoryOfToday(parent: Path, today: NaiveDate): DailyDirectory {
    DailyDirectory(parent, today)
  }

  // ---------------------------------------------------------------------
  // Paths

  /** `create_dir_path`: the parent joined with the rendered date. Its last
      name parses back to the date and nothing else. */
  function DirPath(dd: DailyDirectory): (p: Path)
    ensures |p| == |dd.parent| + 1 && Parent(p) == dd.parent
    ensures forall d: NaiveDate :: Parse(Last(p)) == Some(d) <==> d == dd.date
  {
    var p := dd.parent + [Render(dd.date)];
    assert Parent(p) == dd.parent;
    forall d: NaiveDate
      ensures Parse(Last(p)) == Some(d) <==> d == dd.date
    {
      ParseIffRender(Last(p), d);
      RenderInjective(d, dd.date);
    }
    p
  }

  /** `create_previous_date_dir_path`: the path the day before would have
      under the same parent; `None` only at the first representable date. */
  function PreviousDirPath(dd: DailyDirectory): (r: Option<Path>)
    ensures r.None? <==> dd.date == MinDate
    ensures r.Some? ==> |r.value| == |dd.parent| + 1 && Parent(r.value) == dd.parent
    ensures r.Some? ==> exists d: NaiveDate ::
      Parse(Last(r.value)) == Some(d) && DayNumber(d) == DayNumber(dd.date) - 1
    ensures r.Some? ==> r.value != DirPath(dd)
  {
    match Pred(dd.date)
    case None => None
    case Some(prev) =>
      var p := DirPath(DailyDirectory(dd.parent, prev));
      assert Parse(Last(p)) == Some(prev);
      Some(p)
  }

  /** The name of the link to the previous day's directory inside `dd`. */
  function PreviousLinkPath(dd: DailyDirectory, previousLinkName: Name): Path {
    DirPath(dd) + [previousLinkName]
  }

  // ---------------------------------------------------------------------
  // Age

  /** `is_old`: a threshold of 0 never holds; otherwise the directory is old
      once at least `daysToOld` calendar days separate its date from today. */
  function IsOld(dd: DailyDirectory, today: NaiveDate, daysToOld: U32): bool {
    if daysToOld == 0 then false
    else ElapsedDays(today, dd.date) >= daysToOld
  }

  // ---------------------------------------------------------------------
  // Scanning a parent directory

  /** The name of a directory entry; names that are not valid Unicode cannot
      be turned into a `String`. */
  datatype EntryName = Unicode(text: string) | NonUnicode

  /** A `DirEntry`: its name and what `metadata()` reports, without
      following links. */
  datatype DirEntry = DirEntry(name: EntryName, metadata: Result<Node, IoError>)

  /** `from_dir_entry`: a daily directory for an entry that is a directory
      whose name parses as a date; `None` for everything else. The result
      lives under the scanned directory at exactly the entry's path. */
  function FromDirEntry(dir: Path, e: DirEntry): (r: Option<DailyDirectory>)
    ensures r.Some? <==> e.metadata == Ok(Dir) && e.name.Unicode? && Parse(e.name.text).Some?
    ensures r.Some? ==> r.value.parent == dir && DirPath(r.value) == dir + [e.name.text]
  {
    if e.metadata != Ok(Dir) then None
    else match e.name
      case NonUnicode => None
      case Unicode(s) =>
        match Parse(s)
        case None => None
        case Some(d) =>
          RenderParse(s, d);
          Some(DailyDirectory(dir, d))
  }

  /** The daily directories among `entries`, in listing order. */
  function DailyEntries(dir: Path, entries: seq<DirEntry>): seq<DailyDirectory>
    decreases |entries|
  {
    if |entries| == 0 then []
    else
      var rest := DailyEntries(dir, entries[..|entries| - 1]);
      match FromDirEntry(dir, entries[|entries| - 1])
      case None => rest
      case Some(dd) => rest + [dd]
  }

  /** The first failed item of a `read_dir` iteration, if any. */
  function FirstError(items: seq<Result<DirEntry, IoError>>): (r: Option<nat>)
    ensures r.Some? ==>
      && r.value < |items| && items[r.value].Err?
      && forall j :: 0 <= j < r.value ==> items[j].Ok?
    ensures r.None? ==> forall j :: 0 <= j < |items| ==> items[j].Ok?
    decreases |items|
  {
    if |items| == 0 then None
    else match FirstError(items[..|items| - 1])
      case Some(i) => Some(i)
      case None => if items[|items| - 1].Err? then Some(|items| - 1) else None
  }

  /** The entries of an iteration with no failed item. */
  function Entries(items: seq<Result<DirEntry, IoError>>): (es: seq<DirEntry>)
    requires forall j :: 0 <= j < |items| ==> items[j].Ok?
    ensures |es| == |items| && forall j :: 0 <= j < |items| ==> es[j] == items[j].value
  {
    seq(|items|, j requires 0 <= j < |items| => items[j].value)
  }

  /** `search_daily_directories`: `listing` is what `fs::read_dir(dir)`
      yields. A failure to open the directory, or the first failed item,
      is returned as the error; otherwise the daily directories in listing
      order. */
  method SearchDailyDirectories(dir: Path, listing: Result<seq<Result<DirEntry, IoError>>, IoError>)
    returns (r: Result<seq<DailyDirectory>, IoError>)
    ensures listing.Err? ==> r == Err(listing.error)
    ensures listing.Ok? && FirstError(listing.value).Some? ==>
      r == Err(listing.value[FirstError(listing.value).value].error)
    ensures listing.Ok? && FirstError(listing.value).None? ==>
      r == Ok(DailyEntries(dir, Entries(listing.value)))
  {
    if listing.Err? {
      return Err(listing.error);
    }
    var items := listing.value;
    var found: seq<DailyDirectory> := [];
    var i := 0;
    while i < |items|
      invariant 0 <= i <= |items|
      invariant forall j :: 0 <= j < i ==> items[j].Ok?
      invariant found == DailyEntries(dir, Entries(items[..i]))
    {
      if items[i].Err? {
        FailedItem(items, i);
        return Err(items[i].error);
      }
      ScanStep(dir, items, i);
      var daily := FromDirEntry(dir, items[i].value);
      if daily.Some? {
        found := found + [daily.value];
      }
      i := i + 1;
    }
    assert items[..i] == items;
    return Ok(found);
  }

  /** Scanning one more entry appends what that entry yields. */
  lemma ScanStep(dir: Path, items: seq<Result<DirEntry, IoError>>, i: nat)
    requires i < |items| && forall j :: 0 <= j <= i ==> items[j].Ok?
    ensures DailyEntries(dir, Entries(items[..i + 1])) ==
      DailyEntries(dir, Entries(items[..i]))
      + (if FromDirEntry(dir, items[i].value).Some? then [FromDirEntry(dir, items[i].value).value] else [])
  {
    var es := Entries(items[..i + 1]);
    assert es[..i] == Entries(items[..i]);
    assert es[i] == items[i].value;
  }

  /** The first failed item, when every earlier one succeeded, is the first
      failure of the whole iteration. */
  lemma FailedItem(items: seq<Result<DirEntry, IoError>>, i: nat)
    requires i < |items| && items[i].Err? && forall j :: 0 <= j < i ==> items[j].Ok?
    ensures FirstError(items) == Some(i)
  {
    assert items[..i + 1][..i] == items[..i];
    assert FirstError(items[..i + 1]) == Some(i);
    FirstErrorPrefix(items, i + 1);
  }

  /** The first failure of a prefix that has one is the first failure of
      the whole iteration. */
  lemma {:induction false} FirstErrorPrefix(items: seq<Result<DirEntry, IoError>>, n: nat)
    requires n <= |items| && FirstError(items[..n]).Some?
    ensures FirstError(items) == FirstError(items[..n])
    decreases |items| - n
  {
    if n < |items| {
      assert items[..n + 1][..n] == items[..n];
      FirstErrorPrefix(items, n + 1);
    } else {
      assert items[..n] == items;
    }
  }

  // ---------------------------------------------------------------------
  // Filesystem operations

  /** `create`: nothing to do when the directory already resolves.
      Otherwise create it (with missing ancestors), copy the template's
      contents into it, and, when the previous day's directory resolves,
      add a link to it named `previousLinkName`. The first failing step ends
      the operation; what earlier steps did stays. */
  function Create(fs: Tree, dd: DailyDirectory, template: Path, previousLinkName: Name, faults: Faults): Effect {
    if Exists(fs, DirPath(dd)) then Effect(Ok(()), fs)
    else match Attempt(CreateDirAllCall, faults, CreateDirAll(fs, DirPath(dd)))
      case Err(e) => Effect(Err(e), fs)
      case Ok(fs1) => CopyTemplate(fs1, dd, template, previousLinkName, faults)
  }

  /** The template-copy step of `Create` and the steps after it. */
  function CopyTemplate(fs: Tree, dd: DailyDirectory, template: Path, previousLinkName: Name, faults: Faults): Effect {
    match Attempt(CopyDirCall, faults, CopyDirContents(fs, template, DirPath(dd)))
    case Err(e) => Effect(Err(e), fs)
    case Ok(fs1) => LinkPrevious(fs1, dd, previousLinkName, faults)
  }

  /** The last step of `Create`: link to the previous day's directory when
      it resolves. */
  function LinkPrevious(fs: Tree, dd: DailyDirectory, previousLinkName: Name, faults: Faults): Effect {
    match PreviousDirPath(dd)
    case None => Effect(Ok(()), fs)
    case Some(previous) =>
      if !Exists(fs, previous) then Effect(Ok(()), fs)
      else LinkTo(fs, previous, PreviousLinkPath(dd, previousLinkName), faults)
  }

  /** `create_junction`: the link path is `relative` under the parent. If it
      resolves it is removed first (a failure there ends the operation);
      then a link to the canonical path is created there. A dangling link
      does not resolve, so it is not removed. */
  function CreateJunction(fs: Tree, dd: DailyDirectory, relative: Path, faults: Faults): Effect {
    var link := dd.parent + relative;
    if Exists(fs, link) then
      match Attempt(RemoveDirCall, faults, RemoveDir(fs, link))
      case Err(e) => Effect(Err(e), fs)
      case Ok(fs1) => LinkTo(fs1, DirPath(dd), link, faults)
    else LinkTo(fs, DirPath(dd), link, faults)
  }

  /** `create_junction` as its comment intends it: whatever entry sits at
      the link path, a dangling link included, is removed before the new
      link is created. */
  function CreateJunctionReplacing(fs: Tree, dd: DailyDirectory, relative: Path, faults: Faults): Effect {
    var link := dd.parent + relative;
    if link in fs then
      match Attempt(RemoveDirCall, faults, RemoveDir(fs, link))
      case Err(e) => Effect(Err(e), fs)
      case Ok(fs1) => LinkTo(fs1, DirPath(dd), link, faults)
    else LinkTo(fs, DirPath(dd), link, faults)
  }

  /** The final `junction::create` step of `CreateJunction`. */
  function LinkTo(fs: Tree, target: Path, link: Path, faults: Faults): Effect {
    match Attempt(CreateJunctionCall, faults, JunctionCreate(fs, target, link))
    case Err(e) => Effect(Err(e), fs)
    case Ok(fs1) => Effect(Ok(()), fs1)
  }

  /** `move_to`: renames the canonical directory to the same name under
      `newParent`. */
  function MoveTo(fs: Tree, dd: DailyDirectory, newParent: Path, faults: Faults): Effect {
    var src := DirPath(dd);
    var dst := DirPath(DailyDirectory(newParent, dd.date));
    match Attempt(RenameCall, faults, Rename(fs, src, dst))
    case Err(e) => Effect(Err(e), fs)
    case Ok(fs1) => Effect(Ok(()), fs1)
  }

  /** `remove`: deletes the canonical directory and everything below it. */
  function Remove(fs: Tree, dd: DailyDirectory, faults: Faults): Effect {
    match Attempt(RemoveDirAllCall, faults, RemoveDirAll(fs, DirPath(dd)))
    case Err(e) => Effect(Err(e), fs)
    case Ok(fs1) => Effect(Ok(()), fs1)
  }
}
