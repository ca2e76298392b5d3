/** What the daily-directory policy guarantees: the age rule against an
    independent day-by-day count, the scan filter against the tree it lists,
    and the effect of each filesystem operation on the tree. */
module DailyDirectoryProperties {
  import opened Results
  import opened Dates
  import opened DirName
  import opened FileSystem
  import opened DailyDirectories

  // ---------------------------------------------------------------------
  // Age

  /** `is_old` counted by hand: with a non-zero threshold `n`, a directory
      is old exactly when stepping back `n` single days from today lands on
      or after its date. A threshold of 0 never makes anything old. */
  lemma IsOldMeaning(dd: DailyDirectory, today: NaiveDate, n: U32)
    ensures IsOld(dd, today, n) <==>
      n > 0 && PredN(today, n).Some? && !Before(PredN(today, n).value, dd.date)
  {
    PredNDayNumber(today, n);
    DayNumberOrder(dd.date, MinDate);
    if PredN(today, n).Some? {
      DayNumberOrder(PredN(today, n).value, dd.date);
    }
  }

  /** A date later than today is never old, whatever the threshold. */
  lemma FutureIsNeverOld(dd: DailyDirectory, today: NaiveDate, n: U32)
    requires Before(today, dd.date)
    ensures !IsOld(dd, today, n)
  {
    DayNumberOrder(today, dd.date);
  }

  /** Once old, a directory stays old as today advances, and it is old for
      every smaller non-zero threshold too. */
  lemma OldStaysOld(dd: DailyDirectory, today: NaiveDate, later: NaiveDate, n: U32, m: U32)
    requires IsOld(dd, today, n)
    requires !Before(later, today)
    requires 0 < m <= n
    ensures IsOld(dd, later, n)
    ensures IsOld(dd, today, m)
  {
    DayNumberOrder(later, today);
  }

  /** The threshold is inclusive: with today 2024-03-15 and a threshold of
      7 days, 2024-03-08 is old and 2024-03-09 is not; with a threshold of
      30 days, 2024-01-01 is old and 2024-03-01 is not. Across the leap day,
      with today 2024-03-01 and 30 days, 2024-01-31 is old and 2024-02-01 is
      not. */
  lemma IsOldExamples(parent: Path)
    ensures var today := Date(2024, 3, 15);
      && IsOld(DailyDirectory(parent, Date(2024, 3, 8)), today, 7)
      && !IsOld(DailyDirectory(parent, Date(2024, 3, 9)), today, 7)
      && IsOld(DailyDirectory(parent, Date(2024, 1, 1)), today, 30)
      && !IsOld(DailyDirectory(parent, Date(2024, 3, 1)), today, 30)
    ensures var today := Date(2024, 3, 1);
      && IsOld(DailyDirectory(parent, Date(2024, 1, 31)), today, 30)
      && !IsOld(DailyDirectory(parent, Date(2024, 2, 1)), today, 30)
  {
    assert IsLeapYear(2024);
  }

  // ---------------------------------------------------------------------
  // Paths

  /** Distinct daily directories have distinct canonical paths. */
  lemma DirPathInjective(a: DailyDirectory, b: DailyDirectory)
    ensures DirPath(a) == DirPath(b) <==> a == b
  {
    if DirPath(a) == DirPath(b) {
      assert a.parent == Parent(DirPath(a));
      assert Parse(Last(DirPath(b))) == Some(b.date);
    }
  }

  /** The previous-day path is the canonical path of the previous day under
      the same parent. */
  lemma PreviousDirPathIsPredecessors(dd: DailyDirectory)
    ensures PreviousDirPath(dd).Some? <==> Pred(dd.date).Some?
    ensures Pred(dd.date).Some? ==>
      PreviousDirPath(dd).value == DirPath(DailyDirectory(dd.parent, Pred(dd.date).value))
  {
  }

  // ---------------------------------------------------------------------
  // Scanning

  /** A daily directory is found exactly when some entry of the listing
      yields it. */
  lemma {:induction false} DailyEntriesMembers(dir: Path, es: seq<DirEntry>, dd: DailyDirectory)
    ensures dd in DailyEntries(dir, es) <==>
      exists i :: 0 <= i < |es| && FromDirEntry(dir, es[i]) == Some(dd)
    decreases |es|
  {
    if |es| > 0 {
      var init := es[..|es| - 1];
      DailyEntriesMembers(dir, init, dd);
      if exists i :: 0 <= i < |es| && FromDirEntry(dir, es[i]) == Some(dd) {
        var i :| 0 <= i < |es| && FromDirEntry(dir, es[i]) == Some(dd);
        if i < |es| - 1 {
          assert init[i] == es[i];
        }
      }
      if dd in DailyEntries(dir, init) {
        var i :| 0 <= i < |init| && FromDirEntry(dir, init[i]) == Some(dd);
        assert es[i] == init[i];
      }
    }
  }

  /** Scanning keeps listing order: the result for two listings in a row is
      the result for the first followed by the result for the second. */
  lemma {:induction false} DailyEntriesAppend(dir: Path, a: seq<DirEntry>, b: seq<DirEntry>)
    ensures DailyEntries(dir, a + b) == DailyEntries(dir, a) + DailyEntries(dir, b)
    decreases |b|
  {
    if |b| == 0 {
      assert a + b == a;
    } else {
      var b' := b[..|b| - 1];
      assert (a + b)[..|a + b| - 1] == a + b';
      assert (a + b)[|a + b| - 1] == b[|b| - 1];
      DailyEntriesAppend(dir, a, b');
    }
  }

  /** `listing` is a faithful `read_dir` of `dir` in `fs`: each entry with
      a Unicode name is a child with that entry's node, and every child is
      listed. */
  predicate ListingOf(fs: Tree, dir: Path, es: seq<DirEntry>) {
    && (forall i | 0 <= i < |es| && es[i].name.Unicode? ::
          dir + [es[i].name.text] in fs && es[i].metadata == Ok(fs[dir + [es[i].name.text]]))
    && (forall q | q in fs && |q| == |dir| + 1 && Parent(q) == dir ::
          exists i :: 0 <= i < |es| && es[i].name == Unicode(Last(q)))
  }

  /** A child of `dir` that is a directory, not a link, and whose name parses
      as a date. */
  predicate IsDatedChild(fs: Tree, dir: Path, q: Path) {
    && q in fs && fs[q] == Dir
    && |q| == |dir| + 1 && Parent(q) == dir
    && Parse(Last(q)).Some?
  }

  /** Over a faithful listing, the canonical paths of the directories found
      are exactly the dated child directories: files, links and children
      with other names are left out, and nothing else is found. */
  lemma ScanFindsDatedChildren(fs: Tree, dir: Path, es: seq<DirEntry>, q: Path)
    requires ListingOf(fs, dir, es)
    ensures (exists dd :: dd in DailyEntries(dir, es) && DirPath(dd) == q) <==> IsDatedChild(fs, dir, q)
  {
    if exists dd :: dd in DailyEntries(dir, es) && DirPath(dd) == q {
      var dd :| dd in DailyEntries(dir, es) && DirPath(dd) == q;
      DailyEntriesMembers(dir, es, dd);
      var i :| 0 <= i < |es| && FromDirEntry(dir, es[i]) == Some(dd);
      assert q == dir + [es[i].name.text];
      assert Last(q) == es[i].name.text;
    }
    if IsDatedChild(fs, dir, q) {
      var i :| 0 <= i < |es| && es[i].name == Unicode(Last(q));
      assert q == dir + [Last(q)];
      var dd := FromDirEntry(dir, es[i]).value;
      DailyEntriesMembers(dir, es, dd);
    }
  }

  // ---------------------------------------------------------------------
  // Create

  /** Only `dir` and its missing ancestors were added, as empty directories;
      nothing else changed. */
  predicate OnlyDirectoryAdded(fs: Tree, fs': Tree, dir: Path) {
    && Extends(fs, fs')
    && IsRealDir(fs', dir)
    && forall q | q in fs' && q !in fs :: q <= dir
  }

  /** `dir` holds a copy of everything below `template` (not `template`
      itself), its missing ancestors were added, and nothing else changed. */
  predicate TemplateCopied(fs: Tree, fs': Tree, dir: Path, template: Path) {
    && Extends(fs, fs')
    && IsRealDir(fs', dir)
    && (forall q | q in fs && template < q ::
          Rebase(q, template, dir) in fs' && fs'[Rebase(q, template, dir)] == fs[q])
    && (forall q | q in fs' && q !in fs ::
          || q <= dir
          || (dir < q && Rebase(q, dir, template) in fs && fs'[q] == fs[Rebase(q, dir, template)]))
  }

  /** The directory step of a fresh `create` that got past it. */
  lemma DirectoryStep(fs: Tree, dd: DailyDirectory, fs1: Tree)
    requires WellFormed(fs) && !Exists(fs, DirPath(dd))
    requires CreateDirAll(fs, DirPath(dd)) == Ok(fs1)
    ensures DirPath(dd) !in fs
    ensures WellFormed(fs1) && OnlyDirectoryAdded(fs, fs1, DirPath(dd))
    ensures forall q | q in fs1 :: !(DirPath(dd) < q)
  {
    var d := DirPath(dd);
    assert d !in fs;
    forall q | q in fs1 && d < q
      ensures false
    {
      if q in fs {
        AncestorIsDir(fs, d, q);
      }
    }
  }

  /** The copy step of a fresh `create` that got past it, described against
      the tree before `create` began. */
  lemma CopyStep(fs: Tree, dd: DailyDirectory, template: Path, fs1: Tree, fs2: Tree)
    requires WellFormed(fs) && !Exists(fs, DirPath(dd))
    requires IsDir(fs, template) && !Under(Resolve(fs, template).value, DirPath(dd))
    requires CreateDirAll(fs, DirPath(dd)) == Ok(fs1)
    requires CopyDirContents(fs1, template, DirPath(dd)) == Ok(fs2)
    ensures WellFormed(fs2)
    ensures TemplateCopied(fs, fs2, DirPath(dd), Resolve(fs, template).value)
  {
    var d := DirPath(dd);
    var t := Resolve(fs, template).value;
    DirectoryStep(fs, dd, fs1);
    ResolveExtends(fs, fs1, template, MaxLinkHops);
    assert Resolve(fs1, d) == Some(d);
    CopyDirContentsEffect(fs1, template, d, t, d);
    CopyDirContentsPreservesTree(fs1, template, d);
    forall q | q in fs1 && t < q
      ensures q in fs
    {
      assert q !in fs ==> q <= d;
    }
  }

  /** The steps a successful `create` of a fresh directory went through. */
  lemma CreateSteps(fs: Tree, dd: DailyDirectory, template: Path, name: Name, faults: Faults)
    returns (fs1: Tree, fs2: Tree)
    requires !Exists(fs, DirPath(dd))
    requires Create(fs, dd, template, name, faults).status.Ok?
    ensures CreateDirAll(fs, DirPath(dd)) == Ok(fs1)
    ensures CopyDirContents(fs1, template, DirPath(dd)) == Ok(fs2)
    ensures Create(fs, dd, template, name, faults) == LinkPrevious(fs2, dd, name, faults)
  {
    fs1 := CreateDirAll(fs, DirPath(dd)).value;
    fs2 := CopyDirContents(fs1, template, DirPath(dd)).value;
  }

  /** What the link step adds when it succeeds. */
  lemma LinkPreviousEffect(fs: Tree, dd: DailyDirectory, name: Name, faults: Faults)
    requires LinkPrevious(fs, dd, name, faults).status.Ok?
    ensures var fs' := LinkPrevious(fs, dd, name, faults).fs;
      if PreviousDirPath(dd).Some? && Exists(fs, PreviousDirPath(dd).value) then
        && PreviousLinkPath(dd, name) !in fs
        && JunctionCreate(fs, PreviousDirPath(dd).value, PreviousLinkPath(dd, name)).Ok?
        && fs' == fs[PreviousLinkPath(dd, name) := Link(PreviousDirPath(dd).value)]
      else fs' == fs
  {
  }

  /** A successful `create` of a fresh directory when the previous day's
      directory resolves: the new directory holds a link to it named `name`
      and, besides that link, exactly a copy of the template's contents; no
      existing entry changes and the tree stays a tree. */
  lemma CreateFreshLinksPrevious(fs: Tree, dd: DailyDirectory, template: Path, name: Name, faults: Faults)
    requires WellFormed(fs) && !Exists(fs, DirPath(dd))
    requires IsDir(fs, template) && !Under(Resolve(fs, template).value, DirPath(dd))
    requires PreviousDirPath(dd).Some? && Exists(fs, PreviousDirPath(dd).value)
    requires Create(fs, dd, template, name, faults).status.Ok?
    ensures var fs' := Create(fs, dd, template, name, faults).fs;
      var link := PreviousLinkPath(dd, name);
      && WellFormed(fs')
      && link in fs' && fs'[link] == Link(PreviousDirPath(dd).value)
      && TemplateCopied(fs, fs' - {link}, DirPath(dd), Resolve(fs, template).value)
  {
    var prev := PreviousDirPath(dd).value;
    var fs1, fs2 := CreateSteps(fs, dd, template, name, faults);
    CopyStep(fs, dd, template, fs1, fs2);
    ResolveExtends(fs, fs2, prev, MaxLinkHops);
    LinkStep(fs2, dd, name, faults);
    DropAdded(fs2, PreviousLinkPath(dd, name), Link(prev));
  }

  /** A successful link step when the previous day's directory resolves adds
      exactly the link, at a path that was free, and keeps the tree a tree. */
  lemma LinkStep(fs: Tree, dd: DailyDirectory, name: Name, faults: Faults)
    requires PreviousDirPath(dd).Some? && Exists(fs, PreviousDirPath(dd).value)
    requires LinkPrevious(fs, dd, name, faults).status.Ok?
    ensures PreviousLinkPath(dd, name) !in fs
    ensures LinkPrevious(fs, dd, name, faults).fs
      == fs[PreviousLinkPath(dd, name) := Link(PreviousDirPath(dd).value)]
    ensures WellFormed(fs) ==> WellFormed(LinkPrevious(fs, dd, name, faults).fs)
  {
    if WellFormed(fs) {
      JunctionCreatePreservesTree(fs, PreviousDirPath(dd).value, PreviousLinkPath(dd, name));
    }
  }

  /** Removing a key just added gives the map back. */
  lemma DropAdded(m: Tree, k: Path, v: Node)
    requires k !in m
    ensures m[k := v] - {k} == m
  {
  }

  /** A successful `create` of a fresh directory when there is no previous
      day's directory: the new directory holds exactly a copy of the
      template's contents, so a link name is taken only if the template has
      that entry; no existing entry changes and the tree stays a tree. */
  lemma CreateFreshWithoutPrevious(fs: Tree, dd: DailyDirectory, template: Path, name: Name, faults: Faults)
    requires WellFormed(fs) && !Exists(fs, DirPath(dd))
    requires IsDir(fs, template) && !Under(Resolve(fs, template).value, DirPath(dd))
    requires PreviousDirPath(dd).None? || PreviousDirPath(dd).value !in fs
    requires Create(fs, dd, template, name, faults).status.Ok?
    ensures var fs' := Create(fs, dd, template, name, faults).fs;
      var t := Resolve(fs, template).value;
      && WellFormed(fs')
      && TemplateCopied(fs, fs', DirPath(dd), t)
      && (PreviousLinkPath(dd, name) in fs' <==> t + [name] in fs)
  {
    var d := DirPath(dd);
    var fs1, fs2 := CreateSteps(fs, dd, template, name, faults);
    CopyStep(fs, dd, template, fs1, fs2);
    DirectoryStep(fs, dd, fs1);
    if PreviousDirPath(dd).Some? {
      var prev := PreviousDirPath(dd).value;
      assert prev !in fs2;
    }
    LinkPreviousEffect(fs2, dd, name, faults);
    LinkNameCopied(fs, fs2, d, Resolve(fs, template).value, name);
  }

  /** Inside a freshly copied directory, a name is taken exactly when the
      template has an entry of that name. */
  lemma LinkNameCopied(fs: Tree, fs': Tree, dir: Path, template: Path, name: Name)
    requires TemplateCopied(fs, fs', dir, template)
    requires forall q | q in fs :: !(dir < q)
    ensures dir + [name] in fs' <==> template + [name] in fs
  {
    if template + [name] in fs {
      assert Rebase(template + [name], template, dir) == dir + [name];
    }
    if dir + [name] in fs' {
      assert dir < dir + [name];
      assert Rebase(dir + [name], dir, template) == template + [name];
    }
  }

  /** `create` is idempotent: when the directory already resolves it
      reports success and changes nothing, and after any successful
      `create` a second one changes nothing, whatever fails in it. */
  lemma CreateIsIdempotent(fs: Tree, dd: DailyDirectory, template: Path, name: Name, faults: Faults, again: Faults)
    ensures Exists(fs, DirPath(dd)) ==> Create(fs, dd, template, name, faults) == Effect(Ok(()), fs)
    ensures var e := Create(fs, dd, template, name, faults);
      e.status.Ok? ==> Create(e.fs, dd, template, name, again) == Effect(Ok(()), e.fs)
  {
    var e := Create(fs, dd, template, name, faults);
    var d := DirPath(dd);
    if e.status.Ok? && !Exists(fs, d) {
      var fs1, fs2 := CreateSteps(fs, dd, template, name, faults);
      assert IsRealDir(fs1, d);
      var src := Resolve(fs1, template).value;
      assert Resolve(fs1, d) == Some(d);
      CopyDirContentsEffect(fs1, template, d, src, d);
      LinkPreviousEffect(fs2, dd, name, faults);
      assert IsRealDir(e.fs, d);
    }
  }

  /** The link step reports its own failure and leaves the tree alone. */
  lemma LinkPreviousFailure(fs: Tree, dd: DailyDirectory, name: Name, faults: Faults)
    requires LinkPrevious(fs, dd, name, faults).status.Err?
    ensures LinkPrevious(fs, dd, name, faults).fs == fs
    ensures PreviousDirPath(dd).Some? && Exists(fs, PreviousDirPath(dd).value)
  {
  }

  /** A failing `create` of a fresh directory stops at the failing step and
      keeps what the earlier steps did: either nothing changed (creating the
      directory failed), or the directory is there and empty (the copy
      failed), or it holds exactly the template's contents and no link (the
      link failed). */
  lemma CreateFailureKeepsEarlierSteps(fs: Tree, dd: DailyDirectory, template: Path, name: Name, faults: Faults)
    requires WellFormed(fs) && !Exists(fs, DirPath(dd))
    requires IsDir(fs, template) && !Under(Resolve(fs, template).value, DirPath(dd))
    requires Create(fs, dd, template, name, faults).status.Err?
    ensures var fs' := Create(fs, dd, template, name, faults).fs;
      || fs' == fs
      || (OnlyDirectoryAdded(fs, fs', DirPath(dd)) && !HasChildren(fs', DirPath(dd)))
      || TemplateCopied(fs, fs', DirPath(dd), Resolve(fs, template).value)
  {
    var d := DirPath(dd);
    var e := Create(fs, dd, template, name, faults);
    var r1 := Attempt(CreateDirAllCall, faults, CreateDirAll(fs, d));
    if r1.Ok? {
      var fs1 := r1.value;
      assert e == CopyTemplate(fs1, dd, template, name, faults);
      DirectoryStep(fs, dd, fs1);
      var r2 := Attempt(CopyDirCall, faults, CopyDirContents(fs1, template, d));
      if r2.Ok? {
        var fs2 := r2.value;
        assert e == LinkPrevious(fs2, dd, name, faults);
        CopyStep(fs, dd, template, fs1, fs2);
        LinkPreviousFailure(fs2, dd, name, faults);
      } else {
        assert e.fs == fs1;
      }
    }
  }

  /** `create` with no template directory to copy: when the template path
      is missing (and not made by creating the new directory) or is a file,
      the copy fails after the directory was made, and the new directory
      stays behind, empty. */
  lemma CreateWithoutTemplate(fs: Tree, dd: DailyDirectory, template: Path, name: Name, faults: Faults)
    requires WellFormed(fs) && !Exists(fs, DirPath(dd))
    requires || (template !in fs && !Under(template, DirPath(dd)))
             || (template in fs && fs[template] == File)
    requires CreateDirAllCall !in faults && CreateDirAll(fs, DirPath(dd)).Ok?
    ensures var e := Create(fs, dd, template, name, faults);
      && e.status.Err?
      && OnlyDirectoryAdded(fs, e.fs, DirPath(dd))
      && !HasChildren(e.fs, DirPath(dd))
      && (CopyDirCall !in faults ==>
            e.status == Err(if template in fs then InvalidInput else NotFound))
  {
    var fs1 := CreateDirAll(fs, DirPath(dd)).value;
    DirectoryStep(fs, dd, fs1);
    assert Create(fs, dd, template, name, faults) == CopyTemplate(fs1, dd, template, name, faults);
    if template in fs {
      assert Resolve(fs1, template) == Some(template);
    } else {
      assert template !in fs1;
    }
  }

  // ---------------------------------------------------------------------
  // Link

  /** The tree a successful `create_junction` adds its link to: the old
      entry removed when the link path resolved, else the tree as it was. */
  lemma CreateJunctionSteps(fs: Tree, dd: DailyDirectory, relative: Path, faults: Faults)
    returns (before: Tree)
    requires CreateJunction(fs, dd, relative, faults).status.Ok?
    ensures Exists(fs, dd.parent + relative) ==> RemoveDir(fs, dd.parent + relative) == Ok(before)
    ensures !Exists(fs, dd.parent + relative) ==> before == fs
    ensures JunctionCreate(before, DirPath(dd), dd.parent + relative).Ok?
    ensures CreateJunction(fs, dd, relative, faults).fs
      == JunctionCreate(before, DirPath(dd), dd.parent + relative).value
  {
    var link := dd.parent + relative;
    before := if Exists(fs, link) then RemoveDir(fs, link).value else fs;
  }

  /** A link to a directory resolves to that directory. */
  lemma LinkToDirResolves(fs: Tree, link: Path, target: Path)
    requires link in fs && fs[link] == Link(target) && IsRealDir(fs, target)
    ensures Resolve(fs, link) == Some(target)
  {
    assert ResolveWithin(fs, target, MaxLinkHops - 1) == Some(target);
  }

  /** A successful `create_junction` keeps the tree a tree. */
  lemma CreateJunctionPreservesTree(fs: Tree, dd: DailyDirectory, relative: Path, faults: Faults)
    requires WellFormed(fs) && CreateJunction(fs, dd, relative, faults).status.Ok?
    ensures WellFormed(CreateJunction(fs, dd, relative, faults).fs)
  {
    var link := dd.parent + relative;
    var before := CreateJunctionSteps(fs, dd, relative, faults);
    if Exists(fs, link) {
      RemoveDirPreservesTree(fs, link);
    }
    JunctionCreatePreservesTree(before, DirPath(dd), link);
  }

  /** A successful `create_junction`: the link path holds a link to the
      canonical path, which it resolves to when that is a directory, and no
      other entry changed. */
  lemma CreateJunctionSuccess(fs: Tree, dd: DailyDirectory, relative: Path, faults: Faults)
    requires CreateJunction(fs, dd, relative, faults).status.Ok?
    ensures var e := CreateJunction(fs, dd, relative, faults);
      var link := dd.parent + relative;
      && link in e.fs && e.fs[link] == Link(DirPath(dd))
      && (forall q | q != link :: SameAt(fs, e.fs, q))
      && (IsRealDir(e.fs, DirPath(dd)) ==> Resolve(e.fs, link) == Some(DirPath(dd)))
  {
    var e := CreateJunction(fs, dd, relative, faults);
    var link := dd.parent + relative;
    var before := CreateJunctionSteps(fs, dd, relative, faults);
    assert e.fs == before[link := Link(DirPath(dd))];
    if IsRealDir(e.fs, DirPath(dd)) {
      LinkToDirResolves(e.fs, link, DirPath(dd));
    }
  }

  /** A failing `create_junction` either changed nothing or removed only the
      old entry; when the old entry cannot be removed, no link is made. */
  lemma CreateJunctionFailure(fs: Tree, dd: DailyDirectory, relative: Path, faults: Faults)
    ensures var e := CreateJunction(fs, dd, relative, faults);
      var link := dd.parent + relative;
      && (e.status.Err? ==> e.fs == fs || (Exists(fs, link) && e.fs == fs - {link}))
      && (Exists(fs, link) && Attempt(RemoveDirCall, faults, RemoveDir(fs, link)).Err? ==>
            e.status.Err? && e.fs == fs)
  {
    var link := dd.parent + relative;
    if Exists(fs, link) && RemoveDir(fs, link).Ok? {
      assert RemoveDir(fs, link).value == fs - {link};
    }
  }

  /** A dangling link at the link path does not resolve, so it is not
      removed, and creating the new link then fails on it: the operation
      reports an error and the stale link stays. */
  lemma DanglingLinkIsNotReplaced(fs: Tree, dd: DailyDirectory, relative: Path, faults: Faults)
    requires dd.parent + relative in fs && !Exists(fs, dd.parent + relative)
    ensures CreateJunction(fs, dd, relative, faults).status.Err?
    ensures CreateJunction(fs, dd, relative, faults).fs == fs
  {
  }

  /** A concrete instance: `current` is left dangling after its target was
      removed. The operation as written fails on it and keeps the stale
      link; the replacing version links `current` to the new directory. */
  lemma DanglingLinkExample()
    ensures var fs := map[[] := Dir, ["current"] := Link(["gone"])];
      var dd := DailyDirectory([], Date(2024, 3, 15));
      && CreateJunction(fs, dd, ["current"], {}) == Effect(Err(AlreadyExists), fs)
      && CreateJunctionReplacing(fs, dd, ["current"], {}).status == Ok(())
      && CreateJunctionReplacing(fs, dd, ["current"], {}).fs[["current"]] == Link(DirPath(dd))
  {
    var fs := map[[] := Dir, ["current"] := Link(["gone"])];
    var dd := DailyDirectory([], Date(2024, 3, 15));
    assert ResolveWithin(fs, ["current"], MaxLinkHops) == None;
    var fs1 := fs - {["current"]};
    assert RemoveDir(fs, ["current"]) == Ok(fs1);
    assert JunctionCreate(fs1, DirPath(dd), ["current"]) == Ok(fs1[["current"] := Link(DirPath(dd))]);
  }

  /** The replacing version: an existing link at the link path, dangling or
      not, is replaced by a link to the canonical path, and nothing else
      changes, provided neither step fails on its own. */
  lemma ReplacingOverwritesLink(fs: Tree, dd: DailyDirectory, relative: Path, faults: Faults)
    requires var link := dd.parent + relative;
      link != [] && link in fs && fs[link].Link? && IsRealDir(fs, Parent(link))
    requires RemoveDirCall !in faults && CreateJunctionCall !in faults
    ensures var link := dd.parent + relative;
      var e := CreateJunctionReplacing(fs, dd, relative, faults);
      && e.status.Ok?
      && e.fs[link] == Link(DirPath(dd))
      && (forall q | q != link :: SameAt(fs, e.fs, q))
      && (WellFormed(fs) ==> WellFormed(e.fs))
  {
    var link := dd.parent + relative;
    var fs1 := fs - {link};
    assert RemoveDir(fs, link) == Ok(fs1);
    if WellFormed(fs) {
      RemoveDirPreservesTree(fs, link);
      JunctionCreatePreservesTree(fs1, DirPath(dd), link);
    }
  }

  /** The replacing version behaves as written whenever the link path is
      empty or resolves, so it changes only the dangling-link case. */
  lemma ReplacingAgreesUnlessDangling(fs: Tree, dd: DailyDirectory, relative: Path, faults: Faults)
    requires var link := dd.parent + relative; link !in fs || Exists(fs, link)
    ensures CreateJunctionReplacing(fs, dd, relative, faults) == CreateJunction(fs, dd, relative, faults)
  {
  }

  // ---------------------------------------------------------------------
  // Move and remove

  /** `move_to`: the destination keeps the directory's name. The move
      succeeds exactly when the directory is there and either stays where
      it is or its new place is free, not inside itself, and inside an
      existing directory. On failure nothing changed. */
  lemma MoveToOutcome(fs: Tree, dd: DailyDirectory, newParent: Path, faults: Faults)
    ensures var src := DirPath(dd);
      var dst := DirPath(DailyDirectory(newParent, dd.date));
      var e := MoveTo(fs, dd, newParent, faults);
      && Last(dst) == Last(src)
      && (e.status.Ok? <==>
            && RenameCall !in faults && src in fs
            && (src == dst || (dst !in fs && !Under(src, dst) && IsRealDir(fs, newParent))))
      && (e.status.Err? ==> e.fs == fs)
  {
  }

  /** A successful `move_to` keeps the tree a tree; when the parent
      changes, everything from the old place is at the new one, nothing is
      left at the old one, and nothing else changed. */
  lemma MoveToEffect(fs: Tree, dd: DailyDirectory, newParent: Path, faults: Faults)
    requires WellFormed(fs) && MoveTo(fs, dd, newParent, faults).status.Ok?
    ensures var src := DirPath(dd);
      var dst := DirPath(DailyDirectory(newParent, dd.date));
      var fs' := MoveTo(fs, dd, newParent, faults).fs;
      && WellFormed(fs')
      && (src != dst ==>
            && (forall q | Under(src, q) :: q !in fs')
            && (forall q | q in fs && Under(src, q) ::
                  Rebase(q, src, dst) in fs' && fs'[Rebase(q, src, dst)] == fs[q])
            && (forall q | q in fs' && Under(dst, q) ::
                  Rebase(q, dst, src) in fs && fs'[q] == fs[Rebase(q, dst, src)])
            && (forall q | !Under(src, q) && !Under(dst, q) :: SameAt(fs, fs', q)))
  {
    var src := DirPath(dd);
    var dst := DirPath(DailyDirectory(newParent, dd.date));
    var fs' := MoveTo(fs, dd, newParent, faults).fs;
    assert fs' == Rename(fs, src, dst).value;
    RenamePreservesTree(fs, src, dst);
    if src != dst {
      RenameClearsSource(fs, src, dst);
      RenameMovesSubtree(fs, src, dst);
      forall q | q in fs' && Under(dst, q)
        ensures Rebase(q, dst, src) in fs && fs'[q] == fs[Rebase(q, dst, src)]
      {
        RenameDestinationFromSource(fs, src, dst, q);
      }
    }
  }

  /** `remove`: succeeds exactly when the directory (or a link at its path)
      is there; then it and everything below it are gone, nothing else
      changed, and the tree stays a tree. On failure nothing changed. */
  lemma RemoveEffect(fs: Tree, dd: DailyDirectory, faults: Faults)
    ensures var d := DirPath(dd);
      var e := Remove(fs, dd, faults);
      && (e.status.Ok? <==> RemoveDirAllCall !in faults && d in fs && fs[d] != File)
      && (e.status.Err? ==> e.fs == fs)
      && (e.status.Ok? ==> forall q :: q in e.fs <==> q in fs && !Under(d, q))
      && (e.status.Ok? ==> forall q | q in e.fs :: e.fs[q] == fs[q])
      && (e.status.Ok? && WellFormed(fs) ==> WellFormed(e.fs))
  {
    var e := Remove(fs, dd, faults);
    if e.status.Ok? && WellFormed(fs) {
      WithoutPreservesTree(fs, DirPath(dd));
    }
  }
}
