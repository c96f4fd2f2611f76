/**
 Replacing the region entries of a directory by freshly converted ones: old regions are renamed
 aside, converted entries are renamed in, and only then is the set-aside copy deleted.

 Directories are maps from entry names to contents. Every file system call may fail, and the
 order and the failures of directory listings are inputs.
 */
module RegionSwap {
  import opened Geometry

  datatype Dirs<E> = Dirs(source: map<string, E>, backup: map<string, E>, converted: map<string, E>)

  /** A listing item that is `None` is an error the directory iterator returned. */
  type Listing = seq<Option<string>>

  /** Everything the file system decides. */
  datatype Io = Io(
    staleBackup: set<string>,    // entries the first, unchecked delete leaves in the backup
    createFails: bool,
    readSourceFails: bool,
    sourceListing: Listing,
    setAsideFails: set<string>,  // entries whose rename to the backup fails
    readConvertedFails: bool,
    convertedListing: Listing,
    landFails: set<string>,      // entries whose rename into the source fails
    finalLeaves: set<string>     // entries the last, unchecked delete leaves in the backup
  )

  predicate StartsWith(s: string, prefix: string) {
    prefix <= s
  }

  predicate EndsWith(s: string, suffix: string) {
    |suffix| <= |s| && s[|s| - |suffix|..] == suffix
  }

  predicate IsRegion(name: string) {
    StartsWith(name, "lod") || (StartsWith(name, "r.") && EndsWith(name, ".vxr"))
  }

  /** The names set aside: `lod` with any ending, `r.` and `.vxr` around anything, and `r.vxr`, where the dots meet. */
  lemma {:induction false} RegionNamesExactly(name: string)
    ensures IsRegion(name) <==> name == "r.vxr" || exists s: string :: IsRegionNameOf(name, s)
  {
    if StartsWith(name, "lod") {
      assert name == "lod" + name[3..];
      assert IsRegionNameOf(name, name[3..]);
    } else if IsRegion(name) && |name| >= 6 {
      var s := name[2..|name| - 4];
      assert name == "r." + s + ".vxr";
      assert IsRegionNameOf(name, s);
    } else if IsRegion(name) {
      assert name[0] == 'r' && name[|name| - 4..][0] == '.';
      assert |name| == 5 && name[..2] == "r." && name[1..] == ".vxr";
      assert name == "r.vxr";
    } else if s: string :| IsRegionNameOf(name, s) {
      RegionNamesAreSetAside(s);
    }
  }

  predicate IsRegionNameOf(name: string, s: string) {
    name == "lod" + s || name == "r." + s + ".vxr"
  }

  lemma {:induction false} RegionNamesAreSetAside(s: string)
    ensures IsRegion("lod" + s) && IsRegion("r." + s + ".vxr") && IsRegion("r.vxr")
  {
    var name := "r." + s + ".vxr";
    assert name[|name| - 4..] == ".vxr";
    assert "r.vxr"[1..] == ".vxr";
  }

  function Restrict<E>(m: map<string, E>, names: set<string>): map<string, E> {
    map name | name in m && name in names :: m[name]
  }

  predicate Holds<E(==)>(m: map<string, E>, name: string, content: E) {
    name in m && m[name] == content
  }

  /** A rename from the source to the backup, which replaces an entry of the same name there. */
  function SetAside<E>(d: Dirs<E>, name: string): Dirs<E> {
    if name !in d.source then d
    else d.(source := d.source - {name}, backup := d.backup[name := d.source[name]])
  }

  /** A rename from the converted directory to the source, which replaces an entry of the same name there. */
  function Land<E>(d: Dirs<E>, name: string): Dirs<E> {
    if name !in d.converted then d
    else d.(source := d.source[name := d.converted[name]], converted := d.converted - {name})
  }

  /** The listing names entries of `m`, each once, and all of them when it holds no error. */
  ghost predicate Lists<E>(items: Listing, m: map<string, E>) {
    && (forall i: nat :: i < |items| && items[i].Some? ==> items[i].value in m)
    && (forall i: nat, j: nat :: i < j < |items| && items[i].Some? ==> items[i] != items[j])
    && (None !in items ==> forall name :: name in m ==> Some(name) in items)
  }

  ghost predicate ValidIo<E>(d: Dirs<E>, io: Io) {
    Lists(io.sourceListing, d.source) && Lists(io.convertedListing, d.converted)
  }

  // ----- What the swap leaves behind -----

  /** The state after setting aside the listed regions, and whether no error stopped it. */
  function AfterSetAside<E>(d: Dirs<E>, items: Listing, fails: set<string>): (Dirs<E>, bool) {
    if items == [] then (d, true)
    else
      var (before, ok) := AfterSetAside(d, items[..|items| - 1], fails);
      match items[|items| - 1]
      case None => (before, false)
      case Some(name) =>
        if !ok || !IsRegion(name) then (before, ok)
        else if name in fails then (before, false)
        else (SetAside(before, name), true)
  }

  /** The state after moving in the listed converted entries, and whether no error stopped it. */
  function AfterLanding<E>(d: Dirs<E>, items: Listing, fails: set<string>): (Dirs<E>, bool) {
    if items == [] then (d, true)
    else
      var (before, ok) := AfterLanding(d, items[..|items| - 1], fails);
      match items[|items| - 1]
      case None => (before, false)
      case Some(name) =>
        if !ok then (before, ok)
        else if name in fails then (before, false)
        else (Land(before, name), true)
  }

  function BackupCleared<E>(d: Dirs<E>, leaves: set<string>): Dirs<E> {
    d.(backup := Restrict(d.backup, leaves))
  }

  /** The state the swap ends in, and whether it succeeds. */
  function Outcome<E>(d: Dirs<E>, io: Io): (Dirs<E>, bool) {
    var cleared := BackupCleared(d, io.staleBackup);
    if io.createFails || io.readSourceFails then (cleared, false)
    else
      var (aside, ok) := AfterSetAside(cleared, io.sourceListing, io.setAsideFails);
      if !ok || io.readConvertedFails then (aside, false)
      else
        var (landed, done) := AfterLanding(aside, io.convertedListing, io.landFails);
        if !done then (landed, false) else (BackupCleared(landed, io.finalLeaves), true)
  }

  // ----- What every step keeps -----

  /** While regions are set aside, each old entry is unchanged in the source or, for a listed region, in the backup. */
  ghost predicate SettingAside<E>(d: Dirs<E>, s: Dirs<E>, done: Listing) {
    && s.converted == d.converted
    && (forall name :: name in s.source ==> Holds(d.source, name, s.source[name]))
    && (forall name :: name in d.source && name !in s.source ==>
          IsRegion(name) && Some(name) in done && Holds(s.backup, name, d.source[name]))
    && (forall name :: name in s.backup <==> name in d.backup || (name in d.source && name !in s.source))
    && (forall name :: name in d.backup && !(name in d.source && name !in s.source) ==>
          Holds(s.backup, name, d.backup[name]))
  }

  /** The converted entry has been moved to the source. */
  predicate Landed<E>(d: Dirs<E>, s: Dirs<E>, name: string) {
    name in d.converted && name !in s.converted
  }

  /** While converted entries land, every old region is in the backup and each converted entry has one place. */
  ghost predicate Landing<E>(d: Dirs<E>, s: Dirs<E>, done: Listing) {
    && (forall name :: name in d.source && IsRegion(name) ==> Holds(s.backup, name, d.source[name]))
    && (forall name :: name in s.converted ==> Holds(d.converted, name, s.converted[name]))
    && (forall name :: Landed(d, s, name) ==> Some(name) in done && Holds(s.source, name, d.converted[name]))
    && (forall name :: name in s.source ==> Landed(d, s, name) || (name in d.source && !IsRegion(name)))
    && (forall name :: name in d.source && !IsRegion(name) && !Landed(d, s, name) ==>
          Holds(s.source, name, d.source[name]))
    && BackupUntouched(d, s.backup)
  }

  /** No backup entry has been lost, except one that a region of the source replaced. */
  ghost predicate BackupUntouched<E>(d: Dirs<E>, backup: map<string, E>) {
    forall name :: name in d.backup && !(name in d.source && IsRegion(name)) ==> Holds(backup, name, d.backup[name])
  }

  lemma {:induction false} SetAsideOne<E>(d: Dirs<E>, s: Dirs<E>, done: Listing, name: string)
    requires SettingAside(d, s, done) && IsRegion(name) && name in s.source
    ensures SettingAside(d, SetAside(s, name), done + [Some(name)])
  {
    hide IsRegion;
    assert Holds(d.source, name, s.source[name]);
  }

  lemma {:induction false} SetAsideStep<E>(d: Dirs<E>, items: Listing, n: nat, fails: set<string>)
    requires Lists(items, d.source) && n <= |items|
    ensures var (s, ok) := AfterSetAside(d, items[..n], fails);
            && SettingAside(d, s, items[..n])
            && (ok ==> None !in items[..n])
            && (ok ==> forall name :: name in s.source && IsRegion(name) ==> Some(name) !in items[..n])
    decreases n
  {
    if n > 0 {
      SetAsideStep(d, items, n - 1, fails);
      assert items[..n][..n - 1] == items[..n - 1];
      assert items[..n] == items[..n - 1] + [items[n - 1]];
      var before := AfterSetAside(d, items[..n - 1], fails).0;
      if items[n - 1].Some? && IsRegion(items[n - 1].value) {
        var name := items[n - 1].value;
        assert items[n - 1] !in items[..n - 1];
        assert name in before.source;
        SetAsideOne(d, before, items[..n - 1], name);
      }
    }
  }

  /** All regions have been set aside. */
  ghost predicate AllAside<E>(d: Dirs<E>, s: Dirs<E>) {
    && s.converted == d.converted
    && (forall name :: name in s.source <==> name in d.source && !IsRegion(name))
    && (forall name :: name in s.source ==> s.source[name] == d.source[name])
    && (forall name :: name in d.source && IsRegion(name) ==> Holds(s.backup, name, d.source[name]))
    && BackupUntouched(d, s.backup)
  }

  lemma {:induction false} SetAsideEnds<E>(d: Dirs<E>, items: Listing, fails: set<string>)
    requires Lists(items, d.source) && AfterSetAside(d, items, fails).1
    ensures AllAside(d, AfterSetAside(d, items, fails).0)
  {
    SetAsideStep(d, items, |items|, fails);
    assert items[..|items|] == items;
    var s := AfterSetAside(d, items, fails).0;
    assert forall name :: name in d.source ==> Some(name) in items;
  }

  lemma {:induction false} LandOne<E>(d: Dirs<E>, s: Dirs<E>, done: Listing, name: string)
    requires Landing(d, s, done) && name in s.converted
    ensures Landing(d, Land(s, name), done + [Some(name)])
  {
    hide IsRegion, BackupUntouched;
    var s' := Land(s, name);
    assert Holds(d.converted, name, s.converted[name]);
    assert forall other :: Landed(d, s', other) <==> Landed(d, s, other) || other == name;
  }

  lemma {:induction false} LandingStarts<E>(d: Dirs<E>, aside: Dirs<E>)
    requires AllAside(d, aside)
    ensures Landing(d, aside, [])
  {
  }

  lemma StillConverted<E>(d: Dirs<E>, s: Dirs<E>, done: Listing, name: string)
    requires Landing(d, s, done) && name in d.converted && Some(name) !in done
    ensures name in s.converted && s.converted[name] == d.converted[name]
  {
    assert !Landed(d, s, name);
  }

  lemma LandingAllows<E>(d: Dirs<E>, s: Dirs<E>, done: Listing, more: Listing)
    requires Landing(d, s, done) && (forall item :: item in done ==> item in more)
    ensures Landing(d, s, more)
  {
  }

  lemma {:induction false} LandingStep<E>(d: Dirs<E>, aside: Dirs<E>, items: Listing, n: nat, fails: set<string>)
    requires AllAside(d, aside) && Lists(items, d.converted) && n <= |items|
    ensures var (s, ok) := AfterLanding(aside, items[..n], fails);
            && Landing(d, s, items[..n])
            && (ok ==> None !in items[..n])
            && (ok ==> forall name :: name in s.converted ==> Some(name) !in items[..n])
    decreases n
  {
    hide Landing, AllAside;
    if n == 0 {
      LandingStarts(d, aside);
    } else {
      LandingStep(d, aside, items, n - 1, fails);
      assert items[..n][..n - 1] == items[..n - 1];
      assert items[..n] == items[..n - 1] + [items[n - 1]];
      var before := AfterLanding(aside, items[..n - 1], fails).0;
      LandingAllows(d, before, items[..n - 1], items[..n]);
      if items[n - 1].Some? {
        var name := items[n - 1].value;
        assert items[n - 1] !in items[..n - 1];
        StillConverted(d, before, items[..n - 1], name);
        LandOne(d, before, items[..n - 1], name);
      }
    }
  }

  lemma {:induction false} LandingEnds<E>(d: Dirs<E>, aside: Dirs<E>, items: Listing, fails: set<string>)
    requires AllAside(d, aside) && Lists(items, d.converted) && AfterLanding(aside, items, fails).1
    ensures var s := AfterLanding(aside, items, fails).0;
            s.converted == map[] && s.source == Replaced(d)
  {
    LandingStep(d, aside, items, |items|, fails);
    assert items[..|items|] == items;
    var s := AfterLanding(aside, items, fails).0;
    assert forall name :: name in d.converted ==> Some(name) in items;
    assert s.converted == map[];
    AllLanded(d, s, items);
  }

  lemma {:induction false} AllLanded<E>(d: Dirs<E>, s: Dirs<E>, items: Listing)
    requires Landing(d, s, items) && s.converted == map[]
    ensures s.source == Replaced(d)
  {
    hide IsRegion;
    assert forall name :: Landed(d, s, name) <==> name in d.converted;
    forall name
      ensures name in s.source <==> name in Replaced(d)
    {
    }
  }

  /** What a successful swap promises for the source: its own non-region entries, and every converted one. */
  function Replaced<E>(d: Dirs<E>): map<string, E> {
    (map name | name in d.source && !IsRegion(name) :: d.source[name]) + d.converted
  }

  // ----- Safety of the swap -----

  /**
   No region of the source, no converted entry and no backup entry that no region of the source replaces
   has been lost, and an entry that is not a region has its old content or, if converted, its new one.
   */
  ghost predicate Safe<E>(d: Dirs<E>, s: Dirs<E>) {
    && (forall name :: name in d.source && IsRegion(name) ==>
          Holds(s.source, name, d.source[name]) || Holds(s.backup, name, d.source[name]))
    && (forall name :: name in d.converted ==>
          Holds(s.converted, name, d.converted[name]) || Holds(s.source, name, d.converted[name]))
    && (forall name :: name in d.source && !IsRegion(name) ==>
          Holds(s.source, name, d.source[name])
          || (name in d.converted && Holds(s.source, name, d.converted[name])))
    && BackupUntouched(d, s.backup)
  }

  lemma {:induction false} SettingAsideIsSafe<E>(d: Dirs<E>, s: Dirs<E>, done: Listing)
    requires SettingAside(d, s, done)
    ensures Safe(d, s)
  {
  }

  lemma {:induction false} LandingIsSafe<E>(d: Dirs<E>, s: Dirs<E>, done: Listing)
    requires Landing(d, s, done)
    ensures Safe(d, s)
  {
  }

  /** Wherever an error stops the swap, nothing is lost after the first delete; on success the source is as promised. */
  lemma {:induction false} SwapLosesNothing<E>(d: Dirs<E>, io: Io)
    requires ValidIo(d, io)
    ensures var (s, ok) := Outcome(d, io);
            if ok then s.source == Replaced(d) && s.converted == map[] else Safe(BackupCleared(d, io.staleBackup), s)
  {
    var cleared := BackupCleared(d, io.staleBackup);
    var items, landing := io.sourceListing, io.convertedListing;
    SetAsideStep(cleared, items, |items|, io.setAsideFails);
    assert items[..|items|] == items && landing[..|landing|] == landing;
    var (aside, ok) := AfterSetAside(cleared, items, io.setAsideFails);
    SettingAsideIsSafe(cleared, aside, items);
    if !io.createFails && !io.readSourceFails && ok && !io.readConvertedFails {
      SetAsideEnds(cleared, items, io.setAsideFails);
      LandingStep(cleared, aside, landing, |landing|, io.landFails);
      LandingIsSafe(cleared, AfterLanding(aside, landing, io.landFails).0, landing);
      if AfterLanding(aside, landing, io.landFails).1 {
        LandingEnds(cleared, aside, landing, io.landFails);
      }
    }
  }

  // ----- What an error can still cost -----

  /** Every entry the source had is unchanged in the source or the backup. */
  ghost predicate AllOldDataKept<E>(d: Dirs<E>, s: Dirs<E>) {
    forall name :: name in d.source ==> Holds(s.source, name, d.source[name]) || Holds(s.backup, name, d.source[name])
  }

  /** A name that is not a region and that both directories use, such as a metadata file, has one content. */
  predicate SharedNamesAgree<E(==)>(d: Dirs<E>) {
    forall name :: name in d.source && name in d.converted && !IsRegion(name) ==> d.source[name] == d.converted[name]
  }

  lemma {:induction false} ListingOf<E>(m: map<string, E>) returns (items: Listing)
    ensures Lists(items, m) && None !in items
  {
    items := [];
    var rest := m.Keys;
    while rest != {}
      invariant rest <= m.Keys
      invariant None !in items
      invariant forall i: nat :: i < |items| && items[i].Some? ==> items[i].value in m && items[i].value !in rest
      invariant forall i: nat, j: nat :: i < j < |items| && items[i].Some? ==> items[i] != items[j]
      invariant forall name :: name in m ==> name in rest || Some(name) in items
      decreases rest
    {
      var name :| name in rest;
      items, rest := items + [Some(name)], rest - {name};
    }
  }

  /** A run that fails right after overwriting a shared entry. */
  lemma {:induction false} LateErrorLosesSharedEntry<E>(d: Dirs<E>, name: string) returns (io: Io)
    requires name in d.source && name in d.converted && !IsRegion(name) && d.source[name] != d.converted[name]
    ensures ValidIo(d, io) && !Outcome(d, io).1
    ensures var s := Outcome(d, io).0; !Holds(s.source, name, d.source[name]) && name !in s.backup
    ensures !AllOldDataKept(d, Outcome(d, io).0)
  {
    hide IsRegion;
    var items := ListingOf(d.source);
    io := Io({}, false, false, items, {}, false, [Some(name), None], {}, {});
    var cleared := BackupCleared(d, {});
    NoFailures(cleared, items);
    SetAsideStep(cleared, items, |items|, {});
    assert items[..|items|] == items;
    var aside := AfterSetAside(cleared, items, {}).0;
    assert name in aside.source && name !in aside.backup;
    LandThenError(aside, name);
    assert Outcome(d, io) == (Land(aside, name), false);
    assert Land(aside, name).source[name] == d.converted[name];
  }

  /** The metadata file is such an entry: it is not a region, and conversion writes a new one. */
  lemma MetadataCanBeLost() returns (d: Dirs<int>, io: Io)
    ensures d == Dirs(map["meta.vxrm" := 1], map[], map["meta.vxrm" := 2])
    ensures ValidIo(d, io) && !Outcome(d, io).1 && !AllOldDataKept(d, Outcome(d, io).0)
  {
    d := Dirs(map["meta.vxrm" := 1], map[], map["meta.vxrm" := 2]);
    assert "meta.vxrm"[0] == 'm';
    io := LateErrorLosesSharedEntry(d, "meta.vxrm");
  }

  lemma LandThenError<E>(s: Dirs<E>, name: string)
    ensures AfterLanding(s, [Some(name), None], {}) == (Land(s, name), false)
  {
    assert [Some(name), None][..1] == [Some(name)] && [Some(name)][..0] == [];
    assert AfterLanding(s, [Some(name)], {}) == (Land(s, name), true);
  }

  lemma {:induction false} NoFailures<E>(d: Dirs<E>, items: Listing)
    requires None !in items
    ensures AfterSetAside(d, items, {}).1
  {
    if items != [] {
      assert items[|items| - 1] in items && forall x :: x in items[..|items| - 1] ==> x in items;
      NoFailures(d, items[..|items| - 1]);
    }
  }

  lemma {:induction false} FailedRunKeepsAgreedEntries<E>(d: Dirs<E>, io: Io)
    requires ValidIo(d, io) && !Outcome(d, io).1 && SharedNamesAgree(d)
    ensures AllOldDataKept(d, Outcome(d, io).0)
  {
    var cleared := BackupCleared(d, io.staleBackup);
    var items, landing := io.sourceListing, io.convertedListing;
    SetAsideStep(cleared, items, |items|, io.setAsideFails);
    assert items[..|items|] == items && landing[..|landing|] == landing;
    var (aside, ok) := AfterSetAside(cleared, items, io.setAsideFails);
    if !io.createFails && !io.readSourceFails && ok && !io.readConvertedFails {
      SetAsideEnds(cleared, items, io.setAsideFails);
      LandingStep(cleared, aside, landing, |landing|, io.landFails);
      var s := AfterLanding(aside, landing, io.landFails).0;
      forall name | name in d.source
        ensures Holds(s.source, name, d.source[name]) || Holds(s.backup, name, d.source[name])
      {
        if !IsRegion(name) && Landed(cleared, s, name) {
          assert Holds(s.source, name, d.converted[name]);
        }
      }
    }
  }

  /** Every failing run keeps all old data exactly when the shared non-region names agree. */
  lemma {:induction false} ErrorsKeepAllOldDataExactly<E>(d: Dirs<E>)
    ensures (forall io: Io :: ValidIo(d, io) && !Outcome(d, io).1 ==> AllOldDataKept(d, Outcome(d, io).0))
            <==> SharedNamesAgree(d)
  {
    if SharedNamesAgree(d) {
      forall io: Io | ValidIo(d, io) && !Outcome(d, io).1
        ensures AllOldDataKept(d, Outcome(d, io).0)
      {
        SwapLosesNothing(d, io);
        FailedRunKeepsAgreedEntries(d, io);
      }
    } else {
      var name :| name in d.source && name in d.converted && !IsRegion(name) && d.source[name] != d.converted[name];
      var io := LateErrorLosesSharedEntry(d, name);
    }
  }

  // ----- What a retry can cost -----

  /**
   After a run that succeeds and cleans up, an earlier attempt's backup entry is held exactly if the new source
   has it.
   */
  lemma {:induction false} StaleBackupIsDiscarded<E>(d: Dirs<E>, io: Io, name: string)
    requires ValidIo(d, io) && Outcome(d, io).1 && io.finalLeaves == {} && name in d.backup
    ensures HeldSomewhere(Outcome(d, io).0, name, d.backup[name]) <==> Holds(Replaced(d), name, d.backup[name])
  {
    SwapLosesNothing(d, io);
  }

  predicate HeldSomewhere<E(==)>(s: Dirs<E>, name: string, content: E) {
    Holds(s.source, name, content) || Holds(s.backup, name, content) || Holds(s.converted, name, content)
  }

  /** Every entry that the backup of an earlier attempt had is unchanged in the source or the backup. */
  ghost predicate OldBackupKept<E>(d: Dirs<E>, s: Dirs<E>) {
    forall name :: name in d.backup ==>
      Holds(s.source, name, d.backup[name]) || Holds(s.backup, name, d.backup[name])
  }

  /** The source has the backup entry too, and no converted entry with another content replaces it there. */
  predicate Secured<E(==)>(d: Dirs<E>, name: string)
    requires name in d.backup
  {
    && Holds(d.source, name, d.backup[name])
    && (IsRegion(name) || name !in d.converted || d.converted[name] == d.backup[name])
  }

  lemma SafeKeepsSecured<E>(d: Dirs<E>, leaves: set<string>, s: Dirs<E>, name: string)
    requires Safe(BackupCleared(d, leaves), s) && name in d.backup && Secured(d, name)
    ensures Holds(s.source, name, d.backup[name]) || Holds(s.backup, name, d.backup[name])
  {
  }

  /** A failing run that loses a backup entry that is not secured. */
  lemma {:induction false} UnsecuredBackupCanBeLost<E>(d: Dirs<E>, name: string) returns (io: Io)
    requires name in d.backup && !Secured(d, name)
    ensures ValidIo(d, io) && !Outcome(d, io).1 && !OldBackupKept(d, Outcome(d, io).0)
  {
    if !Holds(d.source, name, d.backup[name]) {
      io := Io({}, true, false, [None], {}, false, [None], {}, {});
      assert name !in Outcome(d, io).0.backup;
    } else {
      hide Outcome;
      io := LateErrorLosesSharedEntry(d, name);
    }
  }

  /** Every failing run keeps what an earlier attempt set aside exactly when all of it is secured by the source. */
  lemma {:induction false} RetryKeepsOldBackupExactly<E>(d: Dirs<E>)
    ensures (forall io: Io :: ValidIo(d, io) && !Outcome(d, io).1 ==> OldBackupKept(d, Outcome(d, io).0))
            <==> forall name :: name in d.backup ==> Secured(d, name)
  {
    hide Outcome, Secured, Safe, ValidIo;
    if forall name :: name in d.backup ==> Secured(d, name) {
      forall io: Io | ValidIo(d, io) && !Outcome(d, io).1
        ensures OldBackupKept(d, Outcome(d, io).0)
      {
        SwapLosesNothing(d, io);
        forall name | name in d.backup
          ensures Holds(Outcome(d, io).0.source, name, d.backup[name])
                  || Holds(Outcome(d, io).0.backup, name, d.backup[name])
        {
          SafeKeepsSecured(d, io.staleBackup, Outcome(d, io).0, name);
        }
      }
    } else {
      var name :| name in d.backup && !Secured(d, name);
      var io := UnsecuredBackupCanBeLost(d, name);
    }
  }

  /**
   Any region can be lost by two failing runs: the first sets it aside and fails, the second, with whatever
   was converted for it, deletes the backup and fails to create it again.
   */
  lemma {:induction false} TwoFailedRunsLoseRegion<E>(d: Dirs<E>, name: string, converted: map<string, E>)
      returns (first: Io, second: Io)
    requires name in d.source && IsRegion(name)
    ensures ValidIo(d, first) && !Outcome(d, first).1
    ensures var retry := Outcome(d, first).0.(converted := converted);
            && Holds(retry.backup, name, d.source[name])
            && ValidIo(retry, second) && !Outcome(retry, second).1
            && var s := Outcome(retry, second).0; name !in s.source && name !in s.backup
  {
    var items := ListingOf(d.source);
    first := Io({}, false, false, items, {}, true, [None], {}, {});
    var cleared := BackupCleared(d, {});
    NoFailures(cleared, items);
    SetAsideEnds(cleared, items, {});
    assert Outcome(d, first) == (AfterSetAside(cleared, items, {}).0, false);
    var retry := Outcome(d, first).0.(converted := converted);
    second := Io({}, true, false, [None], {}, false, [None], {}, {});
    assert Outcome(retry, second) == (BackupCleared(retry, {}), false);
  }

  // ----- The swap, step by step -----

  /** The three directories, with every state they pass through and the names a rename replaced. */
  class RegionStore<E> {
    var source: map<string, E>
    var backup: map<string, E>
    var converted: map<string, E>
    ghost var history: seq<Dirs<E>>
    ghost var clobbered: set<string>

    ghost function Now(): Dirs<E>
      reads this
    {
      Dirs(source, backup, converted)
    }

    method DeleteBackup(leaves: set<string>)
      modifies this
      ensures Now() == BackupCleared(old(Now()), leaves)
      ensures history == old(history) + [Now()] && clobbered == old(clobbered)
    {
      backup := Restrict(backup, leaves);
      history := history + [Now()];
    }

    method RenameToBackup(name: string)
      requires name in source
      modifies this
      ensures Now() == SetAside(old(Now()), name)
      ensures history == old(history) + [Now()]
      ensures clobbered == old(clobbered) + if name in old(backup) then {name} else {}
    {
      clobbered := clobbered + if name in backup then {name} else {};
      backup := backup[name := source[name]];
      source := source - {name};
      history := history + [Now()];
    }

    method RenameToSource(name: string)
      requires name in converted
      modifies this
      ensures Now() == Land(old(Now()), name)
      ensures history == old(history) + [Now()]
      ensures clobbered == old(clobbered) + if name in old(source) then {name} else {}
    {
      clobbered := clobbered + if name in source then {name} else {};
      source := source[name := converted[name]];
      converted := converted - {name};
      history := history + [Now()];
    }

    /** The renames that may replace an entry: regions over a stale backup, and shared non-region names. */
    ghost function MayClobber(d: Dirs<E>, io: Io): set<string> {
      (set name | name in d.source && IsRegion(name) && name in d.backup && name in io.staleBackup)
      + (set name | name in d.source && name in d.converted && !IsRegion(name))
    }

    method ReplaceRegionDirectory(io: Io) returns (ok: bool)
      requires ValidIo(Now(), io) && clobbered == {} && history == []
      modifies this
      ensures (Now(), ok) == Outcome(old(Now()), io)
      // Every state passed through, from the first delete up to the final one, is safe.
      ensures forall k: nat :: k < |history| && (ok ==> k < |history| - 1) ==>
                Safe(BackupCleared(old(Now()), io.staleBackup), history[k])
      ensures history != [] && history[|history| - 1] == Now()
      ensures clobbered <= MayClobber(old(Now()), io)
      ensures io.staleBackup == {} && (forall name :: name in old(converted) ==> IsRegion(name)) ==> clobbered == {}
    {
      ghost var d := Now();
      DeleteBackup(io.staleBackup);
      ghost var cleared := Now();
      if io.createFails || io.readSourceFails {
        return false;
      }
      ok := SetRegionsAside(d, io);
      if !ok || io.readConvertedFails {
        return false;
      }
      SetAsideEnds(cleared, io.sourceListing, io.setAsideFails);
      ok := LandConverted(d, Now(), io);
      if !ok {
        return false;
      }
      DeleteBackup(io.finalLeaves);
      return true;
    }

    ghost predicate SafeSoFar(d: Dirs<E>, io: Io)
      reads this
    {
      && (forall k: nat :: k < |history| ==> Safe(BackupCleared(d, io.staleBackup), history[k]))
      && history != [] && history[|history| - 1] == Now()
      && clobbered <= MayClobber(d, io)
    }

    method SetRegionsAside(ghost d: Dirs<E>, io: Io) returns (ok: bool)
      requires Now() == BackupCleared(d, io.staleBackup) && ValidIo(d, io) && SafeSoFar(d, io)
      modifies this
      ensures (Now(), ok) == AfterSetAside(old(Now()), io.sourceListing, io.setAsideFails)
      ensures SafeSoFar(d, io)
    {
      hide AfterSetAside, Lists, BackupCleared, Safe, SettingAside, IsRegion, MayClobber;
      ghost var cleared := Now();
      var items := io.sourceListing;
      ClearedIsLike(d, io.staleBackup);
      NoItems(cleared);
      for i := 0 to |items|
        invariant (Now(), true) == AfterSetAside(cleared, items[..i], io.setAsideFails)
        invariant SafeSoFar(d, io)
      {
        NextSetAside(cleared, items, i, io.setAsideFails);
        if items[i].None? {
          SetAsideStops(cleared, items, i + 1, io.setAsideFails);
          return false;
        }
        var name := items[i].value;
        if IsRegion(name) {
          if name in io.setAsideFails {
            SetAsideStops(cleared, items, i + 1, io.setAsideFails);
            return false;
          }
          RenameToBackup(name);
          ClobbersStaleOnly(d, io, name);
        }
      }
      assert items[..|items|] == items;
      return true;
    }

    lemma ClobbersStaleOnly(d: Dirs<E>, io: Io, name: string)
      requires name in d.source && IsRegion(name)
      ensures name in BackupCleared(d, io.staleBackup).backup ==> name in MayClobber(d, io)
    {
    }

    lemma ClobbersSharedOnly(d: Dirs<E>, io: Io, name: string)
      requires name in d.converted
      ensures name in d.source && !IsRegion(name) ==> name in MayClobber(d, io)
    {
    }

    method LandConverted(ghost d: Dirs<E>, ghost aside: Dirs<E>, io: Io) returns (ok: bool)
      requires Now() == aside && AllAside(BackupCleared(d, io.staleBackup), aside)
      requires ValidIo(d, io) && SafeSoFar(d, io)
      modifies this
      ensures (Now(), ok) == AfterLanding(aside, io.convertedListing, io.landFails)
      ensures SafeSoFar(d, io)
    {
      hide AfterLanding, Lists, Safe, Landing, AllAside, IsRegion, MayClobber, BackupCleared;
      ghost var cleared := BackupCleared(d, io.staleBackup);
      ClearedIsLike(d, io.staleBackup);
      var items := io.convertedListing;
      NoItems(aside);
      for i := 0 to |items|
        invariant (Now(), true) == AfterLanding(aside, items[..i], io.landFails)
        invariant SafeSoFar(d, io)
      {
        NextLanding(cleared, aside, items, i, io.landFails);
        if items[i].None? {
          LandingStops(aside, items, i + 1, io.landFails);
          return false;
        }
        var name := items[i].value;
        if name in io.landFails {
          LandingStops(aside, items, i + 1, io.landFails);
          return false;
        }
        RenameToSource(name);
        ClobbersSharedOnly(d, io, name);
      }
      assert items[..|items|] == items;
      return true;
    }
  }

  lemma NoItems<E>(d: Dirs<E>)
    ensures forall items: Listing, fails: set<string> :: items == [] ==>
              AfterSetAside(d, items, fails) == (d, true) && AfterLanding(d, items, fails) == (d, true)
  {
  }

  lemma ClearedIsLike<E>(d: Dirs<E>, leaves: set<string>)
    ensures var cleared := BackupCleared(d, leaves); cleared.source == d.source && cleared.converted == d.converted
  {
  }

  /** What the next listed source entry does. */
  lemma {:induction false} NextSetAside<E>(d: Dirs<E>, items: Listing, n: nat, fails: set<string>)
    requires Lists(items, d.source) && n < |items| && AfterSetAside(d, items[..n], fails).1
    ensures var before, after := AfterSetAside(d, items[..n], fails).0, AfterSetAside(d, items[..n + 1], fails);
            match items[n]
            case None => after == (before, false)
            case Some(name) =>
              name in d.source &&
              if !IsRegion(name) then after == (before, true)
              else if name in fails then after == (before, false)
              else
                && after == (SetAside(before, name), true) && name in before.source && Safe(d, after.0)
                && (name in before.backup ==> name in d.backup)
  {
    SetAsideStep(d, items, n, fails);
    assert items[..n + 1][..n] == items[..n];
    if items[n].Some? && IsRegion(items[n].value) {
      var before := AfterSetAside(d, items[..n], fails).0;
      assert items[n] !in items[..n];
      assert items[n].value in before.source;
      SetAsideOne(d, before, items[..n], items[n].value);
      SettingAsideIsSafe(d, SetAside(before, items[n].value), items[..n] + [items[n]]);
    }
  }

  /** What the next listed converted entry does. */
  lemma {:induction false} NextLanding<E>(d: Dirs<E>, aside: Dirs<E>, items: Listing, n: nat, fails: set<string>)
    requires AllAside(d, aside) && Lists(items, d.converted)
    requires n < |items| && AfterLanding(aside, items[..n], fails).1
    ensures var before, after := AfterLanding(aside, items[..n], fails).0, AfterLanding(aside, items[..n + 1], fails);
            match items[n]
            case None => after == (before, false)
            case Some(name) =>
              name in d.converted &&
              if name in fails then after == (before, false)
              else
                && after == (Land(before, name), true) && name in before.converted && Safe(d, after.0)
                && (name in before.source ==> name in d.source && !IsRegion(name))
  {
    LandingStep(d, aside, items, n, fails);
    assert items[..n + 1][..n] == items[..n];
    if items[n].Some? && items[n].value !in fails {
      var before := AfterLanding(aside, items[..n], fails).0;
      assert items[n] !in items[..n];
      assert !Landed(d, before, items[n].value);
      LandOne(d, before, items[..n], items[n].value);
      LandingIsSafe(d, Land(before, items[n].value), items[..n] + [items[n]]);
    }
  }

  /** Once an error stops a pass, the remaining items change nothing. */
  lemma {:induction false} SetAsideStops<E>(d: Dirs<E>, items: Listing, n: nat, fails: set<string>)
    requires n <= |items| && !AfterSetAside(d, items[..n], fails).1
    ensures AfterSetAside(d, items, fails) == AfterSetAside(d, items[..n], fails)
    decreases |items| - n
  {
    if n < |items| {
      assert items[..n + 1][..n] == items[..n];
      SetAsideStops(d, items, n + 1, fails);
    } else {
      assert items[..n] == items;
    }
  }

  lemma {:induction false} LandingStops<E>(d: Dirs<E>, items: Listing, n: nat, fails: set<string>)
    requires n <= |items| && !AfterLanding(d, items[..n], fails).1
    ensures AfterLanding(d, items, fails) == AfterLanding(d, items[..n], fails)
    decreases |items| - n
  {
    if n < |items| {
      assert items[..n + 1][..n] == items[..n];
      LandingStops(d, items, n + 1, fails);
    } else {
      assert items[..n] == items;
    }
  }
}
