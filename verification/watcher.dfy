/**
 * Download capture and rename (`MinSaludDownloader.wait_for_download_and_rename`).
 *
 * After the export button is clicked the browser writes a file into the
 * download folder with no completion callback. The watcher snapshots the
 * folder's names, polls once per tick for a new spreadsheet that is not a
 * temporary or partial download, and renames the first one it finds onto
 * `<department name><extension>`, deleting a previous file of that name.
 *
 * Time is a poll counter: poll k happens about k seconds after entry and
 * polling continues while k < timeout. What `os.listdir` reports at entry
 * and at each poll is supplied by the environment (`entry`, `polls`); the
 * `Directory` object is the folder as it stands when the rename begins.
 */
module Watcher {
  import opened Wrappers
  import opened Text

  type Bytes = seq<bv8>

  /** What one `os.path.exists` + `os.listdir` observation yields. */
  datatype Listing =
    | Missing                  // the folder does not exist
    | Files(names: set<string>)
    | Unreadable               // `os.listdir` raised

  /** The names present at entry; a missing folder gives the empty snapshot. */
  function Snapshot(entry: Listing): set<string>
    requires !entry.Unreadable?
  {
    if entry.Files? then entry.names else {}
  }

  /** The extension test, made on the lower-cased name. */
  predicate SpreadsheetName(name: string) {
    EndsWith(Lower(name), ".xls") || EndsWith(Lower(name), ".xlsx")
  }

  /** The test a new name must pass to be taken as the finished export. */
  predicate Qualifies(name: string) {
    && SpreadsheetName(name)
    && !StartsWith(name, "~")
    && !EndsWith(name, ".crdownload")
  }

  /** A name still being written by the browser ends in ".crdownload", and
      such a name already fails the spreadsheet-extension test on its own. */
  lemma PartialDownloadNeverSpreadsheet(name: string)
    requires EndsWith(name, ".crdownload")
    ensures !SpreadsheetName(name)
  {
    var n := |name|;
    assert name[n - 1] == ".crdownload"[10] == 'd';
    assert Lower(name)[n - 1] == 'd';
  }

  /** So the third conjunct of `Qualifies` is implied by the first. */
  lemma QualifiesWithoutPartialCheck(name: string)
    ensures Qualifies(name) <==> SpreadsheetName(name) && !StartsWith(name, "~")
  {
    if EndsWith(name, ".crdownload") {
      PartialDownloadNeverSpreadsheet(name);
    }
  }

  /** A listing in which nothing new qualifies (or the folder is missing). */
  predicate Quiet(before: set<string>, listing: Listing) {
    || listing.Missing?
    || (listing.Files? && forall f :: f in listing.names && f !in before ==> !Qualifies(f))
  }

  /** The scan of `archivos_actuales - archivos_antes`: visits the new names
      in an unspecified order and stops at the first that qualifies. */
  method PickNew(arrivals: set<string>) returns (choice: Option<string>)
    ensures choice.Some? ==> choice.value in arrivals && Qualifies(choice.value)
    ensures choice.None? ==> forall f :: f in arrivals ==> !Qualifies(f)
  {
    var rest := arrivals;
    choice := None;
    while rest != {}
      invariant rest <= arrivals
      invariant forall f :: f in arrivals && f !in rest ==> !Qualifies(f)
      decreases |rest|
    {
      var f :| f in rest;
      if Qualifies(f) {
        choice := Some(f);
        return;
      }
      rest := rest - {f};
    }
  }

  datatype PollResult = Hit(name: string) | NoHit | ListFailed

  /** Every poll before `upto` found the folder missing or nothing new that qualifies. */
  predicate QuietUntil(before: set<string>, polls: nat -> Listing, upto: int) {
    forall k :: 0 <= k < upto ==> Quiet(before, polls(k))
  }

  /** Poll number `poll` (counting from 0) is the first to see a new
      qualifying name, and `name` is one such name. */
  predicate FirstHit(before: set<string>, polls: nat -> Listing, timeout: int, name: string, poll: nat) {
    && poll < timeout
    && QuietUntil(before, polls, poll)
    && polls(poll).Files? && name in polls(poll).names && name !in before
    && Qualifies(name)
  }

  /** The polling loop: at most `timeout` polls; each lists the folder and
      scans what is new since `before`; the first qualifying name ends it. */
  method PollForDownload(before: set<string>, timeout: int, polls: nat -> Listing)
    returns (result: PollResult, made: nat)
    ensures made <= if timeout < 0 then 0 else timeout
    ensures result.NoHit? ==> made == (if timeout < 0 then 0 else timeout)
    ensures result.NoHit? ==> QuietUntil(before, polls, timeout)
    ensures result.Hit? ==> made >= 1 && FirstHit(before, polls, timeout, result.name, made - 1)
    ensures result.ListFailed? ==>
      made >= 1 && QuietUntil(before, polls, made - 1) && polls(made - 1).Unreadable?
  {
    made := 0;
    result := NoHit;
    while made < timeout
      invariant made <= if timeout < 0 then 0 else timeout
      invariant forall k :: 0 <= k < made ==> Quiet(before, polls(k))
    {
      var listing := polls(made);
      made := made + 1;
      match listing
      case Unreadable =>
        result := ListFailed;
        return;
      case Missing =>
      case Files(names) =>
        var choice := PickNew(names - before);
        if choice.Some? {
          result := Hit(choice.value);
          return;
        }
    }
  }

  /** The final name's extension: `os.path.splitext(nuevo_archivo)[1]`. */
  function Extension(name: string): string {
    SplitExt(name).1
  }

  /** `f"{departamento_nombre}{extension}"`. */
  function TargetName(department: string, downloaded: string): (target: string)
    ensures EndsWith(target, Extension(downloaded)) && StartsWith(target, department)
  {
    department + Extension(downloaded)
  }

  /** Length of the spreadsheet suffix a qualifying name ends in. */
  function SuffixLength(name: string): nat {
    if EndsWith(Lower(name), ".xlsx") then 5 else 4
  }

  /** Within the spreadsheet suffix the only dot is its first character. */
  lemma SuffixDots(name: string)
    requires SpreadsheetName(name)
    ensures SuffixLength(name) <= |name|
    ensures name[|name| - SuffixLength(name)] == '.'
    ensures forall j :: |name| - SuffixLength(name) < j < |name| ==> name[j] != '.'
  {
    var n, k := |name|, SuffixLength(name);
    var low := Lower(name);
    var suffix := if k == 5 then ".xlsx" else ".xls";
    assert k <= n && low[n - k..] == suffix;
    assert suffix[0] == '.' && forall i :: 1 <= i < k ==> suffix[i] != '.';
    assert low[n - k] == low[n - k..][0] == LowerChar(name[n - k]);
    LowerDot(name[n - k]);
    forall j | n - k < j < n
      ensures name[j] != '.'
    {
      assert low[j] == low[n - k..][j - (n - k)] == LowerChar(name[j]);
      LowerDot(name[j]);
    }
  }

  /** For a qualifying name the extension is its own last four or five
      characters, in their original case (".XLSX" stays ".XLSX"), except
      for a name like ".xls" whose only dots come first, which has none. */
  lemma QualifyingExtension(name: string)
    requires SpreadsheetName(name)
    ensures var k := SuffixLength(name);
      && k <= |name|
      && (Lower(name[|name| - k..]) == ".xls" || Lower(name[|name| - k..]) == ".xlsx")
      && Extension(name) == if AllDots(name[..|name| - k]) then [] else name[|name| - k..]
  {
    SuffixDots(name);
    ghost var d := |name| - SuffixLength(name);
    LastIndexOfUnique(name, '.', d);
    LowerSuffix(name, d);
  }

  lemma ExportXlsxTarget()
    ensures TargetName("Antioquia", "export.XLSX") == "Antioquia.XLSX"
  {
    var name := "export.XLSX";
    var low := Lower(name);
    assert low[6..] == ".xlsx" by {
      assert low[6] == '.' && low[7] == 'x' && low[8] == 'l' && low[9] == 's' && low[10] == 'x';
    }
    assert SuffixLength(name) == 5;
    QualifyingExtension(name);
    assert !AllDots(name[..6]) by { assert name[..6][0] == 'e'; }
  }

  /** What `os.remove` does to the folder's contents. */
  datatype FsStep = FsStep(ok: bool, files: map<string, Bytes>)

  function RemoveStep(files: map<string, Bytes>, name: string, denied: bool): FsStep {
    if !denied && name in files then FsStep(true, files - {name}) else FsStep(false, files)
  }

  /** What `os.rename` does: it fails when the source is gone, and (as on
      Windows) when a different destination already exists. */
  function RenameStep(files: map<string, Bytes>, src: string, dst: string, denied: bool): FsStep {
    if !denied && src in files && (dst == src || dst !in files) then
      FsStep(true, (files - {src})[dst := files[src]])
    else
      FsStep(false, files)
  }

  /** Faults the file system may raise as `OSError` (a locked or protected file). */
  datatype Faults = Faults(removeDenied: bool, renameDenied: bool)

  /** Lines 200-204: delete an existing target, then rename the download onto it. */
  function MoveOnto(files: map<string, Bytes>, src: string, target: string, faults: Faults): (s: FsStep)
    ensures s.ok <==>
      src in files && src != target && !faults.renameDenied && (target in files ==> !faults.removeDenied)
    ensures s.ok ==>
      && target in s.files && s.files[target] == files[src] && src !in s.files
      && forall n :: n != src && n != target ==>
           (n in s.files <==> n in files) && (n in files ==> s.files[n] == files[n])
    ensures !s.ok ==> s.files == files || (target in files && s.files == files - {target})
  {
    var cleared := if target in files then RemoveStep(files, target, faults.removeDenied) else FsStep(true, files);
    if !cleared.ok then cleared else RenameStep(cleared.files, src, target, faults.renameDenied)
  }

  /** A download that already carries its target name is deleted by the
      clean-up step and then cannot be renamed: the call fails and the file
      is gone. */
  lemma SelfNamedDownloadLost(files: map<string, Bytes>, name: string, faults: Faults)
    requires name in files && !faults.removeDenied
    ensures !MoveOnto(files, name, name, faults).ok
    ensures name !in MoveOnto(files, name, name, faults).files
  {
  }

  /** The download folder, whose contents the rename step changes in place. */
  class Directory {
    var files: map<string, Bytes>

    constructor (files: map<string, Bytes>)
      ensures this.files == files
    {
      this.files := files;
    }

    /** `os.path.exists(path)` for a name in this folder. */
    function Exists(name: string): bool
      reads this
    {
      name in files
    }

    /** `os.remove`. */
    method Remove(name: string, denied: bool) returns (ok: bool)
      modifies this
      ensures ok == RemoveStep(old(files), name, denied).ok
      ensures files == RemoveStep(old(files), name, denied).files
    {
      ok := !denied && name in files;
      if ok {
        files := files - {name};
      }
    }

    /** `os.rename`. */
    method Rename(src: string, dst: string, denied: bool) returns (ok: bool)
      modifies this
      ensures ok == RenameStep(old(files), src, dst, denied).ok
      ensures files == RenameStep(old(files), src, dst, denied).files
    {
      ok := !denied && src in files && (dst == src || dst !in files);
      if ok {
        files := (files - {src})[dst := files[src]];
      }
    }
  }

  /** Lines 198-210: clear the target name, then move the download onto it;
      an `OSError` from either call makes the result false. */
  method MoveDownload(dir: Directory, source: string, target: string, faults: Faults)
    returns (ok: bool)
    modifies dir
    ensures MoveOnto(old(dir.files), source, target, faults) == FsStep(ok, dir.files)
  {
    var removed := true;
    if dir.Exists(target) {
      removed := dir.Remove(target, faults.removeDenied);
    }
    if removed {
      ok := dir.Rename(source, target, faults.renameDenied);
    } else {
      ok := false;
    }
  }

  /** Why the watcher returned what it did. */
  datatype Outcome =
    | Renamed(source: string, target: string, poll: nat)
    | RenameFailed(source: string, target: string, poll: nat)
    | NoDownload
    | ListingFailed

  /** `wait_for_download_and_rename(departamento_nombre, timeout)`. */
  method WaitForDownloadAndRename(
    dir: Directory, department: string, timeout: int,
    entry: Listing, polls: nat -> Listing, faults: Faults)
    returns (ok: bool, outcome: Outcome)
    modifies dir
    ensures ok <==> outcome.Renamed?
    ensures entry.Unreadable? ==> outcome.ListingFailed?
    ensures outcome.ListingFailed? ==>
      || entry.Unreadable?
      || exists k :: 0 <= k < timeout && QuietUntil(Snapshot(entry), polls, k) && polls(k).Unreadable?
    ensures outcome.NoDownload? || outcome.ListingFailed? ==> dir.files == old(dir.files)
    ensures outcome.NoDownload? ==> !entry.Unreadable? && QuietUntil(Snapshot(entry), polls, timeout)
    ensures outcome.Renamed? || outcome.RenameFailed? ==>
      && !entry.Unreadable?
      && FirstHit(Snapshot(entry), polls, timeout, outcome.source, outcome.poll)
      && outcome.target == TargetName(department, outcome.source)
      && MoveOnto(old(dir.files), outcome.source, outcome.target, faults)
           == FsStep(outcome.Renamed?, dir.files)
  {
    if entry.Unreadable? {
      return false, ListingFailed;
    }
    var before := Snapshot(entry);
    var result, made := PollForDownload(before, timeout, polls);
    match result
    case ListFailed =>
      assert QuietUntil(before, polls, made - 1) && polls(made - 1).Unreadable?;
      return false, ListingFailed;
    case NoHit =>
      return false, NoDownload;
    case Hit(source) =>
      var target := TargetName(department, source);
      ok := MoveDownload(dir, source, target, faults);
      outcome := if ok then Renamed(source, target, made - 1) else RenameFailed(source, target, made - 1);
  }
}
