/**
 * The file provisioning engine: stages every entry of the SMAPI file
 * manifest under the base directory "StardewValley" of external storage,
 * copying bundled assets or extracting members of the game package. In check
 * mode it only fills in targets that do not exist yet.
 */
module SmapiUnpacker {
  import opened Entity
  import opened Files

  /** Where entry bytes come from: the installer's bundled assets and the game package archive. */
  datatype Sources = Sources(assets: map<string, seq<byte>>, archive: map<string, seq<byte>>)

  /** The base directory, "StardewValley" under the external storage directory. */
  function BaseDir(storage: Path): (base: Path)
    ensures |base| > 0
  {
    storage + ["StardewValley"]
  }

  /** The marker that keeps the media scanner out of the base directory. */
  function NoMediaPath(base: Path): Path
  {
    base + [".nomedia"]
  }

  /** Where an entry is staged. */
  function Target(base: Path, e: ManifestEntry): (t: Path)
    requires |base| > 0
    ensures |t| > 0
  {
    base + e.targetPath
  }

  // ---------------------------------------------------------------------
  // Reference definition
  // ---------------------------------------------------------------------

  /**
   * One entry. `ok` is false only when the parent directory of a bundled
   * asset's target was missing and could not be created: the fatal case.
   * A missing asset and a target that cannot be opened are swallowed.
   */
  function ApplyEntry(s: Fs, env: Env, src: Sources, base: Path, e: ManifestEntry, checkMode: bool): Outcome
    requires |base| > 0
  {
    var target := Target(base, e);
    if e.origin == BundledAsset then
      if checkMode && Exists(s, target) then Outcome(true, s)
      else if e.assetPath !in src.assets then Outcome(true, s)
      else
        var parent := Parent(target);
        var made := if Exists(s, parent) then Outcome(true, s) else Mkdirs(s, env, parent);
        if !made.ok then Outcome(false, made.fs)
        else Outcome(true, WriteFile(made.fs, env, target, src.assets[e.assetPath]))
    else if e.origin == PackageZipEntry then
      if checkMode && Exists(s, target) then Outcome(true, s)
      else Outcome(true, UnpackEntry(s, src.archive, e.assetPath, target))
    else Outcome(true, s)
  }

  /** The entries in manifest order, stopping at the first fatal one. */
  function ApplyEntries(s: Fs, env: Env, src: Sources, base: Path, es: seq<ManifestEntry>, checkMode: bool): Outcome
    requires |base| > 0
    decreases |es|
  {
    if es == [] then Outcome(true, s)
    else
      var first := ApplyEntry(s, env, src, base, es[0], checkMode);
      if !first.ok then first
      else ApplyEntries(first.fs, env, src, base, es[1..], checkMode)
  }

  /** Creates the .nomedia marker if it is absent; a failure is ignored. */
  function NoMedia(s: Fs, env: Env, base: Path): Fs
  {
    var marker := NoMediaPath(base);
    if Exists(s, marker) then s else CreateNewFile(s, env, marker)
  }

  /**
   * The whole call: fails when the manifest did not load or the base
   * directory is absent and cannot be created, and otherwise is the run of
   * the entries after the .nomedia marker.
   */
  function UnpackSmapi(s: Fs, env: Env, src: Sources, manifest: Option<seq<ManifestEntry>>,
                       storage: Path, checkMode: bool): Outcome
  {
    match manifest
    case None => Outcome(false, s)
    case Some(es) =>
      var base := BaseDir(storage);
      var made := if Exists(s, base) then Outcome(true, s) else Mkdir(s, env, base);
      if !made.ok then made
      else ApplyEntries(NoMedia(made.fs, env, base), env, src, base, es, checkMode)
  }

  // ---------------------------------------------------------------------
  // The method
  // ---------------------------------------------------------------------

  /**
   * Stages one entry: the body of the loop over the manifest. Returns false
   * only when a bundled asset's parent directory is missing and cannot be
   * created.
   */
  method StageEntry(fs: FileSystem, src: Sources, base: Path, e: ManifestEntry, checkMode: bool)
    returns (ok: bool)
    requires |base| > 0
    modifies fs
    ensures Outcome(ok, fs.State()) == ApplyEntry(old(fs.State()), fs.env, src, base, e, checkMode)
  {
    var target := Target(base, e);
    if e.origin == BundledAsset {
      var targetExists := fs.PathExists(target);
      if !checkMode || !targetExists {
        if e.assetPath in src.assets {
          var parent := Parent(target);
          var parentExists := fs.PathExists(parent);
          if !parentExists {
            var made := fs.MakeDirs(parent);
            if !made {
              return false;
            }
          }
          fs.CopyInto(target, src.assets[e.assetPath]);
        }
      }
    } else if e.origin == PackageZipEntry {
      var targetExists := fs.PathExists(target);
      if !checkMode || !targetExists {
        fs.ExtractEntry(src.archive, e.assetPath, target);
      }
    }
    return true;
  }

  /**
   * Extracts the SMAPI files into external storage: loads the entry list,
   * ensures the base directory and its .nomedia marker, then stages each
   * entry in order, returning false at once when a directory cannot be
   * created.
   */
  method UnpackSmapiFiles(fs: FileSystem, src: Sources, manifest: Option<seq<ManifestEntry>>,
                          storage: Path, checkMode: bool) returns (ok: bool)
    modifies fs
    ensures Outcome(ok, fs.State()) == UnpackSmapi(old(fs.State()), fs.env, src, manifest, storage, checkMode)
  {
    if manifest.None? {
      return false;
    }
    var entries := manifest.value;
    var base := BaseDir(storage);
    var baseExists := fs.PathExists(base);
    if !baseExists {
      var made := fs.MakeDir(base);
      if !made {
        return false;
      }
    }
    var noMedia := NoMediaPath(base);
    var noMediaExists := fs.PathExists(noMedia);
    if !noMediaExists {
      fs.CreateFile(noMedia);
    }
    ghost var start := fs.State();
    var i := 0;
    while i < |entries|
      invariant 0 <= i <= |entries|
      invariant ApplyEntries(fs.State(), fs.env, src, base, entries[i..], checkMode)
             == ApplyEntries(start, fs.env, src, base, entries, checkMode)
    {
      assert entries[i..][0] == entries[i] && entries[i..][1..] == entries[i + 1..];
      var staged := StageEntry(fs, src, base, entries[i], checkMode);
      if !staged {
        return false;
      }
      i := i + 1;
    }
    return true;
  }

  // ---------------------------------------------------------------------
  // Failure channels
  // ---------------------------------------------------------------------

  /**
   * The call fails before touching any entry, leaving storage as it was, when
   * the entry list did not load or when the base directory is absent and a
   * single-level mkdir of it fails.
   */
  lemma EarlyFailures(s: Fs, env: Env, src: Sources, manifest: Option<seq<ManifestEntry>>,
                      storage: Path, checkMode: bool)
    ensures manifest.None? ==> UnpackSmapi(s, env, src, manifest, storage, checkMode) == Outcome(false, s)
    ensures !Exists(s, BaseDir(storage)) && !Mkdir(s, env, BaseDir(storage)).ok
            ==> UnpackSmapi(s, env, src, manifest, storage, checkMode) == Outcome(false, s)
  {
  }

  /** An entry whose origin is neither a bundled asset nor a package member changes nothing. */
  lemma UnknownOriginIgnored(s: Fs, env: Env, src: Sources, base: Path, e: ManifestEntry, checkMode: bool)
    requires |base| > 0
    requires e.origin != BundledAsset && e.origin != PackageZipEntry
    ensures ApplyEntry(s, env, src, base, e, checkMode) == Outcome(true, s)
  {
  }

  /** In check mode an entry whose target exists, of either origin, changes nothing. */
  lemma ExistingTargetSkipped(s: Fs, env: Env, src: Sources, base: Path, e: ManifestEntry)
    requires |base| > 0
    requires Exists(s, Target(base, e))
    ensures ApplyEntry(s, env, src, base, e, true) == Outcome(true, s)
  {
  }

  /**
   * A bundled-asset entry that is not skipped: a missing asset changes
   * nothing; otherwise the run fails exactly when the parent directory is
   * absent and mkdirs fails, and when it does not, the target holds the
   * asset's bytes if it can be opened for writing. No other file changes or
   * appears, and the only new directories are ancestors of the target.
   */
  lemma BundledAssetEntry(s: Fs, env: Env, src: Sources, base: Path, e: ManifestEntry, checkMode: bool)
    requires |base| > 0
    requires e.origin == BundledAsset
    requires !checkMode || !Exists(s, Target(base, e))
    ensures var o := ApplyEntry(s, env, src, base, e, checkMode);
      var target := Target(base, e);
      && (e.assetPath !in src.assets ==> o == Outcome(true, s))
      && (e.assetPath in src.assets ==>
            (!o.ok <==> !Exists(s, Parent(target)) && !Mkdirs(s, env, Parent(target)).ok))
      && ((e.assetPath in src.assets && o.ok && target !in env.unwritable && target !in s.dirs
           && (Exists(s, Parent(target)) ==> IsDir(s, Parent(target))))
          ==> target in o.fs.files && o.fs.files[target] == src.assets[e.assetPath])
      && (forall q :: q != target && q in s.files ==> q in o.fs.files && o.fs.files[q] == s.files[q])
      && o.fs.files.Keys <= s.files.Keys + {target}
      && (forall x :: x in o.fs.dirs && x !in s.dirs ==> 0 < |x| < |target| && x <= target)
  {
    var target := Target(base, e);
    if e.assetPath in src.assets {
      assert Parent(target) <= target;
      var parent := Parent(target);
      MkdirsSpec(s, env, parent);
      MkdirsAddsPrefixes(s, env, parent, target);
      var made := if Exists(s, parent) then Outcome(true, s) else Mkdirs(s, env, parent);
      WriteFileSpec(made.fs, env, target, src.assets[e.assetPath]);
    }
  }

  /**
   * A package-member entry that is not skipped never fails; the target gets
   * the member's bytes when the archive has it and the target is not a
   * directory, and nothing changes when the member is missing.
   */
  lemma PackageEntry(s: Fs, env: Env, src: Sources, base: Path, e: ManifestEntry, checkMode: bool)
    requires |base| > 0
    requires e.origin == PackageZipEntry
    requires !checkMode || !Exists(s, Target(base, e))
    ensures var o := ApplyEntry(s, env, src, base, e, checkMode);
      var target := Target(base, e);
      && o.ok
      && (e.assetPath !in src.archive ==> o.fs == s)
      && ((e.assetPath in src.archive && target !in s.dirs)
          ==> target in o.fs.files && o.fs.files[target] == src.archive[e.assetPath])
  {
  }

  // ---------------------------------------------------------------------
  // Runs of entries
  // ---------------------------------------------------------------------

  /** Running `a + b` is running `a`, then `b` from where `a` left off unless `a` failed. */
  lemma {:induction false} ApplyEntriesAppend(s: Fs, env: Env, src: Sources, base: Path,
                                              a: seq<ManifestEntry>, b: seq<ManifestEntry>, checkMode: bool)
    requires |base| > 0
    ensures var o := ApplyEntries(s, env, src, base, a, checkMode);
      ApplyEntries(s, env, src, base, a + b, checkMode)
        == if o.ok then ApplyEntries(o.fs, env, src, base, b, checkMode) else o
    decreases |a|
  {
    if a == [] {
      assert a + b == b;
    } else {
      assert (a + b)[0] == a[0] && (a + b)[1..] == a[1..] + b;
      var first := ApplyEntry(s, env, src, base, a[0], checkMode);
      if first.ok {
        ApplyEntriesAppend(first.fs, env, src, base, a[1..], b, checkMode);
      }
    }
  }

  /** After a fatal entry nothing later is processed: the run ends with that entry's outcome. */
  lemma FatalEntryStopsRun(s: Fs, env: Env, src: Sources, base: Path,
                           a: seq<ManifestEntry>, e: ManifestEntry, b: seq<ManifestEntry>, checkMode: bool)
    requires |base| > 0
    requires ApplyEntries(s, env, src, base, a, checkMode).ok
    requires !ApplyEntry(ApplyEntries(s, env, src, base, a, checkMode).fs, env, src, base, e, checkMode).ok
    ensures ApplyEntries(s, env, src, base, a + [e] + b, checkMode)
         == ApplyEntry(ApplyEntries(s, env, src, base, a, checkMode).fs, env, src, base, e, checkMode)
  {
    ApplyEntriesAppend(s, env, src, base, a, [e] + b, checkMode);
    assert a + [e] + b == a + ([e] + b);
    assert ([e] + b)[0] == e;
  }

  /**
   * A bundled-asset entry whose asset is missing is skipped without failing:
   * the run is the same as if the entry were not in the manifest.
   */
  lemma MissingAssetSkipped(s: Fs, env: Env, src: Sources, base: Path,
                            a: seq<ManifestEntry>, e: ManifestEntry, b: seq<ManifestEntry>, checkMode: bool)
    requires |base| > 0
    requires e.origin == BundledAsset && e.assetPath !in src.assets
    ensures ApplyEntries(s, env, src, base, a + [e] + b, checkMode)
         == ApplyEntries(s, env, src, base, a + b, checkMode)
  {
    ApplyEntriesAppend(s, env, src, base, a, [e] + b, checkMode);
    ApplyEntriesAppend(s, env, src, base, a, b, checkMode);
    assert a + [e] + b == a + ([e] + b);
    assert ([e] + b)[0] == e && ([e] + b)[1..] == b;
  }

  /** One entry never removes a file or a directory, and keeps the storage valid. */
  lemma ApplyEntryGrows(s: Fs, env: Env, src: Sources, base: Path, e: ManifestEntry, checkMode: bool)
    requires |base| > 0
    ensures var o := ApplyEntry(s, env, src, base, e, checkMode);
      Grows(s, o.fs) && (Valid(s) ==> Valid(o.fs))
  {
    var target := Target(base, e);
    if e.origin == BundledAsset && e.assetPath in src.assets {
      var parent := Parent(target);
      MkdirsSpec(s, env, parent);
      var made := if Exists(s, parent) then Outcome(true, s) else Mkdirs(s, env, parent);
      WriteFileSpec(made.fs, env, target, src.assets[e.assetPath]);
    } else if e.origin == PackageZipEntry {
      UnpackEntrySpec(s, src.archive, e.assetPath, target);
    }
  }

  /** A run of entries never removes a file or a directory, and keeps the storage valid. */
  lemma {:induction false} ApplyEntriesGrows(s: Fs, env: Env, src: Sources, base: Path,
                                             es: seq<ManifestEntry>, checkMode: bool)
    requires |base| > 0
    ensures var o := ApplyEntries(s, env, src, base, es, checkMode);
      Grows(s, o.fs) && (Valid(s) ==> Valid(o.fs))
    decreases |es|
  {
    if es != [] {
      var first := ApplyEntry(s, env, src, base, es[0], checkMode);
      ApplyEntryGrows(s, env, src, base, es[0], checkMode);
      if first.ok {
        ApplyEntriesGrows(first.fs, env, src, base, es[1..], checkMode);
      }
    }
  }

  /**
   * The only fatal failure among the entries is creating a bundled asset's
   * parent directory: when every such parent already exists, the run succeeds.
   */
  lemma {:induction false} ParentsPresentRunSucceeds(s: Fs, env: Env, src: Sources, base: Path,
                                                     es: seq<ManifestEntry>, checkMode: bool)
    requires |base| > 0
    requires forall e :: e in es && e.origin == BundledAsset && e.assetPath in src.assets
               ==> Exists(s, Parent(Target(base, e)))
    ensures ApplyEntries(s, env, src, base, es, checkMode).ok
    decreases |es|
  {
    if es != [] {
      var first := ApplyEntry(s, env, src, base, es[0], checkMode);
      ApplyEntryGrows(s, env, src, base, es[0], checkMode);
      assert first.ok;
      forall e | e in es[1..] && e.origin == BundledAsset && e.assetPath in src.assets
        ensures Exists(first.fs, Parent(Target(base, e)))
      {
        assert e in es;
      }
      ParentsPresentRunSucceeds(first.fs, env, src, base, es[1..], checkMode);
    }
  }

  /**
   * A loaded manifest whose bundled-asset parents all exist, with the base
   * directory present, makes the call succeed whatever happens to the
   * .nomedia marker: its failure does not change the result.
   */
  lemma SucceedsWithoutDirectoryFailure(s: Fs, env: Env, src: Sources, es: seq<ManifestEntry>,
                                        storage: Path, checkMode: bool)
    requires Exists(s, BaseDir(storage))
    requires forall e :: e in es && e.origin == BundledAsset && e.assetPath in src.assets
               ==> Exists(s, Parent(Target(BaseDir(storage), e)))
    ensures UnpackSmapi(s, env, src, Some(es), storage, checkMode).ok
  {
    var base := BaseDir(storage);
    var n := NoMedia(s, env, base);
    assert Grows(s, n);
    ParentsPresentRunSucceeds(n, env, src, base, es, checkMode);
  }

  /**
   * Entry `k` of `es` is where a run from `s` stops: the entries before it
   * succeeded, and it is a bundled asset that is not skipped, whose asset
   * exists, whose parent directory is absent and cannot be made by mkdirs.
   */
  predicate FatalAt(s: Fs, env: Env, src: Sources, base: Path, es: seq<ManifestEntry>, k: int, checkMode: bool)
    requires |base| > 0
    requires 0 <= k < |es|
  {
    var m := ApplyEntries(s, env, src, base, es[..k], checkMode);
    var e := es[k];
    var target := Target(base, e);
    && m.ok
    && e.origin == BundledAsset
    && !(checkMode && Exists(m.fs, target))
    && e.assetPath in src.assets
    && !Exists(m.fs, Parent(target))
    && !Mkdirs(m.fs, env, Parent(target)).ok
  }

  /**
   * A run of entries fails exactly when some entry is fatal in the sense of
   * `FatalAt`: creating a bundled asset's missing parent is the only way an
   * entry can fail.
   */
  lemma {:induction false} RunFailsOnlyAtParent(s: Fs, env: Env, src: Sources, base: Path,
                                                es: seq<ManifestEntry>, checkMode: bool)
    requires |base| > 0
    ensures !ApplyEntries(s, env, src, base, es, checkMode).ok
            <==> exists k :: 0 <= k < |es| && FatalAt(s, env, src, base, es, k, checkMode)
    decreases |es|
  {
    if es != [] {
      var first := ApplyEntry(s, env, src, base, es[0], checkMode);
      assert es[..0] == [];
      if !first.ok {
        assert FatalAt(s, env, src, base, es, 0, checkMode);
      } else {
        RunFailsOnlyAtParent(first.fs, env, src, base, es[1..], checkMode);
        assert !FatalAt(s, env, src, base, es, 0, checkMode);
        forall k | 1 <= k < |es|
          ensures FatalAt(s, env, src, base, es, k, checkMode) <==> FatalAt(first.fs, env, src, base, es[1..], k - 1, checkMode)
        {
          assert es[..k][0] == es[0] && es[..k][1..] == es[1..][..k - 1];
          assert es[1..][k - 1] == es[k];
        }
        if !ApplyEntries(s, env, src, base, es, checkMode).ok {
          var k' :| 0 <= k' < |es| - 1 && FatalAt(first.fs, env, src, base, es[1..], k', checkMode);
          assert FatalAt(s, env, src, base, es, k' + 1, checkMode);
        }
      }
    }
  }

  /**
   * The call returns false exactly when the entry list did not load, the
   * base directory is absent and mkdir of it fails, or an entry is fatal in
   * the run that starts after the .nomedia marker. In particular it returns
   * true on a fresh install where every directory it needs can be created.
   */
  lemma UnpackFailsOnlyAtDirectory(s: Fs, env: Env, src: Sources, manifest: Option<seq<ManifestEntry>>,
                                   storage: Path, checkMode: bool)
    ensures var base := BaseDir(storage);
      var made := if Exists(s, base) then Outcome(true, s) else Mkdir(s, env, base);
      (!UnpackSmapi(s, env, src, manifest, storage, checkMode).ok <==>
         || manifest.None?
         || !made.ok
         || exists k :: 0 <= k < |manifest.value|
              && FatalAt(NoMedia(made.fs, env, base), env, src, base, manifest.value, k, checkMode))
  {
    if manifest.Some? {
      var base := BaseDir(storage);
      var made := if Exists(s, base) then Outcome(true, s) else Mkdir(s, env, base);
      if made.ok {
        RunFailsOnlyAtParent(NoMedia(made.fs, env, base), env, src, base, manifest.value, checkMode);
      }
    }
  }

  // ---------------------------------------------------------------------
  // Check mode
  // ---------------------------------------------------------------------

  /** One entry in check mode keeps every existing file as it was. */
  lemma ApplyEntryKeepsFiles(s: Fs, env: Env, src: Sources, base: Path, e: ManifestEntry)
    requires |base| > 0
    ensures KeepsFiles(s, ApplyEntry(s, env, src, base, e, true).fs)
  {
    var target := Target(base, e);
    if e.origin == BundledAsset && !Exists(s, target) && e.assetPath in src.assets {
      var parent := Parent(target);
      MkdirsSpec(s, env, parent);
      var made := if Exists(s, parent) then Outcome(true, s) else Mkdirs(s, env, parent);
      WriteFileSpec(made.fs, env, target, src.assets[e.assetPath]);
    } else if e.origin == PackageZipEntry && !Exists(s, target) {
      UnpackEntrySpec(s, src.archive, e.assetPath, target);
    }
  }

  /** A run of entries in check mode never rewrites a file that existed before it. */
  lemma {:induction false} ApplyEntriesKeepsFiles(s: Fs, env: Env, src: Sources, base: Path, es: seq<ManifestEntry>)
    requires |base| > 0
    ensures KeepsFiles(s, ApplyEntries(s, env, src, base, es, true).fs)
    decreases |es|
  {
    if es != [] {
      var first := ApplyEntry(s, env, src, base, es[0], true);
      ApplyEntryKeepsFiles(s, env, src, base, es[0]);
      if first.ok {
        ApplyEntriesKeepsFiles(first.fs, env, src, base, es[1..]);
      }
    }
  }

  /** The whole call in check mode never rewrites a file that existed before it, whether it succeeds or not. */
  lemma CheckModeKeepsExistingFiles(s: Fs, env: Env, src: Sources, manifest: Option<seq<ManifestEntry>>, storage: Path)
    ensures KeepsFiles(s, UnpackSmapi(s, env, src, manifest, storage, true).fs)
  {
    if manifest.Some? {
      var base := BaseDir(storage);
      var made := if Exists(s, base) then Outcome(true, s) else Mkdir(s, env, base);
      if made.ok {
        var n := NoMedia(made.fs, env, base);
        assert KeepsFiles(s, n);
        ApplyEntriesKeepsFiles(n, env, src, base, manifest.value);
      }
    }
  }

  /**
   * An entry run in check mode that left storage at `o`, followed by any
   * growth of the storage to `t`, is a no-op at `t`: what it staged now
   * exists, and what it could not stage still cannot be staged.
   */
  lemma EntrySettled(s: Fs, t: Fs, env: Env, src: Sources, base: Path, e: ManifestEntry)
    requires |base| > 0
    requires Valid(s) && Valid(t)
    requires ApplyEntry(s, env, src, base, e, true).ok
    requires Grows(ApplyEntry(s, env, src, base, e, true).fs, t)
    ensures ApplyEntry(t, env, src, base, e, true) == Outcome(true, t)
  {
  }

  /**
   * A check-mode entry that failed fails again, changing nothing, when it is
   * run on the storage it left behind: its parent is still absent and mkdirs
   * of it fails at the same point.
   */
  lemma FailedEntryAgain(s: Fs, env: Env, src: Sources, base: Path, e: ManifestEntry)
    requires |base| > 0
    requires !ApplyEntry(s, env, src, base, e, true).ok
    ensures var o := ApplyEntry(s, env, src, base, e, true);
      ApplyEntry(o.fs, env, src, base, e, true) == o
  {
    var target := Target(base, e);
    var parent := Parent(target);
    MkdirsSpec(s, env, parent);
    MkdirsAddsPrefixes(s, env, parent, target);
    MkdirsFailureLeavesAbsent(s, env, parent);
    MkdirsAgain(s, env, parent);
  }

  /**
   * A check-mode run of entries, repeated, has the same result: on any
   * grown, valid storage after a success, and on the storage it left after
   * a failure, the second run returns the same flag and changes nothing.
   */
  lemma {:induction false} RunSettled(s: Fs, t: Fs, env: Env, src: Sources, base: Path, es: seq<ManifestEntry>)
    requires |base| > 0
    requires Valid(s) && Valid(t)
    requires Grows(ApplyEntries(s, env, src, base, es, true).fs, t)
    requires !ApplyEntries(s, env, src, base, es, true).ok ==> t == ApplyEntries(s, env, src, base, es, true).fs
    ensures ApplyEntries(t, env, src, base, es, true) == Outcome(ApplyEntries(s, env, src, base, es, true).ok, t)
    decreases |es|
  {
    if es != [] {
      var first := ApplyEntry(s, env, src, base, es[0], true);
      ApplyEntryGrows(s, env, src, base, es[0], true);
      if first.ok {
        ApplyEntriesGrows(first.fs, env, src, base, es[1..], true);
        EntrySettled(s, t, env, src, base, es[0]);
        RunSettled(first.fs, t, env, src, base, es[1..]);
      } else {
        FailedEntryAgain(s, env, src, base, es[0]);
      }
    }
  }

  /**
   * Idempotence in check mode: a second check-mode call with the same
   * inputs, on the storage the first left behind, returns the same flag and
   * changes nothing, whether the first call succeeded or failed.
   */
  lemma CheckModeIdempotent(s: Fs, env: Env, src: Sources, manifest: Option<seq<ManifestEntry>>, storage: Path)
    requires Valid(s)
    ensures var first := UnpackSmapi(s, env, src, manifest, storage, true);
      UnpackSmapi(first.fs, env, src, manifest, storage, true) == first
  {
    if manifest.Some? {
      var es := manifest.value;
      var base := BaseDir(storage);
      var made := if Exists(s, base) then Outcome(true, s) else Mkdir(s, env, base);
      if made.ok {
        var n := NoMedia(made.fs, env, base);
        assert Valid(n);
        var first := ApplyEntries(n, env, src, base, es, true);
        ApplyEntriesGrows(n, env, src, base, es, true);
        assert Exists(first.fs, base);
        assert NoMedia(first.fs, env, base) == first.fs;
        RunSettled(n, first.fs, env, src, base, es);
      }
    }
  }

  /** In either mode the whole call keeps the storage valid: no path becomes both a file and a directory. */
  lemma UnpackSmapiValid(s: Fs, env: Env, src: Sources, manifest: Option<seq<ManifestEntry>>,
                         storage: Path, checkMode: bool)
    requires Valid(s)
    ensures Valid(UnpackSmapi(s, env, src, manifest, storage, checkMode).fs)
  {
    if manifest.Some? {
      var base := BaseDir(storage);
      var made := if Exists(s, base) then Outcome(true, s) else Mkdir(s, env, base);
      if made.ok {
        ApplyEntriesGrows(NoMedia(made.fs, env, base), env, src, base, manifest.value, checkMode);
      }
    }
  }
}
