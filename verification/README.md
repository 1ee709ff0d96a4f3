# SMAPI installer: manifest resolver and file provisioning, in Dafny

This project models two routines of `CommonLogic` in the SMAPI Android installer.
The installer adapts an installed Stardew Valley package so that the SMAPI mod loader can run inside it.

- **Compatibility-manifest resolver** (`findAllApkFileManifest`). It starts from the bundled default
  `ApkFilesManifest` and adds the manifest of every subdirectory of the `compat` folder that has a
  manifest file that parses. It then sorts the list in place, descending by `minBuildCode`, with a
  stable sort. In `resolver.dfy` (module `ManifestResolver`), the method builds the list in a loop,
  copies it into an array and sorts the array in place with a stable insertion sort. The method is
  proved against a reference sort, `StableSortByBuildCode`. The lemmas prove that this reference sort
  is ordered, is a permutation and is stable, and that any stable descending sort gives the same list.
- **File provisioning engine** (`unpackSmapiFiles`). It walks the SMAPI file manifest, a list of
  `ManifestEntry` records. Each target is staged under `<external storage>/StardewValley`. Origin 0
  copies a bundled asset, origin 1 extracts a member of the game package, and any other origin is
  ignored. In check mode, targets that already exist are left alone. Failing to create the base
  directory or a bundled asset's parent directory is fatal. A missing asset, a target that cannot be
  opened, and a failed `.nomedia` marker are all swallowed. In `unpacker.dfy` (module
  `SmapiUnpacker`), the method `UnpackSmapiFiles` runs this loop over a mutable `FileSystem` object.
  It is proved equal to the reference function `UnpackSmapi`. The lemmas state the failure channels
  and show that check mode never rewrites an existing file and is idempotent.
- `files.dfy` (module `Files`) models the storage. It covers files with contents, directories, and
  the `java.io.File` operations the engine uses (`exists`, `mkdir`, `mkdirs`, `createNewFile`,
  opening for output), plus the extraction primitive. Each operation is a function on a storage
  value, and a method of class `FileSystem` performs the same operation in place.
  Environmental failures are an input (`Env`): the directories `mkdir` cannot create and the paths
  that cannot be opened for writing. Bundled assets and archive members are maps from name to bytes.
- `entity.dfy` (module `Entity`) holds the value types: `ManifestEntry`, `ApkFilesManifest`, `Option`,
  `byte` and `Path`. A `Path` is the list of a path's name components, so that parent and join are
  computable.

Four behaviours of `CommonLogic.java` that the model reproduces are easy to miss:
- The bundled default is sorted with the others. Among the manifests with its build code it comes
  first; manifests with a higher build code come before it, so it is not always first.
- A bundled asset's missing parent is created with `mkdirs`, which creates every missing ancestor.
- An entry with an origin other than 0 or 1 is skipped without a log message or a failure.
- A bundled asset that cannot be opened is skipped: the error is logged and the loop goes on.

## Model

| member | source | states |
|---|---|---|
| `ManifestResolver.FindAllApkFileManifest` | app/src/main/java/com/zane/smapiinstaller/logic/CommonLogic.java:99-116 | The result is the stable descending sort of the bundled default followed by the parsed discovered manifests. It is ordered non-increasing by minBuildCode and is a permutation of the collected list. It contains the default and exactly the discovered manifests that parsed. Per build code it keeps discovery order, and the default is first among the manifests with its build code. |
| `ManifestResolver.Present` | app/src/main/java/com/zane/smapiinstaller/logic/CommonLogic.java:104-112 | The scan keeps no more manifests than there are subdirectories, and a manifest is kept if and only if a subdirectory's file exists and parsed to it; absent or unparsable ones are skipped. |
| `ManifestResolver.PresentCounts` | app/src/main/java/com/zane/smapiinstaller/logic/CommonLogic.java:104-112 | Each subdirectory whose manifest parsed adds exactly one copy of it: a manifest occurs in the result as often as it was found. |
| `ManifestResolver.StableSortByBuildCodeCorrect` | app/src/main/java/com/zane/smapiinstaller/logic/CommonLogic.java:114 | The descending sort by build code gives a non-increasing list that is a permutation of its input. Manifests with the same build code keep their input order. |
| `ManifestResolver.OrderedIsUnique` | app/src/main/java/com/zane/smapiinstaller/logic/CommonLogic.java:114 | Two non-increasing lists that agree, for every build code, on the order of that code's manifests are equal. |
| `ManifestResolver.StableSortIsDetermined` | app/src/main/java/com/zane/smapiinstaller/logic/CommonLogic.java:114 | Any non-increasing, order-per-build-code-preserving rearrangement of the list is the reference sort's result. So the stable sort's output, and the resolver's result, is fully determined by the input. |
| `ManifestResolver.OrderingExample` | app/src/main/java/com/zane/smapiinstaller/logic/CommonLogic.java:114 | Build codes 5 (default), 20 and 1 come out as 20, 5, 1. |
| `ManifestResolver.InsertStep` | app/src/main/java/com/zane/smapiinstaller/logic/CommonLogic.java:114 | One in-place step on the array: the prefix becomes the sorted insertion of the next manifest, and the rest of the array is unchanged. |
| `ManifestResolver.SortInPlace` | app/src/main/java/com/zane/smapiinstaller/logic/CommonLogic.java:114 | The in-place sort leaves the array equal to the reference stable descending sort of its old contents. |
| `Files.MkdirsSpec` | app/src/main/java/com/zane/smapiinstaller/logic/CommonLogic.java:149 | mkdirs succeeds if and only if every prefix of the path is already a directory or can be created. On success the path is a directory. Regular files are untouched, no directory is lost, the only new directories are non-root prefixes of the path, and the storage stays valid. |
| `Files.MkdirsFailureLeavesAbsent` | app/src/main/java/com/zane/smapiinstaller/logic/CommonLogic.java:148-151 | When mkdirs of an absent parent fails, the parent is still absent afterwards. |
| `Files.MkdirsAgain` | app/src/main/java/com/zane/smapiinstaller/logic/CommonLogic.java:149 | mkdirs repeated on the storage it left gives the same flag and changes nothing more. |
| `Files.WriteFileSpec` | app/src/main/java/com/zane/smapiinstaller/logic/CommonLogic.java:153-155 | Opening and copying makes the target hold exactly the asset bytes when it can be opened, and changes no other file and no directory. |
| `Files.UnpackEntrySpec` | app/src/main/java/com/zane/smapiinstaller/logic/CommonLogic.java:163 | Under the stated extraction assumption, the target gets the member's bytes when the archive has the member and the target is not a directory. A missing member changes nothing. Other files are kept and nothing is removed. |
| `Files.FileSystem.PathExists` | app/src/main/java/com/zane/smapiinstaller/logic/CommonLogic.java:130 | The answer is `Files.Exists` on the current storage, the predicate the entry lemmas reason about: true for the root, directories and regular files alike. |
| `Files.FileSystem.MakeDir` | app/src/main/java/com/zane/smapiinstaller/logic/CommonLogic.java:131 | A single-level mkdir succeeds only for an absent path whose parent is a directory and that the environment allows, and then adds exactly that directory. |
| `Files.FileSystem.MakeDirs` | app/src/main/java/com/zane/smapiinstaller/logic/CommonLogic.java:149 | Creating directories outermost first, stopping at the first failure, gives the same success flag and storage as `Files.Mkdirs`. |
| `Files.FileSystem.CreateFile` | app/src/main/java/com/zane/smapiinstaller/logic/CommonLogic.java:138 | createNewFile adds an empty file exactly when the path is absent, writable and inside a directory. |
| `Files.FileSystem.CopyInto` | app/src/main/java/com/zane/smapiinstaller/logic/CommonLogic.java:153-155 | The new storage is the write of the asset bytes to the target, or the old storage when the target cannot be opened. |
| `Files.FileSystem.ExtractEntry` | app/src/main/java/com/zane/smapiinstaller/logic/CommonLogic.java:163 | The new storage is the assumed effect of extracting the member into the target. |
| `SmapiUnpacker.UnpackSmapiFiles` | app/src/main/java/com/zane/smapiinstaller/logic/CommonLogic.java:125-169 | The returned flag and the new storage are exactly those of the reference `UnpackSmapi` on the old storage. |
| `SmapiUnpacker.StageEntry` | app/src/main/java/com/zane/smapiinstaller/logic/CommonLogic.java:143-166 | Staging one entry gives the flag and storage of the reference `ApplyEntry`. |
| `SmapiUnpacker.EarlyFailures` | app/src/main/java/com/zane/smapiinstaller/logic/CommonLogic.java:126-134 | The call returns false with storage unchanged, before any entry, when the entry list did not load. The same holds when the base directory is absent and a single-level mkdir of it fails. |
| `SmapiUnpacker.UnknownOriginIgnored` | app/src/main/java/com/zane/smapiinstaller/logic/CommonLogic.java:144-166 | An entry whose origin is neither 0 nor 1 changes nothing and does not fail. |
| `SmapiUnpacker.ExistingTargetSkipped` | app/src/main/java/com/zane/smapiinstaller/logic/CommonLogic.java:146-162 | In check mode, an entry of either origin whose target exists changes nothing. |
| `SmapiUnpacker.BundledAssetEntry` | app/src/main/java/com/zane/smapiinstaller/logic/CommonLogic.java:145-160 | For an origin-0 entry that is not skipped, a missing asset changes nothing. Otherwise the entry is fatal if and only if the parent is absent and mkdirs fails. When it is not fatal and the target can be opened, the target holds the asset bytes. No other file changes or appears, and the only new directories are proper ancestors of the target. |
| `SmapiUnpacker.PackageEntry` | app/src/main/java/com/zane/smapiinstaller/logic/CommonLogic.java:161-165 | An origin-1 entry that is not skipped never fails. The target gets the member's bytes when the archive has the member and the target is not a directory, and a missing member changes nothing. |
| `SmapiUnpacker.ApplyEntriesAppend` | app/src/main/java/com/zane/smapiinstaller/logic/CommonLogic.java:142-167 | Entries run in manifest order. Running a + b is running a, then b from a's final state, unless a failed. |
| `SmapiUnpacker.FatalEntryStopsRun` | app/src/main/java/com/zane/smapiinstaller/logic/CommonLogic.java:148-152 | After a fatal entry, no later entry is processed, and the call's outcome is that entry's outcome. |
| `SmapiUnpacker.MissingAssetSkipped` | app/src/main/java/com/zane/smapiinstaller/logic/CommonLogic.java:147-158 | An origin-0 entry with a missing asset is swallowed: the run equals the run without that entry. |
| `SmapiUnpacker.ApplyEntriesGrows` | app/src/main/java/com/zane/smapiinstaller/logic/CommonLogic.java:142-167 | A run of entries never removes a file or a directory, and keeps no path both a file and a directory. |
| `SmapiUnpacker.ParentsPresentRunSucceeds` | app/src/main/java/com/zane/smapiinstaller/logic/CommonLogic.java:142-168 | If every origin-0 parent whose asset exists is already present, the run of entries succeeds. |
| `SmapiUnpacker.RunFailsOnlyAtParent` | app/src/main/java/com/zane/smapiinstaller/logic/CommonLogic.java:142-168 | A run of entries fails if and only if some entry, reached after the earlier ones succeeded, is an origin-0 entry that is not skipped, whose asset exists, whose parent is absent and whose mkdirs fails. |
| `SmapiUnpacker.UnpackFailsOnlyAtDirectory` | app/src/main/java/com/zane/smapiinstaller/logic/CommonLogic.java:125-169 | The call returns false if and only if the entry list did not load, or the base directory is absent and mkdir fails, or an entry is fatal as above. So it returns true whenever every directory it needs can be created, including on a fresh install. |
| `SmapiUnpacker.SucceedsWithoutDirectoryFailure` | app/src/main/java/com/zane/smapiinstaller/logic/CommonLogic.java:135-168 | With the manifest loaded, the base directory present and every origin-0 parent present, the call returns true. This holds whatever happens to the .nomedia marker. |
| `SmapiUnpacker.ApplyEntriesKeepsFiles` | app/src/main/java/com/zane/smapiinstaller/logic/CommonLogic.java:142-167 | In check mode, a run of entries never rewrites a file that existed before it. |
| `SmapiUnpacker.CheckModeKeepsExistingFiles` | app/src/main/java/com/zane/smapiinstaller/logic/CommonLogic.java:125-169 | In check mode, the whole call, successful or not, keeps every existing file with its contents. |
| `SmapiUnpacker.FailedEntryAgain` | app/src/main/java/com/zane/smapiinstaller/logic/CommonLogic.java:145-152 | A check-mode entry that was fatal is fatal again on the storage it left, and changes nothing more. |
| `SmapiUnpacker.RunSettled` | app/src/main/java/com/zane/smapiinstaller/logic/CommonLogic.java:142-167 | A check-mode run of entries, repeated, returns the same flag and changes nothing: on any grown, valid storage after a success, and on the storage it left after a failure. |
| `SmapiUnpacker.CheckModeIdempotent` | app/src/main/java/com/zane/smapiinstaller/logic/CommonLogic.java:125-169 | A second check-mode call with the same inputs, on the storage the first left, returns the same flag and changes nothing, whether the first call succeeded or failed. |
| `SmapiUnpacker.UnpackSmapiValid` | app/src/main/java/com/zane/smapiinstaller/logic/CommonLogic.java:125-169 | The call never makes a path both a file and a directory. |

## Left out

- `modifyManifest`, the binary manifest rewrite, is not modelled. It delegates to the pxb AXML reader and writer and to `ManifestTagVisitor`, and their code is not part of this model.
- `getActivityFromView`, `openUrl` and `copyToClipboard` are not modelled. They are Android UI, intent and clipboard plumbing with nothing to state.
- JSON deserialisation (`FileUtils.getAssetJson`, `getFileJson`) is not modelled. A missing or unparsable document is an `Option` input that is `None`.
- The bundled default manifest is taken as always parsed. If its asset failed to parse, the source would put `null` into the list, and the sort would throw when other manifests are present.
- The order of `listFiles` is platform-defined. The discovered manifests are an input sequence in listing order. An absent `compat` folder is the empty sequence.
- `ManifestResolver.FindAllApkFileManifest`: the scan cannot fail. When `compat` exists but is a regular file or cannot be read, `listFiles` returns null and the Java loop throws `NullPointerException`; that exception path is not modelled.
- `Collections.sort` (TimSort) is replaced by an in-place stable insertion sort. `StableSortIsDetermined` proves that every stable descending sort yields the same list.
- `minBuildCode` is a Java `long`, modelled as an unbounded integer. `Long.compare` involves no arithmetic, so the order is the same.
- `ZipUtil.unpackEntry` is assumed to behave as follows. When the member exists and the target is not a directory, it creates the target's missing ancestors and writes the member's bytes. Otherwise it changes nothing. The assumed extraction ignores the environment: it creates ancestors that `mkdir` could not create, writes targets that cannot be opened, and writes below an ancestor that is a regular file, where the real call would throw. Anything it throws is not modelled. Its call has no handler and `unpackSmapiFiles` declares no checked exception, so such an exception escapes the whole call, which then returns neither true nor false.
- The base path from `Environment.getExternalStorageDirectory()` is a `Path` input.
- Target paths are given as lists of name components. Splitting the JSON string on `/`, and `.` or `..` segments, are not modelled.
- Byte streams are not modelled: a copy is all-or-nothing. Partial writes and stream closing are out of scope, and the `Log.e` call made when an asset cannot be opened or copied is not modelled.
- `Files.Mkdirs`: returns true when the path is already a directory, where `File.mkdirs` returns false. Its only caller applies it to an absent directory, so the two agree there.
- Concurrency is not modelled: both routines are sequential.
