/**
 * The part of device storage that file provisioning reads and writes, with
 * the java.io.File operations it uses. Each operation is a function on a
 * storage value (`Fs`); the `FileSystem` class holds the storage as mutable
 * fields and performs the same operations in place.
 */
module Files {
  import opened Entity

  /** Regular files with their contents, and directories. */
  datatype Fs = Fs(files: map<Path, seq<byte>>, dirs: set<Path>)

  /**
   * What the environment refuses: the directories `mkdir` cannot create (no
   * permission, no space, ...) and the paths that cannot be opened for writing.
   */
  datatype Env = Env(mkdirFails: set<Path>, unwritable: set<Path>)

  /** Whether an operation succeeded, and the storage after it. */
  datatype Outcome = Outcome(ok: bool, fs: Fs)

  /** The directory holding `p`. */
  function Parent(p: Path): (q: Path)
    requires |p| > 0
    ensures |q| == |p| - 1 && p == q + [p[|p| - 1]]
  {
    p[..|p| - 1]
  }

  /** The root always exists and is a directory. */
  predicate IsDir(s: Fs, p: Path)
  {
    p == [] || p in s.dirs
  }

  /** File.exists: true for directories and regular files alike. */
  predicate Exists(s: Fs, p: Path)
  {
    IsDir(s, p) || p in s.files
  }

  /** No path is both a regular file and a directory. */
  predicate Valid(s: Fs)
  {
    s.files.Keys !! s.dirs
  }

  /** Nothing that exists in `s` is gone in `t` (contents may differ). */
  predicate Grows(s: Fs, t: Fs)
  {
    s.files.Keys <= t.files.Keys && s.dirs <= t.dirs
  }

  /** Every regular file of `s` is still there in `t`, with the same contents. */
  predicate KeepsFiles(s: Fs, t: Fs)
  {
    forall p :: p in s.files ==> p in t.files && t.files[p] == s.files[p]
  }

  /** File.mkdir: creates `p` alone; its parent must already be a directory. */
  function Mkdir(s: Fs, env: Env, p: Path): Outcome
  {
    if |p| > 0 && !Exists(s, p) && IsDir(s, Parent(p)) && p !in env.mkdirFails
    then Outcome(true, s.(dirs := s.dirs + {p}))
    else Outcome(false, s)
  }

  /**
   * File.mkdirs: creates the missing directories on the way to `p`, outermost
   * first, and stops at the first one that cannot be created (an existing
   * regular file, or one the environment refuses). Directories created before
   * the failure stay.
   */
  function Mkdirs(s: Fs, env: Env, p: Path): Outcome
    decreases |p|
  {
    if p == [] then Outcome(true, s)
    else
      var up := Mkdirs(s, env, Parent(p));
      if !up.ok || p in up.fs.dirs then up
      else if p in up.fs.files || p in env.mkdirFails then Outcome(false, up.fs)
      else Outcome(true, up.fs.(dirs := up.fs.dirs + {p}))
  }

  /** File.createNewFile: an empty file, when `p` is absent, writable and inside a directory. */
  function CreateNewFile(s: Fs, env: Env, p: Path): Fs
    requires |p| > 0
  {
    if !Exists(s, p) && p !in env.unwritable && IsDir(s, Parent(p))
    then s.(files := s.files[p := []])
    else s
  }

  /**
   * Opening `p` for output and copying `data` into it: fails, changing
   * nothing, when `p` is a directory, is refused, or its parent is not a
   * directory; otherwise `p` holds exactly `data`.
   */
  function WriteFile(s: Fs, env: Env, p: Path, data: seq<byte>): Fs
    requires |p| > 0
  {
    if p !in s.dirs && p !in env.unwritable && IsDir(s, Parent(p))
    then s.(files := s.files[p := data])
    else s
  }

  /** The proper ancestors of `p` (the root excepted) that do not exist in `s`. */
  function MissingAncestors(s: Fs, p: Path): set<Path>
  {
    set k | 1 <= k < |p| && !Exists(s, p[..k]) :: p[..k]
  }

  /**
   * ZipUtil.unpackEntry, as this model assumes it: when the archive holds
   * `member` and `p` is not a directory, the missing ancestors of `p` become
   * directories and `p` gets the member's bytes; otherwise nothing changes.
   */
  function UnpackEntry(s: Fs, archive: map<string, seq<byte>>, member: string, p: Path): Fs
  {
    if member in archive && p !in s.dirs
    then Fs(s.files[p := archive[member]], s.dirs + MissingAncestors(s, p))
    else s
  }

  // ---------------------------------------------------------------------
  // Properties of the operations
  // ---------------------------------------------------------------------

  /**
   * mkdirs succeeds exactly when every prefix of `p` is a directory already
   * or can be made one; on success `p` is a directory. Either way, regular
   * files are untouched, no directory is lost and the storage stays valid.
   */
  lemma {:induction false} MkdirsSpec(s: Fs, env: Env, p: Path)
    ensures var o := Mkdirs(s, env, p);
      && (o.ok <==> forall k :: 1 <= k <= |p| ==>
            p[..k] in s.dirs || (p[..k] !in s.files && p[..k] !in env.mkdirFails))
      && (o.ok ==> IsDir(o.fs, p))
      && o.fs.files == s.files
      && s.dirs <= o.fs.dirs
      && (forall x :: x in o.fs.dirs && x !in s.dirs ==> 0 < |x| && x <= p)
      && (Valid(s) ==> Valid(o.fs))
  {
    MkdirsOnlyPrefixes(s, env, p);
    if p != [] {
      var q := Parent(p);
      MkdirsSpec(s, env, q);
      forall k | 1 <= k <= |q| ensures q[..k] == p[..k] {
      }
      assert p[..|p|] == p;
      // The directories made on the way to q are prefixes of q, all shorter than p.
      MkdirsAddsPrefixes(s, env, q, p);
      MkdirsStep(s, env, p);
    }
  }

  /** The only directories mkdirs creates are non-root prefixes of its argument. */
  lemma {:induction false} MkdirsOnlyPrefixes(s: Fs, env: Env, p: Path)
    ensures forall x :: x in Mkdirs(s, env, p).fs.dirs && x !in s.dirs ==> 0 < |x| && x <= p
  {
    if p != [] {
      MkdirsOnlyPrefixes(s, env, Parent(p));
      assert Parent(p) <= p;
    }
  }

  /** One step of mkdirs: `p` succeeds iff its parent did and `p` is or can be made a directory. */
  lemma MkdirsStep(s: Fs, env: Env, p: Path)
    requires p != []
    requires Mkdirs(s, env, Parent(p)).fs.files == s.files
    requires p in Mkdirs(s, env, Parent(p)).fs.dirs <==> p in s.dirs
    ensures var up := Mkdirs(s, env, Parent(p));
      (Mkdirs(s, env, p).ok <==> up.ok && (p in s.dirs || (p !in s.files && p !in env.mkdirFails)))
  {
  }

  /** A failed mkdirs of a path that did not exist leaves it absent. */
  lemma MkdirsFailureLeavesAbsent(s: Fs, env: Env, p: Path)
    requires !Exists(s, p) && !Mkdirs(s, env, p).ok
    ensures !Exists(Mkdirs(s, env, p).fs, p)
  {
    MkdirsSpec(s, env, p);
    MkdirsAddsPrefixes(s, env, Parent(p), p);
  }

  /** A directory longer than `p` that is added beforehand is carried through mkdirs of `p` unchanged. */
  lemma {:induction false} MkdirsFrame(s: Fs, env: Env, p: Path, x: Path)
    requires |x| > |p|
    ensures var o := Mkdirs(s, env, p);
      Mkdirs(s.(dirs := s.dirs + {x}), env, p) == Outcome(o.ok, o.fs.(dirs := o.fs.dirs + {x}))
  {
    if p != [] {
      var s' := s.(dirs := s.dirs + {x});
      var up := Mkdirs(s, env, Parent(p));
      MkdirsFrame(s, env, Parent(p), x);
      assert Mkdirs(s', env, Parent(p)) == Outcome(up.ok, up.fs.(dirs := up.fs.dirs + {x}));
      assert p != x;
      if up.ok && p !in up.fs.dirs && p !in up.fs.files && p !in env.mkdirFails {
        assert up.fs.(dirs := up.fs.dirs + {x}).(dirs := up.fs.dirs + {x} + {p})
            == up.fs.(dirs := up.fs.dirs + {p}).(dirs := up.fs.dirs + {p} + {x});
      }
    }
  }

  /** mkdirs repeated on its own result gives the same flag and changes nothing more. */
  lemma {:induction false} MkdirsAgain(s: Fs, env: Env, p: Path)
    ensures var o := Mkdirs(s, env, p);
      Mkdirs(o.fs, env, p) == o
  {
    if p != [] {
      var q := Parent(p);
      MkdirsAgain(s, env, q);
      var up := Mkdirs(s, env, q);
      if up.ok && p !in up.fs.dirs && p !in up.fs.files && p !in env.mkdirFails {
        MkdirsFrame(up.fs, env, q, p);
      }
    }
  }

  /** mkdirs only adds prefixes of its argument. */
  lemma {:induction false} MkdirsAddsPrefixes(s: Fs, env: Env, p: Path, x: Path)
    requires |x| > |p|
    ensures x in Mkdirs(s, env, p).fs.dirs <==> x in s.dirs
  {
    if p != [] {
      MkdirsAddsPrefixes(s, env, Parent(p), x);
    }
  }

  /** Once mkdirs fails on a prefix of `p`, it fails on `p` with the same storage. */
  lemma {:induction false} MkdirsStopsAtFailure(s: Fs, env: Env, p: Path, n: nat)
    requires n <= |p|
    requires !Mkdirs(s, env, p[..n]).ok
    ensures Mkdirs(s, env, p) == Mkdirs(s, env, p[..n])
    decreases |p| - n
  {
    if n < |p| {
      var q := Parent(p);
      assert q[..n] == p[..n];
      MkdirsStopsAtFailure(s, env, q, n);
    } else {
      assert p[..n] == p;
    }
  }

  /** The write makes `p` hold `data` exactly when it can open `p`, and touches nothing else. */
  lemma WriteFileSpec(s: Fs, env: Env, p: Path, data: seq<byte>)
    requires |p| > 0
    ensures var t := WriteFile(s, env, p, data);
      && ((p !in s.dirs && p !in env.unwritable && IsDir(s, Parent(p))) ==> p in t.files && t.files[p] == data)
      && t.dirs == s.dirs
      && (forall q :: q != p && q in s.files ==> q in t.files && t.files[q] == s.files[q])
      && t.files.Keys <= s.files.Keys + {p}
      && (Valid(s) ==> Valid(t))
  {
  }

  /**
   * Extraction gives `p` the member's bytes when the archive has it and `p`
   * is not a directory; it keeps every other file, only adds directories
   * that did not exist, and keeps the storage valid.
   */
  lemma UnpackEntrySpec(s: Fs, archive: map<string, seq<byte>>, member: string, p: Path)
    ensures var t := UnpackEntry(s, archive, member, p);
      && (member in archive && p !in s.dirs ==> p in t.files && t.files[p] == archive[member])
      && (member !in archive ==> t == s)
      && (forall q :: q != p && q in s.files ==> q in t.files && t.files[q] == s.files[q])
      && Grows(s, t)
      && (Valid(s) ==> Valid(t))
  {
  }

  // ---------------------------------------------------------------------
  // The storage as a mutable object
  // ---------------------------------------------------------------------

  /** Device storage, changed in place by the file operations. */
  class FileSystem {
    var files: map<Path, seq<byte>>
    var dirs: set<Path>
    const env: Env

    /** The storage as a value. */
    function State(): Fs
      reads this
    {
      Fs(files, dirs)
    }

    constructor (init: Fs, env: Env)
      ensures State() == init && this.env == env
    {
      files := init.files;
      dirs := init.dirs;
      this.env := env;
    }

    /** File.exists on the current storage. */
    method PathExists(p: Path) returns (b: bool)
      ensures b == Exists(State(), p)
    {
      b := p == [] || p in dirs || p in files;
    }

    /** File.mkdir on the current storage. */
    method MakeDir(p: Path) returns (ok: bool)
      modifies this
      ensures Outcome(ok, State()) == Mkdir(old(State()), env, p)
    {
      ok := |p| > 0 && !(p in dirs || p in files) && (|p| == 1 || p[..|p| - 1] in dirs) && p !in env.mkdirFails;
      if ok {
        dirs := dirs + {p};
      }
    }

    /** File.mkdirs on the current storage: one directory per prefix of `p`, outermost first. */
    method MakeDirs(p: Path) returns (ok: bool)
      modifies this
      ensures Outcome(ok, State()) == Mkdirs(old(State()), env, p)
    {
      var k := 0;
      while k < |p|
        invariant 0 <= k <= |p|
        invariant Mkdirs(old(State()), env, p[..k]) == Outcome(true, State())
      {
        var q := p[..k + 1];
        assert Parent(q) == p[..k];
        if q !in dirs {
          if q in files || q in env.mkdirFails {
            MkdirsStopsAtFailure(old(State()), env, p, k + 1);
            return false;
          }
          dirs := dirs + {q};
        }
        k := k + 1;
      }
      assert p[..k] == p;
      return true;
    }

    /** File.createNewFile on the current storage. */
    method CreateFile(p: Path)
      requires |p| > 0
      modifies this
      ensures State() == CreateNewFile(old(State()), env, p)
    {
      var parent := p[..|p| - 1];
      if !(p in dirs || p in files) && p !in env.unwritable && (parent == [] || parent in dirs) {
        files := files[p := []];
      }
    }

    /** Opens `p` for output and copies `data` into it. */
    method CopyInto(p: Path, data: seq<byte>)
      requires |p| > 0
      modifies this
      ensures State() == WriteFile(old(State()), env, p, data)
    {
      var parent := p[..|p| - 1];
      if p !in dirs && p !in env.unwritable && (parent == [] || parent in dirs) {
        files := files[p := data];
      }
    }

    /** Extracts `member` of `archive` into `p`. */
    method ExtractEntry(archive: map<string, seq<byte>>, member: string, p: Path)
      modifies this
      ensures State() == UnpackEntry(old(State()), archive, member, p)
    {
      if member in archive && p !in dirs {
        var missing := set k | 1 <= k < |p| && !(p[..k] in dirs || p[..k] in files) :: p[..k];
        files, dirs := files[p := archive[member]], dirs + missing;
      }
    }
  }
}
