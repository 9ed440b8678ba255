/**
  The operating-system file API that the application calls (`os.Stat`, `os.ReadFile`,
  `os.WriteFile`, `os.CreateTemp`, `os.Remove`), over an abstract disk: a map from path
  to bytes. Which calls fail, and on which paths, is fixed by a set of faults; they stand
  for missing permissions, full disks and every other I/O error the OS may report.
 */
module FileSystem {
  import opened Wrappers

  newtype byte = x: int | 0 <= x < 256

  /** Go's `[]byte`, and also Go's `string`, which is an immutable byte sequence. */
  type Bytes = seq<byte>

  type Path = string

  /** The paths on which each OS call fails although the path itself would allow it. */
  datatype Faults = Faults(
    stat: set<Path>,
    read: set<Path>,
    write: set<Path>,
    create: set<Path>,
    remove: set<Path>)

  /** What an operation returns, together with the disk it leaves behind. */
  datatype Effect<+R> = Effect(result: R, files: map<Path, Bytes>)

  /** `os.Stat` succeeds: the path exists and can be examined. */
  predicate Statable(files: map<Path, Bytes>, faults: Faults, p: Path) {
    p in files && p !in faults.stat
  }

  /** `os.ReadFile` succeeds: the path exists and can be read. */
  predicate Readable(files: map<Path, Bytes>, faults: Faults, p: Path) {
    p in files && p !in faults.read
  }

  /** Writing a path succeeds; a missing file is created, an existing one truncated. */
  predicate Writable(faults: Faults, p: Path) {
    p !in faults.write
  }

  /** Exclusive creation succeeds: nothing exists at the path yet. */
  predicate Creatable(files: map<Path, Bytes>, faults: Faults, p: Path) {
    p !in files && p !in faults.create
  }

  /** `os.Remove` succeeds: the path exists and may be unlinked. */
  predicate Removable(files: map<Path, Bytes>, faults: Faults, p: Path) {
    p in files && p !in faults.remove
  }

  /** Path `p` is in the same state in `before` and `after`: absent from both, or present with the same bytes. */
  predicate SameAt(before: map<Path, Bytes>, after: map<Path, Bytes>, p: Path) {
    (p in before <==> p in after) && (p in before ==> before[p] == after[p])
  }

  class Disk {
    var files: map<Path, Bytes>
    const faults: Faults

    constructor (files: map<Path, Bytes>, faults: Faults)
      ensures this.files == files && this.faults == faults
    {
      this.files := files;
      this.faults := faults;
    }

    /** `os.Stat`: the file's size, or None when the call fails. */
    method Stat(p: Path) returns (size: Option<nat>)
      ensures size.Some? <==> Statable(files, faults, p)
      ensures size.Some? ==> size.value == |files[p]|
    {
      if Statable(files, faults, p) {
        size := Some(|files[p]|);
      } else {
        size := None;
      }
    }

    /** `os.ReadFile`: the whole content, or None when the call fails. */
    method ReadFile(p: Path) returns (content: Option<Bytes>)
      ensures content.Some? <==> Readable(files, faults, p)
      ensures content.Some? ==> content.value == files[p]
    {
      if Readable(files, faults, p) {
        content := Some(files[p]);
      } else {
        content := None;
      }
    }

    /** `os.WriteFile` (and a write through a fresh file's handle): replaces the content. */
    method WriteFile(p: Path, data: Bytes) returns (ok: bool)
      modifies this
      ensures ok <==> Writable(faults, p)
      ensures files == if ok then old(files)[p := data] else old(files)
    {
      ok := Writable(faults, p);
      if ok {
        files := files[p := data];
      }
    }

    /** Creates an empty file at a path that must not exist yet (`O_CREATE|O_EXCL`). */
    method CreateExclusive(p: Path) returns (ok: bool)
      modifies this
      ensures ok <==> Creatable(old(files), faults, p)
      ensures files == if ok then old(files)[p := []] else old(files)
    {
      ok := Creatable(files, faults, p);
      if ok {
        files := files[p := []];
      }
    }

    /** `os.Remove`: unlinks the path; fails when it is missing. */
    method Remove(p: Path) returns (ok: bool)
      modifies this
      ensures ok <==> Removable(old(files), faults, p)
      ensures files == if ok then old(files) - {p} else old(files)
    {
      ok := Removable(files, faults, p);
      if ok {
        files := files - {p};
      }
    }
  }
}
