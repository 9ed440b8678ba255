# Config acquisition and install pipeline of zashboard-app, in Dafny

This project models the Go back end of zashboard-app (`app.go`). The back end lets the
desktop front end do four things:

- inspect a config file;
- download a new config into a uniquely named temporary file;
- validate the content;
- install the staged file over the target config file.

The install step reads the staged file, validates it, writes it over the target, and then
removes the staged file on a best-effort basis.

The operating system's file API is modelled as a `Disk` (module `FileSystem`). A disk is a
map from path to bytes plus a fixed set of faults. The faults name, for each OS call (stat,
read, write, exclusive create, remove), the paths on which that call fails. They stand for
permissions, full disks and other I/O errors. Each call's outcome is defined once, by the
predicates `Readable`, `Writable`, `Creatable`, `Removable` and `Statable`.

The operations are in module `App`:

- `ValidateConfig` is a function.
- `GetConfigFileInfo` is a method that only reads the disk. It builds the info record step
  by step, as the Go code does.
- `DownloadConfig` and `UpdateConfigFile` are methods that change the disk through the
  `Disk` calls, in the source's order. Each is proved to return, and to leave on disk,
  exactly what a pure function of the starting disk gives (`Download`, `Install`).

Module `AppProperties` proves what those functions guarantee:

- one lemma per exit of the install pipeline;
- the download guards;
- the download-then-install flow;
- a run of successive installs over one target.

After a validation or write failure the staged file stays on disk, because app.go:129-137
returns before the removal at app.go:140 (`InstallRejectsEmpty`, `InstallWriteFailure`).

Go strings are byte sequences, so file content, downloaded bodies and the validator's input
are all `Bytes`. The conversion `string(content)` is the identity here.

## Model

| member | source | states |
|---|---|---|
| `FileSystem.Disk.Stat` | app.go:40-43 | `os.Stat` succeeds exactly when the path exists and is not stat-faulted, and then reports the file's byte length |
| `FileSystem.Disk.ReadFile` | app.go:123-126 | `os.ReadFile` returns the file's whole content exactly when the path exists and is readable |
| `FileSystem.Disk.WriteFile` | app.go:135-137 | `os.WriteFile` either fails and changes nothing, or creates/replaces the path's content and changes no other path |
| `FileSystem.Disk.CreateExclusive` | app.go:90-93 | creating the temporary file succeeds only at a path that did not exist, and leaves an empty file there |
| `FileSystem.Disk.Remove` | app.go:140 | `os.Remove` fails on a missing or protected path and otherwise unlinks exactly that path |
| `App.GetConfigFileInfo` | app.go:37-49 | the record always carries the queried path; `Exists` holds exactly when the path can be stat-ed; then `Size` is the file's byte length, otherwise 0 |
| `App.ValidateConfig` | app.go:110-117 | content is valid exactly when it is non-empty; the message is empty exactly when the verdict is valid, and is "config content is empty" otherwise |
| `App.Download` | app.go:68-105 | on success the reported size equals the content's length, and the returned temporary path holds exactly that content on disk |
| `App.DownloadConfig` | app.go:68-105 | the method's result and the disk it leaves are those of `Download` on the disk it started from |
| `App.Install` | app.go:121-143 | the result and final disk of the four steps (read, validate, write, best-effort remove) from a given disk; every error exit leaves the disk exactly as it was, and a success touches no path other than the staged file and the target; its further properties are the `AppProperties.Install*` lemmas |
| `App.UpdateConfigFile` | app.go:121-143 | the method's error and the disk it leaves are those of `Install` on the disk it started from |
| `AppProperties.InstallReadFailure` | app.go:123-126 | an unreadable staged file gives a read error and leaves the disk untouched: the target is not written and nothing is removed |
| `AppProperties.InstallRejectsEmpty` | app.go:128-132 | empty staged content gives a validation error carrying "config content is empty"; the disk is untouched, so the target keeps its state and the staged file stays |
| `AppProperties.InstallWriteFailure` | app.go:134-137 | a failed target write gives a write error and the staged file still exists with its bytes |
| `AppProperties.InstallSucceeds` | app.go:121-143 | install succeeds exactly when the staged file is readable and non-empty and the target writable; then, for distinct paths, the target holds the staged bytes, the staged file is gone unless its removal failed, and every other path is unchanged |
| `AppProperties.RemoveFailureIgnored` | app.go:139-142 | whether the staged file's removal fails never changes the returned result |
| `AppProperties.InstallOntoItself` | app.go:135-142 | installing a path over itself reports success, but the removal after the write deletes the target unless that removal fails |
| `AppProperties.DownloadEmptyUrl` | app.go:69-71 | an empty URL is rejected whatever the network would answer, and the disk is untouched |
| `AppProperties.DownloadBadStatus` | app.go:80-82 | any status other than 200 is reported with its code, and the disk is untouched |
| `AppProperties.DownloadSucceeds` | app.go:68-105 | a download succeeds exactly when the URL is non-empty, the reply is 200 with a readable body, and the temporary file can be created and written; the result then names a previously absent path that now holds exactly the body, its size is the body's length, and no other path changes |
| `AppProperties.DownloadThenInstall` | app.go:68-143 | installing a downloaded file over a different target succeeds exactly when the body is non-empty, the staged file is readable and the target writable; the target then holds the downloaded body |
| `AppProperties.SequentialInstalls` | app.go:121-143 | successive installs of distinct valid staged files over one writable target all succeed; the target ends with the last file's content; there is one result per install; each staged file is gone unless its removal failed, in which case it keeps its bytes; every other path is unchanged |

## Left out

- The HTTP client, with its 30-second timeout and transport errors: the reply is an input to `DownloadConfig`. It is either `Unreachable` or a status with a body, and the body is absent when reading it fails.
- `os.CreateTemp` picks a random unused name matching `zashboard-config-*.yaml` and retries on clashes. The model takes the OS's chosen name as an input and does one exclusive creation. That creation fails if the name already exists. The name pattern and the retry loop are not modelled.
- `LastModified` in `ConfigFileInfo`, the file's modification time in RFC 3339 text, is not modelled. Neither are modification times on the disk.
- File permission bits (0644 for the target, 0600 for temporary files) are not modelled.
- `FileSystem.Disk.WriteFile`: a write that fails part-way is modelled as leaving the file untouched. `os.WriteFile` may leave it truncated or partly written.
- `AppProperties.InstallWriteFailure`: for a staged file that is also the target, the lemma says the staged file keeps its bytes after the failed write. Go's `os.WriteFile` truncates on open, so a write that fails part-way can leave that shared file truncated.
- Closing the response body and the temporary file is not modelled, and neither are errors from closing (Go discards them).
- Sizes are unbounded naturals. Go's `int64` sizes cannot overflow for files a slice can hold.
- `ReadConfigFile` is not modelled. It only wraps `os.ReadFile`, which is `FileSystem.Disk.ReadFile`.
- `NewApp`, `startup` and the stored context carry no behaviour of the pipeline and are not modelled.
- Error messages built with `fmt.Errorf` are modelled as error kinds (`DownloadError`, `InstallError`). The validation error keeps the validator's message. The wrapped OS errors are not kept.
- Paths are compared as strings: different spellings of one file (`cfg.yaml` and `./cfg.yaml`), a symbolic link and its target, or names differing only in case on a case-insensitive volume are different keys of the disk map. `AppProperties.InstallSucceeds`, `AppProperties.DownloadThenInstall` and `AppProperties.SequentialInstalls` therefore assume that distinct paths name distinct files; whenever the staged path and the target name one file, what happens is what `AppProperties.InstallOntoItself` states (the removal after the write deletes the target).
- Concurrent calls on the same paths are not modelled. Each operation runs alone on the disk.
