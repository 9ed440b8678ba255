/**
  What the config operations guarantee, stated over the functions that the methods of
  module App are proved equal to: one lemma per exit of the install pipeline, the
  download guards, the download-then-install flow and a run of successive installs.
 */
module AppProperties {
  import opened Wrappers
  import opened FileSystem
  import opened App

  // ---------------------------------------------------------------------------------------
  // Installation: each exit of UpdateConfigFile

  /** The staged file cannot be read: a read error, and the disk is untouched. */
  lemma InstallReadFailure(files: map<Path, Bytes>, faults: Faults, tempPath: Path, targetPath: Path)
    requires !Readable(files, faults, tempPath)
    ensures Install(files, faults, tempPath, targetPath) == Effect(Some(ReadTempFailed), files)
  {
  }

  /** Empty staged content: a validation error carrying the validator's message; the target is
      not written and the staged file is left in place with its bytes. */
  lemma InstallRejectsEmpty(files: map<Path, Bytes>, faults: Faults, tempPath: Path, targetPath: Path)
    requires Readable(files, faults, tempPath) && files[tempPath] == []
    ensures var e := Install(files, faults, tempPath, targetPath);
      e.result == Some(ValidationFailed(EmptyContentMessage)) && e.files == files
      && tempPath in e.files && SameAt(files, e.files, targetPath)
  {
  }

  /** The target cannot be written: a write error, and the staged file is kept. */
  lemma InstallWriteFailure(files: map<Path, Bytes>, faults: Faults, tempPath: Path, targetPath: Path)
    requires Readable(files, faults, tempPath) && files[tempPath] != []
    requires !Writable(faults, targetPath)
    ensures var e := Install(files, faults, tempPath, targetPath);
      e.result == Some(WriteTargetFailed) && tempPath in e.files && e.files[tempPath] == files[tempPath]
  {
  }

  /**
    UpdateConfigFile succeeds exactly when the staged file is readable, non-empty and the
    target writable. Then, for distinct paths, the target holds the staged bytes, the staged
    file is gone unless its removal failed, and no other path changes.
   */
  lemma InstallSucceeds(files: map<Path, Bytes>, faults: Faults, tempPath: Path, targetPath: Path)
    ensures var e := Install(files, faults, tempPath, targetPath);
      e.result.None? <==>
        Readable(files, faults, tempPath) && files[tempPath] != [] && Writable(faults, targetPath)
    ensures var e := Install(files, faults, tempPath, targetPath);
      e.result.None? && tempPath != targetPath ==>
        && targetPath in e.files && e.files[targetPath] == files[tempPath]
        && (tempPath in e.files <==> tempPath in faults.remove)
        && SameAt(files, e.files, tempPath) == (tempPath in faults.remove)
        && (forall p :: p != tempPath && p != targetPath ==> SameAt(files, e.files, p))
  {
  }

  /** The outcome of the best-effort removal never changes what UpdateConfigFile returns. */
  lemma RemoveFailureIgnored(files: map<Path, Bytes>, faults: Faults, removeFaults: set<Path>,
                             tempPath: Path, targetPath: Path)
    ensures Install(files, faults, tempPath, targetPath).result
         == Install(files, faults.(remove := removeFaults), tempPath, targetPath).result
  {
  }

  /**
    Installing a file over itself reports success, but the removal that follows the write
    deletes the target, unless that removal fails.
   */
  lemma InstallOntoItself(files: map<Path, Bytes>, faults: Faults, path: Path)
    requires Readable(files, faults, path) && files[path] != [] && Writable(faults, path)
    ensures var e := Install(files, faults, path, path);
      e.result.None? && (path in e.files <==> path in faults.remove)
      && (path in e.files ==> e.files[path] == files[path])
  {
  }

  // ---------------------------------------------------------------------------------------
  // Download

  /** An empty URL is rejected whatever the network would have answered, and nothing is written. */
  lemma DownloadEmptyUrl(files: map<Path, Bytes>, faults: Faults, reply: HttpReply, tempPath: Path)
    ensures Download(files, faults, "", reply, tempPath) == Effect(Err(EmptyUrl), files)
  {
  }

  /** Any status other than 200 is reported with its code, and nothing is written. */
  lemma DownloadBadStatus(files: map<Path, Bytes>, faults: Faults, url: string, status: int,
                          body: Option<Bytes>, tempPath: Path)
    requires url != "" && status != StatusOK
    ensures Download(files, faults, url, Reply(status, body), tempPath) == Effect(Err(BadStatus(status)), files)
  {
  }

  /**
    A download succeeds exactly when the URL is non-empty, the server answers 200 with a
    readable body and the new temporary file can be created and written. Then the result
    names a path that did not exist before and now holds exactly the body, reports the
    body's length as its size, and no other path changes.
   */
  lemma DownloadSucceeds(files: map<Path, Bytes>, faults: Faults, url: string, reply: HttpReply, tempPath: Path)
    ensures var e := Download(files, faults, url, reply, tempPath);
      e.result.Ok? <==>
        && url != "" && reply.Reply? && reply.status == StatusOK && reply.body.Some?
        && Creatable(files, faults, tempPath) && Writable(faults, tempPath)
    ensures var e := Download(files, faults, url, reply, tempPath);
      e.result.Ok? ==>
        && reply.Reply? && reply.body.Some?
        && e.result.value == DownloadConfigResult(tempPath, |reply.body.value|, reply.body.value)
        && tempPath !in files
        && e.files == files[tempPath := reply.body.value]
  {
  }

  /**
    The intended flow: a downloaded file installed over a different target succeeds exactly
    when the body is non-empty and both the staged file can be read and the target written;
    the target then holds the downloaded body.
   */
  lemma DownloadThenInstall(files: map<Path, Bytes>, faults: Faults, url: string, reply: HttpReply,
                            tempPath: Path, targetPath: Path)
    requires Download(files, faults, url, reply, tempPath).result.Ok?
    requires targetPath != tempPath
    ensures var d := Download(files, faults, url, reply, tempPath);
      var e := Install(d.files, faults, d.result.value.TempPath, targetPath);
      && (e.result.None? <==>
            d.result.value.Content != [] && tempPath !in faults.read && Writable(faults, targetPath))
      && (e.result.None? ==> targetPath in e.files && e.files[targetPath] == d.result.value.Content)
  {
    DownloadSucceeds(files, faults, url, reply, tempPath);
    var d := Download(files, faults, url, reply, tempPath);
    InstallSucceeds(d.files, faults, tempPath, targetPath);
  }

  // ---------------------------------------------------------------------------------------
  // Successive installs over one target

  /** Runs UpdateConfigFile once per staged path, in order, each on the disk the previous left. */
  function InstallAll(files: map<Path, Bytes>, faults: Faults, tempPaths: seq<Path>, targetPath: Path)
    : (e: Effect<seq<Option<InstallError>>>)
    ensures |e.result| == |tempPaths|
    decreases |tempPaths|
  {
    if tempPaths == [] then Effect([], files)
    else
      var first := Install(files, faults, tempPaths[0], targetPath);
      var rest := InstallAll(first.files, faults, tempPaths[1..], targetPath);
      Effect([first.result] + rest.result, rest.files)
  }

  /**
    Installing several distinct, valid staged files one after another over the same writable
    target: there is one result per call and every call succeeds, the target ends up with the
    last file's content, each staged file is gone unless its removal failed (then it still
    holds its bytes), and every other path is as it was.
   */
  lemma {:induction false} SequentialInstalls(files: map<Path, Bytes>, faults: Faults, tempPaths: seq<Path>,
                                              targetPath: Path)
    requires tempPaths != []
    requires forall i, j :: 0 <= i < j < |tempPaths| ==> tempPaths[i] != tempPaths[j]
    requires forall p :: p in tempPaths ==> p != targetPath && Readable(files, faults, p) && files[p] != []
    requires Writable(faults, targetPath)
    decreases |tempPaths|
    ensures var e := InstallAll(files, faults, tempPaths, targetPath);
      var last := tempPaths[|tempPaths| - 1];
      && |e.result| == |tempPaths|
      && (forall i :: 0 <= i < |e.result| ==> e.result[i].None?)
      && last in files && targetPath in e.files && e.files[targetPath] == files[last]
      && (forall i :: 0 <= i < |tempPaths| ==> (tempPaths[i] in e.files <==> tempPaths[i] in faults.remove))
      && (forall i :: 0 <= i < |tempPaths| ==> SameAt(files, e.files, tempPaths[i]) == (tempPaths[i] in faults.remove))
      && (forall p :: p != targetPath && p !in tempPaths ==> SameAt(files, e.files, p))
  {
    var t := tempPaths[0];
    var first := Install(files, faults, t, targetPath);
    InstallSucceeds(files, faults, t, targetPath);
    if |tempPaths| > 1 {
      var rest := tempPaths[1..];
      forall p | p in rest
        ensures p != targetPath && Readable(first.files, faults, p) && first.files[p] != []
      {
        var i :| 0 <= i < |rest| && rest[i] == p;
        assert p == tempPaths[i + 1] != t;
        assert p in tempPaths && p != targetPath;
        assert SameAt(files, first.files, p);
      }
      SequentialInstalls(first.files, faults, rest, targetPath);
      var e := InstallAll(files, faults, tempPaths, targetPath);
      assert e == Effect([first.result] + InstallAll(first.files, faults, rest, targetPath).result, e.files);
      forall i | 0 <= i < |tempPaths|
        ensures (tempPaths[i] in e.files <==> tempPaths[i] in faults.remove)
        ensures SameAt(files, e.files, tempPaths[i]) == (tempPaths[i] in faults.remove)
      {
        if i == 0 {
          assert t !in rest;
        } else {
          assert tempPaths[i] == rest[i - 1];
        }
      }
      forall p | p != targetPath && p !in tempPaths
        ensures SameAt(files, e.files, p)
      {
        assert p != t && p !in rest;
      }
    }
  }
}
