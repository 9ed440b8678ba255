/**
  The application's config operations: metadata lookup, download into a temporary file,
  validation, and installation of a staged file over the target config file.
  Each operation that changes the disk is a method over a `Disk`, proved equal to a pure
  function of the disk it started from; the properties of those functions are in
  module AppProperties.
 */
module App {
  import opened Wrappers
  import opened FileSystem

  /** File metadata as reported to the front end (`ConfigFileInfo`). */
  datatype ConfigFileInfo = ConfigFileInfo(Path: Path, Size: nat, Exists: bool)

  /** `GetConfigFileInfo`: a path that cannot be examined reports the default record. */
  method GetConfigFileInfo(disk: Disk, path: Path) returns (info: ConfigFileInfo)
    ensures info.Path == path
    ensures info.Exists <==> Statable(disk.files, disk.faults, path)
    ensures info.Exists ==> info.Size == |disk.files[path]|
    ensures !info.Exists ==> info.Size == 0
  {
    info := ConfigFileInfo(path, 0, false);
    var size := disk.Stat(path);
    if size.None? {
      return;
    }
    info := info.(Exists := true);
    info := info.(Size := size.value);
  }

  // ---------------------------------------------------------------------------------------
  // Validation

  /** The verdict of `ValidateConfig`: its boolean and its message. */
  datatype Verdict = Verdict(valid: bool, message: string)

  const EmptyContentMessage := "config content is empty"

  /** The placeholder validator: every non-empty content is accepted. */
  function ValidateConfig(content: Bytes): (v: Verdict)
    ensures v.valid <==> content != []
    ensures v.message == "" <==> v.valid
    ensures !v.valid ==> v.message == EmptyContentMessage
  {
    if content == [] then Verdict(false, EmptyContentMessage) else Verdict(true, "")
  }

  // ---------------------------------------------------------------------------------------
  // Download

  const StatusOK := 200

  /**
    What the HTTP GET produced: no response at all (DNS, connection or timeout failure),
    or a status code with the body, which is None when reading the body failed.
   */
  datatype HttpReply = Unreachable | Reply(status: int, body: Option<Bytes>)

  datatype DownloadError =
    | EmptyUrl
    | TransportFailed
    | BadStatus(code: int)
    | ReadBodyFailed
    | CreateTempFailed
    | WriteTempFailed

  /** `DownloadConfigResult`: where the body was staged, its byte count and the body. */
  datatype DownloadConfigResult = DownloadConfigResult(TempPath: Path, Size: nat, Content: Bytes)

  /**
    What `DownloadConfig` returns and leaves on disk, given the HTTP reply and the name
    the OS picks for the temporary file.
   */
  function Download(files: map<Path, Bytes>, faults: Faults, url: string, reply: HttpReply, tempPath: Path)
    : (e: Effect<Result<DownloadConfigResult, DownloadError>>)
    ensures e.result.Ok? ==> e.result.value.Size == |e.result.value.Content|
    ensures e.result.Ok? ==>
              e.result.value.TempPath in e.files && e.files[e.result.value.TempPath] == e.result.value.Content
  {
    if url == "" then Effect(Err(EmptyUrl), files)
    else match reply
      case Unreachable => Effect(Err(TransportFailed), files)
      case Reply(status, body) =>
        if status != StatusOK then Effect(Err(BadStatus(status)), files)
        else if body.None? then Effect(Err(ReadBodyFailed), files)
        else if !Creatable(files, faults, tempPath) then Effect(Err(CreateTempFailed), files)
        else
          var created := files[tempPath := []];
          if !Writable(faults, tempPath) then Effect(Err(WriteTempFailed), created)
          else
            var content := body.value;
            Effect(Ok(DownloadConfigResult(tempPath, |content|, content)), created[tempPath := content])
  }

  /**
    `DownloadConfig`: stages the body of a successful GET in a new temporary file.
    `reply` is what the HTTP client returned for `url` (it is not consulted for an empty
    URL) and `tempPath` is the name `os.CreateTemp` tries.
   */
  method DownloadConfig(disk: Disk, url: string, reply: HttpReply, tempPath: Path)
    returns (r: Result<DownloadConfigResult, DownloadError>)
    modifies disk
    ensures Effect(r, disk.files) == Download(old(disk.files), disk.faults, url, reply, tempPath)
  {
    if url == "" {
      return Err(EmptyUrl);
    }
    if reply.Unreachable? {
      return Err(TransportFailed);
    }
    if reply.status != StatusOK {
      return Err(BadStatus(reply.status));
    }
    if reply.body.None? {
      return Err(ReadBodyFailed);
    }
    var content := reply.body.value;
    var created := disk.CreateExclusive(tempPath);
    if !created {
      return Err(CreateTempFailed);
    }
    var written := disk.WriteFile(tempPath, content);
    if !written {
      return Err(WriteTempFailed);
    }
    return Ok(DownloadConfigResult(tempPath, |content|, content));
  }

  // ---------------------------------------------------------------------------------------
  // Installation

  datatype InstallError =
    | ReadTempFailed
    | ValidationFailed(message: string)
    | WriteTargetFailed

  /**
    What `UpdateConfigFile` returns (None for a nil error) and leaves on disk: read the
    staged file, validate it, write it over the target, then try to remove the staged file
    and ignore whether that worked.
   */
  function Install(files: map<Path, Bytes>, faults: Faults, tempPath: Path, targetPath: Path)
    : (e: Effect<Option<InstallError>>)
    ensures e.result.Some? ==> e.files == files
    ensures e.result.None? ==> forall p :: p != tempPath && p != targetPath ==> SameAt(files, e.files, p)
  {
    if !Readable(files, faults, tempPath) then Effect(Some(ReadTempFailed), files)
    else
      var content := files[tempPath];
      var verdict := ValidateConfig(content);
      if !verdict.valid then Effect(Some(ValidationFailed(verdict.message)), files)
      else if !Writable(faults, targetPath) then Effect(Some(WriteTargetFailed), files)
      else
        var written := files[targetPath := content];
        var cleaned := if Removable(written, faults, tempPath) then written - {tempPath} else written;
        Effect(None, cleaned)
  }

  /** `UpdateConfigFile`: replaces the target config file with the staged file's content. */
  method UpdateConfigFile(disk: Disk, tempPath: Path, targetPath: Path) returns (err: Option<InstallError>)
    modifies disk
    ensures Effect(err, disk.files) == Install(old(disk.files), disk.faults, tempPath, targetPath)
  {
    var content := disk.ReadFile(tempPath);
    if content.None? {
      return Some(ReadTempFailed);
    }
    var verdict := ValidateConfig(content.value);
    if !verdict.valid {
      return Some(ValidationFailed(verdict.message));
    }
    var written := disk.WriteFile(targetPath, content.value);
    if !written {
      return Some(WriteTargetFailed);
    }
    // The removal is best-effort: its outcome is discarded.
    var _ := disk.Remove(tempPath);
    return None;
  }
}
