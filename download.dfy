/**
 * `download_file`: the destination of a video is `<DOWNLOAD_FOLDER>/<name>.mp4`;
 * when a file already exists there the function returns at once, before any
 * request is made or any file is opened. Otherwise the response is streamed
 * into a file opened at that path.
 *
 * The disk is the set of paths that exist. What the network and the file
 * system did with one request is a `Transfer` value given to the operation.
 */
module Download {

  const DOWNLOAD_FOLDER: string := "polito_videos"

  /** `os.path.join(a, b)` on a POSIX system. */
  function JoinPath(a: string, b: string): string
  {
    if |b| > 0 && b[0] == '/' then b
    else if a == [] || a[|a| - 1] == '/' then a + b
    else a + "/" + b
  }

  /** The destination of a video whose sanitised name is `filename`. */
  function LocalFilename(filename: string): (path: string)
    ensures |path| >= 4 && path[|path| - 4..] == ".mp4"
    ensures (filename == [] || filename[0] != '/') ==> path == DOWNLOAD_FOLDER + "/" + filename + ".mp4"
  {
    JoinPath(DOWNLOAD_FOLDER, filename + ".mp4")
  }

  /**
   * What happened after the existence check: the request failed before the file
   * was opened (a transport error or an error status), or the file was opened and
   * the body was written into it entirely or up to a failure.
   */
  datatype Transfer = NotOpened | Written(complete: bool)

  /** The message `download_file` ends with. */
  datatype Outcome = AlreadyExists | Completed | Failed

  datatype Step = Step(outcome: Outcome, paths: set<string>)

  /** One call of `download_file` on a disk holding `paths`. */
  function Download(paths: set<string>, filename: string, transfer: Transfer): (r: Step)
    ensures r.outcome == AlreadyExists <==> LocalFilename(filename) in paths
    ensures r.paths == paths || r.paths == paths + {LocalFilename(filename)}
    ensures r.outcome == Completed ==> LocalFilename(filename) in r.paths
  {
    var localFilename := LocalFilename(filename);
    if localFilename in paths then Step(AlreadyExists, paths)
    else match transfer
      case NotOpened => Step(Failed, paths)
      case Written(complete) => Step(if complete then Completed else Failed, paths + {localFilename})
  }

  class Disk {
    var paths: set<string>

    constructor (existing: set<string>)
      ensures paths == existing
    {
      paths := existing;
    }

    method DownloadFile(filename: string, transfer: Transfer) returns (outcome: Outcome)
      modifies this
      ensures Step(outcome, paths) == Download(old(paths), filename, transfer)
      ensures LocalFilename(filename) in old(paths) ==> outcome == AlreadyExists && paths == old(paths)
    {
      var localFilename := LocalFilename(filename);
      if localFilename in paths {
        return AlreadyExists;
      }
      match transfer {
        case NotOpened =>
          outcome := Failed;
        case Written(complete) =>
          paths := paths + {localFilename};
          outcome := if complete then Completed else Failed;
      }
    }
  }

  /** When the destination exists, nothing the network would do matters: no request is made. */
  lemma SkipIgnoresTransfer(paths: set<string>, filename: string, t1: Transfer, t2: Transfer)
    requires LocalFilename(filename) in paths
    ensures Download(paths, filename, t1) == Download(paths, filename, t2) == Step(AlreadyExists, paths)
  {
  }

  /**
   * Re-running on the same folder skips every video whose file was opened by an
   * earlier run, including one whose transfer broke off part-way.
   */
  lemma RerunSkips(paths: set<string>, filename: string, first: Transfer, second: Transfer)
    requires first.Written? || LocalFilename(filename) in paths
    ensures var after := Download(paths, filename, first).paths;
      Download(after, filename, second) == Step(AlreadyExists, after)
  {
  }

  /** Different names that cannot restart the path get different destinations. */
  lemma {:induction false} LocalFilenameInjective(f1: string, f2: string)
    requires f1 == [] || f1[0] != '/'
    requires f2 == [] || f2[0] != '/'
    requires LocalFilename(f1) == LocalFilename(f2)
    ensures f1 == f2
  {
    var p := LocalFilename(f1);
    var n := |DOWNLOAD_FOLDER| + 1;
    assert |f1| == |f2|;
    assert f1 == p[n..|p| - 4];
    assert f2 == p[n..|p| - 4];
  }
}
