/**
 * The end of the work for one video once its player has appeared: choose the
 * stream URL, and when it is not blank sanitise the link text and download to
 * the file of that name.
 */
module Pipeline {
  import opened Optional
  import opened Text
  import Sanitizer
  import Download
  import StreamUrl

  /** What processing one video reports. */
  datatype VideoResult = PlayerFailed | UrlNotFound(found: Option<string>) | Attempted(outcome: Download.Outcome)

  /**
   * The path a video is saved to lies directly in the download folder and is
   * named after the sanitised link text, since a sanitised name never holds `/`.
   */
  lemma DownloadsStayInFolder(cls: CharClasses, rawText: string)
    requires WellFormed(cls)
    ensures var name := Sanitizer.SanitizeFilename(cls, rawText);
      Download.LocalFilename(name) == Download.DOWNLOAD_FOLDER + "/" + name + ".mp4"
  {
    var name := Sanitizer.SanitizeFilename(cls, rawText);
    if name != [] {
      assert name[0] in name;
    }
  }

  method ProcessVideo(disk: Download.Disk, cls: CharClasses, rawText: string,
                      polls: seq<StreamUrl.Attr>, sources: seq<StreamUrl.Attr>,
                      transfer: Download.Transfer)
    returns (result: VideoResult)
    requires StreamUrl.MAX_POLLS <= |polls|
    modifies disk
    ensures match StreamUrl.Select(cls, polls, sources)
      case Aborted => result == PlayerFailed && disk.paths == old(disk.paths)
      case NotFound(found) => result == UrlNotFound(found) && disk.paths == old(disk.paths)
      case Fetch(_) =>
        result.Attempted? &&
        Download.Step(result.outcome, disk.paths) ==
          Download.Download(old(disk.paths), Sanitizer.SanitizeFilename(cls, rawText), transfer)
    ensures WellFormed(cls) ==> forall p :: p in disk.paths && p !in old(disk.paths) ==>
      p == Download.DOWNLOAD_FOLDER + "/" + Sanitizer.SanitizeFilename(cls, rawText) + ".mp4"
  {
    var sel := StreamUrl.SelectStreamUrl(cls, polls, sources);
    match sel {
      case Aborted =>
        result := PlayerFailed;
      case NotFound(found) =>
        result := UrlNotFound(found);
      case Fetch(videoUrl) =>
        var cleanName := Sanitizer.SanitizeFilename(cls, rawText);
        var outcome := disk.DownloadFile(cleanName, transfer);
        result := Attempted(outcome);
        if WellFormed(cls) {
          DownloadsStayInFolder(cls, rawText);
        }
    }
  }
}
