# PoliTo lecture downloader: the rules around the browser automation

`main.py` drives a logged-in Chrome session over a course page of the
Politecnico di Torino e-learning portal, finds the recorded lectures in the
sidebar, opens each one, waits for its video player, reads the stream URL and
downloads the video into `polito_videos/`. Between the browser calls sit a few
sequential rules, and this project models them and proves what they promise:

- **`sanitize_filename`** (`sanitize.dfy`, on top of `text.dfy`): deleting every
  character outside `[\w\s-]`, then `str.strip()`. The Unicode classes `\w` and
  `\s` are a `CharClasses` parameter, so every result holds for any choice of
  tables; `str.strip()` uses the same whitespace class. The output contains only
  allowed characters, is trimmed, is an order-preserving subsequence of the
  input that keeps every non-whitespace allowed character, is empty exactly when
  every allowed input character is whitespace, and sanitising is idempotent.
- **The scan of the sidebar links** (`links.dfy`): the loop that appends
  `(data-bbb-id, text)` to `video_data` when the id is non-empty and the text is
  not blank; a link whose attribute read raises is skipped. The loop is proved
  against `Candidates`, and the lemmas show that entries keep page order, that
  every qualifying link contributes exactly its own entry in its own place, and
  that nothing else contributes.
- **`download_file`'s destination and skip** (`download.dfy`): the path
  `os.path.join("polito_videos", name + ".mp4")`, the early return when it
  exists, and the effect on the set of existing paths. The disk is a class
  whose set of paths the method updates; what the network and `open` did is a
  `Transfer` parameter.
- **The choice of the stream URL** (`stream_url.dfy`): at most ten reads of the
  video's `src`, stopping at the first non-blank value, then the first `<source>`
  child with a non-empty `src` when polling left `None` or `""`, then the final
  non-blank test before downloading. Both loops are methods proved against
  recursive specifications, which are in turn characterised by their first
  stopping read.
- **One video end to end** (`pipeline.dfy`): selection, sanitising and download,
  with the proof that a new file only ever appears as
  `polito_videos/<sanitised name>.mp4`.

A download that breaks off part-way leaves its file in place, and the next run
skips it as already downloaded (`Download.RerunSkips`).

## Model

| member | source | states |
|---|---|---|
| `Text.TrimStart` | main.py:16 | the leading-whitespace half of `strip()`: the result is a suffix of the input, everything dropped is whitespace, and the result does not start with whitespace |
| `Text.TrimEnd` | main.py:16 | the trailing half: a prefix of the input, everything dropped is whitespace, and the result does not end with whitespace |
| `Text.Strip` | main.py:16 | `strip()` never lengthens, returns a string that neither starts nor ends with whitespace, and leaves an already trimmed string unchanged |
| `Text.StripEmptyIff` | main.py:74 | `s.strip()` is empty (false in the tests at lines 74, 118 and 137) exactly when every character of `s` is whitespace |
| `Text.StripIsSlice` | main.py:16 | the stripped string is the contiguous slice of the original starting at `StripStart`, everything before and after that slice is whitespace, and so it is also a subsequence of the original |
| `Text.StripKeepsNonSpace` | main.py:16 | `strip()` keeps every occurrence of every non-whitespace character |
| `Sanitizer.RemoveDisallowed` | main.py:16 | `re.sub(r'[^\w\s-]', '', name)` keeps only word, whitespace and `-` characters, keeps each of them as often as the input has it, and keeps their order (a subsequence) |
| `Sanitizer.SanitizeFilename` | main.py:14-17 | every output character is a word character, whitespace or `-`; the output neither starts nor ends with whitespace; it is an order-preserving subsequence of the input and never longer |
| `Sanitizer.RemoveDisallowedKeepsAllowed` | main.py:16 | a string of allowed characters passes the substitution unchanged |
| `Sanitizer.SanitizeKeepsCleanName` | main.py:14-17 | a name made only of allowed characters that neither starts nor ends with whitespace comes back unchanged |
| `Sanitizer.SanitizeKeepsContent` | main.py:14-17 | every allowed character that is not whitespace occurs in the output exactly as often as in the input: only disallowed characters and surrounding whitespace are removed |
| `Sanitizer.SanitizeIdempotent` | main.py:14-17 | sanitising an already sanitised name returns it unchanged |
| `Sanitizer.SanitizeEmptyIff` | main.py:14-17 | the empty name comes out exactly when every allowed character of the input is whitespace |
| `LinkScan.Candidates` | main.py:69-77 | every entry has a non-empty id and a text that is not blank after stripping, and there are never more entries than links |
| `LinkScan.CollectVideoData` | main.py:64-77 | the loop builds exactly `Candidates` of the scanned elements |
| `LinkScan.CandidatesAppend` | main.py:69-77 | scanning two stretches of links in turn gives the concatenation of their entries, so page order is kept |
| `LinkScan.CandidatesKeepQualifying` | main.py:74-75 | a qualifying link is never dropped: its `(id, text)` entry lies between the entries of the links before it and those after it |
| `LinkScan.CandidatesSkipOthers` | main.py:74-77 | a link without id, with blank text or whose read raised adds nothing and removes nothing |
| `LinkScan.CandidatesFromElements` | main.py:72-75 | every entry is the id and raw text of some scanned link |
| `Download.LocalFilename` | main.py:20 | the destination ends in `.mp4` and, for a name not starting with `/`, is `polito_videos/<name>.mp4` |
| `Download.Download` | main.py:19-40 | the outcome is "already exists" exactly when the destination exists; the only path that can appear is the destination; a completed download leaves the destination present |
| `Download.Disk.DownloadFile` | main.py:19-40 | the disk and outcome after a call are those of `Download`; an existing destination returns at once with the disk untouched |
| `Download.SkipIgnoresTransfer` | main.py:22-24 | when the destination exists the result does not depend on the network at all: nothing is fetched or written |
| `Download.RerunSkips` | main.py:22-37 | a second call for the same name skips once a first call has opened the file, including a transfer that broke off part-way |
| `Download.LocalFilenameInjective` | main.py:20 | distinct names that do not start with `/` get distinct destinations |
| `StreamUrl.PollFrom` | main.py:116-121 | from attempt `k` on, the loop ends after at most `MAX_POLLS` attempts in all and after attempt `k` at the earliest |
| `StreamUrl.Poll` | main.py:114-121 | the polling loop makes between 1 and 10 attempts |
| `StreamUrl.PollSrc` | main.py:114-126 | the `while wait_time < 10` loop computes `Poll` |
| `StreamUrl.FirstPollStop` | main.py:116-119 | the first attempt whose read raises or is non-blank: every earlier attempt is neither |
| `StreamUrl.PollStopsAtFirst` | main.py:114-121 | polling stops at the first read that is non-blank (or raises); with none it makes exactly 10 attempts and keeps the last value |
| `StreamUrl.FirstPollStopAt` | main.py:116-119 | an attempt preceded only by quiet attempts and itself stopping is the first stop |
| `StreamUrl.FirstSource` | main.py:130-135 | a found `src` is non-empty and is the value of one of the `<source>` children |
| `StreamUrl.FirstSourceSrc` | main.py:130-135 | the `for source in sources` loop with `break` computes `FirstSource` |
| `StreamUrl.FirstSourceStop` | main.py:131-135 | the first child whose read raises or gives a non-empty `src`: every earlier child is neither |
| `StreamUrl.FirstSourceStopsAtFirst` | main.py:131-135 | the search ends at the first non-empty `src` (or at a read that raises) |
| `StreamUrl.Finish` | main.py:137-141 | a download is chosen exactly when the URL is present and not blank, and it uses that URL |
| `StreamUrl.Select` | main.py:114-141 | a URL chosen for download is never empty or blank |
| `StreamUrl.SelectStreamUrl` | main.py:114-141 | polling, the `<source>` fallback and the final test compute `Select` |
| `StreamUrl.SelectPolledUrl` | main.py:116-119 | the first non-blank poll is downloaded as it is, whatever the `<source>` children hold |
| `StreamUrl.SelectFallback` | main.py:128-137 | when no poll stopped the loop and the tenth left `None` or `""`, the first `<source>` with a non-empty `src` decides, downloaded only if not blank |
| `StreamUrl.BlankPollSuppressesFallback` | main.py:116-135 | as written, a last poll that is non-empty but blank skips the fallback and nothing is downloaded |
| `StreamUrl.SelectFetchOrigin` | main.py:114-139 | a downloaded URL is the first stopping poll, or after ten quiet polls the first stopping `<source>` value |
| `Pipeline.DownloadsStayInFolder` | main.py:138-139 | the destination of a video is `polito_videos/<sanitised text>.mp4` |
| `Pipeline.ProcessVideo` | main.py:137-141 | a download happens only for a selected URL and behaves as `download_file` on the sanitised text; no other file appears |

## Left out

- Selenium browser control: launching Chrome, the portal page, `find_elements`, the XPath lookup, scrolling, clicking, `WebDriverWait`, `driver.back` and `quit` (main.py:46-58, 94-111, 143-156). The page enters the model only as the values the attribute reads return.
- The loop over `video_data` and its per-video exception handlers (main.py:90-153): each iteration is `Pipeline.ProcessVideo` once the player is found; a failure to find the player is not modelled.
- The failure of `find_elements` itself, which ends the whole run (main.py:66-68, 81-84).
- The re-lookup of the `<video>` element between polls (main.py:122-126): whichever element is read, its value is the next entry of `polls`.
- The HTTP request, `raise_for_status`, the user-agent header, the session cookies and the chunked write (main.py:28-40, 87): what they did is the `Transfer` parameter; file contents are not modelled, only which paths exist.
- `os.makedirs` for the download folder (main.py:43-44).
- `time.sleep`, `input()` and every `print` (main.py:23, 26, 38, 40, 58, 79, 101, 120, 141, 148): timing and console output. The message `download_file` would print is the `Download.Outcome`.
- The Unicode tables of `\w`, `\s` and `str.strip()`: `Text.CharClasses` is a parameter; `Text.WellFormed` assumes only that `/` is neither a word nor a whitespace character.
- `os.path.join` is modelled as on POSIX systems; Windows path joining is not.
