/**
  The watcher loop of index.php: at startup $uploaded is loaded from the upload log; then,
  once per cycle, the playlist is fetched and every segment line it lists is either skipped,
  uploaded again from the local copy, or downloaded, saved and uploaded, with one log record
  per upload. The network (playlist and segment downloads), catbox_upload's outcome and the
  timestamps are inputs.
 */
module Watcher {
  import opened Text
  import opened UploadLog
  import Playlist
  import Catbox

  /**
    What the loop knows: $downloaded, $uploaded, the files in the save directory (by name),
    and the text of upload_log.txt.
   */
  datatype State = State(downloaded: seq<string>, uploaded: map<string, bool>, files: map<string, string>, log: string)

  /** !empty($uploaded[$name]). */
  predicate IsUploaded(s: State, name: string)
  {
    name in s.uploaded && s.uploaded[name]
  }

  /** The state right after startup: nothing downloaded, $uploaded replayed from the log if it exists. */
  function Start(log: Option<string>, files: map<string, string>): (s: State)
    ensures s.downloaded == []
    ensures forall n :: IsUploaded(s, n) <==> log.Some? && n in UploadedNames(FileLines(log.value))
  {
    if log.None? then State([], map[], files, "")
    else
      var names := UploadedNames(FileLines(log.value));
      State([], map n | n in names :: true, files, log.value)
  }

  /** Which branch of the loop body a segment line takes. */
  datatype Action =
    | Skip      // already downloaded, and nothing to upload again
    | Reupload  // already downloaded, still on disk, not marked uploaded
    | Fresh     // not downloaded yet

  /**
    The branch for a segment line whose short name is `name` (its URL does not matter here):
    in_array($filename, $downloaded), then file_exists && empty($uploaded[$filename]).
   */
  function Decide(s: State, name: string): Action
  {
    if name in s.downloaded then
      if name in s.files && !IsUploaded(s, name) then Reupload else Skip
    else Fresh
  }

  /** The effect of one catbox_upload result on the state: a log record, and the mark on success. */
  function AfterUpload(s: State, name: string, outcome: Catbox.Upload, ts: string): (t: State)
    ensures t.downloaded == s.downloaded && t.files == s.files
  {
    if outcome.ok then
      s.(log := s.log + LogLine(ts, name, Uploaded, outcome.message), uploaded := s.uploaded[name := true])
    else s.(log := s.log + LogLine(ts, name, UploadFail, outcome.message))
  }

  /**
    file_put_contents of the downloaded data, whose result the script ignores (`written` says
    whether the file landed on disk), and $downloaded[] = $filename either way.
   */
  function Saved(s: State, name: string, data: string, written: bool): State
  {
    s.(files := if written then s.files[name := data] else s.files, downloaded := s.downloaded + [name])
  }

  /**
    One pass of the foreach body for a segment line with short name `name` and absolute URL
    `url`, where `fetch` is what downloading a URL returns in this cycle and `written` whether
    saving the segment succeeded.
   */
  function Step(s: State, name: string, url: string, fetch: string -> Option<string>, written: bool,
                outcome: Catbox.Upload, ts: string): State
  {
    match Decide(s, name)
    case Skip => s
    case Reupload => AfterUpload(s, name, outcome, ts)
    case Fresh =>
      var data := fetch(url);
      if data.None? then s
      else AfterUpload(Saved(s, name, data.value, written), name, outcome, ts)
  }

  /** Whether the step calls catbox_upload. */
  predicate Uploads(s: State, name: string, url: string, fetch: string -> Option<string>)
  {
    match Decide(s, name)
    case Skip => false
    case Reupload => true
    case Fresh => fetch(url).Some?
  }

  /**
    The segment lines of one cycle, the i-th line using the i-th download, write result, upload
    outcome and timestamp (a URL listed twice in a cycle is downloaded twice and may differ).
   */
  function Steps(s: State, playlistUrl: string, segs: seq<string>, fetch: nat -> string -> Option<string>,
                 written: nat -> bool, outcome: nat -> Catbox.Upload, stamp: nat -> string): State
  {
    if segs == [] then s
    else
      var n := |segs| - 1;
      Step(Steps(s, playlistUrl, segs[..n], fetch, written, outcome, stamp),
           Playlist.ShortName(segs[n]), Playlist.Resolve(playlistUrl, segs[n]), fetch(n), written(n), outcome(n), stamp(n))
  }

  lemma StepsSnoc(s: State, playlistUrl: string, segs: seq<string>, i: nat, fetch: nat -> string -> Option<string>,
                  written: nat -> bool, outcome: nat -> Catbox.Upload, stamp: nat -> string)
    requires i < |segs|
    ensures Steps(s, playlistUrl, segs[..i + 1], fetch, written, outcome, stamp)
         == Step(Steps(s, playlistUrl, segs[..i], fetch, written, outcome, stamp),
                 Playlist.ShortName(segs[i]), Playlist.Resolve(playlistUrl, segs[i]), fetch(i), written(i), outcome(i), stamp(i))
  {
    assert segs[..i + 1][..i] == segs[..i];
    assert segs[..i + 1][i] == segs[i];
  }

  /** Files of the save directory that something else removed: the script never deletes one. */
  function Vanish(s: State, vanished: set<string>): State
  {
    s.(files := s.files - vanished)
  }

  /**
    One iteration of while(true), after the files in `vanished` disappeared from the save
    directory: nothing more happens when the playlist cannot be fetched.
   */
  function Cycle(s: State, playlistUrl: string, vanished: set<string>, playlist: Option<string>,
                 fetch: nat -> string -> Option<string>,
                 written: nat -> bool, outcome: nat -> Catbox.Upload, stamp: nat -> string): State
  {
    var s' := Vanish(s, vanished);
    if playlist.None? then s'
    else Steps(s', playlistUrl, Playlist.Segments(playlist.value), fetch, written, outcome, stamp)
  }

  // ---------------------------------------------------------------------------------------
  // The loop as the script runs it.

  class Watcher {
    const playlistUrl: string
    var downloaded: seq<string>
    var uploaded: map<string, bool>
    var files: map<string, string>
    var log: string

    function Snapshot(): State
      reads this
    {
      State(downloaded, uploaded, files, log)
    }

    /** Startup: the save directory's current files, and the log's text if the log exists. */
    constructor(playlistUrl: string, logFile: Option<string>, files: map<string, string>)
      ensures this.playlistUrl == playlistUrl
      ensures Snapshot() == Start(logFile, files)
    {
      this.playlistUrl := playlistUrl;
      downloaded := [];
      this.files := files;
      if logFile.Some? {
        log := logFile.value;
        var loaded := LoadUploaded(FileLines(logFile.value));
        assert loaded == map n | n in UploadedNames(FileLines(logFile.value)) :: true;
        uploaded := loaded;
      } else {
        log := "";
        uploaded := map[];
      }
    }

    /** The upload block both branches share: write_log, then mark on success. */
    method RecordUpload(name: string, outcome: Catbox.Upload, ts: string)
      modifies this
      ensures Snapshot() == AfterUpload(old(Snapshot()), name, outcome, ts)
    {
      if outcome.ok {
        log := log + LogLine(ts, name, Uploaded, outcome.message);
        uploaded := uploaded[name := true];
      } else {
        log := log + LogLine(ts, name, UploadFail, outcome.message);
      }
    }

    /** The foreach body for one segment line (index.php:237-299). */
    method ProcessSegment(segment: string, fetch: string -> Option<string>, written: bool, outcome: Catbox.Upload, ts: string)
      modifies this
      ensures Snapshot() == Step(old(Snapshot()), Playlist.ShortName(segment), Playlist.Resolve(playlistUrl, segment),
                                 fetch, written, outcome, ts)
    {
      var name := Playlist.ShortName(segment);
      var segmentUrl := Playlist.Resolve(playlistUrl, segment);
      Handle(name, segmentUrl, fetch, written, outcome, ts);
    }

    /** The body once the short name and the absolute URL are known. */
    method Handle(name: string, segmentUrl: string, fetch: string -> Option<string>, written: bool, outcome: Catbox.Upload, ts: string)
      modifies this
      ensures Snapshot() == Step(old(Snapshot()), name, segmentUrl, fetch, written, outcome, ts)
    {
      if name in downloaded {
        if name in files && !(name in uploaded && uploaded[name]) {
          RecordUpload(name, outcome, ts);
        }
        return;
      }
      var data := fetch(segmentUrl);
      if data.Some? {
        if written {
          files := files[name := data.value];
        }
        downloaded := downloaded + [name];
        RecordUpload(name, outcome, ts);
      }
    }

    /**
      One iteration of while(true) (index.php:226-306), given the files removed from the save
      directory since the last one and what the playlist fetch returned.
     */
    method Poll(vanished: set<string>, playlist: Option<string>, fetch: nat -> string -> Option<string>,
                written: nat -> bool, outcome: nat -> Catbox.Upload, stamp: nat -> string)
      modifies this
      ensures Snapshot() == Cycle(old(Snapshot()), playlistUrl, vanished, playlist, fetch, written, outcome, stamp)
    {
      files := files - vanished;
      if playlist.None? {
        return;
      }
      ghost var start := Snapshot();
      var segs := Playlist.Segments(playlist.value);
      for i := 0 to |segs|
        invariant Snapshot() == Steps(start, playlistUrl, segs[..i], fetch, written, outcome, stamp)
      {
        ProcessSegment(segs[i], fetch(i), written(i), outcome(i), stamp(i));
        StepsSnoc(start, playlistUrl, segs, i, fetch, written, outcome, stamp);
      }
      assert segs[..|segs|] == segs;
    }
  }

  // ---------------------------------------------------------------------------------------
  // What one step does.

  /** A name already downloaded is never fetched again: no download, no new file, the list unchanged. */
  lemma KnownNameNotDownloaded(s: State, name: string, url: string, fetch: string -> Option<string>,
                               written: bool, outcome: Catbox.Upload, ts: string)
    requires name in s.downloaded
    ensures Decide(s, name) != Fresh
    ensures var t := Step(s, name, url, fetch, written, outcome, ts);
      t.downloaded == s.downloaded && t.files == s.files
  {
  }

  /**
    A downloaded name is uploaded again exactly when its local file exists and it is not
    marked uploaded; a name not downloaded yet is uploaded exactly when its download succeeds.
   */
  lemma UploadsIff(s: State, name: string, url: string, fetch: string -> Option<string>)
    ensures Uploads(s, name, url, fetch) <==>
      if name in s.downloaded then name in s.files && !IsUploaded(s, name) else fetch(url).Some?
  {
  }

  /**
    Each upload appends exactly one record: UPLOADED with the URL and a mark in $uploaded on
    success, UPLOAD_FAIL with the message otherwise; a step without an upload writes nothing.
   */
  lemma StepLogsEachUpload(s: State, name: string, url: string, fetch: string -> Option<string>,
                           written: bool, outcome: Catbox.Upload, ts: string)
    ensures var t := Step(s, name, url, fetch, written, outcome, ts);
      var status := if outcome.ok then Uploaded else UploadFail;
      t.log == s.log + (if Uploads(s, name, url, fetch) then LogLine(ts, name, status, outcome.message) else "")
      && t.uploaded == (if Uploads(s, name, url, fetch) && outcome.ok then s.uploaded[name := true] else s.uploaded)
  {
    assert s.log + "" == s.log;
  }

  /** A failed download changes nothing, so the next cycle tries the same segment again. */
  lemma FailedDownloadChangesNothing(s: State, name: string, url: string, fetch: string -> Option<string>,
                                     written: bool, outcome: Catbox.Upload, ts: string)
    requires name !in s.downloaded
    requires fetch(url).None?
    ensures Step(s, name, url, fetch, written, outcome, ts) == s
  {
  }

  /** $downloaded only grows at its end, by the one name fetched; marks and local files are never lost. */
  lemma StepGrows(s: State, name: string, url: string, fetch: string -> Option<string>,
                  written: bool, outcome: Catbox.Upload, ts: string)
    ensures var t := Step(s, name, url, fetch, written, outcome, ts);
      (t.downloaded == s.downloaded || (name !in s.downloaded && t.downloaded == s.downloaded + [name]))
      && (forall n :: IsUploaded(s, n) ==> IsUploaded(t, n))
      && s.files.Keys <= t.files.Keys
      && |s.log| <= |t.log| && t.log[..|s.log|] == s.log
  {
  }

  /**
    The write's result is ignored: a segment whose file was not saved is still counted as
    downloaded, so the file_exists guard keeps it from ever being uploaded again.
   */
  lemma UnsavedSegmentNotRetried(s: State, name: string, url: string, fetch: string -> Option<string>,
                                 outcome: Catbox.Upload, ts: string,
                                 url2: string, fetch2: string -> Option<string>)
    requires name !in s.downloaded && name !in s.files && fetch(url).Some?
    ensures var t := Step(s, name, url, fetch, false, outcome, ts);
      Uploads(s, name, url, fetch) && name in t.downloaded && name !in t.files && !Uploads(t, name, url2, fetch2)
  {
  }

  /** A downloaded segment whose file was removed is neither fetched nor uploaded again. */
  lemma VanishedFileNotRetried(s: State, vanished: set<string>, name: string, url: string,
                               fetch: string -> Option<string>)
    requires name in s.downloaded && name in vanished
    ensures !Uploads(Vanish(s, vanished), name, url, fetch)
  {
  }

  // ---------------------------------------------------------------------------------------
  // Invariants of the loop.

  predicate NoDuplicates(xs: seq<string>)
  {
    forall i, j :: 0 <= i < j < |xs| ==> xs[i] != xs[j]
  }

  /** Every name is downloaded at most once. */
  predicate Valid(s: State)
  {
    NoDuplicates(s.downloaded)
  }

  lemma StepValid(s: State, name: string, url: string, fetch: string -> Option<string>,
                  written: bool, outcome: Catbox.Upload, ts: string)
    requires Valid(s)
    ensures Valid(Step(s, name, url, fetch, written, outcome, ts))
  {
    if Decide(s, name) == Fresh && fetch(url).Some? {
      var d := s.downloaded + [name];
      forall i, j | 0 <= i < j < |d| ensures d[i] != d[j] {
        if j == |s.downloaded| {
          assert d[i] == s.downloaded[i];
        }
      }
    }
  }

  lemma {:induction false} StepsValid(s: State, playlistUrl: string, segs: seq<string>, fetch: nat -> string -> Option<string>,
                                      written: nat -> bool, outcome: nat -> Catbox.Upload, stamp: nat -> string)
    requires Valid(s)
    ensures Valid(Steps(s, playlistUrl, segs, fetch, written, outcome, stamp))
  {
    if segs != [] {
      var n := |segs| - 1;
      StepsValid(s, playlistUrl, segs[..n], fetch, written, outcome, stamp);
      StepValid(Steps(s, playlistUrl, segs[..n], fetch, written, outcome, stamp),
                Playlist.ShortName(segs[n]), Playlist.Resolve(playlistUrl, segs[n]), fetch(n), written(n), outcome(n), stamp(n));
    }
  }

  /** Startup and every cycle keep the invariant: no name is ever downloaded twice. */
  lemma CycleValid(s: State, playlistUrl: string, vanished: set<string>, playlist: Option<string>,
                   fetch: nat -> string -> Option<string>,
                   written: nat -> bool, outcome: nat -> Catbox.Upload, stamp: nat -> string)
    requires Valid(s)
    ensures Valid(Cycle(s, playlistUrl, vanished, playlist, fetch, written, outcome, stamp))
  {
    if playlist.Some? {
      StepsValid(Vanish(s, vanished), playlistUrl, Playlist.Segments(playlist.value), fetch, written, outcome, stamp);
    }
  }

  lemma StartValid(log: Option<string>, files: map<string, string>)
    ensures Valid(Start(log, files))
  {
  }

  /**
    The log agrees with $uploaded: the log text ends with a complete line, and reloading it
    would mark at least every name $uploaded holds.
   */
  ghost predicate LogCovers(s: State)
  {
    EndsLine(s.log) && forall n :: IsUploaded(s, n) ==> n in UploadedNames(FileLines(s.log))
  }

  /** The loaded state agrees with its log when the log ends with a complete line. */
  lemma StartLogCovers(log: Option<string>, files: map<string, string>)
    requires log.Some? ==> EndsLine(log.value)
    ensures LogCovers(Start(log, files))
  {
  }

  /** A step keeps the log in agreement with $uploaded when the name and timestamp are plain fields. */
  lemma StepLogCovers(s: State, name: string, url: string, fetch: string -> Option<string>,
                      written: bool, outcome: Catbox.Upload, ts: string)
    requires LogCovers(s)
    requires IsField(ts) && '\n' !in ts
    requires IsField(name) && '\n' !in name
    ensures LogCovers(Step(s, name, url, fetch, written, outcome, ts))
  {
    var t := Step(s, name, url, fetch, written, outcome, ts);
    StepLogsEachUpload(s, name, url, fetch, written, outcome, ts);
    if Uploads(s, name, url, fetch) {
      var status := if outcome.ok then Uploaded else UploadFail;
      var line := LogLine(ts, name, status, outcome.message);
      assert t.log == s.log + line;
      assert EndsLine(t.log);
      FileLinesAppend(s.log, line);
      UploadedNamesAppend(FileLines(s.log), FileLines(line));
      if outcome.ok {
        RecordReloads(s.log, ts, name, outcome.message);
      }
    }
  }

  /**
    The restart caveat: $downloaded starts empty and is never rebuilt from the log, so after a
    restart a segment the log already marks UPLOADED is downloaded and uploaded once more.
   */
  lemma RestartUploadsAgain(logText: string, files: map<string, string>, name: string, url: string,
                            fetch: string -> Option<string>, written: bool, outcome: Catbox.Upload, ts: string)
    requires name in UploadedNames(FileLines(logText))
    requires fetch(url).Some?
    ensures var s := Start(Some(logText), files);
      IsUploaded(s, name)
      && Uploads(s, name, url, fetch)
      && Step(s, name, url, fetch, written, outcome, ts).downloaded == [name]
  {
  }
}
