/**
  The upload side of node.js: while ffmpeg writes `seg_NNNNNN.mp4` files into OUT_DIR, a poll
  loop runs processBatch, which starts uploads of stable segment files, at most MAX_PAR at a
  time; each upload (uploadOne) either records the file in `.uploaded.list` and deletes it, or
  moves it to `failed/`. When ffmpeg exits, one last batch sweeps what is left.
  File sizes, the directory listing and Catbox's answers are inputs; an upload's completion is
  an explicit step of its own.
 */
module Remux {
  import opened Text
  import UploadLog
  import opened UploadedList

  /** MAX_PAR: uploads in flight at once. */
  const MaxPar: nat := 2

  const SegPrefix: string := "seg_"
  const SegSuffix: string := ".mp4"

  // ---------------------------------------------------------------------------------------
  // isStable

  /** The two size samples isStable takes, a moment apart; None when stat fails. */
  datatype Sample = Sample(first: Option<nat>, second: Option<nat>)

  /** isStable: false at once if the first stat fails, else both stats and an unchanged non-zero size. */
  predicate IsStable(s: Sample)
  {
    if s.first.None? then false
    else s.second.Some? && s.first.value > 0 && s.first.value == s.second.value
  }

  /** A file is stable exactly when both samples exist, agree, and are not zero bytes. */
  lemma IsStableIff(s: Sample)
    ensures IsStable(s) <==> (exists size: nat :: size > 0 && s == Sample(Some(size), Some(size)))
  {
    if IsStable(s) {
      assert s == Sample(Some(s.first.value), Some(s.first.value));
    }
  }

  // ---------------------------------------------------------------------------------------
  // The candidates of one batch: readdir, filter, sort.

  predicate IsSegmentFile(name: string)
  {
    StartsWith(name, SegPrefix) && EndsWith(name, SegSuffix)
  }

  /** .filter(n => n.startsWith('seg_') && n.endsWith('.mp4')), keeping the order. */
  function SegmentFiles(names: seq<string>): seq<string>
  {
    if names == [] then []
    else (if IsSegmentFile(names[0]) then [names[0]] else []) + SegmentFiles(names[1..])
  }

  lemma {:induction false} SegmentFilesIff(names: seq<string>, name: string)
    ensures name in SegmentFiles(names) <==> name in names && IsSegmentFile(name)
    ensures multiset(SegmentFiles(names)) <= multiset(names)
  {
    if names != [] {
      SegmentFilesIff(names[1..], name);
      assert names == [names[0]] + names[1..];
    }
  }

  /** Ascending order of JavaScript's default sort on these strings. */
  predicate Sorted(xs: seq<string>)
  {
    forall i, j :: 0 <= i < j < |xs| ==> StrLe(xs[i], xs[j])
  }

  function Insert(x: string, xs: seq<string>): seq<string>
  {
    if xs == [] then [x]
    else if StrLe(x, xs[0]) then [x] + xs
    else [xs[0]] + Insert(x, xs[1..])
  }

  /** .sort(), as an insertion sort. */
  function Sort(xs: seq<string>): seq<string>
  {
    if xs == [] then [] else Insert(xs[0], Sort(xs[1..]))
  }

  lemma {:induction false} InsertPermutes(x: string, xs: seq<string>)
    ensures multiset(Insert(x, xs)) == multiset(xs) + multiset{x}
  {
    if xs != [] && !StrLe(x, xs[0]) {
      InsertPermutes(x, xs[1..]);
      assert xs == [xs[0]] + xs[1..];
    }
  }

  lemma {:induction false} InsertSorted(x: string, xs: seq<string>)
    requires Sorted(xs)
    ensures Sorted(Insert(x, xs))
  {
    if xs == [] {
    } else if StrLe(x, xs[0]) {
      forall k | 0 <= k < |xs| ensures StrLe(x, xs[k]) {
        if k > 0 {
          StrLeTransitive(x, xs[0], xs[k]);
        }
      }
      SortedCons(x, xs);
    } else {
      StrLeTotal(x, xs[0]);
      InsertSorted(x, xs[1..]);
      forall k | 0 <= k < |xs[1..]| ensures StrLe(xs[0], xs[1..][k]) {
        assert xs[1..][k] == xs[k + 1];
      }
      InsertKeepsLowerBound(xs[0], x, xs[1..]);
      SortedCons(xs[0], Insert(x, xs[1..]));
    }
  }

  /** A sorted sequence stays sorted with a lower bound of all its elements put in front. */
  lemma SortedCons(y: string, ys: seq<string>)
    requires Sorted(ys) && forall k :: 0 <= k < |ys| ==> StrLe(y, ys[k])
    ensures Sorted([y] + ys)
  {
    var r := [y] + ys;
    forall i, j | 0 <= i < j < |r| ensures StrLe(r[i], r[j]) {
      assert r[j] == ys[j - 1];
      if i > 0 {
        assert r[i] == ys[i - 1];
      }
    }
  }

  /** A lower bound of `x` and of every element of `xs` bounds every element of Insert(x, xs). */
  lemma InsertKeepsLowerBound(y: string, x: string, xs: seq<string>)
    requires StrLe(y, x) && forall k :: 0 <= k < |xs| ==> StrLe(y, xs[k])
    ensures forall k :: 0 <= k < |Insert(x, xs)| ==> StrLe(y, Insert(x, xs)[k])
  {
    var r := Insert(x, xs);
    InsertPermutes(x, xs);
    forall k | 0 <= k < |r| ensures StrLe(y, r[k]) {
      assert r[k] in multiset(r);
      if r[k] != x {
        assert r[k] in multiset(xs);
        var m :| 0 <= m < |xs| && xs[m] == r[k];
      }
    }
  }

  /** The sort puts the names in ascending order and keeps every one of them, duplicates included. */
  lemma {:induction false} SortCorrect(xs: seq<string>)
    ensures Sorted(Sort(xs)) && multiset(Sort(xs)) == multiset(xs)
  {
    if xs != [] {
      SortCorrect(xs[1..]);
      InsertSorted(xs[0], Sort(xs[1..]));
      InsertPermutes(xs[0], Sort(xs[1..]));
      assert xs == [xs[0]] + xs[1..];
    }
  }

  /** The names processBatch walks through: the segment files of the listing, sorted. */
  function Candidates(listing: seq<string>): seq<string>
  {
    Sort(SegmentFiles(listing))
  }

  /** Exactly the segment files of the listing, each as often as listed, in ascending order. */
  lemma CandidatesCorrect(listing: seq<string>, name: string)
    ensures Sorted(Candidates(listing))
    ensures name in Candidates(listing) <==> name in listing && IsSegmentFile(name)
    ensures multiset(Candidates(listing)) == multiset(SegmentFiles(listing))
  {
    SortCorrect(SegmentFiles(listing));
    SegmentFilesIff(listing, name);
    assert name in Candidates(listing) <==> name in multiset(Candidates(listing));
  }

  // ---------------------------------------------------------------------------------------
  // Admission.

  /**
    The names one processBatch starts, in order: it stops once MAX_PAR uploads are in flight,
    and skips a name already in flight, a file that is gone, and a file that is not stable.
   */
  function Admit(files: seq<string>, inFlight: set<string>, present: set<string>, samples: string -> Sample): seq<string>
  {
    if files == [] || |inFlight| >= MaxPar then []
    else
      var name := files[0];
      if name in inFlight || name !in present || !IsStable(samples(name)) then Admit(files[1..], inFlight, present, samples)
      else [name] + Admit(files[1..], inFlight + {name}, present, samples)
  }

  /** One step of the batch loop: the names admitted from position i on. */
  lemma AdmitFrom(files: seq<string>, i: nat, inFlight: set<string>, present: set<string>, samples: string -> Sample)
    requires i < |files| && |inFlight| < MaxPar
    ensures Admit(files[i..], inFlight, present, samples)
         == if files[i] in inFlight || files[i] !in present || !IsStable(samples(files[i]))
            then Admit(files[i + 1..], inFlight, present, samples)
            else [files[i]] + Admit(files[i + 1..], inFlight + {files[i]}, present, samples)
  {
    assert files[i..][0] == files[i];
    assert files[i..][1..] == files[i + 1..];
  }

  /** A name a batch may start: not in flight, still present, and stable. */
  predicate Eligible(name: string, inFlight: set<string>, present: set<string>, samples: string -> Sample)
  {
    name !in inFlight && name in present && IsStable(samples(name))
  }

  predicate Distinct(xs: seq<string>)
  {
    forall i, j :: 0 <= i < j < |xs| ==> xs[i] != xs[j]
  }

  /** What a batch never does: start a name in flight, a missing or unstable file, one not listed, or one twice. */
  lemma {:induction false} AdmitOnlyEligible(files: seq<string>, inFlight: set<string>, present: set<string>,
                                             samples: string -> Sample)
    ensures forall x :: x in Admit(files, inFlight, present, samples) ==>
      x in files && Eligible(x, inFlight, present, samples)
    ensures Distinct(Admit(files, inFlight, present, samples))
  {
    var r := Admit(files, inFlight, present, samples);
    if files != [] && |inFlight| < MaxPar {
      var name := files[0];
      assert forall x :: x in files[1..] ==> x in files;
      if name in inFlight || name !in present || !IsStable(samples(name)) {
        AdmitOnlyEligible(files[1..], inFlight, present, samples);
      } else {
        var rest := Admit(files[1..], inFlight + {name}, present, samples);
        AdmitOnlyEligible(files[1..], inFlight + {name}, present, samples);
        assert r == [name] + rest;
        forall i, j | 0 <= i < j < |r| ensures r[i] != r[j] {
          assert r[j] == rest[j - 1] && r[j] in rest;
          if i > 0 {
            assert r[i] == rest[i - 1];
          }
        }
      }
    }
  }

  /** The uploads in flight once the names `started` have been added to `inFlight`. */
  function InFlightAfter(inFlight: set<string>, started: seq<string>): set<string>
  {
    inFlight + (set n | n in started)
  }

  lemma InFlightAfterCons(inFlight: set<string>, name: string, rest: seq<string>)
    ensures InFlightAfter(inFlight, [name] + rest) == InFlightAfter(inFlight + {name}, rest)
  {
    assert forall n :: n in [name] + rest <==> n == name || n in rest;
  }

  lemma InFlightAfterSnoc(inFlight: set<string>, started: seq<string>, name: string)
    ensures InFlightAfter(inFlight, started + [name]) == InFlightAfter(inFlight, started) + {name}
  {
    assert forall n :: n in started + [name] <==> n in started || n == name;
  }

  /**
    The `for (const name of files)` loop of processBatch (node.js:113-122) over the uploads in
    flight `inFlight0`: it starts exactly the names Admit picks and adds them to the set.
   */
  method AdmitLoop(files: seq<string>, inFlight0: set<string>, present: set<string>, samples: string -> Sample)
    returns (started: seq<string>, inFlight: set<string>)
    ensures started == Admit(files, inFlight0, present, samples)
    ensures inFlight == InFlightAfter(inFlight0, started)
  {
    inFlight := inFlight0;
    ghost var goal := Admit(files, inFlight0, present, samples);
    started := [];
    var i := 0;
    while i < |files|
      invariant 0 <= i <= |files|
      invariant inFlight == InFlightAfter(inFlight0, started)
      invariant started + Admit(files[i..], inFlight, present, samples) == goal
    {
      if |inFlight| >= MaxPar {
        break;
      }
      var name := files[i];
      BatchStep(files, i, inFlight, present, samples, inFlight0, started, goal);
      if name in inFlight || name !in present || !IsStable(samples(name)) {
        i := i + 1;
        continue;
      }
      inFlight := inFlight + {name};
      started := started + [name];
      i := i + 1;
    }
    assert Admit(files[i..], inFlight, present, samples) == [] by {
      if i < |files| {
        assert |inFlight| >= MaxPar;
      }
    }
    assert started + [] == started;
  }

  /**
    One pass of the batch loop, given that the names started so far followed by what the rest of
    the list admits make up the whole batch: skipping or starting files[i] keeps that so.
   */
  lemma BatchStep(files: seq<string>, i: nat, inFlight: set<string>, present: set<string>,
                  samples: string -> Sample, start: set<string>, started: seq<string>, goal: seq<string>)
    requires i < |files| && |inFlight| < MaxPar
    requires inFlight == InFlightAfter(start, started)
    requires started + Admit(files[i..], inFlight, present, samples) == goal
    ensures !Eligible(files[i], inFlight, present, samples) ==>
      started + Admit(files[i + 1..], inFlight, present, samples) == goal
    ensures Eligible(files[i], inFlight, present, samples) ==>
      inFlight + {files[i]} == InFlightAfter(start, started + [files[i]])
      && (started + [files[i]]) + Admit(files[i + 1..], inFlight + {files[i]}, present, samples) == goal
  {
    var name := files[i];
    AdmitFrom(files, i, inFlight, present, samples);
    if Eligible(name, inFlight, present, samples) {
      var rest := Admit(files[i + 1..], inFlight + {name}, present, samples);
      assert started + ([name] + rest) == (started + [name]) + rest;
      InFlightAfterSnoc(start, started, name);
    }
  }

  /** The set of uploads in flight after a batch never exceeds MAX_PAR unless it already did. */
  lemma {:induction false} AdmitBound(files: seq<string>, inFlight: set<string>, present: set<string>,
                                      samples: string -> Sample)
    ensures |inFlight| >= MaxPar ==> Admit(files, inFlight, present, samples) == []
    ensures |inFlight| <= MaxPar ==> |InFlightAfter(inFlight, Admit(files, inFlight, present, samples))| <= MaxPar
  {
    if files == [] || |inFlight| >= MaxPar {
      assert InFlightAfter(inFlight, []) == inFlight;
    } else {
      var name := files[0];
      if name in inFlight || name !in present || !IsStable(samples(name)) {
        AdmitBound(files[1..], inFlight, present, samples);
      } else {
        var rest := Admit(files[1..], inFlight + {name}, present, samples);
        AdmitBound(files[1..], inFlight + {name}, present, samples);
        InFlightAfterCons(inFlight, name, rest);
      }
    }
  }

  /**
    A batch that leaves room is exhaustive: if fewer than MAX_PAR uploads are in flight after
    it, every listed name that was eligible has been started.
   */
  lemma {:induction false} AdmitMaximal(files: seq<string>, inFlight: set<string>, present: set<string>,
                                        samples: string -> Sample, name: string)
    requires name in files && Eligible(name, inFlight, present, samples)
    requires |InFlightAfter(inFlight, Admit(files, inFlight, present, samples))| < MaxPar
    ensures name in Admit(files, inFlight, present, samples)
  {
    if |inFlight| >= MaxPar {
      assert false;
    } else {
      var first := files[0];
      if first != name {
        assert name in files[1..];
        if first in inFlight || first !in present || !IsStable(samples(first)) {
          AdmitMaximal(files[1..], inFlight, present, samples, name);
        } else {
          var rest := Admit(files[1..], inFlight + {first}, present, samples);
          InFlightAfterCons(inFlight, first, rest);
          AdmitMaximal(files[1..], inFlight + {first}, present, samples, name);
        }
      }
    }
  }

  /** Uploads start in the order of the sorted listing, oldest segment first. */
  lemma {:induction false} AdmitInOrder(files: seq<string>, inFlight: set<string>, present: set<string>,
                                        samples: string -> Sample)
    requires Sorted(files)
    ensures Sorted(Admit(files, inFlight, present, samples))
  {
    if files != [] && |inFlight| < MaxPar {
      var name := files[0];
      assert Sorted(files[1..]) by {
        forall i, j | 0 <= i < j < |files[1..]| ensures StrLe(files[1..][i], files[1..][j]) {
          assert files[1..][i] == files[i + 1] && files[1..][j] == files[j + 1];
        }
      }
      if name in inFlight || name !in present || !IsStable(samples(name)) {
        AdmitInOrder(files[1..], inFlight, present, samples);
      } else {
        var rest := Admit(files[1..], inFlight + {name}, present, samples);
        AdmitInOrder(files[1..], inFlight + {name}, present, samples);
        AdmitOnlyEligible(files[1..], inFlight + {name}, present, samples);
        var r := [name] + rest;
        forall i, j | 0 <= i < j < |r| ensures StrLe(r[i], r[j]) {
          if i > 0 {
            assert r[i] == rest[i - 1] && r[j] == rest[j - 1];
          } else {
            assert r[j] == rest[j - 1];
            assert r[j] in files[1..];
            var m :| 0 <= m < |files[1..]| && files[1..][m] == r[j];
            assert files[m + 1] == r[j];
          }
        }
      }
    }
  }

  // ---------------------------------------------------------------------------------------
  // uploadOne over OUT_DIR, failed/ and the list.

  /** The files uploadOne touches: the names in OUT_DIR, the names in failed/, the list's text. */
  datatype Disk = Disk(outDir: set<string>, failed: set<string>, list: string)

  /**
    uploadOne(OUT_DIR/name) when catbox.uploadFile resolves to `outcome` (None: it throws). A
    name already listed is left alone; a success is listed and the file deleted; a failure
    moves the file to failed/, and a rename that fails (the file is gone) is ignored.
   */
  function UploadOneEffect(d: Disk, name: string, outcome: Option<string>): Disk
  {
    if AlreadyUploaded(Some(d.list), name) then d
    else if outcome.Some? then Disk(d.outDir - {name}, d.failed, Mark(d.list, name, outcome.value))
    else if name in d.outDir then Disk(d.outDir - {name}, d.failed + {name}, d.list)
    else d
  }

  /** A listed name: no upload, no change to the list or to any file. */
  lemma UploadOneListed(d: Disk, name: string, outcome: Option<string>)
    requires AlreadyUploaded(Some(d.list), name)
    ensures UploadOneEffect(d, name, outcome) == d
  {
  }

  /**
    A successful upload appends `name url` to the list and deletes the file; nothing moves to
    failed/ and other files stay. The name then counts as uploaded when the list ended with a
    complete line and the name holds no newline (otherwise see GluedLineMissed).
   */
  lemma UploadOneSuccess(d: Disk, name: string, url: string)
    requires !AlreadyUploaded(Some(d.list), name)
    ensures var e := UploadOneEffect(d, name, Some(url));
      e.list == d.list + ListLine(name, url)
      && e.outDir == d.outDir - {name} && e.failed == d.failed
      && UploadLog.EndsLine(e.list)
    ensures UploadLog.EndsLine(d.list) && '\n' !in name ==>
      AlreadyUploaded(Some(UploadOneEffect(d, name, Some(url)).list), name)
  {
    if UploadLog.EndsLine(d.list) && '\n' !in name {
      MarkThenAlready(d.list, name, url, name);
    }
  }

  /** A failed upload leaves the list as it was and moves the file, if it is there, to failed/. */
  lemma UploadOneFailure(d: Disk, name: string)
    requires !AlreadyUploaded(Some(d.list), name)
    ensures var e := UploadOneEffect(d, name, None);
      e.list == d.list
      && e.outDir == d.outDir - {name}
      && e.failed == (if name in d.outDir then d.failed + {name} else d.failed)
  {
  }

  // ---------------------------------------------------------------------------------------
  // The uploader as the script runs it.

  /** What the poll loop changes: the files uploadOne touches and the set `uploading`. */
  datatype Pipeline = Pipeline(disk: Disk, uploading: set<string>)

  /**
    One pass of the poll loop: the segment files ffmpeg wrote since the last pass, the uploads
    that settled since then (name and Catbox's answer, None when it threw), then a batch over
    the directory listing with the size samples isStable takes.
   */
  datatype Round = Round(created: set<string>, finished: seq<(string, Option<string>)>,
                         listing: seq<string>, samples: string -> Sample)

  /** New files appear in OUT_DIR. */
  function Written(p: Pipeline, created: set<string>): Pipeline
  {
    Pipeline(Disk(p.disk.outDir + created, p.disk.failed, p.disk.list), p.uploading)
  }

  /**
    An upload settles: uploadOne's effect, then `.finally` drops the name from `uploading`.
    Only a started upload has a promise to settle, so a name not in flight changes nothing.
   */
  function Settle(p: Pipeline, name: string, outcome: Option<string>): Pipeline
  {
    if name in p.uploading then Pipeline(UploadOneEffect(p.disk, name, outcome), p.uploading - {name})
    else p
  }

  /** The uploads that settled, in the order they settled. */
  function SettleAll(p: Pipeline, finished: seq<(string, Option<string>)>): Pipeline
  {
    if finished == [] then p
    else
      var n := |finished| - 1;
      Settle(SettleAll(p, finished[..n]), finished[n].0, finished[n].1)
  }

  /** processBatch on a pipeline: the names Admit picks join `uploading`, no file changes. */
  function Batch(p: Pipeline, listing: seq<string>, samples: string -> Sample): Pipeline
  {
    Pipeline(p.disk, InFlightAfter(p.uploading, Admit(Candidates(listing), p.uploading, p.disk.outDir, samples)))
  }

  /** One pass of the poll loop. */
  function AfterRound(p: Pipeline, r: Round): Pipeline
  {
    Batch(SettleAll(Written(p, r.created), r.finished), r.listing, r.samples)
  }

  /** Passes one after another. */
  function AfterRounds(p: Pipeline, rounds: seq<Round>, n: nat): Pipeline
    requires n <= |rounds|
  {
    if n == 0 then p else AfterRound(AfterRounds(p, rounds, n - 1), rounds[n - 1])
  }

  /** Settling only ever removes names from `uploading`. */
  lemma {:induction false} SettleAllShrinks(p: Pipeline, finished: seq<(string, Option<string>)>)
    ensures SettleAll(p, finished).uploading <= p.uploading
  {
    if finished != [] {
      SettleAllShrinks(p, finished[..|finished| - 1]);
    }
  }

  /** A file whose upload did not settle stays in OUT_DIR. */
  lemma {:induction false} SettleAllKeepsFile(p: Pipeline, finished: seq<(string, Option<string>)>, name: string)
    requires name in p.disk.outDir
    requires forall k :: 0 <= k < |finished| ==> finished[k].0 != name
    ensures name in SettleAll(p, finished).disk.outDir
  {
    if finished != [] {
      var n := |finished| - 1;
      SettleAllKeepsFile(p, finished[..n], name);
    }
  }

  /** A pass never takes `uploading` above MAX_PAR. */
  lemma RoundBound(p: Pipeline, r: Round)
    requires |p.uploading| <= MaxPar
    ensures |AfterRound(p, r).uploading| <= MaxPar
  {
    var q := SettleAll(Written(p, r.created), r.finished);
    SettleAllShrinks(Written(p, r.created), r.finished);
    assert |q.uploading| <= |p.uploading| by {
      SubsetCard(q.uploading, p.uploading);
    }
    AdmitBound(Candidates(r.listing), q.uploading, q.disk.outDir, r.samples);
  }

  lemma SubsetCard(a: set<string>, b: set<string>)
    requires a <= b
    ensures |a| <= |b|
  {
    assert b == a + (b - a);
  }

  /**
    A segment file ffmpeg wrote during a pass, listed, stable, not in flight and not settled in
    that pass, is started by the pass's batch unless MAX_PAR uploads are in flight after it.
   */
  lemma NewSegmentStarted(p: Pipeline, r: Round, name: string)
    requires name in r.created && name in r.listing && IsSegmentFile(name) && IsStable(r.samples(name))
    requires name !in p.uploading
    requires forall k :: 0 <= k < |r.finished| ==> r.finished[k].0 != name
    ensures var q := SettleAll(Written(p, r.created), r.finished);
      var started := Admit(Candidates(r.listing), q.uploading, q.disk.outDir, r.samples);
      |InFlightAfter(q.uploading, started)| < MaxPar ==> name in started
  {
    var w := Written(p, r.created);
    var q := SettleAll(w, r.finished);
    SettleAllShrinks(w, r.finished);
    SettleAllKeepsFile(w, r.finished, name);
    CandidatesCorrect(r.listing, name);
    var started := Admit(Candidates(r.listing), q.uploading, q.disk.outDir, r.samples);
    if |InFlightAfter(q.uploading, started)| < MaxPar {
      AdmitMaximal(Candidates(r.listing), q.uploading, q.disk.outDir, r.samples, name);
    }
  }

  class Uploader {
    var outDir: set<string>
    var failed: set<string>
    var list: string
    var uploading: set<string>
    var ffmpegRunning: bool

    function DiskOf(): Disk
      reads this
    {
      Disk(outDir, failed, list)
    }

    function State(): Pipeline
      reads this
    {
      Pipeline(DiskOf(), uploading)
    }

    /** At most MAX_PAR uploads in flight. */
    predicate Valid()
      reads this
    {
      |uploading| <= MaxPar
    }

    /** Startup: the list is created empty if missing, nothing in flight, ffmpeg running. */
    constructor(outDir: set<string>, failed: set<string>, list: Option<string>)
      ensures Valid()
      ensures DiskOf() == Disk(outDir, failed, if list.Some? then list.value else "")
      ensures uploading == {} && ffmpegRunning
    {
      this.outDir := outDir;
      this.failed := failed;
      this.list := if list.Some? then list.value else "";
      uploading := {};
      ffmpegRunning := true;
    }

    /** uploadOne (node.js:48-63); `attempted` says whether catbox.uploadFile was called. */
    method UploadOne(name: string, outcome: Option<string>) returns (attempted: bool)
      modifies this
      ensures attempted <==> !AlreadyUploaded(Some(old(list)), name)
      ensures DiskOf() == UploadOneEffect(old(DiskOf()), name, outcome)
      ensures uploading == old(uploading) && ffmpegRunning == old(ffmpegRunning)
    {
      var text := list;
      if AnyStartsWith(SplitOn(text, '\n'), name + " ") {
        return false;
      }
      attempted := true;
      if outcome.Some? {
        list := list + ListLine(name, outcome.value);
        outDir := outDir - {name};
      } else if name in outDir {
        outDir := outDir - {name};
        failed := failed + {name};
      }
    }

    /**
      An upload started by a batch settles: uploadOne's effect, then .finally removes it from the
      set. A success is found by the next lookup when the list ended with a complete line and the
      name holds no newline (otherwise see GluedLineMissed).
     */
    method Finish(name: string, outcome: Option<string>)
      requires Valid()
      modifies this
      ensures Valid()
      ensures DiskOf() == UploadOneEffect(old(DiskOf()), name, outcome)
      ensures uploading == old(uploading) - {name} && ffmpegRunning == old(ffmpegRunning)
      ensures outcome.Some? && UploadLog.EndsLine(old(list)) && '\n' !in name ==> AlreadyUploaded(Some(list), name)
    {
      var _ := UploadOne(name, outcome);
      if outcome.Some? && UploadLog.EndsLine(old(list)) && '\n' !in name {
        if !AlreadyUploaded(Some(old(list)), name) {
          UploadOneSuccess(old(DiskOf()), name, outcome.value);
        }
      }
      uploading := uploading - {name};
    }

    /** processBatch (node.js:108-123): the names whose uploads it starts, in order. */
    method ProcessBatch(listing: seq<string>, samples: string -> Sample) returns (started: seq<string>)
      modifies this
      ensures started == Admit(Candidates(listing), old(uploading), outDir, samples)
      ensures uploading == InFlightAfter(old(uploading), started)
      ensures DiskOf() == old(DiskOf()) && ffmpegRunning == old(ffmpegRunning)
    {
      var files := Candidates(listing);
      var inFlight;
      started, inFlight := AdmitLoop(files, uploading, outDir, samples);
      uploading := inFlight;
    }

    /** One pass: ffmpeg's new files appear, the uploads that finished settle, then a batch. */
    method RunRound(round: Round)
      requires Valid()
      modifies this
      ensures Valid() && ffmpegRunning == old(ffmpegRunning)
      ensures State() == AfterRound(old(State()), round)
    {
      RoundBound(State(), round);
      outDir := outDir + round.created;
      ghost var w := State();
      for k := 0 to |round.finished|
        invariant Valid() && ffmpegRunning == old(ffmpegRunning)
        invariant State() == SettleAll(w, round.finished[..k])
      {
        assert round.finished[..k + 1][..k] == round.finished[..k];
        var name := round.finished[k].0;
        if name in uploading {
          Finish(name, round.finished[k].1);
        }
      }
      assert round.finished[..|round.finished|] == round.finished;
      var _ := ProcessBatch(round.listing, round.samples);
    }

    /**
      The poll loop and the final sweep (node.js:126-131): a batch runs while ffmpeg runs; its
      exit event arrives after `exitAfter` passes, and one more pass follows. `runningAt` holds
      the value of ffmpegRunning at each batch.
     */
    method Drive(rounds: seq<Round>, exitAfter: nat) returns (runningAt: seq<bool>)
      requires Valid() && ffmpegRunning && exitAfter < |rounds|
      modifies this
      ensures Valid() && !ffmpegRunning
      ensures State() == AfterRounds(old(State()), rounds, exitAfter + 1)
      ensures |runningAt| == exitAfter + 1 && !runningAt[exitAfter]
      ensures forall k :: 0 <= k < exitAfter ==> runningAt[k]
    {
      ghost var p0 := State();
      runningAt := PollWhileRunning(rounds, exitAfter);
      runningAt := runningAt + [ffmpegRunning];
      NextRound(p0, rounds, exitAfter);
    }

    /** The `while (ffmpegRunning)` loop alone: `exitAfter` passes, each seeing ffmpeg running. */
    method PollWhileRunning(rounds: seq<Round>, exitAfter: nat) returns (runningAt: seq<bool>)
      requires Valid() && ffmpegRunning && exitAfter < |rounds|
      modifies this
      ensures Valid() && !ffmpegRunning
      ensures State() == AfterRounds(old(State()), rounds, exitAfter)
      ensures |runningAt| == exitAfter && forall k :: 0 <= k < exitAfter ==> runningAt[k]
    {
      ghost var p0 := State();
      runningAt := [];
      var n := 0;
      if exitAfter == 0 {
        ffmpegRunning := false;
      }
      while ffmpegRunning
        invariant Valid() && n <= exitAfter && |runningAt| == n
        invariant ffmpegRunning <==> n < exitAfter
        invariant forall k :: 0 <= k < n ==> runningAt[k]
        invariant State() == AfterRounds(p0, rounds, n)
        decreases exitAfter - n
      {
        runningAt := runningAt + [ffmpegRunning];
        NextRound(p0, rounds, n);
        n := n + 1;
        if n == exitAfter {
          ffmpegRunning := false;
        }
      }
    }

    /** Pass `n` of a run that started in state `p0`. */
    method NextRound(ghost p0: Pipeline, rounds: seq<Round>, n: nat)
      requires Valid() && n < |rounds| && State() == AfterRounds(p0, rounds, n)
      modifies this
      ensures Valid() && ffmpegRunning == old(ffmpegRunning)
      ensures State() == AfterRounds(p0, rounds, n + 1)
    {
      RunRound(rounds[n]);
    }
  }
}
