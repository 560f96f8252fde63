/**
  The upload log of index.php (upload_log.txt): write_log appends one record
  `TIMESTAMP | NAME | STATUS | INFO` per line, and at startup the loader replays the file and
  marks NAME as uploaded for every line that explodes on " | " into at least four fields whose
  third field is exactly UPLOADED. Lines are never removed, so a later UPLOAD_FAIL record never
  undoes an earlier UPLOADED one.
 */
module UploadLog {
  import opened Text

  const Sep: string := " | "
  const Uploaded: string := "UPLOADED"
  const UploadFail: string := "UPLOAD_FAIL"

  /** The text write_log appends to the log file for one record, newline included. */
  function LogLine(ts: string, name: string, status: string, info: string): string
  {
    Record(ts, name, status, info) + "\n"
  }

  /** "$ts | $filename | $status | $info" */
  function Record(ts: string, name: string, status: string, info: string): string
  {
    ts + Sep + (name + Sep + (status + Sep + info))
  }

  /** Drops empty strings (FILE_SKIP_EMPTY_LINES). */
  function NonEmpty(ls: seq<string>): (r: seq<string>)
    ensures forall k :: 0 <= k < |r| ==> r[k] != ""
  {
    if ls == [] then []
    else if ls[|ls| - 1] == "" then NonEmpty(ls[..|ls| - 1])
    else NonEmpty(ls[..|ls| - 1]) + [ls[|ls| - 1]]
  }

  lemma {:induction false} NonEmptyAppend(a: seq<string>, b: seq<string>)
    ensures NonEmpty(a + b) == NonEmpty(a) + NonEmpty(b)
    decreases |b|
  {
    if b != [] {
      var b', x := b[..|b| - 1], b[|b| - 1];
      NonEmptyAppend(a, b');
      assert (a + b)[..|a + b| - 1] == a + b';
      assert (a + b)[|a + b| - 1] == x;
      if x != "" {
        assert NonEmpty(a + b) == NonEmpty(a + b') + [x];
        assert NonEmpty(b) == NonEmpty(b') + [x];
        assert NonEmpty(a) + (NonEmpty(b') + [x]) == (NonEmpty(a) + NonEmpty(b')) + [x];
      }
    } else {
      assert a + b == a;
    }
  }

  /**
    The lines of file($logFile, FILE_IGNORE_NEW_LINES | FILE_SKIP_EMPTY_LINES): the non-empty
    pieces between newlines. file() also drops a '\r' before each newline and skips lines that
    are only '\r'; the model keeps those. That cannot change which names are marked: a kept
    '\r' ends up in the last field of its line, and a line holding only '\r' has one field.
   */
  function FileLines(text: string): seq<string>
  {
    NonEmpty(SplitOn(text, '\n'))
  }

  /** The name one log line marks as uploaded, if it marks one. */
  function MarkedName(line: string): Option<string>
  {
    var parts := Split(line, Sep);
    if |parts| >= 4 && parts[2] == Uploaded then Some(parts[1]) else None
  }

  /** The keys the startup loader puts into $uploaded for the given lines. */
  function UploadedNames(lines: seq<string>): set<string>
  {
    if lines == [] then {}
    else
      UploadedNames(lines[..|lines| - 1]) +
        match MarkedName(lines[|lines| - 1])
        case Some(n) => {n}
        case None => {}
  }

  /** The startup loop of index.php: fills the $uploaded map from the log lines. */
  method LoadUploaded(lines: seq<string>) returns (uploaded: map<string, bool>)
    ensures uploaded.Keys == UploadedNames(lines)
    ensures forall n :: n in uploaded ==> uploaded[n]
  {
    uploaded := map[];
    for i := 0 to |lines|
      invariant uploaded.Keys == UploadedNames(lines[..i])
      invariant forall n :: n in uploaded ==> uploaded[n]
    {
      assert lines[..i + 1][..i] == lines[..i];
      var parts := Split(lines[i], Sep);
      if |parts| >= 4 {
        var fname := parts[1];
        var status := parts[2];
        if status == Uploaded {
          uploaded := uploaded[fname := true];
        }
      }
    }
    assert lines[..|lines|] == lines;
  }

  /** A name is loaded as uploaded exactly when some line marks it. */
  lemma {:induction false} UploadedNamesIff(lines: seq<string>, n: string)
    ensures n in UploadedNames(lines) <==> exists k :: 0 <= k < |lines| && MarkedName(lines[k]) == Some(n)
  {
    if lines != [] {
      var init := lines[..|lines| - 1];
      UploadedNamesLast(lines, n);
      UploadedNamesIff(init, n);
      if n in UploadedNames(init) {
        var k :| 0 <= k < |init| && MarkedName(init[k]) == Some(n);
        assert lines[k] == init[k];
      }
      if exists k :: 0 <= k < |lines| && MarkedName(lines[k]) == Some(n) {
        var k :| 0 <= k < |lines| && MarkedName(lines[k]) == Some(n);
        if k < |init| {
          assert lines[k] == init[k];
        }
      }
    }
  }

  /** The last line adds its marked name, if any, to those of the lines before it. */
  lemma UploadedNamesLast(lines: seq<string>, n: string)
    requires lines != []
    ensures n in UploadedNames(lines) <==>
      n in UploadedNames(lines[..|lines| - 1]) || MarkedName(lines[|lines| - 1]) == Some(n)
  {
  }

  /**
    Replaying more lines only adds names: nothing appended after an UPLOADED record (an
    UPLOAD_FAIL for the same name included) removes it, and replaying a log twice over gives the
    same set as replaying it once.
   */
  lemma {:induction false} UploadedNamesAppend(a: seq<string>, b: seq<string>)
    ensures UploadedNames(a + b) == UploadedNames(a) + UploadedNames(b)
    decreases |b|
  {
    if b != [] {
      var b', x := b[..|b| - 1], b[|b| - 1];
      UploadedNamesAppend(a, b');
      assert (a + b)[..|a + b| - 1] == a + b';
      assert (a + b)[|a + b| - 1] == x;
      var extra := match MarkedName(x) case Some(n) => {n} case None => {};
      assert UploadedNames(a + b) == UploadedNames(a + b') + extra;
      assert UploadedNames(b) == UploadedNames(b') + extra;
    } else {
      assert a + b == a;
    }
  }

  lemma ReplayTwice(lines: seq<string>)
    ensures UploadedNames(lines + lines) == UploadedNames(lines)
  {
    UploadedNamesAppend(lines, lines);
  }

  /**
    `s` can stand before a " | " separator and still come back as one whole field: the
    separator neither occurs in it nor straddles its end (a field ending in " |" would).
   */
  predicate IsField(s: string)
  {
    !Contains(s + Sep[..|Sep| - 1], Sep)
  }

  lemma FieldWithoutBar(s: string)
    requires forall k :: 0 <= k < |s| ==> s[k] != '|'
    ensures IsField(s)
  {
    var t := s + Sep[..|Sep| - 1];
    forall j ensures !MatchAt(t, Sep, j) {
      if 0 <= j && j + |Sep| <= |t| {
        assert t[j..j + |Sep|][1] == t[j + 1];
        if j + 1 < |s| {
          assert t[j + 1] == s[j + 1];
        }
      }
    }
    ContainsIff(t, Sep);
  }

  /** How explode sees one record line (without its newline). */
  lemma {:induction false} RecordFields(ts: string, name: string, status: string, info: string)
    requires IsField(ts) && IsField(name) && IsField(status)
    ensures Split(Record(ts, name, status, info), Sep) == [ts, name, status] + Split(info, Sep)
  {
    var r2 := status + Sep + info;
    var r1 := name + Sep + r2;
    var rest := Split(info, Sep);
    SplitAfterPiece(status, Sep, info);
    SplitAfterPiece(name, Sep, r2);
    SplitAfterPiece(ts, Sep, r1);
    assert [ts] + ([name] + ([status] + rest)) == [ts, name, status] + rest;
  }

  /** A record line marks its own name exactly when its status is UPLOADED; info is free. */
  lemma MarkedNameOfRecord(ts: string, name: string, status: string, info: string)
    requires IsField(ts) && IsField(name) && IsField(status)
    ensures MarkedName(Record(ts, name, status, info))
         == if status == Uploaded then Some(name) else None
  {
    RecordFields(ts, name, status, info);
  }

  // ---------------------------------------------------------------------------------------
  // Lines of a file that only ever grows by appends.

  /** The file text is empty or ends with a newline, as every write_log leaves it. */
  predicate EndsLine(text: string)
  {
    text == "" || text[|text| - 1] == '\n'
  }

  /** Appending to a file whose last line is complete puts the new lines after the old ones. */
  lemma FileLinesAppend(text: string, more: string)
    requires EndsLine(text)
    ensures FileLines(text + more) == FileLines(text) + FileLines(more)
  {
    if text == "" {
      assert text + more == more;
    } else {
      var t := text[..|text| - 1];
      assert text == t + ['\n'] + "";
      assert text + more == t + ['\n'] + more;
      SplitOnJoin(t, '\n', more);
      SplitOnJoin(t, '\n', "");
      NonEmptyAppend(SplitOn(t, '\n'), SplitOn(more, '\n'));
      NonEmptyAppend(SplitOn(t, '\n'), [""]);
      assert NonEmpty([""]) == [];
    }
  }

  /**
    Round trip of write_log and the loader: after an UPLOADED record for `name` is appended,
    reloading the file marks `name`, whatever `info` holds (it may contain the separator or
    newlines), provided the timestamp and the name are single fields without a newline.
   */
  lemma RecordReloads(text: string, ts: string, name: string, info: string)
    requires EndsLine(text)
    requires IsField(ts) && IsField(name) && '\n' !in ts && '\n' !in name
    ensures name in UploadedNames(FileLines(text + LogLine(ts, name, Uploaded, info)))
  {
    var line := LogLine(ts, name, Uploaded, info);
    FileLinesAppend(text, line);
    var i1 := FirstLineOfRecord(ts, name, info);
    FieldWithoutBar(Uploaded);
    MarkedNameOfRecord(ts, name, Uploaded, i1);
    var all := FileLines(text) + FileLines(line);
    assert all[|FileLines(text)|] == Record(ts, name, Uploaded, i1);
    UploadedNamesIff(all, name);
  }

  /** The first line file() reads back from an UPLOADED record is that record with the first line of its info. */
  lemma FirstLineOfRecord(ts: string, name: string, info: string) returns (i1: string)
    requires '\n' !in ts && '\n' !in name
    ensures |FileLines(LogLine(ts, name, Uploaded, info))| > 0
    ensures FileLines(LogLine(ts, name, Uploaded, info))[0] == Record(ts, name, Uploaded, i1)
  {
    var line := LogLine(ts, name, Uploaded, info);
    var p := ts + Sep + (name + Sep + (Uploaded + Sep));
    assert line == p + (info + "\n");
    FileLinesFirst(p, info + "\n");
    i1 := SplitOn(info + "\n", '\n')[0];
    assert p + i1 == Record(ts, name, Uploaded, i1) by {
      assert Uploaded + Sep + i1 == (Uploaded + Sep) + i1;
      assert name + Sep + (Uploaded + Sep + i1) == (name + Sep + (Uploaded + Sep)) + i1;
    }
  }

  /** A non-empty text without newline at the head of the file is the start of its first line. */
  lemma FileLinesFirst(p: string, rest: string)
    requires p != "" && '\n' !in p
    ensures |FileLines(p + rest)| > 0 && FileLines(p + rest)[0] == p + SplitOn(rest, '\n')[0]
  {
    SplitOnPrefix(p, '\n', rest);
    var first := p + SplitOn(rest, '\n')[0];
    var lines := SplitOn(p + rest, '\n');
    assert lines == [first] + lines[1..];
    NonEmptyAppend([first], lines[1..]);
    assert NonEmpty([first]) == [first] by {
      assert [first][..0] == [];
    }
  }

  /** FileLines of one newline-terminated line without inner newlines is that line alone. */
  lemma SingleLine(r: string)
    requires r != "" && '\n' !in r
    ensures FileLines(r + "\n") == [r]
  {
    assert r + "\n" == r + ['\n'] + "";
    SplitOnJoin(r, '\n', "");
    SplitOnWithout(r, '\n');
    assert SplitOn(r + "\n", '\n') == [r, ""];
    assert [r, ""][..1] == [r];
    assert [r][..0] == [];
    assert NonEmpty([r, ""]) == NonEmpty([r]);
    assert NonEmpty([r]) == NonEmpty([]) + [r];
  }

  /**
    The exact effect of one appended record on the reloaded set when the record is a single
    line: an UPLOADED record adds its name and nothing else, any other status adds nothing.
   */
  lemma RecordEffect(text: string, ts: string, name: string, status: string, info: string)
    requires EndsLine(text)
    requires IsField(ts) && IsField(name) && IsField(status)
    requires '\n' !in Record(ts, name, status, info)
    ensures UploadedNames(FileLines(text + LogLine(ts, name, status, info)))
         == UploadedNames(FileLines(text)) + (if status == Uploaded then {name} else {})
  {
    var r := Record(ts, name, status, info);
    FileLinesAppend(text, r + "\n");
    assert |r| >= |Sep|;
    SingleLine(r);
    MarkedNameOfRecord(ts, name, status, info);
    UploadedNamesAppend(FileLines(text), [r]);
    assert [r][..0] == [];
  }

  /**
    write_log never checks that the log ends with a newline. When its last line is a record
    with no newline after it, the next record is glued onto that line as part of its info, so
    reloading marks only what the old last line marks: the new name is lost.
   */
  lemma GluedRecordMissed(prev: string, ts0: string, name0: string, status0: string, info0: string,
                          ts: string, name: string, info: string)
    requires EndsLine(prev)
    requires IsField(ts0) && IsField(name0) && IsField(status0)
    requires '\n' !in Record(ts0, name0, status0, info0) && '\n' !in Record(ts, name, Uploaded, info)
    ensures var glued := prev + Record(ts0, name0, status0, info0) + LogLine(ts, name, Uploaded, info);
      UploadedNames(FileLines(glued))
        == UploadedNames(FileLines(prev)) + (if status0 == Uploaded then {name0} else {})
    ensures var glued := prev + Record(ts0, name0, status0, info0) + LogLine(ts, name, Uploaded, info);
      name !in UploadedNames(FileLines(prev)) && name != name0 ==> name !in UploadedNames(FileLines(glued))
  {
    var last := Record(ts0, name0, status0, info0);
    var r := Record(ts, name, Uploaded, info);
    RecordExtend(ts0, name0, status0, info0, r);
    assert '\n' !in last + r;
    assert prev + last + LogLine(ts, name, Uploaded, info) == prev + LogLine(ts0, name0, status0, info0 + r);
    RecordEffect(prev, ts0, name0, status0, info0 + r);
  }

  lemma RecordExtend(ts: string, name: string, status: string, info: string, more: string)
    ensures Record(ts, name, status, info + more) == Record(ts, name, status, info) + more
  {
    ConcatAssoc(status + Sep, info, more);
    ConcatAssoc(name + Sep, status + Sep + info, more);
    ConcatAssoc(ts + Sep, name + Sep + (status + Sep + info), more);
  }

  /**
    As written, the info field is logged raw, and the failure message of catbox_upload can
    carry the response body: an UPLOAD_FAIL record whose info holds a newline followed by a
    well-formed UPLOADED record for another name marks that other name on reload.
   */
  lemma FailureInfoCanMarkAnother(text: string, ts: string, name: string, head: string, other: string, tail: string)
    requires EndsLine(text)
    requires IsField(ts) && IsField(other)
    requires '\n' !in ts && '\n' !in other
    ensures var info := head + "\n" + Record(ts, other, Uploaded, tail);
      other in UploadedNames(FileLines(text + LogLine(ts, name, UploadFail, info)))
  {
    var forged := Record(ts, other, Uploaded, tail);
    var before := Record(ts, name, UploadFail, head);
    RecordExtend(ts, name, UploadFail, head + "\n", forged);
    RecordExtend(ts, name, UploadFail, head, "\n");
    var b1 := before + "\n";
    assert LogLine(ts, name, UploadFail, head + "\n" + forged) == (b1 + forged) + "\n";
    ConcatAssoc(b1, forged, "\n");
    ConcatAssoc(text, b1, forged + "\n");
    var prefix := text + b1;
    RecordReloads(prefix, ts, other, tail);
  }
}
