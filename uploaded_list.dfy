/**
  The `.uploaded.list` ledger of node.js: markUploaded appends the line `NAME URL` and
  alreadyUploaded(NAME) asks whether some line of the file starts with `NAME ` (the name and
  one space). The file is created empty at startup and only ever appended to.
 */
module UploadedList {
  import opened Text
  import UploadLog

  /** `${basename} ${url}\n`. */
  function ListLine(base: string, url: string): string
  {
    base + " " + url + "\n"
  }

  /** The text of the list after markUploaded(base, url). */
  function Mark(list: string, base: string, url: string): string
  {
    list + ListLine(base, url)
  }

  /** lines.some(line => line.startsWith(prefix)). */
  predicate AnyStartsWith(lines: seq<string>, prefix: string)
  {
    lines != [] && (StartsWith(lines[0], prefix) || AnyStartsWith(lines[1..], prefix))
  }

  /**
    alreadyUploaded(base): the list's text, or '' when it cannot be read, split on '\n', and
    searched for a line starting with base + ' '.
   */
  predicate AlreadyUploaded(list: Option<string>, base: string)
  {
    var text := if list.Some? then list.value else "";
    AnyStartsWith(SplitOn(text, '\n'), base + " ")
  }

  lemma {:induction false} AnyStartsWithIff(lines: seq<string>, prefix: string)
    ensures AnyStartsWith(lines, prefix) <==> exists k :: 0 <= k < |lines| && StartsWith(lines[k], prefix)
  {
    if lines != [] {
      AnyStartsWithIff(lines[1..], prefix);
      if exists k :: 0 <= k < |lines[1..]| && StartsWith(lines[1..][k], prefix) {
        var k :| 0 <= k < |lines[1..]| && StartsWith(lines[1..][k], prefix);
        assert lines[k + 1] == lines[1..][k];
      }
      if exists k :: 0 <= k < |lines| && StartsWith(lines[k], prefix) {
        var k :| 0 <= k < |lines| && StartsWith(lines[k], prefix);
        if k > 0 {
          assert lines[1..][k - 1] == lines[k];
        }
      }
    }
  }

  /** A name is listed exactly when some line of the file starts with the name and a space. */
  lemma AlreadyUploadedIff(list: string, base: string)
    ensures AlreadyUploaded(Some(list), base) <==>
      exists k :: 0 <= k < |SplitOn(list, '\n')| && StartsWith(SplitOn(list, '\n')[k], base + " ")
  {
    assert AlreadyUploaded(Some(list), base) == AnyStartsWith(SplitOn(list, '\n'), base + " ");
    AnyStartsWithIff(SplitOn(list, '\n'), base + " ");
  }

  lemma {:induction false} AnyStartsWithAppend(a: seq<string>, b: seq<string>, prefix: string)
    ensures AnyStartsWith(a + b, prefix) <==> AnyStartsWith(a, prefix) || AnyStartsWith(b, prefix)
  {
    if a == [] {
      assert a + b == b;
    } else {
      assert (a + b)[0] == a[0];
      assert (a + b)[1..] == a[1..] + b;
      AnyStartsWithAppend(a[1..], b, prefix);
    }
  }

  /**
    Text appended to a list whose last line is complete starts a new line: its first line is
    found by a prefix that holds no newline, and every line found before is still found.
   */
  lemma AppendedLine(list: string, text: string, prefix: string)
    requires UploadLog.EndsLine(list)
    requires prefix != [] && '\n' !in prefix
    ensures AnyStartsWith(SplitOn(list + text, '\n'), prefix) <==>
      AnyStartsWith(SplitOn(list, '\n'), prefix) || AnyStartsWith(SplitOn(text, '\n'), prefix)
  {
    if list == "" {
      assert list + text == text;
      assert !StartsWith("", prefix);
    } else {
      var t := list[..|list| - 1];
      LinesOfEndedList(list, text);
      AnyStartsWithAppend(SplitOn(t, '\n'), SplitOn(text, '\n'), prefix);
      AnyStartsWithEmptyLine(SplitOn(t, '\n'), prefix);
    }
  }

  /** The lines of a non-empty text that ends with a newline, and of that text with more appended. */
  lemma LinesOfEndedList(list: string, text: string)
    requires list != "" && list[|list| - 1] == '\n'
    ensures SplitOn(list + text, '\n') == SplitOn(list[..|list| - 1], '\n') + SplitOn(text, '\n')
    ensures SplitOn(list, '\n') == SplitOn(list[..|list| - 1], '\n') + [""]
  {
    var t := list[..|list| - 1];
    assert list == t + ['\n'];
    LinesAfterLine(t, text);
  }

  /** The lines of a text after a newline are the lines before it followed by those after it. */
  lemma LinesAfterLine(t: string, text: string)
    ensures SplitOn(t + ['\n'] + text, '\n') == SplitOn(t, '\n') + SplitOn(text, '\n')
    ensures SplitOn(t + ['\n'], '\n') == SplitOn(t, '\n') + [""]
  {
    SplitOnJoin(t, '\n', text);
    SplitOnJoin(t, '\n', "");
    assert t + ['\n'] + "" == t + ['\n'];
  }

  /** The empty line after a final newline starts with no non-empty prefix. */
  lemma AnyStartsWithEmptyLine(lines: seq<string>, prefix: string)
    requires prefix != []
    ensures AnyStartsWith(lines + [""], prefix) <==> AnyStartsWith(lines, prefix)
  {
    AnyStartsWithAppend(lines, [""], prefix);
    assert !StartsWith("", prefix);
  }

  /** The first line of `text` starts with `prefix` when `text` does and `prefix` holds no newline. */
  lemma FirstLineStarts(text: string, prefix: string)
    requires prefix != [] && '\n' !in prefix && StartsWith(text, prefix)
    ensures AnyStartsWith(SplitOn(text, '\n'), prefix)
  {
    var rest := text[|prefix|..];
    assert text == prefix + rest;
    SplitOnPrefix(prefix, '\n', rest);
    var first := prefix + SplitOn(rest, '\n')[0];
    assert SplitOn(text, '\n')[0] == first;
    assert first[..|prefix|] == prefix;
  }

  /**
    markUploaded then alreadyUploaded: the name is found afterwards, and whatever was found
    before is still found (the old text is kept as a prefix).
   */
  lemma MarkThenAlready(list: string, base: string, url: string, other: string)
    requires UploadLog.EndsLine(list)
    requires '\n' !in base && '\n' !in other
    ensures AlreadyUploaded(Some(Mark(list, base, url)), base)
    ensures AlreadyUploaded(Some(list), other) ==> AlreadyUploaded(Some(Mark(list, base, url)), other)
    ensures Mark(list, base, url)[..|list|] == list
  {
    var line := ListLine(base, url);
    assert line == (base + " ") + (url + "\n");
    FirstLineStarts(line, base + " ");
    AppendedLine(list, line, base + " ");
    AppendedLine(list, line, other + " ");
  }

  /**
    The lookup is by prefix, so a name that contains a space shadows the name before the space:
    once `base rest` is marked, `base` counts as uploaded although it never was.
   */
  lemma NameWithSpaceShadows(list: string, base: string, rest: string, url: string)
    requires UploadLog.EndsLine(list)
    requires '\n' !in base
    ensures AlreadyUploaded(Some(Mark(list, base + " " + rest, url)), base)
  {
    var line := ListLine(base + " " + rest, url);
    assert line == (base + " ") + (rest + " " + url + "\n");
    FirstLineStarts(line, base + " ");
    AppendedLine(list, line, base + " ");
  }

  /**
    A list whose last line lacks its newline glues the next `name url` onto that line, so the
    name just marked is not found unless the glued line happens to start with it.
   */
  lemma GluedLineMissed(prev: string, last: string, base: string, url: string)
    requires UploadLog.EndsLine(prev) && !AlreadyUploaded(Some(prev), base)
    requires '\n' !in last && '\n' !in base && '\n' !in url
    requires !StartsWith(last + base + " " + url, base + " ")
    ensures !AlreadyUploaded(Some(Mark(prev + last, base, url)), base)
  {
    var glued := last + base + " " + url;
    assert Mark(prev + last, base, url) == prev + (glued + "\n");
    assert '\n' !in glued;
    SplitOnJoin(glued, '\n', "");
    SplitOnWithout(glued, '\n');
    assert glued + "\n" == glued + ['\n'] + "";
    assert SplitOn(glued + "\n", '\n') == [glued] + [""];
    var prefix := base + " ";
    assert !AnyStartsWith(SplitOn(glued + "\n", '\n'), prefix) by {
      assert !StartsWith("", prefix);
      assert [glued] + [""] == [glued, ""];
      assert [glued, ""][1..] == [""] && [""][1..] == [];
      assert !AnyStartsWith([""], prefix);
    }
    AppendedLine(prev, glued + "\n", prefix);
  }

  /** An unreadable list counts as empty: nothing is taken as uploaded. */
  lemma UnreadableListIsEmpty(base: string)
    ensures !AlreadyUploaded(None, base)
  {
    assert SplitOn("", '\n') == [""];
    assert !StartsWith("", base + " ");
    assert [""][1..] == [];
    assert !AnyStartsWith([""], base + " ");
  }
}
