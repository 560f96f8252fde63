/**
  What the watcher reads out of a playlist: the segment lines, the short file name that keys
  every piece of state, and the absolute URL a relative segment is fetched from.
 */
module Playlist {
  import opened Text

  const TsMark: string := ".ts"

  /**
    preg_match_all('/^(.*\.ts.*)$/m') followed by trim(): every line (the text between two
    "\n") that contains ".ts" anywhere, trimmed, in the order of the playlist.
   */
  function Segments(content: string): (segs: seq<string>)
    ensures forall k :: 0 <= k < |segs| ==> Contains(segs[k], TsMark)
  {
    Selected(SplitOn(content, '\n'))
  }

  function Selected(lines: seq<string>): (segs: seq<string>)
    ensures |segs| <= |lines|
    ensures forall k :: 0 <= k < |segs| ==> Contains(segs[k], TsMark)
  {
    if lines == [] then []
    else if Contains(lines[0], TsMark) then
      TrimKeeps(lines[0], TsMark);
      [Trim(lines[0])] + Selected(lines[1..])
    else Selected(lines[1..])
  }

  lemma {:induction false} SelectedAppend(a: seq<string>, b: seq<string>)
    ensures Selected(a + b) == Selected(a) + Selected(b)
  {
    if a == [] {
      assert a + b == b;
    } else {
      assert (a + b)[0] == a[0];
      assert (a + b)[1..] == a[1..] + b;
      SelectedAppend(a[1..], b);
    }
  }

  /** A segment is selected exactly when some line contains ".ts" and trims to it. */
  lemma {:induction false} SelectedIff(lines: seq<string>, s: string)
    ensures s in Selected(lines) <==>
      exists k :: 0 <= k < |lines| && Contains(lines[k], TsMark) && Trim(lines[k]) == s
  {
    if lines != [] {
      SelectedIff(lines[1..], s);
      if s in Selected(lines[1..]) {
        var k :| 0 <= k < |lines[1..]| && Contains(lines[1..][k], TsMark) && Trim(lines[1..][k]) == s;
        assert lines[k + 1] == lines[1..][k];
      }
      if exists k :: 0 <= k < |lines| && Contains(lines[k], TsMark) && Trim(lines[k]) == s {
        var k :| 0 <= k < |lines| && Contains(lines[k], TsMark) && Trim(lines[k]) == s;
        if k > 0 {
          assert lines[1..][k - 1] == lines[k];
        }
      }
    }
  }

  /** Lines are matched one by one: the playlist's segments are those of its parts, in order. */
  lemma SegmentsJoin(a: string, b: string)
    ensures Segments(a + "\n" + b) == Segments(a) + Segments(b)
  {
    SplitOnJoin(a, '\n', b);
    SelectedAppend(SplitOn(a, '\n'), SplitOn(b, '\n'));
  }

  /** A single line yields its trimmed self when it contains ".ts", and nothing otherwise. */
  lemma SegmentsOfLine(line: string)
    requires '\n' !in line
    ensures Segments(line) == if Contains(line, TsMark) then [Trim(line)] else []
  {
    SplitOnWithout(line, '\n');
    assert [line][1..] == [];
  }

  // ---------------------------------------------------------------------------------------
  // The short name (index.php: parse_url, then basename of the path or of the whole line).

  /**
    The path part PHP's parse_url reports, simplified to everything before the first '?' or
    '#': the query string and the fragment are dropped.
   */
  function UrlPath(s: string): (p: string)
    ensures |p| <= |s| && p == s[..|p|]
    ensures '?' !in p && '#' !in p
    ensures |p| < |s| ==> s[|p|] == '?' || s[|p|] == '#'
  {
    if s == [] || s[0] == '?' || s[0] == '#' then [] else [s[0]] + UrlPath(s[1..])
  }

  /** PHP basename: trailing '/' dropped, then whatever follows the last '/'. */
  function Basename(p: string): (r: string)
    ensures '/' !in r
  {
    var q := StripEnd(p, {'/'});
    var k := LastIndexOf(q, '/');
    q[k + 1..]
  }

  /** basename($path ?: $segment): the path wins unless PHP finds it falsy ("" or "0"). */
  function ShortName(segment: string): (name: string)
    ensures '/' !in name
  {
    var path := UrlPath(segment);
    Basename(if Truthy(path) then path else segment)
  }

  /** The short name is the last path component: directories, query and fragment are dropped. */
  lemma ShortNameOfPath(dir: string, file: string, tail: string)
    requires '?' !in dir && '#' !in dir
    requires file != [] && '/' !in file && '?' !in file && '#' !in file
    requires tail == [] || tail[0] == '?' || tail[0] == '#'
    ensures ShortName(dir + "/" + file + tail) == file
  {
    var s := dir + "/" + file + tail;
    var p := dir + "/" + file;
    UrlPrefix(p, tail);
    assert UrlPath(s) == p;
    assert Truthy(p);
    assert StripEnd(p, {'/'}) == p;
    LastIs(p, '/', |dir|);
    assert p[|dir| + 1..] == file;
  }

  /** A bare file name with no query is its own short name. */
  lemma ShortNameOfFile(file: string, tail: string)
    requires Truthy(file) && '/' !in file && '?' !in file && '#' !in file
    requires tail == [] || tail[0] == '?' || tail[0] == '#'
    ensures ShortName(file + tail) == file
  {
    UrlPrefix(file, tail);
    assert StripEnd(file, {'/'}) == file;
    assert LastIndexOf(file, '/') == -1;
  }

  lemma {:induction false} UrlPrefix(p: string, tail: string)
    requires '?' !in p && '#' !in p
    requires tail == [] || tail[0] == '?' || tail[0] == '#'
    ensures UrlPath(p + tail) == p
  {
    if p != [] {
      assert (p + tail)[1..] == p[1..] + tail;
      UrlPrefix(p[1..], tail);
      assert p == [p[0]] + p[1..];
    } else {
      assert p + tail == tail;
    }
  }

  lemma LastIs(s: string, c: char, k: int)
    requires 0 <= k < |s| && s[k] == c
    requires forall i :: k < i < |s| ==> s[i] != c
    ensures LastIndexOf(s, c) == k
  {
  }

  // ---------------------------------------------------------------------------------------
  // Resolution of a segment against the playlist URL.

  /** PHP dirname on a path or URL: what precedes the last '/' that is not trailing. */
  function Dirname(p: string): string
  {
    var q := StripEnd(p, {'/'});
    if q == [] then (if p == [] then "" else "/")
    else
      var k := LastIndexOf(q, '/');
      if k < 0 then "."
      else
        var d := StripEnd(q[..k], {'/'});
        if d == [] then "/" else d
  }

  /**
    The URL a segment line is downloaded from: a line that starts with "http" is used as it
    is; any other line is appended, without its leading '/', to the playlist's directory.
   */
  function Resolve(playlistUrl: string, segment: string): string
  {
    if StartsWith(segment, "http") then segment
    else StripEnd(Dirname(playlistUrl), {'/'}) + "/" + StripStart(segment, {'/'})
  }

  /** The directory of a URL whose last component holds no '/'. */
  lemma DirnameOf(dir: string, file: string)
    requires dir != [] && dir[|dir| - 1] != '/'
    requires file != [] && '/' !in file
    ensures Dirname(dir + "/" + file) == dir
  {
    var p := dir + "/" + file;
    assert StripEnd(p, {'/'}) == p;
    LastIs(p, '/', |dir|);
    assert p[..|dir|] == dir;
  }

  /** A relative line lands in the playlist's directory, and keeps its own short name. */
  lemma ResolveRelative(dir: string, playlist: string, segment: string)
    requires dir != [] && dir[|dir| - 1] != '/' && '?' !in dir && '#' !in dir
    requires playlist != [] && '/' !in playlist
    requires segment != [] && segment[0] != '/' && !StartsWith(segment, "http")
    requires '/' !in segment && '?' !in segment && '#' !in segment && Truthy(segment)
    ensures Resolve(dir + "/" + playlist, segment) == dir + "/" + segment
    ensures ShortName(Resolve(dir + "/" + playlist, segment)) == ShortName(segment) == segment
  {
    DirnameOf(dir, playlist);
    assert StripEnd(dir, {'/'}) == dir;
    assert StripStart(segment, {'/'}) == segment;
    ShortNameOfPath(dir, segment, "");
    ShortNameOfFile(segment, "");
    assert dir + "/" + segment + "" == dir + "/" + segment;
    assert segment + "" == segment;
  }

  /** A line starting with '/' is NOT resolved against the host root but under the playlist's directory. */
  lemma RootedSegmentStaysInDirectory(dir: string, playlist: string, file: string)
    requires dir != [] && dir[|dir| - 1] != '/'
    requires playlist != [] && '/' !in playlist
    requires file != [] && file[0] != '/'
    ensures Resolve(dir + "/" + playlist, "/" + file) == dir + "/" + file
  {
    DirnameOf(dir, playlist);
    assert StripEnd(dir, {'/'}) == dir;
    SlashSegment(dir + "/" + playlist, file);
  }

  /** A segment line "/file" loses its one leading slash and is put under the playlist's directory. */
  lemma SlashSegment(playlistUrl: string, file: string)
    requires file != [] && file[0] != '/'
    ensures Resolve(playlistUrl, "/" + file) == StripEnd(Dirname(playlistUrl), {'/'}) + "/" + file
  {
    var seg := "/" + file;
    assert !StartsWith(seg, "http") by { assert seg[0] == '/'; }
    assert StripStart(seg, {'/'}) == StripStart(file, {'/'}) by { assert seg[0] in {'/'} && seg[1..] == file; }
  }
}
