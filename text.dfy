/**
  String helpers with the meaning of the PHP and JavaScript built-ins the two scripts call
  (strpos, explode, trim, rtrim/ltrim, stripos, decimal formatting, default string sort).
  PHP strings are byte strings: here every char stands for one byte, so |s| is strlen(s).
 */
module Text {

  datatype Option<+T> = None | Some(value: T)

  /** `sep` occurs in `s` starting at position `j`. */
  predicate MatchAt(s: string, sep: string, j: int)
  {
    0 <= j && j + |sep| <= |s| && s[j..j + |sep|] == sep
  }

  /** Leftmost position at or after `i` where `sep` occurs in `s`, or -1 (strpos with an offset). */
  function IndexFrom(s: string, sep: string, i: nat): (r: int)
    requires i <= |s|
    ensures r == -1 || (i <= r && MatchAt(s, sep, r))
    ensures r == -1 ==> forall j :: i <= j ==> !MatchAt(s, sep, j)
    ensures r >= 0 ==> forall j :: i <= j < r ==> !MatchAt(s, sep, j)
    decreases |s| - i
  {
    if i + |sep| > |s| then -1
    else if s[i..i + |sep|] == sep then i
    else IndexFrom(s, sep, i + 1)
  }

  predicate Contains(s: string, sub: string)
  {
    IndexFrom(s, sub, 0) >= 0
  }

  lemma ContainsIff(s: string, sub: string)
    ensures Contains(s, sub) <==> exists j :: MatchAt(s, sub, j)
  {
    if !Contains(s, sub) {
      forall j ensures !MatchAt(s, sub, j) {
        if 0 <= j {
          assert !MatchAt(s, sub, j);
        }
      }
    }
  }

  /** The first occurrence of `sep` at or after `i` is at `k` when it matches there and nowhere in between. */
  lemma IndexFromIs(s: string, sep: string, i: nat, k: nat)
    requires i <= k && MatchAt(s, sep, k) && i <= |s|
    requires forall j :: i <= j < k ==> !MatchAt(s, sep, j)
    ensures IndexFrom(s, sep, i) == k
  {
  }

  lemma ConcatAssoc(a: string, b: string, c: string)
    ensures a + (b + c) == (a + b) + c
  {
  }

  predicate StartsWith(s: string, prefix: string)
  {
    |prefix| <= |s| && s[..|prefix|] == prefix
  }

  predicate EndsWith(s: string, suffix: string)
  {
    |suffix| <= |s| && s[|s| - |suffix|..] == suffix
  }

  /**
    PHP explode / JavaScript String.split with a non-empty separator: the pieces between
    leftmost, non-overlapping occurrences of `sep`.
   */
  function Split(s: string, sep: string): (parts: seq<string>)
    requires |sep| > 0
    ensures |parts| >= 1
    decreases |s|
  {
    var k := IndexFrom(s, sep, 0);
    if k < 0 then [s] else [s[..k]] + Split(s[k + |sep|..], sep)
  }

  /** A slice inside a prefix of `s` is the same slice of `s`. */
  lemma PrefixSlice(s: string, m: nat, j: nat, n: nat)
    requires m <= |s| && j + n <= m
    ensures s[..m][j..j + n] == s[j..j + n]
  {
    var u, v := s[..m][j..j + n], s[j..j + n];
    forall i | 0 <= i < n
      ensures u[i] == v[i]
    {
      assert u[i] == s[..m][j + i] == s[j + i];
    }
  }

  /**
    The first piece of `a + sep + rest` is `a` exactly when `sep` does not already occur in
    `a` or straddle its end; that is the condition below.
   */
  lemma SplitAfterPiece(a: string, sep: string, rest: string)
    requires |sep| > 0
    requires !Contains(a + sep[..|sep| - 1], sep)
    ensures Split(a + sep + rest, sep) == [a] + Split(rest, sep)
  {
    var s := a + sep + rest;
    var t := a + sep[..|sep| - 1];
    assert s[..|t|] == t by {
      forall i | 0 <= i < |t|
        ensures s[..|t|][i] == t[i]
      {
        if i < |a| {
          assert s[i] == a[i] && t[i] == a[i];
        } else {
          assert s[i] == sep[i - |a|] && t[i] == sep[..|sep| - 1][i - |a|];
        }
      }
    }
    assert s[|a|..|a| + |sep|] == sep;
    ContainsIff(t, sep);
    forall j | 0 <= j < |a| ensures !MatchAt(s, sep, j) {
      assert !MatchAt(t, sep, j);
      PrefixSlice(s, |t|, j, |sep|);
    }
    IndexFromIs(s, sep, 0, |a|);
    assert s[..|a|] == a;
    assert s[|a| + |sep|..] == rest;
  }

  /** The piece before the first occurrence of `sep` is a whole first piece of `s`. */
  lemma PieceBeforeFirst(s: string, sep: string)
    requires |sep| > 0 && IndexFrom(s, sep, 0) >= 0
    ensures var k := IndexFrom(s, sep, 0);
      !Contains(s[..k] + sep[..|sep| - 1], sep) && s == s[..k] + sep + s[k + |sep|..]
  {
    var k := IndexFrom(s, sep, 0);
    var m := k + |sep| - 1;
    var t := s[..k] + sep[..|sep| - 1];
    MatchPrefix(s, sep, k);
    forall j | 0 <= j ensures !MatchAt(t, sep, j) {
      if j + |sep| <= |t| {
        PrefixSlice(s, m, j, |sep|);
        assert !MatchAt(s, sep, j);
      }
    }
    ContainsIff(t, sep);
  }

  /** Around an occurrence of `sep` at `k`: the text up to its last char, and the whole text. */
  lemma MatchPrefix(s: string, sep: string, k: nat)
    requires |sep| > 0 && MatchAt(s, sep, k)
    ensures s[..k] + sep[..|sep| - 1] == s[..k + |sep| - 1]
    ensures s == s[..k] + sep + s[k + |sep|..]
  {
    var t := s[..k] + sep[..|sep| - 1];
    var u := s[..k + |sep| - 1];
    forall i | 0 <= i < |t|
      ensures t[i] == u[i]
    {
      if i >= k {
        assert t[i] == sep[i - k] == s[k..k + |sep|][i - k] == s[i];
      }
    }
    assert s == s[..k] + s[k..k + |sep|] + s[k + |sep|..];
  }

  lemma SplitWithoutSep(s: string, sep: string)
    requires |sep| > 0 && !Contains(s, sep)
    ensures Split(s, sep) == [s]
  {
  }

  /** explode / String.split with a one-character separator. */
  function SplitOn(s: string, c: char): (parts: seq<string>)
    ensures |parts| >= 1
    ensures forall k :: 0 <= k < |parts| ==> c !in parts[k]
  {
    if s == [] then [""]
    else
      var rest := SplitOn(s[1..], c);
      if s[0] == c then [""] + rest else [[s[0]] + rest[0]] + rest[1..]
  }

  /** A separator between `a` and `b` splits the two halves independently. */
  lemma {:induction false} SplitOnJoin(a: string, c: char, b: string)
    ensures SplitOn(a + [c] + b, c) == SplitOn(a, c) + SplitOn(b, c)
  {
    if a != [] {
      assert (a + [c] + b)[1..] == a[1..] + [c] + b;
      SplitOnJoin(a[1..], c, b);
    } else {
      assert (a + [c] + b)[1..] == b;
    }
  }

  /** A separator-free prefix joins the first piece. */
  lemma {:induction false} SplitOnPrefix(p: string, c: char, x: string)
    requires c !in p
    ensures SplitOn(p + x, c) == [p + SplitOn(x, c)[0]] + SplitOn(x, c)[1..]
  {
    if p != [] {
      assert (p + x)[1..] == p[1..] + x;
      SplitOnPrefix(p[1..], c, x);
      assert [p[0]] + (p[1..] + SplitOn(x, c)[0]) == p + SplitOn(x, c)[0];
    } else {
      var parts := SplitOn(x, c);
      assert p + x == x && p + parts[0] == parts[0];
      assert parts == [parts[0]] + parts[1..];
    }
  }

  lemma {:induction false} SplitOnWithout(s: string, c: char)
    requires c !in s
    ensures SplitOn(s, c) == [s]
  {
    if s != [] {
      SplitOnWithout(s[1..], c);
      assert s == [s[0]] + s[1..];
    }
  }

  /** PHP truthiness of a string: every string but "" and "0" is true. */
  predicate Truthy(s: string)
  {
    s != "" && s != "0"
  }

  /** The characters PHP's trim() removes by default: " \t\n\r\0\x0B". */
  const Whitespace: set<char> := {' ', '\t', '\n', '\r', '\0', '\U{B}'}

  /** ltrim(s, chars): the longest suffix of `s` that does not start with a char of `cs`. */
  function StripStart(s: string, cs: set<char>): (r: string)
    ensures |r| <= |s| && r == s[|s| - |r|..]
    ensures r == [] || r[0] !in cs
    ensures forall k :: 0 <= k < |s| - |r| ==> s[k] in cs
  {
    if s != [] && s[0] in cs then
      var r := StripStart(s[1..], cs);
      assert s[1..][|s| - 1 - |r|..] == s[|s| - |r|..];
      assert forall k :: 1 <= k < |s| ==> s[1..][k - 1] == s[k];
      r
    else s
  }

  /** rtrim(s, chars): the longest prefix of `s` that does not end with a char of `cs`. */
  function StripEnd(s: string, cs: set<char>): (r: string)
    ensures |r| <= |s| && r == s[..|r|]
    ensures r == [] || r[|r| - 1] !in cs
    ensures forall k :: |r| <= k < |s| ==> s[k] in cs
  {
    if s != [] && s[|s| - 1] in cs then StripEnd(s[..|s| - 1], cs) else s
  }

  /** PHP trim(s) with the default character list. */
  function Trim(s: string): string
  {
    StripEnd(StripStart(s, Whitespace), Whitespace)
  }

  /** A match of a string that starts with a kept character survives ltrim, shifted left. */
  lemma StripStartKeeps(s: string, cs: set<char>, sub: string, j: int)
    requires |sub| > 0 && sub[0] !in cs && MatchAt(s, sub, j)
    ensures MatchAt(StripStart(s, cs), sub, j - (|s| - |StripStart(s, cs)|))
  {
    var a := StripStart(s, cs);
    var d := |s| - |a|;
    assert s[j] == sub[0] by { assert s[j] == s[j..j + |sub|][0]; }
    assert j >= d;
    assert a[j - d..j - d + |sub|] == s[j..j + |sub|];
  }

  /** A match of a string that ends with a kept character survives rtrim in place. */
  lemma StripEndKeeps(a: string, cs: set<char>, sub: string, i: int)
    requires |sub| > 0 && sub[|sub| - 1] !in cs && MatchAt(a, sub, i)
    ensures MatchAt(StripEnd(a, cs), sub, i)
  {
    var b := StripEnd(a, cs);
    assert a[i + |sub| - 1] == sub[|sub| - 1] by { assert a[i + |sub| - 1] == a[i..i + |sub|][|sub| - 1]; }
    assert i + |sub| <= |b|;
    assert b[i..i + |sub|] == a[i..i + |sub|];
  }

  /** Trimming keeps every occurrence of a string that neither starts nor ends with a trimmed character. */
  lemma TrimKeeps(s: string, sub: string)
    requires |sub| > 0 && sub[0] !in Whitespace && sub[|sub| - 1] !in Whitespace
    requires Contains(s, sub)
    ensures Contains(Trim(s), sub)
  {
    ContainsIff(s, sub);
    var j :| MatchAt(s, sub, j);
    var a := StripStart(s, Whitespace);
    var i := j - (|s| - |a|);
    StripStartKeeps(s, Whitespace, sub, j);
    StripEndKeeps(a, Whitespace, sub, i);
    assert MatchAt(Trim(s), sub, i);
    ContainsIff(Trim(s), sub);
  }

  /** ASCII case folding, as PHP 8 does for stripos. */
  function LowerChar(c: char): char
  {
    if 'A' <= c <= 'Z' then (c as int + 32) as char else c
  }

  function Lower(s: string): (r: string)
    ensures |r| == |s| && forall k :: 0 <= k < |s| ==> r[k] == LowerChar(s[k])
  {
    seq(|s|, k requires 0 <= k < |s| => LowerChar(s[k]))
  }

  /** stripos(haystack, needle) !== false: the folded needle occurs somewhere in the folded haystack. */
  predicate ContainsIgnoringCase(s: string, sub: string)
  {
    exists j | 0 <= j <= |s| - |sub| :: MatchAt(Lower(s), Lower(sub), j)
  }

  /** Position of the last `c` in `s`, or -1 (strrpos with one character). */
  function LastIndexOf(s: string, c: char): (r: int)
    ensures -1 <= r < |s|
    ensures r >= 0 ==> s[r] == c
    ensures forall k :: r < k < |s| ==> s[k] != c
  {
    if s == [] then -1
    else if s[|s| - 1] == c then |s| - 1
    else LastIndexOf(s[..|s| - 1], c)
  }

  // ---------------------------------------------------------------------------------------
  // Decimal numbers, as PHP writes an int inside a double-quoted string ("HTTP $code").

  function DigitChar(d: nat): char
    requires d < 10
  {
    ('0' as int + d) as char
  }

  predicate IsDigit(c: char)
  {
    '0' <= c <= '9'
  }

  function NatToString(n: nat): (r: string)
    ensures |r| > 0 && forall k :: 0 <= k < |r| ==> IsDigit(r[k])
  {
    if n < 10 then [DigitChar(n)] else NatToString(n / 10) + [DigitChar(n % 10)]
  }

  function IntToString(i: int): string
  {
    if i < 0 then "-" + NatToString(-i) else NatToString(i)
  }

  /** The value of a string of decimal digits. */
  function ParseNat(s: string): nat
    requires forall k :: 0 <= k < |s| ==> IsDigit(s[k])
  {
    if s == [] then 0
    else
      assert IsDigit(s[|s| - 1]);
      ParseNat(s[..|s| - 1]) * 10 + (s[|s| - 1] as int - '0' as int)
  }

  function ParseInt(s: string): int
    requires forall k :: 0 <= k < |s| ==> IsDigit(s[k]) || (k == 0 && s[k] == '-')
  {
    if s != [] && s[0] == '-' then -(ParseNat(s[1..]) as int) else ParseNat(s)
  }

  lemma {:induction false} ParseNatToString(n: nat)
    ensures ParseNat(NatToString(n)) == n
  {
    var r := NatToString(n);
    if n >= 10 {
      ParseNatToString(n / 10);
      assert r[..|r| - 1] == NatToString(n / 10);
    }
  }

  /** The decimal text of an int reads back as that int, so distinct codes give distinct texts. */
  lemma ParseIntToString(i: int)
    ensures ParseInt(IntToString(i)) == i
  {
    if i < 0 {
      ParseNatToString(-i);
      assert IntToString(i)[1..] == NatToString(-i);
    } else {
      ParseNatToString(i);
    }
  }

  // ---------------------------------------------------------------------------------------
  // JavaScript's default Array.prototype.sort order on strings: code unit by code unit, a
  // proper prefix first.

  predicate StrLe(a: string, b: string)
  {
    a == [] || (b != [] && (a[0] < b[0] || (a[0] == b[0] && StrLe(a[1..], b[1..]))))
  }

  lemma {:induction false} StrLeTotal(a: string, b: string)
    ensures StrLe(a, b) || StrLe(b, a)
  {
    if a != [] && b != [] && a[0] == b[0] {
      StrLeTotal(a[1..], b[1..]);
    }
  }

  lemma {:induction false} StrLeTransitive(a: string, b: string, c: string)
    requires StrLe(a, b) && StrLe(b, c)
    ensures StrLe(a, c)
  {
    if a != [] && a[0] == b[0] && b[0] == c[0] {
      StrLeTransitive(a[1..], b[1..], c[1..]);
    }
  }

  lemma {:induction false} StrLeAntisymmetric(a: string, b: string)
    requires StrLe(a, b) && StrLe(b, a)
    ensures a == b
  {
    if a != [] && b != [] {
      StrLeAntisymmetric(a[1..], b[1..]);
      assert a == [a[0]] + a[1..];
      assert b == [b[0]] + b[1..];
    }
  }
}
