/**
  catbox_upload: a counted loop of cURL attempts that may hand over, once, to a second
  counted loop that posts a hand-built multipart body over a plain stream. The network is
  replaced by the outcome of each attempt, given in advance; FILTER_VALIDATE_URL is the
  predicate `isUrl`; the random boundary text and the detected MIME type are parameters.
 */
module Catbox {
  import opened Text
  import opened Multipart
  import Playlist

  /** [success, message_or_url], as the function returns it. */
  datatype Upload = Upload(ok: bool, message: string)

  /** What the code reads after one curl_exec: curl_error, the HTTP code, the body or false. */
  datatype CurlAttempt = CurlAttempt(error: string, code: int, response: Option<string>)

  /** One pass through the fallback's try block. */
  datatype StreamAttempt =
    | Sent(random: string, fileData: Option<string>, statusLine: Option<string>, response: Option<string>)
    | Threw(message: string)

  /** A request the fallback put on the wire. */
  datatype Request = Request(headers: seq<string>, body: string)

  /** What one attempt leads to. */
  datatype Verdict =
    | Accept(url: string)          // return [true, url]
    | Retry(message: string)       // try again, or return [false, message] after the last attempt
    | SwitchToStream               // leave the cURL loop for the fallback loop
    | GiveUp(message: string)      // return [false, message] at once

  /** How a counted attempt loop ends: a return, or falling out of the loop. */
  datatype LoopEnd = Returned(result: Upload, used: nat) | Fell(used: nat)

  /** The whole call: its result and the number of attempts each loop made. */
  datatype UploadRun = UploadRun(result: Upload, curlUsed: nat, streamUsed: nat)

  const DefaultMime: string := "application/octet-stream"

  /** mime_content_type($filePath) ?: 'application/octet-stream'. */
  function MimeOf(detected: Option<string>): string
  {
    if detected.Some? && Truthy(detected.value) then detected.value else DefaultMime
  }

  // ---------------------------------------------------------------------------------------
  // The status code the fallback reads with #HTTP/\S+\s+(\d{3})# from the first header line.

  /** The characters PCRE's \s matches. */
  const PcreSpace: set<char> := {' ', '\t', '\n', '\U{B}', '\U{C}', '\r'}

  /** Length of the longest run from `i` of chars whose membership in `cs` is `inside`. */
  function SpanFrom(s: string, i: nat, cs: set<char>, inside: bool): (n: nat)
    requires i <= |s|
    ensures i + n <= |s|
    ensures forall k :: i <= k < i + n ==> (s[k] in cs) == inside
    ensures i + n == |s| || (s[i + n] in cs) != inside
    decreases |s| - i
  {
    if i < |s| && (s[i] in cs) == inside then 1 + SpanFrom(s, i + 1, cs, inside) else 0
  }

  function DigitValue(c: char): nat
    requires IsDigit(c)
  {
    c as int - '0' as int
  }

  /**
    The code captured by a match of the pattern starting at `i`. \S+ can only end where a
    whitespace follows, and \s+ where a digit follows, so both take their whole run.
   */
  function StatusAt(line: string, i: nat): Option<nat>
    requires i <= |line|
  {
    if !(i + 5 <= |line| && line[i..i + 5] == "HTTP/") then None
    else
      var v := SpanFrom(line, i + 5, PcreSpace, false);
      var w := SpanFrom(line, i + 5 + v, PcreSpace, true);
      var d := i + 5 + v + w;
      if v == 0 || w == 0 || d + 3 > |line| then None
      else if !(IsDigit(line[d]) && IsDigit(line[d + 1]) && IsDigit(line[d + 2])) then None
      else Some(100 * DigitValue(line[d]) + 10 * DigitValue(line[d + 1]) + DigitValue(line[d + 2]))
  }

  /** The leftmost match wins. */
  function StatusFrom(line: string, i: nat): (status: nat)
    requires i <= |line|
    ensures status <= 999
    decreases |line| - i
  {
    if i == |line| then 0
    else match StatusAt(line, i)
      case Some(code) => code
      case None => StatusFrom(line, i + 1)
  }

  /** $status: 0 unless the first response header carries a status code. */
  function StatusCode(statusLine: Option<string>): (status: nat)
    ensures status <= 999
  {
    if statusLine.None? then 0 else StatusFrom(statusLine.value, 0)
  }

  lemma ThreeDigits(code: nat)
    requires 100 <= code <= 999
    ensures NatToString(code) == [DigitChar(code / 100), DigitChar(code / 10 % 10), DigitChar(code % 10)]
  {
    assert NatToString(code / 100) == [DigitChar(code / 100)];
    assert code / 10 / 10 == code / 100;
  }

  lemma SpanIs(s: string, i: nat, cs: set<char>, inside: bool, n: nat)
    requires i + n <= |s|
    requires forall k :: i <= k < i + n ==> (s[k] in cs) == inside
    requires i + n == |s| || (s[i + n] in cs) != inside
    ensures SpanFrom(s, i, cs, inside) == n
    decreases n
  {
    if n > 0 {
      SpanIs(s, i + 1, cs, inside, n - 1);
    }
  }

  /** The pattern matched at the start: "HTTP/", a non-space run, one space, three digits. */
  lemma StatusAtStart(line: string, v: nat)
    requires 0 < v && 9 + v <= |line| && line[..5] == "HTTP/"
    requires forall k :: 5 <= k < 5 + v ==> line[k] !in PcreSpace
    requires line[5 + v] in PcreSpace && line[6 + v] !in PcreSpace
    requires IsDigit(line[6 + v]) && IsDigit(line[7 + v]) && IsDigit(line[8 + v])
    ensures StatusAt(line, 0)
         == Some(100 * DigitValue(line[6 + v]) + 10 * DigitValue(line[7 + v]) + DigitValue(line[8 + v]))
  {
    SpanIs(line, 5, PcreSpace, false, v);
    SpanIs(line, 5 + v, PcreSpace, true, 1);
  }

  lemma DigitsValue(code: nat)
    requires 100 <= code <= 999
    ensures 100 * DigitValue(DigitChar(code / 100)) + 10 * DigitValue(DigitChar(code / 10 % 10))
            + DigitValue(DigitChar(code % 10)) == code
  {
    var q := code / 10;
    assert code == 10 * q + code % 10;
    assert q == 10 * (q / 10) + q % 10;
    assert q / 10 == code / 100;
    DigitRoundTrip(code / 100);
    DigitRoundTrip(q % 10);
    DigitRoundTrip(code % 10);
  }

  lemma DigitRoundTrip(d: nat)
    requires d < 10
    ensures IsDigit(DigitChar(d)) && DigitValue(DigitChar(d)) == d
  {
  }

  /** A well-formed status line "HTTP/<version> <code>..." yields its three-digit code. */
  lemma StatusOfWellFormedLine(version: string, code: nat, rest: string)
    requires version != [] && forall k :: 0 <= k < |version| ==> version[k] !in PcreSpace
    requires 100 <= code <= 999
    ensures StatusCode(Some("HTTP/" + version + " " + NatToString(code) + rest)) == code
  {
    var digits := NatToString(code);
    var line := "HTTP/" + version + " " + digits + rest;
    ThreeDigits(code);
    var v := |version|;
    assert line[..5] == "HTTP/";
    assert forall k :: 5 <= k < 5 + v ==> line[k] == version[k - 5];
    assert line[5 + v] == ' ';
    assert line[6 + v] == digits[0] && line[7 + v] == digits[1] && line[8 + v] == digits[2];
    StatusAtStart(line, v);
    DigitsValue(code);
  }

  // ---------------------------------------------------------------------------------------
  // What one attempt decides.

  /** The cURL loop's reading of one attempt (index.php:116-133). */
  function CurlVerdict(a: CurlAttempt, isUrl: string -> bool): (v: Verdict)
    ensures !v.GiveUp?
  {
    if Truthy(a.error) then
      if ContainsIgnoringCase(a.error, "HTTP/2") || ContainsIgnoringCase(a.error, "PROTOCOL_ERROR") then SwitchToStream
      else Retry("cURL error: " + a.error)
    else if 200 <= a.code < 300 && a.response.Some? && |Trim(a.response.value)| > 0 then
      var resp := Trim(a.response.value);
      if isUrl(resp) then Accept(resp) else Retry("Catbox response: " + resp)
    else Retry("HTTP " + IntToString(a.code) + ", response: " + (if a.response.Some? then a.response.value else ""))
  }

  /** The fallback loop's reading of one attempt (index.php:146-208). */
  function StreamVerdict(a: StreamAttempt, filePath: string, isUrl: string -> bool): (v: Verdict)
    ensures !v.SwitchToStream?
  {
    match a
    case Threw(message) => Retry("Exception: " + message)
    case Sent(_, fileData, statusLine, response) =>
      if fileData.None? then GiveUp("Gagal baca file: " + filePath)
      else if response.None? then Retry("Koneksi gagal (stream)")
      else
        var resp := Trim(response.value);
        var status := StatusCode(statusLine);
        if 200 <= status < 300 && resp != "" then
          if isUrl(resp) then Accept(resp) else Retry("Catbox response: " + resp)
        else Retry("HTTP " + IntToString(status) + ", response: " + resp)
  }

  /** The verdicts of a whole sequence of attempts. */
  function CurlVerdicts(curl: seq<CurlAttempt>, isUrl: string -> bool): (vs: seq<Verdict>)
    ensures |vs| == |curl|
  {
    if curl == [] then [] else [CurlVerdict(curl[0], isUrl)] + CurlVerdicts(curl[1..], isUrl)
  }

  lemma {:induction false} CurlVerdictsAt(curl: seq<CurlAttempt>, i: nat, isUrl: string -> bool)
    requires i < |curl|
    ensures CurlVerdicts(curl, isUrl)[i] == CurlVerdict(curl[i], isUrl)
  {
    if i > 0 {
      CurlVerdictsAt(curl[1..], i - 1, isUrl);
    }
  }

  function StreamVerdicts(stream: seq<StreamAttempt>, filePath: string, isUrl: string -> bool): (vs: seq<Verdict>)
    ensures |vs| == |stream|
  {
    if stream == [] then [] else [StreamVerdict(stream[0], filePath, isUrl)] + StreamVerdicts(stream[1..], filePath, isUrl)
  }

  lemma {:induction false} StreamVerdictsAt(stream: seq<StreamAttempt>, i: nat, filePath: string, isUrl: string -> bool)
    requires i < |stream|
    ensures StreamVerdicts(stream, filePath, isUrl)[i] == StreamVerdict(stream[i], filePath, isUrl)
  {
    if i > 0 {
      StreamVerdictsAt(stream[1..], i - 1, filePath, isUrl);
    }
  }

  lemma CurlVerdictsAll(curl: seq<CurlAttempt>, isUrl: string -> bool)
    ensures forall k :: 0 <= k < |curl| ==> CurlVerdicts(curl, isUrl)[k] == CurlVerdict(curl[k], isUrl)
  {
    forall k | 0 <= k < |curl| {
      CurlVerdictsAt(curl, k, isUrl);
    }
  }

  /** An accepted cURL attempt is a 2xx answer whose trimmed, non-empty body is a valid URL. */
  lemma CurlAcceptIff(a: CurlAttempt, url: string, isUrl: string -> bool)
    ensures CurlVerdict(a, isUrl) == Accept(url) <==>
      !Truthy(a.error) && 200 <= a.code < 300 && a.response.Some?
      && url == Trim(a.response.value) && url != "" && isUrl(url)
  {
  }

  /** Only an error naming HTTP/2 or PROTOCOL_ERROR, in any letter case, hands over to the fallback. */
  lemma CurlSwitchIff(a: CurlAttempt, isUrl: string -> bool)
    ensures CurlVerdict(a, isUrl) == SwitchToStream <==>
      Truthy(a.error)
      && (ContainsIgnoringCase(a.error, "HTTP/2") || ContainsIgnoringCase(a.error, "PROTOCOL_ERROR"))
  {
  }

  /** An accepted fallback attempt: the file was read, a 2xx status, a trimmed non-empty URL body. */
  lemma StreamAcceptIff(a: StreamAttempt, filePath: string, url: string, isUrl: string -> bool)
    ensures StreamVerdict(a, filePath, isUrl) == Accept(url) <==>
      a.Sent? && a.fileData.Some? && a.response.Some? && 200 <= StatusCode(a.statusLine) < 300
      && url == Trim(a.response.value) && url != "" && isUrl(url)
  {
  }

  /** Only a failed read of the file ends the fallback loop before its budget is spent. */
  lemma StreamGiveUpIff(a: StreamAttempt, filePath: string, isUrl: string -> bool)
    ensures StreamVerdict(a, filePath, isUrl).GiveUp? <==> a.Sent? && a.fileData.None?
  {
  }

  // ---------------------------------------------------------------------------------------
  // The two counted loops, `for ($attempt = 1; $attempt <= $maxRetry; $attempt++)`.

  /** The loop from attempt number i + 1 on, given every attempt's verdict. */
  function Attempts(vs: seq<Verdict>, i: nat, maxRetry: int): (e: LoopEnd)
    requires maxRetry <= |vs|
    ensures e.used <= if i < maxRetry then maxRetry else i
    decreases maxRetry - i
  {
    if i >= maxRetry then Fell(i)
    else match vs[i]
      case Accept(url) => Returned(Upload(true, url), i + 1)
      case SwitchToStream => Fell(i + 1)
      case GiveUp(message) => Returned(Upload(false, message), i + 1)
      case Retry(message) =>
        if i + 1 < maxRetry then Attempts(vs, i + 1, maxRetry) else Returned(Upload(false, message), i + 1)
  }

  /**
    A loop that runs at all stops at the first attempt whose verdict is not Retry, or at
    attempt maxRetry; that last attempt alone decides the outcome.
   */
  lemma {:induction false} AttemptsShape(vs: seq<Verdict>, i: nat, maxRetry: int)
    requires maxRetry <= |vs|
    ensures var e := Attempts(vs, i, maxRetry);
      if i >= maxRetry then e == Fell(i)
      else
        i < e.used <= maxRetry
        && (forall k :: i <= k < e.used - 1 ==> vs[k].Retry?)
        && (vs[e.used - 1].Retry? ==> e.used == maxRetry && e == Returned(Upload(false, vs[e.used - 1].message), e.used))
        && (vs[e.used - 1].Accept? ==> e == Returned(Upload(true, vs[e.used - 1].url), e.used))
        && (vs[e.used - 1].GiveUp? ==> e == Returned(Upload(false, vs[e.used - 1].message), e.used))
        && (vs[e.used - 1].SwitchToStream? ==> e == Fell(e.used))
    decreases maxRetry - i
  {
    if i < maxRetry && vs[i].Retry? && i + 1 < maxRetry {
      AttemptsShape(vs, i + 1, maxRetry);
    }
  }

  /** What attempt i + 1 leads to, by its verdict. */
  lemma AttemptsAt(vs: seq<Verdict>, i: nat, maxRetry: int)
    requires maxRetry <= |vs| && i < maxRetry
    ensures vs[i].Accept? ==> Attempts(vs, i, maxRetry) == Returned(Upload(true, vs[i].url), i + 1)
    ensures vs[i].SwitchToStream? ==> Attempts(vs, i, maxRetry) == Fell(i + 1)
    ensures vs[i].GiveUp? ==> Attempts(vs, i, maxRetry) == Returned(Upload(false, vs[i].message), i + 1)
    ensures vs[i].Retry? && i + 1 == maxRetry ==> Attempts(vs, i, maxRetry) == Returned(Upload(false, vs[i].message), i + 1)
    ensures vs[i].Retry? && i + 1 < maxRetry ==> Attempts(vs, i, maxRetry) == Attempts(vs, i + 1, maxRetry)
  {
  }

  /** catbox_upload once every attempt has been read as a verdict: `cv` for cURL, `sv` for the fallback. */
  function Outcome(fileExists: bool, filePath: string, curlAvailable: bool, maxRetry: int,
                   cv: seq<Verdict>, sv: seq<Verdict>): (r: UploadRun)
    requires maxRetry <= |cv| && maxRetry <= |sv|
    ensures r.curlUsed == 0 || r.curlUsed <= maxRetry
    ensures r.streamUsed == 0 || r.streamUsed <= maxRetry
  {
    if !fileExists then UploadRun(Upload(false, "File tidak ditemukan: " + filePath), 0, 0)
    else
      var primary := if curlAvailable then Attempts(cv, 0, maxRetry) else Fell(0);
      if primary.Returned? then UploadRun(primary.result, primary.used, 0)
      else
        var fallback := Attempts(sv, 0, maxRetry);
        if fallback.Returned? then UploadRun(fallback.result, primary.used, fallback.used)
        else UploadRun(Upload(false, "Gagal upload setelah " + IntToString(maxRetry) + " percobaan."), primary.used, fallback.used)
  }

  /** catbox_upload over the given attempt outcomes (index.php:73-213). */
  function Run(fileExists: bool, filePath: string, curlAvailable: bool, maxRetry: int,
               curl: seq<CurlAttempt>, stream: seq<StreamAttempt>, isUrl: string -> bool): (r: UploadRun)
    requires maxRetry <= |curl| && maxRetry <= |stream|
    ensures r.curlUsed == 0 || r.curlUsed <= maxRetry
    ensures r.streamUsed == 0 || r.streamUsed <= maxRetry
  {
    Outcome(fileExists, filePath, curlAvailable, maxRetry, CurlVerdicts(curl, isUrl), StreamVerdicts(stream, filePath, isUrl))
  }

  /** A loop with a positive budget makes at least one attempt, and falls out only on a switch. */
  lemma AttemptsFromStart(vs: seq<Verdict>, maxRetry: int)
    requires 0 < maxRetry <= |vs|
    ensures var e := Attempts(vs, 0, maxRetry);
      0 < e.used <= maxRetry
      && (forall k :: 0 <= k < e.used - 1 ==> vs[k].Retry?)
      && (e.Fell? <==> vs[e.used - 1].SwitchToStream?)
      && (e.Returned? ==> (e.result.ok <==> vs[e.used - 1] == Accept(e.result.message)))
  {
    AttemptsShape(vs, 0, maxRetry);
  }

  /** A missing file is reported before any attempt is made. */
  lemma RunMissingFile(filePath: string, curlAvailable: bool, maxRetry: int,
                       curl: seq<CurlAttempt>, stream: seq<StreamAttempt>, isUrl: string -> bool)
    requires maxRetry <= |curl| && maxRetry <= |stream|
    ensures Run(false, filePath, curlAvailable, maxRetry, curl, stream, isUrl)
      == UploadRun(Upload(false, "File tidak ditemukan: " + filePath), 0, 0)
  {
  }

  /**
    Each loop makes at most maxRetry attempts; the cURL loop makes none without cURL, and the
    fallback loop runs only when cURL is missing or its last attempt asked for the switch.
   */
  lemma RunAttemptBounds(fileExists: bool, filePath: string, curlAvailable: bool, maxRetry: int,
                         curl: seq<CurlAttempt>, stream: seq<StreamAttempt>, isUrl: string -> bool)
    requires maxRetry <= |curl| && maxRetry <= |stream|
    ensures var r := Run(fileExists, filePath, curlAvailable, maxRetry, curl, stream, isUrl);
      (!curlAvailable ==> r.curlUsed == 0)
      && (r.streamUsed > 0 && curlAvailable ==>
            r.curlUsed > 0 && CurlVerdict(curl[r.curlUsed - 1], isUrl) == SwitchToStream)
  {
    var r := Run(fileExists, filePath, curlAvailable, maxRetry, curl, stream, isUrl);
    if fileExists && maxRetry > 0 {
      var cv := CurlVerdicts(curl, isUrl);
      AttemptsFromStart(cv, maxRetry);
      AttemptsFromStart(StreamVerdicts(stream, filePath, isUrl), maxRetry);
      if curlAvailable {
        CurlVerdictsAt(curl, Attempts(cv, 0, maxRetry).used - 1, isUrl);
      }
    }
  }

  /**
    Every cURL attempt but the last failed in a way that allows another try: the cURL loop
    stops before its budget is spent only on success or on the switch to the fallback.
   */
  lemma RunCurlStopsEarlyOnlyOnAcceptOrSwitch(fileExists: bool, filePath: string, curlAvailable: bool, maxRetry: int,
                                              curl: seq<CurlAttempt>, stream: seq<StreamAttempt>, isUrl: string -> bool)
    requires maxRetry <= |curl| && maxRetry <= |stream|
    ensures var r := Run(fileExists, filePath, curlAvailable, maxRetry, curl, stream, isUrl);
      (forall k :: 0 <= k < r.curlUsed - 1 ==> CurlVerdict(curl[k], isUrl).Retry?)
      && (0 < r.curlUsed < maxRetry ==> CurlVerdict(curl[r.curlUsed - 1], isUrl).Accept?
                                        || CurlVerdict(curl[r.curlUsed - 1], isUrl).SwitchToStream?)
  {
    var r := Run(fileExists, filePath, curlAvailable, maxRetry, curl, stream, isUrl);
    if r.curlUsed > 0 {
      var cv := CurlVerdicts(curl, isUrl);
      AttemptsShape(cv, 0, maxRetry);
      assert r.curlUsed == Attempts(cv, 0, maxRetry).used;
      forall k | 0 <= k < r.curlUsed - 1
        ensures CurlVerdict(curl[k], isUrl).Retry?
      {
        CurlVerdictsAt(curl, k, isUrl);
      }
      CurlVerdictsAt(curl, r.curlUsed - 1, isUrl);
    }
  }

  /**
    Every fallback attempt but the last failed in a way that allows another try: the fallback
    loop stops before its budget is spent only on success or on a file that cannot be read.
   */
  lemma RunStreamStopsEarlyOnlyOnAcceptOrUnreadable(fileExists: bool, filePath: string, curlAvailable: bool, maxRetry: int,
                                                    curl: seq<CurlAttempt>, stream: seq<StreamAttempt>, isUrl: string -> bool)
    requires maxRetry <= |curl| && maxRetry <= |stream|
    ensures var r := Run(fileExists, filePath, curlAvailable, maxRetry, curl, stream, isUrl);
      (forall k :: 0 <= k < r.streamUsed - 1 ==> StreamVerdict(stream[k], filePath, isUrl).Retry?)
      && (0 < r.streamUsed < maxRetry ==> StreamVerdict(stream[r.streamUsed - 1], filePath, isUrl).Accept?
                                          || StreamVerdict(stream[r.streamUsed - 1], filePath, isUrl).GiveUp?)
  {
    var r := Run(fileExists, filePath, curlAvailable, maxRetry, curl, stream, isUrl);
    if r.streamUsed > 0 {
      var sv := StreamVerdicts(stream, filePath, isUrl);
      AttemptsShape(sv, 0, maxRetry);
      assert r.streamUsed == Attempts(sv, 0, maxRetry).used;
      forall k | 0 <= k < r.streamUsed - 1
        ensures StreamVerdict(stream[k], filePath, isUrl).Retry?
      {
        StreamVerdictsAt(stream, k, filePath, isUrl);
      }
      StreamVerdictsAt(stream, r.streamUsed - 1, filePath, isUrl);
    }
  }

  /** RunOk over verdicts. */
  lemma OutcomeOk(fileExists: bool, filePath: string, curlAvailable: bool, maxRetry: int,
                  cv: seq<Verdict>, sv: seq<Verdict>)
    requires maxRetry <= |cv| && maxRetry <= |sv|
    ensures var r := Outcome(fileExists, filePath, curlAvailable, maxRetry, cv, sv);
      r.result.ok <==>
        (r.streamUsed == 0 && r.curlUsed > 0 && cv[r.curlUsed - 1] == Accept(r.result.message))
        || (r.streamUsed > 0 && sv[r.streamUsed - 1] == Accept(r.result.message))
  {
    if fileExists && maxRetry > 0 {
      AttemptsFromStart(cv, maxRetry);
      AttemptsFromStart(sv, maxRetry);
    }
  }

  /**
    The upload succeeds exactly when the last attempt made was accepted, and the URL it returns
    is that attempt's trimmed body (see CurlAcceptIff and StreamAcceptIff for what accepted means).
   */
  lemma RunOk(fileExists: bool, filePath: string, curlAvailable: bool, maxRetry: int,
              curl: seq<CurlAttempt>, stream: seq<StreamAttempt>, isUrl: string -> bool)
    requires maxRetry <= |curl| && maxRetry <= |stream|
    ensures var r := Run(fileExists, filePath, curlAvailable, maxRetry, curl, stream, isUrl);
      r.result.ok <==>
        (r.streamUsed == 0 && r.curlUsed > 0 && CurlVerdict(curl[r.curlUsed - 1], isUrl) == Accept(r.result.message))
        || (r.streamUsed > 0 && StreamVerdict(stream[r.streamUsed - 1], filePath, isUrl) == Accept(r.result.message))
  {
    var cv := CurlVerdicts(curl, isUrl);
    var sv := StreamVerdicts(stream, filePath, isUrl);
    var r := Outcome(fileExists, filePath, curlAvailable, maxRetry, cv, sv);
    OutcomeOk(fileExists, filePath, curlAvailable, maxRetry, cv, sv);
    if r.curlUsed > 0 {
      CurlVerdictsAt(curl, r.curlUsed - 1, isUrl);
    }
    if r.streamUsed > 0 {
      StreamVerdictsAt(stream, r.streamUsed - 1, filePath, isUrl);
    }
  }

  /**
    With a budget of zero or less no attempt is made and the closing message is returned; with a
    positive budget that message is never reached, since the last attempt always returns.
   */
  lemma OutcomeBudget(filePath: string, curlAvailable: bool, maxRetry: int, cv: seq<Verdict>, sv: seq<Verdict>)
    requires maxRetry <= |cv| && maxRetry <= |sv|
    requires forall k :: 0 <= k < |sv| ==> !sv[k].SwitchToStream?
    ensures var r := Outcome(true, filePath, curlAvailable, maxRetry, cv, sv);
      if maxRetry <= 0 then
        r == UploadRun(Upload(false, "Gagal upload setelah " + IntToString(maxRetry) + " percobaan."), 0, 0)
      else
        r.curlUsed + r.streamUsed > 0
        && (r.streamUsed == 0 ==> Attempts(cv, 0, maxRetry) == Returned(r.result, r.curlUsed))
        && (r.streamUsed > 0 ==> Attempts(sv, 0, maxRetry) == Returned(r.result, r.streamUsed))
  {
    if maxRetry > 0 {
      AttemptsFromStart(cv, maxRetry);
      AttemptsFromStart(sv, maxRetry);
    }
  }

  /** OutcomeBudget for the attempts as they come back from the transport. */
  lemma RunBudget(filePath: string, curlAvailable: bool, maxRetry: int,
                  curl: seq<CurlAttempt>, stream: seq<StreamAttempt>, isUrl: string -> bool)
    requires maxRetry <= |curl| && maxRetry <= |stream|
    ensures var r := Run(true, filePath, curlAvailable, maxRetry, curl, stream, isUrl);
      if maxRetry <= 0 then
        r == UploadRun(Upload(false, "Gagal upload setelah " + IntToString(maxRetry) + " percobaan."), 0, 0)
      else
        r.curlUsed + r.streamUsed > 0
        && (r.streamUsed == 0 ==> Attempts(CurlVerdicts(curl, isUrl), 0, maxRetry) == Returned(r.result, r.curlUsed))
        && (r.streamUsed > 0 ==> Attempts(StreamVerdicts(stream, filePath, isUrl), 0, maxRetry) == Returned(r.result, r.streamUsed))
  {
    var sv := StreamVerdicts(stream, filePath, isUrl);
    forall k | 0 <= k < |sv| ensures !sv[k].SwitchToStream? {
      StreamVerdictsAt(stream, k, filePath, isUrl);
    }
    OutcomeBudget(filePath, curlAvailable, maxRetry, CurlVerdicts(curl, isUrl), sv);
  }

  /**
    A transport that fails every time with an ordinary error uses the whole budget of the
    cURL loop and reports the last attempt's message; the fallback is never tried.
   */
  lemma RunAlwaysFailing(filePath: string, maxRetry: int,
                         curl: seq<CurlAttempt>, stream: seq<StreamAttempt>, isUrl: string -> bool)
    requires 0 < maxRetry <= |curl| && maxRetry <= |stream|
    requires forall k :: 0 <= k < maxRetry ==> CurlVerdict(curl[k], isUrl).Retry?
    ensures Run(true, filePath, true, maxRetry, curl, stream, isUrl)
      == UploadRun(Upload(false, CurlVerdict(curl[maxRetry - 1], isUrl).message), maxRetry, 0)
  {
    var cv := CurlVerdicts(curl, isUrl);
    CurlVerdictsAll(curl, isUrl);
    AttemptsShape(cv, 0, maxRetry);
  }

  /** For instance, a server answering 500 "oops" three times gives "HTTP 500, response: oops". */
  lemma ThreeTimesHttp500(filePath: string, stream: seq<StreamAttempt>, isUrl: string -> bool)
    requires 3 <= |stream|
    ensures var a := CurlAttempt("", 500, Some("oops"));
      Run(true, filePath, true, 3, [a, a, a], stream, isUrl)
        == UploadRun(Upload(false, "HTTP 500, response: oops"), 3, 0)
  {
    var a := CurlAttempt("", 500, Some("oops"));
    Http500Verdict(isUrl);
    assert forall k :: 0 <= k < 3 ==> [a, a, a][k] == a;
    RunAlwaysFailing(filePath, 3, [a, a, a], stream, isUrl);
  }

  /** The message of one such attempt. */
  lemma Http500Verdict(isUrl: string -> bool)
    ensures CurlVerdict(CurlAttempt("", 500, Some("oops")), isUrl) == Retry("HTTP 500, response: oops")
  {
    assert IntToString(500) == "500" by {
      ThreeDigits(500);
    }
    assert "HTTP " + "500" + ", response: " + "oops" == "HTTP 500, response: oops";
  }

  /** The request a fallback attempt sends: one exactly when the file was read. */
  function RequestOf(a: StreamAttempt, userhash: string, filename: string, mime: string): seq<Request>
  {
    if a.Sent? && a.fileData.Some? then
      var boundary := Boundary(a.random);
      var body := Encode(boundary, CatboxParts(userhash, filename, mime, a.fileData.value));
      [Request(RequestHeaders(boundary, body), body)]
    else []
  }

  function SentRequests(attempts: seq<StreamAttempt>, userhash: string, filename: string, mime: string): seq<Request>
  {
    if attempts == [] then []
    else
      SentRequests(attempts[..|attempts| - 1], userhash, filename, mime)
      + RequestOf(attempts[|attempts| - 1], userhash, filename, mime)
  }

  /** catbox_upload itself: the missing-file check, the cURL loop, then the fallback loop. */
  method CatboxUpload(fileExists: bool, filePath: string, userhash: string, maxRetry: int,
                      curlAvailable: bool, detectedMime: Option<string>,
                      curl: seq<CurlAttempt>, stream: seq<StreamAttempt>, isUrl: string -> bool)
    returns (result: Upload, curlUsed: nat, streamUsed: nat, requests: seq<Request>)
    requires maxRetry <= |curl| && maxRetry <= |stream|
    ensures streamUsed <= |stream|
    ensures UploadRun(result, curlUsed, streamUsed) == Run(fileExists, filePath, curlAvailable, maxRetry, curl, stream, isUrl)
    ensures requests == SentRequests(stream[..streamUsed], userhash, Playlist.Basename(filePath), MimeOf(detectedMime))
  {
    if !fileExists {
      return Upload(false, "File tidak ditemukan: " + filePath), 0, 0, [];
    }
    var mime := if detectedMime.Some? && Truthy(detectedMime.value) then detectedMime.value else DefaultMime;
    var filename := Playlist.Basename(filePath);
    var primary := Fell(0);
    if curlAvailable {
      primary := CurlLoop(maxRetry, curl, isUrl);
    }
    if primary.Returned? {
      return primary.result, primary.used, 0, [];
    }
    var fallback;
    fallback, requests := StreamLoop(filePath, userhash, filename, mime, maxRetry, stream, isUrl);
    curlUsed, streamUsed := primary.used, fallback.used;
    if fallback.Returned? {
      result := fallback.result;
    } else {
      result := Upload(false, "Gagal upload setelah " + IntToString(maxRetry) + " percobaan.");
    }
  }

  /**
    The cURL loop (index.php:84-134). Each attempt is read by CurlVerdict; an error naming
    HTTP/2 or PROTOCOL_ERROR sets $shouldFallback and breaks out, which is falling out here.
   */
  method CurlLoop(maxRetry: int, curl: seq<CurlAttempt>, isUrl: string -> bool) returns (end: LoopEnd)
    requires maxRetry <= |curl|
    ensures end == Attempts(CurlVerdicts(curl, isUrl), 0, maxRetry)
  {
    ghost var verdicts := CurlVerdicts(curl, isUrl);
    var attempt := 1;
    while attempt <= maxRetry
      invariant 1 <= attempt && (attempt <= maxRetry || attempt == 1)
      invariant Attempts(verdicts, 0, maxRetry) == Attempts(verdicts, attempt - 1, maxRetry)
      decreases maxRetry - attempt
    {
      var done, stop := CurlAttemptStep(maxRetry, curl, attempt, isUrl);
      if done {
        return stop;
      }
      attempt := attempt + 1;
    }
    return Fell(0);
  }

  /** One pass of the cURL loop's body: either it returns or breaks (done), or it goes round again. */
  method CurlAttemptStep(maxRetry: int, curl: seq<CurlAttempt>, attempt: nat, isUrl: string -> bool)
    returns (done: bool, end: LoopEnd)
    requires maxRetry <= |curl| && 1 <= attempt <= maxRetry
    ensures done ==> end == Attempts(CurlVerdicts(curl, isUrl), attempt - 1, maxRetry)
    ensures !done ==> (attempt < maxRetry
      && Attempts(CurlVerdicts(curl, isUrl), attempt - 1, maxRetry) == Attempts(CurlVerdicts(curl, isUrl), attempt, maxRetry))
  {
    var verdict := ReadCurlAttempt(curl, attempt - 1, isUrl);
    AttemptsAt(CurlVerdicts(curl, isUrl), attempt - 1, maxRetry);
    match verdict {
      case SwitchToStream =>
        return true, Fell(attempt);
      case Accept(url) =>
        return true, Returned(Upload(true, url), attempt);
      case Retry(message) =>
        if attempt == maxRetry {
          return true, Returned(Upload(false, message), attempt);
        }
        return false, Fell(0);
    }
  }

  /** How the cURL loop reads attempt i + 1. */
  method ReadCurlAttempt(curl: seq<CurlAttempt>, i: nat, isUrl: string -> bool) returns (v: Verdict)
    requires i < |curl|
    ensures v == CurlVerdict(curl[i], isUrl) && !v.GiveUp?
    ensures v == CurlVerdicts(curl, isUrl)[i]
  {
    v := CurlVerdict(curl[i], isUrl);
    CurlVerdictsAt(curl, i, isUrl);
  }

  /** How the fallback loop reads attempt i + 1. */
  method ReadStreamAttempt(stream: seq<StreamAttempt>, i: nat, filePath: string, isUrl: string -> bool) returns (v: Verdict)
    requires i < |stream|
    ensures v == StreamVerdict(stream[i], filePath, isUrl) && !v.SwitchToStream?
    ensures v == StreamVerdicts(stream, filePath, isUrl)[i]
  {
    v := StreamVerdict(stream[i], filePath, isUrl);
    StreamVerdictsAt(stream, i, filePath, isUrl);
  }

  lemma SentRequestsSnoc(stream: seq<StreamAttempt>, n: nat, userhash: string, filename: string, mime: string)
    requires 0 < n <= |stream|
    ensures SentRequests(stream[..n], userhash, filename, mime)
         == SentRequests(stream[..n - 1], userhash, filename, mime) + RequestOf(stream[n - 1], userhash, filename, mime)
  {
    assert stream[..n][..n - 1] == stream[..n - 1];
  }

  /** One fallback attempt's request, built with the body builder when the file was read. */
  method Send(a: StreamAttempt, userhash: string, filename: string, mime: string) returns (sent: seq<Request>)
    ensures sent == RequestOf(a, userhash, filename, mime)
  {
    sent := [];
    if a.Sent? && a.fileData.Some? {
      var boundary := Boundary(a.random);
      var body := BuildBody(boundary, userhash, filename, mime, a.fileData.value);
      sent := [Request(RequestHeaders(boundary, body), body)];
    }
  }

  /**
    The fallback loop (index.php:141-210): read the file, build the body with a fresh
    boundary, send it, read the status line and the body; also the requests it put on the wire.
   */
  method StreamLoop(filePath: string, userhash: string, filename: string, mime: string, maxRetry: int,
                    stream: seq<StreamAttempt>, isUrl: string -> bool)
    returns (end: LoopEnd, requests: seq<Request>)
    requires maxRetry <= |stream|
    ensures end == Attempts(StreamVerdicts(stream, filePath, isUrl), 0, maxRetry)
    ensures end.used <= |stream|
    ensures requests == SentRequests(stream[..end.used], userhash, filename, mime)
  {
    ghost var verdicts := StreamVerdicts(stream, filePath, isUrl);
    requests := [];
    var attempt := 1;
    while attempt <= maxRetry
      invariant 1 <= attempt && (attempt <= maxRetry || attempt == 1)
      invariant requests == SentRequests(stream[..attempt - 1], userhash, filename, mime)
      invariant Attempts(verdicts, 0, maxRetry) == Attempts(verdicts, attempt - 1, maxRetry)
      decreases maxRetry - attempt
    {
      var sent := Send(stream[attempt - 1], userhash, filename, mime);
      SentRequestsSnoc(stream, attempt, userhash, filename, mime);
      requests := requests + sent;
      var verdict := ReadStreamAttempt(stream, attempt - 1, filePath, isUrl);
      AttemptsAt(verdicts, attempt - 1, maxRetry);
      if verdict.Accept? {
        return Returned(Upload(true, verdict.url), attempt), requests;
      } else if verdict.Retry? && attempt < maxRetry {
        attempt := attempt + 1;
      } else {
        return Returned(Upload(false, verdict.message), attempt), requests;
      }
    }
    return Fell(0), requests;
  }
}
