/** The download command of the back end: the events it sends to the
    front end, the audio format argument it passes to yt-dlp, how it reads
    a progress value from each chunk of yt-dlp's standard output, and how
    it turns each chunk of the error output into a message and a hint. */
module Commands {
  import opened Common
  import AvArgs

  /** The four events, tagged `started`, `progress`, `finished`, `error`. */
  datatype DownloadEvent =
    | Started
    | Progress(progress: real)
    | Finished
    | Error(message: string, help: string)

  datatype DownloadError = DownloadError(message: string, help: string)

  // ---------------------------------------------------------------------
  // The error patterns

  /** One position of a pattern: a literal character, or `.`, which
      matches any character but a line feed. */
  datatype PatChar = Lit(c: char) | AnyChar

  predicate CharMatches(p: PatChar, x: char)
  {
    match p
    case Lit(c) => x == c
    case AnyChar => x != '\n'
  }

  /** A pattern written as text, where `.` is the wildcard. */
  function Pattern(s: string): (r: seq<PatChar>)
    ensures |r| == |s|
    ensures forall k :: 0 <= k < |s| ==> r[k] == (if s[k] == '.' then AnyChar else Lit(s[k]))
  {
    if s == [] then [] else Pattern(s[..|s| - 1]) + [if s[|s| - 1] == '.' then AnyChar else Lit(s[|s| - 1])]
  }

  const SignInPhrase := Pattern("Sign in to confirm you.re not a bot")
  const FormatPhrase := Pattern("Requested format is not available")
  const Marker := "ERROR:"

  predicate MatchesAt(s: string, j: int, pat: seq<PatChar>)
  {
    0 <= j && j + |pat| <= |s| && forall k :: 0 <= k < |pat| ==> CharMatches(pat[k], s[j + k])
  }

  /** `ERROR:` occurs before position `k` on the same line: the text between
      its end and `k` holds no line feed, so `.*` can span it. */
  ghost predicate Armed(s: string, k: int)
    requires 0 <= k <= |s|
  {
    exists i :: 0 <= i && i + 6 <= k && OccursAt(s, i, Marker) && '\n' !in s[i + 6..k]
  }

  /** The regular expression `ERROR:.*` followed by `pat` matches somewhere
      in `s`. */
  ghost predicate RegexMatch(s: string, pat: seq<PatChar>)
  {
    exists j :: 0 <= j <= |s| && Armed(s, j) && MatchesAt(s, j, pat)
  }

  lemma ArmedStart(s: string)
    ensures !Armed(s, 0)
  {
  }

  /** Moving one character on: the marker stays in force unless the
      character is a line feed, and a marker ending here arms the scan. */
  lemma ArmedStep(s: string, k: int)
    requires 0 <= k < |s|
    ensures Armed(s, k + 1) <==> (Armed(s, k) && s[k] != '\n') || (k >= 5 && OccursAt(s, k - 5, Marker))
  {
    if Armed(s, k + 1) {
      var i :| 0 <= i && i + 6 <= k + 1 && OccursAt(s, i, Marker) && '\n' !in s[i + 6..k + 1];
      if i + 6 <= k {
        assert s[i + 6..k] <= s[i + 6..k + 1];
        assert s[k] == s[i + 6..k + 1][k - i - 6];
      }
    }
    if Armed(s, k) && s[k] != '\n' {
      var i :| 0 <= i && i + 6 <= k && OccursAt(s, i, Marker) && '\n' !in s[i + 6..k];
      assert s[i + 6..k + 1] == s[i + 6..k] + [s[k]];
    }
    if k >= 5 && OccursAt(s, k - 5, Marker) {
      assert s[k + 1..k + 1] == [];
    }
  }

  /** A single left-to-right scan that remembers whether a marker is in
      force on the current line. */
  function Search(s: string, pat: seq<PatChar>, k: int, armed: bool): (r: bool)
    requires 0 <= k <= |s| && armed == Armed(s, k)
    ensures r <==> exists j :: k <= j <= |s| && Armed(s, j) && MatchesAt(s, j, pat)
    decreases |s| - k
  {
    if armed && MatchesAt(s, k, pat) then true
    else if k == |s| then false
    else
      ArmedStep(s, k);
      Search(s, pat, k + 1, (armed && s[k] != '\n') || (k >= 5 && OccursAt(s, k - 5, Marker)))
  }

  /** `Regex::is_match` for the two error patterns. */
  function IsMatch(s: string, pat: seq<PatChar>): (r: bool)
    ensures r <==> RegexMatch(s, pat)
  {
    ArmedStart(s);
    Search(s, pat, 0, false)
  }

  const SignInMessage := "Sign in to confirm you're not a bot."
  const SignInHelp := "This error can happen if you're behind a VPN. Try disabling the VPN and try again."
  const FormatMessage := "Requested format is not available."
  const FormatHelp := "This error can sometimes be fixed by updating yt-dlp. Try updating it and try again. Alternatively, if you know the format is available, sometimes just trying again will work."

  /** `Download::get_error_message`: the sign-in pattern is tried first,
      then the format pattern; any other text is passed on with no hint. */
  function GetErrorMessage(text: string): (r: DownloadError)
    ensures RegexMatch(text, SignInPhrase) ==> r == DownloadError(SignInMessage, SignInHelp)
    ensures !RegexMatch(text, SignInPhrase) && RegexMatch(text, FormatPhrase) ==> r == DownloadError(FormatMessage, FormatHelp)
    ensures !RegexMatch(text, SignInPhrase) && !RegexMatch(text, FormatPhrase) ==> r == DownloadError(text, "")
  {
    if IsMatch(text, SignInPhrase) then DownloadError(SignInMessage, SignInHelp)
    else if IsMatch(text, FormatPhrase) then DownloadError(FormatMessage, FormatHelp)
    else DownloadError(text, "")
  }

  /** A marker and a phrase on one line, with anything but line feeds
      between them, are recognised. */
  lemma PhraseAfterMarker(s: string, i: int, j: int, pat: seq<PatChar>)
    requires MatchesAt(s, j, pat)
    requires 0 <= i && i + 6 <= j && OccursAt(s, i, Marker) && '\n' !in s[i + 6..j]
    ensures IsMatch(s, pat)
  {
    assert Armed(s, j);
  }

  /** A text with no marker at all matches neither pattern, so it is
      passed on unchanged. */
  lemma NoMarkerPassedOn(text: string)
    requires forall i :: 0 <= i <= |text| - 6 ==> !OccursAt(text, i, Marker)
    ensures GetErrorMessage(text) == DownloadError(text, "")
  {
    forall j | 0 <= j <= |text|
      ensures !Armed(text, j)
    {
    }
  }

  // ---------------------------------------------------------------------
  // The audio format argument

  /** `Download::get_audio_format_arg`: worst audio only when asked for
      explicitly; both choices are the direct-download filter of the
      front end's selector builder. */
  function GetAudioFormatArg(worstAudio: Option<bool>): (r: string)
    ensures worstAudio == Some(true) ==> r == "wa" + AvArgs.DirectDownload()
    ensures worstAudio != Some(true) ==> r == "ba" + AvArgs.DirectDownload()
  {
    if worstAudio.Some? && worstAudio.value == true then "wa[protocol^=http]" else "ba[protocol^=http]"
  }

  // ---------------------------------------------------------------------
  // Reading progress from the standard output

  /** `BufRead::split(b'\r')`: the chunks between carriage returns, without
      them; a last chunk with no carriage return after it counts only when
      it is not empty. */
  function Chunks(s: string): (r: seq<string>)
    ensures forall i :: 0 <= i < |r| ==> '\r' !in r[i]
    ensures s != [] <==> r != []
    decreases |s|
  {
    if s == [] then []
    else
      var rest := Chunks(s[1..]);
      if s[0] == '\r' then [""] + rest
      else if rest == [] then [[s[0]]]
      else [[s[0]] + rest[0]] + rest[1..]
  }

  /** Chunks put back together with a carriage return between two chunks,
      and one after the last when `closed`. */
  function Rejoin(chunks: seq<string>, closed: bool): string
  {
    if chunks == [] then ""
    else if |chunks| == 1 then chunks[0] + (if closed then "\r" else "")
    else chunks[0] + "\r" + Rejoin(chunks[1..], closed)
  }

  /** Splitting loses nothing but the carriage returns themselves: the
      text is the chunks rejoined, closed when it ends with a carriage
      return. */
  lemma {:induction false} ChunksRejoin(s: string)
    ensures s == Rejoin(Chunks(s), s != [] && s[|s| - 1] == '\r')
    decreases |s|
  {
    if s != [] {
      var closed := s[|s| - 1] == '\r';
      var rest := Chunks(s[1..]);
      ChunksRejoin(s[1..]);
      if s[1..] != [] {
        assert s[1..][|s[1..]| - 1] == s[|s| - 1];
      }
      if s[0] == '\r' {
        if rest != [] {
          RejoinEmptyFirst(rest, closed);
        }
      } else if rest != [] {
        RejoinExtendFirst(s[0], rest, closed);
      }
      assert s == [s[0]] + s[1..];
    }
  }

  lemma RejoinEmptyFirst(chunks: seq<string>, closed: bool)
    requires chunks != []
    ensures Rejoin([""] + chunks, closed) == "\r" + Rejoin(chunks, closed)
  {
    assert ([""] + chunks)[1..] == chunks;
  }

  lemma RejoinExtendFirst(c: char, chunks: seq<string>, closed: bool)
    requires chunks != []
    ensures Rejoin([[c] + chunks[0]] + chunks[1..], closed) == [c] + Rejoin(chunks, closed)
  {
    var r := [[c] + chunks[0]] + chunks[1..];
    assert r[1..] == chunks[1..];
  }

  /** Unicode `White_Space`, which `str::trim` removes. */
  predicate IsWhiteSpace(c: char)
  {
    var n := c as int;
    || 0x09 <= n <= 0x0D || n == 0x20 || n == 0x85 || n == 0xA0 || n == 0x1680
    || 0x2000 <= n <= 0x200A || n == 0x2028 || n == 0x2029 || n == 0x202F
    || n == 0x205F || n == 0x3000
  }

  /** `str::trim`. */
  function Trim(s: string): (r: string)
    ensures r == [] || (!IsWhiteSpace(r[0]) && !IsWhiteSpace(r[|r| - 1]))
    decreases |s|
  {
    if s == [] then []
    else if IsWhiteSpace(s[0]) then Trim(s[1..])
    else if IsWhiteSpace(s[|s| - 1]) then Trim(s[..|s| - 1])
    else s
  }

  /** Every character of `t` is white space. */
  predicate Blank(t: string)
  {
    forall i :: 0 <= i < |t| ==> IsWhiteSpace(t[i])
  }

  /** `r` sits in `s` at `i` with only white space before and after it. */
  predicate StripsTo(s: string, r: string, i: int)
  {
    0 <= i && i + |r| <= |s| && Blank(s[..i]) && s[i..i + |r|] == r && Blank(s[i + |r|..])
  }

  /** `str::trim` removes white space at the two ends and nothing else. */
  lemma TrimStrips(s: string)
    ensures exists i :: StripsTo(s, Trim(s), i)
  {
    TrimAt(s);
  }

  /** How many characters `str::trim` drops at the front. */
  function TrimStart(s: string): nat
    decreases |s|
  {
    if s == [] then 0
    else if IsWhiteSpace(s[0]) then 1 + TrimStart(s[1..])
    else if IsWhiteSpace(s[|s| - 1]) then TrimStart(s[..|s| - 1])
    else 0
  }

  lemma {:induction false} TrimAt(s: string)
    ensures StripsTo(s, Trim(s), TrimStart(s))
    decreases |s|
  {
    if s == [] {
      StripsWhole(s);
    } else if IsWhiteSpace(s[0]) {
      TrimAt(s[1..]);
      StripsFront(s, Trim(s[1..]), TrimStart(s[1..]));
    } else if IsWhiteSpace(s[|s| - 1]) {
      TrimAt(s[..|s| - 1]);
      StripsBack(s, Trim(s[..|s| - 1]), TrimStart(s[..|s| - 1]));
    } else {
      StripsWhole(s);
    }
  }

  lemma StripsWhole(s: string)
    ensures StripsTo(s, s, 0)
  {
    assert s[..0] == [] && s[0..|s|] == s && s[|s|..] == [];
  }

  lemma StripsFront(s: string, r: string, i: int)
    requires s != [] && IsWhiteSpace(s[0]) && StripsTo(s[1..], r, i)
    ensures StripsTo(s, r, i + 1)
  {
    var t := s[1..];
    assert s[..i + 1] == [s[0]] + t[..i];
    assert s[i + 1..i + 1 + |r|] == t[i..i + |r|];
    assert s[i + 1 + |r|..] == t[i + |r|..];
  }

  lemma StripsBack(s: string, r: string, i: int)
    requires s != [] && IsWhiteSpace(s[|s| - 1]) && StripsTo(s[..|s| - 1], r, i)
    ensures StripsTo(s, r, i)
  {
    var t := s[..|s| - 1];
    assert s[..i] == t[..i];
    assert s[i..i + |r|] == t[i..i + |r|];
    assert s[i + |r|..] == t[i + |r|..] + [s[|s| - 1]];
  }

  /** Trimming leaves nothing exactly when the text is all white space. */
  lemma TrimEmptyIffBlank(s: string)
    ensures Trim(s) == [] <==> Blank(s)
  {
    TrimStrips(s);
    var r := Trim(s);
    var i :| StripsTo(s, r, i);
    if r == [] {
      forall j | 0 <= j < |s|
        ensures IsWhiteSpace(s[j])
      {
        if j < i {
          assert s[j] == s[..i][j];
        } else {
          assert s[j] == s[i..][j - i];
        }
      }
    } else {
      assert r[0] == s[i];
    }
  }

  /** The text before the first `|`, or the whole chunk. */
  function FirstField(line: string): (r: string)
    ensures '|' !in r
    ensures r <= line
    ensures '|' !in line ==> r == line
    ensures r != line ==> r + "|" <= line
  {
    if line == [] || line[0] == '|' then []
    else [line[0]] + FirstField(line[1..])
  }

  /** The decision taken for each chunk: the first field, trimmed, is
      parsed as a number (`parse` stands for `str::parse::<f64>`), a
      failure counts as `-1`, and a progress event is sent unless the
      value is `-1`. */
  function LineEvent(line: string, parse: string -> Option<real>): (r: Option<DownloadEvent>)
    ensures r.Some? ==> r.value.Progress? && r.value.progress != -1.0
  {
    var progress := OrElse(parse(Trim(FirstField(line))), -1.0);
    if progress != -1.0 then Some(Progress(progress)) else None
  }

  /** For a chunk whose first field is a number written with blanks around
      it: the number is sent unless it is `-1`; a first field that does not
      parse sends nothing; the other fields never matter. */
  lemma LineEventReadsFirstField(before: string, number: string, after: string, rest: string,
                                 parse: string -> Option<real>)
    requires forall i :: 0 <= i < |before| ==> IsWhiteSpace(before[i])
    requires forall i :: 0 <= i < |after| ==> IsWhiteSpace(after[i])
    requires number != [] && !IsWhiteSpace(number[0]) && !IsWhiteSpace(number[|number| - 1])
    requires '|' !in before + number + after
    ensures parse(number).None? ==> LineEvent(before + number + after + "|" + rest, parse).None?
    ensures parse(number).Some? ==>
      LineEvent(before + number + after + "|" + rest, parse)
      == (if parse(number).value == -1.0 then None else Some(Progress(parse(number).value)))
  {
    var field := before + number + after;
    FirstFieldStops(field, rest);
    TrimBlanks(before, number, after);
  }

  /** For a chunk with no bar, which is its own first field, written as a
      number with blanks around it: the number is sent unless it is `-1`,
      and a chunk that does not parse sends nothing. */
  lemma LineEventWholeChunk(before: string, number: string, after: string,
                            parse: string -> Option<real>)
    requires Blank(before) && Blank(after)
    requires number != [] && !IsWhiteSpace(number[0]) && !IsWhiteSpace(number[|number| - 1])
    requires '|' !in before + number + after
    ensures parse(number).None? ==> LineEvent(before + number + after, parse).None?
    ensures parse(number).Some? ==>
      LineEvent(before + number + after, parse)
      == (if parse(number).value == -1.0 then None else Some(Progress(parse(number).value)))
  {
    assert FirstField(before + number + after) == before + number + after;
    TrimBlanks(before, number, after);
  }

  /** A chunk whose first field is empty or all white space has the empty
      text parsed: whatever `parse` gives for it decides, as for a number. */
  lemma LineEventBlankField(line: string, parse: string -> Option<real>)
    requires Blank(FirstField(line))
    ensures parse([]).None? ==> LineEvent(line, parse).None?
    ensures parse([]).Some? ==>
      LineEvent(line, parse) == (if parse([]).value == -1.0 then None else Some(Progress(parse([]).value)))
  {
    TrimEmptyIffBlank(FirstField(line));
  }

  lemma {:induction false} FirstFieldStops(a: string, b: string)
    requires '|' !in a
    ensures FirstField(a + "|" + b) == a
    decreases |a|
  {
    if a == [] {
      assert (a + "|" + b)[0] == '|';
    } else {
      assert (a + "|" + b)[1..] == a[1..] + "|" + b;
      FirstFieldStops(a[1..], b);
      assert [a[0]] + a[1..] == a;
    }
  }

  lemma {:induction false} TrimBlanks(before: string, x: string, after: string)
    requires forall i :: 0 <= i < |before| ==> IsWhiteSpace(before[i])
    requires forall i :: 0 <= i < |after| ==> IsWhiteSpace(after[i])
    requires x != [] && !IsWhiteSpace(x[0]) && !IsWhiteSpace(x[|x| - 1])
    ensures Trim(before + x + after) == x
    decreases |before| + |after|
  {
    var s := before + x + after;
    if before != [] {
      assert s[0] == before[0];
      assert s[1..] == before[1..] + x + after;
      TrimBlanks(before[1..], x, after);
    } else if after != [] {
      assert s == x + after;
      assert s[0] == x[0];
      assert s[|s| - 1] == after[|after| - 1];
      assert s[..|s| - 1] == before + x + after[..|after| - 1];
      TrimBlanks(before, x, after[..|after| - 1]);
    } else {
      assert s == x;
    }
  }

  /** The events of the chunks of standard output, in order. */
  function ProgressEvents(lines: seq<string>, parse: string -> Option<real>): (r: seq<DownloadEvent>)
    ensures |r| <= |lines|
    ensures forall i :: 0 <= i < |r| ==> r[i].Progress?
  {
    if lines == [] then []
    else
      ProgressEvents(lines[..|lines| - 1], parse)
      + (match LineEvent(lines[|lines| - 1], parse) case Some(e) => [e] case None => [])
  }

  /** The event sent for one chunk of the error output. */
  function ErrorEvent(line: string): (r: DownloadEvent)
    ensures r.Error?
  {
    var e := GetErrorMessage(line);
    Error(e.message, e.help)
  }

  /** The events of the chunks of the error output: one per chunk. */
  function ErrorEvents(lines: seq<string>): (r: seq<DownloadEvent>)
    ensures |r| == |lines|
    ensures forall i :: 0 <= i < |r| ==> r[i] == ErrorEvent(lines[i])
  {
    if lines == [] then []
    else ErrorEvents(lines[..|lines| - 1]) + [ErrorEvent(lines[|lines| - 1])]
  }

  /** The events `download` sends, given what yt-dlp writes: `Started`,
      then one `Progress` per chunk of standard output that carries a
      number, then `Finished`, then one `Error` per chunk of the error
      output. The process itself is not modelled; its two outputs are
      parameters. */
  method Download(worstAudio: bool, stdout: string, stderr: string, parse: string -> Option<real>)
    returns (formatArg: string, events: seq<DownloadEvent>)
    ensures formatArg == GetAudioFormatArg(Some(worstAudio))
    ensures events == [Started] + ProgressEvents(Chunks(stdout), parse) + [Finished] + ErrorEvents(Chunks(stderr))
  {
    formatArg := GetAudioFormatArg(Some(worstAudio));
    var progress := ReadOutput(Chunks(stdout), parse);
    var errors := ReadErrors(Chunks(stderr));
    events := [Started] + progress + [Finished] + errors;
  }

  /** The loop over the chunks of standard output. */
  method ReadOutput(lines: seq<string>, parse: string -> Option<real>) returns (events: seq<DownloadEvent>)
    ensures events == ProgressEvents(lines, parse)
  {
    events := [];
    for i := 0 to |lines|
      invariant events == ProgressEvents(lines[..i], parse)
    {
      assert lines[..i + 1][..i] == lines[..i];
      var e := LineEvent(lines[i], parse);
      if e.Some? {
        events := events + [e.value];
      }
    }
    assert lines[..|lines|] == lines;
  }

  /** The loop over the chunks of the error output. */
  method ReadErrors(lines: seq<string>) returns (events: seq<DownloadEvent>)
    ensures events == ErrorEvents(lines)
  {
    events := [];
    for i := 0 to |lines|
      invariant events == ErrorEvents(lines[..i])
    {
      assert lines[..i + 1][..i] == lines[..i];
      var message := GetErrorMessage(lines[i]);
      events := events + [Error(message.message, message.help)];
    }
    assert lines[..|lines|] == lines;
  }

  /** In what `download` sends, `Started` comes first and only there, and
      exactly one `Finished` follows the progress events, after which only
      errors come. */
  lemma EventOrder(p: seq<DownloadEvent>, errs: seq<DownloadEvent>)
    requires forall i :: 0 <= i < |p| ==> p[i].Progress?
    requires forall i :: 0 <= i < |errs| ==> errs[i].Error?
    ensures var events := [Started] + p + [Finished] + errs;
      && events[0] == Started
      && (forall i :: 0 < i < |events| ==> !events[i].Started?)
      && events[|p| + 1] == Finished
      && (forall i :: 0 <= i < |events| && events[i].Finished? ==> i == |p| + 1)
      && (forall i :: |p| + 1 < i < |events| ==> events[i].Error?)
  {
    var events := [Started] + p + [Finished] + errs;
    forall i | 0 < i < |events|
      ensures !events[i].Started? && (events[i].Finished? ==> i == |p| + 1)
      ensures i > |p| + 1 ==> events[i].Error?
    {
      if i <= |p| {
        assert events[i] == p[i - 1];
      } else if i > |p| + 1 {
        assert events[i] == errs[i - |p| - 2];
      }
    }
  }
}
