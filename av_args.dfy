/** The yt-dlp format-selector builder: filters `[name op value]`, the
    audio and video selectors with their direct-download preference and
    fallback, and the combined `-f` argument with the fragment thread
    count. */
module AvArgs {
  import opened Common

  // ---------------------------------------------------------------------
  // GenArgs

  /** `GenArgs.gen`: a filter in square brackets. */
  function Gen(name: string, op: string, value: string): (r: string)
    ensures |r| == |name| + |op| + |value| + 2
    ensures r[0] == '[' && r[|r| - 1] == ']' && r[1..|r| - 1] == name + op + value
  {
    "[" + name + op + value + "]"
  }

  /** `GenArgs.directDownload`. */
  function DirectDownload(): (r: string)
    ensures r == "[protocol^=http]"
  {
    Gen("protocol", "^=", "http")
  }

  /** `GenArgs.language`. */
  function Language(lang: string): (r: string)
    ensures r == "[language=" + lang + "]"
  {
    Gen("language", "=", lang)
  }

  /** The segments `build` pushes after the quality, in order: the language
      filter (audio only), the direct-download filter, the fallback. */
  function Segments(quality: string, language: string, preferDirectDownload: bool, forceNoFragments: bool): (r: seq<string>)
    ensures |r| <= 3
  {
    (if language != "" then [Language(language)] else [])
    + (if forceNoFragments || preferDirectDownload then [DirectDownload()] else [])
    + (if preferDirectDownload && !forceNoFragments then ["/" + quality] else [])
  }

  /** Which segments appear: the language filter exactly when a language
      is set, and then first; the direct-download filter when fragments
      are refused or direct download is preferred; the fallback to the
      plain quality only when direct download is preferred and fragments
      are not refused, so refusing fragments wins over the fallback. */
  lemma SegmentsChosen(quality: string, language: string, preferDirectDownload: bool, forceNoFragments: bool)
    ensures var r := Segments(quality, language, preferDirectDownload, forceNoFragments);
      && (Language(language) in r <==> language != "")
      && (language != "" ==> r[0] == Language(language))
      && (DirectDownload() in r <==> forceNoFragments || preferDirectDownload)
      && ("/" + quality in r <==> preferDirectDownload && !forceNoFragments)
  {
    var lang := Language(language);
    assert lang[1] == 'l' && DirectDownload()[1] == 'p' && ("/" + quality)[0] == '/';
  }

  /** What `build` returns or throws: the quality followed by the segments,
      in parentheses; an empty quality is refused with `message`. */
  function Selector(message: string, quality: string, segments: seq<string>): (r: Result<string>)
    ensures r.Failure? <==> quality == ""
    ensures r.Failure? ==> r.error == message
    ensures r.Success? ==> r.value == "(" + quality + Concat(segments) + ")"
  {
    if quality == "" then Failure(message) else Success("(" + quality + Concat(segments) + ")")
  }

  const AudioQualityMessage := "Audio quality must be set."
  const VideoQualityMessage := "Video quality must be set."

  // ---------------------------------------------------------------------
  // AudioArgs and VideoArgs

  /** The fields a caller may pass; `None` keeps the default. */
  datatype AudioOptions = AudioOptions(
    quality: Option<string>,
    language: Option<string>,
    preferDirectDownload: Option<bool>,
    forceNoFragments: Option<bool>)

  datatype VideoOptions = VideoOptions(
    quality: Option<string>,
    preferDirectDownload: Option<bool>,
    forceNoFragments: Option<bool>)

  class AudioArgs {
    const forceNoFragments: bool
    const preferDirectDownload: bool
    const quality: string
    const language: string

    /** Defaults: no fragments forced, direct download preferred, empty
        quality and language. */
    constructor(args: AudioOptions)
      ensures forceNoFragments == OrElse(args.forceNoFragments, false)
      ensures preferDirectDownload == OrElse(args.preferDirectDownload, true)
      ensures quality == OrElse(args.quality, "") && language == OrElse(args.language, "")
    {
      forceNoFragments := OrElse(args.forceNoFragments, false);
      preferDirectDownload := OrElse(args.preferDirectDownload, true);
      quality := OrElse(args.quality, "");
      language := OrElse(args.language, "");
    }

    function Expected(): Result<string>
    {
      Selector(AudioQualityMessage, quality, Segments(quality, language, preferDirectDownload, forceNoFragments))
    }

    /** `build`: collects the segments in a local list and wraps them. */
    method Build() returns (r: Result<string>)
      ensures r == Expected()
    {
      var cmdArgs: seq<string> := [];
      if quality == "" {
        return Failure(AudioQualityMessage);
      }
      if language != "" {
        cmdArgs := cmdArgs + [Language(language)];
      }
      if forceNoFragments || preferDirectDownload {
        cmdArgs := cmdArgs + [DirectDownload()];
      }
      if preferDirectDownload && !forceNoFragments {
        cmdArgs := cmdArgs + ["/" + quality];
      }
      assert cmdArgs == Segments(quality, language, preferDirectDownload, forceNoFragments);
      return Success("(" + quality + Concat(cmdArgs) + ")");
    }
  }

  class VideoArgs {
    const forceNoFragments: bool
    const preferDirectDownload: bool
    const quality: string

    constructor(args: VideoOptions)
      ensures forceNoFragments == OrElse(args.forceNoFragments, false)
      ensures preferDirectDownload == OrElse(args.preferDirectDownload, true)
      ensures quality == OrElse(args.quality, "")
    {
      forceNoFragments := OrElse(args.forceNoFragments, false);
      preferDirectDownload := OrElse(args.preferDirectDownload, true);
      quality := OrElse(args.quality, "");
    }

    /** The video selector has no language filter. */
    function Expected(): Result<string>
    {
      Selector(VideoQualityMessage, quality, Segments(quality, "", preferDirectDownload, forceNoFragments))
    }

    method Build() returns (r: Result<string>)
      ensures r == Expected()
    {
      var cmdArgs: seq<string> := [];
      if quality == "" {
        return Failure(VideoQualityMessage);
      }
      if forceNoFragments || preferDirectDownload {
        cmdArgs := cmdArgs + [DirectDownload()];
      }
      if preferDirectDownload && !forceNoFragments {
        cmdArgs := cmdArgs + ["/" + quality];
      }
      assert cmdArgs == Segments(quality, "", preferDirectDownload, forceNoFragments);
      return Success("(" + quality + Concat(cmdArgs) + ")");
    }
  }

  // ---------------------------------------------------------------------
  // FormatArgs

  /** The combined argument: audio selector, `+`, video selector, then
      ` -N ` and the thread count; the audio error wins when both fail. */
  function Combined(audio: Result<string>, video: Result<string>, fragmentThreads: int): (r: Result<string>)
    ensures r.Success? <==> audio.Success? && video.Success?
    ensures audio.Failure? ==> r == Failure(audio.error)
    ensures audio.Success? && video.Failure? ==> r == Failure(video.error)
    ensures r.Success? ==> r.value == audio.value + "+" + video.value + " -N " + IntToString(fragmentThreads)
  {
    match audio
    case Failure(e) => Failure(e)
    case Success(a) =>
      match video
      case Failure(e) => Failure(e)
      case Success(v) => Success(a + "+" + v + " -N " + IntToString(fragmentThreads))
  }

  class FormatArgs {
    const audio: AudioArgs
    const video: VideoArgs
    const fragmentThreads: int

    constructor(audio: AudioArgs, video: VideoArgs, fragmentThreads: int)
      ensures this.audio == audio && this.video == video && this.fragmentThreads == fragmentThreads
    {
      this.audio := audio;
      this.video := video;
      this.fragmentThreads := fragmentThreads;
    }

    /** `build`: the audio part is evaluated first, so its error is the one
        thrown when both qualities are empty. */
    method Build() returns (r: Result<string>)
      ensures r == Combined(audio.Expected(), video.Expected(), fragmentThreads)
    {
      var a := audio.Build();
      if a.Failure? {
        return Failure(a.error);
      }
      var v := video.Build();
      if v.Failure? {
        return Failure(v.error);
      }
      return Success(a.value + "+" + v.value + " -N " + IntToString(fragmentThreads));
    }
  }

  // ---------------------------------------------------------------------
  // Worked examples

  /** The join of the two segments a default selector has. */
  lemma ConcatPair(a: string, b: string)
    ensures Concat([a, b]) == a + b
  {
    calc {
      Concat([a, b]);
      Concat([a, b][..1]) + b;
      { assert [a, b][..1] == [a]; }
      Concat([a]) + b;
      { assert [a][..0] == []; }
      Concat([]) + a + b;
    }
  }

  /** With the default flags and no language, the selector is the quality,
      the direct-download filter, and the quality again as fallback. */
  lemma DefaultSelector(message: string, quality: string)
    requires quality != ""
    ensures Selector(message, quality, Segments(quality, "", true, false))
      == Success("(" + quality + DirectDownload() + "/" + quality + ")")
  {
    ConcatPair(DirectDownload(), "/" + quality);
    var d := DirectDownload();
    assert Segments(quality, "", true, false) == [] + [d] + ["/" + quality] == [d, "/" + quality];
    assert "(" + quality + (d + ("/" + quality)) + ")" == "(" + quality + d + "/" + quality + ")";
  }

  /** Selectors built from a quality alone keep the defaults, so the
      combined argument is `(a[protocol^=http]/a)+(v[protocol^=http]/v) -N n`. */
  method DefaultFormat(audioQuality: string, videoQuality: string, fragmentThreads: int) returns (r: Result<string>)
    requires audioQuality != "" && videoQuality != ""
    ensures r == Success(("(" + audioQuality + DirectDownload() + "/" + audioQuality + ")") + "+"
      + ("(" + videoQuality + DirectDownload() + "/" + videoQuality + ")") + " -N " + IntToString(fragmentThreads))
  {
    var audio := new AudioArgs(AudioOptions(Some(audioQuality), None, None, None));
    var video := new VideoArgs(VideoOptions(Some(videoQuality), None, None));
    var format := new FormatArgs(audio, video, fragmentThreads);
    r := format.Build();
    DefaultSelector(AudioQualityMessage, audioQuality);
    DefaultSelector(VideoQualityMessage, videoQuality);
  }

  /** An empty audio quality is refused before the video part is looked
      at, whatever the video part would give. */
  method MissingQualityExample(video: VideoArgs) returns (r: Result<string>)
    ensures r == Failure("Audio quality must be set.")
  {
    var audio := new AudioArgs(AudioOptions(Some(""), Some("de-DE"), None, None));
    var format := new FormatArgs(audio, video, 20);
    r := format.Build();
  }
}
