/** The format list of the back end: each format entry of yt-dlp's JSON
    output becomes a record whose size, when the entry has an exact byte
    count, is also given in MiB; the records are then sorted into the
    audio-only and the video-only lists. */
module Ytdlp {
  import opened Common

  /** The property values the sorting compares with. */
  datatype Props = AudioOnly | NoExt | Mhtml

  /** `Props::as_str`. */
  function AsStr(p: Props): (r: string)
    ensures p == AudioOnly <==> r == "audio only"
    ensures p == NoExt <==> r == "none"
    ensures p == Mhtml <==> r == "mhtml"
  {
    match p
    case AudioOnly => "audio only"
    case NoExt => "none"
    case Mhtml => "mhtml"
  }

  /** One entry of the `formats` array, as parsed from the JSON output.
      Text fields are assumed present; numbers that are missing or null
      are `None`. The size is an integer: a size written as a float, which
      `as_u64` would not read, is not expressed. */
  datatype JsonFormat = JsonFormat(
    ext: string,
    abr: Option<real>,
    vbr: Option<real>,
    audioExt: string,
    formatId: string,
    resolution: string,
    videoExt: string,
    filesize: Option<int>,
    vcodec: string,
    protocol: string,
    fps: Option<real>)

  const U64Limit: int := 0x1_0000_0000_0000_0000

  /** `Value::as_u64`: a number that is a non-negative integer fitting in
      64 bits. */
  function AsU64(v: Option<int>): (r: Option<nat>)
    ensures r.Some? <==> v.Some? && 0 <= v.value < U64Limit
    ensures r.Some? ==> r.value == v.value
  {
    if v.Some? && 0 <= v.value < U64Limit then Some(v.value) else None
  }

  datatype Format = Format(
    audioExt: string,
    ext: string,
    formatId: string,
    resolution: string,
    videoExt: string,
    abr: Option<real>,
    vbr: Option<real>,
    filesizeExact: Option<nat>,
    vcodec: string,
    protocol: string,
    fps: Option<real>,
    filesize: Option<string>)

  const Mebibyte: nat := 1048576

  /** `to_mib(n)` in hundredths: `n / 2^20` truncated to two decimals. */
  function MibHundredths(n: nat): (h: nat)
    ensures h * Mebibyte <= n * 100 < (h + 1) * Mebibyte
  {
    (n * 100) / Mebibyte
  }

  /** `to_mib(n)` as a number. */
  function ToMib(n: nat): (r: real)
    ensures r == (MibHundredths(n) as real) / 100.0
  {
    (MibHundredths(n) as real) / 100.0
  }

  /** The truncation loses less than a hundredth and never rounds up. */
  lemma ToMibBounds(n: nat)
    ensures ToMib(n) <= (n as real) / (Mebibyte as real)
    ensures (n as real) / (Mebibyte as real) < ToMib(n) + 0.01
  {
    var h := MibHundredths(n);
    var x := (n as real) / (Mebibyte as real);
    assert (h as real) * (Mebibyte as real) <= (n as real) * 100.0;
    assert (n as real) * 100.0 < ((h + 1) as real) * (Mebibyte as real);
    assert x * (Mebibyte as real) == n as real;
  }

  /** The number `h / 100` as `{}` prints it: the integral part, then the
      decimals with trailing zeros removed, and no point for a whole
      number. */
  function HundredthsText(h: nat): (r: string)
  {
    var whole := NatToString(h / 100);
    var cents := h % 100;
    if cents == 0 then whole
    else if cents % 10 == 0 then whole + "." + [DigitChar(cents / 10)]
    else whole + "." + [DigitChar(cents / 10), DigitChar(cents % 10)]
  }

  /** The printed text denotes exactly `h / 100`: the integral digits, and
      the decimals after the point, read back give the number printed. */
  lemma HundredthsTextValue(h: nat)
    ensures var r := HundredthsText(h);
      var whole := NatToString(h / 100);
      && r[..|whole|] == whole
      && (r == whole ==> h % 100 == 0 && DecimalValue(whole, "") == (h as real) / 100.0)
      && (r != whole ==>
            (&& |r| > |whole| + 1 && r[|whole|] == '.' && AllDigits(r[|whole| + 1..])
             && DecimalValue(whole, r[|whole| + 1..]) == (h as real) / 100.0
             && r[|r| - 1] != '0'))
  {
    var whole := NatToString(h / 100);
    var cents := h % 100;
    HundredthsSplit(h);
    if cents == 0 {
    } else if cents % 10 == 0 {
      OneDecimalValue(whole, cents / 10);
    } else {
      TwoDecimalsValue(whole, cents);
    }
  }

  /** `h / 100` is the whole part plus the cents. */
  lemma HundredthsSplit(h: nat)
    ensures DigitsValue(NatToString(h / 100)) == h / 100
    ensures (h as real) / 100.0 == ((h / 100) as real) + ((h % 100) as real) / 100.0
  {
    var w := h / 100;
    var c := h % 100;
    assert h == 100 * w + c;
    assert (h as real) == 100.0 * (w as real) + (c as real);
  }

  /** One decimal digit `d` after the whole part denotes `d / 10`. */
  lemma OneDecimalValue(whole: string, d: nat)
    requires AllDigits(whole) && 0 < d < 10
    ensures var frac := [DigitChar(d)];
      (whole + "." + frac)[|whole| + 1..] == frac && AllDigits(frac)
      && DecimalValue(whole, frac) == (DigitsValue(whole) as real) + ((10 * d) as real) / 100.0
  {
    var frac := [DigitChar(d)];
    assert frac[..0] == [];
    assert DigitsValue(frac) == d;
    assert (whole + "." + frac)[|whole| + 1..] == frac;
  }

  /** Two decimal digits after the whole part denote `c / 100`. */
  lemma TwoDecimalsValue(whole: string, c: nat)
    requires AllDigits(whole) && c < 100
    ensures var frac := [DigitChar(c / 10), DigitChar(c % 10)];
      (whole + "." + frac)[|whole| + 1..] == frac && AllDigits(frac)
      && DecimalValue(whole, frac) == (DigitsValue(whole) as real) + (c as real) / 100.0
  {
    var frac := [DigitChar(c / 10), DigitChar(c % 10)];
    TwoDigitsValue(c / 10, c % 10);
    assert Pow10(|frac|) == 100 by {
      assert Pow10(2) == 10 * Pow10(1) && Pow10(1) == 10 * Pow10(0);
    }
    assert (whole + "." + frac)[|whole| + 1..] == frac;
  }

  /** The two-digit numeral `hi lo` denotes `10 * hi + lo`. */
  lemma TwoDigitsValue(hi: nat, lo: nat)
    requires hi < 10 && lo < 10
    ensures AllDigits([DigitChar(hi), DigitChar(lo)])
    ensures DigitsValue([DigitChar(hi), DigitChar(lo)]) == 10 * hi + lo
  {
    var h, l := DigitChar(hi), DigitChar(lo);
    assert [h][..0] == [];
    assert DigitsValue([h]) == 10 * DigitsValue([]) + DigitValue(h) == hi;
    assert [h, l][..1] == [h];
    assert DigitsValue([h, l]) == 10 * DigitsValue([h]) + DigitValue(l);
  }

  /** `From<&Value> for YtdlpFormat`: the fields are copied, the exact size
      is the entry's size read as `u64`, and the display size is present
      exactly when the exact size is, as its MiB value followed by `" MiB"`. */
  function FromJson(j: JsonFormat): (r: Format)
    ensures r.filesizeExact == AsU64(j.filesize)
    ensures r.filesize.Some? <==> r.filesizeExact.Some?
    ensures r.filesize.Some? ==> r.filesize.value == HundredthsText(MibHundredths(r.filesizeExact.value)) + " MiB"
    ensures r.ext == j.ext && r.audioExt == j.audioExt && r.formatId == j.formatId
    ensures r.resolution == j.resolution && r.videoExt == j.videoExt && r.vcodec == j.vcodec
    ensures r.protocol == j.protocol && r.abr == j.abr && r.vbr == j.vbr && r.fps == j.fps
  {
    var ret := Format(j.audioExt, j.ext, j.formatId, j.resolution, j.videoExt, j.abr, j.vbr,
      AsU64(j.filesize), j.vcodec, j.protocol, j.fps, None);
    ret.(filesize := match ret.filesizeExact
      case Some(num) => Some(HundredthsText(MibHundredths(num)) + " MiB")
      case None => None)
  }

  // ---------------------------------------------------------------------
  // Sorting formats into the audio-only and the video-only lists

  datatype Destination = AudioList | VideoList | Dropped

  /** The rule of both sorting loops: `mhtml` entries are skipped, an
      `audio only` resolution goes to the audio list, then an audio
      extension `none` to the video list; anything else is dropped. */
  function Route(ext: string, resolution: string, audioExt: string, mhtml: string, audioOnly: string, none: string): Destination
  {
    if ext == mhtml then Dropped
    else if resolution == audioOnly then AudioList
    else if audioExt == none then VideoList
    else Dropped
  }

  function Destined(f: Format): Destination
  {
    Route(f.ext, f.resolution, f.audioExt, AsStr(Mhtml), AsStr(AudioOnly), AsStr(NoExt))
  }

  /** The elements of `s` sent to `d`, in their order. */
  function Kept<T>(s: seq<T>, dest: T -> Destination, d: Destination): (r: seq<T>)
    ensures |r| <= |s|
    ensures forall i :: 0 <= i < |r| ==> dest(r[i]) == d && r[i] in s
    ensures forall i :: 0 <= i < |s| && dest(s[i]) == d ==> s[i] in r
  {
    if s == [] then []
    else
      var rest := Kept(s[..|s| - 1], dest, d);
      assert forall i :: 0 <= i < |s| - 1 ==> s[i] == s[..|s| - 1][i];
      rest + if dest(s[|s| - 1]) == d then [s[|s| - 1]] else []
  }

  /** Sorting works element by element, so each list keeps the input
      order: the result for a concatenation is the concatenation. */
  lemma {:induction false} KeptAppend<T>(a: seq<T>, b: seq<T>, dest: T -> Destination, d: Destination)
    ensures Kept(a + b, dest, d) == Kept(a, dest, d) + Kept(b, dest, d)
    decreases |b|
  {
    if b == [] {
      assert a + b == a;
    } else {
      assert (a + b)[..|a + b| - 1] == a + b[..|b| - 1];
      KeptAppend(a, b[..|b| - 1], dest, d);
    }
  }

  /** No element lands in two lists, and none is counted twice. */
  lemma {:induction false} KeptDisjoint<T>(s: seq<T>, dest: T -> Destination)
    ensures forall x :: x in Kept(s, dest, AudioList) ==> x !in Kept(s, dest, VideoList)
    ensures |Kept(s, dest, AudioList)| + |Kept(s, dest, VideoList)| <= |s|
    decreases |s|
  {
    if s != [] {
      KeptDisjoint(s[..|s| - 1], dest);
    }
  }

  /** The loop of `read`: formats are pushed onto the audio-only or the
      video-only list by `Destined`. */
  method Partition(formats: seq<Format>) returns (audioOnly: seq<Format>, videoOnly: seq<Format>)
    ensures audioOnly == Kept(formats, Destined, AudioList)
    ensures videoOnly == Kept(formats, Destined, VideoList)
  {
    audioOnly, videoOnly := [], [];
    for i := 0 to |formats|
      invariant audioOnly == Kept(formats[..i], Destined, AudioList)
      invariant videoOnly == Kept(formats[..i], Destined, VideoList)
    {
      var format := formats[i];
      assert formats[..i + 1][..i] == formats[..i];
      if format.ext == AsStr(Mhtml) {
        continue;
      }
      if format.resolution == AsStr(AudioOnly) {
        audioOnly := audioOnly + [format];
      } else if format.audioExt == AsStr(NoExt) {
        videoOnly := videoOnly + [format];
      }
    }
    assert formats[..|formats|] == formats;
  }

  /** What the lists hold: no `mhtml` format; every audio-only format
      (by resolution) in the audio list; every other format with no audio
      in the video list. */
  lemma PartitionContents(formats: seq<Format>)
    ensures forall f :: f in Kept(formats, Destined, AudioList) ==> f.ext != "mhtml" && f.resolution == "audio only"
    ensures forall f :: f in Kept(formats, Destined, VideoList) ==>
      f.ext != "mhtml" && f.resolution != "audio only" && f.audioExt == "none"
    ensures forall f :: f in formats && f.ext != "mhtml" && f.resolution == "audio only" ==> f in Kept(formats, Destined, AudioList)
    ensures forall f :: f in formats && f.ext != "mhtml" && f.resolution != "audio only" && f.audioExt == "none" ==>
      f in Kept(formats, Destined, VideoList)
  {
  }
}
