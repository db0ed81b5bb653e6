/** The format lists the front end offers: what the back end sends is
    filtered to drop HLS (`m3u8…`) formats and each kept format gains an
    `id`, its `format_id`. */
module FetchVideoInfo {
  import opened Common

  /** A format record as the front end receives it. The back end sends the
      size as a text such as `"3.5 MiB"`, or `null`. */
  datatype Format = Format(
    audioExt: string,
    ext: string,
    formatId: string,
    resolution: string,
    videoExt: string,
    abr: Option<real>,
    vbr: Option<real>,
    filesize: Option<string>,
    vcodec: string,
    protocol: string,
    fps: Option<real>,
    filesizeConversion: Option<string>)

  /** `{...format, id: format.format_id}`: the record with an extra `id`. */
  datatype FormatItem = FormatItem(format: Format, id: string)

  datatype Response = Response(id: string, title: string, audio: seq<Format>, video: seq<Format>)

  /** What the hook keeps from a response. */
  datatype VideoInfo = VideoInfo(audioFormats: seq<FormatItem>, videoFormats: seq<FormatItem>, videoTitle: string)

  predicate IsM3u8(f: Format)
  {
    OccursAt(f.protocol, 0, "m3u8")
  }

  function ToItem(f: Format): FormatItem
  {
    FormatItem(f, f.formatId)
  }

  /** `filter(f => !f.protocol.startsWith("m3u8")).map(f => ({...f, id: f.format_id}))`. */
  function Offered(fs: seq<Format>): (r: seq<FormatItem>)
    ensures |r| <= |fs|
    ensures forall i :: 0 <= i < |r| ==> !IsM3u8(r[i].format) && r[i].id == r[i].format.formatId
    ensures forall i :: 0 <= i < |r| ==> r[i].format in fs
    ensures forall i :: 0 <= i < |fs| && !IsM3u8(fs[i]) ==> ToItem(fs[i]) in r
  {
    if fs == [] then []
    else
      var rest := Offered(fs[1..]);
      assert forall i :: 1 <= i < |fs| ==> fs[i] == fs[1..][i - 1];
      (if IsM3u8(fs[0]) then [] else [ToItem(fs[0])]) + rest
  }

  /** Filtering works format by format, so the kept formats keep their
      order: the result for a concatenation is the concatenation of the
      results. */
  lemma {:induction false} OfferedAppend(a: seq<Format>, b: seq<Format>)
    ensures Offered(a + b) == Offered(a) + Offered(b)
    decreases |a|
  {
    if a == [] {
      assert a + b == b;
    } else {
      assert (a + b)[1..] == a[1..] + b;
      OfferedAppend(a[1..], b);
    }
  }

  /** A list with no HLS format is kept whole, one item per format, in
      order. */
  lemma {:induction false} OfferedKeepsAll(fs: seq<Format>)
    requires forall i :: 0 <= i < |fs| ==> !IsM3u8(fs[i])
    ensures |Offered(fs)| == |fs|
    ensures forall i :: 0 <= i < |fs| ==> Offered(fs)[i] == ToItem(fs[i])
    decreases |fs|
  {
    if fs != [] {
      OfferedKeepsAll(fs[1..]);
    }
  }

  /** A list of HLS formats only is dropped entirely. */
  lemma {:induction false} OfferedDropsAll(fs: seq<Format>)
    requires forall i :: 0 <= i < |fs| ==> IsM3u8(fs[i])
    ensures Offered(fs) == []
    decreases |fs|
  {
    if fs != [] {
      OfferedDropsAll(fs[1..]);
    }
  }

  /** The response handler: both lists go through the same filter, each on
      its own, and the title is kept. */
  function Receive(resp: Response): (r: VideoInfo)
    ensures r.videoTitle == resp.title
    ensures r.audioFormats == Offered(resp.audio) && r.videoFormats == Offered(resp.video)
  {
    VideoInfo(Offered(resp.audio), Offered(resp.video), resp.title)
  }
}
