/** The stand-alone variant of the format listing: the same sorting of
    formats into audio-only and video-only lists, over a record that keeps
    only the exact byte count. */
module YtdlpMain {
  import opened Common
  import opened Ytdlp

  const ResolutionAudioOnly := "audio only"
  const ExtNone := "none"
  const ExtMhtml := "mhtml"

  datatype Format = Format(
    audioExt: string,
    ext: string,
    formatId: string,
    resolution: string,
    videoExt: string,
    abr: Option<real>,
    vbr: Option<real>,
    filesize: Option<nat>,
    vcodec: string,
    protocol: string,
    fps: Option<real>)

  /** `to_ytdlp_format`: every field is copied from the entry unchanged,
      the size read as `u64`. */
  function ToYtdlpFormat(j: JsonFormat): (r: Format)
    ensures r.ext == j.ext && r.audioExt == j.audioExt && r.formatId == j.formatId
    ensures r.resolution == j.resolution && r.videoExt == j.videoExt && r.vcodec == j.vcodec
    ensures r.protocol == j.protocol && r.abr == j.abr && r.vbr == j.vbr && r.fps == j.fps
    ensures r.filesize == AsU64(j.filesize)
  {
    Format.Format(j.audioExt, j.ext, j.formatId, j.resolution, j.videoExt, j.abr, j.vbr,
      AsU64(j.filesize), j.vcodec, j.protocol, j.fps)
  }

  function Destined(f: Format): Destination
  {
    Route(f.ext, f.resolution, f.audioExt, ExtMhtml, ResolutionAudioOnly, ExtNone)
  }

  /** Both programs sort by the same rule: the constants here are the
      strings `Props::as_str` gives, and an entry goes to the same list
      whichever record it was read into. */
  lemma SameRule(j: JsonFormat)
    ensures ResolutionAudioOnly == AsStr(AudioOnly) && ExtNone == AsStr(NoExt) && ExtMhtml == AsStr(Mhtml)
    ensures Destined(ToYtdlpFormat(j)) == Ytdlp.Destined(FromJson(j))
  {
  }

  /** The loop of `ytdlp`. */
  method Partition(formats: seq<Format>) returns (audioOnly: seq<Format>, videoOnly: seq<Format>)
    ensures audioOnly == Kept(formats, Destined, AudioList)
    ensures videoOnly == Kept(formats, Destined, VideoList)
  {
    audioOnly, videoOnly := [], [];
    for i := 0 to |formats|
      invariant audioOnly == Kept(formats[..i], Destined, AudioList)
      invariant videoOnly == Kept(formats[..i], Destined, VideoList)
    {
      var format := formats[i];
      assert formats[..i + 1][..i] == formats[..i];
      if format.ext == ExtMhtml {
        continue;
      }
      if format.resolution == ResolutionAudioOnly {
        audioOnly := audioOnly + [format];
      } else if format.audioExt == ExtNone {
        videoOnly := videoOnly + [format];
      }
    }
    assert formats[..|formats|] == formats;
  }
}
