/** The label shown for a format in the format pickers: the format id and
    extension, then the size when there is one, then the resolution unless
    the format is audio only, separated by a tab, a bar and a tab. */
module DownloadPage {
  import opened FetchVideoInfo

  const Separator := "\t|\t"

  /** JavaScript truthiness of the size: `null` and the empty text are
      left out. */
  predicate HasSize(f: Format)
  {
    f.filesize.Some? && f.filesize.value != ""
  }

  /** `makeFormatLabel`: the label starts with the format id and the
      extension, ends with the resolution unless the format is audio only,
      and is just those two columns for an audio-only format with no size. */
  function MakeFormatLabel(item: FormatItem): (r: string)
    ensures item.format.formatId + Separator + item.format.ext <= r
    ensures var last := Separator + item.format.resolution;
      item.format.resolution != "audio only" ==> |last| <= |r| && r[|r| - |last|..] == last
    ensures item.format.resolution == "audio only" && !HasSize(item.format) ==>
      r == item.format.formatId + Separator + item.format.ext
  {
    var head := item.format.formatId + Separator + item.format.ext;
    var size := if HasSize(item.format) then Separator + item.format.filesize.value else "";
    var res := if item.format.resolution != "audio only" then Separator + item.format.resolution else "";
    assert head + size + res == head + (size + res);
    assert (head + size + res)[..|head|] == head;
    assert (head + size + res)[|head + size|..] == res;
    head + size + res
  }

  /** The columns the label shows, in order. */
  function Shown(f: Format): (r: seq<string>)
    ensures 2 <= |r| <= 4 && r[0] == f.formatId && r[1] == f.ext
  {
    [f.formatId, f.ext]
    + (if HasSize(f) then [f.filesize.value] else [])
    + (if f.resolution != "audio only" then [f.resolution] else [])
  }

  /** Columns joined by the separator. */
  function Join(parts: seq<string>): string
    requires |parts| >= 1
  {
    if |parts| == 1 then parts[0] else parts[0] + Separator + Join(parts[1..])
  }

  predicate NoTab(s: string)
  {
    forall i :: 0 <= i < |s| ==> s[i] != '\t'
  }

  /** Cutting a text at every separator. */
  function Split(s: string): (r: seq<string>)
    ensures |r| >= 1
    decreases |s|
  {
    if s == [] then [""]
    else if |s| >= 3 && s[..3] == Separator then [""] + Split(s[3..])
    else
      var rest := Split(s[1..]);
      [[s[0]] + rest[0]] + rest[1..]
  }

  lemma {:induction false} SplitNoTab(a: string)
    requires NoTab(a)
    ensures Split(a) == [a]
    decreases |a|
  {
    if a != [] {
      assert a[0] != Separator[0];
      SplitNoTab(a[1..]);
      assert [a[0]] + a[1..] == a;
    }
  }

  /** A column free of tabs, then the separator: the column comes off first. */
  lemma {:induction false} SplitFirst(a: string, b: string)
    requires NoTab(a)
    ensures Split(a + Separator + b) == [a] + Split(b)
    decreases |a|
  {
    if a == [] {
      assert a + Separator + b == Separator + b;
      assert (Separator + b)[..3] == Separator && (Separator + b)[3..] == b;
    } else {
      assert a[0] != Separator[0];
      assert (a + Separator + b)[1..] == a[1..] + Separator + b;
      SplitFirst(a[1..], b);
      assert [a[0]] + a[1..] == a;
    }
  }

  /** Splitting undoes joining when no column holds a tab. */
  lemma {:induction false} SplitJoin(parts: seq<string>)
    requires |parts| >= 1
    requires forall i :: 0 <= i < |parts| ==> NoTab(parts[i])
    ensures Split(Join(parts)) == parts
    decreases |parts|
  {
    if |parts| == 1 {
      SplitNoTab(parts[0]);
    } else {
      SplitFirst(parts[0], Join(parts[1..]));
      SplitJoin(parts[1..]);
    }
  }

  /** The label is its columns joined by the separator. */
  lemma LabelJoins(item: FormatItem)
    ensures MakeFormatLabel(item) == Join(Shown(item.format))
  {
    var f := item.format;
    var head := f.formatId + Separator + f.ext;
    JoinTwo(f.formatId, f.ext);
    if HasSize(f) && f.resolution != "audio only" {
      JoinFour(f.formatId, f.ext, f.filesize.value, f.resolution);
      assert Shown(f) == [f.formatId, f.ext, f.filesize.value, f.resolution];
    } else if HasSize(f) {
      JoinThree(f.formatId, f.ext, f.filesize.value);
      assert head + (Separator + f.filesize.value) + "" == head + (Separator + f.filesize.value);
      assert Shown(f) == [f.formatId, f.ext, f.filesize.value];
    } else if f.resolution != "audio only" {
      JoinThree(f.formatId, f.ext, f.resolution);
      assert head + "" + (Separator + f.resolution) == head + (Separator + f.resolution);
      assert Shown(f) == [f.formatId, f.ext, f.resolution];
    } else {
      assert head + "" + "" == head;
      assert Shown(f) == [f.formatId, f.ext];
    }
  }

  lemma JoinTwo(a: string, b: string)
    ensures Join([a, b]) == a + Separator + b
  {
    assert [a, b][1..] == [b];
  }

  lemma JoinThree(a: string, b: string, c: string)
    ensures Join([a, b, c]) == (a + Separator + b) + (Separator + c)
  {
    assert [a, b, c][1..] == [b, c];
    JoinTwo(b, c);
    assert a + Separator + (b + Separator + c) == (a + Separator + b) + (Separator + c);
  }

  lemma JoinFour(a: string, b: string, c: string, d: string)
    ensures Join([a, b, c, d]) == (a + Separator + b) + (Separator + c) + (Separator + d)
  {
    assert [a, b, c, d][1..] == [b, c, d];
    JoinThree(b, c, d);
    assert a + Separator + ((b + Separator + c) + (Separator + d))
      == (a + Separator + b) + (Separator + c) + (Separator + d);
  }

  /** Read back at the separators, the label gives the format id, the
      extension, the size when there is a size and the resolution when the
      format is not audio only, in that order. */
  lemma LabelColumns(item: FormatItem)
    requires NoTab(item.format.formatId) && NoTab(item.format.ext) && NoTab(item.format.resolution)
    requires item.format.filesize.Some? ==> NoTab(item.format.filesize.value)
    ensures Split(MakeFormatLabel(item)) == Shown(item.format)
  {
    LabelJoins(item);
    SplitJoin(Shown(item.format));
  }
}
