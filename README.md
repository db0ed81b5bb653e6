# yt-dler download core in Dafny

This project models the download core of yt-dler, a desktop front end to
yt-dlp. The front end is written in TypeScript/React and the back end in
Rust. The model covers:

- **The progress tree** (`progress_tree.dfy`, `engine.dfy`,
  `progress_routing.dfy`, `test_downloader.dfy`). A download item is a
  node with an identifier, a label, a size hint, a speed, a stored
  progress and child items.
  - A leaf reports its stored progress.
  - A node with children reports the floor of the unweighted mean of its
    children's progress.
  - `setProgress` clamps at 100, and `get(id)` searches by identifier.
  - The tree exists as a value (`ProgressTree.Item`) and as a heap object
    (`Engine.DownloadItem`). Every query on the object is proved to agree
    with the value.
  - The draft routing functions are modelled on the objects and specified
    over the values. `recProgressUpdate` writes a value at the end of an
    index path and refreshes the nodes on the path. `genQueue` finds the
    path to the first unfinished item.
  - The item variant with parent links (`add`, and the loop that walks up
    the parents) is modelled as well.
- **The download hook** (`download_video.dfy`).
  - The regular expressions that extract a percentage and a speed from a
    progress line, each as a scanner proved against a declarative
    description of what the regex matches.
  - `isComplete` and `createDownloadItem`.
  - The hook state: parameters by URL, actions by id, the effect that
    starts a download, the channel handler, and `isDownloading`.
- **The format-selector builder** (`av_args.dfy`): filters, audio and
  video selectors, and the combined `-f` argument.
- **The flat download queue** (`download_queue.dfy`).
- **The back end's `download` command** (`commands.dfy`): the events it
  sends, the error-message patterns, and the reading of yt-dlp's output
  chunks.
- **The format listing of both back-end programs** (`ytdlp.dfy`,
  `ytdlp_main.dfy`) and the front end's filtering of it
  (`fetch_video_info.dfy`).
- **The format label** of the download page (`download_page.dfy`).

The code sometimes differs from what a reader might expect, and the model
follows the code:

- The video part of a new download item carries the AUDIO format's size
  (`NewTreeFacts`).
- The percentage regex `\d+(?:\.\d)*%` takes any number of groups of a
  point and ONE digit, so `1.2.3%` is reported whole. A point followed by
  two or more digits ends every match that crosses it, so the leftmost
  match starts after the point: `42.55%` reports `55%`
  (`PercentageExample`).
- `getSpeed` returns an object, so the `typeof speed === "string"` branch
  is never taken and the speed is never stored (`SpeedNeverString`).
- The progress branch writes the captured action back into the map with
  the state `downloading`. If `item.updateProgress` returned normally, a
  progress message arriving after `finished` would therefore mark the
  download as running again (`ProgressAfterFinished`). The engine's item
  defines no `updateProgress`, so in JavaScript the call throws first and
  the action stays `finished`; see "Left out".
- The queue's `next` sets `done` when it moves ONTO the last item, not
  past it (`SingleItemRun`, `TwoItemRun`).

## Model

| member | source | states |
|---|---|---|
| ProgressTree.Clamp | src/lib/download-engine.ts:46-48 | the stored value is at most 100, and equals the argument when that is at most 100 |
| ProgressTree.SumIsTotal | src/lib/download-engine.ts:39 | the `reduce` over children is the left-to-right total of their progress values |
| ProgressTree.MeanBetween | src/lib/download-engine.ts:36-44 | a parent's progress lies between the floor of the smallest bound on its children and the largest bound |
| ProgressTree.ProgressInRange | src/lib/download-engine.ts:36-48 | if every leaf stores a value in [0, 100], every node reports a value in [0, 100] |
| ProgressTree.OwnProgressIgnored | src/lib/download-engine.ts:37-43 | a node with children ignores its own stored progress |
| ProgressTree.ProgressOnlyFromLeaves | src/lib/download-engine.ts:36-44 | progress depends only on the shape and the leaf values, never on sizes, labels, ids or speeds (the mean is unweighted) |
| ProgressTree.MeanExamples | src/lib/download-engine.ts:36-44 | children at {0,100} give 50, at {100,100} give 100, at {0,0,100} give 33 |
| ProgressTree.DoneAfterSet | src/lib/download-engine.ts:24-26 | `done` holds exactly when the stored progress is 100 or more: after `setProgress(v)` exactly when `v` is, and on a leaf exactly when the reported progress is |
| ProgressTree.DoneNotFromChildren | src/lib/download-engine.ts:24-26 | a node whose only child is complete reports 100 yet is not done, since `done` reads only the node's own stored value |
| ProgressTree.GetNoneIff | src/lib/download-engine.ts:50-52 | `get(id)` is undefined exactly when no node of the subtree has the id |
| ProgressTree.FindFirst | src/lib/download-engine.ts:51 | `items.find` returns the first child whose subtree holds the id |
| ProgressTree.GetResult | src/lib/download-engine.ts:50-52 | a found result is the node itself on a match, otherwise the first direct child holding the id |
| ProgressTree.GetReturnsChildNotGrandchild | src/lib/download-engine.ts:51 | for a match two levels down, `get` returns the intermediate child, not the matching node |
| Engine.DownloadItem.constructor | src/lib/download-engine.ts:16-34 | fields left out of the arguments keep their defaults (progress 0, empty texts, no children); the object holds a valid tree |
| Engine.DownloadItem.GetProgress | src/lib/download-engine.ts:36-44 | the source's `floor((sum / (n*100)) * 100)` equals the value-level floored mean of the tree held |
| Engine.DownloadItem.SumTo | src/lib/download-engine.ts:39 | the running `reduce` over the first k children equals the value-level sum |
| Engine.DownloadItem.DoneAgrees | src/lib/download-engine.ts:24-26 | the object's `done` agrees with `done` of the tree it holds |
| Engine.DownloadItem.SetProgress | src/lib/download-engine.ts:46-48 | stores `min(v, 100)` and changes nothing else in the tree |
| Engine.DownloadItem.Get | src/lib/download-engine.ts:50-52 | returns undefined exactly when the value-level search does; otherwise an owned object holding the tree the value-level search returns |
| Engine.DownloadItem.FindFrom | src/lib/download-engine.ts:51 | the object-level `find` over the children from index k agrees with the value-level one |
| Engine.ScaledMean | src/lib/download-engine.ts:38-42 | `(s / (n * 100)) * 100` is the plain mean `s / n` |
| ProgressRouting.UpdateRootsSpec | src/test-downloader.ts:68-84 | a top-level update keeps the shape, leaves every node off the followed path unchanged, settles every node on the path, and leaves the last node holding `min(p,100)` (leaf) or its children's aggregate; an index past the list changes nothing |
| ProgressRouting.DescendEnd | src/test-downloader.ts:75-83 | where the path ends or leaves the range, the current node receives the clamped value |
| ProgressRouting.DescendSettlesPath | src/test-downloader.ts:78-80 | every node on the followed path ends holding `setProgress(getProgress())` |
| ProgressRouting.DescendOffPath | src/test-downloader.ts:68-84 | nodes not on the followed path are left exactly as they were |
| ProgressRouting.DescendSameShape | src/test-downloader.ts:68-84 | the update never changes the shape, ids, labels, sizes or speeds |
| ProgressRouting.UpdateRootsIsDescend | src/test-downloader.ts:68-84 | the call without a current item is the node-level update applied to the list |
| ProgressRouting.FirstPending | src/test-downloader.ts:92-98 | the index of the first item that is not done, and none only when all are done |
| ProgressRouting.QueueSpec | src/test-downloader.ts:86-104 | `genQueue` yields a path of existing items; at each level it picks the FIRST unfinished item; it stops where every item is done; it is shorter than the tree's height; it is empty exactly when every top-level item is done |
| ProgressRouting.WalkedSettles | src/test-downloader.ts:197-202 | every node strictly above the start of the parent walk ends settled |
| ProgressRouting.WalkedKeeps | src/test-downloader.ts:197-202 | the start node, its subtree and every node off the path are left unchanged by the walk |
| ProgressRouting.WalkIsDescend | src/test-downloader.ts:195-202 | writing a leaf and walking up its parents is the same as the path update followed by a refresh of the top node |
| TestDownloader.RecProgressUpdate | src/test-downloader.ts:68-84 | on heap objects: the current item's tree becomes `Descend` of the old one; without a current item the list becomes `UpdateRoots` of the old list; only progress fields are written, and any object outside the items' trees other than the current item keeps its progress |
| TestDownloader.GenQueue | src/test-downloader.ts:86-104 | the path built is `Queue` of the trees held |
| TestDownloader.Inner | src/test-downloader.ts:91-101 | the path returned is the given path followed by `Queue` of the items' trees |
| TestDownloader.ParentItem.constructor | src/test-downloader.ts:141-147 | defaults as in the engine item, with no children and no parent |
| TestDownloader.ParentItem.GetProgress | src/test-downloader.ts:153-161 | equals the value-level floored mean (unary `+` leaves a number unchanged) |
| TestDownloader.ParentItem.SetProgress | src/test-downloader.ts:163-165 | stores `min(v, 100)` and changes nothing else |
| TestDownloader.ParentItem.Add | src/test-downloader.ts:171-174 | the child is linked to this node and appended; the tree held gains the child's tree as its last child; all links stay consistent |
| TestDownloader.WalkParents | src/test-downloader.ts:197-202 | the loop over parent links produces `Walked` of the tree from the start node |
| AvArgs.Gen | src/lib/av-args.ts:20-22 | a filter is the name, operator and value in square brackets |
| AvArgs.DirectDownload | src/lib/av-args.ts:23-25 | the direct-download filter is `[protocol^=http]` |
| AvArgs.Language | src/lib/av-args.ts:26-28 | the language filter is `[language=<lang>]` |
| AvArgs.SegmentsChosen | src/lib/av-args.ts:54-64 | the language filter appears exactly when a language is set, and first; the direct filter when fragments are refused or direct download preferred; the fallback only when direct is preferred and fragments are not refused |
| AvArgs.Selector | src/lib/av-args.ts:47-67 | an empty quality throws the given message; otherwise the result is the quality and segments in parentheses |
| AvArgs.AudioArgs.constructor | src/lib/av-args.ts:31-45 | defaults: no forced fragments, direct download preferred, empty quality and language |
| AvArgs.AudioArgs.Build | src/lib/av-args.ts:47-67 | the imperative build equals `Selector` over `Segments` with the language |
| AvArgs.VideoArgs.constructor | src/lib/av-args.ts:70-83 | the same defaults, without a language |
| AvArgs.VideoArgs.Build | src/lib/av-args.ts:85-101 | the build equals `Selector` over `Segments` with no language |
| AvArgs.Combined | src/lib/av-args.ts:115-119 | success exactly when both parts succeed; the audio error wins; on success the result is `audio+video -N threads` |
| AvArgs.FormatArgs.constructor | src/lib/av-args.ts:109-113 | stores the two builders and the thread count |
| AvArgs.FormatArgs.Build | src/lib/av-args.ts:115-119 | equals `Combined` of the two builders' results |
| AvArgs.DefaultSelector | tests/command-builder.test.ts:9-15 | with the defaults the selector is `(q[protocol^=http]/q)` |
| AvArgs.DefaultFormat | tests/command-builder.test.ts:72-80 | builders made from a quality alone give `(a[protocol^=http]/a)+(v[protocol^=http]/v) -N n` |
| AvArgs.MissingQualityExample | src/lib/av-args.ts:115-119 | an empty audio quality makes the combined build fail with the audio message, which the audio build throws first (the test at tests/command-builder.test.ts:4-7 checks the audio build alone) |
| FetchVideoInfo.Offered | src/hooks/fetch-video-info.tsx:50-66 | no kept format is HLS, each carries its format id as `id`, every kept format came from the input, and every non-HLS input format is kept |
| FetchVideoInfo.OfferedAppend | src/hooks/fetch-video-info.tsx:50-57 | filtering a concatenation gives the concatenation of the filtered parts, so order is kept |
| FetchVideoInfo.OfferedKeepsAll | src/hooks/fetch-video-info.tsx:50-57 | a list with no HLS format is kept whole, in order |
| FetchVideoInfo.OfferedDropsAll | src/hooks/fetch-video-info.tsx:50-57 | a list of HLS formats only is dropped entirely |
| FetchVideoInfo.Receive | src/hooks/fetch-video-info.tsx:48-69 | both lists go through the same filter independently and the title is kept |
| DownloadPage.MakeFormatLabel | src/pages/download-page.tsx:267-271 | the label starts with the format id, tab-bar-tab and the extension; it ends with tab-bar-tab and the resolution unless that is `audio only`; an audio-only format with no truthy size shows those two columns only |
| DownloadPage.Shown | src/pages/download-page.tsx:267-271 | the label's columns start with the format id and the extension, and there are two to four |
| DownloadPage.SplitJoin | src/pages/download-page.tsx:267-271 | cutting at the separator undoes joining when no column holds a tab |
| DownloadPage.LabelJoins | src/pages/download-page.tsx:267-271 | the label is its columns joined by tab-bar-tab |
| DownloadPage.LabelColumns | src/pages/download-page.tsx:267-271 | read back at the separators, the label gives id, extension, the size when truthy, and the resolution unless it is audio only |
| Ytdlp.AsStr | src-tauri/src/ytdlp.rs:15-23 | each property maps to its own text and back |
| Ytdlp.AsU64 | src-tauri/src/ytdlp.rs:63 | a size is read only when it is a non-negative integer below 2^64 |
| Ytdlp.MibHundredths | src-tauri/src/ytdlp.rs:79-81 | the size in MiB truncated down to whole hundredths |
| Ytdlp.ToMib | src-tauri/src/ytdlp.rs:79-81 | `to_mib` is the hundredths over 100 |
| Ytdlp.ToMibBounds | src-tauri/src/ytdlp.rs:79-81 | the truncation never rounds up and loses less than a hundredth |
| Ytdlp.HundredthsTextValue | src-tauri/src/ytdlp.rs:71 | the printed size starts with the whole MiB and, read back, denotes exactly the truncated value, with no trailing zero decimal |
| Ytdlp.FromJson | src-tauri/src/ytdlp.rs:51-77 | fields are copied; the exact size is the u64 reading; the display size exists exactly when the exact size does and is its MiB text followed by ` MiB` |
| Ytdlp.Kept | src-tauri/src/ytdlp.rs:123-133 | the kept elements all go to that list, come from the input, and every input element routed there is kept |
| Ytdlp.KeptAppend | src-tauri/src/ytdlp.rs:123-133 | sorting works element by element, so each list keeps the input order |
| Ytdlp.KeptDisjoint | src-tauri/src/ytdlp.rs:128-132 | no format lands in both lists, and together they are no longer than the input |
| Ytdlp.Partition | src-tauri/src/ytdlp.rs:120-133 | the loop builds exactly the two kept lists |
| Ytdlp.PartitionContents | src-tauri/src/ytdlp.rs:123-133 | the audio list holds exactly the non-mhtml audio-only formats; the video list holds exactly the other non-mhtml formats with audio extension `none` |
| YtdlpMain.ToYtdlpFormat | src-tauri/src/main.rs:12-28 | every field is copied; the size is the u64 reading |
| YtdlpMain.SameRule | src-tauri/src/main.rs:30-32 | the constants equal `Props::as_str`, and an entry is routed the same way by both programs |
| YtdlpMain.Partition | src-tauri/src/main.rs:69-82 | the loop builds exactly the two kept lists |
| Commands.Search | src-tauri/src/commands.rs:39-41 | the single scan finds a match exactly when the pattern occurs after an `ERROR:` marker on the same line |
| Commands.IsMatch | src-tauri/src/commands.rs:41 | `is_match` holds exactly when the regex `ERROR:.*<phrase>` matches |
| Commands.GetErrorMessage | src-tauri/src/commands.rs:37-64 | the sign-in message when that regex matches; else the format message when that one matches; else the text itself with an empty hint |
| Commands.PhraseAfterMarker | src-tauri/src/commands.rs:39-53 | a marker and a phrase on one line, with no line feed between, are recognised |
| Commands.NoMarkerPassedOn | src-tauri/src/commands.rs:60-63 | a text with no `ERROR:` marker is passed on unchanged with no hint |
| Commands.GetAudioFormatArg | src-tauri/src/commands.rs:71-77 | worst audio only for `Some(true)`, best audio otherwise, both with the direct-download filter |
| Commands.Chunks | src-tauri/src/commands.rs:114 | the chunks hold no carriage return, and there are some exactly when the output is non-empty |
| Commands.ChunksRejoin | src-tauri/src/commands.rs:114 | splitting loses nothing but the separators: the output is the chunks rejoined |
| Commands.Trim | src-tauri/src/commands.rs:120 | the result neither starts nor ends with white space |
| Commands.TrimStrips | src-tauri/src/commands.rs:120 | the result sits inside the text with only white space before and after it, so trimming removes white space at the two ends and nothing else |
| Commands.TrimEmptyIffBlank | src-tauri/src/commands.rs:120 | trimming leaves nothing exactly when the text is empty or all white space |
| Commands.FirstField | src-tauri/src/commands.rs:118-119 | the first field is a prefix of the chunk and holds no bar; it is the whole chunk when the chunk has no bar, and otherwise a bar follows it in the chunk |
| Commands.LineEvent | src-tauri/src/commands.rs:116-127 | a chunk yields at most a progress event, never with value -1 |
| Commands.LineEventReadsFirstField | src-tauri/src/commands.rs:118-126 | for a number with blanks around it as first field: it is sent unless it is -1; a non-number sends nothing; other fields never matter |
| Commands.LineEventWholeChunk | src-tauri/src/commands.rs:118-126 | a chunk with no bar is parsed whole: a number with blanks around it is sent unless it is -1; a non-number sends nothing |
| Commands.LineEventBlankField | src-tauri/src/commands.rs:118-126 | a first field that is empty or all white space has the empty text parsed, and that result decides as for a number |
| Commands.ProgressEvents | src-tauri/src/commands.rs:116-129 | at most one event per chunk, all progress events |
| Commands.ErrorEvents | src-tauri/src/commands.rs:141-156 | exactly one error event per error chunk, in order |
| Commands.Download | src-tauri/src/commands.rs:86-160 | the format argument for the choice, then Started, the progress events, Finished and the error events |
| Commands.ReadOutput | src-tauri/src/commands.rs:116-129 | the loop over output chunks sends exactly `ProgressEvents` |
| Commands.ReadErrors | src-tauri/src/commands.rs:141-156 | the loop over error chunks sends exactly `ErrorEvents` |
| Commands.EventOrder | src-tauri/src/commands.rs:107-157 | Started comes first and only there; exactly one Finished follows the progress events; only errors come after it |
| DownloadQueue.QueueItem.constructor | src/hooks/use-download-queue.tsx:21-26 | the fields are stored and the progress defaults to 0 |
| DownloadQueue.QueueItem.IsDone | src/hooks/use-download-queue.tsx:28-30 | holds exactly when the stored progress, which is never clamped, is 100 or more |
| DownloadQueue.QueueItem.SetProgress | src/hooks/use-download-queue.tsx:32-36 | the value is stored unclamped and the item itself is returned |
| DownloadQueue.Round | src/hooks/use-download-queue.tsx:86-88 | `Math.round` gives the integer within half a unit, halves rounded up |
| DownloadQueue.OverallShares | src/hooks/use-download-queue.tsx:85-89 | the overall progress is the finished items' shares plus the current item's share, rounded |
| DownloadQueue.OverallBounds | src/hooks/use-download-queue.tsx:85-89 | with an index in range and a percentage, the overall progress is in [0, 100] |
| DownloadQueue.OverallContinues | src/hooks/use-download-queue.tsx:85-89 | item k at 100 and item k+1 at 0 show the same overall progress |
| DownloadQueue.OverallMonotone | src/hooks/use-download-queue.tsx:85-89 | more progress on the current item never lowers the overall progress |
| DownloadQueue.Queue.constructor | src/hooks/use-download-queue.tsx:40-43 | no items, index 0, not done, progress 0 |
| DownloadQueue.Queue.SetItems | src/hooks/use-download-queue.tsx:40 | sets the list and nothing else |
| DownloadQueue.Queue.Current | src/hooks/use-download-queue.tsx:44-46 | the item at the index exactly when the list is set and the index is in range |
| DownloadQueue.Queue.GetProgress | src/hooks/use-download-queue.tsx:72-90 | 0 without a current item, otherwise the overall progress of the current item |
| DownloadQueue.Queue.Next | src/hooks/use-download-queue.tsx:48-54 | the index moves on by one; done is set when the old index plus one is the last index |
| DownloadQueue.Queue.Update | src/hooks/use-download-queue.tsx:56-70 | NaN throws before anything changes; no current item changes nothing; otherwise the item takes the value unclamped, the overall progress is recomputed, and 100 or more moves to the next item |
| DownloadQueue.SingleItemRun | src/hooks/use-download-queue.tsx:48-70 | a one-item queue finishing its item moves past it without setting done |
| DownloadQueue.TwoItemRun | src/hooks/use-download-queue.tsx:48-70 | a two-item queue is already done when the first item completes |
| DownloadVideo.PercentageEndSound | src/hooks/download-video.tsx:33 | where the scanner finds a match, it is a match of `\d+(?:\.\d)*%` |
| DownloadVideo.PercentageEndComplete | src/hooks/download-video.tsx:33 | every match of the regex at a position is the one the scanner finds |
| DownloadVideo.PercentageFrom | src/hooks/download-video.tsx:33 | the search returns the leftmost match from the position, or none when there is none |
| DownloadVideo.GetPercentage | src/hooks/download-video.tsx:32-35 | undefined exactly when the regex matches nowhere; otherwise the text of the leftmost match |
| DownloadVideo.PercentageValue | src/hooks/download-video.tsx:106 | `parseFloat` reads the digits and at most the first decimal of a match |
| DownloadVideo.PercentageExample | src/hooks/download-video.tsx:33 | in `42.55%` the reported match is `55%` |
| DownloadVideo.SpeedEndSound | src/hooks/download-video.tsx:38 | where the scanner finds a match, it is a match of `(\d+\.\d+)(\w+\/s)` |
| DownloadVideo.SpeedEndGreatest | src/hooks/download-video.tsx:38 | every match at a position ends where the scanner's does, and the scanner's first group is the longest (greedy) |
| DownloadVideo.SpeedFrom | src/hooks/download-video.tsx:38 | the leftmost speed match from the position, or none when there is none |
| DownloadVideo.ParseRate | src/hooks/download-video.tsx:39 | `parseFloat` of the rate group is its decimal value |
| DownloadVideo.GetSpeed | src/hooks/download-video.tsx:37-40 | undefined exactly when the regex matches nowhere; otherwise the rate and size of the leftmost match |
| DownloadVideo.SpeedExample | src/hooks/download-video.tsx:37-40 | `1.25/s` yields rate 1.2 and size `5/s` |
| DownloadVideo.NoPointNoSpeed | src/hooks/download-video.tsx:38 | a line with no point has no speed |
| DownloadVideo.NoSpeedExample | src/hooks/download-video.tsx:37-40 | `3MiB/s` yields no speed |
| DownloadVideo.SpeedNeverString | src/hooks/download-video.tsx:115-119 | the speed is never a string, so it is never stored |
| DownloadVideo.IsComplete | src/hooks/download-video.tsx:42-46 | a complete text starts with a digit and reads as the number 100 |
| DownloadVideo.CompleteOnlyExact | src/hooks/download-video.tsx:42-46 | `100%` is complete and `100.0%` is not |
| DownloadVideo.ProgressValue | src/hooks/download-video.tsx:102-108 | a value is handed on exactly when a percentage is found and it is not `100%`; the value is the parsed number of that match |
| DownloadVideo.PercentageFound | src/hooks/download-video.tsx:102-106 | the reported percentage starts with a digit and parses to its match's number |
| DownloadVideo.NewTree | src/hooks/download-video.tsx:48-65 | the tree is the video under its URL and title at progress 0, with two leaves `audio` and `video`, both at 0 and both sized by the audio format |
| DownloadVideo.NewTreeFacts | src/hooks/download-video.tsx:48-65 | a new item starts at 0 and is not done, its parts are found under `audio` and `video`, and the video part carries the audio size |
| DownloadVideo.CreateDownloadItem | src/hooks/download-video.tsx:48-65 | a fresh object tree holding `NewTree(data)` |
| DownloadVideo.DownloadVideoHook.constructor | src/hooks/download-video.tsx:76-79 | empty parameters and actions |
| DownloadVideo.DownloadVideoHook.Download | src/hooks/download-video.tsx:149-153 | the parameters are recorded under the URL and become the latest |
| DownloadVideo.DownloadVideoHook.Effect | src/hooks/download-video.tsx:90-146 | a download is started exactly when there are parameters whose action is absent or not downloading; it invokes `download` with the URL, directory and both format ids, and records a fresh item tree as downloading |
| DownloadVideo.DownloadVideoHook.OnMessage | src/hooks/download-video.tsx:99-128 | a percentage other than `100%` is handed on and, assuming `item.updateProgress` returns normally, the captured action is put back; `finished` marks the action finished; anything else changes nothing |
| DownloadVideo.DownloadVideoHook.IsDownloading | src/hooks/download-video.tsx:80-88 | true exactly when some action's item is not done |
| DownloadVideo.DispatchScenario | src/hooks/download-video.tsx:90-146 | the first effect starts the download, which then runs; downloading the same parameters again does not restart it; after `finished` it does |
| DownloadVideo.ProgressAfterFinished | src/hooks/download-video.tsx:110-112 | if `item.updateProgress` returned normally, a progress line after `finished` would put the action back as downloading, so the same parameters would no longer restart; in JavaScript the call throws first |

## Left out

- Floating point. Progress values, rates and sizes are exact reals.
  - JavaScript's double rounding in `getProgress` and in the queue's
    percentage is not modelled.
  - `parseFloat` is modelled only on the digit strings the regexes let
    through.
  - Rust's `str::parse::<f64>` is a function parameter of the chunk reader.
  - `to_mib` is computed exactly in hundredths.
- Ytdlp.FromJson: a size is an integer or absent, so a JSON size written as a float (`1048576.0`), for which `as_u64` gives no value, cannot be expressed.
- Ytdlp.HundredthsTextValue: assumes `{}` prints the shortest decimal of the truncated value, so binary representation artefacts of `f64` are not modelled.
- Only NaN is modelled, and only in the queue's `update`, as `JsNumber.NaN`. Infinities are modelled nowhere: `update(Infinity)` passes the NaN test, is stored, makes the overall progress Infinity and advances to the next item, which the model does not express. The chunk reader's `parse` returns reals only, so the NaN and infinite values that `str::parse::<f64>` gives for `nan`, `inf` or `infinity` (in any case), which pass the `-1` test and would be sent as progress, are not modelled. Elsewhere numbers are finite.
- `item.updateProgress(progress)` in the channel handler calls a method the engine's item does not define. The handler's model returns the value it would pass and assumes the call returns normally, so the `TypeError` JavaScript would raise is not modelled.
- The reflective constructors (`Object.keys` / `Object.hasOwn`) are modelled as optional arguments. A key explicitly set to `undefined` is modelled only for `size`.
- Aliasing between items is excluded by the ownership invariant (`Valid`). Shared subtrees and cycles are not modelled.
- `DlItem_parents.get` (src/test-downloader.ts:167-169) repeats the engine's `get` and is not modelled again.
- TestDownloader.WalkParents: the walk up the parent links (src/test-downloader.ts:197-202) is modelled on the tree value. A node's parent is the prefix of its index path. The heap-level loop over `#parent` pointers, and the object identity it relies on, are not captured.
- The hook's React state:
  - Updates are applied at once, so batching and stale closures are not modelled.
  - `Array.from(map.values()).at(-1)` is modelled as the parameters of the latest `download` call. Map insertion order for a re-used URL is not captured.
  - The Tauri `Channel`, the `invoke` promise and its resolution are not modelled.
  - `getParams` is a plain map lookup and is not modelled.
- Process I/O:
  - The yt-dlp process, the test file and `println!` are not modelled; standard output and error are given as strings.
  - UTF-8 decoding (lossy for errors, panicking `unwrap` for output) is not modelled.
  - The `Regex::new` error path cannot occur for the constant patterns and is not modelled.
- JSON fields: the text fields of a format entry are assumed present, so the `unwrap` panics are not modelled.
- The front end types a format's `filesize` as a number, but the back end sends the `"x MiB"` text. The model uses the text.
- AvArgs.Combined: the thread count is taken as an integer and printed as a decimal integer. The source types it as a JavaScript number and prints it through a template literal, so a fractional value (`2.5`), `NaN` or an infinity would print as JavaScript prints it, which the model does not express.
- The item field `label` is named `labelText`.
