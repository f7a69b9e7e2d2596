# WeebCli preview generator, modelled in Dafny

WeebCli's `pregen` verb turns a video into preview contact sheets. It runs
the video transcoder with PNG output piped to standard output, then cuts
the piped bytes into PNG frames (`PngParser.ParseFrames`). It lays the
decoded frames out as 10 by 10 mosaics, one JPEG per 100 frames, named
from an output template with `%n` replaced by the page's first frame
index (`Program.WriteOutput`). Before any of that it checks the input file
(`Program.PreviewGen`, lines 100-101). It quotes paths that contain a
space (`Extensions.PathFix`). The dependency index `deps/index.weeb` is
read into a name-to-path map (`Deps.GetPaths`, `Deps.GetFilename`). The
downloader draws a text progress bar (`Utill.ProgressBar`).

The model has these modules, one file each:

- `Common` (common.dfy): bytes, `Option`/`Result`, the faults the C# code
  can raise, and decoded images.
- `Text` (text.dfy): the .NET string operations the code relies on.
  These are `Trim`, `Split`, `Replace`, `PadLeft` and decimal `ToString`,
  each with its own contract.
- `Bytes` (bytes.dfy): big-endian decoding, `BytesToUint`, and the
  shift-and-or expression of `PngParser.cs` line 42.
- `PngParser` (png_parser.dfy): `ArrayCompare`, the chunk walk, the frame
  scan, its specification `WellSplit`, and the method `ParseFrames`.
- `PngFacts` (png_facts.dfy): the scan against its specification, and the
  places where the code as written throws or loops.
- `Deps` (deps.dfy): the index parse and lookup.
- `Preview` (preview.dfy): `PathFix` and the input checks.
- `Mosaic` (mosaic.dfy): `WriteOutput`'s pages, cells and file names.
- `Progress` (progress.dfy): the progress bar.

The frame scan is one set of definitions with a flag `guarded`.
`guarded == false` is the code as written. There, a read past the end of
the buffer is `Failure(IndexOutOfRange(|rb|))`: the signature test at the
buffer's tail, the length field, or the chunk type. `guarded == true` is
the corrected reading, where such a read means the frame is unfinished,
and an unfinished frame is dropped. The guarded scan is proved equal to
the declarative specification `WellSplit`, in both directions. The code as
written is proved to agree with it whenever it does not throw.

Where the code and its surrounding documentation disagree, the model
follows the code:

- The range handed to the decoder ends at the offset of the IEND chunk,
  so the slice excludes the IEND chunk. The doc comment of
  `ImageFromBytes` (PngParser.cs:63) says "last byte position", and a
  reader might expect the slice to end after the chunk.
- A chunk advances the cursor by its declared data length plus 12. The
  length field does not count the 12 bytes of length, type and CRC.
- A frame whose chunk walk runs off the buffer is simply not emitted. The
  code has no streaming and no retry: it parses the whole piped output
  once the transcoder has exited.
- An empty frame list in `WriteOutput` fails at `images[0]`. The model
  gives `Failure(IndexOutOfRange(0))` rather than a precondition.
- The extension check takes the text after the last `.`, so an existing
  file named exactly `mkv` (no dot) is accepted.

## Model

| member | source | states |
|---|---|---|
| PngParser.ArrayCompare | WeebCli/PngParser.cs:94-101 | an empty range compares equal; a range inside `a` never fails; a failure names the first index past `a`, the index the loop reads |
| PngParser.ArrayCompareSpec | WeebCli/PngParser.cs:94-101 | it answers true iff every position in `[start, end)` lies in `a` and matches `b` at the same offset; it fails iff all readable positions matched and the range runs past `a` |
| PngFacts.ArrayCompareMeaning | WeebCli/PngParser.cs:94-101 | the same answer in `b`'s offsets: `a[start + k] == b[k]` for all `k < end - start`; an empty range compares equal |
| PngParser.ChunkSize | WeebCli/PngParser.cs:40-42 | a chunk moves the cursor by at least 12 bytes, and by exactly 12 iff its declared length is 0 |
| PngParser.SignatureTestMeaning | WeebCli/PngParser.cs:30 | the line-30 test answers whether a PNG signature starts at `i`; as written it can throw only at the buffer's tail, and the guarded test never throws |
| PngParser.IendTypeTestMeaning | WeebCli/PngParser.cs:44 | the chunk-type test answers whether the 4 bytes after the length field read "IEND"; it cannot throw when those bytes are in the buffer |
| PngParser.Walk | WeebCli/PngParser.cs:38-53 | an offset the inner loop reports is reached by a chain of chunks and holds an empty IEND chunk; the guarded walk never fails; a failure is an out-of-range read |
| PngParser.WalkComplete | WeebCli/PngParser.cs:38-53 | any chunk chain ending at an empty IEND chunk is found by the walk, on either reading |
| PngParser.NotClosedWhenWalkEnds | WeebCli/PngParser.cs:38-53 | a walk that runs off the buffer means no IEND chunk is reachable from that cursor |
| PngParser.Scan | WeebCli/PngParser.cs:28-54 | the guarded scan never fails; the scan as written fails only with an out-of-range index equal to the buffer length |
| PngParser.ScanSound | WeebCli/PngParser.cs:28-54 | every list of frames the scan returns meets `WellSplit`: each frame starts at the first signature after the previous frame, is closed by an IEND chunk, and no closed frame follows the last |
| PngFacts.ScanComplete | WeebCli/PngParser.cs:28-54 | every list meeting `WellSplit` is what the guarded scan returns |
| PngFacts.ScanIsWellSplit | WeebCli/PngParser.cs:28-54 | the guarded scan returns `rs` iff `rs` meets `WellSplit` |
| PngFacts.WellSplitUnique | WeebCli/PngParser.cs:28-54 | the specification admits a single list of frames |
| PngFacts.AsWrittenAgrees | WeebCli/PngParser.cs:28-54 | when the scan as written does not throw, it returns the same frames as the guarded scan |
| PngFacts.WellSplitFrames | WeebCli/PngParser.cs:30-46 | every listed frame is a signature, a chain of chunks and an empty IEND chunk |
| PngFacts.WellSplitPast | WeebCli/PngParser.cs:30 | an offset without a signature is skipped without changing what is found after it |
| PngFacts.WalkCloses | WeebCli/PngParser.cs:44-50 | a walk that reports an IEND offset means the frame closes |
| PngFacts.OpenAtSignature | WeebCli/PngParser.cs:38-54 | at a signature whose frame never closes, the guarded scan ends with no more frames |
| PngFacts.FrameAtSignature | WeebCli/PngParser.cs:44-50 | at a signature, the first specified frame is the one found there, and scanning resumes 12 bytes past its IEND offset |
| PngFacts.NoSignatureNoFrames | WeebCli/PngParser.cs:28-30 | a buffer holding no signature yields no frame on either reading, and the guarded scan succeeds |
| PngParser.WellSplitShape | WeebCli/PngParser.cs:44-52 | specified frames lie in the buffer in increasing order, each at least a signature long, with its 8-byte IEND head inside the buffer, and at least 12 bytes between one frame's end and the next frame's start |
| PngParser.ChainForward | WeebCli/PngParser.cs:52 | a chunk chain only moves the cursor forward |
| PngFacts.ChainAdvances | WeebCli/PngParser.cs:52 | each chunk stepped over moves the unbounded cursor at least 12 bytes, so the corrected walk always ends |
| PngParser.ImageFromBytes | WeebCli/PngParser.cs:65-68 | the copy loop; what the slice holds relative to the frame, and that it excludes the IEND chunk, is stated by `PngFacts.FramesShape` |
| PngParser.DecodeAll | WeebCli/PngParser.cs:46 | decoding a list of frames one after another; its meaning is stated by `PngParser.DecodeAllSpec` |
| PngParser.DecodeAllSpec | WeebCli/PngParser.cs:44-70 | decoding the frames succeeds iff the decoder accepts every one, and then gives their images in order; otherwise it fails as the first rejected frame does |
| PngParser.DecodeAllAppend | WeebCli/PngParser.cs:46 | adding a frame appends exactly its decoded image, unless it or an earlier frame is rejected |
| PngParser.DecodedScan | WeebCli/PngParser.cs:28-70 | decoding each frame as soon as it is found agrees with scanning first and decoding afterwards when the scan succeeds, and fails when the scan fails |
| PngParser.Frames | WeebCli/PngParser.cs:21-70 | when the scan from offset 0 succeeds, `ParseFrames` gives the decoding of its frames; when the scan fails, it fails |
| PngParser.FramesMeaning | WeebCli/PngParser.cs:21-70 | `ParseFrames` succeeds iff the scan succeeds and `Image.Load` accepts every frame, and then returns one image per frame in order; a scan that succeeds with a rejected frame fails as the first rejected frame does |
| PngFacts.FramesShape | WeebCli/PngParser.cs:44-48 | the found frames are in order and disjoint; each slice is `end - start` bytes, starts with the signature, and is followed by an empty IEND chunk, which it excludes |
| PngParser.FindEnd | WeebCli/PngParser.cs:38-53 | the imperative inner loop, reading lengths with line 42's shift-and-or, returns what the walk specifies |
| PngParser.Round | WeebCli/PngParser.cs:28-54 | one pass of the outer loop: a failure is the scan's failure; otherwise the cursor advances, and the scan from here is the frame found, if any, followed by the scan from the next cursor; the frame-by-frame decoding takes the same step |
| PngParser.ParseFrames | WeebCli/PngParser.cs:21-57 | the imperative method, which hands each frame to the decoder as soon as it is found, returns exactly `Frames`: the decoded frames, the scan's failure, or the decoder's first rejection |
| PngFacts.SignaturePrefixThrows | WeebCli/PngParser.cs:30 | finding 1: the one-byte buffer `[0x89]` makes the signature test throw as written; the guarded scan finds no frame |
| PngFacts.TruncatedFrameThrows | WeebCli/PngParser.cs:42 | finding 2: a complete frame followed by a frame cut inside its length field throws as written; the guarded scan keeps the complete frame |
| PngFacts.ChunkSize32 | WeebCli/PngParser.cs:40-42 | the `uint` chunk size as written is below 2^32, and agrees with the unbounded one whenever the declared length is below 2^32 - 12 |
| PngFacts.ChunkSizeWraps | WeebCli/PngParser.cs:40-52 | finding 3: declared length `0xFFFFFFF4` makes the `uint` chunk size 0, so line 52 leaves the cursor where it was |
| Bytes.BigEndianFour | WeebCli/PngParser.cs:42 | four big-endian bytes denote `b0*2^24 + b1*2^16 + b2*2^8 + b3`, below 2^32 |
| Bytes.InlineIsBigEndian | WeebCli/PngParser.cs:42 | line 42's shift-and-or of four bytes is their big-endian value |
| Bytes.BytesToUint | WeebCli/PngParser.cs:77-84 | the loop adding `data[i] << shift` returns the big-endian value of the four bytes from `offset`, below 2^32, when they lie in `data`; otherwise it fails at the first index outside `data`: `offset` when that is negative or past the end, else the length of `data` |
| Deps.ParseLineSound | WeebCli/Deps.cs:24 | a retained line is, once trimmed, `key=value` with a single `=`, neither side blank, and a key not starting with `#` |
| Deps.ParseLineComplete | WeebCli/Deps.cs:24 | every line of that form is retained with exactly that key and value |
| Deps.ParseLineMeaning | WeebCli/Deps.cs:24 | a line yields `Entry(key, value)` iff it has that form |
| Deps.BlankAndCommentDropped | WeebCli/Deps.cs:24 | blank lines and lines starting with `#` after trimming yield nothing |
| Deps.ManyEqualsDropped | WeebCli/Deps.cs:24 | a line with two or more `=` yields nothing |
| Deps.FilterMap | WeebCli/Deps.cs:24 | the `where`/`select` chain keeps exactly the values that some line yields, and never more of them than there are lines |
| Deps.FilterMapSplit | WeebCli/Deps.cs:24 | the chain over two runs of lines is the chain over the first followed by the chain over the second |
| Deps.FilterMapOrder | WeebCli/Deps.cs:24 | each retained line's value is at the position counting the retained lines before it, so two retained lines keep their order and both appear, at different positions |
| Deps.Entries | WeebCli/Deps.cs:24 | every retained line's entry is kept, and every kept entry comes from some line; order and repeats follow `Deps.FilterMapOrder` |
| Deps.NotDistinct | WeebCli/Deps.cs:24 | two well-formed index lines declaring the same name give two entries with that key |
| Deps.DuplicateLinesFail | WeebCli/Deps.cs:24 | two well-formed index lines declaring the same name, wherever they are, make `GetPaths` fail with a repeated key |
| Deps.Resolve | WeebCli/Deps.cs:24 | the value selector; the path a name resolves to after parsing is stated by `Deps.LookupAfterParse` |
| Deps.Snoc | WeebCli/Deps.cs:24 | adding an entry keeps keys distinct iff its key is new, and adds that key |
| Deps.ToDictionary | WeebCli/Deps.cs:24 | the dictionary is built iff keys are distinct; its keys are the entries' keys and each maps to its resolved path; otherwise it fails on the first repeated key |
| Deps.GetPaths | WeebCli/Deps.cs:13-26 | no map when the index is missing; otherwise a map over exactly the retained keys, built iff no key repeats |
| Deps.GetFilename | WeebCli/Deps.cs:27-37 | the dictionary lookup, applied to what `GetPaths` returned: the null map of a missing index throws at `dict.Keys`; what it returns for names the index does or does not declare is stated by `Deps.LookupAfterParse` and `Deps.MissingName` |
| Deps.MissingIndexThrows | WeebCli/Deps.cs:18-29 | without an index file `GetPaths` returns null, and every lookup on it throws a null reference |
| Deps.LookupAfterParse | WeebCli/Deps.cs:13-37 | a name with a well-formed index line looks up to its resolved path |
| Deps.MissingName | WeebCli/Deps.cs:13-37 | a name with no well-formed index line ends the program with code -1 |
| Text.Trim | WeebCli/Deps.cs:24 | the trimmed text neither starts nor ends with white space, and is empty iff the input is all white space |
| Text.TrimBoth | WeebCli/Deps.cs:24 | trimming the start and then the end leaves text that neither starts nor ends with white space, and nothing exactly when all was white space |
| Text.TrimIdempotent | WeebCli/Deps.cs:24 | trimming twice is trimming once |
| Text.Split | WeebCli/Deps.cs:24 | one more piece than separators, no piece holds the separator, and joining the pieces gives back the input |
| Text.SplitTwo | WeebCli/Deps.cs:24 | two separator-free texts around one separator split back into exactly those two |
| Text.SplitPair | WeebCli/Deps.cs:24 | a text that splits into two pieces is those pieces around a single separator, neither holding it |
| Text.SplitLast | WeebCli/Program.cs:101 | the last piece of a split is the text after the last separator |
| Text.Replace | WeebCli/Program.cs:152 | a text without the pattern is unchanged |
| Text.ReplaceLeavesNoPair | WeebCli/Program.cs:152 | after replacing a two-character pattern by text that cannot form it, no occurrence remains |
| Text.NatToString | WeebCli/Program.cs:152 | the decimal numeral has only digits, no leading zero, and denotes the number |
| Text.IntToString | WeebCli/Downloader.cs:67 | the text starts with `-` iff the number is negative, and the rest is a non-empty run of digits denoting its magnitude |
| Text.PadLeft | WeebCli/Downloader.cs:67 | right alignment: spaces in front up to the width, and the text itself at the end |
| Text.RepeatCount | WeebCli/Downloader.cs:53-64 | a run of `n` copies of a character holds `n` of it and nothing else |
| Text.NatToStringShort | WeebCli/Downloader.cs:67 | a number below 1000 has at most three digits, so it fills the `{i,3}` field |
| Preview.PathFix | WeebCli/Program.cs:175-180 | the output has a space iff the input does, and is then quoted at both ends; a path with no space, or already quoted, is unchanged; otherwise it is the input inside two quotes |
| Preview.PathFixIdempotent | WeebCli/Program.cs:175-180 | quoting twice is quoting once |
| Preview.AfterLastDot | WeebCli/Program.cs:101 | the text after the last `.` ends the input, holds no dot, and follows a dot unless it is the whole input |
| Preview.ExtensionIsAfterLastDot | WeebCli/Program.cs:101 | `Split('.').Last()` is the text after the last dot |
| Preview.CheckInput | WeebCli/Program.cs:100-101 | a missing file gives exit code 2; an existing file with an extension outside `mkv`, `mp4`, `m4v` gives 3; an existing file with one of them proceeds; no other outcome |
| Preview.LastPieceWord | WeebCli/Program.cs:101 | a dot-free word is the last piece iff the input is that word or ends with `.` and that word |
| Preview.AcceptedNames | WeebCli/Program.cs:100-101 | an existing file passes iff its name ends with `.mkv`, `.mp4` or `.m4v`, or is exactly one of those words |
| Mosaic.RowFrom | WeebCli/Program.cs:148-150 | from column `x` of row `y`, a row draws up to `10 - x` consecutive frames from frame `i + 10y + x`, each in the next column of row `y`, stopping at the last frame |
| Mosaic.RowsFrom | WeebCli/Program.cs:147-151 | from row `y`, the rows of a page draw `min(100 - 10y, frames left)` consecutive frames, the `k`-th in the grid cell numbered `10y + k` row by row, every column below 10 |
| Mosaic.FileName | WeebCli/Program.cs:152 | no `%n` remains in a page's name, and a template without `%n` is used unchanged |
| Mosaic.PagesFrom | WeebCli/Program.cs:143 | one page per 100 frames, rounding up, page `p` starting at frame `100p` |
| Mosaic.WriteOutput | WeebCli/Program.cs:139-155 | an empty list fails at `images[0]`; otherwise `ceil(n / 100)` pages, each starting at `100p`, with a canvas ten times the first frame's size in each direction |
| Mosaic.PageIsMade | WeebCli/Program.cs:143-151 | page `p` is the page laid out from frame `100 * p`, which exists |
| Mosaic.PageLayout | WeebCli/Program.cs:143-151 | a page starts at an existing frame and draws `min(100, n - start)` consecutive frames from it, numbered row by row |
| Mosaic.PageCells | WeebCli/Program.cs:143-151 | page `p` draws frames `start .. start + min(100, n - start) - 1`, frame `start + j` in column `j % 10`, row `j / 10` |
| Mosaic.CoverOnce | WeebCli/Program.cs:143-151 | pages of consecutive cells from `100p` cover each frame index below `n` at page `k / 100`, cell `k % 100`, and nothing past `n` |
| Mosaic.PageIndices | WeebCli/Program.cs:143-151 | one page per 100 frames, rounding up; page `p` draws `min(100, n - 100p)` frames, the frame in cell `j` being frame `100p + j` |
| Mosaic.EveryFrameDrawn | WeebCli/Program.cs:143-151 | every frame `k` is drawn, on page `k / 100` in cell `k % 100` |
| Mosaic.DrawnOnce | WeebCli/Program.cs:143-151 | cell `j` of page `p` shows frame `100p + j`, an existing frame, so no frame is drawn twice |
| Mosaic.CellInside | WeebCli/Program.cs:145-150 | a cell in a column and row below 10, drawn at `(col * w, row * h)`, ends inside a canvas of ten cells each way |
| Mosaic.CellsFit | WeebCli/Program.cs:145-150 | every drawn frame's box, at its cell's corner and of the first frame's size, lies inside its page's canvas |
| Mosaic.PageNames | WeebCli/Program.cs:152 | page `p` is saved under the template with `%n` replaced by `100p` in decimal; no `%n` survives |
| Progress.TruncDiv | WeebCli/Downloader.cs:53 | C#'s integer division; its meaning is stated by `Progress.TruncDivMeaning` |
| Progress.TruncDivMeaning | WeebCli/Downloader.cs:53 | the quotient's magnitude is the number of whole divisors in the dividend's magnitude, and a non-zero quotient has the dividend's sign |
| Progress.TruncRem | WeebCli/Downloader.cs:58 | C#'s remainder: it rebuilds the dividend with the quotient, and takes the dividend's sign |
| Progress.Bar | WeebCli/Downloader.cs:51-66 | the bar cell by cell; its runs of blocks and spaces are stated by `Progress.BarPieces` and `Progress.BarLayout` |
| Progress.ProgressBar | WeebCli/Downloader.cs:47-68 | the `StringBuilder` loops build exactly the cell-by-cell bar, followed by the right-aligned percentage and the counts |
| Progress.BarPieces | WeebCli/Downloader.cs:51-66 | for 0 to 100 percent: a bracket, `i / 5` full blocks, a half block iff `i / 5 != 20` and `i % 5 > 2`, spaces up to twenty cells, a bracket |
| Progress.BarLayout | WeebCli/Downloader.cs:51-66 | for 0 to 100 percent the bar is 22 characters, with `i / 5` full blocks, at most one half block, and spaces for the rest |
| Progress.ProgressLayout | WeebCli/Downloader.cs:67 | for 0 to 100 percent the line is the bar, a space, the percentage right-aligned in 3 columns, and `%` in column 26 |

## Left out

- Process launching, the transcoder's arguments, and `ReadStdOut`: the piped bytes are the parameter `rb`.
- `FList<byte>` is not part of this model. Its `array` is taken to hold exactly the bytes read.
- File-system probes (`File.Exists`) are boolean parameters. The index file's lines are a parameter, and `Path.Combine` is the parameter `combine`.
- Console output (the frame counter, error messages, "Wrote map") is left out. So is `Console.CursorLeft`.
- The PNG decoder is the parameter `decode`, a function to `Result<Image>`. Its failure stands for the exception `Image.Load` throws.
- Drawing, the JPEG encoder and its `Quality` setting are left out: a page records its canvas size, its cells and its file name.
- `Main`, the command-line parser, `DashGen`, `PrintAndExit`, `FfmpegName` and `AppRoot` are outside the modelled core.
- `Downloader.DownloadFile` and its polling loop are left out (network and threads). So is `JsonToFfmpeg`.
- Progress.ProgressBar: takes the percentage `i` as a parameter. The `double` computation of line 49 is floating point and is not modelled.
- Progress.ProgressLayout: states the layout for 0 to 100 percent only. A negative `i` or one above 100 gives a different length, which `Bar` still describes.
- PngParser.Scan: cursors are unbounded naturals. The 32-bit `uint` wrap of `i` and `chunkSize` is modelled only by `PngFacts.ChunkSize32`, `PngFacts.NextCursor32` and `PngFacts.ChunkSizeWraps`.
- Mosaic.WriteOutput: `w * 10` and `h * 10` are unbounded, with no 32-bit `int` overflow. The loop index `i` is also unbounded.
- PngParser.FramesMeaning: when the scan as written fails, it states only that `ParseFrames` fails. Which failure surfaces first, a rejection of an earlier frame by the decoder or the out-of-range read, is defined by `PngParser.Decoded` but not stated as a separate property.
- Bytes.BytesToUint: `offset` is an unbounded integer, so the 32-bit overflow of `offset + 4` near `int.MaxValue` is not modelled.
- Text.IntToString: fixes the invariant culture's minus sign. Culture-dependent number formatting is not modelled.
- Text.Trim: does not state that the result is a slice of the input. `TrimStart` and `TrimEnd` each state their own half of that.
- Text.Replace: only its no-occurrence case and the two-character no-pair property are stated. The pieces between occurrences are not given as an ensures.

## Findings

| source | as written | input that shows it | evidently intended | confidence | as-written member | corrected member |
|---|---|---|---|---|---|---|
| WeebCli/PngParser.cs:30 | the signature test reads `rb[i..i+7]` even when fewer than 8 bytes remain, so it throws when the buffer ends with a proper prefix of the signature | `rb = [0x89]` | a tail too short for a signature holds none; the scan ends normally | medium, not executed; assumes `FList.array` holds exactly the bytes read | PngFacts.SignaturePrefixThrows | PngFacts.ScanIsWellSplit |
| WeebCli/PngParser.cs:38-42 | the inner loop checks only `i < rb.Length`, then reads `rb[i+1..i+3]`, so a frame cut inside a length field throws and discards the frames already found | `Signature + [0,0,0,0,'I','E','N','D',0xAE,0x42,0x60,0x82] + Signature + [0]` | the unfinished last frame is dropped; the complete first frame is returned | medium, not executed; assumes `FList.array` holds exactly the bytes read | PngFacts.TruncatedFrameThrows | PngFacts.ScanComplete |
| WeebCli/PngParser.cs:40-52 | `chunkSize` is a `uint`, so `12 + length` wraps; a declared length of `0xFFFFFFF4` gives 0, and `i += chunkSize` never advances | a chunk whose length field is `FF FF FF F4`, after a signature | a chunk always advances the cursor by at least 12 bytes | high, not executed | PngFacts.ChunkSizeWraps | PngFacts.ChainAdvances |
