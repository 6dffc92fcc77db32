# wenku8_packer in Dafny

A model of the core of `wenku8_packer`, a tool that turns a plain-text light
novel and its numbered illustrations into an EPUB book. The model covers
three parts of the repository:

- **The text-to-EPUB compiler** (`create_epub` in `maker.py`).
  - The text is read line by line. A line `第…卷` opens a chapter. A line holding `插圖<n>` places image `n`, and first backfills images `1..n-1` into a backlog that becomes the preface chapter `chap0`. Any other line becomes a paragraph.
  - After the loop, three things happen in order: a trailing fill adds images from `pic_count + 1` upward, the last chapter is sealed, and the preface chapter is inserted.
  - `MakerModel` states this as a pure state machine: `StepLine`, `RunLines`, `Finalize` and `Compile`.
  - `Maker.EpubMaker` is the same program written imperatively. It is a class whose fields are the variables that `create_epub` and its `add_image` closure update in place, with one method per step. Every method is proved to perform the matching transition of `MakerModel`. `Maker.CreateEpub` is proved equal to `MakerModel.Compile`.
  - `MakerProofs` proves what the book looks like:
    - the image manifest is consistent;
    - the chapter and spine tables follow the chapter-marker lines;
    - the preface holds one picture per backlog entry whose file exists, skipping the rest, in backlog order;
    - each chapter holds its marker's heading and the blocks of the lines up to the next marker;
    - where the trailing fill goes and what it adds;
    - text before the first marker is dropped.
- **The downloader** (`download_pictures` in `getpics.py`).
  - Pictures `start_num, start_num+1, …` are fetched from `base_url`. Each success is saved as `1.ext`, `2.ext`, …. The loop stops after `max_fail` consecutive failures.
  - `GetPics.DownloadPictures` is the loop. It is proved equal to the recursive specification `GetPics.Download`.
  - `GetPics.DownloadTrace` describes the outcome in terms of the attempts: where the loop stops, and which files it wrote.
- **The console front end** (`interface.py`), with every `input()` replaced by a string parameter. Three pieces are modelled:
  - the URL parsing of `get_pic_url_info`;
  - the file selection of `main`: choice `2`, comma-separated indices, `int()` on each token, and out-of-range indices skipped;
  - the `.epub` output name of `process_txt_file`.

The Python built-ins these parts rely on are modelled in `Text`: `str.strip` with Python's whitespace set, `rsplit`, `split`, `int`, `str`, `re.sub(r"\D", "", …)` and ASCII `lower`.

The picture directory is a set of `(number, extension)` pairs. The web server is a finite map from URL to response; a URL that is not in the map is a request that raised.

### Behaviour of the code worth noting

- **Backlog** (`maker.py:110-112`). A marker `插圖n` with `n > 1` appends every number `1..n-1` to `pre_pics`, whether it was used before or not and whether its file exists or not. The same number can therefore enter the backlog more than once.
  - `chap0` shows one picture per backlog entry whose file exists, skipping the rest, in backlog order, repeats included, also for numbers already placed in a chapter (`maker.py:159-162`); see `MakerProofs.PrefacePicturesAppend`, `MakerProofs.PrefacePicturesOne` and `MakerProofs.CompilePreface`.
- **Text before the first chapter marker** (`maker.py:89-103`). A chapter is sealed only `if current_title`, and a marker resets `current_html` to its own heading, so paragraphs and pictures read before the first marker end up in no chapter; see `MakerProofs.LeadingTextDropped`. A text with no chapter marker produces no chapter other than the preface `chap0`, which it still gets when an image marker `插圖n` with `n > 1` fills the backlog; see `MakerExamples.ImageOnlyText`.
- **Trailing fill** (`maker.py:124-143`). The block under the source's own heading `最後一章` ("last chapter") takes `chapters[-1]`, but at that point the open chapter has not been sealed yet (that happens at `maker.py:145-154`). So the rules and pictures land in the chapter of the second-to-last marker, and nothing is filled when there are fewer than two chapter markers, because `chapters` is then empty; see `MakerProofs.TrailingFillEffect`, `MakerContents.CompileContents` and `MakerExamples.TwoVolumesExample`.
- **The cover image** (`maker.py:72-76`, `129`, `110-111`). The cover probe (the call `add_image(1)` there is commented out) does not add image 1 to the manifest. Image 1 still enters it whenever the fill starts at `pic_count + 1 == 1`, or whenever a marker `插圖n` with `n > 1` backfills it.
- **`插圖0`** (`maker.py:107-113`). It adds image 0, and `0.png`, `0.jpg` or `0.jpeg` if present.

## Model

| member | source | states |
|---|---|---|
| Text.Strip | interface.py:51 | the result is the input minus a leading and a trailing run of whitespace, and has no whitespace at either end |
| Text.StripNoSpace | maker.py:81 | a line with no whitespace at either end is its own `strip()` |
| Text.DigitsOf | maker.py:107 | `re.sub(r"\D", "", line)` keeps only digits, and keeps at least one when the line has one |
| Text.DigitsOfChar | maker.py:107 | one character is kept exactly when it is a digit |
| Text.DigitsOfAppend | maker.py:107 | the digits of `a + b` are the digits of `a` followed by those of `b`: every digit of the line is kept, in order |
| Text.Range | maker.py:110 | `range(lo, hi)` has `hi - lo` elements |
| Text.RangeAt | maker.py:110 | `range(lo, hi)` lists `lo, lo+1, …` |
| Text.RangeSnoc | maker.py:110 | `range(lo, hi + 1)` is `range(lo, hi)` followed by `hi` |
| Text.NatToString | getpics.py:40 | `str(n)` is a non-empty run of digits with no leading zero |
| Text.DecimalOfNatToString | getpics.py:40 | reading back `str(n)` gives `n` |
| Text.NatToStringInjective | getpics.py:40 | different numbers print differently |
| Text.LastIndex | interface.py:63 | the cut of `rsplit(c, 1)`: `None` exactly when `c` is absent, else a `c` with no `c` after it |
| Text.LastIndexOfSplit | interface.py:71 | for `a + c + b` with no `c` in `b`, the cut is right after `a` |
| Text.Split | interface.py:179 | `split(',')` gives pieces without `,` that join back to the input |
| Text.SplitJoin | interface.py:179 | splitting the join of comma-free pieces gives the pieces back |
| Text.Lower | interface.py:83 | `lower()` maps each character by ASCII case folding, keeping the length |
| Text.LowerIdempotent | interface.py:83 | lowering twice is lowering once |
| MakerModel.FindImage | maker.py:39-45 | a found extension names an existing file |
| MakerModel.FindImageFirst | maker.py:39-45 | whenever some `num.ext` exists, `find_image` finds one, and never one later in the order png, jpg, jpeg |
| MakerModel.IsVolumeMarker | maker.py:87-89 | true exactly when the line is `第`, one or more of the fourteen numerals, then `卷` |
| MakerModel.HasImageMarker | maker.py:86 | true exactly when the line holds `插圖`, optional whitespace and a digit |
| MakerModel.Classify | maker.py:81-122 | the kinds are mutually exclusive and in the code's priority order (blank, chapter marker, image marker, text), and an image marker's number is all the digits of the line |
| MakerModel.AddImage | maker.py:47-66 | a number is added only if not used and found; it then gets one manifest item with the extension found, and the count goes up by one |
| MakerModel.AddImageKeepsManifest | maker.py:47-66 | `add_image` preserves the consistency of `used_pics`, `pic_count` and the manifest, and is a no-op on a used number |
| MakerModel.Backfill | maker.py:109-112 | the backlog grows by `1..n-1`, exactly the found numbers of that range become used, and the chapters are untouched |
| MakerModel.FilesFromShrinks | maker.py:131-143 | each found image leaves fewer files above the counter, so the trailing fill ends |
| MakerModel.PrefacePictures | maker.py:157-162 | `chap0` holds only pictures of backlog numbers with the extension `find_image` picks, one per entry when all are found; the general case is `MakerProofs.PrefacePicturesAppend` with `MakerProofs.PrefacePicturesOne` |
| MakerModel.BaseName | maker.py:20 | `basename` has no `/` |
| MakerProofs.BaseNameOfPath | maker.py:20 | the basename of `dir/name` is `name` |
| MakerProofs.BaseNameOfName | maker.py:20 | a name without `/` is its own basename |
| MakerProofs.StemOfName | maker.py:20 | `splitext` drops the last `.ext`, unless only dots precede it |
| MakerProofs.StemOfNoDot | maker.py:20 | a name without `.` is its own stem |
| MakerProofs.RunLinesAppend | maker.py:80 | running two blocks of lines in turn is running them together |
| MakerProofs.BackfillKeepsManifest | maker.py:109-112 | the backfill keeps the manifest consistent |
| MakerProofs.StepKeepsManifest | maker.py:81-122 | one classified line keeps the manifest consistent |
| MakerProofs.StepLineKeepsManifest | maker.py:80-122 | one raw line keeps the manifest consistent |
| MakerProofs.RunLinesKeepsManifest | maker.py:79-122 | the whole line loop keeps the manifest consistent |
| MakerProofs.FillKeepsManifest | maker.py:131-143 | the trailing fill keeps the manifest consistent |
| MakerProofs.RunKeepsManifest | maker.py:47-173 | after a run, `pic_count == len(used_pics)`, each image is added once, with the file `find_image` chose |
| MakerProofs.CompileManifest | maker.py:63-66 | the book's images are distinct, each with the extension `find_image` picks, and `pic_count` counts them |
| MakerProofs.PlaceImageEffect | maker.py:106-118 | an image marker for `n` appends `1..n-1` to the backlog, uses every found number of `1..n`, and shows `n` in the open chapter iff its file exists, used before or not |
| MakerProofs.StepShape | maker.py:89-103 | a chapter marker seals the open chapter as `chap{k}` and opens the next; other lines keep the chapter structure |
| MakerProofs.StepLineShape | maker.py:80-122 | the same for one raw line |
| MakerProofs.RunLinesShape | maker.py:80-122 | after the loop, the sealed chapters are the markers but the last, in order, numbered from 1, with matching spine entries, and the last marker is open |
| MakerProofs.StepBacklog | maker.py:109-112 | only an image marker for `n` extends `pre_pics`, by `1..n-1` |
| MakerProofs.RunLinesBacklog | maker.py:109-112 | `pre_pics` after the loop is the concatenated backlogs of the image markers, in input order |
| MakerProofs.FirstMissing | maker.py:131-134 | the fill stops at the first number from its start with no file |
| MakerProofs.FillBlocksLocal | maker.py:136 | what the fill appends depends only on which numbers of its range are used |
| MakerProofs.FillOneEffect | maker.py:132-143 | one fill round uses the number and appends `<hr/>` and its picture to the last sealed chapter if it was unused, changing nothing else |
| MakerProofs.FillKeepsFrame | maker.py:126-143 | the fill changes only the manifest and the content of the last sealed chapter |
| MakerProofs.FillUsed | maker.py:129-143 | the fill uses exactly the found numbers from its start up to the first missing one |
| MakerProofs.FillContent | maker.py:136-141 | the last sealed chapter gets a rule and a picture for each run number not used before, in ascending order |
| MakerProofs.RunLinesFromStart | maker.py:28-122 | from the initial state, the loop leaves the chapters shaped by the marker lines and `pre_pics` equal to the backlog |
| MakerProofs.FillKeepsShape | maker.py:126-143 | the fill keeps the chapter structure |
| MakerProofs.SealShape | maker.py:145-154 | sealing the open chapter makes every marker's chapter sealed |
| MakerProofs.PrefaceTables | maker.py:157-173 | with the preface present exactly when the backlog is non-empty, the tables are `chap0` then `chap1..chapN`, and the spine is `nav` then the chapters in order |
| MakerProofs.NoPrefaceTables | maker.py:157 | with an empty backlog the tables stay as sealed |
| MakerProofs.WithPrefaceTables | maker.py:157-173 | with a backlog, `chap0` comes first and is inserted after `nav` |
| MakerProofs.WithPrefaceChapters | maker.py:172 | `chapters.insert(0, chap0)` shifts the chapters by one |
| MakerProofs.WithPrefaceSpine | maker.py:173 | `spine.insert(1, chap0)` keeps the spine aligned with the chapters |
| MakerProofs.FinalizeTables | maker.py:126-173 | everything after the loop yields those tables |
| MakerProofs.CompileChapters | maker.py:176-177 | the book's toc and spine follow the chapter-marker lines and the backlog of the text |
| MakerProofs.PrefacePicturesAppend | maker.py:159-162 | the pictures for a backlog `a + b` are those for `a` followed by those for `b` |
| MakerProofs.PrefacePicturesOne | maker.py:159-162 | one backlog entry gives its picture, with `find_image`'s extension, when its file exists, and nothing otherwise |
| MakerProofs.CompilePreface | maker.py:157-173 | with a non-empty backlog, the book's first chapter is `chap0`: the preface heading, then the pictures of the text's backlog |
| MakerProofs.PrefaceShift | maker.py:172-173 | the preface shifts the other chapters by one and leaves the manifest alone |
| MakerProofs.TrailingFillEffect | maker.py:126-143 | the fill goes into the second-to-last marker's chapter, with what `FillBlocks` lists, and does nothing with fewer than two markers |
| MakerProofs.FinalizeLastChapter | maker.py:145-154 | the last chapter is the markup left open, under the last marker's title and number |
| MakerProofs.FinalizeFill | maker.py:126-173 | the fill's outcome survives sealing and the preface |
| MakerProofs.RunTrailingFill | maker.py:126-143 | the trailing fill of a whole run, in terms of the text's markers and backlog |
| MakerProofs.BackfillIgnoresHtml | maker.py:109-112 | the backfill does not look at the open markup |
| MakerProofs.StepAgree | maker.py:81-122 | a line treats two states that differ only in unopened markup alike |
| MakerProofs.RunLinesAgree | maker.py:80-122 | the same for a block of lines |
| MakerProofs.FillIgnoresHtml | maker.py:131-143 | the fill does not look at the open markup |
| MakerProofs.PlainLinesOnlyHtml | maker.py:121-122 | text lines before any marker change only the unopened markup |
| MakerProofs.FinalizeAgree | maker.py:126-173 | the end of `create_epub` ignores unopened markup |
| MakerProofs.LeadingTextDropped | maker.py:101-103 | text lines before the first marker do not change the book |
| MakerContents.StepHtml | maker.py:106-122 | a line that is not a chapter marker appends its paragraph, or its picture when the file exists, to the open chapter and leaves the sealed chapters, title and count alone |
| MakerContents.RunLinesHtml | maker.py:80-122 | lines without a chapter marker append exactly the blocks of their lines, in order, to the open chapter and seal nothing |
| MakerContents.PartStep | maker.py:89-122 | a chapter marker followed by its lines seals the open chapter and leaves open one whose content is the marker's heading followed by the blocks of those lines |
| MakerContents.RunParts | maker.py:80-122 | over a text split at its chapter markers, every part but the last becomes a sealed chapter holding its heading and blocks, in order, and the last part stays open |
| MakerContents.TextContents | maker.py:80-122 | for a whole text whose lines before the first marker carry no marker, the sealed chapters' contents are the bodies of all parts but the last, in order, and the open chapter is the last part's body |
| MakerContents.LoopContents | maker.py:89-103 | the same chapter by chapter: sealed chapter `i` holds the heading of marker `i` and the blocks of the lines up to marker `i + 1` |
| MakerContents.FinalizeKeepsEarly | maker.py:124-173 | the chapters before the second-to-last keep their place, shifted by `chap0` when there is a backlog, and their content |
| MakerContents.FinalizeFillChapter | maker.py:124-143 | the second-to-last chapter ends with the trailing fill's rules and pictures |
| MakerContents.FinalizeOpenChapter | maker.py:145-154 | the last chapter is the markup left open by the loop |
| MakerContents.FinalizeChapters | maker.py:124-173 | the finished chapters are the parts' bodies after `chap0`, with the fill after the second-to-last |
| MakerContents.CompileContents | maker.py:78-177 | the book's table of contents for a text split at its chapter markers: after `chap0` when there is a backlog, chapter `i` holds the heading of marker `i` and the blocks of its lines, and the second-to-last is followed by the trailing fill |
| Maker.EpubMaker.constructor | maker.py:28-36 | the fields start as `create_epub` initialises them |
| Maker.EpubMaker.AddImage | maker.py:47-66 | the fields change as `MakerModel.AddImage` says |
| Maker.EpubMaker.ProbeCover | maker.py:72-76 | the cover is `find_image(1)` and nothing else changes |
| Maker.EpubMaker.SealChapter | maker.py:90-99 | the open chapter, if any, is appended to chapters and spine |
| Maker.EpubMaker.ProcessLine | maker.py:80-122 | one loop iteration performs `MakerModel.StepLine` |
| Maker.EpubMaker.OpenVolume | maker.py:89-103 | a chapter marker seals and opens as `MakerModel.OpenVolume` |
| Maker.EpubMaker.PlaceImage | maker.py:106-118 | the backfill loop, `add_image(num)` and the `<img>` perform `MakerModel.PlaceImage` |
| Maker.EpubMaker.FillTrailing | maker.py:129-143 | the `while True` loop performs `MakerModel.Fill` from `pic_count + 1` |
| Maker.EpubMaker.InsertPreface | maker.py:157-173 | the `for n in pre_pics` loop and the two inserts perform `MakerModel.AddPreface` |
| Maker.EpubMaker.Finish | maker.py:124-173 | everything after the loop performs `MakerModel.Finalize` |
| Maker.CreateEpub | maker.py:6-188 | the whole function returns `MakerModel.Compile` of its inputs |
| MakerExamples.VolumeLineExample | maker.py:87-89 | `第一卷 序` is a chapter marker |
| MakerExamples.ImageLineExample | maker.py:86-107 | `插圖3` is an image marker for 3 |
| MakerExamples.DigitsExample | maker.py:86-107 | `插圖1-2` is an image marker for 12 |
| MakerExamples.DigitsOfExample | maker.py:107 | the digits of `插圖1-2` are `12` |
| MakerExamples.PrefaceSkipsMissing | maker.py:159-162 | for the backlog 2, 1 with only image 1 on disk, `chap0` shows image 1 alone |
| MakerExamples.ImageOnlyText | maker.py:157-177 | a text whose only marker is `插圖3` gets `chap0` and no other chapter |
| MakerExamples.TextLineExample | maker.py:121-122 | `hello` is text |
| MakerExamples.PlaceThreeExample | maker.py:106-118 | `插圖3` with images 1 to 3 backlogs 1 and 2 and shows 3 |
| MakerExamples.LoopExample | maker.py:80-122 | the loop over `第一卷 序`, `插圖3`, `hello` |
| MakerExamples.FinalizeExample | maker.py:145-173 | that run ends with the preface holding 1 and 2, then the chapter |
| MakerExamples.EndToEnd | maker.py:6-188 | the book for that text: preface with images 1 and 2, chapter with heading, image 3 and the paragraph, three images once each |
| MakerExamples.PlainText | maker.py:121-122 | a line with no `第` in front and no `插` is text |
| MakerExamples.ShortVolume | maker.py:87 | `第`, one numeral, `卷` is a chapter marker |
| MakerExamples.TwoVolumesLoop | maker.py:80-122 | the loop over two chapters seals the first |
| MakerExamples.TwoVolumesFill | maker.py:126-154 | the fill goes into the first of two chapters |
| MakerExamples.TwoVolumesExample | maker.py:6-188 | the book for two chapters with images 1 and 2 and no marker: both images in the first chapter, and both counted |
| GetPics.Limit | getpics.py:59-61 | the loop stops after `max_fail` consecutive failures, and after the first one when `max_fail <= 1` |
| GetPics.UrlInjective | getpics.py:40 | different numbers fetch different URLs |
| GetPics.OkFromMonotone | getpics.py:54 | moving to the next number never adds a successful URL ahead |
| GetPics.OkFromDrops | getpics.py:52-54 | a success leaves one successful URL fewer ahead, so the loop ends |
| GetPics.LoopSucceeds | getpics.py:45-54 | unfolding step: a success saves the body under the next output number and resets the failure count |
| GetPics.LoopFails | getpics.py:57-62 | unfolding step: a failure short of the limit counts one more and moves on |
| GetPics.LoopStops | getpics.py:59-62 | unfolding step: the failure that reaches the limit ends the loop |
| GetPics.DownloadPictures | getpics.py:35-65 | the loop returns the number saved and writes the files `Download` lists |
| GetPics.SuccessesSound | getpics.py:45-46 | the listed numbers are successful attempts in the range |
| GetPics.SuccessesAscending | getpics.py:54 | in ascending order |
| GetPics.SuccessesComplete | getpics.py:45-46 | with no successful attempt left out |
| GetPics.Files | getpics.py:41-52 | the `i`-th success is written as `i.ext` with the fetched bytes |
| GetPics.SuccessesOk | getpics.py:52-54 | unfolding step: a success adds its number |
| GetPics.SuccessesFail | getpics.py:57-60 | unfolding step: a failure adds nothing |
| GetPics.FilesStep | getpics.py:41-52 | unfolding step: a success appends one file named by the count so far |
| GetPics.InvAfterOk | getpics.py:45-54 | a success keeps the run invariant |
| GetPics.InvAfterFail | getpics.py:57-62 | a failure short of the limit keeps it |
| GetPics.InvStops | getpics.py:61-62 | the stopping failure leaves the outcome the trace describes |
| GetPics.LoopTrace | getpics.py:39-62 | from any state satisfying the invariant, the loop ends in that outcome |
| GetPics.DownloadTrace | getpics.py:35-65 | the run stops right after its first window of `Limit(max_fail)` failures, and the files are the successes before it, in order, named `1.ext, 2.ext, …` |
| GetPics.SuccessesAllOk | getpics.py:45-54 | all-successful attempts are all listed |
| GetPics.SuccessesNoneOk | getpics.py:57-60 | failed attempts add none |
| GetPics.DownloadRunStops | getpics.py:59-62 | `n` pictures then `Limit(max_fail)` gaps: the run stops right after the gaps |
| GetPics.DownloadRunSaves | getpics.py:41-54 | and saves exactly those `n` pictures, as `1.ext` to `n.ext` |
| Interface.FirstDigit | interface.py:75 | the first digit of the name, `None` iff there is none |
| Interface.RunEnd | interface.py:75 | the end of the maximal digit run `\d+` |
| Interface.StartNumberNone | interface.py:75-78 | a name without digits gives no start number |
| Interface.StartNumberOfParts | interface.py:75-80 | the start number is the value of the first digit run |
| Interface.NormalizeExt | interface.py:83-86 | the result is `jpg`, `png` or `jpeg`, and is the lowered extension whenever that is supported |
| Interface.NormalizeExtIgnoresCase | interface.py:83 | case does not matter |
| Interface.ParseUrl | interface.py:51-97 | a parse result always has a supported extension |
| Interface.ParseFileName | interface.py:67-97 | a result keeps the base URL, and the file name had a `.` |
| Interface.ParseUrlRefuses | interface.py:51-61 | an empty URL and a URL without `/` are refused |
| Interface.ParseUrlBase | interface.py:63 | the base URL is a prefix of the stripped URL that ends in `/` |
| Interface.ParseUrlFileName | interface.py:63-69 | what follows the base has no `/` and has a `.` |
| Interface.ParseUrlNoExtension | interface.py:67-69 | a file name without `.` is refused |
| Interface.ParseUrlOfParts | interface.py:59-97 | for `a/name.ext` the result is base `a/`, number from `name`, extension from `ext` |
| Interface.ParseUrlOfFile | interface.py:63-64 | the cut at the last `/` |
| Interface.ParseFileNameOfParts | interface.py:71-86 | the cut at the last `.` |
| Interface.ParseInt | interface.py:179 | `int()` gives `None` on the empty token, a non-positive value with `-` and a non-negative value otherwise |
| Interface.ParseIntOfString | interface.py:179 | `int(str(n)) == n` |
| Interface.ParseIntOfNegative | interface.py:179 | `int("-" + str(n)) == -n` |
| Interface.ParseIntOfPositive | interface.py:179 | `int("+" + str(n)) == n` |
| Interface.ParseIntRefuses | interface.py:179-187 | a token with a character other than a digit, sign or `_` raises `ValueError` |
| Interface.Parsed | interface.py:179 | one outcome per token |
| Interface.CollectValues | interface.py:179 | a successful comprehension has one value per token, each that token's value |
| Interface.CollectStep | interface.py:179 | a parsed token adds its value |
| Interface.CollectRejects | interface.py:179-187 | one bad token makes the whole comprehension fail |
| Interface.CollectAll | interface.py:179 | tokens that all parse give exactly their values |
| Interface.CollectFails | interface.py:185-187 | a failed comprehension has a bad token |
| Interface.PickSnoc | interface.py:180-184 | unfolding step: one more index adds what that index picks |
| Interface.PickStepIn | interface.py:181-182 | unfolding step: an in-range index appends `txt_files[idx - 1]` |
| Interface.PickStepOut | interface.py:183-184 | unfolding step: an out-of-range index appends nothing |
| Interface.PickAppend | interface.py:180-184 | picking for two index lists in turn is picking for both |
| Interface.PickInRange | interface.py:180-182 | with all indices in range, one file per index, repeats kept |
| Interface.PickOutOfRange | interface.py:183-184 | all indices out of range pick nothing |
| Interface.Selection | interface.py:171-189 | any choice but `2` keeps all files; the result is `None` iff the choice is `2` and some token is not an integer |
| Interface.SelectionPicks | interface.py:175-184 | for `2` with all tokens integers, the picks for those integers, in order |
| Interface.SelectFiles | interface.py:171-189 | the selection code computes `Selection` |
| Interface.ParseTokens | interface.py:179 | the comprehension loop computes `ParseAll` |
| Interface.PickFiles | interface.py:180-184 | the append loop computes `Pick` |
| Interface.OutputName | interface.py:138 | the name ends in `.epub` after a prefix of the text file's name |
| Interface.OutputNameOfParts | interface.py:138 | `stem.ext` becomes `stem.epub` |
| Interface.OutputNameNoDot | interface.py:138 | a name without `.` gets `.epub` appended |
| InterfaceExamples.DecimalExample | interface.py:80 | `185077` reads as 185077 |
| InterfaceExamples.NumberedUrl | interface.py:51-97 | `<dir>/185077.jpg` parses to base `<dir>/`, number 185077, extension `jpg` |
| InterfaceExamples.TokensExample | interface.py:177-179 | `3,1,9` splits into `3`, `1`, `9` |
| InterfaceExamples.PickExample | interface.py:180-184 | indices 3, 1, 9 over three files pick the third and the first |
| InterfaceExamples.SelectionExample | interface.py:171-189 | choice `2` with `3,1,9` over three files selects the third and the first |

## Left out

- Packaging with `ebooklib`: the identifier, the language, the author, the nav and ncx items and `write_epub` (`maker.py:22-26`, `178-182`). The book is the value `MakerModel.Book`, and chapter markup is a list of typed blocks rather than HTML text.
- File I/O. The text file is given as its list of lines, with the newline that `strip()` removes. The picture directory is a set of file names, and image bytes are not read. `os.path.join` and `out_dir` are not modelled.
- The `try`/`except` in `create_epub` and its `True`/`False` result (`maker.py:78`, `190-194`). Reading and writing are not modelled. The one exception that could still come from the modelled code is `int()` refusing an image-marker line with more than 4300 digits (`maker.py:107`), which would make `create_epub` return `False`; the model reads any number of digits, as noted under Unicode digits below.
- `print`, `input()` and the console messages. Inputs are parameters.
- HTTP. The session and headers, timeouts and `time.sleep` are replaced by a finite map from URL to response, and a request that raises is a URL missing from the map. A finite map rules out a server that answers every URL with a success; on such a server the `while True` loop of `download_pictures` (`getpics.py:39`) never ends. The termination of `GetPics.Loop` rests on the map being finite (`GetPics.OkFromDrops`).
- GetPics.DownloadPictures: a failed file write is not modelled. It would count as one more failure, because it is inside the same `try` (`getpics.py:48-49`, `57`).
- Unicode digits. Python's `\d` and `int()` accept every Unicode decimal digit; the model accepts ASCII `0-9` only. `lower()` is modelled on ASCII letters only. Python's 4300-digit limit on `int()` is not modelled.
- The rest of `interface.py`, which is I/O: `find_txt_files`, `clean_pics_dir`, the loop over the files to process, and `process_txt_file` apart from the output name. This includes the "no files to process" message (`interface.py:191-193`).
- `changett.py`.
- MakerModel.BaseName: `os.path.basename` is modelled as on POSIX, splitting at `/` only; on Windows (`ntpath`) it also splits at `\` and after a drive letter `C:`. Interface.OutputName uses `str.rsplit` on the whole path, as the code does, so it is not affected.
- InterfaceExamples.NumberedUrl: the example URL of the prompt in `get_pic_url_info` is stated for any directory before `185077.jpg`, not for the one host path that the prompt shows.
