/**
  The text-to-EPUB compiler of `create_epub` (maker.py) as a pure state machine.

  The book under construction is a `State`: the image manifest (`used`,
  `picCount`, `items`), the preface backlog `prePics`, the open chapter
  (`title`, `html`), the sealed chapters with their spine entries and the
  chapter counter.  One input line is one `StepLine`; `Finalize` is the
  trailing-image fill, the sealing of the last chapter and the insertion of
  the preface chapter `chap0`.  HTML is kept as typed blocks.
*/
module MakerModel {
  import opened Wrappers
  import opened Text
  import SetFacts

  // ---------------------------------------------------------------- images

  /** The image formats probed, in probing order. */
  datatype Ext = Png | Jpg | Jpeg

  /** Position of an extension in the probe order png, jpg, jpeg. */
  function Rank(e: Ext): nat {
    match e
    case Png => 0
    case Jpg => 1
    case Jpeg => 2
  }

  function ExtName(e: Ext): string {
    match e
    case Png => "png"
    case Jpg => "jpg"
    case Jpeg => "jpeg"
  }

  /** The picture directory: which files `{num}.{ext}` exist. */
  type Files = set<(nat, Ext)>

  /** `find_image`: the first of `num.png`, `num.jpg`, `num.jpeg` that exists. */
  function FindImage(files: Files, num: nat): (r: Option<Ext>)
    ensures r.Some? ==> (num, r.value) in files
  {
    if (num, Png) in files then Some(Png)
    else if (num, Jpg) in files then Some(Jpg)
    else if (num, Jpeg) in files then Some(Jpeg)
    else None
  }

  /** `find_image` finds a file whenever one exists, and never one later in the probe order than another that exists. */
  lemma FindImageFirst(files: Files, num: nat, e: Ext)
    requires (num, e) in files
    ensures FindImage(files, num).Some? && Rank(FindImage(files, num).value) <= Rank(e)
  {
    match e
    case Png =>
    case Jpg =>
    case Jpeg =>
  }

  predicate Found(files: Files, num: nat) {
    FindImage(files, num).Some?
  }

  // ------------------------------------------------------- book contents

  /** One piece of chapter markup: `<h1>`, `<p>`, `<img src="images/n.ext"/><br/>`, `<hr/>`. */
  datatype Block = Heading(text: string) | Paragraph(text: string) | Picture(num: nat, ext: Ext) | Rule

  /** An `EpubHtml` document: its title, `n` of its file name `chap{n}.xhtml`, and its markup. */
  datatype Chapter = Chapter(title: string, fileIndex: nat, content: seq<Block>)

  /** An `EpubImage` added to the book: uid `img{num}`, file `images/{num}.{ext}`. */
  datatype ImageItem = ImageItem(num: nat, ext: Ext)

  /** A spine entry: the navigation document or the chapter with a given file index. */
  datatype SpineItem = Nav | Doc(fileIndex: nat)

  /** The title of the synthetic preface chapter and of its heading. */
  const PrefaceTitle: string := "插圖"

  // ---------------------------------------------------- line classification

  predicate IsNumeral(c: char) {
    || c == '一' || c == '二' || c == '三' || c == '四' || c == '五' || c == '六' || c == '七'
    || c == '八' || c == '九' || c == '十' || c == '百' || c == '千' || c == '零' || c == '〇'
  }

  /** What `re.search(r'^第[一二三四五六七八九十百千零〇]+卷', line)` accepts. */
  ghost predicate VolumePattern(line: string) {
    exists k :: 2 <= k < |line| && line[0] == '第' && line[k] == '卷'
      && forall j :: 1 <= j < k ==> IsNumeral(line[j])
  }

  /** What `re.search(r'插圖\s*(\d+)', line)` accepts (ASCII digits). */
  ghost predicate ImagePattern(line: string) {
    exists p, q :: ImageMatchAt(line, p, q)
  }

  /** `插圖` at `p`, then whitespace up to the digit at `q`. */
  ghost predicate ImageMatchAt(line: string, p: nat, q: nat) {
    p + 2 <= q < |line| && line[p] == '插' && line[p + 1] == '圖'
    && (forall k :: p + 2 <= k < q ==> IsSpace(line[k])) && IsDigit(line[q])
  }

  /** Length of the run of numerals starting at `i`. */
  function NumeralRun(line: string, i: nat): (n: nat)
    requires i <= |line|
    ensures i + n <= |line|
    ensures forall j :: i <= j < i + n ==> IsNumeral(line[j])
    ensures i + n == |line| || !IsNumeral(line[i + n])
    decreases |line| - i
  {
    if i == |line| || !IsNumeral(line[i]) then 0 else 1 + NumeralRun(line, i + 1)
  }

  predicate IsVolumeMarker(line: string)
    ensures IsVolumeMarker(line) <==> VolumePattern(line)
  {
    if |line| == 0 || line[0] != '第' then false
    else
      var n := NumeralRun(line, 1);
      assert !IsNumeral('卷');
      n >= 1 && 1 + n < |line| && line[1 + n] == '卷'
  }

  /** Index of the first non-whitespace character at or after `i`. */
  function SkipSpace(line: string, i: nat): (j: nat)
    requires i <= |line|
    ensures i <= j <= |line|
    ensures forall k :: i <= k < j ==> IsSpace(line[k])
    ensures j == |line| || !IsSpace(line[j])
    decreases |line| - i
  {
    if i == |line| || !IsSpace(line[i]) then i else SkipSpace(line, i + 1)
  }

  /** Whether some `插圖` at or after position `p` is followed by optional whitespace and a digit. */
  predicate ImageMarkerFrom(line: string, p: nat)
    requires p <= |line|
    ensures ImageMarkerFrom(line, p) <==> exists a, q :: p <= a && ImageMatchAt(line, a, q)
    decreases |line| - p
  {
    if p + 2 > |line| then false
    else if line[p] == '插' && line[p + 1] == '圖'
      && SkipSpace(line, p + 2) < |line| && IsDigit(line[SkipSpace(line, p + 2)]) then
      assert ImageMatchAt(line, p, SkipSpace(line, p + 2));
      true
    else
      var rest := ImageMarkerFrom(line, p + 1);
      assert !IsSpace('0') && !IsSpace('9');
      rest
  }

  predicate HasImageMarker(line: string)
    ensures HasImageMarker(line) <==> ImagePattern(line)
  {
    ImageMarkerFrom(line, 0)
  }

  /** `int(re.sub(r"\D", "", line))`: all digits of the line read as one number. */
  function ImageNumber(line: string): nat {
    DecimalValue(DigitsOf(line))
  }

  datatype LineKind = Blank | VolumeMarker | ImageMarker(num: nat) | TextLine

  /** How `create_epub` treats a stripped line, in its priority order. */
  function Classify(line: string): (k: LineKind)
    ensures k == Blank <==> line == []
    ensures k == VolumeMarker <==> line != [] && VolumePattern(line)
    ensures k.ImageMarker? <==> line != [] && !VolumePattern(line) && ImagePattern(line)
    ensures k.ImageMarker? ==> k.num == DecimalValue(DigitsOf(line))
    ensures k == TextLine <==> line != [] && !VolumePattern(line) && !ImagePattern(line)
  {
    if line == [] then Blank
    else if IsVolumeMarker(line) then VolumeMarker
    else if HasImageMarker(line) then ImageMarker(ImageNumber(line))
    else TextLine
  }

  // ----------------------------------------------------------------- state

  datatype State = State(
    used: set<nat>,           // used_pics
    picCount: nat,            // pic_count
    items: seq<ImageItem>,    // the EpubImage items added to the book, in order
    prePics: seq<nat>,        // pre_pics
    title: Option<string>,    // current_title
    html: seq<Block>,         // current_html
    chapters: seq<Chapter>,   // chapters
    spine: seq<SpineItem>,    // spine
    chapterCount: nat)        // chapter_count

  function Initial(): State {
    State({}, 0, [], [], None, [], [], [Nav], 0)
  }

  /** The numbers of the image items, as a set. */
  function NumsOf(items: seq<ImageItem>): (r: set<nat>)
    ensures forall i :: 0 <= i < |items| ==> items[i].num in r
  {
    if items == [] then {} else NumsOf(items[..|items| - 1]) + {items[|items| - 1].num}
  }

  /** The image manifest is consistent: every image is added once, only if found, and counted. */
  ghost predicate ImagesOk(files: Files, s: State) {
    ManifestOk(files, s.used, s.picCount, s.items)
  }

  ghost predicate ManifestOk(files: Files, used: set<nat>, picCount: nat, items: seq<ImageItem>) {
    && picCount == |used| == |items|
    && used == NumsOf(items)
    && (forall n :: n in used ==> Found(files, n))
    && (forall i :: 0 <= i < |items| ==> FindImage(files, items[i].num) == Some(items[i].ext))
    && (forall i, j :: 0 <= i < j < |items| ==> items[i].num != items[j].num)
  }

  /** Whether `add_image(num)` adds a new image: not yet used and a file exists. */
  predicate Adds(files: Files, s: State, num: nat) {
    num !in s.used && Found(files, num)
  }

  /** The chapter side of two states agrees: open chapter, sealed chapters, spine and counter. */
  predicate SameDocuments(r: State, s: State) {
    r.title == s.title && r.html == s.html && r.chapters == s.chapters
    && r.spine == s.spine && r.chapterCount == s.chapterCount
  }

  /** `add_image(num)`: add the image once, and only if a file exists for it. */
  function AddImage(files: Files, s: State, num: nat): (r: State)
    ensures r.used == if Found(files, num) then s.used + {num} else s.used
    ensures r.picCount == if Adds(files, s, num) then s.picCount + 1 else s.picCount
    ensures r.items == if Adds(files, s, num) then s.items + [ImageItem(num, FindImage(files, num).value)] else s.items
    ensures SameDocuments(r, s) && r.prePics == s.prePics
  {
    if num in s.used then s
    else match FindImage(files, num)
      case None => s
      case Some(e) =>
        var r := s.(used := s.used + {num}, picCount := s.picCount + 1, items := s.items + [ImageItem(num, e)]);
        assert r.items[..|s.items|] == s.items;
        r
  }

  /** `add_image` keeps the manifest consistent. */
  lemma AddImageKeepsManifest(files: Files, s: State, num: nat)
    requires ImagesOk(files, s)
    ensures ImagesOk(files, AddImage(files, s, num))
    ensures num in s.used ==> AddImage(files, s, num) == s
  {
    var r := AddImage(files, s, num);
    if Adds(files, s, num) {
      assert r.items[..|s.items|] == s.items;
    }
  }

  /** The numbers in `[lo, hi)` that have an image file. */
  function FoundBetween(files: Files, lo: nat, hi: nat): (r: set<nat>)
    ensures forall k :: k in r <==> lo <= k < hi && Found(files, k)
    decreases hi - lo
  {
    if lo >= hi then {} else FoundAt(files, lo) + FoundBetween(files, lo + 1, hi)
  }

  /** `{num}` when `num` has an image file, else nothing. */
  function FoundAt(files: Files, num: nat): set<nat> {
    if Found(files, num) then {num} else {}
  }

  /** `for i in range(lo, hi): add_image(i); pre_pics.append(i)`. */
  function Backfill(files: Files, s: State, lo: nat, hi: nat): (r: State)
    ensures r.prePics == s.prePics + Range(lo, hi)
    ensures r.used == s.used + FoundBetween(files, lo, hi)
    ensures SameDocuments(r, s)
    decreases hi - lo
  {
    if lo >= hi then s
    else
      var s1 := AddImage(files, s, lo);
      var r := Backfill(files, s1.(prePics := s1.prePics + [lo]), lo + 1, hi);
      assert s.prePics + Range(lo, hi) == (s.prePics + [lo]) + Range(lo + 1, hi);
      r
  }

  /** Seal the open chapter, if any, into `chapters` and `spine`. */
  function SealOpen(s: State): State {
    match s.title
    case None => s
    case Some(t) =>
      s.(chapters := s.chapters + [Chapter(t, s.chapterCount, s.html)],
         spine := s.spine + [Doc(s.chapterCount)])
  }

  /** A volume marker: seal the open chapter and open a new one headed by the marker line. */
  function OpenVolume(s: State, line: string): State {
    SealOpen(s).(chapterCount := s.chapterCount + 1, title := Some(line), html := [Heading(line)])
  }

  /** An image marker for `n`: backfill `1..n-1`, add `n`, and show `n` if its file exists. */
  function PlaceImage(files: Files, s: State, n: nat): State {
    var s1 := if n > 1 then Backfill(files, s, 1, n) else s;
    var s2 := AddImage(files, s1, n);
    match FindImage(files, n)
    case Some(e) => s2.(html := s2.html + [Picture(n, e)])
    case None => s2
  }

  /** Any other line becomes a verbatim paragraph. */
  function AddText(s: State, line: string): State {
    s.(html := s.html + [Paragraph(line)])
  }

  /** What a stripped line of kind `k` does to the state. */
  function Step(files: Files, s: State, line: string, k: LineKind): State {
    match k
    case Blank => s
    case VolumeMarker => OpenVolume(s, line)
    case ImageMarker(n) => PlaceImage(files, s, n)
    case TextLine => AddText(s, line)
  }

  /** One iteration of the `for raw in f` loop. */
  function StepLine(files: Files, s: State, raw: string): State {
    var line := Strip(raw);
    Step(files, s, line, Classify(line))
  }

  /** The whole `for raw in f` loop. */
  function RunLines(files: Files, s: State, lines: seq<string>): State
    decreases |lines|
  {
    if lines == [] then s else RunLines(files, StepLine(files, s, lines[0]), lines[1..])
  }

  // ------------------------------------------------------- trailing fill

  /** The image files numbered `next` or higher. */
  function FilesFrom(files: Files, next: nat): set<(nat, Ext)> {
    set p | p in files && p.0 >= next
  }

  lemma FilesFromShrinks(files: Files, next: nat)
    requires Found(files, next)
    ensures |FilesFrom(files, next + 1)| < |FilesFrom(files, next)|
  {
    var p := (next, FindImage(files, next).value);
    assert FilesFrom(files, next + 1) < FilesFrom(files, next) by {
      assert p in FilesFrom(files, next) && p !in FilesFrom(files, next + 1);
    }
    SetFacts.StrictSubsetCard(FilesFrom(files, next + 1), FilesFrom(files, next));
  }

  /** Append blocks to the content of the last sealed chapter (`last_chapter.content += ...`). */
  function AppendLast(s: State, blocks: seq<Block>): State
    requires s.chapters != []
  {
    var n := |s.chapters|;
    var c := s.chapters[n - 1];
    s.(chapters := s.chapters[..n - 1] + [c.(content := c.content + blocks)])
  }

  /** The `while True` loop after the line loop, from `next_pic == next`. */
  function Fill(files: Files, s: State, next: nat): State
    requires s.chapters != []
    decreases |FilesFrom(files, next)|
  {
    match FindImage(files, next)
    case None => s
    case Some(e) =>
      FilesFromShrinks(files, next);
      Fill(files, FillOne(files, s, next, e), next + 1)
  }

  /** One round of the fill loop for the found image `next.e`: add it after a rule unless it is already used. */
  function FillOne(files: Files, s: State, next: nat, e: Ext): State
    requires s.chapters != []
  {
    if next !in s.used then AppendLast(AddImage(files, s, next), [Rule, Picture(next, e)]) else s
  }

  // ---------------------------------------------------------- preface

  /** The `<img>` blocks of `chap0`: one per backlog entry that has a file, in backlog order. */
  function PrefacePictures(files: Files, ns: seq<nat>): (r: seq<Block>)
    ensures forall i :: 0 <= i < |r| ==>
      r[i].Picture? && r[i].num in ns && FindImage(files, r[i].num) == Some(r[i].ext)
    ensures (forall k :: 0 <= k < |ns| ==> Found(files, ns[k])) ==>
      |r| == |ns| && forall i :: 0 <= i < |r| ==> r[i].num == ns[i]
  {
    if ns == [] then []
    else
      var last := ns[|ns| - 1];
      var front := PrefacePictures(files, ns[..|ns| - 1]);
      assert forall i :: 0 <= i < |front| ==> front[i].num in ns by {
        assert forall k :: k in ns[..|ns| - 1] ==> k in ns;
      }
      front + (match FindImage(files, last) case Some(e) => [Picture(last, e)] case None => [])
  }

  function Preface(files: Files, prePics: seq<nat>): Chapter {
    Chapter(PrefaceTitle, 0, [Heading(PrefaceTitle)] + PrefacePictures(files, prePics))
  }

  /** `list.insert(1, x)`. */
  function InsertSecond<T>(xs: seq<T>, x: T): seq<T> {
    if xs == [] then [x] else [xs[0], x] + xs[1..]
  }

  /** `chapters.insert(0, chap0)` and `spine.insert(1, chap0)` when `pre_pics` is non-empty. */
  function AddPreface(files: Files, s: State): State {
    if s.prePics == [] then s
    else s.(chapters := [Preface(files, s.prePics)] + s.chapters, spine := InsertSecond(s.spine, Doc(0)))
  }

  /** Everything after the line loop: trailing fill, last chapter, preface. */
  function Finalize(files: Files, s: State): State {
    AddPreface(files, SealOpen(TrailingFill(files, s)))
  }

  /** `if chapters:` ... the fill loop from `pic_count + 1`. */
  function TrailingFill(files: Files, s: State): State {
    if s.chapters != [] then Fill(files, s, s.picCount + 1) else s
  }

  // ------------------------------------------------------------ the book

  /** `os.path.basename(path)` for POSIX paths: what follows the last `/`. */
  function BaseName(path: string): (r: string)
    ensures '/' !in r
  {
    match LastIndex(path, '/') case Some(i) => path[i + 1..] case None => path
  }

  predicate AllDots(s: string) {
    forall k :: 0 <= k < |s| ==> s[k] == '.'
  }

  /** `os.path.splitext(base)[0]`: drop the last `.`-suffix, unless only dots precede it (`.bashrc`). */
  function StemOf(base: string): string {
    match LastIndex(base, '.')
    case None => base
    case Some(d) => if AllDots(base[..d]) then base else base[..d]
  }

  /** `os.path.splitext(os.path.basename(path))[0]`. */
  function BookTitle(path: string): string {
    StemOf(BaseName(path))
  }

  /** What is handed to `write_epub`. */
  datatype Book = Book(
    title: string,
    cover: Option<Ext>,
    toc: seq<Chapter>,
    spine: seq<SpineItem>,
    images: seq<ImageItem>,
    picCount: nat,
    chapterCount: nat)

  /** The final state of one `create_epub` run over the lines of the text file. */
  function Run(files: Files, lines: seq<string>): State {
    Finalize(files, RunLines(files, Initial(), lines))
  }

  /** `create_epub(txt_file, ...)` on the text file's lines and the picture directory. */
  function Compile(txtFile: string, files: Files, lines: seq<string>): Book {
    var s := Run(files, lines);
    Book(BookTitle(txtFile), FindImage(files, 1), s.chapters, s.spine, s.items, s.picCount, s.chapterCount)
  }
}
