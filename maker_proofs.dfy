/**
  Properties of `create_epub` (maker.py), proved about the state machine of
  `MakerModel`: the image manifest stays consistent, the chapters are the
  chapter-marker lines in order, the preface holds the backlog, the trailing
  fill extends the last chapter sealed inside the line loop, and text before
  the first chapter marker never reaches the book.
*/
module MakerProofs {
  import opened Wrappers
  import opened Text
  import opened MakerModel
  import SeqFacts

  // ------------------------------------------------------------ the line loop

  /** Running two blocks of lines is running the first and then the second. */
  lemma {:induction false} RunLinesAppend(files: Files, s: State, a: seq<string>, b: seq<string>)
    ensures RunLines(files, s, a + b) == RunLines(files, RunLines(files, s, a), b)
    decreases |a|
  {
    if a != [] {
      SeqFacts.TailOfAppend(a, b);
      RunLinesAppend(files, StepLine(files, s, a[0]), a[1..], b);
    } else {
      SeqFacts.AppendEmpty(b);
    }
  }

  // ---------------------------------------------------------- the manifest

  lemma {:induction false} BackfillKeepsManifest(files: Files, s: State, lo: nat, hi: nat)
    requires ImagesOk(files, s)
    ensures ImagesOk(files, Backfill(files, s, lo, hi))
    decreases hi - lo
  {
    if lo < hi {
      AddImageKeepsManifest(files, s, lo);
      var s1 := AddImage(files, s, lo);
      BackfillKeepsManifest(files, s1.(prePics := s1.prePics + [lo]), lo + 1, hi);
    }
  }

  lemma StepKeepsManifest(files: Files, s: State, line: string, k: LineKind)
    requires ImagesOk(files, s)
    ensures ImagesOk(files, Step(files, s, line, k))
  {
    match k
    case ImageMarker(n) =>
      var s1 := if n > 1 then Backfill(files, s, 1, n) else s;
      if n > 1 {
        BackfillKeepsManifest(files, s, 1, n);
      }
      AddImageKeepsManifest(files, s1, n);
    case VolumeMarker =>
      assert OpenVolume(s, line).items == s.items;
    case _ =>
  }

  lemma StepLineKeepsManifest(files: Files, s: State, raw: string)
    requires ImagesOk(files, s)
    ensures ImagesOk(files, StepLine(files, s, raw))
  {
    var line := Strip(raw);
    StepKeepsManifest(files, s, line, Classify(line));
  }

  lemma {:induction false} RunLinesKeepsManifest(files: Files, s: State, lines: seq<string>)
    requires ImagesOk(files, s)
    ensures ImagesOk(files, RunLines(files, s, lines))
    decreases |lines|
  {
    if lines != [] {
      StepLineKeepsManifest(files, s, lines[0]);
      RunLinesKeepsManifest(files, StepLine(files, s, lines[0]), lines[1..]);
    }
  }

  lemma {:induction false} FillKeepsManifest(files: Files, s: State, next: nat)
    requires s.chapters != [] && ImagesOk(files, s)
    ensures ImagesOk(files, Fill(files, s, next))
    decreases |FilesFrom(files, next)|
  {
    match FindImage(files, next)
    case None =>
    case Some(e) =>
      FilesFromShrinks(files, next);
      if next !in s.used {
        AddImageKeepsManifest(files, s, next);
      }
      FillKeepsManifest(files, FillOne(files, s, next, e), next + 1);
  }

  /** After a whole run, `pic_count == |used_pics|`, every image was added once, and only with the file `find_image` chose. */
  lemma RunKeepsManifest(files: Files, lines: seq<string>)
    ensures ImagesOk(files, Run(files, lines))
  {
    var s := RunLines(files, Initial(), lines);
    RunLinesKeepsManifest(files, Initial(), lines);
    if s.chapters != [] {
      FillKeepsManifest(files, s, s.picCount + 1);
    }
    var t := TrailingFill(files, s);
    assert ImagesOk(files, t);
    var u := SealOpen(t);
    assert u.used == t.used && u.items == t.items && u.picCount == t.picCount;
    PrefaceShift(files, u);
  }

  /** The book's images: one per number, each with the extension `find_image` picks, and `pic_count` of them. */
  lemma CompileManifest(txtFile: string, files: Files, lines: seq<string>)
    ensures var b := Compile(txtFile, files, lines);
      && b.picCount == |b.images|
      && (forall i, j :: 0 <= i < j < |b.images| ==> b.images[i].num != b.images[j].num)
      && (forall i :: 0 <= i < |b.images| ==> FindImage(files, b.images[i].num) == Some(b.images[i].ext))
  {
    RunKeepsManifest(files, lines);
  }

  // ------------------------------------------------------- an image marker

  /** An image marker for `n`: the backlog gets `1..n-1`, every found one of `1..n` is used, and the open chapter gets `n`'s picture whenever its file exists, used before or not. */
  lemma PlaceImageEffect(files: Files, s: State, n: nat)
    ensures var r := PlaceImage(files, s, n);
      && r.prePics == s.prePics + Range(1, n)
      && r.used == s.used + FoundBetween(files, 1, n) + (if Found(files, n) then {n} else {})
      && r.html == s.html + (match FindImage(files, n) case Some(e) => [Picture(n, e)] case None => [])
      && r.title == s.title && r.chapters == s.chapters && r.spine == s.spine && r.chapterCount == s.chapterCount
  {
    if n <= 1 {
      assert FoundBetween(files, 1, n) == {};
    }
  }

  // ---------------------------------------------------------- the chapters

  /** A line's contribution to the chapter titles: itself, stripped, if it is a chapter marker. */
  function VolumeLine(raw: string): seq<string> {
    var line := Strip(raw);
    KindVolume(line, Classify(line))
  }

  /** The chapter-marker lines of the text, stripped, in input order. */
  function VolumeLines(lines: seq<string>): seq<string> {
    if lines == [] then [] else VolumeLine(lines[0]) + VolumeLines(lines[1..])
  }

  /** The chapter structure after the markers `vs` have been read: `vs` minus the last are sealed as `chap1..`, the last is open. */
  ghost predicate Shaped(s: State, vs: seq<string>) {
    ShapedParts(s.chapterCount, s.title, s.chapters, s.spine, vs)
  }

  ghost predicate ShapedParts(count: nat, title: Option<string>, chapters: seq<Chapter>, spine: seq<SpineItem>, vs: seq<string>) {
    && count == |vs|
    && (vs == [] ==> title == None && chapters == [])
    && (vs != [] ==> title == Some(vs[|vs| - 1]) && |chapters| == |vs| - 1)
    && (forall i :: 0 <= i < |chapters| ==> chapters[i].title == vs[i] && chapters[i].fileIndex == i + 1)
    && |spine| == |chapters| + 1 && spine[0] == Nav
    && (forall i :: 1 <= i < |spine| ==> spine[i] == Doc(i))
  }

  /** A kind's contribution to the chapter titles. */
  function KindVolume(line: string, k: LineKind): seq<string> {
    if k == VolumeMarker then [line] else []
  }

  lemma StepShape(files: Files, s: State, vs: seq<string>, line: string, k: LineKind)
    requires Shaped(s, vs)
    ensures Shaped(Step(files, s, line, k), vs + KindVolume(line, k))
  {
    match k
    case ImageMarker(n) =>
      PlaceImageEffect(files, s, n);
    case VolumeMarker =>
    case _ =>
      assert vs + [] == vs;
  }

  lemma StepLineShape(files: Files, s: State, vs: seq<string>, raw: string)
    requires Shaped(s, vs)
    ensures Shaped(StepLine(files, s, raw), vs + VolumeLine(raw))
  {
    var line := Strip(raw);
    StepShape(files, s, vs, line, Classify(line));
  }

  lemma {:induction false} RunLinesShape(files: Files, s: State, vs: seq<string>, lines: seq<string>)
    requires Shaped(s, vs)
    ensures Shaped(RunLines(files, s, lines), vs + VolumeLines(lines))
    decreases |lines|
  {
    if lines == [] {
      assert vs + [] == vs;
    } else {
      var s1 := StepLine(files, s, lines[0]);
      var vs1 := vs + VolumeLine(lines[0]);
      StepLineShape(files, s, vs, lines[0]);
      RunLinesShape(files, s1, vs1, lines[1..]);
      SeqFacts.AppendAssoc(vs, VolumeLine(lines[0]), VolumeLines(lines[1..]));
    }
  }

  // ----------------------------------------------------------- the backlog

  /** A kind's contribution to `pre_pics`: `1..n-1` for an image marker for `n`. */
  function KindBacklog(k: LineKind): seq<nat> {
    match k
    case ImageMarker(n) => Range(1, n)
    case _ => []
  }

  /** A line's contribution to `pre_pics`. */
  function LineBacklog(raw: string): seq<nat> {
    KindBacklog(Classify(Strip(raw)))
  }

  /** `pre_pics` at the end of the text: the backlogs of the image markers, in input order. */
  function Backlog(lines: seq<string>): seq<nat> {
    if lines == [] then [] else LineBacklog(lines[0]) + Backlog(lines[1..])
  }

  lemma StepBacklog(files: Files, s: State, line: string, k: LineKind)
    ensures Step(files, s, line, k).prePics == s.prePics + KindBacklog(k)
  {
    match k
    case ImageMarker(n) => PlaceImageEffect(files, s, n);
    case _ => SeqFacts.AppendEmpty(s.prePics);
  }

  lemma {:induction false} RunLinesBacklog(files: Files, s: State, lines: seq<string>)
    ensures RunLines(files, s, lines).prePics == s.prePics + Backlog(lines)
    decreases |lines|
  {
    if lines != [] {
      var line := Strip(lines[0]);
      StepBacklog(files, s, line, Classify(line));
      RunLinesBacklog(files, StepLine(files, s, lines[0]), lines[1..]);
      SeqFacts.AppendAssoc(s.prePics, LineBacklog(lines[0]), Backlog(lines[1..]));
    } else {
      SeqFacts.AppendEmpty(s.prePics);
    }
  }

  // ------------------------------------------------------ the trailing fill

  /** The first number at or after `next` with no image file: where the fill stops. */
  function FirstMissing(files: Files, next: nat): (stop: nat)
    ensures next <= stop && !Found(files, stop)
    ensures forall k :: next <= k < stop ==> Found(files, k)
    decreases |FilesFrom(files, next)|
  {
    if !Found(files, next) then next
    else
      FilesFromShrinks(files, next);
      FirstMissing(files, next + 1)
  }

  /** What the fill appends for the numbers in `[lo, hi)`: `<hr/>` and the picture for each found number not in `used`. */
  function FillBlocks(files: Files, used: set<nat>, lo: nat, hi: nat): seq<Block>
    decreases hi - lo
  {
    if lo >= hi then []
    else
      (match FindImage(files, lo)
       case Some(e) => if lo !in used then [Rule, Picture(lo, e)] else []
       case None => [])
      + FillBlocks(files, used, lo + 1, hi)
  }

  /** `FillBlocks` only looks at the used numbers in its range. */
  lemma {:induction false} FillBlocksLocal(files: Files, u: set<nat>, w: set<nat>, lo: nat, hi: nat)
    requires forall k :: lo <= k < hi ==> (k in u <==> k in w)
    ensures FillBlocks(files, u, lo, hi) == FillBlocks(files, w, lo, hi)
    decreases hi - lo
  {
    if lo < hi {
      FillBlocksLocal(files, u, w, lo + 1, hi);
    }
  }

  /** Leaves every part of the state but the manifest and the last sealed chapter's content alone. */
  ghost predicate FillFrame(r: State, s: State) {
    && r.title == s.title && r.html == s.html && r.spine == s.spine
    && r.chapterCount == s.chapterCount && r.prePics == s.prePics
    && |r.chapters| == |s.chapters| && |s.chapters| > 0
    && r.chapters[..|s.chapters| - 1] == s.chapters[..|s.chapters| - 1]
    && r.chapters[|s.chapters| - 1].title == s.chapters[|s.chapters| - 1].title
    && r.chapters[|s.chapters| - 1].fileIndex == s.chapters[|s.chapters| - 1].fileIndex
  }

  /** One round of the fill changes only the manifest and the last sealed chapter's content. */
  lemma FillOneEffect(files: Files, s: State, next: nat, e: Ext)
    requires s.chapters != [] && FindImage(files, next) == Some(e)
    ensures var r := FillOne(files, s, next, e);
      var n := |s.chapters|;
      && FillFrame(r, s)
      && r.used == s.used + {next}
      && r.chapters[n - 1].content == s.chapters[n - 1].content + FillBlocks(files, s.used, next, next + 1)
  {
    var n := |s.chapters|;
    if next in s.used {
      SeqFacts.AppendEmpty(s.chapters[n - 1].content);
    }
  }

  lemma {:induction false} FillKeepsFrame(files: Files, s: State, next: nat)
    requires s.chapters != []
    ensures FillFrame(Fill(files, s, next), s)
    decreases |FilesFrom(files, next)|
  {
    match FindImage(files, next)
    case None =>
    case Some(e) =>
      FilesFromShrinks(files, next);
      FillOneEffect(files, s, next, e);
      FillKeepsFrame(files, FillOne(files, s, next, e), next + 1);
  }

  /** The fill from `next` uses every found number up to the first missing one, and no other. */
  lemma {:induction false} FillUsed(files: Files, s: State, next: nat)
    requires s.chapters != []
    ensures Fill(files, s, next).used == s.used + FoundBetween(files, next, FirstMissing(files, next))
    ensures forall k :: next <= k < FirstMissing(files, next) ==> k in Fill(files, s, next).used
    decreases |FilesFrom(files, next)|
  {
    match FindImage(files, next)
    case None =>
    case Some(e) =>
      FilesFromShrinks(files, next);
      FillOneEffect(files, s, next, e);
      FillUsed(files, FillOne(files, s, next, e), next + 1);
  }

  /** The last sealed chapter gets a rule and a picture for each number of the run not used before, in ascending order. */
  lemma {:induction false} FillContent(files: Files, s: State, next: nat)
    requires s.chapters != []
    ensures var n := |s.chapters|;
      |Fill(files, s, next).chapters| == n
      && Fill(files, s, next).chapters[n - 1].content
         == s.chapters[n - 1].content + FillBlocks(files, s.used, next, FirstMissing(files, next))
    decreases |FilesFrom(files, next)|
  {
    var n := |s.chapters|;
    FillKeepsFrame(files, s, next);
    match FindImage(files, next)
    case None =>
      SeqFacts.AppendEmpty(s.chapters[n - 1].content);
    case Some(e) =>
      FilesFromShrinks(files, next);
      var s1 := FillOne(files, s, next, e);
      var stop := FirstMissing(files, next + 1);
      FillOneEffect(files, s, next, e);
      FillContent(files, s1, next + 1);
      FillBlocksLocal(files, s.used, s1.used, next + 1, stop);
      SeqFacts.AppendAssoc(s.chapters[n - 1].content, FillBlocks(files, s.used, next, next + 1), FillBlocks(files, s.used, next + 1, stop));
  }

  // --------------------------------------------------------------- the book

  /** After the line loop from the start, the chapters follow the chapter-marker lines and `pre_pics` is the backlog. */
  lemma RunLinesFromStart(files: Files, lines: seq<string>)
    ensures Shaped(RunLines(files, Initial(), lines), VolumeLines(lines))
    ensures RunLines(files, Initial(), lines).prePics == Backlog(lines)
  {
    assert Shaped(Initial(), []);
    RunLinesShape(files, Initial(), [], lines);
    RunLinesBacklog(files, Initial(), lines);
    SeqFacts.AppendEmpty(VolumeLines(lines));
    SeqFacts.AppendEmpty(Backlog(lines));
  }

  lemma FillKeepsShape(files: Files, s: State, vs: seq<string>, next: nat)
    requires Shaped(s, vs) && s.chapters != []
    ensures Shaped(Fill(files, s, next), vs)
  {
    FillKeepsFrame(files, s, next);
    var r := Fill(files, s, next);
    var n := |s.chapters|;
    forall i | 0 <= i < n
      ensures r.chapters[i].title == vs[i] && r.chapters[i].fileIndex == i + 1
    {
      if i < n - 1 {
        assert r.chapters[i] == r.chapters[..n - 1][i];
      }
    }
  }

  /** Every chapter marker's chapter is sealed, as `chap1..chapN`, each with its spine entry. */
  ghost predicate Sealed(s: State, vs: seq<string>) {
    && s.chapterCount == |vs| && |s.chapters| == |vs|
    && (forall i :: 0 <= i < |s.chapters| ==> s.chapters[i].title == vs[i] && s.chapters[i].fileIndex == i + 1)
    && |s.spine| == |s.chapters| + 1 && s.spine[0] == Nav
    && (forall i :: 1 <= i < |s.spine| ==> s.spine[i] == Doc(i))
  }

  lemma SealShape(s: State, vs: seq<string>)
    requires Shaped(s, vs)
    ensures Sealed(SealOpen(s), vs)
  {
  }

  /**
    The finished tables for chapter markers `vs` and backlog `pre`: the
    preface `chap0` first exactly when the backlog is non-empty, then
    `chap1..chapN` titled by the markers, and the spine `nav` followed by the
    chapters in table order.
  */
  ghost predicate Tables(files: Files, chapters: seq<Chapter>, spine: seq<SpineItem>, count: nat, vs: seq<string>, pre: seq<nat>) {
    var off := if pre == [] then 0 else 1;
    && count == |vs|
    && |chapters| == off + |vs|
    && (pre != [] ==> chapters[0] == Preface(files, pre))
    && (forall i :: 0 <= i < |vs| ==> chapters[off + i].title == vs[i] && chapters[off + i].fileIndex == i + 1)
    && |spine| == |chapters| + 1 && spine[0] == Nav
    && (forall i :: 0 <= i < |chapters| ==> spine[i + 1] == Doc(chapters[i].fileIndex))
  }

  lemma PrefaceTables(files: Files, t: State, vs: seq<string>)
    requires Sealed(t, vs)
    ensures var r := AddPreface(files, t);
      Tables(files, r.chapters, r.spine, r.chapterCount, vs, t.prePics)
  {
    if t.prePics == [] {
      NoPrefaceTables(files, t, vs);
    } else {
      WithPrefaceTables(files, t, vs);
    }
  }

  lemma NoPrefaceTables(files: Files, t: State, vs: seq<string>)
    requires Sealed(t, vs) && t.prePics == []
    ensures var r := AddPreface(files, t);
      Tables(files, r.chapters, r.spine, r.chapterCount, vs, t.prePics)
  {
    var r := AddPreface(files, t);
    assert r == t;
    forall i | 0 <= i < |r.chapters|
      ensures r.spine[i + 1] == Doc(r.chapters[i].fileIndex)
    {
      assert r.spine[i + 1] == Doc(i + 1);
    }
  }

  lemma WithPrefaceTables(files: Files, t: State, vs: seq<string>)
    requires Sealed(t, vs) && t.prePics != []
    ensures var r := AddPreface(files, t);
      Tables(files, r.chapters, r.spine, r.chapterCount, vs, t.prePics)
  {
    WithPrefaceChapters(files, t, vs);
    WithPrefaceSpine(files, t, vs);
  }

  lemma WithPrefaceChapters(files: Files, t: State, vs: seq<string>)
    requires Sealed(t, vs) && t.prePics != []
    ensures var r := AddPreface(files, t);
      && r.chapterCount == |vs| && r.chapters == [Preface(files, t.prePics)] + t.chapters
      && forall i :: 0 <= i < |vs| ==> r.chapters[1 + i].title == vs[i] && r.chapters[1 + i].fileIndex == i + 1
  {
    var r := AddPreface(files, t);
    forall i | 0 <= i < |vs|
      ensures r.chapters[1 + i] == t.chapters[i]
    {
    }
  }

  lemma WithPrefaceSpine(files: Files, t: State, vs: seq<string>)
    requires Sealed(t, vs) && t.prePics != []
    ensures var r := AddPreface(files, t);
      && |r.spine| == |r.chapters| + 1 && r.spine[0] == Nav
      && forall i :: 0 <= i < |r.chapters| ==> r.spine[i + 1] == Doc(r.chapters[i].fileIndex)
  {
    var r := AddPreface(files, t);
    assert r.chapters == [Preface(files, t.prePics)] + t.chapters;
    assert r.spine == [Nav, Doc(0)] + t.spine[1..];
    forall i | 0 <= i < |r.chapters|
      ensures r.spine[i + 1] == Doc(r.chapters[i].fileIndex)
    {
      if i > 0 {
        assert r.spine[i + 1] == t.spine[i] == Doc(i);
        assert r.chapters[i] == t.chapters[i - 1];
      }
    }
  }

  lemma FinalizeTables(files: Files, s: State, vs: seq<string>)
    requires Shaped(s, vs)
    ensures var r := Finalize(files, s);
      Tables(files, r.chapters, r.spine, r.chapterCount, vs, s.prePics)
  {
    var s1 := TrailingFill(files, s);
    TrailingFillEffect(files, s, vs);
    SealShape(s1, vs);
    PrefaceTables(files, SealOpen(s1), vs);
  }

  /** The book's chapter tables follow the chapter-marker lines and the backlog of the text. */
  lemma CompileChapters(txtFile: string, files: Files, lines: seq<string>)
    ensures var b := Compile(txtFile, files, lines);
      Tables(files, b.toc, b.spine, b.chapterCount, VolumeLines(lines), Backlog(lines))
  {
    RunLinesFromStart(files, lines);
    FinalizeTables(files, RunLines(files, Initial(), lines), VolumeLines(lines));
  }

  /** The preface only shifts the other chapters by one place and leaves the manifest alone. */
  lemma PrefaceShift(files: Files, t: State)
    ensures var r := AddPreface(files, t);
      var off := if t.prePics == [] then 0 else 1;
      && |r.chapters| == off + |t.chapters|
      && (forall i :: 0 <= i < |t.chapters| ==> r.chapters[off + i] == t.chapters[i])
      && r.used == t.used && r.items == t.items && r.picCount == t.picCount
  {
  }

  /**
    `chap0`'s pictures for a backlog `a + b` are those for `a` followed by
    those for `b`: together with `PrefacePicturesOne`, one picture per backlog
    entry whose file exists, in backlog order, repeats kept.
  */
  lemma {:induction false} PrefacePicturesAppend(files: Files, a: seq<nat>, b: seq<nat>)
    ensures PrefacePictures(files, a + b) == PrefacePictures(files, a) + PrefacePictures(files, b)
    decreases |b|
  {
    if b == [] {
      assert a + b == a;
    } else {
      var s, b0, n := a + b, b[..|b| - 1], b[|b| - 1];
      assert s[..|s| - 1] == a + b0 && s[|s| - 1] == n;
      PrefacePicturesAppend(files, a, b0);
      var e := if FindImage(files, n).Some? then [Picture(n, FindImage(files, n).value)] else [];
      assert PrefacePictures(files, s) == (PrefacePictures(files, a) + PrefacePictures(files, b0)) + e;
      assert PrefacePictures(files, b) == PrefacePictures(files, b0) + e;
    }
  }

  /** One backlog entry gives its picture, with `find_image`'s extension, when a file exists, and nothing otherwise. */
  lemma PrefacePicturesOne(files: Files, n: nat)
    ensures FindImage(files, n).Some? ==> PrefacePictures(files, [n]) == [Picture(n, FindImage(files, n).value)]
    ensures FindImage(files, n).None? ==> PrefacePictures(files, [n]) == []
  {
    assert [n][..0] == [];
  }

  /**
    The book's first chapter, when the text's backlog is non-empty, is `chap0`:
    the preface heading and then the pictures of the backlog.
  */
  lemma CompilePreface(txtFile: string, files: Files, lines: seq<string>)
    requires Backlog(lines) != []
    ensures var b := Compile(txtFile, files, lines);
      |b.toc| >= 1 && b.toc[0] == Chapter(PrefaceTitle, 0, [Heading(PrefaceTitle)] + PrefacePictures(files, Backlog(lines)))
  {
    CompileChapters(txtFile, files, lines);
  }

  /**
    Where the trailing fill puts its images: with two or more chapter markers,
    into the last chapter sealed inside the line loop (the next-to-last
    chapter), after its own content, while the earlier chapters stay as they
    were; with at most one marker it does nothing.
  */
  lemma TrailingFillEffect(files: Files, s: State, vs: seq<string>)
    requires Shaped(s, vs)
    ensures var r := TrailingFill(files, s);
      var m := |vs|;
      var next := s.picCount + 1;
      var stop := FirstMissing(files, next);
      && Shaped(r, vs) && r.html == s.html && r.prePics == s.prePics
      && (m >= 2 ==> (forall i :: 0 <= i < m - 2 ==> r.chapters[i] == s.chapters[i]))
      && (m >= 2 ==> r.chapters[m - 2] == s.chapters[m - 2].(content := s.chapters[m - 2].content + FillBlocks(files, s.used, next, stop)))
      && (m >= 2 ==> r.used == s.used + FoundBetween(files, next, stop))
      && (m <= 1 ==> r == s)
  {
    var m := |vs|;
    if s.chapters != [] {
      var r := Fill(files, s, s.picCount + 1);
      FillKeepsShape(files, s, vs, s.picCount + 1);
      FillKeepsFrame(files, s, s.picCount + 1);
      FillContent(files, s, s.picCount + 1);
      FillUsed(files, s, s.picCount + 1);
      forall i | 0 <= i < m - 2
        ensures r.chapters[i] == s.chapters[i]
      {
        assert r.chapters[i] == r.chapters[..m - 2][i];
      }
    }
  }

  /** The final chapter is exactly what the line loop left open, under the last marker's title and number. */
  lemma FinalizeLastChapter(files: Files, s: State, vs: seq<string>)
    requires Shaped(s, vs) && vs != []
    ensures var r := Finalize(files, s);
      var off := if s.prePics == [] then 0 else 1;
      |r.chapters| == off + |vs| && r.chapters[off + |vs| - 1] == Chapter(vs[|vs| - 1], |vs|, s.html)
  {
    TrailingFillEffect(files, s, vs);
    PrefaceShift(files, SealOpen(TrailingFill(files, s)));
  }

  /**
    How the end of `create_epub` turns the state `s` left by the line loop, with
    `m` chapter markers read, into `r`, whose chapters start at `off`: with two
    or more markers the next-to-last chapter gets the trailing images and the
    used set grows by the run of found numbers from `pic_count + 1`; with at
    most one marker the manifest is left as it is.
  */
  ghost predicate FillOutcome(files: Files, s: State, r: State, m: nat, off: nat) {
    var next := s.picCount + 1;
    var stop := FirstMissing(files, next);
    && |r.chapters| == off + m && (m >= 1 ==> |s.chapters| == m - 1)
    && (m >= 2 ==> r.chapters[off + m - 2] == s.chapters[m - 2].(content := s.chapters[m - 2].content + FillBlocks(files, s.used, next, stop)))
    && (m >= 2 ==> r.used == s.used + FoundBetween(files, next, stop))
    && (m <= 1 ==> r.used == s.used && r.items == s.items && r.picCount == s.picCount)
  }

  lemma FinalizeFill(files: Files, s: State, vs: seq<string>)
    requires Shaped(s, vs)
    ensures FillOutcome(files, s, Finalize(files, s), |vs|, if s.prePics == [] then 0 else 1)
  {
    TrailingFillEffect(files, s, vs);
    var t := SealOpen(TrailingFill(files, s));
    PrefaceShift(files, t);
    if |vs| >= 2 {
      assert t.chapters[|vs| - 2] == TrailingFill(files, s).chapters[|vs| - 2];
    }
  }

  /** The trailing fill of a whole run, in terms of the chapter markers and the backlog of the text. */
  lemma RunTrailingFill(files: Files, lines: seq<string>)
    ensures FillOutcome(files, RunLines(files, Initial(), lines), Run(files, lines),
                        |VolumeLines(lines)|, if Backlog(lines) == [] then 0 else 1)
  {
    RunLinesFromStart(files, lines);
    FinalizeFill(files, RunLines(files, Initial(), lines), VolumeLines(lines));
  }

  // ------------------------------------------- text before the first marker

  /** A line that is neither a chapter marker nor an image marker. */
  predicate PlainLine(raw: string) {
    var k := Classify(Strip(raw));
    k == Blank || k == TextLine
  }

  /** Two states that differ at most in the markup of a chapter that was never opened. */
  predicate AgreeClosed(a: State, b: State) {
    a == b || (a.title == None && a.(html := b.html) == b)
  }

  lemma {:induction false} BackfillIgnoresHtml(files: Files, s: State, h: seq<Block>, lo: nat, hi: nat)
    ensures Backfill(files, s.(html := h), lo, hi) == Backfill(files, s, lo, hi).(html := h)
    decreases hi - lo
  {
    if lo < hi {
      var s1 := AddImage(files, s, lo);
      assert AddImage(files, s.(html := h), lo) == s1.(html := h);
      BackfillIgnoresHtml(files, s1.(prePics := s1.prePics + [lo]), h, lo + 1, hi);
    }
  }

  lemma StepAgree(files: Files, a: State, b: State, line: string, k: LineKind)
    requires AgreeClosed(a, b)
    ensures AgreeClosed(Step(files, a, line, k), Step(files, b, line, k))
  {
    if a != b {
      match k
      case ImageMarker(n) =>
        if n > 1 {
          BackfillIgnoresHtml(files, b, a.html, 1, n);
        }
      case _ =>
    }
  }

  lemma {:induction false} RunLinesAgree(files: Files, a: State, b: State, lines: seq<string>)
    requires AgreeClosed(a, b)
    ensures AgreeClosed(RunLines(files, a, lines), RunLines(files, b, lines))
    decreases |lines|
  {
    if lines != [] {
      var line := Strip(lines[0]);
      StepAgree(files, a, b, line, Classify(line));
      RunLinesAgree(files, StepLine(files, a, lines[0]), StepLine(files, b, lines[0]), lines[1..]);
    }
  }

  lemma {:induction false} FillIgnoresHtml(files: Files, s: State, h: seq<Block>, next: nat)
    requires s.chapters != []
    ensures Fill(files, s.(html := h), next) == Fill(files, s, next).(html := h)
    decreases |FilesFrom(files, next)|
  {
    match FindImage(files, next)
    case None =>
    case Some(e) =>
      FilesFromShrinks(files, next);
      assert FillOne(files, s.(html := h), next, e) == FillOne(files, s, next, e).(html := h);
      FillIgnoresHtml(files, FillOne(files, s, next, e), h, next + 1);
  }

  /** Lines that only hold text change only the markup of a chapter that is not open. */
  lemma {:induction false} PlainLinesOnlyHtml(files: Files, s: State, lines: seq<string>)
    requires s.title == None
    requires forall i :: 0 <= i < |lines| ==> PlainLine(lines[i])
    ensures AgreeClosed(RunLines(files, s, lines), s)
    decreases |lines|
  {
    if lines != [] {
      var s1 := StepLine(files, s, lines[0]);
      assert s1.(html := s.html) == s;
      PlainLinesOnlyHtml(files, s1, lines[1..]);
    }
  }

  /** The end of `create_epub` does not look at the markup of a chapter that was never opened. */
  lemma FinalizeAgree(files: Files, a: State, b: State)
    requires AgreeClosed(a, b)
    ensures var fa := Finalize(files, a);
      var fb := Finalize(files, b);
      fa.chapters == fb.chapters && fa.spine == fb.spine && fa.items == fb.items
      && fa.picCount == fb.picCount && fa.chapterCount == fb.chapterCount
  {
    if a != b {
      if b.chapters != [] {
        FillIgnoresHtml(files, b, a.html, b.picCount + 1);
        FillKeepsFrame(files, b, b.picCount + 1);
      }
      assert TrailingFill(files, a) == TrailingFill(files, b).(html := a.html);
      assert TrailingFill(files, b).title == None;
    }
  }

  /** Text before the first marker never reaches the book: `current_html` is replaced by the first marker. */
  lemma LeadingTextDropped(txtFile: string, files: Files, pre: seq<string>, rest: seq<string>)
    requires forall i :: 0 <= i < |pre| ==> PlainLine(pre[i])
    ensures Compile(txtFile, files, pre + rest) == Compile(txtFile, files, rest)
  {
    var s0 := RunLines(files, Initial(), pre);
    RunLinesAppend(files, Initial(), pre, rest);
    PlainLinesOnlyHtml(files, Initial(), pre);
    RunLinesAgree(files, s0, Initial(), rest);
    var a := RunLines(files, s0, rest);
    var b := RunLines(files, Initial(), rest);
    FinalizeAgree(files, a, b);
    assert Run(files, pre + rest) == Finalize(files, a);
    assert Run(files, rest) == Finalize(files, b);
  }

  // ------------------------------------------------------------ the title

  /** `basename` keeps what follows the last `/` ... */
  lemma BaseNameOfPath(dir: string, name: string)
    requires '/' !in name
    ensures BaseName(dir + "/" + name) == name
  {
    LastIndexOfSplit(dir, '/', name);
    assert (dir + "/" + name)[|dir| + 1..] == name;
  }

  /** ... and a name without `/` whole. */
  lemma BaseNameOfName(name: string)
    requires '/' !in name
    ensures BaseName(name) == name
  {
  }

  /** `splitext` of `stem.ext` keeps `stem`, unless `stem` is all dots (then the name stays whole). */
  lemma StemOfName(stem: string, ext: string)
    requires '.' !in ext
    ensures StemOf(stem + "." + ext) == if AllDots(stem) then stem + "." + ext else stem
  {
    LastIndexOfSplit(stem, '.', ext);
    assert (stem + "." + ext)[..|stem|] == stem;
  }

  /** A name without a dot is its own stem. */
  lemma StemOfNoDot(name: string)
    requires '.' !in name
    ensures StemOf(name) == name
  {
  }
}
