/**
  What the chapters of `create_epub` (maker.py) contain, in terms of the
  text's lines: after its heading, each chapter holds the blocks of the lines
  between its chapter marker and the next one, a paragraph for each text line
  and a picture for each image marker whose file exists.
*/
module MakerContents {
  import opened Wrappers
  import opened Text
  import opened MakerModel
  import P = MakerProofs
  import SeqFacts

  // ------------------------------------------------ blocks of a segment

  /** The blocks a stripped line of kind `k` adds to the open chapter (a chapter marker opens a new one instead). */
  function KindBlocks(files: Files, line: string, k: LineKind): seq<Block> {
    match k
    case TextLine => [Paragraph(line)]
    case ImageMarker(n) => (match FindImage(files, n) case Some(e) => [Picture(n, e)] case None => [])
    case _ => []
  }

  /** The blocks one raw line adds to the open chapter. */
  function LineBlocks(files: Files, raw: string): seq<Block> {
    var line := Strip(raw);
    KindBlocks(files, line, Classify(line))
  }

  /** The blocks a run of lines without chapter markers adds, in input order. */
  function SegmentBlocks(files: Files, lines: seq<string>): seq<Block> {
    if lines == [] then [] else LineBlocks(files, lines[0]) + SegmentBlocks(files, lines[1..])
  }

  /** A raw line that `create_epub` takes as a chapter marker. */
  predicate IsMarker(raw: string) {
    Classify(Strip(raw)) == VolumeMarker
  }

  predicate NoMarker(lines: seq<string>) {
    forall i :: 0 <= i < |lines| ==> !IsMarker(lines[i])
  }

  /** A line that is not a chapter marker only extends the open chapter. */
  lemma StepHtml(files: Files, s: State, line: string, k: LineKind)
    requires k != VolumeMarker
    ensures var r := Step(files, s, line, k);
      && r.html == s.html + KindBlocks(files, line, k)
      && r.title == s.title && r.chapters == s.chapters && r.spine == s.spine && r.chapterCount == s.chapterCount
  {
    match k
    case ImageMarker(n) => P.PlaceImageEffect(files, s, n);
    case TextLine =>
    case Blank => SeqFacts.AppendEmpty(s.html);
  }

  /** Lines without a chapter marker append their blocks to the open chapter and leave the sealed ones alone. */
  lemma {:induction false} RunLinesHtml(files: Files, s: State, lines: seq<string>)
    requires NoMarker(lines)
    ensures var r := RunLines(files, s, lines);
      && r.html == s.html + SegmentBlocks(files, lines)
      && r.title == s.title && r.chapters == s.chapters && r.spine == s.spine && r.chapterCount == s.chapterCount
    decreases |lines|
  {
    if lines == [] {
      SeqFacts.AppendEmpty(s.html);
    } else {
      var line := Strip(lines[0]);
      assert !IsMarker(lines[0]);
      StepHtml(files, s, line, Classify(line));
      assert NoMarker(lines[1..]) by {
        forall i | 0 <= i < |lines[1..]|
          ensures !IsMarker(lines[1..][i])
        {
          assert lines[1..][i] == lines[i + 1];
        }
      }
      RunLinesHtml(files, StepLine(files, s, lines[0]), lines[1..]);
      SeqFacts.AppendAssoc(s.html, LineBlocks(files, lines[0]), SegmentBlocks(files, lines[1..]));
    }
  }

  // ------------------------------------------------ the text as parts

  /** A chapter marker line followed by the lines up to the next marker. */
  datatype Part = Part(marker: string, body: seq<string>)

  function Flatten(parts: seq<Part>): seq<string> {
    if parts == [] then [] else ([parts[0].marker] + parts[0].body) + Flatten(parts[1..])
  }

  /** Every part starts at a chapter marker and has no other. */
  predicate WellSplit(parts: seq<Part>) {
    forall i :: 0 <= i < |parts| ==> IsMarker(parts[i].marker) && NoMarker(parts[i].body)
  }

  /** The chapter a part becomes: the marker as heading, then the blocks of its lines. */
  function Body(files: Files, p: Part): seq<Block> {
    [Heading(Strip(p.marker))] + SegmentBlocks(files, p.body)
  }

  /** One part: its marker seals the open chapter and opens a new one that ends as the part's body. */
  lemma PartStep(files: Files, s: State, p: Part)
    requires IsMarker(p.marker) && NoMarker(p.body)
    ensures var r := RunLines(files, s, [p.marker] + p.body);
      && r.chapters == SealOpen(s).chapters && r.title == Some(Strip(p.marker)) && r.html == Body(files, p)
      && r.chapterCount == s.chapterCount + 1
  {
    var t := OpenVolume(s, Strip(p.marker));
    P.RunLinesAppend(files, s, [p.marker], p.body);
    assert RunLines(files, s, [p.marker]) == t by {
      assert [p.marker][1..] == [];
    }
    RunLinesHtml(files, t, p.body);
  }

  /** The rest of a well-split text after `parts[0]`. */
  lemma WellSplitTail(parts: seq<Part>)
    requires WellSplit(parts) && parts != []
    ensures WellSplit(parts[1..])
  {
    forall i | 0 <= i < |parts[1..]|
      ensures IsMarker(parts[1..][i].marker) && NoMarker(parts[1..][i].body)
    {
      assert parts[1..][i] == parts[i + 1];
    }
  }

  /** The contents of a list of chapters, in order. */
  function Contents(chs: seq<Chapter>): (r: seq<seq<Block>>)
    ensures |r| == |chs|
  {
    if chs == [] then [] else [chs[0].content] + Contents(chs[1..])
  }

  /** The bodies of a list of parts, in order. */
  function Bodies(files: Files, parts: seq<Part>): (r: seq<seq<Block>>)
    ensures |r| == |parts|
  {
    if parts == [] then [] else [Body(files, parts[0])] + Bodies(files, parts[1..])
  }

  lemma {:induction false} ContentsAppend(a: seq<Chapter>, b: seq<Chapter>)
    ensures Contents(a + b) == Contents(a) + Contents(b)
    decreases |a|
  {
    if a == [] {
      assert a + b == b;
    } else {
      SeqFacts.TailOfAppend(a, b);
      ContentsAppend(a[1..], b);
    }
  }

  lemma {:induction false} ContentsAt(chs: seq<Chapter>, i: nat)
    requires i < |chs|
    ensures Contents(chs)[i] == chs[i].content
    decreases i
  {
    if i > 0 {
      ContentsAt(chs[1..], i - 1);
    }
  }

  lemma {:induction false} BodiesAt(files: Files, parts: seq<Part>, i: nat)
    requires i < |parts|
    ensures Bodies(files, parts)[i] == Body(files, parts[i])
    decreases i
  {
    if i > 0 {
      BodiesAt(files, parts[1..], i - 1);
    }
  }

  /**
    The line loop over a sequence of parts: every part but the last becomes a
    sealed chapter holding its body, after the chapters sealed before; the
    last part is left open.
  */
  lemma {:induction false} RunParts(files: Files, s: State, parts: seq<Part>)
    requires WellSplit(parts) && parts != []
    ensures var r := RunLines(files, s, Flatten(parts));
      var c := SealOpen(s).chapters;
      var m := |parts|;
      && r.title.Some?
      && Contents(r.chapters) == Contents(c) + Bodies(files, parts[..m - 1])
      && r.html == Body(files, parts[m - 1])
    decreases |parts|
  {
    var p, rest := parts[0], parts[1..];
    var t := RunLines(files, s, [p.marker] + p.body);
    var c := SealOpen(s).chapters;
    assert IsMarker(p.marker) && NoMarker(p.body);
    PartStep(files, s, p);
    P.RunLinesAppend(files, s, [p.marker] + p.body, Flatten(rest));
    if rest == [] {
      assert Flatten(parts) == [p.marker] + p.body by {
        SeqFacts.AppendEmpty([p.marker] + p.body);
      }
      assert parts[..0] == [];
      SeqFacts.AppendEmpty(Contents(c));
    } else {
      WellSplitTail(parts);
      RunParts(files, t, rest);
      var r := RunLines(files, t, Flatten(rest));
      SeqFacts.FrontOfCons(parts);
      PartsShift(files, c, Chapter(Strip(p.marker), t.chapterCount, t.html), p, rest[..|rest| - 1], r.chapters);
    }
  }

  /** Sealing one more chapter with the body of `p` puts `p` in front of the parts the later chapters hold. */
  lemma {:induction false} PartsShift(files: Files, c: seq<Chapter>, x: Chapter, p: Part, front: seq<Part>, rc: seq<Chapter>)
    requires x.content == Body(files, p)
    requires Contents(rc) == Contents(c + [x]) + Bodies(files, front)
    ensures Contents(rc) == Contents(c) + Bodies(files, [p] + front)
  {
    ContentsAppend(c, [x]);
    assert Contents([x]) == [Body(files, p)] by {
      assert [x][1..] == [];
    }
    assert Bodies(files, [p] + front) == [Body(files, p)] + Bodies(files, front) by {
      assert ([p] + front)[1..] == front;
    }
    SeqFacts.AppendAssoc(Contents(c), [Body(files, p)], Bodies(files, front));
  }

  /**
    The line loop over a whole text `pre + Flatten(parts)`, where `pre` has
    no chapter marker: the parts but the last are the sealed chapters, in
    order, each holding its body, and the last is open with its body.
  */
  lemma {:induction false} TextContents(files: Files, pre: seq<string>, parts: seq<Part>)
    requires NoMarker(pre) && WellSplit(parts) && parts != []
    ensures var s := RunLines(files, Initial(), pre + Flatten(parts));
      var m := |parts|;
      && s.title.Some? && Contents(s.chapters) == Bodies(files, parts[..m - 1])
      && s.html == Body(files, parts[m - 1])
  {
    P.RunLinesAppend(files, Initial(), pre, Flatten(parts));
    RunLinesHtml(files, Initial(), pre);
    var s0 := RunLines(files, Initial(), pre);
    assert SealOpen(s0).chapters == [];
    RunParts(files, s0, parts);
    assert Contents([]) == [];
    SeqFacts.AppendEmpty(Bodies(files, parts[..|parts| - 1]));
  }

  /** The same, chapter by chapter: sealed chapter `i` holds the body of part `i`. */
  lemma {:induction false} LoopContents(files: Files, pre: seq<string>, parts: seq<Part>)
    requires NoMarker(pre) && WellSplit(parts) && parts != []
    ensures var s := RunLines(files, Initial(), pre + Flatten(parts));
      var m := |parts|;
      && s.title.Some? && |s.chapters| == m - 1
      && (forall i :: 0 <= i < m - 1 ==> s.chapters[i].content == Body(files, parts[i]))
      && s.html == Body(files, parts[m - 1])
  {
    var s := RunLines(files, Initial(), pre + Flatten(parts));
    var front := parts[..|parts| - 1];
    TextContents(files, pre, parts);
    forall i | 0 <= i < |parts| - 1
      ensures s.chapters[i].content == Body(files, parts[i])
    {
      ContentsAt(s.chapters, i);
      BodiesAt(files, front, i);
      assert front[i] == parts[i];
    }
  }

  // ------------------------------------------------ the finished book

  /** Where the text's chapters start in the table of contents: after `chap0` when there is a backlog. */
  function Offset(backlog: seq<nat>): nat {
    if backlog == [] then 0 else 1
  }

  /** `r`, from position `off`, starts with the first `n` chapters of `c`. */
  ghost predicate KeepsFront(c: seq<Chapter>, r: seq<Chapter>, off: nat, n: nat) {
    n <= |c| && off + n <= |r| && forall i :: 0 <= i < n ==> r[off + i] == c[i]
  }

  lemma FrontChain(a: seq<Chapter>, b: seq<Chapter>, c: seq<Chapter>, d: seq<Chapter>, off: nat, n: nat)
    requires KeepsFront(a, b, 0, n) && KeepsFront(b, c, 0, n) && KeepsFront(c, d, off, n)
    ensures KeepsFront(a, d, off, n)
  {
    forall i | 0 <= i < n
      ensures d[off + i] == a[i]
    {
      assert d[off + i] == c[i] && c[i] == b[0 + i] && b[i] == a[0 + i];
    }
  }

  lemma SealKeepsFront(t: State, n: nat)
    requires n <= |t.chapters|
    ensures KeepsFront(t.chapters, SealOpen(t).chapters, 0, n)
  {
  }

  lemma PrefaceKeepsFront(files: Files, u: State, n: nat)
    requires n <= |u.chapters|
    ensures KeepsFront(u.chapters, AddPreface(files, u).chapters, Offset(u.prePics), n)
  {
    P.PrefaceShift(files, u);
  }

  /** The rules and pictures the trailing fill appends after the line loop left `s`. */
  function TrailingBlocks(files: Files, s: State): seq<Block> {
    P.FillBlocks(files, s.used, s.picCount + 1, P.FirstMissing(files, s.picCount + 1))
  }

  /** After the line loop, the chapters sealed before the next-to-last keep their place and content. */
  lemma FinalizeKeepsEarly(files: Files, s: State, vs: seq<string>)
    requires P.Shaped(s, vs) && |vs| >= 2
    ensures KeepsFront(s.chapters, Finalize(files, s).chapters, Offset(s.prePics), |vs| - 2)
  {
    var n := |vs| - 2;
    var t := TrailingFill(files, s);
    P.TrailingFillEffect(files, s, vs);
    assert KeepsFront(s.chapters, t.chapters, 0, n);
    var u := SealOpen(t);
    SealKeepsFront(t, n);
    PrefaceKeepsFront(files, u, n);
    assert u.prePics == s.prePics;
    FrontChain(s.chapters, t.chapters, u.chapters, AddPreface(files, u).chapters, Offset(s.prePics), n);
  }

  /** The next-to-last chapter after the trailing fill, at its place in the finished book. */
  lemma FinalizeFillChapter(files: Files, s: State, vs: seq<string>)
    requires P.Shaped(s, vs) && |vs| >= 2
    ensures |Finalize(files, s).chapters| == Offset(s.prePics) + |vs|
    ensures Finalize(files, s).chapters[Offset(s.prePics) + |vs| - 2].content == s.chapters[|vs| - 2].content + TrailingBlocks(files, s)
  {
    P.FinalizeFill(files, s, vs);
    assert Offset(s.prePics) == if s.prePics == [] then 0 else 1;
  }

  /** The open chapter, sealed last, at its place in the finished book. */
  lemma FinalizeOpenChapter(files: Files, s: State, vs: seq<string>)
    requires P.Shaped(s, vs) && vs != []
    ensures |Finalize(files, s).chapters| == Offset(s.prePics) + |vs|
    ensures Finalize(files, s).chapters[Offset(s.prePics) + |vs| - 1].content == s.html
  {
    P.FinalizeLastChapter(files, s, vs);
    assert Offset(s.prePics) == if s.prePics == [] then 0 else 1;
  }

  /**
    The chapters `toc` of a finished book, read against the parts of its text:
    after the `off` chapters of the preface, chapter `i` holds the body of
    part `i`, the next-to-last one followed by the trailing fill `fill`.
  */
  ghost predicate BookChapters(files: Files, toc: seq<Chapter>, off: nat, parts: seq<Part>, fill: seq<Block>) {
    var m := |parts|;
    && m >= 1
    && |toc| == off + m
    && (forall i :: 0 <= i < m - 2 ==> toc[off + i].content == Body(files, parts[i]))
    && (m >= 2 ==> toc[off + m - 2].content == Body(files, parts[m - 2]) + fill)
    && toc[off + m - 1].content == Body(files, parts[m - 1])
  }

  /** The finished chapters `toc`, assembled from the sealed chapters `c`, the open chapter's `html` and the fill. */
  lemma AssembleBook(files: Files, c: seq<Chapter>, html: seq<Block>, toc: seq<Chapter>, off: nat, m: nat, parts: seq<Part>, fill: seq<Block>)
    requires m == |parts| && m >= 1 && |c| == m - 1 && |toc| == off + m
    requires forall i :: 0 <= i < |parts| - 1 ==> c[i].content == Body(files, parts[i])
    requires html == Body(files, parts[|parts| - 1]) && toc[off + m - 1].content == html
    requires m >= 2 ==> toc[off + m - 2].content == c[m - 2].content + fill
    requires m >= 2 ==> KeepsFront(c, toc, off, m - 2)
    ensures BookChapters(files, toc, off, parts, fill)
  {
  }

  /** `Finalize` on the state the line loop leaves after reading the parts. */
  lemma FinalizeChapters(files: Files, s: State, vs: seq<string>, parts: seq<Part>)
    requires P.Shaped(s, vs) && |vs| == |parts| && parts != []
    requires |s.chapters| == |parts| - 1
    requires forall i :: 0 <= i < |parts| - 1 ==> s.chapters[i].content == Body(files, parts[i])
    requires s.html == Body(files, parts[|parts| - 1])
    ensures BookChapters(files, Finalize(files, s).chapters, Offset(s.prePics), parts, TrailingBlocks(files, s))
  {
    FinalizeOpenChapter(files, s, vs);
    if |parts| >= 2 {
      FinalizeFillChapter(files, s, vs);
      FinalizeKeepsEarly(files, s, vs);
    }
    AssembleBook(files, s.chapters, s.html, Finalize(files, s).chapters, Offset(s.prePics), |vs|, parts, TrailingBlocks(files, s));
  }

  /** `Compile` on lines whose loop leaves the state `s` described by `parts`. */
  lemma CompileChapters(txtFile: string, files: Files, lines: seq<string>, s: State, vs: seq<string>, parts: seq<Part>)
    requires s == RunLines(files, Initial(), lines) && s.prePics == P.Backlog(lines)
    requires P.Shaped(s, vs) && |vs| == |parts| && parts != []
    requires |s.chapters| == |parts| - 1
    requires forall i :: 0 <= i < |parts| - 1 ==> s.chapters[i].content == Body(files, parts[i])
    requires s.html == Body(files, parts[|parts| - 1])
    ensures BookChapters(files, Compile(txtFile, files, lines).toc, Offset(P.Backlog(lines)), parts, TrailingBlocks(files, s))
  {
    FinalizeChapters(files, s, vs, parts);
    assert Compile(txtFile, files, lines).toc == Finalize(files, s).chapters;
  }

  /**
    The book of a text `pre + Flatten(parts)`: after the preface (if any),
    chapter `i` holds the heading of the `i`-th marker and the blocks of the
    lines up to the next marker; the next-to-last chapter is followed by the
    trailing fill's rules and pictures.
  */
  lemma {:induction false} CompileContents(txtFile: string, files: Files, pre: seq<string>, parts: seq<Part>)
    requires NoMarker(pre) && WellSplit(parts) && parts != []
    ensures BookChapters(files, Compile(txtFile, files, pre + Flatten(parts)).toc, Offset(P.Backlog(pre + Flatten(parts))), parts,
      TrailingBlocks(files, RunLines(files, Initial(), pre + Flatten(parts))))
  {
    var lines := pre + Flatten(parts);
    var s := RunLines(files, Initial(), lines);
    var vs := P.VolumeLines(lines);
    LoopContents(files, pre, parts);
    P.RunLinesFromStart(files, lines);
    assert |vs| == |parts|;
    CompileChapters(txtFile, files, lines, s, vs, parts);
  }
}
