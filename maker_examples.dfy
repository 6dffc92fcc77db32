/**
  Concrete runs of `create_epub` (maker.py) on small texts, worked out
  against the model.
*/
module MakerExamples {
  import opened Wrappers
  import opened Text
  import opened MakerModel
  import MakerProofs

  lemma VolumeLineExample(l: string)
    requires l == "第一卷 序"
    ensures Strip(l) == l && Classify(l) == VolumeMarker
  {
    StripNoSpace(l);
    ShortVolume(l);
  }

  lemma ImageLineExample()
    ensures Strip("插圖3") == "插圖3" && Classify("插圖3") == ImageMarker(3)
  {
    var l := "插圖3";
    StripNoSpace(l);
    assert SkipSpace(l, 2) == 2;
    assert DigitsOf(l) == "3" by {
      assert DigitsOf(l[..2]) == [] by {
        assert l[..2][..1] == "插";
      }
    }
    assert DecimalValue("3") == 3 by {
      assert "3"[..0] == [];
    }
  }

  lemma TextLineExample()
    ensures Strip("hello") == "hello" && Classify("hello") == TextLine
  {
    StripNoSpace("hello");
    PlainText("hello");
  }

  function SmallPics(): Files {
    {(1, Png), (2, Png), (3, Png)}
  }

  /** `插圖3` in the open chapter `第一卷 序`: images 1 and 2 go to the backlog, 3 to the chapter. */
  lemma PlaceThreeExample(s: State)
    requires s == State({}, 0, [], [], Some("第一卷 序"), [Heading("第一卷 序")], [], [Nav], 1)
    ensures PlaceImage(SmallPics(), s, 3)
      == s.(used := {1, 2, 3}, picCount := 3, items := [ImageItem(1, Png), ImageItem(2, Png), ImageItem(3, Png)],
            prePics := [1, 2], html := [Heading("第一卷 序"), Picture(3, Png)])
  {
    var files := SmallPics();
    var a := AddImage(files, s, 1);
    assert a == s.(used := {1}, picCount := 1, items := [ImageItem(1, Png)]);
    var b := AddImage(files, a.(prePics := [1]), 2);
    assert b.items == [ImageItem(1, Png), ImageItem(2, Png)];
    assert Backfill(files, s, 1, 3) == b.(prePics := [1, 2]);
  }

  /** The three lines of the example, one loop iteration each. */
  lemma LoopFirst(files: Files, s: State, raw: string)
    requires files == SmallPics() && s == Initial() && raw == "第一卷 序"
    ensures StepLine(files, s, raw) == State({}, 0, [], [], Some("第一卷 序"), [Heading("第一卷 序")], [], [Nav], 1)
  {
    VolumeLineExample(raw);
  }

  lemma LoopSecond(files: Files, s: State, raw: string)
    requires files == SmallPics() && raw == "插圖3"
    requires s == State({}, 0, [], [], Some("第一卷 序"), [Heading("第一卷 序")], [], [Nav], 1)
    ensures StepLine(files, s, raw)
      == State({1, 2, 3}, 3, [ImageItem(1, Png), ImageItem(2, Png), ImageItem(3, Png)], [1, 2],
               Some("第一卷 序"), [Heading("第一卷 序"), Picture(3, Png)], [], [Nav], 1)
  {
    ImageLineExample();
    PlaceThreeExample(s);
  }

  lemma LoopThird(files: Files, s: State, raw: string)
    requires files == SmallPics() && raw == "hello"
    requires s == State({1, 2, 3}, 3, [ImageItem(1, Png), ImageItem(2, Png), ImageItem(3, Png)], [1, 2],
                        Some("第一卷 序"), [Heading("第一卷 序"), Picture(3, Png)], [], [Nav], 1)
    ensures StepLine(files, s, raw)
      == State({1, 2, 3}, 3, [ImageItem(1, Png), ImageItem(2, Png), ImageItem(3, Png)], [1, 2],
               Some("第一卷 序"), [Heading("第一卷 序"), Picture(3, Png), Paragraph("hello")], [], [Nav], 1)
  {
    TextLineExample();
    assert s.html + [Paragraph("hello")] == [Heading("第一卷 序"), Picture(3, Png), Paragraph("hello")];
  }

  /** Three loop iterations, given the state after each. */
  lemma RunThree(files: Files, a: string, b: string, c: string, s0: State, s1: State, s2: State, s3: State)
    requires StepLine(files, s0, a) == s1 && StepLine(files, s1, b) == s2 && StepLine(files, s2, c) == s3
    ensures RunLines(files, s0, [a, b, c]) == s3
  {
    assert [a, b, c][1..] == [b, c] && [b, c][1..] == [c] && [c][1..] == [];
    assert RunLines(files, s2, [c]) == RunLines(files, s3, []);
    assert RunLines(files, s1, [b, c]) == RunLines(files, s2, [c]);
    assert RunLines(files, s0, [a, b, c]) == RunLines(files, s1, [b, c]);
  }

  lemma LoopExample(lines: seq<string>)
    requires lines == ["第一卷 序", "插圖3", "hello"]
    ensures RunLines(SmallPics(), Initial(), lines)
      == State({1, 2, 3}, 3, [ImageItem(1, Png), ImageItem(2, Png), ImageItem(3, Png)], [1, 2],
               Some("第一卷 序"), [Heading("第一卷 序"), Picture(3, Png), Paragraph("hello")], [], [Nav], 1)
  {
    var files := SmallPics();
    var s1 := State({}, 0, [], [], Some("第一卷 序"), [Heading("第一卷 序")], [], [Nav], 1);
    var s2 := State({1, 2, 3}, 3, [ImageItem(1, Png), ImageItem(2, Png), ImageItem(3, Png)], [1, 2],
                    Some("第一卷 序"), [Heading("第一卷 序"), Picture(3, Png)], [], [Nav], 1);
    var s3 := State({1, 2, 3}, 3, [ImageItem(1, Png), ImageItem(2, Png), ImageItem(3, Png)], [1, 2],
                    Some("第一卷 序"), [Heading("第一卷 序"), Picture(3, Png), Paragraph("hello")], [], [Nav], 1);
    LoopFirst(files, Initial(), lines[0]);
    LoopSecond(files, s1, lines[1]);
    LoopThird(files, s2, lines[2]);
    RunThree(files, lines[0], lines[1], lines[2], Initial(), s1, s2, s3);
  }

  lemma FinalizeExample(s: State)
    requires s == State({1, 2, 3}, 3, [ImageItem(1, Png), ImageItem(2, Png), ImageItem(3, Png)], [1, 2],
                        Some("第一卷 序"), [Heading("第一卷 序"), Picture(3, Png), Paragraph("hello")], [], [Nav], 1)
    ensures Finalize(SmallPics(), s).chapters
      == [Chapter("插圖", 0, [Heading("插圖"), Picture(1, Png), Picture(2, Png)]),
          Chapter("第一卷 序", 1, [Heading("第一卷 序"), Picture(3, Png), Paragraph("hello")])]
    ensures Finalize(SmallPics(), s).spine == [Nav, Doc(0), Doc(1)]
    ensures Finalize(SmallPics(), s).items == s.items && Finalize(SmallPics(), s).picCount == 3
    ensures Finalize(SmallPics(), s).chapterCount == 1
  {
    var files := SmallPics();
    assert PrefacePictures(files, [1]) == [Picture(1, Png)] by {
      assert [1][..0] == [];
    }
    assert PrefacePictures(files, [1, 2]) == [Picture(1, Png), Picture(2, Png)] by {
      assert [1, 2][..1] == [1];
    }
    assert TrailingFill(files, s) == s;
    var t := SealOpen(s);
    assert t.chapters == [Chapter("第一卷 序", 1, [Heading("第一卷 序"), Picture(3, Png), Paragraph("hello")])];
    assert Finalize(files, s) == AddPreface(files, t);
    assert Preface(files, [1, 2]) == Chapter("插圖", 0, [Heading("插圖"), Picture(1, Png), Picture(2, Png)]);
    assert AddPreface(files, t).chapters == [Preface(files, [1, 2])] + t.chapters;
  }

  /**
    The lines `第一卷 序`, `插圖3`, `hello` with images 1, 2 and 3 present: the
    preface holds images 1 and 2, the one chapter holds its heading, image 3
    and the paragraph, and all three images are in the book once.
  */
  lemma EndToEnd(txtFile: string, lines: seq<string>)
    requires lines == ["第一卷 序", "插圖3", "hello"]
    ensures var b := Compile(txtFile, SmallPics(), lines);
      && b.toc == [Chapter("插圖", 0, [Heading("插圖"), Picture(1, Png), Picture(2, Png)]),
                   Chapter("第一卷 序", 1, [Heading("第一卷 序"), Picture(3, Png), Paragraph("hello")])]
      && b.spine == [Nav, Doc(0), Doc(1)]
      && b.images == [ImageItem(1, Png), ImageItem(2, Png), ImageItem(3, Png)]
      && b.picCount == 3 && b.chapterCount == 1 && b.cover == Some(Png)
  {
    LoopExample(lines);
    FinalizeExample(RunLines(SmallPics(), Initial(), lines));
  }

  // A text with two volumes and no image markers, with 1.png and 2.jpg present.

  function TwoPics(): Files {
    {(1, Png), (2, Jpg)}
  }

  /** A line that starts with neither `第` nor contains `插` is plain text. */
  lemma PlainText(line: string)
    requires line != [] && line[0] != '第' && '插' !in line
    ensures Classify(line) == TextLine
  {
  }

  /** `第`, one numeral, `卷`: a chapter marker. */
  lemma ShortVolume(line: string)
    requires |line| >= 3 && line[0] == '第' && IsNumeral(line[1]) && line[2] == '卷'
    ensures Classify(line) == VolumeMarker
  {
    assert NumeralRun(line, 2) == 0;
  }

  lemma TwoVolumesLines(lines: seq<string>)
    requires lines == ["第一卷", "a", "第二卷", "b"]
    ensures Strip(lines[0]) == lines[0] && Classify(lines[0]) == VolumeMarker
    ensures Strip(lines[1]) == lines[1] && Classify(lines[1]) == TextLine
    ensures Strip(lines[2]) == lines[2] && Classify(lines[2]) == VolumeMarker
    ensures Strip(lines[3]) == lines[3] && Classify(lines[3]) == TextLine
  {
    StripNoSpace(lines[0]);
    StripNoSpace(lines[1]);
    StripNoSpace(lines[2]);
    StripNoSpace(lines[3]);
    ShortVolume(lines[0]);
    PlainText(lines[1]);
    ShortVolume(lines[2]);
    PlainText(lines[3]);
  }

  /** A text line in an open chapter adds its paragraph. */
  lemma TextStep(files: Files, s: State, raw: string)
    requires Strip(raw) == raw && Classify(raw) == TextLine
    ensures StepLine(files, s, raw) == s.(html := s.html + [Paragraph(raw)])
  {
  }

  /** A chapter marker seals the open chapter and opens its own. */
  lemma VolumeStep(files: Files, s: State, raw: string)
    requires Strip(raw) == raw && Classify(raw) == VolumeMarker
    ensures StepLine(files, s, raw) == OpenVolume(s, raw)
  {
  }

  lemma OpenFirstVolume(s: State, line: string)
    requires s == Initial() && line == "第一卷"
    ensures OpenVolume(s, line) == State({}, 0, [], [], Some(line), [Heading(line)], [], [Nav], 1)
  {
  }

  lemma OpenSecondVolume(s: State, line: string)
    requires s == State({}, 0, [], [], Some("第一卷"), [Heading("第一卷"), Paragraph("a")], [], [Nav], 1)
    requires line == "第二卷"
    ensures OpenVolume(s, line)
      == State({}, 0, [], [], Some(line), [Heading(line)],
               [Chapter("第一卷", 1, [Heading("第一卷"), Paragraph("a")])], [Nav, Doc(1)], 2)
  {
  }

  lemma TwoVolumesLoop(lines: seq<string>)
    requires lines == ["第一卷", "a", "第二卷", "b"]
    ensures RunLines(TwoPics(), Initial(), lines)
      == State({}, 0, [], [], Some("第二卷"), [Heading("第二卷"), Paragraph("b")],
               [Chapter("第一卷", 1, [Heading("第一卷"), Paragraph("a")])], [Nav, Doc(1)], 2)
  {
    var files := TwoPics();
    TwoVolumesLines(lines);
    var s0 := Initial();
    var s1 := StepLine(files, s0, lines[0]);
    VolumeStep(files, s0, lines[0]);
    OpenFirstVolume(s0, lines[0]);
    var s2 := StepLine(files, s1, lines[1]);
    TextStep(files, s1, lines[1]);
    assert s1.html + [Paragraph("a")] == [Heading("第一卷"), Paragraph("a")];
    var s3 := StepLine(files, s2, lines[2]);
    VolumeStep(files, s2, lines[2]);
    OpenSecondVolume(s2, lines[2]);
    var s4 := StepLine(files, s3, lines[3]);
    TextStep(files, s3, lines[3]);
    assert s3.html + [Paragraph("b")] == [Heading("第二卷"), Paragraph("b")];
    RunThree(files, lines[1], lines[2], lines[3], s1, s2, s3, s4);
    assert lines[1..] == [lines[1], lines[2], lines[3]];
  }

  lemma FillFirstOfTwo(files: Files, s: State)
    requires files == TwoPics()
    requires s == State({}, 0, [], [], Some("第二卷"), [Heading("第二卷"), Paragraph("b")],
                        [Chapter("第一卷", 1, [Heading("第一卷"), Paragraph("a")])], [Nav, Doc(1)], 2)
    ensures Fill(files, s, 1)
      == Fill(files, State({1}, 1, [ImageItem(1, Png)], [], Some("第二卷"), [Heading("第二卷"), Paragraph("b")],
                           [Chapter("第一卷", 1, [Heading("第一卷"), Paragraph("a"), Rule, Picture(1, Png)])], [Nav, Doc(1)], 2), 2)
  {
    var c := s.chapters[0];
    assert FindImage(files, 1) == Some(Png);
    var a := AddImage(files, s, 1);
    assert a == s.(used := {1}, picCount := 1, items := [ImageItem(1, Png)]);
    assert c.content + [Rule, Picture(1, Png)] == [Heading("第一卷"), Paragraph("a"), Rule, Picture(1, Png)];
    assert FillOne(files, s, 1, Png) == AppendLast(a, [Rule, Picture(1, Png)]);
  }

  lemma FillSecondOfTwo(files: Files, s: State)
    requires files == TwoPics()
    requires s == State({1}, 1, [ImageItem(1, Png)], [], Some("第二卷"), [Heading("第二卷"), Paragraph("b")],
                        [Chapter("第一卷", 1, [Heading("第一卷"), Paragraph("a"), Rule, Picture(1, Png)])], [Nav, Doc(1)], 2)
    ensures Fill(files, s, 2)
      == State({1, 2}, 2, [ImageItem(1, Png), ImageItem(2, Jpg)], [], Some("第二卷"), [Heading("第二卷"), Paragraph("b")],
               [Chapter("第一卷", 1, [Heading("第一卷"), Paragraph("a"), Rule, Picture(1, Png), Rule, Picture(2, Jpg)])], [Nav, Doc(1)], 2)
  {
    var c := s.chapters[0];
    assert c.content + [Rule, Picture(2, Jpg)] == [Heading("第一卷"), Paragraph("a"), Rule, Picture(1, Png), Rule, Picture(2, Jpg)];
    assert [ImageItem(1, Png)] + [ImageItem(2, Jpg)] == [ImageItem(1, Png), ImageItem(2, Jpg)];
    var f := FillOne(files, s, 2, Jpg);
    assert Fill(files, f, 3) == f;
  }

  lemma TwoVolumesFill(s: State)
    requires s == State({}, 0, [], [], Some("第二卷"), [Heading("第二卷"), Paragraph("b")],
                        [Chapter("第一卷", 1, [Heading("第一卷"), Paragraph("a")])], [Nav, Doc(1)], 2)
    ensures Finalize(TwoPics(), s).chapters
      == [Chapter("第一卷", 1, [Heading("第一卷"), Paragraph("a"), Rule, Picture(1, Png), Rule, Picture(2, Jpg)]),
          Chapter("第二卷", 2, [Heading("第二卷"), Paragraph("b")])]
    ensures Finalize(TwoPics(), s).items == [ImageItem(1, Png), ImageItem(2, Jpg)]
    ensures Finalize(TwoPics(), s).picCount == 2
  {
    var files := TwoPics();
    var f1 := State({1}, 1, [ImageItem(1, Png)], [], Some("第二卷"), [Heading("第二卷"), Paragraph("b")],
                    [Chapter("第一卷", 1, [Heading("第一卷"), Paragraph("a"), Rule, Picture(1, Png)])], [Nav, Doc(1)], 2);
    var f2 := State({1, 2}, 2, [ImageItem(1, Png), ImageItem(2, Jpg)], [], Some("第二卷"), [Heading("第二卷"), Paragraph("b")],
                    [Chapter("第一卷", 1, [Heading("第一卷"), Paragraph("a"), Rule, Picture(1, Png), Rule, Picture(2, Jpg)])], [Nav, Doc(1)], 2);
    FillFirstOfTwo(files, s);
    FillSecondOfTwo(files, f1);
    assert TrailingFill(files, s) == f2;
    assert Finalize(files, s) == SealOpen(f2);
  }

  /**
    Two chapter markers and no image marker, with 1.png and 2.jpg present:
    the trailing fill puts both images into the first chapter, the last one
    sealed inside the line loop, and not into the final chapter; and image 1,
    the cover, is counted although no marker names it.
  */
  lemma TwoVolumesExample(txtFile: string, lines: seq<string>)
    requires lines == ["第一卷", "a", "第二卷", "b"]
    ensures var b := Compile(txtFile, TwoPics(), lines);
      && b.toc == [Chapter("第一卷", 1, [Heading("第一卷"), Paragraph("a"), Rule, Picture(1, Png), Rule, Picture(2, Jpg)]),
                   Chapter("第二卷", 2, [Heading("第二卷"), Paragraph("b")])]
      && b.images == [ImageItem(1, Png), ImageItem(2, Jpg)]
      && b.picCount == 2 && b.cover == Some(Png)
  {
    TwoVolumesLoop(lines);
    TwoVolumesFill(RunLines(TwoPics(), Initial(), lines));
  }

  /** `插圖1-2` is an image marker for 12: every digit of the line counts, in order. */
  lemma DigitsExample(l: string)
    requires l == "插圖1-2"
    ensures Strip(l) == l && Classify(l) == ImageMarker(12)
  {
    StripNoSpace(l);
    MarkerExample(l);
    DigitsOfExample(l);
    TwelveExample(DigitsOf(l));
  }

  lemma MarkerExample(l: string)
    requires l == "插圖1-2"
    ensures !IsVolumeMarker(l) && HasImageMarker(l)
  {
    assert SkipSpace(l, 2) == 2;
  }

  lemma TwelveExample(ds: string)
    requires ds == "12"
    ensures AllDigits(ds) && DecimalValue(ds) == 12
  {
    assert ds[..1] == "1" && "1"[..0] == [];
  }

  /** `re.sub(r"\D", "", "插圖1-2")` is `12`. */
  lemma DigitsOfExample(l: string)
    requires l == "插圖1-2"
    ensures DigitsOf(l) == "12"
  {
    assert DigitsOf(l[..4]) == "1" by {
      assert DigitsOf(l[..3]) == "1" by {
        assert DigitsOf(l[..2]) == [] by {
          assert l[..2][..1] == "插" && "插"[..0] == [];
        }
        assert l[..3][..2] == l[..2];
      }
      assert l[..4][..3] == l[..3];
    }
    assert l[..|l| - 1] == l[..4];
  }

  /** A backlog entry without a file shows nothing in `chap0`; the others keep their place. */
  lemma PrefaceSkipsMissing(files: Files, ns: seq<nat>)
    requires files == {(1, Png)} && ns == [2, 1]
    ensures PrefacePictures(files, ns) == [Picture(1, Png)]
  {
    assert ns[..1] == [2] && [2][..0] == [];
    assert FindImage(files, 2) == None;
    assert FindImage(files, 1) == Some(Png);
  }

  /** A text whose only marker is `插圖3` still gets `chap0`, for the backlog 1, 2, and no other chapter. */
  lemma ImageOnlyText(txtFile: string, lines: seq<string>)
    requires lines == ["插圖3"]
    ensures |Compile(txtFile, SmallPics(), lines).toc| == 1
    ensures Compile(txtFile, SmallPics(), lines).toc[0].title == PrefaceTitle
  {
    ImageLineExample();
    assert lines[1..] == [];
    assert MakerProofs.VolumeLines(lines) == [];
    assert MakerProofs.Backlog(lines) == Range(1, 3);
    MakerProofs.CompileChapters(txtFile, SmallPics(), lines);
  }
}
