/**
  `create_epub` (maker.py) as the imperative program it is: an object holding
  the variables that the nested `add_image` closure and the line loop update
  in place, with one method per step.  Each method is proved to perform the
  matching transition of `MakerModel`, and `CreateEpub` is proved to produce
  `MakerModel.Compile` of its inputs.
*/
module Maker {
  import opened Wrappers
  import opened Text
  import M = MakerModel

  class EpubMaker {
    const files: M.Files
    var cover: Option<M.Ext>
    var usedPics: set<nat>
    var picCount: nat
    var items: seq<M.ImageItem>
    var prePics: seq<nat>
    var currentTitle: Option<string>
    var currentHtml: seq<M.Block>
    var chapters: seq<M.Chapter>
    var spine: seq<M.SpineItem>
    var chapterCount: nat

    /** The fields as a model state. */
    function State(): M.State
      reads this
    {
      M.State(usedPics, picCount, items, prePics, currentTitle, currentHtml, chapters, spine, chapterCount)
    }

    /** The variables as `create_epub` initialises them before the cover probe. */
    constructor (files: M.Files)
      ensures this.files == files && cover == None
      ensures State() == M.Initial()
    {
      this.files := files;
      cover := None;
      usedPics, picCount, items, prePics := {}, 0, [], [];
      currentTitle, currentHtml := None, [];
      chapters, spine, chapterCount := [], [M.Nav], 0;
    }

    /** `add_image(num)`. */
    method AddImage(num: nat)
      modifies this
      ensures State() == M.AddImage(files, old(State()), num)
      ensures cover == old(cover)
    {
      if num in usedPics {
        return;
      }
      var found := M.FindImage(files, num);
      if found.None? {
        return;
      }
      items := items + [M.ImageItem(num, found.value)];
      usedPics := usedPics + {num};
      picCount := picCount + 1;
    }

    /** The cover probe: `find_image(1)` and `set_cover`; the manifest is left alone. */
    method ProbeCover()
      modifies this`cover
      ensures cover == M.FindImage(files, 1)
      ensures State() == old(State())
    {
      cover := M.FindImage(files, 1);
    }

    /** Seal the open chapter into `chapters` and `spine`, if one is open. */
    method SealChapter()
      modifies this
      ensures State() == M.SealOpen(old(State()))
      ensures cover == old(cover)
    {
      if currentTitle.Some? {
        var c := M.Chapter(currentTitle.value, chapterCount, currentHtml);
        chapters := chapters + [c];
        spine := spine + [M.Doc(chapterCount)];
      }
    }

    /** One iteration of `for raw in f`. */
    method ProcessLine(raw: string)
      modifies this
      ensures State() == M.StepLine(files, old(State()), raw)
      ensures cover == old(cover)
    {
      var line := Strip(raw);
      if line == [] {
        return;
      }
      if M.IsVolumeMarker(line) {
        OpenVolume(line);
      } else if M.HasImageMarker(line) {
        PlaceImage(M.ImageNumber(line));
      } else {
        currentHtml := currentHtml + [M.Paragraph(line)];
      }
    }

    /** A volume marker line: seal the open chapter, then start the next one. */
    method OpenVolume(line: string)
      modifies this
      ensures State() == M.OpenVolume(old(State()), line)
      ensures cover == old(cover)
    {
      SealChapter();
      chapterCount := chapterCount + 1;
      currentTitle := Some(line);
      currentHtml := [M.Heading(line)];
    }

    /** An image marker line for image `num`. */
    method PlaceImage(num: nat)
      modifies this
      ensures State() == M.PlaceImage(files, old(State()), num)
      ensures cover == old(cover)
    {
      if num > 1 {
        ghost var s0 := State();
        for i := 1 to num
          invariant M.Backfill(files, State(), i, num) == M.Backfill(files, s0, 1, num)
          invariant cover == old(cover)
        {
          AddImage(i);
          prePics := prePics + [i];
        }
      }
      AddImage(num);
      var found := M.FindImage(files, num);
      if found.Some? {
        currentHtml := currentHtml + [M.Picture(num, found.value)];
      }
    }

    /** The trailing fill: from `pic_count + 1`, add unused images to the last sealed chapter until one is missing. */
    method FillTrailing()
      requires chapters != []
      modifies this
      ensures State() == M.Fill(files, old(State()), old(picCount) + 1)
      ensures cover == old(cover)
    {
      ghost var s0 := State();
      var nextPic: nat := picCount + 1;
      while true
        invariant chapters != []
        invariant M.Fill(files, State(), nextPic) == M.Fill(files, s0, s0.picCount + 1)
        invariant cover == old(cover)
        decreases |M.FilesFrom(files, nextPic)|
      {
        var found := M.FindImage(files, nextPic);
        if found.None? {
          break;
        }
        M.FilesFromShrinks(files, nextPic);
        if nextPic !in usedPics {
          AddImage(nextPic);
          var last := chapters[|chapters| - 1];
          chapters := chapters[..|chapters| - 1] + [last.(content := last.content + [M.Rule, M.Picture(nextPic, found.value)])];
        }
        nextPic := nextPic + 1;
      }
    }

    /** Build `chap0` from `pre_pics` and put it first in the chapters and right after `nav` in the spine. */
    method InsertPreface()
      modifies this
      ensures State() == M.AddPreface(files, old(State()))
      ensures cover == old(cover)
    {
      if prePics == [] {
        return;
      }
      var html := [M.Heading(M.PrefaceTitle)];
      for k := 0 to |prePics|
        invariant html == [M.Heading(M.PrefaceTitle)] + M.PrefacePictures(files, prePics[..k])
      {
        assert prePics[..k + 1][..k] == prePics[..k];
        var found := M.FindImage(files, prePics[k]);
        if found.Some? {
          html := html + [M.Picture(prePics[k], found.value)];
        }
      }
      assert prePics[..|prePics|] == prePics;
      chapters := [M.Chapter(M.PrefaceTitle, 0, html)] + chapters;
      spine := M.InsertSecond(spine, M.Doc(0));
    }

    /** What `create_epub` does after the line loop: the trailing fill, the final seal and the preface. */
    method Finish()
      modifies this
      ensures State() == M.Finalize(files, old(State()))
      ensures cover == old(cover)
    {
      if chapters != [] {
        FillTrailing();
      }
      SealChapter();
      InsertPreface();
    }
  }

  /** `create_epub(txt_file, output_file, pic_dir)`, with the text file given as its lines and the picture directory as the set of files in it. */
  method CreateEpub(txtFile: string, lines: seq<string>, files: M.Files) returns (book: M.Book)
    ensures book == M.Compile(txtFile, files, lines)
  {
    var maker := new EpubMaker(files);
    maker.ProbeCover();
    for i := 0 to |lines|
      invariant maker.files == files && maker.cover == M.FindImage(files, 1)
      invariant M.RunLines(files, maker.State(), lines[i..]) == M.RunLines(files, M.Initial(), lines)
    {
      assert lines[i..][1..] == lines[i + 1..];
      maker.ProcessLine(lines[i]);
    }
    assert lines[|lines|..] == [];
    maker.Finish();
    book := M.Book(M.BookTitle(txtFile), maker.cover, maker.chapters, maker.spine, maker.items,
                   maker.picCount, maker.chapterCount);
  }
}
