/** Concrete runs of the interface helpers on the kind of input that the console prompts of `interface.py` ask for. */
module InterfaceExamples {
  import opened Wrappers
  import opened Text
  import opened Interface

  lemma DecimalSnoc(s: string, c: char)
    requires AllDigits(s) && IsDigit(c)
    ensures AllDigits(s + [c]) && DecimalValue(s + [c]) == DecimalValue(s) * 10 + DigitValue(c)
  {
    assert (s + [c])[..|s|] == s;
  }

  lemma DecimalExample()
    ensures DecimalValue("185077") == 185077
  {
    DecimalSnoc("", '1');
    assert "" + ['1'] == "1";
    DecimalSnoc("1", '8');
    assert "1" + ['8'] == "18";
    DecimalSnoc("18", '5');
    assert "18" + ['5'] == "185";
    DecimalSnoc("185", '0');
    assert "185" + ['0'] == "1850";
    DecimalSnoc("1850", '7');
    assert "1850" + ['7'] == "18507";
    DecimalSnoc("18507", '7');
    assert "18507" + ['7'] == "185077";
  }

  lemma StartNumberExample(name: string)
    requires name == "185077"
    ensures StartNumber(name) == Some(185077)
  {
    StartNumberOfParts([], name, []);
    assert [] + name + [] == name;
    DecimalExample();
  }

  lemma JpgExample()
    ensures NormalizeExt("jpg") == "jpg"
  {
    assert Lower("jpg") == "jpg";
  }

  /**
    The file name of the example URL in the input prompt of `get_pic_url_info`,
    `185077.jpg`, under any directory (`https://pic.777743.xyz/3/3453/150446`
    in that prompt): the
    directory with its slash, number 185077 and extension `jpg`.
  */
  lemma NumberedUrl(input: string, dir: string, name: string, ext: string)
    requires name == "185077" && ext == "jpg"
    requires dir != [] && !IsSpace(dir[0]) && input == dir + "/" + (name + "." + ext)
    ensures ParseUrl(input) == Some(PicInfo(dir + "/", 185077, "jpg"))
  {
    StripNoSpace(input);
    NameParts(name, ext);
    ParseUrlOfParts(input, dir, name, ext);
  }

  lemma NameParts(name: string, ext: string)
    requires name == "185077" && ext == "jpg"
    ensures '/' !in name && '/' !in ext && '.' !in ext
    ensures StartNumber(name) == Some(185077) && NormalizeExt(ext) == "jpg"
  {
    StartNumberExample(name);
    JpgExample();
  }

  lemma TokensExample(indices: string)
    requires indices == "3,1,9"
    ensures Tokens(indices) == ["3", "1", "9"]
  {
    var parts := ["3", "1", "9"];
    assert Join(parts, ',') == indices;
    StripNoSpace(indices);
    SplitJoin(parts, ',');
  }

  lemma TokenExample(n: nat, t: string)
    requires n < 10 && t == [DigitChar(n)]
    ensures ParseToken(t) == Some(n)
  {
    assert !IsSpace(t[0]);
    StripNoSpace(t);
    assert NatToString(n) == t;
    ParseIntOfString(n);
  }

  lemma ParsedExample(tokens: seq<string>)
    requires tokens == ["3", "1", "9"]
    ensures |Parsed(tokens)| == 3
    ensures Parsed(tokens)[0] == Some(3) && Parsed(tokens)[1] == Some(1) && Parsed(tokens)[2] == Some(9)
  {
    TokenExample(3, tokens[0]);
    TokenExample(1, tokens[1]);
    TokenExample(9, tokens[2]);
  }

  lemma PickExample(files: seq<string>)
    requires files == ["a.txt", "b.txt", "c.txt"]
    ensures Pick(files, [3, 1, 9]) == ["c.txt", "a.txt"]
  {
    assert [] + [3] == [3] && [3] + [1] == [3, 1] && [3, 1] + [9] == [3, 1, 9];
    PickSnoc(files, [], 3);
    PickSnoc(files, [3], 1);
    PickSnoc(files, [3, 1], 9);
    assert Keep(files, 3) == ["c.txt"] && Keep(files, 1) == ["a.txt"] && Keep(files, 9) == [];
  }

  lemma ChoiceExample(choice: string)
    requires choice == "2"
    ensures Strip(choice) == "2"
  {
    assert !IsSpace(choice[0]);
    StripNoSpace(choice);
  }

  /** Every one of the tokens `3`, `1`, `9` is an integer: 3, 1 and 9. */
  lemma IndicesExample(tokens: seq<string>, vs: seq<int>)
    requires tokens == ["3", "1", "9"] && vs == [3, 1, 9]
    ensures |vs| == |tokens| && forall k :: 0 <= k < |vs| ==> Parsed(tokens)[k] == Some(vs[k])
  {
    ParsedExample(tokens);
    forall k | 0 <= k < |vs|
      ensures Parsed(tokens)[k] == Some(vs[k])
    {
      if k == 0 {
      } else if k == 1 {
      } else {
      }
    }
  }

  /** Choice `2` with indices `3,1,9` over three files picks the third and the first; 9 is out of range. */
  lemma SelectionExample(files: seq<string>, choice: string, indices: string)
    requires files == ["a.txt", "b.txt", "c.txt"] && choice == "2" && indices == "3,1,9"
    ensures Selection(files, choice, indices) == Some(["c.txt", "a.txt"])
  {
    ChoiceExample(choice);
    var vs := [3, 1, 9];
    TokensExample(indices);
    IndicesExample(Tokens(indices), vs);
    SelectionPicks(files, choice, indices, vs);
    PickExample(files);
  }
}
