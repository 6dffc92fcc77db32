/**
  The parsing done by the command-line front end (interface.py), with every
  `input()` replaced by a string parameter: the first-picture URL of
  `get_pic_url_info`, the file selection of `main`, and the `.epub` name of
  `process_txt_file`.
*/
module Interface {
  import opened Wrappers
  import opened Text
  import SeqFacts

  // ------------------------------------------------------ the picture URL

  /** The dictionary `get_pic_url_info` returns. */
  datatype PicInfo = PicInfo(baseUrl: string, startNum: nat, ext: string)

  predicate Supported(ext: string) {
    ext == "jpg" || ext == "png" || ext == "jpeg"
  }

  /** Index of the first decimal digit, if any. */
  function FirstDigit(s: string): (r: Option<nat>)
    ensures r.None? <==> forall k :: 0 <= k < |s| ==> !IsDigit(s[k])
    ensures r.Some? ==> r.value < |s| && IsDigit(s[r.value])
    ensures r.Some? ==> forall k :: 0 <= k < r.value ==> !IsDigit(s[k])
  {
    if s == [] then None
    else if IsDigit(s[0]) then Some(0)
    else match FirstDigit(s[1..])
      case None => None
      case Some(i) => Some(i + 1)
  }

  /** End of the run of digits that starts at `i`. */
  function RunEnd(s: string, i: nat): (e: nat)
    requires i <= |s|
    ensures i <= e <= |s|
    ensures forall k :: i <= k < e ==> IsDigit(s[k])
    ensures e == |s| || !IsDigit(s[e])
    decreases |s| - i
  {
    if i == |s| || !IsDigit(s[i]) then i else RunEnd(s, i + 1)
  }

  /** `re.search(r'(\d+)', name)` read by `int`: the value of the leftmost maximal run of digits. */
  function StartNumber(name: string): Option<nat> {
    match FirstDigit(name)
    case None => None
    case Some(i) =>
      var e := RunEnd(name, i);
      assert AllDigits(name[i..e]) by {
        forall k | 0 <= k < e - i ensures IsDigit(name[i..e][k]) {
          assert name[i..e][k] == name[i + k];
        }
      }
      Some(DecimalValue(name[i..e]))
  }

  /** A name with no digit yields no number. */
  lemma StartNumberNone(name: string)
    requires forall k :: 0 <= k < |name| ==> !IsDigit(name[k])
    ensures StartNumber(name) == None
  {
  }

  /** The number is read from the first run of digits, however the rest of the name looks. */
  lemma StartNumberOfParts(p: string, d: string, q: string)
    requires forall k :: 0 <= k < |p| ==> !IsDigit(p[k])
    requires d != [] && AllDigits(d)
    requires q == [] || !IsDigit(q[0])
    ensures StartNumber(p + d + q) == Some(DecimalValue(d))
  {
    var s := p + d + q;
    assert forall k :: 0 <= k < |p| ==> s[k] == p[k];
    assert forall k :: |p| <= k < |p| + |d| ==> s[k] == d[k - |p|];
    assert |p| + |d| < |s| ==> s[|p| + |d|] == q[0];
    assert IsDigit(s[|p|]);
    var i := FirstDigit(s).value;
    var e := RunEnd(s, i);
    assert s[i..e] == d;
  }

  /** `ext.lower()`, replaced by `jpg` unless it is `jpg`, `png` or `jpeg`. */
  function NormalizeExt(ext: string): (r: string)
    ensures Supported(r)
    ensures Supported(Lower(ext)) ==> r == Lower(ext)
  {
    var e := Lower(ext);
    if Supported(e) then e else "jpg"
  }

  /** Upper and lower case spellings of an extension give the same result. */
  lemma NormalizeExtIgnoresCase(ext: string)
    ensures NormalizeExt(Lower(ext)) == NormalizeExt(ext)
  {
    LowerIdempotent(ext);
  }

  /**
    `get_pic_url_info` once the URL is read: strip it, cut it at the last `/`
    into `base_url` (keeping the `/`) and the file name, cut the file name at
    its last `.`, read the start number from the part before it and normalise
    the extension after it.  `None` is each of the function's error returns.
  */
  function ParseUrl(input: string): (r: Option<PicInfo>)
    ensures r.Some? ==> Supported(r.value.ext)
  {
    var full := Strip(input);
    if full == [] then None
    else match LastIndex(full, '/')
      case None => None
      case Some(i) => ParseFileName(full[..i] + "/", full[i + 1..])
  }

  /** The file-name half of `get_pic_url_info`, under the base URL `baseUrl`. */
  function ParseFileName(baseUrl: string, filename: string): (r: Option<PicInfo>)
    ensures r.Some? ==> Supported(r.value.ext) && r.value.baseUrl == baseUrl && '.' in filename
  {
    match LastIndex(filename, '.')
    case None => None
    case Some(j) =>
      match StartNumber(filename[..j])
      case None => None
      case Some(n) => Some(PicInfo(baseUrl, n, NormalizeExt(filename[j + 1..])))
  }

  /** An empty URL and a URL without `/` are refused. */
  lemma ParseUrlRefuses(input: string)
    requires Strip(input) == [] || '/' !in Strip(input)
    ensures ParseUrl(input) == None
  {
  }

  /** A parsed URL is `base_url` followed by the file name: the base ends at the last `/` ... */
  lemma ParseUrlBase(input: string)
    requires ParseUrl(input).Some?
    ensures var full, b := Strip(input), ParseUrl(input).value.baseUrl;
      b != [] && b[|b| - 1] == '/' && |b| <= |full| && full[..|b|] == b
  {
    var full := Strip(input);
    var i := LastIndex(full, '/').value;
    var b := full[..i] + "/";
    assert ParseUrl(input) == ParseFileName(b, full[i + 1..]);
    assert ParseUrl(input).value.baseUrl == b;
    SeqFacts.PrefixSnoc(full, i);
  }

  /** ... and the file name after it has no `/` and has a `.`. */
  lemma ParseUrlFileName(input: string)
    requires ParseUrl(input).Some?
    ensures var full, b := Strip(input), ParseUrl(input).value.baseUrl;
      |b| <= |full| && '/' !in full[|b|..] && '.' in full[|b|..]
  {
    var full := Strip(input);
    var i := LastIndex(full, '/').value;
    var f := full[i + 1..];
    assert ParseUrl(input) == ParseFileName(full[..i] + "/", f);
    assert '.' in f;
    assert |ParseUrl(input).value.baseUrl| == i + 1;
  }

  /** A file name without `.` is refused. */
  lemma ParseUrlNoExtension(input: string, a: string, f: string)
    requires Strip(input) == a + "/" + f && '/' !in f && '.' !in f
    ensures ParseUrl(input) == None
  {
    ParseUrlOfFile(input, a, f);
  }

  /**
    The whole parse for a URL `a/name.ext` whose file name has no `/` and
    whose extension has no `.`: the base is `a/`, the number comes from
    `name`, the extension from `ext`.
  */
  lemma ParseUrlOfParts(input: string, a: string, name: string, ext: string)
    requires Strip(input) == a + "/" + (name + "." + ext)
    requires '/' !in name && '/' !in ext && '.' !in ext
    ensures ParseUrl(input)
      == match StartNumber(name)
         case None => None
         case Some(n) => Some(PicInfo(a + "/", n, NormalizeExt(ext)))
  {
    var f := name + "." + ext;
    assert '/' !in f by {
      forall k | 0 <= k < |f| ensures f[k] != '/' {
        if k < |name| {
          assert f[k] == name[k];
        } else if k > |name| {
          assert f[k] == ext[k - |name| - 1];
        }
      }
    }
    ParseUrlOfFile(input, a, f);
    ParseFileNameOfParts(a + "/", name, ext);
  }

  /** The cut at the last `/`: `a/` is the base and `f` the file name when `f` has no `/`. */
  lemma ParseUrlOfFile(input: string, a: string, f: string)
    requires Strip(input) == a + "/" + f && '/' !in f
    ensures ParseUrl(input) == ParseFileName(a + "/", f)
  {
    LastIndexOfSplit(a, '/', f);
    var full := Strip(input);
    assert full[..|a|] == a;
    assert full[|a| + 1..] == f;
  }

  /** The cut at the last `.`: the number comes from `name`, the extension from `ext`. */
  lemma ParseFileNameOfParts(b: string, name: string, ext: string)
    requires '.' !in ext
    ensures ParseFileName(b, name + "." + ext)
      == match StartNumber(name)
         case None => None
         case Some(n) => Some(PicInfo(b, n, NormalizeExt(ext)))
  {
    var f := name + "." + ext;
    LastIndexOfSplit(name, '.', ext);
    assert f[..|name|] == name;
    assert f[|name| + 1..] == ext;
  }

  // ------------------------------------------------------- int(token)

  /** The part of Python's `int` grammar after the sign: digits, single `_` allowed between two digits. */
  predicate IntBody(t: string) {
    && t != [] && IsDigit(t[0]) && IsDigit(t[|t| - 1])
    && (forall k :: 0 <= k < |t| ==> IsDigit(t[k]) || t[k] == '_')
    && (forall k :: 0 <= k < |t| - 1 ==> IsDigit(t[k]) || IsDigit(t[k + 1]))
  }

  /** `int(s)` on a string without surrounding whitespace; `None` where Python raises `ValueError`. */
  function ParseInt(s: string): (r: Option<int>)
    ensures s == [] ==> r.None?
    ensures r.Some? && s[0] == '-' ==> r.value <= 0
    ensures r.Some? && s[0] != '-' ==> r.value >= 0
  {
    if s != [] && (s[0] == '+' || s[0] == '-') then
      var body := s[1..];
      if IntBody(body) then
        var v: int := DecimalValue(DigitsOf(body));
        Some(if s[0] == '-' then -v else v)
      else None
    else if IntBody(s) then Some(DecimalValue(DigitsOf(s)))
    else None
  }

  lemma DigitsOfAllDigits(s: string)
    requires AllDigits(s)
    ensures DigitsOf(s) == s
  {
    if s != [] {
      var init, c := s[..|s| - 1], s[|s| - 1];
      assert AllDigits(init) && IsDigit(c);
      DigitsOfAllDigits(init);
      assert DigitsOf(s) == init + [c];
      assert s == init + [c];
    }
  }

  /** `int` reads back what `str` writes. */
  lemma ParseIntOfString(n: nat)
    ensures ParseInt(NatToString(n)) == Some(n)
  {
    DigitsOfAllDigits(NatToString(n));
    DecimalOfNatToString(n);
    DigitsIntBody(NatToString(n));
  }

  /** ... with a minus sign in front, the negated number. */
  lemma ParseIntOfNegative(n: nat)
    ensures ParseInt("-" + NatToString(n)) == Some(-(n as int))
  {
    var d := NatToString(n);
    DigitsOfAllDigits(d);
    DecimalOfNatToString(n);
    DigitsIntBody(d);
    var s := "-" + d;
    assert s[0] == '-' && s[1..] == d;
  }

  /** ... with a plus sign in front, the number itself. */
  lemma ParseIntOfPositive(n: nat)
    ensures ParseInt("+" + NatToString(n)) == Some(n)
  {
    var d := NatToString(n);
    DigitsOfAllDigits(d);
    DecimalOfNatToString(n);
    DigitsIntBody(d);
    var s := "+" + d;
    assert s[0] == '+' && s[1..] == d;
  }

  lemma DigitsIntBody(d: string)
    requires d != [] && AllDigits(d)
    ensures IntBody(d)
  {
  }

  /** A token holding a character that is not a digit, a sign or `_` is refused. */
  lemma ParseIntRefuses(s: string, k: nat)
    requires k < |s| && !IsDigit(s[k]) && s[k] != '_' && s[k] != '+' && s[k] != '-'
    ensures ParseInt(s) == None
  {
    if s[0] == '+' || s[0] == '-' {
      assert s[1..][k - 1] == s[k];
    }
  }

  // ------------------------------------------------------ the selection

  /** `int(i.strip())` for one token of the index list. */
  function ParseToken(t: string): Option<int> {
    ParseInt(Strip(t))
  }

  /** The outcome of `int(i.strip())` for each token, in order. */
  function Parsed(tokens: seq<string>): (r: seq<Option<int>>)
    ensures |r| == |tokens|
  {
    seq(|tokens|, k requires 0 <= k < |tokens| => ParseToken(tokens[k]))
  }

  /** Building a list from per-item outcomes: `None` as soon as one item failed. */
  function Collect(opts: seq<Option<int>>): Option<seq<int>> {
    if opts == [] then Some([])
    else
      match Collect(opts[..|opts| - 1])
      case None => None
      case Some(vs) =>
        match opts[|opts| - 1]
        case None => None
        case Some(v) => Some(vs + [v])
  }

  /** `[int(i.strip()) for i in tokens]`; `None` if any token raises. */
  function ParseAll(tokens: seq<string>): Option<seq<int>> {
    Collect(Parsed(tokens))
  }

  /** A successful collection has one value per item, each the item's own value. */
  lemma {:induction false} CollectValues(opts: seq<Option<int>>)
    requires Collect(opts).Some?
    ensures |Collect(opts).value| == |opts|
    ensures forall k :: 0 <= k < |opts| ==> opts[k] == Some(Collect(opts).value[k])
  {
    if opts != [] {
      var init := opts[..|opts| - 1];
      CollectValues(init);
      assert forall k :: 0 <= k < |init| ==> opts[k] == init[k];
    }
  }

  /** One more item that succeeded adds its value. */
  lemma CollectStep(opts: seq<Option<int>>, i: nat, vs: seq<int>)
    requires i < |opts| && Collect(opts[..i]) == Some(vs) && opts[i].Some?
    ensures Collect(opts[..i + 1]) == Some(vs + [opts[i].value])
  {
    assert opts[..i + 1][..i] == opts[..i];
  }

  /** One failed item makes the whole collection fail, wherever it stands. */
  lemma {:induction false} CollectRejects(opts: seq<Option<int>>, k: nat)
    requires k < |opts| && opts[k].None?
    ensures Collect(opts).None?
    decreases |opts|
  {
    if k < |opts| - 1 {
      var init := opts[..|opts| - 1];
      assert init[k] == opts[k];
      CollectRejects(init, k);
    }
  }

  /** Items that all succeeded collect to exactly their values. */
  lemma {:induction false} CollectAll(opts: seq<Option<int>>, vs: seq<int>)
    requires |vs| == |opts| && forall k :: 0 <= k < |opts| ==> opts[k] == Some(vs[k])
    ensures Collect(opts) == Some(vs)
  {
    if opts != [] {
      var n := |opts| - 1;
      CollectAll(opts[..n], vs[..n]);
      assert vs[..n] + [vs[n]] == vs;
    }
  }

  /** A failed collection has a failed item. */
  lemma {:induction false} CollectFails(opts: seq<Option<int>>)
    requires Collect(opts).None?
    ensures exists k :: 0 <= k < |opts| && opts[k].None?
  {
    var init := opts[..|opts| - 1];
    if Collect(init).None? {
      CollectFails(init);
      var k :| 0 <= k < |init| && init[k].None?;
      assert opts[k] == init[k];
    } else {
      assert opts[|opts| - 1].None?;
    }
  }

  /** What one index contributes: `txt_files[idx - 1]` when `1 <= idx <= len(txt_files)`, else nothing. */
  function Keep(files: seq<string>, idx: int): seq<string> {
    if 1 <= idx <= |files| then [files[idx - 1]] else []
  }

  /** The files `main` keeps for the parsed indices, in order. */
  function Pick(files: seq<string>, idxs: seq<int>): seq<string> {
    if idxs == [] then [] else Pick(files, idxs[..|idxs| - 1]) + Keep(files, idxs[|idxs| - 1])
  }

  lemma PickSnoc(files: seq<string>, init: seq<int>, x: int)
    ensures Pick(files, init + [x]) == Pick(files, init) + Keep(files, x)
  {
    assert (init + [x])[..|init|] == init;
  }

  /** An in-range index picks one more file. */
  lemma PickStepIn(files: seq<string>, idxs: seq<int>, i: nat)
    requires i < |idxs| && 1 <= idxs[i] <= |files|
    ensures Pick(files, idxs[..i + 1]) == Pick(files, idxs[..i]) + [files[idxs[i] - 1]]
  {
    var p := idxs[..i + 1];
    assert p[..i] == idxs[..i] && p[i] == idxs[i];
  }

  /** An out-of-range index picks nothing. */
  lemma PickStepOut(files: seq<string>, idxs: seq<int>, i: nat)
    requires i < |idxs| && !(1 <= idxs[i] <= |files|)
    ensures Pick(files, idxs[..i + 1]) == Pick(files, idxs[..i])
  {
    var p := idxs[..i + 1];
    assert p[..i] == idxs[..i] && p[i] == idxs[i];
  }

  /** Picking for two lists of indices in turn is picking for both. */
  lemma {:induction false} PickAppend(files: seq<string>, a: seq<int>, b: seq<int>)
    ensures Pick(files, a + b) == Pick(files, a) + Pick(files, b)
    decreases |b|
  {
    if b == [] {
      assert a + b == a;
    } else {
      var s, b0, x := a + b, b[..|b| - 1], b[|b| - 1];
      assert s[..|s| - 1] == a + b0 && s[|s| - 1] == x;
      assert Pick(files, s) == Pick(files, a + b0) + Keep(files, x);
      assert Pick(files, b) == Pick(files, b0) + Keep(files, x);
      PickAppend(files, a, b0);
      assert (Pick(files, a) + Pick(files, b0)) + Keep(files, x) == Pick(files, a) + (Pick(files, b0) + Keep(files, x));
    }
  }

  /** With every index in range, one file per index, the `idx`-th for `idx`, repeats kept. */
  lemma {:induction false} PickInRange(files: seq<string>, idxs: seq<int>)
    requires forall k :: 0 <= k < |idxs| ==> 1 <= idxs[k] <= |files|
    ensures |Pick(files, idxs)| == |idxs|
    ensures forall k :: 0 <= k < |idxs| ==> Pick(files, idxs)[k] == files[idxs[k] - 1]
  {
    if idxs != [] {
      PickInRange(files, idxs[..|idxs| - 1]);
    }
  }

  /** Out-of-range indices are dropped with no effect. */
  lemma {:induction false} PickOutOfRange(files: seq<string>, idxs: seq<int>)
    requires forall k :: 0 <= k < |idxs| ==> idxs[k] < 1 || idxs[k] > |files|
    ensures Pick(files, idxs) == []
  {
    if idxs != [] {
      PickOutOfRange(files, idxs[..|idxs| - 1]);
    }
  }

  /**
    The files `main` goes on to process: all of them unless the stripped
    choice is `2`; for `2`, the picks for the comma-separated indices, or
    `None` when a token is not an integer (the `ValueError` branch, which
    returns from `main`).
  */
  function Selection(txtFiles: seq<string>, choice: string, indices: string): (r: Option<seq<string>>)
    ensures Strip(choice) != "2" ==> r == Some(txtFiles)
    ensures r.None? <==>
      && Strip(choice) == "2"
      && exists k :: 0 <= k < |Tokens(indices)| && Parsed(Tokens(indices))[k].None?
  {
    if Strip(choice) == "2" then
      match ParseAll(Tokens(indices))
      case None => CollectFails(Parsed(Tokens(indices))); None
      case Some(idxs) => CollectValues(Parsed(Tokens(indices))); Some(Pick(txtFiles, idxs))
    else Some(txtFiles)
  }

  /** With choice `2` and every token an integer, the selection is the in-range picks for those integers, in order. */
  lemma SelectionPicks(txtFiles: seq<string>, choice: string, indices: string, vs: seq<int>)
    requires Strip(choice) == "2"
    requires |vs| == |Tokens(indices)| && forall k :: 0 <= k < |vs| ==> Parsed(Tokens(indices))[k] == Some(vs[k])
    ensures Selection(txtFiles, choice, indices) == Some(Pick(txtFiles, vs))
  {
    CollectAll(Parsed(Tokens(indices)), vs);
  }

  /** `indices.strip().split(',')`. */
  function Tokens(indices: string): seq<string> {
    Split(Strip(indices), ',')
  }

  /** The selection code of `main`. */
  method SelectFiles(txtFiles: seq<string>, choiceInput: string, indicesInput: string) returns (r: Option<seq<string>>)
    ensures r == Selection(txtFiles, choiceInput, indicesInput)
  {
    var choice := Strip(choiceInput);
    if choice != "2" {
      return Some(txtFiles);
    }
    var selected := ParseTokens(Tokens(indicesInput));
    if selected.None? {
      return None;
    }
    var chosen := PickFiles(txtFiles, selected.value);
    r := Some(chosen);
  }

  /** The list comprehension `[int(i.strip()) for i in tokens]`, stopping at the first `ValueError`. */
  method ParseTokens(tokens: seq<string>) returns (r: Option<seq<int>>)
    ensures r == ParseAll(tokens)
  {
    ghost var opts := Parsed(tokens);
    var selected: seq<int> := [];
    for i := 0 to |tokens|
      invariant Collect(opts[..i]) == Some(selected)
    {
      var v := ParseToken(tokens[i]);
      if v.None? {
        CollectRejects(opts, i);
        return None;
      }
      CollectStep(opts, i, selected);
      selected := selected + [v.value];
    }
    assert opts[..|tokens|] == opts;
    r := Some(selected);
  }

  /** The loop over `selected_indices` that appends the in-range picks to `files_to_process`. */
  method PickFiles(txtFiles: seq<string>, selected: seq<int>) returns (chosen: seq<string>)
    ensures chosen == Pick(txtFiles, selected)
  {
    chosen := [];
    for i := 0 to |selected|
      invariant chosen == Pick(txtFiles, selected[..i])
    {
      var idx := selected[i];
      if 1 <= idx <= |txtFiles| {
        PickStepIn(txtFiles, selected, i);
        chosen := chosen + [txtFiles[idx - 1]];
      } else {
        PickStepOut(txtFiles, selected, i);
      }
    }
    assert selected[..|selected|] == selected;
  }

  // ------------------------------------------------------ the output name

  /** `txt_file.rsplit('.', 1)[0] + '.epub'`. */
  function OutputName(txtFile: string): (r: string)
    ensures |r| >= 5 && r[|r| - 5..] == ".epub"
    ensures |r| - 5 <= |txtFile| && r[..|r| - 5] == txtFile[..|r| - 5]
  {
    match LastIndex(txtFile, '.')
    case None => txtFile + ".epub"
    case Some(i) => txtFile[..i] + ".epub"
  }

  /** The last `.`-suffix is replaced by `.epub`. */
  lemma OutputNameOfParts(stem: string, ext: string)
    requires '.' !in ext
    ensures OutputName(stem + "." + ext) == stem + ".epub"
  {
    LastIndexOfSplit(stem, '.', ext);
    assert (stem + "." + ext)[..|stem|] == stem;
  }

  /** A name without `.` keeps all of itself. */
  lemma OutputNameNoDot(txtFile: string)
    requires '.' !in txtFile
    ensures OutputName(txtFile) == txtFile + ".epub"
  {
  }
}
