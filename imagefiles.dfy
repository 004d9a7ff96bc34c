/**
 * `get_image_fragment_numbers` (src/video_script_tool/util.py): reads the
 * slide part out of every `slide_NNN_fragment_MMM.png` path and counts the
 * paths per slide part. A malformed name makes the whole call fail, as the
 * `assert` statements and the two-name unpacking of the source do.
 */
module ImageFiles {
  import opened PyStrings
  import opened PyPaths
  import opened Results
  import CaptureSlides

  /** Why a path was refused: one of the three `assert`s, or the unpacking into two names. */
  datatype NameError =
    | NoSlidePrefix
    | NoPngSuffix
    | NoFragmentMarker
    | NotTwoParts(parts: nat)

  /** The two parts of a well-formed name, as the strings found in it. */
  datatype ImageName = ImageName(slide: string, fragment: string)

  /** `fname[len("slide_"):-4]` with Python's slice rules. */
  function Stem(name: string): (stem: string)
    ensures |name| < 10 ==> stem == ""
    ensures StartsWith(name, "slide_") && EndsWith(name, ".png") ==> |name| >= 10 && name == "slide_" + stem + ".png"
  {
    if |name| >= 10 then
      assert name == name[..6] + name[6..|name| - 4] + name[|name| - 4..];
      name[6..|name| - 4]
    else
      SlidePrefixHasNoDot(name);
      assert EndsWith(name, ".png") ==> name[|name| - 4] == '.';
      ""
  }

  lemma SlidePrefixHasNoDot(name: string)
    ensures StartsWith(name, "slide_") ==> forall k :: 0 <= k < 6 ==> name[k] != '.'
  {
    if StartsWith(name, "slide_") {
      forall k | 0 <= k < 6 ensures name[k] != '.' {
        assert name[k] == name[..6][k];
      }
    }
  }

  /** The checks and the split of one file path, as the loop body does them. */
  function ParseName(path: string): (r: Result<ImageName, NameError>)
    ensures r.Success? ==>
              var name := BaseName(path);
              StartsWith(name, "slide_") && EndsWith(name, ".png") && Contains(name, "_fragment_")
  {
    CheckName(BaseName(path))
  }

  /** The three `assert`s on the file name, then the reduction and the split. */
  function CheckName(name: string): (r: Result<ImageName, NameError>)
    ensures r.Success? ==> StartsWith(name, "slide_") && EndsWith(name, ".png") && Contains(name, "_fragment_")
    ensures r.Success? ==> '_' !in r.value.slide && '_' !in r.value.fragment
  {
    if !StartsWith(name, "slide_") then Failure(NoSlidePrefix)
    else if !EndsWith(name, ".png") then Failure(NoPngSuffix)
    else if !Contains(name, "_fragment_") then Failure(NoFragmentMarker)
    else SplitReduced(Replace(Stem(name), "_fragment_", "_"))
  }

  /**
   * A name is refused exactly when it lacks the prefix, the suffix or the
   * marker, or when the reduced stem does not split into two parts; the
   * first check that fails names the error.
   */
  lemma CheckNameRefuses(name: string)
    ensures CheckName(name).Failure? <==>
              || !StartsWith(name, "slide_") || !EndsWith(name, ".png") || !Contains(name, "_fragment_")
              || |Split(Replace(Stem(name), "_fragment_", "_"), "_")| != 2
    ensures !StartsWith(name, "slide_") ==> CheckName(name) == Failure(NoSlidePrefix)
    ensures StartsWith(name, "slide_") && !EndsWith(name, ".png") ==> CheckName(name) == Failure(NoPngSuffix)
    ensures StartsWith(name, "slide_") && EndsWith(name, ".png") && !Contains(name, "_fragment_") ==>
              CheckName(name) == Failure(NoFragmentMarker)
  {
  }

  /** `slide, fragment = reduced_string.split("_")`. */
  function SplitReduced(reduced: string): (r: Result<ImageName, NameError>)
    ensures r.Success? ==> reduced == r.value.slide + "_" + r.value.fragment
    ensures r.Success? ==> '_' !in r.value.slide && '_' !in r.value.fragment
    ensures r.Failure? ==> r.error.NotTwoParts? && r.error.parts != 2
  {
    var parts := Split(reduced, "_");
    if |parts| != 2 then Failure(NotTwoParts(|parts|))
    else
      JoinSplit(reduced, "_");
      SplitPartsFree(reduced, "_");
      NoUnderscore(parts[0]);
      NoUnderscore(parts[1]);
      Success(ImageName(parts[0], parts[1]))
  }

  lemma {:induction false} NoUnderscore(s: string)
    requires !Contains(s, "_")
    ensures '_' !in s
    decreases |s|
  {
    if s != [] {
      assert s[..1] == [s[0]];
      NoUnderscore(s[1..]);
      assert s == [s[0]] + s[1..];
    }
  }

  /** A string with exactly one `_` splits into the parts on either side of it. */
  lemma SplitReducedTwo(a: string, b: string)
    requires '_' !in a && '_' !in b
    ensures SplitReduced(a + "_" + b) == Success(ImageName(a, b))
  {
    SplitAfter(a, "_", b);
    SplitAbsent(b, "_");
  }

  /** Only the last path component is examined: the directory never matters. */
  lemma ParseIgnoresDirectory(directory: string, name: string)
    requires name != [] && '/' !in name
    ensures ParseName(JoinPath(directory, name)) == ParseName(name)
  {
    BaseNameOfJoin(directory, name);
    BaseNameAfterSlash([], name);
    assert [] + name == name;
  }

  /** Replacing the marker between two digit strings leaves them joined by `_`. */
  lemma ReduceStem(a: string, b: string)
    requires '_' !in a && '_' !in b
    ensures Replace(a + ("_fragment_" + b), "_fragment_", "_") == a + "_" + b
  {
    ReplaceSkips(a, "_fragment_" + b, "_fragment_", "_");
    var rest := "_fragment_" + b;
    assert StartsWith(rest, "_fragment_");
    assert rest[10..] == b;
    ReplaceAbsent(b, "_fragment_", "_");
  }

  /** Reducing a screenshot name leaves the two padded counters joined by `_`. */
  lemma ReduceFileName(slide: nat, fragment: nat)
    ensures Replace(Stem(CaptureSlides.FileName(slide, fragment)), "_fragment_", "_")
            == ZeroPad3(slide) + "_" + ZeroPad3(fragment)
  {
    var a, b := ZeroPad3(slide), ZeroPad3(fragment);
    CaptureSlides.FileNameMiddle(slide, fragment);
    assert a + "_" + ("fragment_" + b) == a + ("_fragment_" + b);
    DigitsLack(a, '_');
    DigitsLack(b, '_');
    ReduceStem(a, b);
  }

  /** A screenshot name passes the three checks and splits into its two counters. */
  lemma CheckFileName(slide: nat, fragment: nat)
    ensures CheckName(CaptureSlides.FileName(slide, fragment))
            == Success(ImageName(ZeroPad3(slide), ZeroPad3(fragment)))
  {
    var name := CaptureSlides.FileName(slide, fragment);
    var a, b := ZeroPad3(slide), ZeroPad3(fragment);
    assert Contains(name, "_fragment_") by {
      CaptureSlides.FileNameMiddle(slide, fragment);
      assert name == "slide_" + a + "_fragment_" + (b + ".png");
      ContainsIn("slide_" + a, "_fragment_", b + ".png", "_fragment_");
    }
    ReduceFileName(slide, fragment);
    DigitsLack(a, '_');
    DigitsLack(b, '_');
    CheckNameAccepts(name, a, b);
  }

  /** A name that passes the checks and reduces to `a_b` splits into `a` and `b`. */
  lemma CheckNameAccepts(name: string, a: string, b: string)
    requires StartsWith(name, "slide_") && EndsWith(name, ".png") && Contains(name, "_fragment_")
    requires Replace(Stem(name), "_fragment_", "_") == a + "_" + b
    requires '_' !in a && '_' !in b
    ensures CheckName(name) == Success(ImageName(a, b))
  {
    SplitReducedTwo(a, b);
  }

  /**
   * Round trip with the capture loop: the path of any screenshot parses back
   * to the padded slide and fragment counters it was named after.
   */
  lemma ParseFileName(imageDir: string, slide: nat, fragment: nat)
    ensures ParseName(JoinPath(imageDir, CaptureSlides.FileName(slide, fragment)))
            == Success(ImageName(ZeroPad3(slide), ZeroPad3(fragment)))
  {
    var name := CaptureSlides.FileName(slide, fragment);
    BaseNameOfJoin(imageDir, name);
    CheckFileName(slide, fragment);
  }

  /** The inline example of the source: `slide_027_fragment_002.png` has slide part `027`. */
  lemma ParseExample()
    ensures ParseName("slide_027_fragment_002.png") == Success(ImageName("027", "002"))
  {
    ExampleName();
    ParseFileName("", 27, 2);
  }

  lemma ExampleName()
    ensures JoinPath("", CaptureSlides.FileName(27, 2)) == "slide_027_fragment_002.png"
    ensures ZeroPad3(27) == "027" && ZeroPad3(2) == "002"
  {
    var name := CaptureSlides.FileName(27, 2);
    ExampleFileName();
    assert JoinPath("", name) == "" + name;
  }

  lemma ExampleFileName()
    ensures CaptureSlides.FileName(27, 2) == "slide_027_fragment_002.png"
    ensures ZeroPad3(27) == "027" && ZeroPad3(2) == "002"
  {
    ExamplePads();
    CaptureSlides.FileNameParts(27, 2);
    ExampleLiteral("027", "002");
  }

  lemma ExampleLiteral(a: string, b: string)
    requires a == "027" && b == "002"
    ensures "slide_" + a + "_fragment_" + b + ".png" == "slide_027_fragment_002.png"
  {
  }

  lemma ExamplePads()
    ensures ZeroPad3(27) == "027" && ZeroPad3(2) == "002"
  {
    assert Decimal(27) == "27" && Decimal(2) == "2";
  }

  // ---------------------------------------------------------------------
  // Counting

  /** Every path is well formed. */
  predicate AllParse(paths: seq<string>) {
    forall p :: p in paths ==> ParseName(p).Success?
  }

  /** The slide part of a path; only ever asked of well-formed paths. */
  function SlidePart(path: string): string {
    match ParseName(path)
    case Success(name) => name.slide
    case Failure(_) => ""
  }

  /** `f` applied to every element, in order. */
  function MapSeq(f: string -> string, xs: seq<string>): (ys: seq<string>)
    ensures |ys| == |xs|
    ensures forall i :: 0 <= i < |xs| ==> ys[i] == f(xs[i])
    decreases |xs|
  {
    if xs == [] then [] else [f(xs[0])] + MapSeq(f, xs[1..])
  }

  /** The slide part of every path, in order. */
  function SlideParts(paths: seq<string>): seq<string> {
    MapSeq(SlidePart, paths)
  }

  /**
   * A `defaultdict(int)` after `d[k] += 1` for each key in turn: one entry
   * per key that occurs, holding how many times it occurs.
   */
  ghost function Tally(keys: seq<string>): map<string, nat> {
    map k | k in multiset(keys) :: multiset(keys)[k]
  }

  /** The dictionary `get_image_fragment_numbers` should return. */
  ghost function FragmentNumbers(paths: seq<string>): map<string, nat> {
    Tally(SlideParts(paths))
  }

  /**
   * The loop of `get_image_fragment_numbers` as a recursion over the paths:
   * the dictionary after every path has been counted, or the error of the
   * first path that fails.
   */
  function Counted(paths: seq<string>): (r: Result<map<string, nat>, NameError>)
    ensures r.Success? ==> (r.value == map[] <==> paths == [])
  {
    CountedBy(ParseName, paths)
  }

  /** The same recursion for any way of reading a name. */
  function CountedBy(parse: string -> Result<ImageName, NameError>, paths: seq<string>)
    : (r: Result<map<string, nat>, NameError>)
    ensures r.Success? ==> (r.value == map[] <==> paths == [])
    decreases |paths|
  {
    if paths == [] then Success(map[])
    else
      match CountedBy(parse, paths[..|paths| - 1])
      case Failure(e) => Failure(e)
      case Success(counts) =>
        match parse(paths[|paths| - 1])
        case Failure(e) => Failure(e)
        case Success(name) =>
          var current := if name.slide in counts then counts[name.slide] else 0;
          Success(counts[name.slide := current + 1])
  }

  /** `paths[i]` is the first path that does not parse, and it fails with `e`. */
  predicate FailsAt(paths: seq<string>, i: nat, e: NameError) {
    i < |paths| && AllParse(paths[..i]) && ParseName(paths[i]) == Failure(e)
  }

  /**
   * What the loop computes: success exactly when every path is well formed,
   * and then one entry per slide part holding its number of files;
   * otherwise the error of the first bad path.
   */
  lemma {:induction false} CountedMeaning(paths: seq<string>)
    ensures Counted(paths).Success? <==> AllParse(paths)
    ensures Counted(paths).Success? ==> Counted(paths).value == FragmentNumbers(paths)
    ensures Counted(paths).Failure? ==> exists i :: FailsAt(paths, i, Counted(paths).error)
    decreases |paths|
  {
    if paths == [] {
      assert FragmentNumbers(paths) == map[] by {
        assert SlideParts(paths) == [];
      }
    } else {
      var n := |paths| - 1;
      var init := paths[..n];
      CountedMeaning(init);
      if Counted(init).Failure? {
        var i :| FailsAt(init, i, Counted(init).error);
        FailsAtExtends(paths, i, Counted(init).error);
      } else if ParseName(paths[n]).Failure? {
        FailsAtLast(paths);
      } else {
        AllParseStep(paths, n);
        CountStep(paths, n);
        assert paths[..n + 1] == paths;
      }
    }
  }

  /** A failure in the prefix is the first failure of the whole list. */
  lemma FailsAtExtends(paths: seq<string>, i: nat, e: NameError)
    requires paths != [] && FailsAt(paths[..|paths| - 1], i, e)
    ensures FailsAt(paths, i, e) && !AllParse(paths)
  {
    var init := paths[..|paths| - 1];
    assert paths[..i] == init[..i] && paths[i] == init[i];
    assert paths[i] in paths;
  }

  /** A bad last path after a good prefix is the first failure. */
  lemma FailsAtLast(paths: seq<string>)
    requires paths != [] && AllParse(paths[..|paths| - 1])
    requires ParseName(paths[|paths| - 1]).Failure?
    ensures FailsAt(paths, |paths| - 1, ParseName(paths[|paths| - 1]).error) && !AllParse(paths)
  {
    assert paths[|paths| - 1] in paths;
  }

  /** The loop of `get_image_fragment_numbers` over a `defaultdict(int)`. */
  method GetImageFragmentNumbers(imageFiles: seq<string>) returns (r: Result<map<string, nat>, NameError>)
    ensures r == Counted(imageFiles)
  {
    var slideFragmentNumbers: map<string, nat> := map[];
    for i := 0 to |imageFiles|
      invariant Counted(imageFiles[..i]) == Success(slideFragmentNumbers)
    {
      var parsed := ParseName(imageFiles[i]);
      if parsed.Failure? {
        CountedStopsAt(ParseName, imageFiles, i);
        return Failure(parsed.error);
      }
      var slide := parsed.value.slide;
      var current := if slide in slideFragmentNumbers then slideFragmentNumbers[slide] else 0;
      CountedGrows(ParseName, imageFiles, i, slideFragmentNumbers, slide, current);
      slideFragmentNumbers := slideFragmentNumbers[slide := current + 1];
    }
    assert imageFiles[..|imageFiles|] == imageFiles;
    return Success(slideFragmentNumbers);
  }

  /** A bad path after a good prefix ends the count with its error. */
  lemma CountedStopsAt(parse: string -> Result<ImageName, NameError>, paths: seq<string>, i: nat)
    requires i < |paths| && CountedBy(parse, paths[..i]).Success? && parse(paths[i]).Failure?
    ensures CountedBy(parse, paths) == Failure(parse(paths[i]).error)
  {
    PrefixLast(paths, i);
    CountedFailsOn(parse, paths, i + 1);
  }

  /** A good path after a good prefix adds one to its slide's entry. */
  lemma CountedGrows(parse: string -> Result<ImageName, NameError>, paths: seq<string>, i: nat,
                     counts: map<string, nat>, slide: string, current: nat)
    requires i < |paths| && CountedBy(parse, paths[..i]) == Success(counts)
    requires parse(paths[i]).Success? && slide == parse(paths[i]).value.slide
    requires current == if slide in counts then counts[slide] else 0
    ensures CountedBy(parse, paths[..i + 1]) == Success(counts[slide := current + 1])
  {
    PrefixLast(paths, i);
  }

  lemma PrefixLast(paths: seq<string>, i: nat)
    requires i < |paths|
    ensures var prefix := paths[..i + 1];
            prefix != [] && |prefix| - 1 == i && prefix[..i] == paths[..i] && prefix[i] == paths[i]
  {
  }

  /** Once a prefix fails, every longer list fails with the same error. */
  lemma {:induction false} CountedFailsOn(parse: string -> Result<ImageName, NameError>, paths: seq<string>, k: nat)
    requires k <= |paths| && CountedBy(parse, paths[..k]).Failure?
    ensures CountedBy(parse, paths) == CountedBy(parse, paths[..k])
    decreases |paths| - k
  {
    if k < |paths| {
      assert paths[..k + 1][..k] == paths[..k];
      CountedFailsOn(parse, paths, k + 1);
    } else {
      assert paths[..k] == paths;
    }
  }

  /** The loop body keeps its invariant: one more well-formed file adds one to its slide's entry. */
  lemma CountStep(paths: seq<string>, i: nat)
    requires i < |paths| && ParseName(paths[i]).Success?
    ensures var slide := ParseName(paths[i]).value.slide;
            var before := FragmentNumbers(paths[..i]);
            FragmentNumbers(paths[..i + 1])
            == before[slide := (if slide in before then before[slide] else 0) + 1]
  {
    assert paths[..i + 1] == paths[..i] + [paths[i]];
    SlidePartOf(paths[i]);
    TallyMapSnoc(SlidePart, paths[..i], paths[i]);
  }

  lemma AllParseStep(paths: seq<string>, i: nat)
    requires i < |paths| && AllParse(paths[..i]) && ParseName(paths[i]).Success?
    ensures AllParse(paths[..i + 1])
  {
    assert paths[..i + 1] == paths[..i] + [paths[i]];
  }

  lemma SlidePartOf(path: string)
    requires ParseName(path).Success?
    ensures SlidePart(path) == ParseName(path).value.slide
  {
  }

  lemma TallyMapSnoc(f: string -> string, xs: seq<string>, x: string)
    ensures var before := Tally(MapSeq(f, xs));
            Tally(MapSeq(f, xs + [x])) == before[f(x) := (if f(x) in before then before[f(x)] else 0) + 1]
  {
    MapSeqSnoc(f, xs, x);
    TallySnoc(MapSeq(f, xs), f(x));
  }

  lemma {:induction false} MapSeqSnoc(f: string -> string, xs: seq<string>, x: string)
    ensures MapSeq(f, xs + [x]) == MapSeq(f, xs) + [f(x)]
  {
  }

  /** One more key adds one to its entry, creating the entry at 1. */
  lemma TallySnoc(keys: seq<string>, key: string)
    ensures Tally(keys + [key])
            == Tally(keys)[key := (if key in Tally(keys) then Tally(keys)[key] else 0) + 1]
  {
    assert multiset(keys + [key]) == multiset(keys) + multiset{key};
  }

  /** Every slide part in the result has at least one file, and every file's slide part is there. */
  lemma CountsAtLeastOne(paths: seq<string>)
    ensures forall key :: key in FragmentNumbers(paths) ==> FragmentNumbers(paths)[key] >= 1
    ensures forall i :: 0 <= i < |paths| ==> SlidePart(paths[i]) in FragmentNumbers(paths)
  {
    var parts := SlideParts(paths);
    forall i | 0 <= i < |paths| ensures SlidePart(paths[i]) in FragmentNumbers(paths) {
      assert parts[i] in parts;
    }
  }

  lemma {:induction false} MapSeqAppend(f: string -> string, a: seq<string>, b: seq<string>)
    ensures MapSeq(f, a + b) == MapSeq(f, a) + MapSeq(f, b)
  {
  }

  /** Reordering the inputs reorders the outputs: the multiset of results depends only on the multiset of inputs. */
  lemma {:induction false} MapSeqPermutation(f: string -> string, a: seq<string>, b: seq<string>)
    requires multiset(a) == multiset(b)
    ensures multiset(MapSeq(f, a)) == multiset(MapSeq(f, b))
    decreases |a|
  {
    if a == [] {
      assert |b| == |multiset(b)| == 0;
    } else {
      var init, last := a[..|a| - 1], a[|a| - 1];
      assert a == init + [last];
      assert last in multiset(b);
      var j :| 0 <= j < |b| && b[j] == last;
      var left, right := b[..j], b[j + 1..];
      assert b == left + [last] + right;
      RemoveAt(b, j);
      assert multiset(a) == multiset(init) + multiset{last};
      Cancel(multiset(init), multiset(left + right), last);
      MapSeqPermutation(f, init, left + right);
      MapSeqMoveLast(f, init, last, left, right);
    }
  }

  lemma Cancel(m1: multiset<string>, m2: multiset<string>, x: string)
    requires m1 + multiset{x} == m2 + multiset{x}
    ensures m1 == m2
  {
    forall y ensures m1[y] == m2[y] {
      assert (m1 + multiset{x})[y] == (m2 + multiset{x})[y];
    }
  }

  lemma RemoveAt(b: seq<string>, j: nat)
    requires j < |b|
    ensures b == b[..j] + [b[j]] + b[j + 1..]
    ensures multiset(b) == multiset(b[..j] + b[j + 1..]) + multiset{b[j]}
  {
    assert b == b[..j] + [b[j]] + b[j + 1..];
  }

  lemma MapSeqMoveLast(f: string -> string, init: seq<string>, last: string, left: seq<string>, right: seq<string>)
    requires multiset(MapSeq(f, init)) == multiset(MapSeq(f, left + right))
    ensures multiset(MapSeq(f, init + [last])) == multiset(MapSeq(f, left + [last] + right))
  {
    MapSeqAppend(f, init, [last]);
    MapSeqAppend(f, left, right);
    MapSeqAppend(f, left + [last], right);
    MapSeqAppend(f, left, [last]);
  }

  /** Sorting (or any reordering of) the file list changes neither success nor the counts. */
  lemma OrderIndependent(a: seq<string>, b: seq<string>)
    requires multiset(a) == multiset(b)
    ensures AllParse(a) <==> AllParse(b)
    ensures FragmentNumbers(a) == FragmentNumbers(b)
  {
    assert forall p :: p in a <==> p in b by {
      forall p ensures p in a <==> p in b {
        assert p in a <==> p in multiset(a);
        assert p in b <==> p in multiset(b);
      }
    }
    MapSeqPermutation(SlidePart, a, b);
  }

  // ---------------------------------------------------------------------
  // The counts add up to the number of files

  /** `sum(counts[k] for k in keys)`. */
  function SumCounts(counts: multiset<string>, keys: seq<string>): nat
    decreases |keys|
  {
    if keys == [] then 0 else counts[keys[0]] + SumCounts(counts, keys[1..])
  }

  predicate Distinct(keys: seq<string>) {
    forall i, j :: 0 <= i < j < |keys| ==> keys[i] != keys[j]
  }

  /** One more occurrence of `key` adds one to the sum when `key` is listed, once. */
  lemma {:induction false} SumOneMore(counts: multiset<string>, key: string, keys: seq<string>)
    requires Distinct(keys)
    ensures SumCounts(counts + multiset{key}, keys) == SumCounts(counts, keys) + (if key in keys then 1 else 0)
    decreases |keys|
  {
    if keys != [] {
      SumOneMore(counts, key, keys[1..]);
      assert key in keys <==> key == keys[0] || key in keys[1..];
      if key == keys[0] {
        assert key !in keys[1..] by {
          forall j | 1 <= j < |keys| ensures keys[j] != key { }
        }
      }
    }
  }

  lemma {:induction false} SumEmpty(keys: seq<string>)
    ensures SumCounts(multiset{}, keys) == 0
    decreases |keys|
  {
    if keys != [] { SumEmpty(keys[1..]); }
  }

  /** When every key is listed once, the counts add up to the number of keys counted. */
  lemma {:induction false} SumCountsAll(parts: seq<string>, keys: seq<string>)
    requires Distinct(keys)
    requires forall p :: p in parts ==> p in keys
    ensures SumCounts(multiset(parts), keys) == |parts|
    decreases |parts|
  {
    if parts == [] {
      SumEmpty(keys);
    } else {
      var init, last := parts[..|parts| - 1], parts[|parts| - 1];
      assert parts == init + [last];
      assert multiset(parts) == multiset(init) + multiset{last};
      assert last in parts;
      SumCountsAll(init, keys);
      SumOneMore(multiset(init), last, keys);
    }
  }
}
