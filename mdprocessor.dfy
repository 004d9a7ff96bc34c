/**
 * The bookkeeping of `TextExtractor` (src/video_script_tool/md_processor.py).
 * The class works out the download URL of the slide deck. It splits the
 * deck's markdown into one chunk per slide. It pairs the sorted slide keys
 * of the screenshots with their fragment counts, and fits each slide's
 * narration comments to the count of its slide. Finally it writes all
 * texts into one file, separated like slides.
 *
 * Outside effects are parameters: the HTTP GET is a function from URL to
 * response, the regular-expression search is a function from slide source
 * to the list of comment bodies, the image listing is the list of paths,
 * and the written file is the field `allTexts`.
 */
module MdProcessor {
  import opened PyStrings
  import opened Results
  import ImageFiles

  /** The line that separates two slides, in the deck and in the written file. */
  const SlideSeparator := "\n\n---\n\n"

  /** Marks a leading block of slide options that is no slide. */
  const OptionsMarker := "\nslideOptions:\n"

  const DownloadSuffix := "/download"

  /** What an HTTP GET yields: the status code and the decoded body. */
  datatype Response = Response(statusCode: int, content: string)

  /** The exceptions the pipeline raises. */
  datatype Error =
    | HttpError(url: string)                      // a status code other than 200
    | BadImageName(reason: ImageFiles.NameError)  // a failed check in the name parser
    | NoImages                                    // unpacking the empty `zip(*[])` into two names
    | MissingSlideCount(slideIndex: nat)          // `slide_fragment_number_list[slide_idx]` out of range

  // ---------------------------------------------------------------------
  // The download URL

  /**
   * The URL the deck is fetched from: unchanged when it already ends in
   * `/download`, otherwise stripped of trailing `/`, then of trailing `#`,
   * with `/download` appended.
   */
  function DownloadUrl(url: string): (r: string)
    ensures EndsWith(r, DownloadSuffix)
    ensures EndsWith(url, DownloadSuffix) ==> r == url
    ensures !EndsWith(url, DownloadSuffix) ==>
              var base := r[..|r| - |DownloadSuffix|];
              && |base| <= |url| && base == url[..|base|]
              && (base == [] || base[|base| - 1] != '#')
              && forall k :: |base| <= k < |url| ==> url[k] == '/' || url[k] == '#'
  {
    if EndsWith(url, DownloadSuffix) then url
    else
      var base := RStrip(RStrip(url, '/'), '#');
      assert (base + DownloadSuffix)[..|base|] == base;
      base + DownloadSuffix
  }

  /** Normalising twice is normalising once. */
  lemma DownloadUrlIdempotent(url: string)
    ensures DownloadUrl(DownloadUrl(url)) == DownloadUrl(url)
  {
  }

  /**
   * The exact result for a URL made of a base, a run of `#` and a run of
   * `/`: the base with `/download` appended. Every URL has exactly one such
   * decomposition, so this pins the result down completely.
   */
  lemma DownloadUrlOfDecomposition(base: string, hashes: nat, slashes: nat)
    requires base == [] || base[|base| - 1] != '#'
    requires hashes == 0 ==> base == [] || base[|base| - 1] != '/'
    requires !EndsWith(base + seq(hashes, _ => '#') + seq(slashes, _ => '/'), DownloadSuffix)
    ensures DownloadUrl(base + seq(hashes, _ => '#') + seq(slashes, _ => '/')) == base + DownloadSuffix
  {
    var withHashes := base + seq(hashes, _ => '#');
    assert withHashes == [] || withHashes[|withHashes| - 1] != '/' by {
      assert hashes > 0 ==> withHashes[|withHashes| - 1] == '#';
      assert hashes == 0 ==> withHashes == base;
    }
    RStripPadding(withHashes, '/', slashes);
    RStripPadding(base, '#', hashes);
  }

  // ---------------------------------------------------------------------
  // Slide chunks

  /**
   * `slide_src_list` after the split at the separator and the optional
   * `pop(0)`: the first piece is dropped exactly when it holds the options
   * marker; the other pieces are kept unchanged and in order.
   */
  function SlideChunks(source: string): (chunks: seq<string>)
    ensures var parts := Split(source, SlideSeparator);
            && |parts| - 1 <= |chunks| <= |parts|
            && (|chunks| < |parts| <==> Contains(parts[0], OptionsMarker))
            && chunks == parts[|parts| - |chunks|..]
  {
    var parts := Split(source, SlideSeparator);
    if Contains(parts[0], OptionsMarker) then parts[1..] else parts
  }

  /**
   * Nothing of the source is lost: the chunks joined by the separator give
   * back the source, after the options header when one was dropped; and no
   * chunk contains the separator.
   */
  lemma SlideChunksRejoin(source: string)
    ensures var parts := Split(source, SlideSeparator);
            var chunks := SlideChunks(source);
            && (!Contains(parts[0], OptionsMarker) ==> Join(chunks, SlideSeparator) == source)
            && (Contains(parts[0], OptionsMarker) && chunks != [] ==>
                  source == parts[0] + SlideSeparator + Join(chunks, SlideSeparator))
            && (Contains(parts[0], OptionsMarker) && chunks == [] ==> source == parts[0])
            && forall k :: 0 <= k < |chunks| ==> !Contains(chunks[k], SlideSeparator)
  {
    var parts := Split(source, SlideSeparator);
    JoinSplit(source, SlideSeparator);
    SplitPartsFree(source, SlideSeparator);
  }

  // ---------------------------------------------------------------------
  // Labels and counts

  /**
   * `zip(*sorted(numbers.items()))`: the slide keys in ascending order,
   * one per key, each paired with its count.
   */
  function SortedItems(numbers: map<string, nat>): (items: (seq<string>, seq<nat>))
    ensures StrictlyIncreasing(items.0)
    ensures |items.0| == |numbers|
    ensures forall key :: key in items.0 <==> key in numbers
    ensures |items.1| == |items.0|
    ensures forall i :: 0 <= i < |items.0| ==> items.0[i] in numbers && items.1[i] == numbers[items.0[i]]
  {
    var labels := Sorted(numbers.Keys);
    (labels, seq(|labels|, i requires 0 <= i < |labels| => numbers[labels[i]]))
  }

  /** The ascending key list is the only strictly increasing list of exactly the keys. */
  lemma LabelsUnique(numbers: map<string, nat>, labels: seq<string>)
    requires StrictlyIncreasing(labels)
    requires forall key :: key in labels <==> key in numbers
    ensures labels == SortedItems(numbers).0
  {
    IncreasingUnique(labels, SortedItems(numbers).0);
  }

  /** `sum(counts)`. */
  function Sum(counts: seq<nat>): nat
    decreases |counts|
  {
    if counts == [] then 0 else counts[0] + Sum(counts[1..])
  }

  lemma {:induction false} SumOfPaired(counts: seq<nat>, labels: seq<string>, occurrences: multiset<string>)
    requires |counts| == |labels|
    requires forall i :: 0 <= i < |labels| ==> counts[i] == occurrences[labels[i]]
    ensures Sum(counts) == ImageFiles.SumCounts(occurrences, labels)
    decreases |labels|
  {
    if labels != [] {
      SumOfPaired(counts[1..], labels[1..], occurrences);
    }
  }

  lemma IncreasingDistinct(labels: seq<string>)
    requires StrictlyIncreasing(labels)
    ensures ImageFiles.Distinct(labels)
  {
    forall i, j | 0 <= i < j < |labels| ensures labels[i] != labels[j] {
      LessIrreflexive(labels[i]);
    }
  }

  /** The fragment counts, taken in key order, add up to the number of image files. */
  lemma CountsSumToImages(imageFiles: seq<string>)
    ensures Sum(SortedItems(ImageFiles.FragmentNumbers(imageFiles)).1) == |imageFiles|
  {
    var parts := ImageFiles.SlideParts(imageFiles);
    var numbers := ImageFiles.Tally(parts);
    assert numbers == ImageFiles.FragmentNumbers(imageFiles);
    var items := SortedItems(numbers);
    IncreasingDistinct(items.0);
    forall p | p in parts ensures p in items.0 {
      assert p in multiset(parts);
    }
    TallySum(parts, items.0, items.1);
  }

  /** Counts of the listed keys, each listed once, add up to the number of keys counted. */
  lemma TallySum(parts: seq<string>, labels: seq<string>, counts: seq<nat>)
    requires ImageFiles.Distinct(labels)
    requires forall p :: p in parts ==> p in labels
    requires |counts| == |labels|
    requires forall i :: 0 <= i < |labels| ==> labels[i] in ImageFiles.Tally(parts) && counts[i] == ImageFiles.Tally(parts)[labels[i]]
    ensures Sum(counts) == |parts|
  {
    SumOfPaired(counts, labels, multiset(parts));
    ImageFiles.SumCountsAll(parts, labels);
  }

  /**
   * The outcome of `split_into_slides` in the source's terms: it succeeds
   * exactly when there is at least one image file and every name is well
   * formed; with no image files it fails on the empty unpacking.
   */
  lemma SplitOutcome(imageFiles: seq<string>)
    ensures var counted := ImageFiles.Counted(imageFiles);
            && (counted.Success? <==> ImageFiles.AllParse(imageFiles))
            && (counted.Success? ==> (SortedItems(counted.value).0 != [] <==> imageFiles != []))
  {
    ImageFiles.CountedMeaning(imageFiles);
    var counted := ImageFiles.Counted(imageFiles);
    if counted.Success? {
      var labels := SortedItems(counted.value).0;
      ImageFiles.CountsAtLeastOne(imageFiles);
      if imageFiles != [] {
        assert ImageFiles.SlidePart(imageFiles[0]) in labels;
      } else {
        assert ImageFiles.SlideParts(imageFiles) == [];
        assert forall key :: key !in counted.value;
      }
    }
  }

  // ---------------------------------------------------------------------
  // Fitting the texts of one slide

  /** `f"slide {key} fragment {k}"`, the stand-in for a missing text. */
  function Placeholder(key: string, k: nat): (text: string)
    ensures var prefix := "slide " + key + " fragment ";
            && StartsWith(text, prefix)
            && AllDigits(text[|prefix|..]) && DigitsValue(text[|prefix|..]) == k
  {
    var prefix := "slide " + key + " fragment ";
    DecimalValue(k);
    assert (prefix + Decimal(k))[|prefix|..] == Decimal(k);
    prefix + Decimal(k)
  }

  /** A stand-in survives the final `strip()` unchanged. */
  lemma PlaceholderStripped(key: string, k: nat)
    ensures Strip(Placeholder(key, k)) == Placeholder(key, k)
  {
    var text := Placeholder(key, k);
    var d := Decimal(k);
    assert text[|text| - 1] == d[|d| - 1];
    assert IsDigit(d[|d| - 1]);
    StripFixed(text);
  }

  /**
   * The texts of one slide after padding or truncation: exactly `expected`
   * of them, the found texts first, in place, then stand-ins numbered on
   * from the found ones.
   */
  function FitTexts(found: seq<string>, expected: nat, key: string): (texts: seq<string>)
    ensures |texts| == expected
    ensures forall k :: 0 <= k < |found| && k < expected ==> texts[k] == found[k]
    ensures forall k :: |found| <= k < expected ==> texts[k] == Placeholder(key, k + 1)
  {
    if |found| < expected then
      found + seq(expected - |found|, j requires 0 <= j < expected - |found| => Placeholder(key, |found| + j + 1))
    else found[..expected]
  }

  /** With more texts than fragments, exactly the first `expected` survive. */
  lemma FitTextsTruncates(found: seq<string>, expected: nat, key: string)
    requires expected <= |found|
    ensures FitTexts(found, expected, key) == found[..expected]
  {
  }

  /** With fewer texts than fragments, all found texts survive as a prefix. */
  lemma FitTextsPads(found: seq<string>, expected: nat, key: string)
    requires |found| <= expected
    ensures FitTexts(found, expected, key)[..|found|] == found
  {
  }

  /** `[elt.strip() for elt in texts]`. */
  function StripAll(texts: seq<string>): (stripped: seq<string>)
    ensures |stripped| == |texts|
    ensures forall k :: 0 <= k < |texts| ==> StrippedOf(texts[k], stripped[k])
  {
    seq(|texts|, k requires 0 <= k < |texts| => Strip(texts[k]))
  }

  /** The texts the extraction keeps for one slide source. */
  function SlideTexts(findAll: string -> seq<string>, slideSrc: string, expected: nat, key: string): (texts: seq<string>)
    ensures |texts| == expected
  {
    FitTexts(StripAll(findAll(slideSrc)), expected, key)
  }

  /** The kept texts of the first slide sources, each fitted to its count. */
  function SlidesTexts(findAll: string -> seq<string>, srcs: seq<string>, counts: seq<nat>, labels: seq<string>)
    : (texts: seq<seq<string>>)
    requires |srcs| <= |counts| && |srcs| <= |labels|
    ensures |texts| == |srcs|
    decreases |srcs|
  {
    if srcs == [] then []
    else
      var n := |srcs| - 1;
      SlidesTexts(findAll, srcs[..n], counts, labels) + [SlideTexts(findAll, srcs[n], counts[n], labels[n])]
  }

  /** One more slide source adds its texts at the end. */
  lemma SlidesTextsSnoc(findAll: string -> seq<string>, srcs: seq<string>, counts: seq<nat>, labels: seq<string>, i: nat)
    requires i < |srcs| && i < |counts| && i < |labels|
    ensures SlidesTexts(findAll, srcs[..i + 1], counts, labels)
            == SlidesTexts(findAll, srcs[..i], counts, labels) + [SlideTexts(findAll, srcs[i], counts[i], labels[i])]
  {
    ImageFiles.PrefixLast(srcs, i);
  }

  /** Every slide gets exactly as many texts as its count says. */
  lemma {:induction false} SlidesTextsLengths(findAll: string -> seq<string>, srcs: seq<string>, counts: seq<nat>, labels: seq<string>)
    requires |srcs| <= |counts| && |srcs| <= |labels|
    ensures forall i :: 0 <= i < |srcs| ==> |SlidesTexts(findAll, srcs, counts, labels)[i]| == counts[i]
    decreases |srcs|
  {
    if srcs != [] {
      var n := |srcs| - 1;
      var init := SlidesTexts(findAll, srcs[..n], counts, labels);
      var all := SlidesTexts(findAll, srcs, counts, labels);
      SlidesTextsLengths(findAll, srcs[..n], counts, labels);
      assert all == init + [SlideTexts(findAll, srcs[n], counts[n], labels[n])];
      forall i | 0 <= i < |srcs| ensures |all[i]| == counts[i] {
        if i < n {
          assert all[i] == init[i];
        }
      }
    }
  }

  // ---------------------------------------------------------------------
  // The written file

  /**
   * The texts of all slides in one list, slide after slide: as many as all
   * slides hold together.
   */
  function Flatten(slides: seq<seq<string>>): (flat: seq<string>)
    ensures |flat| == Sum(Lengths(slides))
    decreases |slides|
  {
    if slides == [] then []
    else
      assert Lengths(slides)[1..] == Lengths(slides[1..]);
      slides[0] + Flatten(slides[1..])
  }

  /** The number of texts of each slide. */
  function Lengths(slides: seq<seq<string>>): (lengths: seq<nat>)
    ensures |lengths| == |slides|
  {
    seq(|slides|, i requires 0 <= i < |slides| => |slides[i]|)
  }

  lemma {:induction false} FlattenSnoc(slides: seq<seq<string>>, texts: seq<string>)
    ensures Flatten(slides + [texts]) == Flatten(slides) + texts
    decreases |slides|
  {
    if slides == [] {
      assert [texts][1..] == [];
    } else {
      FlattenSnoc(slides[1..], texts);
      assert (slides + [texts])[1..] == slides[1..] + [texts];
    }
  }

  lemma StripAllSnoc(done: seq<string>, texts: seq<string>, j: nat)
    requires j < |texts|
    ensures StripAll(done + texts[..j + 1]) == StripAll(done + texts[..j]) + [Strip(texts[j])]
  {
    assert done + texts[..j + 1] == (done + texts[..j]) + [texts[j]];
    StripAllAppend(done + texts[..j], texts[j]);
  }

  lemma StripAllAppend(texts: seq<string>, text: string)
    ensures StripAll(texts + [text]) == StripAll(texts) + [Strip(text)]
  {
    var longer, joined := StripAll(texts + [text]), StripAll(texts) + [Strip(text)];
    assert |longer| == |joined|;
    forall k | 0 <= k < |longer| ensures longer[k] == joined[k] {
      if k < |texts| {
        assert longer[k] == Strip(texts[k]) == joined[k];
      } else {
        assert longer[k] == Strip(text) == joined[k];
      }
    }
  }

  lemma FlattenPrefixSnoc(slides: seq<seq<string>>, i: nat)
    requires i < |slides|
    ensures Flatten(slides[..i + 1]) == Flatten(slides[..i]) + slides[i][..|slides[i]|]
  {
    assert slides[..i + 1] == slides[..i] + [slides[i]];
    FlattenSnoc(slides[..i], slides[i]);
    assert slides[i][..|slides[i]|] == slides[i];
  }

  /** The contents of `all_texts.md`. */
  function AllTextsFile(texts: seq<string>): (contents: string)
    ensures EndsWith(contents, "\n")
  {
    Join(texts, SlideSeparator) + "\n"
  }

  /**
   * Reading the file back: without its final newline and split at the
   * separator it gives back the texts, provided there is at least one and
   * none holds a blank line or ends in a newline.
   */
  lemma AllTextsFileSplits(texts: seq<string>)
    requires texts != []
    requires forall k :: 0 <= k < |texts| ==> NoBlankLine(texts[k])
    ensures var contents := AllTextsFile(texts);
            Split(contents[..|contents| - 1], SlideSeparator) == texts
  {
    var contents := AllTextsFile(texts);
    assert contents[..|contents| - 1] == Join(texts, SlideSeparator);
    SplitJoin(texts, SlideSeparator);
  }

  /**
   * The padding loop and the truncation of one slide's texts, which the
   * extraction runs in place on its list.
   */
  method FitToCount(found: seq<string>, n2: nat, key: string) returns (texts: seq<string>)
    ensures texts == FitTexts(found, n2, key)
  {
    var n1 := |found|;
    texts := found;
    if n1 < n2 {
      for j := 0 to n2 - n1
        invariant |texts| == n1 + j
        invariant texts[..n1] == found
        invariant forall k :: n1 <= k < n1 + j ==> texts[k] == Placeholder(key, k + 1)
      {
        texts := texts + [Placeholder(key, n1 + j + 1)];
      }
    } else if n1 > n2 {
      texts := texts[..n2];
    }
    assert forall k :: 0 <= k < n1 && k < n2 ==> texts[k] == found[k];
  }

  // ---------------------------------------------------------------------
  // The extractor

  class TextExtractor {
    var url: string
    var slidesFullSource: string
    var slideSrcList: seq<string>
    var imageFiles: seq<string>
    var slideFragmentNumbers: map<string, nat>
    var slideLabelList: seq<string>
    var slideFragmentNumberList: seq<nat>
    var fragmentTexts: seq<seq<string>>
    /** What has been written to `all_texts.md`. */
    var allTexts: string

    constructor(url: string)
      ensures this.url == url
      ensures slidesFullSource == [] && slideSrcList == [] && imageFiles == []
      ensures slideFragmentNumbers == map[] && slideLabelList == [] && slideFragmentNumberList == []
      ensures fragmentTexts == [] && allTexts == []
    {
      this.url := url;
      slidesFullSource := [];
      slideSrcList := [];
      imageFiles := [];
      slideFragmentNumbers := map[];
      slideLabelList := [];
      slideFragmentNumberList := [];
      fragmentTexts := [];
      allTexts := [];
    }

    /**
     * The download branch of `download_source`: fetch the normalised URL
     * and keep the body, or fail on any status code but 200.
     */
    method DownloadSource(get: string -> Response) returns (r: Result<(), Error>)
      modifies this`slidesFullSource
      ensures var target := DownloadUrl(url);
              && (r.Success? <==> get(target).statusCode == 200)
              && (r.Success? ==> slidesFullSource == get(target).content)
              && (r.Failure? ==> r.error == HttpError(target) && slidesFullSource == old(slidesFullSource))
    {
      var target := DownloadUrl(url);
      var res := get(target);
      if res.statusCode != 200 {
        return Failure(HttpError(target));
      }
      slidesFullSource := res.content;
      return Success(());
    }

    /**
     * `split_into_slides` for a given list of image paths: the slide chunks,
     * the counts per slide key, and the sorted keys paired with their
     * counts. Fails on a malformed path and on an empty image list.
     */
    method SplitIntoSlides(imageFiles: seq<string>) returns (r: Result<(), Error>)
      modifies this`slideSrcList, this`imageFiles, this`slideFragmentNumbers
      modifies this`slideLabelList, this`slideFragmentNumberList
      ensures slideSrcList == SlideChunks(old(slidesFullSource))
      ensures this.imageFiles == imageFiles
      ensures ImageFiles.Counted(imageFiles).Failure? ==>
                && r == Failure(BadImageName(ImageFiles.Counted(imageFiles).error))
                && slideFragmentNumbers == old(slideFragmentNumbers)
      ensures ImageFiles.Counted(imageFiles).Success? ==>
                && slideFragmentNumbers == ImageFiles.Counted(imageFiles).value
                && (r.Success? <==> SortedItems(slideFragmentNumbers).0 != [])
                && (r.Failure? ==> r == Failure(NoImages))
      ensures r.Success? ==> (slideLabelList, slideFragmentNumberList) == SortedItems(slideFragmentNumbers)
      ensures r.Failure? ==>
                slideLabelList == old(slideLabelList) && slideFragmentNumberList == old(slideFragmentNumberList)
    {
      var chunks := Split(slidesFullSource, SlideSeparator);
      if Contains(chunks[0], OptionsMarker) {
        chunks := chunks[1..];
      }
      var numbers := ImageFiles.GetImageFragmentNumbers(imageFiles);
      if numbers.Failure? {
        slideSrcList, this.imageFiles := chunks, imageFiles;
        return Failure(BadImageName(numbers.error));
      }
      var items := SortedItems(numbers.value);
      if items.0 == [] {
        slideSrcList, this.imageFiles, slideFragmentNumbers := chunks, imageFiles, numbers.value;
        return Failure(NoImages);
      }
      slideSrcList, this.imageFiles, slideFragmentNumbers := chunks, imageFiles, numbers.value;
      slideLabelList, slideFragmentNumberList := items.0, items.1;
      return Success(());
    }

    /**
     * `extract_texts_from_special_comments`: for every slide chunk in order,
     * the stripped comment bodies fitted to that slide's count. A chunk
     * without a count stops the loop with the texts of the earlier chunks
     * kept.
     */
    method ExtractTextsFromSpecialComments(findAll: string -> seq<string>) returns (r: Result<(), Error>)
      requires |slideLabelList| == |slideFragmentNumberList|
      modifies this`fragmentTexts
      ensures r.Success? <==> |slideSrcList| <= |slideFragmentNumberList|
      ensures r.Failure? ==> r.error == MissingSlideCount(|slideFragmentNumberList|)
      ensures var kept := if r.Success? then |slideSrcList| else |slideFragmentNumberList|;
              kept <= |slideSrcList|
              && fragmentTexts == SlidesTexts(findAll, slideSrcList[..kept], slideFragmentNumberList, slideLabelList)
    {
      fragmentTexts := [];
      for slideIdx := 0 to |slideSrcList|
        invariant slideIdx <= |slideFragmentNumberList|
        invariant fragmentTexts
                  == SlidesTexts(findAll, slideSrcList[..slideIdx], slideFragmentNumberList, slideLabelList)
      {
        var found := StripAll(findAll(slideSrcList[slideIdx]));
        if slideIdx >= |slideFragmentNumberList| {
          return Failure(MissingSlideCount(slideIdx));
        }
        var n2 := slideFragmentNumberList[slideIdx];
        var texts := FitToCount(found, n2, slideLabelList[slideIdx]);
        SlidesTextsSnoc(findAll, slideSrcList, slideFragmentNumberList, slideLabelList, slideIdx);
        fragmentTexts := fragmentTexts + [texts];
      }
      assert slideSrcList[..|slideSrcList|] == slideSrcList;
      r := Success(());
    }

    /**
     * `write_fragment_texts`: every text of every slide, stripped, joined
     * by the slide separator, with a final newline.
     */
    method WriteFragmentTexts()
      modifies this`allTexts
      ensures allTexts == AllTextsFile(StripAll(Flatten(fragmentTexts)))
    {
      var texts: seq<string> := [];
      for i := 0 to |fragmentTexts|
        invariant texts == StripAll(Flatten(fragmentTexts[..i]))
      {
        var slideFragments := fragmentTexts[i];
        ghost var done := Flatten(fragmentTexts[..i]);
        for j := 0 to |slideFragments|
          invariant texts == StripAll(done + slideFragments[..j])
        {
          StripAllSnoc(done, slideFragments, j);
          texts := texts + [Strip(slideFragments[j])];
        }
        FlattenPrefixSnoc(fragmentTexts, i);
      }
      assert fragmentTexts[..|fragmentTexts|] == fragmentTexts;
      allTexts := AllTextsFile(texts);
    }
  }
}
