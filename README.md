# videoscripts: the slide-capture and narration-text pipeline, in Dafny

This project models the bookkeeping of the `video_script_tool` package and
proves properties of it. The pipeline has three steps:

1. **Capture** (`capture_slides.py`). A browser steps through a reveal.js
   deck. Every step writes one screenshot named
   `slide_NNN_fragment_MMM.png`, where `slide_count` and `fragment_count`
   are zero-padded to three digits. Each step then reveals one more fragment
   or moves to the next slide. It stops one screenshot after the
   "navigate-right" control stops being enabled.
2. **Counting** (`util.get_image_fragment_numbers`). The screenshot names
   are parsed back, and the files are counted per slide key (`"027"`).
3. **Text extraction** (`md_processor.TextExtractor`). This step:
   - normalises the deck's download URL;
   - splits the deck's markdown into slide chunks at `"\n\n---\n\n"`,
     dropping a leading `slideOptions` header;
   - pairs the sorted slide keys with their counts;
   - fits each chunk's narration comments to its slide's count, padding
     with `"slide {key} fragment {k}"` or truncating;
   - writes all texts, stripped, into one file joined by the slide
     separator.

Modules:

- `Results` holds the `Result` type used for the Python exceptions.
- `PyStrings` holds the Python `str` operations the code relies on:
  `startswith`, `endswith`, `in`, `replace`, `split`, `join`, `rstrip`,
  `strip`, `str(n)`, `f"{n:03d}"`, string `<` and `sorted` of a set of
  strings.
- `PyPaths` holds `os.path.join` and `os.path.split(...)[1]`.
- `CaptureSlides` holds the capture loop, as a method over a sequence of
  browser observations, against the recursive specification `Shots`.
- `ImageFiles` holds the name parser and the counting loop, as a method
  over a map, against the recursive specification `Counted`.
- `MdProcessor` holds the `TextExtractor` class: its fields are the
  attributes the Python methods assign, and its methods change them in
  place.

The capture loop is modelled as the code writes it. The loop counts the
fragments whose class mentions `visible` and checks the `navigate-right`
class for `enabled`. It compares no slide labels and reads no progress
bar.

Python's exceptions become `Failure` values:

- `HttpError` is a status other than 200.
- `BadImageName` covers a failed `assert` or the two-name unpacking in the
  parser.
- `NoImages` is the unpacking of the empty `zip(*[])` at
  `md_processor.py:93`.
- `MissingSlideCount` is the `IndexError` at `md_processor.py:107`, raised
  when there are more slide chunks than slide keys.

## Model

| member | source | states |
|---|---|---|
| CaptureSlides.FileName | src/video_script_tool/capture_slides.py:59 | the screenshot name starts with `slide_`, ends with `.png`, holds no `/`, and is 26 characters long when both counters are below 1000 |
| CaptureSlides.FileNameFields | src/video_script_tool/capture_slides.py:59 | below 1000 the name is 26 characters in fixed columns: `slide_` at 0-5, three digits at 6-8 reading as the slide, `_fragment_` at 9-18, three digits at 19-21 reading as the fragment, `.png` at 22-25 |
| CaptureSlides.FileNameInjective | src/video_script_tool/capture_slides.py:59 | different (slide, fragment) pairs give different file names |
| CaptureSlides.ShotPathInjective | src/video_script_tool/capture_slides.py:59 | in one image directory, different pairs are saved to different paths |
| CaptureSlides.VisibleFragments | src/video_script_tool/capture_slides.py:66-67 | the visible list is a filter of the fragments: never longer than the fragment list, and every element mentions `visible`, and it holds each fragment class that mentions `visible` exactly as often as the fragment list does, and no other |
| CaptureSlides.VisibleAllIff | src/video_script_tool/capture_slides.py:66-69 | the filter keeps every fragment exactly when all are visible, so the next-slide branch is taken exactly when nothing is left to reveal |
| CaptureSlides.Advance | src/video_script_tool/capture_slides.py:69-81 | with a hidden fragment, the slide is unchanged and the fragment count grows by exactly 1; otherwise the slide grows by exactly 1 and the fragment count is 0; `last_slide` is never reset, and is set exactly when `navigate-right` lacks `enabled` |
| CaptureSlides.Shots | src/video_script_tool/capture_slides.py:55-63 | a run writes at least one screenshot and at most one more than there are decisions; the first is named after the current counters |
| CaptureSlides.ShotPath | src/video_script_tool/capture_slides.py:59-60 | the last component of a screenshot's path is its file name, whatever the image directory |
| CaptureSlides.MapShotsAt | src/video_script_tool/capture_slides.py:59 | the i-th written path is the path of the i-th screenshot |
| CaptureSlides.CaptureSlides | src/video_script_tool/capture_slides.py:51-83 | the loop writes exactly the paths of `Shots(Start, observations)`, in order, and reports whether it reached its `break` (`Finishes`) |
| CaptureSlides.RunStep | src/video_script_tool/capture_slides.py:62-81 | a pass that does not stop keeps the loop invariant: the screenshots so far, then those from the advanced counters, make up the whole run |
| CaptureSlides.RunEnds | src/video_script_tool/capture_slides.py:62-63 | the pass that stops writes the last screenshot of the run, and the run finished exactly when `last_slide` was set |
| CaptureSlides.FirstShot | src/video_script_tool/capture_slides.py:51-60 | the first screenshot is slide 1, fragment 0, named `slide_001_fragment_000.png`, and the first path written is that name joined to the image directory |
| CaptureSlides.ShotsIncreasing | src/video_script_tool/capture_slides.py:69-77 | the (slide, fragment) pairs of a run are strictly increasing in lexicographic order |
| CaptureSlides.NoPathWrittenTwice | src/video_script_tool/capture_slides.py:59-60 | no path is written twice in one run |
| CaptureSlides.FirstEnd | src/video_script_tool/capture_slides.py:80-81 | the index of the first observation whose `navigate-right` class lacks `enabled`: all earlier ones have it, and that one does not |
| CaptureSlides.StopsOneShotAfterEnd | src/video_script_tool/capture_slides.py:62-63 | the run reaches its `break` exactly when some observation lacks `enabled`; exactly one screenshot follows the decision that sees it, and nothing after |
| CaptureSlides.LastSlideStops | src/video_script_tool/capture_slides.py:62-63 | once `last_slide` is set, the next screenshot is the last one |
| PyPaths.JoinPath | src/video_script_tool/capture_slides.py:59 | `os.path.join` ends with the joined name |
| PyPaths.BaseName | src/video_script_tool/util.py:76 | the last path component holds no `/`, ends the path, and follows a `/` when it is not the whole path |
| PyPaths.BaseNameOfJoin | src/video_script_tool/util.py:76 | the last component of a joined path is the joined name, whatever the directory |
| ImageFiles.Stem | src/video_script_tool/util.py:83 | `fname[6:-4]` of a name shorter than 10 is empty; a name that starts with `slide_` and ends with `.png` is at least 10 long and is `slide_` + stem + `.png` |
| ImageFiles.ParseName | src/video_script_tool/util.py:76-84 | a path parses only when its last component starts with `slide_`, ends with `.png` and contains `_fragment_` |
| ImageFiles.CheckName | src/video_script_tool/util.py:79-84 | an accepted name starts with `slide_`, ends with `.png`, contains `_fragment_`, and both parts are free of `_` |
| ImageFiles.CheckNameRefuses | src/video_script_tool/util.py:79-84 | a name is refused exactly when one of the three checks fails or the reduced stem does not split into two parts; the first failing check names the error |
| ImageFiles.SplitReduced | src/video_script_tool/util.py:84 | a successful split gives two `_`-free parts that rejoin to the reduced string; a failure reports a part count other than 2 |
| ImageFiles.SplitReducedTwo | src/video_script_tool/util.py:84 | a string with exactly one `_` splits into the parts on either side |
| ImageFiles.ParseIgnoresDirectory | src/video_script_tool/util.py:76 | the directory of a path never affects its parse |
| ImageFiles.ReduceFileName | src/video_script_tool/util.py:83 | the reduced stem of a screenshot name is the two padded counters joined by `_` |
| ImageFiles.CheckFileName | src/video_script_tool/util.py:79-84 | every screenshot name passes the checks and splits into its two padded counters |
| ImageFiles.ParseFileName | src/video_script_tool/util.py:76-84 | round trip with `capture_slides.py:59`: any screenshot path parses back to the padded slide and fragment counters |
| ImageFiles.ParseExample | src/video_script_tool/util.py:78 | `slide_027_fragment_002.png` parses to slide key `027` and fragment `002` |
| ImageFiles.Counted | src/video_script_tool/util.py:73-88 | a successful count is empty exactly when there are no image files |
| ImageFiles.CountedBy | src/video_script_tool/util.py:75-86 | for any way of reading a name, a successful count is empty exactly when the list is empty |
| ImageFiles.CountedMeaning | src/video_script_tool/util.py:73-88 | the count succeeds exactly when every path is well formed; on success every slide key maps to its number of files; otherwise the error is that of the first bad path |
| ImageFiles.GetImageFragmentNumbers | src/video_script_tool/util.py:71-88 | the loop over a `defaultdict(int)` returns `Counted(image_files)` |
| ImageFiles.CountedStopsAt | src/video_script_tool/util.py:79-84 | a bad path after a good prefix ends the count with that path's error |
| ImageFiles.CountedGrows | src/video_script_tool/util.py:86 | a good path after a good prefix adds one to its slide's entry, creating it at 1 |
| ImageFiles.CountStep | src/video_script_tool/util.py:86 | on the specification side, one more file adds one to its slide's count |
| ImageFiles.CountsAtLeastOne | src/video_script_tool/util.py:73-86 | every key present has a count of at least 1, and every file's slide key is present |
| ImageFiles.OrderIndependent | src/video_script_tool/util.py:75-86 | reordering the file list changes neither success nor the counts |
| ImageFiles.SumCountsAll | src/video_script_tool/util.py:73-88 | summed over a list naming every key once, the counts give the number of files |
| MdProcessor.DownloadUrl | src/video_script_tool/md_processor.py:60-63 | the URL always ends in `/download` and is kept when it already does; otherwise it is a prefix of the input, followed in the input only by `/` and `#`, and does not end in `#` |
| MdProcessor.DownloadUrlIdempotent | src/video_script_tool/md_processor.py:60-63 | normalising twice is normalising once |
| MdProcessor.DownloadUrlOfDecomposition | src/video_script_tool/md_processor.py:63 | for a URL not ending in `/download`, split into a base not ending in `#`, a run of `#` and a run of `/` (the base not ending in `/` when there is no `#`), the result is exactly the base plus `/download` |
| MdProcessor.TextExtractor.DownloadSource | src/video_script_tool/md_processor.py:60-75 | GETs the normalised URL; on status 200 keeps the body, otherwise fails with `HttpError` for that URL and keeps the old source |
| MdProcessor.TextExtractor.constructor | src/video_script_tool/md_processor.py:15-31 | a new extractor holds the given URL and every other attribute empty |
| MdProcessor.SlideChunks | src/video_script_tool/md_processor.py:79-83 | the first piece of the split is dropped exactly when it contains `"\nslideOptions:\n"`; the other pieces are kept unchanged and in order |
| MdProcessor.SlideChunksRejoin | src/video_script_tool/md_processor.py:79-83 | joining the chunks gives back the source, after the header when one was dropped, and no chunk contains the separator |
| MdProcessor.SortedItems | src/video_script_tool/md_processor.py:93-95 | the labels are strictly ascending, one per key, and the counts are paired with them elementwise |
| MdProcessor.LabelsUnique | src/video_script_tool/md_processor.py:93-95 | the sorted labels are the only strictly increasing list of exactly the keys |
| MdProcessor.TextExtractor.SplitIntoSlides | src/video_script_tool/md_processor.py:77-95 | sets the chunks and the image list; stores `Counted(image_files)` or fails with its error; fails on an empty key list; on success stores the sorted labels and counts |
| MdProcessor.SplitOutcome | src/video_script_tool/md_processor.py:90-95 | the step succeeds exactly when every name is well formed and there is at least one image file |
| MdProcessor.CountsSumToImages | src/video_script_tool/md_processor.py:90-95 | the counts, taken in label order, add up to the number of image files |
| MdProcessor.TallySum | src/video_script_tool/util.py:86 | counts of keys listed once each add up to the number of keys counted |
| MdProcessor.SumOfPaired | src/video_script_tool/md_processor.py:93-95 | the sum of the paired count list equals the sum of the tallies over the labels |
| MdProcessor.Placeholder | src/video_script_tool/md_processor.py:114 | a stand-in text is `slide {key} fragment ` followed by decimal digits reading as k |
| MdProcessor.PlaceholderStripped | src/video_script_tool/md_processor.py:114 | a stand-in text survives the final `strip()` unchanged |
| MdProcessor.FitTexts | src/video_script_tool/md_processor.py:106-117 | exactly `n2` texts: the found ones first, in place, then `slide {key} fragment {k}` for k = n1+1..n2 |
| MdProcessor.FitTextsTruncates | src/video_script_tool/md_processor.py:115-117 | with more texts than fragments, exactly the first `n2` are kept |
| MdProcessor.FitTextsPads | src/video_script_tool/md_processor.py:111-114 | with fewer texts than fragments, the found texts are a prefix of the result |
| MdProcessor.FitToCount | src/video_script_tool/md_processor.py:106-117 | the padding loop and the truncation compute `FitTexts` |
| MdProcessor.StripAll | src/video_script_tool/md_processor.py:104 | one text per found text, each that text with its leading and trailing whitespace dropped |
| MdProcessor.SlideTexts | src/video_script_tool/md_processor.py:103-119 | a slide keeps exactly as many texts as its count |
| MdProcessor.SlidesTexts | src/video_script_tool/md_processor.py:102-119 | one text list per slide source |
| MdProcessor.SlidesTextsSnoc | src/video_script_tool/md_processor.py:119 | one more slide appends its fitted texts at the end |
| MdProcessor.SlidesTextsLengths | src/video_script_tool/md_processor.py:106-119 | every slide's text list has exactly its expected count |
| MdProcessor.TextExtractor.ExtractTextsFromSpecialComments | src/video_script_tool/md_processor.py:97-119 | succeeds exactly when every chunk has a count; the fragment texts are then the fitted texts of every chunk in order; otherwise it fails with `MissingSlideCount` at the first chunk without a count and keeps the texts of the earlier chunks |
| MdProcessor.FlattenSnoc | src/video_script_tool/md_processor.py:126-129 | flattening one more slide appends its texts |
| MdProcessor.Flatten | src/video_script_tool/md_processor.py:126-129 | the flattened list is as long as the per-slide lengths added up |
| MdProcessor.AllTextsFile | src/video_script_tool/md_processor.py:133-134 | the file ends with a newline |
| MdProcessor.AllTextsFileSplits | src/video_script_tool/md_processor.py:133-134 | for at least one text, none holding a blank line or ending in a newline, dropping the final newline and splitting at the separator gives back the texts |
| MdProcessor.TextExtractor.WriteFragmentTexts | src/video_script_tool/md_processor.py:123-134 | the written file holds every text of every slide, in order and stripped, joined by the slide separator, with a final newline |
| PyStrings.Split | src/video_script_tool/md_processor.py:79 | `str.split` gives at least one piece |
| PyStrings.JoinHead | src/video_script_tool/md_processor.py:133 | a join starts with its first piece |
| PyStrings.JoinSplit | src/video_script_tool/md_processor.py:79 | joining the pieces of a split gives back the string |
| PyStrings.SplitLeftmost | src/video_script_tool/md_processor.py:79 | when a split finds the separator, the first piece runs up to its leftmost occurrence: that occurrence follows the piece, and none starts earlier |
| PyStrings.SplitRest | src/video_script_tool/md_processor.py:79 | after the first piece and its separator, the remaining pieces are the split of what is left |
| PyStrings.SplitPartsFree | src/video_script_tool/md_processor.py:79 | no piece of a split contains the separator |
| PyStrings.SplitJoin | src/video_script_tool/md_processor.py:133 | for at least one piece, no piece holding a blank line or ending in a newline, and a separator that starts with a blank line, splitting the join gives back the pieces |
| PyStrings.RStrip | src/video_script_tool/md_processor.py:63 | `rstrip(c)` leaves a prefix that does not end in `c`, and removes only `c`s |
| PyStrings.RStripPadding | src/video_script_tool/md_processor.py:63 | `rstrip(c)` removes exactly the run of `c` appended to a string that does not end in `c` |
| PyStrings.TrimEnd | src/video_script_tool/md_processor.py:104 | the trailing-whitespace trim leaves a prefix that does not end in whitespace and removes only whitespace |
| PyStrings.TrimStart | src/video_script_tool/md_processor.py:104 | the leading-whitespace trim leaves a suffix that does not start in whitespace and removes only whitespace |
| PyStrings.Strip | src/video_script_tool/md_processor.py:104 | `strip()` leaves neither end as whitespace and is a stretch of the string with only whitespace before and after it |
| PyStrings.StripFixed | src/video_script_tool/md_processor.py:129 | `strip()` keeps a string whose ends are not whitespace |
| PyStrings.Replace | src/video_script_tool/util.py:83 | `replace` keeps a string without the target, and with a replacement no longer than the target never lengthens it |
| PyStrings.ReplaceIsJoinSplit | src/video_script_tool/util.py:83 | `s.replace(t, r)` equals `r.join(s.split(t))` for every non-empty target |
| PyStrings.ReplaceSkips | src/video_script_tool/util.py:83 | a stretch without the target's first character is copied unchanged |
| PyStrings.Decimal | src/video_script_tool/md_processor.py:114 | `str(n)` is one to three digits for n below 1000, at least two from 10 on and at least three from 100 on, starting with `0` only for 0 |
| PyStrings.DecimalValue | src/video_script_tool/md_processor.py:114 | `str(n)` reads back as n |
| PyStrings.ZeroPad3 | src/video_script_tool/capture_slides.py:59 | `f"{n:03d}"` is at least three digits, exactly three below 1000, without a leading zero from 1000 on, and reads back as n |
| PyStrings.ZeroPad3Large | src/video_script_tool/capture_slides.py:59 | from 1000 on `f"{n:03d}"` adds no padding and equals `str(n)` |
| PyStrings.ZeroPad3Injective | src/video_script_tool/capture_slides.py:59 | different counters give different padded strings |
| PyStrings.ContainsAt | src/video_script_tool/util.py:81 | `sub in s` holds when `sub` occurs at some index of `s` |
| PyStrings.ContainsWitness | src/video_script_tool/util.py:81 | when `sub in s` holds, `sub` occurs at some index of `s` |
| PyStrings.LessIrreflexive | src/video_script_tool/md_processor.py:94 | no string is below itself |
| PyStrings.LessAsymmetric | src/video_script_tool/md_processor.py:94 | two strings are never below each other |
| PyStrings.LessTransitive | src/video_script_tool/md_processor.py:94 | string `<` is transitive |
| PyStrings.LessTotal | src/video_script_tool/md_processor.py:94 | any two different strings are ordered one way |
| PyStrings.Sorted | src/video_script_tool/md_processor.py:94 | `sorted` of a set of keys holds exactly the keys, strictly ascending |
| PyStrings.IncreasingUnique | src/video_script_tool/md_processor.py:94 | two strictly increasing lists with the same elements are equal |

## Left out

- The browser is not modelled: Selenium, the screenshot bytes, PIL, `time.sleep`, fullscreen and window setup (`capture_slides.py`). The capture loop reads a sequence of observations instead, one per decision, holding the fragment classes and the `navigate-right` class.
- CaptureSlides.CaptureSlides: the real loop runs until the browser reports the end. The model stops when the observations run out and reports whether the `break` was reached, so termination of the real loop is not claimed.
- Writing the image files and printing progress are left out. The written paths are returned in order instead.
- `glob.glob` and `list.sort` in `split_into_slides` are left out: the image paths are a parameter. `ImageFiles.OrderIndependent` shows that their order does not change the counts.
- The regular expression `<!--f[0-9]*\s*(.*?)/-->` in `extract_texts_from_special_comments` is left out: its matches are a parameter mapping a slide source to the list of comment bodies.
- MdProcessor.TextExtractor.DownloadSource models only the download branch. The `force_source` and cached-file branches (file reads and the wall-clock age of the file) are left out. So are the write of the downloaded bytes and the UTF-8 decode: the response body is already a string.
- MdProcessor.TextExtractor.constructor starts the attributes that `__init__` sets to `None` as empty values, and it also starts `slide_label_list` empty, although `__init__` never sets it (`md_processor.py:24-31`). So a step called before the step it depends on succeeds in the model on empty data, where Python raises. For example, `split_into_slides` before `download_source` raises `AttributeError`, and `extract_texts_from_special_comments` before `split_into_slides` raises `TypeError`. The model follows the order that `perform_text_extraction` uses.
- MdProcessor.TextExtractor.WriteFragmentTexts records the file contents in a field rather than writing a file.
- `perform_text_extraction` is not modelled as a method. It only calls the four steps in order.
- The warning lines printed when a slide's text count differs are left out.
- PyPaths models POSIX paths, where `/` is the only separator. On Windows, `ntpath` also splits at `\`, and `glob` returns paths with backslashes; neither is modelled.
- `util.py`'s audio-duration helper, its stdout wrapper and its colour helpers are left out (subprocess, file descriptors, terminal colours).
- `gui.py`, `core.py`, `cli.py` and `combine_snippets.py` are not part of this model.
