/**
 * The counter loop of `SlideCaptureManager.capture_slides`: every pass
 * writes a screenshot named after `slide_count` and `fragment_count`, stops
 * if `last_slide` is set, and otherwise either reveals one more fragment or
 * moves to the next slide, setting `last_slide` once the "navigate-right"
 * control is no longer enabled.
 *
 * The browser is replaced by the sequence of observations it would report,
 * one per decision; a run that uses up the sequence before `last_slide` is
 * set ends there and says so.
 */
module CaptureSlides {
  import opened PyStrings
  import opened PyPaths

  /**
   * What the page reports at one decision: the `class` attribute of every
   * element of class "fragment" (read before the key press), and the
   * `class` attribute of the "navigate-right" control (read after it).
   */
  datatype Observation = Observation(fragmentClasses: seq<string>, rightClass: string)

  /** The loop's variables `slide_count`, `fragment_count` and `last_slide`. */
  datatype Counters = Counters(slideCount: nat, fragmentCount: nat, lastSlide: bool)

  /** Their values before the first screenshot. */
  const Start := Counters(1, 0, false)

  /** `slide_NNN_fragment_MMM.png`, the name every screenshot is saved under. */
  function FileName(slide: nat, fragment: nat): (name: string)
    ensures StartsWith(name, "slide_") && EndsWith(name, ".png")
    ensures name != [] && '/' !in name
    ensures slide < 1000 && fragment < 1000 ==> |name| == 26
  {
    var a, b := ZeroPad3(slide), ZeroPad3(fragment);
    DigitsLack(a, '/');
    DigitsLack(b, '/');
    var name := "slide_" + a + "_fragment_" + b + ".png";
    assert name[..6] == "slide_";
    name
  }

  /**
   * `visible` holds every class that mentions "visible" as often as
   * `classes` does, and no other.
   */
  ghost predicate KeepsVisible(classes: seq<string>, visible: seq<string>) {
    forall x :: multiset(visible)[x] == if Contains(x, "visible") then multiset(classes)[x] else 0
  }

  /** The fragments whose class mentions "visible": the list comprehension of the loop. */
  function VisibleFragments(classes: seq<string>): (visible: seq<string>)
    ensures |visible| <= |classes|
    ensures forall k :: 0 <= k < |visible| ==> Contains(visible[k], "visible")
    ensures KeepsVisible(classes, visible)
    decreases |classes|
  {
    if classes == [] then []
    else
      assert classes == [classes[0]] + classes[1..];
      (if Contains(classes[0], "visible") then [classes[0]] else []) + VisibleFragments(classes[1..])
  }

  /** Every fragment on the page is shown. */
  predicate AllRevealed(classes: seq<string>) {
    forall k :: 0 <= k < |classes| ==> Contains(classes[k], "visible")
  }

  /** The filter keeps every fragment exactly when all of them are shown. */
  lemma {:induction false} VisibleAllIff(classes: seq<string>)
    ensures |VisibleFragments(classes)| == |classes| <==> AllRevealed(classes)
    decreases |classes|
  {
    if classes != [] {
      var tail := classes[1..];
      VisibleAllIff(tail);
      AllRevealedCons(classes);
    }
  }

  /** A list of fragments is all shown exactly when its head and its tail are. */
  lemma AllRevealedCons(classes: seq<string>)
    requires classes != []
    ensures AllRevealed(classes) <==> Contains(classes[0], "visible") && AllRevealed(classes[1..])
  {
    var tail := classes[1..];
    if AllRevealed(classes) {
      forall k | 0 <= k < |tail| ensures Contains(tail[k], "visible") { assert tail[k] == classes[k + 1]; }
    }
    if Contains(classes[0], "visible") && AllRevealed(tail) {
      forall k | 0 <= k < |classes| ensures Contains(classes[k], "visible") {
        if k > 0 { assert classes[k] == tail[k - 1]; }
      }
    }
  }

  /**
   * One decision of the loop, taken after a screenshot when `last_slide`
   * is still unset: reveal a fragment or go to the next slide, then look
   * at the "navigate-right" control.
   */
  function Advance(c: Counters, o: Observation): (d: Counters)
    ensures !AllRevealed(o.fragmentClasses) ==>
              d.slideCount == c.slideCount && d.fragmentCount == c.fragmentCount + 1
    ensures AllRevealed(o.fragmentClasses) ==>
              d.slideCount == c.slideCount + 1 && d.fragmentCount == 0
    ensures c.lastSlide ==> d.lastSlide
    ensures d.lastSlide <==> c.lastSlide || !Contains(o.rightClass, "enabled")
  {
    VisibleAllIff(o.fragmentClasses);
    var fragments := o.fragmentClasses;
    var visible := VisibleFragments(fragments);
    var lastSlide := c.lastSlide || !Contains(o.rightClass, "enabled");
    if |visible| < |fragments| then Counters(c.slideCount, c.fragmentCount + 1, lastSlide)
    else Counters(c.slideCount + 1, 0, lastSlide)
  }

  /**
   * The (slide, fragment) pair of every screenshot the loop writes from
   * counters `c` on, given the observations still to come.
   */
  function Shots(c: Counters, obs: seq<Observation>): (shots: seq<(nat, nat)>)
    ensures 1 <= |shots| <= |obs| + 1
    ensures shots[0] == (c.slideCount, c.fragmentCount)
    decreases |obs|
  {
    [(c.slideCount, c.fragmentCount)]
      + (if c.lastSlide || obs == [] then [] else Shots(Advance(c, obs[0]), obs[1..]))
  }

  /** Whether the loop reaches its `break` before the observations run out. */
  predicate Finishes(c: Counters, obs: seq<Observation>)
    decreases |obs|
  {
    c.lastSlide || (obs != [] && Finishes(Advance(c, obs[0]), obs[1..]))
  }

  /** The path a screenshot with counters `shot` is saved to. */
  function ShotPath(imageDir: string, shot: (nat, nat)): (path: string)
    ensures BaseName(path) == FileName(shot.0, shot.1)
  {
    BaseNameOfJoin(imageDir, FileName(shot.0, shot.1));
    JoinPath(imageDir, FileName(shot.0, shot.1))
  }

  /** `name` applied to every screenshot, in order. */
  function MapShots(name: ((nat, nat)) -> string, shots: seq<(nat, nat)>): (paths: seq<string>)
    ensures |paths| == |shots|
    decreases |shots|
  {
    if shots == [] then []
    else MapShots(name, shots[..|shots| - 1]) + [name(shots[|shots| - 1])]
  }

  lemma {:induction false} MapShotsAt(name: ((nat, nat)) -> string, shots: seq<(nat, nat)>)
    ensures forall k :: 0 <= k < |shots| ==> MapShots(name, shots)[k] == name(shots[k])
    decreases |shots|
  {
    if shots != [] {
      var init := shots[..|shots| - 1];
      MapShotsAt(name, init);
      forall k | 0 <= k < |shots| ensures MapShots(name, shots)[k] == name(shots[k]) {
        if k < |init| {
          assert shots[k] == init[k];
        }
      }
    }
  }

  /** The paths of the screenshots `shots`, in order. */
  function ShotPaths(imageDir: string, shots: seq<(nat, nat)>): (paths: seq<string>)
    ensures |paths| == |shots|
  {
    MapShots(shot => ShotPath(imageDir, shot), shots)
  }

  /**
   * The loop itself. `written` lists the screenshot paths in the order they
   * are written; `finished` tells whether the run reached its `break`.
   */
  method CaptureSlides(imageDir: string, observations: seq<Observation>)
    returns (written: seq<string>, finished: bool)
    ensures written == ShotPaths(imageDir, Shots(Start, observations))
    ensures finished == Finishes(Start, observations)
  {
    var slideCount: nat := 1;
    var fragmentCount: nat := 0;
    var lastSlide := false;
    var i := 0;
    written := [];
    ghost var done: seq<(nat, nat)> := [];
    while true
      invariant 0 <= i <= |observations|
      invariant written == ShotPaths(imageDir, done)
      invariant Resumes(Counters(slideCount, fragmentCount, lastSlide), observations, i, done)
      decreases |observations| - i
    {
      ghost var c := Counters(slideCount, fragmentCount, lastSlide);
      ShotPathsSnoc(imageDir, done, (slideCount, fragmentCount));
      written := written + [JoinPath(imageDir, FileName(slideCount, fragmentCount))];
      if lastSlide || i == |observations| {
        RunEnds(c, observations, i, done);
        done := done + [(slideCount, fragmentCount)];
        finished := lastSlide;
        break;
      }
      ghost var before := done;
      done := done + [(slideCount, fragmentCount)];
      var o := observations[i];
      i := i + 1;
      var fragments := o.fragmentClasses;
      var visibleFragments := VisibleFragments(fragments);
      if |visibleFragments| < |fragments| {
        fragmentCount := fragmentCount + 1;
      } else {
        slideCount := slideCount + 1;
        fragmentCount := 0;
      }
      if !Contains(o.rightClass, "enabled") {
        lastSlide := true;
      }
      RunStep(c, observations, i, before, Counters(slideCount, fragmentCount, lastSlide));
    }
  }

  /**
   * The loop state after `i` observations: the screenshots `done` so far,
   * followed by those still to come from counters `c`, make up the whole
   * run, and the run ends the same way.
   */
  predicate Resumes(c: Counters, obs: seq<Observation>, i: nat, done: seq<(nat, nat)>) {
    i <= |obs|
    && done + Shots(c, obs[i..]) == Shots(Start, obs)
    && Finishes(c, obs[i..]) == Finishes(Start, obs)
  }

  /** The pass that ends the loop: its screenshot is the last one. */
  lemma RunEnds(c: Counters, obs: seq<Observation>, i: nat, done: seq<(nat, nat)>)
    requires Resumes(c, obs, i, done) && (c.lastSlide || i == |obs|)
    ensures done + [(c.slideCount, c.fragmentCount)] == Shots(Start, obs)
    ensures c.lastSlide == Finishes(Start, obs)
  {
    RunUnfolds(c, obs, i);
  }

  /** A pass that goes on: its screenshot, then the run from the advanced counters. */
  lemma RunStep(c: Counters, obs: seq<Observation>, next: nat, done: seq<(nat, nat)>, d: Counters)
    requires 0 < next <= |obs| && Resumes(c, obs, next - 1, done) && !c.lastSlide
    requires d == Advance(c, obs[next - 1])
    ensures Resumes(d, obs, next, done + [(c.slideCount, c.fragmentCount)])
  {
    RunUnfolds(c, obs, next - 1);
    SeqAssoc(done, [(c.slideCount, c.fragmentCount)], Shots(d, obs[next..]));
  }

  lemma SeqAssoc<T>(a: seq<T>, b: seq<T>, c: seq<T>)
    ensures (a + b) + c == a + (b + c)
  {
  }

  lemma ShotPathsSnoc(imageDir: string, shots: seq<(nat, nat)>, shot: (nat, nat))
    ensures ShotPaths(imageDir, shots + [shot]) == ShotPaths(imageDir, shots) + [ShotPath(imageDir, shot)]
  {
    assert (shots + [shot])[..|shots|] == shots;
  }

  /** One pass of the loop, seen on the specification: a screenshot, then the rest of the run. */
  lemma RunUnfolds(c: Counters, obs: seq<Observation>, i: nat)
    requires i <= |obs|
    ensures c.lastSlide || i == |obs| ==> Shots(c, obs[i..]) == [(c.slideCount, c.fragmentCount)]
    ensures c.lastSlide ==> Finishes(c, obs[i..])
    ensures !c.lastSlide && i == |obs| ==> !Finishes(c, obs[i..])
    ensures !c.lastSlide && i < |obs| ==>
              Shots(c, obs[i..])
              == [(c.slideCount, c.fragmentCount)] + Shots(Advance(c, obs[i]), obs[i + 1..])
    ensures !c.lastSlide && i < |obs| ==>
              Finishes(c, obs[i..]) == Finishes(Advance(c, obs[i]), obs[i + 1..])
  {
    if !c.lastSlide && i < |obs| {
      assert obs[i..][1..] == obs[i + 1..];
    }
  }

  // ---------------------------------------------------------------------
  // Properties of a run

  /** The first screenshot is `slide_001_fragment_000.png`. */
  lemma FirstShot(imageDir: string, obs: seq<Observation>)
    ensures Shots(Start, obs)[0] == (1, 0)
    ensures FileName(1, 0) == "slide_001_fragment_000.png"
    ensures ShotPaths(imageDir, Shots(Start, obs))[0] == JoinPath(imageDir, "slide_001_fragment_000.png")
  {
    FirstPads();
    FileNameParts(1, 0);
    FirstLiteral("001", "000");
    var shots := Shots(Start, obs);
    MapShotsAt(shot => ShotPath(imageDir, shot), shots);
    assert ShotPaths(imageDir, shots)[0] == ShotPath(imageDir, (1, 0));
  }

  lemma FirstPads()
    ensures ZeroPad3(1) == "001" && ZeroPad3(0) == "000"
  {
    assert Decimal(1) == "1" && Decimal(0) == "0";
  }

  lemma FirstLiteral(a: string, b: string)
    requires a == "001" && b == "000"
    ensures "slide_" + a + "_fragment_" + b + ".png" == "slide_001_fragment_000.png"
  {
  }

  /** Strict lexicographic order on (slide, fragment) pairs. */
  predicate Before(p: (nat, nat), q: (nat, nat)) {
    p.0 < q.0 || (p.0 == q.0 && p.1 < q.1)
  }

  /** The screenshots of a run come in strictly increasing (slide, fragment) order. */
  lemma {:induction false} ShotsIncreasing(c: Counters, obs: seq<Observation>)
    ensures forall i, j :: 0 <= i < j < |Shots(c, obs)| ==> Before(Shots(c, obs)[i], Shots(c, obs)[j])
    decreases |obs|
  {
    var shots := Shots(c, obs);
    if !c.lastSlide && obs != [] {
      var d := Advance(c, obs[0]);
      var tail := Shots(d, obs[1..]);
      ShotsIncreasing(d, obs[1..]);
      assert shots == [shots[0]] + tail;
      ConsIncreasing(shots[0], tail);
    }
  }

  /** A pair before the first of an increasing list extends it. */
  lemma ConsIncreasing(head: (nat, nat), tail: seq<(nat, nat)>)
    requires forall i, j :: 0 <= i < j < |tail| ==> Before(tail[i], tail[j])
    requires tail != [] ==> Before(head, tail[0])
    ensures forall i, j :: 0 <= i < j < |[head] + tail| ==> Before(([head] + tail)[i], ([head] + tail)[j])
  {
    var shots := [head] + tail;
    forall i, j | 0 <= i < j < |shots| ensures Before(shots[i], shots[j]) {
      assert shots[j] == tail[j - 1];
      if i > 0 {
        assert shots[i] == tail[i - 1];
      } else if j > 1 {
        assert Before(tail[0], tail[j - 1]);
      }
    }
  }

  /** Between the fixed prefix and suffix a file name holds the two padded counters. */
  lemma FileNameParts(slide: nat, fragment: nat)
    ensures FileName(slide, fragment) == "slide_" + ZeroPad3(slide) + "_fragment_" + ZeroPad3(fragment) + ".png"
  {
  }

  /**
   * Below 1000, the name is laid out in fixed columns: `slide_`, three
   * digits reading as the slide, `_fragment_`, three digits reading as the
   * fragment, `.png`.
   */
  lemma FileNameFields(slide: nat, fragment: nat)
    requires slide < 1000 && fragment < 1000
    ensures var name := FileName(slide, fragment);
            && |name| == 26 && name[..6] == "slide_" && name[9..19] == "_fragment_" && name[22..] == ".png"
            && AllDigits(name[6..9]) && DigitsValue(name[6..9]) == slide
            && AllDigits(name[19..22]) && DigitsValue(name[19..22]) == fragment
  {
    var name := FileName(slide, fragment);
    var a, b := ZeroPad3(slide), ZeroPad3(fragment);
    FileNameParts(slide, fragment);
    assert name == "slide_" + a + "_fragment_" + b + ".png";
    assert name[6..9] == a && name[9..19] == "_fragment_";
    assert name[19..22] == b && name[22..] == ".png";
  }

  lemma FileNameMiddle(slide: nat, fragment: nat)
    ensures |FileName(slide, fragment)| >= 10
    ensures FileName(slide, fragment)[6..|FileName(slide, fragment)| - 4]
            == ZeroPad3(slide) + "_" + ("fragment_" + ZeroPad3(fragment))
  {
    var a, b := ZeroPad3(slide), ZeroPad3(fragment);
    var n := FileName(slide, fragment);
    assert n == "slide_" + (a + "_" + ("fragment_" + b)) + ".png";
  }

  /** Different counters give different file names. */
  lemma FileNameInjective(s1: nat, f1: nat, s2: nat, f2: nat)
    requires FileName(s1, f1) == FileName(s2, f2)
    ensures s1 == s2 && f1 == f2
  {
    var a1, b1 := ZeroPad3(s1), ZeroPad3(f1);
    var a2, b2 := ZeroPad3(s2), ZeroPad3(f2);
    FileNameMiddle(s1, f1);
    FileNameMiddle(s2, f2);
    var m := a1 + "_" + ("fragment_" + b1);
    assert m == a2 + "_" + ("fragment_" + b2);
    DigitsThenUnderscore(a1, "fragment_" + b1, a2, "fragment_" + b2);
    assert "fragment_" + b1 == m[|a1| + 1..] == "fragment_" + b2;
    assert b1 == ("fragment_" + b1)[9..];
    assert b2 == ("fragment_" + b2)[9..];
    ZeroPad3Injective(s1, s2);
    ZeroPad3Injective(f1, f2);
  }

  lemma DigitsThenUnderscore(a1: string, r1: string, a2: string, r2: string)
    requires AllDigits(a1) && AllDigits(a2)
    requires a1 + "_" + r1 == a2 + "_" + r2
    ensures a1 == a2
  {
    var s, t := a1 + "_" + r1, a2 + "_" + r2;
    assert s[|a1|] == '_' && t[|a2|] == '_';
    assert forall k :: 0 <= k < |a1| ==> s[k] == a1[k];
    assert forall k :: 0 <= k < |a2| ==> t[k] == a2[k];
    assert |a1| == |a2|;
    assert a1 == s[..|a1|] && a2 == t[..|a2|];
  }

  /** No path is written twice in one run. */
  lemma NoPathWrittenTwice(imageDir: string, obs: seq<Observation>)
    ensures forall i, j :: 0 <= i < j < |ShotPaths(imageDir, Shots(Start, obs))| ==>
              ShotPaths(imageDir, Shots(Start, obs))[i] != ShotPaths(imageDir, Shots(Start, obs))[j]
  {
    var shots := Shots(Start, obs);
    var paths := ShotPaths(imageDir, shots);
    ShotsIncreasing(Start, obs);
    MapShotsAt(shot => ShotPath(imageDir, shot), shots);
    forall i, j | 0 <= i < j < |paths| ensures paths[i] != paths[j] {
      if paths[i] == paths[j] {
        ShotPathInjective(imageDir, shots[i], shots[j]);
      }
    }
  }

  /** Different counters are saved to different paths. */
  lemma ShotPathInjective(imageDir: string, p: (nat, nat), q: (nat, nat))
    requires ShotPath(imageDir, p) == ShotPath(imageDir, q)
    ensures p == q
  {
    BaseNameOfJoin(imageDir, FileName(p.0, p.1));
    BaseNameOfJoin(imageDir, FileName(q.0, q.1));
    FileNameInjective(p.0, p.1, q.0, q.1);
  }

  /**
   * Index of the first observation whose "navigate-right" class lacks
   * "enabled", or the number of observations when there is none.
   */
  function FirstEnd(obs: seq<Observation>): (k: nat)
    ensures k <= |obs|
    ensures forall j :: 0 <= j < k ==> Contains(obs[j].rightClass, "enabled")
    ensures k < |obs| ==> !Contains(obs[k].rightClass, "enabled")
    decreases |obs|
  {
    if obs == [] then 0
    else if !Contains(obs[0].rightClass, "enabled") then 0
    else 1 + FirstEnd(obs[1..])
  }

  /**
   * Capture, then stop: the run reaches its `break` exactly when some
   * observation shows "navigate-right" without "enabled"; the decision that
   * sees it is followed by exactly one more screenshot, and nothing after.
   */
  lemma {:induction false} StopsOneShotAfterEnd(c: Counters, obs: seq<Observation>)
    requires !c.lastSlide
    ensures Finishes(c, obs) <==> FirstEnd(obs) < |obs|
    ensures |Shots(c, obs)| == if FirstEnd(obs) < |obs| then FirstEnd(obs) + 2 else |obs| + 1
    decreases |obs|
  {
    if obs != [] {
      var d := Advance(c, obs[0]);
      if Contains(obs[0].rightClass, "enabled") {
        StopsOneShotAfterEnd(d, obs[1..]);
      }
    }
  }

  /** Once `last_slide` is set the next screenshot is the last one. */
  lemma LastSlideStops(c: Counters, obs: seq<Observation>)
    requires c.lastSlide
    ensures Shots(c, obs) == [(c.slideCount, c.fragmentCount)]
    ensures Finishes(c, obs)
  {
  }
}
