/**
 * The Python `str` operations the tool relies on, with Python's semantics
 * written out on `seq<char>`: `startswith`, `endswith`, `in`, `replace`,
 * `split`, `join`, `rstrip(c)`, `strip()`, `str(n)`, `f"{n:03d}"`, the
 * ordering `<` and `sorted` on a set of strings.
 */
module PyStrings {

  // ---------------------------------------------------------------------
  // Prefixes, suffixes, substrings

  predicate StartsWith(s: string, prefix: string) {
    |prefix| <= |s| && s[..|prefix|] == prefix
  }

  predicate EndsWith(s: string, suffix: string) {
    |suffix| <= |s| && s[|s| - |suffix|..] == suffix
  }

  /** Python's `sub in s`. */
  predicate Contains(s: string, sub: string)
    decreases |s|
  {
    StartsWith(s, sub) || (s != [] && Contains(s[1..], sub))
  }

  lemma {:induction false} ContainsAt(s: string, sub: string, i: nat)
    requires i + |sub| <= |s| && s[i..i + |sub|] == sub
    ensures Contains(s, sub)
    decreases i
  {
    if i > 0 {
      assert s[1..][i - 1..i - 1 + |sub|] == s[i..i + |sub|];
      ContainsAt(s[1..], sub, i - 1);
    }
  }

  lemma {:induction false} ContainsWitness(s: string, sub: string) returns (i: nat)
    requires Contains(s, sub)
    ensures i + |sub| <= |s| && s[i..i + |sub|] == sub
    decreases |s|
  {
    if StartsWith(s, sub) {
      i := 0;
    } else {
      var j := ContainsWitness(s[1..], sub);
      i := j + 1;
      assert s[1..][j..j + |sub|] == s[i..i + |sub|];
    }
  }

  /** A substring of `a` is a substring of every string that has `a` inside it. */
  lemma ContainsIn(a: string, b: string, c: string, sub: string)
    requires Contains(b, sub)
    ensures Contains(a + b + c, sub)
  {
    var i := ContainsWitness(b, sub);
    assert (a + b + c)[|a| + i..|a| + i + |sub|] == b[i..i + |sub|];
    ContainsAt(a + b + c, sub, |a| + i);
  }

  // ---------------------------------------------------------------------
  // replace, split, join

  /**
   * `s.replace(target, replacement)`: every non-overlapping occurrence of
   * `target`, scanning left to right, is replaced.
   */
  function Replace(s: string, target: string, replacement: string): (r: string)
    requires target != []
    ensures !Contains(s, target) ==> r == s
    ensures |replacement| <= |target| ==> |r| <= |s|
    decreases |s|
  {
    if s == [] then []
    else if StartsWith(s, target) then replacement + Replace(s[|target|..], target, replacement)
    else [s[0]] + Replace(s[1..], target, replacement)
  }

  /** `s.replace(t, r)` is `r.join(s.split(t))`: the pieces between the occurrences, rejoined by the replacement. */
  lemma {:induction false} ReplaceIsJoinSplit(s: string, target: string, replacement: string)
    requires target != []
    ensures Replace(s, target, replacement) == Join(Split(s, target), replacement)
    decreases |s|
  {
    if StartsWith(s, target) {
      var rest := Split(s[|target|..], target);
      ReplaceIsJoinSplit(s[|target|..], target, replacement);
      SplitAtSep(s, target);
      JoinCons("", rest, replacement);
      assert "" + replacement + Join(rest, replacement) == replacement + Join(rest, replacement);
    } else if s != [] {
      ReplaceIsJoinSplit(s[1..], target, replacement);
      SplitGrow(s, target);
      JoinGrowHead(s[0], Split(s[1..], target), replacement);
    }
  }

  /** A stretch without the first character of `target` is copied unchanged by `replace`. */
  lemma {:induction false} ReplaceSkips(x: string, rest: string, target: string, replacement: string)
    requires target != [] && target[0] !in x
    ensures Replace(x + rest, target, replacement) == x + Replace(rest, target, replacement)
    decreases |x|
  {
    if x != [] {
      var s := x + rest;
      assert !StartsWith(s, target) by { assert s[0] == x[0] != target[0]; }
      ReplaceSkips(x[1..], rest, target, replacement);
      assert s[1..] == x[1..] + rest;
    } else {
      assert x + rest == rest;
    }
  }

  /** Replacing a string that starts with a character absent from `s` leaves `s` as it is. */
  lemma ReplaceAbsent(s: string, target: string, replacement: string)
    requires target != [] && target[0] !in s
    ensures Replace(s, target, replacement) == s
  {
    ReplaceSkips(s, [], target, replacement);
    assert s + [] == s;
  }

  /**
   * `s.split(sep)`: the pieces between the non-overlapping occurrences of
   * `sep`, found left to right; there is always at least one piece.
   */
  function Split(s: string, sep: string): (parts: seq<string>)
    requires sep != []
    ensures |parts| >= 1
    decreases |s|
  {
    if StartsWith(s, sep) then [""] + Split(s[|sep|..], sep)
    else if s == [] then [""]
    else
      var rest := Split(s[1..], sep);
      [[s[0]] + rest[0]] + rest[1..]
  }

  /** A string without the first character of `sep` is one piece of its own. */
  lemma {:induction false} SplitAbsent(x: string, sep: string)
    requires sep != [] && sep[0] !in x
    ensures Split(x, sep) == [x]
    decreases |x|
  {
    if x != [] {
      assert !StartsWith(x, sep) by { assert x[0] != sep[0]; }
      SplitAbsent(x[1..], sep);
      assert [x[0]] + x[1..] == x;
    }
  }

  /** When the first occurrence of `sep` follows `x`, `x` is the first piece. */
  lemma {:induction false} SplitAfter(x: string, sep: string, rest: string)
    requires sep != [] && sep[0] !in x
    ensures Split(x + sep + rest, sep) == [x] + Split(rest, sep)
    decreases |x|
  {
    var s := x + sep + rest;
    if x == [] {
      assert s == sep + rest && s[|sep|..] == rest;
    } else {
      assert !StartsWith(s, sep) by { assert s[0] == x[0] != sep[0]; }
      SplitAfter(x[1..], sep, rest);
      assert s[1..] == x[1..] + sep + rest;
      assert [x[0]] + x[1..] == x;
    }
  }

  /**
   * `first` runs from the start of `s` up to the leftmost occurrence of
   * `sep`: that occurrence follows it, and none starts earlier.
   */
  predicate UpToLeftmost(s: string, sep: string, first: string) {
    && |first| + |sep| <= |s|
    && first == s[..|first|]
    && StartsWith(s[|first|..], sep)
    && (forall j :: 0 <= j < |first| ==> !StartsWith(s[j..], sep))
  }

  /** When `split` finds a separator, the first piece runs up to its leftmost occurrence. */
  lemma {:induction false} SplitLeftmost(s: string, sep: string)
    requires sep != [] && |Split(s, sep)| >= 2
    ensures UpToLeftmost(s, sep, Split(s, sep)[0])
    decreases |s|
  {
    if StartsWith(s, sep) {
      SplitAtSep(s, sep);
    } else if s != [] {
      var rest := Split(s[1..], sep);
      SplitGrow(s, sep);
      SplitLeftmost(s[1..], sep);
      LeftmostGrow(s, sep, rest[0]);
    }
  }

  /** After the first piece and its separator, the remaining pieces are the split of what is left. */
  lemma {:induction false} SplitRest(s: string, sep: string)
    requires sep != [] && |Split(s, sep)| >= 2
    ensures |Split(s, sep)[0]| + |sep| <= |s|
    ensures Split(s, sep)[1..] == Split(s[|Split(s, sep)[0]| + |sep|..], sep)
    decreases |s|
  {
    SplitLeftmost(s, sep);
    if StartsWith(s, sep) {
      SplitAtSep(s, sep);
    } else if s != [] {
      var rest := Split(s[1..], sep);
      SplitGrow(s, sep);
      SplitRest(s[1..], sep);
      var k := |rest[0]| + |sep|;
      assert Split(s, sep)[1..] == rest[1..];
      assert s[k + 1..] == s[1..][k..];
    }
  }

  /** The leftmost occurrence moves one place right past a first character that does not start one. */
  lemma LeftmostGrow(s: string, sep: string, first: string)
    requires s != [] && !StartsWith(s, sep)
    requires UpToLeftmost(s[1..], sep, first)
    ensures UpToLeftmost(s, sep, [s[0]] + first)
  {
    var t, m := s[1..], |first|;
    assert [s[0]] + first == s[..m + 1] by {
      assert s[..m + 1] == [s[0]] + t[..m];
    }
    assert s[m + 1..] == t[m..];
    forall j | 0 <= j < m + 1 ensures !StartsWith(s[j..], sep) {
      if j > 0 { assert s[j..] == t[j - 1..]; }
    }
  }

  /** `sep.join(parts)`. */
  function Join(parts: seq<string>, sep: string): (s: string)
    decreases |parts|
  {
    if parts == [] then ""
    else if |parts| == 1 then parts[0]
    else parts[0] + sep + Join(parts[1..], sep)
  }

  /** Splitting and joining again gives back the original string. */
  lemma {:induction false} JoinSplit(s: string, sep: string)
    requires sep != []
    ensures Join(Split(s, sep), sep) == s
    decreases |s|
  {
    if StartsWith(s, sep) {
      JoinSplit(s[|sep|..], sep);
      JoinSplitAtSep(s, sep);
    } else if s != [] {
      JoinSplit(s[1..], sep);
      JoinSplitGrow(s, sep);
    }
  }

  lemma JoinSplitAtSep(s: string, sep: string)
    requires sep != [] && StartsWith(s, sep)
    requires Join(Split(s[|sep|..], sep), sep) == s[|sep|..]
    ensures Join(Split(s, sep), sep) == s
  {
    var tail := s[|sep|..];
    var rest := Split(tail, sep);
    SplitAtSep(s, sep);
    JoinCons("", rest, sep);
    assert Join(Split(s, sep), sep) == "" + sep + tail;
    assert "" + sep + tail == sep + tail == s;
  }

  lemma JoinSplitGrow(s: string, sep: string)
    requires sep != [] && s != [] && !StartsWith(s, sep)
    requires Join(Split(s[1..], sep), sep) == s[1..]
    ensures Join(Split(s, sep), sep) == s
  {
    SplitGrow(s, sep);
    JoinGrowHead(s[0], Split(s[1..], sep), sep);
    assert s == [s[0]] + s[1..];
  }

  /** One step of `split` where the string starts with the separator. */
  lemma SplitAtSep(s: string, sep: string)
    requires sep != [] && StartsWith(s, sep)
    ensures Split(s, sep) == [""] + Split(s[|sep|..], sep)
  {
  }

  /** One step of `split` where the first character starts the first piece. */
  lemma SplitGrow(s: string, sep: string)
    requires sep != [] && s != [] && !StartsWith(s, sep)
    ensures var rest := Split(s[1..], sep);
            Split(s, sep) == [[s[0]] + rest[0]] + rest[1..]
  {
  }

  lemma JoinCons(x: string, rest: seq<string>, sep: string)
    requires rest != []
    ensures Join([x] + rest, sep) == x + sep + Join(rest, sep)
  {
    assert ([x] + rest)[1..] == rest;
  }

  /** Putting a character in front of the first part puts it in front of the joined string. */
  lemma JoinGrowHead(c: char, parts: seq<string>, sep: string)
    requires parts != []
    ensures Join([[c] + parts[0]] + parts[1..], sep) == [c] + Join(parts, sep)
  {
    if |parts| > 1 {
      JoinCons([c] + parts[0], parts[1..], sep);
      JoinCons(parts[0], parts[1..], sep);
      assert [parts[0]] + parts[1..] == parts;
    }
  }

  /** No piece produced by `split` contains the separator. */
  lemma {:induction false} SplitPartsFree(s: string, sep: string)
    requires sep != []
    ensures forall k :: 0 <= k < |Split(s, sep)| ==> !Contains(Split(s, sep)[k], sep)
    decreases |s|
  {
    var parts := Split(s, sep);
    if StartsWith(s, sep) {
      SplitPartsFree(s[|sep|..], sep);
      assert !Contains("", sep);
      forall k | 0 <= k < |parts| ensures !Contains(parts[k], sep) {
        if k > 0 { assert parts[k] == Split(s[|sep|..], sep)[k - 1]; }
      }
    } else if s != [] {
      var rest := Split(s[1..], sep);
      SplitPartsFree(s[1..], sep);
      JoinSplit(s[1..], sep);
      var first := [s[0]] + rest[0];
      assert !StartsWith(first, sep) by {
        JoinHead(rest, sep);
      }
      assert first[1..] == rest[0];
      assert !Contains(first, sep);
      forall k | 0 <= k < |parts| ensures !Contains(parts[k], sep) {
        if k > 0 { assert parts[k] == rest[k]; }
      }
    }
  }

  /** The first piece is a prefix of the joined string. */
  lemma JoinHead(parts: seq<string>, sep: string)
    requires parts != []
    ensures StartsWith(Join(parts, sep), parts[0])
  {
  }

  /**
   * Joining pieces that hold no blank line and do not end in a line break,
   * then splitting on a separator that starts with a blank line, gives the
   * pieces back.
   */
  lemma {:induction false} SplitJoin(parts: seq<string>, sep: string)
    requires |sep| >= 2 && sep[0] == '\n' && sep[1] == '\n'
    requires parts != []
    requires forall k :: 0 <= k < |parts| ==> NoBlankLine(parts[k])
    ensures Split(Join(parts, sep), sep) == parts
    decreases |parts|
  {
    if |parts| == 1 {
      SplitSingle(parts[0], sep);
    } else {
      var tail := parts[1..];
      assert forall k :: 0 <= k < |tail| ==> NoBlankLine(tail[k]) by {
        forall k | 0 <= k < |tail| ensures NoBlankLine(tail[k]) {
          assert tail[k] == parts[k + 1];
        }
      }
      SplitJoin(tail, sep);
      var joined := Join(tail, sep);
      assert [parts[0]] + tail == parts;
      JoinConsAssoc(parts[0], tail, sep);
      SplitAfterPiece(parts[0], sep, joined, tail);
    }
  }

  /** `sep.join` with the first piece taken apart. */
  lemma JoinConsAssoc(x: string, tail: seq<string>, sep: string)
    requires tail != []
    ensures Join([x] + tail, sep) == x + (sep + Join(tail, sep))
  {
    JoinCons(x, tail, sep);
  }

  lemma SplitAfterPiece(x: string, sep: string, joined: string, tail: seq<string>)
    requires |sep| >= 2 && sep[0] == '\n' && sep[1] == '\n'
    requires NoBlankLine(x) && Split(joined, sep) == tail
    ensures Split(x + (sep + joined), sep) == [x] + tail
  {
    SplitFirst(x, sep, joined);
  }

  /** A blank line starts at `k`: two line breaks in a row. */
  predicate BlankAt(s: string, k: nat)
    requires k + 1 < |s|
  {
    s[k] == '\n' && s[k + 1] == '\n'
  }

  /** No "\n\n" inside and no "\n" at the end. */
  predicate NoBlankLine(s: string) {
    (s == [] || s[|s| - 1] != '\n') && forall k: nat :: k + 1 < |s| ==> !BlankAt(s, k)
  }

  /** Dropping the first character keeps a string free of blank lines. */
  lemma NoBlankLineRest(x: string)
    requires x != [] && NoBlankLine(x)
    ensures NoBlankLine(x[1..])
    ensures |x| >= 2 ==> !(x[0] == '\n' && x[1] == '\n')
  {
    if |x| >= 2 {
      assert !BlankAt(x, 0);
    }
    forall k: nat | k + 1 < |x[1..]| ensures !BlankAt(x[1..], k) {
      assert !BlankAt(x, k + 1);
    }
  }

  lemma {:induction false} SplitSingle(x: string, sep: string)
    requires |sep| >= 2 && sep[0] == '\n' && sep[1] == '\n'
    requires NoBlankLine(x)
    ensures Split(x, sep) == [x]
    decreases |x|
  {
    if x != [] {
      NoBlankLineRest(x);
      assert !StartsWith(x, sep) by {
        assert |sep| <= |x| ==> x[..|sep|][1] == x[1];
      }
      SplitSingle(x[1..], sep);
      SplitGrow(x, sep);
      assert [x[0]] + x[1..] == x;
    }
  }

  lemma {:induction false} SplitFirst(x: string, sep: string, rest: string)
    requires |sep| >= 2 && sep[0] == '\n' && sep[1] == '\n'
    requires NoBlankLine(x)
    ensures Split(x + (sep + rest), sep) == [x] + Split(rest, sep)
    decreases |x|
  {
    if x == [] {
      var s := x + (sep + rest);
      assert s == sep + rest && s[|sep|..] == rest;
      SplitAtSep(s, sep);
    } else {
      NoBlankLineRest(x);
      SplitFirst(x[1..], sep, rest);
      SplitFirstStep(x, sep, rest);
    }
  }

  lemma SplitFirstStep(x: string, sep: string, rest: string)
    requires |sep| >= 2 && sep[0] == '\n' && sep[1] == '\n'
    requires x != [] && NoBlankLine(x)
    requires Split(x[1..] + (sep + rest), sep) == [x[1..]] + Split(rest, sep)
    ensures Split(x + (sep + rest), sep) == [x] + Split(rest, sep)
  {
    var s := x + (sep + rest);
    NoSepAtStart(x, sep, rest);
    assert s[1..] == x[1..] + (sep + rest);
    SplitGrow(s, sep);
    assert [x[0]] + x[1..] == x;
  }

  /** A non-empty piece without blank lines does not start with a blank-line separator. */
  lemma NoSepAtStart(x: string, sep: string, rest: string)
    requires |sep| >= 2 && sep[0] == '\n' && sep[1] == '\n'
    requires x != [] && NoBlankLine(x)
    ensures !StartsWith(x + (sep + rest), sep)
  {
    var s := x + (sep + rest);
    NoBlankLineRest(x);
    assert s[0] == x[0];
    assert |x| >= 2 ==> s[1] == x[1];
    assert |x| == 1 ==> x[0] != '\n';
  }

  // ---------------------------------------------------------------------
  // rstrip and strip

  /** `s.rstrip(c)` for a one-character argument: drops every trailing `c`. */
  function RStrip(s: string, c: char): (r: string)
    ensures |r| <= |s| && r == s[..|r|]
    ensures r == [] || r[|r| - 1] != c
    ensures forall k :: |r| <= k < |s| ==> s[k] == c
    decreases |s|
  {
    if s != [] && s[|s| - 1] == c then RStrip(s[..|s| - 1], c) else s
  }

  /** `rstrip(c)` removes exactly the run of `c` appended to a string that does not end in `c`. */
  lemma RStripPadding(x: string, c: char, n: nat)
    requires x == [] || x[|x| - 1] != c
    ensures RStrip(x + seq(n, _ => c), c) == x
  {
    var s := x + seq(n, _ => c);
    var r := RStrip(s, c);
    assert x != [] ==> s[|x| - 1] == x[|x| - 1];
    assert forall k :: |x| <= k < |s| ==> s[k] == c;
    assert |r| == |x|;
    assert r == s[..|x|];
  }

  /** Python's `str.isspace()` for one character. */
  predicate IsSpace(c: char) {
    var n := c as int;
    (9 <= n <= 13) || (28 <= n <= 32) || n == 0x85 || n == 0xA0 || n == 0x1680
    || (0x2000 <= n <= 0x200A) || n == 0x2028 || n == 0x2029 || n == 0x202F
    || n == 0x205F || n == 0x3000
  }

  function TrimEnd(s: string): (r: string)
    ensures |r| <= |s| && r == s[..|r|]
    ensures r == [] || !IsSpace(r[|r| - 1])
    ensures forall k :: |r| <= k < |s| ==> IsSpace(s[k])
    decreases |s|
  {
    if s != [] && IsSpace(s[|s| - 1]) then TrimEnd(s[..|s| - 1]) else s
  }

  function TrimStart(s: string): (r: string)
    ensures |r| <= |s| && r == s[|s| - |r|..]
    ensures r == [] || !IsSpace(r[0])
    ensures forall k :: 0 <= k < |s| - |r| ==> IsSpace(s[k])
    decreases |s|
  {
    if s != [] && IsSpace(s[0]) then TrimStart(s[1..]) else s
  }

  /**
   * `r` is the stretch of `s` that starts at `i`, and everything of `s`
   * before and after it is whitespace.
   */
  predicate StrippedAt(s: string, r: string, i: nat) {
    && i + |r| <= |s| && r == s[i..i + |r|]
    && (forall k :: 0 <= k < i ==> IsSpace(s[k]))
    && (forall k :: i + |r| <= k < |s| ==> IsSpace(s[k]))
  }

  /** `r` is `s` with its leading and trailing whitespace dropped. */
  ghost predicate StrippedOf(s: string, r: string) {
    && (r == [] || (!IsSpace(r[0]) && !IsSpace(r[|r| - 1])))
    && exists i: nat :: StrippedAt(s, r, i)
  }

  /** `s.strip()`: drops leading and trailing whitespace, and nothing else. */
  function Strip(s: string): (r: string)
    ensures r == [] || (!IsSpace(r[0]) && !IsSpace(r[|r| - 1]))
    ensures |r| <= |s|
    ensures exists i: nat :: StrippedAt(s, r, i)
  {
    var e := TrimEnd(s);
    var r := TrimStart(e);
    TrimmedBoth(s, e, r);
    r
  }

  lemma TrimmedBoth(s: string, e: string, r: string)
    requires e == TrimEnd(s) && r == TrimStart(e)
    ensures StrippedAt(s, r, |e| - |r|)
  {
    var i := |e| - |r|;
    forall k | 0 <= k < |r| ensures r[k] == s[i + k] {
      assert r[k] == e[i + k];
    }
    assert r == s[i..i + |r|];
    forall k | 0 <= k < i ensures IsSpace(s[k]) {
      assert s[k] == e[k];
    }
  }

  /** `strip()` leaves a string alone when neither end is whitespace. */
  lemma StripFixed(s: string)
    requires s != [] && !IsSpace(s[0]) && !IsSpace(s[|s| - 1])
    ensures Strip(s) == s
  {
    var e := TrimEnd(s);
    assert |e| == |s|;
    var b := TrimStart(s);
    assert |b| == |s|;
  }

  // ---------------------------------------------------------------------
  // Decimal numbers

  predicate IsDigit(c: char) {
    '0' <= c <= '9'
  }

  predicate AllDigits(s: string) {
    forall k :: 0 <= k < |s| ==> IsDigit(s[k])
  }

  function DigitChar(d: nat): (c: char)
    requires d < 10
    ensures IsDigit(c) && c as int - '0' as int == d
  {
    ('0' as int + d) as char
  }

  /** `str(n)` (equally `f"{n}"`) for a non-negative integer. */
  function Decimal(n: nat): (r: string)
    ensures 1 <= |r| && AllDigits(r)
    ensures r[0] == '0' ==> n == 0
    ensures n < 10 ==> |r| == 1
    ensures n < 100 ==> |r| <= 2
    ensures n < 1000 ==> |r| <= 3
    ensures n >= 10 ==> |r| >= 2
    ensures n >= 100 ==> |r| >= 3
    decreases n
  {
    if n < 10 then [DigitChar(n)] else Decimal(n / 10) + [DigitChar(n % 10)]
  }

  /** The value of a string of decimal digits, leading zeros allowed. */
  function DigitsValue(s: string): nat
    requires AllDigits(s)
    decreases |s|
  {
    if s == [] then 0 else DigitsValue(s[..|s| - 1]) * 10 + (s[|s| - 1] as int - '0' as int)
  }

  lemma {:induction false} DecimalValue(n: nat)
    ensures DigitsValue(Decimal(n)) == n
    decreases n
  {
    if n >= 10 {
      DecimalValue(n / 10);
      var d := Decimal(n);
      assert d[..|d| - 1] == Decimal(n / 10);
    }
  }

  /** A string of digits holds no other character. */
  lemma DigitsLack(s: string, c: char)
    requires AllDigits(s) && !IsDigit(c)
    ensures c !in s
  {
    assert forall k :: 0 <= k < |s| ==> IsDigit(s[k]);
  }

  function Zeros(k: nat): (z: string)
    ensures |z| == k && AllDigits(z)
  {
    seq(k, _ => '0')
  }

  lemma {:induction false} LeadingZeros(k: nat, d: string)
    requires AllDigits(d)
    ensures AllDigits(Zeros(k) + d)
    ensures DigitsValue(Zeros(k) + d) == DigitsValue(d)
    decreases |d|
  {
    var s := Zeros(k) + d;
    if d == [] {
      assert s == Zeros(k);
      ZerosValue(k);
    } else {
      var d' := d[..|d| - 1];
      LeadingZeros(k, d');
      assert s[..|s| - 1] == Zeros(k) + d';
    }
  }

  lemma {:induction false} ZerosValue(k: nat)
    ensures DigitsValue(Zeros(k)) == 0
    decreases k
  {
    if k > 0 {
      ZerosValue(k - 1);
      assert Zeros(k)[..k - 1] == Zeros(k - 1);
    }
  }

  /** `f"{n:03d}"`: the decimal digits of `n`, left-padded with zeros to at least three. */
  function ZeroPad3(n: nat): (r: string)
    ensures AllDigits(r) && |r| >= 3
    ensures n < 1000 ==> |r| == 3
    ensures n >= 1000 ==> r[0] != '0'
    ensures DigitsValue(r) == n
  {
    DecimalValue(n);
    var d := Decimal(n);
    if |d| < 3 then LeadingZeros(3 - |d|, d); Zeros(3 - |d|) + d else d
  }

  /** From 1000 on no padding is added: `f"{n:03d}"` is plain `str(n)`. */
  lemma ZeroPad3Large(n: nat)
    requires n >= 1000
    ensures ZeroPad3(n) == Decimal(n)
  {
  }

  lemma ZeroPad3Injective(a: nat, b: nat)
    requires ZeroPad3(a) == ZeroPad3(b)
    ensures a == b
  {
  }

  // ---------------------------------------------------------------------
  // Ordering and sorting

  /** Python's `a < b` on strings: code-point lexicographic order. */
  predicate Less(a: string, b: string)
    decreases |a|
  {
    if a == [] then b != []
    else b != [] && (a[0] < b[0] || (a[0] == b[0] && Less(a[1..], b[1..])))
  }

  lemma {:induction false} LessIrreflexive(a: string)
    ensures !Less(a, a)
    decreases |a|
  {
    if a != [] { LessIrreflexive(a[1..]); }
  }

  lemma {:induction false} LessTransitive(a: string, b: string, c: string)
    requires Less(a, b) && Less(b, c)
    ensures Less(a, c)
    decreases |a|
  {
    if a != [] && a[0] == b[0] && b[0] == c[0] {
      LessTransitive(a[1..], b[1..], c[1..]);
    }
  }

  lemma {:induction false} LessTotal(a: string, b: string)
    ensures a == b || Less(a, b) || Less(b, a)
    decreases |a|
  {
    if a != [] && b != [] && a[0] == b[0] {
      LessTotal(a[1..], b[1..]);
      if a[1..] == b[1..] {
        assert a == [a[0]] + a[1..] && b == [b[0]] + b[1..];
      }
    }
  }

  lemma LessAsymmetric(a: string, b: string)
    requires Less(a, b)
    ensures !Less(b, a)
  {
    if Less(b, a) {
      LessTransitive(a, b, a);
      LessIrreflexive(a);
    }
  }

  predicate StrictlyIncreasing(xs: seq<string>) {
    forall i, j :: 0 <= i < j < |xs| ==> Less(xs[i], xs[j])
  }

  predicate IsLeast(m: string, s: set<string>) {
    m in s && forall x :: x in s && x != m ==> Less(m, x)
  }

  lemma {:induction false} LeastExists(s: set<string>) returns (m: string)
    requires s != {}
    ensures IsLeast(m, s)
    decreases |s|
  {
    var y :| y in s;
    if s == {y} {
      m := y;
    } else {
      var m' := LeastExists(s - {y});
      LessTotal(m', y);
      if Less(m', y) {
        m := m';
      } else {
        m := y;
        forall x | x in s && x != m ensures Less(m, x) {
          if x != m' { LessTransitive(y, m', x); }
        }
      }
    }
  }

  lemma LeastUnique(a: string, b: string, s: set<string>)
    requires IsLeast(a, s) && IsLeast(b, s)
    ensures a == b
  {
    if a != b { LessAsymmetric(a, b); }
  }

  /** Every non-empty set of strings has exactly one least element. */
  lemma HasLeast(s: set<string>)
    requires s != {}
    ensures exists m :: IsLeast(m, s)
    ensures forall a, b :: IsLeast(a, s) && IsLeast(b, s) ==> a == b
  {
    var m := LeastExists(s);
    forall a, b | IsLeast(a, s) && IsLeast(b, s) ensures a == b {
      LeastUnique(a, b, s);
    }
  }

  /** `sorted(s)` for a set of strings. */
  function Sorted(s: set<string>): (r: seq<string>)
    ensures |r| == |s|
    ensures forall x :: x in r <==> x in s
    ensures StrictlyIncreasing(r)
    decreases |s|
  {
    if s == {} then []
    else
      HasLeast(s);
      var m :| IsLeast(m, s);
      var rest := Sorted(s - {m});
      LeastFirst(m, s, rest);
      [m] + rest
  }

  /** The least element followed by the rest in increasing order is increasing. */
  lemma LeastFirst(m: string, s: set<string>, rest: seq<string>)
    requires IsLeast(m, s)
    requires forall x :: x in rest <==> x in s - {m}
    requires StrictlyIncreasing(rest)
    ensures forall x :: x in [m] + rest <==> x in s
    ensures StrictlyIncreasing([m] + rest)
  {
    var r := [m] + rest;
    forall i, j | 0 <= i < j < |r| ensures Less(r[i], r[j]) {
      assert r[j] == rest[j - 1] && r[j] in rest;
      if i > 0 {
        assert r[i] == rest[i - 1];
      }
    }
  }

  /** Two strictly increasing sequences with the same elements are equal. */
  lemma {:induction false} IncreasingUnique(a: seq<string>, b: seq<string>)
    requires StrictlyIncreasing(a) && StrictlyIncreasing(b)
    requires forall x :: x in a <==> x in b
    ensures a == b
    decreases |a|
  {
    if a == [] {
      assert forall i :: 0 <= i < |b| ==> b[i] in b;
    } else {
      assert a[0] in a && a[0] in b;
      assert b[0] in b && b[0] in a;
      assert a[0] == b[0] by {
        if a[0] != b[0] {
          var i :| 0 <= i < |b| && b[i] == a[0];
          var j :| 0 <= j < |a| && a[j] == b[0];
          assert Less(b[0], b[i]);
          assert Less(a[0], a[j]);
          LessAsymmetric(a[0], b[0]);
        }
      }
      forall x ensures x in a[1..] <==> x in b[1..] {
        if x in a[1..] {
          TailMember(a, b, x);
        }
        if x in b[1..] {
          TailMember(b, a, x);
        }
      }
      IncreasingUnique(a[1..], b[1..]);
      assert a == [a[0]] + a[1..] && b == [b[0]] + b[1..];
    }
  }

  lemma TailMember(a: seq<string>, b: seq<string>, x: string)
    requires StrictlyIncreasing(a) && StrictlyIncreasing(b)
    requires forall y :: y in a <==> y in b
    requires a != [] && b != [] && a[0] == b[0]
    requires x in a[1..]
    ensures x in b[1..]
  {
    var j :| 0 <= j < |a[1..]| && a[1..][j] == x;
    assert Less(a[0], a[j + 1]);
    LessIrreflexive(x);
    assert x in b;
    var i :| 0 <= i < |b| && b[i] == x;
    assert i != 0;
    assert b[1..][i - 1] == x;
  }
}
