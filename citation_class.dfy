/**
 * The citation type parse of the reference extractor: the first capture group
 * of `className.match(/citation (\w+)/)` on the class string of a `<cite>`.
 *
 * The specification side describes every match of the pattern (`MatchWith`)
 * and the one ECMAScript's `String.prototype.match` reports: the leftmost
 * start position, and at that position the longest `\w+` run (greedy).
 * The executable side scans for the first position where the pattern can
 * start (`FindMatch`) and then takes the run of word characters there
 * (`WordRunLength`). `CitationType` ties the two together.
 */
module CitationClass {
  import opened Options

  /** ECMAScript `\w` without the `u` and `i` flags: ASCII letters, digits and `_`. */
  predicate IsWordChar(c: char) {
    ('a' <= c <= 'z') || ('A' <= c <= 'Z') || ('0' <= c <= '9') || c == '_'
  }

  predicate IsWord(w: string) {
    forall k :: 0 <= k < |w| ==> IsWordChar(w[k])
  }

  /** The literal part of the pattern, including its single space. */
  const Keyword: string := "citation "

  /**
   * The pattern matches `s` starting at index `i` with capture group `w`:
   * `s` holds `Keyword` at `i`, directly followed by the non-empty word `w`.
   */
  predicate MatchWith(s: string, i: int, w: string) {
    && 0 <= i
    && 0 < |w|
    && i + |Keyword| + |w| <= |s|
    && s[i..i + |Keyword|] == Keyword
    && s[i + |Keyword|..i + |Keyword| + |w|] == w
    && IsWord(w)
  }

  /**
   * The match `String.prototype.match` returns: no match starts before `i`,
   * and `\w+` is greedy, so no match at `i` captures a longer word.
   */
  ghost predicate IsLeftmostGreedy(s: string, i: int, w: string) {
    && MatchWith(s, i, w)
    && (forall k, v :: 0 <= k < i ==> !MatchWith(s, k, v))
    && (forall v :: MatchWith(s, i, v) ==> |v| <= |w|)
  }

  /** Some match of the pattern starts at `i`: the keyword, then one word character. */
  predicate StartsMatch(s: string, i: int) {
    && 0 <= i
    && i + |Keyword| < |s|
    && s[i..i + |Keyword|] == Keyword
    && IsWordChar(s[i + |Keyword|])
  }

  /** Length of the maximal run of word characters of `s` starting at `j`. */
  function WordRunLength(s: string, j: nat): (n: nat)
    requires j <= |s|
    ensures j + n <= |s|
    ensures forall k :: j <= k < j + n ==> IsWordChar(s[k])
    ensures j + n == |s| || !IsWordChar(s[j + n])
    decreases |s| - j
  {
    if j < |s| && IsWordChar(s[j]) then 1 + WordRunLength(s, j + 1) else 0
  }

  /** The first index at or after `from` where a match of the pattern starts. */
  function FindMatch(s: string, from: nat): (r: Option<nat>)
    ensures r.Some? ==> from <= r.value && StartsMatch(s, r.value)
    ensures r.Some? ==> forall k :: from <= k < r.value ==> !StartsMatch(s, k)
    ensures r.None? ==> forall k :: from <= k ==> !StartsMatch(s, k)
    decreases |s| - from
  {
    if |s| <= from + |Keyword| then None
    else if StartsMatch(s, from) then Some(from)
    else FindMatch(s, from + 1)
  }

  /** A match can start at `i` exactly when some word is captured there. */
  lemma StartsMatchIff(s: string, i: int)
    ensures StartsMatch(s, i) <==> exists w :: MatchWith(s, i, w)
  {
    if StartsMatch(s, i) {
      var w := [s[i + |Keyword|]];
      assert MatchWith(s, i, w);
    }
    if w :| MatchWith(s, i, w) {
      assert w[0] == s[i + |Keyword|];
    }
  }

  /**
   * Every match of the pattern starts at a position `StartsMatch` accepts:
   * the backward half of `StartsMatchIff`, quantified over all positions and
   * captures, in the form `FindMatchIsLeftmostGreedy` and `CitationTypeSound`
   * use to turn "no start" into "no match".
   */
  lemma MatchesStart(s: string)
    ensures forall i, w :: MatchWith(s, i, w) ==> StartsMatch(s, i)
  {
    forall i, w | MatchWith(s, i, w) ensures StartsMatch(s, i) {
      StartsMatchIff(s, i);
    }
  }

  /**
   * Where a match can start, the longest capture is the run of word
   * characters after the keyword.
   */
  lemma GreedyCapture(s: string, i: int)
    requires StartsMatch(s, i)
    ensures var j := i + |Keyword|;
      MatchWith(s, i, s[j..j + WordRunLength(s, j)])
    ensures var j := i + |Keyword|;
      forall v :: MatchWith(s, i, v) ==> |v| <= WordRunLength(s, j)
  {
    var j := i + |Keyword|;
    var n := WordRunLength(s, j);
    forall v | MatchWith(s, i, v) ensures |v| <= n {
    }
  }

  /** The capture group of the match at `i`, if one starts there: the word run after the keyword. */
  function CaptureAt(s: string, i: nat): (w: string)
    requires StartsMatch(s, i)
    ensures 0 < |w| && IsWord(w)
  {
    var j := i + |Keyword|;
    s[j..j + WordRunLength(s, j)]
  }

  /**
   * The citation type of a `<cite>` class string: `None` (JavaScript `null`)
   * when the pattern does not match, otherwise the first capture group of the
   * match `String.prototype.match` returns.
   */
  function CitationType(className: string): (r: Option<string>)
    ensures r.Some? ==> 0 < |r.value| && IsWord(r.value)
  {
    match FindMatch(className, 0)
    case None => None
    case Some(i) => Some(CaptureAt(className, i))
  }

  /** The scan stops at the match `String.prototype.match` reports. */
  lemma FindMatchIsLeftmostGreedy(s: string, i: nat)
    requires FindMatch(s, 0) == Some(i)
    ensures IsLeftmostGreedy(s, i, CaptureAt(s, i))
  {
    GreedyCapture(s, i);
    MatchesStart(s);
  }

  /** A type is reported exactly when the pattern matches somewhere, and it is the leftmost greedy capture. */
  lemma CitationTypeSound(s: string)
    ensures CitationType(s).Some? ==> exists i :: IsLeftmostGreedy(s, i, CitationType(s).value)
    ensures CitationType(s).None? <==> forall i, w :: !MatchWith(s, i, w)
  {
    MatchesStart(s);
    match FindMatch(s, 0)
    case None =>
    case Some(i) =>
      FindMatchIsLeftmostGreedy(s, i);
  }

  /** There is only one leftmost greedy match. */
  lemma LeftmostGreedyUnique(s: string, i: int, w: string, i2: int, w2: string)
    requires IsLeftmostGreedy(s, i, w) && IsLeftmostGreedy(s, i2, w2)
    ensures i == i2 && w == w2
  {
    assert !(i < i2) by { assert MatchWith(s, i, w); }
    assert !(i2 < i) by { assert MatchWith(s, i2, w2); }
    assert |w| == |w2| by { assert MatchWith(s, i, w) && MatchWith(s, i, w2); }
  }

  /**
   * The leftmost greedy match determines the result: whenever the pattern
   * matches with `w` as the one `String.prototype.match` reports, the parse
   * yields exactly `w`.
   */
  lemma CitationTypeComplete(s: string, i: int, w: string)
    requires IsLeftmostGreedy(s, i, w)
    ensures CitationType(s) == Some(w)
  {
    StartsMatchIff(s, i);
    var i' := FindMatch(s, 0).value;
    FindMatchIsLeftmostGreedy(s, i');
    LeftmostGreedyUnique(s, i, w, i', CaptureAt(s, i'));
  }

  /**
   * The reported capture is followed by a non-word character or by the end
   * of the class string, and `"citation " + w` occurs at its start index.
   */
  lemma LeftmostGreedyBoundary(s: string, i: int, w: string)
    requires IsLeftmostGreedy(s, i, w)
    ensures 0 <= i && i + |Keyword| + |w| <= |s|
    ensures s[i..i + |Keyword| + |w|] == Keyword + w
    ensures i + |Keyword| + |w| == |s| || !IsWordChar(s[i + |Keyword| + |w|])
  {
    MatchText(s, i, w);
    var e := i + |Keyword| + |w|;
    if e < |s| && IsWordChar(s[e]) {
      ExtendMatch(s, i, w);
    }
  }

  /**
   * `"citation " + w` occurs in `s` at `i`, followed by the end of `s` or by a
   * non-word character.
   */
  predicate OccursDelimited(s: string, i: int, w: string) {
    && 0 <= i
    && i + |Keyword| + |w| <= |s|
    && s[i..i + |Keyword| + |w|] == Keyword + w
    && (i + |Keyword| + |w| == |s| || !IsWordChar(s[i + |Keyword| + |w|]))
  }

  /**
   * A reported type is spelled out after `"citation "` in the class string,
   * and the character after it, if any, is not a word character.
   */
  lemma CitationTypeBoundary(s: string, w: string)
    requires CitationType(s) == Some(w)
    ensures exists i :: OccursDelimited(s, i, w)
  {
    var i := FindMatch(s, 0).value;
    FindMatchIsLeftmostGreedy(s, i);
    LeftmostGreedyBoundary(s, i, w);
    assert OccursDelimited(s, i, w);
  }

  /** A match spells out the keyword followed by its capture. */
  lemma MatchText(s: string, i: int, w: string)
    requires MatchWith(s, i, w)
    ensures s[i..i + |Keyword| + |w|] == Keyword + w
  {
    var j := i + |Keyword|;
    assert s[i..j + |w|] == s[i..j] + s[j..j + |w|];
  }

  /** A match followed by one more word character extends to a longer match at the same index. */
  lemma ExtendMatch(s: string, i: int, w: string)
    requires MatchWith(s, i, w)
    requires i + |Keyword| + |w| < |s| && IsWordChar(s[i + |Keyword| + |w|])
    ensures MatchWith(s, i, w + [s[i + |Keyword| + |w|]])
  {
    var j := i + |Keyword|;
    assert s[j..j + |w| + 1] == s[j..j + |w|] + [s[j + |w|]];
  }

  /** The match `String.prototype.match` reports on `"citation web cs1"`. */
  lemma WebExampleMatch(s: string)
    requires s == "citation " + "web" + " cs1"
    ensures IsLeftmostGreedy(s, 0, "web")
  {
    assert s[0..9] == Keyword;
    assert s[9..] == "web cs1";
    assert s[9..12] == "web" && s[12] == ' ';
    GreedyCapture(s, 0);
  }

  /** `"citation web cs1"` has the type `"web"`. */
  lemma FirstWordExample()
    ensures CitationType("citation web cs1") == Some("web")
  {
    var s := "citation " + "web" + " cs1";
    assert s == "citation web cs1";
    WebExampleMatch(s);
    CitationTypeComplete(s, 0, "web");
  }

  /** A match can only start at a `c` and needs a word character nine places on. */
  lemma StartsMatchShape(s: string, k: int)
    requires StartsMatch(s, k)
    ensures s[k] == 'c' && IsWordChar(s[k + |Keyword|])
  {
    assert s[k] == s[k..k + |Keyword|][0];
  }

  /** In `"citation  x citation book"` no match starts before index 12. */
  lemma NoEarlyStartExample(s: string)
    requires s == "c" + "itation  x " + "citation book"
    ensures forall k :: 0 <= k < 12 ==> !StartsMatch(s, k)
  {
    assert s[1..12] == "itation  x ";
    assert forall k :: 1 <= k < 12 ==> s[k] != 'c';
    forall k | 0 <= k < 12 && StartsMatch(s, k) ensures false {
      StartsMatchShape(s, k);
    }
  }

  /** The match `String.prototype.match` reports on `"citation  x citation book"`. */
  lemma BookExampleMatch(s: string)
    requires s == "c" + "itation  x " + "citation book"
    ensures IsLeftmostGreedy(s, 12, "book")
  {
    NoEarlyStartExample(s);
    MatchesStart(s);
    assert s[12..] == "citation book";
    assert s[12..21] == Keyword && s[21..25] == "book";
    GreedyCapture(s, 12);
    assert WordRunLength(s, 21) <= 4;
  }

  /**
   * In `"citation  x citation book"` the first keyword is followed by a
   * space, so the match starts at the second keyword and the type is `"book"`.
   */
  lemma SkipsNonWordExample()
    ensures CitationType("citation  x citation book") == Some("book")
  {
    var s := "c" + "itation  x " + "citation book";
    assert s == "citation  x citation book";
    BookExampleMatch(s);
    CitationTypeComplete(s, 12, "book");
  }
}
