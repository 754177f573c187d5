/** The sort key of a letter-block label: the two groups that the regular
    expression `\s*([a-zA-Z]+)\s*(\d+)\s*` (no flags) captures
    (sst-doc.js:432-433), and the comparison that orders them
    (sst-doc.js:434).

    `String.prototype.match` without the `g` flag returns the leftmost match.
    At a fixed start the three classes (blank, letter, digit) are disjoint, so
    backtracking can never turn a failed greedy attempt into a success, and
    the greedy attempt is the match: blanks, the maximal letter run, blanks,
    the maximal digit run. */
module LabelKey {
  import opened Wrappers
  import opened JsText

  /** The captured groups `[1]` (letters) and `[2]` (digits). */
  datatype Groups = Groups(letters: string, digits: string)

  /** What the comparison looks at: group 1 as a string, and `parseInt` of group 2. */
  datatype LetterKey = LetterKey(letters: string, number: int)

  datatype CharClass = Blank | Letter | Digit

  predicate InClass(c: char, k: CharClass) {
    match k
    case Blank => IsJsSpace(c)
    case Letter => IsAsciiLetter(c)
    case Digit => IsDigit(c)
  }

  /** The end of the longest run of class `k` starting at `i`. */
  function SkipClass(s: string, i: nat, k: CharClass): (j: nat)
    requires i <= |s|
    ensures i <= j <= |s|
    decreases |s| - i
  {
    if i == |s| || !InClass(s[i], k) then i else SkipClass(s, i + 1, k)
  }

  /** The run from `i` holds only characters of class `k` and stops at the
      first character outside it. */
  lemma {:induction false} SkipClassStops(s: string, i: nat, k: CharClass)
    requires i <= |s|
    ensures var j := SkipClass(s, i, k);
      && (forall m :: i <= m < j ==> InClass(s[m], k))
      && (j < |s| ==> !InClass(s[j], k))
    decreases |s| - i
  {
    if i < |s| && InClass(s[i], k) {
      SkipClassStops(s, i + 1, k);
    }
  }

  /** The greedy attempt of the regular expression at start position `p`. */
  function MatchAt(s: string, p: nat): (g: Option<Groups>)
    requires p <= |s|
  {
    var q := SkipClass(s, p, Blank);
    var r := SkipClass(s, q, Letter);
    if r == q then None
    else
      var t := SkipClass(s, r, Blank);
      var u := SkipClass(s, t, Digit);
      if u == t then None else Some(Groups(s[q..r], s[t..u]))
  }

  /** The leftmost match at a start position `p` or later. */
  function MatchFrom(s: string, p: nat): (g: Option<Groups>)
    requires p <= |s|
    decreases |s| - p
  {
    match MatchAt(s, p)
    case Some(groups) => Some(groups)
    case None => if p == |s| then None else MatchFrom(s, p + 1)
  }

  /** `label.match` with the label pattern (sst-doc.js:432-433); None is the
      `null` that sst-doc.js:434 then indexes, which throws. */
  function Match(text: string): Option<Groups> {
    MatchFrom(text, 0)
  }

  function KeyOf(text: string): Option<LetterKey> {
    match Match(text)
    case Some(g) => Some(LetterKey(g.letters, ParsedValue(g.digits)))
    case None => None
  }

  /** The swap test of sst-doc.js:434: `a[1] > b[1] || (a[1] == b[1] && parseInt(a[2]) > parseInt(b[2]))`. */
  predicate Greater(a: LetterKey, b: LetterKey) {
    LexLess(b.letters, a.letters) || (a.letters == b.letters && a.number > b.number)
  }

  // ---------------------------------------------------------------------
  // What a match captures

  lemma {:induction false} MatchAtGroups(s: string, p: nat)
    requires p <= |s|
    ensures MatchAt(s, p).Some? ==>
      var g := MatchAt(s, p).value;
      && |g.letters| > 0 && (forall i :: 0 <= i < |g.letters| ==> IsAsciiLetter(g.letters[i]))
      && |g.digits| > 0 && AllDigits(g.digits)
  {
    var q := SkipClass(s, p, Blank);
    SkipClassStops(s, q, Letter);
    var t := SkipClass(s, SkipClass(s, q, Letter), Blank);
    SkipClassStops(s, t, Digit);
  }

  /** Every successful match captures a non-empty letter run and a non-empty
      digit run; group 2 therefore reads back as its decimal value. */
  lemma {:induction false} MatchFromGroups(s: string, p: nat)
    requires p <= |s|
    ensures MatchFrom(s, p).Some? ==>
      var g := MatchFrom(s, p).value;
      && |g.letters| > 0 && (forall i :: 0 <= i < |g.letters| ==> IsAsciiLetter(g.letters[i]))
      && |g.digits| > 0 && AllDigits(g.digits)
    decreases |s| - p
  {
    MatchAtGroups(s, p);
    if MatchAt(s, p).None? && p < |s| {
      MatchFromGroups(s, p + 1);
    }
  }

  /** A label with no ASCII letter never matches: in the letter block such a
      label (for example "0") makes the comparison throw. */
  lemma {:induction false} NoLetterNoMatch(s: string, p: nat)
    requires p <= |s|
    requires forall i :: 0 <= i < |s| ==> !IsAsciiLetter(s[i])
    ensures MatchFrom(s, p) == None
    decreases |s| - p
  {
    var q := SkipClass(s, p, Blank);
    assert q < |s| ==> !IsAsciiLetter(s[q]);
    if p < |s| {
      NoLetterNoMatch(s, p + 1);
    }
  }

  /** The end of a run is the first position past `i` outside the class. */
  lemma {:induction false} SkipClassExact(s: string, i: nat, j: nat, k: CharClass)
    requires i <= j <= |s|
    requires forall m :: i <= m < j ==> InClass(s[m], k)
    requires j < |s| ==> !InClass(s[j], k)
    ensures SkipClass(s, i, k) == j
    decreases j - i
  {
    if i < j {
      SkipClassExact(s, i + 1, j, k);
    }
  }

  /** A label made of blanks `s[..q]`, letters `s[q..r]`, blanks `s[r..t]`,
      digits `s[t..u]` and then no further digit yields exactly those letters
      and digits as the two groups. */
  lemma MatchOfShape(s: string, q: nat, r: nat, t: nat, u: nat)
    requires q < r <= t < u <= |s|
    requires forall m :: 0 <= m < q ==> IsJsSpace(s[m])
    requires forall m :: q <= m < r ==> IsAsciiLetter(s[m])
    requires forall m :: r <= m < t ==> IsJsSpace(s[m])
    requires forall m :: t <= m < u ==> IsDigit(s[m])
    requires u < |s| ==> !IsDigit(s[u])
    ensures Match(s) == Some(Groups(s[q..r], s[t..u]))
  {
    SkipClassExact(s, 0, q, Blank);
    SkipClassExact(s, q, r, Letter);
    SkipClassExact(s, r, t, Blank);
    SkipClassExact(s, t, u, Digit);
  }

  /** The pattern can match `s[p..u]` with group 1 at `s[q..r]` and group 2 at
      `s[t..u]`, whichever way the backtracking splits the text. */
  predicate PatternFits(s: string, p: nat, q: nat, r: nat, t: nat, u: nat) {
    && p <= q < r <= t < u <= |s|
    && (forall m :: p <= m < q ==> IsJsSpace(s[m]))
    && (forall m :: q <= m < r ==> IsAsciiLetter(s[m]))
    && (forall m :: r <= m < t ==> IsJsSpace(s[m]))
    && (forall m :: t <= m < u ==> IsDigit(s[m]))
  }

  /** The greedy attempt succeeds whenever the pattern fits at `p` at all. It
      captures the same letters, and a digit run that extends the fitted one
      as far as the digits go. */
  lemma MatchAtIsGreedy(s: string, p: nat, q: nat, r: nat, t: nat, u: nat)
    requires PatternFits(s, p, q, r, t, u)
    ensures MatchAt(s, p).Some?
    ensures MatchAt(s, p).value.letters == s[q..r]
    ensures var ds := MatchAt(s, p).value.digits;
      |ds| >= u - t && ds[..u - t] == s[t..u] && AllDigits(ds)
  {
    SkipClassExact(s, p, q, Blank);
    SkipClassExact(s, q, r, Letter);
    SkipClassExact(s, r, t, Blank);
    var v := SkipClass(s, t, Digit);
    SkipClassStops(s, t, Digit);
    assert u <= v;
    PrefixOfSlice(s, t, u, v);
  }

  lemma PrefixOfSlice(s: string, t: nat, u: nat, v: nat)
    requires t <= u <= v <= |s|
    ensures s[t..v][..u - t] == s[t..u]
  {
  }

  /** Conversely, a successful greedy attempt is a fit of the pattern whose
      digit run cannot be extended. */
  lemma MatchAtFits(s: string, p: nat)
    requires p <= |s| && MatchAt(s, p).Some?
    ensures var q := SkipClass(s, p, Blank);
      var r := SkipClass(s, q, Letter);
      var t := SkipClass(s, r, Blank);
      var u := SkipClass(s, t, Digit);
      && PatternFits(s, p, q, r, t, u)
      && MatchAt(s, p) == Some(Groups(s[q..r], s[t..u]))
      && (u < |s| ==> !IsDigit(s[u]))
  {
    var q := SkipClass(s, p, Blank);
    var r := SkipClass(s, q, Letter);
    var t := SkipClass(s, r, Blank);
    SkipClassStops(s, p, Blank);
    SkipClassStops(s, q, Letter);
    SkipClassStops(s, r, Blank);
    SkipClassStops(s, t, Digit);
  }

  /** When there is no match from `p` on, the attempt at every later start fails. */
  lemma {:induction false} NoMatchFromNoAttempt(s: string, p: nat, k: nat)
    requires p <= k <= |s|
    requires MatchFrom(s, p).None?
    ensures MatchAt(s, k).None?
    decreases k - p
  {
    if p < k {
      SkipFailedAttempt(s, p);
      NoMatchFromNoAttempt(s, p + 1, k);
    }
  }

  /** When the attempt at some start `k` succeeds, there is a match from any
      earlier `p`. */
  lemma {:induction false} AttemptGivesMatchFrom(s: string, p: nat, k: nat)
    requires p <= k <= |s|
    requires MatchAt(s, k).Some?
    ensures MatchFrom(s, p).Some?
    decreases k - p
  {
    if p < k && MatchAt(s, p).None? {
      SkipFailedAttempt(s, p);
      AttemptGivesMatchFrom(s, p + 1, k);
    }
  }

  /** The match from `p` is the attempt at the first start that succeeds. */
  lemma {:induction false} MatchFromIsLeftmost(s: string, p: nat, k: nat)
    requires p <= k <= |s|
    requires MatchAt(s, k).Some?
    requires forall j :: p <= j < k ==> MatchAt(s, j).None?
    ensures MatchFrom(s, p) == MatchAt(s, k)
    decreases k - p
  {
    if p < k {
      SkipFailedAttempt(s, p);
      MatchFromIsLeftmost(s, p + 1, k);
    }
  }

  lemma SkipFailedAttempt(s: string, p: nat)
    requires p < |s| && MatchAt(s, p).None?
    ensures MatchFrom(s, p) == MatchFrom(s, p + 1)
  {
  }

  // ---------------------------------------------------------------------
  // The comparison orders keys strictly and totally

  lemma GreaterIrreflexive(a: LetterKey)
    ensures !Greater(a, a)
  {
    LexLessIrreflexive(a.letters);
  }

  lemma GreaterAsymmetric(a: LetterKey, b: LetterKey)
    requires Greater(a, b)
    ensures !Greater(b, a)
  {
    if LexLess(b.letters, a.letters) && LexLess(a.letters, b.letters) {
      LexLessTransitive(a.letters, b.letters, a.letters);
      LexLessIrreflexive(a.letters);
    } else if a.letters == b.letters {
      LexLessIrreflexive(a.letters);
    }
  }

  /** The swap test is transitive. */
  lemma GreaterTransitive(a: LetterKey, b: LetterKey, c: LetterKey)
    requires Greater(a, b) && Greater(b, c)
    ensures Greater(a, c)
  {
    if LexLess(b.letters, a.letters) && LexLess(c.letters, b.letters) {
      LexLessTransitive(c.letters, b.letters, a.letters);
    }
  }

  /** Two keys the comparison leaves in place both ways are equal: exactly the
      entries whose order a strict `>` swap preserves. */
  lemma GreaterTotal(a: LetterKey, b: LetterKey)
    ensures a == b || Greater(a, b) || Greater(b, a)
  {
    LexLessTotal(a.letters, b.letters);
  }

  /** "Not greater" is transitive, which is what makes a pass of adjacent
      swaps sort. */
  lemma NotGreaterTransitive(a: LetterKey, b: LetterKey, c: LetterKey)
    requires !Greater(a, b) && !Greater(b, c)
    ensures !Greater(a, c)
  {
    GreaterTotal(a, b);
    GreaterTotal(b, c);
    if Greater(a, c) {
      if LexLess(c.letters, a.letters) {
        if LexLess(a.letters, b.letters) && LexLess(b.letters, c.letters) {
          LexLessTransitive(a.letters, b.letters, c.letters);
          LexLessTransitive(a.letters, c.letters, a.letters);
          LexLessIrreflexive(a.letters);
        } else if a.letters == b.letters {
          LexLessTransitive(b.letters, c.letters, b.letters);
          LexLessIrreflexive(b.letters);
        } else {
          LexLessTransitive(a.letters, b.letters, a.letters);
          LexLessIrreflexive(a.letters);
        }
      } else {
        LexLessIrreflexive(a.letters);
        if a.letters != b.letters {
          LexLessTransitive(a.letters, b.letters, a.letters);
        } else if b.letters != c.letters {
          LexLessIrreflexive(b.letters);
        }
      }
    }
  }
}
