/**
 What the line patterns of the gate scripts match, said of the text itself: a line cut into
 what stands before, the words matched, and what stands after.
 */
module GatePatterns {
  import opened Options
  import opened GateText

  predicate Splits(line: string, pre: string, w: string, post: string) { line == pre + w + post }

  // No word character ends pre; none begins post.
  predicate OpenLeft(pre: string) { pre == "" || !IsWord(pre[|pre| - 1]) }

  predicate OpenRight(post: string) { post == "" || !IsWord(post[0]) }

  // w begins and ends in a word character.
  predicate Wordy(w: string) { w != "" && IsWord(w[0]) && IsWord(w[|w| - 1]) }

  lemma SplitAt(line: string, i: nat, w: string)
    requires At(line, i, w)
    ensures Splits(line, line[..i], w, line[i + |w|..])
  {
    assert line == line[..i] + line[i..i + |w|] + line[i + |w|..];
  }

  lemma AtSplit(line: string, pre: string, w: string, post: string)
    requires Splits(line, pre, w, post)
    ensures At(line, |pre|, w) && line[..|pre|] == pre && line[|pre| + |w|..] == post
  {
  }

  lemma LeftEdge(line: string, i: nat, w: string)
    requires At(line, i, w) && Wordy(w)
    ensures Edge(line, i) <==> OpenLeft(line[..i])
  {
    AtFirst(line, i, w);
  }

  lemma RightEdge(line: string, i: nat, w: string)
    requires At(line, i, w) && Wordy(w)
    ensures Edge(line, i + |w|) <==> OpenRight(line[i + |w|..])
  {
    var j := i + |w|;
    assert line[j - 1] == line[i..j][|w| - 1];
  }

  // ----- verdicts

  predicate VerdictWord(w: string) {
    || w == "PASS" || w == "PASSED" || w == "FAIL" || w == "FAILED" || w == "FAILURE" || w == "FAILURES"
    || w == "MISMATCH" || w == "DIVERGENCE"
  }

  ghost predicate VerdictMatch(line: string, pre: string, w: string, post: string) {
    Splits(line, pre, w, post) && VerdictWord(w) && OpenLeft(pre) && OpenRight(post)
  }

  lemma VerdictsListed(w: string)
    ensures (exists k | 0 <= k < |VERDICTS| :: VERDICTS[k] == w) <==> VerdictWord(w)
    ensures VerdictWord(w) ==> Wordy(w)
  {
    if VerdictWord(w) {
      assert VERDICTS[0] == "PASS" && VERDICTS[1] == "PASSED" && VERDICTS[2] == "FAIL" && VERDICTS[3] == "FAILED";
      assert VERDICTS[4] == "FAILURE" && VERDICTS[5] == "FAILURES" && VERDICTS[6] == "MISMATCH" && VERDICTS[7] == "DIVERGENCE";
    }
  }

  // A line reports a verdict exactly when one of the eight words stands in it as a word.
  lemma VerdictIff(line: string)
    ensures IsVerdict(line) <==> exists pre, w, post :: VerdictMatch(line, pre, w, post)
  {
    hide At, Edge, Wordy, VerdictWord, OpenLeft, OpenRight, Splits;
    if IsVerdict(line) {
      var i, k :| 0 <= i < |line| && 0 <= k < |VERDICTS| && WordAt(line, i, VERDICTS[k]);
      var w := VERDICTS[k];
      VerdictsListed(w);
      AtBounds(line, i, w);
      SplitAt(line, i, w);
      LeftEdge(line, i, w);
      RightEdge(line, i, w);
      assert VerdictMatch(line, line[..i], w, line[i + |w|..]);
    }
    if exists pre, w, post :: VerdictMatch(line, pre, w, post) {
      var pre, w, post :| VerdictMatch(line, pre, w, post);
      VerdictsListed(w);
      var k :| 0 <= k < |VERDICTS| && VERDICTS[k] == w;
      AtSplit(line, pre, w, post);
      AtBounds(line, |pre|, w);
      WordyNonEmpty(w);
      LeftEdge(line, |pre|, w);
      RightEdge(line, |pre|, w);
      assert WordAt(line, |pre|, VERDICTS[k]);
    }
  }

  lemma AtBounds(line: string, i: int, w: string)
    requires At(line, i, w)
    ensures 0 <= i && i + |w| <= |line|
  {
  }

  lemma WordyNonEmpty(w: string)
    requires Wordy(w)
    ensures |w| > 0
  {
  }

  // ----- announced skips

  ghost predicate SkipMatch(line: string, pre: string, w: string, post: string) {
    && Splits(line, pre, w, post) && OpenRight(post)
    && (((w == "SKIP" || w == "SKIPPED") && Blank(pre)) || (w == "SKIPPED" && OpenLeft(pre)))
  }

  lemma SkipWords()
    ensures Wordy("SKIP") && Wordy("SKIPPED")
  {
  }

  lemma LeadingAt(line: string, pre: string, w: string, post: string)
    requires Splits(line, pre, w, post) && Blank(pre) && Wordy(w)
    ensures RunEnd(line, 0, IsSpace) == |pre| && At(line, |pre|, w)
  {
    AtSplit(line, pre, w, post);
    AtFirst(line, |pre|, w);
    assert forall k | 0 <= k < |pre| :: line[k] == pre[k];
    RunEndIs(line, 0, |pre|, IsSpace);
  }

  lemma BlankLead(line: string)
    ensures Blank(line[..RunEnd(line, 0, IsSpace)])
  {
  }

  lemma SkipFound(line: string, i: nat, w: string)
    requires (w == "SKIP" || w == "SKIPPED") && At(line, i, w) && i + |w| <= |line| && Edge(line, i + |w|)
    requires i == RunEnd(line, 0, IsSpace) || (w == "SKIPPED" && Edge(line, i))
    ensures SkipMatch(line, line[..i], w, line[i + |w|..])
  {
    hide Edge, RunEnd, Splits, OpenLeft, OpenRight;
    SkipWords();
    SplitAt(line, i, w);
    RightEdge(line, i, w);
    LeftEdge(line, i, w);
    BlankLead(line);
  }

  lemma SkipMatched(line: string, pre: string, w: string, post: string)
    requires SkipMatch(line, pre, w, post)
    ensures IsSkip(line)
  {
    hide Edge, RunEnd, Splits, OpenLeft, OpenRight, Blank, At;
    SkipWords();
    AtSplit(line, pre, w, post);
    AtBounds(line, |pre|, w);
    RightEdge(line, |pre|, w);
    if Blank(pre) {
      LeadingAt(line, pre, w, post);
    } else {
      LeftEdge(line, |pre|, w);
      assert WordAt(line, |pre|, "SKIPPED");
    }
  }

  // A line announces a skip exactly when SKIP or SKIPPED is its first word, or SKIPPED stands
  // in it as a word.
  lemma SkipIff(line: string)
    ensures IsSkip(line) <==> exists pre, w, post :: SkipMatch(line, pre, w, post)
  {
    hide Edge, RunEnd, Splits, SkipMatch;
    if IsSkip(line) {
      var i := RunEnd(line, 0, IsSpace);
      if At(line, i, "SKIP") && Edge(line, i + 4) {
        SkipFound(line, i, "SKIP");
      } else if At(line, i, "SKIPPED") && Edge(line, i + 7) {
        SkipFound(line, i, "SKIPPED");
      } else {
        var k :| 0 <= k < |line| && WordAt(line, k, "SKIPPED");
        AtBounds(line, k, "SKIPPED");
        SkipFound(line, k, "SKIPPED");
      }
    }
    if exists pre, w, post :: SkipMatch(line, pre, w, post) {
      var pre, w, post :| SkipMatch(line, pre, w, post);
      SkipMatched(line, pre, w, post);
    }
  }

  // ----- own count lines

  ghost predicate OwnMatch(line: string, pre: string, post: string) { Splits(line, pre, "asserted=", post) && Blank(pre) }

  // A line is an own count line exactly when only white space stands before `asserted=`.
  lemma OwnIff(line: string)
    ensures IsForged(line) <==> exists pre, post :: OwnMatch(line, pre, post)
  {
    hide RunEnd, Splits;
    if IsForged(line) {
      var i := RunEnd(line, 0, IsSpace);
      SplitAt(line, i, PREFIX);
      BlankLead(line);
      assert OwnMatch(line, line[..i], line[i + |PREFIX|..]);
    }
    if exists pre, post :: OwnMatch(line, pre, post) {
      var pre, post :| OwnMatch(line, pre, post);
      AtSplit(line, pre, PREFIX, post);
      AtFirst(line, |pre|, PREFIX);
      assert forall k | 0 <= k < |pre| :: line[k] == pre[k];
      RunEndIs(line, 0, |pre|, IsSpace);
    }
  }

  // ----- count markers

  ghost predicate SdlcNumber(line: string, n: nat) {
    exists i: nat, e: nat, b: nat, d: nat :: SdlcMatch(line, i, e, b, d) && n == Value(line[e + 5..b])
  }

  // A match of \bscored=(\d+) divergences=\d+\b at p.
  ghost predicate ScoredMatch(line: string, p: int, b: int, d: int) {
    0 <= p < |line| && Edge(line, p) && NumbersMatch(line, p, b, d, "scored=", " divergences=")
  }

  // n is the number of the leftmost match.
  ghost predicate ScoredNumber(line: string, n: nat) {
    exists p: nat, b: nat, d: nat :: ScoredMatch(line, p, b, d) && n == Value(line[p + 7..b])
      && forall q, b', d' | 0 <= q < p :: !ScoredMatch(line, q, b', d')
  }

  // The line is a count marker with number n: not an own count line, and of the first shape,
  // or not of the first and of the second.
  ghost predicate Marks(line: string, n: nat) {
    !IsForged(line) && (SdlcNumber(line, n) || ((forall k: nat :: !SdlcNumber(line, k)) && ScoredNumber(line, n)))
  }

  lemma SdlcIff(line: string, n: nat)
    ensures SdlcMarker(line) == Some(n) <==> SdlcNumber(line, n)
  {
    hide SdlcMarker, Value, At, Edge, IsSpace;
    if SdlcMarker(line) == Some(n) {
      var i, e, b, d := SdlcSound(line);
      SdlcComplete(line, i, e, b, d);
    }
    if SdlcNumber(line, n) {
      var i: nat, e: nat, b: nat, d: nat :| SdlcMatch(line, i, e, b, d) && n == Value(line[e + 5..b]);
      SdlcComplete(line, i, e, b, d);
    }
  }

  lemma ScoredAtIff(line: string, p: int)
    ensures ScoredAt(line, p) <==> exists b, d :: ScoredMatch(line, p, b, d)
    ensures forall b, d | ScoredMatch(line, p, b, d) ::
              Numbers(line, p, "scored=", " divergences=") == Some(Value(line[p + 7..b]))
  {
    hide Numbers, Value, At, Edge;
    if ScoredAt(line, p) {
      var b, d := NumbersSound(line, p, "scored=", " divergences=");
      assert ScoredMatch(line, p, b, d);
    }
    forall b, d | ScoredMatch(line, p, b, d)
      ensures Numbers(line, p, "scored=", " divergences=") == Some(Value(line[p + 7..b])) && ScoredAt(line, p)
    {
      NumbersComplete(line, p, b, d, "scored=", " divergences=");
    }
  }

  lemma {:induction false} LeastScored(line: string, i: nat) returns (p: nat)
    requires i <= |line| && ScoredMarker(line, i).Some?
    ensures i <= p && ScoredAt(line, p) && forall q | i <= q < p :: !ScoredAt(line, q)
    decreases |line| - i
  {
    hide Numbers, Edge;
    if ScoredAt(line, i) {
      p := i;
    } else {
      p := LeastScored(line, i + 1);
    }
  }

  lemma ScoredIff(line: string, n: nat)
    ensures ScoredMarker(line, 0) == Some(n) <==> ScoredNumber(line, n)
  {
    hide ScoredMarker, Numbers, ScoredMatch, ScoredAt;
    forall q ensures ScoredAt(line, q) <==> exists b, d :: ScoredMatch(line, q, b, d) {
      ScoredAtIff(line, q);
    }
    if ScoredMarker(line, 0) == Some(n) {
      var p := LeastScored(line, 0);
      ScoredLeftmost(line, 0, p);
      ScoredAtIff(line, p);
      var b, d :| ScoredMatch(line, p, b, d);
      ScoredIsNumber(line, n, p, b, d);
    }
    if ScoredNumber(line, n) {
      NumberIsScored(line, n);
    }
  }

  lemma ScoredIsNumber(line: string, n: nat, p: nat, b: int, d: int)
    requires ScoredMatch(line, p, b, d) && Numbers(line, p, "scored=", " divergences=") == Some(n)
    requires forall q | 0 <= q < p :: !ScoredAt(line, q)
    ensures ScoredNumber(line, n)
  {
    hide Numbers, Value, At, Edge, ScoredAt;
    ScoredAtIff(line, p);
    var b': nat, d': nat := b, d;
    forall q, b2, d2 | 0 <= q < p ensures !ScoredMatch(line, q, b2, d2) {
      ScoredAtIff(line, q);
    }
    assert ScoredMatch(line, p, b', d');
  }

  lemma NumberIsScored(line: string, n: nat)
    requires ScoredNumber(line, n)
    ensures ScoredMarker(line, 0) == Some(n)
  {
    hide Numbers, Value, At, Edge, ScoredAt, ScoredMarker;
    var p: nat, b: nat, d: nat :| ScoredMatch(line, p, b, d) && n == Value(line[p + 7..b])
      && forall q, b', d' | 0 <= q < p :: !ScoredMatch(line, q, b', d');
    forall q | 0 <= q < p ensures !ScoredAt(line, q) {
      ScoredAtIff(line, q);
    }
    ScoredAtIff(line, p);
    ScoredLeftmost(line, 0, p);
  }

  // The counter takes a line for a marker with number n exactly when it is one.
  lemma MarkerIff(line: string, n: nat)
    ensures Classify(line) == Marker(n) <==> Marks(line, n)
  {
    hide SdlcMarker, ScoredMarker, SdlcNumber, ScoredNumber, IsForged, IsVerdict;
    forall k: nat ensures SdlcMarker(line) == Some(k) <==> SdlcNumber(line, k) {
      SdlcIff(line, k);
    }
    ScoredIff(line, n);
    if SdlcMarker(line).Some? {
      assert SdlcNumber(line, SdlcMarker(line).value);
    }
  }

  // And for a verdict exactly when it is none of these and reports one.
  lemma VerdictKindIff(line: string)
    ensures Classify(line).Verdict? <==>
      && (forall pre, post :: !OwnMatch(line, pre, post)) && (forall n: nat :: !Marks(line, n))
      && exists pre, w, post :: VerdictMatch(line, pre, w, post)
  {
    hide SdlcMarker, ScoredMarker, IsForged, IsVerdict, OwnMatch, VerdictMatch, Marks;
    OwnIff(line);
    VerdictIff(line);
    forall n: nat ensures Classify(line) == Marker(n) <==> Marks(line, n) {
      MarkerIff(line, n);
    }
    if Classify(line).Marker? {
      assert Marks(line, Classify(line).n);
    }
  }

  // ----- characters

  // The ten separators; each is white space, and no white space is a word character.
  lemma Separators(c: char)
    ensures IsSep(c) <==> c in ['\n', '\U{0B}', '\U{0C}', '\r', '\U{1C}', '\U{1D}', '\U{1E}', '\U{85}', '\U{2028}', '\U{2029}']
    ensures (IsSep(c) ==> IsSpace(c)) && !(IsSpace(c) && IsWord(c))
  {
    var all := ['\n', '\U{0B}', '\U{0C}', '\r', '\U{1C}', '\U{1D}', '\U{1E}', '\U{85}', '\U{2028}', '\U{2029}'];
    if IsSep(c) {
      var n := c as int;
      assert c == (if n <= 13 then all[n - 10] else if n <= 30 then all[n - 24] else if n == 0x85 then all[7] else if n == 0x2028 then all[8] else all[9]);
    }
  }

  // ----- strip and int

  // strip() takes white space off both ends and nothing else.
  lemma StripMeans(s: string) returns (pre: string, post: string)
    ensures s == pre + Strip(s) + post && Blank(pre) && Blank(post)
    ensures Strip(s) == "" || (!IsSpace(Strip(s)[0]) && !IsSpace(Strip(s)[|Strip(s)| - 1]))
  {
    hide RunEnd, LastEnd, IsSpace;
    var i := RunEnd(s, 0, IsSpace);
    var j := LastEnd(s, i);
    pre, post := s[..i], s[j..];
    assert s == s[..i] + s[i..j] + s[j..];
  }

  predicate DigitOrBar(c: char) { IsDigit(c) || c == '_' }

  // Digits with single underscores between them.
  predicate Grouped(s: string) {
    && s != "" && IsDigit(s[0]) && IsDigit(s[|s| - 1]) && (forall i | 0 <= i < |s| :: DigitOrBar(s[i]))
    && (forall i | 0 < i < |s| - 1 && s[i] == '_' :: IsDigit(s[i - 1]) && IsDigit(s[i + 1]))
  }

  function Bare(s: string): (r: string) {
    if s == "" then "" else Bare(s[..|s| - 1]) + if s[|s| - 1] == '_' then "" else [s[|s| - 1]]
  }

  lemma {:induction false} BareDigits(s: string)
    requires forall i | 0 <= i < |s| :: DigitOrBar(s[i])
    ensures forall i | 0 <= i < |Bare(s)| :: IsDigit(Bare(s)[i])
  {
    if s != "" {
      BareDigits(s[..|s| - 1]);
      assert DigitOrBar(s[|s| - 1]);
    }
  }

  // int() without a sign reads exactly the grouped digits, and their value without the bars.
  lemma {:induction false} NumeralMeans(s: string)
    ensures Numeral(s).Some? <==> Grouped(s)
    ensures Grouped(s) ==>
      (forall i | 0 <= i < |Bare(s)| :: IsDigit(Bare(s)[i])) && Numeral(s) == Some(Value(Bare(s)))
    decreases |s|
  {
    hide Numeral, Grouped, Bare;
    if |s| <= 1 || !IsDigit(s[|s| - 1]) {
      ShortNumeral(s);
    } else {
      var n := |s| - 1;
      var rest := if s[n - 1] == '_' then s[..n - 1] else s[..n];
      NumeralMeans(rest);
      NumeralStep(s, rest);
      RestGrouped(s, rest);
      if Grouped(s) {
        GroupedChars(s);
        BareDigits(s);
        BareRest(s, rest);
      }
    }
  }

  lemma GroupedChars(s: string)
    requires Grouped(s)
    ensures forall i | 0 <= i < |s| :: DigitOrBar(s[i])
  {
  }

  lemma {:induction false} ShortNumeral(s: string)
    requires |s| <= 1 || !IsDigit(s[|s| - 1])
    ensures Numeral(s).Some? <==> Grouped(s)
    ensures Grouped(s) ==>
      (forall i | 0 <= i < |Bare(s)| :: IsDigit(Bare(s)[i])) && Numeral(s) == Some(Value(Bare(s)))
  {
    hide Bare, Value;
    if Grouped(s) {
      assert |s| == 1 && s == [s[0]];
      OneDigit(s[0]);
    }
  }

  lemma OneDigit(c: char)
    requires IsDigit(c)
    ensures Bare([c]) == [c] && Value([c]) == DigitOf(c)
  {
    assert [c][..0] == "";
  }

  lemma {:induction false} NumeralStep(s: string, rest: string)
    requires |s| > 1 && IsDigit(s[|s| - 1]) && rest == if s[|s| - 2] == '_' then s[..|s| - 2] else s[..|s| - 1]
    ensures Numeral(s) == match Numeral(rest) case None => None case Some(v) => Some(10 * v + DigitOf(s[|s| - 1]))
  {
  }

  lemma {:induction false} RestGrouped(s: string, rest: string)
    requires |s| > 1 && IsDigit(s[|s| - 1]) && rest == if s[|s| - 2] == '_' then s[..|s| - 2] else s[..|s| - 1]
    ensures Grouped(s) <==> Grouped(rest)
  {
    var n := |s| - 1;
    if Grouped(s) {
      assert s[n - 1] == '_' ==> n - 1 > 0 && IsDigit(s[n - 2]);
      assert DigitOrBar(s[n - 1]);
      assert forall i | 0 <= i < |rest| :: DigitOrBar(s[i]);
    }
    if Grouped(rest) {
      assert forall i | 0 <= i < |rest| :: DigitOrBar(rest[i]) && rest[i] == s[i];
    }
  }

  lemma {:induction false} BareRest(s: string, rest: string)
    requires |s| > 1 && IsDigit(s[|s| - 1]) && rest == if s[|s| - 2] == '_' then s[..|s| - 2] else s[..|s| - 1]
    ensures Bare(s) == Bare(rest) + [s[|s| - 1]] && Bare(s)[..|Bare(s)| - 1] == Bare(rest)
  {
    var w := s[..|s| - 1];
    if s[|s| - 2] == '_' {
      assert w[..|w| - 1] == rest && w[|w| - 1] == '_';
      assert Bare(w) == Bare(rest);
    }
  }

  // Either form of carriage return becomes one newline; see UniversalSnoc for everything else.
  lemma {:induction false} LineEndings(t: string)
    ensures Universal(t + "\r\n") == Universal(t) + "\n" && Universal(t + "\r") == Universal(t) + "\n"
  {
    var a, b := t + "\r\n", t + "\r";
    assert a[..|a| - 2] == t && b[..|b| - 1] == t;
    assert a[|a| - 2] == '\r' && a[|a| - 1] == '\n' && b[|b| - 1] == '\r';
  }
}
