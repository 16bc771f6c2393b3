/**
 The shim and the runner together: what the runner reads out of a shimmed gate's output, and
 what a PASS means.
 */
module GateTheorems {
  import opened GateText
  import opened GateAssert
  import opened RunGate

  // The captured output of a gate that ran under the shim.
  function Stdout(es: seq<Event>): string { Universal(OutText(es) + Report(Final(es))) }

  function Stderr(es: seq<Event>): string { Universal(ErrText(es)) }

  // The gate's own standard output, cut the way the runner cuts it.
  function Seen(es: seq<Event>): Cut { CutOf(Universal(OutText(es)), IsSep) }

  // What the runner would read in the gate's own finished lines.
  function Prior(es: seq<Event>): Reading { ReadAll(Seen(es).done) }

  function Refused(es: seq<Event>): bool { RefusalOf(Final(es)).Some? }

  function Shown(es: seq<Event>): int { CountOf(Final(es)) }

  // ----- the lines of the captured output

  lemma OwnHeadIsPlain()
    ensures Free(OwnHead(), IsSep)
  {
    var a, b := "the gate published ", "its own asserted=line";
    assert Free(a, IsSep) && Free(b, IsSep);
  }

  lemma OwnMiddleIsPlain()
    ensures Free(OwnMiddle(), IsSep)
  {
    var a, b := " \U{2014} the contract ", "line is this shim's ";
    assert Free(a, IsSep) && Free(b, IsSep);
  }

  lemma OwnEndIsPlain()
    ensures Free(OwnEnd(), IsSep)
  {
    var a, b := "verdict, not ", "the gate's";
    assert Free(a, IsSep) && Free(b, IsSep);
  }

  lemma AloneHeadIsPlain()
    ensures Free(AloneHead(), IsSep)
  {
    var a, b := "count marker ", "without evidence";
    assert Free(a, IsSep) && Free(b, IsSep);
  }

  lemma AloneMiddleIsPlain()
    ensures Free(AloneMiddle(), IsSep)
  {
    var a, b := " \U{2014} the gate printed ", "a count line but ";
    assert Free(a, IsSep) && Free(b, IsSep);
  }

  lemma AloneEndIsPlain()
    ensures Free(AloneEnd(), IsSep)
  {
    var a, b := "evaluated no assert ", "and reported no verdict";
    assert Free(a, IsSep) && Free(b, IsSep);
  }

  lemma WhyIsOneLine(y: Why)
    ensures Free(WhyLine(y), IsSep)
  {
    hide OwnHead, OwnMiddle, OwnEnd, AloneHead, AloneMiddle, AloneEnd;
    assert Free("gate_assert: ", IsSep);
    if y.OwnCountLine? {
      OwnHeadIsPlain();
      OwnMiddleIsPlain();
      OwnEndIsPlain();
    } else {
      AloneHeadIsPlain();
      AloneMiddleIsPlain();
      AloneEndIsPlain();
    }
    assert Free(WhyText(y), IsSep);
  }

  lemma CountIsOneLine(n: int)
    ensures Free(CountLineText(n), IsSep)
  {
    hide Show, ParseInt;
    ParseOfShow(n);
  }

  lemma NoSepNoCR(s: string)
    requires Free(s, IsSep)
    ensures '\r' !in s
  {
  }

  // The report's lines, the first of them glued to the gate's unfinished one.
  function ReportLines(t: Tally, tail: string): seq<string> {
    if RefusalOf(t).Some? then [tail + WhyLine(RefusalOf(t).value), CountLineText(CountOf(t))]
    else [tail + CountLineText(CountOf(t))]
  }

  lemma FeedReport(c: Cut, t: Tally)
    ensures Feed(c, Report(t), IsSep) == Cut(c.done + ReportLines(t, c.tail), "")
  {
    hide Feed, WhyLine, CountLineText, CountOf, RefusalOf;
    var n, r := CountLineText(CountOf(t)), RefusalOf(t);
    CountIsOneLine(CountOf(t));
    if r.Some? {
      var w := WhyLine(r.value);
      WhyIsOneLine(r.value);
      FeedTwice(c, w + ['\n'], n + ['\n'], IsSep);
      FeedLine(c, w, '\n', IsSep);
      FeedLine(Cut(c.done + [c.tail + w], ""), n, '\n', IsSep);
      assert "" + n == n;
      assert c.done + [c.tail + w] + [n] == c.done + [c.tail + w, n];
    } else {
      assert "" + (n + ['\n']) == n + ['\n'];
      FeedLine(c, n, '\n', IsSep);
    }
  }

  lemma ReportText(t: Tally)
    ensures '\r' !in Report(t) && Report(t) != "" && Report(t)[0] != '\n'
  {
    hide CountLineText, CountOf, WhyText;
    CountIsOneLine(CountOf(t));
    NoSepNoCR(CountLineText(CountOf(t)));
    CountLineParts(CountOf(t));
    if RefusalOf(t).Some? {
      WhyIsOneLine(RefusalOf(t).value);
      NoSepNoCR(WhyLine(RefusalOf(t).value));
      assert Report(t)[0] == "gate_assert: "[0];
    }
  }

  lemma StdoutCut(es: seq<Event>)
    ensures CutOf(Stdout(es), IsSep) == Cut(Seen(es).done + ReportLines(Final(es), Seen(es).tail), "")
  {
    hide Final, Report, Universal, OutText, Feed, ReportLines;
    ReportText(Final(es));
    UniversalAppend(OutText(es), Report(Final(es)));
    FeedTwice(Cut([], ""), Universal(OutText(es)), Report(Final(es)), IsSep);
    FeedReport(Seen(es), Final(es));
  }

  lemma StdoutLines(es: seq<Event>)
    ensures SplitLines(Stdout(es)) == Seen(es).done + ReportLines(Final(es), Seen(es).tail)
  {
    hide Final, Report, OutText, ReportLines, CutOf, Seen;
    StdoutCut(es);
    UniversalHasNoCR(OutText(es) + Report(Final(es)));
    UniversalPlain(Stdout(es));
  }

  // The report ends in a newline, so the two streams never share a line.
  lemma BothLines(es: seq<Event>)
    ensures SplitLines(Stdout(es) + Stderr(es)) == SplitLines(Stdout(es)) + SplitLines(ErrText(es))
  {
    hide Final, Report, OutText, ErrText, ReportLines, Seen, Universal, Feed;
    var o, e := Stdout(es), Stderr(es);
    UniversalHasNoCR(OutText(es) + Report(Final(es)));
    UniversalHasNoCR(ErrText(es));
    UniversalPlain(o);
    UniversalPlain(o + e);
    StdoutCut(es);
    FeedTwice(Cut([], ""), o, e, IsSep);
    FeedOnTop(CutOf(o, IsSep), e, IsSep);
    var c, r := CutOf(o, IsSep), CutOf(e, IsSep);
    assert c.done + r.done + [r.tail] == c.done + (r.done + [r.tail]);
  }

  // ----- what the runner reads

  lemma ReadSnoc(lines: seq<string>, x: string)
    ensures ReadAll(lines + [x]) == var r, y := ReadAll(lines), ReadLine(x); if r.Malformed? || y.NotCount? then r else y
  {
    hide ReadLine;
    assert (lines + [x])[..|lines|] == lines;
  }

  // In full: an own count line that is malformed, or that the report is glued to, spoils the
  // output; otherwise the shim's count is read when its line stands alone; otherwise the
  // report's line is lost and an earlier piece of the gate's output decides.
  lemma WhatIsRead(es: seq<Event>)
    ensures ReadAll(SplitLines(Stdout(es))) ==
      if Prior(es).Malformed? || IsForged(Seen(es).tail) then Malformed
      else if Refused(es) || Blank(Seen(es).tail) then Count(Shown(es))
      else Prior(es)
  {
    hide Final, ReadAll, ReadLine, IsForged, Seen, SplitLines, WhyLine, CountLineText, Stdout;
    StdoutLines(es);
    var d, p, t := Seen(es).done, Seen(es).tail, Final(es);
    var n := CountLineText(CountOf(t));
    BlankIsNotOwn(p);
    if Refused(es) {
      var w := WhyLine(RefusalOf(t).value);
      assert d + [p + w, n] == d + [p + w] + [n];
      ReadSnoc(d, p + w);
      ReadSnoc(d + [p + w], n);
      ReadWhyLine(p, RefusalOf(t).value);
      ReadOwn("", CountOf(t));
      assert "" + n == n;
    } else {
      ReadSnoc(d, p + n);
      ReadCountLine(p, CountOf(t));
    }
  }

  lemma BlankIsNotOwn(p: string)
    ensures Blank(p) ==> !IsForged(p)
  {
    if Blank(p) {
      RunEndIs(p, 0, |p|, IsSpace);
    }
  }

  // The report's line is glued to an unfinished line, and an earlier piece of the output,
  // cut off at a separator the shim does not cut at, reads as a count.
  predicate Stray(es: seq<Event>) {
    !Refused(es) && !Blank(Seen(es).tail) && !IsForged(Seen(es).tail) && Prior(es).Count?
  }

  // The number the runner reads is the shim's count, if it reads one, except exactly there.
  lemma ReadsTheShim(es: seq<Event>)
    ensures (var r := ReadAll(SplitLines(Stdout(es))); r.Count? ==> r.n == Shown(es))
            <==> !(Stray(es) && Prior(es).n != Shown(es))
  {
    hide ReadAll, SplitLines, IsForged, Seen, Stdout, Final, Blank;
    WhatIsRead(es);
  }

  // ----- output whose only line separator is the newline

  predicate OnlyNewlines(text: string) { forall i | 0 <= i < |text| :: IsSep(text[i]) ==> IsNewline(text[i]) }

  lemma SameLines(text: string)
    requires OnlyNewlines(text)
    ensures Universal(text) == text && CutOf(text, IsSep) == CutOf(text, IsNewline) && SplitLines(text) == LinesOf(text)
  {
    hide Universal, Feed;
    forall i | 0 <= i < |text| ensures text[i] != '\r' {
      assert IsSep('\r') && !IsNewline('\r');
    }
    UniversalPlain(text);
    SameCut(Cut([], ""), text, IsSep, IsNewline);
  }

  lemma {:induction false} ReadMeansOwn(lines: seq<string>)
    requires !ReadAll(lines).NotCount?
    ensures AnyLine(lines, KForged)
  {
    hide ReadLine, IsForged, SdlcMarker, ScoredMarker, IsVerdict;
    if lines != [] {
      var x := lines[|lines| - 1];
      CountIffOwn(x);
      AnySnoc(lines, KForged);
      if !IsForged(x) {
        ReadMeansOwn(lines[..|lines| - 1]);
      }
    }
  }

  lemma AnyInPrefix(lines: seq<string>, x: string, kind: Kind -> bool)
    requires AnyLine(lines, kind)
    ensures AnyLine(lines + [x], kind)
  {
    hide Classify;
    var k :| 0 <= k < |lines| && kind(Classify(lines[k]));
    assert (lines + [x])[k] == lines[k];
  }

  // There every count the gate writes itself is seen by the shim.
  lemma PlainIsNotStray(es: seq<Event>)
    requires OnlyNewlines(OutText(es))
    ensures !Prior(es).NotCount? || IsForged(Seen(es).tail) ==> Refused(es) && Shown(es) == 0
    ensures !Stray(es)
  {
    hide Final, OutText, ReadAll, CutOf, AnyLine, Universal, Blank, IsForged, Earned, OnlyNewlines, SplitLines, ErrText;
    var text := OutText(es);
    SameLines(text);
    var c := CutOf(text, IsNewline);
    CountIsEarned(es);
    RefusedIsZero(Final(es));
    if !Prior(es).NotCount? {
      ReadMeansOwn(c.done);
      AnyInPrefix(c.done, c.tail, KForged);
    } else if IsForged(c.tail) {
      OwnTail(c);
    }
  }

  lemma OwnTail(c: Cut)
    requires IsForged(c.tail)
    ensures c.tail != "" && AnyLine(c.done + [c.tail], KForged)
  {
    assert c.tail != "";
    assert KForged(Classify((c.done + [c.tail])[|c.done|]));
  }

  // ----- skips

  lemma SkipConcat(a: seq<string>, b: seq<string>)
    ensures AnySkip(a + b) <==> AnySkip(a) || AnySkip(b)
  {
    hide IsSkip;
    var c := a + b;
    if AnySkip(a) {
      var i :| 0 <= i < |a| && IsSkip(a[i]);
      assert IsSkip(c[i]);
    }
    if AnySkip(b) {
      var i :| 0 <= i < |b| && IsSkip(b[i]);
      assert IsSkip(c[|a| + i]);
    }
    if AnySkip(c) {
      var i :| 0 <= i < |c| && IsSkip(c[i]);
      assert IsSkip(if i < |a| then a[i] else b[i - |a|]);
    }
  }

  lemma NoSNoSkip(line: string)
    requires 'S' !in line
    ensures !IsSkip(line)
  {
    forall i, w | 0 <= i && w in ["SKIP", "SKIPPED"] ensures !At(line, i, w) {
      if At(line, i, w) {
        AtFirst(line, i, w);
      }
    }
    assert "SKIP" == ["SKIP", "SKIPPED"][0] && "SKIPPED" == ["SKIP", "SKIPPED"][1];
  }

  lemma CountLineHasNoS(p: string, n: int)
    requires 'S' !in p
    ensures 'S' !in p + CountLineText(n)
  {
    hide Show, ParseInt;
    ParseOfShow(n);
    assert 'S' !in PREFIX;
  }

  // With the report's line alone on its line, the runner sees a skip exactly when one of the
  // gate's own lines announces it.
  lemma SkipSeen(es: seq<Event>)
    requires Blank(Seen(es).tail) && !Refused(es)
    ensures AnySkip(SplitLines(Stdout(es) + Stderr(es))) <==> AnySkip(SplitLines(OutText(es))) || AnySkip(SplitLines(ErrText(es)))
  {
    hide Final, Report, OutText, ErrText, CutOf, Universal, AnySkip, Stdout, Stderr, CountLineText, IsSkip;
    var c, n := Seen(es), Shown(es);
    BothLines(es);
    StdoutLines(es);
    SkipConcat(SplitLines(Stdout(es)), SplitLines(ErrText(es)));
    SkipConcat(c.done, [c.tail + CountLineText(n)]);
    SkipConcat(c.done, [c.tail]);
    BlankHasNoS(c.tail);
    CountLineHasNoS(c.tail, n);
    NoSNoSkip(c.tail);
    NoSNoSkip(c.tail + CountLineText(n));
    OneSkip(c.tail);
    OneSkip(c.tail + CountLineText(n));
  }

  lemma OneSkip(line: string)
    ensures AnySkip([line]) <==> IsSkip(line)
  {
    hide IsSkip;
    assert [line][0] == line;
  }

  lemma BlankHasNoS(p: string)
    requires Blank(p)
    ensures 'S' !in p
  {
  }

  // ----- what a PASS means

  ghost predicate Passes(es: seq<Event>, rc: int, min: int) {
    Grade("", true, Exited(rc, Stdout(es), Stderr(es)), min).reason.Ok?
  }

  predicate AnnouncesSkip(es: seq<Event>) {
    AnySkip(SplitLines(OutText(es))) || AnySkip(SplitLines(ErrText(es)))
  }

  // With a floor of at least one and no stray count, a Python gate passes exactly when it
  // exits 0, its count reaches the floor, its last line is finished or blank, its output
  // holds no malformed count, and no line of either stream announces a skip.
  lemma PassIff(es: seq<Event>, rc: int, min: int)
    requires min >= 1 && !Stray(es)
    ensures Passes(es, rc, min) <==>
      rc == 0 && Shown(es) >= min && Blank(Seen(es).tail) && !Prior(es).Malformed? && !AnnouncesSkip(es)
  {
    hide Final, ReadAll, SplitLines, Seen, IsForged, Blank, AnySkip, Stdout, Stderr, OutText, ErrText;
    WhatIsRead(es);
    RefusedIsZero(Final(es));
    BlankIsNotOwn(Seen(es).tail);
    if Blank(Seen(es).tail) && !Refused(es) {
      SkipSeen(es);
    }
  }

  // Then a PASS has evidence behind it, and nothing was announced as skipped.
  lemma PassMeansEvidence(es: seq<Event>, rc: int, min: int)
    requires min >= 1 && !Stray(es) && Passes(es, rc, min)
    ensures rc == 0 && Evidence(es) && !SomeLine(es, KForged) && Shown(es) >= min && !AnnouncesSkip(es)
  {
    hide Final, Stray, Passes, Evidence, SomeLine, AnnouncesSkip, Seen, Prior, Earned, Blank, CountOf;
    PassIff(es, rc, min);
    PositiveMeansEvidence(es);
  }

  // For output whose only separator is the newline nothing more is needed, and an unfinished
  // last line is the one way to fail besides the exit code, the floor and a skip.
  lemma PlainPassIff(es: seq<Event>, rc: int, min: int)
    requires min >= 1 && OnlyNewlines(OutText(es))
    ensures Passes(es, rc, min) <==>
      rc == 0 && Shown(es) >= min && Blank(CutOf(OutText(es), IsNewline).tail) && !AnnouncesSkip(es)
    ensures Passes(es, rc, min) ==> Evidence(es) && !SomeLine(es, KForged)
  {
    hide Final, Stray, Passes, Evidence, SomeLine, AnnouncesSkip, Earned, Blank, CountOf, CutOf, OutText, Universal, ReadAll, SplitLines, LinesOf, IsForged, OnlyNewlines;
    PlainIsNotStray(es);
    SameLines(OutText(es));
    PassIff(es, rc, min);
    if Passes(es, rc, min) {
      PassMeansEvidence(es, rc, min);
    }
  }

  // A gate outside the shim that passes reported a verdict of its own and no count.
  lemma OtherPassMeans(rc: int, stdout: string, stderr: string, min: int)
    requires min >= 1 && Grade("", false, Exited(rc, stdout, stderr), min).reason.Ok?
    ensures rc == 0 && exists i | 0 <= i < |SplitLines(stdout)| :: IsVerdict(SplitLines(stdout)[i])
    ensures !AnyOwnCount(SplitLines(stdout + stderr)) && !AnySkip(SplitLines(stdout + stderr))
  {
    hide SplitLines, IsVerdict, AnyOwnCount, AnySkip;
    SomeVerdict(SplitLines(stdout));
  }

  lemma {:induction false} SomeVerdict(lines: seq<string>)
    requires VerdictLines(lines) > 0
    ensures exists i | 0 <= i < |lines| :: IsVerdict(lines[i])
  {
    hide IsVerdict;
    var init := lines[..|lines| - 1];
    if !IsVerdict(lines[|lines| - 1]) {
      SomeVerdict(init);
      var i :| 0 <= i < |init| && IsVerdict(init[i]);
      assert lines[i] == init[i];
    }
  }

  // ----- the excluded case is real

  const TAB: char := '\U{0B}'

  // A gate that writes one unfinished line with two vertical tabs in it, and nothing else.
  function Piece(): string { "asserted=7" }

  function Line(): string { "x" + [TAB] + (Piece() + [TAB] + "y") }

  function Example(): seq<Event> { [Out(Line())] }

  lemma ExampleText()
    ensures OutText(Example()) == Line() && ErrText(Example()) == "" && Reached(Example()) == 0
  {
    hide Line;
    var es := Example();
    assert es[..0] == [];
    assert "" + Line() == Line();
  }

  lemma PieceChars()
    ensures |Piece()| == 10 && Free(Piece(), IsSep) && forall i | 0 <= i < 10 :: IsDigit(Piece()[i]) || 'd' <= Piece()[i] <= 't' || Piece()[i] in "a="
  {
  }

  lemma LineChars()
    ensures Line() != "" && Line()[0] == 'x' && forall i | 0 <= i < |Line()| :: Line()[i] != '\n' && Line()[i] != '\r' && Line()[i] != 'c' && !('A' <= Line()[i] <= 'Z')
  {
    hide Piece;
    PieceChars();
  }

  // To the shim it is one plain line.
  lemma LineIsPlain()
    ensures Classify(Line()) == Plain
  {
    hide Line, Numbers, RunEnd;
    var line := Line();
    LineChars();
    assert RunEnd(line, 0, IsSpace) == 0 by { RunEndIs(line, 0, 0, IsSpace); }
    forall w: string | w != "" && w[0] != 'x' ensures !At(line, 0, w) {
      if At(line, 0, w) {
        AtFirst(line, 0, w);
      }
    }
    assert !At(line, 0, PREFIX) && !At(line, 0, "SDLC-GATE ");
    NoScore(line);
    NoVerdict(line);
  }

  lemma NumbersAt(line: string, i: nat, key: string, mid: string)
    ensures Numbers(line, i, key, mid).Some? ==> At(line, i, key)
  {
    hide RunEnd, Value;
  }

  lemma NoScore(line: string)
    requires 'c' !in line
    ensures ScoredMarker(line, 0).None?
  {
    hide Numbers, ScoredMarker, Edge;
    ScoredNone(line, 0);
    forall q | 0 <= q < |line| ensures !ScoredAt(line, q) {
      NumbersAt(line, q, "scored=", " divergences=");
      if q + 7 <= |line| {
        assert line[q..q + 7][1] == line[q + 1];
      }
    }
  }

  lemma NoVerdict(line: string)
    requires forall i | 0 <= i < |line| :: !('A' <= line[i] <= 'Z')
    ensures !IsVerdict(line)
  {
    forall i, k | 0 <= i < |line| && 0 <= k < |VERDICTS| ensures !WordAt(line, i, VERDICTS[k]) {
      assert 'A' <= VERDICTS[k][0] <= 'Z';
      if At(line, i, VERDICTS[k]) {
        AtFirst(line, i, VERDICTS[k]);
      }
    }
  }

  lemma ExampleCount()
    ensures !Evidence(Example()) && Shown(Example()) == 0 && !Refused(Example())
  {
    hide Line, Classify, Example, Reached, OutText, ErrText, CutOf, Final, LinesOf, AnyLine, Reaches, Verdicts;
    var es := Example();
    ExampleText();
    ExampleLines();
    LineIsPlain();
    OneKind(Line(), KForged);
    OneKind(Line(), KMarker);
    OneKind(Line(), KVerdict);
    NoLines([], KForged);
    NoLines([], KMarker);
    NoLines([], KVerdict);
    FinalMeans(es);
    SumMeans([Line()]);
    SumMeans([]);
    NothingReached(es);
  }

  lemma ExampleLines()
    ensures LinesOf(Line()) == [Line()] && LinesOf("") == []
  {
    hide Line, CutOf;
    LineChars();
    NoNewline(Line());
    NoNewline("");
  }

  lemma NothingReached(es: seq<Event>)
    requires es == Example()
    ensures !Reaches(es)
  {
  }

  lemma OneKind(line: string, kind: Kind -> bool)
    ensures AnyLine([line], kind) <==> kind(Classify(line))
  {
    hide Classify;
    assert [line][0] == line;
  }

  // To the runner it is three.
  lemma ExampleSeen()
    ensures Seen(Example()) == Cut(["x", Piece()], "y")
  {
    hide Piece, Feed, Universal, OutText, Example;
    ExampleText();
    LineChars();
    PieceChars();
    UniversalPlain(Line());
    var start := Cut([], "");
    var rest := Piece() + [TAB] + "y";
    FeedTwice(start, "x" + [TAB], rest, IsSep);
    FeedLine(start, "x", TAB, IsSep);
    assert "" + "x" == "x" && [] + ["x"] == ["x"];
    FeedTwice(Cut(["x"], ""), Piece() + [TAB], "y", IsSep);
    FeedLine(Cut(["x"], ""), Piece(), TAB, IsSep);
    assert "" + Piece() == Piece() && ["x"] + [Piece()] == ["x", Piece()];
    FeedPlain(Cut(["x", Piece()], ""), "y", IsSep);
    assert "" + "y" == "y";
  }

  lemma ExampleReads()
    ensures ReadAll(["x", Piece()]) == Count(7) && !IsForged("x") && !IsForged("y") && !Blank("y")
  {
    hide ReadLine, IsForged;
    ReadOwn("", 7);
    assert Show(7) == "7";
    assert "" + CountLineText(7) == Piece();
    OneLetter('x');
    OneLetter('y');
    CountIffOwn("x");
    ReadSnoc(["x"], Piece());
    ReadSnoc([], "x");
    assert [] + ["x"] == ["x"] && ["x"] + [Piece()] == ["x", Piece()];
  }

  lemma OneLetter(c: char)
    requires c == 'x' || c == 'y'
    ensures !IsForged([c]) && !Blank([c])
  {
    assert !IsSpace([c][0]);
  }

  // With nothing asserted and no verdict reported, the runner reads 7 and passes it.
  lemma StrayIsReal()
    ensures Stray(Example()) && Passes(Example(), 0, 1) && !Evidence(Example()) && Shown(Example()) == 0
  {
    hide Piece, Example, Final, ReadAll, Universal, Evidence, IsForged, Blank, SplitLines, Stdout, CountLineText, IsSkip, Seen, OutText, ErrText;
    var es := Example();
    ExampleCount();
    ExampleSeen();
    ExampleReads();
    WhatIsRead(es);
    BothLines(es);
    StdoutLines(es);
    ExampleText();
    NoLinesInNothing();
    PieceChars();
    var last := "y" + CountLineText(0);
    CountLineHasNoS("y", 0);
    NoSNoSkip("x");
    NoSNoSkip(Piece());
    NoSNoSkip(last);
    assert ["x", Piece()] + [last] + [] == ["x", Piece(), last];
  }

  lemma NoLinesInNothing()
    ensures SplitLines("") == []
  {
  }
}
