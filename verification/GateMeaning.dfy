/**
 The count of a gate from its lines alone: which lines are own count lines, markers and
 verdicts, and what they add up to.
 */
module GateMeaning {
  import opened Options
  import opened GateText
  import opened GatePatterns
  import opened GateAssert

  // ----- markers

  // The number a line is marked with, 0 when it is not a marker.
  ghost predicate NumberOf(line: string, n: nat) { Marks(line, n) || (n == 0 && forall k: nat :: !Marks(line, k)) }

  ghost predicate Numbered(lines: seq<string>, ns: seq<nat>) {
    |ns| == |lines| && forall i | 0 <= i < |lines| :: NumberOf(lines[i], ns[i])
  }

  function Total(ns: seq<nat>): nat { if ns == [] then 0 else Total(ns[..|ns| - 1]) + ns[|ns| - 1] }

  lemma LineNumber(line: string, n: nat)
    requires NumberOf(line, n)
    ensures OfLine(line).markerTotal == n
  {
    hide Classify, Marks;
    MarkerIff(line, n);
    if Classify(line).Marker? {
      MarkerIff(line, Classify(line).n);
    }
  }

  lemma {:induction false} MarkerTotal(lines: seq<string>, ns: seq<nat>)
    requires Numbered(lines, ns)
    ensures Sum(lines).markerTotal == Total(ns)
  {
    hide OfLine, NumberOf;
    if lines != [] {
      MarkerTotal(lines[..|lines| - 1], ns[..|ns| - 1]);
      LineNumber(lines[|lines| - 1], ns[|ns| - 1]);
    }
  }

  lemma {:induction false} LinesAreNumbered(lines: seq<string>) returns (ns: seq<nat>)
    ensures Numbered(lines, ns)
  {
    hide Classify, Marks;
    if lines == [] {
      ns := [];
    } else {
      var init, x := lines[..|lines| - 1], lines[|lines| - 1];
      ns := LinesAreNumbered(init);
      forall k: nat ensures Classify(x) == Marker(k) <==> Marks(x, k) {
        MarkerIff(x, k);
      }
      var n: nat := if Classify(x).Marker? then Classify(x).n else 0;
      assert Classify(x).Marker? ==> Marks(x, n);
      assert NumberOf(x, n);
      ns := ns + [n];
      forall i | 0 <= i < |lines| ensures NumberOf(lines[i], ns[i]) {
        assert i < |init| ==> lines[i] == init[i];
      }
    }
  }

  // ----- verdicts

  ghost function Reporting(lines: seq<string>): set<int> {
    set k | 0 <= k < |lines| && Classify(lines[k]).Verdict?
  }

  lemma {:induction false} VerdictsAreLines(lines: seq<string>)
    ensures Verdicts(lines) == |Reporting(lines)|
  {
    hide Classify;
    if lines == [] {
      assert Reporting(lines) == {};
    } else {
      var init := lines[..|lines| - 1];
      VerdictsAreLines(init);
      assert Reporting(lines) == Reporting(init) + (if Classify(lines[|init|]).Verdict? then {|init|} else {});
    }
  }

  // ----- the count

  lemma FinalTotal(es: seq<Event>, ns: seq<nat>, ms: seq<nat>)
    requires Numbered(LinesOf(OutText(es)), ns) && Numbered(LinesOf(ErrText(es)), ms)
    ensures Final(es).markerTotal == Total(ns) + Total(ms)
  {
    hide Final, Sum, LinesOf, Reached, OutText, ErrText, Numbered, Total;
    FinalIsExpected(es);
    MarkerTotal(LinesOf(OutText(es)), ns);
    MarkerTotal(LinesOf(ErrText(es)), ms);
  }

  // The published count of every run: zero with an own count line; with a marker line, the
  // sum of the numbers the markers of both texts give, provided something was earned; and
  // otherwise what was earned: asserts and bumps reached plus verdict lines.
  lemma CountInFull(es: seq<Event>, ns: seq<nat>, ms: seq<nat>)
    requires Numbered(LinesOf(OutText(es)), ns) && Numbered(LinesOf(ErrText(es)), ms)
    ensures CountOf(Final(es)) ==
      if SomeLine(es, KForged) then 0
      else if SomeLine(es, KMarker) then (if Earned(es) != 0 then Total(ns) + Total(ms) else 0)
      else Earned(es)
    ensures Earned(es) == Reached(es) + |Reporting(LinesOf(OutText(es)))| + |Reporting(LinesOf(ErrText(es)))|
  {
    hide Final, SomeLine, LinesOf, Reached, OutText, ErrText, Numbered, Total, Verdicts, Reporting;
    FinalMeans(es);
    FinalTotal(es, ns, ms);
    VerdictsAreLines(LinesOf(OutText(es)));
    VerdictsAreLines(LinesOf(ErrText(es)));
  }

  // Which reason a refused count is given.
  lemma RefusalInFull(es: seq<Event>)
    ensures RefusalOf(Final(es)) ==
      if SomeLine(es, KForged) then Some(OwnCountLine)
      else if SomeLine(es, KMarker) && Earned(es) == 0 then Some(MarkerAlone)
      else None
  {
    hide Final, SomeLine, Earned;
    FinalMeans(es);
  }

  // ----- lines

  // Finished lines and the tail, with the separators put back.
  function Glue(done: seq<string>, seps: seq<char>, tail: string): string
    requires |done| == |seps|
  {
    if done == [] then tail else done[0] + [seps[0]] + Glue(done[1..], seps[1..], tail)
  }

  lemma {:induction false} GlueMore(done: seq<string>, seps: seq<char>, tail: string, line: string, c: char, t: string)
    requires |done| == |seps|
    ensures Glue(done, seps, line) + [c] + t == Glue(done + [line], seps + [c], t)
    ensures Glue(done, seps, tail) + t == Glue(done, seps, tail + t)
  {
    if done == [] {
      assert done + [line] == [line] && seps + [c] == [c] && [line][1..] == [] && [c][1..] == [];
    } else {
      GlueMore(done[1..], seps[1..], tail, line, c, t);
      assert (done + [line])[1..] == done[1..] + [line] && (seps + [c])[1..] == seps[1..] + [c];
      var a, g := done[0] + [seps[0]], Glue(done[1..], seps[1..], line);
      assert a + g + [c] + t == a + (g + [c] + t);
      assert a + Glue(done[1..], seps[1..], tail) + t == a + (Glue(done[1..], seps[1..], tail) + t);
    }
  }

  // Cutting a text loses nothing but its separators, and leaves none inside a line.
  lemma {:induction false} CutLosesNothing(s: string, sep: char -> bool) returns (seps: seq<char>)
    ensures var c := CutOf(s, sep);
            && |seps| == |c.done| && Glue(c.done, seps, c.tail) == s && (forall i | 0 <= i < |seps| :: sep(seps[i]))
            && (forall i | 0 <= i < |c.done| :: Free(c.done[i], sep)) && Free(c.tail, sep)
  {
    if s == "" {
      seps := [];
    } else {
      var w, x := s[..|s| - 1], s[|s| - 1];
      seps := CutLosesNothing(w, sep);
      var c := CutOf(w, sep);
      assert w + [x] == s;
      if sep(x) {
        GlueMore(c.done, seps, "", c.tail, x, "");
        assert Glue(c.done, seps, c.tail) + [x] + "" == s;
        seps := seps + [x];
      } else {
        GlueMore(c.done, seps, c.tail, "", x, [x]);
      }
    }
  }

  // ls are the lines of text u: each ended by a separator, but for a last one that is then
  // not empty; and none has a separator inside.
  ghost predicate AreLines(u: string, ls: seq<string>, seps: seq<char>, sep: char -> bool) {
    && (forall i | 0 <= i < |ls| :: Free(ls[i], sep)) && (forall i | 0 <= i < |seps| :: sep(seps[i]))
    && if |seps| == |ls| then u == Glue(ls, seps, "")
       else |ls| == |seps| + 1 && ls[|seps|] != "" && u == Glue(ls[..|seps|], seps, ls[|seps|])
  }

  lemma LinesOfCut(u: string, sep: char -> bool) returns (seps: seq<char>)
    ensures var c := CutOf(u, sep); AreLines(u, if c.tail == "" then c.done else c.done + [c.tail], seps, sep)
  {
    hide CutOf;
    seps := CutLosesNothing(u, sep);
    var c := CutOf(u, sep);
    if c.tail != "" {
      assert (c.done + [c.tail])[..|seps|] == c.done;
    }
  }

  // What the counter takes for lines.
  lemma CountedLines(text: string) returns (seps: seq<char>)
    ensures AreLines(text, LinesOf(text), seps, IsNewline)
  {
    hide CutOf, AreLines;
    seps := LinesOfCut(text, IsNewline);
  }

  // What the runner takes for lines.
  lemma RunnerLines(text: string) returns (seps: seq<char>)
    ensures AreLines(Universal(text), SplitLines(text), seps, IsSep)
  {
    hide CutOf, AreLines, Universal;
    seps := LinesOfCut(Universal(text), IsSep);
  }
}
