/**
 The assertion counter: evaluated asserts, explicit bumps and verdict lines seen by two
 counting streams.
 */
module GateAssert {
  import opened Options
  import opened GateText

  // ----- the counters

  datatype Tally = Tally(count: int, markerTotal: nat, markerSeen: bool, forged: bool)

  const ZERO := Tally(0, 0, false, false)

  function Add(a: Tally, b: Tally): Tally {
    Tally(a.count + b.count, a.markerTotal + b.markerTotal, a.markerSeen || b.markerSeen, a.forged || b.forged)
  }

  function OfLine(line: string): Tally {
    match Classify(line)
    case Forged => Tally(0, 0, false, true)
    case Marker(n) => Tally(0, n, true, false)
    case Verdict => Tally(1, 0, false, false)
    case Plain => ZERO
  }

  function Sum(lines: seq<string>): Tally {
    if lines == [] then ZERO else Add(Sum(lines[..|lines| - 1]), OfLine(lines[|lines| - 1]))
  }

  lemma {:induction false} SumConcat(a: seq<string>, b: seq<string>)
    ensures Sum(a + b) == Add(Sum(a), Sum(b))
  {
    hide OfLine, Add;
    if b == [] {
      assert a + b == a;
      AddZero(Sum(a));
    } else {
      var init, x := b[..|b| - 1], b[|b| - 1];
      SumConcat(a, init);
      assert (a + b)[..|a + b| - 1] == a + init;
      AddAssoc(Sum(a), Sum(init), OfLine(x));
    }
  }

  lemma AddZero(a: Tally)
    ensures Add(a, ZERO) == a
  {
  }

  lemma AddAssoc(a: Tally, b: Tally, c: Tally)
    ensures Add(a, Add(b, c)) == Add(Add(a, b), c)
  {
  }

  lemma SumOne(line: string)
    ensures Sum([line]) == OfLine(line)
  {
    hide OfLine;
    assert [line][..0] == [];
  }

  function Asserted(n: int): Tally { Tally(n, 0, false, false) }

  // The published count.
  function CountOf(t: Tally): int {
    if t.forged then 0 else if t.markerSeen then (if t.count != 0 then t.markerTotal else 0) else t.count
  }

  datatype Why = OwnCountLine | MarkerAlone

  function RefusalOf(t: Tally): Option<Why> {
    if t.forged then Some(OwnCountLine) else if t.markerSeen && t.count == 0 then Some(MarkerAlone) else None
  }

  // A refusal always goes with a zero count.
  lemma RefusedIsZero(t: Tally)
    ensures RefusalOf(t).Some? ==> CountOf(t) == 0
  {
  }

  // ----- runs

  // What a gate does, as far as the counter can see.
  datatype Event = Assert | Bump(n: int) | Out(s: string) | Err(s: string)

  // The counters and the unfinished line of each stream.
  datatype Shim = Shim(tally: Tally, out: string, err: string)

  function Step(st: Shim, e: Event): Shim {
    match e
    case Assert => st.(tally := Add(st.tally, Asserted(1)))
    case Bump(n) => st.(tally := Add(st.tally, Asserted(n)))
    case Out(s) => var c := CutOf(st.out + s, IsNewline); st.(tally := Add(st.tally, Sum(c.done)), out := c.tail)
    case Err(s) => var c := CutOf(st.err + s, IsNewline); st.(tally := Add(st.tally, Sum(c.done)), err := c.tail)
  }

  function RunEvents(es: seq<Event>): Shim {
    if es == [] then Shim(ZERO, "", "") else Step(RunEvents(es[..|es| - 1]), es[|es| - 1])
  }

  function Closed(partial: string): Tally { if partial == "" then ZERO else OfLine(partial) }

  // The counters after both streams have closed their last line.
  function Final(es: seq<Event>): Tally {
    var st := RunEvents(es);
    Add(Add(st.tally, Closed(st.out)), Closed(st.err))
  }

  // ----- what a run wrote and reached

  function Reached(es: seq<Event>): int {
    if es == [] then 0
    else
      Reached(es[..|es| - 1]) +
      match es[|es| - 1]
      case Assert => 1
      case Bump(n) => n
      case _ => 0
  }

  function OutText(es: seq<Event>): string {
    if es == [] then "" else OutText(es[..|es| - 1]) + (if es[|es| - 1].Out? then es[|es| - 1].s else "")
  }

  function ErrText(es: seq<Event>): string {
    if es == [] then "" else ErrText(es[..|es| - 1]) + (if es[|es| - 1].Err? then es[|es| - 1].s else "")
  }

  // What a run reached and wrote adds up over its parts, and each event gives its own.
  lemma {:induction false} RunsAddUp(es: seq<Event>, fs: seq<Event>)
    ensures Reached(es + fs) == Reached(es) + Reached(fs)
    ensures OutText(es + fs) == OutText(es) + OutText(fs) && ErrText(es + fs) == ErrText(es) + ErrText(fs)
  {
    hide Reached, OutText, ErrText;
    if fs == [] {
      assert es + fs == es;
      NoEvents();
    } else {
      var init, e := fs[..|fs| - 1], fs[|fs| - 1];
      RunsAddUp(es, init);
      OneMore(init, e);
      OneMore(es + init, e);
      assert init + [e] == fs && es + init + [e] == es + fs;
    }
  }

  lemma NoEvents()
    ensures Reached([]) == 0 && OutText([]) == "" && ErrText([]) == ""
  {
  }

  lemma {:induction false} OneMore(es: seq<Event>, e: Event)
    ensures Reached(es + [e]) == Reached(es) + (if e.Assert? then 1 else if e.Bump? then e.n else 0)
    ensures OutText(es + [e]) == OutText(es) + (if e.Out? then e.s else "")
    ensures ErrText(es + [e]) == ErrText(es) + (if e.Err? then e.s else "")
  {
    assert (es + [e])[..|es|] == es;
  }

  lemma OneEvent(n: int, s: string)
    ensures Reached([Assert]) == 1 && Reached([Bump(n)]) == n && Reached([Out(s)]) == Reached([Err(s)]) == 0
    ensures OutText([Out(s)]) == s && OutText([Err(s)]) == OutText([Assert]) == OutText([Bump(n)]) == ""
    ensures ErrText([Err(s)]) == s && ErrText([Out(s)]) == ErrText([Assert]) == ErrText([Bump(n)]) == ""
  {
    hide Reached, OutText, ErrText;
    NoEvents();
    OneMore([], Assert);
    OneMore([], Bump(n));
    OneMore([], Out(s));
    OneMore([], Err(s));
    assert forall e: Event :: [] + [e] == [e];
  }

  // The lines of a whole text, the last one included even when it is unfinished.
  function LinesOf(text: string): seq<string> {
    var c := CutOf(text, IsNewline);
    if c.tail == "" then c.done else c.done + [c.tail]
  }

  // What the texts alone say the counters must be.
  function Expected(reached: int, out: string, err: string): Tally {
    Add(Add(Asserted(reached), Sum(LinesOf(out))), Sum(LinesOf(err)))
  }

  // ----- chunking and interleaving

  // Cutting the unfinished line and a new chunk finds the lines the chunk finishes.
  lemma CutChunk(w: string, s: string)
    ensures var p := CutOf(w, IsNewline); var c := CutOf(p.tail + s, IsNewline);
            CutOf(w + s, IsNewline) == Cut(p.done + c.done, c.tail)
  {
    var start := Cut([], "");
    var p := CutOf(w, IsNewline);
    FeedTwice(start, w, s, IsNewline);
    FeedOnTop(p, s, IsNewline);
    TailIsPlain(start, w, IsNewline);
    FeedPlain(start, p.tail, IsNewline);
    assert "" + p.tail == p.tail;
    FeedTwice(start, p.tail, s, IsNewline);
  }

  ghost predicate InStep(st: Shim, reached: int, out: string, err: string) {
    var o, e := CutOf(out, IsNewline), CutOf(err, IsNewline);
    st == Shim(Add(Add(Asserted(reached), Sum(o.done)), Sum(e.done)), o.tail, e.tail)
  }

  lemma OutInStep(st: Shim, reached: int, out: string, err: string, s: string)
    requires InStep(st, reached, out, err)
    ensures InStep(Step(st, Out(s)), reached, out + s, err)
  {
    hide CutOf, Sum;
    CutChunk(out, s);
    SumConcat(CutOf(out, IsNewline).done, CutOf(st.out + s, IsNewline).done);
  }

  lemma ErrInStep(st: Shim, reached: int, out: string, err: string, s: string)
    requires InStep(st, reached, out, err)
    ensures InStep(Step(st, Err(s)), reached, out, err + s)
  {
    hide CutOf, Sum;
    CutChunk(err, s);
    SumConcat(CutOf(err, IsNewline).done, CutOf(st.err + s, IsNewline).done);
  }

  lemma {:induction false} RunInStep(es: seq<Event>)
    ensures InStep(RunEvents(es), Reached(es), OutText(es), ErrText(es))
  {
    hide InStep, Step;
    if es == [] {
      StartInStep();
    } else {
      var init, e := es[..|es| - 1], es[|es| - 1];
      RunInStep(init);
      match e {
        case Assert => ReachInStep(RunEvents(init), Reached(init), OutText(init), ErrText(init), 1, e);
        case Bump(n) => ReachInStep(RunEvents(init), Reached(init), OutText(init), ErrText(init), n, e);
        case Out(s) => OutInStep(RunEvents(init), Reached(init), OutText(init), ErrText(init), s);
        case Err(s) => ErrInStep(RunEvents(init), Reached(init), OutText(init), ErrText(init), s);
      }
      assert OutText(init) + "" == OutText(init) && ErrText(init) + "" == ErrText(init);
    }
  }

  lemma StartInStep()
    ensures InStep(Shim(ZERO, "", ""), 0, "", "")
  {
    hide OfLine;
    assert CutOf("", IsNewline) == Cut([], "");
    assert Sum([]) == ZERO;
  }

  lemma ReachInStep(st: Shim, reached: int, out: string, err: string, n: int, e: Event)
    requires InStep(st, reached, out, err) && (e == Bump(n) || (e.Assert? && n == 1))
    ensures InStep(Step(st, e), reached + n, out, err)
  {
    hide CutOf, Sum;
  }

  lemma LinesSum(text: string)
    ensures Sum(LinesOf(text)) == Add(Sum(CutOf(text, IsNewline).done), Closed(CutOf(text, IsNewline).tail))
  {
    hide CutOf, OfLine, Sum, Add;
    var c := CutOf(text, IsNewline);
    if c.tail == "" {
      AddZero(Sum(c.done));
    } else {
      SumConcat(c.done, [c.tail]);
      SumOne(c.tail);
    }
  }

  // The final counters are a function of the asserts and bumps reached and of the two texts.
  lemma FinalIsExpected(es: seq<Event>)
    ensures Final(es) == Expected(Reached(es), OutText(es), ErrText(es))
  {
    hide CutOf, Sum, Reached, OutText, ErrText, RunEvents, LinesOf, Closed;
    RunInStep(es);
    LinesSum(OutText(es));
    LinesSum(ErrText(es));
  }

  // Neither chunking nor interleaving shows in the verdict.
  lemma ChunkingIsInvisible(es: seq<Event>, fs: seq<Event>)
    requires Reached(es) == Reached(fs) && OutText(es) == OutText(fs) && ErrText(es) == ErrText(fs)
    ensures Final(es) == Final(fs) && CountOf(Final(es)) == CountOf(Final(fs)) && RefusalOf(Final(es)) == RefusalOf(Final(fs))
  {
    hide Final, Expected, CountOf, RefusalOf;
    FinalIsExpected(es);
    FinalIsExpected(fs);
  }

  // ----- evidence

  ghost predicate AnyLine(lines: seq<string>, kind: Kind -> bool) {
    exists k | 0 <= k < |lines| :: kind(Classify(lines[k]))
  }

  predicate KForged(k: Kind) { k.Forged? }
  predicate KMarker(k: Kind) { k.Marker? }
  predicate KVerdict(k: Kind) { k.Verdict? }

  // How many lines report a verdict.
  function Verdicts(lines: seq<string>): nat {
    if lines == [] then 0
    else Verdicts(lines[..|lines| - 1]) + if Classify(lines[|lines| - 1]).Verdict? then 1 else 0
  }

  lemma {:induction false} AnySnoc(lines: seq<string>, kind: Kind -> bool)
    requires lines != []
    ensures AnyLine(lines, kind) <==> AnyLine(lines[..|lines| - 1], kind) || kind(Classify(lines[|lines| - 1]))
  {
    hide Classify;
    var init := lines[..|lines| - 1];
    if AnyLine(init, kind) {
      var k :| 0 <= k < |init| && kind(Classify(init[k]));
      assert kind(Classify(lines[k]));
    }
    if AnyLine(lines, kind) {
      var k :| 0 <= k < |lines| && kind(Classify(lines[k]));
      if k < |init| {
        assert init[k] == lines[k];
      }
    }
  }

  lemma {:induction false} SumMeans(lines: seq<string>)
    ensures Sum(lines).forged <==> AnyLine(lines, KForged)
    ensures Sum(lines).markerSeen <==> AnyLine(lines, KMarker)
    ensures Sum(lines).count == Verdicts(lines) && (Verdicts(lines) > 0 <==> AnyLine(lines, KVerdict))
  {
    hide Classify, AnyLine;
    if lines == [] {
      assert !AnyLine(lines, KForged) && !AnyLine(lines, KMarker) && !AnyLine(lines, KVerdict) by {
        NoLines(lines, KForged);
        NoLines(lines, KMarker);
        NoLines(lines, KVerdict);
      }
    } else {
      SumMeans(lines[..|lines| - 1]);
      AnySnoc(lines, KForged);
      AnySnoc(lines, KMarker);
      AnySnoc(lines, KVerdict);
    }
  }

  lemma NoLines(lines: seq<string>, kind: Kind -> bool)
    requires lines == []
    ensures !AnyLine(lines, kind)
  {
  }

  // Some assert, or some bump, was reached.
  ghost predicate Reaches(es: seq<Event>) { exists k | 0 <= k < |es| :: es[k].Assert? || es[k].Bump? }

  lemma {:induction false} ReachedMeans(es: seq<Event>)
    requires Reached(es) != 0
    ensures Reaches(es)
  {
    var init, e := es[..|es| - 1], es[|es| - 1];
    if e.Assert? || e.Bump? {
    } else {
      ReachedMeans(init);
      var k :| 0 <= k < |init| && (init[k].Assert? || init[k].Bump?);
      assert es[k] == init[k];
    }
  }

  ghost predicate Evidence(es: seq<Event>) {
    Reaches(es) || AnyLine(LinesOf(OutText(es)), KVerdict) || AnyLine(LinesOf(ErrText(es)), KVerdict)
  }

  ghost predicate SomeLine(es: seq<Event>, kind: Kind -> bool) {
    AnyLine(LinesOf(OutText(es)), kind) || AnyLine(LinesOf(ErrText(es)), kind)
  }

  // Evaluated asserts, bumps and verdict lines together.
  function Earned(es: seq<Event>): int {
    Reached(es) + Verdicts(LinesOf(OutText(es))) + Verdicts(LinesOf(ErrText(es)))
  }

  lemma FinalMeans(es: seq<Event>)
    ensures Final(es).forged <==> SomeLine(es, KForged)
    ensures Final(es).markerSeen <==> SomeLine(es, KMarker)
    ensures Final(es).count == Earned(es)
  {
    hide Final, Sum, AnyLine, LinesOf, Verdicts, Reached, OutText, ErrText;
    FinalIsExpected(es);
    SumMeans(LinesOf(OutText(es)));
    SumMeans(LinesOf(ErrText(es)));
  }

  // A positive count has evidence behind it and no count line of the gate's own.
  lemma PositiveMeansEvidence(es: seq<Event>)
    requires CountOf(Final(es)) > 0
    ensures Evidence(es) && !SomeLine(es, KForged) && Earned(es) != 0
    ensures RefusalOf(Final(es)).None?
  {
    hide Final, AnyLine, LinesOf, Verdicts, Reached, OutText, ErrText;
    FinalMeans(es);
    SumMeans(LinesOf(OutText(es)));
    SumMeans(LinesOf(ErrText(es)));
    if Reached(es) != 0 {
      ReachedMeans(es);
    }
  }

  // Without markers and own count lines, the count is exactly what was earned; a marker
  // never counts without something earned.
  lemma CountIsEarned(es: seq<Event>)
    ensures !SomeLine(es, KForged) && !SomeLine(es, KMarker) ==> CountOf(Final(es)) == Earned(es)
    ensures Earned(es) == 0 ==> CountOf(Final(es)) == 0
    ensures RefusalOf(Final(es)).Some? <==> SomeLine(es, KForged) || (SomeLine(es, KMarker) && Earned(es) == 0)
  {
    hide Final, SomeLine, Earned;
    FinalMeans(es);
  }

  // ----- the shim's state, updated in place

  // The module's counters.
  class Counters {
    var count: int
    var markerTotal: nat
    var markerSeen: bool
    var forged: bool

    function Value(): Tally
      reads this
    {
      Tally(count, markerTotal, markerSeen, forged)
    }

    constructor ()
      ensures Value() == ZERO
    {
      count, markerTotal, markerSeen, forged := 0, 0, false, false;
    }

    method BumpBy(n: int)
      modifies this
      ensures Value() == Add(old(Value()), Asserted(n))
    {
      count := count + n;
    }

    // The wrapper around every assert's test; it hands the value through.
    method GaAssert<T>(value: T) returns (r: T)
      modifies this
      ensures r == value && Value() == Add(old(Value()), Asserted(1))
    {
      count := count + 1;
      r := value;
    }

    method CountLine(line: string)
      modifies this
      ensures Value() == Add(old(Value()), OfLine(line))
    {
      if IsForged(line) {
        forged := true;
        return;
      }
      var m := SdlcMarker(line);
      if m.None? {
        m := ScoredMarker(line, 0);
      }
      if m.Some? {
        markerSeen := true;
        markerTotal := markerTotal + m.value;
        return;
      }
      if IsVerdict(line) {
        count := count + 1;
      }
    }

    method Count() returns (n: int)
      ensures n == CountOf(Value())
      ensures n != 0 ==> count != 0 && !forged
    {
      if forged {
        return 0;
      }
      if markerSeen {
        return if count != 0 then markerTotal else 0;
      }
      return count;
    }

    method Refusal() returns (why: Option<Why>)
      ensures why == RefusalOf(Value())
      ensures why.Some? ==> CountOf(Value()) == 0
      ensures CountOf(Value()) == 0 && count != 0 && (markerSeen ==> markerTotal > 0) ==> why.Some?
    {
      if forged {
        return Some(OwnCountLine);
      }
      if markerSeen && count == 0 {
        return Some(MarkerAlone);
      }
      return None;
    }
  }

  predicate NotNewline(c: char) { !IsNewline(c) }

  // The first line of a text that has one.
  lemma FirstLine(s: string, i: nat)
    requires i < |s| && IsNewline(s[i]) && forall k | 0 <= k < i :: !IsNewline(s[k])
    ensures var r := CutOf(s[i + 1..], IsNewline); CutOf(s, IsNewline) == Cut([s[..i]] + r.done, r.tail)
  {
    var start := Cut([], "");
    assert s[..i] + [s[i]] + s[i + 1..] == s;
    FeedTwice(start, s[..i] + [s[i]], s[i + 1..], IsNewline);
    FeedLine(start, s[..i], s[i], IsNewline);
    assert "" + s[..i] == s[..i] && [] + [s[..i]] == [s[..i]];
    FeedOnTop(Cut([s[..i]], ""), s[i + 1..], IsNewline);
  }

  // A stream that passes text on and counts the lines it finishes.
  class CountingStream {
    var inner: string
    var partial: string

    constructor ()
      ensures inner == "" && partial == ""
    {
      inner, partial := "", "";
    }

    method Write(c: Counters, s: string)
      modifies this, c
      ensures inner == old(inner) + s
      ensures var cut := CutOf(old(partial) + s, IsNewline);
              c.Value() == Add(old(c.Value()), Sum(cut.done)) && partial == cut.tail
    {
      Scan(c, s);
      inner := inner + s;
    }

    method Scan(c: Counters, s: string)
      modifies this`partial, c
      ensures var cut := CutOf(old(partial) + s, IsNewline);
              c.Value() == Add(old(c.Value()), Sum(cut.done)) && partial == cut.tail
    {
      hide CutOf, OfLine, Sum, Add;
      AddZero(c.Value());
      NoLinesSum();
      partial := partial + s;
      ghost var all := CutOf(partial, IsNewline);
      ghost var done: seq<string> := [];
      while '\n' in partial
        invariant all == Cut(done + CutOf(partial, IsNewline).done, CutOf(partial, IsNewline).tail)
        invariant c.Value() == Add(old(c.Value()), Sum(done))
        decreases |partial|
      {
        var i := RunEnd(partial, 0, NotNewline);
        FirstLine(partial, i);
        var line := partial[..i];
        ghost var rest := CutOf(partial[i + 1..], IsNewline);
        assert done + ([line] + rest.done) == done + [line] + rest.done;
        SumConcat(done, [line]);
        SumOne(line);
        AddAssoc(old(c.Value()), Sum(done), OfLine(line));
        partial := partial[i + 1..];
        c.CountLine(line);
        done := done + [line];
      }
      NoNewline(partial);
      assert done + [] == done;
    }

    method ClosePartial(c: Counters)
      modifies this`partial, c
      ensures partial == "" && c.Value() == Add(old(c.Value()), Closed(old(partial)))
    {
      if partial != "" {
        c.CountLine(partial);
      }
      partial := "";
    }
  }

  lemma NoLinesSum()
    ensures Sum([]) == ZERO
  {
  }

  lemma NoNewline(s: string)
    requires '\n' !in s
    ensures CutOf(s, IsNewline) == Cut([], s)
  {
    FeedPlain(Cut([], ""), s, IsNewline);
    assert "" + s == s;
  }

  // The refusal, if any, and the count line the shim prints last.
  // The two messages, in pieces short enough to be looked through one by one.
  function OwnHead(): string { "the gate published " + "its own asserted=line" }
  function OwnMiddle(): string { " \U{2014} the contract " + "line is this shim's " }
  function OwnEnd(): string { "verdict, not " + "the gate's" }
  function AloneHead(): string { "count marker " + "without evidence" }
  function AloneMiddle(): string { " \U{2014} the gate printed " + "a count line but " }
  function AloneEnd(): string { "evaluated no assert " + "and reported no verdict" }

  function WhyText(w: Why): string { 
    if w.OwnCountLine? then OwnHead() + OwnMiddle() + OwnEnd() else AloneHead() + AloneMiddle() + AloneEnd()
  }

  function WhyLine(w: Why): string { "gate_assert: " + WhyText(w) }

  function CountLineText(n: int): string { PREFIX + Show(n) }

  function Report(t: Tally): string {
    (if RefusalOf(t).Some? then WhyLine(RefusalOf(t).value) + ['\n'] else "") + (CountLineText(CountOf(t)) + ['\n'])
  }

  // One event of the gate, on the objects.
  method Handle(e: Event, c: Counters, out: CountingStream, err: CountingStream)
    requires out != err
    modifies c, out, err
    ensures Shim(c.Value(), out.partial, err.partial) == Step(old(Shim(c.Value(), out.partial, err.partial)), e)
    ensures out.inner == old(out.inner) + (if e.Out? then e.s else "")
    ensures err.inner == old(err.inner) + (if e.Err? then e.s else "")
  {
    hide OfLine, Sum, CutOf, Add;
    assert out.inner + "" == out.inner && err.inner + "" == err.inner;
    match e {
      case Assert => var _ := c.GaAssert(true);
      case Bump(n) => c.BumpBy(n);
      case Out(s) => out.Write(c, s);
      case Err(s) => err.Write(c, s);
    }
  }

  // How a gate's script can end.
  datatype Ending = Completed | ExitNone | ExitInt(c: int) | ExitWith(text: string) | Crashed(trace: string)

  // The exit code, and what ending that way still writes through the streams.
  function CodeOf(e: Ending): int {
    match e
    case ExitInt(c) => c
    case ExitWith(_) => 1
    case Crashed(_) => 1
    case _ => 0
  }

  function LastWrites(e: Ending): seq<Event> {
    match e
    case ExitWith(t) => [Err(t), Err(['\n'])]
    case Crashed(t) => [Err(t)]
    case _ => []
  }

  // One gate under the shim: its exit code, its count and what its process writes.
  method RunScript(script: seq<Event>, e: Ending) returns (rc: int, n: int, stdout: string, stderr: string)
    ensures e.Completed? || e.ExitNone? ==> rc == 0 && stderr == ErrText(script)
    ensures e.ExitInt? ==> rc == e.c && stderr == ErrText(script)
    ensures e.ExitWith? ==> rc == 1 && stderr == ErrText(script) + e.text + ['\n']
    ensures e.Crashed? ==> rc == 1 && stderr == ErrText(script) + e.trace
    ensures n == CountOf(Final(script + LastWrites(e)))
    ensures var es := script + LastWrites(e); stdout == OutText(es) + Report(Final(es)) && stderr == ErrText(es)
  {
    hide Final, OutText, ErrText, Report, CountOf;
    EndingTexts(script, e);
    rc := CodeOf(e);
    n, stdout, stderr := RunUnderShim(script + LastWrites(e));
  }

  lemma EndingTexts(script: seq<Event>, e: Ending)
    ensures ErrText(script + LastWrites(e)) ==
      if e.ExitWith? then ErrText(script) + e.text + ['\n'] else if e.Crashed? then ErrText(script) + e.trace else ErrText(script)
  {
    hide ErrText;
    match e
    case ExitWith(t) =>
      RunsAddUp(script, [Err(t)]);
      RunsAddUp(script + [Err(t)], [Err(['\n'])]);
      OneEvent(0, t);
      OneEvent(0, ['\n']);
      assert script + [Err(t)] + [Err(['\n'])] == script + LastWrites(e);
    case Crashed(t) =>
      RunsAddUp(script, [Err(t)]);
      OneEvent(0, t);
    case _ =>
      assert script + [] == script;
  }

  // The streams, the counters and the report, around a run of events.
  method RunUnderShim(es: seq<Event>) returns (n: int, stdout: string, stderr: string)
    ensures n == CountOf(Final(es))
    ensures stdout == OutText(es) + Report(Final(es)) && stderr == ErrText(es)
  {
    hide OfLine, Sum, CutOf, Report, CountOf, RefusalOf, Closed, Add, Step, WhyLine, CountLineText;
    var c := new Counters();
    var out := new CountingStream();
    var err := new CountingStream();
    var i := 0;
    assert es[..0] == [];
    while i < |es|
      invariant 0 <= i <= |es|
      invariant fresh(c) && fresh(out) && fresh(err) && out != err
      invariant RunEvents(es[..i]) == Shim(c.Value(), out.partial, err.partial)
      invariant out.inner == OutText(es[..i]) && err.inner == ErrText(es[..i])
    {
      assert es[..i + 1][..i] == es[..i];
      Handle(es[i], c, out, err);
      i := i + 1;
    }
    assert es[..i] == es;
    out.ClosePartial(c);
    err.ClosePartial(c);
    assert c.Value() == Final(es);
    var why := c.Refusal();
    n := c.Count();
    stdout := out.inner;
    if why.Some? {
      stdout := stdout + (WhyLine(why.value) + ['\n']);
    }
    stdout := stdout + (CountLineText(n) + ['\n']);
    ReportIs(Final(es), out.inner);
    stderr := err.inner;
  }

  lemma ReportIs(t: Tally, text: string)
    ensures text + Report(t) ==
      (if RefusalOf(t).Some? then text + (WhyLine(RefusalOf(t).value) + ['\n']) else text) + (CountLineText(CountOf(t)) + ['\n'])
  {
    hide WhyLine, CountLineText, RefusalOf, CountOf;
  }
}
