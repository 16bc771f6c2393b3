/**
 The gate runner: reading the published count back out of the captured output, looking for
 announced skips, and grading.
 */
module RunGate {
  import opened Options
  import opened GateText
  import opened GateAssert

  // ----- reading the count

  // The last count line wins, but a malformed one spoils the whole output.
  function ReadAll(lines: seq<string>): Reading {
    if lines == [] then NotCount
    else
      var r, x := ReadAll(lines[..|lines| - 1]), ReadLine(lines[|lines| - 1]);
      if r.Malformed? || x.NotCount? then r else x
  }

  lemma {:induction false} MalformedStays(lines: seq<string>, i: nat)
    requires i <= |lines| && ReadAll(lines[..i]).Malformed?
    ensures ReadAll(lines).Malformed?
  {
    hide ReadLine;
    if i == |lines| {
      assert lines[..i] == lines;
    } else {
      assert lines[..|lines| - 1][..i] == lines[..i];
      MalformedStays(lines[..|lines| - 1], i);
    }
  }

  function Published(r: Reading): Option<int> { if r.Count? then Some(r.n) else None }

  method ParseAsserted(text: string) returns (n: Option<int>)
    ensures n == Published(ReadAll(SplitLines(text)))
  {
    hide SplitLines, ParseInt, Strip, At;
    n := None;
    var lines := SplitLines(text);
    for i := 0 to |lines|
      invariant ReadAll(lines[..i]) == if n.Some? then Count(n.value) else NotCount
    {
      assert lines[..i + 1][..i] == lines[..i];
      var s := Strip(lines[i]);
      if At(s, 0, PREFIX) {
        PrefixFits(s);
        var v := ParseInt(Strip(s[|PREFIX|..]));
        if v.None? {
          MalformedStays(lines, i + 1);
          return None;
        }
        n := v;
      }
    }
    assert lines[..|lines|] == lines;
  }

  lemma PrefixFits(s: string)
    requires At(s, 0, PREFIX)
    ensures |PREFIX| <= |s|
  {
  }

  // ----- grading

  predicate AnySkip(lines: seq<string>) { exists i | 0 <= i < |lines| :: IsSkip(lines[i]) }

  predicate AnyOwnCount(lines: seq<string>) { exists i | 0 <= i < |lines| :: IsForged(lines[i]) }

  function VerdictLines(lines: seq<string>): nat {
    if lines == [] then 0
    else VerdictLines(lines[..|lines| - 1]) + if IsVerdict(lines[|lines| - 1]) then 1 else 0
  }

  // What became of the gate's process; a process stopped by the time limit may have no output.
  datatype Proc = NotFound | TimedOut(seen: Option<string>, seenErr: Option<string>) | Exited(rc: int, stdout: string, stderr: string)

  datatype Reason = Ok | GateNotFound | Timeout | Exit(rc: int) | OwnCount | NoCount | CheckedNothing | TooFew | SkipLine

  datatype Result = Result(gate: string, rc: int, asserted: Option<int>, skipped: bool, reason: Reason, output: string)

  // A gate not run through the shim is counted by the runner itself.
  function Counted(python: bool, stdout: string, stderr: string): Option<int> {
    if python then Published(ReadAll(SplitLines(stdout)))
    else if AnyOwnCount(SplitLines(stdout + stderr)) then Some(0)
    else Some(VerdictLines(SplitLines(stdout)))
  }

  // The first thing wrong with a finished gate.
  function Fault(rc: int, own: bool, n: Option<int>, min: int, skipped: bool): Reason {
    if rc != 0 then Exit(rc)
    else if own then OwnCount
    else if n.None? then NoCount
    else if n.value < min then (if n.value == 0 then CheckedNothing else TooFew)
    else if skipped then SkipLine
    else Ok
  }

  function Partial(seen: Option<string>, seenErr: Option<string>): string {
    if seen.None? then "" else seen.value + if seenErr.Some? then seenErr.value else ""
  }

  function Grade(gate: string, python: bool, p: Proc, min: int): Result {
    match p
    case NotFound => Result(gate, 127, None, false, GateNotFound, "")
    case TimedOut(seen, seenErr) => Result(gate, 124, None, false, Timeout, Partial(seen, seenErr))
    case Exited(rc, stdout, stderr) =>
      var lines := SplitLines(stdout + stderr);
      var n := Counted(python, stdout, stderr);
      Result(gate, rc, n, AnySkip(lines), Fault(rc, !python && AnyOwnCount(lines), n, min, AnySkip(lines)), stdout + stderr)
  }

  // The grade; it is a pass exactly when the process ran and exited 0, a gate outside the
  // shim published no count, the count reaches the floor, and no line announces a skip.
  method RunOne(gate: string, python: bool, p: Proc, min: int) returns (r: Result)
    ensures r == Grade(gate, python, p, min)
    ensures r.reason.Ok? <==>
      && p.Exited? && p.rc == 0 && (python || !AnyOwnCount(SplitLines(p.stdout + p.stderr)))
      && r.asserted.Some? && r.asserted.value >= min && !AnySkip(SplitLines(p.stdout + p.stderr))
    ensures r.gate == gate && r.rc == (if p.NotFound? then 127 else if p.TimedOut? then 124 else p.rc)
    ensures p.NotFound? || (p.TimedOut? && p.seen.None?) ==> r.output == ""
    ensures p.TimedOut? && p.seen.Some? ==>
      r.output == p.seen.value + (if p.seenErr.Some? then p.seenErr.value else "") && !r.skipped && r.asserted.None?
    ensures (r.reason.GateNotFound? <==> p.NotFound?) && (r.reason.Timeout? <==> p.TimedOut?)
    ensures p.Exited? ==> r.output == p.stdout + p.stderr && r.skipped == AnySkip(SplitLines(r.output))
    ensures p.Exited? ==>
      var own := !python && AnyOwnCount(SplitLines(p.stdout + p.stderr));
      && (p.rc != 0 <==> r.reason == Exit(p.rc))
      && (p.rc == 0 && own <==> r.reason.OwnCount?)
      && (p.rc == 0 && !own && r.asserted.None? <==> r.reason.NoCount?)
      && (p.rc == 0 && !own && r.asserted == Some(0) && 0 < min <==> r.reason.CheckedNothing?)
      && (p.rc == 0 && !own && r.asserted.Some? && 0 != r.asserted.value < min <==> r.reason.TooFew?)
      && (p.rc == 0 && !own && r.asserted.Some? && r.asserted.value >= min && r.skipped <==> r.reason.SkipLine?)
  {
    hide SplitLines, AnySkip, AnyOwnCount, ReadAll;
    if p.NotFound? {
      return Result(gate, 127, None, false, GateNotFound, "");
    }
    if p.TimedOut? {
      return Result(gate, 124, None, false, Timeout, Partial(p.seen, p.seenErr));
    }
    var out := p.stdout + p.stderr;
    var forged := false;
    var n: Option<int>;
    if python {
      n := ParseAsserted(p.stdout);
    } else {
      forged := AnyOwnCount(SplitLines(out));
      n := Some(0);
      if !forged {
        var k := CountVerdicts(SplitLines(p.stdout));
        n := Some(k);
      }
    }
    var skipped := AnySkip(SplitLines(out));
    var reason := Ok;
    if p.rc != 0 {
      reason := Exit(p.rc);
    } else if forged {
      reason := OwnCount;
    } else if n.None? {
      reason := NoCount;
    } else if n.value < min {
      reason := if n.value == 0 then CheckedNothing else TooFew;
    } else if skipped {
      reason := SkipLine;
    }
    r := Result(gate, p.rc, n, skipped, reason, out);
  }

  method CountVerdicts(lines: seq<string>) returns (n: int)
    ensures n == VerdictLines(lines)
  {
    hide IsVerdict;
    n := 0;
    for i := 0 to |lines|
      invariant n == VerdictLines(lines[..i])
    {
      assert lines[..i + 1][..i] == lines[..i];
      if IsVerdict(lines[i]) {
        n := n + 1;
      }
    }
    assert lines[..|lines|] == lines;
  }

  // ----- what is read and counted

  // No count is read when some count line is malformed; otherwise the last one's number.
  lemma {:induction false} ReadAllMeans(lines: seq<string>)
    ensures ReadAll(lines).Malformed? <==> exists i | 0 <= i < |lines| :: ReadLine(lines[i]).Malformed?
    ensures forall n :: ReadAll(lines) == Count(n) <==>
              && (forall i | 0 <= i < |lines| :: !ReadLine(lines[i]).Malformed?)
              && exists k | 0 <= k < |lines| :: LastCount(lines, k, n)
  {
    hide ReadLine;
    if lines != [] {
      var init, x := lines[..|lines| - 1], |lines| - 1;
      ReadAllMeans(init);
      assert forall i | 0 <= i < x :: init[i] == lines[i];
      assert lines[x] == lines[|lines| - 1];
      forall n ensures ReadAll(lines) == Count(n) <==>
              && (forall i | 0 <= i < |lines| :: !ReadLine(lines[i]).Malformed?)
              && exists k | 0 <= k < |lines| :: LastCount(lines, k, n)
      {
        LastCountSnoc(lines, n);
      }
    }
  }

  // Line k says n and no later line says anything.
  ghost predicate LastCount(lines: seq<string>, k: int, n: int) {
    0 <= k < |lines| && ReadLine(lines[k]) == Count(n) && forall j | k < j < |lines| :: ReadLine(lines[j]).NotCount?
  }

  lemma {:induction false} LastCountSnoc(lines: seq<string>, n: int)
    requires lines != []
    ensures var init, r := lines[..|lines| - 1], ReadLine(lines[|lines| - 1]);
            (exists k :: LastCount(lines, k, n))
            <==> r == Count(n) || (r.NotCount? && exists k :: LastCount(init, k, n))
  {
    hide ReadLine;
    var init, x := lines[..|lines| - 1], |lines| - 1;
    if exists k :: LastCount(lines, k, n) {
      var k :| LastCount(lines, k, n);
      if k < x {
        assert ReadLine(lines[x]).NotCount?;
        assert LastCount(init, k, n);
      }
    }
    if ReadLine(lines[x]) == Count(n) {
      assert LastCount(lines, x, n);
    }
    if ReadLine(lines[x]).NotCount? && exists k :: LastCount(init, k, n) {
      var k :| LastCount(init, k, n);
      forall j | k < j < |lines| ensures ReadLine(lines[j]).NotCount? {
        assert j < x ==> lines[j] == init[j];
      }
      assert LastCount(lines, k, n);
    }
  }

  ghost function VerdictIndices(lines: seq<string>): set<int> { set k | 0 <= k < |lines| && IsVerdict(lines[k]) }

  // The runner's own count is the number of lines that report a verdict.
  lemma {:induction false} VerdictLinesAreCounted(lines: seq<string>)
    ensures VerdictLines(lines) == |VerdictIndices(lines)|
  {
    hide IsVerdict;
    if lines == [] {
      assert VerdictIndices(lines) == {};
    } else {
      var init := lines[..|lines| - 1];
      VerdictLinesAreCounted(init);
      assert VerdictIndices(lines) == VerdictIndices(init) + (if IsVerdict(lines[|init|]) then {|init|} else {});
    }
  }

  // ----- count lines and own count lines

  lemma StripHas(s: string, k: nat)
    requires k < |s| && !IsSpace(s[k])
    ensures s[k] in Strip(s)
  {
    var i := RunEnd(s, 0, IsSpace);
    var j := LastEnd(s, i);
    assert i <= k < j;
    assert s[i..j][k - i] == s[k];
  }

  // The runner reads a line as a count, well formed or not, exactly when the shim would have
  // taken it for a gate's own count line.
  lemma CountIffOwn(line: string)
    ensures ReadLine(line).NotCount? <==> !IsForged(line)
  {
    hide ParseInt;
    var i := RunEnd(line, 0, IsSpace);
    var j := LastEnd(line, i);
    var s := Strip(line);
    if IsForged(line) {
      assert line[i..i + 9][8] == PREFIX[8];
      assert line[i + 8] == '=';
      assert i + 9 <= j;
      assert s[0..9] == line[i..i + 9];
    }
    if At(s, 0, PREFIX) {
      assert line[i..i + 9] == s[0..9];
    }
  }

  // What an unfinished line p becomes when the shim prints w right after it.
  lemma OwnAfterGlue(p: string, w: string)
    requires !Blank(p) && w != "" && w[0] in "ag"
    ensures IsForged(p + w) <==> IsForged(p)
  {
    var q, i := p + w, RunEnd(p, 0, IsSpace);
    RunEndIs(q, 0, i, IsSpace);
    assert q[|p|] == w[0];
    if i + 9 <= |p| {
      assert q[i..i + 9] == p[i..i + 9];
    } else if |q| >= i + 9 {
      assert q[i..i + 9][|p| - i] == w[0] && PREFIX[|p| - i] in "sserted=";
    }
  }

  lemma GluedIsNoInt(p: string, w: string)
    requires !Blank(p) && w != "" && w[0] in "ag" && IsForged(p)
    ensures ReadLine(p + w).Malformed?
  {
    hide RunEnd, LastEnd, ParseInt;
    var q, i := p + w, RunEnd(p, 0, IsSpace);
    OwnAfterGlue(p, w);
    CountIffOwn(q);
    RunEndIs(q, 0, i, IsSpace);
    var j := LastEnd(q, i);
    assert q[|p|] == w[0];
    assert |p| < j;
    var body := q[i..j][9..];
    assert body[|p| - i - 9] == w[0];
    StripHas(body, |p| - i - 9);
    NoSuchInt(Strip(body), w[0]);
  }

  lemma NoSuchInt(s: string, c: char)
    requires c in s && c in "ag"
    ensures ParseInt(s).None?
  {
    var k :| 0 <= k < |s| && s[k] == c;
    if s[0] == '-' || s[0] == '+' {
      if Numeral(s[1..]).Some? {
        NumeralChars(s[1..], k - 1);
      }
    } else if Numeral(s).Some? {
      NumeralChars(s, k);
    }
  }

  lemma Glued(p: string, w: string)
    requires !Blank(p) && w != "" && w[0] in "ag"
    ensures ReadLine(p + w) == if IsForged(p) then Malformed else NotCount
  {
    hide ReadLine, IsForged, Blank;
    if IsForged(p) {
      GluedIsNoInt(p, w);
    } else {
      OwnAfterGlue(p, w);
      CountIffOwn(p + w);
    }
  }

  lemma StripPad(p: string, w: string)
    requires Blank(p) && w != "" && !IsSpace(w[0]) && !IsSpace(w[|w| - 1])
    ensures Strip(p + w) == w
  {
    var q := p + w;
    assert q[|p|] == w[0] && q[|q| - 1] == w[|w| - 1];
    StripIs(q, |p|, |q|);
    assert q[|p|..|q|] == w;
  }

  lemma CountLineParts(n: int)
    ensures var w := CountLineText(n); At(w, 0, PREFIX) && |w| > 9 && w[9..] == Show(n) && w[0] == 'a'
    ensures Show(n) != "" && forall i | 0 <= i < |Show(n)| :: !IsSpace(Show(n)[i])
    ensures CountLineText(n)[|CountLineText(n)| - 1] == Show(n)[|Show(n)| - 1]
  {
    hide Show, ParseInt;
    ParseOfShow(n);
  }

  // The shim's own line, read back.
  lemma ReadOwn(p: string, n: int)
    requires Blank(p)
    ensures ReadLine(p + CountLineText(n)) == Count(n)
  {
    hide ParseInt, Show, Strip, At, CountLineText;
    ParseOfShow(n);
    CountLineParts(n);
    StripPad(p, CountLineText(n));
    StripPad("", Show(n));
    assert "" + Show(n) == Show(n);
  }

  lemma ReadCountLine(p: string, n: int)
    ensures ReadLine(p + CountLineText(n)) == if Blank(p) then Count(n) else if IsForged(p) then Malformed else NotCount
  {
    hide ReadLine, IsForged, Blank;
    assert CountLineText(n)[0] == 'a' && 'a' == "ag"[0];
    if Blank(p) {
      ReadOwn(p, n);
    } else {
      Glued(p, CountLineText(n));
    }
  }

  lemma ReadWhyLine(p: string, y: Why)
    ensures ReadLine(p + WhyLine(y)) == if IsForged(p) then Malformed else NotCount
  {
    hide ReadLine, WhyText;
    var w := WhyLine(y);
    assert w[0] == 'g' && 'g' == "ag"[1];
    if Blank(p) {
      var q := p + w;
      assert q[|p|] == 'g';
      RunEndIs(q, 0, |p|, IsSpace);
      assert !At(q, |p|, PREFIX) by {
        if At(q, |p|, PREFIX) {
          AtFirst(q, |p|, PREFIX);
        }
      }
      RunEndIs(p, 0, |p|, IsSpace);
      CountIffOwn(q);
    } else {
      Glued(p, w);
    }
  }
}
