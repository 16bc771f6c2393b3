/**
 The text rules of the assertion shim and its runner: line splitting, the line patterns,
 and the decimal numerals of the count line.
 */
module GateText {
  import opened Options

  // ----- characters

  // White space: what \s matches and strip() removes.
  predicate IsSpace(c: char) {
    var n := c as int;
    || 9 <= n <= 13 || 28 <= n <= 32 || n == 0x85 || n == 0xA0 || n == 0x1680 || 0x2000 <= n <= 0x200A
    || n == 0x2028 || n == 0x2029 || n == 0x202F || n == 0x205F || n == 0x3000
  }

  // What splitlines() cuts at.
  predicate IsSep(c: char) {
    var n := c as int;
    10 <= n <= 13 || 28 <= n <= 30 || n == 0x85 || n == 0x2028 || n == 0x2029
  }

  predicate IsNewline(c: char) { c == '\n' }

  predicate IsDigit(c: char) { '0' <= c <= '9' }

  predicate IsWord(c: char) { IsDigit(c) || 'a' <= c <= 'z' || 'A' <= c <= 'Z' || c == '_' }

  predicate NotSpace(c: char) { !IsSpace(c) }

  // ----- cutting text into lines

  // The finished lines of a text and the unfinished one after them.
  datatype Cut = Cut(done: seq<string>, tail: string)

  function Feed(c: Cut, s: string, sep: char -> bool): Cut {
    if s == "" then c
    else
      var d, x := Feed(c, s[..|s| - 1], sep), s[|s| - 1];
      if sep(x) then Cut(d.done + [d.tail], "") else Cut(d.done, d.tail + [x])
  }

  function CutOf(text: string, sep: char -> bool): Cut { Feed(Cut([], ""), text, sep) }

  // Feeding in two chunks is feeding the concatenation.
  lemma {:induction false} FeedTwice(c: Cut, a: string, b: string, sep: char -> bool)
    ensures Feed(Feed(c, a, sep), b, sep) == Feed(c, a + b, sep)
  {
    if b == "" {
      assert a + b == a;
    } else {
      FeedTwice(c, a, b[..|b| - 1], sep);
      assert (a + b)[..|a + b| - 1] == a + b[..|b| - 1];
    }
  }

  // Lines already finished stay as they are.
  lemma {:induction false} FeedOnTop(c: Cut, s: string, sep: char -> bool)
    ensures var r := Feed(Cut([], c.tail), s, sep); Feed(c, s, sep) == Cut(c.done + r.done, r.tail)
  {
    if s == "" {
      assert c.done + [] == c.done;
    } else {
      FeedOnTop(c, s[..|s| - 1], sep);
      var r := Feed(Cut([], c.tail), s[..|s| - 1], sep);
      assert c.done + r.done + [r.tail] == c.done + (r.done + [r.tail]);
    }
  }

  predicate Free(s: string, sep: char -> bool) { forall i | 0 <= i < |s| :: !sep(s[i]) }

  lemma {:induction false} FeedPlain(c: Cut, s: string, sep: char -> bool)
    requires Free(s, sep)
    ensures Feed(c, s, sep) == Cut(c.done, c.tail + s)
  {
    if s == "" {
      assert c.tail + s == c.tail;
    } else {
      var w := s[..|s| - 1];
      FeedPlain(c, w, sep);
      assert c.tail + w + [s[|s| - 1]] == c.tail + s;
    }
  }

  lemma FeedLine(c: Cut, s: string, x: char, sep: char -> bool)
    requires Free(s, sep) && sep(x)
    ensures Feed(c, s + [x], sep) == Cut(c.done + [c.tail + s], "")
  {
    FeedPlain(c, s, sep);
    assert (s + [x])[..|s|] == s;
  }

  // The unfinished line holds no separator.
  lemma {:induction false} TailIsPlain(c: Cut, s: string, sep: char -> bool)
    requires Free(c.tail, sep)
    ensures Free(Feed(c, s, sep).tail, sep)
  {
    if s != "" {
      TailIsPlain(c, s[..|s| - 1], sep);
    }
  }

  // Two separators that agree on a text cut it alike.
  lemma {:induction false} SameCut(c: Cut, s: string, p: char -> bool, q: char -> bool)
    requires forall i | 0 <= i < |s| :: p(s[i]) == q(s[i])
    ensures Feed(c, s, p) == Feed(c, s, q)
  {
    if s != "" {
      assert forall i | 0 <= i < |s| - 1 :: s[..|s| - 1][i] == s[i];
      SameCut(c, s[..|s| - 1], p, q);
    }
  }

  // Universal newlines: "\r\n" and "\r" become "\n".
  function Universal(t: string): string {
    if t == "" then ""
    else if |t| >= 2 && t[|t| - 2] == '\r' && t[|t| - 1] == '\n' then Universal(t[..|t| - 2]) + "\n"
    else Universal(t[..|t| - 1]) + (if t[|t| - 1] == '\r' then "\n" else [t[|t| - 1]])
  }

  lemma {:induction false} UniversalHasNoCR(t: string)
    ensures '\r' !in Universal(t)
  {
    if t == "" {
    } else if |t| >= 2 && t[|t| - 2] == '\r' && t[|t| - 1] == '\n' {
      UniversalHasNoCR(t[..|t| - 2]);
    } else {
      UniversalHasNoCR(t[..|t| - 1]);
    }
  }

  lemma {:induction false} UniversalSnoc(t: string, c: char)
    requires c != '\r' && (c == '\n' && t != "" ==> t[|t| - 1] != '\r')
    ensures Universal(t + [c]) == Universal(t) + [c]
  {
    assert (t + [c])[..|t|] == t;
  }

  // Text that brings no carriage return passes through unchanged.
  lemma {:induction false} UniversalAppend(a: string, b: string)
    requires '\r' !in b && (b != "" ==> b[0] != '\n')
    ensures Universal(a + b) == Universal(a) + b
  {
    hide Universal;
    if b == "" {
      assert a + b == a;
      assert Universal(a) + b == Universal(a);
    } else {
      var n, w := |b| - 1, b[..|b| - 1];
      UniversalAppend(a, w);
      assert n > 0 ==> (a + w)[|a + w| - 1] == b[n - 1];
      UniversalSnoc(a + w, b[n]);
      assert a + w + [b[n]] == a + b;
      assert Universal(a) + w + [b[n]] == Universal(a) + b;
    }
  }

  lemma UniversalEmpty()
    ensures Universal("") == ""
  {
  }

  lemma {:induction false} UniversalPlain(t: string)
    requires '\r' !in t
    ensures Universal(t) == t
  {
    hide Universal;
    if t == "" {
      UniversalEmpty();
    } else {
      var w, c := t[..|t| - 1], t[|t| - 1];
      UniversalPlain(w);
      UniversalSnoc(w, c);
      assert w + [c] == t;
    }
  }

  // str.splitlines
  function SplitLines(text: string): seq<string> {
    var c := CutOf(Universal(text), IsSep);
    if c.tail == "" then c.done else c.done + [c.tail]
  }

  // Reading a pipe in text mode does not change the lines.
  lemma UniversalIsInvisible(text: string)
    ensures SplitLines(Universal(text)) == SplitLines(text)
  {
    UniversalHasNoCR(text);
    UniversalPlain(Universal(text));
  }

  // ----- patterns

  // Where the run of p-characters from i on ends.
  function RunEnd(line: string, i: nat, p: char -> bool): (j: nat)
    requires i <= |line|
    ensures i <= j <= |line| && (j < |line| ==> !p(line[j]))
    ensures forall k | i <= k < j :: p(line[k])
    decreases |line| - i
  {
    if i < |line| && p(line[i]) then RunEnd(line, i + 1, p) else i
  }

  predicate At(line: string, i: int, w: string) {
    0 <= i && i + |w| <= |line| && line[i..i + |w|] == w
  }

  // \b
  predicate Edge(line: string, i: int)
    requires 0 <= i <= |line|
  {
    (i > 0 && IsWord(line[i - 1])) != (i < |line| && IsWord(line[i]))
  }

  const PREFIX := "asserted="

  // ^\s*asserted=
  predicate IsForged(line: string) { At(line, RunEnd(line, 0, IsSpace), PREFIX) }

  predicate WordAt(line: string, i: int, w: string) {
    At(line, i, w) && Edge(line, i) && Edge(line, i + |w|)
  }

  const VERDICTS := ["PASS", "PASSED", "FAIL", "FAILED", "FAILURE", "FAILURES", "MISMATCH", "DIVERGENCE"]

  predicate IsVerdict(line: string) {
    exists i, k | 0 <= i < |line| && 0 <= k < |VERDICTS| :: WordAt(line, i, VERDICTS[k])
  }

  // A SKIP or SKIPPED that starts the line, or SKIPPED as a word anywhere.
  predicate IsSkip(line: string) {
    var i := RunEnd(line, 0, IsSpace);
    || (At(line, i, "SKIP") && Edge(line, i + 4))
    || (At(line, i, "SKIPPED") && Edge(line, i + 7))
    || exists k | 0 <= k < |line| :: WordAt(line, k, "SKIPPED")
  }

  function DigitOf(c: char): nat
    requires IsDigit(c)
  {
    c as int - '0' as int
  }

  function Value(ds: string): nat
    requires forall i | 0 <= i < |ds| :: IsDigit(ds[i])
  {
    if ds == "" then 0 else 10 * Value(ds[..|ds| - 1]) + DigitOf(ds[|ds| - 1])
  }

  // ----- the two count markers

  // <key><digits><mid><digits>\b at i; the first number.
  function Numbers(line: string, i: nat, key: string, mid: string): Option<nat> {
    if !At(line, i, key) then None
    else
      var a := i + |key|;
      var b := RunEnd(line, a, IsDigit);
      if a == b || !At(line, b, mid) then None
      else
        var c := b + |mid|;
        var d := RunEnd(line, c, IsDigit);
        if c == d || !Edge(line, d) then None else Some(Value(line[a..b]))
  }

  // ^\s*SDLC-GATE \S+ ran=(\d+) fail=\d+\b
  function SdlcMarker(line: string): Option<nat> {
    var i := RunEnd(line, 0, IsSpace);
    if !At(line, i, "SDLC-GATE ") then None
    else
      var a := i + |"SDLC-GATE "|;
      var b := RunEnd(line, a, NotSpace);
      if a == b then None else Numbers(line, b, " ran=", " fail=")
  }

  // \bscored=(\d+) divergences=\d+\b, the leftmost match from i on
  function ScoredMarker(line: string, i: nat): Option<nat>
    requires i <= |line|
    decreases |line| - i
  {
    if i == |line| then None
    else
      var m := if Edge(line, i) then Numbers(line, i, "scored=", " divergences=") else None;
      if m.Some? then m else ScoredMarker(line, i + 1)
  }

  // ----- what the marker patterns match

  ghost predicate All(line: string, i: int, j: int, p: char -> bool) {
    0 <= i < j <= |line| && forall k | i <= k < j :: p(line[k])
  }

  // A match of <key>(\d+)<mid>\d+\b at i with the groups ending at b and d.
  ghost predicate NumbersMatch(line: string, i: int, b: int, d: int, key: string, mid: string) {
    && At(line, i, key) && All(line, i + |key|, b, IsDigit)
    && At(line, b, mid) && All(line, b + |mid|, d, IsDigit) && Edge(line, d)
  }

  lemma RunEndIs(line: string, i: nat, j: nat, p: char -> bool)
    requires i <= j <= |line| && (forall k | i <= k < j :: p(line[k])) && (j < |line| ==> !p(line[j]))
    ensures RunEnd(line, i, p) == j
  {
  }

  lemma AtFirst(line: string, i: nat, w: string)
    requires At(line, i, w) && w != ""
    ensures line[i] == w[0]
  {
    assert line[i] == line[i..i + |w|][0];
  }

  // Every way the pattern can match gives the number the function finds.
  lemma NumbersComplete(line: string, i: nat, b: nat, d: nat, key: string, mid: string)
    requires NumbersMatch(line, i, b, d, key, mid) && mid != "" && !IsDigit(mid[0])
    ensures Numbers(line, i, key, mid) == Some(Value(line[i + |key|..b]))
  {
    var a, c := i + |key|, b + |mid|;
    assert line[b..c][0] == mid[0];
    RunEndIs(line, a, b, IsDigit);
    assert IsDigit(line[d - 1]);
    RunEndIs(line, c, d, IsDigit);
  }

  lemma NumbersSound(line: string, i: nat, key: string, mid: string) returns (b: nat, d: nat)
    requires Numbers(line, i, key, mid).Some?
    ensures NumbersMatch(line, i, b, d, key, mid)
  {
    b := RunEnd(line, i + |key|, IsDigit);
    d := RunEnd(line, b + |mid|, IsDigit);
  }

  ghost predicate SdlcMatch(line: string, i: int, e: int, b: int, d: int) {
    && 0 <= i <= |line| && (forall k | 0 <= k < i :: IsSpace(line[k])) && At(line, i, "SDLC-GATE ")
    && All(line, i + 10, e, NotSpace) && NumbersMatch(line, e, b, d, " ran=", " fail=")
  }

  lemma SdlcComplete(line: string, i: nat, e: nat, b: nat, d: nat)
    requires SdlcMatch(line, i, e, b, d)
    ensures SdlcMarker(line) == Some(Value(line[e + 5..b]))
  {
    hide Numbers, Value;
    AtFirst(line, i, "SDLC-GATE ");
    RunEndIs(line, 0, i, IsSpace);
    AtFirst(line, e, " ran=");
    RunEndIs(line, i + 10, e, NotSpace);
    NumbersComplete(line, e, b, d, " ran=", " fail=");
  }

  lemma SdlcSound(line: string) returns (i: nat, e: nat, b: nat, d: nat)
    requires SdlcMarker(line).Some?
    ensures SdlcMatch(line, i, e, b, d)
  {
    i := RunEnd(line, 0, IsSpace);
    e := RunEnd(line, i + 10, NotSpace);
    b, d := NumbersSound(line, e, " ran=", " fail=");
  }

  ghost predicate ScoredAt(line: string, p: int) {
    0 <= p < |line| && Edge(line, p) && Numbers(line, p, "scored=", " divergences=").Some?
  }

  // The search finds the leftmost match.
  lemma {:induction false} ScoredLeftmost(line: string, i: nat, p: nat)
    requires i <= p && ScoredAt(line, p) && forall q | i <= q < p :: !ScoredAt(line, q)
    ensures ScoredMarker(line, i) == Numbers(line, p, "scored=", " divergences=")
    decreases p - i
  {
    hide Numbers;
    if i < p {
      assert !ScoredAt(line, i);
      ScoredLeftmost(line, i + 1, p);
    }
  }

  lemma {:induction false} ScoredNone(line: string, i: nat)
    requires i <= |line|
    ensures ScoredMarker(line, i).None? <==> forall q | i <= q < |line| :: !ScoredAt(line, q)
    decreases |line| - i
  {
    hide Numbers;
    if i < |line| {
      ScoredNone(line, i + 1);
      if ScoredMarker(line, i).None? {
        assert !ScoredAt(line, i);
      } else if ScoredMarker(line, i + 1).None? {
        assert ScoredAt(line, i);
      }
    }
  }

  // ----- what a line counts as

  datatype Kind = Forged | Marker(n: nat) | Verdict | Plain

  function Classify(line: string): Kind {
    if IsForged(line) then Forged
    else if SdlcMarker(line).Some? then Marker(SdlcMarker(line).value)
    else if ScoredMarker(line, 0).Some? then Marker(ScoredMarker(line, 0).value)
    else if IsVerdict(line) then Verdict
    else Plain
  }

  // ----- the count line

  // Where white space at the end of s starts, looking no lower than lo.
  function LastEnd(s: string, lo: nat): (j: nat)
    requires lo <= |s|
    ensures lo <= j <= |s| && (lo < j ==> !IsSpace(s[j - 1]))
    ensures forall k | j <= k < |s| :: IsSpace(s[k])
  {
    if lo < |s| && IsSpace(s[|s| - 1]) then LastEnd(s[..|s| - 1], lo) else |s|
  }

  // str.strip
  function Strip(s: string): string {
    var i := RunEnd(s, 0, IsSpace);
    s[i..LastEnd(s, i)]
  }

  predicate Blank(s: string) { forall i | 0 <= i < |s| :: IsSpace(s[i]) }

  lemma StripIs(s: string, i: nat, j: nat)
    requires i < j <= |s| && !IsSpace(s[i]) && !IsSpace(s[j - 1])
    requires (forall k | 0 <= k < i :: IsSpace(s[k])) && forall k | j <= k < |s| :: IsSpace(s[k])
    ensures Strip(s) == s[i..j] && RunEnd(s, 0, IsSpace) == i
  {
    RunEndIs(s, 0, i, IsSpace);
    assert LastEnd(s, i) == j;
  }

  // digit (_? digit)*
  function Numeral(s: string): Option<nat> {
    if s == "" || !IsDigit(s[|s| - 1]) then None
    else
      var d := DigitOf(s[|s| - 1]);
      if |s| == 1 then Some(d)
      else
        var rest := if s[|s| - 2] == '_' then s[..|s| - 2] else s[..|s| - 1];
        match Numeral(rest)
        case None => None
        case Some(v) => Some(10 * v + d)
  }

  // int(s) for text without white space around it.
  function ParseInt(s: string): Option<int> {
    if s != "" && (s[0] == '-' || s[0] == '+')
    then
      match Numeral(s[1..])
      case None => None
      case Some(v) => if s[0] == '-' then Some(-(v as int)) else Some(v as int)
    else
      match Numeral(s)
      case None => None
      case Some(v) => Some(v)
  }

  function ShowNat(m: nat): (s: string)
    ensures s != ""
  {
    var c := ('0' as int + m % 10) as char;
    if m < 10 then [c] else ShowNat(m / 10) + [c]
  }

  function Show(n: int): string { if n < 0 then "-" + ShowNat(-n) else ShowNat(n) }

  lemma {:induction false} NumeralOfShow(m: nat)
    ensures Numeral(ShowNat(m)) == Some(m) && forall i | 0 <= i < |ShowNat(m)| :: IsDigit(ShowNat(m)[i])
  {
    if m >= 10 {
      NumeralOfShow(m / 10);
      var s, r := ShowNat(m), ShowNat(m / 10);
      assert s[..|s| - 1] == r;
      assert s[|s| - 2] == r[|r| - 1];
    }
  }

  // Printing a count and reading it back gives the count.
  lemma ParseOfShow(n: int)
    ensures ParseInt(Show(n)) == Some(n)
    ensures Show(n) != "" && forall i | 0 <= i < |Show(n)| :: IsDigit(Show(n)[i]) || Show(n)[i] == '-'
  {
    var m := if n < 0 then -n else n;
    NumeralOfShow(m);
    if n < 0 {
      assert Show(n)[1..] == ShowNat(m);
    } else {
      assert IsDigit(ShowNat(m)[0]);
    }
  }

  // Only digits, underscores and a sign make an integer.
  lemma {:induction false} NumeralChars(s: string, k: nat)
    requires Numeral(s).Some? && k < |s|
    ensures IsDigit(s[k]) || s[k] == '_'
  {
    if k < |s| - 1 {
      if s[|s| - 2] == '_' {
        if k < |s| - 2 {
          NumeralChars(s[..|s| - 2], k);
        }
      } else {
        NumeralChars(s[..|s| - 1], k);
      }
    }
  }

  // What the runner makes of one line.
  datatype Reading = NotCount | Count(n: int) | Malformed

  function ReadLine(line: string): Reading {
    var s := Strip(line);
    if !At(s, 0, PREFIX) then NotCount
    else
      match ParseInt(Strip(s[|PREFIX|..]))
      case None => Malformed
      case Some(n) => Count(n)
  }
}
