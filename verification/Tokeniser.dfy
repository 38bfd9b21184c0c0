/** Splitting text into tokens with `strtok` (section 7.24.5.8 of ISO/IEC 9899:2011). */
module Tokeniser {
  import opened Keys
  import opened Wrappers

  type Text = seq<Byte>

  /** The delimiter string of terms ends at its NUL: space, comma, dot, hyphen. */
  const TERM_DELIMITERS: set<Byte> := {32, 44, 46, 45}
  const SENTENCE_DELIMITERS: set<Byte> := {46, 33, 63}
  const MAX_SHORT_LENGTH := 7

  // ---------- maximal runs ----------

  /** The bytes of a text from `start` to before `end`. */
  datatype Run = Run(start: nat, end: nat)

  /** `[a, b)` is a maximal run of non-delimiters. */
  ghost predicate IsRun(s: Text, delims: set<Byte>, a: nat, b: nat) {
    && a < b <= |s|
    && (forall i :: a <= i < b ==> s[i] !in delims)
    && (a == 0 || s[a - 1] in delims)
    && (b == |s| || s[b] in delims)
  }

  /** First position from `pos` on that is a delimiter, or is not one. */
  function Scan(s: Text, delims: set<Byte>, pos: nat, delimiter: bool): (r: nat)
    requires pos <= |s|
    ensures pos <= r <= |s|
    ensures forall i :: pos <= i < r ==> (s[i] in delims) != delimiter
    ensures r < |s| ==> (s[r] in delims) == delimiter
    decreases |s| - pos
  {
    if pos == |s| || (s[pos] in delims) == delimiter then pos else Scan(s, delims, pos + 1, delimiter)
  }

  /** The first such position is the only one. */
  lemma ScanIs(s: Text, delims: set<Byte>, pos: nat, delimiter: bool, r: nat)
    requires pos <= r <= |s| && (forall i :: pos <= i < r ==> (s[i] in delims) != delimiter)
    requires r < |s| ==> (s[r] in delims) == delimiter
    ensures Scan(s, delims, pos, delimiter) == r
  {
    var found := Scan(s, delims, pos, delimiter);
    if r < |s| {
      var here := s[r] in delims;
    }
    if found < |s| {
      var there := s[found] in delims;
    }
  }

  /** The runs that successive `strtok` calls return from `pos` on. */
  function Runs(s: Text, delims: set<Byte>, pos: nat): seq<Run>
    requires pos <= |s|
    decreases |s| - pos
  {
    var a := Scan(s, delims, pos, false);
    if a == |s| then []
    else
      var b := Scan(s, delims, a, true);
      [Run(a, b)] + Runs(s, delims, if b == |s| then b else b + 1)
  }

  ghost predicate InOrder(runs: seq<Run>, pos: nat) {
    && (forall i :: 0 <= i < |runs| ==> pos <= runs[i].start < runs[i].end)
    && (forall i, j :: 0 <= i < j < |runs| ==> runs[i].end < runs[j].start)
  }

  /** What the first call finds is a maximal run. */
  lemma FirstIsRun(s: Text, delims: set<Byte>, pos: nat)
    requires pos <= |s| && (pos == 0 || pos == |s| || s[pos - 1] in delims)
    requires Scan(s, delims, pos, false) < |s|
    ensures var a := Scan(s, delims, pos, false); IsRun(s, delims, a, Scan(s, delims, a, true))
  {
  }

  /** Every other maximal run starts behind the first one. */
  lemma {:induction false} OthersFollow(s: Text, delims: set<Byte>, pos: nat, run: Run)
    requires pos <= run.start && IsRun(s, delims, run.start, run.end)
    ensures var a := Scan(s, delims, pos, false);
      a < |s| && (run == Run(a, Scan(s, delims, a, true)) || Scan(s, delims, a, true) < run.start)
  {
    var a, x, y := Scan(s, delims, pos, false), run.start, run.end;
    var inside := s[x] in delims;
    var b := Scan(s, delims, a, true);
    if x == a {
      var end := if y < |s| then s[y] in delims else true;
      var end' := if b < |s| then s[b] in delims else true;
    } else {
      var before := s[x - 1] in delims;
    }
  }

  lemma {:induction false} RunsInOrder(s: Text, delims: set<Byte>, pos: nat)
    requires pos <= |s|
    ensures InOrder(Runs(s, delims, pos), pos)
    decreases |s| - pos
  {
    var a := Scan(s, delims, pos, false);
    if a < |s| {
      var b := Scan(s, delims, a, true);
      RunsInOrder(s, delims, if b == |s| then b else b + 1);
    }
  }

  lemma RunsHead(s: Text, delims: set<Byte>, pos: nat)
    requires pos <= |s|
    ensures var a := Scan(s, delims, pos, false);
      if a == |s| then Runs(s, delims, pos) == []
      else
        var b := Scan(s, delims, a, true);
        Runs(s, delims, pos) == [Run(a, b)] + Runs(s, delims, if b == |s| then b else b + 1)
  {
  }

  /** What is returned is a maximal run. */
  lemma {:induction false} RunsAreRuns(s: Text, delims: set<Byte>, pos: nat, run: Run)
    requires pos <= |s| && (pos == 0 || pos == |s| || s[pos - 1] in delims) && run in Runs(s, delims, pos)
    ensures pos <= run.start && IsRun(s, delims, run.start, run.end)
    decreases |s| - pos
  {
    hide IsRun, Runs, Scan;
    RunsHead(s, delims, pos);
    var a := Scan(s, delims, pos, false);
    var b := Scan(s, delims, a, true);
    FirstIsRun(s, delims, pos);
    if run != Run(a, b) {
      RunsAreRuns(s, delims, if b == |s| then b else b + 1, run);
    }
  }

  /** Every maximal run is returned. */
  lemma {:induction false} AllRunsReturned(s: Text, delims: set<Byte>, pos: nat, run: Run)
    requires pos <= |s| && pos <= run.start && IsRun(s, delims, run.start, run.end)
    ensures run in Runs(s, delims, pos)
    decreases |s| - pos
  {
    hide IsRun, Runs, Scan;
    OthersFollow(s, delims, pos, run);
    RunsHead(s, delims, pos);
    var a := Scan(s, delims, pos, false);
    var b := Scan(s, delims, a, true);
    if run != Run(a, b) {
      RunInside(s, delims, run);
      AllRunsReturned(s, delims, b + 1, run);
    }
  }

  lemma {:induction false} RunInside(s: Text, delims: set<Byte>, run: Run)
    requires IsRun(s, delims, run.start, run.end)
    ensures run.start < |s|
  {
  }

  /** Exactly the maximal runs are returned. */
  lemma {:induction false} RunsAreMaximal(s: Text, delims: set<Byte>, pos: nat, run: Run)
    requires pos <= |s| && (pos == 0 || pos == |s| || s[pos - 1] in delims)
    ensures run in Runs(s, delims, pos) <==> pos <= run.start && IsRun(s, delims, run.start, run.end)
  {
    hide IsRun, Runs;
    if run in Runs(s, delims, pos) {
      RunsAreRuns(s, delims, pos, run);
    }
    if pos <= run.start && IsRun(s, delims, run.start, run.end) {
      AllRunsReturned(s, delims, pos, run);
    }
  }

  // ---------- tokens ----------

  function Token(s: Text, run: Run): Text {
    if run.start <= run.end <= |s| then s[run.start..run.end] else []
  }

  function TokensOf(s: Text, runs: seq<Run>): (r: seq<Text>)
    ensures |r| == |runs|
  {
    seq(|runs|, i requires 0 <= i < |runs| => Token(s, runs[i]))
  }

  function Tokens(s: Text, delims: set<Byte>): seq<Text> {
    TokensOf(s, Runs(s, delims, 0))
  }

  /** Bytes that are no delimiters, in order. */
  ghost function Strip(s: Text, delims: set<Byte>): Text {
    if s == [] then [] else Strip(s[..|s|-1], delims) + (if s[|s|-1] in delims then [] else [s[|s|-1]])
  }

  ghost function Join(ts: seq<Text>): Text {
    if ts == [] then [] else ts[0] + Join(ts[1..])
  }

  ghost predicate DelimiterFree(t: Text, delims: set<Byte>) {
    forall i :: 0 <= i < |t| ==> t[i] !in delims
  }

  /** Tokens are non-empty, free of delimiters, and occur in the text. */
  lemma TokensAreRuns(s: Text, delims: set<Byte>, i: nat)
    requires i < |Tokens(s, delims)|
    ensures var t := Tokens(s, delims)[i]; t != [] && DelimiterFree(t, delims) && Occurs(s, t)
  {
    var run := Runs(s, delims, 0)[i];
    RunsAreMaximal(s, delims, 0, run);
    assert run in Runs(s, delims, 0);
    assert IsRun(s, delims, run.start, run.end);
    assert OccursAt(s, Tokens(s, delims)[i], run.start);
  }

  /** `t` occurs in `s`, as `strstr` finds it. */
  predicate OccursAt(s: Text, t: Text, i: nat) {
    i + |t| <= |s| && s[i..i + |t|] == t
  }

  predicate Occurs(s: Text, t: Text) {
    exists i :: 0 <= i <= |s| && OccursAt(s, t, i)
  }

  lemma StripDelimiters(s: Text, delims: set<Byte>, a: nat, b: nat, delimiter: bool)
    requires a <= b <= |s| && forall i :: a <= i < b ==> (s[i] in delims) == delimiter
    ensures Strip(s[..b], delims) == Strip(s[..a], delims) + (if delimiter then [] else s[a..b])
    decreases b
  {
    if a < b {
      StripDelimiters(s, delims, a, b - 1, delimiter);
      assert s[..b][..b-1] == s[..b-1] && s[a..b] == s[a..b-1] + [s[b-1]];
    }
  }

  /** The tokens joined are the text without its delimiters. */
  lemma JoinedTokens(s: Text, delims: set<Byte>)
    ensures Join(Tokens(s, delims)) == Strip(s, delims)
  {
    JoinedFrom(s, delims, 0);
    assert s[..0] == [];
  }

  lemma {:induction false} TokensHead(s: Text, run: Run, rest: seq<Run>)
    ensures TokensOf(s, [run] + rest) == [Token(s, run)] + TokensOf(s, rest)
    ensures Join(TokensOf(s, [run] + rest)) == Token(s, run) + Join(TokensOf(s, rest))
  {
  }

  lemma {:induction false} JoinedFrom(s: Text, delims: set<Byte>, pos: nat)
    requires pos <= |s|
    ensures Strip(s[..pos], delims) + Join(TokensOf(s, Runs(s, delims, pos))) == Strip(s, delims)
    decreases |s| - pos
  {
    hide Strip, Join, TokensOf;
    assert s[..|s|] == s;
    var a := Scan(s, delims, pos, false);
    StripDelimiters(s, delims, pos, a, true);
    NoTokens(s);
    if a < |s| {
      var b := Scan(s, delims, a, true);
      StripDelimiters(s, delims, a, b, false);
      var next := if b == |s| then b else b + 1;
      TokensHead(s, Run(a, b), Runs(s, delims, next));
      StripDelimiters(s, delims, b, next, true);
      JoinedFrom(s, delims, next);
      JoinStep(Strip(s[..pos], delims), s[a..b], Join(TokensOf(s, Runs(s, delims, next))));
    }
  }

  lemma JoinStep(before: Text, token: Text, rest: Text)
    ensures before + (token + rest) == before + token + rest
  {
  }

  lemma NoTokens(s: Text)
    ensures TokensOf(s, []) == [] && Join([]) == []
  {
  }

  ghost function ShortOnes(ts: seq<Text>): seq<Text> {
    if ts == [] then [] else
      ShortOnes(ts[..|ts|-1]) + (if |ts[|ts|-1]| <= MAX_SHORT_LENGTH then [ts[|ts|-1]] else [])
  }

  // ---------- selections ----------

  ghost predicate Increasing(s: seq<nat>) {
    forall i, j :: 0 <= i < j < |s| ==> s[i] < s[j]
  }

  /** `r` is what stands in `s` at the given positions, in order. */
  ghost predicate Selects<T>(r: seq<T>, s: seq<T>, positions: seq<nat>) {
    && |r| == |positions| && Increasing(positions)
    && forall i :: 0 <= i < |r| ==> positions[i] < |s| && r[i] == s[positions[i]]
  }

  /** The positions are those of the texts of at most seven bytes. */
  ghost predicate OfShort(positions: seq<nat>, ts: seq<Text>) {
    forall x: nat :: x in positions <==> x < |ts| && |ts[x]| <= 7
  }

  /** `r` holds the texts of at most seven bytes, each as often and in the order as in `ts`. */
  ghost predicate AreShort(r: seq<Text>, ts: seq<Text>) {
    exists positions :: Selects(r, ts, positions) && OfShort(positions, ts)
  }

  lemma {:induction false} ShortPositions(ts: seq<Text>) returns (positions: seq<nat>)
    ensures Selects(ShortOnes(ts), ts, positions) && OfShort(positions, ts)
  {
    if ts == [] {
      positions := [];
    } else {
      var last := |ts| - 1;
      positions := ShortPositions(ts[..last]);
      OneMoreText(ShortOnes(ts[..last]), ts, positions);
      if |ts[last]| <= 7 {
        positions := positions + [last];
      }
    }
  }

  lemma {:induction false} OneMoreText(r: seq<Text>, ts: seq<Text>, positions: seq<nat>)
    requires ts != [] && Selects(r, ts[..|ts|-1], positions) && OfShort(positions, ts[..|ts|-1])
    ensures if |ts[|ts|-1]| <= 7 then
      Selects(r + [ts[|ts|-1]], ts, positions + [|ts|-1]) && OfShort(positions + [|ts|-1], ts)
      else Selects(r, ts, positions) && OfShort(positions, ts)
  {
    var last := |ts| - 1;
    assert forall i :: 0 <= i < |positions| ==> positions[i] in positions && positions[i] < last;
    forall x: nat
      ensures x in positions + [last] <==> x in positions || x == last
    {
    }
  }

  lemma {:induction false} ShortOnesExact(ts: seq<Text>)
    ensures AreShort(ShortOnes(ts), ts)
  {
    var positions := ShortPositions(ts);
  }

  /** A byte belongs to some term exactly if it is no space, comma, dot or hyphen. */
  lemma {:induction false} TermBytes(s: Text, i: nat)
    requires i < |s|
    ensures (exists run :: run in Runs(s, TERM_DELIMITERS, 0) && run.start <= i < run.end)
       <==> s[i] != 32 && s[i] != 44 && s[i] != 46 && s[i] != 45
  {
    RunAround(s, TERM_DELIMITERS, i);
  }

  /** and to some sentence exactly if it is no dot, exclamation or question mark. */
  lemma {:induction false} SentenceBytes(s: Text, i: nat)
    requires i < |s|
    ensures (exists run :: run in Runs(s, SENTENCE_DELIMITERS, 0) && run.start <= i < run.end)
       <==> s[i] != 46 && s[i] != 33 && s[i] != 63
  {
    RunAround(s, SENTENCE_DELIMITERS, i);
  }

  lemma {:induction false} RunAround(s: Text, delims: set<Byte>, i: nat)
    requires i < |s|
    ensures (exists run :: run in Runs(s, delims, 0) && run.start <= i < run.end) <==> s[i] !in delims
  {
    hide Runs;
    forall run | run in Runs(s, delims, 0) && run.start <= i < run.end
      ensures s[i] !in delims
    {
      RunsAreMaximal(s, delims, 0, run);
    }
    if s[i] !in delims {
      var run := MaximalRun(s, delims, i);
      RunsAreMaximal(s, delims, 0, run);
    }
  }

  lemma {:induction false} MaximalRun(s: Text, delims: set<Byte>, i: nat) returns (run: Run)
    requires i < |s| && s[i] !in delims
    ensures IsRun(s, delims, run.start, run.end) && run.start <= i < run.end
  {
    var a, b := i, i + 1;
    while a > 0 && s[a - 1] !in delims
      invariant 0 <= a <= i && forall j :: a <= j <= i ==> s[j] !in delims
    {
      a := a - 1;
    }
    while b < |s| && s[b] !in delims
      invariant i < b <= |s| && forall j :: i <= j < b ==> s[j] !in delims
    {
      b := b + 1;
    }
    run := Run(a, b);
  }

  // ---------- the tokenisers ----------

  /** What is still to come after a call that returned `run`. */
  ghost function Pending(s: Text, delims: set<Byte>, run: Option<Run>, next: nat): seq<Run>
    requires next <= |s|
  {
    if run == None then [] else [run.value] + Runs(s, delims, next)
  }

  /** One `strtok` call: skip delimiters, take the token, step over the delimiter that ends it. */
  method Strtok(s: Text, delims: set<Byte>, pos: nat) returns (run: Option<Run>, next: nat)
    requires pos <= |s|
    ensures pos <= next <= |s| && (run.Some? ==> pos < next && run.value.start <= run.value.end <= |s|)
    ensures Pending(s, delims, run, next) == Runs(s, delims, pos)
  {
    hide Runs;
    var a := pos;
    while a < |s| && s[a] in delims
      invariant pos <= a <= |s| && Scan(s, delims, pos, false) == Scan(s, delims, a, false)
    {
      a := a + 1;
    }
    RunsHead(s, delims, pos);
    if a == |s| {
      return None, pos;
    }
    var b := a;
    while b < |s| && s[b] !in delims
      invariant a <= b <= |s| && Scan(s, delims, a, true) == Scan(s, delims, b, true)
    {
      b := b + 1;
    }
    return Some(Run(a, b)), if b == |s| then b else b + 1;
  }

  /** The tokens of a text: its terms, or its sentences. */
  method Tokenise(s: Text, delims: set<Byte>) returns (tokens: seq<Text>)
    ensures tokens == Tokens(s, delims)
  {
    hide Runs;
    tokens := [];
    ghost var done: seq<Run> := [];
    var run, pos := Strtok(s, delims, 0);
    while run != None
      invariant pos <= |s| && (run.Some? ==> run.value.start <= run.value.end <= |s|)
      invariant Runs(s, delims, 0) == done + Pending(s, delims, run, pos)
      invariant tokens == TokensOf(s, done)
      decreases run.Some?, |s| - pos
    {
      tokens := tokens + [s[run.value.start..run.value.end]];
      done := done + [run.value];
      run, pos := Strtok(s, delims, pos);
    }
    assert done + [] == done;
  }

  /** The tokens of at most seven bytes. */
  method ShortTerms(s: Text) returns (tokens: seq<Text>)
    ensures AreShort(tokens, Tokens(s, TERM_DELIMITERS))
  {
    hide Runs;
    tokens := [];
    ghost var done: seq<Run> := [];
    var run, pos := Strtok(s, TERM_DELIMITERS, 0);
    while run != None
      invariant pos <= |s| && (run.Some? ==> run.value.start <= run.value.end <= |s|)
      invariant Runs(s, TERM_DELIMITERS, 0) == done + Pending(s, TERM_DELIMITERS, run, pos)
      invariant tokens == ShortOnes(TokensOf(s, done))
      decreases run.Some?, |s| - pos
    {
      var term := s[run.value.start..run.value.end];
      if |term| <= MAX_SHORT_LENGTH {
        tokens := tokens + [term];
      }
      assert TokensOf(s, done + [run.value])[..|done|] == TokensOf(s, done);
      done := done + [run.value];
      run, pos := Strtok(s, TERM_DELIMITERS, pos);
    }
    assert done + [] == done;
    ShortOnesExact(Tokens(s, TERM_DELIMITERS));
  }
}
