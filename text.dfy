/** The Python string operations the core relies on: `str.isspace`,
    `str.strip`, `str.split()`, `re.split("[ ,]+", s)`, `sep.join(xs)`,
    string ordering and `sorted(set(xs))`. */
module Text {

  // ---------------------------------------------------------------------------
  // Whitespace and strip

  /** The characters for which Python's `str.isspace` holds. */
  predicate IsSpace(c: char) {
    || '\U{9}' <= c <= '\U{D}'
    || '\U{1C}' <= c <= '\U{20}'
    || c == '\U{85}' || c == '\U{A0}' || c == '\U{1680}'
    || '\U{2000}' <= c <= '\U{200A}'
    || c == '\U{2028}' || c == '\U{2029}' || c == '\U{202F}' || c == '\U{205F}' || c == '\U{3000}'
  }

  predicate AllSpace(s: string) {
    forall i :: 0 <= i < |s| ==> IsSpace(s[i])
  }

  /** `s.lstrip()`: `s` without its leading whitespace. */
  function StripLeft(s: string): (r: string)
    ensures |r| <= |s|
    ensures r != [] ==> !IsSpace(r[0])
    ensures forall i :: 0 <= i < |s| - |r| ==> IsSpace(s[i])
  {
    if s != [] && IsSpace(s[0]) then StripLeft(s[1..]) else s
  }

  /** What `s.lstrip()` keeps is where `s` ends. */
  lemma {:induction false} StripLeftSuffix(s: string)
    ensures StripLeft(s) == s[|s| - |StripLeft(s)|..]
  {
    if s != [] && IsSpace(s[0]) {
      StripLeftSuffix(s[1..]);
    }
  }

  /** `s.rstrip()`: `s` without its trailing whitespace. */
  function StripRight(s: string): (r: string)
    ensures |r| <= |s|
    ensures r == s[..|r|]
    ensures r != [] ==> !IsSpace(r[|r| - 1])
    ensures forall i :: |r| <= i < |s| ==> IsSpace(s[i])
    ensures s != [] && !IsSpace(s[0]) ==> r != []
  {
    if s != [] && IsSpace(s[|s| - 1]) then StripRight(s[..|s| - 1]) else s
  }

  /** `s.strip()`: `s` without its leading and trailing whitespace. */
  function Strip(s: string): (r: string)
    ensures r != [] ==> !IsSpace(r[0]) && !IsSpace(r[|r| - 1])
  {
    StripRight(StripLeft(s))
  }

  /** `s.strip()` is falsy exactly when every character of `s` is whitespace
      (so in particular when `s` is empty). */
  lemma {:induction false} StripEmptyIffBlank(s: string)
    ensures Strip(s) == "" <==> AllSpace(s)
  {
    var l := StripLeft(s);
    StripLeftSuffix(s);
    if l != [] {
      assert !IsSpace(l[0]);
      assert l[0] == s[|s| - |l|];
    }
  }

  // ---------------------------------------------------------------------------
  // Splitting

  /** No character of `s` is in `seps`. */
  predicate NoneIn(s: string, seps: set<char>) {
    forall i :: 0 <= i < |s| ==> s[i] !in seps
  }

  /** Every character of `s` is in `seps`. */
  predicate AllIn(s: string, seps: set<char>) {
    forall i :: 0 <= i < |s| ==> s[i] in seps
  }

  /** `s` with every character of `seps` deleted. */
  function Without(s: string, seps: set<char>): (r: string)
    ensures NoneIn(r, seps)
    ensures |r| <= |s|
  {
    if s == [] then []
    else (if s[0] in seps then [] else [s[0]]) + Without(s[1..], seps)
  }

  /** Deleting characters adds none. */
  lemma {:induction false} WithoutChars(s: string, seps: set<char>)
    ensures forall c :: c in Without(s, seps) ==> c in s
  {
    if s != [] {
      WithoutChars(s[1..], seps);
    }
  }

  lemma {:induction false} WithoutAppend(a: string, b: string, seps: set<char>)
    ensures Without(a + b, seps) == Without(a, seps) + Without(b, seps)
  {
    if a == [] {
      assert a + b == b;
    } else {
      assert (a + b)[1..] == a[1..] + b;
      WithoutAppend(a[1..], b, seps);
    }
  }

  lemma {:induction false} WithoutNoSeps(s: string, seps: set<char>)
    requires NoneIn(s, seps)
    ensures Without(s, seps) == s
  {
    if s != [] {
      WithoutNoSeps(s[1..], seps);
    }
  }

  lemma {:induction false} WithoutAllSeps(s: string, seps: set<char>)
    requires AllIn(s, seps)
    ensures Without(s, seps) == []
  {
    if s != [] {
      WithoutAllSeps(s[1..], seps);
    }
  }

  /** The concatenation of a list of strings, `"".join(xs)`. */
  function Concat(xs: seq<string>): string {
    if xs == [] then [] else xs[0] + Concat(xs[1..])
  }

  /** The longest prefix of `s` holding no separator. */
  function Word(s: string, seps: set<char>): (w: string)
    ensures |w| <= |s|
    ensures NoneIn(w, seps)
    ensures |w| < |s| ==> s[|w|] in seps
  {
    if s == [] || s[0] in seps then [] else [s[0]] + Word(s[1..], seps)
  }

  /** `s` without its leading run of separators. */
  function SkipRun(s: string, seps: set<char>): (t: string)
    ensures |t| <= |s|
    ensures AllIn(s[..|s| - |t|], seps)
    ensures t != [] ==> t[0] !in seps
  {
    if s != [] && s[0] in seps then SkipRun(s[1..], seps) else s
  }

  /** The word is where `s` starts. */
  lemma {:induction false} WordPrefix(s: string, seps: set<char>)
    ensures Word(s, seps) == s[..|Word(s, seps)|]
  {
    if s != [] && s[0] !in seps {
      WordPrefix(s[1..], seps);
      assert s[1..][..|Word(s[1..], seps)|] == s[1..|Word(s[1..], seps)| + 1];
    }
  }

  /** What is left after the leading run is where `s` ends. */
  lemma {:induction false} SkipRunSuffix(s: string, seps: set<char>)
    ensures SkipRun(s, seps) == s[|s| - |SkipRun(s, seps)|..]
  {
    if s != [] && s[0] in seps {
      SkipRunSuffix(s[1..], seps);
    }
  }

  /** A leading separator is always skipped. */
  lemma SkipRunShorter(s: string, seps: set<char>)
    requires s != [] && s[0] in seps
    ensures |SkipRun(s, seps)| < |s|
  {
  }

  /** `re.split("[" + seps + "]+", s)`: the pieces of `s` between maximal runs
      of separator characters. A leading (trailing) run gives an empty first
      (last) piece, and the empty string gives the single piece "". */
  function SplitRuns(s: string, seps: set<char>): (r: seq<string>)
    ensures |r| >= 1
    ensures s == [] ==> r == [""]
    decreases |s|
  {
    var w := Word(s, seps);
    if |w| == |s| then [w]
    else
      var rest := s[|w|..];
      SkipRunShorter(rest, seps);
      [w] + SplitRuns(SkipRun(rest, seps), seps)
  }

  /** The first piece is empty exactly when `s` is empty or starts with a
      separator. */
  lemma {:induction false} SplitRunsFirst(s: string, seps: set<char>)
    ensures SplitRuns(s, seps)[0] == "" <==> s == [] || s[0] in seps
  {
    var w := Word(s, seps);
    assert SplitRuns(s, seps)[0] == w;
    if w != [] {
      assert w[0] == s[0];
    }
  }

  /** No piece holds a separator. */
  lemma {:induction false} SplitRunsNoSeps(s: string, seps: set<char>)
    ensures forall i :: 0 <= i < |SplitRuns(s, seps)| ==> NoneIn(SplitRuns(s, seps)[i], seps)
    decreases |s|
  {
    var w := Word(s, seps);
    if |w| < |s| {
      var t := SkipRun(s[|w|..], seps);
      SplitRunsNoSeps(t, seps);
      var tail := SplitRuns(t, seps);
      var r := SplitRuns(s, seps);
      assert r == [w] + tail;
      assert forall i :: 0 < i < |r| ==> r[i] == tail[i - 1];
    }
  }

  /** Only the first and the last piece can be empty. */
  lemma {:induction false} SplitRunsInterior(s: string, seps: set<char>)
    ensures forall i :: 0 < i < |SplitRuns(s, seps)| - 1 ==> SplitRuns(s, seps)[i] != ""
    decreases |s|
  {
    var w := Word(s, seps);
    if |w| < |s| {
      var t := SkipRun(s[|w|..], seps);
      SplitRunsInterior(t, seps);
      var tail := SplitRuns(t, seps);
      var r := SplitRuns(s, seps);
      assert r == [w] + tail;
      assert forall i :: 0 < i < |r| ==> r[i] == tail[i - 1];
      if |tail| > 1 {
        assert t != [];
        SplitRunsFirst(t, seps);
      }
    }
  }

  /** Splitting loses nothing but separators: the pieces put back together
      are `s` with its separators deleted. */
  lemma {:induction false} SplitRunsConcat(s: string, seps: set<char>)
    ensures Concat(SplitRuns(s, seps)) == Without(s, seps)
    decreases |s|
  {
    var w := Word(s, seps);
    WordPrefix(s, seps);
    if |w| == |s| {
      assert s == w;
      WithoutNoSeps(w, seps);
      assert Concat([w]) == w + Concat([]);
    } else {
      var rest := s[|w|..];
      var t := SkipRun(rest, seps);
      assert s == w + rest;
      SplitStep(w, rest, t, seps);
      SplitRunsConcat(t, seps);
      var r := SplitRuns(s, seps);
      assert r == [w] + SplitRuns(t, seps);
      assert Concat(r) == w + Concat(SplitRuns(t, seps));
    }
  }

  /** `xs[0] + ys[0] + xs[1] + ... + ys[k - 1] + xs[k]`: the strings of `xs`
      with those of `ys` between them. */
  function Interleave(xs: seq<string>, ys: seq<string>): string
    requires |xs| == |ys| + 1
    decreases |ys|
  {
    if ys == [] then xs[0] else xs[0] + ys[0] + Interleave(xs[1..], ys[1..])
  }

  /** The leading run of separators of `s`. */
  function LeadingRun(s: string, seps: set<char>): string {
    s[..|s| - |SkipRun(s, seps)|]
  }

  /** The separator runs `re.split` cuts `s` at, in order. */
  function Runs(s: string, seps: set<char>): seq<string>
    decreases |s|
  {
    var w := Word(s, seps);
    if |w| == |s| then []
    else
      var rest := s[|w|..];
      SkipRunShorter(rest, seps);
      [LeadingRun(rest, seps)] + Runs(SkipRun(rest, seps), seps)
  }

  /** One step of `SplitRuns`: the first word, then the pieces of what
      follows the separator run after it. */
  lemma SplitRunsUnfold(s: string, seps: set<char>, w: string, t: string)
    requires w == Word(s, seps) && |w| < |s|
    requires t == SkipRun(s[|w|..], seps)
    ensures SplitRuns(s, seps) == [w] + SplitRuns(t, seps)
  {
  }

  /** One step of `Runs`: the run that starts `rest`, what follows the first
      word, then the runs of what follows that run. */
  lemma RunsUnfold(s: string, seps: set<char>, w: string, rest: string, t: string)
    requires w == Word(s, seps) && |w| < |s|
    requires rest == s[|w|..] && t == SkipRun(rest, seps)
    ensures Runs(s, seps) == [LeadingRun(rest, seps)] + Runs(t, seps)
  {
  }

  /** Any cut of a string puts it back together. */
  lemma SplitAt(x: string, k: nat)
    requires k <= |x|
    ensures x == x[..k] + x[k..]
  {
  }

  /** Concatenation is associative. */
  lemma Regroup(a: string, b: string, c: string)
    ensures a + (b + c) == a + b + c
  {
  }

  /** A text is its leading run of separators followed by the rest. */
  lemma LeadingRunSplit(s: string, seps: set<char>)
    ensures s == LeadingRun(s, seps) + SkipRun(s, seps)
  {
    SkipRunSuffix(s, seps);
    SplitAt(s, |s| - |SkipRun(s, seps)|);
  }

  /** One step of `Interleave`. */
  lemma InterleaveCons(x: string, xs: seq<string>, y: string, ys: seq<string>)
    requires |xs| == |ys| + 1
    ensures Interleave([x] + xs, [y] + ys) == x + y + Interleave(xs, ys)
  {
    assert ([x] + xs)[1..] == xs;
    assert ([y] + ys)[1..] == ys;
  }

  /** The separator run that starts `rest` is not empty, and what follows
      it is shorter than `rest`. */
  lemma StepRun(rest: string, seps: set<char>, t: string)
    requires rest != [] && rest[0] in seps
    requires t == SkipRun(rest, seps)
    ensures rest[..|rest| - |t|] != [] && AllIn(rest[..|rest| - |t|], seps) && |t| < |rest|
  {
    SkipRunShorter(rest, seps);
  }

  /** Where `re.split` cuts: `s` is its pieces with, between each two, a
      non-empty run of separators. Since no piece holds a separator, every
      run is maximal. */
  lemma {:induction false} SplitRunsRebuild(s: string, seps: set<char>)
    ensures |Runs(s, seps)| + 1 == |SplitRuns(s, seps)|
    ensures forall i :: 0 <= i < |Runs(s, seps)| ==> Runs(s, seps)[i] != [] && AllIn(Runs(s, seps)[i], seps)
    ensures s == Interleave(SplitRuns(s, seps), Runs(s, seps))
    decreases |s|
  {
    var w := Word(s, seps);
    WordPrefix(s, seps);
    if |w| == |s| {
      assert s == w;
    } else {
      var rest := s[|w|..];
      var t := SkipRun(rest, seps);
      var run := LeadingRun(rest, seps);
      SplitRunsUnfold(s, seps, w, t);
      RunsUnfold(s, seps, w, rest, t);
      assert s == w + run + t by {
        SplitAt(s, |w|);
        LeadingRunSplit(rest, seps);
        Regroup(w, run, t);
      }
      assert run != [] && AllIn(run, seps) && |t| < |s| by {
        assert rest[0] == s[|w|];
        StepRun(rest, seps, t);
      }
      SplitRunsRebuild(t, seps);
      RunsCons(s, w, run, t, SplitRuns(t, seps), Runs(t, seps), SplitRuns(s, seps), Runs(s, seps), seps);
    }
  }

  /** A word and a non-empty separator run in front of the pieces and runs
      of the rest keep the shape `SplitRunsRebuild` states. */
  lemma RunsCons(s: string, w: string, run: string, t: string, pieces: seq<string>, runs: seq<string>,
                 ps: seq<string>, rs: seq<string>, seps: set<char>)
    requires s == w + run + t && run != [] && AllIn(run, seps)
    requires |pieces| == |runs| + 1 && t == Interleave(pieces, runs)
    requires forall i :: 0 <= i < |runs| ==> runs[i] != [] && AllIn(runs[i], seps)
    requires ps == [w] + pieces && rs == [run] + runs
    ensures |rs| + 1 == |ps|
    ensures forall i :: 0 <= i < |rs| ==> rs[i] != [] && AllIn(rs[i], seps)
    ensures s == Interleave(ps, rs)
  {
    forall i | 0 < i < |rs|
      ensures rs[i] == runs[i - 1]
    {
    }
    InterleaveCons(w, pieces, run, runs);
  }

  /** One step of `SplitRuns`: a word `w`, then a run of separators that
      starts `rest`, then what follows the run, `t`. */
  lemma {:induction false} SplitStep(w: string, rest: string, t: string, seps: set<char>)
    requires NoneIn(w, seps)
    requires rest != [] && rest[0] in seps
    requires t == SkipRun(rest, seps)
    ensures Without(w + rest, seps) == w + Without(t, seps)
  {
    var run := rest[..|rest| - |t|];
    SkipRunSuffix(rest, seps);
    assert rest == run + t;
    assert Without(rest, seps) == Without(t, seps) by {
      WithoutAppend(run, t, seps);
      WithoutAllSeps(run, seps);
    }
    WithoutAppend(w, rest, seps);
    WithoutNoSeps(w, seps);
  }

  /** The words of `s` between runs of `seps`: skip a run of separators,
      read the word up to the next separator, and go on with what follows;
      stop when only separators are left. */
  function Words(s: string, seps: set<char>): seq<string>
    decreases |s|
  {
    var t := SkipRun(s, seps);
    if t == [] then []
    else
      var w := Word(t, seps);
      WordNonEmpty(t, seps);
      [w] + Words(t[|w|..], seps)
  }

  /** The separator runs `Words` skips: before the first word, between each
      two words, and after the last. */
  function Gaps(s: string, seps: set<char>): seq<string>
    decreases |s|
  {
    var t := SkipRun(s, seps);
    if t == [] then [s]
    else
      var w := Word(t, seps);
      WordNonEmpty(t, seps);
      [s[..|s| - |t|]] + Gaps(t[|w|..], seps)
  }

  /** `s.split()`: the words of `s` between runs of whitespace. */
  function SplitWhitespace(s: string): seq<string> {
    Words(s, Whitespace())
  }

  /** A text that does not start with a separator starts with a word. */
  lemma WordNonEmpty(s: string, seps: set<char>)
    requires s != [] && s[0] !in seps
    ensures Word(s, seps) != []
  {
  }

  /** The first gap is the leading run of separators. */
  lemma GapsFirst(s: string, seps: set<char>)
    ensures Gaps(s, seps) != [] && Gaps(s, seps)[0] == s[..|s| - |SkipRun(s, seps)|]
  {
  }

  /** A text made of separators only is skipped whole. */
  lemma {:induction false} SkipRunAll(s: string, seps: set<char>)
    requires AllIn(s, seps)
    ensures SkipRun(s, seps) == []
    decreases |s|
  {
    if s != [] {
      assert AllIn(s[1..], seps);
      SkipRunAll(s[1..], seps);
    }
  }

  /** Every word is non-empty and holds no separator. */
  lemma {:induction false} WordsShape(s: string, seps: set<char>)
    ensures forall i :: 0 <= i < |Words(s, seps)| ==> Words(s, seps)[i] != [] && NoneIn(Words(s, seps)[i], seps)
    decreases |s|
  {
    var t := SkipRun(s, seps);
    if t != [] {
      var w := Word(t, seps);
      WordNonEmpty(t, seps);
      var u := t[|w|..];
      WordsUnfold(s, seps, t, w);
      WordsShape(u, seps);
      WordsCons(w, Words(u, seps), seps);
    }
  }

  /** A non-empty word in front of a list of them. */
  lemma WordsCons(w: string, words: seq<string>, seps: set<char>)
    requires w != [] && NoneIn(w, seps)
    requires forall i :: 0 <= i < |words| ==> words[i] != [] && NoneIn(words[i], seps)
    ensures forall i :: 0 <= i < |[w] + words| ==> ([w] + words)[i] != [] && NoneIn(([w] + words)[i], seps)
  {
    forall i | 0 < i < |[w] + words|
      ensures ([w] + words)[i] == words[i - 1]
    {
    }
  }

  /** One step of `Words` and `Gaps`: the leading run, the first word, and
      the words and gaps of what follows the word. */
  lemma WordsUnfold(s: string, seps: set<char>, t: string, w: string)
    requires t == SkipRun(s, seps) && t != []
    requires w == Word(t, seps)
    ensures Words(s, seps) == [w] + Words(t[|w|..], seps)
    ensures Gaps(s, seps) == [s[..|s| - |t|]] + Gaps(t[|w|..], seps)
  {
  }

  /** A text that starts with a separator has a non-empty first gap. */
  lemma GapsFirstNonEmpty(u: string, seps: set<char>)
    requires u != [] && u[0] in seps
    ensures Gaps(u, seps)[0] != []
  {
    GapsFirst(u, seps);
    SkipRunShorter(u, seps);
  }

  /** A run of separators and a word in front of the gaps and words of the
      rest keep the shape `WordsRebuild` states. */
  lemma GapsCons(s: string, lead: string, w: string, u: string, gaps: seq<string>, words: seq<string>,
                 gs: seq<string>, ws: seq<string>, seps: set<char>)
    requires s == lead + (w + u) && AllIn(lead, seps)
    requires |gaps| == |words| + 1 && u == Interleave(gaps, words)
    requires forall i :: 0 <= i < |gaps| ==> AllIn(gaps[i], seps)
    requires forall i :: 0 < i < |gaps| - 1 ==> gaps[i] != []
    requires |gaps| > 1 ==> gaps[0] != []
    requires gs == [lead] + gaps && ws == [w] + words
    ensures |gs| == |ws| + 1
    ensures forall i :: 0 <= i < |gs| ==> AllIn(gs[i], seps)
    ensures forall i :: 0 < i < |gs| - 1 ==> gs[i] != []
    ensures s == Interleave(gs, ws)
  {
    forall i | 0 < i < |gs|
      ensures gs[i] == gaps[i - 1]
    {
    }
    Regroup(lead, w, u);
    InterleaveCons(lead, gaps, w, words);
  }

  /** A text that is one run of separators has no words and is its own
      only gap. */
  lemma WordsOfRun(s: string, seps: set<char>)
    requires SkipRun(s, seps) == []
    ensures Words(s, seps) == [] && Gaps(s, seps) == [s] && AllIn(s, seps)
  {
    assert s[..|s|] == s;
  }

  /** Where `Words` cuts: `s` is its words with separator gaps around and
      between them, the gaps between two words not empty. Since no word holds
      a separator, every gap is a maximal run. */
  lemma {:induction false} WordsRebuild(s: string, seps: set<char>)
    ensures |Gaps(s, seps)| == |Words(s, seps)| + 1
    ensures forall i :: 0 <= i < |Gaps(s, seps)| ==> AllIn(Gaps(s, seps)[i], seps)
    ensures forall i :: 0 < i < |Gaps(s, seps)| - 1 ==> Gaps(s, seps)[i] != []
    ensures s == Interleave(Gaps(s, seps), Words(s, seps))
    decreases |s|
  {
    var t := SkipRun(s, seps);
    var lead := s[..|s| - |t|];
    if t == [] {
      WordsOfRun(s, seps);
    } else {
      SkipRunSuffix(s, seps);
      SplitAt(s, |s| - |t|);
      var w := Word(t, seps);
      WordPrefix(t, seps);
      WordNonEmpty(t, seps);
      var u := t[|w|..];
      WordsUnfold(s, seps, t, w);
      WordsRebuild(u, seps);
      SplitAt(t, |w|);
      if u != [] {
        GapsFirstNonEmpty(u, seps);
      }
      GapsCons(s, lead, w, u, Gaps(u, seps), Words(u, seps), Gaps(s, seps), Words(s, seps), seps);
    }
  }

  /** One step of `Concat`. */
  lemma ConcatCons(x: string, xs: seq<string>)
    ensures Concat([x] + xs) == x + Concat(xs)
  {
    assert ([x] + xs)[1..] == xs;
  }

  /** Dropping a leading run of separators changes nothing once separators
      are deleted. */
  lemma WithoutSkipRun(s: string, seps: set<char>)
    ensures Without(s, seps) == Without(SkipRun(s, seps), seps)
  {
    var t := SkipRun(s, seps);
    var lead := s[..|s| - |t|];
    SkipRunSuffix(s, seps);
    SplitAt(s, |s| - |t|);
    WithoutAppend(lead, t, seps);
    WithoutAllSeps(lead, seps);
  }

  /** The words put back together are `s` with its separators deleted. */
  lemma {:induction false} WordsConcat(s: string, seps: set<char>)
    ensures Concat(Words(s, seps)) == Without(s, seps)
    decreases |s|
  {
    var t := SkipRun(s, seps);
    WithoutSkipRun(s, seps);
    if t != [] {
      var w := Word(t, seps);
      WordNonEmpty(t, seps);
      var u := t[|w|..];
      WordsUnfold(s, seps, t, w);
      WordsConcat(u, seps);
      WordPrefix(t, seps);
      SplitAt(t, |w|);
      WithoutAppend(w, u, seps);
      WithoutNoSeps(w, seps);
      ConcatCons(w, Words(u, seps));
    }
  }

  /** The words of `s.split()` are not empty, hold no whitespace, and put
      back together are `s` with its whitespace deleted. */
  lemma {:induction false} SplitWhitespaceWords(s: string)
    ensures forall i :: 0 <= i < |SplitWhitespace(s)| ==> SplitWhitespace(s)[i] != ""
    ensures forall i, j :: 0 <= i < |SplitWhitespace(s)| && 0 <= j < |SplitWhitespace(s)[i]| ==>
      !IsSpace(SplitWhitespace(s)[i][j])
    ensures Concat(SplitWhitespace(s)) == Without(s, Whitespace())
  {
    WordsShape(s, Whitespace());
    WordsConcat(s, Whitespace());
  }

  /** Where `s.split()` cuts: `s` is its words with whitespace gaps around
      and between them, every gap between two words non-empty. */
  lemma SplitWhitespaceRebuild(s: string)
    ensures |Gaps(s, Whitespace())| == |SplitWhitespace(s)| + 1
    ensures forall i :: 0 <= i < |Gaps(s, Whitespace())| ==> AllSpace(Gaps(s, Whitespace())[i])
    ensures forall i :: 0 < i < |Gaps(s, Whitespace())| - 1 ==> Gaps(s, Whitespace())[i] != []
    ensures s == Interleave(Gaps(s, Whitespace()), SplitWhitespace(s))
  {
    WordsRebuild(s, Whitespace());
  }

  /** The whitespace characters as a set (the separators of `str.split()`). */
  function Whitespace(): (ws: set<char>)
    ensures forall c :: c in ws <==> IsSpace(c)
  {
    set c: char | '\U{0}' <= c <= '\U{3000}' && IsSpace(c)
  }

  /** A string holding only whitespace splits into no words at all. */
  lemma {:induction false} SplitWhitespaceOfBlank(s: string)
    requires AllSpace(s)
    ensures SplitWhitespace(s) == []
  {
    SkipRunAll(s, Whitespace());
  }

  // ---------------------------------------------------------------------------
  // Joining

  /** `sep.join(xs)`. */
  function Join(xs: seq<string>, sep: string): string {
    if xs == [] then ""
    else if |xs| == 1 then xs[0]
    else xs[0] + sep + Join(xs[1..], sep)
  }

  /** Joining strings that are all non-empty gives "" exactly when there is
      nothing to join. */
  lemma {:induction false} JoinEmptyIff(xs: seq<string>, sep: string)
    requires forall i :: 0 <= i < |xs| ==> xs[i] != ""
    ensures Join(xs, sep) == "" <==> xs == []
  {
    if xs != [] {
      assert |Join(xs, sep)| >= |xs[0]|;
    }
  }

  // ---------------------------------------------------------------------------
  // Ordering

  /** Python's `<` on `str`: lexicographic on code points, a proper prefix
      being smaller. */
  predicate Less(a: string, b: string) {
    if a == [] then b != []
    else b != [] && (a[0] < b[0] || (a[0] == b[0] && Less(a[1..], b[1..])))
  }

  lemma {:induction false} LessIrreflexive(a: string)
    ensures !Less(a, a)
  {
    if a != [] {
      LessIrreflexive(a[1..]);
    }
  }

  lemma {:induction false} LessAsymmetric(a: string, b: string)
    ensures !(Less(a, b) && Less(b, a))
  {
    if a != [] && b != [] && a[0] == b[0] {
      LessAsymmetric(a[1..], b[1..]);
    }
  }

  lemma {:induction false} LessTotal(a: string, b: string)
    requires a != b
    ensures Less(a, b) || Less(b, a)
  {
    if a != [] && b != [] && a[0] == b[0] {
      assert a == [a[0]] + a[1..] && b == [b[0]] + b[1..];
      LessTotal(a[1..], b[1..]);
    }
  }

  lemma {:induction false} LessTransitive(a: string, b: string, c: string)
    requires Less(a, b) && Less(b, c)
    ensures Less(a, c)
  {
    if a != [] && a[0] == b[0] && b[0] == c[0] {
      LessTransitive(a[1..], b[1..], c[1..]);
    }
  }

  /** A common prefix does not change the order. */
  lemma {:induction false} LessPrefix(p: string, u: string, v: string)
    ensures Less(p + u, p + v) <==> Less(u, v)
  {
    if p != [] {
      assert (p + u)[1..] == p[1..] + u && (p + v)[1..] == p[1..] + v;
      LessPrefix(p[1..], u, v);
    } else {
      assert p + u == u && p + v == v;
    }
  }

  /** Strictly increasing: sorted and free of duplicates. */
  predicate StrictlySorted(xs: seq<string>) {
    forall i, j :: 0 <= i < j < |xs| ==> Less(xs[i], xs[j])
  }

  /** Inserts `x` into a strictly sorted list unless it is already there. */
  function InsertUnique(x: string, xs: seq<string>): (r: seq<string>)
    requires StrictlySorted(xs)
    ensures StrictlySorted(r)
    ensures forall y :: y in r <==> y == x || y in xs
  {
    if xs == [] then [x]
    else if x == xs[0] then xs
    else if Less(x, xs[0]) then
      assert forall j :: 0 < j < |xs| ==> Less(x, xs[j]) by {
        forall j | 0 < j < |xs| ensures Less(x, xs[j]) {
          LessTransitive(x, xs[0], xs[j]);
        }
      }
      [x] + xs
    else
      LessTotal(x, xs[0]);
      var tail := InsertUnique(x, xs[1..]);
      assert forall y :: y in tail ==> Less(xs[0], y);
      [xs[0]] + tail
  }

  /** `sorted(set(xs))`: the distinct elements of `xs` in increasing order. */
  function SortedUnique(xs: seq<string>): (r: seq<string>)
    ensures StrictlySorted(r)
    ensures forall y :: y in r <==> y in xs
  {
    if xs == [] then [] else InsertUnique(xs[0], SortedUnique(xs[1..]))
  }

  /** A strictly sorted list is determined by its elements, so `SortedUnique`
      is the one and only sorted listing of the set of `xs`. */
  lemma {:induction false} StrictlySortedUnique(a: seq<string>, b: seq<string>)
    requires StrictlySorted(a) && StrictlySorted(b)
    requires forall y :: y in a <==> y in b
    ensures a == b
  {
    assert b != [] ==> b[0] in a;
    if a != [] {
      assert a[0] in b && b != [];
      assert b[0] in a;
      if a[0] != b[0] {
        var i :| 0 <= i < |a| && a[i] == b[0];
        var j :| 0 <= j < |b| && b[j] == a[0];
        assert Less(a[0], b[0]) && Less(b[0], a[0]);
        LessAsymmetric(a[0], b[0]);
      }
      forall y ensures y in a[1..] <==> y in b[1..] {
        if y in a[1..] {
          var i :| 1 <= i < |a| && a[i] == y;
          LessIrreflexive(a[0]);
          assert y in b && y != b[0];
        }
        if y in b[1..] {
          var j :| 1 <= j < |b| && b[j] == y;
          LessIrreflexive(b[0]);
          assert y in a && y != a[0];
        }
      }
      StrictlySortedUnique(a[1..], b[1..]);
      assert a == [a[0]] + a[1..] && b == [b[0]] + b[1..];
    }
  }
}
