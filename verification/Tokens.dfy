// split (src/core/helper.hpp), the comma join of run.py and filter_workloads
// (src/bench.cxx).
module Tokens {
  import opened Workloads

  // The first position at or after `from` whose character is the delimiter
  // (same == false: find) or is not (same == true: find_first_not_of), with |s|
  // for npos.
  function Skip(s: string, delimiter: char, same: bool, from: nat): (p: nat)
    requires from <= |s|
    ensures from <= p <= |s|
    decreases |s| - from
  {
    if from < |s| && (s[from] == delimiter) == same then Skip(s, delimiter, same, from + 1) else from
  }

  ghost predicate Skips(s: string, delimiter: char, same: bool, from: nat, p: nat) {
    && from <= p <= |s|
    && (forall k :: from <= k < p ==> (s[k] == delimiter) == same)
    && (p < |s| ==> (s[p] == delimiter) != same)
  }

  lemma {:induction false} SkipMeaning(s: string, delimiter: char, same: bool, from: nat, p: nat)
    requires from <= |s|
    ensures p == Skip(s, delimiter, same, from) <==> Skips(s, delimiter, same, from, p)
    decreases |s| - from
  {
    if from < |s| && (s[from] == delimiter) == same {
      SkipMeaning(s, delimiter, same, from + 1, p);
    }
  }

  function TokensFrom(s: string, delimiter: char, from: nat): seq<string>
    requires from <= |s|
    decreases |s| - from
  {
    var start := Skip(s, delimiter, true, from);
    if start == |s| then []
    else
      SkipMeaning(s, delimiter, true, from, start);
      var end := Skip(s, delimiter, false, start);
      [s[start..end]] + TokensFrom(s, delimiter, end)
  }

  function Tokens(s: string, delimiter: char): seq<string> {
    TokensFrom(s, delimiter, 0)
  }

  method Split(s: string, delimiter: char) returns (tokens: seq<string>)
    ensures tokens == Tokens(s, delimiter)
  {
    tokens := [];
    var end := 0;
    var start := Skip(s, delimiter, true, end);
    while start != |s|
      invariant end <= start <= |s|
      invariant start == Skip(s, delimiter, true, end)
      invariant tokens + TokensFrom(s, delimiter, end) == Tokens(s, delimiter)
      decreases |s| - end
    {
      SkipMeaning(s, delimiter, true, end, start);
      end := Skip(s, delimiter, false, start);
      tokens := tokens + [s[start..end]];
      start := Skip(s, delimiter, true, end);
    }
    assert tokens + [] == tokens;
  }

  // ----- what the tokens are -----

  predicate Free(t: string, delimiter: char) {
    forall k :: 0 <= k < |t| ==> t[k] != delimiter
  }

  predicate Only(gap: string, delimiter: char) {
    forall k :: 0 <= k < |gap| ==> gap[k] == delimiter
  }

  predicate Token(t: string, delimiter: char) {
    t != [] && Free(t, delimiter)
  }

  // The string with gap, token, gap, ..., token, gap.
  function Weave(gaps: seq<string>, tokens: seq<string>): string
    requires |gaps| == |tokens| + 1
  {
    if tokens == [] then gaps[0] else gaps[0] + tokens[0] + Weave(gaps[1..], tokens[1..])
  }

  // The tokens are runs without the delimiter that cannot be made longer:
  // between two of them stand only delimiters, at least one.
  ghost predicate MaximalRuns(gaps: seq<string>, tokens: seq<string>, delimiter: char) {
    && |gaps| == |tokens| + 1
    && (forall i :: 0 <= i < |tokens| ==> Token(tokens[i], delimiter))
    && (forall i :: 0 <= i < |gaps| ==> Only(gaps[i], delimiter))
    && (forall i :: 0 < i < |tokens| ==> gaps[i] != [])
  }

  function GapsFrom(s: string, delimiter: char, from: nat): seq<string>
    requires from <= |s|
    decreases |s| - from
  {
    var start := Skip(s, delimiter, true, from);
    if start == |s| then [s[from..]]
    else
      SkipMeaning(s, delimiter, true, from, start);
      [s[from..start]] + GapsFrom(s, delimiter, Skip(s, delimiter, false, start))
  }

  lemma Glue(s: string, from: nat, start: nat, end: nat)
    requires from <= start <= end <= |s|
    ensures s[from..start] + s[start..end] + s[end..] == s[from..]
  {
  }

  lemma RunsGrow(gap: string, token: string, gaps: seq<string>, tokens: seq<string>, delimiter: char)
    requires MaximalRuns(gaps, tokens, delimiter) && (tokens != [] ==> gaps[0] != [])
    requires Only(gap, delimiter) && Token(token, delimiter)
    ensures MaximalRuns([gap] + gaps, [token] + tokens, delimiter)
    ensures Weave([gap] + gaps, [token] + tokens) == gap + token + Weave(gaps, tokens)
  {
    assert ([gap] + gaps)[1..] == gaps && ([token] + tokens)[1..] == tokens;
  }

  lemma {:induction false} CutIntoRuns(s: string, delimiter: char, from: nat)
    requires from <= |s|
    ensures var gaps, tokens := GapsFrom(s, delimiter, from), TokensFrom(s, delimiter, from);
            && MaximalRuns(gaps, tokens, delimiter)
            && Weave(gaps, tokens) == s[from..]
            && (from < |s| && s[from] == delimiter ==> gaps[0] != [])
    decreases |s| - from
  {
    var start := Skip(s, delimiter, true, from);
    SkipMeaning(s, delimiter, true, from, start);
    if start < |s| {
      var end := Skip(s, delimiter, false, start);
      SkipMeaning(s, delimiter, false, start, end);
      CutIntoRuns(s, delimiter, end);
      assert end == |s| ==> TokensFrom(s, delimiter, end) == [];
      RunsGrow(s[from..start], s[start..end], GapsFrom(s, delimiter, end), TokensFrom(s, delimiter, end), delimiter);
      Glue(s, from, start, end);
    }
  }

  // Whatever the string, split cuts it into its maximal delimiter-free runs.
  lemma TokensAreMaximalRuns(s: string, delimiter: char)
    ensures var gaps, tokens := GapsFrom(s, delimiter, 0), Tokens(s, delimiter);
            MaximalRuns(gaps, tokens, delimiter) && Weave(gaps, tokens) == s
  {
    CutIntoRuns(s, delimiter, 0);
    assert s[0..] == s;
  }

  lemma TailRuns(gaps: seq<string>, tokens: seq<string>, delimiter: char)
    requires MaximalRuns(gaps, tokens, delimiter) && tokens != []
    ensures MaximalRuns(gaps[1..], tokens[1..], delimiter) && Only(gaps[0], delimiter) && Token(tokens[0], delimiter)
    ensures tokens[1..] != [] ==> gaps[1] != []
    ensures Only(gaps[1], delimiter)
  {
  }

  lemma WeaveStarts(gaps: seq<string>, tokens: seq<string>, delimiter: char)
    requires |gaps| == |tokens| + 1 && Only(gaps[0], delimiter) && (tokens != [] ==> gaps[0] != [])
    ensures var rest := Weave(gaps, tokens); rest == [] || rest[0] == delimiter
  {
  }

  lemma RunsShrink(gaps: seq<string>, tokens: seq<string>, delimiter: char)
    requires MaximalRuns(gaps, tokens, delimiter) && tokens != []
    ensures MaximalRuns(gaps[1..], tokens[1..], delimiter) && Only(gaps[0], delimiter) && Token(tokens[0], delimiter)
    ensures var rest := Weave(gaps[1..], tokens[1..]);
            Weave(gaps, tokens) == gaps[0] + tokens[0] + rest && (rest == [] || rest[0] == delimiter)
  {
    TailRuns(gaps, tokens, delimiter);
    WeaveStarts(gaps[1..], tokens[1..], delimiter);
  }

  lemma Piece(s: string, from: nat, gap: string, token: string, rest: string)
    requires from <= |s| && s[from..] == gap + token + rest
    ensures var start, end := from + |gap|, from + |gap| + |token|;
            && |s| == end + |rest|
            && (forall k :: from <= k < start ==> s[k] == gap[k - from])
            && (forall k :: start <= k < end ==> s[k] == token[k - start])
            && s[start..end] == token
            && s[end..] == rest
  {
    forall k | from <= k < |s| ensures s[k] == (gap + token + rest)[k - from] {
      assert s[k] == s[from..][k - from];
    }
  }

  lemma PieceSkips(s: string, delimiter: char, from: nat, gap: string, token: string, rest: string)
    requires Only(gap, delimiter) && Token(token, delimiter) && (rest == [] || rest[0] == delimiter)
    requires from <= |s| && s[from..] == gap + token + rest
    ensures var start, end := from + |gap|, from + |gap| + |token|;
            Skips(s, delimiter, true, from, start) && Skips(s, delimiter, false, start, end)
  {
    var start, end := from + |gap|, from + |gap| + |token|;
    Piece(s, from, gap, token, rest);
    assert s[start] == token[0];
    assert end < |s| ==> s[end] == s[end..][0];
  }

  ghost predicate Yields(s: string, delimiter: char, from: nat, tokens: seq<string>) {
    from <= |s| && TokensFrom(s, delimiter, from) == tokens
  }

  lemma NextToken(s: string, delimiter: char, from: nat, gap: string, token: string, rest: string, tokens: seq<string>)
    requires Only(gap, delimiter) && Token(token, delimiter) && (rest == [] || rest[0] == delimiter)
    requires from <= |s| && s[from..] == gap + token + rest
    ensures var end := from + |gap| + |token|;
            && end <= |s| && s[end..] == rest
            && (Yields(s, delimiter, end, tokens) ==> Yields(s, delimiter, from, [token] + tokens))
  {
    var start, end := from + |gap|, from + |gap| + |token|;
    Piece(s, from, gap, token, rest);
    PieceSkips(s, delimiter, from, gap, token, rest);
    SkipMeaning(s, delimiter, true, from, start);
    SkipMeaning(s, delimiter, false, start, end);
  }

  // These runs are what is in s from the given position on.
  ghost predicate RunsFrom(gaps: seq<string>, tokens: seq<string>, delimiter: char, s: string, from: nat) {
    MaximalRuns(gaps, tokens, delimiter) && from <= |s| && s[from..] == Weave(gaps, tokens)
  }

  lemma FirstRun(gaps: seq<string>, tokens: seq<string>, delimiter: char, s: string, from: nat)
    requires RunsFrom(gaps, tokens, delimiter, s, from) && tokens != []
    ensures var end := from + |gaps[0]| + |tokens[0]|;
            && RunsFrom(gaps[1..], tokens[1..], delimiter, s, end)
            && (Yields(s, delimiter, end, tokens[1..]) ==> Yields(s, delimiter, from, tokens))
  {
    RunsShrink(gaps, tokens, delimiter);
    NextToken(s, delimiter, from, gaps[0], tokens[0], Weave(gaps[1..], tokens[1..]), tokens[1..]);
    assert [tokens[0]] + tokens[1..] == tokens;
  }

  lemma OnlyGap(s: string, delimiter: char, from: nat)
    requires from <= |s| && Only(s[from..], delimiter)
    ensures TokensFrom(s, delimiter, from) == []
  {
    forall k | from <= k < |s| ensures s[k] == delimiter {
      assert s[k] == s[from..][k - from];
    }
    SkipMeaning(s, delimiter, true, from, |s|);
  }

  lemma {:induction false} RunsAreTokens(gaps: seq<string>, tokens: seq<string>, delimiter: char, s: string, from: nat)
    requires RunsFrom(gaps, tokens, delimiter, s, from)
    ensures Yields(s, delimiter, from, tokens)
    decreases |tokens|
  {
    if tokens == [] {
      OnlyGap(s, delimiter, from);
    } else {
      FirstRun(gaps, tokens, delimiter, s, from);
      RunsAreTokens(gaps[1..], tokens[1..], delimiter, s, from + |gaps[0]| + |tokens[0]|);
    }
  }

  // And no other decomposition into maximal runs exists.
  lemma MaximalRunsAreUnique(gaps: seq<string>, tokens: seq<string>, delimiter: char)
    requires MaximalRuns(gaps, tokens, delimiter)
    ensures Tokens(Weave(gaps, tokens), delimiter) == tokens
  {
    var s := Weave(gaps, tokens);
    assert s[0..] == s;
    RunsAreTokens(gaps, tokens, delimiter, s, 0);
  }

  // ----- the join of run.py -----

  function Join(names: seq<string>, delimiter: char): string {
    if names == [] then []
    else if |names| == 1 then names[0]
    else names[0] + [delimiter] + Join(names[1..], delimiter)
  }

  function JoinGaps(n: nat, delimiter: char): seq<string> {
    seq(n + 1, i => if 0 < i < n then [delimiter] else [])
  }

  lemma {:induction false} JoinIsWeave(names: seq<string>, delimiter: char)
    ensures Weave(JoinGaps(|names|, delimiter), names) == Join(names, delimiter)
  {
    var gaps := JoinGaps(|names|, delimiter);
    if |names| == 1 {
      assert Weave(gaps[1..], names[1..]) == [];
    } else if |names| > 1 {
      JoinIsWeave(names[1..], delimiter);
      var tail := JoinGaps(|names| - 1, delimiter);
      var firstGap := gaps[1];
      assert gaps[1..][1..] == tail[1..];
      assert Weave(gaps[1..], names[1..]) == firstGap + Weave(tail, names[1..]);
    }
  }

  // split inverts the join exactly on non-empty names without the delimiter.
  lemma SplitInvertsJoin(names: seq<string>, delimiter: char)
    ensures Tokens(Join(names, delimiter), delimiter) == names <==>
            forall i :: 0 <= i < |names| ==> Token(names[i], delimiter)
  {
    if forall i :: 0 <= i < |names| ==> Token(names[i], delimiter) {
      JoinIsWeave(names, delimiter);
      MaximalRunsAreUnique(JoinGaps(|names|, delimiter), names, delimiter);
    }
    TokensAreMaximalRuns(Join(names, delimiter), delimiter);
  }

  // And joining the tokens of a string splits to the same tokens.
  lemma JoinOfSplit(s: string, delimiter: char)
    ensures Tokens(Join(Tokens(s, delimiter), delimiter), delimiter) == Tokens(s, delimiter)
  {
    TokensAreMaximalRuns(s, delimiter);
    SplitInvertsJoin(Tokens(s, delimiter), delimiter);
  }

  // ----- filter_workloads -----

  function Named(workloads: seq<Workload>, name: string): seq<Workload> {
    if workloads == [] then []
    else
      var before, last := Named(workloads[..|workloads| - 1], name), workloads[|workloads| - 1];
      if last.name == name then before + [last] else before
  }

  function Selected(workloads: seq<Workload>, names: seq<string>): seq<Workload> {
    if names == [] then []
    else Selected(workloads, names[..|names| - 1]) + Named(workloads, names[|names| - 1])
  }

  method FilterWorkloads(workloads: seq<Workload>, filter: string) returns (filtered: seq<Workload>)
    ensures filtered == if filter == [] then workloads else Selected(workloads, Tokens(filter, ','))
  {
    if filter == [] {
      return workloads;
    }
    filtered := [];
    var tokens := Split(filter, ',');
    for i := 0 to |tokens|
      invariant filtered == Selected(workloads, tokens[..i])
    {
      var earlier := filtered;
      assert tokens[..i + 1][..i] == tokens[..i];
      for j := 0 to |workloads|
        invariant filtered == earlier + Named(workloads[..j], tokens[i])
      {
        assert workloads[..j + 1][..j] == workloads[..j];
        if workloads[j].name == tokens[i] {
          filtered := filtered + [workloads[j]];
        }
      }
      assert workloads[..|workloads|] == workloads;
    }
    assert tokens[..|tokens|] == tokens;
  }

  ghost predicate UniqueNames(workloads: seq<Workload>) {
    forall i, j :: 0 <= i < j < |workloads| ==> workloads[i].name != workloads[j].name
  }

  predicate Known(workloads: seq<Workload>, name: string) {
    exists i :: 0 <= i < |workloads| && workloads[i].name == name
  }

  function KnownNames(workloads: seq<Workload>, names: seq<string>): seq<string> {
    if names == [] then []
    else
      var before, last := KnownNames(workloads, names[..|names| - 1]), names[|names| - 1];
      if Known(workloads, last) then before + [last] else before
  }

  // These workloads, in this order.
  ghost predicate Are(selected: seq<Workload>, workloads: seq<Workload>, names: seq<string>) {
    && |selected| == |names|
    && forall i :: 0 <= i < |names| ==> selected[i] in workloads && selected[i].name == names[i]
  }

  lemma {:induction false} NamedIsOne(workloads: seq<Workload>, name: string)
    requires UniqueNames(workloads)
    ensures Are(Named(workloads, name), workloads, if Known(workloads, name) then [name] else [])
  {
    if workloads != [] {
      var n := |workloads| - 1;
      NamedIsOne(workloads[..n], name);
      if Known(workloads[..n], name) {
        var i :| 0 <= i < n && workloads[..n][i].name == name;
        assert workloads[i].name == name;
      } else {
        assert forall i :: 0 <= i < n ==> workloads[i] == workloads[..n][i];
      }
    }
  }

  // With unique workload names the filter gives the known names, as often and
  // in the order requested.
  lemma {:induction false} SelectedAreKnown(workloads: seq<Workload>, names: seq<string>)
    requires UniqueNames(workloads)
    ensures Are(Selected(workloads, names), workloads, KnownNames(workloads, names))
  {
    if names != [] {
      SelectedAreKnown(workloads, names[..|names| - 1]);
      NamedIsOne(workloads, names[|names| - 1]);
    }
  }

  // What a request built by run.py selects. An empty request selects every workload.
  lemma RequestSelects(workloads: seq<Workload>, names: seq<string>)
    requires UniqueNames(workloads)
    requires forall i :: 0 <= i < |names| ==> Token(names[i], ',')
    ensures Join(names, ',') == [] <==> names == []
    ensures names != [] ==>
              Are(Selected(workloads, Tokens(Join(names, ','), ',')), workloads, KnownNames(workloads, names))
  {
    SplitInvertsJoin(names, ',');
    SelectedAreKnown(workloads, names);
  }

  // ----- the same for repeated names -----

  // Every workload of the name is taken, in order.
  lemma {:induction false} NamedOfParts(workloads: seq<Workload>, more: seq<Workload>, name: string)
    ensures Named(workloads + more, name) == Named(workloads, name) + Named(more, name)
  {
    if more == [] {
      assert workloads + more == workloads;
    } else {
      var n := |more| - 1;
      assert (workloads + more)[..|workloads| + n] == workloads + more[..n];
      NamedOfParts(workloads, more[..n], name);
    }
  }

  lemma NamedOfOne(w: Workload, name: string)
    ensures Named([w], name) == if w.name == name then [w] else []
  {
    assert [w][..0] == [];
  }

  // The names are served one after the other.
  lemma {:induction false} SelectedOfParts(workloads: seq<Workload>, names: seq<string>, more: seq<string>)
    ensures Selected(workloads, names + more) == Selected(workloads, names) + Selected(workloads, more)
    ensures KnownNames(workloads, names + more) == KnownNames(workloads, names) + KnownNames(workloads, more)
  {
    if more == [] {
      assert names + more == names;
    } else {
      var n := |more| - 1;
      assert (names + more)[..|names| + n] == names + more[..n];
      SelectedOfParts(workloads, names, more[..n]);
    }
  }

  lemma SelectedOfOne(workloads: seq<Workload>, name: string)
    ensures Selected(workloads, [name]) == Named(workloads, name)
    ensures KnownNames(workloads, [name]) == if Known(workloads, name) then [name] else []
  {
    assert [name][..0] == [];
  }

  // The join puts one delimiter between two names, and nothing else.
  lemma {:induction false} JoinOfParts(names: seq<string>, more: seq<string>, delimiter: char)
    requires names != [] && more != []
    ensures Join(names + more, delimiter) == Join(names, delimiter) + [delimiter] + Join(more, delimiter)
  {
    if |names| == 1 {
      assert (names + more)[1..] == more;
    } else {
      assert (names + more)[1..] == names[1..] + more;
      JoinOfParts(names[1..], more, delimiter);
    }
  }

  lemma JoinOfOne(name: string, delimiter: char)
    ensures Join([name], delimiter) == name && Join([], delimiter) == []
  {
  }
}
