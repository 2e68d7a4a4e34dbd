// file_reporter_t (src/core/reporter.hpp): merging the results of a run into
// the results of earlier runs.
module Reporter {
  import opened Sequences
  import opened Wrappers
  import Tokens

  datatype Entry = Entry(name: string, body: string)

  datatype Document = Document(context: string, benchmarks: seq<Entry>)

  // parse_workload_name: what stands before the first slash.
  function ParseName(name: string): (workload: string)
    ensures Tokens.Free(workload, '/')
    ensures workload == name || workload + ['/'] <= name
  {
    var slash := Tokens.Skip(name, '/', false, 0);
    Tokens.SkipMeaning(name, '/', false, 0, slash);
    name[..slash]
  }

  lemma ParseNameUnique(name: string, workload: string)
    requires Tokens.Free(workload, '/')
    requires workload == name || workload + ['/'] <= name
    ensures ParseName(name) == workload
  {
    var n := |workload|;
    assert forall k :: 0 <= k < n ==> name[k] == workload[k];
    assert n < |name| ==> name[n] == (workload + ['/'])[n];
    Tokens.SkipMeaning(name, '/', false, 0, n);
  }

  function Names(entries: seq<Entry>): (names: seq<string>)
    ensures |names| == |entries|
    ensures forall i :: 0 <= i < |entries| ==> names[i] == ParseName(entries[i].name)
  {
    seq(|entries|, i requires 0 <= i < |entries| => ParseName(entries[i].name))
  }

  function MergeOne(results: seq<Entry>, e: Entry): seq<Entry> {
    var i := IndexOf(Names(results), ParseName(e.name));
    if i < |results| then results[i := e] else results + [e]
  }

  function Merged(destination: seq<Entry>, source: seq<Entry>): seq<Entry> {
    if source == [] then destination
    else MergeOne(Merged(destination, source[..|source| - 1]), source[|source| - 1])
  }

  // merge_results on the parsed files. None is a missing source file, and a
  // missing or empty destination document.
  method MergeResults(source: Option<Document>, destination: Option<Document>) returns (written: Option<Document>)
    ensures source.None? ==> written == destination
    ensures source.Some? && destination.None? ==> written == source
    ensures source.Some? && destination.Some? ==>
              written == Some(Document(destination.value.context,
                                       Merged(destination.value.benchmarks, source.value.benchmarks)))
  {
    if source.None? {
      return destination;
    }
    if destination.None? {
      return source;
    }
    var news := source.value.benchmarks;
    var results := destination.value.benchmarks;
    for k := 0 to |news|
      invariant results == Merged(destination.value.benchmarks, news[..k])
    {
      assert news[..k + 1][..k] == news[..k];
      var name := ParseName(news[k].name);
      var before := results;
      var i := 0;
      while i < |results| && ParseName(results[i].name) != name
        invariant i <= |results|
        invariant forall k :: 0 <= k < i ==> Names(results)[k] != name
      {
        i := i + 1;
      }
      IndexOfIs(Names(results), name, i);
      if i < |results| {
        results := results[i := news[k]];
      } else {
        results := results + [news[k]];
      }
    }
    assert news[..|news|] == news;
    written := Some(Document(destination.value.context, results));
  }

  // ----- what a merge is -----

  // The last entry of the given name.
  function LastOf(entries: seq<Entry>, name: string): (e: Entry)
    requires name in Names(entries)
    ensures ParseName(e.name) == name && e in entries
  {
    var n := |entries| - 1;
    if ParseName(entries[n].name) == name then entries[n] else LastOf(entries[..n], name)
  }

  // The names that are not known yet, each once, in order of appearance.
  function NewNames(known: seq<string>, names: seq<string>): (unknown: seq<string>) {
    if names == [] then []
    else
      var n := |names| - 1;
      var before := NewNames(known, names[..n]);
      if names[n] in known || names[n] in before then before else before + [names[n]]
  }

  lemma {:induction false} NewNamesDistinct(known: seq<string>, names: seq<string>)
    ensures Distinct(NewNames(known, names))
    ensures forall x :: x in NewNames(known, names) <==> x in names && x !in known
  {
    if names != [] {
      var n := |names| - 1;
      NewNamesDistinct(known, names[..n]);
      assert names == names[..n] + [names[n]];
    }
  }

  // The entry that a merge leaves at position i: the first entry of a name takes
  // the last new entry of that name, all others stay.
  ghost predicate Overridden(destination: seq<Entry>, source: seq<Entry>, merged: seq<Entry>, i: nat)
    requires i < |merged|
  {
    var name := Names(merged)[i];
    if name in Names(source) && IndexOf(Names(merged), name) == i
    then merged[i] == LastOf(source, name)
    else i < |destination| && merged[i] == destination[i]
  }

  // An ordered override, with or without repeated names: old names keep their
  // positions, new names follow in the order of the source.
  ghost predicate IsOverride(destination: seq<Entry>, source: seq<Entry>, merged: seq<Entry>) {
    && Names(merged) == Names(destination) + NewNames(Names(destination), Names(source))
    && forall i :: 0 <= i < |merged| ==> Overridden(destination, source, merged, i)
  }

  lemma AppendNames(source: seq<Entry>, e: Entry)
    ensures Names(source + [e]) == Names(source) + [ParseName(e.name)]
  {
  }

  lemma MergeOneNames(before: seq<Entry>, e: Entry)
    ensures var names, name := Names(before), ParseName(e.name);
            Names(MergeOne(before, e)) == if name in names then names else names + [name]
  {
    var names, name := Names(before), ParseName(e.name);
    AppendNames(before, e);
    var i := IndexOf(names, name);
    if i < |before| {
      assert Names(before[i := e]) == names;
    }
  }

  lemma NamesGrow(destination: seq<Entry>, source: seq<Entry>, e: Entry, before: seq<Entry>)
    requires Names(before) == Names(destination) + NewNames(Names(destination), Names(source))
    ensures Names(MergeOne(before, e)) == Names(destination) + NewNames(Names(destination), Names(source + [e]))
  {
    var known, name := Names(destination), ParseName(e.name);
    MergeOneNames(before, e);
    AppendNames(source, e);
    assert (Names(source) + [name])[..|source|] == Names(source);
    assert name in Names(before) <==> name in known || name in NewNames(known, Names(source));
  }

  lemma LastOfAppend(source: seq<Entry>, e: Entry, name: string)
    requires name in Names(source + [e])
    ensures name == ParseName(e.name) ==> LastOf(source + [e], name) == e
    ensures name != ParseName(e.name) ==> name in Names(source) && LastOf(source + [e], name) == LastOf(source, name)
  {
    AppendNames(source, e);
    assert (source + [e])[..|source|] == source;
  }

  lemma StillOverridden(destination: seq<Entry>, source: seq<Entry>, e: Entry, before: seq<Entry>, i: nat)
    requires IsOverride(destination, source, before) && i < |MergeOne(before, e)|
    ensures Overridden(destination, source + [e], MergeOne(before, e), i)
  {
    var after, name := MergeOne(before, e), ParseName(e.name);
    var mine := Names(after)[i];
    MergeOneNames(before, e);
    AppendNames(source, e);
    FirstStays(Names(before), Names(after), mine);
    if mine in Names(source + [e]) {
      LastOfAppend(source, e, mine);
    }
    if i < |before| {
      assert mine == Names(before)[i];
      assert Overridden(destination, source, before, i);
    }
  }

  lemma OverrideGrows(destination: seq<Entry>, source: seq<Entry>, e: Entry, before: seq<Entry>)
    requires IsOverride(destination, source, before)
    ensures IsOverride(destination, source + [e], MergeOne(before, e))
  {
    var after := MergeOne(before, e);
    NamesGrow(destination, source, e, before);
    forall i | 0 <= i < |after| ensures Overridden(destination, source + [e], after, i) {
      StillOverridden(destination, source, e, before, i);
    }
  }

  lemma {:induction false} MergeOverrides(destination: seq<Entry>, source: seq<Entry>)
    ensures IsOverride(destination, source, Merged(destination, source))
  {
    if source == [] {
      assert Names(destination) + [] == Names(destination);
    } else {
      var n := |source| - 1;
      MergeOverrides(destination, source[..n]);
      assert source == source[..n] + [source[n]];
      OverrideGrows(destination, source[..n], source[n], Merged(destination, source[..n]));
    }
  }

  lemma NamesOfPrefix(source: seq<Entry>)
    requires source != []
    ensures Names(source)[..|source| - 1] == Names(source[..|source| - 1])
  {
  }

  // Names stay distinct.
  lemma MergeKeepsDistinct(destination: seq<Entry>, source: seq<Entry>)
    requires Distinct(Names(destination))
    ensures Distinct(Names(Merged(destination, source)))
  {
    MergeOverrides(destination, source);
    NewNamesDistinct(Names(destination), Names(source));
    DistinctConcat(Names(destination), NewNames(Names(destination), Names(source)));
  }

  lemma {:induction false} AllKnown(known: seq<string>, names: seq<string>)
    requires forall x :: x in names ==> x in known
    ensures NewNames(known, names) == []
  {
    if names != [] {
      AllKnown(known, names[..|names| - 1]);
    }
  }

  lemma NothingNew(known: seq<string>, names: seq<string>)
    ensures NewNames(known + NewNames(known, names), names) == []
  {
    NewNamesDistinct(known, names);
    AllKnown(known + NewNames(known, names), names);
  }

  // Merging the same source again changes nothing.
  lemma MergeIdempotent(destination: seq<Entry>, source: seq<Entry>)
    ensures Merged(Merged(destination, source), source) == Merged(destination, source)
  {
    var once := Merged(destination, source);
    var twice := Merged(once, source);
    MergeOverrides(destination, source);
    MergeOverrides(once, source);
    NothingNew(Names(destination), Names(source));
    assert Names(twice) == Names(once);
    forall i | 0 <= i < |once| ensures once[i] == twice[i] {
      assert Overridden(destination, source, once, i);
      assert Overridden(once, source, twice, i);
    }
  }

  // Every entry with a new name is the new entry of that name.
  ghost predicate Takes(source: seq<Entry>, merged: seq<Entry>) {
    forall i, k :: 0 <= i < |merged| && 0 <= k < |source| && Names(merged)[i] == Names(source)[k] ==>
      merged[i] == source[k]
  }

  lemma DistinctIndex(names: seq<string>, i: nat)
    requires Distinct(names) && i < |names|
    ensures IndexOf(names, names[i]) == i
  {
    IndexOfIs(names, names[i], i);
  }

  lemma {:induction false} LastOfDistinct(source: seq<Entry>, k: nat)
    requires Distinct(Names(source)) && k < |source|
    ensures LastOf(source, Names(source)[k]) == source[k]
  {
    if k < |source| - 1 {
      NamesOfPrefix(source);
      LastOfDistinct(source[..|source| - 1], k);
    }
  }

  lemma TakesSource(destination: seq<Entry>, source: seq<Entry>, merged: seq<Entry>)
    requires IsOverride(destination, source, merged) && Distinct(Names(merged)) && Distinct(Names(source))
    ensures Takes(source, merged)
  {
    forall i, k | 0 <= i < |merged| && 0 <= k < |source| && Names(merged)[i] == Names(source)[k]
      ensures merged[i] == source[k]
    {
      DistinctIndex(Names(merged), i);
      LastOfDistinct(source, k);
      assert Overridden(destination, source, merged, i);
    }
  }

  lemma TailTaken(known: seq<string>, source: seq<Entry>, merged: seq<Entry>, unmatched: seq<Entry>, i: nat)
    requires Takes(source, merged) && Names(merged) == known + Names(unmatched)
    requires i < |unmatched| && unmatched[i] in source
    ensures merged[|known| + i] == unmatched[i]
  {
    assert Names(merged)[|known| + i] == Names(unmatched)[i];
    var k :| 0 <= k < |source| && source[k] == unmatched[i];
    assert Names(source)[k] == Names(unmatched)[i];
  }

  // The entries whose names are not known, in order.
  function Unmatched(known: seq<string>, source: seq<Entry>): (rest: seq<Entry>)
    ensures forall e :: e in rest ==> e in source
  {
    if source == [] then []
    else
      var n := |source| - 1;
      var before := Unmatched(known, source[..n]);
      if ParseName(source[n].name) in known then before else before + [source[n]]
  }

  lemma {:induction false} UnmatchedNames(known: seq<string>, source: seq<Entry>)
    requires Distinct(Names(source))
    ensures Names(Unmatched(known, source)) == NewNames(known, Names(source))
  {
    if source != [] {
      var n := |source| - 1;
      NamesOfPrefix(source);
      UnmatchedNames(known, source[..n]);
      NewNamesDistinct(known, Names(source[..n]));
    }
  }

  lemma OldKept(destination: seq<Entry>, source: seq<Entry>, merged: seq<Entry>, i: nat)
    requires IsOverride(destination, source, merged)
    requires i < |destination| && Names(destination)[i] !in Names(source)
    ensures i < |merged| && merged[i] == destination[i]
  {
    assert Overridden(destination, source, merged, i);
  }

  lemma TailKept(known: seq<string>, source: seq<Entry>, merged: seq<Entry>, unmatched: seq<Entry>)
    requires Takes(source, merged) && Names(merged) == known + Names(unmatched)
    requires forall e :: e in unmatched ==> e in source
    ensures |known| <= |merged| && merged[|known|..] == unmatched
  {
    forall i | 0 <= i < |unmatched| ensures merged[|known| + i] == unmatched[i] {
      TailTaken(known, source, merged, unmatched, i);
    }
  }

  // With distinct names on each side: position by position, the old entry or
  // the new one of its name, then the unmatched new entries.
  lemma MergeDistinct(destination: seq<Entry>, source: seq<Entry>)
    requires Distinct(Names(destination)) && Distinct(Names(source))
    ensures |Merged(destination, source)| >= |destination|
    ensures forall i, k :: 0 <= i < |destination| && 0 <= k < |source| && Names(source)[k] == Names(destination)[i] ==>
              Merged(destination, source)[i] == source[k]
    ensures forall i :: 0 <= i < |destination| && Names(destination)[i] !in Names(source) ==>
              Merged(destination, source)[i] == destination[i]
    ensures Merged(destination, source)[|destination|..] == Unmatched(Names(destination), source)
  {
    var merged, unmatched := Merged(destination, source), Unmatched(Names(destination), source);
    MergeOverrides(destination, source);
    MergeKeepsDistinct(destination, source);
    TakesSource(destination, source, merged);
    UnmatchedNames(Names(destination), source);
    forall i | 0 <= i < |destination| && Names(destination)[i] !in Names(source) ensures merged[i] == destination[i] {
      OldKept(destination, source, merged, i);
    }
    TailKept(Names(destination), source, merged, unmatched);
  }
}
