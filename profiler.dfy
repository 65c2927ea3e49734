/** `Profiler` (profiler.cpp): condensing the recorded instruction-pointer samples into a
    histogram of function names, in order of first occurrence.

    Sampling (the `Record` thread), symbol lookup and the CSV report are outside the model: a
    sample is given as its instruction pointer and the name `SymFromAddr` resolves it to, a C
    string and so free of NUL characters. */
module Profiler {

  /** One recorded sample: `Rip` of the captured context and the name of its symbol. */
  datatype Sample = Sample(rip: nat, symbol: string)

  /** One `functionList` tuple: the first sample's address, the quoted name, the hit count. */
  datatype Entry = Entry(rip: nat, name: string, count: nat)

  predicate NulFree(s: string) {
    forall k | 0 <= k < |s| :: s[k] != '\0'
  }

  /** The stored form of a symbol name: in double quotes and NUL-terminated. */
  function Quote(s: string): (r: string)
    ensures |r| == |s| + 3 && r[0] == '"' && r[|s| + 1] == '"' && r[|s| + 2] == '\0'
    ensures forall k | 1 <= k <= |s| :: r[k] == s[k - 1]
  {
    ['"'] + s + ['"', '\0']
  }

  /** Different names have different stored forms. */
  lemma QuoteInjective(s: string, t: string)
    requires Quote(s) == Quote(t)
    ensures s == t
  {
    assert |s| == |t|;
    forall k | 0 <= k < |s|
      ensures s[k] == t[k]
    {
      assert Quote(s)[k + 1] == Quote(t)[k + 1];
    }
  }

  /** `find`'s comparison: the first `n` characters agree. Reading past the end of the stored
      name counts as a disagreement. */
  predicate Matches(stored: string, name: string, n: nat)
    requires n <= |name|
  {
    n <= |stored| && forall k | 0 <= k < n :: stored[k] == name[k]
  }

  /** A longer NUL-free stored name differs from a shorter one where the shorter one ends. */
  lemma QuoteLonger(t: string, s: string)
    requires NulFree(t) && |s| < |t|
    ensures Quote(t)[|s| + 2] != Quote(s)[|s| + 2]
  {
    var p := |s| + 2;
    if p <= |t| {
      assert Quote(t)[p] == t[p - 1];
    }
  }

  /** On stored forms, with the stored name NUL-free, comparing `|s| + 3` characters is
      comparing the names. */
  lemma QuoteMatch(t: string, s: string)
    requires NulFree(t)
    ensures Matches(Quote(t), Quote(s), |s| + 3) <==> t == s
  {
    var qt, qs := Quote(t), Quote(s);
    if |s| < |t| {
      QuoteLonger(t, s);
    } else if Matches(qt, qs, |s| + 3) {
      forall k | 0 <= k < |s|
        ensures s[k] == t[k]
      {
        assert qt[k + 1] == qs[k + 1];
      }
    }
  }

  /** `find`: the first entry whose stored name matches `name` on `n` characters, or -1. */
  method Find(list: seq<Entry>, name: string, n: nat) returns (r: int)
    requires n <= |name|
    ensures -1 <= r < |list|
    ensures r == -1 <==> forall i | 0 <= i < |list| :: !Matches(list[i].name, name, n)
    ensures r >= 0 ==> Matches(list[r].name, name, n)
    ensures r >= 0 ==> forall i | 0 <= i < r :: !Matches(list[i].name, name, n)
  {
    for i := 0 to |list|
      invariant forall i' | 0 <= i' < i :: !Matches(list[i'].name, name, n)
    {
      var current := list[i].name;
      var same := true;
      var j := 0;
      while j < n
        invariant 0 <= j <= n && j <= |current|
        invariant forall k | 0 <= k < j :: current[k] == name[k]
      {
        if j >= |current| || current[j] != name[j] {
          same := false;
          break;
        }
        j := j + 1;
      }
      if same {
        return i;
      }
    }
    return -1;
  }

  /** The position of the first entry named `name`, or |list| when there is none. */
  function IndexOf(list: seq<Entry>, name: string): (k: nat)
    ensures k <= |list|
    ensures k < |list| ==> list[k].name == name
    ensures forall i | 0 <= i < k :: list[i].name != name
  {
    if list == [] then 0
    else if list[0].name == name then 0
    else 1 + IndexOf(list[1..], name)
  }

  /** One sample joins the histogram: its quoted name is appended with count 1 when absent,
      and otherwise that entry's count goes up by one. */
  function Tally(list: seq<Entry>, s: Sample): seq<Entry> {
    var name := Quote(s.symbol);
    var k := IndexOf(list, name);
    if k == |list| then list + [Entry(s.rip, name, 1)]
    else list[k := list[k].(count := list[k].count + 1)]
  }

  /** The histogram of a sequence of samples. */
  function Condensed(samples: seq<Sample>): seq<Entry> {
    if samples == [] then [] else Tally(Condensed(samples[..|samples| - 1]), samples[|samples| - 1])
  }

  /** The position of the first sample whose stored name is `name`, or |samples|. */
  function FirstSample(samples: seq<Sample>, name: string): (i: nat)
    ensures i <= |samples|
    ensures i < |samples| ==> Quote(samples[i].symbol) == name
    ensures forall j | 0 <= j < i :: Quote(samples[j].symbol) != name
  {
    if samples == [] then 0
    else if Quote(samples[0].symbol) == name then 0
    else 1 + FirstSample(samples[1..], name)
  }

  /** How many samples have the stored name `name`. */
  function Hits(samples: seq<Sample>, name: string): nat {
    if samples == [] then 0
    else Hits(samples[..|samples| - 1], name) + if Quote(samples[|samples| - 1].symbol) == name then 1 else 0
  }

  /** The sum of the counts. */
  function Total(list: seq<Entry>): nat {
    if list == [] then 0 else list[0].count + Total(list[1..])
  }

  /** Tally changes no stored name and may append exactly the sample's. */
  lemma TallyNames(list: seq<Entry>, s: Sample)
    ensures |list| <= |Tally(list, s)| <= |list| + 1
    ensures forall k | 0 <= k < |list| :: Tally(list, s)[k].name == list[k].name
    ensures |Tally(list, s)| == |list| + 1 <==> IndexOf(list, Quote(s.symbol)) == |list|
    ensures |Tally(list, s)| == |list| + 1 ==> Tally(list, s)[|list|] == Entry(s.rip, Quote(s.symbol), 1)
    ensures IndexOf(Tally(list, s), Quote(s.symbol)) < |Tally(list, s)|
  {
    var name := Quote(s.symbol);
    var t := Tally(list, s);
    var k := IndexOf(list, name);
    if k == |list| {
      assert t[|list|].name == name;
    } else {
      assert t[k].name == name;
    }
  }

  lemma IndexOfKept(list: seq<Entry>, list': seq<Entry>, name: string)
    requires |list| <= |list'| && forall k | 0 <= k < |list| :: list'[k].name == list[k].name
    requires IndexOf(list, name) < |list|
    ensures IndexOf(list', name) == IndexOf(list, name)
  {
    var k := IndexOf(list, name);
    assert list'[k].name == name;
  }

  lemma CondensedSnoc(samples: seq<Sample>, i: nat)
    requires i < |samples|
    ensures Condensed(samples[..i + 1]) == Tally(Condensed(samples[..i]), samples[i])
    ensures samples[..i + 1][..i] == samples[..i]
  {
    assert samples[..i + 1][..i] == samples[..i];
  }

  /** Every sample's name is in the histogram. */
  lemma {:induction false} CondensedCovers(samples: seq<Sample>)
    ensures forall i | 0 <= i < |samples| :: IndexOf(Condensed(samples), Quote(samples[i].symbol)) < |Condensed(samples)|
  {
    if samples != [] {
      var n := |samples| - 1;
      var p, x := samples[..n], samples[n];
      CondensedCovers(p);
      TallyNames(Condensed(p), x);
      forall i | 0 <= i < |samples|
        ensures IndexOf(Condensed(samples), Quote(samples[i].symbol)) < |Condensed(samples)|
      {
        if i < n {
          assert p[i] == samples[i];
          IndexOfKept(Condensed(p), Condensed(samples), Quote(samples[i].symbol));
        }
      }
    }
  }

  /** The stored names are pairwise different. */
  lemma {:induction false} CondensedDistinct(samples: seq<Sample>)
    ensures forall j, k | 0 <= j < k < |Condensed(samples)| :: Condensed(samples)[j].name != Condensed(samples)[k].name
  {
    if samples != [] {
      var n := |samples| - 1;
      var p, x := samples[..n], samples[n];
      CondensedDistinct(p);
      TallyNames(Condensed(p), x);
    }
  }

  lemma {:induction false} HitsNone(samples: seq<Sample>, name: string)
    requires FirstSample(samples, name) == |samples|
    ensures Hits(samples, name) == 0
  {
    if samples != [] {
      var n := |samples| - 1;
      FirstSampleSnoc(samples[..n], samples[n], name);
      assert samples[..n] + [samples[n]] == samples;
      HitsNone(samples[..n], name);
    }
  }

  lemma FirstSampleSnoc(samples: seq<Sample>, x: Sample, name: string)
    ensures FirstSample(samples + [x], name) ==
              if FirstSample(samples, name) < |samples| then FirstSample(samples, name)
              else if Quote(x.symbol) == name then |samples| else |samples| + 1
  {
    var s := samples + [x];
    var f := FirstSample(samples, name);
    if f < |samples| {
      assert s[f] == samples[f];
      assert forall j | 0 <= j < f :: s[j] == samples[j];
    } else {
      assert forall j | 0 <= j < |samples| :: s[j] == samples[j];
      assert s[|samples|] == x;
    }
  }

  /** `e` is what the histogram of `samples` should hold for its name: the address and the
      name of the first sample with that name, and the number of samples with it. */
  predicate Summarises(samples: seq<Sample>, e: Entry) {
    var f := FirstSample(samples, e.name);
    f < |samples| && e.rip == samples[f].rip && e.name == Quote(samples[f].symbol)
    && e.count == Hits(samples, e.name)
  }

  lemma HitsSnoc(samples: seq<Sample>, x: Sample, name: string)
    ensures Hits(samples + [x], name) == Hits(samples, name) + if Quote(x.symbol) == name then 1 else 0
  {
    assert (samples + [x])[..|samples|] == samples;
  }

  /** A name the histogram lacks belongs to no sample so far. */
  lemma NewNameUnseen(samples: seq<Sample>, name: string)
    requires IndexOf(Condensed(samples), name) == |Condensed(samples)|
    ensures FirstSample(samples, name) == |samples|
  {
    CondensedCovers(samples);
  }

  /** An entry of the old histogram keeps summarising its name after one more sample. */
  lemma SummarisesKept(p: seq<Sample>, x: Sample, e: Entry, e': Entry)
    requires Summarises(p, e)
    requires e'.name == e.name && e'.rip == e.rip
    requires e'.count == e.count + if Quote(x.symbol) == e.name then 1 else 0
    ensures Summarises(p + [x], e')
  {
    var f := FirstSample(p, e.name);
    FirstSampleSnoc(p, x, e.name);
    HitsSnoc(p, x, e.name);
    assert (p + [x])[f] == p[f];
  }

  /** The entry appended for a new name summarises it. */
  lemma SummarisesNew(p: seq<Sample>, x: Sample)
    requires IndexOf(Condensed(p), Quote(x.symbol)) == |Condensed(p)|
    ensures Summarises(p + [x], Entry(x.rip, Quote(x.symbol), 1))
  {
    var name := Quote(x.symbol);
    NewNameUnseen(p, name);
    HitsNone(p, name);
    FirstSampleSnoc(p, x, name);
    HitsSnoc(p, x, name);
    assert (p + [x])[|p|] == x;
  }

  lemma SummarisesStep(p: seq<Sample>, x: Sample, k: nat)
    requires forall k' | 0 <= k' < |Condensed(p)| :: Summarises(p, Condensed(p)[k'])
    requires k < |Tally(Condensed(p), x)|
    ensures Summarises(p + [x], Tally(Condensed(p), x)[k])
  {
    var list := Condensed(p);
    var i := IndexOf(list, Quote(x.symbol));
    TallyNames(list, x);
    CondensedDistinct(p);
    if k < |list| {
      assert Summarises(p, list[k]);
      assert list[k].name == Quote(x.symbol) <==> k == i;
      SummarisesKept(p, x, list[k], Tally(list, x)[k]);
    } else {
      SummarisesNew(p, x);
    }
  }

  /** Each entry is the first sample of its name (its address, its name in stored form), and
      its count is the number of samples with that name. */
  lemma {:induction false} CondensedCounts(samples: seq<Sample>)
    ensures forall k | 0 <= k < |Condensed(samples)| :: Summarises(samples, Condensed(samples)[k])
  {
    if samples != [] {
      var n := |samples| - 1;
      var p, x := samples[..n], samples[n];
      assert p + [x] == samples;
      CondensedCounts(p);
      forall k | 0 <= k < |Condensed(samples)|
        ensures Summarises(samples, Condensed(samples)[k])
      {
        SummarisesStep(p, x, k);
      }
    }
  }

  /** The entries come in the order in which their names first occur. */
  lemma {:induction false} CondensedOrder(samples: seq<Sample>)
    ensures forall j, k | 0 <= j < k < |Condensed(samples)| ::
              FirstSample(samples, Condensed(samples)[j].name) < FirstSample(samples, Condensed(samples)[k].name)
  {
    if samples != [] {
      var n := |samples| - 1;
      var p, x := samples[..n], samples[n];
      assert p + [x] == samples;
      var list, list' := Condensed(p), Condensed(samples);
      CondensedOrder(p);
      CondensedCounts(p);
      TallyNames(list, x);
      forall j, k | 0 <= j < k < |list'|
        ensures FirstSample(samples, list'[j].name) < FirstSample(samples, list'[k].name)
      {
        FirstSampleSnoc(p, x, list'[j].name);
        FirstSampleSnoc(p, x, list'[k].name);
        assert list'[j].name == list[j].name && Summarises(p, list[j]);
        if k == |list| {
          NewNameUnseen(p, list'[k].name);
        } else {
          assert list'[k].name == list[k].name;
        }
      }
    }
  }

  lemma {:induction false} TotalAppend(list: seq<Entry>, e: Entry)
    ensures Total(list + [e]) == Total(list) + e.count
  {
    if list != [] {
      assert (list + [e])[1..] == list[1..] + [e];
      TotalAppend(list[1..], e);
    }
  }

  lemma {:induction false} TotalBump(list: seq<Entry>, k: nat)
    requires k < |list|
    ensures Total(list[k := list[k].(count := list[k].count + 1)]) == Total(list) + 1
  {
    var list' := list[k := list[k].(count := list[k].count + 1)];
    if k > 0 {
      assert list'[1..] == list[1..][k - 1 := list[k].(count := list[k].count + 1)];
      TotalBump(list[1..], k - 1);
    } else {
      assert list'[1..] == list[1..];
    }
  }

  /** The counts add up to the number of samples. */
  lemma {:induction false} CondensedTotal(samples: seq<Sample>)
    ensures Total(Condensed(samples)) == |samples|
  {
    if samples != [] {
      var n := |samples| - 1;
      var list := Condensed(samples[..n]);
      CondensedTotal(samples[..n]);
      var k := IndexOf(list, Quote(samples[n].symbol));
      if k == |list| {
        TotalAppend(list, Entry(samples[n].rip, Quote(samples[n].symbol), 1));
      } else {
        TotalBump(list, k);
      }
    }
  }

  /** The loop in `~Profiler` that builds a sample's stored name character by character. */
  method QuoteName(symbol: string) returns (name: string)
    ensures name == Quote(symbol)
  {
    var buffer := new char[|symbol| + 3];
    buffer[0] := '"';
    for j := 1 to |symbol| + 1
      invariant buffer[0] == '"'
      invariant forall k | 1 <= k < j :: buffer[k] == symbol[k - 1]
    {
      buffer[j] := symbol[j - 1];
    }
    buffer[|symbol| + 1] := '"';
    buffer[|symbol| + 2] := '\0';
    name := buffer[..];
  }

  /** The condensing loop of `~Profiler`: each sample's stored name is looked up with `find`
      on its full length (the name, the quotes and the NUL) and either appended or counted. */
  method Condense(samples: seq<Sample>) returns (list: seq<Entry>)
    requires forall i | 0 <= i < |samples| :: NulFree(samples[i].symbol)
    ensures list == Condensed(samples)
  {
    list := [];
    for i := 0 to |samples|
      invariant list == Condensed(samples[..i])
    {
      CondensedSnoc(samples, i);
      var name := QuoteName(samples[i].symbol);
      var result := Find(list, name, |samples[i].symbol| + 3);
      FindFindsName(samples[..i], samples[i].symbol, result);
      if result == -1 {
        list := list + [Entry(samples[i].rip, name, 1)];
      } else {
        list := list[result := list[result].(count := list[result].count + 1)];
      }
    }
    assert samples[..|samples|] == samples;
  }

  /** On the histogram of NUL-free names, `find`'s answer is the position of the name itself. */
  lemma FindFindsName(samples: seq<Sample>, symbol: string, r: int)
    requires forall i | 0 <= i < |samples| :: NulFree(samples[i].symbol)
    requires -1 <= r < |Condensed(samples)|
    requires var list := Condensed(samples);
             (r == -1 <==> forall i | 0 <= i < |list| :: !Matches(list[i].name, Quote(symbol), |symbol| + 3))
             && (r >= 0 ==> Matches(list[r].name, Quote(symbol), |symbol| + 3)
                            && forall i | 0 <= i < r :: !Matches(list[i].name, Quote(symbol), |symbol| + 3))
    ensures r == -1 ==> IndexOf(Condensed(samples), Quote(symbol)) == |Condensed(samples)|
    ensures r >= 0 ==> r == IndexOf(Condensed(samples), Quote(symbol))
  {
    var list := Condensed(samples);
    CondensedCounts(samples);
    forall k | 0 <= k < |list|
      ensures Matches(list[k].name, Quote(symbol), |symbol| + 3) <==> list[k].name == Quote(symbol)
    {
      assert Summarises(samples, list[k]);
      var f := FirstSample(samples, list[k].name);
      QuoteMatch(samples[f].symbol, symbol);
      if list[k].name == Quote(symbol) {
        QuoteInjective(samples[f].symbol, symbol);
      }
    }
  }
}
