/** The differ (cloudwater.py `check_difference`, `check_for_changes`). What the source
    prints is modelled as a log: the sequence of `print` arguments, in order. */
module Differ {
  import opened Wrappers
  import opened Beers

  /** One `print` argument: a plain string, or a beer record (printed through its `repr`). */
  datatype Printed = Text(text: string) | Record(beer: Beer)

  /** The header `check_difference` prints before the records it reports. */
  function DiffHeader(suffix: string): string
  {
    "Some beers were " + suffix + ":"
  }

  /** The header printed on a first run. */
  const NoPreviousHeader: string := "No previous record found! Beers are:"

  /** `ks` lists every key of `keys` exactly once (an iteration order of the set). */
  ghost predicate Enumerates(ks: seq<string>, keys: set<string>)
  {
    && (forall i, j | 0 <= i < j < |ks| :: ks[i] != ks[j])
    && (forall i | 0 <= i < |ks| :: ks[i] in keys)
    && (forall k | k in keys :: k in ks)
  }

  /** The records of `m` under the keys `ks`, in that order. */
  function Records(m: Snapshot, ks: seq<string>): (lines: seq<Printed>)
    requires forall i | 0 <= i < |ks| :: ks[i] in m
    ensures |lines| == |ks|
    ensures forall i | 0 <= i < |ks| :: lines[i] == Record(m[ks[i]])
  {
    if ks == [] then [] else [Record(m[ks[0]])] + Records(m, ks[1..])
  }

  /** `lines` prints the record of `m` under each key of `keys` once, in some order. */
  ghost predicate Listing(lines: seq<Printed>, m: Snapshot, keys: set<string>)
  {
    && keys <= m.Keys
    && exists ks :: Enumerates(ks, keys) && lines == Records(m, ks)
  }

  /** What `check_difference(from, to, suffix)` prints: nothing when every key of `to` is in
      `from`, else the header and then the record, taken from `to`, of each key missing
      from `from`. */
  ghost predicate DiffReport(lines: seq<Printed>, from: Snapshot, to: Snapshot, suffix: string)
  {
    Report(lines, from, to, Text(DiffHeader(suffix)))
  }

  /** Nothing when every key of `to` is in `from`, else `header` and then the records. */
  ghost predicate Report(lines: seq<Printed>, from: Snapshot, to: Snapshot, header: Printed)
  {
    var differences := to.Keys - from.Keys;
    if differences == {} then lines == []
    else |lines| > 0 && lines[0] == header && Listing(lines[1..], to, differences)
  }

  /** Prints the record of `m` under each key of `keys`, in an unspecified order (the loop
      over a Python set or over `dict.values()`). */
  method PrintRecords(m: Snapshot, keys: set<string>, log: seq<Printed>) returns (out: seq<Printed>)
    requires keys <= m.Keys
    ensures |log| <= |out| && out[..|log|] == log
    ensures Listing(out[|log|..], m, keys)
  {
    out := log;
    var remaining := keys;
    ghost var ks: seq<string> := [];
    while remaining != {}
      invariant remaining <= keys
      invariant forall i | 0 <= i < |ks| :: ks[i] in m && ks[i] !in remaining
      invariant Enumerates(ks, keys - remaining)
      invariant out == log + Records(m, ks)
      decreases remaining
    {
      var k :| k in remaining;
      out := out + [Record(m[k])];
      ks := ks + [k];
      remaining := remaining - {k};
    }
    assert out[|log|..] == Records(m, ks);
  }

  /** What `check_difference` has printed when nothing differs. */
  lemma NothingReported(beers: Snapshot, otherBeers: Snapshot, header: Printed, log: seq<Printed>)
    requires otherBeers.Keys - beers.Keys == {}
    ensures !exists k :: k in otherBeers && k !in beers
    ensures Report(log[|log|..], beers, otherBeers, header)
  {
    forall k | k in otherBeers ensures k in beers {
      assert k !in otherBeers.Keys - beers.Keys;
    }
    assert log[|log|..] == [];
  }

  /** What `check_difference` has printed after the header and the records. */
  lemma SomethingReported(beers: Snapshot, otherBeers: Snapshot, header: Printed,
                          log: seq<Printed>, out: seq<Printed>)
    requires otherBeers.Keys - beers.Keys != {}
    requires |log| + 1 <= |out| && out[..|log| + 1] == log + [header]
    requires Listing(out[|log| + 1..], otherBeers, otherBeers.Keys - beers.Keys)
    ensures exists k :: k in otherBeers && k !in beers
    ensures out[..|log|] == log
    ensures Report(out[|log|..], beers, otherBeers, header)
  {
    var k :| k in otherBeers.Keys - beers.Keys;
    AfterHeader(out, log, header);
  }

  /** Splitting a log that extends `log + [header]`. */
  lemma AfterHeader<T>(out: seq<T>, log: seq<T>, header: T)
    requires |log| + 1 <= |out| && out[..|log| + 1] == log + [header]
    ensures out[..|log|] == log
    ensures |out[|log|..]| > 0 && out[|log|..][0] == header
    ensures out[|log|..][1..] == out[|log| + 1..]
  {
    assert out[..|log|] == (log + [header])[..|log|];
    assert out[|log|] == out[..|log| + 1][|log|];
  }

  /** `check_difference(beers, otherBeers, suffix)`: reports the keys of `otherBeers` that
      `beers` lacks, printing each record from `otherBeers`, and says whether there were any. */
  method CheckDifference(beers: Snapshot, otherBeers: Snapshot, suffix: string, log: seq<Printed>)
    returns (changed: bool, out: seq<Printed>)
    ensures changed <==> exists k :: k in otherBeers && k !in beers
    ensures |log| <= |out| && out[..|log|] == log
    ensures DiffReport(out[|log|..], beers, otherBeers, suffix)
  {
    var header := Text(DiffHeader(suffix));
    var differences := otherBeers.Keys - beers.Keys;
    if differences == {} {
      NothingReported(beers, otherBeers, header, log);
      changed, out := false, log;
    } else {
      out := PrintRecords(otherBeers, differences, log + [header]);
      SomethingReported(beers, otherBeers, header, log, out);
      changed := true;
    }
  }

  /** `check_for_changes(beers)` with the stored snapshot as `previous`. With one, it prints
      the removed records (from `previous`) and then the added ones (from `beers`) and says
      whether the key sets differ; without one, it lists every record and says yes. */
  method CheckForChanges(beers: Snapshot, previous: Option<Snapshot>)
    returns (changed: bool, out: seq<Printed>)
    ensures previous.None? ==>
              && changed
              && |out| > 0 && out[0] == Text(NoPreviousHeader)
              && Listing(out[1..], beers, beers.Keys)
    ensures previous.Some? ==> (changed <==> previous.value.Keys != beers.Keys)
    ensures previous.Some? ==>
              exists n | 0 <= n <= |out| ::
                && DiffReport(out[..n], beers, previous.value, "removed")
                && DiffReport(out[n..], previous.value, beers, "added")
    ensures previous.Some? && previous.value.Keys == beers.Keys ==> !changed && out == []
  {
    match previous
    case Some(previousBeers) =>
      var someRemoved, removedLog := CheckDifference(beers, previousBeers, "removed", []);
      var someAdded, fullLog := CheckDifference(previousBeers, beers, "added", removedLog);
      changed, out := someAdded || someRemoved, fullLog;
      KeysDiffer(previousBeers, beers);
      ghost var n := |removedLog|;
      assert out == out[..n] + out[n..];
      assert DiffReport(out[..n], beers, previousBeers, "removed");
      assert DiffReport(out[n..], previousBeers, beers, "added");
      if previousBeers.Keys == beers.Keys {
        assert out[..n] == [] && out[n..] == [];
        assert out == out[..n] + out[n..];
      }
    case None =>
      var header := Text(NoPreviousHeader);
      out := PrintRecords(beers, beers.Keys, [header]);
      AfterHeader(out, [], header);
      changed := true;
  }

  /** Two snapshots have different key sets exactly when one has a key the other lacks. */
  lemma KeysDiffer(a: Snapshot, b: Snapshot)
    ensures a.Keys != b.Keys <==>
            (exists k :: k in a && k !in b) || (exists k :: k in b && k !in a)
  {
    if a.Keys != b.Keys {
      var k :| (k in a.Keys) != (k in b.Keys);
    }
  }

  /** A duplicate-free list of keys has as many entries as its set. */
  lemma {:induction false} EnumerationSize(ks: seq<string>, keys: set<string>)
    requires Enumerates(ks, keys)
    ensures |ks| == |keys|
    decreases |ks|
  {
    if ks != [] {
      var rest := ks[1..];
      assert Enumerates(rest, keys - {ks[0]}) by {
        forall k | k in keys - {ks[0]} ensures k in rest {
          var i :| 0 <= i < |ks| && ks[i] == k;
          assert i != 0;
          assert rest[i - 1] == k;
        }
      }
      EnumerationSize(rest, keys - {ks[0]});
    } else {
      assert forall k | k in keys :: k in ks;
      assert keys == {};
    }
  }

  /** A listing prints one line per key: the record of every key, and nothing else. */
  lemma ListingContents(lines: seq<Printed>, m: Snapshot, keys: set<string>)
    requires Listing(lines, m, keys)
    ensures |lines| == |keys|
    ensures forall k | k in keys :: Record(m[k]) in lines
    ensures forall p | p in lines :: exists k :: k in keys && p == Record(m[k])
  {
    var ks :| Enumerates(ks, keys) && lines == Records(m, ks);
    EnumerationSize(ks, keys);
    forall k | k in keys ensures Record(m[k]) in lines {
      var i :| 0 <= i < |ks| && ks[i] == k;
      assert lines[i] == Record(m[k]);
    }
    forall p | p in lines ensures exists k :: k in keys && p == Record(m[k]) {
      var i :| 0 <= i < |lines| && lines[i] == p;
      assert ks[i] in keys && p == Record(m[ks[i]]);
    }
  }

  /** When every record is stored under its own name and names hold no newline (as in a
      snapshot the extractor builds from single-line titles), the rendered lines of a listing
      are pairwise different: each record shows up exactly once. */
  lemma ListingRendersOnce(lines: seq<Printed>, m: Snapshot, keys: set<string>, fmt: string -> string)
    requires Listing(lines, m, keys)
    requires forall k | k in keys :: m[k].name == k && '\n' !in k
    ensures forall i, j | 0 <= i < j < |lines| :: Shown(lines[i], fmt) != Shown(lines[j], fmt)
  {
    var ks :| Enumerates(ks, keys) && lines == Records(m, ks);
    forall i, j | 0 <= i < j < |lines| ensures Shown(lines[i], fmt) != Shown(lines[j], fmt) {
      var bi, bj := m[ks[i]], m[ks[j]];
      assert ks[i] != ks[j];
      if Render(bi, fmt) == Render(bj, fmt) {
        RenderDistinguishesNames(bi, bj, fmt);
      }
    }
  }

  /** What one direction of the diff reports: nothing exactly when `to` has no key that
      `from` lacks; otherwise the header, then the record from `to` of every such key, and
      no other record. */
  lemma DiffReportContents(lines: seq<Printed>, from: Snapshot, to: Snapshot, suffix: string)
    requires DiffReport(lines, from, to, suffix)
    ensures lines == [] <==> to.Keys <= from.Keys
    ensures lines != [] ==> lines[0] == Text(DiffHeader(suffix))
    ensures forall k | k in to && k !in from :: Record(to[k]) in lines
    ensures lines != [] ==> forall p | p in lines[1..] :: exists k :: k in to && k !in from && p == Record(to[k])
  {
    var differences := to.Keys - from.Keys;
    if differences != {} {
      var k :| k in differences;
      ListingContents(lines[1..], to, differences);
      forall k | k in differences ensures Record(to[k]) in lines {
        assert Record(to[k]) in lines[1..];
      }
    } else {
      assert to.Keys <= from.Keys by {
        forall k | k in to.Keys ensures k in from.Keys {
          assert k !in differences;
        }
      }
    }
  }

  /** Previous keys {A, B} and new keys {B, C}: the "removed" block names A with its old
      record, the "added" block names C with its new record, and B is in neither. */
  lemma DirectionExample(a: Beer, b: Beer, b': Beer, c: Beer, removed: seq<Printed>, added: seq<Printed>)
    requires DiffReport(removed, map["B" := b', "C" := c], map["A" := a, "B" := b], "removed")
    requires DiffReport(added, map["A" := a, "B" := b], map["B" := b', "C" := c], "added")
    ensures removed == [Text(DiffHeader("removed")), Record(a)]
    ensures added == [Text(DiffHeader("added")), Record(c)]
  {
    var previous, current := map["A" := a, "B" := b], map["B" := b', "C" := c];
    assert "A" != "B" && "B" != "C" && "A" != "C";
    assert previous.Keys - current.Keys == {"A"};
    assert current.Keys - previous.Keys == {"C"};
    ListingOfOne(removed[1..], previous, "A");
    ListingOfOne(added[1..], current, "C");
    assert removed == [removed[0]] + removed[1..];
    assert added == [added[0]] + added[1..];
  }

  lemma ListingOfOne(lines: seq<Printed>, m: Snapshot, k: string)
    requires Listing(lines, m, {k})
    ensures lines == [Record(m[k])]
  {
    ListingContents(lines, m, {k});
  }

  /** `str()` of a print argument. */
  function Shown(p: Printed, fmt: string -> string): string
  {
    match p
    case Text(t) => t
    case Record(b) => Render(b, fmt)
  }

  /** The printed values as strings, in order. */
  function Transcript(lines: seq<Printed>, fmt: string -> string): (texts: seq<string>)
    ensures |texts| == |lines|
  {
    seq(|lines|, i requires 0 <= i < |lines| => Shown(lines[i], fmt))
  }

  /** The text the source captures from standard output: each printed string followed by a
      newline. */
  function Captured(texts: seq<string>): string
  {
    if texts == [] then "" else texts[0] + "\n" + Captured(texts[1..])
  }

  /** Capturing two stretches of output one after the other gives the concatenated text. */
  lemma {:induction false} CapturedAppend(a: seq<string>, b: seq<string>)
    ensures Captured(a + b) == Captured(a) + Captured(b)
    decreases |a|
  {
    if a != [] {
      var first := a[0] + "\n";
      assert (a + b)[0] == a[0];
      assert (a + b)[1..] == a[1..] + b;
      CapturedAppend(a[1..], b);
      calc {
        Captured(a + b);
        first + Captured(a[1..] + b);
        first + (Captured(a[1..]) + Captured(b));
        (first + Captured(a[1..])) + Captured(b);
      }
    } else {
      assert a + b == b;
    }
  }

  /** The captured text of a run is empty exactly when nothing was printed. */
  lemma CapturedEmpty(lines: seq<Printed>, fmt: string -> string)
    ensures Captured(Transcript(lines, fmt)) == "" <==> lines == []
  {
  }
}
