/**
 * What one scrape computes, stated as pure functions: the namespaces' listings are
 * folded, secret by secret and value by value, into two tables keyed by the label
 * triple (cn, o, ou): one holding notAfter, the other notBefore. The lemmas say what
 * the tables hold at the end: which keys, which values, and when the scrape fails.
 */
module Aggregation {
  import opened Wrappers
  import opened CertParse

  /** The label triple a sample is keyed by. */
  datatype Labels = Labels(cn: string, o: string, ou: string)

  function LabelsOf(c: ParsedCert): Labels
  {
    Labels(c.cn, c.o, c.ou)
  }

  /** A secret as the exporter sees it: its data values, in the order they are visited (keys are ignored). */
  datatype Secret = Secret(data: seq<Bytes>)

  /** The outcome of listing the secrets of one namespace: an API error, or the secrets returned. */
  datatype Listing = ListFailed(reason: string) | Listed(items: seq<Secret>)

  /** The contents of the notAfter and notBefore gauge vectors. */
  datatype Tables = Tables(notAfter: map<Labels, int>, notBefore: map<Labels, int>)

  const EMPTY := Tables(map[], map[])

  /** One successful parse writes both gauges under its label triple, replacing what was there. */
  function Record(t: Tables, c: ParsedCert): Tables
  {
    Tables(t.notAfter[LabelsOf(c) := c.na], t.notBefore[LabelsOf(c) := c.nb])
  }

  /** Record each certificate in turn. */
  function RecordAll(t: Tables, cs: seq<ParsedCert>): Tables
  {
    if cs == [] then t else Record(RecordAll(t, cs[..|cs| - 1]), cs[|cs| - 1])
  }

  /** The records of the values that parse, in order; the values that fail to parse leave no trace. */
  function Successes(lib: Library, vs: seq<Bytes>): (r: seq<ParsedCert>)
    ensures |r| <= |vs|
    ensures forall c :: c in r <==> exists v :: v in vs && ParseSecret(lib, v) == Parsed(c, None)
  {
    if vs == [] then []
    else
      var p := ParseSecret(lib, vs[|vs| - 1]);
      Successes(lib, vs[..|vs| - 1]) + if p.err.None? then [p.res] else []
  }

  /** The label triples of a sequence of records. */
  function LabelSet(cs: seq<ParsedCert>): set<Labels>
  {
    set i | 0 <= i < |cs| :: LabelsOf(cs[i])
  }

  /** The innermost loop body: parse one value and record it when it parses. */
  function ObserveValue(lib: Library, t: Tables, v: Bytes): Tables
  {
    var p := ParseSecret(lib, v);
    if p.err.None? then Record(t, p.res) else t
  }

  /** The values of one secret, in order. */
  function ObserveValues(lib: Library, t: Tables, vs: seq<Bytes>): Tables
  {
    if vs == [] then t else ObserveValue(lib, ObserveValues(lib, t, vs[..|vs| - 1]), vs[|vs| - 1])
  }

  /** The secrets of one listing, in order. */
  function ObserveSecrets(lib: Library, t: Tables, ss: seq<Secret>): Tables
  {
    if ss == [] then t else ObserveValues(lib, ObserveSecrets(lib, t, ss[..|ss| - 1]), ss[|ss| - 1].data)
  }

  /** Every data value of a sequence of secrets, in the order the scrape visits them. */
  function AllValues(ss: seq<Secret>): seq<Bytes>
  {
    if ss == [] then [] else AllValues(ss[..|ss| - 1]) + ss[|ss| - 1].data
  }

  /** The secrets of the listings that succeeded, in order. */
  function ListedSecrets(ls: seq<Listing>): seq<Secret>
  {
    if ls == [] then []
    else ListedSecrets(ls[..|ls| - 1]) + match ls[|ls| - 1] { case ListFailed(_) => [] case Listed(ss) => ss }
  }

  /** Where a scrape stands: the tables so far, and the listing error that stopped it, if any. */
  datatype Progress = Progress(tables: Tables, failure: Option<string>)

  /**
   * The outer loop: list each namespace in turn and fold its secrets in; the first
   * listing error stops the scrape, and the namespaces after it are not listed.
   */
  function ScrapeNamespaces(lib: Library, t: Tables, ls: seq<Listing>): Progress
  {
    if ls == [] then Progress(t, None)
    else
      var p := ScrapeNamespaces(lib, t, ls[..|ls| - 1]);
      if p.failure.Some? then p
      else
        match ls[|ls| - 1]
        case ListFailed(reason) => Progress(p.tables, Some(reason))
        case Listed(ss) => Progress(ObserveSecrets(lib, p.tables, ss), None)
  }

  /** One whole scrape from empty tables: both tables, or the listing error that aborted it. */
  function Scraped(lib: Library, ls: seq<Listing>): Result<Tables, string>
  {
    var p := ScrapeNamespaces(lib, EMPTY, ls);
    if p.failure.Some? then Failure(p.failure.value) else Success(p.tables)
  }

  // ---------------------------------------------------------------------------
  // From the nested loops to one sequence of successful parses

  lemma {:induction false} RecordAllAppend(t: Tables, a: seq<ParsedCert>, b: seq<ParsedCert>)
    ensures RecordAll(t, a + b) == RecordAll(RecordAll(t, a), b)
    decreases |b|
  {
    if b == [] {
      assert a + b == a;
    } else {
      var b' := b[..|b| - 1];
      RecordAllAppend(t, a, b');
      assert (a + b)[..|a + b| - 1] == a + b';
      assert (a + b)[|a + b| - 1] == b[|b| - 1];
    }
  }

  lemma {:induction false} SuccessesAppend(lib: Library, a: seq<Bytes>, b: seq<Bytes>)
    ensures Successes(lib, a + b) == Successes(lib, a) + Successes(lib, b)
    decreases |b|
  {
    if b == [] {
      assert a + b == a;
    } else {
      var b' := b[..|b| - 1];
      SuccessesAppend(lib, a, b');
      assert (a + b)[..|a + b| - 1] == a + b';
      assert (a + b)[|a + b| - 1] == b[|b| - 1];
    }
  }

  /** Walking the values of a secret records exactly the values that parse, in order. */
  lemma {:induction false} ObserveValuesIsRecordAll(lib: Library, t: Tables, vs: seq<Bytes>)
    ensures ObserveValues(lib, t, vs) == RecordAll(t, Successes(lib, vs))
    decreases |vs|
  {
    if vs != [] {
      var vs' := vs[..|vs| - 1];
      var p := ParseSecret(lib, vs[|vs| - 1]);
      ObserveValuesIsRecordAll(lib, t, vs');
      if p.err.None? {
        RecordAllAppend(t, Successes(lib, vs'), [p.res]);
        assert RecordAll(RecordAll(t, Successes(lib, vs')), [p.res])
            == Record(RecordAll(t, Successes(lib, vs')), p.res);
      } else {
        assert ObserveValues(lib, t, vs) == ObserveValues(lib, t, vs');
        assert Successes(lib, vs) == Successes(lib, vs') + [];
        assert Successes(lib, vs') + [] == Successes(lib, vs');
      }
    }
  }

  /** Walking the secrets of a listing records every value of every secret that parses, in order. */
  lemma {:induction false} ObserveSecretsIsRecordAll(lib: Library, t: Tables, ss: seq<Secret>)
    ensures ObserveSecrets(lib, t, ss) == RecordAll(t, Successes(lib, AllValues(ss)))
    decreases |ss|
  {
    if ss != [] {
      var ss' := ss[..|ss| - 1];
      var last := ss[|ss| - 1].data;
      ObserveSecretsIsRecordAll(lib, t, ss');
      ObserveValuesIsRecordAll(lib, ObserveSecrets(lib, t, ss'), last);
      SuccessesAppend(lib, AllValues(ss'), last);
      RecordAllAppend(t, Successes(lib, AllValues(ss')), Successes(lib, last));
    }
  }

  /** Once a listing has failed, the namespaces after it change nothing. */
  lemma {:induction false} FailureSticks(lib: Library, t: Tables, ls: seq<Listing>, k: nat)
    requires k <= |ls|
    requires ScrapeNamespaces(lib, t, ls[..k]).failure.Some?
    ensures ScrapeNamespaces(lib, t, ls) == ScrapeNamespaces(lib, t, ls[..k])
    decreases |ls| - k
  {
    if k < |ls| {
      assert ls[..k + 1][..k] == ls[..k];
      FailureSticks(lib, t, ls, k + 1);
    } else {
      assert ls[..k] == ls;
    }
  }

  /** When every listing succeeds, the scrape records every successful parse across all namespaces, in order. */
  lemma {:induction false} AllListedScrape(lib: Library, t: Tables, ls: seq<Listing>)
    requires forall i :: 0 <= i < |ls| ==> ls[i].Listed?
    ensures ScrapeNamespaces(lib, t, ls)
         == Progress(RecordAll(t, Successes(lib, AllValues(ListedSecrets(ls)))), None)
    decreases |ls|
  {
    if ls != [] {
      var ls' := ls[..|ls| - 1];
      var ss := ls[|ls| - 1].items;
      AllListedScrape(lib, t, ls');
      var before := RecordAll(t, Successes(lib, AllValues(ListedSecrets(ls'))));
      ObserveSecretsIsRecordAll(lib, before, ss);
      AllValuesAppend(ListedSecrets(ls'), ss);
      SuccessesAppend(lib, AllValues(ListedSecrets(ls')), AllValues(ss));
      RecordAllAppend(t, Successes(lib, AllValues(ListedSecrets(ls'))), Successes(lib, AllValues(ss)));
    }
  }

  lemma {:induction false} AllValuesAppend(a: seq<Secret>, b: seq<Secret>)
    ensures AllValues(a + b) == AllValues(a) + AllValues(b)
    decreases |b|
  {
    if b == [] {
      assert a + b == a;
    } else {
      var b' := b[..|b| - 1];
      AllValuesAppend(a, b');
      assert (a + b)[..|a + b| - 1] == a + b';
      assert (a + b)[|a + b| - 1] == b[|b| - 1];
    }
  }

  /**
   * A scrape fails exactly when some namespace's listing fails, and then it reports
   * the error of the first one that did.
   */
  lemma {:induction false} ScrapeFailure(lib: Library, t: Tables, ls: seq<Listing>)
    ensures ScrapeNamespaces(lib, t, ls).failure.Some? <==> exists i :: 0 <= i < |ls| && ls[i].ListFailed?
    ensures ScrapeNamespaces(lib, t, ls).failure.Some? ==>
      exists i :: 0 <= i < |ls| && ls[i].ListFailed?
        && ScrapeNamespaces(lib, t, ls).failure == Some(ls[i].reason)
        && (forall j :: 0 <= j < i ==> ls[j].Listed?)
    decreases |ls|
  {
    if ls != [] {
      var ls' := ls[..|ls| - 1];
      ScrapeFailure(lib, t, ls');
      assert forall i :: 0 <= i < |ls'| ==> ls'[i] == ls[i];
      if ScrapeNamespaces(lib, t, ls').failure.Some? {
        var i :| 0 <= i < |ls'| && ls'[i].ListFailed?
          && ScrapeNamespaces(lib, t, ls').failure == Some(ls'[i].reason)
          && forall j :: 0 <= j < i ==> ls'[j].Listed?;
        assert ls[i].ListFailed?;
      }
    }
  }

  // ---------------------------------------------------------------------------
  // What the tables hold after recording a sequence of parses

  /** Both tables gain exactly the label triples of the records, whatever they held before. */
  lemma {:induction false} RecordAllKeys(t: Tables, cs: seq<ParsedCert>)
    ensures RecordAll(t, cs).notAfter.Keys == t.notAfter.Keys + LabelSet(cs)
    ensures RecordAll(t, cs).notBefore.Keys == t.notBefore.Keys + LabelSet(cs)
    decreases |cs|
  {
    if cs != [] {
      var cs' := cs[..|cs| - 1];
      RecordAllKeys(t, cs');
      LabelSetSnoc(cs);
    }
  }

  lemma LabelSetSnoc(cs: seq<ParsedCert>)
    requires cs != []
    ensures LabelSet(cs) == LabelSet(cs[..|cs| - 1]) + {LabelsOf(cs[|cs| - 1])}
  {
    var cs' := cs[..|cs| - 1];
    forall k | k in LabelSet(cs) ensures k in LabelSet(cs') + {LabelsOf(cs[|cs| - 1])} {
      var i :| 0 <= i < |cs| && LabelsOf(cs[i]) == k;
      if i < |cs'| { assert cs'[i] == cs[i]; }
    }
    forall k | k in LabelSet(cs') ensures k in LabelSet(cs) {
      var i :| 0 <= i < |cs'| && LabelsOf(cs'[i]) == k;
      assert cs[i] == cs'[i];
    }
  }

  /** A label triple that no record carries keeps its old entries, or stays absent. */
  lemma {:induction false} RecordAllKeepsOthers(t: Tables, cs: seq<ParsedCert>, k: Labels)
    requires k !in LabelSet(cs)
    ensures k in RecordAll(t, cs).notAfter <==> k in t.notAfter
    ensures k in t.notAfter ==> RecordAll(t, cs).notAfter[k] == t.notAfter[k]
    ensures k in RecordAll(t, cs).notBefore <==> k in t.notBefore
    ensures k in t.notBefore ==> RecordAll(t, cs).notBefore[k] == t.notBefore[k]
    decreases |cs|
  {
    if cs != [] {
      LabelSetSnoc(cs);
      RecordAllKeepsOthers(t, cs[..|cs| - 1], k);
    }
  }

  /** `i` is the position of the last record carrying the label triple `k`. */
  ghost predicate IsLastWith(cs: seq<ParsedCert>, i: int, k: Labels)
  {
    0 <= i < |cs| && LabelsOf(cs[i]) == k && forall j :: i < j < |cs| ==> LabelsOf(cs[j]) != k
  }

  /**
   * Last write wins: for a label triple that some record carries, both tables hold
   * the notAfter and notBefore of the last record carrying it.
   */
  lemma {:induction false} LastWriteWins(t: Tables, cs: seq<ParsedCert>, k: Labels)
    requires k in LabelSet(cs)
    ensures k in RecordAll(t, cs).notAfter && k in RecordAll(t, cs).notBefore
    ensures exists i :: (IsLastWith(cs, i, k)
      && RecordAll(t, cs).notAfter[k] == cs[i].na && RecordAll(t, cs).notBefore[k] == cs[i].nb)
    decreases |cs|
  {
    var n := |cs| - 1;
    var cs' := cs[..n];
    LabelSetSnoc(cs);
    if LabelsOf(cs[n]) == k {
      assert IsLastWith(cs, n, k);
    } else {
      LastWriteWins(t, cs', k);
      var i :| IsLastWith(cs', i, k)
        && RecordAll(t, cs').notAfter[k] == cs'[i].na && RecordAll(t, cs').notBefore[k] == cs'[i].nb;
      assert cs[i] == cs'[i];
      assert IsLastWith(cs, i, k) by {
        forall j | i < j < |cs| ensures LabelsOf(cs[j]) != k {
          if j < n { assert cs[j] == cs'[j]; }
        }
      }
    }
  }

  /** Records whose label triples are pairwise distinct. */
  ghost predicate DistinctLabels(cs: seq<ParsedCert>)
  {
    forall i, j :: 0 <= i < j < |cs| ==> LabelsOf(cs[i]) != LabelsOf(cs[j])
  }

  /** There are at most as many label triples as records, and exactly as many when they are distinct. */
  lemma {:induction false} LabelSetSize(cs: seq<ParsedCert>)
    ensures |LabelSet(cs)| <= |cs|
    ensures DistinctLabels(cs) ==> |LabelSet(cs)| == |cs|
    decreases |cs|
  {
    if cs != [] {
      var cs' := cs[..|cs| - 1];
      LabelSetSnoc(cs);
      LabelSetSize(cs');
      if DistinctLabels(cs) {
        assert DistinctLabels(cs') by {
          forall i, j | 0 <= i < j < |cs'| ensures LabelsOf(cs'[i]) != LabelsOf(cs'[j]) {
            assert cs'[i] == cs[i] && cs'[j] == cs[j];
          }
        }
        forall i | 0 <= i < |cs'| ensures LabelsOf(cs'[i]) != LabelsOf(cs[|cs| - 1]) {
          assert cs'[i] == cs[i];
        }
        assert LabelsOf(cs[|cs| - 1]) !in LabelSet(cs');
      }
    }
  }

  /** A value that fails to parse can be dropped from the values without changing the tables. */
  lemma FailedValueIsSkipped(lib: Library, t: Tables, vs: seq<Bytes>, i: nat)
    requires i < |vs|
    requires ParseSecret(lib, vs[i]).err.Some?
    ensures ObserveValues(lib, t, vs[..i] + vs[i + 1..]) == ObserveValues(lib, t, vs)
  {
    var a, x, b := vs[..i], vs[i], vs[i + 1..];
    assert vs == (a + [x]) + b;
    assert Successes(lib, [x]) == [] by {
      assert [x][..0] == [];
    }
    calc {
      Successes(lib, vs);
      { SuccessesAppend(lib, a + [x], b); }
      Successes(lib, a + [x]) + Successes(lib, b);
      { SuccessesAppend(lib, a, [x]); }
      Successes(lib, a) + Successes(lib, b);
      { SuccessesAppend(lib, a, b); }
      Successes(lib, a + b);
    }
    ObserveValuesIsRecordAll(lib, t, vs);
    ObserveValuesIsRecordAll(lib, t, a + b);
  }

  // ---------------------------------------------------------------------------
  // One whole scrape

  /**
   * A scrape that succeeds yields two tables with the same keys: the label triples
   * of all values that parsed, one entry per distinct triple (at most one per parsed
   * value, exactly one when the triples are distinct), each holding the notAfter and
   * notBefore of the last value with that triple in visiting order.
   */
  lemma ScrapedTables(lib: Library, ls: seq<Listing>)
    requires Scraped(lib, ls).Success?
    ensures
      var tables := Scraped(lib, ls).value;
      var cs := Successes(lib, AllValues(ListedSecrets(ls)));
      && tables.notAfter.Keys == tables.notBefore.Keys == LabelSet(cs)
      && |tables.notAfter| <= |cs|
      && (DistinctLabels(cs) ==> |tables.notAfter| == |cs|)
      && forall k :: k in tables.notAfter ==>
           (exists i :: IsLastWith(cs, i, k) && tables.notAfter[k] == cs[i].na && tables.notBefore[k] == cs[i].nb)
  {
    var cs := Successes(lib, AllValues(ListedSecrets(ls)));
    assert Scraped(lib, ls).value == RecordAll(EMPTY, cs) by {
      ScrapeFailure(lib, EMPTY, ls);
      AllListedScrape(lib, EMPTY, ls);
    }
    RecordAllContents(cs);
  }

  /** The tables built from empty by recording `cs`: keys, size and last-write-wins values. */
  lemma RecordAllContents(cs: seq<ParsedCert>)
    ensures
      var tables := RecordAll(EMPTY, cs);
      && tables.notAfter.Keys == tables.notBefore.Keys == LabelSet(cs)
      && |tables.notAfter| <= |cs|
      && (DistinctLabels(cs) ==> |tables.notAfter| == |cs|)
      && forall k :: k in tables.notAfter ==>
           (exists i :: IsLastWith(cs, i, k) && tables.notAfter[k] == cs[i].na && tables.notBefore[k] == cs[i].nb)
  {
    var tables := RecordAll(EMPTY, cs);
    RecordAllKeys(EMPTY, cs);
    LabelSetSize(cs);
    assert |tables.notAfter| == |tables.notAfter.Keys|;
    forall k | k in tables.notAfter
      ensures exists i :: IsLastWith(cs, i, k) && tables.notAfter[k] == cs[i].na && tables.notBefore[k] == cs[i].nb
    {
      LastWriteWins(EMPTY, cs, k);
    }
  }

  /** A scrape fails exactly when some listing fails, with the first failing listing's error, and then yields no tables. */
  lemma ScrapedFailure(lib: Library, ls: seq<Listing>)
    ensures Scraped(lib, ls).Failure? <==> exists i :: 0 <= i < |ls| && ls[i].ListFailed?
    ensures Scraped(lib, ls).Failure? ==>
      exists i :: 0 <= i < |ls| && ls[i].ListFailed? && Scraped(lib, ls).error == ls[i].reason
        && (forall j :: 0 <= j < i ==> ls[j].Listed?)
  {
    ScrapeFailure(lib, EMPTY, ls);
  }
}
