/**
 * The exporter proper: two gauge vectors updated in place by a triple loop over
 * namespaces, secrets and data values, and a collector that builds fresh vectors
 * for every scrape request.
 *
 * The cluster client is not modelled; what one scrape observes from it is a
 * parameter: `observed[i]` is what listing the secrets of `namespaces[i]` returned.
 */
module Collector {
  import opened Wrappers
  import opened GoStrings
  import opened CertParse
  import opened Aggregation

  /** The page size the exporter asks for; only the first page of each listing is read. */
  const PAGE_LIMIT := 200

  /** The options of every secret listing: the label selector and the page size. */
  datatype ListOptions = ListOptions(labelSelector: string, limit: nat)

  /** A gauge vector: one value per label triple, set in place. */
  class GaugeVec {
    var values: map<Labels, int>

    constructor ()
      ensures values == map[]
    {
      values := map[];
    }

    /** `WithLabelValues(cn, o, ou).Set(v)`: create or overwrite the gauge of that triple. */
    method Set(labels: Labels, v: int)
      modifies this
      ensures values == old(values)[labels := v]
    {
      values := values[labels := v];
    }
  }

  class Exporter {
    const listOptions: ListOptions
    const namespaces: seq<string>

    /** Built once at start-up from the namespace selector and the label selector. */
    constructor (nsSelector: string, labelSelector: string)
      ensures listOptions == ListOptions(labelSelector, PAGE_LIMIT)
      ensures namespaces == Split(nsSelector, ',')
      ensures |namespaces| == Count(nsSelector, ',') + 1
    {
      listOptions := ListOptions(labelSelector, PAGE_LIMIT);
      namespaces := Split(nsSelector, ',');
    }

    /**
     * Fill the two vectors: every value that parses sets both gauges of its label
     * triple; a value that does not parse is skipped. A listing error stops the scrape
     * at that namespace and is returned; the vectors then hold what the namespaces
     * before it contributed.
     */
    method Scrape(lib: Library, observed: seq<Listing>, gvNA: GaugeVec, gvNB: GaugeVec)
      returns (failure: Option<string>)
      requires |observed| == |namespaces|
      requires gvNA != gvNB
      modifies gvNA, gvNB
      ensures ScrapeNamespaces(lib, Tables(old(gvNA.values), old(gvNB.values)), observed)
           == Progress(Tables(gvNA.values, gvNB.values), failure)
    {
      ghost var start := Tables(gvNA.values, gvNB.values);
      var i := 0;
      while i < |namespaces|
        invariant 0 <= i <= |namespaces|
        invariant ScrapeNamespaces(lib, start, observed[..i]) == Progress(Tables(gvNA.values, gvNB.values), None)
      {
        assert observed[..i + 1][..i] == observed[..i];
        match observed[i]
        case ListFailed(reason) =>
          FailureSticks(lib, start, observed, i + 1);
          return Some(reason);
        case Listed(secrets) =>
          ghost var beforeNamespace := Tables(gvNA.values, gvNB.values);
          var j := 0;
          while j < |secrets|
            invariant 0 <= j <= |secrets|
            invariant ObserveSecrets(lib, beforeNamespace, secrets[..j]) == Tables(gvNA.values, gvNB.values)
          {
            assert secrets[..j + 1][..j] == secrets[..j];
            ghost var beforeSecret := Tables(gvNA.values, gvNB.values);
            var data := secrets[j].data;
            var k := 0;
            while k < |data|
              invariant 0 <= k <= |data|
              invariant ObserveValues(lib, beforeSecret, data[..k]) == Tables(gvNA.values, gvNB.values)
            {
              assert data[..k + 1][..k] == data[..k];
              var cert := ParseSecret(lib, data[k]);
              if cert.err.None? {
                var key := LabelsOf(cert.res);
                gvNA.Set(key, cert.res.na);
                gvNB.Set(key, cert.res.nb);
              }
              k := k + 1;
            }
            assert data[..k] == data;
            j := j + 1;
          }
          assert secrets[..j] == secrets;
        i := i + 1;
      }
      assert observed[..i] == observed;
      failure := None;
    }

    /**
     * Answer one scrape request: two fresh, empty vectors, filled by one scrape and
     * emitted whole; a listing error aborts the request and emits nothing. The answer
     * is a function of what this request observed and nothing else, and no object that
     * existed before the call is changed.
     */
    method Collect(lib: Library, observed: seq<Listing>) returns (r: Result<Tables, string>)
      requires |observed| == |namespaces|
      ensures r == Scraped(lib, observed)
    {
      var gvNA := new GaugeVec();
      var gvNB := new GaugeVec();
      var failure := Scrape(lib, observed, gvNA, gvNB);
      if failure.Some? {
        return Failure(failure.value);
      }
      r := Success(Tables(gvNA.values, gvNB.values));
    }
  }
}
