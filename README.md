# Certificate-expiry exporter: a Dafny model of its scrape pipeline

The exporter lists the secrets of a set of cluster namespaces and tries to read every
data value of every secret as a PEM-encoded X.509 certificate. For each certificate it
finds, it publishes two gauges, `hlf_cert_not_after` and `hlf_cert_not_before`. Both hold
Unix seconds and are labelled by the subject's common name, organization and
organizational unit (`cn`, `o`, `ou`). Every metrics request runs one fresh scrape.

The model has five modules:

- `Wrappers` (wrappers.dfy): `Option` and `Result`.
- `GoStrings` (go_strings.dfy): `strings.Split` and `strings.Join` for a one-character
  separator. The split turns the `-ns` selector into the namespace list. The join builds
  the `o` and `ou` labels.
- `CertParse` (cert_parse.dfy): the `parsedCert` record and `parseSecret`. The PEM
  decoder and the X.509 parser are the two partial functions of a `Library` value.
  Nothing is assumed about them, so every lemma holds for any decoder pair.
- `Aggregation` (aggregation.dfy): what one scrape computes, as pure folds. There is one
  fold per loop of `scrape`. The lemmas say which keys the two tables end up with,
  which values they hold, and when a scrape fails.
- `Collector` (collector.dfy): the imperative exporter. `GaugeVec` is a class whose
  `values` map is updated in place. `Exporter.Scrape` is the triple loop that mutates two
  such vectors. `Exporter.Collect` allocates two fresh vectors for each request. Both
  methods are proved against the folds of `Aggregation`.

What a scrape observes from the cluster is a parameter, `observed`. Its entry `i` is
what listing `namespaces[i]` returned: an error, or the secrets of the page. A secret is
the sequence of its data values. Keys are never read, and the order of the values stands
for the order Go's map iteration happened to take.

## Model

| member | source | states |
|---|---|---|
| GoStrings.Split | main.go:160 | splitting the selector gives one more entry than there are commas, and no entry contains a comma |
| GoStrings.SplitWithoutSeparator | main.go:160 | a selector is a single namespace, itself, exactly when it contains no comma |
| GoStrings.EmptySelector | main.go:160 | the empty selector gives exactly one namespace, the empty string, not an empty list |
| GoStrings.JoinSplit | main.go:160 | splitting loses nothing: joining the namespaces with commas gives the selector back, so empty entries are kept |
| GoStrings.SplitJoin | main.go:95-100 | joining a non-empty list of comma-free values with ',' can be undone by splitting |
| GoStrings.JoinIsEmpty | main.go:95-100 | a comma join is empty exactly when the list is empty or holds a single empty string |
| CertParse.ParseSecret | main.go:84-104 | no PEM block gives the "failed to decode" error; a block that is not a certificate gives the "failed to parse" error; on either error every field is zero; otherwise there is no error, `cn` is the subject common name and `nb`/`na` are NotBefore/NotAfter in Unix seconds |
| CertParse.AttributeLabelIsEmpty | main.go:95-100 | an attribute's label is "" exactly when the attribute has no values or a single empty value |
| CertParse.AttributeLabelRecoversValues | main.go:95-100 | the label of an attribute with at least one value splits back into its values, in order, when none of them contains a comma |
| CertParse.ParsedLabels | main.go:94-100 | on success, `o` and `ou` equal the Organization and OrganizationalUnit lists joined with ',' in input order; each is "" exactly when its list is empty or holds one empty string; each splits back into its list when the list is non-empty and no value contains a comma |
| CertParse.InvertedWindowPassesThrough | main.go:101-102 | a certificate whose NotAfter precedes its NotBefore still parses, with `na < nb`; no window check is made |
| CertParse.BlockKindIgnored | main.go:85-89 | the result depends only on the PEM block's payload; its type label is never checked |
| Aggregation.Successes | main.go:136-141 | a record is among the successful parses exactly when some value of the sequence parses to it without error; there are at most as many as values |
| Aggregation.ObserveValuesIsRecordAll | main.go:136-142 | walking a secret's values writes exactly the values that parse, in order, and skips the rest |
| Aggregation.ObserveSecretsIsRecordAll | main.go:135-143 | walking a listing's secrets writes every parsing value of every secret, in visiting order |
| Aggregation.FailureSticks | main.go:131-134 | once a listing has failed, the namespaces after it change neither the tables nor the error |
| Aggregation.AllListedScrape | main.go:130-144 | when every listing succeeds, the scrape writes every successful parse across all namespaces, in order, and reports no error |
| Aggregation.ScrapeFailure | main.go:130-134 | a scrape fails exactly when some listing fails, and it reports the error of the first failing listing |
| Aggregation.RecordAllKeys | main.go:137-140 | both tables gain exactly the label triples of the written parses, so their key sets stay equal |
| Aggregation.RecordAllKeepsOthers | main.go:139-140 | a label triple that no parse carries keeps its old entries, or stays absent |
| Aggregation.LastWriteWins | main.go:139-140 | for every written triple, both tables hold the `na` and `nb` of the last parse carrying that triple |
| Aggregation.LabelSetSize | main.go:139-140 | there are at most as many distinct triples as parses, and exactly as many when the triples are pairwise distinct |
| Aggregation.FailedValueIsSkipped | main.go:137-138 | removing a value that fails to parse leaves both tables unchanged |
| Aggregation.RecordAllContents | main.go:137-140 | from empty tables, both key sets equal the triples of the parses; there is one entry per distinct triple, holding the values of the last parse with it |
| Aggregation.ScrapedTables | main.go:121-145 | a successful scrape yields two tables with the same keys, the distinct triples of all parsing values; each key holds the notAfter/notBefore of the last parsing value with it |
| Aggregation.ScrapedFailure | main.go:121-134 | a scrape fails, yielding no tables, exactly when some listing fails, and it carries the first failing listing's error |
| Collector.GaugeVec.constructor | main.go:122-123 | a new gauge vector is empty |
| Collector.GaugeVec.Set | main.go:139-140 | setting a triple's gauge creates or overwrites that one entry and changes no other |
| Collector.Exporter.constructor | main.go:154-161 | the namespaces are the comma split of the selector, one more than its commas; the list options carry the label selector and a page limit of 200 |
| Collector.Exporter.Scrape | main.go:129-145 | the two vectors end up as the fold of the observed listings over their old contents; the first listing error stops the loop and is returned |
| Collector.Exporter.Collect | main.go:121-127 | the answer is the scrape of the observed listings from two fresh, empty vectors, or the first listing error with no tables; it depends on nothing else and changes no existing object |

## Left out

- Cluster client bootstrap (in-cluster or kubeconfig configuration, panics on failure) is foreign client code. The listings a scrape observes are a parameter instead.
- Internals of PEM decoding (RFC 7468) and X.509 DER parsing (section 4.1 of RFC 5280) are library code. They are two uninterpreted partial functions.
- Only the first PEM block of a data value is ever parsed: the source discards the unread rest of the input that `pem.Decode` returns, and it never looks at the block's type or headers. So the intermediate certificates of a chain are never reported, and a value that holds a key block before its certificate reports nothing. The model's `pemDecode` returns that first block only.
- Label values are modelled as Unicode strings. The gauge library panics in `WithLabelValues` when a label value is not valid UTF-8, which a subject attribute decoded from a TeletexString can be; that panic ends the process like a listing error does. The model cannot express such a value, and this path is not modelled.
- Certificate times: `time.Time` and its `Unix()` conversion are collapsed into a certificate carrying Unix seconds as `int`. Go's `int64` width is not modelled, since X.509 dates fit in it.
- The `float64` conversion of the gauge values is floating point. Values stay `int`.
- Pagination: each namespace is listed once with a limit of 200, and the continue token is never followed. The model reads one listing per namespace, as the code does. A design that drains every page differs from the code here, and the code is what is modelled.
- Listing failure: the source panics, which ends the process. The model returns the error from `Scrape` and a `Failure` from `Collect`. Process death is not modelled.
- `Describe`, the metric descriptors, the registry and the text exposition are library wrappers. `Collect` returns the two tables it would emit, not a stream of samples on a channel.
- The HTTP server, the info page, signal handling and flag parsing are I/O and process plumbing. Only the flag strings feed the model, through the `Exporter` constructor.
- Go's randomized iteration order over a secret's data map: the values are a sequence, and last-write-wins is stated relative to that sequence.
- Concurrent `Collect` calls are not modelled as threads. `Collect` has no `modifies` clause and allocates its own vectors, so it cannot change anything another call sees.
