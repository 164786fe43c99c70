/**
 * Turning one raw secret value into the facts the exporter publishes about a
 * certificate: its subject labels and its validity window in Unix seconds.
 *
 * The PEM decoder (RFC 7468) and the X.509 DER parser (section 4.1 of RFC 5280) are
 * library code; they are the two partial functions of a `Library` value, and nothing
 * is assumed about them beyond their signatures.
 */
module CertParse {
  import opened Wrappers
  import opened GoStrings

  newtype byte = x: int | 0 <= x < 256

  type Bytes = seq<byte>

  /** The separator used to join multi-valued subject attributes into one label. */
  const LABEL_SEPARATOR := ','

  /** A decoded PEM block: its type label (never looked at here) and its payload. */
  datatype Block = Block(kind: string, bytes: Bytes)

  /** The parts of a certificate's subject distinguished name the exporter reads. */
  datatype Name = Name(commonName: string, organization: seq<string>, organizationalUnit: seq<string>)

  /** A parsed certificate; `notBefore` and `notAfter` are already seconds since the Unix epoch. */
  datatype Certificate = Certificate(subject: Name, notBefore: int, notAfter: int)

  /**
   * The two library decoders: `pemDecode` gives the first PEM block of its input or
   * None when there is none; `parseCertificate` parses DER bytes or gives None when
   * they are not a well-formed certificate.
   */
  datatype Library = Library(pemDecode: Bytes -> Option<Block>, parseCertificate: Bytes -> Option<Certificate>)

  /** What the exporter keeps of a certificate: the three labels and the validity window. */
  datatype ParsedCert = ParsedCert(cn: string, o: string, ou: string, nb: int, na: int)

  /** The zero value of the record, which is what the error paths hand back. */
  const ZERO_CERT := ParsedCert("", "", "", 0, 0)

  datatype ParseError = DecodeFailed | ParseFailed
  {
    function Message(): string
    {
      match this
      case DecodeFailed => "failed to decode certificate"
      case ParseFailed => "failed to parse certificate"
    }
  }

  /** The pair a parse hands back: the record and, when it failed, why. */
  datatype Parsed = Parsed(res: ParsedCert, err: Option<ParseError>)

  /** A subject attribute as a label value: the values joined with ',', or "" when there are none. */
  function AttributeLabel(values: seq<string>): string
  {
    if |values| > 0 then Join(values, LABEL_SEPARATOR) else ""
  }

  function FromCertificate(cert: Certificate): ParsedCert
  {
    ParsedCert(
      cert.subject.commonName,
      AttributeLabel(cert.subject.organization),
      AttributeLabel(cert.subject.organizationalUnit),
      cert.notBefore,
      cert.notAfter)
  }

  /**
   * Decode `raw` as PEM, parse the block's payload as a certificate and extract the
   * record. A value with no PEM block fails with DecodeFailed, a block that is not a
   * certificate fails with ParseFailed, and in both cases the record stays zero.
   * Validity windows are not checked: an inverted one is passed through as it is.
   */
  function ParseSecret(lib: Library, raw: Bytes): (r: Parsed)
    ensures r.err == Some(DecodeFailed) <==> lib.pemDecode(raw).None?
    ensures r.err == Some(ParseFailed) <==>
      lib.pemDecode(raw).Some? && lib.parseCertificate(lib.pemDecode(raw).value.bytes).None?
    ensures r.err.Some? ==> r.res == ZERO_CERT
    ensures r.err.None? <==>
      lib.pemDecode(raw).Some? && lib.parseCertificate(lib.pemDecode(raw).value.bytes).Some?
    ensures r.err.None? ==>
      var cert := lib.parseCertificate(lib.pemDecode(raw).value.bytes).value;
      && r.res.cn == cert.subject.commonName
      && r.res.nb == cert.notBefore
      && r.res.na == cert.notAfter
  {
    match lib.pemDecode(raw)
    case None => Parsed(ZERO_CERT, Some(DecodeFailed))
    case Some(block) =>
      match lib.parseCertificate(block.bytes)
      case None => Parsed(ZERO_CERT, Some(ParseFailed))
      case Some(cert) => Parsed(FromCertificate(cert), None)
  }

  /** The label value of an attribute is empty exactly when the attribute has no value or one empty value. */
  lemma AttributeLabelIsEmpty(values: seq<string>)
    ensures AttributeLabel(values) == "" <==> values == [] || values == [""]
  {
    JoinIsEmpty(values, LABEL_SEPARATOR);
  }

  /**
   * The label value keeps every attribute value, in order: when no value contains the
   * separator, splitting the label gives the values back.
   */
  lemma AttributeLabelRecoversValues(values: seq<string>)
    requires |values| > 0
    requires forall i :: 0 <= i < |values| ==> LABEL_SEPARATOR !in values[i]
    ensures Split(AttributeLabel(values), LABEL_SEPARATOR) == values
  {
    SplitJoin(values, LABEL_SEPARATOR);
  }

  /**
   * On success the `o` and `ou` labels are the subject's Organization and
   * OrganizationalUnit lists joined with ',' in their order: each is empty when its
   * list is (or holds only ""), and splits back into its list when no entry contains ','.
   */
  lemma {:induction false} ParsedLabels(lib: Library, raw: Bytes)
    requires ParseSecret(lib, raw).err.None?
    ensures
      var cert := lib.parseCertificate(lib.pemDecode(raw).value.bytes).value;
      var org, unit := cert.subject.organization, cert.subject.organizationalUnit;
      var r := ParseSecret(lib, raw).res;
      && r.o == Join(org, LABEL_SEPARATOR)
      && r.ou == Join(unit, LABEL_SEPARATOR)
      && (r.o == "" <==> org == [] || org == [""])
      && (r.ou == "" <==> unit == [] || unit == [""])
      && (|org| > 0 && (forall i :: 0 <= i < |org| ==> LABEL_SEPARATOR !in org[i]) ==>
            Split(r.o, LABEL_SEPARATOR) == org)
      && (|unit| > 0 && (forall i :: 0 <= i < |unit| ==> LABEL_SEPARATOR !in unit[i]) ==>
            Split(r.ou, LABEL_SEPARATOR) == unit)
  {
    var cert := lib.parseCertificate(lib.pemDecode(raw).value.bytes).value;
    var org, unit := cert.subject.organization, cert.subject.organizationalUnit;
    AttributeLabelIsEmpty(org);
    AttributeLabelIsEmpty(unit);
    if |org| > 0 && (forall i :: 0 <= i < |org| ==> LABEL_SEPARATOR !in org[i]) {
      AttributeLabelRecoversValues(org);
    }
    if |unit| > 0 && (forall i :: 0 <= i < |unit| ==> LABEL_SEPARATOR !in unit[i]) {
      AttributeLabelRecoversValues(unit);
    }
  }

  /** A certificate whose notAfter precedes its notBefore is still reported, window inverted. */
  lemma InvertedWindowPassesThrough(lib: Library, raw: Bytes)
    requires lib.pemDecode(raw).Some?
    requires lib.parseCertificate(lib.pemDecode(raw).value.bytes).Some?
    requires
      var cert := lib.parseCertificate(lib.pemDecode(raw).value.bytes).value;
      cert.notAfter < cert.notBefore
    ensures ParseSecret(lib, raw).err.None?
    ensures ParseSecret(lib, raw).res.na < ParseSecret(lib, raw).res.nb
  {
  }

  /** Only the payload of the PEM block matters: its type label is never checked. */
  lemma BlockKindIgnored(lib: Library, lib': Library, raw: Bytes)
    requires lib.parseCertificate == lib'.parseCertificate
    requires lib.pemDecode(raw).Some? && lib'.pemDecode(raw).Some?
    requires lib.pemDecode(raw).value.bytes == lib'.pemDecode(raw).value.bytes
    ensures ParseSecret(lib, raw) == ParseSecret(lib', raw)
  {
  }
}
