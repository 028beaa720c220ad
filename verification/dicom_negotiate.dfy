/** Transfer-syntax negotiation with a DICOMweb server
    (sources/dicom/large_image_source_dicom/__init__.py:192-235): ask one
    instance of the series for its Available Transfer Syntax UID attribute
    (a QIDO-RS search, section 10.6 of DICOM PS3.18) and pick the first of
    four JPEG and JPEG 2000 syntaxes (Annex A.4 of DICOM PS3.5) that the
    server offers. */
module DicomNegotiate {
  import opened Wrappers

  /** Transfer Syntax UIDs of DICOM PS3.5 Annex A.4.1 and A.4.4. */
  const JpegBaseline8Bit := "1.2.840.10008.1.2.4.50"
  const JpegExtended12Bit := "1.2.840.10008.1.2.4.51"
  const Jpeg2000Lossless := "1.2.840.10008.1.2.4.90"
  const Jpeg2000 := "1.2.840.10008.1.2.4.91"

  /** The source's order of preference. */
  const Preferred: seq<string> := [JpegBaseline8Bit, JpegExtended12Bit, Jpeg2000, Jpeg2000Lossless]

  /** The attribute in the one instance the search returns. */
  datatype Attribute =
    | Absent                        // the server does not report the syntaxes
    | NoValue                       // reported without a `Value` list
    | Offered(values: seq<string>)

  /** The chosen syntax, and whether the "assuming JPEG 2000" warning was
      logged. */
  datatype Negotiated = Negotiated(syntax: string, warned: bool)

  datatype NegotiationError =
    | NotOneInstance(count: nat)                // `result, = ...` unpacking fails
    | MissingValue                              // `result[tag]['Value']` fails
    | NoAcceptableSyntax(available: seq<string>)

  /** The position in `Preferred` of the first preferred syntax offered. */
  function FirstOffered(available: seq<string>, i: nat): (r: Option<nat>)
    requires i <= |Preferred|
    ensures r.Some? ==> i <= r.value < |Preferred| && Preferred[r.value] in available
    ensures forall j | i <= j < |Preferred| && (r.None? || j < r.value) :: Preferred[j] !in available
    decreases |Preferred| - i
  {
    if i == |Preferred| then None
    else if Preferred[i] in available then Some(i)
    else FirstOffered(available, i + 1)
  }

  /** The choice for one instance's attribute. */
  function Choose(attr: Attribute): (r: Result<Negotiated, NegotiationError>)
    ensures attr.Absent? ==> r == Ok(Negotiated(Jpeg2000, true))
    ensures attr.NoValue? ==> r == Err(MissingValue)
    ensures attr.Offered? ==>
      (r.Ok? <==> exists j | 0 <= j < |Preferred| :: Preferred[j] in attr.values)
    ensures attr.Offered? && r.Ok? ==>
      && !r.value.warned
      && r.value.syntax in attr.values
      && exists k | 0 <= k < |Preferred| :: Preferred[k] == r.value.syntax &&
           forall j | 0 <= j < k :: Preferred[j] !in attr.values
    ensures attr.Offered? && r.Err? ==> r.error == NoAcceptableSyntax(attr.values)
  {
    match attr
    case Absent => Ok(Negotiated(Jpeg2000, true))
    case NoValue => Err(MissingValue)
    case Offered(values) =>
      match FirstOffered(values, 0)
      case Some(k) => Ok(Negotiated(Preferred[k], false))
      case None => Err(NoAcceptableSyntax(values))
  }

  /** The negotiation over the search result, which must hold exactly one
      instance. */
  function Negotiate(found: seq<Attribute>): (r: Result<Negotiated, NegotiationError>)
    ensures |found| != 1 <==> r.Err? && r.error.NotOneInstance?
    ensures |found| == 1 ==> r == Choose(found[0])
  {
    if |found| != 1 then Err(NotOneInstance(|found|)) else Choose(found[0])
  }

  /** The preference rank of a syntax. */
  function Rank(syntax: string): (k: nat)
    ensures syntax in Preferred ==> k < |Preferred| && Preferred[k] == syntax
  {
    if syntax == JpegBaseline8Bit then 0
    else if syntax == JpegExtended12Bit then 1
    else if syntax == Jpeg2000 then 2
    else if syntax == Jpeg2000Lossless then 3
    else |Preferred|
  }

  /** Offering more syntaxes never makes the choice less preferred, and a
      choice that is still offered is kept when syntaxes are added. */
  lemma ChoiceMonotonic(a: seq<string>, b: seq<string>)
    requires forall s | s in a :: s in b
    requires Choose(Offered(a)).Ok?
    ensures Choose(Offered(b)).Ok?
    ensures Rank(Choose(Offered(b)).value.syntax) <= Rank(Choose(Offered(a)).value.syntax)
  {
    var ka := FirstOffered(a, 0).value;
    var kb := FirstOffered(b, 0).value;
    assert Preferred[ka] in b;
    assert kb <= ka;
    assert Rank(Preferred[ka]) == ka && Rank(Preferred[kb]) == kb;
  }

  /** The four preferred syntaxes are distinct, so the rank of each is its
      position. */
  lemma RankOfPreferred(k: nat)
    requires k < |Preferred|
    ensures Rank(Preferred[k]) == k
  {
  }
}
