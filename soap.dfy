/**
 * What the spine needs to know about the two SOAP versions: the envelope
 * namespaces, how an envelope's namespace fixes the protocol, and the shape
 * of a Fault element (section 4.4 of the W3C SOAP 1.1 Note, section 5.4 of
 * SOAP 1.2 Part 1), reduced to the fields the normalised fault carries here.
 */
module Soap {
  import opened Wrappers
  import opened XmlTree

  /** The protocol of a message part; Unknown stands for every other binding (REST included). */
  datatype Protocol = Soap11 | Soap12 | Unknown

  /** The two protocols a spine can be built for. */
  type SoapVersion = p: Protocol | p != Unknown witness Soap11

  /** Where body blocks live: directly under Body, or under one operation element. */
  datatype Style = Document | Rpc

  /** Envelope namespace of SOAP 1.1 (section 4.1.2 of the SOAP 1.1 Note). */
  const Soap11EnvelopeNs: string := "http://schemas.xmlsoap.org/soap/envelope/"

  /** Envelope namespace of SOAP 1.2 (section 5 of SOAP 1.2 Part 1). */
  const Soap12EnvelopeNs: string := "http://www.w3.org/2003/05/soap-envelope"

  function EnvelopeNamespace(p: SoapVersion): string
  {
    if p == Soap11 then Soap11EnvelopeNs else Soap12EnvelopeNs
  }

  /** The protocol an envelope namespace denotes, Unknown when it is neither SOAP namespace. */
  function ProtocolOf(ns: string): (p: Protocol)
    ensures p != Unknown ==> EnvelopeNamespace(p) == ns
    ensures p == Unknown <==> forall v: SoapVersion :: EnvelopeNamespace(v) != ns
  {
    if ns == Soap11EnvelopeNs then Soap11
    else if ns == Soap12EnvelopeNs then Soap12
    else Unknown
  }

  // ---------------------------------------------------------------------------
  // Fault shape
  // ---------------------------------------------------------------------------

  function FaultName(p: SoapVersion): QName
  {
    QName(EnvelopeNamespace(p), "Fault")
  }

  /** faultcode (unqualified) in SOAP 1.1, env:Code in SOAP 1.2. */
  function CodeName(p: SoapVersion): QName
  {
    if p == Soap11 then QName("", "faultcode") else QName(EnvelopeNamespace(p), "Code")
  }

  /** faultstring (unqualified) in SOAP 1.1, env:Reason in SOAP 1.2. */
  function ReasonName(p: SoapVersion): QName
  {
    if p == Soap11 then QName("", "faultstring") else QName(EnvelopeNamespace(p), "Reason")
  }

  /** detail (unqualified) in SOAP 1.1, env:Detail in SOAP 1.2. */
  function DetailName(p: SoapVersion): QName
  {
    if p == Soap11 then QName("", "detail") else QName(EnvelopeNamespace(p), "Detail")
  }

  /** A Body holds a fault when its first element child is the protocol's Fault element. */
  predicate HasFault(body: seq<Node>, p: SoapVersion)
  {
    match ElementPos(body, 0)
    case None => false
    case Some(k) => body[k].name == FaultName(p)
  }

  /** A Body is a fault exactly when the element child of ordinal 0 carries the Fault name. */
  lemma FaultIsFirstElement(body: seq<Node>, p: SoapVersion)
    ensures HasFault(body, p) <==>
      exists k :: 0 <= k < |body| && body[k].Element? && Rank(body, k) == 0 && body[k].name == FaultName(p)
  {
    if exists k :: 0 <= k < |body| && body[k].Element? && Rank(body, k) == 0 && body[k].name == FaultName(p) {
      var k :| 0 <= k < |body| && body[k].Element? && Rank(body, k) == 0 && body[k].name == FaultName(p);
      ElementPosOf(body, k);
    }
  }

  /** The protocol-independent fault: code, reason and the detail blocks in document order. */
  datatype XMLFault = XMLFault(code: string, reason: string, detail: seq<Block>)

  /** An element holding one text field. */
  function TextElement(name: QName, text: string): Node
  {
    Element(name, Parsed, [Other(text)])
  }

  /** The text of an element: its leading text node, or "" when it has none. */
  function TextOf(n: Node): string
  {
    if n.Element? && |n.children| > 0 && n.children[0].Other? then n.children[0].text else ""
  }

  /**
   * The Fault element written for a normalised fault: code, reason and, when
   * there are detail blocks, a Detail element holding a stand-in per block.
   */
  function FaultElement(f: XMLFault, p: SoapVersion): Node
  {
    Element(FaultName(p), Parsed,
      [TextElement(CodeName(p), f.code), TextElement(ReasonName(p), f.reason)]
      + (if f.detail == [] then [] else [Element(DetailName(p), Parsed, StandIns(f.detail))]))
  }

  /** The text of the first child of the fault named q, "" when there is none. */
  function FaultText(fault: Node, q: QName): string
  {
    if fault.Other? then ""
    else match FirstNamed(fault.children, q)
      case None => ""
      case Some(k) => TextOf(fault.children[k])
  }

  /** The children of the fault's first Detail element; None when it has no Detail. */
  function DetailEntries(fault: Node, p: SoapVersion): Option<seq<Node>>
  {
    if fault.Other? then None
    else match FirstNamed(fault.children, DetailName(p))
      case None => None
      case Some(d) => Some(fault.children[d].children)
  }

  /**
   * Reading the Fault element written for f gives back f's code and reason,
   * and its Detail holds exactly one stand-in per detail block, in order.
   */
  lemma FaultElementFields(f: XMLFault, p: SoapVersion)
    ensures FaultText(FaultElement(f, p), CodeName(p)) == f.code
    ensures FaultText(FaultElement(f, p), ReasonName(p)) == f.reason
    ensures DetailEntries(FaultElement(f, p), p) == if f.detail == [] then None else Some(StandIns(f.detail))
  {
    var cs := FaultElement(f, p).children;
    assert IsNamed(cs[0], CodeName(p));
    assert !IsNamed(cs[0], ReasonName(p)) && IsNamed(cs[1], ReasonName(p));
    if f.detail != [] {
      assert !IsNamed(cs[0], DetailName(p)) && !IsNamed(cs[1], DetailName(p));
      assert IsNamed(cs[2], DetailName(p));
    } else {
      assert FirstNamed(cs, DetailName(p)) == None;
    }
  }
}
