/**
 * The value-level specification of the spine: where body blocks live
 * (the anchor), what each block-level operation does to a list of children,
 * and the properties those operations keep. The class in module XmlSpine
 * is proved against these functions.
 */
module SpineModel {
  import opened Wrappers
  import opened XmlTree
  import opened Soap

  /** The errors the spine raises: an unsupported protocol, or a block that cannot be decoded. */
  datatype SpineError = RestNotSupported | DecodeError(name: QName)

  /** A block factory, as far as the spine depends on it: which XML it can decode into a business object. */
  datatype BlockFactory = BlockFactory(decodes: Node -> bool)

  /** The generic OM block factory used for fault details: it takes any element as it is. */
  const OMBlockFactory: BlockFactory := BlockFactory(_ => true)

  /** The name of the operation element created before the real operation is known. */
  const PlaceholderName: QName := QName("", "PLACEHOLDER_OPERATION")

  const Placeholder: Node := Element(PlaceholderName, Parsed, [])

  // ---------------------------------------------------------------------------
  // The anchor of the body blocks
  // ---------------------------------------------------------------------------

  /** The Body itself, or the Body child at pos that is the RPC operation element. */
  datatype Anchor = AtBody | AtOperation(pos: nat)

  /** Body blocks sit under an operation element: RPC style, and the Body holds no fault. */
  predicate OperationWrapped(body: seq<Node>, p: SoapVersion, style: Style)
  {
    style == Rpc && !HasFault(body, p)
  }

  /** The Body after the anchor is looked up: a placeholder is appended when an operation element is due but absent. */
  function Resolved(body: seq<Node>, p: SoapVersion, style: Style): seq<Node>
  {
    if OperationWrapped(body, p, style) && ElementPos(body, 0).None? then body + [Placeholder] else body
  }

  predicate AnchorFits(body: seq<Node>, a: Anchor)
  {
    a.AtOperation? ==> a.pos < |body| && body[a.pos].Element?
  }

  /** The anchor: the first element child of the Body when operation-wrapped and present, else the Body. */
  function AnchorIn(body: seq<Node>, p: SoapVersion, style: Style): (a: Anchor)
    ensures AnchorFits(body, a)
  {
    if OperationWrapped(body, p, style) && ElementPos(body, 0).Some? then AtOperation(ElementPos(body, 0).value)
    else AtBody
  }

  function Children(body: seq<Node>, a: Anchor): seq<Node>
    requires AnchorFits(body, a)
  {
    match a
    case AtBody => body
    case AtOperation(k) => body[k].children
  }

  function WithChildren(body: seq<Node>, a: Anchor, c: seq<Node>): seq<Node>
    requires AnchorFits(body, a)
  {
    match a
    case AtBody => c
    case AtOperation(k) => body[k := body[k].(children := c)]
  }

  /** The children of the anchor, once the anchor has been resolved. */
  function BodyBlocks(body: seq<Node>, p: SoapVersion, style: Style): seq<Node>
  {
    var b := Resolved(body, p, style);
    Children(b, AnchorIn(b, p, style))
  }

  /** The Body after the anchor has been resolved and its children replaced by c. */
  function WithBodyBlocks(body: seq<Node>, p: SoapVersion, style: Style, c: seq<Node>): seq<Node>
  {
    var b := Resolved(body, p, style);
    WithChildren(b, AnchorIn(b, p, style), c)
  }

  /** The name of the operation element, None when the anchor is the Body. */
  function OperationName(body: seq<Node>, p: SoapVersion, style: Style): Option<QName>
  {
    var b := Resolved(body, p, style);
    match AnchorIn(b, p, style)
    case AtBody => None
    case AtOperation(k) => Some(b[k].name)
  }

  /** The Body after the operation element, if the anchor is one, is renamed q. */
  function Renamed(body: seq<Node>, p: SoapVersion, style: Style, q: QName): seq<Node>
  {
    var b := Resolved(body, p, style);
    match AnchorIn(b, p, style)
    case AtBody => b
    case AtOperation(k) => b[k := b[k].(name := q)]
  }

  /** The Body of a freshly created envelope. */
  function EmptyBody(style: Style): seq<Node>
  {
    if style == Rpc then [Placeholder] else []
  }

  /** Appending the placeholder to a Body without element children makes it the first element, and not a fault. */
  lemma PlaceholderFirst(body: seq<Node>, p: SoapVersion)
    requires ElementPos(body, 0).None?
    ensures ElementPos(body + [Placeholder], 0) == Some(|body|)
    ensures !HasFault(body + [Placeholder], p)
  {
    PlaceholderAtRankZero(body);
    ElementPosOf(body + [Placeholder], |body|);
    PlaceholderIsNoFault(p);
    assert (body + [Placeholder])[|body|] == Placeholder;
  }

  lemma PlaceholderIsNoFault(p: SoapVersion)
    ensures PlaceholderName != FaultName(p)
  {
    assert |EnvelopeNamespace(p)| > 0;
  }

  lemma PlaceholderAtRankZero(body: seq<Node>)
    requires |Elements(body)| == 0
    ensures Rank(body + [Placeholder], |body|) == 0
  {
    assert (body + [Placeholder])[..|body|] == body;
  }

  /**
   * Looking the anchor up keeps the fault status; the anchor is an operation
   * element exactly when operation-wrapped; and a second look-up creates nothing.
   */
  lemma ResolvedAnchor(body: seq<Node>, p: SoapVersion, style: Style)
    ensures HasFault(Resolved(body, p, style), p) == HasFault(body, p)
    ensures AnchorIn(Resolved(body, p, style), p, style).AtOperation? <==> OperationWrapped(body, p, style)
    ensures Resolved(Resolved(body, p, style), p, style) == Resolved(body, p, style)
  {
    if OperationWrapped(body, p, style) && ElementPos(body, 0).None? {
      PlaceholderFirst(body, p);
    }
  }

  /** When the Body holds a fault, or under Document style, the anchor is the Body and nothing is created or renamed. */
  lemma BodyIsAnchor(body: seq<Node>, p: SoapVersion, style: Style, q: QName)
    requires !OperationWrapped(body, p, style)
    ensures Resolved(body, p, style) == body && BodyBlocks(body, p, style) == body
    ensures OperationName(body, p, style) == None && Renamed(body, p, style, q) == body
  {
  }

  /** A fresh envelope has no body blocks, and under RPC its only Body child is the placeholder operation. */
  lemma EmptyBodyHasNoBlocks(p: SoapVersion, style: Style)
    ensures !HasFault(EmptyBody(style), p)
    ensures Resolved(EmptyBody(style), p, style) == EmptyBody(style)
    ensures BodyBlocks(EmptyBody(style), p, style) == []
    ensures OperationName(EmptyBody(style), p, style) == if style == Rpc then Some(PlaceholderName) else None
  {
    PlaceholderFirst([], p);
    assert [] + [Placeholder] == [Placeholder];
  }

  /** Changing the anchor's children keeps the anchor where it was: what was written is what is read back. */
  lemma BodyBlocksPutGet(body: seq<Node>, p: SoapVersion, style: Style, c: seq<Node>)
    requires style == Document || !HasFault(body, p)
    ensures BodyBlocks(WithBodyBlocks(body, p, style, c), p, style) == c
  {
    ResolvedAnchor(body, p, style);
    var b := Resolved(body, p, style);
    if style == Rpc {
      var k := AnchorIn(b, p, style).pos;
      var b' := WithBodyBlocks(body, p, style, c);
      assert b' == b[k := b[k].(children := c)];
      assert b'[..k] == b[..k];
      ElementPosOf(b', k);
      assert ElementPos(b', 0) == Some(k);
    }
  }

  /** Renaming the operation element q makes it read back as q, unless q is the Fault name, and keeps the blocks. */
  lemma RenameThenRead(body: seq<Node>, p: SoapVersion, style: Style, q: QName)
    ensures OperationName(Renamed(body, p, style, q), p, style) ==
      if OperationWrapped(body, p, style) && q != FaultName(p) then Some(q) else None
    ensures q != FaultName(p) ==> BodyBlocks(Renamed(body, p, style, q), p, style) == BodyBlocks(body, p, style)
  {
    ResolvedAnchor(body, p, style);
    var b := Resolved(body, p, style);
    if OperationWrapped(body, p, style) {
      var k := AnchorIn(b, p, style).pos;
      var b' := Renamed(body, p, style, q);
      assert b'[..k] == b[..k];
      ElementPosOf(b', k);
      assert ElementPos(b', 0) == Some(k);
    }
  }

  // ---------------------------------------------------------------------------
  // Turning an element into a block
  // ---------------------------------------------------------------------------

  /**
   * The block made from the element at pos and the siblings afterwards: on
   * success the element is replaced in place by a stand-in with the same name;
   * when the factory cannot decode it, nothing changes.
   */
  function BlockFromElement(s: seq<Node>, pos: nat, factory: BlockFactory, owner: Option<MessageRef>)
    : (r: (Result<Block, SpineError>, seq<Node>))
    requires pos < |s| && s[pos].Element?
    ensures r.0.Success? <==> factory.decodes(View(s[pos]))
    ensures r.0.Success? ==> r.0.value.name == s[pos].name && r.0.value.owner == owner
    ensures r.0.Success? ==> r.1 == s[pos := StandIn(s[pos].name, r.0.value)]
    ensures r.0.Failure? ==> r.0.error == DecodeError(s[pos].name) && r.1 == s
  {
    if factory.decodes(View(s[pos])) then
      var b := BlockFor(s[pos], owner);
      (Success(b), s[pos := StandIn(s[pos].name, b)])
    else
      (Failure(DecodeError(s[pos].name)), s)
  }

  /** getBodyBlock / getHeaderBlock once the element is located: absent, a block, or a decode error. */
  function TakeBlock(s: seq<Node>, pos: Option<nat>, factory: BlockFactory, owner: Option<MessageRef>)
    : (Result<Option<Block>, SpineError>, seq<Node>)
    requires pos.Some? ==> pos.value < |s| && s[pos.value].Element?
  {
    match pos
    case None => (Success(None), s)
    case Some(k) =>
      var (res, s') := BlockFromElement(s, k, factory, owner);
      match res
      case Success(b) => (Success(Some(b)), s')
      case Failure(e) => (Failure(e), s')
  }

  /**
   * Materialising keeps the list's shape: the same element children at the
   * same ordinals, the replaced one under its old name, every other node as it was.
   */
  lemma MaterializeKeepsShape(s: seq<Node>, pos: nat, factory: BlockFactory, owner: Option<MessageRef>, index: int)
    requires pos < |s| && s[pos].Element?
    ensures var s' := BlockFromElement(s, pos, factory, owner).1;
      && |s'| == |s| && |Elements(s')| == |Elements(s)|
      && ElementPos(s', index) == ElementPos(s, index)
      && s'[pos].Element? && s'[pos].name == s[pos].name
      && forall j :: 0 <= j < |s| && j != pos ==> s'[j] == s[j]
  {
    var s' := BlockFromElement(s, pos, factory, owner).1;
    SameShapeCount(s, s');
    SameShapePos(s, s', index);
  }

  /**
   * getBodyBlock on a list of children: nothing (and no error) exactly when
   * the ordinal is out of range; otherwise the index-th element child becomes a
   * block with its name and XML owned by the message, or a decode error.
   */
  lemma TakeBlockByOrdinal(s: seq<Node>, index: int, factory: BlockFactory, owner: Option<MessageRef>)
    ensures var (res, s') := TakeBlock(s, ElementPos(s, index), factory, owner);
      && (res == Success(None) <==> !(0 <= index < |Elements(s)|))
      && |s'| == |s| && |Elements(s')| == |Elements(s)|
      && (0 <= index < |Elements(s)| ==>
            var e := Elements(s)[index];
            res == if factory.decodes(View(e)) then Success(Some(Block(e.name, View(e), owner)))
                   else Failure(DecodeError(e.name)))
  {
    if 0 <= index < |Elements(s)| {
      var k := ElementPos(s, index).value;
      ElementPosElement(s, index);
      MaterializeKeepsShape(s, k, factory, owner, index);
    }
  }

  /** Materialising the same element twice gives the same block and leaves the same list. */
  lemma MaterializeIdempotent(s: seq<Node>, pos: nat, factory: BlockFactory, owner: Option<MessageRef>)
    requires pos < |s| && s[pos].Element?
    requires BlockFromElement(s, pos, factory, owner).0.Success?
    ensures var (first, s') := BlockFromElement(s, pos, factory, owner);
      BlockFromElement(s', pos, factory, owner) == (first, s')
  {
    var (first, s') := BlockFromElement(s, pos, factory, owner);
    var b := first.value;
    assert View(s'[pos]) == b.xml == View(s[pos]);
    assert BlockFor(s'[pos], owner) == b;
    assert s'[pos := StandIn(s'[pos].name, b)] == s';
  }

  // ---------------------------------------------------------------------------
  // Body blocks: by ordinal
  // ---------------------------------------------------------------------------

  /** setBodyBlock on the anchor's children: replace the index-th element in place, or append. */
  function PutElement(s: seq<Node>, index: int, n: Node): seq<Node>
  {
    match ElementPos(s, index)
    case None => s + [n]
    case Some(k) => s[k := n]
  }

  /** removeBodyBlock on the anchor's children: detach the index-th element if there is one. */
  function RemoveElement(s: seq<Node>, index: int): seq<Node>
  {
    match ElementPos(s, index)
    case None => s
    case Some(k) => s[..k] + s[k + 1..]
  }

  /**
   * Writing an element at an existing ordinal replaces that element and
   * nothing else; at any other ordinal it is appended, one more element.
   */
  lemma PutElementSpec(s: seq<Node>, index: int, n: Node)
    requires n.Element?
    ensures 0 <= index < |Elements(s)| ==>
      && Elements(PutElement(s, index, n)) == Elements(s)[index := n]
      && |PutElement(s, index, n)| == |s|
      && forall j :: 0 <= j < |s| && !s[j].Element? ==> PutElement(s, index, n)[j] == s[j]
    ensures !(0 <= index < |Elements(s)|) ==>
      && Elements(PutElement(s, index, n)) == Elements(s) + [n]
      && PutElement(s, index, n) == s + [n]
  {
    SelectSingle(n, AnyElement);
    match ElementPos(s, index)
    case None =>
      SelectAppend(s, [n], AnyElement);
    case Some(k) =>
      ReplaceElementAt(s, k, n);
  }

  lemma ReplaceElementAt(s: seq<Node>, k: nat, n: Node)
    requires k < |s| && s[k].Element? && n.Element?
    ensures Rank(s, k) < |Elements(s)|
    ensures Elements(s[k := n]) == Elements(s)[Rank(s, k) := n]
  {
    var s' := s[k := n];
    var before, after := Elements(s[..k]), Elements(s[k + 1..]);
    SelectSplit(s, k, AnyElement);
    SelectSingle(s[k], AnyElement);
    assert Elements(s) == before + [s[k]] + after;
    assert s'[..k] == s[..k] && s'[k + 1..] == s[k + 1..] && s'[k] == n;
    SelectSplit(s', k, AnyElement);
    SelectSingle(n, AnyElement);
    assert Elements(s') == before + [n] + after;
    assert (before + [s[k]] + after)[|before| := n] == before + [n] + after;
  }


  /** Removing at an existing ordinal drops exactly that element; any other ordinal changes nothing. */
  lemma RemoveElementSpec(s: seq<Node>, index: int)
    ensures 0 <= index < |Elements(s)| ==>
      && Elements(RemoveElement(s, index)) == Elements(s)[..index] + Elements(s)[index + 1..]
      && |RemoveElement(s, index)| == |s| - 1
    ensures !(0 <= index < |Elements(s)|) ==> RemoveElement(s, index) == s
  {
    match ElementPos(s, index)
    case None =>
    case Some(k) =>
      SelectSplit(s, k, AnyElement);
      SelectSingle(s[k], AnyElement);
      SelectAppend(s[..k], s[k + 1..], AnyElement);
  }

  /** The stand-in setBodyBlock writes for a block, owned by the spine's message. */
  function BodyStandIn(b: Block, owner: Option<MessageRef>): Node
  {
    StandIn(b.name, b.(owner := owner))
  }

  /**
   * setBodyBlock followed by getBodyBlock at the written ordinal (index when
   * it existed, else the old count) gives the block back, owned by the message.
   */
  lemma SetThenGetBodyBlock(body: seq<Node>, p: SoapVersion, style: Style, index: int, b: Block,
                            factory: BlockFactory, owner: Option<MessageRef>)
    requires style == Document || !HasFault(body, p)
    ensures var c := BodyBlocks(body, p, style);
      var at := if 0 <= index < |Elements(c)| then index else |Elements(c)|;
      var body' := WithBodyBlocks(body, p, style, PutElement(c, index, BodyStandIn(b, owner)));
      var c' := BodyBlocks(body', p, style);
      && |Elements(c')| == (if 0 <= index < |Elements(c)| then |Elements(c)| else |Elements(c)| + 1)
      && TakeBlock(c', ElementPos(c', at), factory, owner).0 ==
         if factory.decodes(b.xml) then Success(Some(b.(owner := owner))) else Failure(DecodeError(b.name))
  {
    var c := BodyBlocks(body, p, style);
    var n := BodyStandIn(b, owner);
    var at := if 0 <= index < |Elements(c)| then index else |Elements(c)|;
    var c' := PutElement(c, index, n);
    BodyBlocksPutGet(body, p, style, c');
    PutElementSpec(c, index, n);
    ElementPosElement(c', at);
  }

  // ---------------------------------------------------------------------------
  // Header blocks: by qualified name
  // ---------------------------------------------------------------------------

  /** The children of an optional element: none when it is missing. */
  function Listed(h: Option<seq<Node>>): seq<Node>
  {
    if h.Some? then h.value else []
  }

  /** setHeaderBlock on the Header's children: replace the first element named q in place, or append. */
  function PutNamed(s: seq<Node>, q: QName, n: Node): seq<Node>
  {
    match FirstNamed(s, q)
    case None => s + [n]
    case Some(k) => s[k := n]
  }

  /** removeHeaderBlock on the Header's children: detach the first element named q if there is one. */
  function RemoveNamed(s: seq<Node>, q: QName): seq<Node>
  {
    match FirstNamed(s, q)
    case None => s
    case Some(k) => s[..k] + s[k + 1..]
  }

  /** After setHeaderBlock the new element is the first one named q, taking the old first match's place or added. */
  lemma PutNamedFinds(s: seq<Node>, q: QName, n: Node)
    requires IsNamed(n, q)
    ensures var s' := PutNamed(s, q, n);
      && FirstNamed(s', q).Some? && s'[FirstNamed(s', q).value] == n
      && (Select(s, Named(q)) == [] ==> Select(s', Named(q)) == [n])
      && (Select(s, Named(q)) != [] ==> Select(s', Named(q)) == [n] + Select(s, Named(q))[1..])
  {
    var s' := PutNamed(s, q, n);
    FirstNamedSelect(s, q);
    SelectSingle(n, Named(q));
    match FirstNamed(s, q)
    case None =>
      SelectAppend(s, [n], Named(q));
      assert s'[|s|] == n;
      assert FirstNamed(s', q) == Some(|s|);
    case Some(k) =>
      assert s'[..k] == s[..k] && s'[k + 1..] == s[k + 1..];
      SelectSplit(s', k, Named(q));
      SelectNone(s[..k], Named(q));
      assert FirstNamed(s', q) == Some(k);
  }

  /** setHeaderBlock leaves the elements of every other name exactly as they were. */
  lemma PutNamedOthers(s: seq<Node>, q: QName, n: Node, other: QName)
    requires IsNamed(n, q) && other != q
    ensures Select(PutNamed(s, q, n), Named(other)) == Select(s, Named(other))
  {
    SelectSingle(n, Named(other));
    match FirstNamed(s, q)
    case None =>
      SelectAppend(s, [n], Named(other));
    case Some(k) =>
      var s' := s[k := n];
      assert s'[..k] == s[..k] && s'[k + 1..] == s[k + 1..];
      SelectSplit(s, k, Named(other));
      SelectSplit(s', k, Named(other));
      SelectSingle(s[k], Named(other));
  }

  /** removeHeaderBlock detaches the first element named q only: later matches stay. */
  lemma RemoveNamedFirst(s: seq<Node>, q: QName)
    ensures Select(s, Named(q)) == [] ==> RemoveNamed(s, q) == s
    ensures Select(s, Named(q)) != [] ==> Select(RemoveNamed(s, q), Named(q)) == Select(s, Named(q))[1..]
  {
    FirstNamedSelect(s, q);
    match FirstNamed(s, q)
    case None =>
    case Some(k) =>
      SelectAppend(s[..k], s[k + 1..], Named(q));
      SelectNone(s[..k], Named(q));
  }

  /** removeHeaderBlock leaves the elements of every other name exactly as they were. */
  lemma RemoveNamedOthers(s: seq<Node>, q: QName, other: QName)
    requires other != q
    ensures Select(RemoveNamed(s, q), Named(other)) == Select(s, Named(other))
  {
    match FirstNamed(s, q)
    case None =>
    case Some(k) =>
      SelectAppend(s[..k], s[k + 1..], Named(other));
      SelectSplit(s, k, Named(other));
      SelectSingle(s[k], Named(other));
  }

  /** The stand-in setHeaderBlock writes: named by the (namespace, local part) given, owned by the message. */
  function HeaderStandIn(q: QName, b: Block, owner: Option<MessageRef>): Node
  {
    StandIn(q, b.(owner := owner))
  }

  /** setHeaderBlock followed by getHeaderBlock with the same name gives back the block under that name. */
  lemma SetThenGetHeaderBlock(h: Option<seq<Node>>, q: QName, b: Block, factory: BlockFactory, owner: Option<MessageRef>)
    ensures var s' := PutNamed(Listed(h), q, HeaderStandIn(q, b, owner));
      TakeBlock(s', FirstNamed(s', q), factory, owner).0 ==
        if factory.decodes(b.xml) then Success(Some(b.(name := q, owner := owner))) else Failure(DecodeError(q))
  {
    PutNamedFinds(Listed(h), q, HeaderStandIn(q, b, owner));
  }

  // ---------------------------------------------------------------------------
  // Faults
  // ---------------------------------------------------------------------------

  /** The Detail children of the Body's fault, None when there is no fault or no Detail. */
  function FaultDetail(body: seq<Node>, p: SoapVersion): Option<seq<Node>>
  {
    if HasFault(body, p) then DetailEntries(body[ElementPos(body, 0).value], p) else None
  }

  /** The normalised fault getXMLFault reads from a Body: None exactly when there is no fault. */
  function ReadFault(body: seq<Node>, p: SoapVersion, owner: Option<MessageRef>): Option<XMLFault>
  {
    if !HasFault(body, p) then None
    else
      var fault := body[ElementPos(body, 0).value];
      Some(XMLFault(FaultText(fault, CodeName(p)), FaultText(fault, ReasonName(p)),
                    BlocksOf(Listed(FaultDetail(body, p)), owner)))
  }

  /** The Body with the Detail children of its fault replaced by d. */
  function WithDetail(body: seq<Node>, p: SoapVersion, d: seq<Node>): seq<Node>
    requires FaultDetail(body, p).Some?
  {
    var k := ElementPos(body, 0).value;
    var fault := body[k];
    var di := FirstNamed(fault.children, DetailName(p)).value;
    body[k := fault.(children := fault.children[di := fault.children[di].(children := d)])]
  }

  /** The Body after getXMLFault: each detail element replaced by the stand-in of its block. */
  function AfterReadFault(body: seq<Node>, p: SoapVersion, owner: Option<MessageRef>): seq<Node>
  {
    match FaultDetail(body, p)
    case None => body
    case Some(d) => if |Elements(d)| > 0 then WithDetail(body, p, MaterializeAll(d, owner)) else body
  }

  /** The first i element children of orig are materialised in dc, everything else is as in orig. */
  ghost predicate PartlyMaterialized(orig: seq<Node>, dc: seq<Node>, i: nat, owner: Option<MessageRef>)
  {
    && |dc| == |orig|
    && forall p :: 0 <= p < |orig| ==>
         dc[p] == if orig[p].Element? && Rank(orig, p) < i then Materialized(orig[p], owner) else orig[p]
  }

  /**
   * One step of reading the detail blocks: the i-th element child is still
   * found at the same position, yields the i-th block of the original
   * children, and one more element is materialised.
   */
  lemma PartlyMaterializedStep(orig: seq<Node>, dc: seq<Node>, i: nat, owner: Option<MessageRef>)
    requires PartlyMaterialized(orig, dc, i, owner) && i < |Elements(orig)|
    ensures ElementPos(dc, i) == ElementPos(orig, i)
    ensures var k := ElementPos(orig, i).value;
      && k < |dc| && dc[k].Element?
      && var (res, dc') := BlockFromElement(dc, k, OMBlockFactory, owner);
         && res == Success(BlocksOf(orig, owner)[i])
         && PartlyMaterialized(orig, dc', i + 1, owner)
  {
    SameShapePos(orig, dc, i);
    var k := ElementPos(orig, i).value;
    ElementPosElement(orig, i);
    forall p | 0 <= p < |orig| && orig[p].Element? && Rank(orig, p) == i
      ensures p == k
    {
      ElementPosOf(orig, p);
    }
  }

  /** The first i + 1 blocks are the first i and then the i-th. */
  lemma BlocksPrefixStep(s: seq<Node>, owner: Option<MessageRef>, i: nat)
    requires i < |Elements(s)|
    ensures |BlocksOf(s, owner)| == |Elements(s)|
    ensures BlocksOf(s, owner)[..i + 1] == BlocksOf(s, owner)[..i] + [BlocksOf(s, owner)[i]]
  {
    var bs := BlocksOf(s, owner);
    assert bs[..i + 1] == bs[..i] + [bs[i]];
  }

  /** Once every element child has been stepped over, the list is fully materialised. */
  lemma PartlyMaterializedDone(orig: seq<Node>, dc: seq<Node>, owner: Option<MessageRef>)
    requires PartlyMaterialized(orig, dc, |Elements(orig)|, owner)
    ensures dc == MaterializeAll(orig, owner)
  {
    forall p | 0 <= p < |orig| && orig[p].Element?
      ensures Rank(orig, p) < |Elements(orig)|
    {
      ElementAtRank(orig, p);
    }
  }

  /**
   * A Body holding only the Fault element written for f is a fault, and
   * reading it back gives f, its detail blocks owned by the reader's message.
   */
  lemma FaultRoundTrip(f: XMLFault, p: SoapVersion, owner: Option<MessageRef>)
    ensures HasFault([FaultElement(f, p)], p)
    ensures ReadFault([FaultElement(f, p)], p, owner) == Some(f.(detail := Reowned(f.detail, owner)))
  {
    var fe := FaultElement(f, p);
    var body := [fe];
    SelectSingle(fe, AnyElement);
    assert ElementPos(body, 0) == Some(0);
    assert HasFault(body, p);
    FaultElementFields(f, p);
    var d := StandIns(f.detail);
    SelectAllElements(d);
    assert Listed(FaultDetail(body, p)) == d;
    var bs := BlocksOf(d, owner);
    assert |bs| == |f.detail|;
    forall i | 0 <= i < |f.detail|
      ensures bs[i] == f.detail[i].(owner := owner)
    {
      assert Elements(d)[i] == StandIn(f.detail[i].name, f.detail[i]);
    }
    assert bs == Reowned(f.detail, owner);
  }
}
