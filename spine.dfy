/**
 * The spine of a SOAP message part: an envelope tree with a Header and a Body,
 * and block-level operations over it. Body blocks are addressed by ordinal
 * under the anchor (the Body, or the RPC operation element); header blocks by
 * qualified name. The envelope is shared with whoever built it, so it is an
 * object of its own that the spine updates in place.
 */
module XmlSpine {
  import opened Wrappers
  import opened XmlTree
  import opened Soap
  import opened SpineModel

  /** The SOAP factory of one protocol version. */
  datatype SoapFactory = Soap11Factory | Soap12Factory

  /** The protocol version a factory builds. */
  function FactoryVersion(f: SoapFactory): SoapVersion
  {
    if f == Soap11Factory then Soap11 else Soap12
  }

  /** _getFactory: the factory of the protocol, and the REST error for any other protocol. */
  function FactoryFor(p: Protocol): (r: Result<SoapFactory, SpineError>)
    ensures r.Success? <==> p != Unknown
    ensures r.Success? ==> FactoryVersion(r.value) == p
    ensures r.Failure? ==> r.error == RestNotSupported
  {
    match p
    case Soap11 => Success(Soap11Factory)
    case Soap12 => Success(Soap12Factory)
    case Unknown => Failure(RestNotSupported)
  }

  /** A SOAP envelope: its namespace, and the children of its Header and Body, each possibly missing. */
  class Envelope {
    const ns: string
    var header: Option<seq<Node>>
    var body: Option<seq<Node>>

    constructor (ns: string, header: Option<seq<Node>>, body: Option<seq<Node>>)
      ensures this.ns == ns && this.header == header && this.body == body
    {
      this.ns := ns;
      this.header := header;
      this.body := body;
    }
  }

  class Spine {
    const protocol: SoapVersion
    const style: Style
    const root: Envelope
    const soapFactory: SoapFactory
    var parent: Option<MessageRef>

    /** The envelope is of the spine's protocol, has a Body, and the factory is the protocol's. */
    ghost predicate Valid()
      reads this, root
    {
      && root.ns == EnvelopeNamespace(protocol)
      && root.body.Some?
      && FactoryFor(protocol) == Success(soapFactory)
    }

    constructor (protocol: SoapVersion, style: Style, root: Envelope, soapFactory: SoapFactory)
      ensures this.protocol == protocol && this.style == style && this.root == root
      ensures this.soapFactory == soapFactory && parent == None
    {
      this.protocol := protocol;
      this.style := style;
      this.root := root;
      this.soapFactory := soapFactory;
      parent := None;
    }

    // -------------------------------------------------------------------------
    // Building a spine
    // -------------------------------------------------------------------------

    /**
     * A spine with a fresh, empty envelope for the protocol; any protocol but
     * SOAP 1.1 and SOAP 1.2 is refused.
     */
    static method FromProtocol(protocol: Protocol, style: Style) returns (r: Result<Spine, SpineError>)
      ensures r.Failure? <==> protocol == Unknown
      ensures r.Failure? ==> r.error == RestNotSupported
      ensures r.Success? ==>
        && fresh(r.value) && fresh(r.value.root) && r.value.Valid()
        && r.value.protocol == protocol && r.value.style == style && r.value.parent == None
        && r.value.root.header == Some([]) && r.value.root.body == Some(EmptyBody(style))
    {
      var factory := FactoryFor(protocol);
      if factory.Failure? {
        return Failure(factory.error);
      }
      var version: SoapVersion := protocol;
      var env := CreateEmptyEnvelope(style, factory.value);
      var spine := new Spine(version, style, env, factory.value);
      return Success(spine);
    }

    /**
     * A spine over an existing envelope: Header and Body are created when
     * missing, then the protocol is read off the envelope's namespace; any
     * namespace but the two SOAP ones is refused.
     */
    static method FromEnvelope(envelope: Envelope, style: Style) returns (r: Result<Spine, SpineError>)
      modifies envelope
      ensures envelope.header == if old(envelope.header).None? then Some([]) else old(envelope.header)
      ensures envelope.body == if old(envelope.body).None? then Some([]) else old(envelope.body)
      ensures r.Failure? <==> ProtocolOf(envelope.ns) == Unknown
      ensures r.Failure? ==> r.error == RestNotSupported
      ensures r.Success? ==>
        && fresh(r.value) && r.value.root == envelope && r.value.Valid()
        && r.value.protocol == ProtocolOf(envelope.ns) && r.value.style == style && r.value.parent == None
    {
      Init(envelope);
      var protocol := ProtocolOf(envelope.ns);
      if protocol == Unknown {
        return Failure(RestNotSupported);
      }
      var factory := FactoryFor(protocol);
      var spine := new Spine(protocol, style, envelope, factory.value);
      return Success(spine);
    }

    /** init: the envelope gets an empty Header and an empty Body where it has none. */
    static method Init(envelope: Envelope)
      modifies envelope
      ensures envelope.header == if old(envelope.header).None? then Some([]) else old(envelope.header)
      ensures envelope.body == if old(envelope.body).None? then Some([]) else old(envelope.body)
    {
      if envelope.header.None? {
        envelope.header := Some([]);
      }
      if envelope.body.None? {
        envelope.body := Some([]);
      }
    }

    /**
     * _createEmptyEnvelope: an envelope in the factory's namespace with an
     * empty Header and Body; under RPC the Body holds the placeholder operation.
     */
    static method CreateEmptyEnvelope(style: Style, factory: SoapFactory) returns (env: Envelope)
      ensures fresh(env) && env.ns == EnvelopeNamespace(FactoryVersion(factory))
      ensures env.header == Some([]) && env.body == Some(EmptyBody(style))
    {
      env := new Envelope(EnvelopeNamespace(FactoryVersion(factory)), None, None);
      env.body := Some([]);
      env.header := Some([]);
      if style == Rpc {
        env.body := Some(env.body.value + [Placeholder]);
        assert [] + [Placeholder] == [Placeholder];
      }
    }

    /** getXMLPartContentType: a part held as a spine reports the content type "SPINE". */
    static function XMLPartContentType(): (t: string)
      ensures t == "SPINE"
    {
      "SPINE"
    }

    method SetParent(p: Option<MessageRef>)
      modifies this
      ensures parent == p
    {
      parent := p;
    }

    // -------------------------------------------------------------------------
    // Walking the children of an element
    // -------------------------------------------------------------------------

    /** _getNumChildElements: the number of element children, 0 for a missing element. */
    static method NumChildElements(om: Option<seq<Node>>) returns (num: nat)
      ensures num == |Elements(Listed(om))|
    {
      if om.None? {
        return 0;
      }
      var s := om.value;
      num := 0;
      var k := 0;
      while k < |s|
        invariant k <= |s| && num == Rank(s, k)
      {
        RankStep(s, k);
        if s[k].Element? {
          num := num + 1;
        }
        k := k + 1;
      }
      assert s[..|s|] == s;
    }

    /**
     * _getChildOMElement by ordinal: the position of the index-th element
     * child, skipping other nodes; None for a missing element or an index
     * that is negative or not below the element count.
     */
    static method ChildElementAt(om: Option<seq<Node>>, index: int) returns (r: Option<nat>)
      ensures r == ElementPos(Listed(om), index)
    {
      if om.None? {
        return None;
      }
      var s := om.value;
      var i := 0;
      var k := 0;
      while k < |s|
        invariant k <= |s| && i == Rank(s, k)
        invariant forall j :: 0 <= j < k && s[j].Element? ==> Rank(s, j) != index
      {
        RankStep(s, k);
        if s[k].Element? {
          if i == index {
            ElementPosOf(s, k);
            return Some(k);
          }
          i := i + 1;
        }
        k := k + 1;
      }
      return None;
    }

    /**
     * _getChildOMElement by name: the position of the first element child
     * named (ns, local); None when the element is missing or has no such child.
     */
    static function ChildNamed(om: Option<seq<Node>>, ns: string, local: string): (r: Option<nat>)
      ensures r.None? <==> Select(Listed(om), Named(QName(ns, local))) == []
      ensures r.Some? ==> om.Some? && r.value < |om.value| && IsNamed(om.value[r.value], QName(ns, local))
      ensures r.Some? ==> forall j :: 0 <= j < r.value ==> !IsNamed(om.value[j], QName(ns, local))
    {
      FirstNamedSelect(Listed(om), QName(ns, local));
      if om.None? then None else FirstNamed(om.value, QName(ns, local))
    }

    // -------------------------------------------------------------------------
    // Body blocks
    // -------------------------------------------------------------------------

    /**
     * _getBodyBlockParent: the Body, unless the style is RPC and the Body
     * holds no fault; then its first element child, a placeholder appended
     * when there is none.
     */
    method BodyBlockParent() returns (a: Anchor)
      requires Valid()
      modifies root
      ensures Valid() && root.header == old(root.header)
      ensures root.body == Some(Resolved(old(root.body.value), protocol, style))
      ensures a == AnchorIn(root.body.value, protocol, style)
    {
      var body := root.body.value;
      if !HasFault(body, protocol) && style == Rpc {
        var op := ElementPos(body, 0);
        if op.None? {
          PlaceholderFirst(body, protocol);
          root.body := Some(body + [Placeholder]);
          return AtOperation(|body|);
        }
        return AtOperation(op.value);
      }
      return AtBody;
    }

    method GetNumBodyBlocks() returns (n: nat)
      requires Valid()
      modifies root
      ensures Valid() && root.header == old(root.header)
      ensures root.body == Some(Resolved(old(root.body.value), protocol, style))
      ensures n == |Elements(BodyBlocks(old(root.body.value), protocol, style))|
    {
      var a := BodyBlockParent();
      n := NumChildElements(Some(Children(root.body.value, a)));
    }

    /**
     * getBodyBlock: nothing when there is no index-th body block; otherwise
     * the block the factory makes of it, owned by the spine's message, with
     * the element replaced in place by the block's stand-in.
     */
    method GetBodyBlock(index: int, factory: BlockFactory) returns (r: Result<Option<Block>, SpineError>)
      requires Valid()
      modifies root
      ensures Valid() && root.header == old(root.header)
      ensures var c := BodyBlocks(old(root.body.value), protocol, style);
        var (res, c') := TakeBlock(c, ElementPos(c, index), factory, parent);
        r == res && root.body == Some(WithBodyBlocks(old(root.body.value), protocol, style, c'))
    {
      var a := BodyBlockParent();
      var body := root.body.value;
      var c := Children(body, a);
      var pos := ChildElementAt(Some(c), index);
      if pos.None? {
        assert WithChildren(body, a, c) == body;
        return Success(None);
      }
      var (res, c') := BlockFromElement(c, pos.value, factory, parent);
      if res.Failure? {
        assert WithChildren(body, a, c) == body;
        return Failure(res.error);
      }
      root.body := Some(WithChildren(body, a, c'));
      return Success(Some(res.value));
    }

    /**
     * setBodyBlock: the block, handed to the spine's message, replaces the
     * index-th body block in place, or is appended when there is none.
     */
    method SetBodyBlock(index: int, block: Block)
      requires Valid()
      modifies root
      ensures Valid() && root.header == old(root.header)
      ensures var c := BodyBlocks(old(root.body.value), protocol, style);
        root.body == Some(WithBodyBlocks(old(root.body.value), protocol, style,
                                         PutElement(c, index, BodyStandIn(block, parent))))
    {
      var a := BodyBlockParent();
      var body := root.body.value;
      var c := Children(body, a);
      var pos := ChildElementAt(Some(c), index);
      var n := BodyStandIn(block, parent);
      if pos.None? {
        c := c + [n];
      } else {
        c := c[pos.value := n];
      }
      root.body := Some(WithChildren(body, a, c));
    }

    /** removeBodyBlock: the index-th body block is detached; nothing happens when there is none. */
    method RemoveBodyBlock(index: int)
      requires Valid()
      modifies root
      ensures Valid() && root.header == old(root.header)
      ensures var c := BodyBlocks(old(root.body.value), protocol, style);
        root.body == Some(WithBodyBlocks(old(root.body.value), protocol, style, RemoveElement(c, index)))
    {
      var a := BodyBlockParent();
      var body := root.body.value;
      var c := Children(body, a);
      var pos := ChildElementAt(Some(c), index);
      if pos.Some? {
        var c' := c[..pos.value] + c[pos.value + 1..];
        assert c' == RemoveElement(c, index);
        root.body := Some(WithChildren(body, a, c'));
      } else {
        assert c == RemoveElement(c, index);
        assert WithChildren(body, a, c) == body;
      }
    }

    // -------------------------------------------------------------------------
    // Header blocks
    // -------------------------------------------------------------------------

    method GetNumHeaderBlocks() returns (n: nat)
      requires Valid()
      ensures n == |Elements(Listed(root.header))|
    {
      n := NumChildElements(root.header);
    }

    /**
     * getHeaderBlock: nothing when there is no Header or no child named
     * (ns, local); otherwise the block made of the first such child, which is
     * replaced in place by the block's stand-in.
     */
    method GetHeaderBlock(ns: string, local: string, factory: BlockFactory)
      returns (r: Result<Option<Block>, SpineError>)
      requires Valid()
      modifies root
      ensures Valid() && root.body == old(root.body)
      ensures var h := Listed(old(root.header));
        var (res, h') := TakeBlock(h, FirstNamed(h, QName(ns, local)), factory, parent);
        r == res && root.header == if old(root.header).None? then None else Some(h')
    {
      var pos := ChildNamed(root.header, ns, local);
      if pos.None? {
        return Success(None);
      }
      var h := root.header.value;
      var (res, h') := BlockFromElement(h, pos.value, factory, parent);
      if res.Failure? {
        return Failure(res.error);
      }
      root.header := Some(h');
      return Success(Some(res.value));
    }

    /**
     * setHeaderBlock: the stand-in of the block, named (ns, local) and handed
     * to the spine's message, replaces the first child of that name in place
     * or is appended, the Header being created when missing.
     */
    method SetHeaderBlock(ns: string, local: string, block: Block)
      requires Valid()
      modifies root
      ensures Valid() && root.body == old(root.body)
      ensures root.header ==
        Some(PutNamed(Listed(old(root.header)), QName(ns, local), HeaderStandIn(QName(ns, local), block, parent)))
    {
      var n := HeaderStandIn(QName(ns, local), block, parent);
      var pos := ChildNamed(root.header, ns, local);
      if pos.None? {
        if root.header.None? {
          root.header := Some([]);
        }
        root.header := Some(root.header.value + [n]);
      } else {
        root.header := Some(root.header.value[pos.value := n]);
      }
    }

    /** removeHeaderBlock: the first child named (ns, local) is detached, if there is a Header holding one. */
    method RemoveHeaderBlock(ns: string, local: string)
      requires Valid()
      modifies root
      ensures Valid() && root.body == old(root.body)
      ensures root.header ==
        if old(root.header).None? then None else Some(RemoveNamed(old(root.header.value), QName(ns, local)))
    {
      var pos := ChildNamed(root.header, ns, local);
      if pos.Some? {
        var h := root.header.value;
        root.header := Some(h[..pos.value] + h[pos.value + 1..]);
      }
    }

    // -------------------------------------------------------------------------
    // Operation element
    // -------------------------------------------------------------------------

    /** getOperationElement: the name of the anchor when it is an operation element, None when it is the Body. */
    method GetOperationElement() returns (r: Option<QName>)
      requires Valid()
      modifies root
      ensures Valid() && root.header == old(root.header)
      ensures root.body == Some(Resolved(old(root.body.value), protocol, style))
      ensures r == OperationName(old(root.body.value), protocol, style)
    {
      var a := BodyBlockParent();
      if a.AtBody? {
        return None;
      }
      return Some(root.body.value[a.pos].name);
    }

    /** setOperationElement: the operation element, if the anchor is one, is renamed q. */
    method SetOperationElement(q: QName)
      requires Valid()
      modifies root
      ensures Valid() && root.header == old(root.header)
      ensures root.body == Some(Renamed(old(root.body.value), protocol, style, q))
    {
      var a := BodyBlockParent();
      if a.AtOperation? {
        var body := root.body.value;
        root.body := Some(body[a.pos := body[a.pos].(name := q)]);
      }
    }

    // -------------------------------------------------------------------------
    // Faults
    // -------------------------------------------------------------------------

    /** isFault: the Body's first element child is the protocol's Fault. */
    predicate IsFault()
      requires Valid()
      reads this, root
      ensures IsFault() <==>
        exists k :: 0 <= k < |root.body.value| && root.body.value[k].Element?
          && Rank(root.body.value, k) == 0 && root.body.value[k].name == FaultName(protocol)
    {
      FaultIsFirstElement(root.body.value, protocol);
      HasFault(root.body.value, protocol)
    }

    /** getNumDetailBlocks: the element children of the fault's Detail; 0 without a fault or a Detail. */
    method GetNumDetailBlocks() returns (n: nat)
      requires Valid()
      ensures n == |Elements(Listed(FaultDetail(root.body.value, protocol)))|
      ensures !IsFault() ==> n == 0
    {
      var body := root.body.value;
      if HasFault(body, protocol) {
        var fault := body[ElementPos(body, 0).value];
        n := NumChildElements(DetailEntries(fault, protocol));
      } else {
        n := 0;
      }
    }

    /**
     * The detail loop of getXMLFault over the Detail's children: the i-th
     * element child, for each ordinal in turn, becomes a block of the OM block
     * factory owned by owner, and is replaced in place by its stand-in.
     */
    static method MaterializeDetail(detail: seq<Node>, n: nat, owner: Option<MessageRef>)
      returns (blocks: seq<Block>, dc: seq<Node>)
      requires n == |Elements(detail)|
      ensures blocks == BlocksOf(detail, owner)
      ensures dc == MaterializeAll(detail, owner)
    {
      dc := detail;
      blocks := [];
      var i := 0;
      while i < n
        invariant 0 <= i <= n
        invariant PartlyMaterialized(detail, dc, i, owner)
        invariant blocks == BlocksOf(detail, owner)[..i]
      {
        PartlyMaterializedStep(detail, dc, i, owner);
        var pos := ChildElementAt(Some(dc), i);
        var (res, dc') := BlockFromElement(dc, pos.value, OMBlockFactory, owner);
        BlocksPrefixStep(detail, owner, i);
        blocks := blocks + [res.value];
        dc := dc';
        i := i + 1;
      }
      PartlyMaterializedDone(detail, dc, owner);
    }

    /**
     * getXMLFault: None when the Body holds no fault; otherwise the fault's
     * code, reason and one block per Detail element, in document order, each
     * made by the OM block factory and replaced in place by its stand-in.
     */
    method GetXMLFault() returns (r: Option<XMLFault>)
      requires Valid()
      modifies root
      ensures Valid() && root.header == old(root.header)
      ensures r == ReadFault(old(root.body.value), protocol, parent)
      ensures root.body == Some(AfterReadFault(old(root.body.value), protocol, parent))
    {
      var body := root.body.value;
      if !HasFault(body, protocol) {
        return None;
      }
      var n := GetNumDetailBlocks();
      var blocks: seq<Block> := [];
      if n > 0 {
        var dc;
        blocks, dc := MaterializeDetail(FaultDetail(body, protocol).value, n, parent);
        root.body := Some(WithDetail(body, protocol, dc));
      } else {
        assert BlocksOf(Listed(FaultDetail(body, protocol)), parent) == [];
      }
      var fault := body[ElementPos(body, 0).value];
      r := Some(XMLFault(FaultText(fault, CodeName(protocol)), FaultText(fault, ReasonName(protocol)), blocks));
    }

    /**
     * setXMLFault: every child of the Body is detached, one by one, and the
     * Body then holds the Fault element built from the normalised fault alone.
     */
    method SetXMLFault(f: XMLFault)
      requires Valid()
      modifies root
      ensures Valid() && root.header == old(root.header)
      ensures root.body == Some([FaultElement(f, protocol)])
    {
      var detailBlocks := GetNumDetailBlocks();
      var bodyBlocks := GetNumBodyBlocks();
      while root.body.value != []
        invariant Valid() && root.header == old(root.header)
        decreases |root.body.value|
      {
        root.body := Some(root.body.value[1..]);
      }
      assert root.body.value + [FaultElement(f, protocol)] == [FaultElement(f, protocol)];
      root.body := Some(root.body.value + [FaultElement(f, protocol)]);
    }
  }
}
