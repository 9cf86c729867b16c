/**
 * The part of the Axiom object model the spine relies on: an ordered list of
 * child nodes, some of them elements, addressed either by element ordinal
 * ("the i-th element child, skipping text and comments") or by qualified name
 * ("the first element child with this name").
 */
module XmlTree {
  import opened Wrappers

  /** A qualified name: namespace URI and local part (prefixes carry no meaning here). */
  datatype QName = QName(ns: string, local: string)

  /** A non-owning handle on the Message that owns a spine. */
  datatype MessageRef = MessageRef(id: nat)

  /**
   * A block: the qualified name of the element it stands for, the XML it
   * serialises to, and the back reference to its owning message.
   */
  datatype Block = Block(name: QName, xml: Node, owner: Option<MessageRef>)

  /** An element is either as read from the stream, or a sourced stand-in that defers to a block. */
  datatype Origin = Parsed | Sourced(block: Block)

  /** A node: an element, or any non-element node (text, comment, processing instruction). */
  datatype Node =
    | Element(name: QName, origin: Origin, children: seq<Node>)
    | Other(text: string)

  /** The XML a reader of the element sees: a sourced stand-in shows the XML of its block. */
  function View(n: Node): Node
  {
    if n.Element? && n.origin.Sourced? then n.origin.block.xml else n
  }

  /** The sourced stand-in element that replaces a node once it is turned into a block. */
  function StandIn(name: QName, b: Block): (n: Node)
    ensures n.Element? && n.name == name && View(n) == b.xml
  {
    Element(name, Sourced(b), [])
  }

  // ---------------------------------------------------------------------------
  // Selecting element children
  // ---------------------------------------------------------------------------

  /** Which element children a walk over the children keeps. */
  datatype Selector = AnyElement | Named(name: QName)

  predicate Selects(sel: Selector, n: Node)
  {
    n.Element? && (sel.Named? ==> n.name == sel.name)
  }

  /** The selected children, in document order. */
  function Select(s: seq<Node>, sel: Selector): (r: seq<Node>)
    ensures |r| <= |s|
    ensures forall i :: 0 <= i < |r| ==> Selects(sel, r[i])
  {
    if s == [] then []
    else (if Selects(sel, s[0]) then [s[0]] else []) + Select(s[1..], sel)
  }

  /** The element children, in document order; their number is what the spine counts. */
  function Elements(s: seq<Node>): seq<Node>
  {
    Select(s, AnyElement)
  }

  /** The ordinal of position p among the element children: the number of elements before it. */
  function Rank(s: seq<Node>, p: nat): nat
    requires p <= |s|
  {
    |Elements(s[..p])|
  }

  lemma {:induction false} SelectAppend(a: seq<Node>, b: seq<Node>, sel: Selector)
    ensures Select(a + b, sel) == Select(a, sel) + Select(b, sel)
  {
    if a == [] {
      assert a + b == b;
    } else {
      assert (a + b)[1..] == a[1..] + b;
      SelectAppend(a[1..], b, sel);
    }
  }

  lemma SelectSingle(n: Node, sel: Selector)
    ensures Select([n], sel) == if Selects(sel, n) then [n] else []
  {
    assert [n][1..] == [];
  }

  /** Selecting over a list is selecting before, at and after any position. */
  lemma SelectSplit(s: seq<Node>, p: nat, sel: Selector)
    requires p < |s|
    ensures Select(s, sel) == Select(s[..p], sel) + Select([s[p]], sel) + Select(s[p + 1..], sel)
  {
    assert s == s[..p] + [s[p]] + s[p + 1..];
    SelectAppend(s[..p] + [s[p]], s[p + 1..], sel);
    SelectAppend(s[..p], [s[p]], sel);
  }

  lemma {:induction false} SelectNone(s: seq<Node>, sel: Selector)
    requires forall j :: 0 <= j < |s| ==> !Selects(sel, s[j])
    ensures Select(s, sel) == []
  {
    if s != [] {
      SelectNone(s[1..], sel);
    }
  }

  /** The element at position p is the Rank(s, p)-th element child. */
  lemma ElementAtRank(s: seq<Node>, p: nat)
    requires p < |s| && s[p].Element?
    ensures Rank(s, p) < |Elements(s)| && Elements(s)[Rank(s, p)] == s[p]
  {
    SelectSplit(s, p, AnyElement);
    SelectSingle(s[p], AnyElement);
  }

  /** Ranks strictly grow past an element: no two element children share an ordinal. */
  lemma RankIncreasing(s: seq<Node>, p: nat, q: nat)
    requires p < q <= |s| && s[p].Element?
    ensures Rank(s, p) < Rank(s, q)
  {
    assert s[..q] == s[..p] + s[p..q];
    SelectAppend(s[..p], s[p..q], AnyElement);
    assert s[p..q] == [s[p]] + s[p + 1..q];
    SelectAppend([s[p]], s[p + 1..q], AnyElement);
    SelectSingle(s[p], AnyElement);
  }

  // ---------------------------------------------------------------------------
  // Addressing by ordinal
  // ---------------------------------------------------------------------------

  /**
   * The position of the index-th element child, skipping non-element nodes;
   * None when index is negative or at least the number of element children.
   */
  function ElementPos(s: seq<Node>, index: int): (r: Option<nat>)
    ensures r.Some? <==> 0 <= index < |Elements(s)|
    ensures r.Some? ==> r.value < |s| && s[r.value].Element? && Rank(s, r.value) == index
  {
    if s == [] then None
    else if s[0].Element? && index == 0 then
      assert s[..0] == [];
      Some(0)
    else
      var rest := ElementPos(s[1..], if s[0].Element? then index - 1 else index);
      assert Elements(s) == (if s[0].Element? then [s[0]] else []) + Elements(s[1..]);
      match rest
      case None => None
      case Some(p) =>
        assert s[..p + 1] == [s[0]] + s[1..][..p];
        SelectAppend([s[0]], s[1..][..p], AnyElement);
        SelectSingle(s[0], AnyElement);
        Some(p + 1)
  }

  /** Every element child is found again by its own ordinal. */
  lemma ElementPosOf(s: seq<Node>, p: nat)
    requires p < |s| && s[p].Element?
    ensures ElementPos(s, Rank(s, p)) == Some(p)
  {
    ElementAtRank(s, p);
    var q := ElementPos(s, Rank(s, p)).value;
    if q < p {
      RankIncreasing(s, q, p);
    } else if p < q {
      RankIncreasing(s, p, q);
    }
  }

  /** The position found for an ordinal holds exactly that element of Elements(s). */
  lemma ElementPosElement(s: seq<Node>, index: int)
    requires 0 <= index < |Elements(s)|
    ensures Elements(s)[index] == s[ElementPos(s, index).value]
  {
    ElementAtRank(s, ElementPos(s, index).value);
  }

  // ---------------------------------------------------------------------------
  // Addressing by name
  // ---------------------------------------------------------------------------

  predicate IsNamed(n: Node, q: QName)
  {
    Selects(Named(q), n)
  }

  /** The position of the first element child named q, or None when there is none. */
  function FirstNamed(s: seq<Node>, q: QName): (r: Option<nat>)
    ensures r.Some? ==> r.value < |s| && IsNamed(s[r.value], q)
    ensures r.Some? ==> forall j :: 0 <= j < r.value ==> !IsNamed(s[j], q)
    ensures r.None? ==> forall j :: 0 <= j < |s| ==> !IsNamed(s[j], q)
  {
    if s == [] then None
    else if IsNamed(s[0], q) then Some(0)
    else
      match FirstNamed(s[1..], q)
      case None => None
      case Some(p) => Some(p + 1)
  }

  /** The elements named q: the first of them is the one FirstNamed finds. */
  lemma FirstNamedSelect(s: seq<Node>, q: QName)
    ensures FirstNamed(s, q).None? <==> Select(s, Named(q)) == []
    ensures FirstNamed(s, q).Some? ==>
      Select(s, Named(q)) == [s[FirstNamed(s, q).value]] + Select(s[FirstNamed(s, q).value + 1..], Named(q))
  {
    match FirstNamed(s, q)
    case None =>
      SelectNone(s, Named(q));
    case Some(p) =>
      SelectSplit(s, p, Named(q));
      SelectSingle(s[p], Named(q));
      SelectNone(s[..p], Named(q));
  }

  // ---------------------------------------------------------------------------
  // Turning elements into blocks
  // ---------------------------------------------------------------------------

  /** The block made from an element: its qname, the XML it shows, and the given owner. */
  function BlockFor(n: Node, owner: Option<MessageRef>): Block
    requires n.Element?
  {
    Block(n.name, View(n), owner)
  }

  /** The node left in the tree once n has been turned into a block owned by owner. */
  function Materialized(n: Node, owner: Option<MessageRef>): Node
  {
    if n.Element? then StandIn(n.name, BlockFor(n, owner)) else n
  }

  /** Every element child replaced by its stand-in; other nodes kept. */
  function MaterializeAll(s: seq<Node>, owner: Option<MessageRef>): seq<Node>
  {
    seq(|s|, p requires 0 <= p < |s| => Materialized(s[p], owner))
  }

  /** One block per element child, in document order. */
  function BlocksOf(s: seq<Node>, owner: Option<MessageRef>): seq<Block>
  {
    var es := Elements(s);
    seq(|es|, i requires 0 <= i < |es| => BlockFor(es[i], owner))
  }

  /** The stand-ins of a list of blocks, each under the block's own name. */
  function StandIns(bs: seq<Block>): seq<Node>
  {
    seq(|bs|, i requires 0 <= i < |bs| => StandIn(bs[i].name, bs[i]))
  }

  /** The blocks, handed to a new owner. */
  function Reowned(bs: seq<Block>, owner: Option<MessageRef>): seq<Block>
  {
    seq(|bs|, i requires 0 <= i < |bs| => bs[i].(owner := owner))
  }

  lemma RankStep(s: seq<Node>, k: nat)
    requires k < |s|
    ensures Rank(s, k + 1) == Rank(s, k) + (if s[k].Element? then 1 else 0)
  {
    assert s[..k + 1] == s[..k] + [s[k]];
    SelectAppend(s[..k], [s[k]], AnyElement);
    SelectSingle(s[k], AnyElement);
  }

  /** Two lists with elements at the same positions have as many element children. */
  lemma {:induction false} SameShapeCount(a: seq<Node>, b: seq<Node>)
    requires |a| == |b|
    requires forall p :: 0 <= p < |a| ==> a[p].Element? == b[p].Element?
    ensures |Elements(a)| == |Elements(b)|
  {
    if a != [] {
      SameShapeCount(a[1..], b[1..]);
    }
  }

  /** ... and so every position has the same ordinal in both. */
  lemma SameShapeRank(a: seq<Node>, b: seq<Node>, q: nat)
    requires |a| == |b| && q <= |a|
    requires forall p :: 0 <= p < |a| ==> a[p].Element? == b[p].Element?
    ensures Rank(a, q) == Rank(b, q)
  {
    SameShapeCount(a[..q], b[..q]);
  }

  /** ... and the same ordinal finds the same position in both. */
  lemma SameShapePos(a: seq<Node>, b: seq<Node>, index: int)
    requires |a| == |b|
    requires forall p :: 0 <= p < |a| ==> a[p].Element? == b[p].Element?
    ensures ElementPos(a, index) == ElementPos(b, index)
  {
    SameShapeCount(a, b);
    if ElementPos(a, index).Some? {
      var k := ElementPos(a, index).value;
      SameShapeRank(a, b, k);
      ElementPosOf(b, k);
    }
  }

  /** A list made only of elements is its own list of element children. */
  lemma {:induction false} SelectAllElements(s: seq<Node>)
    requires forall p :: 0 <= p < |s| ==> s[p].Element?
    ensures Elements(s) == s
  {
    if s != [] {
      SelectAllElements(s[1..]);
    }
  }
}
