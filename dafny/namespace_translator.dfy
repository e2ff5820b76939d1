/** XmlNamespaceTranslator: moves DOM nodes from one namespace URI to another, in place. */
module NamespaceTranslator {
  import opened Base
  import opened JavaString

  /** Node.getNodeType, as far as the translator distinguishes it. */
  datatype NodeType = ElementNode | AttributeNode | TextNode | OtherNode(code: int)

  /** Elements, and attributes that are not prefixed namespace declarations, may be renamed. */
  predicate IsCandidate(nodeType: NodeType, nodeName: string)
    ensures nodeType == ElementNode ==> IsCandidate(nodeType, nodeName)
    ensures nodeType == AttributeNode ==>
      (IsCandidate(nodeType, nodeName) <==> !(|nodeName| >= 6 && nodeName[..6] == "xmlns:"))
    ensures nodeType.TextNode? || nodeType.OtherNode? ==> !IsCandidate(nodeType, nodeName)
  {
    nodeType == ElementNode || (nodeType == AttributeNode && !StartsWith(nodeName, "xmlns:"))
  }

  /** The table key of a node's namespace: no namespace is looked up under "". */
  function LookupKey(ns: Option<string>): (key: string)
    ensures key == "" <==> ns.None? || ns.value == ""
    ensures ns.Some? ==> key == ns.value
  {
    if ns.None? then "" else ns.value
  }

  /** The namespace renameNode leaves on a node: "" means no namespace. */
  function Renamed(toNamespace: string): (ns: Option<string>)
    ensures LookupKey(ns) == toNamespace
    ensures ns != Some("")
  {
    if toNamespace == "" then None else Some(toNamespace)
  }

  /** A node's namespace after its (one) visit. */
  function Translated(translations: map<string, string>, nodeType: NodeType, nodeName: string,
                      ns: Option<string>): (r: Option<string>)
    ensures !IsCandidate(nodeType, nodeName) || LookupKey(ns) !in translations ==> r == ns
    ensures IsCandidate(nodeType, nodeName) && LookupKey(ns) in translations ==>
      LookupKey(r) == translations[LookupKey(ns)] && r != Some("")
  {
    if IsCandidate(nodeType, nodeName) && LookupKey(ns) in translations
    then Renamed(translations[LookupKey(ns)])
    else ns
  }

  /** "xmlns:"-prefixed attributes are never renamed, whatever the table says. */
  lemma PrefixedDeclarationKept(translations: map<string, string>, prefix: string, ns: Option<string>)
    ensures Translated(translations, AttributeNode, "xmlns:" + prefix, ns) == ns
  {
    assert ("xmlns:" + prefix)[..6] == "xmlns:";
  }

  /** The plain default-namespace declaration "xmlns" is a candidate like any attribute. */
  lemma DefaultDeclarationIsCandidate(translations: map<string, string>, ns: Option<string>)
    requires LookupKey(ns) in translations
    ensures Translated(translations, AttributeNode, "xmlns", ns) == Renamed(translations[LookupKey(ns)])
  {
  }

  /** Text and other node kinds keep their namespace. */
  lemma OnlyElementsAndAttributes(translations: map<string, string>, nodeType: NodeType,
                                  nodeName: string, ns: Option<string>)
    requires !nodeType.ElementNode? && !nodeType.AttributeNode?
    ensures Translated(translations, nodeType, nodeName, ns) == ns
  {
  }

  /** A second visit would chain a -> b -> c: visiting each node exactly once is what keeps a
      node from a in b. */
  lemma SecondVisitWouldChain(translations: map<string, string>, name: string, a: string)
    requires a in translations && translations[a] in translations
    requires translations[translations[a]] != translations[a]
    ensures var once := Translated(translations, ElementNode, name, Some(a));
      && LookupKey(once) == translations[a]
      && LookupKey(Translated(translations, ElementNode, name, once)) == translations[translations[a]]
      && Translated(translations, ElementNode, name, once) != once
  {
  }

  /** When no target is itself a source, translating again changes nothing. */
  lemma SecondPassIsIdentity(translations: map<string, string>, nodeType: NodeType,
                             nodeName: string, ns: Option<string>)
    requires forall k :: k in translations ==> translations[k] !in translations
    ensures var once := Translated(translations, nodeType, nodeName, ns);
      Translated(translations, nodeType, nodeName, once) == once
  {
  }

  /** The test's table: "" to the report namespace moves every element and ordinary attribute
      without a namespace into it, and leaves namespaced nodes alone. */
  lemma NoNamespaceToTarget(target: string, nodeType: NodeType, nodeName: string, ns: Option<string>)
    requires target != ""
    ensures IsCandidate(nodeType, nodeName) && ns.None? ==>
      Translated(map["" := target], nodeType, nodeName, ns) == Some(target)
    ensures ns.Some? && ns.value != "" ==> Translated(map["" := target], nodeType, nodeName, ns) == ns
  {
  }

  // ---------------------------------------------------------------------------------------
  // The DOM

  /** A DOM node. Its kind, name, attributes and children never change here; renameNode only
      changes its namespace URI. `repr` is the node and everything below it. */
  class DomNode {
    const nodeType: NodeType
    const nodeName: string
    var namespaceUri: Option<string>
    const attributes: seq<DomNode>
    const children: seq<DomNode>
    ghost const repr: set<DomNode>
    ghost const height: nat

    /** The nodes one level down: attributes, then children. */
    function Kids(): seq<DomNode> {
      attributes + children
    }

    /** A tree: every node below is owned by exactly one attribute or child. */
    ghost predicate Valid()
      decreases height
    {
      && this in repr
      && (forall i :: 0 <= i < |Kids()| ==>
            && Kids()[i].height < height
            && Kids()[i].repr <= repr
            && this !in Kids()[i].repr
            && Kids()[i].Valid())
      && (forall i, j :: 0 <= i < j < |Kids()| ==> Kids()[i].repr !! Kids()[j].repr)
      && (forall n :: n in repr ==> n == this || n in Covered(Kids()))
    }

    /** A node without attributes or children. */
    constructor Leaf(nodeType: NodeType, nodeName: string, namespaceUri: Option<string>)
      ensures Valid() && repr == {this}
      ensures this.nodeType == nodeType && this.nodeName == nodeName
      ensures this.namespaceUri == namespaceUri
    {
      this.nodeType, this.nodeName, this.namespaceUri := nodeType, nodeName, namespaceUri;
      attributes, children := [], [];
      repr, height := {this}, 0;
    }

    /** A node over existing, separate subtrees. */
    constructor Parent(nodeType: NodeType, nodeName: string, namespaceUri: Option<string>,
                       attributes: seq<DomNode>, children: seq<DomNode>)
      requires forall i :: 0 <= i < |attributes + children| ==> (attributes + children)[i].Valid()
      requires forall i, j :: 0 <= i < j < |attributes + children| ==>
        (attributes + children)[i].repr !! (attributes + children)[j].repr
      ensures Valid() && repr == {this} + Covered(attributes + children)
      ensures this.nodeType == nodeType && this.nodeName == nodeName
      ensures this.namespaceUri == namespaceUri
      ensures this.attributes == attributes && this.children == children
    {
      var kids := attributes + children;
      this.nodeType, this.nodeName, this.namespaceUri := nodeType, nodeName, namespaceUri;
      this.attributes, this.children := attributes, children;
      repr := {this} + Covered(kids);
      height := MaxHeight(kids) + 1;
      new;
      assert Kids() == kids;
      forall i | 0 <= i < |kids|
        ensures kids[i].repr <= repr
      {
        CoveredHas(kids, i);
      }
    }
  }

  /** Everything owned by a list of nodes. */
  ghost function Covered(nodes: seq<DomNode>): set<DomNode> {
    set i, n | 0 <= i < |nodes| && n in nodes[i].repr :: n
  }

  lemma CoveredHas(nodes: seq<DomNode>, i: nat)
    requires i < |nodes|
    ensures nodes[i].repr <= Covered(nodes)
  {
  }

  lemma CoveredHasAll(nodes: seq<DomNode>)
    ensures forall i :: 0 <= i < |nodes| ==> nodes[i].repr <= Covered(nodes)
  {
  }

  lemma CoveredAppend(nodes: seq<DomNode>, i: nat)
    requires i < |nodes|
    ensures Covered(nodes[..i + 1]) == Covered(nodes[..i]) + nodes[i].repr
  {
    var a, b := nodes[..i + 1], nodes[..i];
    forall n | n in Covered(a)
      ensures n in Covered(b) + nodes[i].repr
    {
      var k :| 0 <= k < |a| && n in a[k].repr;
      if k < i { assert b[k] == a[k]; }
    }
    forall n | n in Covered(b) + nodes[i].repr
      ensures n in Covered(a)
    {
      if n in Covered(b) {
        var k :| 0 <= k < |b| && n in b[k].repr;
        assert a[k] == b[k];
      } else {
        assert a[i] == nodes[i];
      }
    }
  }

  ghost function MaxHeight(nodes: seq<DomNode>): (h: nat)
    ensures forall i :: 0 <= i < |nodes| ==> nodes[i].height <= h
  {
    if nodes == [] then 0
    else
      var k := |nodes| - 1;
      var h := MaxHeight(nodes[..k]);
      assert forall i :: 0 <= i < k ==> nodes[..k][i] == nodes[i];
      if nodes[k].height > h then nodes[k].height else h
  }

  /** What a valid node's ownership says about its attribute and child lists. */
  lemma ValidParts(node: DomNode)
    requires node.Valid()
    ensures node.repr == {node} + Covered(node.attributes) + Covered(node.children)
    ensures node !in Covered(node.attributes) && node !in Covered(node.children)
    ensures Covered(node.attributes) !! Covered(node.children)
    ensures forall i :: 0 <= i < |node.attributes| ==>
      node.attributes[i].Valid() && node.attributes[i].height < node.height
    ensures forall i :: 0 <= i < |node.children| ==>
      node.children[i].Valid() && node.children[i].height < node.height
    ensures forall i, j :: 0 <= i < j < |node.attributes| ==>
      node.attributes[i].repr !! node.attributes[j].repr
    ensures forall i, j :: 0 <= i < j < |node.children| ==>
      node.children[i].repr !! node.children[j].repr
  {
    ValidLists(node);
    ValidCover(node);
  }

  /** Each of the two lists is a list of separate valid subtrees, lower than the node. */
  lemma ValidLists(node: DomNode)
    requires node.Valid()
    ensures forall i :: 0 <= i < |node.attributes| ==>
      node.attributes[i].Valid() && node.attributes[i].height < node.height
    ensures forall i :: 0 <= i < |node.children| ==>
      node.children[i].Valid() && node.children[i].height < node.height
    ensures forall i, j :: 0 <= i < j < |node.attributes| ==>
      node.attributes[i].repr !! node.attributes[j].repr
    ensures forall i, j :: 0 <= i < j < |node.children| ==>
      node.children[i].repr !! node.children[j].repr
  {
    var kids, attrs, kidsAfter := node.Kids(), node.attributes, node.children;
    var m := |attrs|;
    assert forall i :: 0 <= i < m ==> kids[i] == attrs[i];
    assert forall i :: 0 <= i < |kidsAfter| ==> kids[m + i] == kidsAfter[i];
    forall i, j | 0 <= i < j < |kidsAfter|
      ensures kidsAfter[i].repr !! kidsAfter[j].repr
    {
      assert kids[m + i] == kidsAfter[i] && kids[m + j] == kidsAfter[j];
    }
  }

  /** The node's footprint is the node itself and the two lists' footprints, all separate. */
  lemma ValidCover(node: DomNode)
    requires node.Valid()
    ensures node.repr == {node} + Covered(node.attributes) + Covered(node.children)
    ensures node !in Covered(node.attributes) && node !in Covered(node.children)
    ensures Covered(node.attributes) !! Covered(node.children)
  {
    var kids, attrs, kidsAfter := node.Kids(), node.attributes, node.children;
    var m := |attrs|;
    CoveredConcat(attrs, kidsAfter);
    forall n | n in Covered(kids)
      ensures n in node.repr && n != node
    {
      var k :| 0 <= k < |kids| && n in kids[k].repr;
      assert kids[k].repr <= node.repr && node !in kids[k].repr;
    }
    forall i, j | 0 <= i < m && 0 <= j < |kidsAfter|
      ensures attrs[i].repr !! kidsAfter[j].repr
    {
      assert kids[i] == attrs[i] && kids[m + j] == kidsAfter[j];
    }
    CoveredSeparate(attrs, kidsAfter);
  }

  lemma CoveredConcat(a: seq<DomNode>, b: seq<DomNode>)
    ensures Covered(a + b) == Covered(a) + Covered(b)
  {
    var ab := a + b;
    forall n | n in Covered(ab)
      ensures n in Covered(a) + Covered(b)
    {
      var k :| 0 <= k < |ab| && n in ab[k].repr;
      if k < |a| { assert ab[k] == a[k]; } else { assert ab[k] == b[k - |a|]; }
    }
    forall n | n in Covered(a) + Covered(b)
      ensures n in Covered(ab)
    {
      if n in Covered(a) {
        var k :| 0 <= k < |a| && n in a[k].repr;
        assert ab[k] == a[k];
      } else {
        var k :| 0 <= k < |b| && n in b[k].repr;
        assert ab[|a| + k] == b[k];
      }
    }
  }

  lemma CoveredSeparate(a: seq<DomNode>, b: seq<DomNode>)
    requires forall i, j :: 0 <= i < |a| && 0 <= j < |b| ==> a[i].repr !! b[j].repr
    ensures Covered(a) !! Covered(b)
  {
    forall n | n in Covered(a)
      ensures n !in Covered(b)
    {
      var k :| 0 <= k < |a| && n in a[k].repr;
      forall l | 0 <= l < |b|
        ensures n !in b[l].repr
      {
        assert a[k].repr !! b[l].repr;
      }
    }
  }

  // ---------------------------------------------------------------------------------------
  // The translator

  class XmlNamespaceTranslator {
    var translations: map<string, string>

    /** Every key and value of the table has been stripped (so stripping them again is the
      identity). */
    predicate Valid()
      reads this
    {
      AllStripped(translations)
    }

    constructor ()
      ensures translations == map[] && Valid()
    {
      translations := map[];
    }

    /** addTranslation: both URIs must be non-null; both are stripped; a later translation for
        the same source replaces the earlier one; the translator itself is returned. */
    method AddTranslation(fromNamespace: Option<string>, toNamespace: Option<string>)
      returns (r: Result<XmlNamespaceTranslator>)
      requires Valid()
      modifies this
      ensures Valid()
      ensures fromNamespace.None? ==>
        r == Failure(NullPointer("fromNamespace")) && translations == old(translations)
      ensures fromNamespace.Some? && toNamespace.None? ==>
        r == Failure(NullPointer("toNamespace")) && translations == old(translations)
      ensures fromNamespace.Some? && toNamespace.Some? ==>
        && r == Success(this)
        && translations == old(translations)[Strip(fromNamespace.value) := Strip(toNamespace.value)]
    {
      if fromNamespace.None? {
        return Failure(NullPointer("fromNamespace"));
      }
      if toNamespace.None? {
        return Failure(NullPointer("toNamespace"));
      }
      var from, to := Strip(fromNamespace.value), Strip(toNamespace.value);
      PutKeepsStripped(translations, from, to);
      translations := translations[from := to];
      return Success(this);
    }

    /** translateNamespaces(xmlDoc): the document element and everything below it. */
    method TranslateNamespaces(documentElement: DomNode)
      requires documentElement.Valid()
      modifies documentElement.repr
      ensures forall n :: n in documentElement.repr ==>
        n.namespaceUri == Translated(translations, n.nodeType, n.nodeName, old(n.namespaceUri))
    {
      TranslateNode(documentElement);
    }

    /** The recursive translateNamespaces: the node, then its attributes, then its children;
        each node below is visited exactly once. */
    method TranslateNode(node: DomNode)
      requires node.Valid()
      modifies node.repr
      ensures forall n :: n in node.repr ==>
        n.namespaceUri == Translated(translations, n.nodeType, n.nodeName, old(n.namespaceUri))
      decreases node.height, 1
    {
      ValidParts(node);
      ghost var inAttributes, inChildren := Covered(node.attributes), Covered(node.children);
      CoveredHasAll(node.attributes);
      CoveredHasAll(node.children);
      Rename(node);
      label renamed:
      TranslateAll(node.attributes, inAttributes, node.height);
      label attributesDone:
      TranslateAll(node.children, inChildren, node.height);
      forall n | n in node.repr
        ensures n.namespaceUri == Translated(translations, n.nodeType, n.nodeName, old(n.namespaceUri))
      {
        if n == node {
          assert n !in inAttributes && n !in inChildren;
        } else if n in inAttributes {
          assert n !in inChildren;
          assert n.namespaceUri == old@attributesDone(n.namespaceUri);
          assert old@renamed(n.namespaceUri) == old(n.namespaceUri);
        } else {
          assert n in inChildren && n !in inAttributes;
          assert old@attributesDone(n.namespaceUri) == old@renamed(n.namespaceUri);
          assert old@renamed(n.namespaceUri) == old(n.namespaceUri);
        }
      }
    }

    /** The step for one node: a candidate whose (normalised) namespace has a translation is
        renamed into the target namespace. */
    method Rename(node: DomNode)
      modifies node
      ensures node.namespaceUri ==
        Translated(translations, node.nodeType, node.nodeName, old(node.namespaceUri))
    {
      if IsCandidate(node.nodeType, node.nodeName) {
        var fromNS := LookupKey(node.namespaceUri);
        if fromNS in translations {
          node.namespaceUri := Renamed(translations[fromNS]);
        }
      }
    }

    /** The loop over an attribute list or a child list of a node of height `bound`. */
    method TranslateAll(nodes: seq<DomNode>, ghost scope: set<DomNode>, ghost bound: nat)
      requires forall i :: 0 <= i < |nodes| ==>
        nodes[i].Valid() && nodes[i].height < bound && nodes[i].repr <= scope
      requires forall i, j :: 0 <= i < j < |nodes| ==> nodes[i].repr !! nodes[j].repr
      modifies scope
      ensures forall n :: n in Covered(nodes) ==>
        n.namespaceUri == Translated(translations, n.nodeType, n.nodeName, old(n.namespaceUri))
      ensures forall n :: n in scope - Covered(nodes) ==> n.namespaceUri == old(n.namespaceUri)
      decreases bound, 0
    {
      var i := 0;
      while i < |nodes|
        invariant 0 <= i <= |nodes|
        invariant forall n :: n in Covered(nodes[..i]) ==>
          n.namespaceUri == Translated(translations, n.nodeType, n.nodeName, old(n.namespaceUri))
        invariant forall n :: n in scope - Covered(nodes[..i]) ==> n.namespaceUri == old(n.namespaceUri)
      {
        CoveredAppend(nodes, i);
        DisjointFromEarlier(nodes, i);
        label before:
        TranslateNode(nodes[i]);
        assert forall n :: n in nodes[i].repr ==> old@before(n.namespaceUri) == old(n.namespaceUri);
        i := i + 1;
      }
      assert nodes[..|nodes|] == nodes;
    }
  }

  predicate AllStripped(t: map<string, string>) {
    forall k :: k in t ==> IsStripped(k) && IsStripped(t[k])
  }

  lemma PutKeepsStripped(t: map<string, string>, k: string, v: string)
    requires AllStripped(t) && IsStripped(k) && IsStripped(v)
    ensures AllStripped(t[k := v])
  {
  }

  lemma DisjointFromEarlier(nodes: seq<DomNode>, i: nat)
    requires i < |nodes|
    requires forall a, b :: 0 <= a < b < |nodes| ==> nodes[a].repr !! nodes[b].repr
    ensures nodes[i].repr !! Covered(nodes[..i])
  {
  }
}
