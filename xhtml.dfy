/**
 * Image-reference extraction (extractImagesFromXHTML, main.go:515-541). The
 * page's markup is parsed by a tolerant HTML parser into a node tree; the
 * tree is walked in pre-order and every element named "img" that has a
 * "src" attribute contributes its first src, resolved against the page's
 * own directory.
 */
module Xhtml {
  import opened Wrappers
  import opened Bytes
  import opened FilePath

  /** The kinds of node the HTML parser produces. */
  datatype NodeType = ErrorNode | TextNode | DocumentNode | ElementNode | CommentNode | DoctypeNode | RawNode

  datatype Attribute = Attribute(namespace: string, key: string, val: string)

  /** A parsed node: for an element, data is its tag name; children are in document order. */
  datatype Node = Node(nodeType: NodeType, data: string, attr: seq<Attribute>, children: seq<Node>)

  predicate IsImg(n: Node)
  {
    n.nodeType == ElementNode && n.data == "img"
  }

  /** The value of the first attribute whose key is "src". */
  function FirstSrc(attrs: seq<Attribute>): Option<string>
  {
    if attrs == [] then None
    else if attrs[0].key == "src" then Some(attrs[0].val)
    else FirstSrc(attrs[1..])
  }

  /** FirstSrc finds the first "src" attribute, and finds nothing only when there is none. */
  lemma {:induction false} FirstSrcIsFirst(attrs: seq<Attribute>)
    ensures FirstSrc(attrs).Some? ==> exists k | 0 <= k < |attrs| ::
              && attrs[k].key == "src" && attrs[k].val == FirstSrc(attrs).value
              && forall j | 0 <= j < k :: attrs[j].key != "src"
    ensures FirstSrc(attrs).None? ==> forall k | 0 <= k < |attrs| :: attrs[k].key != "src"
  {
    if attrs != [] && attrs[0].key != "src" {
      FirstSrcIsFirst(attrs[1..]);
      if FirstSrc(attrs).Some? {
        var k :| 0 <= k < |attrs[1..]| && attrs[1..][k].key == "src" && attrs[1..][k].val == FirstSrc(attrs).value
                 && forall j | 0 <= j < k :: attrs[1..][j].key != "src";
        assert attrs[k + 1].key == "src" && attrs[k + 1].val == FirstSrc(attrs).value;
        assert forall j | 0 <= j < k + 1 :: attrs[j].key != "src" by {
          forall j | 0 <= j < k + 1 ensures attrs[j].key != "src" {
            if j > 0 { assert attrs[j] == attrs[1..][j - 1]; }
          }
        }
      } else {
        assert forall k | 0 <= k < |attrs| :: attrs[k].key != "src" by {
          forall k | 0 <= k < |attrs| ensures attrs[k].key != "src" {
            if k > 0 { assert attrs[k] == attrs[1..][k - 1]; }
          }
        }
      }
    }
  }

  /** What one node contributes by itself: nothing, or its resolved src. */
  function OwnImage(n: Node, pageHref: string): seq<string>
  {
    if IsImg(n) then
      match FirstSrc(n.attr)
      case None => []
      case Some(src) => [Resolve(pageHref, src)]
    else []
  }

  /** The images of the subtree at n, in the order the walk appends them. */
  function Images(n: Node, pageHref: string): seq<string>
    decreases n, |n.children| + 1
  {
    OwnImage(n, pageHref) + ChildImages(n, 0, pageHref)
  }

  /** The images of n's children from the i-th one on. */
  function ChildImages(n: Node, i: nat, pageHref: string): seq<string>
    requires i <= |n.children|
    decreases n, |n.children| - i
  {
    if i == |n.children| then []
    else Images(n.children[i], pageHref) + ChildImages(n, i + 1, pageHref)
  }

  /**
   * The attribute loop of the closure f: for an img element, the first
   * "src" attribute is resolved and appended, and the loop stops there.
   */
  method AppendOwnImage(n: Node, pageHref: string, srcs: seq<string>) returns (out: seq<string>)
    ensures out == srcs + OwnImage(n, pageHref)
  {
    out := srcs;
    if n.nodeType == ElementNode && n.data == "img" {
      var k := 0;
      while k < |n.attr|
        invariant 0 <= k <= |n.attr|
        invariant FirstSrc(n.attr[k..]) == FirstSrc(n.attr)
        invariant out == srcs
      {
        if n.attr[k].key == "src" {
          var imgPath := Resolve(pageHref, n.attr[k].val);
          out := out + [imgPath];
          break;
        }
        assert n.attr[k..][1..] == n.attr[k + 1..];
        k := k + 1;
      }
    }
  }

  /**
   * The recursive closure f of extractImagesFromXHTML, which appends to the
   * captured srcs as it goes: first the node's own image, then each child's
   * subtree in order.
   */
  method Walk(n: Node, pageHref: string, srcs: seq<string>) returns (out: seq<string>)
    ensures out == srcs + Images(n, pageHref)
    decreases n
  {
    out := AppendOwnImage(n, pageHref, srcs);
    ImagesSplit(n, pageHref, srcs);
    var i := 0;
    while i < |n.children|
      invariant 0 <= i <= |n.children|
      invariant out + ChildImages(n, i, pageHref) == srcs + Images(n, pageHref)
    {
      ChildImagesSplit(n, i, pageHref, out);
      out := Walk(n.children[i], pageHref, out);
      i := i + 1;
    }
  }

  /** Appending a node's images is appending its own image, then its children's. */
  lemma ImagesSplit(n: Node, pageHref: string, before: seq<string>)
    ensures before + Images(n, pageHref) == (before + OwnImage(n, pageHref)) + ChildImages(n, 0, pageHref)
  {
  }

  /** Appending the images of the children from the i-th on is appending the i-th child's, then the rest. */
  lemma ChildImagesSplit(n: Node, i: nat, pageHref: string, before: seq<string>)
    requires i < |n.children|
    ensures before + ChildImages(n, i, pageHref)
            == (before + Images(n.children[i], pageHref)) + ChildImages(n, i + 1, pageHref)
  {
  }

  /** The images of a page document; a document the parser rejects has none. */
  function DocumentImages(content: seq<byte>, pageHref: string, parse: seq<byte> -> Option<Node>): seq<string>
  {
    match parse(content)
    case None => []
    case Some(doc) => Images(doc, pageHref)
  }

  /** extractImagesFromXHTML: appends the page's images to srcs. */
  method ExtractImagesFromXhtml(content: seq<byte>, pageHref: string, srcs: seq<string>,
                                parse: seq<byte> -> Option<Node>) returns (out: seq<string>)
    ensures out == srcs + DocumentImages(content, pageHref, parse)
  {
    var doc := parse(content);
    if doc.None? {
      return srcs;
    }
    out := Walk(doc.value, pageHref, srcs);
  }

  /** The nodes of the subtree at n in pre-order, the reference order of the walk. */
  function PreOrder(n: Node): seq<Node>
    decreases n, |n.children| + 1
  {
    [n] + PreOrderFrom(n, 0)
  }

  function PreOrderFrom(n: Node, i: nat): seq<Node>
    requires i <= |n.children|
    decreases n, |n.children| - i
  {
    if i == |n.children| then [] else PreOrder(n.children[i]) + PreOrderFrom(n, i + 1)
  }

  /** Every node's own contribution, node after node. */
  function Contributions(nodes: seq<Node>, pageHref: string): seq<string>
  {
    if nodes == [] then [] else OwnImage(nodes[0], pageHref) + Contributions(nodes[1..], pageHref)
  }

  lemma {:induction false} ContributionsAppend(a: seq<Node>, b: seq<Node>, pageHref: string)
    ensures Contributions(a + b, pageHref) == Contributions(a, pageHref) + Contributions(b, pageHref)
  {
    if a == [] {
      assert a + b == b;
    } else {
      assert (a + b)[0] == a[0];
      assert (a + b)[1..] == a[1..] + b;
      ContributionsAppend(a[1..], b, pageHref);
    }
  }

  /**
   * The walk's output is the contribution of every node of the tree taken in
   * pre-order: one resolved src per img element with a src attribute, in
   * document order.
   */
  lemma {:induction false} ImagesInPreOrder(n: Node, pageHref: string)
    ensures Images(n, pageHref) == Contributions(PreOrder(n), pageHref)
    decreases n, |n.children| + 1
  {
    ChildImagesInPreOrder(n, 0, pageHref);
    ContributionsAppend([n], PreOrderFrom(n, 0), pageHref);
    assert Contributions([n], pageHref) == OwnImage(n, pageHref);
  }

  lemma {:induction false} ChildImagesInPreOrder(n: Node, i: nat, pageHref: string)
    requires i <= |n.children|
    ensures ChildImages(n, i, pageHref) == Contributions(PreOrderFrom(n, i), pageHref)
    decreases n, |n.children| - i
  {
    if i < |n.children| {
      ImagesInPreOrder(n.children[i], pageHref);
      ChildImagesInPreOrder(n, i + 1, pageHref);
      ContributionsAppend(PreOrder(n.children[i]), PreOrderFrom(n, i + 1), pageHref);
    }
  }

  /** No extracted path starts with '/'. */
  lemma {:induction false} ContributionsNoLeadingSlash(nodes: seq<Node>, pageHref: string)
    ensures forall k | 0 <= k < |Contributions(nodes, pageHref)| ::
              Contributions(nodes, pageHref)[k] == "" || Contributions(nodes, pageHref)[k][0] != '/'
  {
    if nodes != [] {
      ContributionsNoLeadingSlash(nodes[1..], pageHref);
    }
  }

  lemma ImagesNoLeadingSlash(n: Node, pageHref: string)
    ensures forall k | 0 <= k < |Images(n, pageHref)| :: Images(n, pageHref)[k] == "" || Images(n, pageHref)[k][0] != '/'
  {
    ImagesInPreOrder(n, pageHref);
    ContributionsNoLeadingSlash(PreOrder(n), pageHref);
  }

  /** A page whose tree has k img elements each with a src yields k paths, one per element. */
  lemma {:induction false} ContributionsCount(nodes: seq<Node>, pageHref: string)
    ensures |Contributions(nodes, pageHref)| == |ImgsWithSrc(nodes)|
  {
    if nodes != [] {
      ContributionsCount(nodes[1..], pageHref);
    }
  }

  /** The img elements with a src attribute among nodes, in order. */
  function ImgsWithSrc(nodes: seq<Node>): seq<Node>
  {
    if nodes == [] then []
    else (if IsImg(nodes[0]) && FirstSrc(nodes[0].attr).Some? then [nodes[0]] else []) + ImgsWithSrc(nodes[1..])
  }
}
