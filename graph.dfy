/**
 * The node tree as the exporter reads it and the importer grows it: nodes
 * with reflected properties and input/output sockets, and links that join an
 * output socket of one node to an input socket of another.
 */
module Graph {
  import opened Wrappers
  import opened Codec

  /** One entry of a node's reflected property list. */
  datatype Property = Property(identifier: string, readonly: bool, value: HostValue)

  /**
   * A socket; `default` is None for sockets without a `default_value`
   * (geometry, shader). `multiInput` is `is_multi_input`: an input that takes
   * several links (Join Geometry's), where any other input takes one.
   */
  datatype Socket = Socket(name: string, identifier: string, default: Option<HostValue>, multiInput: bool)

  /** `node.location`: a point of the editor's 2D view. */
  datatype Location = Location(x: real, y: real)

  /**
   * A node. `name`, `location` and `select` are kept apart from `props`,
   * which holds the node's other reflected properties.
   */
  datatype Node = Node(
    name: string,
    nodeType: string,
    select: bool,
    location: Location,
    props: seq<Property>,
    inputs: seq<Socket>,
    outputs: seq<Socket>)

  /** A link from output `fromSocket` of node `fromNode` to input `toSocket` of node `toNode` (indices). */
  datatype Link = Link(fromNode: nat, fromSocket: nat, toNode: nat, toSocket: nat)

  datatype Tree = Tree(nodes: seq<Node>, links: seq<Link>)

  predicate LinkIn(nodes: seq<Node>, l: Link) {
    && l.fromNode < |nodes| && l.fromSocket < |nodes[l.fromNode].outputs|
    && l.toNode < |nodes| && l.toSocket < |nodes[l.toNode].inputs|
  }

  predicate ValidLinks(nodes: seq<Node>, links: seq<Link>) {
    forall l :: l in links ==> LinkIn(nodes, l)
  }

  /** Every link of the tree joins sockets that exist. */
  predicate Valid(t: Tree) {
    ValidLinks(t.nodes, t.links)
  }

  /** Some link of `links` ends at input `k` of node `i`. */
  predicate LinkedInto(links: seq<Link>, i: nat, k: nat) {
    exists l :: l in links && l.toNode == i && l.toSocket == k
  }

  /** `is_linked` of input `k` of node `i`: some link of the tree ends there. */
  predicate IsLinked(t: Tree, i: nat, k: nat)
    ensures IsLinked(t, i, k) <==> exists j :: 0 <= j < |t.links| && t.links[j].toNode == i && t.links[j].toSocket == k
  {
    LinkedInto(t.links, i, k)
  }

  /** Link `l` ends at an input that takes several links. */
  predicate EndsAtMulti(nodes: seq<Node>, l: Link) {
    LinkIn(nodes, l) && nodes[l.toNode].inputs[l.toSocket].multiInput
  }

  /**
   * `links.new` of `l` removes the existing link `x`: `x` ends at the same
   * input, and that input takes one link or `x` joins the same two sockets.
   */
  predicate Replaces(nodes: seq<Node>, l: Link, x: Link) {
    x.toNode == l.toNode && x.toSocket == l.toSocket && (x == l || !EndsAtMulti(nodes, l))
  }

  /** Some link of `links` is removed by `links.new` of `l`. */
  predicate ReplacesSome(nodes: seq<Node>, l: Link, links: seq<Link>) {
    exists x :: x in links && Replaces(nodes, l, x)
  }

  /** The links that `links.new` of `l` leaves in place, in their order. */
  function Kept(nodes: seq<Node>, links: seq<Link>, l: Link): (rest: seq<Link>)
    ensures |rest| <= |links|
    ensures forall x :: x in rest <==> x in links && !Replaces(nodes, l, x)
    ensures ReplacesSome(nodes, l, links) ==> |rest| < |links|
    decreases |links|
  {
    if |links| == 0 then []
    else
      var init, last := links[..|links| - 1], links[|links| - 1];
      assert links == init + [last];
      assert ReplacesSome(nodes, l, links) && !Replaces(nodes, l, last) ==> ReplacesSome(nodes, l, init);
      if Replaces(nodes, l, last) then Kept(nodes, init, l)
      else Kept(nodes, init, l) + [last]
  }

  /**
   * `links.new` of link `l`, which verifies link limits: the links `l`
   * replaces are removed, then `l` is appended last.
   */
  function Connect(nodes: seq<Node>, links: seq<Link>, l: Link): (after: seq<Link>)
    requires LinkIn(nodes, l)
    ensures |after| > 0 && after[|after| - 1] == l
    ensures |after| <= |links| + 1
  {
    Kept(nodes, links, l) + [l]
  }

  /**
   * What `links.new` keeps and drops. It keeps every link into another input,
   * and into a multi-input every link but a copy of the new one. Into a
   * single-link input it leaves only the new link. The new link is there
   * once, last. The tree does not grow when a link was replaced.
   */
  lemma ConnectReplaces(nodes: seq<Node>, links: seq<Link>, l: Link)
    requires LinkIn(nodes, l)
    ensures var after := Connect(nodes, links, l);
      && (forall x :: x in after ==> x in links || x == l)
      && (forall x :: x in links && (x.toNode != l.toNode || x.toSocket != l.toSocket) ==> x in after)
      && (forall j :: 0 <= j < |after| - 1 ==> after[j] != l)
      && (EndsAtMulti(nodes, l) ==> forall x :: x in links && x != l ==> x in after)
      && (EndsAtMulti(nodes, l) && l !in links ==> |after| == |links| + 1)
      && (!EndsAtMulti(nodes, l) ==> forall x :: x in after && x.toNode == l.toNode && x.toSocket == l.toSocket ==> x == l)
      && ((l in links || (!EndsAtMulti(nodes, l) && LinkedInto(links, l.toNode, l.toSocket))) ==> |after| <= |links|)
  {
    var rest := Kept(nodes, links, l);
    var after := rest + [l];
    forall j | 0 <= j < |after| - 1 ensures after[j] != l {
      assert after[j] == rest[j] && rest[j] in rest;
    }
    if EndsAtMulti(nodes, l) && l !in links {
      KeptUntouched(nodes, links, l);
    }
    if l in links {
      assert Replaces(nodes, l, l);
    }
    if !EndsAtMulti(nodes, l) && LinkedInto(links, l.toNode, l.toSocket) {
      var x :| x in links && x.toNode == l.toNode && x.toSocket == l.toSocket;
      assert Replaces(nodes, l, x);
    }
  }

  /** No link would be replaced by a later one: what `links.new` keeps true of a tree. */
  predicate WithinLimits(nodes: seq<Node>, links: seq<Link>) {
    forall a, b :: 0 <= a < b < |links| ==> !Replaces(nodes, links[b], links[a])
  }

  /** The links before some point are within limits when all of them are. */
  lemma WithinLimitsPrefix(nodes: seq<Node>, links: seq<Link>, n: nat)
    requires WithinLimits(nodes, links) && n <= |links|
    ensures WithinLimits(nodes, links[..n])
  {
    var init := links[..n];
    forall a, b | 0 <= a < b < |init| ensures !Replaces(nodes, init[b], init[a]) {
      assert init[a] == links[a] && init[b] == links[b];
    }
  }

  /** Appending a link that replaces none of the links keeps them within limits. */
  lemma WithinLimitsSnoc(nodes: seq<Node>, front: seq<Link>, last: Link)
    requires WithinLimits(nodes, front)
    requires forall x :: x in front ==> !Replaces(nodes, last, x)
    ensures WithinLimits(nodes, front + [last])
  {
    var s := front + [last];
    forall a, b | 0 <= a < b < |s| ensures !Replaces(nodes, s[b], s[a]) {
      assert s[a] == front[a];
      if b < |front| {
        assert s[b] == front[b];
      } else {
        assert s[a] in front;
      }
    }
  }

  /** What one `links.new` keeps of links within limits is valid and within limits. */
  lemma {:induction false} KeptWithinLimits(nodes: seq<Node>, links: seq<Link>, l: Link)
    requires ValidLinks(nodes, links) && WithinLimits(nodes, links)
    ensures ValidLinks(nodes, Kept(nodes, links, l)) && WithinLimits(nodes, Kept(nodes, links, l))
    decreases |links|
  {
    if |links| > 0 {
      var init, last := links[..|links| - 1], links[|links| - 1];
      assert links == init + [last];
      WithinLimitsPrefix(nodes, links, |links| - 1);
      assert forall x :: x in init ==> x in links;
      KeptWithinLimits(nodes, init, l);
      var front := Kept(nodes, init, l);
      if !Replaces(nodes, l, last) {
        forall x | x in front ensures !Replaces(nodes, last, x) {
          var q :| 0 <= q < |init| && init[q] == x;
          assert links[q] == x && links[|links| - 1] == last;
        }
        WithinLimitsSnoc(nodes, front, last);
      }
    }
  }

  /** A new link keeps the links valid and within limits. */
  lemma ConnectKeepsLimits(nodes: seq<Node>, links: seq<Link>, l: Link)
    requires ValidLinks(nodes, links) && WithinLimits(nodes, links) && LinkIn(nodes, l)
    ensures ValidLinks(nodes, Connect(nodes, links, l))
    ensures WithinLimits(nodes, Connect(nodes, links, l))
  {
    KeptWithinLimits(nodes, links, l);
    WithinLimitsSnoc(nodes, Kept(nodes, links, l), l);
  }

  /** A new link makes its target input linked and changes no other input's `is_linked`. */
  lemma LinkedAfterNewLink(t: Tree, l: Link, i: nat, k: nat)
    requires LinkIn(t.nodes, l)
    ensures IsLinked(Tree(t.nodes, Connect(t.nodes, t.links, l)), l.toNode, l.toSocket)
    ensures (i, k) != (l.toNode, l.toSocket) ==>
      (IsLinked(Tree(t.nodes, Connect(t.nodes, t.links, l)), i, k) <==> IsLinked(t, i, k))
  {
    var after := Connect(t.nodes, t.links, l);
    ConnectReplaces(t.nodes, t.links, l);
    assert l in after;
    if (i, k) != (l.toNode, l.toSocket) {
      if LinkedInto(t.links, i, k) {
        var x :| x in t.links && x.toNode == i && x.toSocket == k;
        assert x in after;
      }
      if LinkedInto(after, i, k) {
        var x :| x in after && x.toNode == i && x.toSocket == k;
        assert x in t.links;
      }
    }
  }

  /** The links after `links.new` of each of `calls` in turn, starting from `links`. */
  function LinkAll(nodes: seq<Node>, links: seq<Link>, calls: seq<Link>): (after: seq<Link>)
    requires ValidLinks(nodes, calls)
    ensures |after| <= |links| + |calls|
    decreases |calls|
  {
    if |calls| == 0 then links
    else
      var init := calls[..|calls| - 1];
      assert forall x :: x in init ==> x in calls;
      Connect(nodes, LinkAll(nodes, links, init), calls[|calls| - 1])
  }

  /** The valid links of a tree stay valid, and within limits, whatever is linked. */
  lemma {:induction false} LinkAllKeepsLimits(nodes: seq<Node>, links: seq<Link>, calls: seq<Link>)
    requires ValidLinks(nodes, calls) && ValidLinks(nodes, links) && WithinLimits(nodes, links)
    ensures ValidLinks(nodes, LinkAll(nodes, links, calls)) && WithinLimits(nodes, LinkAll(nodes, links, calls))
    decreases |calls|
  {
    if |calls| > 0 {
      var init := calls[..|calls| - 1];
      assert forall x :: x in init ==> x in calls;
      LinkAllKeepsLimits(nodes, links, init);
      ConnectKeepsLimits(nodes, LinkAll(nodes, links, init), calls[|calls| - 1]);
    }
  }

  /** Links that `l` replaces none of are all kept. */
  lemma {:induction false} KeptUntouched(nodes: seq<Node>, links: seq<Link>, l: Link)
    requires !ReplacesSome(nodes, l, links)
    ensures Kept(nodes, links, l) == links
    decreases |links|
  {
    if |links| > 0 {
      var init := links[..|links| - 1];
      assert links == init + [links[|links| - 1]];
      assert !ReplacesSome(nodes, l, init) by {
        assert forall x :: x in init ==> x in links;
      }
      KeptUntouched(nodes, init, l);
    }
  }

  lemma {:induction false} KeptAppend(nodes: seq<Node>, a: seq<Link>, b: seq<Link>, l: Link)
    ensures Kept(nodes, a + b, l) == Kept(nodes, a, l) + Kept(nodes, b, l)
    decreases |b|
  {
    if |b| == 0 {
      assert a + b == a;
    } else {
      var init, last := b[..|b| - 1], b[|b| - 1];
      assert (a + b)[..|a + b| - 1] == a + init;
      assert (a + b)[|a + b| - 1] == last;
      KeptAppend(nodes, a, init, l);
    }
  }

  /** A link into an input no earlier link ends at is simply appended. */
  lemma ConnectUntouched(nodes: seq<Node>, links: seq<Link>, l: Link)
    requires LinkIn(nodes, l) && !LinkedInto(links, l.toNode, l.toSocket)
    ensures Connect(nodes, links, l) == links + [l]
  {
    KeptUntouched(nodes, links, l);
  }

  /** Links in front that do not end where `l` does are left where they are. */
  lemma ConnectAfter(nodes: seq<Node>, pre: seq<Link>, rest: seq<Link>, l: Link)
    requires LinkIn(nodes, l) && !LinkedInto(pre, l.toNode, l.toSocket)
    ensures Connect(nodes, pre + rest, l) == pre + Connect(nodes, rest, l)
  {
    KeptAppend(nodes, pre, rest, l);
    KeptUntouched(nodes, pre, l);
  }

  /**
   * Links into inputs that no new link ends at are kept, in front: linking
   * onto a tree equals linking onto nothing, after the tree's own links.
   */
  lemma {:induction false} LinkAllAfter(nodes: seq<Node>, pre: seq<Link>, calls: seq<Link>)
    requires ValidLinks(nodes, calls)
    requires forall x, c :: x in pre && c in calls ==> x.toNode != c.toNode
    ensures LinkAll(nodes, pre, calls) == pre + LinkAll(nodes, [], calls)
    decreases |calls|
  {
    if |calls| > 0 {
      var init, c := calls[..|calls| - 1], calls[|calls| - 1];
      assert forall x :: x in init ==> x in calls;
      LinkAllAfter(nodes, pre, init);
      assert !LinkedInto(pre, c.toNode, c.toSocket);
      ConnectAfter(nodes, pre, LinkAll(nodes, [], init), c);
    }
  }

  /**
   * When no new link replaces an earlier one, every link is kept: linking
   * them onto nothing gives them back, in order.
   */
  lemma {:induction false} LinkAllKeepsAll(nodes: seq<Node>, calls: seq<Link>)
    requires ValidLinks(nodes, calls) && WithinLimits(nodes, calls)
    ensures LinkAll(nodes, [], calls) == calls
    decreases |calls|
  {
    if |calls| > 0 {
      var init, c := calls[..|calls| - 1], calls[|calls| - 1];
      KeepsAllStep(nodes, calls);
      LinkAllKeepsAll(nodes, init);
    }
  }

  /** The last of links within limits, linked after the others, leaves them all in place. */
  lemma KeepsAllStep(nodes: seq<Node>, calls: seq<Link>)
    requires ValidLinks(nodes, calls) && WithinLimits(nodes, calls) && |calls| > 0
    ensures ValidLinks(nodes, calls[..|calls| - 1]) && WithinLimits(nodes, calls[..|calls| - 1])
    ensures Connect(nodes, calls[..|calls| - 1], calls[|calls| - 1]) == calls
  {
    var init, c := calls[..|calls| - 1], calls[|calls| - 1];
    assert forall x :: x in init ==> x in calls;
    WithinLimitsPrefix(nodes, calls, |calls| - 1);
    forall x | x in init ensures !Replaces(nodes, c, x) {
      var a :| 0 <= a < |init| && init[a] == x;
      assert calls[a] == x;
    }
    KeptUntouched(nodes, init, c);
    assert calls == init + [c];
  }

  /**
   * An input some call linked is still linked after all the calls; a link
   * made into a multi-input is still there.
   */
  lemma {:induction false} LinkAllLinked(nodes: seq<Node>, links: seq<Link>, calls: seq<Link>, a: nat)
    requires ValidLinks(nodes, calls) && a < |calls|
    ensures LinkedInto(LinkAll(nodes, links, calls), calls[a].toNode, calls[a].toSocket)
    ensures EndsAtMulti(nodes, calls[a]) ==> calls[a] in LinkAll(nodes, links, calls)
    decreases |calls|
  {
    var init, c := calls[..|calls| - 1], calls[|calls| - 1];
    assert forall x :: x in init ==> x in calls;
    var before := LinkAll(nodes, links, init);
    var after := LinkAll(nodes, links, calls);
    assert after == Connect(nodes, before, c);
    assert after[|after| - 1] == c && c in after;
    if a < |calls| - 1 {
      assert init[a] == calls[a];
      LinkAllLinked(nodes, links, init, a);
      ConnectReplaces(nodes, before, c);
      if c.toNode != calls[a].toNode || c.toSocket != calls[a].toSocket {
        var x :| x in before && x.toNode == calls[a].toNode && x.toSocket == calls[a].toSocket;
        assert x in after;
        if EndsAtMulti(nodes, calls[a]) {
          assert calls[a] in after;
        }
      } else if EndsAtMulti(nodes, calls[a]) && c != calls[a] {
        assert EndsAtMulti(nodes, c);
        assert calls[a] in after;
      }
    }
  }

  /**
   * A new link that replaces an earlier one (into the same single-link
   * input, or between the same two sockets): the tree gains fewer links than
   * were made.
   */
  lemma {:induction false} LinkAllLoses(nodes: seq<Node>, links: seq<Link>, calls: seq<Link>, a: nat, b: nat)
    requires ValidLinks(nodes, calls) && a < b < |calls|
    requires Replaces(nodes, calls[b], calls[a])
    ensures |LinkAll(nodes, links, calls)| < |links| + |calls|
    decreases |calls|
  {
    var init := calls[..|calls| - 1];
    assert forall x :: x in init ==> x in calls;
    assert init[a] == calls[a];
    if b == |calls| - 1 {
      LinkAllLinked(nodes, links, init, a);
      ConnectReplaces(nodes, LinkAll(nodes, links, init), calls[b]);
      if EndsAtMulti(nodes, calls[b]) {
        assert calls[a] == calls[b];
      }
    } else {
      assert init[b] == calls[b];
      LinkAllLoses(nodes, links, init, a, b);
    }
  }

  /**
   * Two Math-node inputs both called "Value", linked from two nodes with the
   * same single-link target: only the second link remains.
   */
  lemma MathValueInputsLoseALink()
    ensures
      var value := Socket("Value", "Value", None, false);
      var source := Node("Value", "ShaderNodeValue", true, Location(0.0, 0.0), [], [], [value]);
      var math := Node("Math", "ShaderNodeMath", true, Location(200.0, 0.0), [], [value, value.(identifier := "Value_001")], [value]);
      var nodes := [source, source.(name := "Value.001"), math];
      LinkAll(nodes, [], [Link(0, 0, 2, 0), Link(1, 0, 2, 0)]) == [Link(1, 0, 2, 0)]
  {
    var value := Socket("Value", "Value", None, false);
    var source := Node("Value", "ShaderNodeValue", true, Location(0.0, 0.0), [], [], [value]);
    var math := Node("Math", "ShaderNodeMath", true, Location(200.0, 0.0), [], [value, value.(identifier := "Value_001")], [value]);
    var nodes := [source, source.(name := "Value.001"), math];
    var calls := [Link(0, 0, 2, 0), Link(1, 0, 2, 0)];
    assert !EndsAtMulti(nodes, calls[0]) && !EndsAtMulti(nodes, calls[1]);
    assert calls[..1][..0] == [] && calls[..1][0] == calls[0] && calls[..1] == [calls[0]];
    assert Kept(nodes, [], calls[0]) == [];
    assert LinkAll(nodes, [], calls[..1]) == Connect(nodes, [], calls[0]) == [calls[0]];
    assert [calls[0]][..0] == [];
    assert Replaces(nodes, calls[1], calls[0]);
    assert Kept(nodes, [calls[0]], calls[1]) == [];
    assert LinkAll(nodes, [], calls) == Connect(nodes, [calls[0]], calls[1]) == [calls[1]];
  }

  /**
   * Two outputs of one node, both called "Geometry", linked into Join
   * Geometry's multi-input: looked up by name, both links start at the first
   * output, and the second `links.new` replaces the first.
   */
  lemma JoinGeometryKeepsOneLink()
    ensures
      var geometry := Socket("Geometry", "Geometry", None, false);
      var source := Node("Group", "GeometryNodeGroup", true, Location(0.0, 0.0), [], [], [geometry, geometry.(identifier := "Geometry_001")]);
      var join := Node("Join Geometry", "GeometryNodeJoinGeometry", true, Location(200.0, 0.0), [], [geometry.(multiInput := true)], [geometry]);
      LinkAll([source, join], [], [Link(0, 0, 1, 0), Link(0, 0, 1, 0)]) == [Link(0, 0, 1, 0)]
  {
    var geometry := Socket("Geometry", "Geometry", None, false);
    var source := Node("Group", "GeometryNodeGroup", true, Location(0.0, 0.0), [], [], [geometry, geometry.(identifier := "Geometry_001")]);
    var join := Node("Join Geometry", "GeometryNodeJoinGeometry", true, Location(200.0, 0.0), [], [geometry.(multiInput := true)], [geometry]);
    var nodes := [source, join];
    var l := Link(0, 0, 1, 0);
    var calls := [l, l];
    assert EndsAtMulti(nodes, l);
    assert calls[..1][..0] == [] && calls[..1][0] == l && calls[..1] == [l];
    assert Kept(nodes, [], l) == [];
    assert LinkAll(nodes, [], calls[..1]) == Connect(nodes, [], l) == [l];
    assert [l][..0] == [];
    assert Replaces(nodes, l, l);
    assert Kept(nodes, [l], l) == [];
    assert LinkAll(nodes, [], calls) == Connect(nodes, [l], l) == [l];
  }

  function SocketNames(sockets: seq<Socket>): (names: seq<string>)
    ensures |names| == |sockets|
    ensures forall k :: 0 <= k < |sockets| ==> names[k] == sockets[k].name
  {
    seq(|sockets|, k requires 0 <= k < |sockets| => sockets[k].name)
  }

  /** Which sockets take several links, in order. */
  function MultiInputs(sockets: seq<Socket>): (multi: seq<bool>)
    ensures |multi| == |sockets|
    ensures forall k :: 0 <= k < |sockets| ==> multi[k] == sockets[k].multiInput
  {
    seq(|sockets|, k requires 0 <= k < |sockets| => sockets[k].multiInput)
  }

  /** The index of the first socket called `name`, as `next(...)` over a socket list and `inputs.get` find it. */
  function FirstNamed(sockets: seq<Socket>, name: string): (r: Option<nat>)
    ensures r.Some? ==> r.value < |sockets| && sockets[r.value].name == name
    ensures r.Some? ==> forall k :: 0 <= k < r.value ==> sockets[k].name != name
    ensures r.None? <==> forall k :: 0 <= k < |sockets| ==> sockets[k].name != name
  {
    if |sockets| == 0 then None
    else if sockets[0].name == name then Some(0)
    else match FirstNamed(sockets[1..], name)
      case None => None
      case Some(k) => Some(k + 1)
  }

  /** Sockets with the same names are searched alike. */
  lemma FirstNamedByNames(a: seq<Socket>, b: seq<Socket>, name: string)
    requires SocketNames(a) == SocketNames(b)
    ensures FirstNamed(a, name) == FirstNamed(b, name)
  {
    assert |a| == |b|;
    assert forall k :: 0 <= k < |a| ==> a[k].name == b[k].name by {
      forall k | 0 <= k < |a| ensures a[k].name == b[k].name {
        assert SocketNames(a)[k] == SocketNames(b)[k];
      }
    }
    match FirstNamed(a, name)
    case None =>
    case Some(k) =>
      FirstNamedUnique(b, name, k);
  }

  /** The search loop over a socket list: the first socket whose name matches. */
  method FindSocket(sockets: seq<Socket>, name: string) returns (r: Option<nat>)
    ensures r.Some? ==> r.value < |sockets| && sockets[r.value].name == name
    ensures r.Some? ==> forall k :: 0 <= k < r.value ==> sockets[k].name != name
    ensures r.None? ==> forall k :: 0 <= k < |sockets| ==> sockets[k].name != name
    ensures r == FirstNamed(sockets, name)
  {
    var k := 0;
    while k < |sockets|
      invariant 0 <= k <= |sockets|
      invariant forall j :: 0 <= j < k ==> sockets[j].name != name
    {
      if sockets[k].name == name {
        r := Some(k);
        FirstNamedUnique(sockets, name, k);
        return;
      }
      k := k + 1;
    }
    r := None;
  }

  /** The first match is the only index that matches with no match before it. */
  lemma FirstNamedUnique(sockets: seq<Socket>, name: string, k: nat)
    requires k < |sockets| && sockets[k].name == name
    requires forall j :: 0 <= j < k ==> sockets[j].name != name
    ensures FirstNamed(sockets, name) == Some(k)
  {
    var r := FirstNamed(sockets, name);
    assert r.Some?;
    assert !(r.value < k);
    assert !(k < r.value);
  }
}
