/** The layout box: child models arranged by fractions of the box's own
    size, which is itself a fraction of the window. */
module Layout {
  import opened Tea

  /** Styles are opaque: only which style a node or box carries is kept. */
  datatype Style = BoxStyle | NodeStyle | CustomStyle(id: nat)

  /** A child model with the fractions of its parent box it fills. */
  datatype Node<M> = Node(model: M, sizeX: real, sizeY: real, style: Style)

  /** A box: its nodes in stacking order, its own fractions of the window,
      its last computed size in cells, and whether a resize has arrived. */
  datatype Box<M> = Box(
    nodes: seq<Node<M>>,
    sizeX: real,
    sizeY: real,
    width: int,
    height: int,
    ready: bool,
    orientation: string,
    style: Style)

  /** A node's rendered content with the rectangle it is fitted into. */
  datatype Frame = Frame(content: string, width: int, height: int)

  /** A percentage as a fraction. */
  function Fraction(percent: int): (f: real)
    ensures f * 100.0 == percent as real
    ensures 0 <= percent <= 100 ==> 0.0 <= f <= 1.0
  {
    percent as real / 100.0
  }

  /** Conversion of a real to an integer, truncating toward zero. */
  function Trunc(x: real): (n: int)
    ensures 0.0 <= x ==> 0 <= n && n as real <= x < n as real + 1.0
    ensures x < 0.0 ==> n <= 0 && n as real - 1.0 < x <= n as real
  {
    if x >= 0.0 then x.Floor else -((-x).Floor)
  }

  /** The part of `dim` cells that fraction `f` fills. */
  function Scale(dim: int, f: real): int {
    Trunc(dim as real * f)
  }

  /** A fraction in [0, 1] of a non-negative dimension stays within it. */
  lemma ScaleBounds(dim: int, f: real)
    ensures 0 <= dim && 0.0 <= f <= 1.0 ==> 0 <= Scale(dim, f) <= dim
  {
    if 0 <= dim && 0.0 <= f <= 1.0 {
      assert dim as real * (1.0 - f) >= 0.0;
    }
  }

  /** A fresh box without nodes. Its first size argument becomes the
      fraction applied to the window height and the second the fraction
      applied to the window width. */
  function NewBox<M>(orientation: string, x: int, y: int): (b: Box<M>)
    ensures b.nodes == [] && b.width == 0 && b.height == 0 && !b.ready
    ensures b.sizeY * 100.0 == x as real && b.sizeX * 100.0 == y as real
    ensures b.orientation == orientation && b.style == BoxStyle
  {
    Box([], Fraction(y), Fraction(x), 0, 0, false, orientation, BoxStyle)
  }

  /** Appends a node filling `w` percent of the box's width and `h` percent
      of its height, with the default node style. */
  function AddNode<M>(b: Box<M>, n: M, w: int, h: int): (r: Box<M>)
    ensures |r.nodes| == |b.nodes| + 1 && r.nodes[..|b.nodes|] == b.nodes
    ensures r.nodes[|b.nodes|].model == n && r.nodes[|b.nodes|].style == NodeStyle
    ensures r.nodes[|b.nodes|].sizeX * 100.0 == w as real
    ensures r.nodes[|b.nodes|].sizeY * 100.0 == h as real
    ensures r.(nodes := b.nodes) == b
  {
    b.(nodes := b.nodes + [Node(n, Fraction(w), Fraction(h), NodeStyle)])
  }

  /** Like `AddNode` with the style given, and the height percentage first. */
  function AddNodeWithStyle<M>(b: Box<M>, n: M, h: int, w: int, s: Style): (r: Box<M>)
    ensures |r.nodes| == |b.nodes| + 1 && r.nodes[..|b.nodes|] == b.nodes
    ensures r.nodes[|b.nodes|].model == n && r.nodes[|b.nodes|].style == s
    ensures r.nodes[|b.nodes|].sizeX * 100.0 == w as real
    ensures r.nodes[|b.nodes|].sizeY * 100.0 == h as real
    ensures r.(nodes := b.nodes) == b
  {
    b.(nodes := b.nodes + [Node(n, Fraction(w), Fraction(h), s)])
  }

  /** A node's own start-up command is always absent, so the box's batch
      holds one absent entry per node and no child is initialised. */
  function Init<M>(b: Box<M>): (cmds: seq<Option<Cmd>>)
    ensures |cmds| == |b.nodes|
    ensures forall i :: 0 <= i < |cmds| ==> cmds[i] == None
  {
    seq(|b.nodes|, _ => None)
  }

  /** Steps a node's model; the fractions and the style are carried over. */
  function NodeUpdate<M>(n: Node<M>, p: Panel<M>, msg: Msg): (r: (Node<M>, Option<Cmd>))
    ensures r.0.sizeX == n.sizeX && r.0.sizeY == n.sizeY && r.0.style == n.style
    ensures (r.0.model, r.1) == p.update(n.model, msg)
  {
    var (m, cmd) := p.update(n.model, msg);
    (Node(m, n.sizeX, n.sizeY, n.style), cmd)
  }

  /** The rectangle a node fills within the box's current size. */
  function NodeSize<M>(b: Box<M>, n: Node<M>): (r: (int, int))
    ensures 0 <= b.width && 0.0 <= n.sizeX <= 1.0 ==> 0 <= r.0 <= b.width
    ensures 0 <= b.height && 0.0 <= n.sizeY <= 1.0 ==> 0 <= r.1 <= b.height
  {
    ScaleBounds(b.width, n.sizeX);
    ScaleBounds(b.height, n.sizeY);
    (Scale(b.width, n.sizeX), Scale(b.height, n.sizeY))
  }

  /** The resize message a node receives from the box. */
  function NodeResize<M>(b: Box<M>, n: Node<M>): Msg {
    WindowSize(NodeSize(b, n).0, NodeSize(b, n).1)
  }

  /** The batch of a resize: each node's command, absent ones included. */
  function ResizeBatch<M>(b: Box<M>, p: Panel<M>): seq<Option<Cmd>> {
    seq(|b.nodes|, i requires 0 <= i < |b.nodes| =>
      NodeUpdate(b.nodes[i], p, NodeResize(b, b.nodes[i])).1)
  }

  /** Each node's command for a message forwarded unchanged. */
  function FanOut<M>(b: Box<M>, p: Panel<M>, msg: Msg): seq<Option<Cmd>> {
    seq(|b.nodes|, i requires 0 <= i < |b.nodes| => NodeUpdate(b.nodes[i], p, msg).1)
  }

  /** The present commands of `s`, in their order. */
  function DropNil(s: seq<Option<Cmd>>): (r: seq<Option<Cmd>>)
    ensures |r| <= |s|
    ensures forall c :: c in r <==> c in s && c.Some?
    decreases |s|
  {
    if |s| == 0 then []
    else DropNil(s[..|s| - 1]) + (if s[|s| - 1].Some? then [s[|s| - 1]] else [])
  }

  /** Dropping absent commands commutes with concatenation, so the present
      commands keep their relative order. */
  lemma {:induction false} DropNilAppend(s: seq<Option<Cmd>>, t: seq<Option<Cmd>>)
    ensures DropNil(s + t) == DropNil(s) + DropNil(t)
    decreases |t|
  {
    if |t| > 0 {
      var t' := t[..|t| - 1];
      assert (s + t)[..|s + t| - 1] == s + t';
      DropNilAppend(s, t');
    } else {
      assert s + t == s;
    }
  }

  /** Without absent entries nothing is dropped. */
  lemma {:induction false} DropNilKeepsPresent(s: seq<Option<Cmd>>)
    requires forall i :: 0 <= i < |s| ==> s[i].Some?
    ensures DropNil(s) == s
    decreases |s|
  {
    if |s| > 0 {
      DropNilKeepsPresent(s[..|s| - 1]);
      assert s[..|s| - 1] + [s[|s| - 1]] == s;
    }
  }

  /** One message through the box. A window resize recomputes the box's
      size, sends every node its rectangle and marks the box ready; any
      other message is forwarded to every node. The nodes' new states are
      discarded either way. */
  function Update<M>(b: Box<M>, p: Panel<M>, msg: Msg): (r: (Box<M>, seq<Option<Cmd>>))
    ensures r.0.nodes == b.nodes && r.0.sizeX == b.sizeX && r.0.sizeY == b.sizeY
    ensures r.0.orientation == b.orientation && r.0.style == b.style
    ensures b.ready ==> r.0.ready
    ensures msg.WindowSize? ==>
      && r.0.width == Scale(msg.width, b.sizeX)
      && r.0.height == Scale(msg.height, b.sizeY)
      && r.0.ready
      && |r.1| == |b.nodes|
      && (forall i :: 0 <= i < |b.nodes| ==>
            r.1[i] == p.update(b.nodes[i].model,
                               WindowSize(Scale(r.0.width, b.nodes[i].sizeX),
                                          Scale(r.0.height, b.nodes[i].sizeY))).1)
    ensures !msg.WindowSize? ==>
      && r.0 == b
      && r.1 == DropNil(FanOut(b, p, msg))
      && |r.1| <= |b.nodes|
      && (forall c :: c in r.1 <==> c.Some? && c in FanOut(b, p, msg))
  {
    match msg
    case WindowSize(w, h) =>
      var b' := b.(width := Scale(w, b.sizeX), height := Scale(h, b.sizeY), ready := true);
      (b', ResizeBatch(b', p))
    case _ => (b, DropNil(FanOut(b, p, msg)))
  }

  /** `resizeNodes`: the resize fan-out, computed node by node. */
  method ResizeNodes<M>(b: Box<M>, p: Panel<M>) returns (cmds: seq<Option<Cmd>>)
    ensures cmds == ResizeBatch(b, p)
  {
    cmds := [];
    var i := 0;
    while i < |b.nodes|
      invariant 0 <= i <= |b.nodes|
      invariant cmds == ResizeBatch(b, p)[..i]
    {
      var (x, y) := NodeSize(b, b.nodes[i]);
      var (_, cmd) := NodeUpdate(b.nodes[i], p, WindowSize(x, y));
      cmds := cmds + [cmd];
      i := i + 1;
    }
  }

  /** `updateNodes`: the forwarding fan-out, computed node by node. */
  method UpdateNodes<M>(b: Box<M>, p: Panel<M>, msg: Msg) returns (cmds: seq<Option<Cmd>>)
    ensures cmds == DropNil(FanOut(b, p, msg))
  {
    cmds := [];
    var i := 0;
    while i < |b.nodes|
      invariant 0 <= i <= |b.nodes|
      invariant cmds == DropNil(FanOut(b, p, msg)[..i])
    {
      var (_, cmd) := NodeUpdate(b.nodes[i], p, msg);
      assert FanOut(b, p, msg)[..i + 1][..i] == FanOut(b, p, msg)[..i];
      if cmd.Some? {
        cmds := cmds + [cmd];
      }
      i := i + 1;
    }
    assert FanOut(b, p, msg)[..i] == FanOut(b, p, msg);
  }

  /** The nodes' rendered contents with their rectangles, in node order. */
  function Frames<M>(b: Box<M>, p: Panel<M>): seq<Frame> {
    seq(|b.nodes|, i requires 0 <= i < |b.nodes| =>
      Frame(p.view(b.nodes[i].model), NodeSize(b, b.nodes[i]).0, NodeSize(b, b.nodes[i]).1))
  }

  /** Rendering: a box with nodes and a zero side renders nothing; otherwise
      the opaque `render` joins the nodes' frames under the box's style. */
  function View<M>(b: Box<M>, p: Panel<M>, render: (Box<M>, seq<Frame>) -> string): (s: string)
    ensures |b.nodes| > 0 && (b.width == 0 || b.height == 0) ==> s == ""
    ensures !(|b.nodes| > 0 && (b.width == 0 || b.height == 0)) ==> s == render(b, Frames(b, p))
  {
    if |b.nodes| > 0 && (b.width == 0 || b.height == 0) then "" else render(b, Frames(b, p))
  }

  /** The box after a sequence of messages, delivered in order. */
  function Run<M>(b: Box<M>, p: Panel<M>, msgs: seq<Msg>): Box<M>
    decreases |msgs|
  {
    if |msgs| == 0 then b else Run(Update(b, p, msgs[0]).0, p, msgs[1..])
  }

  /** No message sequence alters the node list or the box's fractions,
      and once ready a box stays ready. */
  lemma {:induction false} RunKeepsNodes<M>(b: Box<M>, p: Panel<M>, msgs: seq<Msg>)
    ensures Run(b, p, msgs).nodes == b.nodes
    ensures Run(b, p, msgs).sizeX == b.sizeX && Run(b, p, msgs).sizeY == b.sizeY
    ensures b.ready ==> Run(b, p, msgs).ready
    decreases |msgs|
  {
    if |msgs| > 0 {
      RunKeepsNodes(Update(b, p, msgs[0]).0, p, msgs[1..]);
    }
  }

  /** Delivering the same resize twice changes nothing the second time:
      same size, same per-node rectangles, same batch. */
  lemma ResizeIdempotent<M>(b: Box<M>, p: Panel<M>, w: int, h: int)
    ensures var (b1, c1) := Update(b, p, WindowSize(w, h));
            Update(b1, p, WindowSize(w, h)) == (b1, c1)
  {
  }

  /** With fractions in [0, 1] and a non-negative window, the box fits the
      window and every node's rectangle fits the box. */
  lemma ResizeBounds<M>(b: Box<M>, p: Panel<M>, w: int, h: int)
    requires 0 <= w && 0 <= h
    requires 0.0 <= b.sizeX <= 1.0 && 0.0 <= b.sizeY <= 1.0
    requires forall i :: 0 <= i < |b.nodes| ==>
      0.0 <= b.nodes[i].sizeX <= 1.0 && 0.0 <= b.nodes[i].sizeY <= 1.0
    ensures var b1 := Update(b, p, WindowSize(w, h)).0;
      && 0 <= b1.width <= w && 0 <= b1.height <= h
      && forall i :: 0 <= i < |b1.nodes| ==>
           0 <= NodeSize(b1, b1.nodes[i]).0 <= b1.width &&
           0 <= NodeSize(b1, b1.nodes[i]).1 <= b1.height
  {
    var b1 := Update(b, p, WindowSize(w, h)).0;
    ScaleBounds(w, b.sizeX);
    ScaleBounds(h, b.sizeY);
    forall i | 0 <= i < |b1.nodes|
      ensures 0 <= NodeSize(b1, b1.nodes[i]).0 <= b1.width
      ensures 0 <= NodeSize(b1, b1.nodes[i]).1 <= b1.height
    {
      ScaleBounds(b1.width, b1.nodes[i].sizeX);
      ScaleBounds(b1.height, b1.nodes[i].sizeY);
    }
  }

  /** A box that has never been resized, once it has a node, renders
      nothing. */
  lemma UnsizedBoxRendersEmpty<M>(
    orientation: string, x: int, y: int, n: M, w: int, h: int,
    p: Panel<M>, render: (Box<M>, seq<Frame>) -> string)
    ensures View(AddNode(NewBox(orientation, x, y), n, w, h), p, render) == ""
  {
  }

  /** A full-window horizontal box with two nodes each half as wide and as
      tall as the box sends each node the rectangle 50 by 50 on a 100 by 50
      window: fractions are applied as exact values, never collapsed to zero. */
  lemma TwoHalvesExample<M>(p: Panel<M>, n1: M, n2: M)
    ensures var b := AddNode(AddNode(NewBox("horizontal", 100, 100), n1, 50, 100), n2, 50, 100);
            var b1 := Update(b, p, WindowSize(100, 50)).0;
            && b1.width == 100 && b1.height == 50
            && NodeResize(b1, b1.nodes[0]) == WindowSize(50, 50)
            && NodeResize(b1, b1.nodes[1]) == WindowSize(50, 50)
  {
  }
}
