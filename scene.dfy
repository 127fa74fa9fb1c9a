/** The scene manager of the Bubble app: it latches the camera's facing
    direction from the first available frame, and on every transcript update
    replaces its text node in the scene with a new one showing the text broken
    into lines of 20 characters. */
module Scene {
  import opened TextLayout

  datatype Option<T> = None | Some(value: T)

  /** A SceneKit vector; Float components are modelled as reals. */
  datatype Vector3 = Vector3(x: real, y: real, z: real)

  /** One row of a 4x4 transform: row3 holds m31..m34, row4 m41..m44. */
  datatype Row4 = Row4(c1: real, c2: real, c3: real, c4: real)

  /** A camera transform in world space. */
  datatype Matrix4 = Matrix4(row1: Row4, row2: Row4, row3: Row4, row4: Row4)

  /** The (direction, position) pair that getUserVector returns. */
  datatype UserVector = UserVector(direction: Vector3, position: Vector3)

  /** A node of the scene graph: the text nodes this manager creates (the
      serial number stands for the identity of a fresh SCNNode), or any other
      node someone else attached to the root. */
  datatype Node = TextNode(serial: nat, text: string, position: Vector3) | OtherNode(id: nat)

  /** Width of a line of bubble text. */
  const LineWidth: nat := 20

  /** Distance in front of the camera at which the text is placed. */
  const TextDistance: real := 2.0

  /** Direction and position assumed when the session has no camera frame. */
  const FallbackDirection: Vector3 := Vector3(0.0, 0.0, -1.0)
  const FallbackPosition: Vector3 := Vector3(0.0, 0.0, -0.2)

  /** The camera's facing direction: the third row of its transform, negated. */
  function Forward(m: Matrix4): Vector3
  {
    Vector3(-1.0 * m.row3.c1, -1.0 * m.row3.c2, -1.0 * m.row3.c3)
  }

  /** The camera's location: the translation row of its transform. */
  function Location(m: Matrix4): Vector3
  {
    Vector3(m.row4.c1, m.row4.c2, m.row4.c3)
  }

  /** Camera direction and position from the current frame, or the fixed
      fallback (looking down -z, slightly in front of the origin) without one. */
  function GetUserVector(frame: Option<Matrix4>): (u: UserVector)
    ensures frame.Some? ==>
              u.direction.x + frame.value.row3.c1 == 0.0 &&
              u.direction.y + frame.value.row3.c2 == 0.0 &&
              u.direction.z + frame.value.row3.c3 == 0.0 &&
              u.position == Location(frame.value)
    ensures frame.None? ==> u.direction == FallbackDirection && u.position == FallbackPosition
  {
    match frame
    case Some(m) => UserVector(Forward(m), Location(m))
    case None => UserVector(FallbackDirection, FallbackPosition)
  }

  /** One call of setOriginalOrientation on the latch value o. */
  function LatchStep(o: Option<Vector3>, frame: Option<Matrix4>): (r: Option<Vector3>)
    ensures o.Some? ==> r == o
    ensures frame.None? ==> r == o
    ensures o.None? && frame.Some? ==> r == Some(GetUserVector(frame).direction)
  {
    if o.None? && frame.Some? then Some(Forward(frame.value)) else o
  }

  /** The latch value after one call per frame in frames, in order. */
  function Latched(o: Option<Vector3>, frames: seq<Option<Matrix4>>): Option<Vector3>
    decreases |frames|
  {
    if frames == [] then o else Latched(LatchStep(o, frames[0]), frames[1..])
  }

  /** The first frame that was available, if any. */
  function FirstFrame(frames: seq<Option<Matrix4>>): Option<Matrix4>
    decreases |frames|
  {
    if frames == [] then None
    else if frames[0].Some? then frames[0]
    else FirstFrame(frames[1..])
  }

  /** Once set, the baseline survives any further frames. */
  lemma {:induction false} LatchedKeepsBaseline(v: Vector3, frames: seq<Option<Matrix4>>)
    ensures Latched(Some(v), frames) == Some(v)
    decreases |frames|
  {
    if frames != [] {
      LatchedKeepsBaseline(v, frames[1..]);
    }
  }

  /** Starting unset, the baseline is the facing direction of the first
      available frame, and stays unset while no frame has been available. */
  lemma {:induction false} LatchedIsFirstFrame(frames: seq<Option<Matrix4>>)
    ensures FirstFrame(frames).None? ==> Latched(None, frames) == None
    ensures FirstFrame(frames).Some? ==>
              Latched(None, frames) == Some(GetUserVector(FirstFrame(frames)).direction)
    decreases |frames|
  {
    if frames != [] {
      if frames[0].Some? {
        LatchedKeepsBaseline(Forward(frames[0].value), frames[1..]);
      } else {
        LatchedIsFirstFrame(frames[1..]);
      }
    }
  }

  /** Frames that arrive after the first available one do not matter. */
  lemma {:induction false} LatchedIgnoresLaterFrames(a: seq<Option<Matrix4>>, b: seq<Option<Matrix4>>)
    requires FirstFrame(a).Some?
    ensures Latched(None, a + b) == Latched(None, a)
    decreases |a|
  {
    assert a != [];
    assert (a + b)[0] == a[0];
    assert (a + b)[1..] == a[1..] + b;
    if a[0].Some? {
      LatchedKeepsBaseline(Forward(a[0].value), a[1..] + b);
      LatchedKeepsBaseline(Forward(a[0].value), a[1..]);
    } else {
      LatchedIgnoresLaterFrames(a[1..], b);
    }
  }

  /** The text nodes among some children, in order. */
  function TextNodes(s: seq<Node>): (r: seq<Node>)
    ensures forall x :: x in r <==> x in s && x.TextNode?
    ensures |r| <= |s|
    decreases |s|
  {
    if s == [] then []
    else (if s[0].TextNode? then [s[0]] else []) + TextNodes(s[1..])
  }

  /** The children with every occurrence of x taken out. */
  function Without(s: seq<Node>, x: Node): (r: seq<Node>)
    ensures forall y :: y in r <==> y in s && y != x
    ensures |r| <= |s|
    ensures x in s ==> |r| < |s|
    decreases |s|
  {
    if s == [] then []
    else (if s[0] == x then [] else [s[0]]) + Without(s[1..], x)
  }

  lemma {:induction false} TextNodesAppend(a: seq<Node>, b: seq<Node>)
    ensures TextNodes(a + b) == TextNodes(a) + TextNodes(b)
    decreases |a|
  {
    if a == [] {
      assert a + b == b;
    } else {
      TextNodesAppend(a[1..], b);
      assert (a + b)[0] == a[0];
      assert (a + b)[1..] == a[1..] + b;
    }
  }

  lemma {:induction false} WithoutAppend(a: seq<Node>, b: seq<Node>, x: Node)
    ensures Without(a + b, x) == Without(a, x) + Without(b, x)
    decreases |a|
  {
    if a == [] {
      assert a + b == b;
    } else {
      WithoutAppend(a[1..], b, x);
      assert (a + b)[0] == a[0];
      assert (a + b)[1..] == a[1..] + b;
    }
  }

  lemma {:induction false} TextNodesWithout(s: seq<Node>, x: Node)
    ensures TextNodes(Without(s, x)) == Without(TextNodes(s), x)
    decreases |s|
  {
    if s != [] {
      var kept := if s[0] == x then [] else [s[0]];
      var text := if s[0].TextNode? then [s[0]] else [];
      TextNodesWithout(s[1..], x);
      TextNodesAppend(kept, Without(s[1..], x));
      WithoutAppend(text, TextNodes(s[1..]), x);
      assert TextNodes(kept) == Without(text, x);
    }
  }

  /** Detaching the old text node and attaching a new one leaves the new one
      as the only text node among the children, and the other nodes as they were. */
  lemma ReplaceTextNode(s: seq<Node>, prev: Node, next: Node)
    requires TextNodes(s) == [prev] || TextNodes(s) == []
    requires prev.TextNode? && next.TextNode?
    ensures TextNodes(Without(s, prev) + [next]) == [next]
    ensures forall y :: y in Without(s, prev) + [next] && !y.TextNode? <==> y in s && !y.TextNode?
  {
    TextNodesAppend(Without(s, prev), [next]);
    TextNodesWithout(s, prev);
    assert TextNodes([next]) == [next];
    assert Without([prev], prev) == [];
    assert Without([], prev) == [];
  }

  /** The root node of an AR scene view's scene. */
  class SceneRoot {
    var children: seq<Node>

    constructor (children: seq<Node>)
      ensures this.children == children
    {
      this.children := children;
    }
  }

  class SceneManager {
    /** The baseline facing direction, latched from the first frame. */
    var originalOrientation: Option<Vector3>
    /** The text node this manager created last. */
    var textNode: Node
    /** The parent textNode is attached to, null while it is detached. */
    var textParent: SceneRoot?
    /** Serial number of the next node this manager creates. */
    var nextSerial: nat

    ghost predicate Valid()
      reads this
    {
      textNode.TextNode? && textNode.serial < nextSerial
    }

    /** Of this manager's text nodes, root holds exactly the current one when
        it is root's child, and none otherwise. */
    ghost predicate OnlyCurrentTextAttached(root: SceneRoot)
      reads this, root
    {
      TextNodes(root.children) == if textParent == root then [textNode] else []
    }

    constructor ()
      ensures Valid()
      ensures originalOrientation == None && textParent == null
      ensures textNode == TextNode(0, "", Vector3(0.0, 0.0, 0.0)) && nextSerial == 1
    {
      originalOrientation := None;
      textNode := TextNode(0, "", Vector3(0.0, 0.0, 0.0));
      textParent := null;
      nextSerial := 1;
    }

    /** Latches the camera's facing direction the first time a frame is available. */
    method SetOriginalOrientation(frame: Option<Matrix4>)
      modifies this`originalOrientation
      ensures originalOrientation == LatchStep(old(originalOrientation), frame)
    {
      if frame.Some? {
        if originalOrientation.None? {
          var mat := frame.value;
          originalOrientation := Some(Vector3(-1.0 * mat.row3.c1, -1.0 * mat.row3.c2, -1.0 * mat.row3.c3));
        }
      }
    }

    /** Shows text: detaches the previous text node from its parent, then
        attaches a new node holding the text broken into lines of LineWidth
        characters, TextDistance ahead of the camera on the ground plane. */
    method UpdateText(text: string, frame: Option<Matrix4>, root: SceneRoot)
      requires Valid()
      modifies this, root, textParent
      ensures Valid()
      ensures textNode.TextNode? && textNode.serial == old(nextSerial) && nextSerial == old(nextSerial) + 1
      ensures textNode.text == Wrapped(text, LineWidth)
      ensures textNode.position ==
                Vector3(GetUserVector(frame).direction.x * TextDistance, 0.0,
                        GetUserVector(frame).direction.z * TextDistance)
      ensures textParent == root
      ensures originalOrientation == old(originalOrientation)
      ensures root.children ==
                (if old(textParent) == root then Without(old(root.children), old(textNode))
                 else old(root.children)) + [textNode]
      ensures old(textParent) != null && old(textParent) != root ==>
                old(textParent).children == Without(old(textParent.children), old(textNode))
      ensures old(OnlyCurrentTextAttached(root)) ==> OnlyCurrentTextAttached(root)
    {
      var user := GetUserVector(frame);
      var direction := user.direction;
      var position := Vector3(direction.x * TextDistance, 0.0, direction.z * TextDistance);
      var display := InsertNewlines(text, LineWidth);

      ghost var before := root.children;
      ghost var wasAttached := textParent == root;
      // textNode.removeFromParentNode()
      if textParent != null {
        textParent.children := Without(textParent.children, textNode);
      }
      textParent := null;

      var previous := textNode;
      textNode := TextNode(nextSerial, display, position);
      nextSerial := nextSerial + 1;
      root.children := root.children + [textNode];
      textParent := root;

      if wasAttached && TextNodes(before) == [previous] {
        ReplaceTextNode(before, previous, textNode);
      } else if !wasAttached && TextNodes(before) == [] {
        TextNodesAppend(before, [textNode]);
        assert TextNodes([textNode]) == [textNode];
      }
    }

    /** Breaks s into lines of n characters: a "\n" goes before every character
        whose index is a positive multiple of n. */
    static method InsertNewlines(s: string, n: int) returns (r: string)
      requires n > 0
      ensures r == Wrapped(s, n)
      ensures |r| == WrappedLength(|s|, n)
      ensures Unbreak(r, n) == s
      ensures |s| <= n ==> r == s
    {
      r := "";
      for i := 0 to |s|
        invariant r == Wrapped(s[..i], n)
      {
        if i % n == 0 && i != 0 {
          r := r + "\n";
        }
        WrappedSnoc(s[..i], s[i], n);
        assert s[..i + 1] == s[..i] + [s[i]];
        r := r + [s[i]];
      }
      assert s[..|s|] == s;
      WrappedLengthIs(s, n);
      UnbreakWrapped(s, n);
    }
  }

  /** Two frames in a row: only the first sets the baseline. */
  method BaselineScenario(a: Matrix4, b: Matrix4)
  {
    var manager := new SceneManager();
    manager.SetOriginalOrientation(None);
    assert manager.originalOrientation == None;
    manager.SetOriginalOrientation(Some(a));
    manager.SetOriginalOrientation(Some(b));
    assert manager.originalOrientation == Some(Forward(a));
  }

  /** Two transcript updates without a camera frame: one text node remains,
      placed two units down -z, with its 21 characters on two lines. */
  method ReplacementScenario()
  {
    var root := new SceneRoot([OtherNode(7)]);
    var manager := new SceneManager();
    manager.UpdateText("hello", None, root);
    assert manager.textNode.text == "hello";
    manager.UpdateText("abcdefghijklmnopqrstu", None, root);
    assert TextNodes(root.children) == [manager.textNode];
    assert OtherNode(7) in root.children;
    assert manager.textNode.position == Vector3(0.0, 0.0, -2.0);
    assert manager.textNode.text == "abcdefghijklmnopqrst\nu";
  }
}
