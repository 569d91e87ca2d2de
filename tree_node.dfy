/**
 * `TreeNode`: a node of the tree a game file is parsed into, with the text
 * lines and the parallel annotation list the difference view shows, the
 * post-order numbering the edit mapping uses, and the searches over labels.
 *
 * The shape of a tree (labels and children) is fixed once it is built, so it
 * is held in `const` fields; the post-order id and the annotation are the
 * fields the Java class writes afterwards.
 */
module Trees {
  import opened Wrappers

  /** The label of a node that stands for an anonymous `{ ... }` block. */
  const BLOCK := "{}"

  /** The nodes owned by a list of subtrees. */
  ghost function UnionRepr(cs: seq<TreeNode>): set<TreeNode>
  {
    if cs == [] then {} else UnionRepr(cs[..|cs| - 1]) + cs[|cs| - 1].repr
  }

  lemma {:induction false} UnionReprHolds(cs: seq<TreeNode>)
    ensures forall i :: 0 <= i < |cs| ==> cs[i].repr <= UnionRepr(cs)
  {
    if cs != [] {
      UnionReprHolds(cs[..|cs| - 1]);
      forall i | 0 <= i < |cs| - 1 ensures cs[i].repr <= UnionRepr(cs) {
        assert cs[..|cs| - 1][i] == cs[i];
      }
    }
  }

  /** The greatest height among a list of subtrees. */
  ghost function MaxHeight(cs: seq<TreeNode>): (h: nat)
    ensures forall i :: 0 <= i < |cs| ==> cs[i].height <= h
  {
    if cs == [] then 0
    else
      var h := MaxHeight(cs[..|cs| - 1]);
      assert forall i :: 0 <= i < |cs| - 1 ==> cs[..|cs| - 1][i] == cs[i];
      if cs[|cs| - 1].height > h then cs[|cs| - 1].height else h
  }

  /** Each line with one tab in front, as `toStrings` prefixes the lines of a child. */
  function Indented(lines: seq<string>): (r: seq<string>)
    ensures |r| == |lines|
  {
    if lines == [] then [] else ["\t" + lines[0]] + Indented(lines[1..])
  }

  lemma {:induction false} IndentedSpec(lines: seq<string>)
    ensures forall i :: 0 <= i < |lines| ==> Indented(lines)[i] == "\t" + lines[i]
  {
    if lines != [] {
      IndentedSpec(lines[1..]);
    }
  }

  lemma {:induction false} IndentedAppend(a: seq<string>, b: seq<string>)
    ensures Indented(a + b) == Indented(a) + Indented(b)
  {
    IndentedSpec(a);
    IndentedSpec(b);
    IndentedSpec(a + b);
    assert |Indented(a + b)| == |Indented(a) + Indented(b)|;
    forall i | 0 <= i < |a + b| ensures Indented(a + b)[i] == (Indented(a) + Indented(b))[i] {
      if i < |a| {
        assert (a + b)[i] == a[i];
      } else {
        assert (a + b)[i] == b[i - |a|];
      }
    }
  }

  /** What a search asks of a node: its label matches, or the label of one of its children does. */
  datatype Test = LabelTest(p: string -> bool) | NameFieldTest(p: string -> bool)

  predicate Passes(t: Test, n: TreeNode)
  {
    match t
    case LabelTest(p) => p(n.nodeLabel)
    case NameFieldTest(p) => n.HasNameField(p)
  }

  /** The first node of a list that passes a test. */
  ghost function First(s: seq<TreeNode>, t: Test): Option<TreeNode>
  {
    if s == [] then None else if Passes(t, s[0]) then Some(s[0]) else First(s[1..], t)
  }

  /** First finds a passing node with none passing before it, or reports that none passes. */
  lemma {:induction false} FirstSpec(s: seq<TreeNode>, t: Test)
    ensures First(s, t).Some? ==>
              exists i :: 0 <= i < |s| && s[i] == First(s, t).value && Passes(t, s[i]) &&
                          forall j :: 0 <= j < i ==> !Passes(t, s[j])
    ensures First(s, t).None? ==> forall j :: 0 <= j < |s| ==> !Passes(t, s[j])
  {
    if s != [] && !Passes(t, s[0]) {
      FirstSpec(s[1..], t);
      if First(s, t).Some? {
        var i :| 0 <= i < |s| - 1 && s[1..][i] == First(s, t).value && Passes(t, s[1..][i]) &&
                 forall j :: 0 <= j < i ==> !Passes(t, s[1..][j]);
        assert s[i + 1] == First(s, t).value;
        forall j | 0 <= j < i + 1 ensures !Passes(t, s[j]) {
          if j > 0 {
            assert s[j] == s[1..][j - 1];
          }
        }
      } else {
        forall j | 0 <= j < |s| ensures !Passes(t, s[j]) {
          if j > 0 {
            assert s[j] == s[1..][j - 1];
          }
        }
      }
    }
  }

  lemma {:induction false} FirstAppend(a: seq<TreeNode>, b: seq<TreeNode>, t: Test)
    ensures First(a + b, t) == if First(a, t).Some? then First(a, t) else First(b, t)
  {
    if a != [] {
      assert (a + b)[0] == a[0];
      assert (a + b)[1..] == a[1..] + b;
      FirstAppend(a[1..], b, t);
    } else {
      assert a + b == b;
    }
  }

  class TreeNode {
    const nodeLabel: string
    const children: seq<TreeNode>
    /** -1 until the edit mapping annotates the node. */
    var annotation: int
    var postId: int
    /** The nodes of this subtree. */
    ghost const repr: set<TreeNode>
    ghost const height: nat

    /** A tree: children lower than their parent, owning disjoint sets of nodes that leave out the parent. */
    ghost predicate Valid()
      decreases height
    {
      this in repr &&
      (forall i :: 0 <= i < |children| ==>
        children[i].height < height && children[i].repr <= repr && this !in children[i].repr && children[i].Valid()) &&
      (forall i, j :: 0 <= i < j < |children| ==> children[i].repr !! children[j].repr)
    }

    /** A node with its children, as the parse tree visitor builds it; not yet numbered or annotated. */
    constructor (nodeLabel: string, children: seq<TreeNode>)
      requires forall i :: 0 <= i < |children| ==> children[i].Valid()
      requires forall i, j :: 0 <= i < j < |children| ==> children[i].repr !! children[j].repr
      ensures Valid() && this.nodeLabel == nodeLabel && this.children == children
      ensures annotation == -1 && postId == 0
    {
      this.nodeLabel := nodeLabel;
      this.children := children;
      annotation := -1;
      postId := 0;
      repr := {this} + UnionRepr(children);
      height := MaxHeight(children) + 1;
      new;
      UnionReprHolds(children);
    }

    /** `isRootNode`: the root of a file has an empty label. */
    predicate IsRootNode()
    {
      nodeLabel == ""
    }

    predicate IsTerminalNode()
    {
      children == []
    }

    predicate IsBlockNode()
    {
      nodeLabel == BLOCK
    }

    /** Some child's label passes the name-field matcher. */
    predicate HasNameField(p: string -> bool)
    {
      exists i | 0 <= i < |children| :: p(children[i].nodeLabel)
    }

    // ---- orders of the nodes ----

    /** The nodes in pre-order: the node, then each child's subtree in turn. */
    ghost function PreOrder(): seq<TreeNode>
      requires Valid()
      decreases height, |children| + 1
    {
      [this] + PreOrderFrom(0)
    }

    ghost function PreOrderFrom(i: nat): seq<TreeNode>
      requires Valid() && i <= |children|
      decreases height, |children| - i
    {
      if i == |children| then [] else children[i].PreOrder() + PreOrderFrom(i + 1)
    }

    /** The nodes in post-order: each child's subtree in turn, then the node. */
    ghost function PostOrder(): seq<TreeNode>
      requires Valid()
      decreases height, |children| + 1
    {
      PostOrderUpTo(|children|) + [this]
    }

    ghost function PostOrderUpTo(k: nat): seq<TreeNode>
      requires Valid() && k <= |children|
      decreases height, k
    {
      if k == 0 then [] else PostOrderUpTo(k - 1) + children[k - 1].PostOrder()
    }

    /** Every node of the post-order belongs to the subtree. */
    lemma {:induction false} PostOrderInRepr()
      requires Valid()
      ensures forall n :: n in PostOrder() ==> n in repr
      decreases height, 1
    {
      PostOrderUpToIn(|children|);
    }

    /** The nodes of the first k subtrees' post-orders lie in those subtrees. */
    lemma {:induction false} PostOrderUpToIn(k: nat)
      requires Valid() && k <= |children|
      ensures forall n :: n in PostOrderUpTo(k) ==> exists j :: 0 <= j < k && n in children[j].repr
      decreases height, 0, k
    {
      if k > 0 {
        PostOrderUpToIn(k - 1);
        children[k - 1].PostOrderInRepr();
      }
    }

    /** Pre-order and post-order list the same nodes, each as often. */
    lemma {:induction false} PreOrderPermutesPostOrder()
      requires Valid()
      ensures multiset(PreOrder()) == multiset(PostOrder())
      decreases height, |children| + 1
    {
      PreOrderFromPermutes(0);
    }

    lemma {:induction false} PreOrderFromPermutes(i: nat)
      requires Valid() && i <= |children|
      ensures multiset(PreOrderFrom(i)) + multiset(PostOrderUpTo(i)) == multiset(PostOrderUpTo(|children|))
      decreases height, |children| - i
    {
      if i < |children| {
        children[i].PreOrderPermutesPostOrder();
        PreOrderFromPermutes(i + 1);
        assert PreOrderFrom(i) == children[i].PreOrder() + PreOrderFrom(i + 1);
        assert PostOrderUpTo(i + 1) == PostOrderUpTo(i) + children[i].PostOrder();
      }
    }

    // ---- identify and findByPostId ----

    /**
     * `identify`: number the subtree in post-order with consecutive ids from
     * start, and return the id after the last.
     */
    method Identify(start: int) returns (next: int)
      requires Valid()
      modifies repr`postId
      ensures next == start + |PostOrder()|
      ensures forall i :: 0 <= i < |PostOrder()| ==> PostOrder()[i].postId == start + i
      ensures forall n :: n in repr ==> n.annotation == old(n.annotation)
      decreases height
    {
      next := start;
      for i := 0 to |children|
        invariant next == start + |PostOrderUpTo(i)|
        invariant forall j :: 0 <= j < |PostOrderUpTo(i)| ==> PostOrderUpTo(i)[j].postId == start + j
      {
        PostOrderUpToIn(i);
        ghost var before := PostOrderUpTo(i);
        assert forall j :: 0 <= j < |before| ==> before[j] in before;
        assert forall j :: 0 <= j < |before| ==> before[j] !in children[i].repr && before[j].postId == start + j;
        next := children[i].Identify(next);
        assert forall j :: 0 <= j < |before| ==> before[j].postId == start + j;
        assert PostOrderUpTo(i + 1) == before + children[i].PostOrder();
      }
      PostOrderUpToIn(|children|);
      ghost var below := PostOrderUpTo(|children|);
      assert forall j :: 0 <= j < |below| ==> below[j] in below;
      assert forall j :: 0 <= j < |below| ==> below[j] != this;
      postId := next;
      assert forall j :: 0 <= j < |below| ==> below[j].postId == start + j;
      assert PostOrder() == below + [this];
      next := next + 1;
    }

    /** `findByPostId`: this node when it has the id, else the first hit among the children in order. */
    function FindByPostId(id: int): Option<TreeNode>
      requires Valid()
      reads repr
      decreases height, |children| + 1
    {
      if postId == id then Some(this) else FindByPostIdFrom(id, 0)
    }

    function FindByPostIdFrom(id: int, i: nat): Option<TreeNode>
      requires Valid() && i <= |children|
      reads repr
      decreases height, |children| - i
    {
      if i == |children| then None
      else
        match children[i].FindByPostId(id)
        case Some(n) => Some(n)
        case None => FindByPostIdFrom(id, i + 1)
    }

    /** findByPostId returns a node of the subtree with that id, or nothing when no node has it. */
    lemma {:induction false} FindByPostIdSpec(id: int)
      requires Valid()
      ensures FindByPostId(id).Some? ==> FindByPostId(id).value.postId == id && FindByPostId(id).value in PreOrder()
      ensures FindByPostId(id).None? ==> forall n :: n in PreOrder() ==> n.postId != id
      decreases height, |children| + 1
    {
      if postId != id {
        FindByPostIdFromSpec(id, 0);
      }
    }

    lemma {:induction false} FindByPostIdFromSpec(id: int, i: nat)
      requires Valid() && i <= |children|
      ensures FindByPostIdFrom(id, i).Some? ==>
                FindByPostIdFrom(id, i).value.postId == id && FindByPostIdFrom(id, i).value in PreOrderFrom(i)
      ensures FindByPostIdFrom(id, i).None? ==> forall n :: n in PreOrderFrom(i) ==> n.postId != id
      decreases height, |children| - i
    {
      if i < |children| {
        children[i].FindByPostIdSpec(id);
        FindByPostIdFromSpec(id, i + 1);
      }
    }

    /**
     * Once the subtree is numbered from start as `identify` numbers it, the
     * lookup of each id in range finds the node numbered with it, and an id
     * out of range finds nothing.
     */
    lemma IdentifiedLookup(start: int)
      requires Valid()
      requires forall i :: 0 <= i < |PostOrder()| ==> PostOrder()[i].postId == start + i
      ensures forall i :: 0 <= i < |PostOrder()| ==> FindByPostId(start + i) == Some(PostOrder()[i])
      ensures forall id :: (id < start || start + |PostOrder()| <= id) ==> FindByPostId(id) == None
    {
      var post := PostOrder();
      PreOrderPermutesPostOrder();
      forall i | 0 <= i < |post| ensures FindByPostId(start + i) == Some(post[i]) {
        FindByPostIdSpec(start + i);
        assert post[i] in multiset(PreOrder());
        if FindByPostId(start + i).Some? {
          var n := FindByPostId(start + i).value;
          assert n in multiset(post);
          var j :| 0 <= j < |post| && post[j] == n;
        }
      }
      forall id | id < start || start + |post| <= id ensures FindByPostId(id) == None {
        forall n | n in PreOrder() ensures n.postId != id {
          assert n in multiset(post);
          var j :| 0 <= j < |post| && post[j] == n;
        }
        FindByPostIdSpec(id);
      }
    }

    // ---- findByLabel and findByNameField ----

    /** `findByLabel`: this node when its label matches, else the first hit among the children in order. */
    function FindByLabel(p: string -> bool): Option<TreeNode>
      requires Valid()
      decreases height, |children| + 1
    {
      if p(nodeLabel) then Some(this) else FindByLabelFrom(p, 0)
    }

    function FindByLabelFrom(p: string -> bool, i: nat): Option<TreeNode>
      requires Valid() && i <= |children|
      decreases height, |children| - i
    {
      if i == |children| then None
      else
        match children[i].FindByLabel(p)
        case Some(n) => Some(n)
        case None => FindByLabelFrom(p, i + 1)
    }

    /** findByLabel finds the first node in pre-order whose label matches. */
    lemma {:induction false} FindByLabelIsFirst(p: string -> bool)
      requires Valid()
      ensures FindByLabel(p) == First(PreOrder(), LabelTest(p))
      decreases height, |children| + 1
    {
      assert PreOrder()[0] == this && PreOrder()[1..] == PreOrderFrom(0);
      FindByLabelFromIsFirst(p, 0);
    }

    lemma {:induction false} FindByLabelFromIsFirst(p: string -> bool, i: nat)
      requires Valid() && i <= |children|
      ensures FindByLabelFrom(p, i) == First(PreOrderFrom(i), LabelTest(p))
      decreases height, |children| - i
    {
      if i < |children| {
        children[i].FindByLabelIsFirst(p);
        FindByLabelFromIsFirst(p, i + 1);
        FirstAppend(children[i].PreOrder(), PreOrderFrom(i + 1), LabelTest(p));
      }
    }

    /**
     * `findByNameField`: a node with children is found when one of its
     * children's labels matches, before any of its descendants is searched.
     */
    function FindByNameField(p: string -> bool): Option<TreeNode>
      requires Valid()
      decreases height, |children| + 1
    {
      if IsTerminalNode() then None
      else if HasNameField(p) then Some(this)
      else FindByNameFieldFrom(p, 0)
    }

    function FindByNameFieldFrom(p: string -> bool, i: nat): Option<TreeNode>
      requires Valid() && i <= |children|
      decreases height, |children| - i
    {
      if i == |children| then None
      else
        match children[i].FindByNameField(p)
        case Some(n) => Some(n)
        case None => FindByNameFieldFrom(p, i + 1)
    }

    /**
     * findByNameField finds the first node in pre-order with a matching
     * child; what it finds is never a terminal node.
     */
    lemma {:induction false} FindByNameFieldIsFirst(p: string -> bool)
      requires Valid()
      ensures FindByNameField(p) == First(PreOrder(), NameFieldTest(p))
      ensures FindByNameField(p).Some? ==> !FindByNameField(p).value.IsTerminalNode()
      decreases height, |children| + 1
    {
      assert PreOrder()[0] == this && PreOrder()[1..] == PreOrderFrom(0);
      FindByNameFieldFromIsFirst(p, 0);
      FirstSpec(PreOrder(), NameFieldTest(p));
    }

    lemma {:induction false} FindByNameFieldFromIsFirst(p: string -> bool, i: nat)
      requires Valid() && i <= |children|
      ensures FindByNameFieldFrom(p, i) == First(PreOrderFrom(i), NameFieldTest(p))
      decreases height, |children| - i
    {
      if i < |children| {
        children[i].FindByNameFieldIsFirst(p);
        FindByNameFieldFromIsFirst(p, i + 1);
        FirstAppend(children[i].PreOrder(), PreOrderFrom(i + 1), NameFieldTest(p));
      }
    }

    // ---- deepEquals ----

    /** `deepEquals`: equal labels, as many children, and children pairwise deep-equal. */
    function DeepEquals(other: TreeNode): bool
      requires Valid() && other.Valid()
      decreases height
    {
      nodeLabel == other.nodeLabel && |children| == |other.children| &&
      forall i | 0 <= i < |children| :: children[i].DeepEquals(other.children[i])
    }

    lemma {:induction false} DeepEqualsReflexive()
      requires Valid()
      ensures DeepEquals(this)
      decreases height
    {
      forall i | 0 <= i < |children| ensures children[i].DeepEquals(children[i]) {
        children[i].DeepEqualsReflexive();
      }
    }

    lemma {:induction false} DeepEqualsSymmetric(other: TreeNode)
      requires Valid() && other.Valid() && DeepEquals(other)
      ensures other.DeepEquals(this)
      decreases height
    {
      forall i | 0 <= i < |children| ensures other.children[i].DeepEquals(children[i]) {
        children[i].DeepEqualsSymmetric(other.children[i]);
      }
    }

    /** Deep-equal trees print as the same lines. */
    lemma {:induction false} DeepEqualsSameLines(other: TreeNode)
      requires Valid() && other.Valid() && DeepEquals(other)
      ensures Lines() == other.Lines()
      decreases height, |children| + 1
    {
      DeepEqualsSameChildLines(other, |children|);
    }

    lemma {:induction false} DeepEqualsSameChildLines(other: TreeNode, k: nat)
      requires Valid() && other.Valid() && DeepEquals(other) && k <= |children|
      ensures ChildLines(k) == other.ChildLines(k)
      decreases height, k
    {
      if k > 0 {
        DeepEqualsSameChildLines(other, k - 1);
        children[k - 1].DeepEqualsSameLines(other.children[k - 1]);
      }
    }

    // ---- toStrings and annotations ----

    /** The opening line of an inner node: `{` for a block, else the label and `{`. */
    function OpeningLine(): string
    {
      if IsBlockNode() then "{" else nodeLabel + "{"
    }

    /**
     * The lines `toStrings` yields: a terminal node its label; a root only
     * its children's lines; any other node an opening line, its children's
     * lines each behind one tab, and a closing `}`.
     */
    ghost function Lines(): seq<string>
      requires Valid()
      decreases height, |children| + 1
    {
      if IsTerminalNode() then [nodeLabel]
      else if IsRootNode() then ChildLines(|children|)
      else [OpeningLine()] + Indented(ChildLines(|children|)) + ["}"]
    }

    ghost function ChildLines(k: nat): seq<string>
      requires Valid() && k <= |children|
      decreases height, k
    {
      if k == 0 then [] else ChildLines(k - 1) + children[k - 1].Lines()
    }

    /** The annotations `annotations` yields: the node's annotation wherever `toStrings` puts a line of its own. */
    ghost function LineAnnotations(): seq<int>
      requires Valid()
      reads repr
      decreases height, |children| + 1
    {
      if IsTerminalNode() then [annotation]
      else if IsRootNode() then ChildAnnotations(|children|)
      else [annotation] + ChildAnnotations(|children|) + [annotation]
    }

    ghost function ChildAnnotations(k: nat): seq<int>
      requires Valid() && k <= |children|
      reads repr
      decreases height, k
    {
      if k == 0 then [] else ChildAnnotations(k - 1) + children[k - 1].LineAnnotations()
    }

    /** There is one annotation per line, so the difference view can pair them up. */
    lemma {:induction false} AnnotationPerLine()
      requires Valid()
      ensures |LineAnnotations()| == |Lines()|
      decreases height, |children| + 1
    {
      ChildAnnotationPerLine(|children|);
    }

    lemma {:induction false} ChildAnnotationPerLine(k: nat)
      requires Valid() && k <= |children|
      ensures |ChildAnnotations(k)| == |ChildLines(k)|
      decreases height, k
    {
      if k > 0 {
        ChildAnnotationPerLine(k - 1);
        children[k - 1].AnnotationPerLine();
      }
    }

    /**
     * An inner node other than the root prints its opening line first and the
     * closing brace last, and between them every line of its children's in
     * order with exactly one tab in front.
     */
    lemma BlockLines()
      requires Valid() && !IsTerminalNode() && !IsRootNode()
      ensures |Lines()| == |ChildLines(|children|)| + 2
      ensures Lines()[0] == OpeningLine() && Lines()[|Lines()| - 1] == "}"
      ensures forall i :: 0 < i < |Lines()| - 1 ==> Lines()[i] == "\t" + ChildLines(|children|)[i - 1]
    {
      IndentedSpec(ChildLines(|children|));
    }

    /** Every node yields at least one line: a root without children is terminal. */
    lemma {:induction false} LinesNonEmpty()
      requires Valid()
      ensures |Lines()| > 0
      decreases height, |children| + 1
    {
      if !IsTerminalNode() && IsRootNode() {
        children[|children| - 1].LinesNonEmpty();
      }
    }

    /** `toStrings`: the lines are built up child by child, each child's lines moved over one at a time. */
    method ToStrings() returns (strings: seq<string>)
      requires Valid()
      ensures strings == Lines()
      decreases height, 1
    {
      if IsTerminalNode() {
        strings := [nodeLabel];
      } else if IsRootNode() {
        strings := ChildStrings();
      } else {
        strings := BlockStrings();
      }
    }

    /** The root branch of `toStrings`: the children's lines one after the other. */
    method ChildStrings() returns (strings: seq<string>)
      requires Valid()
      ensures strings == ChildLines(|children|)
      decreases height, 0
    {
      strings := [];
      for i := 0 to |children|
        invariant strings == ChildLines(i)
      {
        var childStrings := children[i].ToStrings();
        strings := strings + childStrings;
      }
    }

    /** The inner-node branch of `toStrings`: opening line, the children's lines behind a tab, closing brace. */
    method BlockStrings() returns (strings: seq<string>)
      requires Valid() && !IsTerminalNode() && !IsRootNode()
      ensures strings == Lines()
      decreases height, 0
    {
      strings := [OpeningLine()];
      for i := 0 to |children|
        invariant strings == [OpeningLine()] + Indented(ChildLines(i))
      {
        var stringDeque := children[i].ToStrings();
        IndentedAppend(ChildLines(i), stringDeque);
        strings := MoveIndented(strings, stringDeque);
      }
      strings := strings + ["}"];
    }

    /** The inner loop of `toStrings`: move the lines of a child over one at a time, each behind one tab. */
    static method MoveIndented(strings: seq<string>, stringDeque: seq<string>) returns (r: seq<string>)
      ensures r == strings + Indented(stringDeque)
    {
      r := strings;
      var rest := stringDeque;
      ghost var moved: seq<string> := [];
      while rest != []
        invariant moved + rest == stringDeque
        invariant r == strings + Indented(moved)
        decreases |rest|
      {
        IndentedAppend(moved, [rest[0]]);
        r := r + ["\t" + rest[0]];
        moved := moved + [rest[0]];
        rest := rest[1..];
      }
      assert moved == stringDeque;
    }

    /** `annotations`: the annotation list built up child by child, in the order of `toStrings`. */
    method Annotations() returns (integers: seq<int>)
      requires Valid()
      ensures integers == LineAnnotations()
      decreases height
    {
      if IsTerminalNode() {
        integers := [annotation];
      } else if IsRootNode() {
        integers := [];
        for i := 0 to |children|
          invariant integers == ChildAnnotations(i)
        {
          var childIntegers := children[i].Annotations();
          integers := integers + childIntegers;
        }
      } else {
        integers := [annotation];
        for i := 0 to |children|
          invariant integers == [annotation] + ChildAnnotations(i)
        {
          var childIntegers := children[i].Annotations();
          integers := integers + childIntegers;
        }
        integers := integers + [annotation];
      }
    }
  }
}
