/** The language the decoder accepts, as parse trees: a document is framed named
    nodes, and array elements have names too. Independent of the decoder
    (wirebson/src/decode.rs; bsonspec.org). */
module Grammar {
  import opened Bytes
  import opened Text
  import opened ScalarCodec
  import opened BsonModel
  import opened Decode
  import opened RawValue
  import opened Documents
  import opened Scan
  import opened RoundTrip

  datatype Tree =
    | Leaf(scalar: Scalar)
    | Code(code: Str, scope: bytes)
    | Doc(nodes: seq<Node>)
    | List(nodes: seq<Node>)

  datatype Node = Node(name: Str, tree: Tree)

  function TreeSize(t: Tree): (n: nat)
    ensures n >= 1
    decreases t
  {
    if t.Doc? || t.List? then 1 + NodesSize(t.nodes) else 1
  }

  function NodesSize(ns: seq<Node>): nat
    decreases ns
  {
    if ns == [] then 0 else TreeSize(ns[0].tree) + NodesSize(ns[1..])
  }

  // ------------------------------------------------------------ the grammar

  /** The raw value of a tree: composites are framed. */
  function RawTree(t: Tree): RawBson
    decreases TreeSize(t), 0
  {
    match t
    case Leaf(s) => RawScalar(s)
    case Code(code, scope) => RawScope(code, scope)
    case Doc(ns) => RawDocument(Framed(NodesBytes(ns)))
    case List(ns) => RawArray(Framed(NodesBytes(ns)))
  }

  function NodesBytes(ns: seq<Node>): bytes
    decreases NodesSize(ns), 1, |ns|
  {
    if ns == [] then [] else ItemBytes(ns[0].name, RawTree(ns[0].tree)) + NodesBytes(ns[1..])
  }

  predicate CleanTree(t: Tree)
    decreases TreeSize(t), 0
  {
    match t
    case Leaf(s) => Representable(s)
    case Code(_, scope) => ValidDocument(scope)
    case Doc(ns) => CleanNodes(ns)
    case List(ns) => CleanNodes(ns)
  }

  predicate CleanNodes(ns: seq<Node>)
    decreases NodesSize(ns), 1, |ns|
  {
    ns == [] || (NulFree(ns[0].name) && CleanTree(ns[0].tree) && CleanNodes(ns[1..]))
  }

  function TreeDepth(t: Tree): nat
    decreases TreeSize(t), 0
  {
    if t.Doc? || t.List? then 1 + NodesDepth(t.nodes) else 0
  }

  function NodesDepth(ns: seq<Node>): nat
    decreases NodesSize(ns), 1, |ns|
  {
    if ns == [] then 0
    else
      var d, rest := TreeDepth(ns[0].tree), NodesDepth(ns[1..]);
      if d > rest then d else rest
  }

  /** What a tree means: array element names are forgotten. */
  function Meaning(t: Tree): Bson
    decreases TreeSize(t), 0
  {
    match t
    case Leaf(s) => ScalarValue(s)
    case Code(code, scope) => JavaScriptScope(code, scope)
    case Doc(ns) => Document(Fields(ns))
    case List(ns) => Array(Values(Fields(ns)))
  }

  function Fields(ns: seq<Node>): seq<Field>
    decreases NodesSize(ns), 1, |ns|
  {
    if ns == [] then [] else [Field(ns[0].name, Meaning(ns[0].tree))] + Fields(ns[1..])
  }

  /** `ns` derives the document `b`. */
  predicate Derives(ns: seq<Node>, b: bytes) {
    CleanNodes(ns) && b == Framed(NodesBytes(ns)) && |b| <= U32_MAX
  }

  // ------------------------------------------------------------ trees are decoded

  lemma RawTreeIsValid(t: Tree)
    requires CleanTree(t) && |RawBytes(RawTree(t))| <= U32_MAX
    ensures ValidRaw(RawTree(t))
  {
    hide Framed, U32, LE32, CleanNodes, NodesBytes;
    if t.Doc? || t.List? {
      FramedIsValid(NodesBytes(t.nodes));
    }
  }

  lemma {:induction false} DecodeNodes(doc: bytes, offset: nat, ns: seq<Node>, mode: Mode, depth: nat)
    requires offset <= |Body(doc)| && Body(doc)[offset..] == NodesBytes(ns) + [0]
    requires CleanNodes(ns) && |doc| <= U32_MAX && depth <= MAX_NESTING_DEPTH
    ensures DecodeItems(doc, offset, mode, depth) ==
            DepthResult(NodesDepth(ns) + depth <= MAX_NESTING_DEPTH, Fields(ns))
    decreases NodesSize(ns), 1, |ns|
  {
    hide ScanNext, Materialize, ItemBytes, RawTree, CleanTree, TreeDepth, Meaning, Body;
    if ns == [] {
      ScanOfEnd(doc, offset);
    } else {
      var name, t := ns[0].name, ns[0].tree;
      var raw, rest := RawTree(t), NodesBytes(ns[1..]) + [0];
      assert Body(doc)[offset..] == ItemBytes(name, raw) + rest;
      ItemHolds(name, raw, Body(doc), offset, rest);
      BodyIsShorter(doc);
      RawTreeIsValid(t);
      ScanOfItem(doc, offset, name, raw, rest);
      DecodeTree(t, mode, depth);
      Behind(Body(doc), offset, ItemBytes(name, raw), rest);
      DecodeNodes(doc, offset + |ItemBytes(name, raw)|, ns[1..], mode, depth);
    }
  }

  lemma BodyIsShorter(doc: bytes)
    ensures |Body(doc)| <= |doc|
  {
  }

  lemma ItemHolds(name: bytes, raw: RawBson, body: bytes, offset: nat, rest: bytes)
    requires offset <= |body| && body[offset..] == ItemBytes(name, raw) + rest
    ensures |RawBytes(raw)| + 2 <= |ItemBytes(name, raw)| <= |body|
  {
    hide RawBytes, RawTag;
  }

  lemma {:induction false} DecodeTree(t: Tree, mode: Mode, depth: nat)
    requires CleanTree(t) && |RawBytes(RawTree(t))| <= U32_MAX && depth <= MAX_NESTING_DEPTH
    ensures Materialize(RawTree(t), mode, depth) ==
            DepthResult(TreeDepth(t) + depth <= MAX_NESTING_DEPTH, Meaning(t))
    decreases TreeSize(t), 0
  {
    hide DecodeItems, NodesBytes, Framed, Body, LE32, ScalarBytes, CleanNodes, Fields;
    if t.Doc? || t.List? {
      BodyOfFramed(NodesBytes(t.nodes));
      if depth < MAX_NESTING_DEPTH {
        assert Body(Framed(NodesBytes(t.nodes)))[0..] == NodesBytes(t.nodes) + [0];
        DecodeNodes(Framed(NodesBytes(t.nodes)), 0, t.nodes, mode, depth + 1);
      }
    } else {
      assert ToBson(RawTree(t)) == Ok(Meaning(t));
    }
  }

  // ------------------------------------------------------------ decoded documents have trees

  lemma {:induction false} TreesFrom(doc: bytes, offset: nat, mode: Mode, depth: nat) returns (ns: seq<Node>)
    requires DecodeItems(doc, offset, mode, depth).Ok? && depth <= MAX_NESTING_DEPTH
    ensures offset <= |Body(doc)| && Body(doc)[offset..] == NodesBytes(ns) + [0]
    ensures CleanNodes(ns) && NodesDepth(ns) + depth <= MAX_NESTING_DEPTH
    ensures DecodeItems(doc, offset, mode, depth).value == Fields(ns)
    decreases |doc|, 1, |Body(doc)| - offset
  {
    hide ScanNext, Materialize, ItemBytes, RawTree, CleanTree, TreeDepth, Meaning, Body;
    ScanExact(doc, offset);
    BodyIsShorter(doc);
    var step := ScanNext(doc, offset).value;
    if step.End? {
      ns := [];
    } else {
      var t := TreeFrom(step.value, mode, depth);
      var rest := TreesFrom(doc, step.next, mode, depth);
      ns := [Node(step.name, t)] + rest;
      assert ns[1..] == rest;
    }
  }

  lemma {:induction false} TreeFrom(raw: RawBson, mode: Mode, depth: nat) returns (t: Tree)
    requires ValidRaw(raw) && Materialize(raw, mode, depth).Ok? && depth <= MAX_NESTING_DEPTH
    ensures RawTree(t) == raw && CleanTree(t) && TreeDepth(t) + depth <= MAX_NESTING_DEPTH
    ensures Materialize(raw, mode, depth).value == Meaning(t)
    decreases ChildSize(raw), 2
  {
    hide DecodeItems, NodesBytes, Framed, Body, LE32, U32, CleanNodes, Fields;
    match raw
    case RawScalar(s) =>
      t := Leaf(s);
      assert ToBson(raw) == Ok(Meaning(t));
    case RawScope(code, scope) => t := Code(code, scope);
    case RawDocument(b) =>
      var ns := TreesFrom(b, 0, mode, depth + 1);
      FramedBody(b, NodesBytes(ns));
      t := Doc(ns);
    case RawArray(b) =>
      var ns := TreesFrom(b, 0, mode, depth + 1);
      FramedBody(b, NodesBytes(ns));
      t := List(ns);
  }

  // ------------------------------------------------------------ the theorem

  /** A byte string passes validation and decodes to `fs` exactly when a tree of
      at most twenty levels derives it and means `fs`. */
  lemma DecodesIff(b: bytes, mode: Mode, fs: seq<Field>)
    ensures FromBytes(b).Ok? && DecodeDocument(b, mode, 1) == Ok(fs) <==>
            exists ns :: Derives(ns, b) && 1 + NodesDepth(ns) <= 20 && Fields(ns) == fs
  {
    hide DecodeItems, NodesBytes, Framed, Body, U32, CleanNodes, Fields, NodesDepth;
    if FromBytes(b).Ok? && DecodeDocument(b, mode, 1) == Ok(fs) {
      var ns := TreesFrom(b, 0, mode, 1);
      FramedBody(b, NodesBytes(ns));
      assert Derives(ns, b);
    }
    if ns :| Derives(ns, b) && 1 + NodesDepth(ns) <= MAX_NESTING_DEPTH && Fields(ns) == fs {
      DerivedDecodes(ns, b, mode);
    }
  }

  /** A derived document always validates; it decodes to what it means when it
      nests at most twenty levels, and to `NestedTooDeep` otherwise. */
  lemma DerivedDecodes(ns: seq<Node>, b: bytes, mode: Mode)
    requires Derives(ns, b)
    ensures FromBytes(b).Ok?
    ensures DecodeDocument(b, mode, 1) == DepthResult(1 + NodesDepth(ns) <= MAX_NESTING_DEPTH, Fields(ns))
  {
    hide DecodeItems, NodesBytes, Framed, Body, U32, CleanNodes, Fields, NodesDepth;
    FramedIsValid(NodesBytes(ns));
    BodyOfFramed(NodesBytes(ns));
    assert Body(b)[0..] == NodesBytes(ns) + [0];
    DecodeNodes(b, 0, ns, mode, 1);
  }

  /** The grammar is unambiguous: a document has one derivation. */
  lemma {:induction false} OneDerivation(doc: bytes, offset: nat, ns: seq<Node>, ms: seq<Node>)
    requires offset <= |Body(doc)| && |doc| <= U32_MAX && CleanNodes(ns) && CleanNodes(ms)
    requires Body(doc)[offset..] == NodesBytes(ns) + [0] && Body(doc)[offset..] == NodesBytes(ms) + [0]
    ensures ns == ms
    decreases NodesSize(ns), 1, |ns|
  {
    hide ScanNext, ItemBytes, RawTree, CleanTree, Body;
    if ns != [] && ms != [] {
      var next := NodeScan(doc, offset, ns);
      var next' := NodeScan(doc, offset, ms);
      SameTree(ns[0].tree, ms[0].tree);
      OneDerivation(doc, next, ns[1..], ms[1..]);
      assert ns == [ns[0]] + ns[1..] && ms == [ms[0]] + ms[1..];
    } else if ns != [] {
      var next := NodeScan(doc, offset, ns);
      ScanOfEnd(doc, offset);
    } else if ms != [] {
      var next := NodeScan(doc, offset, ms);
      ScanOfEnd(doc, offset);
    }
  }

  lemma NodeScan(doc: bytes, offset: nat, ns: seq<Node>) returns (next: nat)
    requires offset <= |Body(doc)| && |doc| <= U32_MAX && CleanNodes(ns) && ns != []
    requires Body(doc)[offset..] == NodesBytes(ns) + [0]
    ensures ScanNext(doc, offset) == Ok(Item(ns[0].name, RawTree(ns[0].tree), next))
    ensures next <= |Body(doc)| && Body(doc)[next..] == NodesBytes(ns[1..]) + [0]
    ensures |RawBytes(RawTree(ns[0].tree))| <= U32_MAX
  {
    hide ScanNext, ItemBytes, RawTree, CleanTree, Body;
    var name, raw, rest := ns[0].name, RawTree(ns[0].tree), NodesBytes(ns[1..]) + [0];
    assert Body(doc)[offset..] == ItemBytes(name, raw) + rest;
    ItemHolds(name, raw, Body(doc), offset, rest);
    BodyIsShorter(doc);
    RawTreeIsValid(ns[0].tree);
    ScanOfItem(doc, offset, name, raw, rest);
    Behind(Body(doc), offset, ItemBytes(name, raw), rest);
    next := offset + |ItemBytes(name, raw)|;
  }

  lemma {:induction false} SameTree(t: Tree, u: Tree)
    requires CleanTree(t) && CleanTree(u) && RawTree(t) == RawTree(u) && |RawBytes(RawTree(t))| <= U32_MAX
    ensures t == u
    decreases TreeSize(t), 0
  {
    hide NodesBytes, Framed, Body, CleanNodes;
    if t.Doc? || t.List? {
      BodyOfFramed(NodesBytes(t.nodes));
      BodyOfFramed(NodesBytes(u.nodes));
      var doc := Framed(NodesBytes(t.nodes));
      assert Body(doc)[0..] == Body(doc);
      OneDerivation(doc, 0, t.nodes, u.nodes);
    }
  }
}
