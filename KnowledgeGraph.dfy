/** The answer/graph split and the knowledge graph of app.py
    (split_answer_and_graph, extract_knowledge_graph). Two foreign parts are
    collaborators: `parse` stands for `json.loads` of the fenced block
    followed by the lookups `["knowledge_graph"]["nodes"]` and `["edges"]`
    (`None` when either raises), and `ner` for the HanLP pipeline's
    `"ner/msra"` entity list. */
module KnowledgeGraph {
  import opened Common

  const Fence: string := "```json"
  const CloseFence: string := "```"

  // ---------------------------------------------------------------------------
  // The pattern r"```json(.*?)```" with re.DOTALL

  /** Where `re.search` finds the pattern: the start of the first "```json"
      and the start of the first "```" after it. A later "```json" cannot
      help when the first has no closing fence, since any fence closing the
      later one also closes the first. */
  function FencedBlock(raw: string): (r: Option<(nat, nat)>)
    ensures r.Some? ==> OccursAt(raw, Fence, r.value.0) && r.value.0 + |Fence| <= r.value.1
                        && OccursAt(raw, CloseFence, r.value.1)
    ensures r.Some? ==> forall j :: 0 <= j < r.value.0 ==> !OccursAt(raw, Fence, j)
    ensures r.Some? ==> forall j :: r.value.0 + |Fence| <= j < r.value.1 ==> !OccursAt(raw, CloseFence, j)
    ensures r.None? ==> forall i, j :: 0 <= i && i + |Fence| <= j ==> !(OccursAt(raw, Fence, i) && OccursAt(raw, CloseFence, j))
  {
    match Find(raw, Fence, 0)
    case None => None
    case Some(i) =>
      match Find(raw, CloseFence, i + |Fence|)
      case None => None
      case Some(j) => Some((i, j))
  }

  /** `match.group(1).strip()`: the stripped inside of the first block. */
  function JsonBlock(raw: string): Option<string> {
    match FencedBlock(raw)
    case None => None
    case Some((i, j)) => Some(Strip(raw[i + |Fence|..j]))
  }

  /** split_answer_and_graph: the stripped text ahead of the first block and
      the block, or the stripped whole text and `None`. */
  function SplitAnswerAndGraph(raw: string): (r: (string, Option<string>))
    ensures r.1 == JsonBlock(raw)
    ensures r.1.None? ==> r.0 == Strip(raw)
  {
    match FencedBlock(raw)
    case None => (Strip(raw), None)
    case Some((i, j)) => (Strip(raw[..i]), JsonBlock(raw))
  }

  /** Where the pieces of a fenced answer lie. */
  lemma FencedLayout(text: string, json: string, tail: string)
    ensures var s := text + Fence + json + CloseFence + tail;
      var a := |text|;
      var b := a + |Fence| + |json|;
      && s[..a] == text && OccursAt(s, Fence, a)
      && s[a + |Fence|..b] == json && OccursAt(s, CloseFence, b)
  {
    var s := text + Fence + json + CloseFence + tail;
    var a := |text|;
    var b := a + |Fence| + |json|;
    assert s[..a] == text;
    assert s[a..a + |Fence|] == Fence;
    assert s[a + |Fence|..b] == json;
    assert s[b..b + |CloseFence|] == CloseFence;
  }

  /** A stretch of `s` copied from a string without backquotes has none. */
  lemma NoBackquoteIn(s: string, lo: nat, hi: nat, piece: string)
    requires lo <= hi <= |s| && s[lo..hi] == piece && '`' !in piece
    ensures forall k :: lo <= k < hi ==> s[k] != '`'
  {
    forall k | lo <= k < hi ensures s[k] != '`' {
      assert s[k] == piece[k - lo];
      assert piece[k - lo] in piece;
    }
  }

  /** The split undoes the way the answer is written: text, then the fenced
      JSON, then anything at all. */
  lemma SplitAnswerRoundTrip(text: string, json: string, tail: string)
    requires '`' !in text && '`' !in json
    ensures SplitAnswerAndGraph(text + Fence + json + CloseFence + tail) == (Strip(text), Some(Strip(json)))
  {
    var s := text + Fence + json + CloseFence + tail;
    var a := |text|;
    var b := a + |Fence| + |json|;
    FencedLayout(text, json, tail);
    NoBackquoteIn(s, 0, a, text);
    NoBackquoteIn(s, a + |Fence|, b, json);
    NoOccurrenceIn(s, Fence, 0, a);
    NoOccurrenceIn(s, CloseFence, a + |Fence|, b);
    FindLeftmost(s, Fence, 0, a);
    FindLeftmost(s, CloseFence, a + |Fence|, b);
    assert FencedBlock(s) == Some((a, b));
    assert JsonBlock(s) == Some(Strip(json));
  }

  /** With no backquote at all there is no block. */
  lemma NoFenceNoGraph(raw: string)
    requires '`' !in raw
    ensures SplitAnswerAndGraph(raw) == (Strip(raw), None)
  {
    forall i | 0 <= i ensures !OccursAt(raw, Fence, i) {
      if i + |Fence| <= |raw| {
        assert raw[i] in raw;
        assert raw[i..i + |Fence|][0] == raw[i];
      }
    }
    assert Find(raw, Fence, 0).None?;
  }

  // ---------------------------------------------------------------------------
  // Graphs

  /** A node as the dictionaries of app.py hold it (`labelText` is the
      "label" key, a reserved word here); `group` and `size` are set only on
      entity nodes. */
  datatype Node = Node(id: int, labelText: string, description: string, color: string, shape: string,
                       group: Option<string>, size: Option<nat>)

  /** An edge; `color` and `width` are set only on co-occurrence edges. */
  datatype Edge = Edge(from: int, to: int, relation: string, color: Option<string>, width: Option<nat>)

  datatype Graph = Graph(nodes: seq<Node>, edges: seq<Edge>)

  /** A tuple `(text, type, start, end)` of the entity list. */
  datatype Entity = Entity(text: string, entType: string, start: int, end: int)

  /** Every edge joins two ids that some node carries. */
  ghost predicate EndpointsExist(g: Graph) {
    forall e :: e in g.edges ==>
      (exists n :: n in g.nodes && n.id == e.from) && (exists n :: n in g.nodes && n.id == e.to)
  }

  /** The nodes carry the ids 1, 2, ... in order. */
  ghost predicate NumberedInOrder(nodes: seq<Node>) {
    forall k :: 0 <= k < |nodes| ==> nodes[k].id == k + 1
  }

  lemma EndpointsOfNumbered(g: Graph)
    requires NumberedInOrder(g.nodes)
    requires forall e :: e in g.edges ==> 1 <= e.from <= |g.nodes| && 1 <= e.to <= |g.nodes|
    ensures EndpointsExist(g)
  {
    forall e | e in g.edges
      ensures exists n :: n in g.nodes && n.id == e.from
      ensures exists n :: n in g.nodes && n.id == e.to
    {
      assert g.nodes[e.from - 1].id == e.from;
      assert g.nodes[e.to - 1].id == e.to;
    }
  }

  // ---------------------------------------------------------------------------
  // Step 2: the graphic-reasoning template

  const GraphicKeywords: seq<string> := ["图形", "推理", "变化", "颜色", "边数", "规律", "对称", "旋转", "排列"]

  /** `any(kw in answer for kw in graphic_keywords)`. */
  predicate IsGraphicQuestion(answer: string) {
    exists k :: 0 <= k < |GraphicKeywords| && Contains(answer, GraphicKeywords[k])
  }

  function TemplateNode(id: int, labelText: string, description: string, color: string, shape: string): Node {
    Node(id, labelText, description, color, shape, None, None)
  }

  function ContainsEdge(from: int, to: int): Edge {
    Edge(from, to, "包含", None, None)
  }

  const Template: Graph := Graph(
    [ TemplateNode(1, "图形推理", "通过图形规律推断结果", "#4CAF50", "star"),
      TemplateNode(2, "形状变化", "边数/结构的变化模式", "#03A9F4", "box"),
      TemplateNode(3, "颜色规律", "颜色轮换/重复/渐变", "#FFC107", "triangle"),
      TemplateNode(4, "位置排列", "图形在空间位置的变化", "#E91E63", "diamond"),
      TemplateNode(5, "对称性", "轴对称/中心对称等形式", "#9C27B0", "ellipse") ],
    [ ContainsEdge(1, 2), ContainsEdge(1, 3), ContainsEdge(1, 4), ContainsEdge(1, 5) ])

  /** The template is a star: node 1 contains each of the four others. */
  lemma TemplateShape()
    ensures |Template.nodes| == 5 && NumberedInOrder(Template.nodes)
    ensures |Template.edges| == 4
    ensures forall k :: 0 <= k < 4 ==> Template.edges[k] == ContainsEdge(1, k + 2)
    ensures EndpointsExist(Template)
  {
    TemplateNumbered();
    TemplateEdgesInRange();
    TemplateEdgesFromRoot();
    EndpointsOfNumbered(Template);
  }

  lemma TemplateEdgesFromRoot()
    ensures |Template.edges| == 4
    ensures forall k :: 0 <= k < 4 ==> Template.edges[k] == ContainsEdge(1, k + 2)
  {
    var es := Template.edges;
    assert es == [ContainsEdge(1, 2), ContainsEdge(1, 3), ContainsEdge(1, 4), ContainsEdge(1, 5)];
    forall k | 0 <= k < 4 ensures es[k] == ContainsEdge(1, k + 2) {
      if k == 0 {
      } else if k == 1 {
      } else if k == 2 {
      } else {
      }
    }
  }

  lemma TemplateEdgesInRange()
    ensures forall e :: e in Template.edges ==> 1 <= e.from <= 5 && 1 <= e.to <= 5
  {
  }

  lemma TemplateNumbered()
    ensures |Template.nodes| == 5 && NumberedInOrder(Template.nodes)
  {
    var ns := Template.nodes;
    assert ns[0].id == 1 && ns[1].id == 2 && ns[2].id == 3 && ns[3].id == 4 && ns[4].id == 5;
  }

  // ---------------------------------------------------------------------------
  // Step 4: the entity graph

  const EntityTypes: map<string, string> := map["PER" := "人物", "ORG" := "组织", "LOC" := "地点", "TIME" := "时间"]
  const ShapeMap: map<string, string> := map["PER" := "dot", "ORG" := "box", "LOC" := "triangle", "TIME" := "ellipse"]
  const ColorMap: map<string, string> := map["PER" := "#03a9f4", "ORG" := "#4caf50", "LOC" := "#ff9800", "TIME" := "#ab47bc"]

  /** The node of the entity at position `idx` of the list. */
  function EntityNode(idx: nat, e: Entity): Node {
    Node(idx + 1, e.text, Get(EntityTypes, e.entType, "实体") + "：" + e.text,
         Get(ColorMap, e.entType, "#9e9e9e"), Get(ShapeMap, e.entType, "ellipse"),
         Some(e.entType), Some(28))
  }

  function EntityNodes(entities: seq<Entity>): (r: seq<Node>)
    ensures |r| == |entities| && NumberedInOrder(r)
    ensures forall k :: 0 <= k < |r| ==> r[k].labelText == entities[k].text && r[k].group == Some(entities[k].entType)
  {
    seq(|entities|, k requires 0 <= k < |entities| => EntityNode(k, entities[k]))
  }

  /** An entity of a type outside the four tables gets the plain style. */
  lemma UnknownTypeStyle(idx: nat, e: Entity)
    requires e.entType !in EntityTypes
    ensures EntityNode(idx, e).description == "实体：" + e.text
    ensures EntityNode(idx, e).color == "#9e9e9e" && EntityNode(idx, e).shape == "ellipse"
  {
    assert "实体" + "：" + e.text == "实体：" + e.text;
  }

  function CoOccurs(from: int, to: int): Edge {
    Edge(from, to, "共现", Some("#ccc"), Some(1))
  }

  /** The edges the inner loop adds for node `i` (0-based) while `j` runs
      from `i + 1` up to `hi - 1`. */
  function RowEdges(i: nat, hi: nat): (r: seq<Edge>)
    decreases hi
  {
    if hi <= i + 1 then [] else RowEdges(i, hi - 1) + [CoOccurs(i + 1, hi)]
  }

  /** The edges of the first `rows` passes of the outer loop over `n` nodes. */
  function PairEdges(rows: nat, n: nat): (r: seq<Edge>) {
    if rows == 0 then [] else PairEdges(rows - 1, n) + RowEdges(rows - 1, n)
  }

  lemma {:induction false} RowEdgesMembers(i: nat, hi: nat, e: Edge)
    ensures e in RowEdges(i, hi) <==> e.from == i + 1 && i + 1 < e.to <= hi && e == CoOccurs(e.from, e.to)
  {
    if hi > i + 1 {
      RowEdgesMembers(i, hi - 1, e);
      if e == CoOccurs(i + 1, hi) {
        assert e in RowEdges(i, hi);
      }
    }
  }

  lemma PairEdgesMembers(rows: nat, n: nat, e: Edge)
    ensures e in PairEdges(rows, n) <==> 1 <= e.from <= rows && e.from < e.to <= n && e == CoOccurs(e.from, e.to)
  {
    if e in PairEdges(rows, n) {
      PairEdgesSound(rows, n, e);
    }
    if 1 <= e.from <= rows && e.from < e.to <= n && e == CoOccurs(e.from, e.to) {
      PairEdgesComplete(rows, n, e.from, e.to);
    }
  }

  lemma {:induction false} PairEdgesSound(rows: nat, n: nat, e: Edge)
    requires e in PairEdges(rows, n)
    ensures 1 <= e.from <= rows && e.from < e.to <= n && e == CoOccurs(e.from, e.to)
  {
    var earlier := PairEdges(rows - 1, n);
    var row := RowEdges(rows - 1, n);
    assert PairEdges(rows, n) == earlier + row;
    if e in earlier {
      PairEdgesSound(rows - 1, n, e);
    } else {
      RowEdgesMembers(rows - 1, n, e);
    }
  }

  lemma {:induction false} PairEdgesComplete(rows: nat, n: nat, a: int, b: int)
    requires 1 <= a <= rows && a < b <= n
    ensures CoOccurs(a, b) in PairEdges(rows, n)
  {
    var earlier := PairEdges(rows - 1, n);
    var row := RowEdges(rows - 1, n);
    assert PairEdges(rows, n) == earlier + row;
    if a < rows {
      PairEdgesComplete(rows - 1, n, a, b);
      assert CoOccurs(a, b) in earlier;
    } else {
      RowEdgesMembers(rows - 1, n, CoOccurs(a, b));
      assert CoOccurs(a, b) in row;
    }
  }

  /** The co-occurrence edges are exactly the pairs `a < b` of node ids. */
  lemma CoOccurrenceEdges(n: nat, a: int, b: int)
    ensures CoOccurs(a, b) in PairEdges(n, n) <==> 1 <= a < b <= n
  {
    PairEdgesMembers(n, n, CoOccurs(a, b));
  }

  lemma {:induction false} RowEdgesCount(i: nat, hi: nat)
    requires i < hi
    ensures |RowEdges(i, hi)| == hi - i - 1
  {
    if hi > i + 1 {
      RowEdgesCount(i, hi - 1);
    }
  }

  lemma {:induction false} PairEdgesCount(rows: nat, n: nat)
    requires rows <= n
    ensures 2 * |PairEdges(rows, n)| == rows * (2 * n - rows - 1)
  {
    if rows > 0 {
      PairEdgesCount(rows - 1, n);
      RowEdgesCount(rows - 1, n);
      assert |PairEdges(rows, n)| == |PairEdges(rows - 1, n)| + |RowEdges(rows - 1, n)|;
      CountStep(rows, n);
    }
  }

  /** One more outer pass adds the n - rows edges of its row. */
  lemma CountStep(rows: int, n: int)
    ensures rows * (2 * n - rows - 1) == (rows - 1) * (2 * n - (rows - 1) - 1) + 2 * (n - rows)
  {
    calc {
      (rows - 1) * (2 * n - (rows - 1) - 1) + 2 * (n - rows);
      (rows - 1) * (2 * n - rows) + 2 * n - 2 * rows;
      rows * (2 * n - rows) - (2 * n - rows) + 2 * n - 2 * rows;
      rows * (2 * n - rows) - rows;
      rows * (2 * n - rows - 1);
    }
  }

  /** n entities give n·(n−1)/2 edges. */
  lemma CompleteGraphSize(n: nat)
    ensures 2 * |PairEdges(n, n)| == n * (n - 1)
  {
    PairEdgesCount(n, n);
  }

  /** The graph built from the entities, or the empty graph when there are none. */
  function EntityGraph(entities: seq<Entity>): Graph {
    if entities == [] then Graph([], [])
    else Graph(EntityNodes(entities), PairEdges(|entities|, |entities|))
  }

  lemma EntityGraphWellFormed(entities: seq<Entity>)
    ensures EndpointsExist(EntityGraph(entities))
    ensures forall e :: e in EntityGraph(entities).edges ==> e.from < e.to
  {
    var g := EntityGraph(entities);
    var n := |entities|;
    forall e | e in g.edges ensures 1 <= e.from < e.to <= n {
      PairEdgesMembers(n, n, e);
    }
    EndpointsOfNumbered(g);
  }

  // ---------------------------------------------------------------------------
  // extract_knowledge_graph

  /** The three steps in their order: the embedded graph when its block is
      there and parses, else the template for a graphic question, else the
      entity graph. */
  function KnowledgeGraphOf(answer: string, parse: string -> Option<Graph>, entities: seq<Entity>): Graph {
    var embedded := match JsonBlock(answer)
                    case None => None
                    case Some(block) => parse(block);
    if embedded.Some? then embedded.value
    else if IsGraphicQuestion(answer) then Template
    else EntityGraph(entities)
  }

  method BuildNodes(entities: seq<Entity>) returns (nodes: seq<Node>)
    ensures nodes == EntityNodes(entities)
  {
    nodes := [];
    for idx := 0 to |entities|
      invariant |nodes| == idx
      invariant forall k :: 0 <= k < idx ==> nodes[k] == EntityNode(k, entities[k])
    {
      nodes := nodes + [EntityNode(idx, entities[idx])];
    }
  }

  /** The nested loop that joins every pair of nodes. */
  method BuildEdges(nodes: seq<Node>) returns (edges: seq<Edge>)
    requires NumberedInOrder(nodes)
    ensures edges == PairEdges(|nodes|, |nodes|)
  {
    var n := |nodes|;
    edges := [];
    var i := 0;
    while i < n
      invariant 0 <= i <= n
      invariant edges == PairEdges(i, n)
    {
      var j := i + 1;
      while j < n
        invariant i + 1 <= j <= n
        invariant edges == PairEdges(i, n) + RowEdges(i, j)
      {
        edges := edges + [CoOccurs(nodes[i].id, nodes[j].id)];
        j := j + 1;
      }
      i := i + 1;
    }
  }

  method ExtractKnowledgeGraph(answer: string, parse: string -> Option<Graph>, ner: string -> seq<Entity>)
    returns (g: Graph)
    ensures g == KnowledgeGraphOf(answer, parse, ner(answer))
  {
    var block := JsonBlock(answer);
    if block.Some? && parse(block.value).Some? {
      return parse(block.value).value;
    }
    if IsGraphicQuestion(answer) {
      return Template;
    }
    var entities := ner(answer);
    if entities == [] {
      return Graph([], []);
    }
    var nodes := BuildNodes(entities);
    var edges := BuildEdges(nodes);
    return Graph(nodes, edges);
  }

  /** A block that parses wins over everything else. */
  lemma EmbeddedGraphFirst(answer: string, parse: string -> Option<Graph>, entities: seq<Entity>)
    requires JsonBlock(answer).Some? && parse(JsonBlock(answer).value).Some?
    ensures KnowledgeGraphOf(answer, parse, entities) == parse(JsonBlock(answer).value).value
  {
  }

  /** Without a usable block, any keyword gives the template, whatever the
      entities are. */
  lemma TemplateForGraphicQuestion(answer: string, parse: string -> Option<Graph>, entities: seq<Entity>, k: nat)
    requires JsonBlock(answer).None? || parse(JsonBlock(answer).value).None?
    requires k < |GraphicKeywords| && Contains(answer, GraphicKeywords[k])
    ensures KnowledgeGraphOf(answer, parse, entities) == Template
  {
  }

  /** Otherwise the graph is the entity graph, and it is well formed. */
  lemma EntityFallback(answer: string, parse: string -> Option<Graph>, entities: seq<Entity>)
    requires JsonBlock(answer).None? || parse(JsonBlock(answer).value).None?
    requires !IsGraphicQuestion(answer)
    ensures KnowledgeGraphOf(answer, parse, entities) == EntityGraph(entities)
    ensures EndpointsExist(KnowledgeGraphOf(answer, parse, entities))
  {
    EntityGraphWellFormed(entities);
  }

  /** Whenever the graph is built here rather than parsed, every edge joins
      existing nodes. */
  lemma BuiltGraphWellFormed(answer: string, parse: string -> Option<Graph>, entities: seq<Entity>)
    requires JsonBlock(answer).None? || parse(JsonBlock(answer).value).None?
    ensures EndpointsExist(KnowledgeGraphOf(answer, parse, entities))
  {
    TemplateShape();
    EntityGraphWellFormed(entities);
  }
}
