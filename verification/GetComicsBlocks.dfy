/** The release milestones of a GetComics page, read from its events and its element tree
    without the parser's state. */
module GetComicsBlocks {
  import opened GetComicsDocument
  import opened Results
  import opened Sequences

  // ----- Text blocks of an event sequence -----

  /** The texts among some events, in order. */
  function DataTexts(events: seq<Event>): seq<string> {
    if events == [] then []
    else (if events[0].Data? && events[0].text != "" then [events[0].text] else []) + DataTexts(events[1..])
  }

  /** The place of the first end tag, or the number of events when there is none. */
  function EndAt(events: seq<Event>, tag: string): (n: nat)
    ensures n <= |events|
    ensures n < |events| ==> events[n] == EndTag(tag)
    ensures EndTag(tag) !in events[..n]
  {
    if events == [] || events[0] == EndTag(tag) then 0
    else
      var n := EndAt(events[1..], tag);
      assert events[..n + 1] == [events[0]] + events[1..][..n];
      n + 1
  }

  /** The texts of the blocks, one after the other: a block runs from a heading or paragraph
      tag to the first end tag of the same name, whatever stands between. */
  function BlockTexts(events: seq<Event>): seq<string>
    decreases |events|
  {
    if events == [] then []
    else if !(events[0].StartTag? && events[0].tag in BLOCK_TAGS) then BlockTexts(events[1..])
    else
      var rest := events[1..];
      var n := EndAt(rest, events[0].tag);
      if n == |rest| then [] else [Joined(DataTexts(rest[..n]))] + BlockTexts(rest[n + 1..])
  }

  function MetadataOf(milestones: seq<Milestone>): seq<string> {
    if milestones == [] then []
    else (if milestones[0].Metadata? then [milestones[0].text] else []) + MetadataOf(milestones[1..])
  }

  /** The block texts that describe a release. */
  function Described(texts: seq<string>, evidence: Evidence): seq<string> {
    if texts == [] then []
    else (if texts[0] != "" && evidence(texts[0]) then [texts[0]] else []) + Described(texts[1..], evidence)
  }

  lemma DataTextsStep(events: seq<Event>)
    requires events != []
    ensures DataTexts(events) == DataTexts([events[0]]) + DataTexts(events[1..])
  {
    assert [events[0]][1..] == [];
  }

  lemma {:induction false} MetadataAppend(a: seq<Milestone>, b: seq<Milestone>)
    ensures MetadataOf(a + b) == MetadataOf(a) + MetadataOf(b)
  {
    if a == [] {
      assert a + b == b;
    } else {
      assert (a + b)[1..] == a[1..] + b;
      MetadataAppend(a[1..], b);
    }
  }

  lemma {:induction false} MilestonesAppend(doc: Document, evidence: Evidence, a: seq<Event>, b: seq<Event>)
    requires ValidActive(doc)
    ensures Milestones(doc, evidence, a + b)
         == Milestones(doc, evidence, a) + Milestones(Feed(doc, evidence, a), evidence, b)
    decreases |a|
  {
    hide Step, Emitted;
    if a == [] {
      assert a + b == b;
    } else {
      assert (a + b)[1..] == a[1..] + b;
      MilestonesAppend(Step(doc, evidence, a[0]), evidence, a[1..], b);
    }
  }

  /** One event inside an open block. */
  lemma StepInBlock(doc: Document, evidence: Evidence, tag: string, event: Event)
    requires ValidActive(doc) && doc.blockTag == Some(tag) && tag in BLOCK_TAGS && event != EndTag(tag)
    ensures var next := Step(doc, evidence, event);
      && next.blockTag == Some(tag) && next.blockParts == doc.blockParts + DataTexts([event])
      && MetadataOf(Emitted(doc, evidence, event)) == []
  {
    hide Joined, IsControl, ContextClasses;
    assert doc.blockParts + [] == doc.blockParts;
  }

  /** A block collects exactly its texts and emits no metadata before its end tag. */
  lemma {:induction false} InsideBlock(doc: Document, evidence: Evidence, tag: string, inside: seq<Event>)
    requires ValidActive(doc) && doc.blockTag == Some(tag) && tag in BLOCK_TAGS && EndTag(tag) !in inside
    ensures var after := Feed(doc, evidence, inside);
      && after.blockTag == Some(tag) && after.blockParts == doc.blockParts + DataTexts(inside)
      && MetadataOf(Milestones(doc, evidence, inside)) == []
    decreases |inside|
  {
    hide Step, Emitted;
    if inside == [] {
      assert doc.blockParts + [] == doc.blockParts;
    } else {
      hide MetadataOf;
      var next := Step(doc, evidence, inside[0]);
      StepInBlock(doc, evidence, tag, inside[0]);
      InsideBlock(next, evidence, tag, inside[1..]);
      MetadataAppend(Emitted(doc, evidence, inside[0]), Milestones(next, evidence, inside[1..]));
      DataTextsStep(inside);
      assert (doc.blockParts + DataTexts([inside[0]])) + DataTexts(inside[1..]) == doc.blockParts + DataTexts(inside);
    }
  }

  /** The end tag of a block closes it and emits its text when it describes a release. */
  lemma BlockCloses(doc: Document, evidence: Evidence, tag: string)
    requires ValidActive(doc) && doc.blockTag == Some(tag) && tag in BLOCK_TAGS
    ensures Step(doc, evidence, EndTag(tag)).blockTag == None
    ensures var text := Joined(doc.blockParts);
      Emitted(doc, evidence, EndTag(tag)) == if text != "" && evidence(text) then [Metadata(text)] else []
  {
    AnchorsAreNeitherVoidNorBlocks();
  }

  lemma BlockOpens(doc: Document, evidence: Evidence, tag: string, attributes: Attributes)
    requires ValidActive(doc) && doc.blockTag.None? && tag in BLOCK_TAGS
    ensures var next := Step(doc, evidence, StartTag(tag, attributes));
      next.blockTag == Some(tag) && next.blockParts == []
  {
  }

  /** Any other event leaves a document without an open block, and emits no metadata. */
  lemma OutsideBlocks(doc: Document, evidence: Evidence, event: Event)
    requires ValidActive(doc) && doc.blockTag.None? && !(event.StartTag? && event.tag in BLOCK_TAGS)
    ensures Step(doc, evidence, event).blockTag == None && MetadataOf(Emitted(doc, evidence, event)) == []
  {
  }

  /** The milestones of a start tag, some events and an end tag. */
  lemma MilestonesOfElement(doc: Document, evidence: Evidence, tag: string, attributes: Attributes, inside: seq<Event>)
    requires ValidActive(doc)
    ensures var events := [StartTag(tag, attributes)] + inside + [EndTag(tag)];
      var entered := Step(doc, evidence, StartTag(tag, attributes));
      var filled := Feed(entered, evidence, inside);
      && Feed(doc, evidence, events) == Step(filled, evidence, EndTag(tag))
      && Milestones(doc, evidence, events)
         == Milestones(entered, evidence, inside) + Emitted(filled, evidence, EndTag(tag))
  {
    hide Step, Emitted, Feed, Milestones;
    var start, end := StartTag(tag, attributes), EndTag(tag);
    var entered := Step(doc, evidence, start);
    FeedElement(doc, evidence, tag, attributes, inside);
    MilestonesAppend(doc, evidence, [start] + inside, [end]);
    MilestonesAppend(doc, evidence, [start], inside);
    FeedAppend(doc, evidence, [start], inside);
    OneEvent(doc, evidence, start);
    OneEvent(Feed(entered, evidence, inside), evidence, end);
    StartEmitsNothing(doc, evidence, start);
    assert [] + Milestones(entered, evidence, inside) == Milestones(entered, evidence, inside);
  }

  /** A whole block, whatever stands inside: its controls, and then its own text. */
  lemma BlockEmitsItsText(doc: Document, evidence: Evidence, tag: string, attributes: Attributes, inside: seq<Event>)
    requires ValidActive(doc) && doc.blockTag.None? && tag in BLOCK_TAGS && EndTag(tag) !in inside
    ensures var entered := Step(doc, evidence, StartTag(tag, attributes));
      var block, text := [StartTag(tag, attributes)] + inside + [EndTag(tag)], Joined(DataTexts(inside));
      && Feed(doc, evidence, block).blockTag == None
      && MetadataOf(Milestones(entered, evidence, inside)) == []
      && Milestones(doc, evidence, block)
         == Milestones(entered, evidence, inside) + if text != "" && evidence(text) then [Metadata(text)] else []
  {
    hide Step, Emitted, Feed, Milestones, MetadataOf, Joined, DataTexts;
    var entered := Step(doc, evidence, StartTag(tag, attributes));
    BlockOpens(doc, evidence, tag, attributes);
    InsideBlock(entered, evidence, tag, inside);
    assert [] + DataTexts(inside) == DataTexts(inside);
    BlockCloses(Feed(entered, evidence, inside), evidence, tag);
    MilestonesOfElement(doc, evidence, tag, attributes, inside);
  }

  lemma StartEmitsNothing(doc: Document, evidence: Evidence, event: Event)
    ensures !event.EndTag? ==> Emitted(doc, evidence, event) == []
  {
  }

  lemma OneEvent(doc: Document, evidence: Evidence, event: Event)
    requires ValidActive(doc)
    ensures Milestones(doc, evidence, [event]) == Emitted(doc, evidence, event)
    ensures Feed(doc, evidence, [event]) == Step(doc, evidence, event)
  {
    hide Step, Emitted;
    assert [event][1..] == [];
    assert Milestones(Step(doc, evidence, event), evidence, []) == [];
  }

  /** For any events, well nested or not, the release metadata of a page are its text blocks
      that describe a release, each with all its text, in order. */
  lemma {:induction false} MetadataIsTheBlocks(doc: Document, evidence: Evidence, events: seq<Event>)
    requires ValidActive(doc) && doc.blockTag.None?
    ensures MetadataOf(Milestones(doc, evidence, events)) == Described(BlockTexts(events), evidence)
    decreases |events|
  {
    hide Step, Emitted, Joined, DataTexts;
    if events == [] {
    } else if !(events[0].StartTag? && events[0].tag in BLOCK_TAGS) {
      var next := Step(doc, evidence, events[0]);
      OutsideBlocks(doc, evidence, events[0]);
      MetadataIsTheBlocks(next, evidence, events[1..]);
      MetadataAppend(Emitted(doc, evidence, events[0]), Milestones(next, evidence, events[1..]));
    } else {
      var start, rest := events[0], events[1..];
      var n := EndAt(rest, start.tag);
      var entered := Step(doc, evidence, start);
      if n == |rest| {
        BlockOpens(doc, evidence, start.tag, start.attributes);
        assert rest[..n] == rest;
        InsideBlock(entered, evidence, start.tag, rest);
        StartEmitsNothing(doc, evidence, start);
        assert [] + Milestones(entered, evidence, rest) == Milestones(entered, evidence, rest);
      } else {
        assert events == [start] + rest;
        WholeBlock(doc, evidence, start, rest, n);
      }
    }
  }

  lemma {:induction false} WholeBlock(doc: Document, evidence: Evidence, start: Event, rest: seq<Event>, n: nat)
    requires ValidActive(doc) && doc.blockTag.None? && start.StartTag? && start.tag in BLOCK_TAGS
    requires n == EndAt(rest, start.tag) < |rest|
    ensures MetadataOf(Milestones(doc, evidence, [start] + rest)) == Described(BlockTexts([start] + rest), evidence)
    decreases |rest|
  {
    hide Step, Feed, Milestones, MetadataOf, Emitted, Joined, DataTexts, BlockTexts, Described;
    var inside, later := rest[..n], rest[n + 1..];
    var block := [start] + inside + [EndTag(start.tag)];
    var after := Feed(doc, evidence, block);
    var entered := Step(doc, evidence, start);
    var text := Joined(DataTexts(inside));
    assert [start] + rest == block + later;
    BlockEmitsItsText(doc, evidence, start.tag, start.attributes, inside);
    MilestonesAppend(doc, evidence, block, later);
    MetadataIsTheBlocks(after, evidence, later);
    MetadataAppend(Milestones(doc, evidence, block), Milestones(after, evidence, later));
    OwnText(Milestones(entered, evidence, inside), text, evidence);
    FirstBlock(start, rest, n);
    DescribedStep(text, BlockTexts(later), evidence);
  }

  lemma OwnText(inside: seq<Milestone>, text: string, evidence: Evidence)
    requires MetadataOf(inside) == []
    ensures MetadataOf(inside + if text != "" && evidence(text) then [Metadata(text)] else [])
         == Described([text], evidence)
  {
    var own := if text != "" && evidence(text) then [Metadata(text)] else [];
    MetadataAppend(inside, own);
    DescribedStep(text, [], evidence);
    assert own != [] ==> own[1..] == [];
  }

  lemma DescribedStep(text: string, texts: seq<string>, evidence: Evidence)
    ensures Described([text] + texts, evidence) == Described([text], evidence) + Described(texts, evidence)
  {
    assert [text] + [] == [text] && ([text] + texts)[1..] == texts;
  }

  lemma FirstBlock(start: Event, rest: seq<Event>, n: nat)
    requires start.StartTag? && start.tag in BLOCK_TAGS && n == EndAt(rest, start.tag) < |rest|
    ensures BlockTexts([start] + rest) == [Joined(DataTexts(rest[..n]))] + BlockTexts(rest[n + 1..])
  {
    hide EndAt, Joined, DataTexts;
    assert ([start] + rest)[1..] == rest;
  }

  // ----- Milestones of an element tree -----

  predicate NodeHasTag(node: Node, tag: string)
    decreases node
  {
    node.Element? && (node.tag == tag || HasTag(node.children, tag))
  }

  predicate HasTag(nodes: seq<Node>, tag: string)
    decreases nodes
  {
    nodes != [] && (NodeHasTag(nodes[0], tag) || HasTag(nodes[1..], tag))
  }

  /** No heading or paragraph stands inside one of the same name. */
  predicate NodeIsFlat(node: Node)
    decreases node
  {
    node.Element? ==> AreFlat(node.children) && (node.tag in BLOCK_TAGS ==> !HasTag(node.children, node.tag))
  }

  predicate AreFlat(nodes: seq<Node>)
    decreases nodes
  {
    nodes != [] ==> NodeIsFlat(nodes[0]) && AreFlat(nodes[1..])
  }

  /** An element gives what its content gives; then, for an innermost anchor that is a
      download control, that control; or, for an outermost block whose text describes a
      release, that text. */
  function NodeMilestones(node: Node, context: set<string>, inBlock: bool, evidence: Evidence): seq<Milestone>
    decreases node
  {
    if !node.Element? then []
    else
      var inner := context + node.attributes.classes;
      var isBlock := node.tag in BLOCK_TAGS;
      TreeMilestones(node.children, inner, inBlock || isBlock, evidence)
      + OwnMilestones(node, inner, isBlock && !inBlock, evidence)
  }

  function OwnMilestones(node: Node, inner: set<string>, isBlock: bool, evidence: Evidence): seq<Milestone>
    requires node.Element?
  {
    var text := Joined(Texts(node.children));
    if node.tag == "a" && !HasAnchor(node.children) && IsControl(node.attributes.classes) then
      [Control(Link(node.attributes.href, node.attributes.classes, node.attributes.title, text, inner))]
    else if isBlock && text != "" && evidence(text) then [Metadata(text)]
    else []
  }

  function TreeMilestones(nodes: seq<Node>, context: set<string>, inBlock: bool, evidence: Evidence): seq<Milestone>
    decreases nodes
  {
    if nodes == [] then []
    else NodeMilestones(nodes[0], context, inBlock, evidence) + TreeMilestones(nodes[1..], context, inBlock, evidence)
  }

  /** A document whose open block, if any, is one, and has none of the content's elements
      for its own. */
  ghost predicate Ready(doc: Document, nodes: seq<Node>) {
    && ValidActive(doc) && NoVoidOpen(doc)
    && (doc.blockTag.Some? ==> doc.blockTag.value in BLOCK_TAGS && !HasTag(nodes, doc.blockTag.value))
    && AreFlat(nodes) && forall node :: node in nodes ==> WellFormed(node)
  }

  /** How content is read: its milestones, and the block open around it grown by its texts. */
  ghost predicate Gives(doc: Document, evidence: Evidence, events: seq<Event>, milestones: seq<Milestone>,
                        texts: seq<string>)
    requires ValidActive(doc)
  {
    var after := Feed(doc, evidence, events);
    && Milestones(doc, evidence, events) == milestones && after.blockTag == doc.blockTag
    && (doc.blockTag.Some? ==> after.blockParts == doc.blockParts + texts)
  }

  lemma GivesNothing(doc: Document, evidence: Evidence)
    requires ValidActive(doc)
    ensures Gives(doc, evidence, [], [], [])
  {
    assert doc.blockParts + [] == doc.blockParts;
  }

  lemma {:induction false} ForestMilestones(doc: Document, evidence: Evidence, nodes: seq<Node>)
    requires Ready(doc, nodes)
    ensures Gives(doc, evidence, Events(nodes),
                  TreeMilestones(nodes, ContextClasses(doc.contexts), doc.blockTag.Some?, evidence), Texts(nodes))
    decreases nodes, 1
  {
    hide Step, Emitted, Joined, WellFormed;
    if nodes == [] {
      GivesNothing(doc, evidence);
    } else {
      var node, rest, context := nodes[0], nodes[1..], ContextClasses(doc.contexts);
      var inBlock := doc.blockTag.Some?;
      var middle := Feed(doc, evidence, NodeEvents(node));
      ReadsNode(doc, evidence, node);
      ElementMilestones(doc, evidence, node);
      FeedAppend(doc, evidence, NodeEvents(node), Events(rest));
      MilestonesAppend(doc, evidence, NodeEvents(node), Events(rest));
      ForestMilestones(middle, evidence, rest);
      assert (doc.blockParts + NodeTexts(node)) + Texts(rest) == doc.blockParts + (NodeTexts(node) + Texts(rest));
    }
  }

  lemma {:induction false} ElementMilestones(doc: Document, evidence: Evidence, node: Node)
    requires ValidActive(doc) && NoVoidOpen(doc) && WellFormed(node) && NodeIsFlat(node)
    requires doc.blockTag.Some? ==> doc.blockTag.value in BLOCK_TAGS && !NodeHasTag(node, doc.blockTag.value)
    ensures Gives(doc, evidence, NodeEvents(node),
                  NodeMilestones(node, ContextClasses(doc.contexts), doc.blockTag.Some?, evidence), NodeTexts(node))
    decreases node, 0
  {
    hide Joined, IsControl;
    match node
    case Text(text) =>
      OneEvent(doc, evidence, Data(text));
      assert doc.blockParts + [] == doc.blockParts;
    case Void(tag, attributes) =>
      VoidsAreNoBlocks();
      OneEvent(doc, evidence, StartTag(tag, attributes));
      assert doc.blockParts + [] == doc.blockParts;
    case Element(tag, attributes, children) =>
      var start := StartTag(tag, attributes);
      var entered := Step(doc, evidence, start);
      if tag in VOID_TAGS {
        ClosedVoidGivesNothing(doc, evidence, tag, attributes);
      } else {
        EnteredIsReady(doc, evidence, node);
        ForestMilestones(entered, evidence, children);
        ReadsForest(entered, evidence, children);
        FilledElement(doc, evidence, node);
      }
  }

  lemma VoidsAreNoBlocks()
    ensures VOID_TAGS !! BLOCK_TAGS && "a" !in VOID_TAGS
  {
    AnchorsAreNeitherVoidNorBlocks();
    assert |"hr"| == 2 && "hr"[1] == 'r';
    assert forall tag :: tag in BLOCK_TAGS ==> tag == "p" || (|tag| == 2 && IsDigit(tag[1]));
    assert forall tag :: tag in VOID_TAGS ==> |tag| > 1 && !IsDigit(tag[1]);
  }

  predicate IsDigit(c: char) {
    '0' <= c <= '9'
  }

  lemma ClosedVoidGivesNothing(doc: Document, evidence: Evidence, tag: string, attributes: Attributes)
    requires ValidActive(doc) && tag in VOID_TAGS && (doc.blockTag.Some? ==> doc.blockTag.value in BLOCK_TAGS)
    ensures Gives(doc, evidence, [StartTag(tag, attributes)] + [] + [EndTag(tag)], [], [])
  {
    hide Joined, IsControl, ContextClasses, CloseContext;
    VoidsAreNoBlocks();
    var start, end := StartTag(tag, attributes), EndTag(tag);
    var entered := Step(doc, evidence, start);
    FeedElement(doc, evidence, tag, attributes, []);
    assert [start] + [] + [end] == [start] + [end];
    MilestonesAppend(doc, evidence, [start], [end]);
    OneEvent(doc, evidence, start);
    OneEvent(entered, evidence, end);
    assert Emitted(entered, evidence, end) == [];
    assert doc.blockParts + [] == doc.blockParts;
  }

  lemma EnteredIsReady(doc: Document, evidence: Evidence, node: Node)
    requires ValidActive(doc) && NoVoidOpen(doc) && node.Element? && node.tag !in VOID_TAGS
    requires WellFormed(node) && NodeIsFlat(node)
    requires doc.blockTag.Some? ==> doc.blockTag.value in BLOCK_TAGS && !NodeHasTag(node, doc.blockTag.value)
    ensures var entered := Step(doc, evidence, StartTag(node.tag, node.attributes));
      && Ready(entered, node.children)
      && ContextClasses(entered.contexts) == ContextClasses(doc.contexts) + node.attributes.classes
      && entered.blockTag == (if doc.blockTag.None? && node.tag in BLOCK_TAGS then Some(node.tag) else doc.blockTag)
      && entered.blockParts == (if doc.blockTag.None? && node.tag in BLOCK_TAGS then [] else doc.blockParts)
      && (node.tag == "a" ==> entered.open == Some(OpenLink(node.attributes, ContextClasses(entered.contexts), [])))
  {
    var context := Context(node.tag, node.attributes.classes);
    assert (doc.contexts + [context])[..|doc.contexts|] == doc.contexts;
  }

  /** Closing an element whose content was read. */
  lemma FilledElement(doc: Document, evidence: Evidence, node: Node)
    requires ValidActive(doc) && NoVoidOpen(doc) && node.Element? && node.tag !in VOID_TAGS
    requires WellFormed(node) && NodeIsFlat(node)
    requires doc.blockTag.Some? ==> doc.blockTag.value in BLOCK_TAGS && !NodeHasTag(node, doc.blockTag.value)
    requires var entered := Step(doc, evidence, StartTag(node.tag, node.attributes));
      var context := ContextClasses(entered.contexts);
      && Gives(entered, evidence, Events(node.children),
               TreeMilestones(node.children, context, entered.blockTag.Some?, evidence), Texts(node.children))
      && Reads(entered, Feed(entered, evidence, Events(node.children)), Anchors(node.children, context),
               HasAnchor(node.children), Texts(node.children), Classes(node.children))
    ensures Gives(doc, evidence, NodeEvents(node),
                  NodeMilestones(node, ContextClasses(doc.contexts), doc.blockTag.Some?, evidence), NodeTexts(node))
  {
    hide Step, Emitted, Feed, Milestones, TreeMilestones, OwnMilestones, WellFormed, NodeIsFlat, NodeHasTag,
      ContextClasses, Anchors, Classes, Events;
    var entered := Step(doc, evidence, StartTag(node.tag, node.attributes));
    var filled := Feed(entered, evidence, Events(node.children));
    EnteredIsReady(doc, evidence, node);
    MilestonesOfElement(doc, evidence, node.tag, node.attributes, Events(node.children));
    NotItsOwnBlock(doc, node);
    EndGives(doc, evidence, node, filled, ContextClasses(entered.contexts));
  }

  lemma NotItsOwnBlock(doc: Document, node: Node)
    requires node.Element? && (doc.blockTag.Some? ==> !NodeHasTag(node, doc.blockTag.value))
    ensures doc.blockTag.Some? ==> doc.blockTag.value != node.tag
  {
  }

  lemma EndGives(doc: Document, evidence: Evidence, node: Node, filled: Document, inner: set<string>)
    requires ValidActive(filled) && node.Element? && node.tag !in VOID_TAGS
    requires doc.blockTag.Some? ==> doc.blockTag.value in BLOCK_TAGS && doc.blockTag.value != node.tag
    requires var opens := doc.blockTag.None? && node.tag in BLOCK_TAGS;
      && filled.blockTag == (if opens then Some(node.tag) else doc.blockTag)
      && (filled.blockTag.Some? ==> filled.blockParts == (if opens then [] else doc.blockParts) + Texts(node.children))
    requires node.tag == "a" ==>
      filled.open == ExtendOpen(Some(OpenLink(node.attributes, inner, [])), HasAnchor(node.children),
                                Texts(node.children))
    ensures Emitted(filled, evidence, EndTag(node.tag))
         == OwnMilestones(node, inner, doc.blockTag.None? && node.tag in BLOCK_TAGS, evidence)
    ensures var after := Step(filled, evidence, EndTag(node.tag));
      after.blockTag == doc.blockTag
      && (doc.blockTag.Some? ==> after.blockParts == doc.blockParts + Texts(node.children))
  {
    hide Joined, IsControl, Texts, HasAnchor, CloseContext;
    AnchorsAreNeitherVoidNorBlocks();
    assert [] + Texts(node.children) == Texts(node.children);
  }

  /** The milestones of a page are those of its element tree: each download control with its
      own text and context, each outermost block with all the text inside it, in the order
      in which their elements close. */
  lemma ParsingReadsTheMilestones(evidence: Evidence, nodes: seq<Node>)
    requires AreFlat(nodes) && forall node :: node in nodes ==> WellFormed(node)
    ensures Milestones(EMPTY_DOCUMENT, evidence, Events(nodes)) == TreeMilestones(nodes, {}, false, evidence)
    ensures Splits(TreeMilestones(nodes, {}, false, evidence), Feed(EMPTY_DOCUMENT, evidence, Events(nodes)).groups)
  {
    ForestMilestones(EMPTY_DOCUMENT, evidence, nodes);
    GroupsSplitTheMilestones(evidence, Events(nodes));
  }
}
