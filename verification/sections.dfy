/** Splitting a converted markdown document into sections, one per `h2`
    (paste.py:27-32 and 534-541).

    The document is the sequence of top-level siblings of the parsed tree. The
    content of a section is gathered by walking the siblings that follow its
    `h2`: the walk stops at the next `h2` tag or at a sibling that is falsy in
    Python, which for a bare string means an empty one; it keeps every named tag
    except `h1` and skips bare strings. */
module Sections {
  import opened Html

  datatype Node = Tag(block: Block) | Str(text: string)

  predicate IsH2(n: Node) {
    n.Tag? && n.block.name == "h2"
  }

  predicate IsH1(n: Node) {
    n.Tag? && n.block.name == "h1"
  }

  /** The condition that ends the sibling walk at paste.py:538. */
  predicate EndsWalk(n: Node) {
    IsH2(n) || (n.Str? && n.text == "")
  }

  /** The condition under which the walk keeps a sibling (paste.py:539). */
  predicate Collected(n: Node) {
    n.Tag? && n.block.name != "" && n.block.name != "h1"
  }

  predicate NoEmptyStrings(doc: seq<Node>) {
    forall k :: 0 <= k < |doc| ==> doc[k] != Str("")
  }

  /** The blocks of the collected nodes of `nodes`, in order. */
  function Collect(nodes: seq<Node>): (r: seq<Block>)
    ensures |r| <= |nodes|
    ensures forall b :: b in r ==> Tag(b) in nodes && Collected(Tag(b))
    ensures forall n :: n in nodes && Collected(n) ==> n.block in r
    decreases |nodes|
  {
    if |nodes| == 0 then []
    else (if Collected(nodes[0]) then [nodes[0].block] else []) + Collect(nodes[1..])
  }

  lemma {:induction false} CollectAppend(a: seq<Node>, b: seq<Node>)
    ensures Collect(a + b) == Collect(a) + Collect(b)
    decreases |a|
  {
    if |a| == 0 {
      assert a + b == b;
    } else {
      var head := if Collected(a[0]) then [a[0].block] else [];
      assert (a + b)[0] == a[0];
      assert (a + b)[1..] == a[1..] + b;
      CollectAppend(a[1..], b);
      assert Collect(a + b) == head + Collect(a[1..] + b);
      assert Collect(a) == head + Collect(a[1..]);
    }
  }

  /** The kept tags from a kept node at `h` on: that node, those before `e`, and those from `e` on. */
  lemma CollectAround(doc: seq<Node>, h: nat, e: nat)
    requires h < e <= |doc|
    requires Collected(doc[h])
    ensures Collect(doc[h..]) == [doc[h].block] + Collect(doc[h + 1..e]) + Collect(doc[e..])
  {
    assert doc[h..] == [doc[h]] + (doc[h + 1..e] + doc[e..]);
    CollectAppend([doc[h]], doc[h + 1..e] + doc[e..]);
    CollectAppend(doc[h + 1..e], doc[e..]);
    assert Collect([doc[h]]) == [doc[h].block] by {
      assert [doc[h]][1..] == [];
    }
  }

  /** Where the walk that starts at `j` stops: the first sibling from `j` on that ends it. */
  function WalkEnd(doc: seq<Node>, j: nat): (e: nat)
    requires j <= |doc|
    ensures j <= e <= |doc|
    ensures e < |doc| ==> EndsWalk(doc[e])
    ensures forall k :: j <= k < e ==> !EndsWalk(doc[k])
    decreases |doc| - j
  {
    if j == |doc| || EndsWalk(doc[j]) then j else WalkEnd(doc, j + 1)
  }

  /** The sibling walk itself, one sibling per step. It collects exactly the
      kept nodes between `j` and the point where the walk stops. */
  function Walk(doc: seq<Node>, j: nat): (r: seq<Block>)
    requires j <= |doc|
    ensures r == Collect(doc[j..WalkEnd(doc, j)])
    decreases |doc| - j
  {
    if j == |doc| || EndsWalk(doc[j]) then []
    else
      var rest := Walk(doc, j + 1);
      assert doc[j..WalkEnd(doc, j)] == [doc[j]] + doc[j + 1..WalkEnd(doc, j)];
      assert Collect([doc[j]]) == (if Collected(doc[j]) then [doc[j].block] else []);
      CollectAppend([doc[j]], doc[j + 1..WalkEnd(doc, j)]);
      (if Collected(doc[j]) then [doc[j].block] else []) + rest
  }

  /** The content of the section headed by the `h2` at position `h`. */
  function Section(doc: seq<Node>, h: nat): seq<Block>
    requires h < |doc|
  {
    Walk(doc, h + 1)
  }

  /** The positions of the `h2` tags from `j` on, in document order. */
  function HeadingsFrom(doc: seq<Node>, j: nat): (hs: seq<nat>)
    requires j <= |doc|
    ensures forall i :: 0 <= i < |hs| ==> j <= hs[i] < |doc| && IsH2(doc[hs[i]])
    ensures forall i, i' :: 0 <= i < i' < |hs| ==> hs[i] < hs[i']
    ensures forall k :: j <= k < |doc| && IsH2(doc[k]) ==> k in hs
    decreases |doc| - j
  {
    if j == |doc| then []
    else (if IsH2(doc[j]) then [j] else []) + HeadingsFrom(doc, j + 1)
  }

  /** `soup.find_all('h2')` over the top-level siblings. */
  function H2Positions(doc: seq<Node>): seq<nat> {
    HeadingsFrom(doc, 0)
  }

  /** Without empty strings, the walk from the `k`-th `h2` stops exactly at the
      next `h2`, or at the end of the document after the last one. */
  lemma NextHeading(doc: seq<Node>, k: nat)
    requires NoEmptyStrings(doc)
    requires k < |H2Positions(doc)|
    ensures var hs := H2Positions(doc);
            WalkEnd(doc, hs[k] + 1) == if k + 1 < |hs| then hs[k + 1] else |doc|
  {
    var hs := H2Positions(doc);
    var e := WalkEnd(doc, hs[k] + 1);
    if e < |doc| {
      assert IsH2(doc[e]);
      var m :| 0 <= m < |hs| && hs[m] == e;
      assert m > k;
    }
  }

  /** Each `h2` block followed by its section, for the headings from the `k`-th on. */
  function HeadedSections(doc: seq<Node>, hs: seq<nat>, k: nat): seq<Block>
    requires forall i :: 0 <= i < |hs| ==> hs[i] < |doc| && doc[hs[i]].Tag?
    decreases |hs| - k
  {
    if k >= |hs| then []
    else [doc[hs[k]].block] + Section(doc, hs[k]) + HeadedSections(doc, hs, k + 1)
  }

  /** Without empty strings, the sections partition the document from the `k`-th
      `h2` on: every kept tag there is either an `h2` or belongs to the section of
      the closest `h2` before it, and the order is kept. */
  lemma {:induction false} SectionsPartitionFrom(doc: seq<Node>, k: nat)
    requires NoEmptyStrings(doc)
    requires k < |H2Positions(doc)|
    ensures Collect(doc[H2Positions(doc)[k]..]) == HeadedSections(doc, H2Positions(doc), k)
    decreases |H2Positions(doc)| - k
  {
    var hs := H2Positions(doc);
    var h := hs[k];
    var e := if k + 1 < |hs| then hs[k + 1] else |doc|;
    NextHeading(doc, k);
    CollectAround(doc, h, e);
    if k + 1 < |hs| {
      SectionsPartitionFrom(doc, k + 1);
    } else {
      assert doc[e..] == [];
    }
  }

  /** Without empty strings, the tags from the first `h2` on are exactly the
      headings and their sections, in order; siblings before the first `h2` are
      in no section. */
  lemma SectionsPartition(doc: seq<Node>)
    requires NoEmptyStrings(doc)
    requires 0 < |H2Positions(doc)|
    ensures Collect(doc[H2Positions(doc)[0]..]) == HeadedSections(doc, H2Positions(doc), 0)
  {
    SectionsPartitionFrom(doc, 0);
  }
}
