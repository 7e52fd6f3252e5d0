/** The abstract view of a parsed HTML fragment that the card renderer works on.

    A `Block` is one tag together with the text nodes of its whole subtree, in
    document order (what BeautifulSoup's `find_all(string=True)` visits below it);
    its plain text is their concatenation (what `get_text()` returns). A fragment
    is a sequence of top-level blocks. */
module Html {

  datatype Block = Block(name: string, texts: seq<string>)

  /** `''.join(ss)`. */
  function Concat(ss: seq<string>): string
    decreases |ss|
  {
    if |ss| == 0 then "" else Concat(ss[..|ss| - 1]) + ss[|ss| - 1]
  }

  /** The text nodes of a fragment, block after block. */
  function Flatten(blocks: seq<Block>): seq<string>
    decreases |blocks|
  {
    if |blocks| == 0 then [] else blocks[0].texts + Flatten(blocks[1..])
  }

  /** The plain text of one block. */
  function BlockText(b: Block): string {
    Concat(b.texts)
  }

  /** The plain text of a fragment. */
  function TextOf(blocks: seq<Block>): string {
    Concat(Flatten(blocks))
  }

  lemma {:induction false} ConcatAppend(a: seq<string>, b: seq<string>)
    ensures Concat(a + b) == Concat(a) + Concat(b)
    decreases |b|
  {
    if |b| == 0 {
      assert a + b == a;
    } else {
      assert (a + b)[..|a + b| - 1] == a + b[..|b| - 1];
      ConcatAppend(a, b[..|b| - 1]);
    }
  }

  lemma ConcatSingle(s: string)
    ensures Concat([s]) == s
  {
    assert [s][..0] == [];
  }

  lemma {:induction false} FlattenAppend(a: seq<Block>, b: seq<Block>)
    ensures Flatten(a + b) == Flatten(a) + Flatten(b)
    decreases |a|
  {
    if |a| == 0 {
      assert a + b == b;
    } else {
      assert (a + b)[1..] == a[1..] + b;
      FlattenAppend(a[1..], b);
    }
  }

  lemma FlattenSingle(b: Block)
    ensures Flatten([b]) == b.texts
  {
    assert [b][1..] == [];
  }

  /** The text of a fragment splits around any one of its blocks. */
  lemma TextOfSplit(blocks: seq<Block>, j: nat)
    requires j < |blocks|
    ensures TextOf(blocks) == TextOf(blocks[..j]) + BlockText(blocks[j]) + TextOf(blocks[j + 1..])
  {
    assert blocks == blocks[..j] + [blocks[j]] + blocks[j + 1..];
    FlattenAppend(blocks[..j] + [blocks[j]], blocks[j + 1..]);
    FlattenAppend(blocks[..j], [blocks[j]]);
    FlattenSingle(blocks[j]);
    ConcatAppend(Flatten(blocks[..j]) + blocks[j].texts, Flatten(blocks[j + 1..]));
    ConcatAppend(Flatten(blocks[..j]), blocks[j].texts);
  }

  /** Appending a block appends its text. */
  lemma TextOfSnoc(blocks: seq<Block>, b: Block)
    ensures TextOf(blocks + [b]) == TextOf(blocks) + BlockText(b)
  {
    FlattenAppend(blocks, [b]);
    FlattenSingle(b);
    ConcatAppend(Flatten(blocks), b.texts);
  }
}
