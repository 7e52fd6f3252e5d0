/** `truncate_html_content` (paste.py:636-729): shortening a section's HTML
    fragment to a character budget while keeping its tags.

    The fragment is a sequence of top-level blocks; its text nodes, in document
    order, are `Flatten(blocks)`. The scan picks the first text node at which
    the running character count reaches the budget, cuts that node at a
    sentence end or a word boundary, appends "...", and removes every later
    text node. Blank tags are then dropped and the last paragraph is made to
    end in "...". */
module Truncate {
  import opened Wrappers
  import opened Strings
  import opened Html

  const Ellipsis: string := "..."

  // ---------------------------------------------------------------------
  // Finding the cut node (paste.py:661-670)
  // ---------------------------------------------------------------------

  /** The number of characters in the text nodes before position `j`. */
  function PrefixLen(nodes: seq<string>, j: nat): nat
    requires j <= |nodes|
  {
    |Concat(nodes[..j])|
  }

  lemma PrefixLenStep(nodes: seq<string>, j: nat)
    requires j < |nodes|
    ensures PrefixLen(nodes, j + 1) == PrefixLen(nodes, j) + |nodes[j]|
  {
    assert nodes[..j + 1][..j] == nodes[..j];
  }

  lemma PrefixLenAll(nodes: seq<string>)
    ensures PrefixLen(nodes, |nodes|) == |Concat(nodes)|
  {
    assert nodes[..|nodes|] == nodes;
  }

  /** The text of the nodes before `j` is a prefix of the whole text. */
  lemma ConcatPrefix(nodes: seq<string>, j: nat)
    requires j <= |nodes|
    ensures IsPrefix(Concat(nodes[..j]), Concat(nodes))
  {
    assert nodes == nodes[..j] + nodes[j..];
    ConcatAppend(nodes[..j], nodes[j..]);
    PrefixOfAppend(Concat(nodes[..j]), Concat(nodes[j..]));
  }

  /** The test at paste.py:666: counting node `j` brings the total to the budget. */
  predicate Reaches(nodes: seq<string>, limit: int, j: nat)
    requires j < |nodes|
  {
    PrefixLen(nodes, j) + |nodes[j]| >= limit
  }

  /** The first node from `i` on at which the count reaches the budget. */
  function CutFrom(nodes: seq<string>, limit: int, i: nat): (r: Option<nat>)
    requires i <= |nodes|
    ensures r.Some? ==> i <= r.value < |nodes| && Reaches(nodes, limit, r.value)
    ensures forall j :: i <= j < |nodes| && (r.None? || j < r.value) ==> !Reaches(nodes, limit, j)
    decreases |nodes| - i
  {
    if i == |nodes| then None
    else if Reaches(nodes, limit, i) then Some(i)
    else CutFrom(nodes, limit, i + 1)
  }

  /** The cut node: the first text node at which the count reaches the budget, if any. */
  function CutAt(nodes: seq<string>, limit: int): (r: Option<nat>)
    ensures r.Some? ==> r.value < |nodes| && Reaches(nodes, limit, r.value)
    ensures forall j :: 0 <= j < |nodes| && (r.None? || j < r.value) ==> !Reaches(nodes, limit, j)
  {
    CutFrom(nodes, limit, 0)
  }

  /** The scan loop of paste.py:662-670 with its running count `char_count`:
      it stops at the cut node, and the count is then the number of characters
      before that node (or of all nodes when there is none). */
  method FindCut(nodes: seq<string>, limit: int) returns (index: int, count: int)
    ensures CutAt(nodes, limit) == (if index >= 0 then Some(index) else None)
    ensures index >= 0 ==> count == PrefixLen(nodes, index)
    ensures index < 0 ==> count == |Concat(nodes)|
  {
    count := 0;
    index := -1;
    var i := 0;
    while i < |nodes|
      invariant 0 <= i <= |nodes|
      invariant count == PrefixLen(nodes, i)
      invariant forall j :: 0 <= j < i ==> !Reaches(nodes, limit, j)
    {
      if count + |nodes[i]| >= limit {
        index := i;
        CutAtIsFirstReach(nodes, limit, i);
        return;
      }
      PrefixLenStep(nodes, i);
      count := count + |nodes[i]|;
      i := i + 1;
    }
    PrefixLenAll(nodes);
  }

  /** The first node that reaches the budget is the cut node. */
  lemma CutAtIsFirstReach(nodes: seq<string>, limit: int, i: nat)
    requires i < |nodes| && Reaches(nodes, limit, i)
    requires forall j :: 0 <= j < i ==> !Reaches(nodes, limit, j)
    ensures CutAt(nodes, limit) == Some(i)
  {
  }

  /** A text longer than the budget always has a cut node (unless the budget is
      negative and there is no text node at all). */
  lemma CutFound(nodes: seq<string>, limit: int)
    requires 0 <= limit || 0 < |nodes|
    requires |Concat(nodes)| > limit
    ensures CutAt(nodes, limit).Some?
  {
    if |nodes| > 0 {
      PrefixLenStep(nodes, |nodes| - 1);
      PrefixLenAll(nodes);
      assert Reaches(nodes, limit, |nodes| - 1);
    }
  }

  /** With a positive budget and a longer text, `remaining_chars` (paste.py:675)
      lies between 1 and the budget and within the cut node, so the branch at
      paste.py:706-710 is never taken. */
  lemma RemainingInRange(nodes: seq<string>, limit: int)
    requires 0 < limit < |Concat(nodes)|
    ensures CutAt(nodes, limit).Some?
    ensures var i := CutAt(nodes, limit).value;
            var remaining := limit - PrefixLen(nodes, i);
            1 <= remaining <= limit && remaining <= |nodes[i]|
  {
    CutFound(nodes, limit);
    var i := CutAt(nodes, limit).value;
    if i > 0 {
      PrefixLenStep(nodes, i - 1);
      assert !Reaches(nodes, limit, i - 1);
    }
  }

  /** With a budget of zero or less, the first node is the cut node and nothing
      is left of it: the branch at paste.py:706-710 is taken. */
  lemma NonPositiveLimitCutsFirst(nodes: seq<string>, limit: int)
    requires limit <= 0 < |nodes|
    ensures CutAt(nodes, limit) == Some(0)
    ensures limit - PrefixLen(nodes, 0) <= 0
  {
    assert Reaches(nodes, limit, 0);
  }

  // ---------------------------------------------------------------------
  // Cutting inside the cut node (paste.py:682-697)
  // ---------------------------------------------------------------------

  predicate IsTerminator(c: char) {
    c == '.' || c == '!' || c == '?'
  }

  function Max(a: int, b: int): int {
    if a >= b then a else b
  }

  /** `max(s.rfind('.'), s.rfind('!'), s.rfind('?'))`: the last sentence terminator, or -1. */
  function LastTerminator(s: string): (r: int)
    ensures -1 <= r < |s|
    ensures r >= 0 ==> IsTerminator(s[r])
    ensures forall j :: r < j < |s| ==> !IsTerminator(s[j])
  {
    Max(Max(RFind(s, '.'), RFind(s, '!')), RFind(s, '?'))
  }

  /** Some sentence terminator lies strictly past the middle of `s`. */
  predicate LateTerminator(s: string) {
    exists j :: 0 <= j < |s| && IsTerminator(s[j]) && 2 * j > |s|
  }

  /** Some space lies after the first character of `s`. */
  predicate InnerSpace(s: string) {
    exists j :: 0 < j < |s| && s[j] == ' '
  }

  /** The kept part of the sliced cut node. It is a prefix of the slice: up to and
      including the last sentence terminator when one lies past the middle;
      otherwise everything before the last space when that space is not the
      first character; otherwise the whole slice. */
  function ChooseCut(slice: string): (kept: string)
    ensures IsPrefix(kept, slice)
    ensures LateTerminator(slice) ==>
              && 0 < |kept|
              && IsTerminator(kept[|kept| - 1])
              && forall j :: |kept| <= j < |slice| ==> !IsTerminator(slice[j])
    ensures !LateTerminator(slice) && InnerSpace(slice) ==>
              && 0 < |kept| < |slice|
              && slice[|kept|] == ' '
              && forall j :: |kept| < j < |slice| ==> slice[j] != ' '
    ensures !LateTerminator(slice) && !InnerSpace(slice) ==> kept == slice
  {
    var sentenceEnd := LastTerminator(slice);
    if 2 * sentenceEnd > |slice| then
      slice[..sentenceEnd + 1]
    else
      var lastSpace := RFind(slice, ' ');
      if lastSpace > 0 then slice[..lastSpace] else slice
  }

  // ---------------------------------------------------------------------
  // Replacing the cut node and removing later ones (paste.py:672-710)
  // ---------------------------------------------------------------------

  /** What happens to the text nodes: nothing (no cut node), the cut node and all
      later ones are removed, or the cut node is replaced and later ones removed. */
  datatype Plan = NoCut | Drop(index: nat) | Replace(index: nat, text: string)

  function PlanCut(nodes: seq<string>, limit: int): (p: Plan)
    ensures p.NoCut? <==> CutAt(nodes, limit).None?
    ensures !p.NoCut? ==> CutAt(nodes, limit) == Some(p.index)
    ensures p.Drop? ==> PrefixLen(nodes, p.index) >= limit
    ensures !p.NoCut? ==> (p.Drop? <==> PrefixLen(nodes, p.index) >= limit)
    ensures p.Replace? ==>
              && EndsWith(p.text, Ellipsis)
              && IsPrefix(p.text[..|p.text| - |Ellipsis|], nodes[p.index])
              && PrefixLen(nodes, p.index) + |p.text| - |Ellipsis| <= limit
  {
    match CutAt(nodes, limit)
    case None => NoCut
    case Some(i) =>
      var remaining := limit - PrefixLen(nodes, i);
      if remaining > 0 then
        var kept := ChooseCut(nodes[i][..remaining]);
        PrefixTransitive(kept, nodes[i][..remaining], nodes[i]);
        assert (kept + Ellipsis)[..|kept|] == kept;
        Replace(i, kept + Ellipsis)
      else Drop(i)
  }

  /** The replacement is the part of the cut node that fits in the remaining
      budget, shortened by `ChooseCut`, followed by "...". */
  lemma PlanCutKeeps(nodes: seq<string>, limit: int)
    requires PlanCut(nodes, limit).Replace?
    ensures var p := PlanCut(nodes, limit);
            && 0 < limit - PrefixLen(nodes, p.index) <= |nodes[p.index]|
            && p.text == ChooseCut(nodes[p.index][..limit - PrefixLen(nodes, p.index)]) + Ellipsis
  {
  }

  /** A fragment whose blocks all keep their tag and have no text. */
  function Emptied(blocks: seq<Block>): (r: seq<Block>)
    ensures |r| == |blocks|
    ensures forall k :: 0 <= k < |r| ==> r[k] == Block(blocks[k].name, [])
    ensures Flatten(r) == []
    decreases |blocks|
  {
    if |blocks| == 0 then []
    else
      var rest := Emptied(blocks[1..]);
      assert ([Block(blocks[0].name, [])] + rest)[1..] == rest;
      [Block(blocks[0].name, [])] + rest
  }

  /** The fragment with the text node at flat position `i` replaced by `repl`
      (one node, or none) and every later text node removed. Every tag stays. */
  function CutBlocks(blocks: seq<Block>, i: nat, repl: seq<string>): (r: seq<Block>)
    ensures |r| == |blocks|
    ensures forall k :: 0 <= k < |r| ==> r[k].name == blocks[k].name
    ensures i < |Flatten(blocks)| ==> Flatten(r) == Flatten(blocks)[..i] + repl
    decreases |blocks|
  {
    if |blocks| == 0 then []
    else
      var b := blocks[0];
      if i >= |b.texts| then
        var rest := CutBlocks(blocks[1..], i - |b.texts|, repl);
        assert ([b] + rest)[1..] == rest;
        assert i < |Flatten(blocks)| ==> Flatten(blocks)[..i] == b.texts + Flatten(blocks[1..])[..i - |b.texts|];
        [b] + rest
      else
        var rest := Emptied(blocks[1..]);
        assert ([Block(b.name, b.texts[..i] + repl)] + rest)[1..] == rest;
        assert Flatten(blocks)[..i] == b.texts[..i];
        [Block(b.name, b.texts[..i] + repl)] + rest
  }

  /** Where block `k` of the cut fragment `r` comes from. Its text nodes start at
      flat position `before`. A block wholly before position `i` is unchanged, a
      block wholly after it loses its text, and the block holding the cut node
      keeps the nodes before it followed by `repl`. */
  predicate CutPlaced(blocks: seq<Block>, r: seq<Block>, i: nat, repl: seq<string>, k: nat)
    requires k < |blocks| && |r| == |blocks|
  {
    var before := |Flatten(blocks[..k])|;
    var b := blocks[k];
    && (before + |b.texts| <= i ==> r[k] == b)
    && (i < before ==> r[k] == Block(b.name, []))
    && (before <= i < before + |b.texts| ==> r[k] == Block(b.name, b.texts[..i - before] + repl))
  }

  /** The text nodes before block `k` are those of the first block followed by
      those of blocks 1 to `k - 1`. */
  lemma FlattenPrefixCons(blocks: seq<Block>, k: nat)
    requires 0 < k <= |blocks|
    ensures |Flatten(blocks[..k])| == |blocks[0].texts| + |Flatten(blocks[1..][..k - 1])|
  {
    assert blocks[..k] == [blocks[0]] + blocks[1..][..k - 1];
    FlattenAppend([blocks[0]], blocks[1..][..k - 1]);
    FlattenSingle(blocks[0]);
  }

  /** Block by block, the cut keeps every block before the cut node, empties
      every block after it, and shortens the block holding it. */
  lemma {:induction false} CutBlocksPlaces(blocks: seq<Block>, i: nat, repl: seq<string>)
    ensures var r := CutBlocks(blocks, i, repl);
            forall k :: 0 <= k < |blocks| ==> CutPlaced(blocks, r, i, repl, k)
    decreases |blocks|
  {
    if |blocks| > 0 {
      var b := blocks[0];
      var tail := blocks[1..];
      var r := CutBlocks(blocks, i, repl);
      assert blocks[..0] == [];
      if i >= |b.texts| {
        var i': nat := i - |b.texts|;
        var rest := CutBlocks(tail, i', repl);
        CutBlocksPlaces(tail, i', repl);
        assert |rest| == |tail|;
        assert r == [b] + rest;
        forall k | 0 < k < |blocks|
          ensures CutPlaced(blocks, r, i, repl, k)
        {
          FlattenPrefixCons(blocks, k);
          assert CutPlaced(tail, CutBlocks(tail, i', repl), i', repl, k - 1);
          assert r[k] == rest[k - 1] && blocks[k] == tail[k - 1];
        }
      } else {
        var rest := Emptied(tail);
        assert r == [Block(b.name, b.texts[..i] + repl)] + rest;
        forall k | 0 < k < |blocks|
          ensures CutPlaced(blocks, r, i, repl, k)
        {
          FlattenPrefixCons(blocks, k);
          assert r[k] == rest[k - 1] && blocks[k] == tail[k - 1];
        }
      }
    }
  }

  /** The plan carried out on the fragment (paste.py:700-710): every tag stays,
      and the text nodes become those before the cut node, followed by the
      replacement when there is one. */
  function ApplyPlan(blocks: seq<Block>, p: Plan): (r: seq<Block>)
    ensures |r| == |blocks|
    ensures forall k :: 0 <= k < |r| ==> r[k].name == blocks[k].name
    ensures p.NoCut? ==> r == blocks
    ensures p.Drop? && p.index < |Flatten(blocks)| ==> Flatten(r) == Flatten(blocks)[..p.index]
    ensures p.Replace? && p.index < |Flatten(blocks)| ==> Flatten(r) == Flatten(blocks)[..p.index] + [p.text]
  {
    match p
    case NoCut => blocks
    case Drop(i) => CutBlocks(blocks, i, [])
    case Replace(i, t) => CutBlocks(blocks, i, [t])
  }

  // ---------------------------------------------------------------------
  // Dropping blank tags (paste.py:712-718)
  // ---------------------------------------------------------------------

  /** Python's `str.isspace` for one character. */
  predicate IsSpace(c: char) {
    var n := c as int;
    || 9 <= n <= 13
    || 28 <= n <= 32
    || n == 0x85 || n == 0xA0 || n == 0x1680
    || 0x2000 <= n <= 0x200A
    || n == 0x2028 || n == 0x2029 || n == 0x202F || n == 0x205F || n == 0x3000
  }

  /** `len(tag.get_text(strip=True)) == 0`: every text node is whitespace only. */
  predicate Blank(b: Block) {
    forall t :: t in b.texts ==> forall c :: c in t ==> IsSpace(c)
  }

  /** `str.lstrip()`: the string without its leading whitespace. */
  function StripLeft(s: string): (r: string)
    ensures |r| <= |s| && r == s[|s| - |r|..]
    ensures 0 < |r| ==> !IsSpace(r[0])
    ensures forall j :: 0 <= j < |s| - |r| ==> IsSpace(s[j])
    decreases |s|
  {
    if |s| > 0 && IsSpace(s[0]) then StripLeft(s[1..]) else s
  }

  /** A string strips to nothing exactly when all its characters are whitespace. */
  lemma StripLeftEmpty(s: string)
    ensures StripLeft(s) == [] <==> forall c :: c in s ==> IsSpace(c)
  {
  }

  /** A character of the joined text comes from one of the nodes, and back. */
  lemma {:induction false} ConcatChars(ss: seq<string>, c: char)
    ensures c in Concat(ss) <==> exists j :: 0 <= j < |ss| && c in ss[j]
    decreases |ss|
  {
    if |ss| > 0 {
      var front := ss[..|ss| - 1];
      ConcatChars(front, c);
      assert Concat(ss) == Concat(front) + ss[|ss| - 1];
      if exists j :: 0 <= j < |ss| && c in ss[j] {
        var j :| 0 <= j < |ss| && c in ss[j];
        if j < |ss| - 1 {
          assert front[j] == ss[j];
        }
      }
      if c in Concat(front) {
        var j :| 0 <= j < |front| && c in front[j];
        assert ss[j] == front[j];
      }
    }
  }

  /** The blank test agrees with `len(tag.get_text(strip=True)) == 0`: a block
      is blank exactly when its text strips to nothing. */
  lemma BlankIffStripped(b: Block)
    ensures Blank(b) <==> StripLeft(BlockText(b)) == []
  {
    StripLeftEmpty(BlockText(b));
    forall c
      ensures c in BlockText(b) <==> exists j :: 0 <= j < |b.texts| && c in b.texts[j]
    {
      ConcatChars(b.texts, c);
    }
    if Blank(b) {
      forall c | c in BlockText(b)
        ensures IsSpace(c)
      {
        var j :| 0 <= j < |b.texts| && c in b.texts[j];
        assert b.texts[j] in b.texts;
      }
    } else {
      var t, c :| t in b.texts && c in t && !IsSpace(c);
      var j :| 0 <= j < |b.texts| && b.texts[j] == t;
      assert c in BlockText(b);
    }
  }

  const VoidTags: set<string> := {"br", "hr", "img"}

  predicate HasParagraph(blocks: seq<Block>) {
    exists k :: 0 <= k < |blocks| && blocks[k].name == "p"
  }

  lemma HasParagraphSnoc(blocks: seq<Block>, b: Block)
    ensures HasParagraph(blocks + [b]) == (HasParagraph(blocks) || b.name == "p")
  {
    if HasParagraph(blocks) {
      var k :| 0 <= k < |blocks| && blocks[k].name == "p";
      assert (blocks + [b])[k] == blocks[k];
    }
    if b.name == "p" {
      assert (blocks + [b])[|blocks|].name == "p";
    }
    if HasParagraph(blocks + [b]) {
      var k :| 0 <= k < |blocks + [b]| && (blocks + [b])[k].name == "p";
      if k < |blocks| {
        assert blocks[k].name == "p";
      }
    }
  }

  /** Blocks are visited in order; a blank one is removed unless it is a void tag
      or a paragraph with no paragraph before it among the blocks still there. */
  function Cleanup(blocks: seq<Block>): (r: seq<Block>)
    ensures |r| <= |blocks|
    ensures forall b :: b in r ==> b in blocks
    ensures forall k :: 0 <= k < |blocks| && !Blank(blocks[k]) ==> blocks[k] in r
    ensures HasParagraph(r) == HasParagraph(blocks)
    ensures forall k :: 0 <= k < |r| && Blank(r[k]) ==>
              r[k].name in VoidTags || (r[k].name == "p" && !HasParagraph(r[..k]))
    decreases |blocks|
  {
    if |blocks| == 0 then []
    else
      var front := blocks[..|blocks| - 1];
      var b := blocks[|blocks| - 1];
      var kept := Cleanup(front);
      assert blocks == front + [b];
      HasParagraphSnoc(front, b);
      HasParagraphSnoc(kept, b);
      if Blank(b) && b.name !in VoidTags && !(b.name == "p" && !HasParagraph(kept)) then
        kept
      else
        var r := kept + [b];
        assert forall k :: 0 <= k < |kept| ==> r[..k] == kept[..k];
        assert r[..|kept|] == kept;
        r
  }

  /** Whether the cleanup keeps the block at position `j`: it has text, or it is
      a void tag, or it is a paragraph with no paragraph before it. (The first
      paragraph is always kept, so "no paragraph before it among the blocks
      still there" is the same as "no paragraph before it".) */
  predicate KeptAt(blocks: seq<Block>, j: nat)
    requires j < |blocks|
  {
    !Blank(blocks[j]) || blocks[j].name in VoidTags || (blocks[j].name == "p" && !HasParagraph(blocks[..j]))
  }

  /** The cleanup keeps, in order, exactly the blocks at the positions where
      `KeptAt` holds. */
  lemma {:induction false} CleanupPositions(blocks: seq<Block>) returns (idx: seq<nat>)
    ensures |idx| == |Cleanup(blocks)|
    ensures forall k :: 0 <= k < |idx| ==> idx[k] < |blocks| && Cleanup(blocks)[k] == blocks[idx[k]]
    ensures forall k, k' :: 0 <= k < k' < |idx| ==> idx[k] < idx[k']
    ensures forall j :: 0 <= j < |blocks| ==> (j in idx <==> KeptAt(blocks, j))
    decreases |blocks|
  {
    if |blocks| == 0 {
      idx := [];
    } else {
      var n := |blocks|;
      var front := blocks[..n - 1];
      var b := blocks[n - 1];
      assert blocks == front + [b];
      var fidx := CleanupPositions(front);
      forall j | 0 <= j < n - 1
        ensures KeptAt(blocks, j) == KeptAt(front, j)
      {
        assert blocks[..j] == front[..j];
      }
      assert HasParagraph(Cleanup(front)) == HasParagraph(blocks[..n - 1]);
      if KeptAt(blocks, n - 1) {
        assert Cleanup(blocks) == Cleanup(front) + [b];
        idx := fidx + [n - 1];
      } else {
        assert Cleanup(blocks) == Cleanup(front);
        idx := fidx;
      }
    }
  }

  /** Dropping blocks never lengthens the text. */
  lemma {:induction false} CleanupShortens(blocks: seq<Block>)
    ensures |TextOf(Cleanup(blocks))| <= |TextOf(blocks)|
    decreases |blocks|
  {
    if |blocks| > 0 {
      var front := blocks[..|blocks| - 1];
      var b := blocks[|blocks| - 1];
      assert blocks == front + [b];
      CleanupShortens(front);
      TextOfSnoc(front, b);
      TextOfSnoc(Cleanup(front), b);
    }
  }

  // ---------------------------------------------------------------------
  // The final ellipsis (paste.py:720-727)
  // ---------------------------------------------------------------------

  /** `soup.find_all('p')[-1]`: the position of the last paragraph, or -1. */
  function LastParagraph(blocks: seq<Block>): (r: int)
    ensures -1 <= r < |blocks|
    ensures r >= 0 ==> blocks[r].name == "p"
    ensures forall j :: r < j < |blocks| ==> blocks[j].name != "p"
    decreases |blocks|
  {
    if |blocks| == 0 then -1
    else if blocks[|blocks| - 1].name == "p" then |blocks| - 1
    else LastParagraph(blocks[..|blocks| - 1])
  }

  /** The last paragraph, if any, is empty or ends in "...". */
  predicate EndsProperly(blocks: seq<Block>) {
    var j := LastParagraph(blocks);
    j < 0 || BlockText(blocks[j]) == "" || EndsWith(BlockText(blocks[j]), Ellipsis)
  }

  /** Appends "..." to the text of the last paragraph when that text is not
      empty and does not already end in "..."; the paragraph's text becomes one
      text node. Nothing else changes. */
  function Ending(blocks: seq<Block>): (r: seq<Block>)
    ensures |r| == |blocks|
    ensures forall k :: 0 <= k < |r| ==> r[k].name == blocks[k].name
    ensures LastParagraph(r) == LastParagraph(blocks)
    ensures forall k :: 0 <= k < |r| && k != LastParagraph(blocks) ==> r[k] == blocks[k]
    ensures EndsProperly(r)
    ensures EndsProperly(blocks) ==> r == blocks
    ensures var j := LastParagraph(blocks);
            j >= 0 ==> BlockText(r[j]) in {BlockText(blocks[j]), BlockText(blocks[j]) + Ellipsis}
    ensures var j := LastParagraph(blocks);
            j >= 0 && r[j] != blocks[j] ==> r[j] == Block("p", [BlockText(blocks[j]) + Ellipsis])
  {
    var j := LastParagraph(blocks);
    if j < 0 then blocks
    else
      var t := BlockText(blocks[j]);
      if !EndsWith(t, Ellipsis) && t != "" then
        ConcatSingle(t + Ellipsis);
        assert (t + Ellipsis)[|t + Ellipsis| - |Ellipsis|..] == Ellipsis;
        blocks[j := Block("p", [t + Ellipsis])]
      else blocks
  }

  /** Applying the ending rule twice is the same as applying it once. */
  lemma EndingIdempotent(blocks: seq<Block>)
    ensures Ending(Ending(blocks)) == Ending(blocks)
  {
  }

  /** The ending rule adds at most one "..." to the text. */
  lemma EndingLength(blocks: seq<Block>)
    ensures |TextOf(Ending(blocks))| <= |TextOf(blocks)| + |Ellipsis|
    ensures TextOf(blocks) == "" ==> Ending(blocks) == blocks
  {
    var j := LastParagraph(blocks);
    if j >= 0 {
      var r := Ending(blocks);
      TextOfSplit(blocks, j);
      TextOfSplit(r, j);
      assert r[..j] == blocks[..j];
      assert r[j + 1..] == blocks[j + 1..];
    }
  }

  // ---------------------------------------------------------------------
  // The whole operation
  // ---------------------------------------------------------------------

  /** `truncate_html_content(soup, char_limit)` on the fragment `blocks`. */
  function TruncateHtml(blocks: seq<Block>, limit: int): (r: seq<Block>)
    ensures |TextOf(blocks)| <= limit ==> r == blocks
    ensures |r| <= |blocks|
    ensures HasParagraph(r) == HasParagraph(blocks)
    ensures |TextOf(blocks)| > limit ==> EndsProperly(r)
  {
    if |TextOf(blocks)| <= limit then blocks
    else Ending(Cleanup(ApplyPlan(blocks, PlanCut(Flatten(blocks), limit))))
  }

  /** With a positive budget and a longer text, the cut node is replaced, never dropped. */
  lemma PositiveLimitReplaces(nodes: seq<string>, limit: int)
    requires 0 < limit < |Concat(nodes)|
    ensures PlanCut(nodes, limit).Replace?
  {
    RemainingInRange(nodes, limit);
  }

  /** Replacing the text node at `i` by `t` keeps the text before it and ends in `t`. */
  lemma ReplacedText(blocks: seq<Block>, i: nat, t: string)
    requires i < |Flatten(blocks)|
    ensures TextOf(ApplyPlan(blocks, Replace(i, t))) == Concat(Flatten(blocks)[..i]) + t
  {
    assert ApplyPlan(blocks, Replace(i, t)) == CutBlocks(blocks, i, [t]);
    ConcatAppend(Flatten(blocks)[..i], [t]);
    ConcatSingle(t);
  }

  /** The text up to and including node `i`. */
  lemma ConcatUpTo(nodes: seq<string>, i: nat)
    requires i < |nodes|
    ensures Concat(nodes[..i + 1]) == Concat(nodes[..i]) + nodes[i]
  {
    assert nodes[..i + 1] == nodes[..i] + [nodes[i]];
    ConcatAppend(nodes[..i], [nodes[i]]);
    ConcatSingle(nodes[i]);
  }

  /** The text before node `i` followed by a prefix of node `i` is a prefix of the whole text. */
  lemma KeptIsPrefix(nodes: seq<string>, i: nat, kept: string)
    requires i < |nodes|
    requires IsPrefix(kept, nodes[i])
    ensures IsPrefix(Concat(nodes[..i]) + kept, Concat(nodes))
  {
    var before := Concat(nodes[..i]);
    var upto := Concat(nodes[..i + 1]);
    ConcatUpTo(nodes, i);
    PrefixUnderAppend(before, kept, nodes[i]);
    ConcatPrefix(nodes, i + 1);
    PrefixTransitive(before + kept, upto, Concat(nodes));
  }

  lemma WithEllipsis(s: string)
    ensures EndsWith(s + Ellipsis, Ellipsis)
    ensures (s + Ellipsis)[..|s + Ellipsis| - |Ellipsis|] == s
  {
    assert (s + Ellipsis)[|s|..] == Ellipsis;
  }

  /** The text after the cut, split into the kept part and the "...". */
  lemma CutStageSplit(blocks: seq<Block>, limit: int) returns (s: string)
    requires 0 < limit < |TextOf(blocks)|
    ensures TextOf(ApplyPlan(blocks, PlanCut(Flatten(blocks), limit))) == s + Ellipsis
    ensures |s| <= limit
    ensures IsPrefix(s, TextOf(blocks))
  {
    var nodes := Flatten(blocks);
    var i, kept := ReplacePlan(nodes, limit);
    var before := Concat(nodes[..i]);
    s := before + kept;
    ReplacedText(blocks, i, kept + Ellipsis);
    assert before + (kept + Ellipsis) == s + Ellipsis;
    assert IsPrefix(s, TextOf(blocks)) by {
      KeptIsPrefix(nodes, i, kept);
    }
  }

  /** With a positive budget below the text length, the plan replaces some node
      `i` by a prefix of it, within the budget, followed by "...". */
  lemma ReplacePlan(nodes: seq<string>, limit: int) returns (i: nat, kept: string)
    requires 0 < limit < |Concat(nodes)|
    ensures i < |nodes|
    ensures PlanCut(nodes, limit) == Replace(i, kept + Ellipsis)
    ensures IsPrefix(kept, nodes[i])
    ensures |Concat(nodes[..i])| + |kept| <= limit
  {
    PositiveLimitReplaces(nodes, limit);
    var p := PlanCut(nodes, limit);
    i := p.index;
    kept := p.text[..|p.text| - |Ellipsis|];
    assert p.text == kept + Ellipsis;
  }

  /** Before the blank tags go, the cut leaves a prefix of the original text of at
      most the budget, followed by "...". */
  lemma CutStageText(blocks: seq<Block>, limit: int)
    requires 0 < limit < |TextOf(blocks)|
    ensures var t := TextOf(ApplyPlan(blocks, PlanCut(Flatten(blocks), limit)));
            && EndsWith(t, Ellipsis)
            && |t| <= limit + |Ellipsis|
            && IsPrefix(t[..|t| - |Ellipsis|], TextOf(blocks))
  {
    var s := CutStageSplit(blocks, limit);
    WithEllipsis(s);
  }

  /** With a non-negative budget, the card text is at most the budget plus two
      ellipses: one from the cut, one from the ending rule when the last
      paragraph comes before the cut node. */
  lemma TruncatedLength(blocks: seq<Block>, limit: int)
    requires 0 <= limit
    ensures |TextOf(TruncateHtml(blocks, limit))| <= limit + 2 * |Ellipsis|
  {
    if |TextOf(blocks)| > limit {
      var nodes := Flatten(blocks);
      var cut := ApplyPlan(blocks, PlanCut(nodes, limit));
      if limit > 0 {
        CutStageText(blocks, limit);
      } else {
        NonPositiveLimitCutsFirst(nodes, limit);
      }
      assert |TextOf(cut)| <= limit + |Ellipsis|;
      CleanupShortens(cut);
      EndingLength(Cleanup(cut));
    }
  }

  /** With a budget of zero or less, a longer fragment loses all its text. */
  lemma NonPositiveLimitEmpties(blocks: seq<Block>, limit: int)
    requires limit <= 0
    requires |TextOf(blocks)| > limit
    ensures TextOf(TruncateHtml(blocks, limit)) == ""
  {
    var nodes := Flatten(blocks);
    var cut := ApplyPlan(blocks, PlanCut(nodes, limit));
    if |nodes| > 0 {
      NonPositiveLimitCutsFirst(nodes, limit);
      assert Flatten(cut) == [];
    } else {
      assert cut == blocks;
    }
    assert TextOf(cut) == "";
    CleanupShortens(cut);
    EndingLength(Cleanup(cut));
  }

  /** The bound of `TruncatedLength` is reached: when the last paragraph comes
      before the block holding the cut node, the card text carries two "...". */
  lemma TwoEllipses()
    ensures var blocks := [Block("p", ["abc"]), Block("ul", ["defghijklmnop"])];
            && TruncateHtml(blocks, 10) == [Block("p", ["abc..."]), Block("ul", ["defghij..."])]
            && |TextOf(TruncateHtml(blocks, 10))| == 10 + 2 * |Ellipsis|
  {
    var cut := [Block("p", ["abc"]), Block("ul", ["defghij..."])];
    TwoEllipsesCut();
    TwoEllipsesCleanup();
    TwoEllipsesEnding();
    assert Cleanup(cut) == cut;
  }

  lemma TwoEllipsesCut()
    ensures var blocks := [Block("p", ["abc"]), Block("ul", ["defghijklmnop"])];
            && |TextOf(blocks)| == 16
            && ApplyPlan(blocks, PlanCut(Flatten(blocks), 10)) == [Block("p", ["abc"]), Block("ul", ["defghij..."])]
  {
    var blocks := [Block("p", ["abc"]), Block("ul", ["defghijklmnop"])];
    var nodes := ["abc", "defghijklmnop"];
    TwoEllipsesNodes();
    TwoEllipsesPlan();
    var ul := Block("ul", ["defghij..."]);
    assert blocks[1..] == [blocks[1]];
    assert [blocks[1]][1..] == [];
    assert blocks[1].texts[..0] + ["defghij..."] == ul.texts;
    assert CutBlocks([blocks[1]], 0, ["defghij..."]) == [ul];
  }

  lemma TwoEllipsesNodes()
    ensures var blocks := [Block("p", ["abc"]), Block("ul", ["defghijklmnop"])];
            && Flatten(blocks) == ["abc", "defghijklmnop"]
            && |TextOf(blocks)| == 16
  {
    var b0, b1 := Block("p", ["abc"]), Block("ul", ["defghijklmnop"]);
    var blocks := [b0, b1];
    var nodes := ["abc", "defghijklmnop"];
    assert Flatten(blocks) == nodes by {
      assert blocks == [b0] + [b1];
      FlattenAppend([b0], [b1]);
      FlattenSingle(b0);
      FlattenSingle(b1);
      assert ["abc"] + ["defghijklmnop"] == nodes;
    }
    assert |Concat(nodes)| == 16 by {
      assert nodes == ["abc"] + ["defghijklmnop"];
      ConcatAppend(["abc"], ["defghijklmnop"]);
      ConcatSingle("abc");
      ConcatSingle("defghijklmnop");
    }
  }

  lemma TwoEllipsesPlan()
    ensures PlanCut(["abc", "defghijklmnop"], 10) == Replace(1, "defghij...")
  {
    var nodes := ["abc", "defghijklmnop"];
    assert PrefixLen(nodes, 1) == 3 by {
      assert nodes[..1] == ["abc"];
      ConcatSingle("abc");
    }
    assert !Reaches(nodes, 10, 0);
    CutAtIsFirstReach(nodes, 10, 1);
    var slice := "defghij";
    assert nodes[1][..7] == slice;
    assert LastTerminator(slice) == -1;
    assert RFind(slice, ' ') == -1;
  }

  /** A fragment without blank blocks is left alone by the cleanup. */
  lemma {:induction false} CleanupKeepsNonBlank(blocks: seq<Block>)
    requires forall k :: 0 <= k < |blocks| ==> !Blank(blocks[k])
    ensures Cleanup(blocks) == blocks
    decreases |blocks|
  {
    if |blocks| > 0 {
      CleanupKeepsNonBlank(blocks[..|blocks| - 1]);
      assert blocks[..|blocks| - 1] + [blocks[|blocks| - 1]] == blocks;
    }
  }

  lemma TwoEllipsesCleanup()
    ensures var cut := [Block("p", ["abc"]), Block("ul", ["defghij..."])];
            Cleanup(cut) == cut
  {
    var p := Block("p", ["abc"]);
    var ul := Block("ul", ["defghij..."]);
    assert "abc" in p.texts && 'a' in "abc" && !IsSpace('a');
    assert "defghij..." in ul.texts && 'd' in "defghij..." && !IsSpace('d');
    CleanupKeepsNonBlank([p, ul]);
  }

  lemma TwoEllipsesEnding()
    ensures var cut := [Block("p", ["abc"]), Block("ul", ["defghij..."])];
            && Ending(cut) == [Block("p", ["abc..."]), Block("ul", ["defghij..."])]
            && |TextOf(Ending(cut))| == 16
  {
    var p := Block("p", ["abc"]);
    var ul := Block("ul", ["defghij..."]);
    var cut := [p, ul];
    assert LastParagraph(cut) == 0;
    ConcatSingle("abc");
    assert BlockText(p) == "abc";
    assert !EndsWith("abc", Ellipsis) && "abc" != "";
    assert Ending(cut) == cut[0 := Block("p", [BlockText(p) + Ellipsis])];
    assert BlockText(p) + Ellipsis == "abc...";
    assert cut[0 := Block("p", ["abc..."])] == [Block("p", ["abc..."]), ul];
    TextOfSplit([Block("p", ["abc..."]), ul], 0);
    ConcatSingle("abc...");
    ConcatSingle("defghij...");
    assert [Block("p", ["abc..."]), ul][1..] == [ul];
    TextOfSnoc([], ul);
    assert [] + [ul] == [ul];
  }
}
