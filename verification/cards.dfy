/** Assembling the card page of `convert_markdown_to_html_cards`
    (paste.py:8-32 and 506-612).

    Every `h2` of the document yields one card, numbered from 0 in document
    order. A card whose section text is longer than the budget shows the
    truncated section and a "See More" button naming a modal; that modal holds
    the whole section. A short section is shown in full, with no button and no
    modal. The CSS, the script and the surrounding page markup are text
    constants and are not part of this model. */
module Cards {
  import opened Wrappers
  import opened Strings
  import opened Html
  import opened Sections
  import Truncate

  /** The title used when the document has no `h1` (paste.py:29). */
  const DefaultTitle: string := "News Analysis"

  /** A card: its `id`, the heading text, the shown content, and the `data-modal`
      value of its "See More" button when it has one. */
  datatype Card = Card(id: string, heading: string, content: seq<Block>, seeMore: Option<string>)

  /** A modal: its `id`, the heading text and the full section content. */
  datatype Modal = Modal(id: string, heading: string, body: seq<Block>)

  /** The rendered page: the title, the cards in the card container, and the
      modals appended to the body. */
  datatype Page = Page(title: string, cards: seq<Card>, modals: seq<Modal>)

  function CardId(k: nat): string {
    "card-" + NatToString(k)
  }

  function ModalId(k: nat): string {
    "modal-" + NatToString(k)
  }

  /** The first `h1` from position `j` on, or -1. */
  function FirstH1From(doc: seq<Node>, j: nat): (r: int)
    requires j <= |doc|
    ensures r == -1 || j <= r < |doc|
    ensures r >= 0 ==> IsH1(doc[r])
    ensures forall k :: j <= k < |doc| && (r < 0 || k < r) ==> !IsH1(doc[k])
    decreases |doc| - j
  {
    if j == |doc| then -1
    else if IsH1(doc[j]) then j
    else FirstH1From(doc, j + 1)
  }

  /** The page title: the text of the first `h1`, or the default title. */
  function Title(doc: seq<Node>): (t: string)
    ensures (forall k :: 0 <= k < |doc| ==> !IsH1(doc[k])) ==> t == DefaultTitle
    ensures forall f :: 0 <= f < |doc| && IsH1(doc[f]) && (forall k :: 0 <= k < f ==> !IsH1(doc[k])) ==>
              t == BlockText(doc[f].block)
  {
    var f := FirstH1From(doc, 0);
    if f < 0 then DefaultTitle else BlockText(doc[f].block)
  }

  /** Heading positions that point at tags of the document. */
  predicate ValidHeadings(doc: seq<Node>, hs: seq<nat>) {
    forall i :: 0 <= i < |hs| ==> hs[i] < |doc| && doc[hs[i]].Tag?
  }

  /** The section's text is longer than the budget (paste.py:548-549). */
  predicate IsLong(doc: seq<Node>, h: nat, limit: int)
    requires h < |doc|
  {
    |TextOf(Section(doc, h))| > limit
  }

  function HeadingText(doc: seq<Node>, h: nat): string
    requires h < |doc| && doc[h].Tag?
  {
    BlockText(doc[h].block)
  }

  /** The card of the `k`-th heading (paste.py:512-606). */
  function CardFor(doc: seq<Node>, hs: seq<nat>, k: nat, limit: int): (c: Card)
    requires ValidHeadings(doc, hs) && k < |hs|
    ensures c.id == CardId(k) && c.heading == HeadingText(doc, hs[k])
    ensures c.seeMore.Some? <==> IsLong(doc, hs[k], limit)
    ensures c.seeMore.Some? ==> c.seeMore.value == ModalId(k)
    ensures c.content ==
              if IsLong(doc, hs[k], limit) then Truncate.TruncateHtml(Section(doc, hs[k]), limit)
              else Section(doc, hs[k])
    ensures forall k': nat :: k' != k ==> c.id != CardId(k')
  {
    CardIdOwn(k);
    var content := Section(doc, hs[k]);
    if IsLong(doc, hs[k], limit) then
      Card(CardId(k), HeadingText(doc, hs[k]), Truncate.TruncateHtml(content, limit), Some(ModalId(k)))
    else
      Card(CardId(k), HeadingText(doc, hs[k]), content, None)
  }

  /** The modal of the `k`-th heading (paste.py:574-599). */
  function ModalFor(doc: seq<Node>, hs: seq<nat>, k: nat): (m: Modal)
    requires ValidHeadings(doc, hs) && k < |hs|
    ensures m.id == ModalId(k) && m.heading == HeadingText(doc, hs[k])
    ensures m.body == Section(doc, hs[k])
    ensures forall k': nat :: k' != k ==> m.id != ModalId(k')
  {
    ModalIdOwn(k);
    Modal(ModalId(k), HeadingText(doc, hs[k]), Section(doc, hs[k]))
  }

  /** Which sections are long, by section number. */
  function LongFlags(doc: seq<Node>, hs: seq<nat>, limit: int): (flags: seq<bool>)
    requires ValidHeadings(doc, hs)
    ensures |flags| == |hs|
    ensures forall k :: 0 <= k < |hs| ==> flags[k] == IsLong(doc, hs[k], limit)
  {
    seq(|hs|, k requires 0 <= k < |hs| => IsLong(doc, hs[k], limit))
  }

  /** The positions, in increasing order, of the set flags among the first `n`. */
  function SetPositions(flags: seq<bool>, n: nat): (ks: seq<nat>)
    requires n <= |flags|
    ensures forall j :: 0 <= j < |ks| ==> ks[j] < n && flags[ks[j]]
    ensures forall j, j' :: 0 <= j < j' < |ks| ==> ks[j] < ks[j']
    ensures forall k :: 0 <= k < n && flags[k] ==> k in ks
    ensures |ks| <= n
    decreases n
  {
    if n == 0 then []
    else SetPositions(flags, n - 1) + (if flags[n - 1] then [n - 1] else [])
  }

  /** The numbers of the long sections, in increasing order. */
  function LongSections(doc: seq<Node>, hs: seq<nat>, limit: int): seq<nat>
    requires ValidHeadings(doc, hs)
  {
    var flags := LongFlags(doc, hs, limit);
    SetPositions(flags, |flags|)
  }

  /** `convert_markdown_to_html_cards` from the parsed document to the page,
      before serialisation. */
  function Render(doc: seq<Node>, limit: int): (page: Page)
    ensures var hs := H2Positions(doc);
            && |page.cards| == |hs|
            && (forall k :: 0 <= k < |hs| ==>
                  && page.cards[k].id == CardId(k)
                  && page.cards[k].heading == HeadingText(doc, hs[k])
                  && (page.cards[k].seeMore.Some? <==> IsLong(doc, hs[k], limit))
                  && (page.cards[k].seeMore.Some? ==> page.cards[k].seeMore.value == ModalId(k)))
    ensures var hs := H2Positions(doc);
            forall k :: 0 <= k < |hs| ==>
              page.cards[k].content ==
                if IsLong(doc, hs[k], limit) then Truncate.TruncateHtml(Section(doc, hs[k]), limit)
                else Section(doc, hs[k])
    ensures |page.modals| <= |page.cards|
    ensures page.title == Title(doc)
  {
    var hs := H2Positions(doc);
    Page(Title(doc), CardsFor(doc, hs, limit), ModalsFor(doc, hs, LongSections(doc, hs, limit)))
  }

  /** One card per heading, in order. */
  function CardsFor(doc: seq<Node>, hs: seq<nat>, limit: int): (cards: seq<Card>)
    requires ValidHeadings(doc, hs)
    ensures |cards| == |hs|
    ensures forall k :: 0 <= k < |hs| ==> cards[k] == CardFor(doc, hs, k, limit)
  {
    seq(|hs|, k requires 0 <= k < |hs| => CardFor(doc, hs, k, limit))
  }

  /** One modal per listed section number, in order. */
  function ModalsFor(doc: seq<Node>, hs: seq<nat>, ks: seq<nat>): (modals: seq<Modal>)
    requires ValidHeadings(doc, hs)
    requires forall j :: 0 <= j < |ks| ==> ks[j] < |hs|
    ensures |modals| == |ks|
    ensures forall j :: 0 <= j < |ks| ==> modals[j] == ModalFor(doc, hs, ks[j])
  {
    seq(|ks|, j requires 0 <= j < |ks| => ModalFor(doc, hs, ks[j]))
  }

  /** Different sections get different card ids. */
  lemma CardIdInjective(k: nat, k': nat)
    requires k != k'
    ensures CardId(k) != CardId(k')
  {
    if CardId(k) == CardId(k') {
      NumberedNameInjective("card-", k, k');
    }
  }

  /** Different sections get different modal ids. */
  lemma ModalIdInjective(k: nat, k': nat)
    requires k != k'
    ensures ModalId(k) != ModalId(k')
  {
    if ModalId(k) == ModalId(k') {
      NumberedNameInjective("modal-", k, k');
    }
  }

  /** The card id of section `k` belongs to no other section. */
  lemma CardIdOwn(k: nat)
    ensures forall k': nat :: k' != k ==> CardId(k) != CardId(k')
  {
    forall k': nat | k' != k
      ensures CardId(k) != CardId(k')
    {
      CardIdInjective(k, k');
    }
  }

  /** The modal id of section `k` belongs to no other section. */
  lemma ModalIdOwn(k: nat)
    ensures forall k': nat :: k' != k ==> ModalId(k) != ModalId(k')
  {
    forall k': nat | k' != k
      ensures ModalId(k) != ModalId(k')
    {
      ModalIdInjective(k, k');
    }
  }

  /** No two cards share an id. */
  lemma CardIdsUnique(doc: seq<Node>, limit: int)
    ensures var cards := Render(doc, limit).cards;
            forall k, k' :: 0 <= k < k' < |cards| ==> cards[k].id != cards[k'].id
  {
    var cards := Render(doc, limit).cards;
    forall k, k' | 0 <= k < k' < |cards|
      ensures cards[k].id != cards[k'].id
    {
      assert cards[k].id == CardId(k) && cards[k'].id == CardId(k');
      CardIdInjective(k, k');
    }
  }

  /** No two modals share an id. */
  lemma ModalIdsUnique(doc: seq<Node>, limit: int)
    ensures var modals := Render(doc, limit).modals;
            forall j, j' :: 0 <= j < j' < |modals| ==> modals[j].id != modals[j'].id
  {
    var hs := H2Positions(doc);
    var longs := LongSections(doc, hs, limit);
    var modals := Render(doc, limit).modals;
    forall j, j' | 0 <= j < j' < |modals|
      ensures modals[j].id != modals[j'].id
    {
      assert modals[j].id == ModalId(longs[j]) && modals[j'].id == ModalId(longs[j']);
      assert longs[j] < longs[j'];
      ModalIdInjective(longs[j], longs[j']);
    }
  }

  /** The button of a long section's card names exactly one modal, and that
      modal has the card's heading and the section's full, untruncated content. */
  lemma SeeMoreResolves(doc: seq<Node>, limit: int, k: nat)
    requires k < |H2Positions(doc)|
    requires IsLong(doc, H2Positions(doc)[k], limit)
    ensures var page := Render(doc, limit);
            var m := page.cards[k].seeMore.value;
            && (exists j :: 0 <= j < |page.modals| && page.modals[j].id == m)
            && (forall j :: 0 <= j < |page.modals| && page.modals[j].id == m ==>
                  && page.modals[j].heading == page.cards[k].heading
                  && page.modals[j].body == Section(doc, H2Positions(doc)[k]))
            && (forall j, j' ::
                  0 <= j < |page.modals| && 0 <= j' < |page.modals| && page.modals[j].id == m && page.modals[j'].id == m
                  ==> j == j')
  {
    var hs := H2Positions(doc);
    var longs := LongSections(doc, hs, limit);
    var page := Render(doc, limit);
    var m := page.cards[k].seeMore.value;
    assert m == ModalId(k);
    assert k in longs;
    var j0 :| 0 <= j0 < |longs| && longs[j0] == k;
    assert page.modals[j0].id == m;
    forall j | 0 <= j < |page.modals| && page.modals[j].id == m
      ensures page.modals[j].heading == page.cards[k].heading
      ensures page.modals[j].body == Section(doc, hs[k])
    {
      NumberedNameInjective("modal-", longs[j], k);
    }
    ModalIdsUnique(doc, limit);
  }

  /** Every modal is named by the button of some card. */
  lemma EveryModalReferenced(doc: seq<Node>, limit: int)
    ensures var page := Render(doc, limit);
            forall j :: 0 <= j < |page.modals| ==>
              exists k :: 0 <= k < |page.cards| && page.cards[k].seeMore == Some(page.modals[j].id)
  {
    var hs := H2Positions(doc);
    var longs := LongSections(doc, hs, limit);
    var page := Render(doc, limit);
    forall j | 0 <= j < |page.modals|
      ensures exists k :: 0 <= k < |page.cards| && page.cards[k].seeMore == Some(page.modals[j].id)
    {
      var k := longs[j];
      assert page.cards[k].seeMore == Some(ModalId(k));
    }
  }

  /** No two cards' buttons name the same modal, so the card that names a modal
      is unique. */
  lemma SeeMoreDistinct(doc: seq<Node>, limit: int)
    ensures var cards := Render(doc, limit).cards;
            forall k, k' :: 0 <= k < k' < |cards| && cards[k].seeMore.Some? ==>
              cards[k].seeMore != cards[k'].seeMore
  {
    var cards := Render(doc, limit).cards;
    forall k, k' | 0 <= k < k' < |cards| && cards[k].seeMore.Some?
      ensures cards[k].seeMore != cards[k'].seeMore
    {
      assert cards[k].seeMore.value == ModalId(k);
      if cards[k'].seeMore.Some? {
        assert cards[k'].seeMore.value == ModalId(k');
        ModalIdInjective(k, k');
      }
    }
  }

  /** With a non-negative budget, no card shows more than the budget plus two "...". */
  lemma CardTextBound(doc: seq<Node>, limit: int, k: nat)
    requires 0 <= limit
    requires k < |H2Positions(doc)|
    ensures |TextOf(Render(doc, limit).cards[k].content)| <= limit + 2 * |Truncate.Ellipsis|
  {
    Truncate.TruncatedLength(Section(doc, H2Positions(doc)[k]), limit);
  }
}
