/**
 * A book as the translator sees it, and what a whole run does to it, stated on
 * values: which items reach the new book, what they hold, which batches are sent
 * to the provider, and what the progress callback receives.
 */
module Epub {
  import opened Wrappers
  import opened TextTranslation
  import opened Paragraphs
  import opened Progress


  type Bytes = seq<bv8>

  /** An item of the book: an HTML document, or anything else (images, styles, navigation). */
  datatype Item = Document(id: string, content: Bytes) | Other(id: string, content: Bytes)

  /** The parts of a book the translator reads and copies. */
  datatype Book = Book(metadata: map<string, seq<string>>, spine: seq<string>, toc: seq<string>, items: seq<Item>)

  /**
   * The HTML library, seen from outside: `parse` gives the texts of the `<p>`
   * elements of a document's body, in document order; `render` gives the
   * serialised document once those paragraphs hold the given texts. `None`
   * stands for the call raising.
   */
  datatype Html = Html(parse: Bytes -> Option<seq<string>>, render: (Bytes, seq<string>) -> Option<Bytes>)

  /**
   * What one item becomes in the new book, or `None` when it is left out. A
   * non-document is kept as it is. A document is left out when its markup
   * cannot be parsed, when it has no paragraph, or when it cannot be written
   * back; otherwise it keeps its id and holds the document with its
   * paragraphs rewritten.
   */
  function ProcessItem(it: Item, html: Html, svc: Service): (r: Option<Item>)
    ensures it.Other? ==> r == Some(it)
    ensures r.Some? ==> r.value.id == it.id && r.value.Document? == it.Document?
    ensures it.Document? && r.Some? ==>
              var parsed := html.parse(it.content);
              parsed.Some? && parsed.value != [] &&
              html.render(it.content, Rewritten(parsed.value, svc)) == Some(r.value.content)
    ensures (it.Document? && html.parse(it.content).Some? && html.parse(it.content).value != [] &&
             html.render(it.content, Rewritten(html.parse(it.content).value, svc)).Some?) ==> r.Some?
  {
    match it
    case Other(_, _) => Some(it)
    case Document(id, content) =>
      match html.parse(content)
      case None => None
      case Some(ps) =>
        if ps == [] then None
        else
          match html.render(content, Rewritten(ps, svc))
          case None => None
          case Some(c) => Some(Document(id, c))
  }

  /** The batches sent while one item is processed: those of a parsed document with paragraphs, none otherwise. */
  function ItemCalls(it: Item, html: Html, size: int): (calls: seq<seq<string>>)
    ensures calls != [] ==> it.Document? && html.parse(it.content).Some?
  {
    if it.Document? && html.parse(it.content).Some? && html.parse(it.content).value != [] then
      Chunks(Queue(html.parse(it.content).value), size)
    else []
  }

  /** The items of the new book, in the order of the original. */
  function Kept(items: seq<Item>, html: Html, svc: Service): (kept: seq<Item>)
    ensures |kept| <= |items|
  {
    if items == [] then []
    else
      var last := ProcessItem(items[|items| - 1], html, svc);
      Kept(items[..|items| - 1], html, svc) + (if last.Some? then [last.value] else [])
  }

  /** The positions, in the original, of the items that reach the new book. */
  function KeptPositions(items: seq<Item>, html: Html, svc: Service): (ks: seq<nat>)
    ensures forall k :: 0 <= k < |ks| ==> ks[k] < |items|
  {
    if items == [] then []
    else
      var n := |items| - 1;
      KeptPositions(items[..n], html, svc) + (if ProcessItem(items[n], html, svc).Some? then [n] else [])
  }

  /** Every batch sent during a run, item after item. */
  function BookCalls(items: seq<Item>, html: Html, size: int): (calls: seq<seq<string>>)
    ensures items == [] ==> calls == []
  {
    if items == [] then []
    else BookCalls(items[..|items| - 1], html, size) + ItemCalls(items[|items| - 1], html, size)
  }

  /** The run over the first `idx + 1` items is the run over the first `idx` followed by item `idx`. */
  lemma BookStep(items: seq<Item>, idx: nat, html: Html, svc: Service, size: int)
    requires idx < |items|
    ensures BookCalls(items[..idx + 1], html, size) == BookCalls(items[..idx], html, size) + ItemCalls(items[idx], html, size)
    ensures Kept(items[..idx + 1], html, svc) ==
              Kept(items[..idx], html, svc) +
              (if ProcessItem(items[idx], html, svc).Some? then [ProcessItem(items[idx], html, svc).value] else [])
  {
    assert items[..idx + 1][..idx] == items[..idx];
  }

  /** The run over all the items, as a prefix, is the run over the items. */
  lemma WholeRun(items: seq<Item>, html: Html, svc: Service, size: int)
    ensures Kept(items[..|items|], html, svc) == Kept(items, html, svc)
    ensures BookCalls(items[..|items|], html, size) == BookCalls(items, html, size)
  {
    assert items[..|items|] == items;
  }

  /**
   * The new book is the original with the left-out items removed: its items
   * are, in order, the processed forms of the items at increasing positions,
   * and an item's position is among them exactly when its processing succeeds.
   */
  lemma {:induction false} KeptSelection(items: seq<Item>, html: Html, svc: Service)
    ensures |KeptPositions(items, html, svc)| == |Kept(items, html, svc)|
    ensures forall a, b :: 0 <= a < b < |KeptPositions(items, html, svc)| ==>
              KeptPositions(items, html, svc)[a] < KeptPositions(items, html, svc)[b]
    ensures forall k :: 0 <= k < |Kept(items, html, svc)| ==>
              ProcessItem(items[KeptPositions(items, html, svc)[k]], html, svc) == Some(Kept(items, html, svc)[k])
    ensures forall i :: 0 <= i < |items| ==>
              (ProcessItem(items[i], html, svc).Some? <==> i in KeptPositions(items, html, svc))
  {
    KeptPositionsIncrease(items, html, svc);
    KeptAtPositions(items, html, svc);
    KeptPositionsComplete(items, html, svc);
  }

  lemma {:induction false} KeptPositionsIncrease(items: seq<Item>, html: Html, svc: Service)
    ensures forall a, b :: 0 <= a < b < |KeptPositions(items, html, svc)| ==>
              KeptPositions(items, html, svc)[a] < KeptPositions(items, html, svc)[b]
  {
    if items != [] {
      var n := |items| - 1;
      KeptPositionsIncrease(items[..n], html, svc);
    }
  }

  lemma {:induction false} KeptAtPositions(items: seq<Item>, html: Html, svc: Service)
    ensures |KeptPositions(items, html, svc)| == |Kept(items, html, svc)|
    ensures forall k :: 0 <= k < |Kept(items, html, svc)| ==>
              ProcessItem(items[KeptPositions(items, html, svc)[k]], html, svc) == Some(Kept(items, html, svc)[k])
  {
    if items != [] {
      var n := |items| - 1;
      var front := items[..n];
      KeptAtPositions(front, html, svc);
      var ks, kept := KeptPositions(items, html, svc), Kept(items, html, svc);
      var m := |Kept(front, html, svc)|;
      forall k | 0 <= k < |kept|
        ensures ProcessItem(items[ks[k]], html, svc) == Some(kept[k])
      {
        if k < m {
          assert ks[k] == KeptPositions(front, html, svc)[k] && kept[k] == Kept(front, html, svc)[k];
          assert items[ks[k]] == front[ks[k]];
        }
      }
    }
  }

  lemma {:induction false} KeptPositionsComplete(items: seq<Item>, html: Html, svc: Service)
    ensures forall i :: 0 <= i < |items| ==>
              (ProcessItem(items[i], html, svc).Some? <==> i in KeptPositions(items, html, svc))
  {
    if items != [] {
      var n := |items| - 1;
      var front := items[..n];
      KeptPositionsComplete(front, html, svc);
      assert forall i :: 0 <= i < n ==> front[i] == items[i];
    }
  }

  /** Every item of the original reaches the new book exactly when none is left out. */
  lemma {:induction false} NothingLeftOut(items: seq<Item>, html: Html, svc: Service)
    ensures |Kept(items, html, svc)| == |items| <==> forall i :: 0 <= i < |items| ==> ProcessItem(items[i], html, svc).Some?
  {
    if items != [] {
      var n := |items| - 1;
      NothingLeftOut(items[..n], html, svc);
      assert forall i :: 0 <= i < n ==> items[..n][i] == items[i];
    }
  }

  /** A book without documents makes no provider call and is copied item for item. */
  lemma {:induction false} NoDocuments(items: seq<Item>, html: Html, svc: Service, size: int)
    requires forall i :: 0 <= i < |items| ==> items[i].Other?
    ensures BookCalls(items, html, size) == []
    ensures Kept(items, html, svc) == items
  {
    if items != [] {
      var n := |items| - 1;
      NoDocuments(items[..n], html, svc, size);
      assert items[..n] + [items[n]] == items;
    }
  }

  /** No text that is empty or all digits is sent during a whole run. */
  lemma {:induction false} BookSendsOnlyEligibleTexts(items: seq<Item>, html: Html, size: int)
    ensures forall c, j :: 0 <= c < |BookCalls(items, html, size)| && 0 <= j < |BookCalls(items, html, size)[c]| ==>
              Eligible(BookCalls(items, html, size)[c][j])
  {
    if items != [] {
      var n := |items| - 1;
      BookSendsOnlyEligibleTexts(items[..n], html, size);
      var it := items[n];
      if it.Document? && html.parse(it.content).Some? {
        OnlyEligibleTextsSent(html.parse(it.content).value, size);
      }
    }
  }

  /**
   * The progress bar ends at 100 exactly when no item was left out: with `m`
   * items added out of `total`, the last value reported is 100 iff `m == total`.
   */
  lemma {:induction false} FullProgressIffNothingLeftOut(items: seq<Item>, html: Html, svc: Service)
    requires Kept(items, html, svc) != []
    ensures Reports(|Kept(items, html, svc)|, |items|)[|Kept(items, html, svc)| - 1] == 100 <==>
              forall i :: 0 <= i < |items| ==> ProcessItem(items[i], html, svc).Some?
  {
    ReportsProperties(|Kept(items, html, svc)|, |items|);
    NothingLeftOut(items, html, svc);
  }

}
