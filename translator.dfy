/**
 * The book translator: an object holding the batch size, the language pair,
 * the optional progress callback, the book it last read and that book's name.
 * `TranslateBook` walks the items of a book, sends the paragraph texts of each
 * document to the provider in batches and writes each result back into its
 * paragraph, then names the output file.
 */
module Translator {
  import opened Wrappers
  import opened TextTranslation
  import opened Paragraphs
  import opened Progress
  import opened OutputNaming
  import opened Epub

  class BookTranslator {
    /** Texts per provider batch; a value below 1 is never reached, so each document is sent in one batch. */
    const batchSize: int
    /** The provider with the source and destination language codes. */
    const service: Service
    /** Whether a progress callback was given. */
    const reportsProgress: bool

    var originBook: Option<Book>
    var epubName: Option<string>

    /** The pending batch: positions of the queued paragraphs in the current document, and their texts. */
    var batchP: seq<nat>
    var batchOriginalTexts: seq<string>
    var batchCount: int

    /** Every batch handed to the provider so far, in order. */
    ghost var calls: seq<seq<string>>
    /** Every value handed to the progress callback so far, in order. */
    ghost var reports: seq<int>

    /** The three batch fields describe the same pending batch. */
    ghost predicate Valid()
      reads this
    {
      batchCount == |batchP| == |batchOriginalTexts|
    }

    /** No batch is pending: this holds whenever an item starts and once a document is done. */
    ghost predicate Idle()
      reads this
    {
      batchP == [] && batchOriginalTexts == [] && batchCount == 0
    }

    constructor (batchSize: int, reportsProgress: bool, service: Service)
      ensures this.batchSize == batchSize && this.reportsProgress == reportsProgress && this.service == service
      ensures originBook == None && epubName == None
      ensures Idle() && calls == [] && reports == []
    {
      this.batchSize := batchSize;
      this.reportsProgress := reportsProgress;
      this.service := service;
      originBook := None;
      epubName := None;
      batchP := [];
      batchOriginalTexts := [];
      batchCount := 0;
      calls := [];
      reports := [];
    }

    /**
     * One provider call per text, in order: the i-th result is the provider's
     * translation of the i-th text, or that text itself when the call raised.
     */
    method TranslateText(texts: seq<string>) returns (translations: seq<string>)
      ensures |translations| == |texts|
      ensures forall i :: 0 <= i < |texts| && service.provider(texts[i], service.srcLang, service.destLang).Some? ==>
                translations[i] == service.provider(texts[i], service.srcLang, service.destLang).value
      ensures forall i :: 0 <= i < |texts| && service.provider(texts[i], service.srcLang, service.destLang).None? ==>
                translations[i] == texts[i]
    {
      translations := [];
      for k := 0 to |texts|
        invariant |translations| == k
        invariant forall i :: 0 <= i < k ==> translations[i] == service.Translate(texts[i])
      {
        var result := service.provider(texts[k], service.srcLang, service.destLang);
        if result.Some? {
          translations := translations + [result.value];
        } else {
          translations := translations + [texts[k]];
        }
      }
    }

    /**
     * Sends the pending batch and writes each result into its paragraph. `ps`
     * are the paragraph texts as the document was read; the batch holds texts
     * of some of them. Afterwards no batch is pending, the batch is logged as
     * one call, each batched paragraph holds the translation of its text and
     * every other paragraph is as it was.
     */
    method Flush(doc: array<string>, ghost ps: seq<string>)
      requires Valid() && |ps| == doc.Length
      requires forall m :: 0 <= m < |batchP| ==> batchP[m] < doc.Length && batchOriginalTexts[m] == ps[batchP[m]]
      modifies this`batchP, this`batchOriginalTexts, this`batchCount, this`calls, doc
      ensures Idle()
      ensures calls == old(calls) + [old(batchOriginalTexts)]
      ensures forall j :: 0 <= j < doc.Length ==>
                doc[j] == if j in old(batchP) then service.Translate(ps[j]) else old(doc[j])
    {
      var positions := batchP;
      var texts := batchOriginalTexts;
      var translatedBatch := TranslateText(texts);
      for m := 0 to |positions|
        modifies doc
        invariant forall j :: 0 <= j < doc.Length ==>
                    doc[j] == if j in positions[..m] then service.Translate(ps[j]) else old(doc[j])
      {
        assert positions[..m + 1] == positions[..m] + [positions[m]];
        doc[positions[m]] := translatedBatch[m];
      }
      assert positions[..|positions|] == positions;
      calls := calls + [texts];
      batchP := [];
      batchOriginalTexts := [];
      batchCount := 0;
    }

    /**
     * A flush in the middle of a document, stated against the document's state
     * so far: the pending batch is logged as the next group of the queue cut into
     * batches, and the paragraphs it covered now hold their translations.
     */
    method FlushPending(doc: array<string>, ghost ps: seq<string>, ghost k: nat, ghost sent: seq<string>)
      returns (ghost sent': seq<string>)
      requires Valid() && batchP != [] && k <= doc.Length && |ps| == doc.Length
      requires PendingOk(ps, k, batchP, batchOriginalTexts)
      requires doc[..] == Pending(ps, k, batchP, service)
      requires batchSize >= 1 ==> AllFull(Chunks(sent, batchSize), batchSize) && batchCount <= batchSize
      requires batchSize < 1 ==> sent == []
      modifies this`batchP, this`batchOriginalTexts, this`batchCount, this`calls, doc
      ensures Idle() && sent' == sent + old(batchOriginalTexts)
      ensures doc[..] == Pending(ps, k, [], service)
      ensures calls == old(calls) + [old(batchOriginalTexts)]
      ensures Chunks(sent', batchSize) == Chunks(sent, batchSize) + [old(batchOriginalTexts)]
      ensures batchSize >= 1 && old(batchCount) == batchSize ==> AllFull(Chunks(sent', batchSize), batchSize)
    {
      ghost var before := doc[..];
      ghost var pending := batchP;
      ghost var batch := batchOriginalTexts;
      ChunksSnoc(sent, batch, batchSize);
      Flush(doc, ps);
      PendingFlushed(ps, k, pending, before, doc[..], service);
      sent' := sent + batch;
    }

    /**
     * The state of the paragraph loop of a document after its first `k`
     * paragraphs, with `ps` the texts as read, `sent` the texts already sent and
     * `base` the calls made before the document: the pending batch holds the
     * rest of the queue so far, the calls made are the sent texts cut into full
     * batches, and the document holds `Pending`. The pending batch may be full.
     */
    ghost predicate Queued(doc: array<string>, ps: seq<string>, k: nat, sent: seq<string>, base: seq<seq<string>>)
      reads this, doc
    {
      k <= doc.Length == |ps| && Valid() &&
      PendingOk(ps, k, batchP, batchOriginalTexts) &&
      doc[..] == Pending(ps, k, batchP, service) &&
      sent + batchOriginalTexts == QueueIn(ps, k) &&
      calls == base + Chunks(sent, batchSize) &&
      (batchSize >= 1 ==> AllFull(Chunks(sent, batchSize), batchSize) && batchCount <= batchSize) &&
      (batchSize < 1 ==> sent == [])
    }

    /** The state between two turns of the paragraph loop: no full batch is left pending. */
    ghost predicate Visited(doc: array<string>, ps: seq<string>, k: nat, sent: seq<string>, base: seq<seq<string>>)
      reads this, doc
    {
      Queued(doc, ps, k, sent, base) && (batchSize >= 1 ==> batchCount < batchSize)
    }

    /** One turn of the paragraph loop: paragraph `k` is queued if eligible, and a full batch is sent. */
    method VisitParagraph(doc: array<string>, ghost ps: seq<string>, k: nat, ghost sent: seq<string>, ghost base: seq<seq<string>>)
      returns (ghost sent': seq<string>)
      requires k < doc.Length && Visited(doc, ps, k, sent, base)
      modifies this`batchP, this`batchOriginalTexts, this`batchCount, this`calls, doc
      ensures Visited(doc, ps, k + 1, sent', base)
    {
      sent' := sent;
      assert doc[k] == doc[..][k];
      var text := doc[k];
      if Eligible(text) {
        Enqueue(doc, ps, k, sent, base);
        if batchCount == batchSize {
          sent' := FlushFull(doc, ps, k + 1, sent, base);
        }
      } else {
        Skipped(ps, k, batchP, batchOriginalTexts, sent, service);
      }
    }

    /** A batch that has just become full is sent at once. */
    method FlushFull(doc: array<string>, ghost ps: seq<string>, ghost k: nat, ghost sent: seq<string>, ghost base: seq<seq<string>>)
      returns (ghost sent': seq<string>)
      requires Queued(doc, ps, k, sent, base) && batchP != [] && batchCount == batchSize
      modifies this`batchP, this`batchOriginalTexts, this`batchCount, this`calls, doc
      ensures Visited(doc, ps, k, sent', base)
    {
      ghost var batch := batchOriginalTexts;
      sent' := FlushPending(doc, ps, k, sent);
      AppendAssoc(base, Chunks(sent, batchSize), [batch]);
      assert sent' + batchOriginalTexts == sent';
    }

    /** Queues eligible paragraph `k` in the pending batch. */
    method Enqueue(doc: array<string>, ghost ps: seq<string>, k: nat, ghost sent: seq<string>, ghost base: seq<seq<string>>)
      requires k < doc.Length && Visited(doc, ps, k, sent, base) && Eligible(ps[k])
      modifies this`batchP, this`batchOriginalTexts, this`batchCount
      ensures Queued(doc, ps, k + 1, sent, base)
      ensures batchP == old(batchP) + [k] && batchOriginalTexts == old(batchOriginalTexts) + [ps[k]]
      ensures batchCount == old(batchCount) + 1
    {
      assert doc[k] == doc[..][k];
      Enqueued(ps, k, batchP, batchOriginalTexts, sent, service);
      batchP := batchP + [k];
      batchOriginalTexts := batchOriginalTexts + [doc[k]];
      batchCount := batchCount + 1;
    }

    /**
     * Translates the paragraphs of one document in place. Each paragraph whose
     * text is non-empty and not all digits is queued; a full batch is sent at
     * once, and what is left is sent when the document ends. Afterwards every
     * queued paragraph holds the translation of its text, every other one is
     * unchanged, and the batches sent are the document's queue cut into runs of
     * `batchSize`.
     */
    method TranslateDocument(doc: array<string>)
      requires Idle()
      modifies this`batchP, this`batchOriginalTexts, this`batchCount, this`calls, doc
      ensures Idle()
      ensures doc[..] == Rewritten(old(doc[..]), service)
      ensures calls == old(calls) + Chunks(Queue(old(doc[..])), batchSize)
    {
      ghost var ps := doc[..];
      ghost var sent: seq<string> := [];
      DocumentStart(ps, batchSize, service);
      assert calls == old(calls) + Chunks(sent, batchSize);
      var k := 0;
      while k < doc.Length
        invariant Visited(doc, ps, k, sent, old(calls))
      {
        sent := VisitParagraph(doc, ps, k, sent, old(calls));
        k := k + 1;
      }
      FinishDocument(doc, ps, sent, old(calls));
    }

    /** The end of a document: what is left in the batch is sent as a final, shorter batch. */
    method FinishDocument(doc: array<string>, ghost ps: seq<string>, ghost sent: seq<string>, ghost base: seq<seq<string>>)
      requires Visited(doc, ps, doc.Length, sent, base)
      modifies this`batchP, this`batchOriginalTexts, this`batchCount, this`calls, doc
      ensures Idle()
      ensures doc[..] == Rewritten(ps, service)
      ensures calls == base + Chunks(Queue(ps), batchSize)
    {
      ghost var done := sent;
      if batchP != [] {
        done := FlushPending(doc, ps, doc.Length, sent);
      }
      assert done + [] == done;
      PendingDone(ps, service);
    }

    /**
     * The body of the item loop for one item: a non-document passes through; a
     * document is parsed, its paragraphs translated in place and the result
     * serialised. `None` stands for `continue`: no paragraph, or the parser or
     * the serialiser raised.
     */
    method ProcessItemInPlace(it: Item, html: Html) returns (r: Option<Item>)
      requires Idle()
      modifies this`batchP, this`batchOriginalTexts, this`batchCount, this`calls
      ensures Idle()
      ensures r == ProcessItem(it, html, service)
      ensures calls == old(calls) + ItemCalls(it, html, batchSize)
    {
      if it.Other? {
        return Some(it);
      }
      var parsed := html.parse(it.content);
      if parsed.None? {
        return None;
      }
      var ps := parsed.value;
      if ps == [] {
        return None;
      }
      var doc := new string[|ps|](j requires 0 <= j < |ps| => ps[j]);
      assert doc[..] == ps;
      TranslateDocument(doc);
      var rendered := html.render(it.content, doc[..]);
      if rendered.None? {
        return None;
      }
      r := Some(Document(it.id, rendered.value));
    }

    /** `if self.progress_callback: self.progress_callback(progress)` once `processed` of `total` items are added. */
    method ReportProgress(processed: nat, total: nat)
      requires 0 < processed <= total
      modifies this`reports
      ensures reports == old(reports) + (if reportsProgress then [Percent(processed, total)] else [])
    {
      if reportsProgress {
        var progress := processed * 100 / total;
        reports := reports + [progress];
      }
    }

    /** The callback has received, after `base`, one report per item added so far (none without a callback). */
    ghost predicate Reported(base: seq<int>, processed: nat, total: nat)
      reads this
    {
      processed <= total && reports == base + (if reportsProgress then Reports(processed, total) else [])
    }

    /** The report made once one more item has been added. */
    method ReportAdded(processed: nat, total: nat, ghost base: seq<int>)
      requires 0 < processed <= total && Reported(base, processed - 1, total)
      modifies this`reports
      ensures Reported(base, processed, total)
    {
      ReportProgress(processed, total);
      ReportsAppend(base, processed, total, reportsProgress);
    }

    /**
     * The state of the item loop after the first `idx` items: no batch is
     * pending, the new items are those kept so far, `processed` counts them,
     * and the calls made are those of the items so far.
     */
    ghost predicate ItemsVisited(items: seq<Item>, html: Html, idx: nat, newItems: seq<Item>, processed: nat,
                                 baseCalls: seq<seq<string>>)
      reads this
    {
      Idle() && idx <= |items| &&
      newItems == Kept(items[..idx], html, service) && processed == |newItems| <= idx &&
      calls == baseCalls + BookCalls(items[..idx], html, batchSize)
    }

    /**
     * One turn of the item loop: item `idx` is processed and, unless it is left
     * out, added, after which the percentage of items added is reported.
     */
    method VisitItem(items: seq<Item>, html: Html, idx: nat, newItems: seq<Item>, processed: nat,
                     ghost baseCalls: seq<seq<string>>, ghost baseReports: seq<int>)
      returns (newItems': seq<Item>, processed': nat)
      requires idx < |items| && ItemsVisited(items, html, idx, newItems, processed, baseCalls)
      requires Reported(baseReports, processed, |items|)
      modifies this`batchP, this`batchOriginalTexts, this`batchCount, this`calls, this`reports
      ensures ItemsVisited(items, html, idx + 1, newItems', processed', baseCalls)
      ensures Reported(baseReports, processed', |items|)
    {
      BookStep(items, idx, html, service, batchSize);
      newItems', processed' := newItems, processed;
      var result := ProcessItemInPlace(items[idx], html);
      AppendAssoc(baseCalls, BookCalls(items[..idx], html, batchSize), ItemCalls(items[idx], html, batchSize));
      if result.Some? {
        newItems' := newItems + [result.value];
        processed' := processed + 1;
        ReportAdded(processed', |items|, baseReports);
      }
    }

    /**
     * The item loop of a run: every item in order, skipping those left out, with
     * the percentage of items added reported after each one that is added.
     */
    method TranslateItems(items: seq<Item>, html: Html) returns (newItems: seq<Item>)
      requires Idle()
      modifies this`batchP, this`batchOriginalTexts, this`batchCount, this`calls, this`reports
      ensures Idle()
      ensures newItems == Kept(items, html, service)
      ensures calls == old(calls) + BookCalls(items, html, batchSize)
      ensures reports == old(reports) + (if reportsProgress then Reports(|newItems|, |items|) else [])
    {
      var processedItems := 0;
      newItems := [];
      for idx := 0 to |items|
        invariant ItemsVisited(items, html, idx, newItems, processedItems, old(calls))
        invariant calls == old(calls) + BookCalls(items[..idx], html, batchSize)
        invariant Reported(old(reports), processedItems, |items|)
      {
        newItems, processedItems := VisitItem(items, html, idx, newItems, processedItems, old(calls), old(reports));
      }
      WholeRun(items, html, service, batchSize);
    }

    /**
     * Translates a book that has been read from `path`, with `cwd` the working
     * directory. The new book has the original's metadata, spine and table of
     * contents and, in order, the processed form of every item that is not left
     * out. The batches sent are those of every parsed document with paragraphs,
     * the callback receives the percentage of items added after each one, and
     * the result is the path the book is moved to.
     */
    method TranslateBook(path: string, book: Book, cwd: string, html: Html) returns (newBook: Book, finalPath: string)
      modifies this
      ensures originBook == Some(book) && Idle()
      ensures newBook.metadata == book.metadata && newBook.spine == book.spine && newBook.toc == book.toc
      ensures newBook.items == Kept(book.items, html, service)
      ensures calls == old(calls) + BookCalls(book.items, html, batchSize)
      ensures reports == old(reports) + (if reportsProgress then Reports(|newBook.items|, |book.items|) else [])
      ensures epubName == Some(StripExtension(BaseName(path)))
      ensures finalPath == FinalPath(cwd, path)
    {
      originBook := Some(book);
      batchP := [];
      batchOriginalTexts := [];
      batchCount := 0;
      var newItems := TranslateItems(book.items, html);
      assert originBook == Some(book);
      newBook := Book(book.metadata, book.spine, book.toc, newItems);
      var name;
      name, finalPath := OutputPaths(path, cwd);
      epubName := Some(name);
    }

    /**
     * Names the output: the input's base name without its extension, and the
     * file "<name>_translated.epub" directly inside the output directory under `cwd`.
     */
    static method OutputPaths(path: string, cwd: string) returns (epubName: string, finalPath: string)
      ensures epubName == StripExtension(BaseName(path))
      ensures finalPath == FinalPath(cwd, path) == OutputDir(cwd) + "/" + OutputName(path)
    {
      epubName := StripExtension(BaseName(path));
      var outputPath := epubName + Suffix;
      var translatedBooksDir := Join(cwd, OutputDirectory);
      finalPath := Join(translatedBooksDir, outputPath);
      FinalPathInOutputDir(cwd, path);
    }
  }

  lemma AppendAssoc<T>(a: seq<T>, b: seq<T>, c: seq<T>)
    ensures a + (b + c) == (a + b) + c
  {
  }

  /** One more report, appended to the reports so far, gives the reports after one more item. */
  lemma ReportsAppend(base: seq<int>, processed: nat, total: nat, on: bool)
    requires 0 < processed <= total
    ensures (base + (if on then Reports(processed - 1, total) else [])) + (if on then [Percent(processed, total)] else []) ==
            base + (if on then Reports(processed, total) else [])
  {
    if on {
      AppendAssoc(base, Reports(processed - 1, total), [Percent(processed, total)]);
    }
  }

  /** Every position of the pending batch is before `k`, names an eligible paragraph, and carries its text. */
  ghost predicate PendingOk(ps: seq<string>, k: nat, pending: seq<nat>, texts: seq<string>)
  {
    |texts| == |pending| &&
    forall m :: 0 <= m < |pending| ==>
      pending[m] < k && pending[m] < |ps| && Eligible(ps[pending[m]]) && texts[m] == ps[pending[m]]
  }

  /**
   * The paragraphs of a document once its first `k` paragraphs have been
   * visited, with `pending` the positions queued but not yet sent: every sent
   * paragraph holds its translation, every other one its original text.
   */
  ghost function Pending(ps: seq<string>, k: nat, pending: seq<nat>, svc: Service): (d: seq<string>)
    ensures |d| == |ps|
    ensures forall j :: 0 <= j < |ps| && (j >= k || j in pending || !Eligible(ps[j])) ==> d[j] == ps[j]
  {
    seq(|ps|, j requires 0 <= j < |ps| =>
      if j < k && Eligible(ps[j]) && j !in pending then svc.Translate(ps[j]) else ps[j])
  }

  /** Before the first paragraph nothing is queued, nothing is sent and the document is as read. */
  lemma DocumentStart(ps: seq<string>, size: int, svc: Service)
    ensures PendingOk(ps, 0, [], []) && Pending(ps, 0, [], svc) == ps
    ensures QueueIn(ps, 0) == [] && Chunks([], size) == [] && AllFull(Chunks([], size), size)
  {
  }

  /** Queueing eligible paragraph `k` keeps the pending batch well formed, extends the queue and leaves the document as it was. */
  lemma Enqueued(ps: seq<string>, k: nat, pending: seq<nat>, texts: seq<string>, sent: seq<string>, svc: Service)
    requires k < |ps| && Eligible(ps[k])
    requires PendingOk(ps, k, pending, texts) && sent + texts == QueueIn(ps, k)
    ensures PendingOk(ps, k + 1, pending + [k], texts + [ps[k]])
    ensures sent + (texts + [ps[k]]) == QueueIn(ps, k + 1)
    ensures Pending(ps, k + 1, pending + [k], svc) == Pending(ps, k, pending, svc)
  {
    assert forall j :: 0 <= j < |ps| && j != k ==> (j in pending + [k] <==> j in pending);
    assert sent + (texts + [ps[k]]) == (sent + texts) + [ps[k]];
  }

  /** Passing over an ineligible paragraph `k` changes neither the batch, nor the queue, nor the document. */
  lemma Skipped(ps: seq<string>, k: nat, pending: seq<nat>, texts: seq<string>, sent: seq<string>, svc: Service)
    requires k < |ps| && !Eligible(ps[k])
    requires PendingOk(ps, k, pending, texts) && sent + texts == QueueIn(ps, k)
    ensures PendingOk(ps, k + 1, pending, texts)
    ensures sent + texts == QueueIn(ps, k + 1)
    ensures Pending(ps, k + 1, pending, svc) == Pending(ps, k, pending, svc)
  {
  }

  /** Writing the translations of a pending batch into its paragraphs leaves nothing pending. */
  lemma PendingFlushed(ps: seq<string>, k: nat, pending: seq<nat>, before: seq<string>, after: seq<string>, svc: Service)
    requires forall m :: 0 <= m < |pending| ==> pending[m] < k && pending[m] < |ps| && Eligible(ps[pending[m]])
    requires before == Pending(ps, k, pending, svc) && |after| == |ps|
    requires forall j :: 0 <= j < |ps| ==> after[j] == if j in pending then svc.Translate(ps[j]) else before[j]
    ensures after == Pending(ps, k, [], svc)
  {
    forall j | 0 <= j < |ps|
      ensures after[j] == Pending(ps, k, [], svc)[j]
    {
      if j in pending {
        var m :| 0 <= m < |pending| && pending[m] == j;
      }
    }
  }

  /** With every paragraph visited and nothing pending, the document is the rewritten one. */
  lemma PendingDone(ps: seq<string>, svc: Service)
    ensures Pending(ps, |ps|, [], svc) == Rewritten(ps, svc)
  {
  }

}
