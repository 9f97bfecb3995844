# EpubTranslator, modelled in Dafny

EpubTranslator reads an EPUB book and translates it with an online
translation service. Each HTML document of the book has its paragraphs
(`<p>` elements) collected. The texts that are neither empty nor all digits
are queued and sent to the service in batches of `batch_size`. Each result is
written back into the paragraph it came from. Non-document items (images,
styles, navigation) are copied as they are. After each item added to the new
book, a progress callback receives the percentage of items added. The new
book is written as `<stem>_translated.epub` and moved into
`translated_books` under the working directory. A small window lets the user
pick the source and destination languages from labels "name (code)". The
code is read back from the chosen label.

The model has these modules:

- `Wrappers`: `Option`.
- `Strings`: Python's `s.split(sep)[-1]` and `s.strip(chars)`.
- `TextTranslation`: the translation service, an oracle that returns a
  translation or `None` when the call raises.
- `Paragraphs`: the eligibility filter, the queue of a document, how the
  queue is cut into batches, and what each paragraph holds afterwards. All
  of it is stated on values.
- `Progress`: the reported percentages.
- `OutputNaming`: the output file name and path, following POSIX `os.path`.
- `LanguageLabels`: the language registry, the label format and the label parser.
- `Epub`: a book as values: items, the HTML library as a pair of oracles,
  and what a whole run produces.
- `Translator`: the class `BookTranslator`. It has the batch fields, a ghost
  log of every batch sent to the service, and a ghost log of every value
  passed to the progress callback. Its methods are proved against the
  functions of `Paragraphs`, `Progress` and `Epub`.

A document's paragraphs are an `array<string>` that the batch loop rewrites
in place.

Three behaviours of the code are worth stating directly:

- The filter does not trim, so `" 42"` is queued.
- A document that has no paragraph, or whose parsing or serialising raises,
  is dropped from the new book and is not counted.
- Progress is reported only after an item is added, as
  `int(processed / total * 100)`. So the last value is 100 only when no item
  was left out, and nothing is reported for a book whose items are all left
  out.

## Model

| member | source | states |
|---|---|---|
| Translator.BookTranslator.constructor | translator.py:17-23 | The batch size, the language pair and whether a callback is present are stored. No book and no name are set yet. |
| Translator.BookTranslator.TranslateText | translator.py:25-37 | One result per text, in order. Entry i is the service's translation of text i, or text i itself when that call raised. A failure does not affect any other entry. |
| Translator.BookTranslator.Flush | translator.py:80-88 | The pending batch is sent as one call and logged. Each batched paragraph then holds the translation of its own text, and every other paragraph is unchanged. The batch fields are empty afterwards. |
| Translator.BookTranslator.FlushPending | translator.py:70-78 | A full batch sent mid-document is the next group of the document's queue cut into batches of `batch_size`. Afterwards no batch is pending, and the document holds every sent translation. |
| Translator.BookTranslator.Enqueue | translator.py:65-68 | An eligible paragraph's position is appended to `batch_p` and its text to `batch_original_texts`, exactly one entry each, and the count rises by one. The document is unchanged, and the sent texts plus the pending batch are the queue up to and including this paragraph. |
| Translator.BookTranslator.FlushFull | translator.py:70-78 | When the batch reaches `batch_size`, it is sent, and the loop invariant holds again with that batch counted among the sent ones. |
| Translator.BookTranslator.VisitParagraph | translator.py:64-78 | One paragraph step keeps the loop invariant: the sent texts and the pending batch together are the queue so far, calls made are full batches, and no full batch stays pending. |
| Translator.BookTranslator.FinishDocument | translator.py:80-88 | At the end of a document the leftover batch is sent. The document is then the rewritten one, and the calls are the whole queue in batches. |
| Translator.BookTranslator.TranslateDocument | translator.py:64-88 | The document ends as `Rewritten`: each eligible paragraph holds its translation (or its own text on failure), and every other paragraph is unchanged. The calls made are exactly `Chunks(Queue(paragraphs), batch_size)`. The batch is empty afterwards. |
| Translator.BookTranslator.ProcessItemInPlace | translator.py:55-94 | The item becomes `ProcessItem` of it. The calls made are those of that item alone. No batch is left pending. |
| Translator.BookTranslator.ReportProgress | translator.py:96-99 | When a callback is present it receives `processed * 100 / total`. Otherwise nothing is reported. |
| Translator.BookTranslator.ReportAdded | translator.py:96-99 | After one more item is added, the reports so far are exactly `Reports(added, total)`, or nothing when there is no callback. |
| Translator.BookTranslator.VisitItem | translator.py:54-99 | One item step keeps the item-loop invariant: the new items are the kept ones so far, the counter is their number, the calls are those of the items so far, and the callback has received one report per added item. |
| Translator.BookTranslator.TranslateItems | translator.py:50-99 | The new items are exactly `Kept(items)`, in order. The calls are `BookCalls(items)`. The callback has received `Reports(added, total)`, or nothing when there is no callback. |
| Translator.BookTranslator.TranslateBook | translator.py:39-115 | The new book has the original's metadata, spine and table of contents, and its items are the kept ones. It states the calls made, the reports, the recorded book and name, and the final path. |
| Translator.BookTranslator.OutputPaths | translator.py:101-111 | The name is the input's base name without its extension. The path is `FinalPath(cwd, input)`, which is `<output dir>/<output name>`. |
| TextTranslation.Service.Translate | translator.py:28-36 | A text becomes the service's translation when the call succeeds, and stays itself when the call raises. |
| Paragraphs.Eligible | translator.py:65 | A text is sent exactly when some character of it is not a digit; so neither an empty nor an all-digit text is sent. |
| Paragraphs.QueueIn | translator.py:64-68 | Only eligible texts are queued: none is empty or all digits. At most one text is queued per paragraph. |
| Paragraphs.Queue | translator.py:64-68 | A document queues at most one text per paragraph, every one of them eligible. |
| Paragraphs.QueueSelection | translator.py:64-68 | The queue is the texts of the paragraphs at strictly increasing positions, in document order. A paragraph is among them exactly when it is eligible: every eligible paragraph is queued once and no other is. |
| Paragraphs.QueueLength | translator.py:64-68 | The queue has as many texts as the document has eligible paragraphs. |
| Paragraphs.Chunks | translator.py:70-88 | A document makes a call exactly when its queue is not empty. |
| Paragraphs.Rewritten | translator.py:73-74 | After a document, an ineligible paragraph keeps its text, and an eligible one holds the service's translation of its text, or the text itself when that call raised. The paragraph count is unchanged. |
| Paragraphs.FilterDoesNotTrim | translator.py:65 | `" 42"` is eligible, while `"42"` and `""` are not: the filter looks at the untrimmed text. |
| Paragraphs.ChunksShape | translator.py:70-88 | Joined, the batches give the queue back, in order. No batch is empty or larger than `batch_size`, and all but the last are full. A size below 1 gives a single batch. |
| Paragraphs.ChunksFlatten | translator.py:70-88 | Joined, the batches give the queue back, in order. |
| Paragraphs.ChunksSizes | translator.py:70-88 | No batch is empty or larger than `batch_size`, and all but the last are full. A size below 1 gives at most one batch. |
| Paragraphs.ChunksSnoc | translator.py:70-78 | Sending one more batch after full ones extends the batch sequence by exactly that batch. |
| Paragraphs.ChunksCount | translator.py:70-88 | For n queued texts and size s ≥ 1, the number of calls c satisfies c·s ≥ n > (c−1)·s, that is c = ⌈n/s⌉. |
| Paragraphs.TwelveInFives | translator.py:70-88 | Twelve queued texts with batch size 5 are sent as batches of 5, 5 and 2, in order. |
| Paragraphs.OnlyEligibleTextsSent | translator.py:64-74 | No empty or all-digit text is ever in a batch. |
| Paragraphs.HelloWorldExample | translator.py:64-88 | "Hello", "42", "World" with batch size 2: one call ["Hello", "World"]. The digits are untouched, and "World" is kept when its call fails. |
| Paragraphs.HelloWorldQueue | translator.py:64-68 | The example document queues "Hello" and "World" and skips "42". |
| Paragraphs.HelloWorldRewritten | translator.py:73-84 | Afterwards the example reads the translation of "Hello", then "42" unchanged, then whatever "World"'s own call gives. |
| Epub.ProcessItem | translator.py:54-94 | A non-document is kept as is. A document is kept exactly when it parses, has a paragraph and serialises. The kept document has the same id and holds the serialisation of its rewritten paragraphs. |
| Epub.ItemCalls | translator.py:55-88 | Only a parsed document sends batches. |
| Epub.Kept | translator.py:54-94 | The new book never has more items than the original. |
| Epub.BookCalls | translator.py:54-88 | A book without items makes no call. |
| Epub.KeptSelection | translator.py:54-94 | The new items are the processed forms of the originals at strictly increasing positions. A position is among them exactly when its processing succeeds. |
| Epub.NothingLeftOut | translator.py:54-94 | Every item reaches the new book exactly when no item is left out. |
| Epub.NoDocuments | translator.py:54-94 | A book without documents makes no service call and is copied item for item. |
| Epub.BookSendsOnlyEligibleTexts | translator.py:54-88 | Over a whole run, no empty or all-digit text is sent. |
| Epub.FullProgressIffNothingLeftOut | translator.py:54-99 | The last reported value is 100 exactly when no item was left out. |
| Progress.Percent | translator.py:98 | A percentage is never negative. |
| Progress.PercentIsTruncated | translator.py:98 | The percentage is `processed * 100 / total` rounded down: it times `total` is at most `processed * 100`, and one more would exceed it. |
| Progress.Reports | translator.py:96-99 | One report per added item. |
| Progress.PercentBounds | translator.py:98 | A percentage lies in 0..100, and it is 100 exactly when processed equals total. |
| Progress.PercentMonotone | translator.py:96-99 | More items added never lower the percentage. |
| Progress.ReportsProperties | translator.py:96-99 | The i-th report is `(i+1)*100/total`. Reports never decrease and lie in 0..100. The last is 100 exactly when all items were added. |
| Strings.AfterLast | translator.py:124 | `split(' ')[-1]` is the suffix after the last separator. It contains no separator, and the character before it is a separator. |
| Strings.Strip | translator.py:124 | `strip('()')` is never longer than its input. The result neither starts nor ends with a stripped character, and a text that neither starts nor ends with one is left as it is. |
| Strings.StripRemovesOnlyEnds | translator.py:124 | `strip` keeps one contiguous run of its input. Everything removed before and after that run is a stripped character. Together with `Strip`'s ends, this determines the result. |
| OutputNaming.BaseName | translator.py:101 | `basename` is the suffix of the path after its last '/', or the whole path when it has none. It contains no '/'. |
| OutputNaming.StripExtension | translator.py:101 | `splitext(...)[0]` is a prefix of the name. Either it is the whole name, or it ends right before the last dot and is not made of dots only. |
| OutputNaming.StripExtensionAtLastDot | translator.py:101 | When the last dot follows something other than dots, the name is cut exactly there. |
| OutputNaming.Join | translator.py:106-111 | `os.path.join(a, b)` ends with `b`. An absolute `b` is the result on its own, and otherwise the result starts with `a`. |
| OutputNaming.JoinSeparates | translator.py:106-111 | For a relative `b`, the result is `a` and `b` with exactly one '/' between them when `a` is non-empty and does not end in '/', and with nothing between them otherwise. |
| OutputNaming.OutputName | translator.py:102 | The output file name ends with "_translated.epub". |
| OutputNaming.OutputDir | translator.py:106 | The output directory starts with the working directory and ends with "translated_books". |
| OutputNaming.OutputDirUnderCwd | translator.py:106 | The output directory is exactly the working directory, then one '/' unless the working directory already ends in one, then "translated_books". |
| OutputNaming.FinalPath | translator.py:111 | The final path ends with the output file name. |
| OutputNaming.OutputNameIsPlain | translator.py:101-102 | The output file name never contains '/'. |
| OutputNaming.OutputNameKeepsStem | translator.py:101-102 | Splitting the extension off the output name gives the input's stem followed by "_translated", with extension "epub". |
| OutputNaming.OutputDirEndsInOutputDirectory | translator.py:106 | The output directory's last component is "translated_books". |
| OutputNaming.FinalPathInOutputDir | translator.py:106-111 | The final path is `<cwd>/translated_books/<output name>` (with cwd's own trailing '/' not doubled). Its base name is the output name. |
| LanguageLabels.Label | translator.py:185 | A label is three characters longer than name and code together. Right after the name come a space and '(', and the label ends with ')'. |
| LanguageLabels.ParseLabel | translator.py:124-125 | The code read back from a label is never longer than the label, and it has no space and neither starts nor ends with a parenthesis. |
| LanguageLabels.LabelRoundTrip | translator.py:124-125 | Parsing "name (code)" gives back the code exactly when the code has no space and neither starts nor ends with a parenthesis, whatever the name. |
| LanguageLabels.RegistryCodesAreLabelSafe | translator.py:14 | Every code of the registry satisfies that condition. |
| LanguageLabels.Choices | translator.py:185-190 | A picker offers one label per code, in the order of the codes, each made from the code's registry name and the code. `ChoicesRoundTrip` parses every one of them back. |
| LanguageLabels.LabelsRoundTrip | translator.py:124-125 | For any registry whose codes are all label-safe, every label a picker offers parses back to its code. |
| LanguageLabels.RegistryRoundTrip | translator.py:185 | For every registry code, its label parses back to the code. |
| LanguageLabels.ChoicesRoundTrip | translator.py:181-190 | Whatever entry of a picker is chosen, parsing it gives back the code it was made from. |
| LanguageLabels.LabelExamples | translator.py:178-179 | The default labels "english (en)" and "portuguese (pt)" parse to "en" and "pt", and "chinese (simplified) (zh-cn)" parses to "zh-cn". |

## Left out

- The tkinter window, its widgets, the worker thread, and `abrir_pasta` (platform-specific folder opening). These are user interface, concurrency and subprocess calls.
- ebooklib's reading and writing of the EPUB archive (`read_epub`, `write_epub`, `get_items`). A book is the `Book` datatype. Its metadata, spine and table of contents are copied without being interpreted.
- BeautifulSoup. Parsing a document to its `<p>` texts and serialising it back (`prettify`) are the oracles of `Html`, and `None` stands for a raise. Nested paragraphs, the `p` truthiness test (always true for a found element) and the markup itself are not modelled.
- The googletrans client is the `Provider` oracle. `None` stands for any exception from the call.
- TextTranslation.Service.Translate: the provider is a function of the text and the language pair, so a given text always gets the same outcome. A transient failure on one call and success on another for the same text, or a failure on the n-th call, cannot be expressed. So `Rewritten` gives equal texts in one run equal results.
- `os.makedirs`, `shutil.move` and every `print`. Only the path strings are modelled.
- Translator.BookTranslator.TranslateText: the log `print` after a successful append is assumed not to raise. If it raised, the handler would append the original text as well, so that batch's list would be one entry longer and later paragraphs of the batch would receive their predecessor's entry.
- Progress.Percent: it is the integer `processed * 100 / total`. The source's floating-point `int(processed / total * 100)` can be one lower (29 of 100 gives 28). `PercentIsTruncated`, `PercentBounds`, `ReportsProperties` and `Reports` inherit this.
- Translator.BookTranslator.ReportProgress: it uses integer arithmetic, `processed * 100 / total`. The source computes `int(processed / total * 100)` in floating point, which can be one lower (29 of 100 gives 28).
- Paragraphs.Eligible: its digit test, `IsAllDigits`, recognises ASCII digits only. Python's `isdigit` also accepts other Unicode digits.
- LanguageLabels.ChoicesRoundTrip: it holds for any list of registry codes. That the pickers list them sorted is not modelled.
- OutputNaming.FinalPath: paths follow POSIX rules. Windows drive letters and '\\' separators are not modelled.
- The batch lists `batch_p`, `batch_original_texts` and `batch_count` are locals of `translate_book` in the source. Here they are fields of the class, so that the step methods share them. `batch_p` holds paragraph positions instead of element references.
- The source writes the serialised document into the original item (`i.content = ...`) and adds that same object to the new book. The model builds a new item value, so aliasing between the old and new book is not captured.
- Exceptions other than those of parsing, serialising and the service are not modelled. A raise inside the paragraph loop would leave a batch pending for the next document. The model assumes there is none, which is the `Idle` invariant at every item start.
- The default arguments (batch size 5, "en" to "pt") are passed explicitly to the constructor.
