/**
 * What happens to the paragraphs of one document, stated on values: which
 * paragraph texts are queued, how the queue is cut into batches for the
 * provider, and what each paragraph reads afterwards.
 */
module Paragraphs {
  import opened Wrappers
  import opened TextTranslation

  predicate IsDigit(c: char)
  {
    '0' <= c <= '9'
  }

  /** `text.isdigit()` over ASCII: non-empty and made of decimal digits only. */
  predicate IsAllDigits(text: string)
  {
    text != [] && forall i :: 0 <= i < |text| ==> IsDigit(text[i])
  }

  /**
   * `p.text and not p.text.isdigit()`: the text is not trimmed first. A text
   * is sent exactly when some character of it is not a digit.
   */
  predicate Eligible(text: string)
    ensures Eligible(text) <==> exists i :: 0 <= i < |text| && !IsDigit(text[i])
  {
    text != [] && !IsAllDigits(text)
  }

  /** The filter looks at the text as it is: " 42" is queued, "42" and "" are not. */
  lemma FilterDoesNotTrim()
    ensures Eligible(" 42") && !Eligible("42") && !Eligible("")
  {
    assert !IsDigit(" 42"[0]);
  }

  /** The texts queued from the first `k` paragraphs, in document order. */
  function QueueIn(ps: seq<string>, k: nat): (q: seq<string>)
    requires k <= |ps|
    ensures |q| <= k
    ensures forall i :: 0 <= i < |q| ==> Eligible(q[i])
  {
    if k == 0 then []
    else QueueIn(ps, k - 1) + (if Eligible(ps[k - 1]) then [ps[k - 1]] else [])
  }

  /** All texts of a document that are sent for translation, in document order. */
  function Queue(ps: seq<string>): (q: seq<string>)
    ensures |q| <= |ps|
  {
    QueueIn(ps, |ps|)
  }

  /** The positions of the paragraphs queued from the first `k`. */
  function QueuedPositions(ps: seq<string>, k: nat): (pos: seq<nat>)
    requires k <= |ps|
    ensures forall m :: 0 <= m < |pos| ==> pos[m] < k
  {
    if k == 0 then []
    else QueuedPositions(ps, k - 1) + (if Eligible(ps[k - 1]) then [k - 1] else [])
  }

  /**
   * The queue is exactly the eligible paragraphs, each once, in document order:
   * its texts are those of the paragraphs at strictly increasing positions, and
   * a paragraph's position is among them exactly when its text is eligible.
   */
  lemma {:induction false} QueueSelection(ps: seq<string>, k: nat)
    requires k <= |ps|
    ensures |QueuedPositions(ps, k)| == |QueueIn(ps, k)|
    ensures forall a, b :: 0 <= a < b < |QueuedPositions(ps, k)| ==> QueuedPositions(ps, k)[a] < QueuedPositions(ps, k)[b]
    ensures forall m :: 0 <= m < |QueueIn(ps, k)| ==> QueueIn(ps, k)[m] == ps[QueuedPositions(ps, k)[m]]
    ensures forall j :: 0 <= j < k ==> (Eligible(ps[j]) <==> j in QueuedPositions(ps, k))
  {
    QueuedIncrease(ps, k);
    QueuedTexts(ps, k);
    QueuedComplete(ps, k);
  }

  lemma {:induction false} QueuedIncrease(ps: seq<string>, k: nat)
    requires k <= |ps|
    ensures forall a, b :: 0 <= a < b < |QueuedPositions(ps, k)| ==> QueuedPositions(ps, k)[a] < QueuedPositions(ps, k)[b]
  {
    if k > 0 {
      QueuedIncrease(ps, k - 1);
    }
  }

  lemma {:induction false} QueuedTexts(ps: seq<string>, k: nat)
    requires k <= |ps|
    ensures |QueuedPositions(ps, k)| == |QueueIn(ps, k)|
    ensures forall m :: 0 <= m < |QueueIn(ps, k)| ==> QueueIn(ps, k)[m] == ps[QueuedPositions(ps, k)[m]]
  {
    if k > 0 {
      QueuedTexts(ps, k - 1);
      var pos, q := QueuedPositions(ps, k), QueueIn(ps, k);
      var pos', q' := QueuedPositions(ps, k - 1), QueueIn(ps, k - 1);
      assert forall m :: 0 <= m < |pos'| ==> pos[m] == pos'[m] && q[m] == q'[m];
    }
  }

  lemma {:induction false} QueuedComplete(ps: seq<string>, k: nat)
    requires k <= |ps|
    ensures forall j :: 0 <= j < k ==> (Eligible(ps[j]) <==> j in QueuedPositions(ps, k))
  {
    if k > 0 {
      QueuedComplete(ps, k - 1);
    }
  }

  /** The queue holds as many texts as the document has eligible paragraphs (twelve of them give twelve texts). */
  lemma QueueLength(ps: seq<string>)
    ensures |Queue(ps)| == |set j | 0 <= j < |ps| && Eligible(ps[j])|
  {
    QueueSelection(ps, |ps|);
    var pos := QueuedPositions(ps, |ps|);
    IncreasingCard(pos);
    assert (set m | 0 <= m < |pos| :: pos[m]) == (set j | 0 <= j < |ps| && Eligible(ps[j]));
  }

  /** A strictly increasing sequence has as many distinct elements as entries. */
  lemma {:induction false} IncreasingCard(pos: seq<nat>)
    requires forall a, b :: 0 <= a < b < |pos| ==> pos[a] < pos[b]
    ensures |set m | 0 <= m < |pos| :: pos[m]| == |pos|
  {
    if pos != [] {
      var n := |pos| - 1;
      var front := pos[..n];
      IncreasingCard(front);
      var s, s' := set m | 0 <= m < |pos| :: pos[m], set m | 0 <= m < n :: front[m];
      assert s == s' + {pos[n]};
      assert pos[n] !in s';
    }
  }

  function Flatten(groups: seq<seq<string>>): (texts: seq<string>)
  {
    if groups == [] then [] else groups[0] + Flatten(groups[1..])
  }

  /**
   * The batches a queue is sent in: consecutive runs of exactly `size` texts,
   * then the rest. When `size` is below 1 the count never reaches it, so the
   * whole queue goes in one batch.
   */
  function Chunks(q: seq<string>, size: int): (groups: seq<seq<string>>)
    ensures groups == [] <==> q == []
    decreases |q|
  {
    if q == [] then []
    else if size >= 1 && |q| >= size then [q[..size]] + Chunks(q[size..], size)
    else [q]
  }

  /**
   * The batches hold the queue, in order and without loss: joined, they give
   * the queue back. None is empty, none exceeds a positive size, and all but
   * the last are full; with a size below 1 there is at most one batch.
   */
  lemma {:induction false} ChunksShape(q: seq<string>, size: int)
    ensures Flatten(Chunks(q, size)) == q
    ensures forall i :: 0 <= i < |Chunks(q, size)| ==> Chunks(q, size)[i] != []
    ensures size >= 1 ==> forall i :: 0 <= i < |Chunks(q, size)| ==> |Chunks(q, size)[i]| <= size
    ensures size >= 1 ==> forall i :: 0 <= i < |Chunks(q, size)| - 1 ==> |Chunks(q, size)[i]| == size
    ensures size < 1 ==> |Chunks(q, size)| <= 1
  {
    ChunksFlatten(q, size);
    ChunksSizes(q, size);
  }

  /** Joined, the batches give the queue back. */
  lemma {:induction false} ChunksFlatten(q: seq<string>, size: int)
    ensures Flatten(Chunks(q, size)) == q
    decreases |q|
  {
    if q != [] && size >= 1 && |q| >= size {
      ChunksFlatten(q[size..], size);
      assert Chunks(q, size)[1..] == Chunks(q[size..], size);
      assert q[..size] + q[size..] == q;
    } else if q != [] {
      assert Chunks(q, size)[1..] == [];
    }
  }

  /** No batch is empty; with a positive size none is larger and all but the last are full. */
  lemma {:induction false} ChunksSizes(q: seq<string>, size: int)
    ensures forall i :: 0 <= i < |Chunks(q, size)| ==> Chunks(q, size)[i] != []
    ensures size >= 1 ==> forall i :: 0 <= i < |Chunks(q, size)| ==> |Chunks(q, size)[i]| <= size
    ensures size >= 1 ==> forall i :: 0 <= i < |Chunks(q, size)| - 1 ==> |Chunks(q, size)[i]| == size
    ensures size < 1 ==> |Chunks(q, size)| <= 1
    decreases |q|
  {
    if q != [] && size >= 1 && |q| >= size {
      ChunksSizes(q[size..], size);
      var groups, rest := Chunks(q, size), Chunks(q[size..], size);
      assert forall i :: 1 <= i < |groups| ==> groups[i] == rest[i - 1];
    }
  }

  /** Every batch of `groups` is a full one. */
  predicate AllFull(groups: seq<seq<string>>, size: int)
  {
    forall i :: 0 <= i < |groups| ==> |groups[i]| == size
  }

  /**
   * Adding one more batch to a queue whose batches are all full adds one group:
   * the new batch. This is what happens each time the loop flushes.
   */
  lemma {:induction false} ChunksSnoc(a: seq<string>, b: seq<string>, size: int)
    requires size >= 1 ==> AllFull(Chunks(a, size), size)
    requires size < 1 ==> a == []
    requires b != [] && (size >= 1 ==> |b| <= size)
    ensures Chunks(a + b, size) == Chunks(a, size) + [b]
    decreases |a|
  {
    if a == [] {
      assert a + b == b;
      if size >= 1 && |b| >= size {
        assert b[..size] == b && b[size..] == [];
      }
    } else {
      var groups := Chunks(a, size);
      ChunksShape(a, size);
      assert |groups[0]| == size;
      assert |a| >= size;
      assert groups == [a[..size]] + Chunks(a[size..], size);
      assert forall i :: 0 <= i < |groups| - 1 ==> groups[i + 1] == Chunks(a[size..], size)[i];
      assert (a + b)[..size] == a[..size];
      assert (a + b)[size..] == a[size..] + b;
      ChunksSnoc(a[size..], b, size);
    }
  }

  /**
   * For a positive batch size the provider is called ceil(n / size) times for
   * n queued texts: the fewest batches of at most `size` that hold them all.
   */
  lemma {:induction false} ChunksCount(q: seq<string>, size: int)
    requires size >= 1
    ensures |Chunks(q, size)| * size >= |q|
    ensures q != [] ==> (|Chunks(q, size)| - 1) * size < |q|
    decreases |q|
  {
    if q != [] && |q| >= size {
      var k := |Chunks(q[size..], size)|;
      ChunksCount(q[size..], size);
      assert |Chunks(q, size)| == k + 1;
      assert (k + 1) * size == k * size + size;
    }
  }

  /** Twelve queued texts in batches of five are sent as 5, 5 and 2, in order. */
  lemma {:induction false} TwelveInFives(q: seq<string>)
    requires |q| == 12
    ensures Chunks(q, 5) == [q[..5], q[5..10], q[10..]]
  {
    assert q[5..][..5] == q[5..10] && q[5..][5..] == q[10..];
    assert Chunks(q[10..], 5) == [q[10..]];
    assert Chunks(q[5..], 5) == [q[5..10], q[10..]];
  }

  lemma {:induction false} FlattenContains(groups: seq<seq<string>>, i: nat, j: nat)
    requires i < |groups| && j < |groups[i]|
    ensures groups[i][j] in Flatten(groups)
  {
    if i > 0 {
      FlattenContains(groups[1..], i - 1, j);
    } else {
      assert Flatten(groups) == groups[0] + Flatten(groups[1..]);
      assert Flatten(groups)[j] == groups[0][j];
    }
  }

  /** No text that is empty or all digits ever reaches the provider. */
  lemma {:induction false} OnlyEligibleTextsSent(ps: seq<string>, size: int)
    ensures forall i, j :: 0 <= i < |Chunks(Queue(ps), size)| && 0 <= j < |Chunks(Queue(ps), size)[i]| ==>
              Eligible(Chunks(Queue(ps), size)[i][j])
  {
    var groups := Chunks(Queue(ps), size);
    ChunksShape(Queue(ps), size);
    forall i, j | 0 <= i < |groups| && 0 <= j < |groups[i]|
      ensures Eligible(groups[i][j])
    {
      FlattenContains(groups, i, j);
    }
  }

  /**
   * A document's paragraphs after translation: each queued paragraph holds the
   * result for its own text, every other paragraph keeps its text.
   */
  function Rewritten(ps: seq<string>, svc: Service): (r: seq<string>)
    ensures |r| == |ps|
    ensures forall j :: 0 <= j < |ps| && !Eligible(ps[j]) ==> r[j] == ps[j]
    ensures forall j :: 0 <= j < |ps| && Eligible(ps[j]) ==>
              r[j] == (if svc.provider(ps[j], svc.srcLang, svc.destLang).Some?
                       then svc.provider(ps[j], svc.srcLang, svc.destLang).value else ps[j])
  {
    seq(|ps|, j requires 0 <= j < |ps| => if Eligible(ps[j]) then svc.Translate(ps[j]) else ps[j])
  }

  /**
   * The worked example: paragraphs "Hello", "42", "World" with batches of two.
   * The digit paragraph is never sent, one batch ["Hello", "World"] is, and
   * "World" ends as its translation or, if that call raised, as "World".
   */
  lemma {:induction false} HelloWorldExample(svc: Service)
    requires svc.provider("Hello", svc.srcLang, svc.destLang) == Some("Ola")
    ensures Queue(["Hello", "42", "World"]) == ["Hello", "World"]
    ensures Chunks(Queue(["Hello", "42", "World"]), 2) == [["Hello", "World"]]
    ensures svc.provider("World", svc.srcLang, svc.destLang) == Some("Mundo") ==>
              Rewritten(["Hello", "42", "World"], svc) == ["Ola", "42", "Mundo"]
    ensures svc.provider("World", svc.srcLang, svc.destLang) == None ==>
              Rewritten(["Hello", "42", "World"], svc) == ["Ola", "42", "World"]
  {
    var ps := ["Hello", "42", "World"];
    HelloWorldQueue(ps);
    var q := Queue(ps);
    assert q[..2] == q && q[2..] == [];
    HelloWorldRewritten(ps, svc);
  }

  /** The example document queues "Hello" and "World" and skips "42". */
  lemma HelloWorldQueue(ps: seq<string>)
    requires ps == ["Hello", "42", "World"]
    ensures Queue(ps) == ["Hello", "World"]
  {
    HelloWorldFilter(ps);
    assert QueueIn(ps, 1) == ["Hello"];
    assert QueueIn(ps, 2) == ["Hello"];
  }

  /** Paragraph by paragraph, what the example document reads afterwards. */
  lemma HelloWorldRewritten(ps: seq<string>, svc: Service)
    requires ps == ["Hello", "42", "World"]
    requires svc.provider("Hello", svc.srcLang, svc.destLang) == Some("Ola")
    ensures |Rewritten(ps, svc)| == 3 && Rewritten(ps, svc)[0] == "Ola" && Rewritten(ps, svc)[1] == "42"
    ensures Rewritten(ps, svc)[2] == svc.Translate("World")
  {
    HelloWorldFilter(ps);
  }

  lemma HelloWorldFilter(ps: seq<string>)
    requires ps == ["Hello", "42", "World"]
    ensures Eligible(ps[0]) && !Eligible(ps[1]) && Eligible(ps[2])
  {
    assert IsAllDigits("42");
    assert ps[0][0] == 'H' && !IsDigit(ps[0][0]);
    assert ps[2][0] == 'W' && !IsDigit(ps[2][0]);
  }

}
