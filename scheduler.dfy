/** The page translator (content.js:91-145): the text nodes of the document,
    translated in batches of 50, one batch now and one per animation frame,
    under the reentrancy flag `isTranslating`; and the observer that, on a
    `childList` mutation, arms at most one 500 ms timer whose callback
    translates the page again. */
module Scheduler {
  import opened Lexicon
  import opened Vocabulary
  import opened Pipeline

  /** `batchSize` in `translatePage`. */
  const BatchSize: nat := 50

  /** The `type` of a mutation record. */
  datatype MutationType = ChildList | Attributes | CharacterData

  /** The numbers `lo`, `lo + 1`, ..., `hi - 1`. */
  function Range(lo: nat, hi: nat): (r: seq<nat>)
    ensures |r| == if lo <= hi then hi - lo else 0
    decreases hi - lo
  {
    if lo >= hi then [] else [lo] + Range(lo + 1, hi)
  }

  /** The `i`-th number of a run is `lo + i`. */
  lemma {:induction false} RangeAt(lo: nat, hi: nat, i: nat)
    requires lo + i < hi
    ensures Range(lo, hi)[i] == lo + i
    decreases hi - lo
  {
    if i > 0 {
      RangeAt(lo + 1, hi, i - 1);
    }
  }

  /** A run grows at its upper end. */
  lemma RangeSnoc(lo: nat, hi: nat)
    requires lo <= hi
    ensures Range(lo, hi + 1) == Range(lo, hi) + [hi]
  {
    forall i | 0 <= i < hi + 1 - lo ensures Range(lo, hi + 1)[i] == (Range(lo, hi) + [hi])[i] {
      RangeAt(lo, hi + 1, i);
      if i < hi - lo {
        RangeAt(lo, hi, i);
      }
    }
  }

  /** A run of consecutive numbers holds each number in it once, and no other. */
  lemma {:induction false} RangeCount(lo: nat, hi: nat, k: nat)
    ensures multiset(Range(lo, hi))[k] == if lo <= k < hi then 1 else 0
    decreases hi - lo
  {
    if lo < hi {
      RangeCount(lo + 1, hi, k);
      var rest := Range(lo + 1, hi);
      assert Range(lo, hi) == [lo] + rest;
      assert multiset([lo] + rest) == multiset([lo]) + multiset(rest);
    }
  }

  /** A slice of a run of consecutive numbers is a run of consecutive numbers. */
  lemma RangeSlice(n: nat, lo: nat, hi: nat)
    requires lo <= hi <= n
    ensures Range(0, n)[lo..hi] == Range(lo, hi)
  {
    forall i | 0 <= i < hi - lo ensures Range(0, n)[lo..hi][i] == Range(lo, hi)[i] {
      RangeAt(0, n, lo + i);
      RangeAt(lo, hi, i);
    }
  }

  function Min(a: nat, b: nat): nat {
    if a <= b then a else b
  }

  /** The slice `index..hi` of the snapshot lists the nodes from `index` up
      to `hi`, each once. */
  lemma BatchCounts(n: nat, index: nat, hi: nat)
    requires index <= hi <= n
    ensures forall k: nat :: multiset(Range(0, n)[index..hi])[k] == if index <= k < hi then 1 else 0
  {
    RangeSlice(n, index, hi);
    forall k: nat ensures multiset(Range(index, hi))[k] == if index <= k < hi then 1 else 0 {
      RangeCount(index, hi, k);
    }
  }

  /** The slice `index..hi` of the snapshot names nodes of the document. */
  lemma BatchInRange(n: nat, index: nat, hi: nat)
    requires index <= hi <= n
    ensures forall i :: 0 <= i < hi - index ==> Range(0, n)[index..hi][i] < n
  {
    forall i | 0 <= i < hi - index ensures Range(0, n)[index..hi][i] < n {
      RangeAt(0, n, index + i);
    }
  }

  /** Node `k` of `cur` holds its text in `orig` passed through `f`
      `m[k]` times over. */
  ghost predicate CountedAt(cur: seq<string>, orig: seq<string>, m: multiset<nat>, f: string -> string, k: nat) {
    k < |cur| && k < |orig| && cur[k] == Iterate(f, orig[k], m[k])
  }

  /** Every node of `cur` is as `CountedAt` says. */
  ghost predicate TranslatedTimes(cur: seq<string>, orig: seq<string>, m: multiset<nat>, f: string -> string) {
    |cur| == |orig| && forall k: nat :: k < |cur| ==> CountedAt(cur, orig, m, f, k)
  }

  /** Translating node `node` once more counts it once more. */
  lemma TranslateNode(cur: seq<string>, orig: seq<string>, m: multiset<nat>, node: nat, t: string,
                      f: string -> string)
    requires TranslatedTimes(cur, orig, m, f)
    requires node < |cur| && t == f(cur[node])
    ensures TranslatedTimes(cur[node := t], orig, m + multiset{node}, f)
  {
    var cur', m' := cur[node := t], m + multiset{node};
    forall k: nat | k < |cur| ensures CountedAt(cur', orig, m', f, k) {
      assert CountedAt(cur, orig, m, f, k);
    }
  }

  /** Node `k` of `cur` holds `f` of its text in `origin` when it lies before
      `index`, and that text itself otherwise. */
  ghost predicate StagedAt(cur: seq<string>, origin: seq<string>, index: nat, f: string -> string, k: nat) {
    k < |cur| && k < |origin| && cur[k] == if k < index then f(origin[k]) else origin[k]
  }

  /** Translating the nodes `index..hi`, where `hi` is `index + 50` or the
      end of the document, moves the boundary between translated and
      untranslated nodes to `index + 50`. */
  lemma BatchDone(before: seq<string>, after: seq<string>, origin: seq<string>, m: multiset<nat>,
                  index: nat, hi: nat, f: string -> string)
    requires |before| == |origin|
    requires index < hi == Min(index + BatchSize, |origin|)
    requires forall k: nat :: k < |before| ==> StagedAt(before, origin, index, f, k)
    requires TranslatedTimes(after, before, m, f)
    requires forall k: nat :: m[k] == if index <= k < hi then 1 else 0
    ensures var next := index + BatchSize; forall k: nat :: k < |after| ==> StagedAt(after, origin, next, f, k)
  {
    var next := index + BatchSize;
    forall k: nat | k < |after| ensures StagedAt(after, origin, next, f, k) {
      assert StagedAt(before, origin, index, f, k);
      assert CountedAt(after, before, m, f, k);
      if index <= k < hi {
        assert m[k] == 1;
        assert Iterate(f, before[k], 1) == f(Iterate(f, before[k], 0));
      } else {
        assert m[k] == 0;
      }
    }
  }

  /** The batches are the consecutive slices of at most 50 nodes. */
  ghost predicate Batched(batches: seq<seq<nat>>, nodes: seq<nat>) {
    (|batches| == 0 || BatchSize * (|batches| - 1) < |nodes|)
    && forall b :: 0 <= b < |batches| ==>
         batches[b] == nodes[BatchSize * b..Min(BatchSize * b + BatchSize, |nodes|)]
  }

  /** The slice that starts where the batches so far end extends them. */
  lemma BatchesExtend(batches: seq<seq<nat>>, nodes: seq<nat>, batch: seq<nat>, index: nat)
    requires Batched(batches, nodes) && index == BatchSize * |batches| && index < |nodes|
    requires batch == nodes[index..Min(index + BatchSize, |nodes|)]
    ensures Batched(batches + [batch], nodes)
  {
  }

  /** The state of a run over the node texts `cur`: the snapshot holds every
      node in document order, the batches so far are the consecutive slices
      of at most 50 nodes that `index` has passed, the nodes before `index`
      hold the translation of their text at the snapshot, and the others
      still hold that text. */
  ghost predicate Running(cur: seq<string>, nodes: seq<nat>, origin: seq<string>, index: nat,
                          batches: seq<seq<nat>>, f: string -> string) {
    nodes == Range(0, |cur|)
    && |origin| == |cur|
    && index == BatchSize * |batches|
    && Batched(batches, nodes)
    && forall k: nat :: k < |cur| ==> StagedAt(cur, origin, index, f, k)
  }

  /** Translating the next slice of the snapshot advances the run by one batch. */
  lemma BatchAdvance(before: seq<string>, after: seq<string>, nodes: seq<nat>, origin: seq<string>,
                     index: nat, batches: seq<seq<nat>>, f: string -> string)
    requires Running(before, nodes, origin, index, batches, f) && index < |nodes|
    requires TranslatedTimes(after, before, multiset(nodes[index..Min(index + BatchSize, |nodes|)]), f)
    ensures Running(after, nodes, origin, index + BatchSize,
                    batches + [nodes[index..Min(index + BatchSize, |nodes|)]], f)
  {
    var hi := Min(index + BatchSize, |nodes|);
    var batch := nodes[index..hi];
    BatchCounts(|before|, index, hi);
    BatchDone(before, after, origin, multiset(batch), index, hi, f);
    BatchesExtend(batches, nodes, batch, index);
  }

  /** A list without repetitions holds each of its members once. */
  lemma {:induction false} DistinctCount(batch: seq<nat>, k: nat)
    requires forall i, j :: 0 <= i < j < |batch| ==> batch[i] != batch[j]
    ensures multiset(batch)[k] == if k in batch then 1 else 0
  {
    if batch != [] {
      var rest := batch[1..];
      assert batch == [batch[0]] + rest;
      assert forall i, j :: 0 <= i < j < |rest| ==> rest[i] != rest[j] by {
        forall i, j | 0 <= i < j < |rest| ensures rest[i] != rest[j] {
          assert rest[i] == batch[i + 1] && rest[j] == batch[j + 1];
        }
      }
      DistinctCount(rest, k);
      assert batch[0] !in rest by {
        forall i | 0 <= i < |rest| ensures rest[i] != batch[0] {
          assert rest[i] == batch[i + 1];
        }
      }
      assert multiset(batch) == multiset{batch[0]} + multiset(rest);
    }
  }

  /** A batch that lists each node at most once (as every slice of the
      snapshot does) leaves each listed node holding the translation of its
      former text and every other node holding its former text. */
  lemma DistinctBatchOnce(cur: seq<string>, orig: seq<string>, batch: seq<nat>,
                          lex: Table, names: Table, fold: char -> char)
    requires TranslatedTimes(cur, orig, multiset(batch), Translator(lex, names, fold))
    requires forall i, j :: 0 <= i < j < |batch| ==> batch[i] != batch[j]
    ensures forall k: nat :: k < |cur| ==>
              cur[k] == if k in batch then Translate(orig[k], lex, names, fold) else orig[k]
  {
    var f := Translator(lex, names, fold);
    forall k: nat | k < |cur|
      ensures cur[k] == if k in batch then Translate(orig[k], lex, names, fold) else orig[k]
    {
      assert CountedAt(cur, orig, multiset(batch), f, k);
      DistinctCount(batch, k);
      if k in batch {
        assert Iterate(f, orig[k], 1) == f(Iterate(f, orig[k], 0));
      }
    }
  }

  /** Nodes whose texts need no translation are left as they are by a batch,
      however often it lists them. */
  lemma BatchOverFixedNodes(cur: seq<string>, orig: seq<string>, m: multiset<nat>,
                            lex: Table, names: Table, fold: char -> char)
    requires TranslatedTimes(cur, orig, m, Translator(lex, names, fold))
    requires forall k :: 0 <= k < |orig| ==> Translate(orig[k], lex, names, fold) == orig[k]
    ensures cur == orig
  {
    var f := Translator(lex, names, fold);
    forall k: nat | k < |cur| ensures cur[k] == orig[k] {
      assert CountedAt(cur, orig, m, f, k);
      IterateFixed(f, orig[k], m[k]);
    }
  }

  /** A run over a page whose every text needs no translation leaves the page
      as it was at the snapshot, at every stage of the run. */
  lemma RunOverFixedPage(cur: seq<string>, nodes: seq<nat>, origin: seq<string>, index: nat,
                         batches: seq<seq<nat>>, lex: Table, names: Table, fold: char -> char)
    requires Running(cur, nodes, origin, index, batches, Translator(lex, names, fold))
    requires forall k :: 0 <= k < |origin| ==> Translate(origin[k], lex, names, fold) == origin[k]
    ensures cur == origin
  {
    forall k: nat | k < |cur| ensures cur[k] == origin[k] {
      assert StagedAt(cur, origin, index, Translator(lex, names, fold), k);
    }
  }

  /** The document's text nodes, the tables, and the state of a batch run. */
  class Page {
    const lex: Table
    const names: Table
    const fold: char -> char
    /** The text nodes, in document order; `text[k]` is node `k`'s `textContent`. */
    const text: array<string>

    var isTranslating: bool
    /** The snapshot of the current run: the nodes the walker visited. */
    var nodes: seq<nat>
    /** The first node of the next batch. */
    var index: nat
    /** A `processBatch` callback is waiting for the next animation frame. */
    var framePending: bool

    /** The node texts when the current run took its snapshot. */
    ghost var origin: seq<string>
    /** The batches of the current run so far. */
    ghost var batches: seq<seq<nat>>

    /** The state between two callbacks, except for the pending frame: the
        keys are literal, and a run in progress is in the state `Running`
        describes. */
    ghost predicate Inv()
      reads this, text
    {
      LiteralKeys(lex)
      && (isTranslating ==> Running(text[..], nodes, origin, index, batches, Translator(lex, names, fold)))
    }

    /** The state between two callbacks: a run in progress always has its next
        frame requested, and no frame is requested outside a run. */
    ghost predicate Valid()
      reads this, text
    {
      Inv() && (framePending <==> isTranslating)
    }

    constructor(dictionary: Table, event: Table, club: Table, school: Table,
                students: Table, fold: char -> char, text: array<string>)
      requires LiteralKeys(MergeAll(dictionary, event, club, school))
      ensures this.lex == MergeAll(dictionary, event, club, school)
      ensures this.names == students && this.fold == fold && this.text == text
      ensures Valid() && !isTranslating
    {
      this.lex := MergeAll(dictionary, event, club, school);
      this.names := students;
      this.fold := fold;
      this.text := text;
      isTranslating := false;
      nodes := [];
      index := 0;
      framePending := false;
      origin := [];
      batches := [];
    }

    /** The tree walker's loop: every text node, in document order. */
    method Snapshot() returns (ns: seq<nat>)
      ensures ns == Range(0, text.Length)
    {
      ns := [];
      var k := 0;
      while k < text.Length
        invariant k <= text.Length
        invariant ns == Range(0, k)
      {
        RangeSnoc(0, k);
        ns := ns + [k];
        k := k + 1;
      }
    }

    /** `translateBatch`: each listed node's text replaced by its translation,
        in list order. A node listed `m` times is translated `m` times over;
        unlisted nodes keep their text. */
    method TranslateBatch(batch: seq<nat>)
      requires LiteralKeys(lex)
      requires forall i :: 0 <= i < |batch| ==> batch[i] < text.Length
      modifies text
      ensures TranslatedTimes(text[..], old(text[..]), multiset(batch), Translator(lex, names, fold))
    {
      ghost var orig := text[..];
      for i := 0 to |batch|
        invariant TranslatedTimes(text[..], orig, multiset(batch[..i]), Translator(lex, names, fold))
      {
        var node := batch[i];
        assert multiset(batch[..i + 1]) == multiset(batch[..i]) + multiset{node} by {
          assert batch[..i + 1] == batch[..i] + [node];
        }
        var t := TranslateText(text[node], lex, names, fold);
        TranslateNode(text[..], orig, multiset(batch[..i]), node, t, Translator(lex, names, fold));
        text[node] := t;
      }
      assert batch[..|batch|] == batch;
    }

    /** `processBatch`: with nodes left, the next slice of at most 50 is
        translated, `index` moves on by 50 and the next frame is requested;
        otherwise the run ends and the flag is cleared. */
    method ProcessBatch()
      requires Inv() && isTranslating && !framePending
      modifies this, text
      ensures Valid()
      ensures nodes == old(nodes) && origin == old(origin)
      ensures old(index) < |nodes| ==>
                isTranslating && index == old(index) + BatchSize
                && batches == old(batches) + [nodes[old(index)..Min(old(index) + BatchSize, |nodes|)]]
      ensures old(index) >= |nodes| ==>
                !isTranslating && index == old(index) && batches == old(batches)
                && text[..] == old(text[..])
    {
      if index < |nodes| {
        NextBatch();
      } else {
        isTranslating := false;
      }
    }

    /** The first branch of `processBatch`. */
    method NextBatch()
      requires Inv() && isTranslating && !framePending && index < |nodes|
      modifies this, text
      ensures Valid() && isTranslating
      ensures nodes == old(nodes) && origin == old(origin) && index == old(index) + BatchSize
      ensures batches == old(batches) + [nodes[old(index)..Min(old(index) + BatchSize, |nodes|)]]
    {
      var hi := Min(index + BatchSize, |nodes|);
      var batch: seq<nat> := nodes[index..hi];
      BatchInRange(text.Length, index, hi);
      ghost var before, start, done := text[..], index, batches;
      batches := batches + [batch];
      index := index + BatchSize;
      framePending := true;
      TranslateBatch(batch);
      BatchAdvance(before, text[..], nodes, origin, start, done, Translator(lex, names, fold));
    }

    /** The animation-frame callback: the pending `processBatch` runs. */
    method Step()
      requires Valid() && framePending
      modifies this, text
      ensures Valid()
      ensures nodes == old(nodes) && origin == old(origin)
      ensures old(index) < |nodes| ==>
                isTranslating && index == old(index) + BatchSize
                && batches == old(batches) + [nodes[old(index)..Min(old(index) + BatchSize, |nodes|)]]
      ensures old(index) >= |nodes| ==>
                !isTranslating && text[..] == old(text[..])
                && forall k :: 0 <= k < text.Length ==> text[k] == Translate(origin[k], lex, names, fold)
    {
      if index >= |nodes| {
        forall k | 0 <= k < text.Length ensures text[k] == Translate(origin[k], lex, names, fold) {
          assert StagedAt(text[..], origin, index, Translator(lex, names, fold), k);
        }
      }
      framePending := false;
      ProcessBatch();
    }

    /** `translatePage`: while a run is in progress nothing happens; otherwise
        a run starts from a fresh snapshot and its first batch is translated at
        once. */
    method TranslatePage()
      requires Valid()
      modifies this, text
      ensures Valid()
      ensures old(isTranslating) ==> unchanged(this) && unchanged(text)
      ensures !old(isTranslating) ==>
                nodes == Range(0, text.Length) && origin == old(text[..])
                && (text.Length == 0 ==> !isTranslating)
                && (text.Length > 0 ==> isTranslating && index == BatchSize
                                        && batches == [nodes[..Min(BatchSize, text.Length)]])
    {
      if isTranslating {
        return;
      }
      isTranslating := true;
      nodes := Snapshot();
      index := 0;
      origin := text[..];
      batches := [];
      forall k: nat | k < text.Length ensures StagedAt(text[..], origin, index, Translator(lex, names, fold), k) {
      }
      ProcessBatch();
    }
  }

  /** The mutation observer with its throttle: `observerThrottle` is the
      pending timer, if any. */
  class Observer {
    const page: Page
    var timerPending: bool
    /** How many timers have been armed so far. */
    ghost var armed: nat

    constructor(page: Page)
      ensures this.page == page && !timerPending && armed == 0
    {
      this.page := page;
      timerPending := false;
      armed := 0;
    }

    /** `throttledObserver`: a timer is armed only when none is pending. */
    method Throttle()
      modifies this
      ensures timerPending
      ensures armed == old(armed) + if old(timerPending) then 0 else 1
    {
      if !timerPending {
        timerPending := true;
        armed := armed + 1;
      }
    }

    /** The observer callback: every `childList` record calls the throttle;
        other records are ignored. */
    method OnMutations(records: seq<MutationType>)
      modifies this
      ensures timerPending == (old(timerPending) || ChildList in records)
      ensures armed == old(armed) + if !old(timerPending) && ChildList in records then 1 else 0
    {
      for i := 0 to |records|
        invariant timerPending == (old(timerPending) || ChildList in records[..i])
        invariant armed == old(armed) + if !old(timerPending) && ChildList in records[..i] then 1 else 0
      {
        assert records[..i + 1] == records[..i] + [records[i]];
        if records[i] == ChildList {
          Throttle();
        }
      }
      assert records[..|records|] == records;
    }

    /** The timer callback: the page is translated, then the slot is cleared. */
    method Fire()
      requires timerPending && page.Valid()
      modifies this, page, page.text
      ensures !timerPending && armed == old(armed)
      ensures page.Valid()
      ensures old(page.isTranslating) ==> unchanged(page) && unchanged(page.text)
      ensures !old(page.isTranslating) ==>
                page.nodes == Range(0, page.text.Length) && page.origin == old(page.text[..])
                && (page.text.Length == 0 ==> !page.isTranslating)
                && (page.text.Length > 0 ==> page.isTranslating && page.index == BatchSize)
    {
      page.TranslatePage();
      timerPending := false;
    }
  }
}
