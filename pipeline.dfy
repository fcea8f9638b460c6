/** `translateText` (content.js:83-88): the vocabulary pass, then the name
    pass on its output. */
module Pipeline {
  import opened Text
  import opened Replace
  import opened Lexicon
  import opened Vocabulary
  import opened Names

  /** The translation of one text under the merged lexicon `lex` and the name
      table `names`. */
  function Translate(s: string, lex: seq<Entry>, names: Table, fold: char -> char): string {
    NamesPass(Vocab(s, lex, fold), names, fold)
  }

  /** `translateText`. */
  method TranslateText(text: string, lex: Table, names: Table, fold: char -> char) returns (r: string)
    requires LiteralKeys(lex)
    ensures r == Translate(text, lex, names, fold)
  {
    r := TranslateVocabulary(text, lex, fold);
    r := TranslateStudentNames(r, names, fold);
  }

  /** `f` applied `n` times over, starting from `s`. */
  function Iterate(f: string -> string, s: string, n: nat): string {
    if n == 0 then s else f(Iterate(f, s, n - 1))
  }

  /** A fixed point of `f` stays put however often `f` is applied. */
  lemma {:induction false} IterateFixed(f: string -> string, s: string, n: nat)
    requires f(s) == s
    ensures Iterate(f, s, n) == s
  {
    if n > 0 {
      IterateFixed(f, s, n - 1);
    }
  }

  /** `Translate` under fixed tables, as a function of the text alone. */
  function Translator(lex: seq<Entry>, names: Table, fold: char -> char): string -> string {
    t => Translate(t, lex, names, fold)
  }

  /** `Translate` applied `n` times over. */
  function TranslateTimes(s: string, n: nat, lex: seq<Entry>, names: Table, fold: char -> char): string {
    Iterate(Translator(lex, names, fold), s, n)
  }

  /** With both tables still empty, as before they are loaded, translating
      changes nothing. */
  lemma EmptyTablesIdentity(s: string, fold: char -> char)
    ensures Translate(s, [], [], fold) == s
  {
    assert SortByLength([]) == [];
  }

  /** A text in which no vocabulary entry matches and no name occurs is its
      own translation; such a text is a fixed point of every later pass. */
  lemma NothingToTranslate(s: string, lex: seq<Entry>, names: Table, fold: char -> char, n: nat)
    requires forall e, q :: 0 <= e < |lex| && 0 <= q <= |s| ==> !Fits(s, q, RuleMatcher(s, Classify(lex[e].0), lex[e].1, fold))
    requires forall e, q :: 0 <= e < |names| && 0 <= q <= |s| ==> !FoldMatchAt(s, q, names[e].0, fold)
    ensures Translate(s, lex, names, fold) == s
    ensures TranslateTimes(s, n, lex, names, fold) == s
  {
    VocabNoMatchUnchanged(s, lex, fold);
    NamesPassNoMatchUnchanged(s, names, fold);
    IterateFixed(Translator(lex, names, fold), s, n);
  }
}
