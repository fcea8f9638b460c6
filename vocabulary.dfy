/** The vocabulary pass (`translateVocabulary`, content.js:32-54): a left fold
    over the merged lexicon in its iteration order, where each entry rewrites
    the text the previous entry produced. */
module Vocabulary {
  import opened Text
  import opened Replace
  import opened Lexicon

  /** The marker of a digit-bounded single-character key. */
  const Tag: string := "(單字)"

  /** How a lexicon key is matched. */
  datatype Rule =
    | Word(key: string)          // literal, global, case-insensitive
    | DigitBounded(key: string)  // literal, global, case-sensitive, next to a digit

  /** A key containing the tag loses its first occurrence of the tag and is
      trimmed; any other key is only trimmed. */
  function Classify(key: string): Rule {
    match IndexOf(key, Tag)
    case Some(p) => DigitBounded(Trim(key[..p] + key[p + |Tag|..]))
    case None => Word(Trim(key))
  }

  /** The characters with a meaning of their own in a regular expression. */
  predicate IsMeta(c: char) {
    c == '\\' || c == '^' || c == '$' || c == '.' || c == '|' || c == '?' || c == '*'
    || c == '+' || c == '(' || c == ')' || c == '[' || c == ']' || c == '{' || c == '}'
  }

  /** A key that a regular expression built from it matches literally. */
  predicate IsLiteral(key: string) {
    forall k :: 0 <= k < |key| ==> !IsMeta(key[k])
  }

  /** Every key of the lexicon, once classified, is a literal pattern. */
  predicate LiteralKeys(lex: seq<Entry>) {
    lex == [] || (IsLiteral(Classify(lex[0].0).key) && LiteralKeys(lex[1..]))
  }

  /** `key` occurs at `i` and touches an ASCII digit on its left or its right,
      both judged in the text as it was before this entry's replacements. */
  predicate DigitAdjacentAt(s: string, i: nat, key: string) {
    OccursAt(s, i, key)
    && ((0 < i <= |s| && IsDigit(s[i - 1])) || (i + |key| < |s| && IsDigit(s[i + |key|])))
  }

  /** The match of an entry at position `i` of `s`, with its replacement string
      expanded. */
  function EntryHit(s: string, rule: Rule, value: string, fold: char -> char, i: nat): Option<Hit> {
    match rule
    case Word(k) =>
      if FoldMatchAt(s, i, k, fold) then Some(Hit(|k|, Substitute(value, s, i, |k|))) else None
    case DigitBounded(k) =>
      if DigitAdjacentAt(s, i, k) then Some(Hit(|k|, Substitute(value, s, i, |k|))) else None
  }

  /** The pattern of one rule, tried against the subject `s`. */
  function RuleMatcher(s: string, rule: Rule, value: string, fold: char -> char): Matcher {
    (i: nat) => EntryHit(s, rule, value, fold, i)
  }

  /** `text.replace(regex, value)` for the pattern built from `rule`. */
  function ApplyRule(s: string, rule: Rule, value: string, fold: char -> char): string {
    ReplaceAll(s, RuleMatcher(s, rule, value, fold))
  }

  /** One step of the loop: the entry's key is classified, and its pattern
      replaces every match in `s` by the entry's value. */
  function ApplyEntry(s: string, e: Entry, fold: char -> char): string {
    ApplyRule(s, Classify(e.0), e.1, fold)
  }

  /** The fold: the first entry rewrites `s`, the next rewrites that, and so on. */
  function Vocab(s: string, lex: seq<Entry>, fold: char -> char): string
    decreases |lex|
  {
    if lex == [] then s else Vocab(ApplyEntry(s, lex[0], fold), lex[1..], fold)
  }

  /** Running the fold over `a + b` is running it over `a`, then over `b`. */
  lemma {:induction false} VocabAppend(s: string, a: seq<Entry>, b: seq<Entry>, fold: char -> char)
    ensures Vocab(s, a + b, fold) == Vocab(Vocab(s, a, fold), b, fold)
    decreases |a|
  {
    if a == [] {
      assert a + b == b;
    } else {
      assert (a + b)[1..] == a[1..] + b;
      VocabAppend(ApplyEntry(s, a[0], fold), a[1..], b, fold);
    }
  }

  /** The fold over one entry is that entry's rewriting. */
  lemma VocabSingle(s: string, e: Entry, fold: char -> char)
    ensures Vocab(s, [e], fold) == ApplyEntry(s, e, fold)
  {
    assert [e][1..] == [];
  }

  /** One more turn of the loop extends the fold by the next entry. */
  lemma VocabStep(s: string, lex: seq<Entry>, n: nat, fold: char -> char)
    requires n < |lex|
    ensures Vocab(s, lex[..n + 1], fold) == ApplyEntry(Vocab(s, lex[..n], fold), lex[n], fold)
  {
    assert lex[..n + 1] == lex[..n] + [lex[n]];
    VocabAppend(s, lex[..n], [lex[n]], fold);
    VocabSingle(Vocab(s, lex[..n], fold), lex[n], fold);
  }

  /** `translateVocabulary`: the loop over the lexicon entries. */
  method TranslateVocabulary(text: string, lex: Table, fold: char -> char) returns (r: string)
    requires LiteralKeys(lex)
    ensures r == Vocab(text, lex, fold)
  {
    r := text;
    for n := 0 to |lex|
      invariant r == Vocab(text, lex[..n], fold)
    {
      VocabStep(text, lex, n, fold);
      r := ApplyEntry(r, lex[n], fold);
    }
    assert lex[..|lex|] == lex;
  }

  /** An ordinary entry whose key occurs nowhere in `s`, in any case, leaves
      `s` unchanged. */
  lemma WordAbsentUnchanged(s: string, e: Entry, fold: char -> char)
    requires Classify(e.0).Word?
    requires forall i :: 0 <= i <= |s| ==> !FoldMatchAt(s, i, Classify(e.0).key, fold)
    ensures ApplyEntry(s, e, fold) == s
  {
    var at := RuleMatcher(s, Classify(e.0), e.1, fold);
    assert forall q :: 0 <= q <= |s| ==> !Fits(s, q, at);
    NoMatchUnchanged(s, at, 0);
  }

  /** A digit-bounded entry none of whose occurrences in `s` touches a digit
      leaves `s` unchanged. */
  lemma DigitFreeUnchanged(s: string, e: Entry, fold: char -> char)
    requires Classify(e.0).DigitBounded?
    requires forall i :: 0 <= i <= |s| ==> !DigitAdjacentAt(s, i, Classify(e.0).key)
    ensures ApplyEntry(s, e, fold) == s
  {
    var at := RuleMatcher(s, Classify(e.0), e.1, fold);
    assert forall q :: 0 <= q <= |s| ==> !Fits(s, q, at);
    NoMatchUnchanged(s, at, 0);
  }

  /** Two keys that differ only in case under `fold`: the ordinary entries
      built from them, with one value, rewrite every text alike. */
  lemma CaseInsensitive(s: string, k1: string, k2: string, v: string, fold: char -> char)
    requires Classify(k1).Word? && Classify(k2).Word?
    requires |Classify(k1).key| == |Classify(k2).key|
    requires forall j :: 0 <= j < |Classify(k1).key| ==>
               fold(Classify(k1).key[j]) == fold(Classify(k2).key[j])
    ensures ApplyEntry(s, (k1, v), fold) == ApplyEntry(s, (k2, v), fold)
  {
    var at1 := RuleMatcher(s, Classify(k1), v, fold);
    var at2 := RuleMatcher(s, Classify(k2), v, fold);
    var w1, w2 := Classify(k1).key, Classify(k2).key;
    forall q | 0 <= q <= |s|
      ensures FoldMatchAt(s, q, w1, fold) == FoldMatchAt(s, q, w2, fold)
    {
      if q + |w1| <= |s| {
        assert forall j :: 0 <= j < |w1| ==> (fold(s[q + j]) == fold(w1[j]) <==> fold(s[q + j]) == fold(w2[j]));
      }
    }
    assert forall q :: 0 <= q <= |s| ==> at1(q) == at2(q);
    SameMatchesSameResult(s, at1, at2, 0);
    ReplaceAllIsRewrite(s, at1, 0);
    ReplaceAllIsRewrite(s, at2, 0);
  }

  /** Where no entry of the lexicon matches `s`, the whole pass leaves `s`
      unchanged. */
  lemma {:induction false} VocabNoMatchUnchanged(s: string, lex: seq<Entry>, fold: char -> char)
    requires forall n, q :: 0 <= n < |lex| && 0 <= q <= |s| ==> !Fits(s, q, RuleMatcher(s, Classify(lex[n].0), lex[n].1, fold))
    ensures Vocab(s, lex, fold) == s
  {
    if lex != [] {
      NoMatchUnchanged(s, RuleMatcher(s, Classify(lex[0].0), lex[0].1, fold), 0);
      VocabNoMatchUnchanged(s, lex[1..], fold);
    }
  }
}
