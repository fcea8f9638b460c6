/** The name pass (`translateStudentNames`, content.js:56-79): the name table's
    entries, longest key first, each replacing its name case-insensitively,
    together with a parenthetical that may follow it, whose Hangul syllables
    are looked up one by one. */
module Names {
  import opened Text
  import opened Replace
  import opened Lexicon

  /* ---------- Ordering: `sort(([a], [b]) => b.length - a.length)` ---------- */

  /** No entry has a shorter key than an entry after it. */
  predicate LongestFirst(t: seq<Entry>) {
    forall i, j :: 0 <= i < j < |t| ==> |t[i].0| >= |t[j].0|
  }

  /** The entries of `t` whose key has length `n`, in order. */
  function WithLength(t: seq<Entry>, n: nat): seq<Entry> {
    if t == [] then []
    else if |t[0].0| == n then [t[0]] + WithLength(t[1..], n)
    else WithLength(t[1..], n)
  }

  /** `x` placed before the first entry of `t` whose key is not longer than
      its own, so that it stays ahead of the later entries of equal length. */
  function Insert(x: Entry, t: seq<Entry>): seq<Entry> {
    if t == [] || |t[0].0| <= |x.0| then [x] + t else [t[0]] + Insert(x, t[1..])
  }

  /** The sort: each entry, from the last to the first, inserted into the
      sorted rest. */
  function SortByLength(t: seq<Entry>): seq<Entry> {
    if t == [] then [] else Insert(t[0], SortByLength(t[1..]))
  }

  /** Inserting into a table that is longest first keeps it so. */
  lemma {:induction false} InsertLongestFirst(x: Entry, t: seq<Entry>)
    requires LongestFirst(t)
    ensures LongestFirst(Insert(x, t))
    ensures |Insert(x, t)| == |t| + 1
    ensures Insert(x, t) != [] && (Insert(x, t)[0] == x || Insert(x, t)[0] == t[0])
  {
    if t != [] && |t[0].0| > |x.0| {
      InsertLongestFirst(x, t[1..]);
    }
  }

  /** Inserting adds `x` and nothing else. */
  lemma {:induction false} InsertPermutes(x: Entry, t: seq<Entry>)
    ensures multiset(Insert(x, t)) == multiset([x] + t)
  {
    if t != [] && |t[0].0| > |x.0| {
      InsertPermutes(x, t[1..]);
      assert t == [t[0]] + t[1..];
    }
  }

  /** Among the entries of `x`'s length, `x` comes first after the insertion;
      the others keep their order. */
  lemma {:induction false} InsertStable(x: Entry, t: seq<Entry>, n: nat)
    requires LongestFirst(t)
    ensures WithLength(Insert(x, t), n) == (if |x.0| == n then [x] else []) + WithLength(t, n)
  {
    if t == [] || |t[0].0| <= |x.0| {
      assert ([x] + t)[1..] == t;
    } else {
      var r := Insert(x, t);
      InsertStable(x, t[1..], n);
      assert r[1..] == Insert(x, t[1..]);
      if |t[0].0| == n {
        assert |x.0| != n;
      }
    }
  }

  /** `sort(([a], [b]) => b.length - a.length)` is a stable sort: the result
      is a permutation of `t`, longest key first, and the entries of each key
      length come in the order `t` had them. */
  lemma {:induction false} SortByLengthIsStableSort(t: seq<Entry>)
    ensures LongestFirst(SortByLength(t))
    ensures multiset(SortByLength(t)) == multiset(t)
    ensures forall n :: WithLength(SortByLength(t), n) == WithLength(t, n)
  {
    if t != [] {
      var rest := SortByLength(t[1..]);
      SortByLengthIsStableSort(t[1..]);
      InsertLongestFirst(t[0], rest);
      InsertPermutes(t[0], rest);
      assert t == [t[0]] + t[1..];
      forall n ensures WithLength(SortByLength(t), n) == WithLength(t, n) {
        InsertStable(t[0], rest, n);
      }
    }
  }

  /* ---------- One entry: `(NAME)(\([^\)]+\))?` with flags `gi` ---------- */

  /** `s[j..e]` is `(`, one or more characters other than `)`, then `)`. */
  predicate IsParenthetical(s: string, j: nat, e: nat) {
    j + 3 <= e <= |s| && s[j] == '(' && s[e - 1] == ')'
    && forall k :: j < k < e - 1 ==> s[k] != ')'
  }

  /** The first `)` at or after `from`. */
  function FirstClose(s: string, from: nat): (r: Option<nat>)
    requires from <= |s|
    ensures r.Some? ==> from <= r.value < |s| && s[r.value] == ')'
    ensures r.Some? ==> forall k :: from <= k < r.value ==> s[k] != ')'
    ensures r.None? ==> forall k :: from <= k < |s| ==> s[k] != ')'
    decreases |s| - from
  {
    if from == |s| then None
    else if s[from] == ')' then Some(from)
    else FirstClose(s, from + 1)
  }

  /** The end of the parenthetical that starts at `j`, if one does: the
      greedy `[^\)]+` runs up to the first `)`, which must not come at once. */
  function ParenAt(s: string, j: nat): (r: Option<nat>)
    ensures r.Some? ==> IsParenthetical(s, j, r.value)
    ensures r.None? ==> forall e :: !IsParenthetical(s, j, e)
  {
    if j < |s| && s[j] == '(' then
      match FirstClose(s, j + 1)
      case Some(k) => if k >= j + 2 then Some(k + 1) else None
      case None => None
    else None
  }

  /** `studentMapping[char] || char` for one character of the parenthetical:
      a Hangul syllable with a non-empty entry becomes that entry; every other
      character stays. */
  function TranslateChar(c: char, names: Table): string {
    if IsHangul(c) then
      match Get(names, [c])
      case Some(v) => if v != "" then v else [c]
      case None => [c]
    else [c]
  }

  /** The parenthetical, character by character. */
  function TranslateParen(p: string, names: Table): string {
    if p == [] then [] else TranslateChar(p[0], names) + TranslateParen(p[1..], names)
  }

  /** Translating a parenthetical piecewise is translating it whole. */
  lemma {:induction false} TranslateParenAppend(a: string, b: string, names: Table)
    ensures TranslateParen(a + b, names) == TranslateParen(a, names) + TranslateParen(b, names)
  {
    if a != [] {
      assert (a + b)[0] == a[0];
      assert (a + b)[1..] == a[1..] + b;
      TranslateParenAppend(a[1..], b, names);
    } else {
      assert a + b == b;
    }
  }

  /** A text without Hangul syllables comes through the translation unchanged. */
  lemma {:induction false} TranslateParenNoHangul(p: string, names: Table)
    requires forall k :: 0 <= k < |p| ==> !IsHangul(p[k])
    ensures TranslateParen(p, names) == p
  {
    if p != [] {
      TranslateParenNoHangul(p[1..], names);
    }
  }

  /** A parenthetical keeps its brackets; only its inside is translated. */
  lemma TranslateBrackets(s: string, j: nat, e: nat, names: Table)
    requires IsParenthetical(s, j, e)
    ensures TranslateParen(s[j..e], names) == "(" + TranslateParen(s[j + 1..e - 1], names) + ")"
  {
    var inside := s[j + 1..e - 1];
    assert s[j..e] == "(" + inside + ")";
    TranslateParenAppend("(" + inside, ")", names);
    TranslateParenAppend("(", inside, names);
    assert TranslateParen("(", names) == "(" by {
      assert !IsHangul('(');
    }
    assert TranslateParen(")", names) == ")" by {
      assert !IsHangul(')');
    }
  }

  /** The match of the name `name` at position `i` of `s`, with its
      replacement: the name, and the parenthetical right after it if there is
      one. */
  function NameHit(s: string, name: string, target: string, fold: char -> char, names: Table, i: nat): (r: Option<Hit>)
    ensures r.Some? <==> FoldMatchAt(s, i, name, fold)
  {
    if FoldMatchAt(s, i, name, fold) then
      var j := i + |name|;
      match ParenAt(s, j)
      case Some(e) => Some(Hit(e - i, target + TranslateParen(s[j..e], names)))
      case None => Some(Hit(|name|, target))
    else None
  }

  /** At most one parenthetical starts at a position: it ends at the first `)`. */
  lemma ParenUnique(s: string, j: nat, e: nat, e': nat)
    requires IsParenthetical(s, j, e) && IsParenthetical(s, j, e')
    ensures e == e'
  {
    if e < e' {
      assert false;
    } else if e' < e {
      assert false;
    }
  }

  /** Where the name occurs with no parenthetical right after it, the match
      is the name alone and becomes `target`. */
  lemma NameAlone(s: string, name: string, target: string, fold: char -> char, names: Table, i: nat)
    requires FoldMatchAt(s, i, name, fold)
    requires var j := i + |name|; forall e: nat :: !IsParenthetical(s, j, e)
    ensures NameHit(s, name, target, fold, names, i) == Some(Hit(|name|, target))
  {
    assert ParenAt(s, i + |name|).None?;
  }

  /** Where the name occurs with a parenthetical `s[i + |name|..e]` right after
      it, the match takes the parenthetical in and becomes `target`, then `(`,
      its inside translated syllable by syllable, then `)`. */
  lemma NameWithParenthetical(s: string, name: string, target: string, fold: char -> char, names: Table, i: nat, e: nat)
    requires FoldMatchAt(s, i, name, fold)
    requires IsParenthetical(s, i + |name|, e)
    ensures NameHit(s, name, target, fold, names, i)
            == Some(Hit(e - i, target + "(" + TranslateParen(s[i + |name| + 1..e - 1], names) + ")"))
  {
    var j := i + |name|;
    ParenUnique(s, j, e, ParenAt(s, j).value);
    NameHitAt(s, name, target, fold, names, i, e);
    TranslateBrackets(s, j, e, names);
    var inside := TranslateParen(s[j + 1..e - 1], names);
    assert target + ("(" + inside + ")") == target + "(" + inside + ")";
  }

  /** The replacement when the parenthetical ends at `e`. */
  lemma NameHitAt(s: string, name: string, target: string, fold: char -> char, names: Table, i: nat, e: nat)
    requires FoldMatchAt(s, i, name, fold)
    requires ParenAt(s, i + |name|) == Some(e)
    ensures NameHit(s, name, target, fold, names, i) == Some(Hit(e - i, target + TranslateParen(s[i + |name|..e], names)))
  {
  }

  /** The pattern of one name entry, tried against the subject `s`. */
  function NameMatcher(s: string, e: Entry, names: Table, fold: char -> char): Matcher {
    (i: nat) => NameHit(s, e.0, e.1, fold, names, i)
  }

  /** `text.replace(regexWithParens, callback)` for one entry. */
  function ApplyName(s: string, e: Entry, names: Table, fold: char -> char): string {
    ReplaceAll(s, NameMatcher(s, e, names, fold))
  }

  /** The loop over the sorted entries, each rewriting the previous result. */
  function NamesFold(s: string, sorted: seq<Entry>, names: Table, fold: char -> char): string
    decreases |sorted|
  {
    if sorted == [] then s else NamesFold(ApplyName(s, sorted[0], names, fold), sorted[1..], names, fold)
  }

  /** Running the loop over `a + b` is running it over `a`, then over `b`. */
  lemma {:induction false} NamesFoldAppend(s: string, a: seq<Entry>, b: seq<Entry>, names: Table, fold: char -> char)
    ensures NamesFold(s, a + b, names, fold) == NamesFold(NamesFold(s, a, names, fold), b, names, fold)
    decreases |a|
  {
    if a == [] {
      assert a + b == b;
    } else {
      assert (a + b)[1..] == a[1..] + b;
      NamesFoldAppend(ApplyName(s, a[0], names, fold), a[1..], b, names, fold);
    }
  }

  /** The whole pass: the entries sorted longest first, then the loop. */
  function NamesPass(s: string, names: Table, fold: char -> char): string {
    NamesFold(s, SortByLength(names), names, fold)
  }

  /** The loop over one entry is that entry's rewriting. */
  lemma NamesFoldSingle(s: string, e: Entry, names: Table, fold: char -> char)
    ensures NamesFold(s, [e], names, fold) == ApplyName(s, e, names, fold)
  {
    assert [e][1..] == [];
  }

  /** One more turn of the loop extends the fold by the next entry. */
  lemma NamesStep(s: string, sorted: seq<Entry>, n: nat, names: Table, fold: char -> char)
    requires n < |sorted|
    ensures NamesFold(s, sorted[..n + 1], names, fold) == ApplyName(NamesFold(s, sorted[..n], names, fold), sorted[n], names, fold)
  {
    assert sorted[..n + 1] == sorted[..n] + [sorted[n]];
    NamesFoldAppend(s, sorted[..n], [sorted[n]], names, fold);
    NamesFoldSingle(NamesFold(s, sorted[..n], names, fold), sorted[n], names, fold);
  }

  /** `translateStudentNames`. */
  method TranslateStudentNames(text: string, names: Table, fold: char -> char) returns (r: string)
    ensures r == NamesPass(text, names, fold)
  {
    var sorted := SortByLength(names);
    r := text;
    for n := 0 to |sorted|
      invariant r == NamesFold(text, sorted[..n], names, fold)
    {
      NamesStep(text, sorted, n, names, fold);
      r := ApplyName(r, sorted[n], names, fold);
    }
    assert sorted[..|sorted|] == sorted;
  }

  /** Where no name of the table occurs in `s`, in any case, the pass leaves
      `s` unchanged. */
  lemma {:induction false} NamesFoldNoMatchUnchanged(s: string, sorted: seq<Entry>, names: Table, fold: char -> char)
    requires forall n, q :: 0 <= n < |sorted| && 0 <= q <= |s| ==> !FoldMatchAt(s, q, sorted[n].0, fold)
    ensures NamesFold(s, sorted, names, fold) == s
    decreases |sorted|
  {
    if sorted != [] {
      var at := NameMatcher(s, sorted[0], names, fold);
      assert forall q :: 0 <= q <= |s| ==> !Fits(s, q, at);
      NoMatchUnchanged(s, at, 0);
      NamesFoldNoMatchUnchanged(s, sorted[1..], names, fold);
    }
  }

  /** The same for the whole pass. */
  lemma NamesPassNoMatchUnchanged(s: string, names: Table, fold: char -> char)
    requires forall n, q :: 0 <= n < |names| && 0 <= q <= |s| ==> !FoldMatchAt(s, q, names[n].0, fold)
    ensures NamesPass(s, names, fold) == s
  {
    var sorted := SortByLength(names);
    SortByLengthIsStableSort(names);
    forall n, q | 0 <= n < |sorted| && 0 <= q <= |s| ensures !FoldMatchAt(s, q, sorted[n].0, fold) {
      assert sorted[n] in multiset(names);
    }
    NamesFoldNoMatchUnchanged(s, sorted, names, fold);
  }
}
