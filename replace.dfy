/** `String.prototype.replace` with a global regular expression, for the
    patterns this engine builds. A pattern is given by its matcher: for each
    position of the subject, whether the pattern matches there, how many
    characters the match spans and what text takes their place. */
module Replace {
  import opened Text

  /** A match at some position: its length and its replacement text. */
  datatype Hit = Hit(len: nat, text: string)

  /** The pattern tried at each position of one fixed subject. */
  type Matcher = nat -> Option<Hit>

  /** The matcher reports a match at `i` that lies inside `s`. */
  predicate Fits(s: string, i: nat, at: Matcher) {
    i <= |s| && at(i).Some? && i + at(i).value.len <= |s|
  }

  /** The leftmost position at or after `from` where the pattern matches:
      what one call of `RegExp.prototype.exec` finds from `lastIndex`. */
  function FirstFit(s: string, at: Matcher, from: nat): (p: Option<nat>)
    requires from <= |s|
    ensures p.Some? ==> from <= p.value && Fits(s, p.value, at)
    ensures p.Some? ==> forall q :: from <= q < p.value ==> !Fits(s, q, at)
    ensures p.None? ==> forall q :: from <= q <= |s| ==> !Fits(s, q, at)
    decreases |s| - from
  {
    if Fits(s, from, at) then Some(from)
    else if from == |s| then None
    else FirstFit(s, at, from + 1)
  }

  /** The global replace loop: find the leftmost match from the current
      position, copy the text before it, emit the replacement and go on after
      the match. Replacement text is never searched again. */
  function ReplaceAll(s: string, at: Matcher, from: nat := 0): string
    requires from <= |s|
    decreases |s| - from, 1
  {
    match FirstFit(s, at, from)
    case None => s[from..]
    case Some(p) => s[from..p] + AfterMatch(s, at, p)
  }

  /** The replacement of the match at `p`, then the loop after it. After an
      empty match the search resumes one character further on, so that
      character is copied. */
  function AfterMatch(s: string, at: Matcher, p: nat): string
    requires Fits(s, p, at)
    decreases |s| - p, 0
  {
    var h := at(p).value;
    if h.len > 0 then h.text + ReplaceAll(s, at, p + h.len)
    else if p == |s| then h.text
    else h.text + [s[p]] + ReplaceAll(s, at, p + 1)
  }

  /** The same rewriting stated one position at a time, left to right: where the
      pattern matches, its replacement is emitted and the matched characters are
      skipped; elsewhere the character is kept. */
  function Rewrite(s: string, at: Matcher, i: nat := 0): string
    requires i <= |s|
    decreases |s| - i
  {
    if Fits(s, i, at) then
      var h := at(i).value;
      if h.len > 0 then h.text + Rewrite(s, at, i + h.len)
      else if i == |s| then h.text
      else h.text + [s[i]] + Rewrite(s, at, i + 1)
    else if i == |s| then []
    else [s[i]] + Rewrite(s, at, i + 1)
  }

  /** Where the pattern does not match, the search loop keeps the character
      and goes on from the next position. */
  lemma SkipNonMatch(s: string, at: Matcher, from: nat)
    requires from < |s| && !Fits(s, from, at)
    ensures ReplaceAll(s, at, from) == [s[from]] + ReplaceAll(s, at, from + 1)
  {
    assert FirstFit(s, at, from) == FirstFit(s, at, from + 1);
    match FirstFit(s, at, from + 1)
    case None =>
      assert s[from..] == [s[from]] + s[from + 1..];
    case Some(p) =>
      assert s[from..p] == [s[from]] + s[from + 1..p];
      assert ReplaceAll(s, at, from) == s[from..p] + AfterMatch(s, at, p);
      assert ReplaceAll(s, at, from + 1) == s[from + 1..p] + AfterMatch(s, at, p);
  }

  /** Where the pattern matches, the search loop goes on with that match. */
  lemma TakeMatch(s: string, at: Matcher, from: nat)
    requires Fits(s, from, at)
    ensures ReplaceAll(s, at, from) == AfterMatch(s, at, from)
  {
    assert FirstFit(s, at, from) == Some(from);
    assert s[from..from] == [];
  }

  /** The search loop and the left-to-right scan agree on every subject. */
  lemma {:induction false} ReplaceAllIsRewrite(s: string, at: Matcher, from: nat)
    requires from <= |s|
    ensures ReplaceAll(s, at, from) == Rewrite(s, at, from)
    decreases |s| - from
  {
    RewriteStep(s, at, from);
    if Fits(s, from, at) {
      var h := at(from).value;
      TakeMatch(s, at, from);
      if h.len > 0 {
        ReplaceAllIsRewrite(s, at, from + h.len);
      } else if from < |s| {
        ReplaceAllIsRewrite(s, at, from + 1);
      }
    } else if from < |s| {
      ReplaceAllIsRewrite(s, at, from + 1);
      SkipNonMatch(s, at, from);
    }
  }

  /** A subject in which the pattern matches nowhere is returned unchanged. */
  lemma {:induction false} NoMatchUnchanged(s: string, at: Matcher, from: nat)
    requires from <= |s|
    requires forall q :: from <= q <= |s| ==> !Fits(s, q, at)
    ensures ReplaceAll(s, at, from) == s[from..]
  {
  }

  /** Two matchers that agree on every position of `s` rewrite `s` alike. */
  lemma {:induction false} SameMatchesSameResult(s: string, at: Matcher, at': Matcher, i: nat)
    requires i <= |s|
    requires forall q :: i <= q <= |s| ==> at(q) == at'(q)
    ensures Rewrite(s, at, i) == Rewrite(s, at', i)
    decreases |s| - i
  {
    assert at(i) == at'(i);
    if Fits(s, i, at) {
      var h := at(i).value;
      if h.len > 0 {
        SameMatchesSameResult(s, at, at', i + h.len);
      } else if i < |s| {
        SameMatchesSameResult(s, at, at', i + 1);
      }
    } else if i < |s| {
      SameMatchesSameResult(s, at, at', i + 1);
    }
    RewriteStep(s, at, i);
    RewriteStep(s, at', i);
  }

  /** One step of the scan. */
  lemma RewriteStep(s: string, at: Matcher, i: nat)
    requires i <= |s|
    ensures Rewrite(s, at, i) ==
      if !Fits(s, i, at) then (if i == |s| then [] else [s[i]] + Rewrite(s, at, i + 1))
      else if at(i).value.len > 0 then at(i).value.text + Rewrite(s, at, i + at(i).value.len)
      else if i == |s| then at(i).value.text
      else at(i).value.text + [s[i]] + Rewrite(s, at, i + 1)
  {
  }

  /** `GetSubstitution` of ECMAScript for a pattern without capture groups:
      the replacement string `v` for the match `s[p..p + len]`, where `$$`
      stands for `$`, `$&` for the match, `` $` `` for the text before it and
      `$'` for the text after it; any other `$` is literal. */
  function Substitute(v: string, s: string, p: nat, len: nat): string
    requires p + len <= |s|
  {
    if v == [] then []
    else if v[0] != '$' || |v| == 1 then [v[0]] + Substitute(v[1..], s, p, len)
    else if v[1] == '$' then "$" + Substitute(v[2..], s, p, len)
    else if v[1] == '&' then s[p..p + len] + Substitute(v[2..], s, p, len)
    else if v[1] == '`' then s[..p] + Substitute(v[2..], s, p, len)
    else if v[1] == '\'' then s[p + len..] + Substitute(v[2..], s, p, len)
    else "$" + Substitute(v[1..], s, p, len)
  }

  /** A replacement string without `$` is inserted verbatim. */
  lemma {:induction false} SubstitutePlain(v: string, s: string, p: nat, len: nat)
    requires p + len <= |s|
    requires forall k :: 0 <= k < |v| ==> v[k] != '$'
    ensures Substitute(v, s, p, len) == v
  {
    if v != [] {
      SubstitutePlain(v[1..], s, p, len);
    }
  }
}
