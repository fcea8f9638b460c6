/** Worked cases of the two passes, on small tables, with an ASCII case fold. */
module Scenarios {
  import opened Text
  import opened Replace
  import opened Lexicon
  import opened Vocabulary
  import opened Names

  /** A case fold for the examples: ASCII letters compared without case. */
  function AsciiUpper(c: char): char {
    if 'a' <= c <= 'z' then (c as int - 32) as char else c
  }

  /** The tag is cut out of a tagged key. */
  lemma ClassifyTagged(k: string)
    requires k == "A(單字)"
    ensures Classify(k) == DigitBounded("A")
  {
    assert OccursAt(k, 1, Tag);
    assert k[0..4][0] == 'A' && Tag[0] == '(';
    assert !OccursAt(k, 0, Tag);
    assert IndexOf(k, Tag) == Some(1);
    assert k[..1] + k[5..] == "A";
    assert LeadingSpaces("A") == 0;
    assert TrailingSpaces("A", 0, 1) == 0;
  }

  /** A key without the tag is an ordinary word. */
  lemma ClassifyPlain(k: string)
    requires k == "hello"
    ensures Classify(k) == Word(k)
  {
    forall q | 0 <= q <= 5 ensures !OccursAt(k, q, Tag) {
      if q + |Tag| <= 5 {
        assert k[q..q + |Tag|][0] != Tag[0];
      }
    }
    assert IndexOf(k, Tag) == None;
    assert LeadingSpaces(k) == 0;
    assert TrailingSpaces(k, 0, 5) == 0;
  }

  /** Only the occurrence next to the digit is replaced. */
  lemma DigitRule(s: string)
    requires s == "3AA"
    ensures ApplyRule(s, DigitBounded("A"), "B", AsciiUpper) == "3BA"
  {
    var at := RuleMatcher(s, DigitBounded("A"), "B", AsciiUpper);
    ReplaceAllIsRewrite(s, at, 0);
    assert !Fits(s, 3, at);
    assert !Fits(s, 2, at) by { assert s[1] == 'A'; }
    assert Rewrite(s, at, 2) == "A";
    assert Substitute("B", s, 1, 1) == "B";
    assert at(1) == Some(Hit(1, "B"));
    assert Rewrite(s, at, 1) == "BA";
    assert !Fits(s, 0, at);
  }

  /** Where "hello" occurs, in any case. */
  lemma HelloMatches(s: string)
    requires s == "Hello hello HELLO"
    ensures FoldMatchAt(s, 0, "hello", AsciiUpper)
    ensures FoldMatchAt(s, 6, "hello", AsciiUpper)
    ensures FoldMatchAt(s, 12, "hello", AsciiUpper)
    ensures !FoldMatchAt(s, 5, "hello", AsciiUpper)
    ensures !FoldMatchAt(s, 11, "hello", AsciiUpper)
    ensures !FoldMatchAt(s, 17, "hello", AsciiUpper)
  {
    assert AsciiUpper(s[5]) != AsciiUpper("hello"[0]);
    assert AsciiUpper(s[11]) != AsciiUpper("hello"[0]);
  }

  /** The scan over three words with a match at each. */
  lemma RewriteHello(s: string, at: Matcher, v: string)
    requires s == "Hello hello HELLO"
    requires at(0) == Some(Hit(5, v)) && at(6) == Some(Hit(5, v)) && at(12) == Some(Hit(5, v))
    requires at(5) == None && at(11) == None && at(17) == None
    ensures Rewrite(s, at, 0) == v + " " + v + " " + v
  {
    assert s[5] == ' ' && s[11] == ' ';
    var r17 := Rewrite(s, at, 17);
    assert r17 == "";
    var r12 := Rewrite(s, at, 12);
    assert r12 == v + r17;
    var r11 := Rewrite(s, at, 11);
    assert r11 == " " + r12;
    var r6 := Rewrite(s, at, 6);
    assert r6 == v + r11;
    var r5 := Rewrite(s, at, 5);
    assert r5 == " " + r6;
  }

  /** Three greetings joined by spaces. */
  lemma Greetings()
    ensures "안녕" + " " + "안녕" + " " + "안녕" == "안녕 안녕 안녕"
  {
  }

  /** An ordinary rule replaces every occurrence whatever its case. */
  lemma WordRule(s: string)
    requires s == "Hello hello HELLO"
    ensures ApplyRule(s, Word("hello"), "안녕", AsciiUpper) == "안녕 안녕 안녕"
  {
    var v := "안녕";
    var at := RuleMatcher(s, Word("hello"), v, AsciiUpper);
    HelloMatches(s);
    SubstitutePlain(v, s, 12, 5);
    SubstitutePlain(v, s, 6, 5);
    SubstitutePlain(v, s, 0, 5);
    ReplaceAllIsRewrite(s, at, 0);
    RewriteHello(s, at, v);
    Greetings();
  }

  /** The ordinary entry "hello" with the value "안녕". */
  lemma WordExample(s: string, k: string)
    requires s == "Hello hello HELLO" && k == "hello"
    ensures ApplyEntry(s, (k, "안녕"), AsciiUpper) == "안녕 안녕 안녕"
  {
    ClassifyPlain(k);
    WordRule(s);
  }

  /** The digit-bounded entry for "A" with the value "B". */
  lemma DigitExample(s: string, k: string)
    requires s == "3AA" && k == "A(單字)"
    ensures ApplyEntry(s, (k, "B"), AsciiUpper) == "3BA"
  {
    ClassifyTagged(k);
    DigitRule(s);
  }

  /** The adjacency test reads the text before this entry's replacements: the
      first "A" of "AA3" is followed by "A", not by the "1" that replaces the
      second, so it stays. */
  lemma DigitBeforeReplacement(s: string)
    requires s == "AA3"
    ensures ApplyRule(s, DigitBounded("A"), "1", AsciiUpper) == "A13"
  {
    var at := RuleMatcher(s, DigitBounded("A"), "1", AsciiUpper);
    ReplaceAllIsRewrite(s, at, 0);
    assert !Fits(s, 3, at);
    assert !Fits(s, 2, at) by { assert s[2] == '3'; }
    assert Rewrite(s, at, 2) == "3";
    assert Substitute("1", s, 1, 1) == "1";
    assert at(1) == Some(Hit(1, "1"));
    assert Rewrite(s, at, 1) == "13";
    assert !Fits(s, 0, at) by { assert s[1] == 'A'; }
  }

  /** Without a digit on either side nothing is replaced. */
  lemma DigitFree(s: string)
    requires s == "XAY"
    ensures ApplyRule(s, DigitBounded("A"), "B", AsciiUpper) == s
  {
    var at := RuleMatcher(s, DigitBounded("A"), "B", AsciiUpper);
    forall q | 0 <= q <= |s| ensures !Fits(s, q, at) {
      if q == 1 {
        assert s[0] == 'X' && s[2] == 'Y';
      } else if q < 3 {
        assert s[q..q + 1][0] == s[q];
      }
    }
    NoMatchUnchanged(s, at, 0);
  }

  /* ---------- The name pass ---------- */

  /** The longer name is sorted ahead of the shorter one it contains. */
  lemma SortMinji(t: seq<Entry>)
    requires t == [("Minji", "민지"), ("Kim Minji", "김민지")]
    ensures SortByLength(t) == [("Kim Minji", "김민지"), ("Minji", "민지")]
  {
    var x, y := t[0], t[1];
    assert t[1..][1..] == [];
    assert SortByLength(t[1..]) == Insert(y, []) == [y];
    assert |y.0| == 9 && |x.0| == 5;
    assert Insert(x, [y]) == [y] + Insert(x, []);
  }

  /** The full name is replaced as a whole. */
  lemma FullName(s: string, names: Table)
    requires s == "Kim Minji"
    ensures ApplyName(s, ("Kim Minji", "김민지"), names, AsciiUpper) == "김민지"
  {
    var at := NameMatcher(s, ("Kim Minji", "김민지"), names, AsciiUpper);
    assert FoldMatchAt(s, 0, "Kim Minji", AsciiUpper);
    assert ParenAt(s, 9) == None;
    assert at(0) == Some(Hit(9, "김민지"));
    assert s[0..0] == [];
  }

  /** The short name no longer occurs once the full name is replaced. */
  lemma ShortNameGone(s: string, names: Table)
    requires s == "김민지"
    ensures ApplyName(s, ("Minji", "민지"), names, AsciiUpper) == s
  {
    var at := NameMatcher(s, ("Minji", "민지"), names, AsciiUpper);
    assert forall q :: 0 <= q <= |s| ==> !Fits(s, q, at);
    NoMatchUnchanged(s, at, 0);
  }

  /** Longest name first: "Kim Minji" becomes "김민지", not "Kim 민지", even
      though the table lists "Minji" first. */
  lemma LongestNameFirst(s: string, names: Table)
    requires s == "Kim Minji"
    requires names == [("Minji", "민지"), ("Kim Minji", "김민지")]
    ensures NamesPass(s, names, AsciiUpper) == "김민지"
  {
    SortMinji(names);
    var sorted := SortByLength(names);
    FullName(s, names);
    ShortNameGone("김민지", names);
    assert sorted[1..][1..] == [];
    assert NamesFold(s, sorted, names, AsciiUpper)
        == NamesFold(ApplyName(s, sorted[0], names, AsciiUpper), sorted[1..], names, AsciiUpper);
  }

  /** Inside the parenthetical, "민" is looked up on its own; the brackets stay. */
  lemma ParenTranslated(p: string, names: Table)
    requires p == "(민)"
    requires names == [("Kim", "김"), ("민", "民")]
    ensures TranslateParen(p, names) == "(民)"
  {
    assert Get(names, "민") == Some("民");
    var p1 := p[1..];
    var p2 := p1[1..];
    assert p2[1..] == [];
    assert TranslateParen(p2, names) == ")" by {
      assert !IsHangul(p2[0]);
    }
    assert TranslateParen(p1, names) == "民" + ")" by {
      assert IsHangul(p1[0]) && [p1[0]] == "민";
    }
    assert TranslateParen(p, names) == "(" + "民)" by {
      assert !IsHangul(p[0]);
    }
  }

  /** The name "Kim" takes its parenthetical with it. */
  lemma NameWithParen(s: string, names: Table)
    requires s == "Kim(민)"
    requires names == [("Kim", "김"), ("민", "民")]
    ensures ApplyName(s, ("Kim", "김"), names, AsciiUpper) == "김(民)"
  {
    var at := NameMatcher(s, ("Kim", "김"), names, AsciiUpper);
    assert FoldMatchAt(s, 0, "Kim", AsciiUpper);
    assert FirstClose(s, 4) == Some(5) by { assert s[4] != ')' && s[5] == ')'; }
    assert ParenAt(s, 3) == Some(6);
    assert s[3..6] == "(민)";
    ParenTranslated(s[3..6], names);
    assert "김" + "(民)" == "김(民)";
    assert at(0) == Some(Hit(6, "김(民)"));
    TakeMatch(s, at, 0);
    assert !Fits(s, 6, at);
    assert ReplaceAll(s, at, 6) == [];
  }

  /** The single-syllable entry no longer finds "민" in the result. */
  lemma SyllableGone(s: string, names: Table)
    requires s == "김(民)"
    ensures ApplyName(s, ("민", "民"), names, AsciiUpper) == s
  {
    var at := NameMatcher(s, ("민", "民"), names, AsciiUpper);
    forall q | 0 <= q <= |s| ensures !Fits(s, q, at) {
      if q < |s| {
        assert AsciiUpper(s[q + 0]) != AsciiUpper("민"[0]);
      }
    }
    NoMatchUnchanged(s, at, 0);
  }

  /** "Kim(민)" becomes "김(民)". */
  lemma ParentheticalExample(s: string, names: Table)
    requires s == "Kim(민)"
    requires names == [("Kim", "김"), ("민", "民")]
    ensures NamesPass(s, names, AsciiUpper) == "김(民)"
  {
    var sorted := SortByLength(names);
    assert names[1..][1..] == [];
    assert sorted == names by {
      assert SortByLength(names[1..]) == [names[1]];
    }
    NameWithParen(s, names);
    SyllableGone("김(民)", names);
    assert sorted[1..][1..] == [];
    assert NamesFold(s, sorted, names, AsciiUpper)
        == NamesFold(ApplyName(s, sorted[0], names, AsciiUpper), sorted[1..], names, AsciiUpper);
  }
}
