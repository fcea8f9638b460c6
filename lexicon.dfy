/** The lexicon: four term tables merged by object spread,
    `{ ...dictionary, ...event, ...club, ...school }`. A table is a JavaScript
    object from strings to strings, kept as its own properties in iteration
    order, so that the vocabulary pass sees the entries in the order the
    source does. */
module Lexicon {
  import opened Text

  type Entry = (string, string)

  /** No key appears twice: the first key is not among the others, and so on. */
  predicate DistinctKeys(t: seq<Entry>) {
    t == [] || (t[0].0 !in Keys(t[1..]) && DistinctKeys(t[1..]))
  }

  /** A string-to-string object: entries in iteration order, keys distinct. */
  type Table = t: seq<Entry> | DistinctKeys(t)

  /** The keys of `t`, in order: `Object.keys(t)`. */
  function Keys(t: seq<Entry>): (ks: seq<string>)
    ensures |ks| == |t|
    ensures forall i :: 0 <= i < |t| ==> ks[i] == t[i].0
  {
    if t == [] then [] else [t[0].0] + Keys(t[1..])
  }

  /** Property lookup `t[k]`: the value stored under `k`, or nothing. */
  function Get(t: Table, k: string): (r: Option<string>)
    ensures r.Some? <==> k in Keys(t)
    ensures r.Some? ==> (k, r.value) in t
  {
    if t == [] then None
    else if t[0].0 == k then Some(t[0].1)
    else Get(t[1..], k)
  }

  /** Property assignment `t[k] = v`: an existing key keeps its place and takes
      the new value; a new key is appended. */
  function Put(t: Table, k: string, v: string): (r: Table)
    ensures Keys(r) == if k in Keys(t) then Keys(t) else Keys(t) + [k]
  {
    if t == [] then
      var r: seq<Entry> := [(k, v)];
      assert r[1..] == [];
      r
    else if t[0].0 == k then
      var r: seq<Entry> := [(k, v)] + t[1..];
      assert r[1..] == t[1..];
      KeysCons(t);
      KeysCons(r);
      r
    else
      var rest := Put(t[1..], k, v);
      KeysCons(t);
      ConsDistinct(t[0], rest);
      [t[0]] + rest
  }

  /** The keys of a non-empty table: its first key, then the others. */
  lemma KeysCons(t: seq<Entry>)
    requires t != []
    ensures Keys(t) == [t[0].0] + Keys(t[1..])
  {
  }

  /** An entry whose key the table lacks can be put in front of it. */
  lemma ConsDistinct(e: Entry, t: Table)
    requires e.0 !in Keys(t)
    ensures DistinctKeys([e] + t)
    ensures Keys([e] + t) == [e.0] + Keys(t)
  {
    var r := [e] + t;
    assert r[1..] == t;
    KeysCons(r);
  }

  /** After `t[k] = v`, `k` holds `v` and every other key what it held before. */
  lemma {:induction false} PutGet(t: Table, k: string, v: string, k': string)
    ensures Get(Put(t, k, v), k') == if k' == k then Some(v) else Get(t, k')
  {
    if t != [] && t[0].0 != k {
      PutGet(t[1..], k, v, k');
    }
  }

  /** `{ ...t, ...u }`: the properties of `u` assigned, in order, over those of `t`. */
  function Merge(t: Table, u: Table): Table
    decreases |u|
  {
    if u == [] then t else Merge(Put(t, u[0].0, u[0].1), u[1..])
  }

  /** The keys of `ks` that are not in `seen`, in order. */
  function Unseen(ks: seq<string>, seen: seq<string>): seq<string> {
    if ks == [] then []
    else if ks[0] in seen then Unseen(ks[1..], seen)
    else [ks[0]] + Unseen(ks[1..], seen)
  }

  /** `Unseen` keeps exactly the keys of `ks` that are not in `seen`. */
  lemma {:induction false} UnseenMembers(ks: seq<string>, seen: seq<string>, k: string)
    ensures k in Unseen(ks, seen) <==> k in ks && k !in seen
  {
    if ks != [] {
      UnseenMembers(ks[1..], seen, k);
      assert ks == [ks[0]] + ks[1..];
    }
  }

  /** Adding to `seen` a key that `ks` does not hold changes nothing. */
  lemma {:induction false} UnseenIgnores(ks: seq<string>, seen: seq<string>, k: string)
    requires k !in ks
    ensures Unseen(ks, seen + [k]) == Unseen(ks, seen)
  {
    if ks != [] {
      UnseenIgnores(ks[1..], seen, k);
    }
  }

  /** A later table wins: after the merge, a key of `u` holds its value from
      `u`, and every other key its value from `t`. */
  lemma {:induction false} MergeGet(t: Table, u: Table, k: string)
    ensures Get(Merge(t, u), k) == if k in Keys(u) then Get(u, k) else Get(t, k)
    decreases |u|
  {
    if u != [] {
      MergeGet(Put(t, u[0].0, u[0].1), u[1..], k);
      PutGet(t, u[0].0, u[0].1, k);
      assert Keys(u) == [u[0].0] + Keys(u[1..]);
    }
  }

  /** Iteration order after the merge: the keys of `t` where they were, then the
      keys that only `u` has, in `u`'s order. */
  lemma {:induction false} MergeKeys(t: Table, u: Table)
    ensures Keys(Merge(t, u)) == Keys(t) + Unseen(Keys(u), Keys(t))
    decreases |u|
  {
    if u != [] {
      var k, v, u' := u[0].0, u[0].1, u[1..];
      var t' := Put(t, k, v);
      MergeKeys(t', u');
      KeysCons(u);
      assert k !in Keys(u');
      if k in Keys(t) {
        assert Unseen(Keys(u), Keys(t)) == Unseen(Keys(u'), Keys(t));
      } else {
        assert Unseen(Keys(u), Keys(t)) == [k] + Unseen(Keys(u'), Keys(t));
        UnseenIgnores(Keys(u'), Keys(t), k);
        assert Keys(t') == Keys(t) + [k];
      }
    }
  }

  /** The lexicon of the vocabulary pass. */
  function MergeAll(dictionary: Table, event: Table, club: Table, school: Table): Table {
    Merge(Merge(Merge(Merge([], dictionary), event), club), school)
  }

  /** The merged lexicon holds exactly the keys of the four tables, each with
      the value of the last table that defines it, in the order dictionary,
      event, club, school. */
  lemma MergeAllGet(dictionary: Table, event: Table, club: Table, school: Table, k: string)
    ensures var r := Get(MergeAll(dictionary, event, club, school), k);
      r == if k in Keys(school) then Get(school, k)
           else if k in Keys(club) then Get(club, k)
           else if k in Keys(event) then Get(event, k)
           else Get(dictionary, k)
    ensures k in Keys(MergeAll(dictionary, event, club, school))
        <==> k in Keys(dictionary) || k in Keys(event) || k in Keys(club) || k in Keys(school)
  {
    var m1 := Merge([], dictionary);
    var m2 := Merge(m1, event);
    var m3 := Merge(m2, club);
    MergeGet([], dictionary, k);
    MergeGet(m1, event, k);
    MergeGet(m2, club, k);
    MergeGet(m3, school, k);
  }

  /** The lexicon iterates the dictionary's keys first, in their own order, then
      the new keys of the event, club and school tables, each in its own order. */
  lemma MergeAllKeys(dictionary: Table, event: Table, club: Table, school: Table)
    ensures var k1 := Keys(dictionary);
            var k2 := k1 + Unseen(Keys(event), k1);
            var k3 := k2 + Unseen(Keys(club), k2);
            Keys(MergeAll(dictionary, event, club, school)) == k3 + Unseen(Keys(school), k3)
  {
    var m1 := Merge([], dictionary);
    var m2 := Merge(m1, event);
    var m3 := Merge(m2, club);
    MergeKeys([], dictionary);
    UnseenNothing(Keys(dictionary));
    assert Keys(m1) == Keys(dictionary) by {
      assert Keys([]) == [];
    }
    MergeKeys(m1, event);
    MergeKeys(m2, club);
    MergeKeys(m3, school);
  }

  /** Nothing seen: every key is kept. */
  lemma {:induction false} UnseenNothing(ks: seq<string>)
    ensures Unseen(ks, []) == ks
  {
    if ks != [] {
      UnseenNothing(ks[1..]);
    }
  }
}
