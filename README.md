# Korean-to-Chinese page translator: substitution engine and scheduler

This project models the core of a browser content script, `content.js`. The
script rewrites the text nodes of a web page by substitution from fixed
tables. It has five parts:

- **Lexicon.** Four vocabulary tables (dictionary, event, club and school)
  are merged by object spread. A later table wins on a shared key.
- **Vocabulary pass.** A left fold over the merged entries in iteration order.
  - An ordinary key is trimmed. It is then replaced everywhere, ignoring case.
  - A key tagged `(單字)` loses the tag and is trimmed. It is then replaced,
    case-sensitively, only where a digit stands right before or after it.
- **Name pass.** Name entries are sorted stably, longest key first.
  - Each name is replaced, ignoring case, by its target.
  - A parenthetical `(…)` that follows the name directly is kept, and each
    Hangul syllable inside it is looked up on its own.
- **Pipeline and batch scheduler.**
  - `translateText` runs the vocabulary pass, then the name pass.
  - `translatePage` snapshots the text nodes and translates them in batches
    of 50: one batch at once, then one per animation frame.
  - The flag `isTranslating` keeps two runs from overlapping.
- **Observer.** Each `childList` mutation record calls a throttle. The
  throttle arms a timer only when none is pending. The timer callback
  translates the page, then clears the slot.

Strings are `seq<char>`. A JavaScript object is a sequence of key/value
pairs with distinct keys, in iteration order. Spread keeps a key in its
place and appends new keys. `String.prototype.replace` with a global regular
expression is modelled generically (`Replace.ReplaceAll`):

- it searches for the leftmost match from the current position;
- it emits the replacement, then resumes after the match, or one character
  further on after an empty match;
- replacement text is never searched again.

Each pattern the script builds is given as a matcher on the subject string.
A lookbehind therefore sees the text as it was before the current entry's
replacements. Replacement strings expand `$$`, `$&`, `` $` `` and `$'`.
Case-insensitive matching is a case-fold function on characters, given as a
parameter.

The document is an `array<string>` of text nodes. Two methods stand for the
host's callbacks:

- `Scheduler.Page.Step` is the animation-frame callback;
- `Scheduler.Observer.Fire` is the timer callback.

Modules:

| file | module | content |
|---|---|---|
| text.dfy | `Text` | `\d`, the Hangul class, `trim`, `indexOf`, matching under a case fold |
| replace.dfy | `Replace` | global `replace`: search loop, equivalent scan, `$` substitution |
| lexicon.dfy | `Lexicon` | tables as ordered objects, property get and set, spread merge |
| vocabulary.dfy | `Vocabulary` | key classification, the two rule kinds, the fold, `translateVocabulary` |
| names.dfy | `Names` | stable length sort, the name and parenthetical pattern, `translateStudentNames` |
| pipeline.dfy | `Pipeline` | `translateText` |
| scheduler.dfy | `Scheduler` | `translateBatch`, `translatePage`/`processBatch`, throttle and observer |
| scenarios.dfy | `Scenarios` | worked cases of both passes |

## Model

| member | source | states |
|---|---|---|
| Text.Trim | content.js:41 | the result is the slice of the key that begins after its leading white space; only white space follows it, and it neither begins nor ends with white space (ECMAScript white space and line terminators) |
| Text.IndexOf | content.js:40-41 | the first position at which the tag occurs, or none when it occurs nowhere (`includes` and the first-occurrence `replace`) |
| Replace.ReplaceAll | content.js:50 | a global `replace` from a search position: the text before the leftmost match is copied and `AfterMatch` goes on from that match; with no match left, the rest is copied. `ReplaceAllIsRewrite` and `NoMatchUnchanged` state what it computes |
| Replace.AfterMatch | content.js:50 | the match's replacement is emitted and the search resumes after the match, or one character further on, copying that character, after an empty match |
| Replace.FirstFit | content.js:50 | the leftmost position at or after the search start where the pattern matches inside the subject, or none if there is no such position |
| Replace.ReplaceAllIsRewrite | content.js:50 | the global search-and-replace loop equals a left-to-right scan: a match emits its replacement and skips what it matched, and any other character is copied |
| Replace.NoMatchUnchanged | content.js:50 | a subject in which the pattern matches nowhere is returned unchanged |
| Replace.SameMatchesSameResult | content.js:50 | two patterns that agree at every position of a subject, on whether they match and on the match and its replacement, rewrite that subject alike |
| Replace.Substitute | content.js:50 | a replacement string expanded for one match: `$$` gives `$`, `$&` the match, `` $` `` the text before the match, `$'` the text after it, and any other character is copied |
| Replace.SubstitutePlain | content.js:50 | a replacement string without `$` is inserted verbatim |
| Lexicon.Get | content.js:17 | a lookup finds a value exactly when the key is in the table, and the value is the one stored under that key |
| Lexicon.Put | content.js:17 | assigning a property keeps an existing key in its place and appends a new key at the end |
| Lexicon.PutGet | content.js:17 | after an assignment the key holds the new value, and every other key holds its old value |
| Lexicon.Merge | content.js:17 | one spread of a later table onto an earlier one: the later table's entries are assigned in its order |
| Lexicon.MergeAll | content.js:17 | the merged lexicon: the dictionary, event, club and school tables spread in that order onto an empty object |
| Lexicon.MergeGet | content.js:17 | after a spread, a key of the later table holds that table's value; every other key holds the earlier table's value |
| Lexicon.MergeKeys | content.js:17 | after a spread, the keys are the earlier table's keys in their order, followed by the later table's new keys in theirs |
| Lexicon.MergeAllGet | content.js:17 | the merged lexicon has exactly the union of the four tables' keys; each key holds the value of the last of dictionary, event, club, school that defines it |
| Lexicon.MergeAllKeys | content.js:17 | iteration order of the merged lexicon: the dictionary's keys, then the new keys of the event, club and school tables, each in its own order |
| Lexicon.UnseenMembers | content.js:17 | the new keys a spread appends are exactly the later table's keys that the earlier table lacks |
| Vocabulary.Classify | content.js:40-46 | a key containing `(單字)` loses the first occurrence of the tag, is trimmed and becomes a digit-bounded pattern; any other key is trimmed and becomes an ordinary pattern |
| Vocabulary.DigitAdjacentAt | content.js:43 | the key occurs at the position with an ASCII digit right before it or right after it in the subject |
| Vocabulary.EntryHit | content.js:43-50 | one entry's pattern at one position: an ordinary key matches where it occurs under the case fold, a digit-bounded key where it occurs next to a digit; a match is replaced by the value with its `$` patterns expanded |
| Vocabulary.Vocab | content.js:36-51 | the loop over the merged entries in iteration order, each entry's global replace rewriting the previous result |
| Vocabulary.VocabAppend | content.js:36-51 | the pass is a sequential fold: running it over two runs of entries is running it over the first, then over the second on that result |
| Vocabulary.TranslateVocabulary | content.js:32-54 | the loop returns the fold of all entries over the text, in table order, each entry rewriting the previous result |
| Vocabulary.WordAbsentUnchanged | content.js:46-50 | an ordinary entry whose trimmed key occurs nowhere in the text, in any case, leaves the text unchanged |
| Vocabulary.DigitFreeUnchanged | content.js:40-43 | a tagged entry none of whose occurrences has a digit on either side leaves the text unchanged |
| Vocabulary.CaseInsensitive | content.js:46 | two ordinary keys that differ only in case rewrite every text alike |
| Vocabulary.VocabNoMatchUnchanged | content.js:33-53 | a text on which no entry matches is returned unchanged; in particular the empty lexicon is the identity |
| Names.SortByLength | content.js:60-61 | the entries sorted by key length, longest first, by insertion. `SortByLengthIsStableSort` states that this is the stable sort the comparator gives |
| Names.InsertLongestFirst | content.js:60-61 | inserting an entry into a longest-first list keeps it longest first |
| Names.InsertPermutes | content.js:60-61 | inserting adds the entry and nothing else |
| Names.InsertStable | content.js:60-61 | among entries of the inserted entry's length, it comes first and the others keep their order |
| Names.SortByLengthIsStableSort | content.js:60-61 | the sort is a permutation of the entries, longest key first, in which entries of equal length keep their table order |
| Names.FirstClose | content.js:68 | the first `)` at or after a position, or none when none follows |
| Names.ParenAt | content.js:68 | the parenthetical that starts at a position: `(`, one or more characters other than `)`, then `)`; none when no such parenthetical starts there |
| Names.TranslateChar | content.js:72 | a Hangul syllable whose own entry has a non-empty value becomes that value; any other character, and a syllable without such an entry, stays as it is |
| Names.TranslateParen | content.js:72 | a parenthetical translated character by character |
| Names.TranslateParenAppend | content.js:72 | the per-character translation of a parenthetical distributes over concatenation |
| Names.TranslateParenNoHangul | content.js:72 | text without Hangul syllables, brackets included, passes through the translation unchanged |
| Names.ParenUnique | content.js:68 | at most one parenthetical starts at a given position: it ends at the first `)` |
| Names.TranslateBrackets | content.js:72 | translating a whole parenthetical keeps its brackets and translates what lies between them |
| Names.NameHit | content.js:68 | the name pattern matches at a position exactly when the name occurs there, ignoring case |
| Names.NameAlone | content.js:68-75 | where the name occurs without a parenthetical right after it, the match is the name alone and becomes the target |
| Names.NameWithParenthetical | content.js:68-75 | where the name occurs with a parenthetical right after it, the match takes the parenthetical in and becomes the target, `(`, the inside translated syllable by syllable, `)` |
| Names.ApplyName | content.js:68-75 | one name's global replace, with the pattern of the name and its optional parenthetical and the callback that builds the replacement |
| Names.NamesPass | content.js:56-79 | the loop over the entries, sorted longest first, each name's replace rewriting the previous result |
| Names.NamesFoldAppend | content.js:64-76 | the name loop is a sequential fold over the sorted entries |
| Names.TranslateStudentNames | content.js:56-79 | the loop returns the fold of the entries, sorted longest first, over the text |
| Names.NamesFoldNoMatchUnchanged | content.js:64-76 | where no name of the list occurs, in any case, the loop leaves the text unchanged |
| Names.NamesPassNoMatchUnchanged | content.js:56-79 | where no name of the table occurs, in any case, the pass leaves the text unchanged |
| Pipeline.Translate | content.js:83-88 | the translation of one text: the name pass applied to the vocabulary pass's output |
| Pipeline.TranslateText | content.js:83-88 | the result is the name pass applied to the vocabulary pass's output |
| Pipeline.EmptyTablesIdentity | content.js:83-88 | with empty tables, translating changes nothing |
| Pipeline.NothingToTranslate | content.js:83-88 | a text on which no entry and no name matches is its own translation, however often it is translated again |
| Scheduler.RangeCount | content.js:107-109 | a snapshot slice holds each node from its start to its end exactly once, and no other node |
| Scheduler.BatchAdvance | content.js:114-119 | translating the next slice of the snapshot keeps the run invariant with `index` advanced by 50 and that slice appended to the batches |
| Scheduler.BatchDone | content.js:115-118 | translating the nodes of the next batch moves the boundary between translated and untranslated nodes on by 50 |
| Scheduler.Page.constructor | content.js:16-18 | the lexicon is the merge of the four tables and the name table is the student table; no run is in progress |
| Scheduler.Page.Snapshot | content.js:102-109 | the walker's loop collects every text node once, in document order |
| Scheduler.Page.TranslateBatch | content.js:91-95 | every listed node's text is replaced by its translation, once per listing, and unlisted nodes keep their text |
| Scheduler.DistinctBatchOnce | content.js:91-95 | a batch that lists each node at most once leaves each listed node holding the translation of its former text and every other node holding its former text |
| Scheduler.BatchOverFixedNodes | content.js:91-95 | nodes whose texts need no translation keep them through a batch, however often it lists them |
| Scheduler.Page.ProcessBatch | content.js:114-123 | with nodes left, the next slice of at most 50 in document order is translated, `index` advances by 50 and a frame is requested; otherwise the flag is cleared and no node changes |
| Scheduler.Page.NextBatch | content.js:115-119 | the first branch of `processBatch`, with the run invariant kept: nodes before `index` hold their translation, the rest their text at the snapshot |
| Scheduler.Page.Step | content.js:119 | a frame runs the pending `processBatch`; the step that ends the run leaves every snapshotted node holding the translation of its text at the snapshot |
| Scheduler.Page.TranslatePage | content.js:98-126 | while a run is in progress, a call changes nothing; otherwise it snapshots every node, takes its text as the run's origin and translates the first batch; an empty document clears the flag at once |
| Scheduler.RunOverFixedPage | content.js:98-126 | at every stage of a run over a page whose texts all need no translation, the page is as it was at the snapshot |
| Scheduler.Observer.Throttle | content.js:130-137 | afterwards a timer is pending; a new timer is armed only if none was pending |
| Scheduler.Observer.OnMutations | content.js:140-146 | a timer is pending afterwards exactly when one was before or some record is `childList`; any number of records arms at most one timer, and records of other types arm none |
| Scheduler.Observer.Fire | content.js:132-135 | the page translation runs once and the slot is then empty; when it fires during a run, the run is left undisturbed |
| Scenarios.WordExample | content.js:46-50 | the entry `hello`→`안녕` turns `Hello hello HELLO` into `안녕 안녕 안녕` |
| Scenarios.DigitExample | content.js:40-50 | the tagged entry `A(單字)`→`B` turns `3AA` into `3BA` |
| Scenarios.DigitBeforeReplacement | content.js:43-50 | with `A`→`1` digit-bounded, `AA3` becomes `A13`: the test reads the text before this entry's replacements |
| Scenarios.DigitFree | content.js:43-50 | `XAY` is left alone by the digit-bounded `A` |
| Scenarios.LongestNameFirst | content.js:60-75 | with names `Minji` and `Kim Minji` listed in that order, `Kim Minji` becomes `김민지` |
| Scenarios.ParentheticalExample | content.js:60-75 | with names `Kim`→`김` and `민`→`民`, `Kim(민)` becomes `김(民)` |

## Left out

- Loading the tables is not modelled (content.js:8-29, except the merge on line 17). This covers `fetch`, JSON parsing, the promise plumbing, the logging and the extra global copies of the tables. The tables are constructor parameters.
- Vocabulary.TranslateVocabulary: requires every classified key to contain no regular-expression metacharacter. Vocabulary keys are not escaped, so any other key would act as a pattern, and general regular expressions are not modelled. Dollar patterns in values are modelled.
- Case-insensitive matching is a case-fold function given as a parameter. ECMAScript's canonicalisation of characters under the `i` flag is not modelled.
- Strings are sequences of Unicode characters, not UTF-16 code units. A character outside the Basic Multilingual Plane counts as one, while JavaScript's `length` counts two. This changes two things. The first is the length sort of names. The second is the step after an empty match. An empty pattern matches at every position: an empty trimmed key, a tagged key that is empty once the tag is removed, or an empty name. JavaScript, without the `u` flag, moves on one code unit after such a match, so it also matches between the two halves of a surrogate pair. The model moves on one character. Replacing an empty pattern by `-` in `😀` gives `-😀-` in the model, where JavaScript gives three dashes and a split pair.
- Object.entries lists integer-like keys first, in numeric order; this is not modelled. Tables iterate in insertion order.
- The tables are fixed when the page is created, so their arrival in the middle of a run is not modelled. The script reads its global tables on every call of `translateText`. A run started on `DOMContentLoaded` (content.js:156-158) before the tables arrive therefore translates its first batches with empty tables and its later batches with the loaded ones. The `translatePage` call made when the tables arrive (content.js:27) returns at once during such a run (content.js:99). The early nodes then stay untranslated until a later `childList` mutation starts another run. `Pipeline.EmptyTablesIdentity` states only that a translation with empty tables changes nothing.
- The document is a fixed array of text nodes. Nodes inserted or removed during a run, and edits by the page's own scripts, are not modelled. The tree walker (content.js:102) is the walk over all indices, and the observer registration (content.js:150-153) is not part of the model.
- The 500 ms delay and the frame timing are not modelled. `Fire` may be called whenever a timer is pending, and `Step` whenever a frame is pending.
- Exceptions are not modelled. A thrown exception would leave `isTranslating` set.
- Scheduler.Page.NextBatch: advances `index` and requests the next frame before it translates the batch, where the script does so after. Translating a batch reads neither, so the resulting state is the same.
- Escaping names (content.js:65) is modelled by matching names literally, which is what the escaped pattern does.
- python/locjsonskill.py is not part of this model. It downloads and writes files, and its only logic is a zip loop.
