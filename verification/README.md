# MySentenceProvider, modelled in Dafny

This project models the labelled-sentence provider of a text-classification demo.
The provider is built once from the raw lines of a training corpus, each written as
`<label> <sentence>`. It keeps every line that contains a space and collects the
distinct labels in ascending order. It records the raw line count. A cursor then
hands out one `(sentence, label)` pair per `nextSentence()` call while `hasNext()`
holds. `reset()` rewinds the cursor.

The model has three modules:

- `StringOrder` (StringOrder.dfy) covers the natural order of Java strings (`String.compareTo`).
  It also defines sorted, strictly sorted and duplicate-free lists.
  `Sort` stands in for `Collections.sort`.
- `Corpus` (Corpus.dfy) covers line parsing.
  - `IndexOfSpace` is `indexOf(" ")`.
  - `Label` is the text before the first space.
  - `Split` returns the `(sentence, label)` pair.
  - `Kept` is the list of lines the constructor keeps.
  - `LabelSet` is the set of distinct labels.
- `SentenceProvider` (SentenceProvider.dfy) holds the class `MySentenceProvider`.
  - Its fields mirror the Java fields: `totalCount` and `allLabels` are `const` because they are `final`, and `examples` and `cursor` are mutable.
  - A ghost `rawLines` records the constructor's input. `Valid()` ties `totalCount`, `examples` and `allLabels` to it, and keeps `cursor` at most the number of kept lines.
  - `Drain` says what a consumer receives when it calls `nextSentence` for as long as `hasNext` holds. It returns `None` when one of those calls would index past the kept lines.

The model pins down two quirks of the code:

- `hasNext` compares the cursor with `totalCount - 1`. When no line was dropped, a hasNext-driven consumer therefore never receives the last example (`NoDropMissesLast`).
- `totalCount` also counts the dropped lines. With two or more dropped lines, `hasNext` can hold while `nextSentence` would index past the kept list (`HasNextGuardsNext`, `DroppedLinesOverrun`).
- With exactly one dropped line, the two counts line up, and the drain yields every kept example (`DrainFromStart`, `ThreeLineCorpusDrain`).

Two details of the code matter throughout:

- The separator is the literal space character (`indexOf(" ")`), not any whitespace.
- `totalCount` is the raw line count, and it also counts the dropped lines.

## Model

| member | source | states |
|---|---|---|
| `StringOrder.Less` | src/main/java/com/classify/MySentenceProvider.java:35 | the natural order `Collections.sort` uses: a proper prefix sorts before the longer string, and no string sorts before itself |
| `StringOrder.LessIrreflexive` | src/main/java/com/classify/MySentenceProvider.java:35 | no string sorts before itself in the natural order |
| `StringOrder.LessTransitive` | src/main/java/com/classify/MySentenceProvider.java:35 | the natural string order used by the sort is transitive |
| `StringOrder.LessTrichotomy` | src/main/java/com/classify/MySentenceProvider.java:35 | any two strings are equal or ordered one way round (the order is total) |
| `StringOrder.Sort` | src/main/java/com/classify/MySentenceProvider.java:35 | the sorted label list is in ascending natural order and is a permutation of the collected labels |
| `StringOrder.DistinctMultiset` | src/main/java/com/classify/MySentenceProvider.java:29-35 | a list has no duplicates iff no element occurs twice in its multiset, so sorting the duplicate-free label list keeps it duplicate-free |
| `StringOrder.DistinctCardinality` | src/main/java/com/classify/MySentenceProvider.java:68-71 | a duplicate-free list is as long as its set of elements |
| `StringOrder.StrictlySortedUnique` | src/main/java/com/classify/MySentenceProvider.java:35 | two strictly sorted lists with the same elements are equal, so the label order depends only on the set of labels |
| `Corpus.IndexOfSpace` | src/main/java/com/classify/MySentenceProvider.java:25 | the result is -1 iff the line has no space; otherwise it is the position of the first space |
| `Corpus.IndexOfSpaceAt` | src/main/java/com/classify/MySentenceProvider.java:25 | a space with no space before it is the index `indexOf(" ")` finds |
| `Corpus.IsExample` | src/main/java/com/classify/MySentenceProvider.java:25-26 | a line is kept iff it contains a space character |
| `Corpus.Label` | src/main/java/com/classify/MySentenceProvider.java:28 | a label contains no space, and the label followed by a space is a prefix of its line |
| `Corpus.Split` | src/main/java/com/classify/MySentenceProvider.java:46-50 | label + " " + sentence rebuilds the line exactly, and the label is the one the constructor collects |
| `Corpus.SplitUnique` | src/main/java/com/classify/MySentenceProvider.java:46-50 | writing a line as a space-free label, a space and a sentence always yields the split nextSentence makes |
| `Corpus.Kept` | src/main/java/com/classify/MySentenceProvider.java:24-27 | never more lines than the input, and every kept line contains a space |
| `Corpus.KeptAppend` | src/main/java/com/classify/MySentenceProvider.java:24-27 | keeping distributes over concatenation, so kept lines stay in their input order |
| `Corpus.KeptMembers` | src/main/java/com/classify/MySentenceProvider.java:24-27 | a line is kept iff it is an input line that contains a space |
| `Corpus.KeptLength` | src/main/java/com/classify/MySentenceProvider.java:20-27 | at most the raw count is kept; all lines are kept iff every line has a space, and then the kept list is the input |
| `Corpus.LabelSet` | src/main/java/com/classify/MySentenceProvider.java:23-33 | the distinct labels collected in `labelSet`; none of them contains a space |
| `Corpus.LabelSetMembers` | src/main/java/com/classify/MySentenceProvider.java:24-33 | a string is a label iff it is the text before the first space of some input line with a space; no label contains a space |
| `SentenceProvider.HasNextAt` | src/main/java/com/classify/MySentenceProvider.java:40 | with fewer than two raw lines, hasNext is false at every cursor position |
| `SentenceProvider.Drain` | src/main/java/com/classify/MySentenceProvider.java:39-51 | a consumer that calls nextSentence while hasNext holds: a successful drain from a cursor below totalCount - 1 yields exactly totalCount - 1 - cursor pairs, each the split of the kept line at its position; a drain at or past that bound yields nothing |
| `SentenceProvider.Pairs` | src/main/java/com/classify/MySentenceProvider.java:44-50 | one pair per kept line, in order, each the split of its line |
| `SentenceProvider.DrainFrom` | src/main/java/com/classify/MySentenceProvider.java:39-51 | a hasNext-driven drain from any cursor fails iff the cursor is below totalCount - 1 and totalCount - 1 exceeds the kept count; otherwise it yields the kept lines from the cursor up to position totalCount - 1 |
| `SentenceProvider.DrainFromStart` | src/main/java/com/classify/MySentenceProvider.java:20-41 | from cursor 0, the drain succeeds iff at most one raw line was dropped, and then yields the first totalCount - 1 kept lines |
| `SentenceProvider.NoDropMissesLast` | src/main/java/com/classify/MySentenceProvider.java:39-41 | with no dropped line, the drain yields every line but the last |
| `SentenceProvider.HasNextGuardsNext` | src/main/java/com/classify/MySentenceProvider.java:39-45 | hasNext implies cursor < number of kept lines, for every cursor, iff at most one raw line was dropped |
| `SentenceProvider.DroppedLinesOverrun` | src/main/java/com/classify/MySentenceProvider.java:20-45 | two raw lines without a space: nothing is kept, hasNext holds at cursor 0, and the drain fails |
| `SentenceProvider.ThreeLineCorpusKept` | src/main/java/com/classify/MySentenceProvider.java:19-34 | for two example lines and one line without a space, the two examples are kept and their labels form the label set |
| `SentenceProvider.TwoLabelOrder` | src/main/java/com/classify/MySentenceProvider.java:35 | for two labels, the only strictly sorted label list puts the smaller first |
| `SentenceProvider.ThreeLineCorpusDrain` | src/main/java/com/classify/MySentenceProvider.java:39-51 | with one of three raw lines dropped, the drain yields both kept examples as (sentence, label) in order |
| `SentenceProvider.MySentenceProvider.constructor` | src/main/java/com/classify/MySentenceProvider.java:19-36 | the kept lines are exactly the input lines with a space, in order; the labels are strictly ascending (sorted, no duplicates) and are exactly the labels of the kept lines; totalCount is the raw line count; the cursor is 0 |
| `SentenceProvider.MySentenceProvider.HasNext` | src/main/java/com/classify/MySentenceProvider.java:39-41 | true iff at least two raw lines lie at or after the cursor; never true for fewer than two raw lines |
| `SentenceProvider.MySentenceProvider.NextSentence` | src/main/java/com/classify/MySentenceProvider.java:44-51 | requires the cursor to be inside the kept lines; returns (sentence, label) with label + " " + sentence equal to the line at the cursor and a space-free label; the cursor goes up by exactly 1 and nothing else changes; under hasNext, the old remaining drain is this pair followed by the new remaining drain |
| `SentenceProvider.MySentenceProvider.Reset` | src/main/java/com/classify/MySentenceProvider.java:53-56 | the cursor becomes 0 and nothing else changes, so a second reset changes nothing; the remaining drain is again the one after construction |
| `SentenceProvider.MySentenceProvider.TotalNumSentences` | src/main/java/com/classify/MySentenceProvider.java:58-61 | the raw line count, dropped lines included, and never less than the number of kept lines |
| `SentenceProvider.MySentenceProvider.AllLabels` | src/main/java/com/classify/MySentenceProvider.java:63-66 | strictly ascending (sorted, no duplicates), and it holds exactly the labels of the kept lines |
| `SentenceProvider.MySentenceProvider.NumLabelClasses` | src/main/java/com/classify/MySentenceProvider.java:68-71 | the number of distinct labels among the kept lines |

## Left out

- The constructor's in-place updates are not modelled as updates of shared objects. These are the appends to the `ArrayList`s, the `HashSet` and `Collections.sort`. The model builds local sequences and a local set, then assigns the fields once.
- `StringOrder.Sort` is an insertion sort. Only its result is specified: a sorted permutation. For the duplicate-free label list that result is unique, so it equals what the library's merge sort returns.
- `allLabels()` returns the provider's own mutable list. A caller could change it through that alias. The model returns the list as a value.
- Java `char` comparison is by UTF-16 code unit. Dafny `char` is compared by Unicode scalar value. The two orders differ only between supplementary characters and U+E000..U+FFFF.
- 32-bit `int` bounds are not modelled for `totalCount`, `cursor` or list sizes. `cursor` cannot overflow, because `nextSentence` only succeeds while `cursor` is below the kept count.
- `nextSentence` past the kept list throws `IndexOutOfBoundsException`. The method model makes this a precondition. `Drain` models the outcome as `None`.
- The loop that consumes the provider belongs to the deep-learning library and is not part of this model. `Drain` states what such a loop receives.
- Null input lists and null lines (`NullPointerException`) are not modelled.
- `LabeledSentenceProvider` and `Pair` are library types and are not part of this model. The pair is a Dafny tuple `(sentence, label)`.
- src/main/java/com/classify/TextClassificationExample.java is not part of this model:
  - network configuration, training, model serialization, inference and file reads;
  - the report step, which is floating-point scoring, sorting and `BigDecimal` rounding.
- src/main/java/com/word2vec/Word2VecUtil.java is not part of this model. It wraps the library's word-vector training.
- Concurrency is not modelled. The provider is single-consumer.
