/** MySentenceProvider: the labelled-sentence provider built once from the raw corpus
    lines and then read through a cursor, one (sentence, label) pair at a time. */
module SentenceProvider {
  import opened StringOrder
  import opened Corpus

  datatype Option<T> = None | Some(value: T)

  /** Every entry is a line with a space, so it can be split. */
  predicate AllExamples(examples: seq<string>) {
    forall i :: 0 <= i < |examples| ==> IsExample(examples[i])
  }

  /** `hasNext()`: the cursor is compared with the raw line count minus one. */
  predicate HasNextAt(cursor: int, totalCount: int)
    ensures 0 <= cursor && totalCount <= 1 ==> !HasNextAt(cursor, totalCount)
  {
    cursor < totalCount - 1
  }

  /** The pairs nextSentence returns for the given kept lines, in order. */
  function Pairs(examples: seq<string>): (pairs: seq<(string, string)>)
    requires AllExamples(examples)
    ensures |pairs| == |examples|
    ensures forall i :: 0 <= i < |pairs| ==> pairs[i] == Split(examples[i])
  {
    if examples == [] then [] else [Split(examples[0])] + Pairs(examples[1..])
  }

  function Prepend(pair: (string, string), rest: Option<seq<(string, string)>>): Option<seq<(string, string)>> {
    match rest
    case None => None
    case Some(pairs) => Some([pair] + pairs)
  }

  /** What a consumer receives that calls nextSentence as long as hasNext holds, starting
      at `cursor`; None when one of those calls indexes past the kept lines (the
      IndexOutOfBoundsException of `examples.get(cursor)`). */
  function Drain(examples: seq<string>, totalCount: int, cursor: nat): (r: Option<seq<(string, string)>>)
    requires AllExamples(examples)
    ensures r.Some? && HasNextAt(cursor, totalCount) ==>
      totalCount - 1 <= |examples| && |r.value| == totalCount - 1 - cursor
    ensures r.Some? && !HasNextAt(cursor, totalCount) ==> r.value == []
    ensures r.Some? && HasNextAt(cursor, totalCount) ==>
      forall i :: 0 <= i < |r.value| ==> r.value[i] == Split(examples[cursor + i])
    decreases totalCount - cursor
  {
    if !HasNextAt(cursor, totalCount) then Some([])
    else if cursor >= |examples| then None
    else Prepend(Split(examples[cursor]), Drain(examples, totalCount, cursor + 1))
  }

  /** A hasNext-driven drain from `cursor` fails exactly when the raw count exceeds the
      kept count by two or more and the cursor has not yet reached the end; otherwise
      it yields the pairs of the kept lines from `cursor` up to, not including,
      position totalCount - 1. */
  lemma {:induction false} DrainFrom(examples: seq<string>, totalCount: int, cursor: nat)
    requires AllExamples(examples)
    ensures Drain(examples, totalCount, cursor).Some? <==>
      !HasNextAt(cursor, totalCount) || totalCount - 1 <= |examples|
    ensures Drain(examples, totalCount, cursor).Some? ==>
      Drain(examples, totalCount, cursor).value ==
        if HasNextAt(cursor, totalCount) then Pairs(examples[cursor..totalCount - 1]) else []
    decreases totalCount - cursor
  {
    if HasNextAt(cursor, totalCount) && cursor < |examples| {
      DrainFrom(examples, totalCount, cursor + 1);
      var rest := Drain(examples, totalCount, cursor + 1);
      if rest.Some? {
        var s := examples[cursor..totalCount - 1];
        assert s == [examples[cursor]] + examples[cursor + 1..totalCount - 1];
        assert Pairs(s) == [Split(examples[cursor])] + rest.value;
      }
    }
  }

  /** Driving a freshly built (or reset) provider by hasNext: the drain succeeds exactly
      when at most one raw line was dropped, and then yields the first
      totalCount - 1 kept lines. */
  lemma DrainFromStart(lines: seq<string>)
    ensures AllExamples(Kept(lines))
    ensures Drain(Kept(lines), |lines|, 0).Some? <==> |lines| - |Kept(lines)| <= 1
    ensures |lines| - |Kept(lines)| <= 1 ==>
      Drain(Kept(lines), |lines|, 0) ==
        Some(Pairs(Kept(lines)[..if |lines| == 0 then 0 else |lines| - 1]))
  {
    KeptLength(lines);
    DrainFrom(Kept(lines), |lines|, 0);
  }

  /** When no line is dropped the last example is never offered: the drain yields the
      pairs of all lines but the last. */
  lemma NoDropMissesLast(lines: seq<string>)
    requires |lines| > 0
    requires forall i :: 0 <= i < |lines| ==> IsExample(lines[i])
    ensures AllExamples(Kept(lines))
    ensures Drain(Kept(lines), |lines|, 0) == Some(Pairs(lines[..|lines| - 1]))
    ensures |Drain(Kept(lines), |lines|, 0).value| == |Kept(lines)| - 1
  {
    KeptLength(lines);
    DrainFromStart(lines);
  }

  /** hasNext guarantees that nextSentence stays inside the kept lines, for every
      cursor position, exactly when at most one raw line was dropped. */
  lemma HasNextGuardsNext(lines: seq<string>)
    ensures (forall c: nat :: HasNextAt(c, |lines|) ==> c < |Kept(lines)|) <==>
      |lines| - |Kept(lines)| <= 1
  {
    if |lines| - |Kept(lines)| > 1 {
      assert HasNextAt(|Kept(lines)|, |lines|);
    }
  }

  /** Two raw lines without a space: hasNext holds at the start, yet there is no kept
      line for nextSentence to return. */
  lemma DroppedLinesOverrun()
    ensures Kept(["x", "y"]) == []
    ensures HasNextAt(0, |["x", "y"]|)
    ensures Drain(Kept(["x", "y"]), 2, 0) == None
  {
    assert Kept(["x", "y"][..1]) == [];
  }

  /** A three-line corpus such as ["shoes red sneaker", "bags blue purse",
      "noseparatorline"]: two examples and one line without a space. The first two lines are kept and their labels form the label set. */
  lemma ThreeLineCorpusKept(first: string, s1: string, second: string, s2: string, bare: string)
    requires Space !in first && Space !in second && Space !in bare
    ensures var lines := [first + [Space] + s1, second + [Space] + s2, bare];
      Kept(lines) == lines[..2] && LabelSet(lines) == {first, second}
  {
    var lines := [first + [Space] + s1, second + [Space] + s2, bare];
    SplitUnique(lines[0], first, s1);
    SplitUnique(lines[1], second, s2);
    assert !IsExample(lines[2]);
    var one, two := lines[..1], lines[..2];
    assert one == [lines[0]] && two == [lines[0], lines[1]];
    assert one[..0] == [] && two[..1] == one && lines[..2] == two;
    assert Label(lines[0]) == first && Label(lines[1]) == second;
    assert Kept(one[..0]) == [] && LabelSet(one[..0]) == {};
    assert Kept(one) == one && LabelSet(one) == {first};
    assert Kept(two) == two && LabelSet(two) == {first, second};
  }

  /** With labels "shoes" and "bags", the only strictly sorted label list is
      ["bags", "shoes"]. */
  lemma TwoLabelOrder(first: string, second: string)
    requires Less(second, first)
    ensures forall s :: StrictlySorted(s) && Elements(s) == {first, second} ==> s == [second, first]
  {
    var sorted := [second, first];
    assert Elements(sorted) == {first, second};
    forall s | StrictlySorted(s) && Elements(s) == {first, second} ensures s == sorted {
      StrictlySortedUnique(s, sorted);
    }
  }

  /** With one of its three lines dropped, a hasNext-driven drain reaches both kept
      examples, in order. */
  lemma ThreeLineCorpusDrain(first: string, s1: string, second: string, s2: string)
    requires Space !in first && Space !in second
    ensures var examples := [first + [Space] + s1, second + [Space] + s2];
      AllExamples(examples) && Drain(examples, 3, 0) == Some([(s1, first), (s2, second)])
  {
    var examples := [first + [Space] + s1, second + [Space] + s2];
    SplitUnique(examples[0], first, s1);
    SplitUnique(examples[1], second, s2);
    assert AllExamples(examples);
    assert Drain(examples, 3, 2) == Some([]);
    assert [(s2, second)] + [] == [(s2, second)];
    assert Drain(examples, 3, 1) == Some([(s2, second)]);
    assert [(s1, first)] + [(s2, second)] == [(s1, first), (s2, second)];
  }

  class MySentenceProvider {
    /** The raw lines given to the constructor; the source does not keep them. */
    ghost const rawLines: seq<string>
    const totalCount: int
    const allLabels: seq<string>
    var examples: seq<string>
    var cursor: nat

    ghost predicate Valid()
      reads this
    {
      && totalCount == |rawLines|
      && examples == Kept(rawLines)
      && AllExamples(examples)
      && |examples| <= totalCount
      && cursor <= |examples|
      && StrictlySorted(allLabels)
      && Elements(allLabels) == LabelSet(rawLines)
    }

    /** What a consumer looping on hasNext/nextSentence would still receive. */
    ghost function Remaining(): Option<seq<(string, string)>>
      reads this
      requires Valid()
    {
      Drain(examples, totalCount, cursor)
    }

    /** Keeps the lines with a space in input order, collects their distinct labels,
        sorts them, and records the raw line count. */
    constructor (lines: seq<string>)
      ensures Valid() && rawLines == lines && cursor == 0
      ensures totalCount == |lines|
      ensures examples == Kept(lines)
      ensures StrictlySorted(allLabels) && Elements(allLabels) == LabelSet(lines)
    {
      var kept: seq<string> := [];
      var labels: seq<string> := [];
      var labelSet: set<string> := {};
      for i := 0 to |lines|
        invariant kept == Kept(lines[..i])
        invariant labelSet == LabelSet(lines[..i]) == Elements(labels)
        invariant Distinct(labels)
      {
        assert lines[..i + 1][..i] == lines[..i];
        var example := lines[i];
        var index := IndexOfSpace(example);
        if index == -1 {
          continue;
        }
        kept := kept + [example];
        var name := example[..index];
        if name in labelSet {
          continue;
        }
        labelSet := labelSet + {name};
        labels := labels + [name];
      }
      assert lines[..|lines|] == lines;
      var sorted := Sort(labels);
      DistinctMultiset(labels);
      DistinctMultiset(sorted);
      assert forall x :: x in sorted <==> x in multiset(labels);
      KeptLength(lines);
      forall i | 0 <= i < |kept| ensures IsExample(kept[i]) {
        KeptMembers(lines, kept[i]);
      }
      rawLines := lines;
      totalCount := |lines|;
      allLabels := sorted;
      examples := kept;
      cursor := 0;
    }

    /** `hasNext()`: true only while at least two raw lines lie at or after the cursor;
        never for a corpus of fewer than two raw lines. */
    function HasNext(): (b: bool)
      reads this
      requires Valid()
      ensures b <==> cursor + 2 <= |rawLines|
    {
      HasNextAt(cursor, totalCount)
    }

    /** `nextSentence()`: the pair at the cursor, sentence first, label second; the
        cursor moves on by one. */
    method NextSentence() returns (pair: (string, string))
      requires Valid() && cursor < |examples|
      modifies this`cursor
      ensures Valid() && cursor == old(cursor) + 1
      ensures pair.1 + [Space] + pair.0 == examples[old(cursor)] && Space !in pair.1
      ensures old(HasNext()) ==> old(Remaining()) == Prepend(pair, Remaining())
    {
      pair := Split(examples[cursor]);
      cursor := cursor + 1;
    }

    /** `reset()`: back to the first kept line; what a drain then yields is what it
        yielded right after construction. */
    method Reset()
      requires Valid()
      modifies this`cursor
      ensures Valid() && cursor == 0
      ensures Remaining() == Drain(Kept(rawLines), |rawLines|, 0)
    {
      cursor := 0;
    }

    /** `totalNumSentences()`: the raw line count, dropped lines included. */
    function TotalNumSentences(): (n: int)
      reads this
      requires Valid()
      ensures n == |rawLines| && |examples| <= n
    {
      totalCount
    }

    /** `allLabels()`: each distinct label once, in ascending order. */
    function AllLabels(): (labels: seq<string>)
      reads this
      requires Valid()
      ensures StrictlySorted(labels) && Elements(labels) == LabelSet(rawLines)
    {
      allLabels
    }

    /** `numLabelClasses()`: the number of distinct labels. */
    function NumLabelClasses(): (n: int)
      reads this
      requires Valid()
      ensures n == |LabelSet(rawLines)|
    {
      StrictlySortedDistinct(allLabels);
      DistinctCardinality(allLabels);
      |allLabels|
    }
  }
}
