/** Parsing of the labelled corpus: a line is `<label> <sentence>`, split at its
    first space character; a line without a space is not an example. */
module Corpus {

  const Space: char := ' '

  /** `s.indexOf(" ")`: the position of the first space, or -1 when there is none. */
  function IndexOfSpace(s: string): (r: int)
    ensures r == -1 <==> Space !in s
    ensures r != -1 ==> 0 <= r < |s| && s[r] == Space && Space !in s[..r]
  {
    if |s| == 0 then -1
    else if s[0] == Space then 0
    else
      var k := IndexOfSpace(s[1..]);
      assert k != -1 ==> s[..k + 1] == [s[0]] + s[1..][..k];
      if k == -1 then -1 else k + 1
  }

  /** A raw line is kept as an example exactly when it contains a space. */
  predicate IsExample(line: string)
    ensures IsExample(line) <==> Space in line
  {
    IndexOfSpace(line) != -1
  }

  /** `line.substring(0, index)`: the label is the text before the first space. */
  function Label(line: string): (prefix: string)
    requires IsExample(line)
    ensures Space !in prefix
    ensures prefix + [Space] <= line
  {
    line[..IndexOfSpace(line)]
  }

  /** The (sentence, label) pair of a kept line: the label before the first space,
      the sentence verbatim after it. The split loses nothing but that one space. */
  function Split(line: string): (pair: (string, string))
    requires IsExample(line)
    ensures pair.1 + [Space] + pair.0 == line
    ensures pair.1 == Label(line)
  {
    var index := IndexOfSpace(line);
    assert line == line[..index] + [Space] + line[index + 1..];
    (line[index + 1..], line[..index])
  }

  /** A space with no space before it is the first space. */
  lemma {:induction false} IndexOfSpaceAt(s: string, k: nat)
    requires k < |s| && s[k] == Space && Space !in s[..k]
    ensures IndexOfSpace(s) == k
  {
    if k > 0 {
      assert s[0] == s[..k][0];
      assert s[1..][..k - 1] == s[1..k];
      assert forall c :: c in s[1..k] ==> c in s[..k];
      IndexOfSpaceAt(s[1..], k - 1);
    }
  }

  /** The split is the only way to write a line as a space-free label, a space and a
      sentence. */
  lemma SplitUnique(line: string, prefix: string, sentence: string)
    requires prefix + [Space] + sentence == line
    requires Space !in prefix
    ensures IsExample(line)
    ensures Split(line) == (sentence, prefix)
  {
    assert line[..|prefix|] == prefix;
    IndexOfSpaceAt(line, |prefix|);
    assert line[|prefix| + 1..] == sentence;
  }

  /** The lines the constructor keeps, in input order. */
  function Kept(lines: seq<string>): (kept: seq<string>)
    ensures |kept| <= |lines|
    ensures forall i :: 0 <= i < |kept| ==> IsExample(kept[i])
  {
    if lines == [] then []
    else
      var last := lines[|lines| - 1];
      Kept(lines[..|lines| - 1]) + (if IsExample(last) then [last] else [])
  }

  /** Filtering distributes over concatenation: kept lines keep their relative order. */
  lemma {:induction false} KeptAppend(a: seq<string>, b: seq<string>)
    ensures Kept(a + b) == Kept(a) + Kept(b)
  {
    if b == [] {
      assert a + b == a;
    } else {
      var b' := b[..|b| - 1];
      assert (a + b)[..|a + b| - 1] == a + b';
      KeptAppend(a, b');
    }
  }

  /** A line appears among the kept lines exactly when it is an input line with a space. */
  lemma {:induction false} KeptMembers(lines: seq<string>, x: string)
    ensures x in Kept(lines) <==> x in lines && IsExample(x)
  {
    if lines != [] {
      var init := lines[..|lines| - 1];
      KeptMembers(init, x);
      assert lines == init + [lines[|lines| - 1]];
    }
  }

  /** No more lines are kept than were given, and all are kept exactly when every
      line has a space. */
  lemma {:induction false} KeptLength(lines: seq<string>)
    ensures |Kept(lines)| <= |lines|
    ensures |Kept(lines)| == |lines| <==> forall i :: 0 <= i < |lines| ==> IsExample(lines[i])
    ensures |Kept(lines)| == |lines| <==> Kept(lines) == lines
  {
    if lines != [] {
      var init := lines[..|lines| - 1];
      KeptLength(init);
      assert lines == init + [lines[|lines| - 1]];
      if forall i :: 0 <= i < |lines| ==> IsExample(lines[i]) {
        assert forall i :: 0 <= i < |init| ==> IsExample(init[i]) by {
          forall i | 0 <= i < |init| ensures IsExample(init[i]) {
            assert init[i] == lines[i];
          }
        }
      }
    }
  }

  /** The distinct labels of the kept lines. */
  function LabelSet(lines: seq<string>): (labels: set<string>)
    ensures forall l :: l in labels ==> Space !in l
  {
    if lines == [] then {}
    else
      var last := lines[|lines| - 1];
      LabelSet(lines[..|lines| - 1]) + (if IsExample(last) then {Label(last)} else {})
  }

  /** A string is a label exactly when some input line has a space and that string
      before its first space; so no label contains a space. */
  lemma {:induction false} LabelSetMembers(lines: seq<string>, l: string)
    ensures l in LabelSet(lines) <==>
      exists i :: 0 <= i < |lines| && IsExample(lines[i]) && Label(lines[i]) == l
    ensures l in LabelSet(lines) ==> Space !in l
  {
    if lines != [] {
      var init := lines[..|lines| - 1];
      LabelSetMembers(init, l);
      if exists i :: 0 <= i < |lines| && IsExample(lines[i]) && Label(lines[i]) == l {
        var i :| 0 <= i < |lines| && IsExample(lines[i]) && Label(lines[i]) == l;
        if i < |init| {
          assert init[i] == lines[i];
        }
      }
      if exists i :: 0 <= i < |init| && IsExample(init[i]) && Label(init[i]) == l {
        var i :| 0 <= i < |init| && IsExample(init[i]) && Label(init[i]) == l;
        assert lines[i] == init[i];
      }
    }
  }
}
