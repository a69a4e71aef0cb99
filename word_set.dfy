/** The word set `main` builds from the piped text: its lines, empty ones dropped (a line of spaces is kept). */
module WordSet {
  import opened Basics
  import opened Text

  /** The lines that are not empty, in their original order (`filter(|line| line.len() > 0)`). */
  function NonEmpty(lines: seq<string>): (words: seq<string>)
    ensures |words| <= |lines|
    ensures forall w :: w in words <==> w in lines && w != ""
    ensures multiset(words) == multiset(lines)["" := 0]
  {
    if lines == [] then []
    else
      assert lines == [lines[0]] + lines[1..];
      (if lines[0] == "" then [] else [lines[0]]) + NonEmpty(lines[1..])
  }

  /** The word set of the piped text, or `InvalidData` when it holds fewer than two words. */
  function Extract(input: string): (r: Result<seq<string>, Error>)
    ensures r.Success? <==> |NonEmpty(Split(input, '\n'))| >= 2
    ensures r.Success? ==> r.value == NonEmpty(Split(input, '\n'))
    ensures r.Success? ==> |r.value| >= 2
    ensures r.Success? ==> forall w :: w in r.value ==> w != "" && '\n' !in w
    ensures r.Failure? ==> r.error == InvalidData(NoWordsMessage)
  {
    var words := NonEmpty(Split(input, '\n'));
    SplitPiecesFree(input, '\n');
    if |words| <= 1 then Failure(InvalidData(NoWordsMessage)) else Success(words)
  }

  /** The filter keeps the order of the lines: filtering two stretches of lines one after
      the other gives the filtered first stretch followed by the filtered second. */
  lemma {:induction false} NonEmptyAppend(a: seq<string>, b: seq<string>)
    ensures NonEmpty(a + b) == NonEmpty(a) + NonEmpty(b)
  {
    if a != [] {
      var head := if a[0] == "" then [] else [a[0]];
      assert (a + b)[0] == a[0] && (a + b)[1..] == a[1..] + b;
      NonEmptyAppend(a[1..], b);
      calc {
        NonEmpty(a + b);
        head + NonEmpty(a[1..] + b);
        head + (NonEmpty(a[1..]) + NonEmpty(b));
        (head + NonEmpty(a[1..])) + NonEmpty(b);
        NonEmpty(a) + NonEmpty(b);
      }
    } else {
      assert a + b == b;
    }
  }

  /** Dropping empty lines leaves a list without empty lines unchanged. */
  lemma {:induction false} NonEmptyKeepsWords(lines: seq<string>)
    requires forall k :: 0 <= k < |lines| ==> lines[k] != ""
    ensures NonEmpty(lines) == lines
  {
    if lines != [] {
      NonEmptyKeepsWords(lines[1..]);
    }
  }

  /** Piping two or more words, one per line, gives back exactly those words in order. */
  lemma ExtractRoundTrip(words: seq<string>)
    requires |words| >= 2
    requires forall k :: 0 <= k < |words| ==> words[k] != "" && '\n' !in words[k]
    ensures Extract(Join(words, '\n')) == Success(words)
  {
    SplitJoin(words, '\n');
    NonEmptyKeepsWords(words);
  }

  /** A piped list that ends in a newline gives back its words in order: the empty piece
      after the last newline is dropped. */
  lemma ExtractTrailingNewline(words: seq<string>)
    requires |words| >= 2
    requires forall k :: 0 <= k < |words| ==> words[k] != "" && '\n' !in words[k]
    ensures Join(words + [""], '\n') == Join(words, '\n') + ['\n']
    ensures Extract(Join(words + [""], '\n')) == Success(words)
  {
    JoinSnoc(words, "", '\n');
    SplitTrailingNewline(words);
    NonEmptyDropsEmptyLast(words);
    NonEmptyKeepsWords(words);
  }

  /** An empty last line adds no word. */
  lemma NonEmptyDropsEmptyLast(lines: seq<string>)
    ensures NonEmpty(lines + [""]) == NonEmpty(lines)
  {
    NonEmptyAppend(lines, [""]);
    assert NonEmpty([""]) == [] by {
      assert [""][1..] == [];
    }
  }

  /** Lines that end in a newline (an empty last piece) split back into the lines and that
      empty piece. */
  lemma SplitTrailingNewline(words: seq<string>)
    requires |words| >= 1
    requires forall k :: 0 <= k < |words| ==> '\n' !in words[k]
    ensures Split(Join(words + [""], '\n'), '\n') == words + [""]
  {
    var lines := words + [""];
    assert forall k :: 0 <= k < |lines| ==> '\n' !in lines[k] by {
      assert forall k :: 0 <= k < |words| ==> lines[k] == words[k];
      assert lines[|words|] == "";
    }
    SplitJoin(lines, '\n');
  }

  /** Every non-empty line of the input is in the word set as often as it occurs, and nothing
      else is; the words keep the order of the lines. */
  lemma ExtractKeepsEveryLine(input: string)
    requires Extract(input).Success?
    ensures forall w :: w in Extract(input).value <==> w in Split(input, '\n') && w != ""
    ensures multiset(Extract(input).value) == multiset(Split(input, '\n'))["" := 0]
    ensures forall a, b :: Split(input, '\n') == a + b ==>
              Extract(input).value == NonEmpty(a) + NonEmpty(b)
    ensures Join(Split(input, '\n'), '\n') == input
  {
    JoinSplit(input, '\n');
    forall a, b | Split(input, '\n') == a + b
      ensures Extract(input).value == NonEmpty(a) + NonEmpty(b)
    {
      NonEmptyAppend(a, b);
    }
  }
}
