/** Splitting a string on a separator character and joining pieces with one. */
module Text {

  /** Position of the first `sep` in `s`. */
  function IndexOf(s: string, sep: char): (k: nat)
    requires sep in s
    ensures k < |s| && s[k] == sep
    ensures sep !in s[..k]
  {
    if s[0] == sep then 0 else 1 + IndexOf(s[1..], sep)
  }

  /** `str::split(sep)`: the pieces between separators, empty pieces included;
      the empty string splits into one empty piece. */
  function Split(s: string, sep: char): (parts: seq<string>)
    ensures |parts| >= 1
    ensures |parts| == multiset(s)[sep] + 1
    decreases |s|
  {
    if sep in s then
      var k := IndexOf(s, sep);
      assert s == s[..k] + [sep] + s[k + 1..];
      [s[..k]] + Split(s[k + 1..], sep)
    else
      [s]
  }

  /** No piece of a split holds the separator. */
  lemma {:induction false} SplitPiecesFree(s: string, sep: char)
    ensures forall p :: p in Split(s, sep) ==> sep !in p
    decreases |s|
  {
    if sep in s {
      var k := IndexOf(s, sep);
      SplitPiecesFree(s[k + 1..], sep);
      assert Split(s, sep) == [s[..k]] + Split(s[k + 1..], sep);
    }
  }

  /** The pieces with one `sep` between neighbours (`join`, `intersperse` + `collect`);
      the result starts with the first piece. */
  function Join(parts: seq<string>, sep: char): (joined: string)
    ensures |parts| >= 1 ==> |parts[0]| <= |joined| && joined[..|parts[0]|] == parts[0]
  {
    if |parts| == 0 then ""
    else if |parts| == 1 then parts[0]
    else parts[0] + [sep] + Join(parts[1..], sep)
  }

  lemma JoinCons(head: string, rest: seq<string>, sep: char)
    requires |rest| >= 1
    ensures Join([head] + rest, sep) == head + [sep] + Join(rest, sep)
  {
    assert ([head] + rest)[1..] == rest;
  }

  /** When no piece holds `sep`, a join of `k` pieces holds exactly `k - 1` separators. */
  lemma {:induction false} JoinCount(parts: seq<string>, sep: char)
    requires |parts| >= 1
    requires forall k :: 0 <= k < |parts| ==> sep !in parts[k]
    ensures multiset(Join(parts, sep))[sep] == |parts| - 1
  {
    if |parts| > 1 {
      JoinCount(parts[1..], sep);
      assert multiset(parts[0])[sep] == 0;
    }
  }

  /** Appending a piece to a join of one or more pieces adds a separator and the piece. */
  lemma {:induction false} JoinSnoc(parts: seq<string>, last: string, sep: char)
    requires |parts| >= 1
    ensures Join(parts + [last], sep) == Join(parts, sep) + [sep] + last
  {
    if |parts| > 1 {
      assert (parts + [last])[1..] == parts[1..] + [last];
      JoinSnoc(parts[1..], last, sep);
    }
  }

  /** Joining the pieces of a split gives the original string back. */
  lemma {:induction false} JoinSplit(s: string, sep: char)
    ensures Join(Split(s, sep), sep) == s
    decreases |s|
  {
    if sep in s {
      var k := IndexOf(s, sep);
      var rest := Split(s[k + 1..], sep);
      JoinSplit(s[k + 1..], sep);
      JoinCons(s[..k], rest, sep);
      assert s == s[..k] + [sep] + s[k + 1..];
    }
  }

  /** A split at the first separator: the piece before it, then the split of the rest. */
  lemma SplitAtFirst(s: string, sep: char, k: nat)
    requires k < |s| && s[k] == sep && sep !in s[..k]
    ensures Split(s, sep) == [s[..k]] + Split(s[k + 1..], sep)
  {
    assert IndexOf(s, sep) == k;
  }

  /** A join of two or more pieces: the first piece, a separator, the join of the rest. */
  lemma JoinFirst(parts: seq<string>, sep: char)
    requires |parts| >= 2
    ensures var joined, k := Join(parts, sep), |parts[0]|;
      && k < |joined| && joined[k] == sep
      && joined[..k] == parts[0]
      && joined[k + 1..] == Join(parts[1..], sep)
  {
    var s := parts[0] + [sep] + Join(parts[1..], sep);
    assert s[|parts[0]| + 1..] == Join(parts[1..], sep);
  }

  /** Splitting a join of separator-free pieces gives the pieces back. */
  lemma {:induction false} SplitJoin(parts: seq<string>, sep: char)
    requires |parts| >= 1
    requires forall k :: 0 <= k < |parts| ==> sep !in parts[k]
    ensures Split(Join(parts, sep), sep) == parts
  {
    if |parts| > 1 {
      JoinFirst(parts, sep);
      SplitAtFirst(Join(parts, sep), sep, |parts[0]|);
      SplitJoin(parts[1..], sep);
    }
  }
}
