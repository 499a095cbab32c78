/**
 * `String.prototype.split` with a non-empty string separator and no limit,
 * and its round trip with `Array.prototype.join`.
 */
module JsStrings {

  import opened Wrappers
  import opened JsArrays

  /** `d` occurs in `s` starting at index `i`. */
  predicate OccursAt(s: string, d: string, i: int)
  {
    0 <= i && i + |d| <= |s| && s[i..i + |d|] == d
  }

  /** The first index at or after `from` where `d` occurs in `s`, if any. */
  function Find(s: string, d: string, from: nat): (r: Option<nat>)
    requires |d| > 0
    ensures r.Some? ==> from <= r.value && OccursAt(s, d, r.value)
    ensures forall j :: from <= j && (r.None? || j < r.value) ==> !OccursAt(s, d, j)
    decreases |s| - from
  {
    if from + |d| > |s| then None
    else if s[from..from + |d|] == d then Some(from)
    else Find(s, d, from + 1)
  }

  /**
   * `s.split(d)`: the pieces between successive non-overlapping occurrences
   * of `d`, scanning from the left. There is always at least one piece.
   */
  function Split(s: string, d: string): (pieces: seq<string>)
    requires |d| > 0
    ensures |pieces| >= 1
    decreases |s|
  {
    match Find(s, d, 0)
    case None => [s]
    case Some(i) => [s[..i]] + Split(s[i + |d|..], d)
  }

  /** Joining the pieces with the same separator gives back the input. */
  lemma {:induction false} JoinSplit(s: string, d: string)
    requires |d| > 0
    ensures Join(Split(s, d), d) == s
    decreases |s|
  {
    match Find(s, d, 0)
    case None =>
    case Some(i) =>
      var rest := s[i + |d|..];
      var tail := Split(rest, d);
      JoinSplit(rest, d);
      var pieces := [s[..i]] + tail;
      assert Split(s, d) == pieces;
      assert |pieces| >= 2 && pieces[0] == s[..i] && pieces[1..] == tail;
      assert Join(pieces, d) == s[..i] + d + Join(tail, d);
      assert s[i..i + |d|] == d;
      assert s == s[..i] + s[i..i + |d|] + rest;
  }

  /** No piece contains the separator. */
  lemma {:induction false} SplitPiecesAvoidDelimiter(s: string, d: string)
    requires |d| > 0
    ensures forall k, j :: 0 <= k < |Split(s, d)| ==> !OccursAt(Split(s, d)[k], d, j)
    decreases |s|
  {
    var pieces := Split(s, d);
    match Find(s, d, 0)
    case None =>
      forall j ensures !OccursAt(s, d, j) {
        assert 0 <= j ==> !OccursAt(s, d, j);
      }
    case Some(i) =>
      var rest := s[i + |d|..];
      SplitPiecesAvoidDelimiter(rest, d);
      assert pieces == [s[..i]] + Split(rest, d);
      forall k, j | 0 <= k < |pieces| ensures !OccursAt(pieces[k], d, j) {
        if k == 0 && OccursAt(s[..i], d, j) {
          assert s[..i][j..j + |d|] == s[j..j + |d|];
          assert OccursAt(s, d, j);
        } else if k > 0 {
          assert pieces[k] == Split(rest, d)[k - 1];
        }
      }
  }

  /** A one-character line with nothing after it is the only piece. */
  lemma SplitSingleChar(c: char)
    requires c != '\n'
    ensures Split([c], "\n") == [[c]]
  {
    assert [c][0..1] == [c];
    assert Find([c], "\n", 1) == None;
  }

  /** A one-character line followed by a newline is the first piece. */
  lemma SplitAfterSingleChar(c: char, rest: string)
    requires c != '\n'
    ensures Split([c, '\n'] + rest, "\n") == [[c]] + Split(rest, "\n")
  {
    var s := [c, '\n'] + rest;
    assert s[0..1] == [c];
    assert s[1..2] == "\n";
    assert Find(s, "\n", 0) == Some(1);
    assert s[..1] == [c] && s[2..] == rest;
  }

  /** Splitting "a\nb\nc" on newlines gives three one-line pieces. */
  lemma SplitThreeLines()
    ensures Split("a\nb\nc", "\n") == ["a", "b", "c"]
  {
    SplitSingleChar('c');
    SplitAfterSingleChar('b', "c");
    assert ['b', '\n'] + "c" == "b\nc";
    SplitAfterSingleChar('a', "b\nc");
    assert ['a', '\n'] + "b\nc" == "a\nb\nc";
  }
}
