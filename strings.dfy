/**
 * The Foundation string operations the completion handler relies on:
 * joining pieces, and `components(separatedBy:)` with a one-character
 * separator, which the content classifier uses to find the primary
 * component of a MIME type.
 */
module Strings {

  /** All pieces, one after another. */
  function Concat(pieces: seq<string>): string
  {
    if |pieces| == 0 then "" else pieces[0] + Concat(pieces[1..])
  }

  /** The pieces with `sep` between each neighbouring pair and nowhere else. */
  function Join(pieces: seq<string>, sep: string): string
  {
    if |pieces| == 0 then ""
    else if |pieces| == 1 then pieces[0]
    else pieces[0] + sep + Join(pieces[1..], sep)
  }

  /** Joining with the empty separator is plain concatenation. */
  lemma {:induction false} JoinWithoutSeparator(pieces: seq<string>)
    ensures Join(pieces, "") == Concat(pieces)
  {
    if |pieces| == 1 {
      assert Concat(pieces[1..]) == "";
    } else if |pieces| > 1 {
      JoinWithoutSeparator(pieces[1..]);
    }
  }

  /**
   * `components(separatedBy:)` for a one-character separator: the maximal
   * separator-free pieces of `s`, in order. There is always at least one
   * piece (the empty string has the single component ""), no piece holds
   * the separator, and joining the pieces with it gives `s` back.
   */
  function Components(s: string, sep: char): (r: seq<string>)
    ensures |r| >= 1
    ensures forall i :: 0 <= i < |r| ==> sep !in r[i]
    ensures Join(r, [sep]) == s
    decreases |s|
  {
    if |s| == 0 then [""]
    else
      var rest := Components(s[1..], sep);
      if s[0] == sep then
        assert s == [sep] + s[1..];
        [""] + rest
      else
        var first := [s[0]] + rest[0];
        assert s == [s[0]] + s[1..];
        assert |rest| > 1 ==> Join(rest, [sep]) == rest[0] + [sep] + Join(rest[1..], [sep]);
        [first] + rest[1..]
  }

  /** `p` is the part of `s` before its first `sep` (all of `s` when it has none). */
  ghost predicate IsPartBeforeFirst(s: string, sep: char, p: string)
  {
    sep !in p && (p == s || p + [sep] <= s)
  }

  /** There is only one part before the first separator. */
  lemma PartBeforeFirstUnique(s: string, sep: char, p: string, q: string)
    requires IsPartBeforeFirst(s, sep, p) && IsPartBeforeFirst(s, sep, q)
    ensures p == q
  {
    assert p != s ==> s[|p|] == sep && p == s[..|p|];
    assert q != s ==> s[|q|] == sep && q == s[..|q|];
  }

  /** The first component is the part of `s` before its first separator. */
  lemma FirstComponent(s: string, sep: char)
    ensures IsPartBeforeFirst(s, sep, Components(s, sep)[0])
  {
    var r := Components(s, sep);
    if |r| > 1 {
      assert s == r[0] + [sep] + Join(r[1..], [sep]);
      assert r[0] + [sep] <= s;
    }
  }
}
