/**
 * The encoding of a small ordered set inside one hash field: the elements
 * joined with the separator `#` (PHP `implode`), and read back by splitting on
 * it (PHP `explode`).
 */
module Encoding {

  /** The reserved separator between the elements of one stored set. */
  const Separator: char := '#'

  /**
   * `explode('#', s)`: the pieces of `s` between separators. There is always
   * at least one piece (`explode` of `""` is `[""]`) and no piece contains
   * the separator.
   */
  function Split(s: string): (parts: seq<string>)
    ensures |parts| >= 1
    ensures forall i :: 0 <= i < |parts| ==> Separator !in parts[i]
    decreases |s|
  {
    if |s| == 0 then [""]
    else
      var rest := Split(s[1..]);
      if s[0] == Separator then [""] + rest
      else [[s[0]] + rest[0]] + rest[1..]
  }

  /**
   * `implode('#', parts)`: the pieces with one separator between neighbours.
   * The encoding of a list starts with its first piece, followed by the
   * separator when more pieces come.
   */
  function Join(parts: seq<string>): (s: string)
    ensures |parts| == 0 ==> s == ""
    ensures |parts| >= 1 ==> |parts[0]| <= |s| && s[..|parts[0]|] == parts[0]
    ensures |parts| >= 2 ==> |parts[0]| < |s| && s[|parts[0]|] == Separator
  {
    if |parts| == 0 then ""
    else if |parts| == 1 then parts[0]
    else parts[0] + [Separator] + Join(parts[1..])
  }

  /** A string without the separator splits into itself alone. */
  lemma {:induction false} SplitPlain(s: string)
    requires Separator !in s
    ensures Split(s) == [s]
    decreases |s|
  {
    if |s| > 0 {
      SplitPlain(s[1..]);
      assert [s[0]] + s[1..] == s;
    }
  }

  /** One unfolding of `Split` on a string that starts with the separator. */
  lemma SplitConsSeparator(s: string)
    ensures Split([Separator] + s) == [""] + Split(s)
  {
    assert ([Separator] + s)[1..] == s;
  }

  /** One unfolding of `Split` on a string that starts with another character. */
  lemma SplitConsOther(c: char, s: string)
    requires c != Separator
    ensures Split([c] + s) == [[c] + Split(s)[0]] + Split(s)[1..]
  {
    assert ([c] + s)[1..] == s;
  }

  /** Putting a piece in front commutes with appending further pieces. */
  lemma PrependPiece(p: string, x: seq<string>, a: seq<string>, b: seq<string>)
    requires x == a + b
    ensures [p] + x == ([p] + a) + b
  {
  }

  /** Extending the first piece commutes with appending further pieces. */
  lemma ExtendHead(c: char, x: seq<string>, a: seq<string>, b: seq<string>)
    requires x == a + b && |a| >= 1
    ensures [[c] + x[0]] + x[1..] == ([[c] + a[0]] + a[1..]) + b
  {
    assert x[0] == a[0];
    assert x[1..] == a[1..] + b;
  }

  /** Pieces shared as a suffix survive a leading separator. */
  lemma SeparatorKeepsSuffix(u: string, w: string, b: seq<string>)
    requires Split(w) == Split(u) + b
    ensures Split([Separator] + w) == Split([Separator] + u) + b
  {
    SplitConsSeparator(w);
    SplitConsSeparator(u);
    PrependPiece("", Split(w), Split(u), b);
  }

  /** Pieces shared as a suffix survive a leading character other than the separator. */
  lemma OtherKeepsSuffix(c: char, u: string, w: string, b: seq<string>)
    requires c != Separator
    requires Split(w) == Split(u) + b
    ensures Split([c] + w) == Split([c] + u) + b
  {
    SplitConsOther(c, w);
    SplitConsOther(c, u);
    ExtendHead(c, Split(w), Split(u), b);
  }

  /** Splitting distributes over one separator. */
  lemma {:induction false} SplitAround(s: string, t: string)
    ensures Split(s + [Separator] + t) == Split(s) + Split(t)
    decreases |s|
  {
    if |s| == 0 {
      assert s + [Separator] + t == [Separator] + t;
      SplitConsSeparator(t);
    } else {
      var c, u := s[0], s[1..];
      var w := u + [Separator] + t;
      SplitAround(u, t);
      if c == Separator {
        SeparatorKeepsSuffix(u, w, Split(t));
      } else {
        OtherKeepsSuffix(c, u, w, Split(t));
      }
      assert s == [c] + u;
      assert s + [Separator] + t == [c] + w;
    }
  }

  /**
   * Reading back an encoded set gives the set: `explode` undoes `implode` on
   * a non-empty list of separator-free elements.
   */
  lemma {:induction false} SplitJoin(parts: seq<string>)
    requires |parts| >= 1
    requires forall i :: 0 <= i < |parts| ==> Separator !in parts[i]
    ensures Split(Join(parts)) == parts
    decreases |parts|
  {
    SplitPlain(parts[0]);
    if |parts| > 1 {
      SplitJoin(parts[1..]);
      SplitAround(parts[0], Join(parts[1..]));
      assert parts == [parts[0]] + parts[1..];
    }
  }

  /** `implode` undoes `explode` on every string. */
  lemma {:induction false} JoinSplit(s: string)
    ensures Join(Split(s)) == s
    decreases |s|
  {
    if |s| > 0 {
      JoinSplit(s[1..]);
      var rest := Split(s[1..]);
      if s[0] == Separator {
        assert Split(s) == [""] + rest;
        assert ([""] + rest)[1..] == rest;
        assert s == [s[0]] + s[1..];
      } else {
        var parts := Split(s);
        assert parts == [[s[0]] + rest[0]] + rest[1..];
        assert parts[1..] == rest[1..];
        if |rest| > 1 {
          assert Join(rest) == rest[0] + [Separator] + Join(rest[1..]);
        }
        assert s == [s[0]] + s[1..];
      }
    }
  }
}
