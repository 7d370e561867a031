/** String helpers shared by the handlers: `str::split` on one character, its inverse, and prefixes. */
module Strings {

  predicate StartsWith(s: string, prefix: string) {
    |prefix| <= |s| && s[..|prefix|] == prefix
  }

  /** `s.split(sep)`: the pieces between separators, empty pieces included. */
  function Split(s: string, sep: char): (pieces: seq<string>)
    ensures |pieces| >= 1
    ensures forall i :: 0 <= i < |pieces| ==> sep !in pieces[i]
  {
    if s == [] then [""]
    else
      var rest := Split(s[1..], sep);
      if s[0] == sep then [""] + rest
      else [[s[0]] + rest[0]] + rest[1..]
  }

  /** The pieces put back together with the separator between them. */
  function Join(pieces: seq<string>, sep: char): string
    requires |pieces| >= 1
    decreases |pieces|
  {
    if |pieces| == 1 then pieces[0] else pieces[0] + [sep] + Join(pieces[1..], sep)
  }

  /** Joining the pieces of a split gives the string back. */
  lemma {:induction false} JoinSplit(s: string, sep: char)
    ensures Join(Split(s, sep), sep) == s
  {
    if s != [] {
      var rest := Split(s[1..], sep);
      JoinSplit(s[1..], sep);
      if s[0] == sep {
        assert ([""] + rest)[1..] == rest;
      } else {
        var pieces := [[s[0]] + rest[0]] + rest[1..];
        if |rest| == 1 {
          assert pieces == [[s[0]] + rest[0]];
        } else {
          assert pieces[1..] == rest[1..];
          assert Join(rest, sep) == rest[0] + [sep] + Join(rest[1..], sep);
        }
      }
    }
  }

  lemma {:induction false} SplitAtSeparator(t: string, sep: char)
    ensures Split([sep] + t, sep) == [""] + Split(t, sep)
  {
    assert ([sep] + t)[1..] == t;
  }

  lemma {:induction false} SplitWord(w: string, t: string, sep: char)
    requires sep !in w
    ensures Split(w + t, sep) == [w + Split(t, sep)[0]] + Split(t, sep)[1..]
  {
    if w != [] {
      assert (w + t)[0] == w[0] && (w + t)[1..] == w[1..] + t;
      SplitWord(w[1..], t, sep);
      assert [w[0]] + (w[1..] + Split(t, sep)[0]) == w + Split(t, sep)[0];
    } else {
      assert w + t == t;
      assert Split(t, sep) == [Split(t, sep)[0]] + Split(t, sep)[1..];
      assert w + Split(t, sep)[0] == Split(t, sep)[0];
    }
  }

  /** Pieces free of the separator survive a join and a split unchanged. */
  lemma {:induction false} SplitJoin(pieces: seq<string>, sep: char)
    requires |pieces| >= 1
    requires forall i :: 0 <= i < |pieces| ==> sep !in pieces[i]
    ensures Split(Join(pieces, sep), sep) == pieces
    decreases |pieces|
  {
    var w := pieces[0];
    if |pieces| == 1 {
      SplitWord(w, "", sep);
      assert w + "" == w;
    } else {
      var j := Join(pieces[1..], sep);
      SplitJoin(pieces[1..], sep);
      SplitAtSeparator(j, sep);
      assert Join(pieces, sep) == w + ([sep] + j);
      SplitWord(w, [sep] + j, sep);
      assert w + "" == w;
    }
  }

  lemma {:induction false} JoinAppendEmpty(pieces: seq<string>, sep: char)
    requires |pieces| >= 1
    ensures Join(pieces + [""], sep) == Join(pieces, sep) + [sep]
    decreases |pieces|
  {
    if |pieces| == 1 {
      assert (pieces + [""])[1..] == [""];
    } else {
      assert (pieces + [""])[1..] == pieces[1..] + [""];
      JoinAppendEmpty(pieces[1..], sep);
    }
  }
}
