/** The parts of Go's `strings` package the resolver relies on, for a
    one-character needle or separator: `strings.Index`, `strings.Split` and
    `strings.Join`, plus the "drop the empty pieces" filter both the URL
    parser and `path.Join` apply. Strings are sequences of characters. */
module Strings {

  /** `strings.Index(s, string(c))`: the position of the first `c` in `s`,
      or -1 when `s` has none. */
  function IndexOf(s: string, c: char): (i: int)
    ensures -1 <= i < |s|
    ensures i == -1 <==> c !in s
    ensures 0 <= i ==> s[i] == c && c !in s[..i]
  {
    if s == [] then -1
    else if s[0] == c then 0
    else
      var j := IndexOf(s[1..], c);
      assert j >= 0 ==> s[..j + 1] == [s[0]] + s[1..][..j];
      if j < 0 then -1 else j + 1
  }

  /** Any position holding the first `c` is the one `IndexOf` reports. */
  lemma IndexOfIsFirst(s: string, c: char, i: nat)
    requires i < |s| && s[i] == c && c !in s[..i]
    ensures IndexOf(s, c) == i
  {
  }

  /** `strings.Split(s, string(sep))`: the pieces of `s` between the
      separators, read left to right; there is always at least one, since
      the empty string splits to [""]. */
  function Split(s: string, sep: char): (r: seq<string>)
    ensures |r| >= 1
  {
    if s == [] then [""]
    else
      var rest := Split(s[1..], sep);
      if s[0] == sep then [""] + rest
      else [[s[0]] + rest[0]] + rest[1..]
  }

  /** `strings.Join(parts, string(sep))`. */
  function Join(parts: seq<string>, sep: char): string
  {
    if parts == [] then ""
    else if |parts| == 1 then parts[0]
    else parts[0] + [sep] + Join(parts[1..], sep)
  }

  /** No piece of a split contains the separator. */
  lemma {:induction false} SplitPiecesFree(s: string, sep: char)
    ensures forall k :: 0 <= k < |Split(s, sep)| ==> sep !in Split(s, sep)[k]
    decreases |s|
  {
    if s != [] {
      SplitPiecesFree(s[1..], sep);
    }
  }

  /** Text without a separator is a single piece. */
  lemma {:induction false} SplitNoSeparator(s: string, sep: char)
    requires sep !in s
    ensures Split(s, sep) == [s]
    decreases |s|
  {
    if s != [] {
      assert forall c :: c in s[1..] ==> c in s;
      SplitNoSeparator(s[1..], sep);
      assert [s[0]] + s[1..] == s;
    }
  }

  /** Joining a piece in front of at least one other adds one separator. */
  lemma JoinCons(p: string, rest: seq<string>, sep: char)
    requires |rest| >= 1
    ensures Join([p] + rest, sep) == p + [sep] + Join(rest, sep)
  {
    assert ([p] + rest)[1..] == rest;
  }

  /** Two leading pieces each take one separator in front of the rest. */
  lemma JoinConsTwo(p: string, q: string, rest: seq<string>, sep: char)
    requires |rest| >= 1
    ensures Join([p, q] + rest, sep) == p + [sep] + q + [sep] + Join(rest, sep)
  {
    var tail := [q] + rest;
    assert [p, q] + rest == [p] + tail;
    JoinCons(p, tail, sep);
    JoinCons(q, rest, sep);
    var j := Join(rest, sep);
    assert p + [sep] + (q + [sep] + j) == p + [sep] + q + [sep] + j;
  }

  /** Gluing a character onto the first piece puts it in front of the join. */
  lemma JoinGlue(x: char, rest: seq<string>, sep: char)
    requires |rest| >= 1
    ensures Join([[x] + rest[0]] + rest[1..], sep) == [x] + Join(rest, sep)
  {
    if |rest| > 1 {
      JoinCons([x] + rest[0], rest[1..], sep);
      JoinCons(rest[0], rest[1..], sep);
      assert rest == [rest[0]] + rest[1..];
    }
  }

  /** Joining the pieces of a split gives the original text back. */
  lemma {:induction false} JoinSplit(s: string, sep: char)
    ensures Join(Split(s, sep), sep) == s
    decreases |s|
  {
    if s != [] {
      var rest := Split(s[1..], sep);
      JoinSplit(s[1..], sep);
      assert s == [s[0]] + s[1..];
      if s[0] == sep {
        SplitStepSeparator(s, sep);
        JoinCons("", rest, sep);
      } else {
        SplitStepOther(s, sep);
        JoinGlue(s[0], rest, sep);
      }
    }
  }

  /** Splitting distributes over a separator: `Split(a + "/" + b)` is the
      pieces of `a` followed by the pieces of `b`. */
  lemma {:induction false} SplitAppend(a: string, sep: char, b: string)
    ensures Split(a + [sep] + b, sep) == Split(a, sep) + Split(b, sep)
    decreases |a|
  {
    var s := a + [sep] + b;
    if a == [] {
      assert s[1..] == b;
    } else {
      SplitAppend(a[1..], sep, b);
      if a[0] == sep {
        SplitAppendSeparator(a, sep, b);
      } else {
        SplitAppendOther(a, sep, b);
      }
    }
  }

  /** The first character of `a + [sep] + b` and what follows it. */
  lemma ConsView(a: string, sep: char, b: string)
    requires a != []
    ensures (a + [sep] + b)[0] == a[0]
    ensures (a + [sep] + b)[1..] == a[1..] + [sep] + b
  {
  }

  /** Gluing a character onto the first piece commutes with appending more pieces. */
  lemma GlueFirst(x: char, rest: seq<string>, tail: seq<string>)
    requires |rest| >= 1
    ensures [[x] + (rest + tail)[0]] + (rest + tail)[1..] == ([[x] + rest[0]] + rest[1..]) + tail
  {
    assert (rest + tail)[0] == rest[0];
    assert (rest + tail)[1..] == rest[1..] + tail;
  }

  /** One step of Split on a text that starts with the separator. */
  lemma SplitStepSeparator(s: string, sep: char)
    requires s != [] && s[0] == sep
    ensures Split(s, sep) == [""] + Split(s[1..], sep)
  {
  }

  /** One step of Split on a text that starts with another character. */
  lemma SplitStepOther(s: string, sep: char)
    requires s != [] && s[0] != sep
    ensures Split(s, sep) == [[s[0]] + Split(s[1..], sep)[0]] + Split(s[1..], sep)[1..]
  {
  }

  /** The inductive step of SplitAppend when `a` starts with the separator. */
  lemma SplitAppendSeparator(a: string, sep: char, b: string)
    requires a != [] && a[0] == sep
    requires Split(a[1..] + [sep] + b, sep) == Split(a[1..], sep) + Split(b, sep)
    ensures Split(a + [sep] + b, sep) == Split(a, sep) + Split(b, sep)
  {
    ConsView(a, sep, b);
    SplitStepSeparator(a + [sep] + b, sep);
    SplitStepSeparator(a, sep);
  }

  /** The inductive step of SplitAppend when `a` starts with another character. */
  lemma SplitAppendOther(a: string, sep: char, b: string)
    requires a != [] && a[0] != sep
    requires Split(a[1..] + [sep] + b, sep) == Split(a[1..], sep) + Split(b, sep)
    ensures Split(a + [sep] + b, sep) == Split(a, sep) + Split(b, sep)
  {
    ConsView(a, sep, b);
    SplitStepOther(a + [sep] + b, sep);
    SplitStepOther(a, sep);
    GlueFirst(a[0], Split(a[1..], sep), Split(b, sep));
  }

  /** Splitting the join of separator-free pieces gives the pieces back. */
  lemma {:induction false} SplitJoin(parts: seq<string>, sep: char)
    requires |parts| >= 1
    requires forall k :: 0 <= k < |parts| ==> sep !in parts[k]
    ensures Split(Join(parts, sep), sep) == parts
    decreases |parts|
  {
    SplitNoSeparator(parts[0], sep);
    if |parts| > 1 {
      SplitJoin(parts[1..], sep);
      SplitAppend(parts[0], sep, Join(parts[1..], sep));
      assert parts == [parts[0]] + parts[1..];
    }
  }

  /** A piece of the split is empty exactly when the text is empty, starts
      or ends with the separator, or holds two separators in a row. */
  predicate HasBlankPiece(s: string, sep: char)
  {
    s == [] || s[0] == sep || s[|s| - 1] == sep || HasDoubled(s, sep)
  }

  /** Two separators in a row somewhere in `s`. */
  predicate HasDoubled(s: string, sep: char)
  {
    exists i :: 0 < i < |s| && s[i - 1] == sep && s[i] == sep
  }

  /** Text without a separator has a blank piece only when it is empty. */
  lemma BlankPieceNoSeparator(s: string, sep: char)
    requires sep !in s
    ensures HasBlankPiece(s, sep) <==> s == []
  {
    if s != [] {
      assert s[0] in s && s[|s| - 1] in s;
    }
  }

  /** Cutting `s` at its first separator `i`: `s` has a blank piece exactly
      when the cut leaves an empty first piece or the rest has one. */
  lemma BlankPieceStep(s: string, sep: char, i: nat)
    requires i < |s| && s[i] == sep && sep !in s[..i]
    ensures HasBlankPiece(s, sep) <==> i == 0 || HasBlankPiece(s[i + 1..], sep)
  {
    var t := s[i + 1..];
    if HasDoubled(s, sep) && i != 0 {
      var j :| 0 < j < |s| && s[j - 1] == sep && s[j] == sep;
      if j == i + 1 {
        assert t[0] == sep;
      } else if j > i + 1 {
        assert t[j - i - 2] == sep && t[j - i - 1] == sep;
        assert HasDoubled(t, sep);
      }
    }
    if HasDoubled(t, sep) {
      var j :| 0 < j < |t| && t[j - 1] == sep && t[j] == sep;
      assert s[i + j] == sep && s[i + 1 + j] == sep;
    }
    if t != [] && t[0] == sep {
      assert s[i] == sep && s[i + 1] == sep;
    }
    if t != [] {
      assert t[|t| - 1] == s[|s| - 1];
    }
  }

  /** The split has an empty piece exactly when `HasBlankPiece` holds. */
  lemma {:induction false} BlankPieceIff(s: string, sep: char)
    ensures "" in Split(s, sep) <==> HasBlankPiece(s, sep)
    decreases |s|
  {
    var i := IndexOf(s, sep);
    if i >= 0 {
      var t := s[i + 1..];
      assert s == s[..i] + [sep] + t;
      SplitAppend(s[..i], sep, t);
      SplitNoSeparator(s[..i], sep);
      BlankPieceIff(t, sep);
      BlankPieceStep(s, sep, i);
    } else {
      SplitNoSeparator(s, sep);
      BlankPieceNoSeparator(s, sep);
    }
  }

  /** The pieces that are not empty, in their original order. */
  function NonEmpty(pieces: seq<string>): (r: seq<string>)
    ensures forall k :: 0 <= k < |r| ==> r[k] != ""
    ensures forall x :: x in r <==> x in pieces && x != ""
    ensures |r| <= |pieces|
  {
    if pieces == [] then []
    else
      var init, last := pieces[..|pieces| - 1], pieces[|pieces| - 1];
      assert pieces == init + [last];
      NonEmpty(init) + (if last == "" then [] else [last])
  }

  /** Filtering distributes over concatenation. */
  lemma {:induction false} NonEmptyAppend(a: seq<string>, b: seq<string>)
    ensures NonEmpty(a + b) == NonEmpty(a) + NonEmpty(b)
    decreases |b|
  {
    if b != [] {
      var init, last := b[..|b| - 1], b[|b| - 1];
      assert (a + b)[..|a + b| - 1] == a + init;
      NonEmptyAppend(a, init);
    } else {
      assert a + b == a;
    }
  }

  /** A leading empty piece is filtered away. */
  lemma NonEmptyDropsBlank(pieces: seq<string>)
    ensures NonEmpty([""] + pieces) == NonEmpty(pieces)
  {
    NonEmptyAppend([""], pieces);
    assert NonEmpty([""]) == [];
  }

  /** A sequence with no empty piece passes the filter unchanged. */
  lemma {:induction false} NonEmptyKeepsAll(pieces: seq<string>)
    requires forall k :: 0 <= k < |pieces| ==> pieces[k] != ""
    ensures NonEmpty(pieces) == pieces
    decreases |pieces|
  {
    if pieces != [] {
      NonEmptyKeepsAll(pieces[..|pieces| - 1]);
    }
  }

  /** Text made only of separators has no non-empty piece. */
  lemma {:induction false} OnlySeparatorsSplitToBlanks(s: string, sep: char)
    requires forall k :: 0 <= k < |s| ==> s[k] == sep
    ensures NonEmpty(Split(s, sep)) == []
    decreases |s|
  {
    if s != [] {
      OnlySeparatorsSplitToBlanks(s[1..], sep);
      NonEmptyAppend([""], Split(s[1..], sep));
    }
  }

  /** The join of non-empty pieces is empty only when there are none. */
  lemma {:induction false} JoinEmpty(parts: seq<string>, sep: char)
    requires forall k :: 0 <= k < |parts| ==> parts[k] != ""
    ensures Join(parts, sep) == "" <==> parts == []
  {
    if |parts| > 1 {
      assert |Join(parts, sep)| >= |parts[0]| > 0;
    }
  }
}
