/**
 Splitting text on a one-character separator, as Rust's `str::split(char)`
 and Python's `str.split(str)` both do: every separator ends a piece,
 empty pieces are kept.
 */
module Text {

  /** Number of occurrences of `c` in `s`. */
  function CountOf(s: string, c: char): nat
  {
    if |s| == 0 then 0 else CountOf(s[..|s| - 1], c) + (if s[|s| - 1] == c then 1 else 0)
  }

  /** The parts joined back with the separator between them. */
  function JoinWith(parts: seq<string>, sep: char): string
    requires |parts| >= 1
  {
    if |parts| == 1 then parts[0]
    else JoinWith(parts[..|parts| - 1], sep) + [sep] + parts[|parts| - 1]
  }

  /** The pieces of `s` between separators, built from the right end. */
  function Pieces(s: string, sep: char): (parts: seq<string>)
    ensures |parts| >= 1
    decreases |s|
  {
    if |s| == 0 then [""]
    else
      var p := Pieces(s[..|s| - 1], sep);
      if s[|s| - 1] == sep then p + [""]
      else p[..|p| - 1] + [p[|p| - 1] + [s[|s| - 1]]]
  }

  /**
   `str::split(sep)`: the pieces between separators, empty pieces kept, so
   there is always one more piece than separators; joining the pieces
   back gives the input.
   */
  function Split(s: string, sep: char): (parts: seq<string>)
    ensures |parts| == CountOf(s, sep) + 1
    ensures forall i :: 0 <= i < |parts| ==> sep !in parts[i]
    ensures JoinWith(parts, sep) == s
  {
    PiecesFacts(s, sep);
    Pieces(s, sep)
  }

  lemma PiecesFacts(s: string, sep: char)
    ensures var parts := Pieces(s, sep);
            && |parts| == CountOf(s, sep) + 1
            && (forall i :: 0 <= i < |parts| ==> sep !in parts[i])
            && JoinWith(parts, sep) == s
  {
    PiecesCount(s, sep);
    PiecesHaveNoSeparator(s, sep);
    PiecesJoin(s, sep);
  }

  lemma {:induction false} PiecesCount(s: string, sep: char)
    ensures |Pieces(s, sep)| == CountOf(s, sep) + 1
    decreases |s|
  {
    if |s| > 0 {
      PiecesCount(s[..|s| - 1], sep);
    }
  }

  lemma {:induction false} PiecesHaveNoSeparator(s: string, sep: char)
    ensures forall i :: 0 <= i < |Pieces(s, sep)| ==> sep !in Pieces(s, sep)[i]
    decreases |s|
  {
    if |s| > 0 {
      var last := s[|s| - 1];
      PiecesHaveNoSeparator(s[..|s| - 1], sep);
      var p := Pieces(s[..|s| - 1], sep);
      if last != sep {
        assert sep !in p[|p| - 1] + [last];
      }
    }
  }

  lemma {:induction false} PiecesJoin(s: string, sep: char)
    ensures JoinWith(Pieces(s, sep), sep) == s
    decreases |s|
  {
    if |s| > 0 {
      var init := s[..|s| - 1];
      var last := s[|s| - 1];
      PiecesJoin(init, sep);
      var p := Pieces(init, sep);
      assert s == init + [last];
      if last == sep {
        JoinAppend(p, "", sep);
      } else {
        JoinExtendLast(p, [last], sep);
      }
    }
  }

  /** Joining one more part adds the separator and the part. */
  lemma JoinAppend(p: seq<string>, x: string, sep: char)
    requires |p| >= 1
    ensures JoinWith(p + [x], sep) == JoinWith(p, sep) + [sep] + x
  {
    assert (p + [x])[..|p|] == p;
  }

  /** Extending the last part extends the join by the same text. */
  lemma JoinExtendLast(p: seq<string>, w: string, sep: char)
    requires |p| >= 1
    ensures JoinWith(p[..|p| - 1] + [p[|p| - 1] + w], sep) == JoinWith(p, sep) + w
  {
    var q := p[..|p| - 1] + [p[|p| - 1] + w];
    if |p| > 1 {
      assert q[..|q| - 1] == p[..|p| - 1];
      var front := JoinWith(p[..|p| - 1], sep) + [sep];
      assert JoinWith(p, sep) == front + p[|p| - 1];
      assert JoinWith(q, sep) == front + (p[|p| - 1] + w);
    }
  }

  /** Splitting pieces that hold no separator, joined with it, gives the pieces back. */
  lemma SplitJoin(parts: seq<string>, sep: char)
    requires |parts| >= 1
    requires forall i :: 0 <= i < |parts| ==> sep !in parts[i]
    ensures Split(JoinWith(parts, sep), sep) == parts
  {
    PiecesOfJoin(parts, sep);
  }

  lemma {:induction false} PiecesOfJoin(parts: seq<string>, sep: char)
    requires |parts| >= 1
    requires forall i :: 0 <= i < |parts| ==> sep !in parts[i]
    ensures Pieces(JoinWith(parts, sep), sep) == parts
    decreases |parts|
  {
    var w := parts[|parts| - 1];
    if |parts| == 1 {
      PiecesAppend("", w, sep);
      assert "" + w == w;
    } else {
      var init := parts[..|parts| - 1];
      PiecesOfJoin(init, sep);
      var j := JoinWith(init, sep);
      assert (j + [sep])[..|j|] == j;
      assert Pieces(j + [sep], sep) == init + [""];
      PiecesAppend(j + [sep], w, sep);
      assert (init + [""])[..|init|] == init;
      assert "" + w == w;
      assert parts == init + [w];
    }
  }

  /** Appending text without a separator extends the last piece. */
  lemma {:induction false} PiecesAppend(s: string, w: string, sep: char)
    requires sep !in w
    ensures ExtendsLastPiece(s, w, sep)
    decreases |w|
  {
    if |w| == 0 {
      var p := Pieces(s, sep);
      assert s + w == s;
      assert p[|p| - 1] + w == p[|p| - 1];
    } else {
      var rest := w[1..];
      assert sep !in rest by {
        assert forall k :: 0 <= k < |rest| ==> rest[k] == w[k + 1];
      }
      PiecesAppend(s + [w[0]], rest, sep);
      PiecesAppendStep(s, w[0], rest, sep);
      assert [w[0]] + rest == w;
    }
  }

  /** The pieces of `s + w` are those of `s` with `w` added to the last one. */
  ghost predicate ExtendsLastPiece(s: string, w: string, sep: char)
  {
    var p := Pieces(s, sep);
    Pieces(s + w, sep) == p[..|p| - 1] + [p[|p| - 1] + w]
  }

  lemma PiecesAppendStep(s: string, c: char, rest: string, sep: char)
    requires c != sep
    requires ExtendsLastPiece(s + [c], rest, sep)
    ensures ExtendsLastPiece(s, [c] + rest, sep)
  {
    var p := Pieces(s, sep);
    PiecesPushChar(s, c, sep);
    var p1 := Pieces(s + [c], sep);
    assert p1[..|p1| - 1] == p[..|p| - 1];
    assert p1[|p1| - 1] == p[|p| - 1] + [c];
    assert s + ([c] + rest) == (s + [c]) + rest;
    assert p[|p| - 1] + [c] + rest == p[|p| - 1] + ([c] + rest);
  }

  /** A character other than the separator extends the last piece. */
  lemma PiecesPushChar(t: string, c: char, sep: char)
    requires c != sep
    ensures var q := Pieces(t, sep);
            Pieces(t + [c], sep) == q[..|q| - 1] + [q[|q| - 1] + [c]]
  {
    assert (t + [c])[..|t|] == t;
  }

  lemma {:induction false} CountOfConcat(a: string, b: string, c: char)
    ensures CountOf(a + b, c) == CountOf(a, c) + CountOf(b, c)
    decreases |b|
  {
    if |b| > 0 {
      assert (a + b)[..|a + b| - 1] == a + b[..|b| - 1];
      CountOfConcat(a, b[..|b| - 1], c);
    } else {
      assert a + b == a;
    }
  }

  lemma {:induction false} CountOfAbsent(s: string, c: char)
    requires c !in s
    ensures CountOf(s, c) == 0
    decreases |s|
  {
    if |s| > 0 {
      assert c !in s[..|s| - 1] by {
        assert forall k :: 0 <= k < |s| - 1 ==> s[..|s| - 1][k] == s[k];
      }
      CountOfAbsent(s[..|s| - 1], c);
    }
  }

  /** ASCII lower-casing of one character; every other character is left as it is. */
  function LowerAscii(c: char): (l: char)
    ensures 'A' <= c <= 'Z' ==> 'a' <= l <= 'z' && l as int - 'a' as int == c as int - 'A' as int
    ensures !('A' <= c <= 'Z') ==> l == c
  {
    if 'A' <= c <= 'Z' then (c as int - 'A' as int + 'a' as int) as char else c
  }

  /** ASCII lower-casing of a string, character by character. */
  function LowerAsciiString(s: string): (l: string)
    ensures |l| == |s|
    ensures forall i :: 0 <= i < |s| ==> l[i] == LowerAscii(s[i])
  {
    seq(|s|, i requires 0 <= i < |s| => LowerAscii(s[i]))
  }

  /** Equal up to ASCII case, the way HTTP header names compare. */
  predicate SameIgnoringAsciiCase(a: string, b: string)
  {
    LowerAsciiString(a) == LowerAsciiString(b)
  }
}
