/** What writeGraphPath writes for a path, as a character sequence (the output
    stream is left out): the vertex count on a line of its own and, when the
    path is not empty, the vertices on one line separated by single spaces. */
module PathOutput {

  datatype Option<T> = None | Some(value: T)

  predicate IsDigit(c: char) {
    '0' as int <= c as int <= '9' as int
  }

  /** The decimal digit character for d. */
  function Digit(d: nat): (c: char)
    requires d < 10
    ensures IsDigit(c) && c as int - '0' as int == d
  {
    ('0' as int + d) as char
  }

  /** The decimal text of x, most significant digit first, without leading zeros. */
  function NatText(x: nat): seq<char>
  {
    if x < 10 then [Digit(x)] else NatText(x / 10) + [Digit(x % 10)]
  }

  /** What `out << v` writes for an int: a minus sign for negative values, then
      the decimal digits of the magnitude. */
  function IntText(v: int): seq<char>
  {
    if v < 0 then ['-'] + NatText(-v) else NatText(v)
  }

  /** The texts of the vertices joined by single spaces; the flag of the source
      loop suppresses the separator before the first one. */
  function Joined(p: seq<int>): seq<char>
  {
    if |p| == 0 then []
    else if |p| == 1 then IntText(p[0])
    else Joined(p[..|p| - 1]) + [' '] + IntText(p[|p| - 1])
  }

  /** The whole output for a path (`endl` is a line end '\n'). */
  function Format(p: seq<int>): seq<char>
  {
    IntText(|p|) + ['\n'] + (if |p| == 0 then [] else Joined(p) + ['\n'])
  }

  /** writeGraphPath: the count and a line end, nothing more for an empty path,
      otherwise each vertex preceded by a space unless it is the first, and a
      final line end. */
  method WriteGraphPath(path: seq<int>) returns (out: seq<char>)
    ensures out == Format(path)
  {
    out := IntText(|path|) + ['\n'];
    if |path| == 0 {
      return;
    }
    var flag := true;
    for i := 0 to |path|
      invariant flag <==> i == 0
      invariant out == IntText(|path|) + ['\n'] + Joined(path[..i])
    {
      if flag {
        flag := false;
      } else {
        out := out + [' '];
      }
      out := out + IntText(path[i]);
      assert path[..i + 1][..i] == path[..i];
    }
    assert path[..|path|] == path;
    out := out + ['\n'];
  }

  // ---- Reading the output back ----

  /** The value of a string of digits. */
  function DigitsValue(s: seq<char>): nat
    requires forall i :: 0 <= i < |s| ==> IsDigit(s[i])
  {
    if s == [] then 0
    else
      assert IsDigit(s[|s| - 1]);
      DigitsValue(s[..|s| - 1]) * 10 + (s[|s| - 1] as int - '0' as int)
  }

  function ParseNat(s: seq<char>): Option<nat>
  {
    if s != [] && forall i :: 0 <= i < |s| ==> IsDigit(s[i]) then Some(DigitsValue(s)) else None
  }

  function ParseInt(s: seq<char>): Option<int>
  {
    if |s| > 0 && s[0] == '-' then
      match ParseNat(s[1..])
      case Some(x) => Some(-(x as int))
      case None => None
    else
      match ParseNat(s)
      case Some(x) => Some(x)
      case None => None
  }

  /** The pieces of s between occurrences of sep (an empty s is one empty piece). */
  function Split(s: seq<char>, sep: char): (pieces: seq<seq<char>>)
    ensures |pieces| >= 1
  {
    if s == [] then [[]]
    else if s[0] == sep then [[]] + Split(s[1..], sep)
    else
      var rest := Split(s[1..], sep);
      [[s[0]] + rest[0]] + rest[1..]
  }

  /** Reads every piece as an int. */
  function ParseAll(pieces: seq<seq<char>>): Option<seq<int>>
  {
    if pieces == [] then Some([])
    else
      match (ParseInt(pieces[0]), ParseAll(pieces[1..]))
      case (Some(v), Some(vs)) => Some([v] + vs)
      case _ => None
  }

  /** Reads an output back: a count line and an empty remainder for the empty
      path, or a count line, a line of that many space-separated ints and an
      empty remainder. */
  function Decode(out: seq<char>): Option<seq<int>>
  {
    var lines := Split(out, '\n');
    if |lines| == 2 && lines[1] == [] then
      if ParseNat(lines[0]) == Some(0) then Some([]) else None
    else if |lines| == 3 && lines[2] == [] then
      match (ParseNat(lines[0]), ParseAll(Split(lines[1], ' ')))
      case (Some(k), Some(vs)) => if k == |vs| && k > 0 then Some(vs) else None
      case _ => None
    else None
  }

  // ---- Properties ----

  /** The decimal text of x is a non-empty string of digits whose value is x. */
  lemma {:induction false} NatTextRoundTrip(x: nat)
    ensures NatText(x) != [] && forall i :: 0 <= i < |NatText(x)| ==> IsDigit(NatText(x)[i])
    ensures DigitsValue(NatText(x)) == x
  {
    if x >= 10 {
      NatTextRoundTrip(x / 10);
      var s := NatText(x);
      assert s[..|s| - 1] == NatText(x / 10);
    }
  }

  /** The text of an int is not empty and holds neither a space nor a line end. */
  lemma IntTextPlain(v: int)
    ensures ' ' !in IntText(v) && '\n' !in IntText(v) && IntText(v) != []
  {
    NatTextRoundTrip(if v < 0 then -v else v);
  }

  /** The text of an int reads back as that int. */
  lemma IntTextRoundTrip(v: int)
    ensures ParseInt(IntText(v)) == Some(v)
  {
    var m: nat := if v < 0 then -v else v;
    var digits := NatText(m);
    NatTextRoundTrip(m);
    assert ParseNat(digits) == Some(m);
    if v < 0 {
      assert IntText(v) == ['-'] + digits;
      assert IntText(v)[1..] == digits;
    } else {
      assert IntText(v) == digits && !IsDigit('-');
    }
  }

  lemma {:induction false} SplitNoSeparator(t: seq<char>, sep: char)
    requires sep !in t
    ensures Split(t, sep) == [t]
  {
    if t != [] {
      SplitNoSeparator(t[1..], sep);
      assert [t[0]] + t[1..] == t;
    }
  }

  /** Splitting after one more separator and a separator-free piece adds that piece. */
  lemma {:induction false} SplitAppend(a: seq<char>, sep: char, t: seq<char>)
    requires sep !in t
    ensures Split(a + [sep] + t, sep) == Split(a, sep) + [t]
  {
    if a == [] {
      assert a + [sep] + t == [sep] + t;
      assert ([sep] + t)[1..] == t;
      SplitNoSeparator(t, sep);
    } else {
      var s := a + [sep] + t;
      assert s[0] == a[0];
      assert s[1..] == a[1..] + [sep] + t;
      SplitAppend(a[1..], sep, t);
    }
  }

  /** The texts of the vertices of p, in order. */
  function Texts(p: seq<int>): seq<seq<char>>
  {
    seq(|p|, i requires 0 <= i < |p| => IntText(p[i]))
  }

  /** The vertex line holds no line end. */
  lemma {:induction false} JoinedNoLineEnd(p: seq<int>)
    ensures '\n' !in Joined(p)
  {
    if |p| > 0 {
      IntTextPlain(p[|p| - 1]);
    }
    if |p| > 1 {
      JoinedNoLineEnd(p[..|p| - 1]);
    }
  }

  /** Splitting the vertex line at spaces gives exactly the texts of the
      vertices, in order: single separators, none leading and none trailing. */
  lemma {:induction false} JoinedSplits(p: seq<int>)
    requires |p| > 0
    ensures Split(Joined(p), ' ') == Texts(p)
  {
    var last := p[|p| - 1];
    var text := IntText(last);
    IntTextPlain(last);
    if |p| == 1 {
      SplitNoSeparator(text, ' ');
      assert Texts(p) == [text];
    } else {
      var init := p[..|p| - 1];
      var line := Joined(init);
      JoinedSplits(init);
      assert Joined(p) == line + [' '] + text;
      SplitAppend(line, ' ', text);
      assert Texts(p) == Texts(init) + [text];
    }
  }

  /** Pieces that each read back as the matching int read back as the ints. */
  lemma {:induction false} ParseAllPieces(pieces: seq<seq<char>>, p: seq<int>)
    requires |pieces| == |p|
    requires forall i :: 0 <= i < |p| ==> ParseInt(pieces[i]) == Some(p[i])
    ensures ParseAll(pieces) == Some(p)
  {
    if p != [] {
      ParseAllPieces(pieces[1..], p[1..]);
      assert [p[0]] + p[1..] == p;
    }
  }

  lemma ParseAllTexts(p: seq<int>)
    ensures ParseAll(Texts(p)) == Some(p)
  {
    var texts := Texts(p);
    forall i | 0 <= i < |p|
      ensures ParseInt(texts[i]) == Some(p[i])
    {
      IntTextRoundTrip(p[i]);
    }
    ParseAllPieces(texts, p);
  }

  /** Two lines, each free of line ends, and a final line end split into the two
      lines and an empty remainder. */
  lemma TwoLines(first: seq<char>, second: seq<char>)
    requires '\n' !in first && '\n' !in second
    ensures Split(first + ['\n'] + second + ['\n'], '\n') == [first, second, []]
  {
    SplitNoSeparator(first, '\n');
    SplitAppend(first, '\n', second);
    SplitAppend(first + ['\n'] + second, '\n', []);
    assert first + ['\n'] + second + ['\n'] == first + ['\n'] + second + ['\n'] + [];
  }

  /** One line free of line ends, and a final line end, split into the line and
      an empty remainder. */
  lemma OneLine(first: seq<char>)
    requires '\n' !in first
    ensures Split(first + ['\n'], '\n') == [first, []]
  {
    SplitNoSeparator(first, '\n');
    SplitAppend(first, '\n', []);
    assert first + ['\n'] == first + ['\n'] + [];
  }

  /** The output is the count line, the vertex line when the path is not
      empty, and nothing after the last line end. */
  lemma FormatLines(p: seq<int>)
    ensures |p| == 0 ==> Split(Format(p), '\n') == [IntText(0), []]
    ensures |p| > 0 ==> Split(Format(p), '\n') == [IntText(|p|), Joined(p), []]
  {
    IntTextPlain(|p|);
    if |p| == 0 {
      assert Format(p) == IntText(0) + ['\n'];
      OneLine(IntText(0));
    } else {
      JoinedNoLineEnd(p);
      assert Format(p) == IntText(|p|) + ['\n'] + Joined(p) + ['\n'];
      TwoLines(IntText(|p|), Joined(p));
    }
  }

  lemma FormatRoundTrip(p: seq<int>)
    ensures Decode(Format(p)) == Some(p)
  {
    IntTextRoundTrip(|p|);
    assert ParseNat(IntText(|p|)) == Some(|p|);
    FormatLines(p);
    if |p| > 0 {
      JoinedSplits(p);
      ParseAllTexts(p);
    }
  }
}
