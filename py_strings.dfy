/**
 * The Python string operations SentenceSplitter.py relies on: `" ".join`,
 * `str.split(" ")`, `str.split()` and `str.strip()`, on strings as sequences
 * of characters.
 */
module PyStrings {

  /**
   * `str.isspace` for one character: the characters `str.split()` without an
   * argument and `str.strip()` without an argument treat as whitespace.
   */
  predicate IsSpace(c: char)
  {
    c == ' ' || ('\U{9}' <= c <= '\U{D}') || ('\U{1C}' <= c <= '\U{1F}')
    || c == '\U{85}' || c == '\U{A0}' || c == '\U{1680}'
    || ('\U{2000}' <= c <= '\U{200A}') || c == '\U{2028}' || c == '\U{2029}'
    || c == '\U{202F}' || c == '\U{205F}' || c == '\U{3000}'
  }

  /** A string without whitespace of any kind. */
  predicate Solid(s: string)
  {
    forall j :: 0 <= j < |s| ==> !IsSpace(s[j])
  }

  /** A string without the space character. */
  predicate NoSpace(s: string)
  {
    forall j :: 0 <= j < |s| ==> s[j] != ' '
  }

  /** Words that `" ".join` and `str.split(" ")` take apart again: non-empty and without whitespace. */
  predicate Words(ws: seq<string>)
  {
    forall i :: 0 <= i < |ws| ==> ws[i] != [] && Solid(ws[i])
  }

  /** Words stay words when two lists of them are put together. */
  lemma WordsAppend(a: seq<string>, b: seq<string>)
    requires Words(a) && Words(b)
    ensures Words(a + b)
  {
    forall i | 0 <= i < |a + b|
      ensures (a + b)[i] != [] && Solid((a + b)[i])
    {
      if i < |a| {
        assert (a + b)[i] == a[i];
      } else {
        assert (a + b)[i] == b[i - |a|];
      }
    }
  }

  /** A run of words is words. */
  lemma WordsSlice(ws: seq<string>, i: nat, j: nat)
    requires Words(ws) && i <= j <= |ws|
    ensures Words(ws[i..j])
  {
    forall k | 0 <= k < j - i
      ensures ws[i..j][k] != [] && Solid(ws[i..j][k])
    {
      assert ws[i..j][k] == ws[i + k];
    }
  }

  // ---------------------------------------------------------------------------
  // " ".join
  // ---------------------------------------------------------------------------

  /** `" ".join(ws)`. */
  function Join(ws: seq<string>): (s: string)
    ensures ws == [] ==> s == []
    ensures |ws| == 1 ==> s == ws[0]
  {
    if ws == [] then "" else if |ws| == 1 then ws[0] else ws[0] + " " + Join(ws[1..])
  }

  /** Joining a longer list puts one space between the first word and the join of the rest. */
  lemma JoinCons(w: string, ws: seq<string>)
    requires ws != []
    ensures Join([w] + ws) == w + " " + Join(ws)
  {
    assert ([w] + ws)[1..] == ws;
  }

  /** Joining two non-empty lists joins their joins with one space. */
  lemma {:induction false} JoinAppend(a: seq<string>, b: seq<string>)
    requires a != [] && b != []
    ensures Join(a + b) == Join(a) + " " + Join(b)
    decreases |a|
  {
    if |a| == 1 {
      JoinCons(a[0], b);
      assert a + b == [a[0]] + b;
    } else {
      JoinAppend(a[1..], b);
      assert a + b == [a[0]] + (a[1..] + b);
      JoinCons(a[0], a[1..] + b);
      JoinCons(a[0], a[1..]);
      assert a == [a[0]] + a[1..];
    }
  }

  /** Joining a list of two or more puts one space between the join of all but the last and the last. */
  lemma {:induction false} JoinInitLast(ws: seq<string>)
    requires |ws| >= 2
    ensures Join(ws) == Join(ws[..|ws| - 1]) + " " + ws[|ws| - 1]
    decreases |ws|
  {
    var n := |ws|;
    var init := ws[..n - 1];
    if n == 2 {
      assert init == [ws[0]];
    } else {
      var tail := ws[1..];
      JoinInitLast(tail);
      assert tail[..n - 2] == init[1..] && tail[n - 2] == ws[n - 1];
      assert init[0] == ws[0];
    }
  }

  /** Joining a longer list: the first word, then a space and the join of the rest. */
  lemma JoinFirstRest(ws: seq<string>)
    requires |ws| >= 2
    ensures Join(ws) == ws[0] + (" " + Join(ws[1..]))
  {
    assert Join(ws) == ws[0] + " " + Join(ws[1..]);
    Regroup(ws[0], " ", Join(ws[1..]));
  }

  /** The length of a join: the words' lengths plus one space between each two. */
  lemma {:induction false} JoinLength(ws: seq<string>)
    requires ws != []
    ensures |Join(ws)| == TotalLength(ws) + |ws| - 1
  {
    if |ws| > 1 {
      JoinLength(ws[1..]);
    }
  }

  /** The sum of the lengths of the strings of `ws`. */
  function TotalLength(ws: seq<string>): nat
  {
    if ws == [] then 0 else |ws[0]| + TotalLength(ws[1..])
  }

  /** Joined words have no whitespace at either end. */
  lemma {:induction false} JoinEnds(ws: seq<string>)
    requires ws != [] && Words(ws)
    ensures Join(ws) != []
    ensures Join(ws)[0] == ws[0][0] && !IsSpace(Join(ws)[0])
    ensures Join(ws)[|Join(ws)| - 1] == ws[|ws| - 1][|ws[|ws| - 1]| - 1]
    ensures !IsSpace(Join(ws)[|Join(ws)| - 1])
  {
    if |ws| > 1 {
      JoinEnds(ws[1..]);
      var rest := Join(ws[1..]);
      assert Join(ws) == ws[0] + (" " + rest);
      assert Join(ws)[|Join(ws)| - 1] == rest[|rest| - 1];
    }
  }

  // ---------------------------------------------------------------------------
  // str.split(" ")
  // ---------------------------------------------------------------------------

  /**
   * `s.split(" ")`: the pieces between the space characters, empty pieces
   * included, so there is always one more piece than there are spaces.
   */
  function SplitSpace(s: string): (ws: seq<string>)
    ensures |ws| >= 1
    decreases |s|
  {
    if s == [] then [""]
    else if s[0] == ' ' then [""] + SplitSpace(s[1..])
    else
      var r := SplitSpace(s[1..]);
      [[s[0]] + r[0]] + r[1..]
  }

  /** A character put in front of the first word goes in front of the join. */
  lemma JoinFront(c: char, ws: seq<string>)
    requires ws != []
    ensures Join([[c] + ws[0]] + ws[1..]) == [c] + Join(ws)
  {
    if |ws| > 1 {
      JoinCons([c] + ws[0], ws[1..]);
      JoinCons(ws[0], ws[1..]);
      assert ws == [ws[0]] + ws[1..];
    }
  }

  /** No piece of `s.split(" ")` holds a space. */
  lemma {:induction false} SplitSpaceNoSpace(s: string)
    ensures forall i :: 0 <= i < |SplitSpace(s)| ==> NoSpace(SplitSpace(s)[i])
    decreases |s|
  {
    if s != [] {
      SplitSpaceNoSpace(s[1..]);
    }
  }

  /** `" ".join(s.split(" ")) == s` for every string. */
  lemma {:induction false} JoinSplit(s: string)
    ensures Join(SplitSpace(s)) == s
    decreases |s|
  {
    if s != [] {
      var r := SplitSpace(s[1..]);
      JoinSplit(s[1..]);
      assert s == [s[0]] + s[1..];
      if s[0] == ' ' {
        JoinCons("", r);
      } else {
        JoinFront(s[0], r);
      }
    }
  }

  /** A prefix without spaces joins the first piece of what follows it. */
  lemma {:induction false} SplitSpacePrefix(w: string, rest: string)
    requires NoSpace(w)
    ensures SplitSpace(w + rest) == [w + SplitSpace(rest)[0]] + SplitSpace(rest)[1..]
    decreases |w|
  {
    var r := SplitSpace(rest);
    if w == [] {
      assert w + rest == rest;
      assert w + r[0] == r[0];
      assert r == [r[0]] + r[1..];
    } else {
      assert (w + rest)[0] == w[0] && (w + rest)[1..] == w[1..] + rest;
      SplitSpacePrefix(w[1..], rest);
      var big := SplitSpace(w[1..] + rest);
      assert big[0] == w[1..] + r[0] && big[1..] == r[1..];
      assert SplitSpace(w + rest) == [[w[0]] + big[0]] + big[1..];
      assert [w[0]] + (w[1..] + r[0]) == w + r[0];
    }
  }

  /** `" ".join` followed by `str.split(" ")` gives back a non-empty list of pieces without spaces. */
  lemma {:induction false} SplitJoin(ws: seq<string>)
    requires ws != [] && forall i :: 0 <= i < |ws| ==> NoSpace(ws[i])
    ensures SplitSpace(Join(ws)) == ws
    decreases |ws|
  {
    if |ws| == 1 {
      SplitSpacePrefix(ws[0], []);
      assert ws[0] + [] == ws[0];
    } else {
      SplitJoin(ws[1..]);
      var tail := " " + Join(ws[1..]);
      assert Join(ws) == ws[0] + tail;
      SplitSpacePrefix(ws[0], tail);
      assert tail[0] == ' ' && tail[1..] == Join(ws[1..]);
      var r := SplitSpace(tail);
      assert r == [""] + ws[1..];
      assert r[0] == "" && r[1..] == ws[1..];
      assert ws[0] + "" == ws[0];
      assert ws == [ws[0]] + ws[1..];
    }
  }

  /**
   * The first piece of `s.split(" ")` is where `s` starts, and it is followed
   * by a space unless it is all of `s`.
   */
  lemma FirstPiece(s: string)
    ensures var w := SplitSpace(s)[0];
      |w| <= |s| && s[..|w|] == w && (|w| < |s| ==> s[|w|] == ' ')
  {
    var ws := SplitSpace(s);
    JoinSplit(s);
    if |ws| > 1 {
      JoinCons(ws[0], ws[1..]);
      assert ws == [ws[0]] + ws[1..];
    }
  }

  /**
   * The last piece of `s.split(" ")` is where `s` ends, and it follows a
   * space unless it is all of `s`.
   */
  lemma LastPiece(s: string)
    ensures var ws := SplitSpace(s); var w := ws[|ws| - 1];
      |w| <= |s| && s[|s| - |w|..] == w && (|w| < |s| ==> s[|s| - |w| - 1] == ' ')
  {
    var ws := SplitSpace(s);
    JoinSplit(s);
    if |ws| > 1 {
      var init := ws[..|ws| - 1];
      assert ws == init + [ws[|ws| - 1]];
      JoinAppend(init, [ws[|ws| - 1]]);
    }
  }

  // ---------------------------------------------------------------------------
  // Lines split back into words
  // ---------------------------------------------------------------------------

  /** A non-empty sequence is its front followed by its last element. */
  lemma InitLast<T>(s: seq<T>)
    requires s != []
    ensures s[..|s| - 1] + [s[|s| - 1]] == s
  {
  }

  /** A non-empty sequence is its first element followed by the rest. */
  lemma FirstRest<T>(s: seq<T>)
    requires s != []
    ensures [s[0]] + s[1..] == s
  {
  }

  /** Regrouping a concatenation of three sequences. */
  lemma Regroup<T>(a: seq<T>, b: seq<T>, c: seq<T>)
    ensures (a + b) + c == a + (b + c)
  {
  }

  /** The lists of `xss` one after another. */
  function Concat<T>(xss: seq<seq<T>>): seq<T>
  {
    if xss == [] then [] else xss[0] + Concat(xss[1..])
  }

  /** A run of one list concatenates to that list. */
  lemma ConcatOne<T>(a: seq<T>)
    ensures Concat([a]) == a
  {
    assert [a][1..] == [];
  }

  /** Concatenating two runs of lists concatenates each in turn. */
  lemma {:induction false} ConcatAppend<T>(a: seq<seq<T>>, b: seq<seq<T>>)
    ensures Concat(a + b) == Concat(a) + Concat(b)
    decreases |a|
  {
    if a != [] {
      ConcatAppend(a[1..], b);
      assert (a + b)[0] == a[0] && (a + b)[1..] == a[1..] + b;
    } else {
      assert a + b == b;
    }
  }

  /** Rewriting two neighbouring lists without changing what they hold together keeps the concatenation. */
  lemma {:induction false} ConcatAdjacent<T>(xss: seq<seq<T>>, i: nat, a: seq<T>, b: seq<T>)
    requires i + 1 < |xss| && a + b == xss[i] + xss[i + 1]
    ensures Concat(xss[i := a][i + 1 := b]) == Concat(xss)
  {
    var t := xss[i := a][i + 1 := b];
    if i == 0 {
      assert t[1..][0] == b && t[1..][1..] == xss[2..];
      assert xss[1..][0] == xss[1] && xss[1..][1..] == xss[2..];
      var rest := Concat(xss[2..]);
      assert a + (b + rest) == (a + b) + rest;
      assert xss[0] + (xss[1] + rest) == (xss[0] + xss[1]) + rest;
    } else {
      ConcatAdjacent(xss[1..], i - 1, a, b);
      assert t[1..] == xss[1..][i - 1 := a][i := b];
    }
  }

  /** The pieces of each line under `str.split(" ")`. */
  function SplitAll(lines: seq<string>): (r: seq<seq<string>>)
    ensures |r| == |lines| && forall j :: 0 <= j < |lines| ==> r[j] == SplitSpace(lines[j])
  {
    seq(|lines|, j requires 0 <= j < |lines| => SplitSpace(lines[j]))
  }

  /** The pieces of every line under `str.split(" ")`, one line after another. */
  function SplitLines(lines: seq<string>): seq<string>
  {
    Concat(SplitAll(lines))
  }

  /** Splitting one more line adds its pieces at the end. */
  lemma SplitLinesSnoc(a: seq<string>, x: string)
    ensures SplitLines(a + [x]) == SplitLines(a) + SplitSpace(x)
  {
    var xs := SplitSpace(x);
    assert SplitAll(a + [x]) == SplitAll(a) + [xs];
    ConcatAppend(SplitAll(a), [xs]);
    assert [xs][1..] == [];
    assert Concat([xs]) == xs + [];
  }

  /** Rewriting two neighbouring lines without changing their pieces keeps all the pieces. */
  lemma SplitLinesAdjacent(ps: seq<string>, i: nat, x: string, y: string)
    requires i + 1 < |ps|
    requires SplitSpace(x) + SplitSpace(y) == SplitSpace(ps[i]) + SplitSpace(ps[i + 1])
    ensures SplitLines(ps[i := x][i + 1 := y]) == SplitLines(ps)
  {
    var all := SplitAll(ps);
    assert SplitAll(ps[i := x][i + 1 := y]) == all[i := SplitSpace(x)][i + 1 := SplitSpace(y)];
    ConcatAdjacent(all, i, SplitSpace(x), SplitSpace(y));
  }

  /** A word without spaces is a single piece. */
  lemma SplitSpaceWord(w: string)
    requires NoSpace(w)
    ensures SplitSpace(w) == [w]
  {
    SplitJoin([w]);
  }

  /** Appending a space and a word without spaces adds that word as one more piece. */
  lemma SplitSpaceAppend(a: string, w: string)
    requires NoSpace(w)
    ensures SplitSpace(a + " " + w) == SplitSpace(a) + [w]
  {
    var ws := SplitSpace(a);
    SplitSpaceNoSpace(a);
    JoinSplit(a);
    JoinAppend(ws, [w]);
    SplitJoin(ws + [w]);
  }

  /** A word without spaces in front of a space and more text is the first piece. */
  lemma SplitSpacePrepend(w: string, a: string)
    requires NoSpace(w)
    ensures SplitSpace(w + " " + a) == [w] + SplitSpace(a)
  {
    var t := " " + a;
    assert t[0] == ' ' && t[1..] == a;
    assert SplitSpace(t) == [""] + SplitSpace(a);
    SplitSpacePrefix(w, t);
    assert w + "" == w;
    assert w + " " + a == w + t;
  }

  /** The last piece of a line under `str.split(" ")`. */
  function LastWord(line: string): string
  {
    var ws := SplitSpace(line);
    ws[|ws| - 1]
  }

  /** The first piece of a line under `str.split(" ")`: the word that starts it. */
  function FirstWord(line: string): string
  {
    SplitSpace(line)[0]
  }

  // ---------------------------------------------------------------------------
  // str.split()
  // ---------------------------------------------------------------------------

  /** `s.split()`: the maximal runs of non-whitespace characters. */
  function SplitWhitespace(s: string): (ws: seq<string>)
    ensures Words(ws)
    ensures s != [] && !IsSpace(s[0]) ==> ws != [] && ws[0][0] == s[0]
    decreases |s|
  {
    if s == [] then []
    else if IsSpace(s[0]) then SplitWhitespace(s[1..])
    else
      var r := SplitWhitespace(s[1..]);
      if |s| > 1 && !IsSpace(s[1]) then [[s[0]] + r[0]] + r[1..] else [[s[0]]] + r
  }

  /** Solid text followed by whitespace or nothing is one word of `str.split()`. */
  lemma {:induction false} SplitWhitespaceWord(w: string, rest: string)
    requires w != [] && Solid(w)
    requires rest == [] || IsSpace(rest[0])
    ensures SplitWhitespace(w + rest) == [w] + SplitWhitespace(rest)
    decreases |w|
  {
    assert (w + rest)[0] == w[0] && (w + rest)[1..] == w[1..] + rest;
    if |w| == 1 {
      assert w[1..] + rest == rest;
      assert rest != [] ==> (w + rest)[1] == rest[0];
      assert [w[0]] == w;
    } else {
      SplitWhitespaceWord(w[1..], rest);
      assert (w + rest)[1] == w[1];
      var r := SplitWhitespace(w[1..] + rest);
      assert r[0] == w[1..] && r[1..] == SplitWhitespace(rest);
      assert [w[0]] + w[1..] == w;
    }
  }

  /** `str.split()` undoes `" ".join` of words. */
  lemma {:induction false} SplitWhitespaceJoin(ws: seq<string>)
    requires Words(ws)
    ensures SplitWhitespace(Join(ws)) == ws
    decreases |ws|
  {
    if |ws| == 1 {
      SplitWhitespaceWord(ws[0], []);
      assert ws[0] + [] == ws[0];
    } else if |ws| > 1 {
      SplitWhitespaceJoin(ws[1..]);
      var tail := " " + Join(ws[1..]);
      assert Join(ws) == ws[0] + tail;
      assert tail[0] == ' ' && tail[1..] == Join(ws[1..]);
      assert SplitWhitespace(tail) == ws[1..];
      SplitWhitespaceWord(ws[0], tail);
      assert ws == [ws[0]] + ws[1..];
    }
  }

  // ---------------------------------------------------------------------------
  // str.strip()
  // ---------------------------------------------------------------------------

  /** `s.lstrip()`. */
  function LeftStrip(s: string): (t: string)
    ensures |t| <= |s| && t == s[|s| - |t|..]
    ensures t != [] ==> !IsSpace(t[0])
    decreases |s|
  {
    if s != [] && IsSpace(s[0]) then LeftStrip(s[1..]) else s
  }

  /** `s.rstrip()`. */
  function RightStrip(s: string): (t: string)
    ensures |t| <= |s| && t == s[..|t|]
    ensures t != [] ==> !IsSpace(t[|t| - 1])
    decreases |s|
  {
    if s != [] && IsSpace(s[|s| - 1]) then RightStrip(s[..|s| - 1]) else s
  }

  /** `s.strip()`. */
  function Strip(s: string): string
  {
    RightStrip(LeftStrip(s))
  }

  /** Stripping never lengthens, and it shortens a string that starts or ends with whitespace. */
  lemma StripShortens(s: string)
    ensures |Strip(s)| <= |s|
    ensures s != [] && (IsSpace(s[0]) || IsSpace(s[|s| - 1])) ==> |Strip(s)| < |s|
  {
    if s != [] && IsSpace(s[|s| - 1]) && !IsSpace(s[0]) {
      assert LeftStrip(s) == s;
    }
  }

  /** A string with no whitespace at either end strips to itself. */
  lemma StripTrimmed(s: string)
    requires s != [] ==> !IsSpace(s[0]) && !IsSpace(s[|s| - 1])
    ensures Strip(s) == s
  {
  }

  /** A string that starts with a non-whitespace character left-strips to itself. */
  lemma LeftStripSolid(s: string)
    requires s != [] && !IsSpace(s[0])
    ensures LeftStrip(s) == s
  {
  }

  /** A string that ends with a non-whitespace character right-strips to itself. */
  lemma RightStripSolid(s: string)
    requires s != [] && !IsSpace(s[|s| - 1])
    ensures RightStrip(s) == s
  {
  }

  /** One space on either side of a string trimmed at both ends is stripped away. */
  lemma StripOneSpace(t: string)
    requires t != [] && !IsSpace(t[0]) && !IsSpace(t[|t| - 1])
    ensures Strip(" " + t) == t
    ensures Strip(t + " ") == t
  {
    LeftStripSolid(t);
    RightStripSolid(t);
    var l := " " + t;
    assert l[1..] == t;
    assert LeftStrip(l) == LeftStrip(l[1..]);
    var r := t + " ";
    assert r[..|r| - 1] == t;
    LeftStripSolid(r);
    assert RightStrip(r) == RightStrip(r[..|r| - 1]);
  }

  /**
   * Joined words strip back to themselves with one space added at either end,
   * and `str.split(" ")` takes them apart again.
   */
  lemma JoinedWords(ws: seq<string>)
    requires ws != [] && Words(ws)
    ensures Strip(" " + Join(ws)) == Join(ws) && Strip(Join(ws) + " ") == Join(ws)
    ensures SplitSpace(Join(ws)) == ws
  {
    JoinEnds(ws);
    StripOneSpace(Join(ws));
    forall i | 0 <= i < |ws|
      ensures NoSpace(ws[i])
    {
      assert Solid(ws[i]);
    }
    SplitJoin(ws);
  }
}
