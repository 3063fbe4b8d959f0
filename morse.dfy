/**
 * MorseTranslator.py: the code table MORSE_CODE_DICT, the encoder textToMorse
 * and the decoder morseToText.
 */
module Morse {
  import opened Outcomes

  // ---------------------------------------------------------------------------
  // MORSE_CODE_DICT (lines 5-19)
  // ---------------------------------------------------------------------------

  /** The number of entries of MORSE_CODE_DICT. */
  const TableSize: nat := 44

  /**
   * Entry `i` of MORSE_CODE_DICT in insertion order: the letters, the figures
   * and the punctuation of International Morse Code (Recommendation ITU-R
   * M.1677-1, part I, section 1), then "!", which that recommendation lacks.
   */
  function Entry(i: nat): (char, string)
    requires i < TableSize
  {
    match i
    case 0 => ('A', ".-")
    case 1 => ('B', "-...")
    case 2 => ('C', "-.-.")
    case 3 => ('D', "-..")
    case 4 => ('E', ".")
    case 5 => ('F', "..-.")
    case 6 => ('G', "--.")
    case 7 => ('H', "....")
    case 8 => ('I', "..")
    case 9 => ('J', ".---")
    case 10 => ('K', "-.-")
    case 11 => ('L', ".-..")
    case 12 => ('M', "--")
    case 13 => ('N', "-.")
    case 14 => ('O', "---")
    case 15 => ('P', ".--.")
    case 16 => ('Q', "--.-")
    case 17 => ('R', ".-.")
    case 18 => ('S', "...")
    case 19 => ('T', "-")
    case 20 => ('U', "..-")
    case 21 => ('V', "...-")
    case 22 => ('W', ".--")
    case 23 => ('X', "-..-")
    case 24 => ('Y', "-.--")
    case 25 => ('Z', "--..")
    case 26 => ('1', ".----")
    case 27 => ('2', "..---")
    case 28 => ('3', "...--")
    case 29 => ('4', "....-")
    case 30 => ('5', ".....")
    case 31 => ('6', "-....")
    case 32 => ('7', "--...")
    case 33 => ('8', "---..")
    case 34 => ('9', "----.")
    case 35 => ('0', "-----")
    case 36 => (',', "--..--")
    case 37 => ('.', ".-.-.-")
    case 38 => ('?', "..--..")
    case 39 => ('/', "-..-.")
    case 40 => ('-', "-....-")
    case 41 => ('(', "-.--.")
    case 42 => (')', "-.--.-")
    case _ => ('!', "-.-.--")
  }

  /** `list(MORSE_CODE_DICT.keys())` (line 51): the keys in insertion order. */
  function Keys(): seq<char>
  {
    seq(TableSize, i requires 0 <= i < TableSize => Entry(i).0)
  }

  /** `list(MORSE_CODE_DICT.values())` (line 51): the codes in insertion order. */
  function Codes(): seq<string>
  {
    seq(TableSize, i requires 0 <= i < TableSize => Entry(i).1)
  }

  /** A string made only of dots and dashes. */
  predicate DotsAndDashes(s: string)
  {
    forall j :: 0 <= j < |s| ==> s[j] == '.' || s[j] == '-'
  }

  /** Every code is a non-empty run of dots and dashes. */
  lemma CodesWellFormed()
    ensures forall i :: 0 <= i < |Codes()| ==> Codes()[i] != [] && DotsAndDashes(Codes()[i])
  {
    LettersWellFormed();
    OthersWellFormed();
  }

  lemma LettersWellFormed()
    ensures forall i :: 0 <= i < 26 ==> Entry(i).1 != [] && DotsAndDashes(Entry(i).1)
  {
  }

  lemma OthersWellFormed()
    ensures forall i :: 26 <= i < TableSize ==> Entry(i).1 != [] && DotsAndDashes(Entry(i).1)
  {
  }

  /** No key is a character that upper-casing changes. */
  lemma KeysUpperCase()
    ensures forall i :: 0 <= i < |Keys()| ==> UpperKey(Keys()[i]) == Keys()[i]
  {
    KeysPrintable();
  }

  /** Every key is a printable ASCII character below 'a'; none is a space. */
  lemma KeysPrintable()
    ensures forall i :: 0 <= i < TableSize ==> ' ' < Entry(i).0 < 'a'
  {
  }

  /** No two entries share a key. */
  lemma KeysDistinct()
    ensures forall i, j :: 0 <= i < j < |Keys()| ==> Keys()[i] != Keys()[j]
  {
    KeysDistinctLow();
    KeysDistinctHigh();
  }

  lemma KeysDistinctLow()
    ensures forall i, j :: 0 <= i < 13 && i < j < TableSize ==> Entry(i).0 != Entry(j).0
  {
  }

  lemma KeysDistinctHigh()
    ensures forall i, j :: 13 <= i < j < TableSize ==> Entry(i).0 != Entry(j).0
  {
  }

  /** No two entries share a code, so the reverse lookup of lines 51-52 is well defined. */
  lemma CodesDistinct()
    ensures forall i, j :: 0 <= i < j < |Codes()| ==> Codes()[i] != Codes()[j]
  {
    CodesDistinctLow();
    CodesDistinctHigh();
  }

  lemma CodesDistinctLow()
    ensures forall i, j :: 0 <= i < 13 && i < j < TableSize ==> Entry(i).1 != Entry(j).1
  {
  }

  lemma CodesDistinctHigh()
    ensures forall i, j :: 13 <= i < j < TableSize ==> Entry(i).1 != Entry(j).1
  {
  }

  /** The first index at or after `from` holding `x`, or -1: `list.index` without the exception. */
  function IndexOf<T(==)>(s: seq<T>, x: T, from: nat): (r: int)
    requires from <= |s|
    ensures r == -1 || (from <= r < |s| && s[r] == x)
    ensures r == -1 ==> forall j :: from <= j < |s| ==> s[j] != x
    ensures r != -1 ==> forall j :: from <= j < r ==> s[j] != x
    decreases |s| - from
  {
    if from == |s| then -1
    else if s[from] == x then from
    else IndexOf(s, x, from + 1)
  }

  /** In a sequence without repetitions, every element is found at its own index. */
  lemma IndexOfDistinct<T>(s: seq<T>, i: nat)
    requires i < |s| && forall a, b :: 0 <= a < b < |s| ==> s[a] != s[b]
    ensures IndexOf(s, s[i], 0) == i
  {
  }

  /** A key of the table. */
  predicate IsKey(k: char)
  {
    k in Keys()
  }

  // ---------------------------------------------------------------------------
  // textToMorse (lines 22-28)
  // ---------------------------------------------------------------------------

  /**
   * The table key `letter.upper()` (line 26) can produce: a-z become A-Z,
   * U+0131 (dotless i) becomes I and U+017F (long s) becomes S. Every other
   * character stays as it is: it is a key already, or neither it nor its
   * upper-case form is one.
   */
  function UpperKey(c: char): (u: char)
    ensures 'a' <= c <= 'z' ==> 'A' <= u <= 'Z' && u as int == c as int - 32
    ensures !('a' <= c <= 'z') && c != '\U{0131}' && c != '\U{017F}' ==> u == c
  {
    if 'a' <= c <= 'z' then (c as int - 32) as char
    else if c == '\U{0131}' then 'I'
    else if c == '\U{017F}' then 'S'
    else c
  }

  /** `MORSE_CODE_DICT.get(letter.upper(), "")` (line 26). */
  function Code(letter: char): (code: string)
    ensures code == [] <==> !IsKey(UpperKey(letter))
    ensures DotsAndDashes(code)
  {
    var i := IndexOf(Keys(), UpperKey(letter), 0);
    if i == -1 then "" else CodesWellFormed(); Codes()[i]
  }

  /** A key is its own upper-case form and maps to its entry's code. */
  lemma CodeOfEntry(i: nat)
    requires i < TableSize
    ensures UpperKey(Keys()[i]) == Keys()[i] && IsKey(Keys()[i])
    ensures Code(Keys()[i]) == Codes()[i]
  {
    KeysUpperCase();
    KeysDistinct();
    IndexOfDistinct(Keys(), i);
  }

  /** The per-character rule of the loop (lines 25-26): code plus one space, for each character in order. */
  function TextToMorse(text: string): (morse: string)
    ensures |morse| >= |text|
    ensures morse == [] <==> text == []
    ensures forall j :: 0 <= j < |morse| ==> morse[j] == '.' || morse[j] == '-' || morse[j] == ' '
  {
    if text == [] then []
    else Code(text[0]) + " " + TextToMorse(text[1..])
  }

  /** Encoding distributes over concatenation: each character contributes its own code and space. */
  lemma {:induction false} TextToMorseAppend(a: string, b: string)
    ensures TextToMorse(a + b) == TextToMorse(a) + TextToMorse(b)
  {
    if a == [] {
      assert a + b == b;
    } else {
      assert (a + b)[0] == a[0] && (a + b)[1..] == a[1..] + b;
      TextToMorseAppend(a[1..], b);
      var c := Code(a[0]) + " ";
      assert c + TextToMorse(a[1..] + b) == (c + TextToMorse(a[1..])) + TextToMorse(b);
    }
  }

  /** One character encodes to its code and one space, so the output length is the sum of (code length + 1). */
  lemma TextToMorseChar(c: char)
    ensures TextToMorse([c]) == Code(c) + " "
    ensures |TextToMorse([c])| == |Code(c)| + 1
  {
    assert [c][1..] == [];
  }

  /** Upper-casing each character the way line 26 does. */
  function UpperText(t: string): (u: string)
    ensures |u| == |t|
    ensures forall j :: 0 <= j < |t| ==> u[j] == UpperKey(t[j])
  {
    if t == [] then [] else [UpperKey(t[0])] + UpperText(t[1..])
  }

  /** Encoding ignores case: upper-casing first changes nothing. */
  lemma {:induction false} TextToMorseUpper(t: string)
    ensures TextToMorse(UpperText(t)) == TextToMorse(t)
  {
    if t != [] {
      var u := UpperText(t);
      assert u[0] == UpperKey(t[0]);
      assert u[1..] == UpperText(t[1..]);
      TextToMorseUpper(t[1..]);
    }
  }

  // ---------------------------------------------------------------------------
  // morseToText (lines 31-55)
  // ---------------------------------------------------------------------------

  /** The loop state of morseToText: the output `text`, the code buffer `citext` and the space counter `i`. */
  datatype Scan = Scan(text: string, code: string, spaces: nat)

  /** The state before the loop (lines 35-37). */
  const Start := Scan("", "", 0)

  /** The reverse lookup of lines 51-52: the key at the first index of `code` among the codes; `index` raises ValueError when it is absent. */
  function KeyOf(code: string): (r: Result<char>)
    ensures r.Ok? <==> code in Codes()
    ensures r.Raise? ==> r.exc == ValueError
  {
    var i := IndexOf(Codes(), code, 0);
    if i == -1 then Raise(ValueError) else Ok(Keys()[i])
  }

  /** The code of entry `i` decodes to its key. */
  lemma KeyOfEntry(i: nat)
    requires i < TableSize
    ensures KeyOf(Codes()[i]) == Ok(Keys()[i])
  {
    CodesDistinct();
    IndexOfDistinct(Codes(), i);
  }

  /** The empty code group is not in the table. */
  lemma KeyOfEmpty()
    ensures KeyOf("") == Raise(ValueError)
  {
    CodesWellFormed();
  }

  /** One character of the loop (lines 38-53). */
  function Step(st: Scan, letter: char): (r: Result<Scan>)
    ensures r.Raise? ==> r.exc == ValueError
  {
    if letter != ' ' then Ok(Scan(st.text, st.code + [letter], 0))
    else if st.spaces + 1 == 2 then Ok(Scan(st.text + " ", st.code, 2))
    else
      match KeyOf(st.code)
      case Raise(e) => Raise(e)
      case Ok(k) => Ok(Scan(st.text + [k], "", st.spaces + 1))
  }

  /** The loop over `morse` from `st`; the first exception ends it. */
  function Run(st: Scan, morse: string): (r: Result<Scan>)
    ensures r.Raise? ==> r.exc == ValueError
    decreases |morse|
  {
    if morse == [] then Ok(st)
    else
      match Step(st, morse[0])
      case Raise(e) => Raise(e)
      case Ok(next) => Run(next, morse[1..])
  }

  /** morseToText: the loop over the input with one space appended (line 33). */
  function MorseToText(morse: string): Result<string>
  {
    match Run(Start, morse + " ")
    case Raise(e) => Raise(e)
    case Ok(st) => Ok(st.text)
  }

  /** The loop of lines 31-55 computes MorseToText. */
  method DecodeMorse(morse: string) returns (r: Result<string>)
    ensures r == MorseToText(morse)
  {
    var m := morse + " ";
    var text, citext, i := "", "", 0;
    var k := 0;
    while k < |m|
      invariant 0 <= k <= |m|
      invariant Run(Scan(text, citext, i), m[k..]) == Run(Start, m)
    {
      var letter := m[k];
      ghost var before := Scan(text, citext, i);
      assert m[k..][0] == letter && m[k..][1..] == m[k + 1..];
      assert Run(before, m[k..]) == Continue(Step(before, letter), m[k + 1..]);
      if letter != ' ' {
        i := 0;
        citext := citext + [letter];
      } else {
        i := i + 1;
        if i == 2 {
          text := text + " ";
        } else {
          var found := KeyOf(citext);
          if found.Raise? {
            return Raise(found.exc);
          }
          text := text + [found.value];
          citext := "";
        }
      }
      assert Step(before, letter) == Ok(Scan(text, citext, i));
      k := k + 1;
    }
    assert m[k..] == [];
    return Ok(text);
  }

  /** The rest of a run after a step or a prefix: nothing after an exception. */
  function Continue(r: Result<Scan>, rest: string): Result<Scan>
  {
    match r
    case Raise(e) => Raise(e)
    case Ok(st) => Run(st, rest)
  }

  /** Running over `a + b` is running over `a`, then over `b`. */
  lemma {:induction false} RunAppend(st: Scan, a: string, b: string)
    ensures Run(st, a + b) == Continue(Run(st, a), b)
    decreases |a|
  {
    if a == [] {
      assert a + b == b;
    } else {
      assert (a + b)[0] == a[0] && (a + b)[1..] == a[1..] + b;
      var r := Step(st, a[0]);
      if r.Ok? {
        RunAppend(r.value, a[1..], b);
      }
    }
  }

  /** A run of non-space characters only fills the code buffer. */
  lemma {:induction false} RunCode(st: Scan, code: string, rest: string)
    requires forall j :: 0 <= j < |code| ==> code[j] != ' '
    ensures Run(st, code + rest) == Run(Scan(st.text, st.code + code, if code == [] then st.spaces else 0), rest)
    decreases |code|
  {
    if code == [] {
      assert code + rest == rest && st.code + code == st.code;
    } else {
      assert (code + rest)[0] == code[0] && (code + rest)[1..] == code[1..] + rest;
      var next := Scan(st.text, st.code + [code[0]], 0);
      RunCode(next, code[1..], rest);
      assert next.code + code[1..] == st.code + code by {
        assert code == [code[0]] + code[1..];
      }
    }
  }

  // ---------------------------------------------------------------------------
  // Decoding errors
  // ---------------------------------------------------------------------------

  /** The states the loop can reach: at most two spaces in a row, and the buffer is empty after a space. */
  predicate Calm(st: Scan)
  {
    st.spaces <= 2 && (st.spaces > 0 ==> st.code == [])
  }

  /** From a reachable state, a run fails with ValueError or ends in a reachable state, with an empty buffer if the last character was a space. */
  lemma {:induction false} RunCalm(st: Scan, s: string)
    requires Calm(st)
    ensures Run(st, s).Ok? ==> Calm(Run(st, s).value)
    ensures Run(st, s).Ok? && s != [] && s[|s| - 1] == ' ' ==> Run(st, s).value.spaces > 0
    decreases |s|
  {
    if s != [] {
      var r := Step(st, s[0]);
      if r.Ok? {
        if s[0] == ' ' && st.spaces == 2 {
          KeyOfEmpty();
        }
        RunCalm(r.value, s[1..]);
        if |s| == 1 {
          assert s[1..] == [];
        } else {
          assert s[1..][|s| - 2] == s[|s| - 1];
        }
      }
    }
  }

  /**
   * The space that follows `pre` ends a group that is not a code (the loop
   * is not at its second space and the buffer is not a table value), so the
   * lookup at lines 51-52 raises ValueError whatever comes after.
   */
  lemma RunRaisesAt(pre: string, post: string)
    requires Run(Start, pre).Ok? ==> Run(Start, pre).value.spaces != 1 && Run(Start, pre).value.code !in Codes()
    ensures Run(Start, pre + " " + post) == Raise(ValueError)
  {
    assert pre + " " + post == pre + (" " + post);
    RunAppend(Start, pre, " " + post);
    assert (" " + post)[0] == ' ';
  }

  /** The empty input decodes the empty group and raises ValueError. */
  lemma DecodeEmpty()
    ensures MorseToText("") == Raise(ValueError)
  {
    KeyOfEmpty();
    assert "" + " " == " ";
  }

  /** A leading space ends an empty group and raises ValueError. */
  lemma DecodeLeadingSpace(morse: string)
    requires morse != [] && morse[0] == ' '
    ensures MorseToText(morse) == Raise(ValueError)
  {
    KeyOfEmpty();
    assert (morse + " ")[0] == ' ';
  }

  /** Three spaces in a row: the third ends an empty group and raises ValueError. */
  lemma DecodeTripleSpace(pre: string, post: string)
    ensures MorseToText(pre + "   " + post) == Raise(ValueError)
  {
    RunCalm(Start, pre + "  ");
    var r := Run(Start, pre + "  ");
    if r.Ok? {
      RunAppend(Start, pre, "  ");
      var q := Run(Start, pre);
      RunCalm(Start, pre);
      KeyOfEmpty();
      if q.Ok? {
        assert "  "[1..] == " ";
      }
    }
    KeyOfEmpty();
    RunRaisesAt(pre + "  ", post + " ");
    assert pre + "   " + post + " " == pre + "  " + " " + (post + " ");
  }

  /**
   * A group of dots and dashes that is not a table value, standing between
   * spaces or the ends of the input, raises ValueError.
   */
  lemma DecodeBadGroup(pre: string, g: string, post: string)
    requires pre == [] || pre[|pre| - 1] == ' '
    requires g != [] && g !in Codes() && forall j :: 0 <= j < |g| ==> g[j] != ' '
    requires post == [] || post[0] == ' '
    ensures MorseToText(pre + g + post) == Raise(ValueError)
  {
    RunGroup(pre, g);
    var rest := if post == [] then [] else post[1..];
    var tail := if post == [] then [] else " ";
    assert pre + g + post + " " == pre + g + " " + (rest + tail);
    RunRaisesAt(pre + g, rest + tail);
  }

  /** After a space or at the start, a group of non-spaces is exactly what the buffer holds. */
  lemma RunGroup(pre: string, g: string)
    requires pre == [] || pre[|pre| - 1] == ' '
    requires g != [] && forall j :: 0 <= j < |g| ==> g[j] != ' '
    ensures Run(Start, pre + g).Ok? ==> Run(Start, pre + g).value.spaces == 0 && Run(Start, pre + g).value.code == g
  {
    RunCalm(Start, pre);
    RunAppend(Start, pre, g);
    var q := Run(Start, pre);
    if q.Ok? {
      RunCode(q.value, g, []);
      assert g + [] == g && q.value.code + g == g;
    }
  }

  // ---------------------------------------------------------------------------
  // Decoding rule and round trip
  // ---------------------------------------------------------------------------

  /** The code of a character whose upper-case form is a key decodes back to that key. */
  lemma KeyOfCode(c: char)
    requires IsKey(UpperKey(c))
    ensures KeyOf(Code(c)) == Ok(UpperKey(c))
  {
    var i := IndexOf(Keys(), UpperKey(c), 0);
    KeyOfEntry(i);
  }

  /**
   * The decoding rule of lines 39-53: after a space (or at the start), a
   * table code followed by one space emits its key; a second space emits a
   * word space.
   */
  lemma DecodeGroup(st: Scan, g: string)
    requires st.code == [] && g in Codes()
    ensures KeyOf(g).Ok?
    ensures Run(st, g + " ") == Ok(Scan(st.text + [KeyOf(g).value], [], 1))
    ensures Run(st, g + "  ") == Ok(Scan(st.text + [KeyOf(g).value] + " ", [], 2))
  {
    CodesWellFormed();
    RunCode(st, g, " ");
    RunCode(st, g, "  ");
    assert st.code + g == g;
    assert " "[1..] == [] && "  "[1..] == " ";
  }

  /** Text made of characters with a table code and single spaces between them. */
  predicate KeysAndSingleSpaces(t: string)
    decreases |t|
  {
    t == []
    || ((t[0] == ' ' || IsKey(UpperKey(t[0])))
        && (|t| == 1 || t[0] != ' ' || t[1] != ' ')
        && KeysAndSingleSpaces(t[1..]))
  }

  /** The inputs the round trip holds for: non-empty, single spaces, none at either end. */
  predicate Encodable(t: string)
  {
    t != [] && t[0] != ' ' && t[|t| - 1] != ' ' && KeysAndSingleSpaces(t)
  }

  /**
   * Decoding the encoding of `t` appends its upper-case form to the output
   * and ends with an empty buffer; the space counter records whether `t`
   * ended with a character (one space) or a space (two spaces).
   */
  lemma {:induction false} RunText(st: Scan, t: string)
    requires st.code == [] && KeysAndSingleSpaces(t)
    requires t != [] && t[0] == ' ' ==> st.spaces == 1
    ensures Run(st, TextToMorse(t)) == Ok(Scan(st.text + UpperText(t), [], Ending(st.spaces, t)))
    decreases |t|
  {
    if t == [] {
      assert st.text + UpperText(t) == st.text;
    } else {
      var c := t[0];
      var next: Scan;
      if c == ' ' {
        next := Scan(st.text + [UpperKey(c)], [], 2);
        RunSpace(st, t);
      } else {
        next := Scan(st.text + [UpperKey(c)], [], 1);
        RunLetter(st, t);
      }
      RunText(next, t[1..]);
      var u := UpperText(t[1..]);
      assert UpperText(t) == [UpperKey(c)] + u;
      AppendOne(st.text, UpperKey(c), u, UpperText(t));
      EndingStep(st.spaces, next.spaces, t);
      assert Run(st, TextToMorse(t)) == Ok(Scan(next.text + u, [], Ending(next.spaces, t[1..])));
    }
  }

  /** The space counter after decoding the encoding of `t`: unchanged for no text, else 2 after a space and 1 after a letter. */
  function Ending(spaces: nat, t: string): nat
  {
    if t == [] then spaces else if t[|t| - 1] == ' ' then 2 else 1
  }

  /** The counter after `t` is the counter after its tail, started from the one its first character leaves. */
  lemma EndingStep(spaces: nat, next: nat, t: string)
    requires t != [] && next == (if t[0] == ' ' then 2 else 1)
    ensures Ending(spaces, t) == Ending(next, t[1..])
  {
    if |t| > 1 {
      assert t[1..][|t| - 2] == t[|t| - 1];
    }
  }

  /** Appending a character and then a string is appending the string with the character in front. */
  lemma AppendOne(s: string, c: char, u: string, w: string)
    requires w == [c] + u
    ensures s + [c] + u == s + w
  {
  }

  /** A space after a decoded letter encodes to one more space, which the decoder turns into a word space. */
  lemma RunSpace(st: Scan, t: string)
    requires st.code == [] && st.spaces == 1 && t != [] && t[0] == ' '
    ensures Run(st, TextToMorse(t)) == Run(Scan(st.text + [UpperKey(t[0])], [], 2), TextToMorse(t[1..]))
  {
    var rest := TextToMorse(t[1..]);
    TextToMorseSpace(t);
    assert (" " + rest)[0] == ' ' && (" " + rest)[1..] == rest;
    assert [UpperKey(t[0])] == " ";
  }

  /** A space encodes to a lone space. */
  lemma TextToMorseSpace(t: string)
    requires t != [] && t[0] == ' '
    ensures TextToMorse(t) == " " + TextToMorse(t[1..])
  {
    SpaceHasNoCode();
  }

  /** A character with a code encodes to that code and a space, which the decoder turns back into its key. */
  lemma RunLetter(st: Scan, t: string)
    requires st.code == [] && t != [] && IsKey(UpperKey(t[0]))
    ensures Run(st, TextToMorse(t)) == Run(Scan(st.text + [UpperKey(t[0])], [], 1), TextToMorse(t[1..]))
  {
    var c := t[0];
    KeyOfCode(c);
    CodesWellFormed();
    assert Code(c) in Codes();
    DecodeGroup(st, Code(c));
    RunAppend(st, Code(c) + " ", TextToMorse(t[1..]));
  }

  /** The space character has no code, so it encodes to a lone space. */
  lemma SpaceHasNoCode()
    ensures UpperKey(' ') == ' ' && !IsKey(' ') && Code(' ') == []
  {
    KeysPrintable();
    assert forall i :: 0 <= i < |Keys()| ==> Keys()[i] == Entry(i).0;
  }

  /**
   * The round trip: text of table characters with single spaces between words
   * decodes to its upper-case form plus one space, the space line 33 appends
   * after the encoder's own trailing space.
   */
  lemma RoundTrip(t: string)
    requires Encodable(t)
    ensures MorseToText(TextToMorse(t)) == Ok(UpperText(t) + " ")
  {
    RunText(Start, t);
    var end := Scan(UpperText(t), [], 1);
    assert Start.text + UpperText(t) == UpperText(t);
    assert Run(Start, TextToMorse(t)) == Ok(end);
    RunAppend(Start, TextToMorse(t), " ");
    assert Step(end, ' ') == Ok(Scan(UpperText(t) + " ", [], 2));
    assert " "[1..] == [];
  }
}
