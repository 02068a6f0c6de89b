/**
 * The Python string operations the output writers rely on: str.strip(),
 * str.split(), " ".join(...), str(n) and int(s), and splitting a text into
 * lines.
 */
module Text {

  /** Python's str.isspace() for a single character. */
  predicate IsSpace(c: char)
  {
    c == ' ' || ('\t' <= c <= '\r') || ('\U{1C}' <= c <= '\U{1F}') ||
    c == '\U{85}' || c == '\U{A0}' || c == '\U{1680}' || ('\U{2000}' <= c <= '\U{200A}') ||
    c == '\U{2028}' || c == '\U{2029}' || c == '\U{202F}' || c == '\U{205F}' || c == '\U{3000}'
  }

  /** A location name as the instance parser produces it: non-empty, no whitespace. */
  predicate IsWord(w: string)
  {
    |w| > 0 && forall t :: 0 <= t < |w| ==> !IsSpace(w[t])
  }

  predicate AllWords(ws: seq<string>)
  {
    forall t :: 0 <= t < |ws| ==> IsWord(ws[t])
  }

  function StripLeft(s: string): string
  {
    if s != [] && IsSpace(s[0]) then StripLeft(s[1..]) else s
  }

  function StripRight(s: string): string
  {
    if s != [] && IsSpace(s[|s| - 1]) then StripRight(s[..|s| - 1]) else s
  }

  /** Python `s.strip()`. */
  function Strip(s: string): string
  {
    StripRight(StripLeft(s))
  }

  /** Python `" ".join(ws)`. */
  function Unwords(ws: seq<string>): string
  {
    if ws == [] then "" else if |ws| == 1 then ws[0] else ws[0] + " " + Unwords(ws[1..])
  }

  /** What `for w in ws: s += w + ' '` builds: every word followed by one space. */
  function Spaced(ws: seq<string>): string
  {
    if ws == [] then "" else Spaced(ws[..|ws| - 1]) + ws[|ws| - 1] + " "
  }

  lemma {:induction false} SpacedIsUnwordsAndSpace(ws: seq<string>)
    requires ws != []
    ensures Spaced(ws) == Unwords(ws) + " "
    decreases |ws|
  {
    if |ws| > 1 {
      var init := ws[..|ws| - 1];
      SpacedIsUnwordsAndSpace(init);
      UnwordsSnoc(init, ws[|ws| - 1]);
      assert init + [ws[|ws| - 1]] == ws;
    }
  }

  lemma {:induction false} UnwordsSnoc(ws: seq<string>, w: string)
    requires ws != []
    ensures Unwords(ws + [w]) == Unwords(ws) + " " + w
    decreases |ws|
  {
    if |ws| > 1 {
      UnwordsSnoc(ws[1..], w);
      assert (ws + [w])[1..] == ws[1..] + [w];
    } else {
      assert (ws + [w])[1..] == [w];
    }
  }

  lemma {:induction false} UnwordsEnds(ws: seq<string>)
    requires ws != [] && AllWords(ws)
    ensures |Unwords(ws)| > 0 && !IsSpace(Unwords(ws)[0]) && !IsSpace(Unwords(ws)[|Unwords(ws)| - 1])
    decreases |ws|
  {
    if |ws| > 1 {
      UnwordsEnds(ws[1..]);
      assert Unwords(ws) == ws[0] + (" " + Unwords(ws[1..]));
    }
  }

  lemma {:induction false} StripRightSpace(s: string)
    requires s == [] || !IsSpace(s[|s| - 1])
    ensures StripRight(s + " ") == s
  {
    assert (s + " ")[..|s|] == s;
  }

  /**
   * The strip() in convertToFile removes exactly the trailing space the loop
   * left: the line becomes the names joined by single spaces.
   */
  lemma StripSpaced(ws: seq<string>)
    requires AllWords(ws)
    ensures Strip(Spaced(ws)) == Unwords(ws)
  {
    if ws != [] {
      SpacedIsUnwordsAndSpace(ws);
      UnwordsEnds(ws);
      assert StripLeft(Spaced(ws)) == Spaced(ws);
      StripRightSpace(Unwords(ws));
    }
  }

  /** The length of the leading run of non-whitespace characters. */
  function WordLen(s: string): (n: nat)
    ensures n <= |s|
    ensures forall t :: 0 <= t < n ==> !IsSpace(s[t])
    ensures n < |s| ==> IsSpace(s[n])
  {
    if s == [] || IsSpace(s[0]) then 0 else 1 + WordLen(s[1..])
  }

  /** Python `s.split()`: the maximal runs of non-whitespace characters. */
  function Words(s: string): seq<string>
    decreases |s|
  {
    if s == [] then []
    else if IsSpace(s[0]) then Words(s[1..])
    else
      var n := WordLen(s);
      [s[..n]] + Words(s[n..])
  }

  lemma {:induction false} WordLenOfWord(w: string, rest: string)
    requires IsWord(w) && (rest == [] || IsSpace(rest[0]))
    ensures WordLen(w + rest) == |w|
    decreases |w|
  {
    if |w| > 1 {
      WordLenOfWord(w[1..], rest);
      assert (w + rest)[1..] == w[1..] + rest;
    } else {
      assert (w + rest)[1..] == rest;
    }
  }

  /** Reading a line with split() gives back the names joined into it. */
  lemma {:induction false} WordsOfUnwords(ws: seq<string>)
    requires AllWords(ws)
    ensures Words(Unwords(ws)) == ws
    decreases |ws|
  {
    if |ws| == 1 {
      WordLenOfWord(ws[0], "");
      assert ws[0] + "" == ws[0];
      assert ws[0][|ws[0]|..] == [];
    } else if |ws| > 1 {
      var rest := " " + Unwords(ws[1..]);
      var s := ws[0] + rest;
      assert Unwords(ws) == s;
      WordLenOfWord(ws[0], rest);
      assert s[..|ws[0]|] == ws[0];
      assert s[|ws[0]|..] == rest;
      assert rest[1..] == Unwords(ws[1..]);
      assert Words(rest) == Words(Unwords(ws[1..]));
      WordsOfUnwords(ws[1..]);
      assert Words(s) == [ws[0]] + Words(rest);
    }
  }

  lemma {:induction false} WordLenSpace(s: string)
    ensures WordLen(s + " ") == WordLen(s)
    decreases |s|
  {
    if s != [] && !IsSpace(s[0]) {
      assert (s + " ")[1..] == s[1..] + " ";
      WordLenSpace(s[1..]);
    }
  }

  /** A trailing space adds no word. */
  lemma {:induction false} WordsSpace(s: string)
    ensures Words(s + " ") == Words(s)
    decreases |s|
  {
    if s == [] {
      assert (s + " ")[1..] == [];
    } else if IsSpace(s[0]) {
      assert (s + " ")[1..] == s[1..] + " ";
      WordsSpace(s[1..]);
    } else {
      var n := WordLen(s);
      WordLenSpace(s);
      assert (s + " ")[..n] == s[..n];
      assert (s + " ")[n..] == s[n..] + " ";
      WordsSpace(s[n..]);
    }
  }

  /** Reading back with split() a line written word by word, each followed by a space. */
  lemma WordsOfSpaced(ws: seq<string>)
    requires AllWords(ws)
    ensures Words(Spaced(ws)) == ws
    ensures '\n' !in Spaced(ws)
  {
    if ws != [] {
      SpacedIsUnwordsAndSpace(ws);
      WordsSpace(Unwords(ws));
      WordsOfUnwords(ws);
      UnwordsNoNewline(ws);
    }
  }

  /** The length of the text before the first newline. */
  function LineLen(s: string): (n: nat)
    ensures n <= |s|
    ensures forall t :: 0 <= t < n ==> s[t] != '\n'
    ensures n < |s| ==> s[n] == '\n'
  {
    if s == [] || s[0] == '\n' then 0 else 1 + LineLen(s[1..])
  }

  /** The lines of a text, each without its terminating newline. */
  function Lines(s: string): seq<string>
    decreases |s|
  {
    if s == [] then []
    else
      var n := LineLen(s);
      if n < |s| then [s[..n]] + Lines(s[n + 1..]) else [s]
  }

  lemma {:induction false} LineLenOfLine(line: string, rest: string)
    requires '\n' !in line
    ensures LineLen(line + "\n" + rest) == |line|
    decreases |line|
  {
    if line != [] {
      LineLenOfLine(line[1..], rest);
      assert (line + "\n" + rest)[1..] == line[1..] + "\n" + rest;
    }
  }

  lemma LinesCons(line: string, rest: string)
    requires '\n' !in line
    ensures Lines(line + "\n" + rest) == [line] + Lines(rest)
  {
    var s := line + "\n" + rest;
    LineLenOfLine(line, rest);
    assert s[..|line|] == line;
    assert s[|line| + 1..] == rest;
  }

  /** What writing each line followed by a newline builds. */
  function Unlines(ls: seq<string>): string
  {
    if ls == [] then "" else ls[0] + "\n" + Unlines(ls[1..])
  }

  lemma {:induction false} UnlinesSnoc(ls: seq<string>, l: string)
    ensures Unlines(ls + [l]) == Unlines(ls) + l + "\n"
    decreases |ls|
  {
    if ls == [] {
      assert [l][1..] == [];
    } else {
      assert (ls + [l])[1..] == ls[1..] + [l];
      UnlinesSnoc(ls[1..], l);
    }
  }

  /** Splitting into lines undoes writing them, when no line holds a newline. */
  lemma {:induction false} LinesOfUnlines(ls: seq<string>)
    requires forall t :: 0 <= t < |ls| ==> '\n' !in ls[t]
    ensures Lines(Unlines(ls)) == ls
    decreases |ls|
  {
    if ls != [] {
      LinesOfUnlines(ls[1..]);
      LinesCons(ls[0], Unlines(ls[1..]));
    }
  }

  /** Whitespace-free words, joined by spaces, contain no newline. */
  lemma {:induction false} UnwordsNoNewline(ws: seq<string>)
    requires AllWords(ws)
    ensures '\n' !in Unwords(ws)
    decreases |ws|
  {
    if |ws| > 1 {
      UnwordsNoNewline(ws[1..]);
      assert Unwords(ws) == ws[0] + " " + Unwords(ws[1..]);
      assert IsSpace('\n');
      assert '\n' !in ws[0];
    } else if |ws| == 1 {
      assert IsSpace('\n');
      assert '\n' !in ws[0];
    }
  }

  predicate IsDigit(c: char)
  {
    '0' <= c <= '9'
  }

  function DigitChar(d: nat): char
    requires d < 10
  {
    "0123456789"[d]
  }

  function DigitValue(c: char): nat
    requires IsDigit(c)
  {
    c as int - '0' as int
  }

  /** Python `str(n)` for a natural number: its decimal digits, no leading zero. */
  function NatToString(n: nat): (s: string)
    ensures |s| > 0 && forall t :: 0 <= t < |s| ==> IsDigit(s[t])
    ensures |s| > 1 ==> s[0] != '0'
  {
    if n < 10 then [DigitChar(n)] else NatToString(n / 10) + [DigitChar(n % 10)]
  }

  /** Python `int(s)` for a string of decimal digits. */
  function ParseNat(s: string): nat
    requires forall t :: 0 <= t < |s| ==> IsDigit(s[t])
  {
    if s == [] then 0 else 10 * ParseNat(s[..|s| - 1]) + DigitValue(s[|s| - 1])
  }

  /** Reading back a number written with str() gives the number. */
  lemma {:induction false} ParseNatToString(n: nat)
    ensures ParseNat(NatToString(n)) == n
  {
    if n >= 10 {
      ParseNatToString(n / 10);
      var s := NatToString(n);
      assert s[..|s| - 1] == NatToString(n / 10);
    }
  }

  /** Python `str(i)` for any integer. */
  function IntToString(i: int): string
  {
    if i < 0 then "-" + NatToString(-i) else NatToString(i)
  }

  lemma NatToStringIsWord(n: nat)
    ensures IsWord(NatToString(n)) && '\n' !in NatToString(n)
  {
    var s := NatToString(n);
    forall t | 0 <= t < |s| ensures !IsSpace(s[t]) && s[t] != '\n' {
      assert IsDigit(s[t]);
    }
  }

  /** The number of occurrences of c in s. */
  function Count(s: string, c: char): nat
  {
    if s == [] then 0 else (if s[0] == c then 1 else 0) + Count(s[1..], c)
  }

  lemma {:induction false} CountAppend(a: string, b: string, c: char)
    ensures Count(a + b, c) == Count(a, c) + Count(b, c)
    decreases |a|
  {
    if a != [] {
      CountAppend(a[1..], b, c);
      assert (a + b)[1..] == a[1..] + b;
    } else {
      assert a + b == b;
    }
  }

  /** A newline-free line and its newline, in front of text ending in a newline, add one newline. */
  lemma LineCountCons(first: string, rest: string, k: nat)
    requires '\n' !in first && Count(rest, '\n') == k
    requires rest != [] ==> rest[|rest| - 1] == '\n'
    ensures Count(first + "\n" + rest, '\n') == k + 1
    ensures (first + "\n" + rest)[|first + "\n" + rest| - 1] == '\n'
  {
    CountAbsent(first, '\n');
    CountAppend(first, "\n", '\n');
    CountAppend(first + "\n", rest, '\n');
  }

  lemma {:induction false} CountAbsent(s: string, c: char)
    requires c !in s
    ensures Count(s, c) == 0
    decreases |s|
  {
    if s != [] {
      CountAbsent(s[1..], c);
    }
  }
}
