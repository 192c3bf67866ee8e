/** Character classes and the string operations the scraper applies to page text:
    Python's argument-less `str.split()`, `" ".join(...)`, and the non-breaking-space
    replacement of the batch driver.
 */
module Text {
  import opened Seqs

  /** Python's `str.isspace()`: exactly the characters an argument-less `str.split()`
      splits on (tab .. carriage return, the four information separators, space,
      NEL, no-break space and the Unicode space separators). */
  predicate IsSpace(c: char) {
    var n := c as int;
    || (0x09 <= n <= 0x0D)
    || (0x1C <= n <= 0x20)
    || n == 0x85
    || n == 0xA0
    || n == 0x1680
    || (0x2000 <= n <= 0x200A)
    || n == 0x2028
    || n == 0x2029
    || n == 0x202F
    || n == 0x205F
    || n == 0x3000
  }

  /** The no-break space U+00A0, which the batch driver rewrites to a plain space. */
  const Nbsp: char := 0xA0 as char

  /** An ASCII decimal digit. */
  predicate IsDigit(c: char) {
    '0' <= c <= '9'
  }

  /** A regular-expression word character (`\w`), restricted to ASCII. */
  predicate IsWordChar(c: char) {
    IsDigit(c) || ('a' <= c <= 'z') || ('A' <= c <= 'Z') || c == '_'
  }

  predicate NoSpace(w: string) {
    forall i :: 0 <= i < |w| ==> !IsSpace(w[i])
  }

  /** One element of the result of `str.split()`: non-empty and whitespace-free. */
  predicate IsWord(w: string) {
    |w| > 0 && NoSpace(w)
  }

  predicate AllWords(ws: seq<string>) {
    forall k :: 0 <= k < |ws| ==> IsWord(ws[k])
  }

  // ---------------------------------------------------------------------------
  // str.split() and " ".join(...)
  // ---------------------------------------------------------------------------

  /** `s` without its leading whitespace. */
  function TrimStart(s: string): string {
    if |s| > 0 && IsSpace(s[0]) then TrimStart(s[1..]) else s
  }

  /** TrimStart removes a prefix made of whitespace only, and what is left is empty or
      starts with a non-whitespace character. */
  lemma {:induction false} TrimStartFacts(s: string)
    ensures |TrimStart(s)| <= |s| && TrimStart(s) == s[|s| - |TrimStart(s)|..]
    ensures |TrimStart(s)| == 0 || !IsSpace(TrimStart(s)[0])
    ensures forall i :: 0 <= i < |s| - |TrimStart(s)| ==> IsSpace(s[i])
    decreases |s|
  {
    if |s| > 0 && IsSpace(s[0]) {
      TrimStartFacts(s[1..]);
    }
  }

  /** The longest whitespace-free prefix of `s`. */
  function LeadingWord(s: string): (w: string)
    ensures |w| <= |s|
  {
    if |s| > 0 && !IsSpace(s[0]) then [s[0]] + LeadingWord(s[1..]) else []
  }

  /** LeadingWord is a whitespace-free prefix, followed by the end of `s` or by
      whitespace. */
  lemma {:induction false} LeadingWordFacts(s: string)
    ensures |LeadingWord(s)| <= |s| && LeadingWord(s) == s[..|LeadingWord(s)|]
    ensures NoSpace(LeadingWord(s))
    ensures |LeadingWord(s)| == |s| || IsSpace(s[|LeadingWord(s)|])
    decreases |s|
  {
    if |s| > 0 && !IsSpace(s[0]) {
      LeadingWordFacts(s[1..]);
    }
  }

  /** Python's `s.split()` with no separator: the maximal whitespace-free runs of `s`,
      in order; leading, trailing and repeated whitespace yield no empty pieces. */
  function Split(s: string): (ws: seq<string>)
    ensures AllWords(ws)
    decreases |s|
  {
    var t := TrimStart(s);
    TrimStartFacts(s);
    if |t| == 0 then []
    else
      var w := LeadingWord(t);
      LeadingWordFacts(t);
      [w] + Split(t[|w|..])
  }

  /** One step of Split, for proofs that should not unfold it themselves. */
  lemma SplitStep(s: string)
    ensures |TrimStart(s)| == 0 ==> Split(s) == []
    ensures |TrimStart(s)| > 0 ==>
      Split(s) == [LeadingWord(TrimStart(s))] + Split(TrimStart(s)[|LeadingWord(TrimStart(s))|..])
  {
  }

  /** Python's `" ".join(ws)`. */
  function JoinSpace(ws: seq<string>): string {
    if |ws| == 0 then ""
    else if |ws| == 1 then ws[0]
    else ws[0] + " " + JoinSpace(ws[1..])
  }

  /** The characters of `s` that are not whitespace, in order. */
  function NonSpace(s: string): string {
    if |s| == 0 then ""
    else (if IsSpace(s[0]) then "" else [s[0]]) + NonSpace(s[1..])
  }

  /** Two whitespace characters in a row start at position `i`. */
  predicate SpaceRunAt(r: string, i: int) {
    0 <= i < |r| - 1 && IsSpace(r[i]) && IsSpace(r[i + 1])
  }

  /** Whitespace normal form: no whitespace at either end, the only whitespace
      character is the plain space, and never two whitespace characters in a row. */
  predicate IsNormalized(r: string) {
    && (|r| > 0 ==> !IsSpace(r[0]) && !IsSpace(r[|r| - 1]))
    && (forall i :: 0 <= i < |r| && IsSpace(r[i]) ==> r[i] == ' ')
    && (forall i :: 0 <= i < |r| ==> !SpaceRunAt(r, i))
  }

  /** One left-to-right pass that copies non-whitespace characters and puts a single
      space between runs of them. `afterWord` says a character has been copied already;
      `gap` says whitespace has been seen since the last copied character (and implies
      `afterWord`). */
  function Squeeze(s: string, afterWord: bool, gap: bool): string {
    if |s| == 0 then ""
    else if IsSpace(s[0]) then Squeeze(s[1..], afterWord, afterWord)
    else (if gap then " " else "") + [s[0]] + Squeeze(s[1..], true, false)
  }

  /** `" ".join(raw.split())`, the score normalisation of the scraper, computed in one
      pass (SqueezeIsJoinOfSplit shows it is the join of the split): the result is in
      whitespace normal form and keeps exactly the non-whitespace characters of `s`,
      in their order. */
  function NormalizeWhitespace(s: string): (r: string)
    ensures IsNormalized(r)
    ensures NonSpace(r) == NonSpace(s)
  {
    var ws := Split(s);
    SqueezeIsJoinOfSplit(s, false, false);
    assert Squeeze(s, false, false) == JoinSpace(ws);
    JoinNormalized(ws);
    NonSpaceOfJoin(ws);
    NonSpaceOfSplit(s);
    Squeeze(s, false, false)
  }

  /** The one-pass normaliser is Python's split-then-join. */
  lemma NormalizeIsJoinOfSplit(s: string)
    ensures NormalizeWhitespace(s) == JoinSpace(Split(s))
  {
    SqueezeIsJoinOfSplit(s, false, false);
  }

  // ---------------------------------------------------------------------------
  // Lemmas about the pieces
  // ---------------------------------------------------------------------------

  lemma {:induction false} NonSpaceAppend(a: string, b: string)
    ensures NonSpace(a + b) == NonSpace(a) + NonSpace(b)
    decreases |a|
  {
    if |a| == 0 {
      assert a + b == b;
    } else {
      assert (a + b)[1..] == a[1..] + b;
      NonSpaceAppend(a[1..], b);
    }
  }

  lemma {:induction false} NonSpaceOfWord(w: string)
    requires NoSpace(w)
    ensures NonSpace(w) == w
    decreases |w|
  {
    if |w| > 0 {
      NonSpaceOfWord(w[1..]);
    }
  }

  lemma {:induction false} NonSpaceOfBlank(s: string)
    requires forall i :: 0 <= i < |s| ==> IsSpace(s[i])
    ensures NonSpace(s) == ""
    decreases |s|
  {
    if |s| > 0 {
      NonSpaceOfBlank(s[1..]);
    }
  }

  /** Splitting loses only whitespace. */
  lemma {:induction false} NonSpaceOfSplit(s: string)
    ensures NonSpace(s) == Flatten(Split(s))
    decreases |s|
  {
    var t := TrimStart(s);
    TrimStartFacts(s);
    var blank := s[..|s| - |t|];
    assert s == blank + t;
    NonSpaceAppend(blank, t);
    NonSpaceOfBlank(blank);
    if |t| > 0 {
      var w := LeadingWord(t);
      LeadingWordFacts(t);
      var rest := t[|w|..];
      assert t == w + rest;
      NonSpaceAppend(w, rest);
      NonSpaceOfWord(w);
      NonSpaceOfSplit(rest);
      SplitStep(s);
      assert Flatten([w] + Split(rest)) == w + Flatten(Split(rest)) by {
        assert ([w] + Split(rest))[1..] == Split(rest);
      }
    } else {
      SplitStep(s);
    }
  }

  /** Joining with single spaces adds only whitespace. */
  lemma {:induction false} NonSpaceOfJoin(ws: seq<string>)
    requires AllWords(ws)
    ensures NonSpace(JoinSpace(ws)) == Flatten(ws)
    decreases |ws|
  {
    if |ws| == 1 {
      NonSpaceOfWord(ws[0]);
      assert Flatten(ws) == ws[0] + Flatten([]);
    } else if |ws| > 1 {
      NonSpaceOfWord(ws[0]);
      NonSpaceOfJoin(ws[1..]);
      NonSpaceAppend(ws[0] + " ", JoinSpace(ws[1..]));
      NonSpaceAppend(ws[0], " ");
    }
  }

  /** A join of at least one word starts with the first word's first character and
      ends with the last word's last character. */
  lemma {:induction false} JoinEnds(ws: seq<string>)
    requires AllWords(ws) && |ws| > 0
    ensures |JoinSpace(ws)| > 0
    ensures JoinSpace(ws)[0] == ws[0][0]
    ensures JoinSpace(ws)[|JoinSpace(ws)| - 1] == ws[|ws| - 1][|ws[|ws| - 1]| - 1]
    decreases |ws|
  {
    if |ws| > 1 {
      var tail := ws[1..];
      JoinEnds(tail);
      var rest := JoinSpace(tail);
      var w := ws[0];
      assert IsWord(w);
      assert JoinSpace(ws) == w + " " + rest;
      assert (w + " " + rest)[0] == w[0];
      assert tail[|tail| - 1] == ws[|ws| - 1];
      assert (w + " " + rest)[|w| + 1 + |rest| - 1] == rest[|rest| - 1];
    }
  }

  /** A join of words is in whitespace normal form. */
  lemma {:induction false} JoinNormalized(ws: seq<string>)
    requires AllWords(ws)
    ensures IsNormalized(JoinSpace(ws))
    decreases |ws|
  {
    if |ws| == 1 {
      assert IsWord(ws[0]);
      forall i | 0 <= i
        ensures !SpaceRunAt(ws[0], i)
      {
      }
    } else if |ws| > 1 {
      var w := ws[0];
      var j := JoinSpace(ws[1..]);
      var r := JoinSpace(ws);
      assert IsWord(w);
      JoinNormalized(ws[1..]);
      JoinEnds(ws[1..]);
      JoinEnds(ws);
      assert r == w + " " + j;
      assert !IsSpace(j[0]) by {
        assert IsWord(ws[1..][0]);
      }
      assert !IsSpace(r[|r| - 1]) by {
        assert IsWord(ws[|ws| - 1]);
      }
      forall i | 0 <= i < |r| && IsSpace(r[i])
        ensures r[i] == ' '
      {
        if i > |w| {
          assert r[i] == j[i - |w| - 1];
        }
      }
      forall i
        ensures !SpaceRunAt(r, i)
      {
        if i > |w| && i < |r| - 1 {
          assert r[i] == j[i - |w| - 1] && r[i + 1] == j[i - |w|];
          assert !SpaceRunAt(j, i - |w| - 1);
        }
      }
    }
  }

  lemma TrimStartOfWordStart(s: string)
    requires |s| == 0 || !IsSpace(s[0])
    ensures TrimStart(s) == s
  {
  }

  /** Leading whitespace does not change the split. */
  lemma SplitSkipsSpace(c: char, s: string)
    requires IsSpace(c)
    ensures Split([c] + s) == Split(s)
  {
    assert ([c] + s)[1..] == s;
    assert TrimStart([c] + s) == TrimStart(s);
  }

  /** The leading word of `w + y` is `w` when `w` is whitespace-free and `y` is empty or
      starts with whitespace. */
  lemma {:induction false} LeadingWordOf(w: string, y: string)
    requires NoSpace(w)
    requires |y| == 0 || IsSpace(y[0])
    ensures LeadingWord(w + y) == w
    decreases |w|
  {
    if |w| == 0 {
      assert w + y == y;
    } else {
      assert (w + y)[1..] == w[1..] + y;
      LeadingWordOf(w[1..], y);
    }
  }

  /** Splitting a word followed by nothing, or by text that starts with whitespace,
      yields that word and then the split of the rest. */
  lemma SplitOfWordThen(w: string, y: string)
    requires IsWord(w)
    requires |y| == 0 || IsSpace(y[0])
    ensures Split(w + y) == [w] + Split(y)
  {
    var s := w + y;
    TrimStartOfWordStart(s);
    LeadingWordOf(w, y);
    assert s[|w|..] == y;
    SplitStep(s);
  }

  lemma SplitOfEmpty()
    ensures Split("") == []
  {
    SplitStep("");
  }

  /** A single word splits into itself. */
  lemma SplitOfWord(w: string)
    requires IsWord(w)
    ensures Split(w) == [w]
  {
    SplitOfWordThen(w, "");
    assert w + "" == w;
    SplitOfEmpty();
  }

  /** The inductive step of SplitJoin: a word, a space, then text that splits into
      the remaining words. */
  lemma SplitJoinStep(ws: seq<string>)
    requires AllWords(ws) && |ws| > 1
    requires Split(JoinSpace(ws[1..])) == ws[1..]
    ensures Split(JoinSpace(ws)) == ws
  {
    assert IsWord(ws[0]);
    var j := JoinSpace(ws[1..]);
    assert JoinSpace(ws) == ws[0] + ([' '] + j);
    SplitOfWordThen(ws[0], [' '] + j);
    SplitSkipsSpace(' ', j);
    assert ws == [ws[0]] + ws[1..];
  }

  /** Round trip: splitting a single-space join of words gives the words back. */
  lemma {:induction false} SplitJoin(ws: seq<string>)
    requires AllWords(ws)
    ensures Split(JoinSpace(ws)) == ws
    decreases |ws|
  {
    if |ws| == 0 {
      SplitOfEmpty();
    } else if |ws| == 1 {
      assert IsWord(ws[0]);
      SplitOfWord(ws[0]);
    } else {
      SplitJoin(ws[1..]);
      SplitJoinStep(ws);
    }
  }

  /** A character glued to the front of text that starts with a non-whitespace
      character joins the first word. */
  lemma SplitOfGlued(c: char, x: string)
    requires !IsSpace(c) && |x| > 0 && !IsSpace(x[0])
    ensures |Split(x)| > 0
    ensures Split([c] + x) == [[c] + Split(x)[0]] + Split(x)[1..]
  {
    var s := [c] + x;
    TrimStartOfWordStart(s);
    TrimStartOfWordStart(x);
    assert s[1..] == x;
    assert LeadingWord(s) == [c] + LeadingWord(x);
    var w := LeadingWord(x);
    LeadingWordFacts(x);
    assert s[|[c] + w|..] == x[|w|..];
    SplitStep(s);
    SplitStep(x);
  }

  /** Gluing a character to the first word glues it to the front of the join. */
  lemma JoinGlued(c: char, ws: seq<string>)
    requires |ws| > 0
    ensures JoinSpace([[c] + ws[0]] + ws[1..]) == [c] + JoinSpace(ws)
  {
    if |ws| == 1 {
      JoinGluedOne(c, ws);
    } else {
      JoinGluedMore(c, ws);
    }
  }

  lemma JoinGluedOne(c: char, ws: seq<string>)
    requires |ws| == 1
    ensures JoinSpace([[c] + ws[0]] + ws[1..]) == [c] + JoinSpace(ws)
  {
    var vs := [[c] + ws[0]] + ws[1..];
    assert vs == [[c] + ws[0]];
  }

  lemma JoinGluedMore(c: char, ws: seq<string>)
    requires |ws| > 1
    ensures JoinSpace([[c] + ws[0]] + ws[1..]) == [c] + JoinSpace(ws)
  {
    var vs := [[c] + ws[0]] + ws[1..];
    assert vs[1..] == ws[1..];
  }

  /** A word of one character, then text that is empty or starts with whitespace. */
  lemma JoinOfSingleThen(c: char, x: string)
    requires !IsSpace(c) && (|x| == 0 || IsSpace(x[0]))
    ensures JoinSpace(Split([c] + x)) ==
      [c] + (if |Split(x)| > 0 then " " else "") + JoinSpace(Split(x))
  {
    SplitOfWordThen([c], x);
    var vs := [[c]] + Split(x);
    assert vs[1..] == Split(x);
  }

  /** Prefix of the Squeeze invariant: one space when there are more words and
      whitespace separates them from the word already copied. */
  function SqueezeSep(s: string, afterWord: bool, gap: bool): string {
    if |Split(s)| > 0 && (gap || (afterWord && |s| > 0 && IsSpace(s[0]))) then " " else ""
  }

  lemma SqueezeSpaceStep(s: string, afterWord: bool, gap: bool)
    requires gap ==> afterWord
    requires |s| > 0 && IsSpace(s[0])
    requires Squeeze(s[1..], afterWord, afterWord) == SqueezeSep(s[1..], afterWord, afterWord) + JoinSpace(Split(s[1..]))
    ensures Squeeze(s, afterWord, gap) == SqueezeSep(s, afterWord, gap) + JoinSpace(Split(s))
  {
    assert s == [s[0]] + s[1..];
    SplitSkipsSpace(s[0], s[1..]);
  }

  lemma SqueezeWordStep(s: string, afterWord: bool, gap: bool)
    requires gap ==> afterWord
    requires |s| > 0 && !IsSpace(s[0])
    requires Squeeze(s[1..], true, false) == SqueezeSep(s[1..], true, false) + JoinSpace(Split(s[1..]))
    ensures Squeeze(s, afterWord, gap) == SqueezeSep(s, afterWord, gap) + JoinSpace(Split(s))
  {
    var c := s[0];
    var x := s[1..];
    assert s == [c] + x;
    var lead := if gap then " " else "";
    var sep := SqueezeSep(x, true, false);
    var rest := JoinSpace(Split(x));
    assert Squeeze(s, afterWord, gap) == lead + [c] + (sep + rest);
    AppendAssoc(lead + [c], sep, rest);
    WordSep(c, x, afterWord, gap);
  }

  /** The Squeeze invariant's right-hand side after a one-character word. */
  lemma WordSep(c: char, x: string, afterWord: bool, gap: bool)
    requires !IsSpace(c)
    ensures SqueezeSep([c] + x, afterWord, gap) + JoinSpace(Split([c] + x)) ==
      (if gap then " " else "") + [c] + SqueezeSep(x, true, false) + JoinSpace(Split(x))
  {
    if |x| == 0 || IsSpace(x[0]) {
      WordThenSpaceSep(c, x, afterWord, gap);
    } else {
      WordGluedSep(c, x, afterWord, gap);
    }
  }

  /** A single character that is not whitespace is a word. */
  lemma WordOfChar(c: char)
    requires !IsSpace(c)
    ensures IsWord([c])
  {
    assert forall i :: 0 <= i < |[c]| ==> [c][i] == c;
  }

  /** Before a word, the separator is the pending space alone. */
  lemma SepBeforeWord(s: string, afterWord: bool, gap: bool)
    requires |s| > 0 && !IsSpace(s[0]) && |Split(s)| > 0
    ensures SqueezeSep(s, afterWord, gap) == (if gap then " " else "")
  {
  }

  /** The Squeeze invariant's right-hand side after a one-character word followed by
      the end of the text or whitespace. */
  lemma WordThenSpaceSep(c: char, x: string, afterWord: bool, gap: bool)
    requires !IsSpace(c) && (|x| == 0 || IsSpace(x[0]))
    ensures SqueezeSep([c] + x, afterWord, gap) + JoinSpace(Split([c] + x)) ==
      (if gap then " " else "") + [c] + SqueezeSep(x, true, false) + JoinSpace(Split(x))
  {
    var s := [c] + x;
    var lead := if gap then " " else "";
    var sep := if |Split(x)| > 0 then " " else "";
    var rest := JoinSpace(Split(x));
    WordOfChar(c);
    JoinOfSingleThen(c, x);
    SplitOfWordThen([c], x);
    assert |Split(s)| == 1 + |Split(x)|;
    SepBeforeWord(s, afterWord, gap);
    assert SqueezeSep(x, true, false) == sep by {
      if |x| == 0 {
        SplitOfEmpty();
      }
    }
    AppendAssoc(lead, [c] + sep, rest);
    AppendAssoc(lead, [c], sep);
  }

  /** The Squeeze invariant's right-hand side after a character glued to a word. */
  lemma WordGluedSep(c: char, x: string, afterWord: bool, gap: bool)
    requires !IsSpace(c) && |x| > 0 && !IsSpace(x[0])
    ensures SqueezeSep([c] + x, afterWord, gap) + JoinSpace(Split([c] + x)) ==
      (if gap then " " else "") + [c] + SqueezeSep(x, true, false) + JoinSpace(Split(x))
  {
    var s := [c] + x;
    var lead := if gap then " " else "";
    var ws := Split(x);
    var rest := JoinSpace(ws);
    SplitOfGlued(c, x);
    JoinGlued(c, ws);
    SepBeforeWord(s, afterWord, gap);
    SepBeforeWord(x, true, false);
    AppendAssoc(lead, [c], rest);
    assert lead + [c] + "" == lead + [c];
  }

  /** The invariant of the one-pass normaliser: from any state it produces the join of
      the split of the rest, preceded by one space exactly when there are more words
      and whitespace separates them from the word already copied. */
  lemma {:induction false} SqueezeIsJoinOfSplit(s: string, afterWord: bool, gap: bool)
    requires gap ==> afterWord
    ensures Squeeze(s, afterWord, gap) == SqueezeSep(s, afterWord, gap) + JoinSpace(Split(s))
    decreases |s|
  {
    if |s| == 0 {
      SplitOfEmpty();
    } else if IsSpace(s[0]) {
      SqueezeIsJoinOfSplit(s[1..], afterWord, afterWord);
      SqueezeSpaceStep(s, afterWord, gap);
    } else {
      SqueezeIsJoinOfSplit(s[1..], true, false);
      SqueezeWordStep(s, afterWord, gap);
    }
  }

  // ---------------------------------------------------------------------------
  // How the normaliser treats the seams of a text
  // ---------------------------------------------------------------------------

  /** Every character of `w` is whitespace. */
  predicate Blank(w: string) {
    forall i :: 0 <= i < |w| ==> IsSpace(w[i])
  }

  /** The (afterWord, gap) state Squeeze is in after reading `s`. */
  function SqueezeState(s: string, afterWord: bool, gap: bool): (bool, bool) {
    if |s| == 0 then (afterWord, gap)
    else if IsSpace(s[0]) then SqueezeState(s[1..], afterWord, afterWord)
    else SqueezeState(s[1..], true, false)
  }

  /** Squeezing two texts laid end to end is squeezing the first, then the second from
      the state the first left behind. */
  lemma {:induction false} SqueezeAppend(a: string, b: string, afterWord: bool, gap: bool)
    ensures Squeeze(a + b, afterWord, gap) ==
      Squeeze(a, afterWord, gap) +
      Squeeze(b, SqueezeState(a, afterWord, gap).0, SqueezeState(a, afterWord, gap).1)
    ensures SqueezeState(a + b, afterWord, gap) ==
      SqueezeState(b, SqueezeState(a, afterWord, gap).0, SqueezeState(a, afterWord, gap).1)
    decreases |a|
  {
    if |a| == 0 {
      assert a + b == b;
    } else {
      assert (a + b)[1..] == a[1..] + b;
      if IsSpace(a[0]) {
        SqueezeAppend(a[1..], b, afterWord, afterWord);
      } else {
        SqueezeAppend(a[1..], b, true, false);
      }
    }
  }

  /** Whitespace alone writes nothing, and leaves a gap exactly when a word came before. */
  lemma {:induction false} SqueezeOfBlank(w: string, afterWord: bool, gap: bool)
    requires Blank(w) && |w| > 0
    ensures Squeeze(w, afterWord, gap) == ""
    ensures SqueezeState(w, afterWord, gap) == (afterWord, afterWord)
    decreases |w|
  {
    if |w| > 1 {
      SqueezeOfBlank(w[1..], afterWord, afterWord);
    }
  }

  /** Once a word has been copied, Squeeze stays after a word. */
  lemma {:induction false} StateStaysAfterWord(s: string, gap: bool)
    ensures SqueezeState(s, true, gap).0
    decreases |s|
  {
    if |s| > 0 {
      if IsSpace(s[0]) {
        StateStaysAfterWord(s[1..], true);
      } else {
        StateStaysAfterWord(s[1..], false);
      }
    }
  }

  /** After text holding a non-whitespace character, Squeeze is after a word. */
  lemma {:induction false} StateAfterText(s: string, afterWord: bool, gap: bool)
    requires NonSpace(s) != ""
    ensures SqueezeState(s, afterWord, gap).0
    decreases |s|
  {
    if IsSpace(s[0]) {
      StateAfterText(s[1..], afterWord, afterWord);
    } else {
      StateStaysAfterWord(s[1..], false);
    }
  }

  /** After text ending in a non-whitespace character, Squeeze is right after a word. */
  lemma StateAfterWordEnd(s: string, afterWord: bool, gap: bool)
    requires |s| > 0 && !IsSpace(s[|s| - 1])
    ensures SqueezeState(s, afterWord, gap) == (true, false)
  {
    var n := |s| - 1;
    assert s == s[..n] + [s[n]];
    SqueezeAppend(s[..n], [s[n]], afterWord, gap);
  }

  /** Resuming after a word and a gap on text with a non-whitespace character writes one
      space, then what normalising that text alone writes. */
  lemma {:induction false} SqueezeResumeGap(b: string)
    requires NonSpace(b) != ""
    ensures Squeeze(b, true, true) == " " + Squeeze(b, false, false)
    decreases |b|
  {
    if IsSpace(b[0]) {
      SqueezeResumeGap(b[1..]);
    }
  }

  /** A whitespace run between two pieces of text that hold non-whitespace characters
      becomes exactly one space, and each piece is normalised on its own. */
  lemma NormalizeAtBlank(a: string, w: string, b: string)
    requires Blank(w) && |w| > 0
    requires NonSpace(a) != "" && NonSpace(b) != ""
    ensures NormalizeWhitespace(a + w + b) == NormalizeWhitespace(a) + " " + NormalizeWhitespace(b)
  {
    SqueezeAppend(a + w, b, false, false);
    SqueezeAppend(a, w, false, false);
    StateAfterText(a, false, false);
    var st := SqueezeState(a, false, false);
    SqueezeOfBlank(w, st.0, st.1);
    SqueezeResumeGap(b);
  }

  /** Two texts glued with non-whitespace on both sides of the seam normalise piece by
      piece: no space is inserted and none is lost. */
  lemma NormalizeAtGlue(a: string, b: string)
    requires |a| > 0 && !IsSpace(a[|a| - 1])
    requires |b| > 0 && !IsSpace(b[0])
    ensures NormalizeWhitespace(a + b) == NormalizeWhitespace(a) + NormalizeWhitespace(b)
  {
    SqueezeAppend(a, b, false, false);
    StateAfterWordEnd(a, false, false);
  }

  /** Joining two non-empty word lists laid end to end puts one space between their joins. */
  lemma {:induction false} JoinAppend(x: seq<string>, y: seq<string>)
    requires |x| > 0 && |y| > 0
    ensures JoinSpace(x + y) == JoinSpace(x) + " " + JoinSpace(y)
    decreases |x|
  {
    if |x| > 1 {
      assert (x + y)[1..] == x[1..] + y;
      JoinAppend(x[1..], y);
    }
  }

  /** Splitting gives back the words of the normal form. */
  lemma SplitOfNormalized(s: string)
    ensures Split(NormalizeWhitespace(s)) == Split(s)
  {
    NormalizeIsJoinOfSplit(s);
    SplitJoin(Split(s));
  }

  /** `str.split()` cuts at every whitespace run between pieces of text: the words of
      `a + w + b` are those of `a` followed by those of `b`. */
  lemma SplitAtBlank(a: string, w: string, b: string)
    requires Blank(w) && |w| > 0
    requires NonSpace(a) != "" && NonSpace(b) != ""
    ensures Split(a + w + b) == Split(a) + Split(b)
  {
    NonSpaceOfSplit(a);
    NonSpaceOfSplit(b);
    assert |Split(a)| > 0 && |Split(b)| > 0;
    SplitOfNormalized(a + w + b);
    NormalizeAtBlank(a, w, b);
    NormalizeIsJoinOfSplit(a);
    NormalizeIsJoinOfSplit(b);
    JoinAppend(Split(a), Split(b));
    assert AllWords(Split(a) + Split(b)) by {
      assert AllWords(Split(a)) && AllWords(Split(b));
    }
    SplitJoin(Split(a) + Split(b));
  }

  /** Normalising twice is normalising once. */
  lemma NormalizeIdempotent(s: string)
    ensures NormalizeWhitespace(NormalizeWhitespace(s)) == NormalizeWhitespace(s)
  {
    NormalizeIsJoinOfSplit(s);
    NormalizeIsJoinOfSplit(JoinSpace(Split(s)));
    SplitJoin(Split(s));
  }

  /** A suffix of a normalised string that starts just after one of its spaces is
      itself normalised. */
  lemma NormalizedSuffix(r: string, k: nat)
    requires IsNormalized(r) && 0 < k < |r| && IsSpace(r[k - 1])
    ensures IsNormalized(r[k..])
  {
    var t := r[k..];
    assert !SpaceRunAt(r, k - 1);
    forall i
      ensures !SpaceRunAt(t, i)
    {
      if 0 <= i < |t| - 1 {
        assert !SpaceRunAt(r, i + k);
      }
    }
  }

  /** A word, one space, and text that starts with a non-whitespace character split
      into the word followed by the (non-empty) split of that text. */
  lemma SplitOfWordSpace(w: string, t: string)
    requires IsWord(w) && |t| > 0 && !IsSpace(t[0])
    ensures Split(w + " " + t) == [w] + Split(t)
    ensures |Split(t)| > 0
  {
    assert w + " " + t == w + ([' '] + t);
    SplitOfWordThen(w, [' '] + t);
    SplitSkipsSpace(' ', t);
    TrimStartOfWordStart(t);
    SplitStep(t);
  }

  /** If `t` survives split-and-join unchanged, so does a word, a space and `t`. */
  lemma JoinSplitOfWordSpace(w: string, t: string)
    requires IsWord(w) && |t| > 0 && !IsSpace(t[0])
    requires JoinSpace(Split(t)) == t
    ensures JoinSpace(Split(w + " " + t)) == w + " " + t
  {
    SplitOfWordSpace(w, t);
    var ws := [w] + Split(t);
    assert |ws| > 1 && ws[0] == w && ws[1..] == Split(t);
    assert JoinSpace(ws) == w + " " + JoinSpace(Split(t));
  }

  /** A non-empty normalised string is its leading word, possibly followed by one
      space and more text. */
  lemma LeadingWordOfNormalized(r: string)
    requires IsNormalized(r) && |r| > 0
    ensures IsWord(LeadingWord(r))
    ensures |LeadingWord(r)| == |r| || (|LeadingWord(r)| + 1 < |r| && r[|LeadingWord(r)|] == ' ')
  {
    var w := LeadingWord(r);
    LeadingWordFacts(r);
    if |w| < |r| {
      assert IsSpace(r[|w|]);
    }
  }

  /** Exactly the normalised strings are left unchanged by normalisation; with the
      contract of NormalizeWhitespace this makes IsNormalized its set of fixed points. */
  lemma NormalizedIsFixedPoint(r: string)
    requires IsNormalized(r)
    ensures NormalizeWhitespace(r) == r
  {
    NormalizeIsJoinOfSplit(r);
    JoinSplitOfNormalized(r);
  }

  lemma {:induction false} JoinSplitOfNormalized(r: string)
    requires IsNormalized(r)
    ensures JoinSpace(Split(r)) == r
    decreases |r|
  {
    if |r| == 0 {
      SplitOfEmpty();
    } else {
      LeadingWordOfNormalized(r);
      LeadingWordFacts(r);
      var w := LeadingWord(r);
      if |w| == |r| {
        assert w == r;
        SplitOfWord(r);
      } else {
        var t := r[|w| + 1..];
        NormalizedSuffix(r, |w| + 1);
        JoinSplitOfNormalized(t);
        assert r == w + " " + t;
        JoinSplitOfWordSpace(w, t);
      }
    }
  }

  // ---------------------------------------------------------------------------
  // Non-breaking-space replacement
  // ---------------------------------------------------------------------------

  /** `s` with every U+00A0 rewritten to a plain space (the regular-expression
      replacement the batch driver applies to every text cell). */
  function ReplaceNbsp(s: string): (r: string)
    ensures |r| == |s|
    ensures Nbsp !in r
    ensures forall i :: 0 <= i < |s| && s[i] != Nbsp ==> r[i] == s[i]
    ensures forall i :: 0 <= i < |s| && s[i] == Nbsp ==> r[i] == ' '
  {
    if |s| == 0 then ""
    else [if s[0] == Nbsp then ' ' else s[0]] + ReplaceNbsp(s[1..])
  }

  /** Replacing twice is replacing once, and a string without U+00A0 is left alone. */
  lemma {:induction false} ReplaceNbspIdempotent(s: string)
    ensures ReplaceNbsp(ReplaceNbsp(s)) == ReplaceNbsp(s)
    ensures Nbsp !in s ==> ReplaceNbsp(s) == s
    decreases |s|
  {
    if |s| > 0 {
      ReplaceNbspIdempotent(s[1..]);
      var r := ReplaceNbsp(s);
      assert r[1..] == ReplaceNbsp(s[1..]);
      if Nbsp !in s {
        assert Nbsp !in s[1..];
      }
    }
  }

  /** A normalised string has no U+00A0 in it, so the replacement leaves scores as
      they are. */
  lemma NormalizedHasNoNbsp(r: string)
    requires IsNormalized(r)
    ensures Nbsp !in r
    ensures ReplaceNbsp(r) == r
  {
    if Nbsp in r {
      var i :| 0 <= i < |r| && r[i] == Nbsp;
      assert IsSpace(r[i]);
    }
  }
}
