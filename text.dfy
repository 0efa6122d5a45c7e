/**
 * The string operations the pipeline relies on: Python's `str.split(sep)`,
 * the "split on spaces and drop empty tokens" idiom, `int(...)` on a
 * residue-number token, and decimal rendering of integers.
 */
module Text {
  import opened Wrappers

  /** Python's `s.split(d)`: the pieces between occurrences of `d`, empty pieces kept. */
  function Split(s: string, d: char): (parts: seq<string>)
    ensures |parts| >= 1
    ensures forall i :: 0 <= i < |parts| ==> d !in parts[i]
    decreases |s|
  {
    if s == [] then [""]
    else
      var rest := Split(s[1..], d);
      if s[0] == d then [""] + rest
      else [[s[0]] + rest[0]] + rest[1..]
  }

  /**
   * The inverse of Split. No core operation joins strings; this is a helper
   * for the Split lemmas and for rendering report rows, not a model of source code.
   */
  function Join(parts: seq<string>, d: char): string
    requires |parts| >= 1
  {
    if |parts| == 1 then parts[0] else parts[0] + [d] + Join(parts[1..], d)
  }

  /** Joining the pieces of a split gives back the original string. */
  lemma {:induction false} JoinSplit(s: string, d: char)
    ensures Join(Split(s, d), d) == s
    decreases |s|
  {
    if s != [] {
      JoinSplit(s[1..], d);
      var rest := Split(s[1..], d);
      if s[0] != d {
        assert Split(s, d)[1..] == rest[1..];
      }
    }
  }

  /** Splitting a joined list of separator-free pieces gives back the pieces. */
  lemma {:induction false} SplitJoin(parts: seq<string>, d: char)
    requires |parts| >= 1
    requires forall i :: 0 <= i < |parts| ==> d !in parts[i]
    ensures Split(Join(parts, d), d) == parts
    decreases |parts|
  {
    if |parts| == 1 {
      SplitFree(parts[0], d);
    } else {
      SplitJoin(parts[1..], d);
      SplitPrefix(parts[0], Join(parts[1..], d), d);
      assert [parts[0]] + parts[1..] == parts;
    }
  }

  /** A string without the separator splits into itself. */
  lemma {:induction false} SplitFree(s: string, d: char)
    requires d !in s
    ensures Split(s, d) == [s]
    decreases |s|
  {
    if s != [] {
      SplitFree(s[1..], d);
      assert [s[0]] + s[1..] == s;
    }
  }

  /** A separator-free head followed by the separator becomes its own piece. */
  lemma {:induction false} SplitPrefix(a: string, b: string, d: char)
    requires d !in a
    ensures Split(a + [d] + b, d) == [a] + Split(b, d)
    decreases |a|
  {
    if a == [] {
      assert a + [d] + b == [d] + b;
      assert ([d] + b)[1..] == b;
    } else {
      SplitPrefix(a[1..], b, d);
      assert (a + [d] + b)[1..] == a[1..] + [d] + b;
      assert [a[0]] + a[1..] == a;
    }
  }

  /** A character that is neither the separator nor in any piece is not in the joined string. */
  lemma {:induction false} JoinAvoids(parts: seq<string>, d: char, c: char)
    requires |parts| >= 1 && c != d
    requires forall i :: 0 <= i < |parts| ==> c !in parts[i]
    ensures c !in Join(parts, d)
    decreases |parts|
  {
    if |parts| > 1 {
      JoinAvoids(parts[1..], d, c);
    }
  }

  /** The non-empty strings of `parts`, in order: Python's `list(filter(None, parts))`. */
  function NonEmpty(parts: seq<string>): (r: seq<string>)
    ensures |r| <= |parts|
    ensures forall i :: 0 <= i < |r| ==> r[i] != [] && r[i] in parts
    decreases |parts|
  {
    if parts == [] then []
    else if parts[0] == [] then NonEmpty(parts[1..])
    else [parts[0]] + NonEmpty(parts[1..])
  }

  /** The space-separated tokens of `s`: `list(filter(None, s.split(' ')))`. */
  function Tokens(s: string): (ts: seq<string>)
    ensures forall i :: 0 <= i < |ts| ==> ts[i] != [] && ' ' !in ts[i]
  {
    NonEmpty(Split(s, ' '))
  }

  lemma {:induction false} NonEmptyKeepsAll(parts: seq<string>)
    requires forall i :: 0 <= i < |parts| ==> parts[i] != []
    ensures NonEmpty(parts) == parts
    decreases |parts|
  {
    if parts != [] {
      NonEmptyKeepsAll(parts[1..]);
    }
  }

  /** Tokens read back exactly the non-empty, space-free words they were joined from. */
  lemma TokensOfJoin(ws: seq<string>)
    requires |ws| >= 1
    requires forall i :: 0 <= i < |ws| ==> ws[i] != [] && ' ' !in ws[i]
    ensures Tokens(Join(ws, ' ')) == ws
  {
    SplitJoin(ws, ' ');
    NonEmptyKeepsAll(ws);
  }

  /** A string is kept exactly when it is one of the pieces and is not empty. */
  lemma {:induction false} NonEmptyMembership(parts: seq<string>, p: string)
    ensures p in NonEmpty(parts) <==> p in parts && p != []
    decreases |parts|
  {
    if parts != [] {
      NonEmptyMembership(parts[1..], p);
      assert parts == [parts[0]] + parts[1..];
    }
  }

  /** Filtering a concatenation filters each part: the kept pieces stay in input order. */
  lemma {:induction false} NonEmptyAppend(a: seq<string>, b: seq<string>)
    ensures NonEmpty(a + b) == NonEmpty(a) + NonEmpty(b)
    decreases |a|
  {
    if a == [] {
      assert a + b == b;
    } else {
      NonEmptyAppend(a[1..], b);
      assert (a + b)[0] == a[0] && (a + b)[1..] == a[1..] + b;
    }
  }

  /** A run of n spaces, as fixed-width columns pad their fields. */
  function Spaces(n: nat): (s: string)
    ensures |s| == n && forall i :: 0 <= i < n ==> s[i] == ' '
  {
    seq(n, _ => ' ')
  }

  /**
   * Words laid out in fixed-width fields: word i followed by gaps[i] spaces,
   * at least one between two words, any number after the last.
   */
  predicate PaddedLayout(ws: seq<string>, gaps: seq<nat>)
  {
    |gaps| == |ws| && forall i :: 0 <= i < |ws| - 1 ==> gaps[i] >= 1
  }

  function PaddedWords(ws: seq<string>, gaps: seq<nat>): string
    requires PaddedLayout(ws, gaps)
    decreases |ws|
  {
    if ws == [] then "" else ws[0] + Spaces(gaps[0]) + PaddedWords(ws[1..], gaps[1..])
  }

  /** Leading spaces produce only empty pieces, which the filter drops. */
  lemma {:induction false} TokensAfterSpaces(n: nat, rest: string)
    ensures Tokens(Spaces(n) + rest) == Tokens(rest)
    decreases n
  {
    if n == 0 {
      assert Spaces(n) + rest == rest;
    } else {
      var tail := Spaces(n - 1) + rest;
      TokensAfterSpaces(n - 1, rest);
      assert Spaces(n) + rest == [] + [' '] + tail;
      SplitPrefix([], tail, ' ');
      var parts := [""] + Split(tail, ' ');
      assert parts[0] == [] && parts[1..] == Split(tail, ' ');
    }
  }

  /** A word followed by a space is the first token; the rest tokenises on its own. */
  lemma TokensAfterWord(w: string, rest: string)
    requires w != [] && ' ' !in w
    ensures Tokens(w + [' '] + rest) == [w] + Tokens(rest)
  {
    SplitPrefix(w, rest, ' ');
  }

  /** The tokens of words in fixed-width fields, after any leading spaces, are exactly those words. */
  lemma TokensOfPadded(lead: nat, ws: seq<string>, gaps: seq<nat>)
    requires PaddedLayout(ws, gaps)
    requires forall i :: 0 <= i < |ws| ==> ws[i] != [] && ' ' !in ws[i]
    ensures Tokens(Spaces(lead) + PaddedWords(ws, gaps)) == ws
  {
    TokensAfterSpaces(lead, PaddedWords(ws, gaps));
    TokensOfPaddedWords(ws, gaps);
  }

  lemma {:induction false} TokensOfPaddedWords(ws: seq<string>, gaps: seq<nat>)
    requires PaddedLayout(ws, gaps)
    requires forall i :: 0 <= i < |ws| ==> ws[i] != [] && ' ' !in ws[i]
    ensures Tokens(PaddedWords(ws, gaps)) == ws
    decreases |ws|
  {
    if ws == [] {
      assert Split("", ' ') == [""];
    } else if gaps[0] == 0 {
      assert PaddedWords(ws, gaps) == ws[0];
      SplitFree(ws[0], ' ');
    } else {
      var w, g := ws[0], gaps[0];
      var tail := PaddedWords(ws[1..], gaps[1..]);
      TokensOfPaddedWords(ws[1..], gaps[1..]);
      TokensAfterSpaces(g - 1, tail);
      PaddedStep(ws, gaps);
      TokensAfterWord(w, Spaces(g - 1) + tail);
    }
  }

  /** A padded word list whose first gap is not empty starts with the first word and a space. */
  lemma PaddedStep(ws: seq<string>, gaps: seq<nat>)
    requires PaddedLayout(ws, gaps) && ws != [] && gaps[0] >= 1
    ensures PaddedWords(ws, gaps) == ws[0] + [' '] + (Spaces(gaps[0] - 1) + PaddedWords(ws[1..], gaps[1..]))
  {
    var w, g, tail := ws[0], gaps[0], PaddedWords(ws[1..], gaps[1..]);
    assert Spaces(g) == [' '] + Spaces(g - 1);
    calc {
      PaddedWords(ws, gaps);
      w + Spaces(g) + tail;
      w + ([' '] + Spaces(g - 1)) + tail;
      w + [' '] + (Spaces(g - 1) + tail);
    }
  }

  /** A character other than the space that no word contains is absent from the padded text. */
  lemma {:induction false} PaddedAvoids(ws: seq<string>, gaps: seq<nat>, c: char)
    requires PaddedLayout(ws, gaps) && c != ' '
    requires forall i :: 0 <= i < |ws| ==> c !in ws[i]
    ensures c !in PaddedWords(ws, gaps)
    decreases |ws|
  {
    if ws != [] {
      PaddedAvoids(ws[1..], gaps[1..], c);
    }
  }

  predicate IsDigit(c: char) { '0' <= c <= '9' }

  predicate AllDigits(s: string) { forall i :: 0 <= i < |s| ==> IsDigit(s[i]) }

  /** The value of a string of decimal digits, most significant first. */
  function DigitsValue(s: string): nat
    requires AllDigits(s)
  {
    if s == [] then 0 else DigitsValue(s[..|s| - 1]) * 10 + (s[|s| - 1] as int - '0' as int)
  }

  /** The tokens `int(...)` accepts here: an optional sign followed by at least one digit. */
  predicate IsIntLiteral(s: string)
  {
    (|s| >= 1 && AllDigits(s)) || (|s| >= 2 && (s[0] == '+' || s[0] == '-') && AllDigits(s[1..]))
  }

  /** Python's `int(s)` on a token: it accepts exactly the integer literals. */
  function ParseInt(s: string): (n: Option<int>)
    ensures n.Some? <==> IsIntLiteral(s)
  {
    if |s| >= 1 && AllDigits(s) then Some(DigitsValue(s))
    else if |s| >= 2 && s[0] == '-' && AllDigits(s[1..]) then Some(0 - DigitsValue(s[1..]) as int)
    else if |s| >= 2 && s[0] == '+' && AllDigits(s[1..]) then Some(DigitsValue(s[1..]))
    else None
  }

  /** Decimal rendering of a natural number, without leading zeros. */
  function NatText(n: nat): (s: string)
    ensures |s| >= 1 && AllDigits(s)
    ensures DigitsValue(s) == n
    decreases n
  {
    var last := ['0' + (n % 10) as char];
    if n < 10 then last
    else
      var s := NatText(n / 10) + last;
      assert s[..|s| - 1] == NatText(n / 10);
      s
  }

  /** Decimal rendering of an integer, as Python's `str`. */
  function IntText(i: int): (s: string)
    ensures i >= 0 ==> |s| >= 1 && AllDigits(s) && DigitsValue(s) == i
    ensures i < 0 ==> |s| >= 2 && s[0] == '-' && AllDigits(s[1..]) && DigitsValue(s[1..]) == -i
  {
    if i < 0 then "-" + NatText(-i) else NatText(i)
  }

  /** Parsing a rendered integer gives it back. */
  lemma ParseIntText(i: int)
    ensures ParseInt(IntText(i)) == Some(i)
  {
    if i < 0 {
      assert IntText(i)[1..] == NatText(-i);
    }
  }

  predicate StartsWith(s: string, prefix: string)
  {
    |prefix| <= |s| && s[..|prefix|] == prefix
  }
}
