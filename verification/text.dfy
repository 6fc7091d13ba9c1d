/** The three pieces of Python's `str` the maze reader relies on: `strip()`,
    `split()` with no separator, and `int()` on one token. */
module Text {
  import opened Wrappers

  /** `str.isspace` for one character: the characters `strip()` and
      `split()` treat as whitespace. */
  predicate IsSpace(c: char) {
    || ('\U{9}' <= c <= '\U{d}')
    || ('\U{1c}' <= c <= '\U{20}')
    || c == '\U{85}' || c == '\U{a0}' || c == '\U{1680}'
    || ('\U{2000}' <= c <= '\U{200a}')
    || c == '\U{2028}' || c == '\U{2029}' || c == '\U{202f}'
    || c == '\U{205f}' || c == '\U{3000}'
  }

  predicate NoSpace(s: string) {
    forall i :: 0 <= i < |s| ==> !IsSpace(s[i])
  }

  // ---------------------------------------------------------------------
  // strip()

  /** Drop the leading whitespace. */
  function StripLeft(s: string): (r: string)
    ensures |r| <= |s| && r == s[|s| - |r|..]
    ensures r == [] || !IsSpace(r[0])
  {
    if s != [] && IsSpace(s[0]) then StripLeft(s[1..]) else s
  }

  /** Drop the trailing whitespace. */
  function StripRight(s: string): (r: string)
    ensures |r| <= |s| && r == s[..|r|]
    ensures r == [] || !IsSpace(r[|r| - 1])
  {
    if s != [] && IsSpace(s[|s| - 1]) then StripRight(s[..|s| - 1]) else s
  }

  /** Everything `StripLeft` drops is whitespace. */
  lemma {:induction false} StripLeftDropsSpace(s: string)
    ensures forall i :: 0 <= i < |s| - |StripLeft(s)| ==> IsSpace(s[i])
  {
    if s != [] && IsSpace(s[0]) {
      StripLeftDropsSpace(s[1..]);
    }
  }

  /** Everything `StripRight` drops is whitespace. */
  lemma {:induction false} StripRightDropsSpace(s: string)
    ensures forall i :: |StripRight(s)| <= i < |s| ==> IsSpace(s[i])
  {
    if s != [] && IsSpace(s[|s| - 1]) {
      StripRightDropsSpace(s[..|s| - 1]);
    }
  }

  /** How much leading whitespace `strip()` removes. */
  function Lead(s: string): nat {
    |s| - |StripLeft(s)|
  }

  /** `str.strip()`: the slice of s left once the whitespace at both ends is
      gone; it neither starts nor ends with whitespace (`StripDropsSpace`
      shows that everything around it is whitespace). */
  function Strip(s: string): (r: string)
    ensures Lead(s) + |r| <= |s| && r == s[Lead(s)..Lead(s) + |r|]
    ensures r == [] || (!IsSpace(r[0]) && !IsSpace(r[|r| - 1]))
  {
    var l := StripLeft(s);
    var r := StripRight(l);
    assert r == [] || r[0] == l[0];
    r
  }

  /** What `strip()` removes at either end is whitespace. */
  lemma StripDropsSpace(s: string)
    ensures forall i :: 0 <= i < Lead(s) ==> IsSpace(s[i])
    ensures forall i :: Lead(s) + |Strip(s)| <= i < |s| ==> IsSpace(s[i])
  {
    var l := StripLeft(s);
    var a := Lead(s);
    StripLeftDropsSpace(s);
    StripRightDropsSpace(l);
    forall i | a + |Strip(s)| <= i < |s| ensures IsSpace(s[i]) {
      assert s[i] == l[i - a];
    }
  }

  /** A line `strip()` empties is whitespace throughout. */
  lemma StripEmpty(s: string)
    ensures Strip(s) == [] <==> forall i :: 0 <= i < |s| ==> IsSpace(s[i])
  {
    StripDropsSpace(s);
    if Strip(s) != [] {
      assert !IsSpace(s[Lead(s)]);
    }
  }

  // ---------------------------------------------------------------------
  // split()

  /** Length of the run of non-space characters s starts with. */
  function WordLength(s: string): (n: nat)
    ensures n <= |s| && NoSpace(s[..n])
    ensures n == |s| || IsSpace(s[n])
  {
    if s == [] || IsSpace(s[0]) then 0
    else
      var n := 1 + WordLength(s[1..]);
      assert s[..n] == [s[0]] + s[1..][..n - 1];
      n
  }

  /** Every entry is a nonempty run of non-space characters. */
  predicate Words(ws: seq<string>) {
    forall k :: 0 <= k < |ws| ==> ws[k] != [] && NoSpace(ws[k])
  }

  lemma ConsWords(w: string, ws: seq<string>)
    requires w != [] && NoSpace(w) && Words(ws)
    ensures Words([w] + ws)
  {
    forall k | 0 <= k < |[w] + ws| ensures ([w] + ws)[k] != [] && NoSpace(([w] + ws)[k]) {
      if k > 0 {
        assert ([w] + ws)[k] == ws[k - 1];
      }
    }
  }

  /** `str.split()`: the maximal runs of non-space characters, in order. */
  function Split(s: string): (ws: seq<string>)
    decreases |s|
  {
    var t := StripLeft(s);
    if t == [] then []
    else
      var n := WordLength(t);
      [t[..n]] + Split(t[n..])
  }

  /** Every piece `split()` returns is a nonempty run of non-space
      characters. */
  lemma {:induction false} SplitWords(s: string)
    ensures Words(Split(s))
    decreases |s|
  {
    var t := StripLeft(s);
    if t != [] {
      var n := WordLength(t);
      SplitWords(t[n..]);
      ConsWords(t[..n], Split(t[n..]));
    }
  }

  /** The words joined back with single spaces, the inverse of `Split`. */
  function Unwords(ws: seq<string>): string {
    if ws == [] then []
    else if |ws| == 1 then ws[0]
    else ws[0] + " " + Unwords(ws[1..])
  }

  lemma {:induction false} WordLengthOfWord(w: string, rest: string)
    requires NoSpace(w) && (rest == [] || IsSpace(rest[0]))
    ensures WordLength(w + rest) == |w|
  {
    if w != [] {
      assert (w + rest)[1..] == w[1..] + rest;
      WordLengthOfWord(w[1..], rest);
    }
  }

  lemma {:induction false} StripLeftNoSpace(s: string)
    requires s == [] || !IsSpace(s[0])
    ensures StripLeft(s) == s
  {
  }

  /** A word followed by whitespace or nothing is split off whole. */
  lemma SplitLeadingWord(w: string, rest: string)
    requires w != [] && NoSpace(w) && (rest == [] || IsSpace(rest[0]))
    ensures Split(w + rest) == [w] + Split(rest)
  {
    var s := w + rest;
    StripLeftNoSpace(s);
    WordLengthOfWord(w, rest);
    assert s[..|w|] == w;
    assert s[|w|..] == rest;
    if rest != [] {
      assert StripLeft(rest) == StripLeft(rest[1..]);
    }
  }

  lemma SplitLeadingSpace(rest: string)
    ensures Split(" " + rest) == Split(rest)
  {
    assert (" " + rest)[1..] == rest;
  }

  lemma SplitOneWord(w: string)
    requires w != [] && NoSpace(w)
    ensures Split(w) == [w]
  {
    SplitLeadingWord(w, []);
    assert w + [] == w;
  }

  lemma UnwordsCons(ws: seq<string>)
    requires |ws| >= 2
    ensures Unwords(ws) == ws[0] + (" " + Unwords(ws[1..]))
  {
  }

  lemma WordsTail(ws: seq<string>)
    requires ws != [] && Words(ws)
    ensures Words(ws[1..])
  {
    forall k | 0 <= k < |ws| - 1 ensures ws[1..][k] != [] && NoSpace(ws[1..][k]) {
      assert ws[1..][k] == ws[k + 1];
    }
  }

  /** A word, a space and then anything: the word comes off whole and the
      space is skipped. */
  lemma SplitWordThenRest(w: string, rest: string)
    requires w != [] && NoSpace(w)
    ensures Split(w + (" " + rest)) == [w] + Split(rest)
  {
    SplitLeadingWord(w, " " + rest);
    SplitLeadingSpace(rest);
  }

  /** Splitting words that were joined with single spaces gives the words
      back. */
  lemma {:induction false} SplitUnwords(ws: seq<string>)
    requires Words(ws)
    ensures Split(Unwords(ws)) == ws
  {
    if ws == [] {
    } else if |ws| == 1 {
      SplitOneWord(ws[0]);
      assert ws == [ws[0]];
    } else {
      assert ws == [ws[0]] + ws[1..];
      assert ws[0] != [] && NoSpace(ws[0]);
      WordsTail(ws);
      SplitUnwords(ws[1..]);
      UnwordsCons(ws);
      SplitWordThenRest(ws[0], Unwords(ws[1..]));
    }
  }

  // ---------------------------------------------------------------------
  // int()

  predicate IsDigit(c: char) {
    '0' <= c <= '9'
  }

  /** Python's decimal literal as `int()` accepts it: digits, with single
      underscores allowed between two digits. */
  predicate DecimalLiteral(d: string) {
    && d != []
    && IsDigit(d[0]) && IsDigit(d[|d| - 1])
    && (forall i :: 0 <= i < |d| ==> IsDigit(d[i]) || d[i] == '_')
    && (forall i :: 0 <= i < |d| - 1 ==> !(d[i] == '_' && d[i + 1] == '_'))
  }

  /** The value of a string of digits and underscores, underscores ignored. */
  function DigitsValue(d: string): nat {
    if d == [] then 0
    else if d[|d| - 1] == '_' then DigitsValue(d[..|d| - 1])
    else DigitsValue(d[..|d| - 1]) * 10 + DigitOf(d[|d| - 1])
  }

  function DigitOf(c: char): nat {
    if IsDigit(c) then c as int - '0' as int else 0
  }

  /** `int(token)` on ASCII text: an optional sign and a decimal literal, or
      a ValueError (None). */
  function ParseInt(t: string): (r: Option<int>)
    ensures r.Some? <==> DecimalLiteral(t) || (t != [] && (t[0] == '+' || t[0] == '-') && DecimalLiteral(t[1..]))
    ensures r.Some? ==> t != [] && (IsDigit(t[0]) || t[0] == '+' || t[0] == '-')
    ensures r.Some? && IsDigit(t[0]) ==> r.value == DigitsValue(t)
    ensures r.Some? && t[0] == '+' ==> r.value == DigitsValue(t[1..])
    ensures r.Some? && t[0] == '-' ==> r.value == -(DigitsValue(t[1..]) as int)
    ensures r.Some? && t[0] == '-' ==> r.value <= 0
    ensures r.Some? && t[0] != '-' ==> r.value >= 0
  {
    if t != [] && (t[0] == '+' || t[0] == '-') then
      if DecimalLiteral(t[1..]) then
        var v: int := DigitsValue(t[1..]);
        Some(if t[0] == '-' then -v else v)
      else None
    else if DecimalLiteral(t) then Some(DigitsValue(t))
    else None
  }

  function Digit(n: nat): (c: char)
    requires n < 10
    ensures IsDigit(c) && DigitOf(c) == n
  {
    ('0' as int + n) as char
  }

  /** Decimal digits of n, most significant first. */
  function ShowNat(n: nat): (d: string)
    ensures d != [] && forall i :: 0 <= i < |d| ==> IsDigit(d[i])
  {
    if n < 10 then [Digit(n)] else ShowNat(n / 10) + [Digit(n % 10)]
  }

  /** How Python writes an integer: a minus sign for negatives. */
  function ShowInt(n: int): string {
    if n < 0 then "-" + ShowNat(-n) else ShowNat(n)
  }

  lemma {:induction false} DigitsValueShowNat(n: nat)
    ensures DigitsValue(ShowNat(n)) == n
  {
    var d := ShowNat(n);
    if n >= 10 {
      assert d[..|d| - 1] == ShowNat(n / 10);
      DigitsValueShowNat(n / 10);
    }
  }

  /** `int` reads back what Python prints for an integer. */
  lemma ParseShowInt(n: int)
    ensures ParseInt(ShowInt(n)) == Some(n)
  {
    var v: nat := if n < 0 then -n else n;
    var d := ShowNat(v);
    assert DecimalLiteral(d);
    DigitsValueShowNat(v);
    if n < 0 {
      var t := "-" + d;
      assert t[0] == '-' && t[1..] == d;
    } else {
      assert IsDigit(d[0]);
    }
  }
}
