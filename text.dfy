/** Text building blocks the dashboard formatters rely on: Python's `str(int)`,
    `c * n`, `' '.join(...)` and `str.split()`, together with the readers that
    undo them. */
module Text {

  predicate IsDigit(c: char) {
    '0' <= c <= '9'
  }

  predicate AllDigits(s: string) {
    forall k | 0 <= k < |s| :: IsDigit(s[k])
  }

  /** The character that shows one decimal digit. */
  function DigitChar(d: nat): (c: char)
    requires d < 10
    ensures IsDigit(c)
    ensures c as int - '0' as int == d
  {
    (d + '0' as int) as char
  }

  /** Python's `str(n)` for a non-negative integer: its decimal digits,
      without leading zeros. */
  function NatToString(n: nat): (s: string)
    ensures |s| >= 1 && AllDigits(s)
    ensures s[0] == '0' ==> n == 0
  {
    if n < 10 then [DigitChar(n)] else NatToString(n / 10) + [DigitChar(n % 10)]
  }

  /** Python's `str(i)` for any integer: a minus sign in front of negatives. */
  function IntToString(i: int): (s: string)
    ensures i >= 0 ==> s == NatToString(i)
    ensures i < 0 ==> s == "-" + NatToString(-i)
  {
    if i < 0 then "-" + NatToString(-i) else NatToString(i)
  }

  /** The number a string of decimal digits denotes. */
  function ParseNat(s: string): nat
    requires AllDigits(s)
  {
    if s == [] then 0 else ParseNat(s[..|s| - 1]) * 10 + (s[|s| - 1] as int - '0' as int)
  }

  /** Reading back what `NatToString` writes gives the number written: the
      decimal rendering loses nothing. */
  lemma {:induction false} ParseNatToString(n: nat)
    ensures ParseNat(NatToString(n)) == n
  {
    var s := NatToString(n);
    if n >= 10 {
      assert s[..|s| - 1] == NatToString(n / 10);
      ParseNatToString(n / 10);
    }
  }

  /** Two numbers with the same rendering are the same number. */
  lemma NatToStringInjective(a: nat, b: nat)
    requires NatToString(a) == NatToString(b)
    ensures a == b
  {
    ParseNatToString(a);
    ParseNatToString(b);
  }

  /** Python's `c * n`: `n` copies of `c`, and nothing when `n` is not positive. */
  function Repeat(c: char, n: int): (s: string)
    ensures |s| == (if n > 0 then n else 0)
    ensures forall k | 0 <= k < |s| :: s[k] == c
  {
    if n <= 0 then "" else Repeat(c, n - 1) + [c]
  }

  /** The strings of `ss`, one after the other. */
  function Concat(ss: seq<string>): string {
    if ss == [] then "" else Concat(ss[..|ss| - 1]) + ss[|ss| - 1]
  }

  lemma {:induction false} ConcatAppend(a: seq<string>, b: seq<string>)
    ensures Concat(a + b) == Concat(a) + Concat(b)
    decreases |b|
  {
    if b == [] {
      assert a + b == a;
    } else {
      var b' := b[..|b| - 1];
      assert (a + b)[..|a + b| - 1] == a + b';
      ConcatAppend(a, b');
    }
  }

  /** Python's `sep.join(ss)`. */
  function Join(sep: string, ss: seq<string>): string {
    if ss == [] then ""
    else if |ss| == 1 then ss[0]
    else ss[0] + sep + Join(sep, ss[1..])
  }

  /** Whether `k` occurs in `codes`. */
  predicate Among(k: int, codes: seq<int>) {
    codes != [] && (codes[0] == k || Among(k, codes[1..]))
  }

  /** The characters Python's `str.split()` treats as separators (those for
      which `str.isspace()` holds), by code point: the space, the control
      characters 0x09-0x0D and 0x1C-0x1F, and the Unicode spaces and line
      separators beyond ASCII. */
  predicate IsSpace(c: char) {
    var k := c as int;
    || k == 0x20
    || (k < 0x20 && Among(k, [0x09, 0x0A, 0x0B, 0x0C, 0x0D, 0x1C, 0x1D, 0x1E, 0x1F]))
    || (k > 0x7E && Among(k,
          [0x85, 0xA0, 0x1680, 0x2000, 0x2001, 0x2002, 0x2003, 0x2004, 0x2005, 0x2006,
           0x2007, 0x2008, 0x2009, 0x200A, 0x2028, 0x2029, 0x202F, 0x205F, 0x3000]))
  }

  /** A non-empty run of visible ASCII characters (letters, digits,
      punctuation) is a token. */
  lemma VisibleAsciiIsWord(w: string)
    requires w != [] && forall k | 0 <= k < |w| :: 0x21 <= w[k] as int <= 0x7E
    ensures IsWord(w)
  {
  }

  /** A token `str.split()` can produce: non-empty and free of whitespace. */
  predicate IsWord(w: string) {
    w != [] && forall k | 0 <= k < |w| :: !IsSpace(w[k])
  }

  predicate AllWords(ws: seq<string>) {
    forall k | 0 <= k < |ws| :: IsWord(ws[k])
  }

  /** `s` without its leading whitespace. */
  function SkipSpace(s: string): (r: string)
    ensures |r| <= |s| && r == s[|s| - |r|..]
    ensures r == [] || !IsSpace(r[0])
  {
    if s != [] && IsSpace(s[0]) then SkipSpace(s[1..]) else s
  }

  /** The length of the longest whitespace-free prefix of `s`. */
  function WordLength(s: string): (n: nat)
    ensures n <= |s|
    ensures forall k | 0 <= k < n :: !IsSpace(s[k])
    ensures n < |s| ==> IsSpace(s[n])
  {
    if s != [] && !IsSpace(s[0]) then 1 + WordLength(s[1..]) else 0
  }

  /** Python's `s.split()` with no separator: the maximal runs of
      non-whitespace characters, in order. */
  function Split(s: string): (ws: seq<string>)
    ensures AllWords(ws)
    decreases |s|
  {
    var t := SkipSpace(s);
    if t == [] then []
    else
      var n := WordLength(t);
      FirstWord(t);
      PrependWord(t[..n], Split(t[n..]));
      [t[..n]] + Split(t[n..])
  }

  lemma FirstWord(t: string)
    requires t != [] && !IsSpace(t[0])
    ensures WordLength(t) >= 1 && IsWord(t[..WordLength(t)])
  {
  }

  lemma PrependWord(w: string, ws: seq<string>)
    requires IsWord(w)
    requires AllWords(ws)
    ensures AllWords([w] + ws)
  {
  }

  lemma {:induction false} WordLengthOfWord(w: string, rest: string)
    requires forall k | 0 <= k < |w| :: !IsSpace(w[k])
    requires rest == [] || IsSpace(rest[0])
    ensures WordLength(w + rest) == |w|
    decreases |w|
  {
    if w != [] {
      assert (w + rest)[1..] == w[1..] + rest;
      WordLengthOfWord(w[1..], rest);
    }
  }

  /** A word followed by whitespace (or by nothing) splits off as the first token. */
  lemma SplitLeadingWord(w: string, rest: string)
    requires IsWord(w)
    requires rest == [] || IsSpace(rest[0])
    ensures Split(w + rest) == [w] + Split(rest)
  {
    var s := w + rest;
    assert SkipSpace(s) == s;
    WordLengthOfWord(w, rest);
    assert s[..|w|] == w;
    assert s[|w|..] == rest;
  }

  lemma SplitLeadingSpace(x: string)
    ensures Split(" " + x) == Split(x)
  {
    assert IsSpace(' ');
    assert (" " + x)[1..] == x;
  }

  /** Splitting what `' '.join` produced from words gives the words back. */
  lemma {:induction false} SplitJoin(ws: seq<string>)
    requires AllWords(ws)
    ensures Split(Join(" ", ws)) == ws
  {
    if |ws| == 1 {
      assert Join(" ", ws) == ws[0] + "";
      SplitLeadingWord(ws[0], "");
    } else if |ws| > 1 {
      var tail := Join(" ", ws[1..]);
      assert AllWords(ws[1..]);
      calc {
        Split(Join(" ", ws));
        { assert Join(" ", ws) == ws[0] + (" " + tail); }
        Split(ws[0] + (" " + tail));
        { SplitLeadingWord(ws[0], " " + tail); }
        [ws[0]] + Split(" " + tail);
        { SplitLeadingSpace(tail); }
        [ws[0]] + Split(tail);
        { SplitJoin(ws[1..]); }
        [ws[0]] + ws[1..];
      }
      assert [ws[0]] + ws[1..] == ws;
    }
  }
}
