/** Text helpers the shells share: `str::split_whitespace`, `join`, and
    the decimal digit loops that print numbers (userspace/src/shell.rs
    `cmd_ps`/`cmd_date`, kernel/src/main.rs). */
module Text {
  import opened Common

  /** `char::is_whitespace`: the Unicode White_Space characters. */
  predicate IsSpace(c: char)
  {
    var k := c as int;
    (9 <= k <= 13) || k == 0x20 || k == 0x85 || k == 0xA0 || k == 0x1680
    || (0x2000 <= k <= 0x200A) || k == 0x2028 || k == 0x2029 || k == 0x202F
    || k == 0x205F || k == 0x3000
  }

  predicate NoSpace(s: string)
  {
    forall k :: 0 <= k < |s| ==> !IsSpace(s[k])
  }

  /** A word as `split_whitespace` yields it: not empty, no whitespace. */
  predicate IsWord(s: string)
  {
    s != [] && NoSpace(s)
  }

  predicate AllWords(ws: seq<string>)
  {
    forall k :: 0 <= k < |ws| ==> IsWord(ws[k])
  }

  /** The longest prefix without whitespace. */
  function Token(s: string): (t: string)
    ensures |t| <= |s| && t == s[..|t|] && NoSpace(t)
    ensures |t| < |s| ==> IsSpace(s[|t|])
  {
    if s == [] || IsSpace(s[0]) then []
    else
      var t := Token(s[1..]);
      assert s[1..][..|t|] == s[1..|t| + 1];
      [s[0]] + t
  }

  /** `s.split_whitespace()`: the maximal runs of non-whitespace, in order. */
  function Words(s: string): (ws: seq<string>)
    ensures AllWords(ws)
    decreases |s|
  {
    if s == [] then []
    else if IsSpace(s[0]) then Words(s[1..])
    else
      var t := Token(s);
      [t] + Words(s[|t|..])
  }

  /** `ws.join(sep)`. */
  function JoinWith(sep: string, ws: seq<string>): string
  {
    if ws == [] then ""
    else if |ws| == 1 then ws[0]
    else ws[0] + sep + JoinWith(sep, ws[1..])
  }

  /** Whitespace before the text does not change its words. */
  lemma {:induction false} WordsSkipSpaces(pad: string, s: string)
    requires forall k :: 0 <= k < |pad| ==> IsSpace(pad[k])
    ensures Words(pad + s) == Words(s)
    decreases |pad|
  {
    if pad != [] {
      assert (pad + s)[0] == pad[0];
      assert (pad + s)[1..] == pad[1..] + s;
      assert IsSpace(pad[0]);
      assert Words(pad + s) == Words(pad[1..] + s);
      WordsSkipSpaces(pad[1..], s);
    } else {
      assert pad + s == s;
    }
  }

  /** A word followed by whitespace (or by nothing) is split off whole. */
  lemma {:induction false} TokenOfWord(t: string, rest: string)
    requires NoSpace(t) && (rest != [] ==> IsSpace(rest[0]))
    ensures Token(t + rest) == t
    decreases |t|
  {
    if t != [] {
      assert (t + rest)[1..] == t[1..] + rest;
      TokenOfWord(t[1..], rest);
    } else {
      assert t + rest == rest;
    }
  }

  /** A word followed by whitespace (or by nothing) is the first word. */
  lemma WordsOfWordThen(t: string, rest: string)
    requires IsWord(t) && (rest != [] ==> IsSpace(rest[0]))
    ensures Words(t + rest) == [t] + Words(rest)
  {
    TokenOfWord(t, rest);
    assert (t + rest)[0] == t[0];
    assert (t + rest)[|t|..] == rest;
  }

  /** Splitting words joined by single spaces gives the words back. */
  lemma {:induction false} WordsOfJoin(ws: seq<string>)
    requires AllWords(ws)
    ensures Words(JoinWith(" ", ws)) == ws
  {
    if |ws| == 1 {
      WordsOfWordThen(ws[0], []);
      assert ws[0] + [] == ws[0];
    } else if |ws| > 1 {
      var tail := JoinWith(" ", ws[1..]);
      assert JoinWith(" ", ws) == ws[0] + (" " + tail);
      WordsOfWordThen(ws[0], " " + tail);
      WordsSkipSpaces(" ", tail);
      WordsOfJoin(ws[1..]);
      assert ws == [ws[0]] + ws[1..];
    }
  }

  /** A line of whitespace only has no words. */
  lemma BlankHasNoWords(s: string)
    requires forall k :: 0 <= k < |s| ==> IsSpace(s[k])
    ensures Words(s) == []
  {
    WordsSkipSpaces(s, []);
    assert s + [] == s;
  }

  // ---------------------------------------------------------------------
  // Decimal numbers

  predicate IsDigit(c: char) { '0' <= c <= '9' }

  predicate AllDigits(s: string)
  {
    forall k :: 0 <= k < |s| ==> IsDigit(s[k])
  }

  function DigitChar(d: nat): (c: char)
    requires d < 10
    ensures IsDigit(c) && c as int - '0' as int == d
  {
    ('0' as int + d) as char
  }

  /** The number a string of digits spells. */
  function Value(s: string): nat
    requires AllDigits(s)
  {
    if s == [] then 0 else 10 * Value(s[..|s| - 1]) + (s[|s| - 1] as int - '0' as int)
  }

  /** The shortest decimal spelling of `n`: digits, most significant first,
      with no leading zero ("0" for zero). */
  function Decimal(n: nat): (s: string)
    ensures 1 <= |s| && AllDigits(s)
    ensures s[0] == '0' <==> n == 0
    ensures n < 10 <==> |s| == 1
  {
    if n < 10 then [DigitChar(n)] else Decimal(n / 10) + [DigitChar(n % 10)]
  }

  /** `Decimal` spells its number. */
  lemma {:induction false} DecimalValue(n: nat)
    ensures Value(Decimal(n)) == n
  {
    if n >= 10 {
      DecimalValue(n / 10);
      var s := Decimal(n);
      assert s[..|s| - 1] == Decimal(n / 10);
    }
  }

  /** And every digit string without a leading zero is the `Decimal` of
      its value. */
  lemma {:induction false} ValueDecimal(s: string)
    requires 1 <= |s| && AllDigits(s) && (s[0] == '0' ==> s == "0")
    ensures Decimal(Value(s)) == s
  {
    if |s| > 1 {
      var p := s[..|s| - 1];
      assert p[0] == s[0];
      ValueDecimal(p);
      assert Value(p) >= 1;
      var d := s[|s| - 1] as int - '0' as int;
      assert Value(s) / 10 == Value(p) && Value(s) % 10 == d;
      assert DigitChar(d) == s[|s| - 1];
      assert s == p + [s[|s| - 1]];
    } else {
      var d := s[0] as int - '0' as int;
      assert s[..0] == [];
      assert DigitChar(d) == s[0];
    }
  }

  /** The digit loop of `cmd_ps`, `cmd_date` and the boot banner: the digits
      come out least significant first into a buffer, which is then
      written back to front; zero is printed as "0" by a separate branch. */
  method PrintDecimal(n: nat) returns (out: string)
    ensures out == Decimal(n)
  {
    if n == 0 {
      return "0";
    }
    var d := Decimal(n);
    var buf: string := [];
    var m: nat := n;
    while m > 0
      invariant m > 0 ==> |Decimal(m)| + |buf| == |d| && d[..|Decimal(m)|] == Decimal(m)
      invariant m == 0 ==> |buf| == |d|
      invariant |buf| <= |d|
      invariant forall k :: 0 <= k < |buf| ==> buf[k] == d[|d| - 1 - k]
    {
      var p := Decimal(m);
      if m >= 10 {
        assert p == Decimal(m / 10) + [DigitChar(m % 10)];
        assert d[..|Decimal(m / 10)|] == p[..|Decimal(m / 10)|];
      }
      assert d[|p| - 1] == p[|p| - 1] == DigitChar(m % 10);
      buf := buf + [DigitChar(m % 10)];
      m := m / 10;
    }
    out := [];
    while |out| < |buf|
      invariant |buf| == |d|
      invariant forall k :: 0 <= k < |buf| ==> buf[k] == d[|d| - 1 - k]
      invariant |out| <= |buf| && out == d[..|out|]
    {
      out := out + [buf[|buf| - 1 - |out|]];
    }
  }
}
