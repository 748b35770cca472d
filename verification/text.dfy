/**
 * Python's string primitives that the modelled code relies on: `str(int)`,
 * `int(str)`, `str.split(sep)` for a one-character separator and `str.split()`
 * on whitespace.
 */
module Text {
  import opened Wrappers

  /** Number of occurrences of `c` in `s`. */
  function Count(s: string, c: char): nat
  {
    if s == [] then 0 else (if s[0] == c then 1 else 0) + Count(s[1..], c)
  }

  predicate IsDigit(c: char) { '0' <= c <= '9' }

  function DigitChar(d: nat): char
    requires d < 10
  {
    "0123456789"[d]
  }

  function DigitValue(c: char): nat
    requires IsDigit(c)
  {
    (c as int - '0' as int) as nat
  }

  /** Decimal rendering of a natural number, most significant digit first. */
  function NatToString(n: nat): (r: string)
    ensures |r| > 0
    ensures forall i :: 0 <= i < |r| ==> IsDigit(r[i])
  {
    if n < 10 then [DigitChar(n)] else NatToString(n / 10) + [DigitChar(n % 10)]
  }

  /** Python's `str(n)` for an `int`. */
  function IntToString(n: int): string
  {
    if n < 0 then "-" + NatToString(-n) else NatToString(n)
  }

  /** A word Python's `int()` accepts after its optional sign: decimal digits,
      single underscores allowed between two digits. */
  predicate DigitRun(s: string)
  {
    && |s| > 0
    && IsDigit(s[0])
    && IsDigit(s[|s| - 1])
    && (forall i :: 0 <= i < |s| ==> IsDigit(s[i]) || s[i] == '_')
    && (forall i :: 0 <= i < |s| - 1 ==> s[i] == '_' ==> s[i + 1] != '_')
  }

  /** Value of a digit run, skipping underscores. */
  function RunValue(s: string): nat
    requires forall i :: 0 <= i < |s| ==> IsDigit(s[i]) || s[i] == '_'
  {
    if s == [] then 0
    else if s[|s| - 1] == '_' then RunValue(s[..|s| - 1])
    else RunValue(s[..|s| - 1]) * 10 + DigitValue(s[|s| - 1])
  }

  /** Python's `int(word)` on a word without surrounding whitespace; `None`
      where Python raises `ValueError`. */
  function ParseInt(w: string): (r: Option<int>)
    ensures r.Some? <==> (DigitRun(w) || (|w| > 0 && w[0] in "+-" && DigitRun(w[1..])))
  {
    if |w| > 0 && w[0] == '-' && DigitRun(w[1..]) then Some(-(RunValue(w[1..]) as int))
    else if |w| > 0 && w[0] == '+' && DigitRun(w[1..]) then Some(RunValue(w[1..]))
    else if DigitRun(w) then Some(RunValue(w))
    else None
  }

  lemma {:induction false} NatRunValue(n: nat)
    ensures RunValue(NatToString(n)) == n
    decreases n
  {
    var s := NatToString(n);
    if n >= 10 {
      NatRunValue(n / 10);
      assert s[..|s| - 1] == NatToString(n / 10);
      assert DigitValue(DigitChar(n % 10)) == n % 10;
    } else {
      assert s[..|s| - 1] == [];
      assert DigitValue(DigitChar(n)) == n;
    }
  }

  lemma NatDigitRun(n: nat)
    ensures DigitRun(NatToString(n))
  {
    var s := NatToString(n);
    assert forall i :: 0 <= i < |s| ==> IsDigit(s[i]);
  }

  /** `int(str(n)) == n`: the rendering used by the text formats reads back. */
  lemma IntStringRoundTrip(n: int)
    ensures ParseInt(IntToString(n)) == Some(n)
  {
    var w := IntToString(n);
    if n < 0 {
      var digits := NatToString(-n);
      NatRunValue(-n);
      NatDigitRun(-n);
      assert w[0] == '-' && w[1..] == digits;
      assert ParseInt(w) == Some(-(RunValue(digits) as int));
    } else {
      NatRunValue(n);
      NatDigitRun(n);
      assert IsDigit(w[0]);
      assert w[0] != '-' && w[0] != '+';
      assert ParseInt(w) == Some(RunValue(w) as int);
    }
  }

  lemma NoNewlineInInt(n: int)
    ensures '\n' !in IntToString(n)
  {
  }

  /** Joins pieces with the separator between them: the inverse of `SplitOn`. */
  function Join(pieces: seq<string>, c: char): string
    requires |pieces| > 0
  {
    if |pieces| == 1 then pieces[0] else pieces[0] + [c] + Join(pieces[1..], c)
  }

  /** Python's `s.split(c)` for a one-character separator. */
  function SplitOn(s: string, c: char): (r: seq<string>)
    ensures |r| == Count(s, c) + 1
    ensures forall i :: 0 <= i < |r| ==> c !in r[i]
    ensures Join(r, c) == s
  {
    if s == [] then [""]
    else
      var rest := SplitOn(s[1..], c);
      if s[0] == c then [""] + rest
      else
        assert s == [s[0]] + s[1..];
        [[s[0]] + rest[0]] + rest[1..]
  }

  /** The characters Python's `str.isspace()` accepts below U+0080. */
  predicate IsSpace(c: char)
  {
    c == ' ' || '\t' <= c <= '\r' || '\U{1c}' <= c <= '\U{1f}'
  }

  /** The longest prefix of `s` without whitespace. */
  function TakeWord(s: string): (w: string)
    ensures |w| <= |s| && w == s[..|w|]
    ensures forall i :: 0 <= i < |w| ==> !IsSpace(w[i])
    ensures |w| < |s| ==> IsSpace(s[|w|])
  {
    if s == [] || IsSpace(s[0]) then [] else [s[0]] + TakeWord(s[1..])
  }

  /** Python's `s.split()`: the maximal runs of non-whitespace, in order. */
  function Words(s: string): (r: seq<string>)
    ensures forall i :: 0 <= i < |r| ==> |r[i]| > 0 && forall j :: 0 <= j < |r[i]| ==> !IsSpace(r[i][j])
    ensures r == [] <==> forall i :: 0 <= i < |s| ==> IsSpace(s[i])
    decreases |s|
  {
    if s == [] then []
    else if IsSpace(s[0]) then Words(s[1..])
    else
      var w := TakeWord(s);
      assert w[0] == s[0];
      [w] + Words(s[|w|..])
  }

  /** Lines joined, each followed by a newline. */
  function Unlines(ls: seq<string>): string
  {
    if ls == [] then "" else ls[0] + "\n" + Unlines(ls[1..])
  }

  lemma {:induction false} SplitAfterLine(a: string, b: string)
    requires '\n' !in a
    ensures SplitOn(a + "\n" + b, '\n') == [a] + SplitOn(b, '\n')
    decreases |a|
  {
    if a != [] {
      SplitAfterLine(a[1..], b);
      assert (a + "\n" + b)[1..] == a[1..] + "\n" + b;
      assert [a[0]] + a[1..] == a;
    } else {
      assert (a + "\n" + b)[1..] == b;
    }
  }

  lemma {:induction false} SplitUnlines(ls: seq<string>)
    requires forall i :: 0 <= i < |ls| ==> '\n' !in ls[i]
    ensures SplitOn(Unlines(ls), '\n') == ls + [""]
  {
    if ls != [] {
      SplitUnlines(ls[1..]);
      SplitAfterLine(ls[0], Unlines(ls[1..]));
      assert ls == [ls[0]] + ls[1..];
    }
  }

}
