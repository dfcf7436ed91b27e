/** The pieces of Go's `strings` and `strconv` packages that the loader relies
    on: `unicode.IsSpace`, `strings.Fields`, `strings.Cut`, `strings.Trim` with
    a one-character cut set, `strings.HasPrefix` with the block separator, and
    a small decimal grammar standing in for `strconv.ParseFloat`. */
module Text {
  import opened Results

  /** Go's `unicode.IsSpace`: the Latin-1 spaces plus the Unicode White_Space
      code points above U+00FF. */
  predicate IsSpace(c: char) {
    || ('\t' <= c <= '\r')
    || c == ' '
    || c == '\U{0085}'
    || c == '\U{00A0}'
    || c == '\U{1680}'
    || ('\U{2000}' <= c <= '\U{200A}')
    || c == '\U{2028}'
    || c == '\U{2029}'
    || c == '\U{202F}'
    || c == '\U{205F}'
    || c == '\U{3000}'
  }

  predicate Blank(s: string) {
    forall k :: 0 <= k < |s| ==> IsSpace(s[k])
  }

  predicate NoSpace(s: string) {
    forall k :: 0 <= k < |s| ==> !IsSpace(s[k])
  }

  /** Length of the run of non-space characters that starts `s`. */
  function WordLength(s: string): (n: nat)
    ensures n <= |s|
    ensures n < |s| ==> IsSpace(s[n])
  {
    if s == [] || IsSpace(s[0]) then 0 else WordLength(s[1..]) + 1
  }

  /** The run WordLength measures holds no space. */
  lemma {:induction false} WordHasNoSpace(s: string)
    ensures NoSpace(s[..WordLength(s)])
    decreases |s|
  {
    if s != [] && !IsSpace(s[0]) {
      WordHasNoSpace(s[1..]);
      assert s[..WordLength(s)] == [s[0]] + s[1..][..WordLength(s[1..])];
    }
  }

  /** `strings.Fields`: the maximal runs of non-space characters of `s`, in
      order. */
  function Fields(s: string): seq<string>
    decreases |s|
  {
    if s == [] then []
    else if IsSpace(s[0]) then Fields(s[1..])
    else
      var n := WordLength(s);
      [s[..n]] + Fields(s[n..])
  }

  /** Every field is a non-empty run without spaces, and there are none
      exactly when `s` is blank. */
  lemma {:induction false} FieldsAreWords(s: string)
    ensures forall k :: 0 <= k < |Fields(s)| ==> Fields(s)[k] != [] && NoSpace(Fields(s)[k])
    ensures Fields(s) == [] <==> Blank(s)
    decreases |s|
  {
    if s == [] {
    } else if IsSpace(s[0]) {
      FieldsAreWords(s[1..]);
      assert Blank(s) <==> Blank(s[1..]) by {
        if Blank(s[1..]) {
          forall k | 0 <= k < |s|
            ensures IsSpace(s[k])
          {
            if k > 0 {
              assert s[k] == s[1..][k - 1];
            }
          }
        }
      }
    } else {
      var n := WordLength(s);
      FieldsAreWords(s[n..]);
      WordHasNoSpace(s);
      assert !Blank(s);
    }
  }

  /** Index of the first `c` in `s`, or `|s|` when there is none. */
  function IndexOf(s: string, c: char): (k: nat)
    ensures k <= |s|
    ensures k < |s| ==> s[k] == c
  {
    if s == [] || s[0] == c then 0 else IndexOf(s[1..], c) + 1
  }

  lemma {:induction false} IndexOfFirst(s: string, c: char)
    ensures c !in s[..IndexOf(s, c)]
    decreases |s|
  {
    if s != [] && s[0] != c {
      IndexOfFirst(s[1..], c);
      assert s[..IndexOf(s, c)] == [s[0]] + s[1..][..IndexOf(s[1..], c)];
    }
  }

  /** `strings.Cut(s, sep)` with a one-character separator: the text before
      and after the first `sep`, and whether there was one. */
  function Cut(s: string, sep: char): (string, string, bool) {
    var k := IndexOf(s, sep);
    if k == |s| then (s, [], false) else (s[..k], s[k + 1..], true)
  }

  /** Cut splits at the first separator, or leaves `s` whole. */
  lemma CutSplits(s: string, sep: char)
    ensures var (before, after, found) := Cut(s, sep);
      && sep !in before
      && (found ==> s == before + [sep] + after)
      && (!found ==> before == s && after == [])
  {
    IndexOfFirst(s, sep);
    var k := IndexOf(s, sep);
    if k < |s| {
      assert s == s[..k] + [sep] + s[k + 1..];
    } else {
      assert s[..k] == s;
    }
  }

  /** `strings.TrimLeft` with a one-character cut set. */
  function TrimLeft(s: string, c: char): string {
    if s == [] || s[0] != c then s else TrimLeft(s[1..], c)
  }

  /** `strings.TrimRight` with a one-character cut set. */
  function TrimRight(s: string, c: char): string {
    if s == [] || s[|s| - 1] != c then s else TrimRight(s[..|s| - 1], c)
  }

  /** `strings.Trim(s, " ")` and its kin: `c` removed from both ends. */
  function Trim(s: string, c: char): string {
    TrimRight(TrimLeft(s, c), c)
  }

  /** A trailing space does not change the word that starts `s`. */
  lemma {:induction false} WordLengthTrailingSpace(s: string, c: char)
    requires IsSpace(c)
    ensures WordLength(s + [c]) == WordLength(s)
    decreases |s|
  {
    if s != [] && !IsSpace(s[0]) {
      assert (s + [c])[1..] == s[1..] + [c];
      WordLengthTrailingSpace(s[1..], c);
    }
  }

  /** A trailing space does not change the fields. */
  lemma {:induction false} FieldsTrailingSpace(s: string, c: char)
    requires IsSpace(c)
    ensures Fields(s + [c]) == Fields(s)
    decreases |s|
  {
    if s == [] {
      assert Fields([c]) == Fields([c][1..]);
    } else if IsSpace(s[0]) {
      assert (s + [c])[1..] == s[1..] + [c];
      FieldsTrailingSpace(s[1..], c);
    } else {
      var n := WordLength(s);
      WordLengthTrailingSpace(s, c);
      assert (s + [c])[..n] == s[..n];
      assert (s + [c])[n..] == s[n..] + [c];
      FieldsTrailingSpace(s[n..], c);
    }
  }

  /** `strings.Trim(s, " ")` before `strings.Fields` changes nothing:
      the cut characters are spaces, which Fields drops anyway. */
  lemma {:induction false} FieldsIgnoreTrim(s: string)
    ensures Fields(Trim(s, ' ')) == Fields(s)
  {
    FieldsIgnoreTrimLeft(s);
    FieldsIgnoreTrimRight(TrimLeft(s, ' '));
  }

  lemma {:induction false} FieldsIgnoreTrimLeft(s: string)
    ensures Fields(TrimLeft(s, ' ')) == Fields(s)
    decreases |s|
  {
    if s != [] && s[0] == ' ' {
      FieldsIgnoreTrimLeft(s[1..]);
    }
  }

  lemma {:induction false} FieldsIgnoreTrimRight(s: string)
    ensures Fields(TrimRight(s, ' ')) == Fields(s)
    decreases |s|
  {
    if s != [] && s[|s| - 1] == ' ' {
      var init := s[..|s| - 1];
      assert s == init + [' '];
      FieldsTrailingSpace(init, ' ');
      FieldsIgnoreTrimRight(init);
    }
  }

  /** `strings.HasPrefix(line, "-----")`: the line that closes the metadata
      section and the data table of a block. */
  predicate IsSeparator(line: string) {
    "-----" <= line
  }

  // ---------------------------------------------------------------------
  // Numbers: [+-] (digits [. digits*] | . digits) [(e|E) [+-] digits]

  predicate IsDigit(c: char) {
    '0' <= c <= '9'
  }

  function DigitValue(c: char): nat
    requires IsDigit(c)
  {
    c as int - '0' as int
  }

  /** `m` times 10 to the power `x`, one factor of ten at a time. */
  function Scale(m: real, x: int): real
    decreases if x < 0 then -x else x
  {
    if x == 0 then m
    else if x > 0 then Scale(10.0 * m, x - 1)
    else Scale(m / 10.0, x + 1)
  }

  /** The number `acc` followed by the decimal digits `s`; `None` if `s`
      holds anything else. */
  function Digits(s: string, acc: nat): Option<nat>
    decreases |s|
  {
    if s == [] then Some(acc)
    else if IsDigit(s[0]) then Digits(s[1..], 10 * acc + DigitValue(s[0]))
    else None
  }

  /** The exponent after `e` or `E`: an optional sign and at least one digit. */
  function ParseExponent(s: string): Option<int> {
    var neg := s != [] && s[0] == '-';
    var digits := if s != [] && (s[0] == '+' || s[0] == '-') then s[1..] else s;
    if digits == [] then None
    else match Digits(digits, 0)
      case None => None
      case Some(n) => Some(if neg then 0 - n else n)
  }

  /** The rest `s` of an unsigned decimal, read left to right: `m` is the
      value of the `count` digits read so far, `frac` how many of them
      follow the decimal point, and `dot` whether the point was read. */
  function Mantissa(s: string, m: nat, count: nat, frac: nat, dot: bool): Option<real>
    decreases |s|
  {
    if s == [] then
      if count == 0 then None else Some(Scale(m as real, 0 - frac))
    else if IsDigit(s[0]) then
      Mantissa(s[1..], 10 * m + DigitValue(s[0]), count + 1, if dot then frac + 1 else frac, dot)
    else if s[0] == '.' && !dot then
      Mantissa(s[1..], m, count, frac, true)
    else if (s[0] == 'e' || s[0] == 'E') && count > 0 then
      match ParseExponent(s[1..])
      case None => None
      case Some(x) => Some(Scale(m as real, x - frac))
    else None
  }

  /** Stand-in for `strconv.ParseFloat(tok, 64)`: `None` is its error. */
  function ParseFloat(tok: string): Option<real> {
    if tok != [] && (tok[0] == '+' || tok[0] == '-') then
      match Mantissa(tok[1..], 0, 0, 0, false)
      case None => None
      case Some(x) => Some(if tok[0] == '-' then -x else x)
    else Mantissa(tok, 0, 0, 0, false)
  }
}
