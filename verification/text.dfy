/**
 * String helpers the core relies on from .NET: decimal formatting with the
 * custom "000" pattern, `String.Split(char)`, `String.IsNullOrWhiteSpace`
 * and ordinal case-insensitive suffix tests.
 */
module Text {
  import opened Base

  predicate IsDigit(c: char) {
    '0' <= c <= '9'
  }

  predicate AllDigits(s: string) {
    forall i | 0 <= i < |s| :: IsDigit(s[i])
  }

  function DigitChar(d: nat): (c: char)
    requires d < 10
    ensures IsDigit(c) && c as int - '0' as int == d
  {
    ('0' as int + d) as char
  }

  function DigitValue(c: char): (d: nat)
    requires IsDigit(c)
    ensures d < 10 && DigitChar(d) == c
  {
    c as int - '0' as int
  }

  /** Decimal digits of `n`, most significant first, with no leading zero. */
  function Digits(n: nat): (s: string)
    ensures 1 <= |s| && AllDigits(s)
    decreases n
  {
    if n < 10 then [DigitChar(n)] else Digits(n / 10) + [DigitChar(n % 10)]
  }

  /** The value of a string of decimal digits (0 for the empty string). */
  function ParseDigits(s: string): nat
    requires AllDigits(s)
  {
    if |s| == 0 then 0 else ParseDigits(s[..|s| - 1]) * 10 + DigitValue(s[|s| - 1])
  }

  lemma {:induction false} ParseDigitsOfDigits(n: nat)
    ensures ParseDigits(Digits(n)) == n
    decreases n
  {
    if n >= 10 {
      var s := Digits(n);
      assert s[..|s| - 1] == Digits(n / 10);
      ParseDigitsOfDigits(n / 10);
    }
  }

  function Zeros(k: nat): (z: string)
    ensures |z| == k && AllDigits(z)
  {
    seq(k, _ => '0')
  }

  /** `s` left-padded with '0' to at least `width` characters. */
  function PadLeft(s: string, width: nat): (r: string)
    ensures |r| == if |s| < width then width else |s|
    ensures AllDigits(s) ==> AllDigits(r)
  {
    if |s| < width then Zeros(width - |s|) + s else s
  }

  lemma {:induction false} ParseIgnoresOneZero(s: string)
    requires AllDigits(s)
    ensures AllDigits(['0'] + s) && ParseDigits(['0'] + s) == ParseDigits(s)
    decreases |s|
  {
    var t := ['0'] + s;
    assert AllDigits(t);
    if |s| == 0 {
      assert t[..|t| - 1] == [];
    } else {
      assert t[..|t| - 1] == ['0'] + s[..|s| - 1];
      ParseIgnoresOneZero(s[..|s| - 1]);
    }
  }

  lemma {:induction false} ParseIgnoresZeros(k: nat, s: string)
    requires AllDigits(s)
    ensures AllDigits(Zeros(k) + s) && ParseDigits(Zeros(k) + s) == ParseDigits(s)
    decreases k
  {
    if k > 0 {
      assert Zeros(k) + s == ['0'] + (Zeros(k - 1) + s);
      ParseIgnoresZeros(k - 1, s);
      ParseIgnoresOneZero(Zeros(k - 1) + s);
    } else {
      assert Zeros(k) + s == s;
    }
  }

  lemma ParsePadLeft(n: nat, width: nat)
    ensures AllDigits(PadLeft(Digits(n), width))
    ensures ParseDigits(PadLeft(Digits(n), width)) == n
  {
    var d := Digits(n);
    ParseDigitsOfDigits(n);
    if |d| < width {
      ParseIgnoresZeros(width - |d|, d);
    }
  }

  /**
   * The .NET custom numeric format made of `width` zeros ("000" for 3):
   * the magnitude zero-padded to at least `width` digits, after a '-' when
   * the value is negative.
   */
  function FormatFixed(n: int, width: nat): string {
    if n < 0 then "-" + PadLeft(Digits(-n), width) else PadLeft(Digits(n), width)
  }

  /** Reads back an optionally negative run of decimal digits. */
  function ParseFixed(s: string): Option<int> {
    if 1 < |s| && s[0] == '-' && AllDigits(s[1..]) then Some(-(ParseDigits(s[1..]) as int))
    else if 0 < |s| && AllDigits(s) then Some(ParseDigits(s))
    else None
  }

  /** `FormatFixed` loses nothing: its text parses back to the number. */
  lemma ParseFormatFixed(n: int, width: nat)
    ensures ParseFixed(FormatFixed(n, width)) == Some(n)
  {
    var m := if n < 0 then -n else n;
    ParsePadLeft(m, width);
    var p := PadLeft(Digits(m), width);
    if n < 0 {
      assert FormatFixed(n, width)[1..] == p;
    } else {
      assert IsDigit(p[0]);
    }
  }

  /**
   * The characters `Char.IsWhiteSpace` accepts: the Unicode space, line and
   * paragraph separators and the controls U+0009 to U+000D and U+0085.
   */
  predicate IsWhiteSpace(c: char) {
    c == ' ' || c == '\t' || c == '\n' || c == '\r' || c == '\U{000B}' || c == '\U{000C}'
    || c == '\U{0085}' || c == '\U{00A0}' || c == '\U{1680}'
    || ('\U{2000}' <= c <= '\U{200A}')
    || c == '\U{2028}' || c == '\U{2029}' || c == '\U{202F}' || c == '\U{205F}' || c == '\U{3000}'
  }

  /** `String.IsNullOrWhiteSpace`, with `None` standing for `null`. */
  predicate IsNullOrWhiteSpace(s: Option<string>) {
    match s
    case None => true
    case Some(t) => forall i | 0 <= i < |t| :: IsWhiteSpace(t[i])
  }

  function IndexOf(s: string, c: char): (i: nat)
    requires c in s
    ensures i < |s| && s[i] == c && c !in s[..i]
  {
    if s[0] == c then 0
    else
      var j := IndexOf(s[1..], c);
      assert s[..j + 1] == [s[0]] + s[1..][..j];
      j + 1
  }

  lemma IndexOfIsFirst(s: string, c: char, k: nat)
    requires k < |s| && s[k] == c && c !in s[..k]
    ensures IndexOf(s, c) == k
  {
  }

  /** `String.Split(sep)`: the pieces between separators, empty ones kept. */
  function Split(s: string, sep: char): (parts: seq<string>)
    ensures 1 <= |parts|
    ensures forall i | 0 <= i < |parts| :: sep !in parts[i]
    decreases |s|
  {
    if sep !in s then [s]
    else
      var i := IndexOf(s, sep);
      [s[..i]] + Split(s[i + 1..], sep)
  }

  /** `String.Join(sep, parts)`. */
  function Join(parts: seq<string>, sep: char): string
    requires 1 <= |parts|
  {
    if |parts| == 1 then parts[0] else parts[0] + [sep] + Join(parts[1..], sep)
  }

  /** Splitting a join of separator-free pieces gives the pieces back. */
  lemma {:induction false} SplitJoin(parts: seq<string>, sep: char)
    requires 1 <= |parts|
    requires forall i | 0 <= i < |parts| :: sep !in parts[i]
    ensures Split(Join(parts, sep), sep) == parts
    decreases |parts|
  {
    if |parts| > 1 {
      var s := Join(parts, sep);
      var rest := Join(parts[1..], sep);
      assert s == parts[0] + [sep] + rest;
      assert s[..|parts[0]|] == parts[0];
      IndexOfIsFirst(s, sep, |parts[0]|);
      assert s[|parts[0]| + 1..] == rest;
      SplitJoin(parts[1..], sep);
    }
  }

  /** Joining the pieces of a split gives the original text back. */
  lemma {:induction false} JoinSplit(s: string, sep: char)
    ensures Join(Split(s, sep), sep) == s
    decreases |s|
  {
    if sep in s {
      var i := IndexOf(s, sep);
      JoinSplit(s[i + 1..], sep);
      assert s == s[..i] + [sep] + s[i + 1..];
    }
  }

  /**
   * ASCII case folding. `OrdinalIgnoreCase` folds other letters as well;
   * ASCII folding is enough for the ASCII literals the core compares with.
   */
  function ToLowerAscii(c: char): char {
    if 'A' <= c <= 'Z' then (c as int + 32) as char else c
  }

  predicate EqualsIgnoreCase(a: string, b: string) {
    |a| == |b| && forall i | 0 <= i < |a| :: ToLowerAscii(a[i]) == ToLowerAscii(b[i])
  }

  /** `s.EndsWith(suffix, StringComparison.OrdinalIgnoreCase)`. */
  predicate EndsWithIgnoreCase(s: string, suffix: string) {
    |suffix| <= |s| && EqualsIgnoreCase(s[|s| - |suffix|..], suffix)
  }
}

/**
 * Stand-in for `Guid.NewGuid().ToString("N")`: the n-th identifier handed
 * out is n in decimal, zero-padded to 32 characters like a 32-digit Guid.
 */
module Ids {
  import opened Text

  const GuidWidth: nat := 32

  function MintId(n: nat): (id: string)
    ensures GuidWidth <= |id| && AllDigits(id)
    ensures '-' !in id
  {
    var id := PadLeft(Digits(n), GuidWidth);
    assert forall i | 0 <= i < |id| :: id[i] != '-' by {
      forall i | 0 <= i < |id| ensures id[i] != '-' {
        assert IsDigit(id[i]);
      }
    }
    id
  }

  /** Distinct counters give distinct identifiers, so minted ids never repeat. */
  lemma MintIdInjective(a: nat, b: nat)
    ensures MintId(a) == MintId(b) <==> a == b
  {
    ParsePadLeft(a, GuidWidth);
    ParsePadLeft(b, GuidWidth);
  }
}
