/**
 * Text helpers the fragment layer relies on: joining and splitting on a
 * separator (as JavaScript's `Array.prototype.join` and
 * `String.prototype.split` do), decimal rendering of placeholder numbers, and
 * the single-quote doubling used for inline string literals.
 */
module Strings {
  import opened Wrappers

  /** `parts` joined with `sep` between consecutive parts, never after the last. */
  function Intercalate(parts: seq<string>, sep: string): string
  {
    if |parts| == 0 then ""
    else if |parts| == 1 then parts[0]
    else parts[0] + sep + Intercalate(parts[1..], sep)
  }

  /** A non-empty sequence is its first element followed by the rest. */
  lemma HeadThenTail<T>(s: seq<T>)
    requires |s| > 0
    ensures [s[0]] + s[1..] == s
  {
  }

  /**
   * `s` cut at every occurrence of `sep`. Like JavaScript's `split`, the empty
   * string yields one empty part and adjacent separators yield empty parts.
   */
  function Split(s: string, sep: char): (parts: seq<string>)
    ensures |parts| >= 1
    ensures forall i :: 0 <= i < |parts| ==> sep !in parts[i]
  {
    if |s| == 0 then [""]
    else
      var rest := Split(s[1..], sep);
      if s[0] == sep then [""] + rest
      else [[s[0]] + rest[0]] + rest[1..]
  }

  /** Joining the parts of a split with the same separator gives back the original text. */
  lemma {:induction false} SplitThenIntercalate(s: string, sep: char)
    ensures Intercalate(Split(s, sep), [sep]) == s
  {
    if |s| > 0 {
      var rest := Split(s[1..], sep);
      SplitThenIntercalate(s[1..], sep);
      if s[0] == sep {
        assert ([""] + rest)[1..] == rest;
        assert s == [sep] + s[1..];
      } else {
        var parts := [[s[0]] + rest[0]] + rest[1..];
        if |rest| == 1 {
          assert s == [s[0]] + s[1..];
        } else {
          assert parts[1..] == rest[1..];
          assert s == [s[0]] + s[1..];
        }
      }
    }
  }

  /** A text without the separator splits into itself alone. */
  lemma {:induction false} SplitWithoutSeparator(p: string, sep: char)
    requires sep !in p
    ensures Split(p, sep) == [p]
  {
    if |p| > 0 {
      SplitWithoutSeparator(p[1..], sep);
      assert p == [p[0]] + p[1..];
    }
  }

  /** A separator-free part followed by the separator splits off as exactly that part. */
  lemma {:induction false} SplitAfterPart(p: string, sep: char, rest: string)
    requires sep !in p
    ensures Split(p + [sep] + rest, sep) == [p] + Split(rest, sep)
  {
    var s := p + [sep] + rest;
    if |p| == 0 {
      assert s[1..] == rest;
    } else {
      assert s[1..] == p[1..] + [sep] + rest;
      SplitAfterPart(p[1..], sep, rest);
      assert [p[0]] + p[1..] == p;
    }
  }

  /** Splitting a join of separator-free parts recovers exactly those parts. */
  lemma {:induction false} IntercalateThenSplit(parts: seq<string>, sep: char)
    requires |parts| >= 1
    requires forall i :: 0 <= i < |parts| ==> sep !in parts[i]
    ensures Split(Intercalate(parts, [sep]), sep) == parts
  {
    if |parts| == 1 {
      SplitWithoutSeparator(parts[0], sep);
    } else {
      IntercalateThenSplit(parts[1..], sep);
      SplitAfterPart(parts[0], sep, Intercalate(parts[1..], [sep]));
      assert [parts[0]] + parts[1..] == parts;
    }
  }

  /** True when every character of `s` is an ASCII decimal digit. */
  predicate IsDigits(s: string)
  {
    forall i :: 0 <= i < |s| ==> '0' <= s[i] <= '9'
  }

  /** The ASCII character of the decimal digit `d`. */
  function DigitChar(d: nat): (c: char)
    requires d < 10
    ensures '0' <= c <= '9'
    ensures c as int - '0' as int == d
  {
    (48 + d) as char
  }

  /** The canonical decimal spelling of `n`: digits only, no leading zero. */
  function NatToDecimal(n: nat): (s: string)
    ensures |s| >= 1
  {
    if n < 10 then [DigitChar(n)]
    else NatToDecimal(n / 10) + [DigitChar(n % 10)]
  }

  /** The number a string of decimal digits denotes. */
  function DecimalValue(s: string): nat
    requires IsDigits(s)
  {
    if |s| == 0 then 0
    else 10 * DecimalValue(s[..|s| - 1]) + (s[|s| - 1] as int - '0' as int)
  }

  /** The spelling of `n` is all digits, and it starts with `0` only when `n` is zero. */
  lemma {:induction false} DecimalCanonical(n: nat)
    ensures IsDigits(NatToDecimal(n))
    ensures NatToDecimal(n)[0] == '0' ==> n == 0
  {
    var s := NatToDecimal(n);
    if n >= 10 {
      DecimalCanonical(n / 10);
      assert s[0] == NatToDecimal(n / 10)[0];
      assert forall i :: 0 <= i < |s| - 1 ==> s[i] == NatToDecimal(n / 10)[i];
    }
  }

  /** Reading back the decimal spelling of `n` gives `n`. */
  lemma {:induction false} DecimalRoundTrip(n: nat)
    ensures IsDigits(NatToDecimal(n)) && DecimalValue(NatToDecimal(n)) == n
  {
    var s := NatToDecimal(n);
    DecimalCanonical(n);
    if n < 10 {
      assert s[..|s| - 1] == [];
    } else {
      assert s[..|s| - 1] == NatToDecimal(n / 10);
      DecimalRoundTrip(n / 10);
    }
  }

  /** `s` with every single quote doubled. */
  function EscapeQuotes(s: string): string
  {
    if |s| == 0 then ""
    else (if s[0] == '\'' then "''" else [s[0]]) + EscapeQuotes(s[1..])
  }

  /**
   * Reads the inside of a single-quoted SQL string literal: a doubled quote
   * stands for one quote, and a lone quote (which would end the literal early)
   * makes the text unreadable.
   */
  function UnescapeQuotes(e: string): Option<string>
    decreases |e|
  {
    if |e| == 0 then Some("")
    else if e[0] == '\'' then
      if |e| >= 2 && e[1] == '\'' then
        match UnescapeQuotes(e[2..])
        case Some(r) => Some("'" + r)
        case None => None
      else None
    else
      match UnescapeQuotes(e[1..])
      case Some(r) => Some([e[0]] + r)
      case None => None
  }

  /** `s` as an inline SQL string literal: single-quoted, inner quotes doubled. */
  function QuoteLiteral(s: string): string
  {
    "'" + EscapeQuotes(s) + "'"
  }

  /** The string a single-quoted SQL literal denotes, if it is one. */
  function ParseLiteral(t: string): Option<string>
  {
    if |t| >= 2 && t[0] == '\'' && t[|t| - 1] == '\'' then UnescapeQuotes(t[1..|t| - 1])
    else None
  }

  /** Escaping never produces a lone quote: unescaping undoes it. */
  lemma {:induction false} EscapeRoundTrip(s: string)
    ensures UnescapeQuotes(EscapeQuotes(s)) == Some(s)
  {
    if |s| > 0 {
      EscapeRoundTrip(s[1..]);
      var e := EscapeQuotes(s);
      if s[0] == '\'' {
        assert e[2..] == EscapeQuotes(s[1..]);
      } else {
        assert e[1..] == EscapeQuotes(s[1..]);
      }
      assert s == [s[0]] + s[1..];
    }
  }

  /** An inline string literal reads back as the string it was made from, whatever quotes it holds. */
  lemma {:induction false} LiteralRoundTrip(s: string)
    ensures ParseLiteral(QuoteLiteral(s)) == Some(s)
  {
    var t := QuoteLiteral(s);
    assert t[1..|t| - 1] == EscapeQuotes(s);
    EscapeRoundTrip(s);
  }
}
