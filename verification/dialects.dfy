/**
 * Dialect descriptors: the data-only rules that tell the compiler how one
 * database quotes identifiers and marks bound parameters.
 */
module Dialects {
  import opened Wrappers
  import opened Strings

  /** How a bound parameter is marked in the SQL text. */
  datatype PlaceholderStyle =
      /** `prefix` followed by the 1-based parameter number, as in `$1`, `$2`. */
    | Positional(prefix: char)
      /** The same `token` for every parameter, as in `?`. */
    | Anonymous(token: string)

  datatype Dialect = Dialect(quote: char, placeholders: PlaceholderStyle)

  const Postgres: Dialect := Dialect('"', Positional('$'))
  const MySql: Dialect := Dialect('`', Anonymous("?"))
  const Sqlite: Dialect := Dialect('"', Anonymous("?"))

  /** The marker of the `k`-th bound parameter (1-based). */
  function Placeholder(style: PlaceholderStyle, k: nat): string
  {
    match style
    case Positional(prefix) => [prefix] + NatToDecimal(k)
    case Anonymous(token) => token
  }

  /**
   * A numbered marker is its prefix followed by the decimal digits of its
   * number; an unnumbered marker is the token itself.
   */
  lemma {:induction false} PlaceholderSpelling(style: PlaceholderStyle, k: nat)
    ensures style.Positional? ==>
              var t := Placeholder(style, k);
              |t| >= 2 && t[0] == style.prefix && IsDigits(t[1..]) && DecimalValue(t[1..]) == k
    ensures style.Anonymous? ==> Placeholder(style, k) == style.token
  {
    if style.Positional? {
      DecimalRoundTrip(k);
      assert Placeholder(style, k)[1..] == NatToDecimal(k);
    }
  }

  /** The markers of parameters `from`, `from + 1`, ... in emission order. */
  function Placeholders(style: PlaceholderStyle, from: nat, count: nat): (ts: seq<string>)
    ensures |ts| == count
    ensures forall i :: 0 <= i < count ==> ts[i] == Placeholder(style, from + i)
  {
    seq(count, i requires 0 <= i < count => Placeholder(style, from + i))
  }

  /** The markers from `from` on: the marker of `from`, then the markers from `from + 1` on. */
  lemma PlaceholdersCons(style: PlaceholderStyle, from: nat, count: nat)
    requires count > 0
    ensures Placeholders(style, from, count)[0] == Placeholder(style, from)
    ensures Placeholders(style, from, count)[1..] == Placeholders(style, from + 1, count - 1)
  {
  }

  /** Positional markers are all different: the number is readable back from each. */
  lemma {:induction false} PositionalPlaceholdersDistinct(prefix: char, j: nat, k: nat)
    requires Placeholder(Positional(prefix), j) == Placeholder(Positional(prefix), k)
    ensures j == k
  {
    PlaceholderSpelling(Positional(prefix), j);
    PlaceholderSpelling(Positional(prefix), k);
  }

  /** `part` wrapped in the dialect's identifier quote. */
  function QuoteIdent(part: string, quote: char): string
  {
    [quote] + part + [quote]
  }

  /** Every part quoted on its own and the quoted parts joined with `.`. */
  function QuotedPath(parts: seq<string>, quote: char): string
  {
    if |parts| == 0 then ""
    else if |parts| == 1 then QuoteIdent(parts[0], quote)
    else QuoteIdent(parts[0], quote) + "." + QuotedPath(parts[1..], quote)
  }

  /** The text of `s` before its first `quote`, and the text after that quote. */
  function ReadToQuote(s: string, quote: char): Option<(string, string)>
  {
    if |s| == 0 then None
    else if s[0] == quote then Some(("", s[1..]))
    else
      match ReadToQuote(s[1..], quote)
      case Some((part, after)) => Some(([s[0]] + part, after))
      case None => None
  }

  lemma {:induction false} ReadToQuoteFinds(part: string, quote: char, after: string)
    requires quote !in part
    ensures ReadToQuote(part + [quote] + after, quote) == Some((part, after))
  {
    var s := part + [quote] + after;
    if |part| == 0 {
      assert s[1..] == after;
    } else {
      assert s[1..] == part[1..] + [quote] + after;
      ReadToQuoteFinds(part[1..], quote, after);
      assert [part[0]] + part[1..] == part;
    }
  }

  lemma {:induction false} ReadToQuoteShortens(s: string, quote: char)
    requires ReadToQuote(s, quote).Some?
    ensures |ReadToQuote(s, quote).value.1| < |s|
  {
    if |s| > 0 && s[0] != quote {
      ReadToQuoteShortens(s[1..], quote);
    }
  }

  /**
   * Reads a dotted path of quoted names back into its parts: a quoted name,
   * then either the end of the text or `.` and another quoted path.
   */
  function ParseQuotedPath(t: string, quote: char): Option<seq<string>>
    decreases |t|
  {
    if |t| == 0 || t[0] != quote then None
    else
      match ReadToQuote(t[1..], quote)
      case None => None
      case Some((part, after)) =>
        ReadToQuoteShortens(t[1..], quote);
        if |after| == 0 then Some([part])
        else if after[0] != '.' then None
        else
          match ParseQuotedPath(after[1..], quote)
          case Some(more) => Some([part] + more)
          case None => None
  }

  /**
   * When no part contains the quote character, the rendered path determines
   * its parts: each part stays one name, however many dots it holds.
   */
  lemma {:induction false} QuotedPathRoundTrip(parts: seq<string>, quote: char)
    requires |parts| >= 1
    requires forall i :: 0 <= i < |parts| ==> quote !in parts[i]
    ensures ParseQuotedPath(QuotedPath(parts, quote), quote) == Some(parts)
  {
    var t := QuotedPath(parts, quote);
    if |parts| == 1 {
      assert t == [quote] + (parts[0] + [quote] + "");
      assert t[1..] == parts[0] + [quote] + "";
      ReadToQuoteFinds(parts[0], quote, "");
      assert parts == [parts[0]];
    } else {
      var more := QuotedPath(parts[1..], quote);
      var after := "." + more;
      assert t == [quote] + (parts[0] + [quote] + after);
      assert t[1..] == parts[0] + [quote] + after;
      ReadToQuoteFinds(parts[0], quote, after);
      assert after[1..] == more;
      QuotedPathRoundTrip(parts[1..], quote);
      assert [parts[0]] + parts[1..] == parts;
    }
  }
}
