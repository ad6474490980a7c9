/** The values a fragment can bind as a parameter or inline as a literal. */
module Values {
  import opened Wrappers
  import opened Strings

  /** A JavaScript value as the fragment layer sees it. */
  datatype Value =
    | Str(s: string)
    | Int(i: int)
    | Bool(b: bool)
    | Null

  /**
   * The inline SQL spelling of `v`: strings single-quoted with inner quotes
   * doubled, integers in decimal, booleans and null as keywords.
   */
  function LiteralText(v: Value): string
  {
    match v
    case Str(s) => QuoteLiteral(s)
    case Int(i) => if i >= 0 then NatToDecimal(i) else "-" + NatToDecimal(-i)
    case Bool(b) => if b then "true" else "false"
    case Null => "null"
  }

  /**
   * An inline literal reads back as the value it spells: a string literal
   * parses back to the string, an integer's digits denote the integer, with a
   * leading `-` when it is negative.
   */
  lemma {:induction false} LiteralReadsBack(v: Value)
    ensures v.Str? ==> ParseLiteral(LiteralText(v)) == Some(v.s)
    ensures v.Int? && v.i >= 0 ==> IsDigits(LiteralText(v)) && DecimalValue(LiteralText(v)) == v.i
    ensures v.Int? && v.i < 0 ==>
              var t := LiteralText(v);
              |t| >= 2 && t[0] == '-' && IsDigits(t[1..]) && DecimalValue(t[1..]) == -v.i
  {
    match v
    case Str(s) => LiteralRoundTrip(s);
    case Int(i) =>
      if i >= 0 {
        DecimalRoundTrip(i);
      } else {
        DecimalRoundTrip(-i);
        assert LiteralText(v)[1..] == NatToDecimal(-i);
      }
    case Bool(b) =>
    case Null =>
  }
}
