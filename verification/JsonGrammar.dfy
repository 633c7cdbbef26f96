/**
 The texts of RFC 8259: derivation trees for sections 2 (structure and whitespace), 4 (objects),
 5 (arrays), 6 (numbers) and 7 (strings), and the text each tree stands for. Whitespace is part of the
 tree, so every JSON text is the text of some tree.
 */
module JsonGrammar {
  import opened Numbers

  type Ws = w: string | forall k | 0 <= k < |w| :: w[k] in " \t\n\r"

  type Digits = d: string | d != [] && forall k | 0 <= k < |d| :: '0' <= d[k] <= '9' witness "0"

  /** `int` of section 6: zero, or a digit one to nine followed by digits. */
  type IntDigits = d: string | d == "0" || (d != [] && '1' <= d[0] <= '9'
                                            && forall k | 0 <= k < |d| :: '0' <= d[k] <= '9') witness "0"

  type HexDigit = c: char | '0' <= c <= '9' || 'a' <= c <= 'f' || 'A' <= c <= 'F' witness '0'
  type UnescapedChar = c: char | ' ' <= c && c != '"' && c != '\\' witness 'a'
  type EscapeChar = c: char | c in "\"\\/bfnrt" witness 'n'

  datatype StringChar =
    | Unescaped(c: UnescapedChar)
    | Escape(e: EscapeChar)
    | UnicodeEscape(h0: HexDigit, h1: HexDigit, h2: HexDigit, h3: HexDigit)

  datatype Fraction = NoFraction | Fraction(digits: Digits)
  datatype Exponent = NoExponent | Exponent(upper: bool, sign: Sign, digits: Digits)
  datatype Sign = NoSign | Minus | Plus

  /** A structural character with the whitespace the grammar allows on both sides of it. */
  datatype Pad = Pad(before: Ws, after: Ws)

  datatype Value =
    | False | Null | True
    | Number(minus: bool, whole: IntDigits, frac: Fraction, exp: Exponent)
    | String(chars: seq<StringChar>)
    | EmptyArray(open: Pad, close: Pad)
    | Array(open: Pad, first: Value, rest: Elements, close: Pad)
    | EmptyObject(open: Pad, close: Pad)
    | Object(open: Pad, member: Member, members: Members, close: Pad)

  datatype Elements = NoElements | Elements(comma: Pad, value: Value, rest: Elements)
  datatype Member = Member(key: seq<StringChar>, colon: Pad, value: Value)
  datatype Members = NoMembers | Members(comma: Pad, member: Member, rest: Members)

  /** A JSON text: a value between two runs of whitespace. */
  datatype Document = Document(lead: Ws, value: Value, trail: Ws)

  function Padded(p: Pad, c: char): string { p.before + [c] + p.after }

  function CharText(c: StringChar): string {
    match c
    case Unescaped(u) => [u]
    case Escape(e) => ['\\', e]
    case UnicodeEscape(a, b, x, y) => ['\\', 'u', a, b, x, y]
  }

  function CharsText(cs: seq<StringChar>): string {
    if cs == [] then "" else CharText(cs[0]) + CharsText(cs[1..])
  }

  function StringText(cs: seq<StringChar>): string { "\"" + (CharsText(cs) + "\"") }

  function SignText(s: Sign): string {
    match s case NoSign => "" case Minus => "-" case Plus => "+"
  }

  function FractionText(f: Fraction): string {
    match f case NoFraction => "" case Fraction(d) => "." + d
  }

  function ExponentText(e: Exponent): string {
    match e
    case NoExponent => ""
    case Exponent(upper, sign, d) => (if upper then "E" else "e") + (SignText(sign) + d)
  }

  function NumberText(v: Value): string
    requires v.Number?
  {
    (if v.minus then "-" else "") + (v.whole + (FractionText(v.frac) + ExponentText(v.exp)))
  }

  predicate IsContainer(v: Value) { v.EmptyArray? || v.Array? || v.EmptyObject? || v.Object? }

  function Before(v: Value): Ws { if IsContainer(v) then v.open.before else "" }

  function After(v: Value): Ws { if IsContainer(v) then v.close.after else "" }

  function Opening(v: Value): char { if v.EmptyArray? || v.Array? then '[' else '{' }
  function Closing(v: Value): char { if v.EmptyArray? || v.Array? then ']' else '}' }

  /** What stands between the brackets of an array or object. */
  function Body(v: Value): string
    requires IsContainer(v)
    decreases v, 0
  {
    match v
    case EmptyArray(o, c) => o.after + c.before
    case Array(o, first, rest, c) => o.after + (Text(first) + (ElementsText(rest) + c.before))
    case EmptyObject(o, c) => o.after + c.before
    case Object(o, m, ms, c) => o.after + (MemberText(m) + (MembersText(ms) + c.before))
  }

  /** The text of a value from its opening delimiter to its closing one. */
  function Core(v: Value): string
    decreases v, 1
  {
    match v
    case False => "false"
    case Null => "null"
    case True => "true"
    case Number(_, _, _, _) => NumberText(v)
    case String(cs) => StringText(cs)
    case _ => [Opening(v)] + (Body(v) + [Closing(v)])
  }

  function Text(v: Value): string
    decreases v, 2
  {
    Before(v) + (Core(v) + After(v))
  }

  function ElementsText(es: Elements): string
    decreases es
  {
    match es
    case NoElements => ""
    case Elements(p, v, rest) => Padded(p, ',') + (Text(v) + ElementsText(rest))
  }

  function MemberText(m: Member): string
    decreases m
  {
    StringText(m.key) + (Padded(m.colon, ':') + Text(m.value))
  }

  function MembersText(ms: Members): string
    decreases ms
  {
    match ms
    case NoMembers => ""
    case Members(p, m, rest) => Padded(p, ',') + (MemberText(m) + MembersText(rest))
  }

  function DocumentText(d: Document): string { d.lead + (Text(d.value) + d.trail) }

  /** How many arrays and objects are open at the deepest point of a value. */
  function Nesting(v: Value): nat
    decreases v
  {
    match v
    case EmptyArray(_, _) => 1
    case Array(_, first, rest, _) => 1 + Max(Nesting(first), ElementsNesting(rest))
    case EmptyObject(_, _) => 1
    case Object(_, m, ms, _) => 1 + Max(Nesting(m.value), MembersNesting(ms))
    case _ => 0
  }

  function ElementsNesting(es: Elements): nat
    decreases es
  {
    match es
    case NoElements => 0
    case Elements(_, v, rest) => Max(Nesting(v), ElementsNesting(rest))
  }

  function MembersNesting(ms: Members): nat
    decreases ms
  {
    match ms
    case NoMembers => 0
    case Members(_, m, rest) => Max(Nesting(m.value), MembersNesting(rest))
  }
}
