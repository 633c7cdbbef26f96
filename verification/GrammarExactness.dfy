/** The scanner against the grammar: it ends exactly where the JSON value ends, and never blocks one. */
module GrammarExactness {
  import opened JsonGrammar
  import opened Grammar

  // ----- Tokens -----

  /** The scanner after a sequence of `Advance` calls, each of which leaves a wrapped depth. */
  function Feed(s: Scan, tokens: seq<string>): Scan
    decreases |tokens|
  {
    if tokens == [] then s else Feed(Wrapped(ScanText(s, tokens[0])), tokens[1..])
  }

  function Flatten(tokens: seq<string>): string {
    if tokens == [] then "" else tokens[0] + Flatten(tokens[1..])
  }

  lemma {:induction false} ScanWrapped(s: Scan, text: string)
    ensures Wrapped(ScanText(Wrapped(s), text)) == Wrapped(ScanText(s, text))
    decreases |text|
  {
    WrapFits(s.depth);
    WrapFits(Wrap(s.depth));
    if text != [] {
      NextWrapped(s, text[0]);
      ScanWrapped(Next(Wrapped(s), text[0]), text[1..]);
      ScanWrapped(Next(s, text[0]), text[1..]);
    }
  }

  /** However a text is split into tokens, the state after them is that of the whole text. */
  lemma {:induction false} ChunkingIrrelevant(s: Scan, tokens: seq<string>)
    requires Wrapped(s) == s
    ensures Feed(s, tokens) == Wrapped(ScanText(s, Flatten(tokens)))
    decreases |tokens|
  {
    if tokens != [] {
      var mid := Wrapped(ScanText(s, tokens[0]));
      WrapFits(ScanText(s, tokens[0]).depth);
      ChunkingIrrelevant(mid, tokens[1..]);
      ScanWrapped(ScanText(s, tokens[0]), Flatten(tokens[1..]));
      ScanAppend(s, tokens[0], Flatten(tokens[1..]));
    }
  }

  // ----- What the scanner computes, on any text -----

  /** How many backslashes stand directly before position `k`. */
  function Backslashes(x: string, k: nat): nat
    requires k <= |x|
  {
    if k == 0 || x[k - 1] != '\\' then 0 else 1 + Backslashes(x, k - 1)
  }

  /** Position `k` lies in a string: an odd number of quotation marks that are not escaped stand before it. */
  function Quoted(x: string, k: nat): bool
    requires k <= |x|
  {
    if k == 0 then false
    else if x[k - 1] == '"' && !(Quoted(x, k - 1) && Backslashes(x, k - 1) % 2 == 1) then !Quoted(x, k - 1)
    else Quoted(x, k - 1)
  }

  /** Opening less closing brackets before position `k`, not counting those in strings. */
  function Open(x: string, k: nat): int
    requires k <= |x|
  {
    if k == 0 then 0
    else
      Open(x, k - 1)
      + if Quoted(x, k - 1) then 0
        else if x[k - 1] in {'{', '['} then 1
        else if x[k - 1] in {'}', ']'} then -1
        else 0
  }

  /**
   After any text, valid or not: the depth is the balance of the brackets outside strings, a string is open if an odd
   number of quotation marks that are not escaped came before, and in it the next character is escaped if an odd
   number of backslashes stands directly before it.
   */
  lemma {:induction false} ScannerMeaning(x: string, k: nat)
    requires k <= |x|
    ensures ScanText(Outside(0), x[..k])
         == Scan(Open(x, k), Quoted(x, k), Quoted(x, k) && Backslashes(x, k) % 2 == 1)
  {
    if k == 0 {
      assert x[..0] == "";
    } else {
      ScannerMeaning(x, k - 1);
      assert x[..k] == x[..k - 1] + [x[k - 1]];
      ScanAppend(Outside(0), x[..k - 1], [x[k - 1]]);
      var s := ScanText(Outside(0), x[..k - 1]);
      assert ScanText(s, [x[k - 1]]) == Next(s, x[k - 1]) by {
        assert [x[k - 1]][1..] == "";
      }
    }
  }

  // ----- What holds before every character of a value -----

  /** The ASCII part of what the token filter lets through outside strings. */
  predicate OutsideChar(c: char) {
    '0' <= c <= '9' || 'a' <= c <= 'z' || 'A' <= c <= 'Z' || c in "{}[]\",:.-+eE_ \t\n\r\\/"
  }

  predicate PlainChar(c: char) { OutsideChar(c) && c !in "\"{}[]" }

  /** Before every character of `x`: in a string, or at a depth between `lo` and `hi` with an allowed character next. */
  predicate Along(s: Scan, x: string, lo: int, hi: int)
    decreases |x|
  {
    x == [] || ((s.inString || (lo <= s.depth <= hi && OutsideChar(x[0]))) && Along(Next(s, x[0]), x[1..], lo, hi))
  }

  /** `x` brings the scanner from depth `t` outside strings back there, staying within `lo..hi`. */
  predicate Balanced(x: string, t: int, lo: int, hi: int) {
    Along(Outside(t), x, lo, hi) && ScanText(Outside(t), x) == Outside(t)
  }

  lemma {:induction false} AlongAppend(s: Scan, a: string, b: string, lo: int, hi: int)
    ensures Along(s, a + b, lo, hi) <==> Along(s, a, lo, hi) && Along(ScanText(s, a), b, lo, hi)
    decreases |a|
  {
    if a == [] {
      assert a + b == b;
    } else {
      assert (a + b)[0] == a[0] && (a + b)[1..] == a[1..] + b;
      AlongAppend(Next(s, a[0]), a[1..], b, lo, hi);
    }
  }

  lemma BalancedAppend(a: string, b: string, t: int, lo: int, hi: int)
    requires Balanced(a, t, lo, hi) && Balanced(b, t, lo, hi)
    ensures Balanced(a + b, t, lo, hi)
  {
    AlongAppend(Outside(t), a, b, lo, hi);
    ScanAppend(Outside(t), a, b);
  }

  lemma BalancedAppend3(a: string, b: string, c: string, t: int, lo: int, hi: int)
    requires Balanced(a, t, lo, hi) && Balanced(b, t, lo, hi) && Balanced(c, t, lo, hi)
    ensures Balanced(a + (b + c), t, lo, hi)
  {
    BalancedAppend(b, c, t, lo, hi);
    BalancedAppend(a, b + c, t, lo, hi);
  }

  lemma {:induction false} PlainBalanced(x: string, t: int, lo: int, hi: int)
    requires lo <= t <= hi && Plain(x)
    ensures Balanced(x, t, lo, hi)
    decreases |x|
  {
    if x != [] {
      PlainBalanced(x[1..], t, lo, hi);
    }
  }

  lemma PaddedBalanced(p: Pad, c: char, t: int, lo: int, hi: int)
    requires lo <= t <= hi && PlainChar(c)
    ensures Balanced(Padded(p, c), t, lo, hi)
  {
    PlainBalanced(Padded(p, c), t, lo, hi);
  }

  function InString(t: int): Scan { Scan(t, true, false) }

  lemma {:induction false} CharsAlong(cs: seq<StringChar>, t: int, lo: int, hi: int)
    ensures Along(InString(t), CharsText(cs), lo, hi)
    ensures ScanText(InString(t), CharsText(cs)) == InString(t)
  {
    if cs != [] {
      CharsAlong(cs[1..], t, lo, hi);
      CharAlong(cs[0], t, lo, hi);
      AlongAppend(InString(t), CharText(cs[0]), CharsText(cs[1..]), lo, hi);
      ScanAppend(InString(t), CharText(cs[0]), CharsText(cs[1..]));
    }
  }

  lemma CharAlong(c: StringChar, t: int, lo: int, hi: int)
    ensures Along(InString(t), CharText(c), lo, hi)
    ensures ScanText(InString(t), CharText(c)) == InString(t)
  {
    match c
    case Unescaped(u) =>
      SingleChar(InString(t), u, lo, hi);
    case Escape(e) =>
      Escaped(t, e, [], lo, hi);
    case UnicodeEscape(a, b, x, y) =>
      Escaped(t, 'u', [a, b, x, y], lo, hi);
  }

  lemma SingleChar(s: Scan, c: char, lo: int, hi: int)
    ensures ScanText(s, [c]) == Next(s, c)
    ensures Along(s, [c], lo, hi) <==> s.inString || (lo <= s.depth <= hi && OutsideChar(c))
  {
    assert [c][1..] == [];
  }

  /** A backslash and the character after it, then characters that are neither quote nor backslash. */
  lemma {:induction false} Escaped(t: int, e: char, tail: string, lo: int, hi: int)
    requires |tail| <= 4 && forall k | 0 <= k < |tail| :: tail[k] != '"' && tail[k] != '\\'
    ensures Along(InString(t), ['\\', e] + tail, lo, hi)
    ensures ScanText(InString(t), ['\\', e] + tail) == InString(t)
  {
    var x := ['\\', e] + tail;
    assert x[1..] == [e] + tail && x[1..][1..] == tail;
    assert Next(Next(InString(t), x[0]), x[1..][0]) == InString(t);
    QuietInString(tail, t, lo, hi);
  }

  lemma {:induction false} QuietInString(x: string, t: int, lo: int, hi: int)
    requires forall k | 0 <= k < |x| :: x[k] != '"' && x[k] != '\\'
    ensures Along(InString(t), x, lo, hi) && ScanText(InString(t), x) == InString(t)
    decreases |x|
  {
    if x != [] {
      QuietInString(x[1..], t, lo, hi);
    }
  }

  lemma StringBalanced(cs: seq<StringChar>, t: int, lo: int, hi: int)
    requires lo <= t <= hi
    ensures Balanced(StringText(cs), t, lo, hi)
    ensures Along(InString(t), CharsText(cs) + "\"", lo, hi)
    ensures ScanText(InString(t), CharsText(cs) + "\"") == Outside(t)
  {
    CharsAlong(cs, t, lo, hi);
    AlongAppend(InString(t), CharsText(cs), "\"", lo, hi);
    ScanAppend(InString(t), CharsText(cs), "\"");
    SingleChar(InString(t), '"', lo, hi);
    Delimited('"', CharsText(cs) + "\"", t, lo, hi);
  }

  lemma Delimited(open: char, rest: string, t: int, lo: int, hi: int)
    requires OutsideChar(open) && lo <= t <= hi
    ensures Along(Outside(t), [open] + rest, lo, hi) <==> Along(Next(Outside(t), open), rest, lo, hi)
    ensures ScanText(Outside(t), [open] + rest) == ScanText(Next(Outside(t), open), rest)
  {
    assert ([open] + rest)[1..] == rest;
  }

  /** Brackets around a text that is balanced one level deeper. */
  lemma Bracketed(open: char, body: string, close: char, t: int, lo: int, hi: int)
    requires (open == '[' && close == ']') || (open == '{' && close == '}')
    requires lo <= t < hi && Balanced(body, t + 1, lo, hi)
    ensures Balanced([open] + (body + [close]), t, lo, hi)
  {
    assert Along(Outside(t + 1), body + [close], lo, hi) by {
      AlongAppend(Outside(t + 1), body, [close], lo, hi);
      SingleChar(Outside(t + 1), close, lo, hi);
    }
    assert ScanText(Outside(t + 1), body + [close]) == Outside(t) by {
      ScanAppend(Outside(t + 1), body, [close]);
      SingleChar(Outside(t + 1), close, lo, hi);
    }
    assert Next(Outside(t), open) == Outside(t + 1);
    Delimited(open, body + [close], t, lo, hi);
  }

  /** A value that carries its own closing delimiter. */
  predicate SelfDelimiting(v: Value) { IsContainer(v) || v.String? }

  lemma ScalarPlain(v: Value)
    requires !SelfDelimiting(v)
    ensures Plain(Core(v))
  {
    match v
    case Number(minus, whole, frac, exp) => NumberPlain(v);
    case _ =>
  }

  lemma NumberPlain(v: Value)
    requires v.Number?
    ensures Plain(NumberText(v))
  {
    FractionPlain(v.frac);
    ExponentPlain(v.exp);
    PlainAppend(FractionText(v.frac), ExponentText(v.exp));
    PlainAppend(v.whole, FractionText(v.frac) + ExponentText(v.exp));
    PlainAppend(if v.minus then "-" else "", v.whole + (FractionText(v.frac) + ExponentText(v.exp)));
  }

  lemma FractionPlain(f: Fraction)
    ensures Plain(FractionText(f))
  {
  }

  lemma ExponentPlain(e: Exponent)
    ensures Plain(ExponentText(e))
  {
    if e.Exponent? {
      PlainAppend(SignText(e.sign), e.digits);
      PlainAppend(if e.upper then "E" else "e", SignText(e.sign) + e.digits);
    }
  }

  predicate Plain(x: string) { forall k | 0 <= k < |x| :: PlainChar(x[k]) }

  lemma PlainAppend(a: string, b: string)
    requires Plain(a) && Plain(b)
    ensures Plain(a + b)
  {
  }

  // ----- Every value returns to its start depth, at any depth -----

  lemma {:induction false} CoreBalanced(v: Value, t: int, lo: int, hi: int)
    requires lo <= t && t + Nesting(v) <= hi
    ensures Balanced(Core(v), t, lo, hi)
    decreases v, 1
  {
    if IsContainer(v) {
      BodyBalanced(v, t, lo, hi);
      Bracketed(Opening(v), Body(v), Closing(v), t, lo, hi);
    } else if v.String? {
      StringBalanced(v.chars, t, lo, hi);
    } else {
      ScalarPlain(v);
      PlainBalanced(Core(v), t, lo, hi);
    }
  }

  lemma {:induction false} BodyBalanced(v: Value, t: int, lo: int, hi: int)
    requires IsContainer(v)
    requires lo <= t + 1 && t + Nesting(v) <= hi
    ensures Balanced(Body(v), t + 1, lo, hi)
    decreases v, 0
  {
    hide Balanced;
    var d := t + 1;
    PlainBalanced(v.open.after, d, lo, hi);
    PlainBalanced(v.close.before, d, lo, hi);
    match v
    case EmptyArray(o, c) => BalancedAppend(o.after, c.before, d, lo, hi);
    case EmptyObject(o, c) => BalancedAppend(o.after, c.before, d, lo, hi);
    case Array(o, first, rest, c) =>
      TextBalanced(first, d, lo, hi);
      ElementsBalanced(rest, d, lo, hi);
      BalancedAppend(ElementsText(rest), c.before, d, lo, hi);
      BalancedAppend(Text(first), ElementsText(rest) + c.before, d, lo, hi);
      BalancedAppend(o.after, Text(first) + (ElementsText(rest) + c.before), d, lo, hi);
    case Object(o, m, ms, c) =>
      MemberBalanced(m, d, lo, hi);
      MembersBalanced(ms, d, lo, hi);
      BalancedAppend(MembersText(ms), c.before, d, lo, hi);
      BalancedAppend(MemberText(m), MembersText(ms) + c.before, d, lo, hi);
      BalancedAppend(o.after, MemberText(m) + (MembersText(ms) + c.before), d, lo, hi);
  }

  lemma WsIsPlain(w: Ws)
    ensures Plain(w)
  {
  }

  /**
   From any depth outside strings, the text of any value leads back there; meanwhile the depth stays
   within the value's own nesting, and every character outside strings passes the filter's list.
   */
  lemma {:induction false} TextBalanced(v: Value, t: int, lo: int, hi: int)
    requires lo <= t && t + Nesting(v) <= hi
    ensures Balanced(Text(v), t, lo, hi)
    decreases v, 2
  {
    hide Balanced;
    hide Core;
    hide Before;
    hide After;
    hide Plain;
    CoreBalanced(v, t, lo, hi);
    WsIsPlain(Before(v));
    WsIsPlain(After(v));
    PlainBalanced(Before(v), t, lo, hi);
    PlainBalanced(After(v), t, lo, hi);
    BalancedAppend3(Before(v), Core(v), After(v), t, lo, hi);
  }

  lemma {:induction false} ElementsBalanced(es: Elements, t: int, lo: int, hi: int)
    requires lo <= t && t + ElementsNesting(es) <= hi
    ensures Balanced(ElementsText(es), t, lo, hi)
    decreases es
  {
    match es
    case NoElements =>
    case Elements(p, v, rest) =>
      PaddedBalanced(p, ',', t, lo, hi);
      TextBalanced(v, t, lo, hi);
      ElementsBalanced(rest, t, lo, hi);
      BalancedAppend(Text(v), ElementsText(rest), t, lo, hi);
      BalancedAppend(Padded(p, ','), Text(v) + ElementsText(rest), t, lo, hi);
  }

  lemma {:induction false} MemberBalanced(m: Member, t: int, lo: int, hi: int)
    requires lo <= t && t + Nesting(m.value) <= hi
    ensures Balanced(MemberText(m), t, lo, hi)
    decreases m
  {
    StringBalanced(m.key, t, lo, hi);
    PaddedBalanced(m.colon, ':', t, lo, hi);
    TextBalanced(m.value, t, lo, hi);
    BalancedAppend(Padded(m.colon, ':'), Text(m.value), t, lo, hi);
    BalancedAppend(StringText(m.key), Padded(m.colon, ':') + Text(m.value), t, lo, hi);
  }

  lemma {:induction false} MembersBalanced(ms: Members, t: int, lo: int, hi: int)
    requires lo <= t && t + MembersNesting(ms) <= hi
    ensures Balanced(MembersText(ms), t, lo, hi)
    decreases ms
  {
    match ms
    case NoMembers =>
    case Members(p, m, rest) =>
      PaddedBalanced(p, ',', t, lo, hi);
      MemberBalanced(m, t, lo, hi);
      MembersBalanced(rest, t, lo, hi);
      BalancedAppend(MemberText(m), MembersText(rest), t, lo, hi);
      BalancedAppend(Padded(p, ','), MemberText(m) + MembersText(rest), t, lo, hi);
  }

  // ----- Every depth of the nesting is reached -----

  ghost predicate Reaches(s: Scan, x: string, q: Scan) {
    exists j :: 0 <= j <= |x| && ScanText(s, x[..j]) == q
  }

  lemma ReachesAtOnce(s: Scan, x: string)
    ensures Reaches(s, x, s)
  {
    assert ScanText(s, x[..0]) == s;
  }

  lemma ReachesLeft(s: Scan, a: string, b: string, q: Scan)
    requires Reaches(s, a, q)
    ensures Reaches(s, a + b, q)
  {
    var j :| 0 <= j <= |a| && ScanText(s, a[..j]) == q;
    assert (a + b)[..j] == a[..j];
  }

  lemma ReachesRight(s: Scan, a: string, b: string, q: Scan)
    requires Reaches(ScanText(s, a), b, q)
    ensures Reaches(s, a + b, q)
  {
    var j :| 0 <= j <= |b| && ScanText(ScanText(s, a), b[..j]) == q;
    ScanAppend(s, a, b[..j]);
    assert (a + b)[..|a| + j] == a + b[..j];
  }

  lemma {:induction false} DepthReached(v: Value, t: int, m: nat)
    requires 1 <= m <= Nesting(v)
    ensures Reaches(Outside(t), Text(v), Outside(t + m))
    decreases v, 1
  {
    hide ScanText;
    hide Along;
    hide Core;
    hide Before;
    hide After;
    hide Plain;
    var s, q := Outside(t), Outside(t + m);
    assert ScanText(s, Before(v)) == s by {
      WsIsPlain(Before(v));
      PlainBalanced(Before(v), t, t, t);
    }
    BodyReaches(v, t, m);
    CoreReaches(v, s, q);
    ReachesLeft(s, Core(v), After(v), q);
    ReachesRight(s, Before(v), Core(v) + After(v), q);
  }

  lemma CoreReaches(v: Value, s: Scan, q: Scan)
    requires IsContainer(v) && !s.inString && Reaches(s.(depth := s.depth + 1), Body(v), q)
    ensures Reaches(s, Core(v), q)
  {
    SingleChar(s, Opening(v), 0, 0);
    ReachesLeft(s.(depth := s.depth + 1), Body(v), [Closing(v)], q);
    ReachesRight(s, [Opening(v)], Body(v) + [Closing(v)], q);
  }

  lemma {:induction false} BodyReaches(v: Value, t: int, m: nat)
    requires 1 <= m <= Nesting(v)
    ensures Reaches(Outside(t + 1), Body(v), Outside(t + m))
    decreases v, 0
  {
    var s, q := Outside(t + 1), Outside(t + m);
    hide ScanText;
    hide Along;
    hide Plain;
    hide Text;
    hide ElementsText;
    hide MemberText;
    hide MembersText;
    if m == 1 {
      ReachesAtOnce(s, Body(v));
    } else {
      WsIsPlain(v.open.after);
      PlainBalanced(v.open.after, t + 1, t + 1, t + 1);
      match v
      case Array(o, first, rest, c) =>
        var tail := ElementsText(rest) + c.before;
        if m - 1 <= Nesting(first) {
          DepthReached(first, t + 1, m - 1);
          ReachesLeft(s, Text(first), tail, q);
        } else {
          TextBalanced(first, t + 1, t + 1, t + 1 + Nesting(first));
          ElementsReach(rest, t + 1, m - 1);
          ReachesLeft(s, ElementsText(rest), c.before, q);
          ReachesRight(s, Text(first), tail, q);
        }
        ReachesRight(s, o.after, Text(first) + tail, q);
      case Object(o, member, ms, c) =>
        var tail := MembersText(ms) + c.before;
        if m - 1 <= Nesting(member.value) {
          MemberReaches(member, t + 1, m - 1);
          ReachesLeft(s, MemberText(member), tail, q);
        } else {
          MemberBalanced(member, t + 1, t + 1, t + 1 + Nesting(member.value));
          MembersReach(ms, t + 1, m - 1);
          ReachesLeft(s, MembersText(ms), c.before, q);
          ReachesRight(s, MemberText(member), tail, q);
        }
        ReachesRight(s, o.after, MemberText(member) + tail, q);
    }
  }

  lemma {:induction false} ElementsReach(es: Elements, t: int, m: nat)
    requires 1 <= m <= ElementsNesting(es)
    ensures Reaches(Outside(t), ElementsText(es), Outside(t + m))
    decreases es
  {
    var Elements(p, v, rest) := es;
    var s, q := Outside(t), Outside(t + m);
    PaddedBalanced(p, ',', t, t, t);
    if m <= Nesting(v) {
      DepthReached(v, t, m);
      ReachesLeft(s, Text(v), ElementsText(rest), q);
    } else {
      TextBalanced(v, t, t, t + Nesting(v));
      ElementsReach(rest, t, m);
      ReachesRight(s, Text(v), ElementsText(rest), q);
    }
    ReachesRight(s, Padded(p, ','), Text(v) + ElementsText(rest), q);
  }

  lemma {:induction false} MemberReaches(member: Member, t: int, m: nat)
    requires 1 <= m <= Nesting(member.value)
    ensures Reaches(Outside(t), MemberText(member), Outside(t + m))
    decreases member
  {
    var s, q := Outside(t), Outside(t + m);
    StringBalanced(member.key, t, t, t);
    PaddedBalanced(member.colon, ':', t, t, t);
    DepthReached(member.value, t, m);
    ReachesRight(s, Padded(member.colon, ':'), Text(member.value), q);
    ReachesRight(s, StringText(member.key), Padded(member.colon, ':') + Text(member.value), q);
  }

  lemma {:induction false} MembersReach(ms: Members, t: int, m: nat)
    requires 1 <= m <= MembersNesting(ms)
    ensures Reaches(Outside(t), MembersText(ms), Outside(t + m))
    decreases ms
  {
    var Members(p, member, rest) := ms;
    var s, q := Outside(t), Outside(t + m);
    PaddedBalanced(p, ',', t, t, t);
    if m <= Nesting(member.value) {
      MemberReaches(member, t, m);
      ReachesLeft(s, MemberText(member), MembersText(rest), q);
    } else {
      MemberBalanced(member, t, t, t + Nesting(member.value));
      MembersReach(rest, t, m);
      ReachesRight(s, MemberText(member), MembersText(rest), q);
    }
    ReachesRight(s, Padded(p, ','), MemberText(member) + MembersText(rest), q);
  }

  // ----- Whole texts -----

  function Lead(d: Document): string { d.lead + Before(d.value) }
  function Trail(d: Document): string { After(d.value) + d.trail }

  /** The length of the text up to and including the value's last character. */
  function End(d: Document): nat { |Lead(d)| + |Core(d.value)| }

  /** The scanner as the program holds it after the first `k` characters of a text. */
  function ScannerAt(d: Document, k: nat): Scan
    requires k <= |DocumentText(d)|
  {
    Wrapped(ScanText(Outside(0), DocumentText(d)[..k]))
  }

  predicate CompleteAt(d: Document, k: nat)
    requires k <= |DocumentText(d)|
  {
    IsComplete(Json, ScannerAt(d, k), DocumentText(d)[..k])
  }

  predicate NextAllowed(alphanumeric: char -> bool, d: Document, k: nat)
    requires k < |DocumentText(d)|
  {
    IsTokenAllowed(Json, alphanumeric, ScannerAt(d, k), DocumentText(d)[..k], [DocumentText(d)[k]])
  }

  lemma TextParts(d: Document)
    ensures DocumentText(d) == Lead(d) + (Core(d.value) + Trail(d))
    ensures |DocumentText(d)| == End(d) + |Trail(d)|
    ensures Blank(Lead(d)) && Plain(Lead(d)) && Blank(Trail(d)) && Plain(Trail(d))
    ensures Core(d.value) != [] && !IsWhitespace(Core(d.value)[0])
    ensures SelfDelimiting(d.value) <==> Core(d.value)[0] in "{[\""
  {
    var v := d.value;
    Regroup(d.lead, Before(v), Core(v), After(v), d.trail);
    CoreStart(v);
    MarginsPlain(d);
  }

  lemma MarginsPlain(d: Document)
    ensures Blank(Lead(d)) && Plain(Lead(d)) && Blank(Trail(d)) && Plain(Trail(d))
  {
    hide Plain;
    hide Blank;
    WsPlain(d.lead, Before(d.value));
    WsPlain(After(d.value), d.trail);
  }

  lemma WsPlain(a: Ws, b: Ws)
    ensures Blank(a + b) && Plain(a + b)
  {
  }

  lemma Regroup(a: string, b: string, c: string, x: string, y: string)
    ensures a + ((b + (c + x)) + y) == (a + b) + (c + (x + y))
  {
  }

  lemma CoreStart(v: Value)
    ensures Core(v) != [] && !IsWhitespace(Core(v)[0])
    ensures SelfDelimiting(v) <==> Core(v)[0] in "{[\""
  {
    if v.Number? {
      assert NumberText(v)[0] == (if v.minus then '-' else v.whole[0]);
    }
  }

  lemma BlankPrefix(d: Document, k: nat)
    requires k <= |DocumentText(d)|
    ensures Trim(DocumentText(d)[..k]) == "" <==> k <= |Lead(d)|
  {
    var text := DocumentText(d);
    TextParts(d);
    TrimBlank(text[..k]);
    if k > |Lead(d)| {
      assert text[..k][|Lead(d)|] == Core(d.value)[0];
    } else {
      assert forall i | 0 <= i < k :: text[..k][i] == Lead(d)[i];
    }
  }

  /** The scanner part way into the second of two texts. */
  lemma ScanInto(s: Scan, a: string, b: string, k: nat)
    requires |a| <= k <= |a| + |b|
    ensures ScanText(s, (a + b)[..k]) == ScanText(ScanText(s, a), b[..k - |a|])
  {
    assert (a + b)[..k] == a + b[..k - |a|];
    ScanAppend(s, a, b[..k - |a|]);
  }

  lemma {:induction false} AlongAt(s: Scan, x: string, lo: int, hi: int, j: nat)
    requires Along(s, x, lo, hi) && j < |x|
    ensures var q := ScanText(s, x[..j]); q.inString || (lo <= q.depth <= hi && OutsideChar(x[j]))
    decreases |x|
  {
    if j > 0 {
      assert x[..j][1..] == x[1..][..j - 1];
      AlongAt(Next(s, x[0]), x[1..], lo, hi, j - 1);
    }
  }

  /** From the end of the value on, the scanner rests at depth zero. */
  lemma AtRestAfterEnd(d: Document, k: nat)
    requires End(d) <= k <= |DocumentText(d)|
    ensures ScanText(Outside(0), DocumentText(d)[..k]) == Outside(0)
  {
    hide ScanText;
    hide Along;
    hide Core;
    hide Lead;
    hide Trail;
    hide DocumentText;
    TextParts(d);
    var core, trail, s := Core(d.value), Trail(d), Outside(0);
    PlainBalanced(Lead(d), 0, 0, 0);
    CoreBalanced(d.value, 0, 0, Nesting(d.value));
    PlainBalanced(trail[..k - End(d)], 0, 0, 0);
    RestsAfter(s, Lead(d), core, trail, k);
  }

  lemma RestsAfter(s: Scan, a: string, b: string, c: string, k: nat)
    requires |a| + |b| <= k <= |a| + |b| + |c|
    requires ScanText(s, a) == s && ScanText(s, b) == s && ScanText(s, c[..k - |a| - |b|]) == s
    ensures ScanText(s, (a + (b + c))[..k]) == s
  {
    ScanInto(s, a, b + c, k);
    ScanInto(s, b, c, k - |a|);
  }

  /** Strictly inside an array, object or string, the scanner is in a string or at a positive depth. */
  lemma OpenBeforeEnd(d: Document, k: nat)
    requires SelfDelimiting(d.value) && |Lead(d)| < k < End(d)
    ensures k < |DocumentText(d)|
    ensures var q := ScanText(Outside(0), DocumentText(d)[..k]);
      q.inString || 1 <= q.depth <= Nesting(d.value)
  {
    hide ScanText;
    hide Along;
    hide Lead;
    hide Trail;
    hide DocumentText;
    TextParts(d);
    var v, hi := d.value, Nesting(d.value);
    PlainBalanced(Lead(d), 0, 0, hi);
    ScanInto(Outside(0), Lead(d), Core(v) + Trail(d), k);
    var j := k - |Lead(d)|;
    assert (Core(v) + Trail(d))[..j] == Core(v)[..j];
    var rest := Core(v)[1..];
    var s := Next(Outside(0), Core(v)[0]);
    assert Core(v) == [Core(v)[0]] + rest;
    SingleChar(Outside(0), Core(v)[0], 0, hi);
    ScanInto(Outside(0), [Core(v)[0]], rest, j);
    assert Along(s, rest, 1, hi) by {
      InsideAlong(v);
    }
    AlongAt(s, rest, 1, hi, j - 1);
  }

  lemma InsideAlong(v: Value)
    requires SelfDelimiting(v)
    ensures Along(Next(Outside(0), Core(v)[0]), Core(v)[1..], 1, Nesting(v))
  {
    if v.String? {
      StringInsideAlong(v.chars);
    } else {
      ContainerInsideAlong(v);
    }
  }

  lemma StringInsideAlong(chars: seq<StringChar>)
    ensures StringText(chars)[0] == '"' && Along(InString(0), StringText(chars)[1..], 1, 0)
  {
    hide Along;
    hide ScanText;
    hide CharsText;
    CharsAlong(chars, 0, 1, 0);
    AlongAppend(InString(0), CharsText(chars), "\"", 1, 0);
    SingleChar(InString(0), '"', 1, 0);
    assert StringText(chars)[1..] == CharsText(chars) + "\"";
  }

  lemma ContainerInsideAlong(v: Value)
    requires IsContainer(v)
    ensures Core(v)[0] == Opening(v) && Along(Outside(1), Core(v)[1..], 1, Nesting(v))
  {
    hide Along;
    hide ScanText;
    hide Body;
    var hi := Nesting(v);
    BodyBalanced(v, 0, 1, hi);
    AlongAppend(Outside(1), Body(v), [Closing(v)], 1, hi);
    SingleChar(Outside(1), Closing(v), 1, hi);
    assert Core(v)[1..] == Body(v) + [Closing(v)];
  }

  /** A number or literal never leaves depth zero, so it looks complete from its first character on. */
  lemma ScalarAtRest(d: Document, k: nat)
    requires !SelfDelimiting(d.value) && k <= |DocumentText(d)|
    ensures ScanText(Outside(0), DocumentText(d)[..k]) == Outside(0)
  {
    TextParts(d);
    var v, text := d.value, DocumentText(d);
    ScalarPlain(v);
    PlainAppend(Core(v), Trail(d));
    PlainAppend(Lead(d), Core(v) + Trail(d));
    assert Plain(text[..k]);
    PlainBalanced(text[..k], 0, 0, 0);
  }

  /**
   Completion is reported exactly from the value's last character on: for an array, object or string
   this holds precisely when fewer than 2^32 levels are nested (the 32-bit depth wraps), and for a
   number or literal precisely when it is one character long.
   */
  lemma CompletesExactlyAtEndIff(d: Document)
    ensures (forall k: nat | k <= |DocumentText(d)| :: CompleteAt(d, k) <==> k >= End(d))
       <==> (if SelfDelimiting(d.value) then Nesting(d.value) < 0x1_0000_0000 else |Core(d.value)| == 1)
  {
    hide ScanText;
    hide DocumentText;
    hide Core;
    hide Trim;
    TextParts(d);
    var text := DocumentText(d);
    if SelfDelimiting(d.value) && Nesting(d.value) < 0x1_0000_0000 {
      forall k: nat | k <= |text|
        ensures CompleteAt(d, k) <==> k >= End(d)
      {
        CompleteInsideIff(d, k);
      }
    } else if SelfDelimiting(d.value) {
      DeepNestingCompletesEarly(d);
    } else {
      forall k: nat | k <= |text|
        ensures CompleteAt(d, k) <==> k > |Lead(d)|
      {
        ScalarAtRest(d, k);
        BlankPrefix(d, k);
      }
      var k := |Lead(d)| + 1;
      assert CompleteAt(d, k) && (k >= End(d) <==> |Core(d.value)| == 1);
    }
  }

  lemma CompleteInsideIff(d: Document, k: nat)
    requires SelfDelimiting(d.value) && Nesting(d.value) < 0x1_0000_0000 && k <= |DocumentText(d)|
    ensures CompleteAt(d, k) <==> k >= End(d)
  {
    hide ScanText;
    hide DocumentText;
    hide Core;
    hide Trim;
    TextParts(d);
    BlankPrefix(d, k);
    WrapFits(ScanText(Outside(0), DocumentText(d)[..k]).depth);
    if k >= End(d) {
      AtRestAfterEnd(d, k);
    } else if k > |Lead(d)| {
      OpenBeforeEnd(d, k);
    }
  }

  /** A place in the text where 2^32 arrays and objects are open. */
  lemma DeepPlace(d: Document) returns (k: nat)
    requires Nesting(d.value) >= 0x1_0000_0000
    ensures k <= |DocumentText(d)| && ScanText(Outside(0), DocumentText(d)[..k]) == Outside(0x1_0000_0000)
  {
    hide ScanText;
    hide Text;
    var deep := Outside(0x1_0000_0000);
    DepthReached(d.value, 0, 0x1_0000_0000);
    PlainBalanced(d.lead, 0, 0, 0);
    ReachesLeft(Outside(0), Text(d.value), d.trail, deep);
    ReachesRight(Outside(0), d.lead, Text(d.value) + d.trail, deep);
    k :| k <= |DocumentText(d)| && ScanText(Outside(0), DocumentText(d)[..k]) == deep;
  }

  lemma DeepNestingCompletesEarly(d: Document)
    requires Nesting(d.value) >= 0x1_0000_0000
    ensures exists k: nat :: k <= |DocumentText(d)| && CompleteAt(d, k) && k < End(d)
  {
    hide ScanText;
    hide DocumentText;
    hide Core;
    hide Lead;
    hide Trim;
    var k := DeepPlace(d);
    TextParts(d);
    if k >= End(d) {
      AtRestAfterEnd(d, k);
    }
    if k <= |Lead(d)| {
      LeadAtRest(d, k);
    }
    BlankPrefix(d, k);
    WrapFits(0x1_0000_0000);
    assert CompleteAt(d, k);
  }

  lemma PrefixOfFirst(a: string, b: string, j: nat)
    requires j <= |a|
    ensures (a + b)[..j] == a[..j]
  {
  }

  lemma LeadAtRest(d: Document, j: nat)
    requires j <= |Lead(d)|
    ensures j <= |DocumentText(d)| && ScanText(Outside(0), DocumentText(d)[..j]) == Outside(0)
  {
    hide ScanText;
    hide Along;
    TextParts(d);
    PrefixOfFirst(Lead(d), Core(d.value) + Trail(d), j);
    PlainBalanced(Lead(d)[..j], 0, 0, 0);
  }

  /**
   Generated one character at a time, a text is never blocked exactly when its value is an array, an
   object or a string: the filter rejects the first character of any number or literal.
   */
  lemma NeverBlockedIff(alphanumeric: char -> bool, d: Document)
    requires forall c | '0' <= c <= '9' || 'a' <= c <= 'z' || 'A' <= c <= 'Z' :: alphanumeric(c)
    ensures (forall k: nat | k < |DocumentText(d)| :: NextAllowed(alphanumeric, d, k))
       <==> SelfDelimiting(d.value)
  {
    TextParts(d);
    var first := |Lead(d)|;
    BlankPrefix(d, first);
    assert DocumentText(d)[first] == Core(d.value)[0];
    TrimSingle(Core(d.value)[0]);
    if SelfDelimiting(d.value) {
      forall k: nat | k < |DocumentText(d)|
        ensures NextAllowed(alphanumeric, d, k)
      {
        NextIsAllowed(alphanumeric, d, k);
      }
    } else {
      ScalarAtRest(d, first);
      assert !NextAllowed(alphanumeric, d, first);
    }
  }

  lemma TrimSingle(c: char)
    ensures Trim([c]) == if IsWhitespace(c) then "" else [c]
  {
    var s := [c];
    if IsWhitespace(c) {
      assert s[1..] == [];
      assert TrimStart(s) == TrimStart(s[1..]) == [];
    } else {
      assert TrimStart(s) == s && TrimEnd(s) == s;
    }
  }

  lemma NextIsAllowed(alphanumeric: char -> bool, d: Document, k: nat)
    requires forall c | '0' <= c <= '9' || 'a' <= c <= 'z' || 'A' <= c <= 'Z' :: alphanumeric(c)
    requires SelfDelimiting(d.value) && k < |DocumentText(d)|
    ensures NextAllowed(alphanumeric, d, k)
  {
    TextParts(d);
    var text, c := DocumentText(d), DocumentText(d)[k];
    BlankPrefix(d, k);
    TrimSingle(c);
    if k > |Lead(d)| && !IsWhitespace(c) {
      DocumentBalanced(d);
      AlongAt(Outside(0), text, 0, Nesting(d.value), k);
    }
  }

  lemma DocumentBalanced(d: Document)
    ensures Balanced(DocumentText(d), 0, 0, Nesting(d.value))
  {
    hide Balanced;
    var hi := Nesting(d.value);
    PlainBalanced(d.lead, 0, 0, hi);
    PlainBalanced(d.trail, 0, 0, hi);
    TextBalanced(d.value, 0, 0, hi);
    BalancedAppend(Text(d.value), d.trail, 0, 0, hi);
    BalancedAppend(d.lead, Text(d.value) + d.trail, 0, 0, hi);
  }

  // ----- Tokens of any length -----

  /** Each token is let through by the filter when its turn comes. */
  predicate SplitAllowed(alphanumeric: char -> bool, output: string, tokens: seq<string>)
    decreases |tokens|
  {
    tokens == []
    || (IsTokenAllowed(Json, alphanumeric, Wrapped(ScanText(Outside(0), output)), output, tokens[0])
        && SplitAllowed(alphanumeric, output + tokens[0], tokens[1..]))
  }

  lemma {:induction false} TrimStartSkips(a: string, b: string)
    requires Blank(a)
    ensures TrimStart(a + b) == TrimStart(b)
  {
    if a == [] {
      assert a + b == b;
    } else {
      assert (a + b)[1..] == a[1..] + b;
      TrimStartSkips(a[1..], b);
    }
  }

  lemma {:induction false} TrimStartOnlyDrops(s: string, c: char)
    requires c in TrimStart(s)
    ensures c in s
  {
    if s != [] && IsWhitespace(s[0]) {
      TrimStartOnlyDrops(s[1..], c);
    }
  }

  lemma {:induction false} TrimEndOnlyDrops(s: string, c: char)
    requires c in TrimEnd(s)
    ensures c in s
  {
    if s != [] && IsWhitespace(s[|s| - 1]) {
      TrimEndOnlyDrops(s[..|s| - 1], c);
    }
  }

  /** Outside strings, only a quotation mark leads into one. */
  lemma {:induction false} QuoteOpens(s: Scan, x: string)
    requires !s.inString && ScanText(s, x).inString
    ensures '"' in x
    decreases |x|
  {
    if x[0] != '"' {
      QuoteOpens(Next(s, x[0]), x[1..]);
    }
  }

  /** The first token that is not blank begins with the value's first character. */
  lemma FirstTokenTrimmed(d: Document, k: nat, token: string)
    requires k <= |Lead(d)| && k + |token| <= |DocumentText(d)| && DocumentText(d)[k..k + |token|] == token
    requires Trim(token) != ""
    ensures Trim(token)[0] in "{[\"" <==> SelfDelimiting(d.value)
  {
    hide DocumentText;
    hide Core;
    hide Lead;
    hide Trail;
    hide Trim;
    TextParts(d);
    var text, cut := DocumentText(d), |Lead(d)| - k;
    LeadCut(d, k, token);
    if |token| > cut {
      var blank, rest := token[..cut], token[cut..];
      assert text[k..k + cut] == blank;
      LeadCut(d, k, blank);
      SecondStarts(Lead(d), Core(d.value), Trail(d));
      assert rest[0] == text[|Lead(d)|] == Core(d.value)[0];
      TrimmedStart(blank, rest);
      assert blank + rest == token;
    }
  }

  lemma TrimmedStart(blank: string, rest: string)
    requires Blank(blank) && rest != [] && !IsWhitespace(rest[0])
    ensures Trim(blank + rest) != [] && Trim(blank + rest)[0] == rest[0]
  {
    TrimStartSkips(blank, rest);
    TrimEndKeepsFirst(rest);
  }

  lemma SecondStarts(a: string, b: string, c: string)
    requires b != []
    ensures |a| + |b| <= |a + (b + c)|
    ensures (a + (b + c))[|a|] == b[0] && (a + (b + c))[|a| + |b| - 1] == b[|b| - 1]
  {
  }

  lemma LeadCut(d: Document, k: nat, token: string)
    requires k <= |Lead(d)| && k + |token| <= |DocumentText(d)| && DocumentText(d)[k..k + |token|] == token
    ensures k + |token| <= |Lead(d)| ==> Blank(token) && Trim(token) == ""
  {
    TextParts(d);
    if k + |token| <= |Lead(d)| {
      assert forall i | 0 <= i < |token| :: token[i] == DocumentText(d)[k + i] == Lead(d)[k + i];
    }
    TrimBlank(token);
  }

  predicate AllTokenChars(alphanumeric: char -> bool, text: string) {
    forall k | 0 <= k < |text| :: TokenChar(alphanumeric, text[k])
  }

  /** A token cut out of a text whose characters are all allowed, or that is a string. */
  lemma CutAllowed(alphanumeric: char -> bool, d: Document, k: nat, token: string)
    requires SelfDelimiting(d.value) && (d.value.String? || AllTokenChars(alphanumeric, DocumentText(d)))
    requires k + |token| <= |DocumentText(d)| && DocumentText(d)[k..k + |token|] == token
    ensures IsTokenAllowed(Json, alphanumeric, ScannerAt(d, k), DocumentText(d)[..k], token)
  {
    hide ScanText;
    hide DocumentText;
    hide Core;
    hide Trim;
    TextParts(d);
    BlankPrefix(d, k);
    if Trim(token) != "" && !ScannerAt(d, k).inString {
      if k <= |Lead(d)| {
        FirstTokenTrimmed(d, k, token);
      } else if d.value.String? {
        StringThenBlank(d, k, token);
      } else {
        TrimmedTokenChars(alphanumeric, token);
      }
    }
  }

  lemma TrimmedTokenChars(alphanumeric: char -> bool, token: string)
    requires AllTokenChars(alphanumeric, token)
    ensures AllTokenChars(alphanumeric, Trim(token))
  {
    forall k | 0 <= k < |Trim(token)|
      ensures TokenChar(alphanumeric, Trim(token)[k])
    {
      TrimEndOnlyDrops(TrimStart(token), Trim(token)[k]);
      TrimStartOnlyDrops(token, Trim(token)[k]);
    }
  }

  /** Past the opening quotation mark of a string value, the scanner is in the string or only whitespace follows. */
  lemma StringThenBlank(d: Document, k: nat, token: string)
    requires d.value.String? && |Lead(d)| < k && k + |token| <= |DocumentText(d)|
    requires DocumentText(d)[k..k + |token|] == token
    ensures ScannerAt(d, k).inString || Trim(token) == ""
  {
    if k < End(d) {
      OpenBeforeEnd(d, k);
    } else {
      TrailCut(d, k, token);
    }
  }

  lemma TrailCut(d: Document, k: nat, token: string)
    requires End(d) <= k && k + |token| <= |DocumentText(d)| && DocumentText(d)[k..k + |token|] == token
    ensures Trim(token) == ""
  {
    hide DocumentText;
    hide Core;
    hide Lead;
    hide Trail;
    hide Trim;
    TextParts(d);
    assert DocumentText(d) == (Lead(d) + Core(d.value)) + Trail(d);
    CutOfBlank(Lead(d) + Core(d.value), Trail(d), k, token);
    TrimBlank(token);
  }

  lemma CutOfBlank(a: string, b: string, k: nat, token: string)
    requires |a| <= k && k + |token| <= |a + b| && (a + b)[k..k + |token|] == token && Blank(b)
    ensures Blank(token)
  {
    assert forall i | 0 <= i < |token| :: token[i] == (a + b)[k + i] == b[k - |a| + i];
  }

  lemma {:induction false} EverySplitAllowed(alphanumeric: char -> bool, d: Document, k: nat, tokens: seq<string>)
    requires SelfDelimiting(d.value) && (d.value.String? || AllTokenChars(alphanumeric, DocumentText(d)))
    requires k <= |DocumentText(d)| && DocumentText(d)[k..] == Flatten(tokens)
    ensures SplitAllowed(alphanumeric, DocumentText(d)[..k], tokens)
    decreases |tokens|
  {
    hide IsTokenAllowed;
    hide ScanText;
    hide DocumentText;
    hide AllTokenChars;
    if tokens != [] {
      var text, token := DocumentText(d), tokens[0];
      assert text[k..][..|token|] == token && text[k..][|token|..] == Flatten(tokens[1..]);
      assert text[k..k + |token|] == token && text[k + |token|..] == Flatten(tokens[1..]);
      assert text[..k] + token == text[..k + |token|];
      CutAllowed(alphanumeric, d, k, token);
      EverySplitAllowed(alphanumeric, d, k + |token|, tokens[1..]);
    }
  }

  /** An array or object cut after its opening bracket is blocked if any of its characters is not allowed. */
  lemma CutBlocked(alphanumeric: char -> bool, d: Document, p: nat)
    requires forall c | '0' <= c <= '9' || 'a' <= c <= 'z' || 'A' <= c <= 'Z' :: alphanumeric(c)
    requires IsContainer(d.value) && p < |DocumentText(d)| && !TokenChar(alphanumeric, DocumentText(d)[p])
    ensures |Lead(d)| + 1 <= |DocumentText(d)|
    ensures !IsTokenAllowed(Json, alphanumeric, ScannerAt(d, |Lead(d)| + 1), DocumentText(d)[..|Lead(d)| + 1],
                            DocumentText(d)[|Lead(d)| + 1..])
  {
    var text, k := DocumentText(d), |Lead(d)| + 1;
    TextParts(d);
    BlankPrefix(d, k);
    AfterOpening(d);
    BadCharInside(alphanumeric, d, p);
    var rest := text[k..];
    InnerTrimmed(d, p);
    assert text[p] in Trim(rest);
    var j :| 0 <= j < |Trim(rest)| && Trim(rest)[j] == text[p];
    assert !TokenChar(alphanumeric, Trim(rest)[j]);
  }

  lemma AfterOpening(d: Document)
    requires IsContainer(d.value)
    ensures |Lead(d)| + 1 <= |DocumentText(d)|
    ensures ScanText(Outside(0), DocumentText(d)[..|Lead(d)| + 1]) == Outside(1)
  {
    TextParts(d);
    var v := d.value;
    assert DocumentText(d)[..|Lead(d)| + 1] == Lead(d) + [Opening(v)];
    PlainBalanced(Lead(d), 0, 0, 0);
    ScanAppend(Outside(0), Lead(d), [Opening(v)]);
    SingleChar(Outside(0), Opening(v), 0, 0);
  }

  /** A character that is not allowed stands inside a string, before the closing bracket. */
  lemma BadCharInside(alphanumeric: char -> bool, d: Document, p: nat)
    requires forall c | '0' <= c <= '9' || 'a' <= c <= 'z' || 'A' <= c <= 'Z' :: alphanumeric(c)
    requires IsContainer(d.value) && p < |DocumentText(d)| && !TokenChar(alphanumeric, DocumentText(d)[p])
    ensures |Lead(d)| + 1 <= p < End(d) - 1
    ensures ScanText(Outside(0), DocumentText(d)[..p]).inString
  {
    var text := DocumentText(d);
    DocumentBalanced(d);
    AlongAt(Outside(0), text, 0, Nesting(d.value), p);
    TextParts(d);
    if p <= |Lead(d)| {
      LeadAtRest(d, p);
    }
    if p >= End(d) {
      AtRestAfterEnd(d, p);
    }
    ClosesAtEnd(d);
  }

  /** What trimming leaves of the text after the opening bracket still holds every character inside a string. */
  lemma InnerTrimmed(d: Document, p: nat)
    requires IsContainer(d.value) && |Lead(d)| + 1 <= p < End(d) - 1 && End(d) <= |DocumentText(d)|
    requires ScanText(Outside(0), DocumentText(d)[..p]).inString
    ensures DocumentText(d)[p] in Trim(DocumentText(d)[|Lead(d)| + 1..])
  {
    hide ScanText;
    hide DocumentText;
    hide Lead;
    hide Trim;
    var text, k := DocumentText(d), |Lead(d)| + 1;
    AfterOpening(d);
    assert text[..p] == text[..k] + text[k..p];
    ScanAppend(Outside(0), text[..k], text[k..p]);
    QuoteOpens(Outside(1), text[k..p]);
    ClosesAtEnd(d);
    var q :| 0 <= q < p - k && text[k..p][q] == '"';
    KeptBetween(text[k..], q, p - k, End(d) - 1 - k);
  }

  lemma ClosesAtEnd(d: Document)
    requires IsContainer(d.value)
    ensures 0 < End(d) <= |DocumentText(d)| && !IsWhitespace(DocumentText(d)[End(d) - 1])
    ensures DocumentText(d)[End(d) - 1] == Closing(d.value)
  {
    CoreCloses(d.value);
    hide DocumentText;
    hide Core;
    hide Lead;
    hide Trail;
    TextParts(d);
    SecondStarts(Lead(d), Core(d.value), Trail(d));
  }

  lemma CoreCloses(v: Value)
    requires IsContainer(v)
    ensures Core(v) != [] && Core(v)[|Core(v)| - 1] == Closing(v)
  {
    hide Body;
  }

  lemma KeptBetween(s: string, q: nat, p: nat, last: nat)
    requires q < p < last < |s| && !IsWhitespace(s[q]) && !IsWhitespace(s[last])
    ensures s[p] in Trim(s)
  {
    hide TrimStart;
    hide TrimEnd;
    var k := StartsBy(s, q);
    var t := s[k..];
    var n := EndsAfter(t, last - k);
    assert t[..n][p - k] == s[p];
  }

  lemma {:induction false} StartsBy(s: string, q: nat) returns (k: nat)
    requires q < |s| && !IsWhitespace(s[q])
    ensures k <= q && TrimStart(s) == s[k..]
  {
    if IsWhitespace(s[0]) {
      k := StartsBy(s[1..], q - 1);
      assert s[1..][k..] == s[k + 1..];
      k := k + 1;
    } else {
      k := 0;
      assert s[0..] == s;
    }
  }

  lemma {:induction false} EndsAfter(s: string, q: nat) returns (n: nat)
    requires q < |s| && !IsWhitespace(s[q])
    ensures q < n <= |s| && TrimEnd(s) == s[..n]
  {
    var last := |s| - 1;
    if IsWhitespace(s[last]) {
      n := EndsAfter(s[..last], q);
      assert s[..last][..n] == s[..n];
    } else {
      n := |s|;
      assert s[..|s|] == s;
    }
  }

  /**
   However a text is cut into tokens, none of them is blocked exactly when its value is a string, or an array or
   object all of whose characters, also those inside strings, are alphanumeric or in the filter's list. So the
   filter can block a valid text for what it holds inside a string.
   */
  lemma NoSplitBlockedIff(alphanumeric: char -> bool, d: Document)
    requires forall c | '0' <= c <= '9' || 'a' <= c <= 'z' || 'A' <= c <= 'Z' :: alphanumeric(c)
    ensures (forall tokens | Flatten(tokens) == DocumentText(d) :: SplitAllowed(alphanumeric, "", tokens))
       <==> d.value.String? || (IsContainer(d.value) && AllTokenChars(alphanumeric, DocumentText(d)))
  {
    hide IsTokenAllowed;
    hide SplitAllowed;
    hide ScanText;
    hide DocumentText;
    hide Flatten;
    hide Core;
    var text := DocumentText(d);
    if d.value.String? || (IsContainer(d.value) && AllTokenChars(alphanumeric, text)) {
      forall tokens | Flatten(tokens) == text
        ensures SplitAllowed(alphanumeric, "", tokens)
      {
        assert text[0..] == text && text[..0] == "";
        EverySplitAllowed(alphanumeric, d, 0, tokens);
      }
    } else if IsContainer(d.value) {
      var p :| 0 <= p < |text| && !TokenChar(alphanumeric, text[p]);
      CutBlocked(alphanumeric, d, p);
      TwoTokens(alphanumeric, text, |Lead(d)| + 1);
    } else {
      WholeScalarBlocked(alphanumeric, d);
    }
  }

  lemma TwoTokens(alphanumeric: char -> bool, text: string, k: nat)
    requires k <= |text|
    requires !IsTokenAllowed(Json, alphanumeric, Wrapped(ScanText(Outside(0), text[..k])), text[..k], text[k..])
    ensures Flatten([text[..k], text[k..]]) == text
    ensures !SplitAllowed(alphanumeric, "", [text[..k], text[k..]])
  {
    var tokens := [text[..k], text[k..]];
    assert tokens[1..] == [text[k..]] && tokens[1..][1..] == [];
    assert Flatten(tokens[1..]) == text[k..] + "" == text[k..];
    assert "" + text[..k] == text[..k];
  }

  lemma WholeScalarBlocked(alphanumeric: char -> bool, d: Document)
    requires !SelfDelimiting(d.value)
    ensures Flatten([DocumentText(d)]) == DocumentText(d) && !SplitAllowed(alphanumeric, "", [DocumentText(d)])
  {
    var text := DocumentText(d);
    TextParts(d);
    var none: seq<string> := [];
    assert [text][1..] == none;
    BlankPrefix(d, |text|);
    BlankPrefix(d, 0);
    assert text[..|text|] == text && text[..0] == "";
    FirstTokenTrimmed(d, 0, text);
  }

  // ----- Texts that fail -----

  /** The number 12 is reported complete after its first digit. */
  lemma TwelveCompletesEarly()
    ensures var d := Document("", Number(false, "12", NoFraction, NoExponent), "");
      DocumentText(d) == "12" && End(d) == 2 && CompleteAt(d, 1)
  {
    var d := Document("", Number(false, "12", NoFraction, NoExponent), "");
    assert DocumentText(d) == "12" && Lead(d) == "" && Core(d.value) == "12";
    ScalarAtRest(d, 1);
    BlankPrefix(d, 1);
    WrapFits(0);
  }

  /** The array ["!"] is blocked when it is cut after its bracket, since no exclamation mark is in the filter's list. */
  lemma ExclamationBlocked(alphanumeric: char -> bool)
    requires !alphanumeric('!')
    requires forall c | '0' <= c <= '9' || 'a' <= c <= 'z' || 'A' <= c <= 'Z' :: alphanumeric(c)
    ensures var d := Document("", Array(Pad("", ""), String([Unescaped('!')]), NoElements, Pad("", "")), "");
      DocumentText(d) == "[\"!\"]" && Flatten(["[", "\"!\"]"]) == DocumentText(d)
      && !SplitAllowed(alphanumeric, "", ["[", "\"!\"]"])
  {
    var d := Document("", Array(Pad("", ""), String([Unescaped('!')]), NoElements, Pad("", "")), "");
    var text := "[\"!\"]";
    ExclamationText(d);
    assert text[2] == '!' && !TokenChar(alphanumeric, text[2]);
    CutBlocked(alphanumeric, d, 2);
    assert text[..1] == "[" && text[1..] == "\"!\"]";
    TwoTokens(alphanumeric, text, 1);
  }

  lemma ExclamationText(d: Document)
    requires d == Document("", Array(Pad("", ""), String([Unescaped('!')]), NoElements, Pad("", "")), "")
    ensures DocumentText(d) == "[\"!\"]" && Lead(d) == ""
  {
    var chars := [Unescaped('!')];
    assert CharsText(chars) == "!" by {
      assert chars[1..] == [];
      assert CharText(chars[0]) == "!" && CharsText(chars[1..]) == "";
    }
    assert StringText(chars) == "\"!\"";
    assert Text(d.value.first) == "\"!\"";
    assert Body(d.value) == "\"!\"";
  }
}
