/**
 The character scanner behind constrained decoding: three fields that follow nesting and strings, and
 the token filter built on them.
 */
module Grammar {
  datatype GrammarKind = Json | JsonSchema(schema: string) | Regex(pattern: string)

  /** The scanner's three fields; the true nesting depth may be any integer. */
  datatype Scan = Scan(depth: int, inString: bool, escaped: bool)

  function Outside(depth: int): Scan { Scan(depth, false, false) }

  /** Two's-complement wrap-around of a 32-bit signed integer. */
  function Wrap(x: int): int { (x + 0x8000_0000) % 0x1_0000_0000 - 0x8000_0000 }

  function Wrapped(s: Scan): Scan { s.(depth := Wrap(s.depth)) }

  function Next(s: Scan, ch: char): Scan {
    if s.inString then
      if s.escaped then s.(escaped := false)
      else if ch == '\\' then s.(escaped := true)
      else if ch == '"' then s.(inString := false)
      else s
    else
      match ch
      case '"' => s.(inString := true)
      case '{' => s.(depth := s.depth + 1)
      case '[' => s.(depth := s.depth + 1)
      case '}' => s.(depth := s.depth - 1)
      case ']' => s.(depth := s.depth - 1)
      case _ => s
  }

  function ScanText(s: Scan, text: string): Scan
    decreases |text|
  {
    if text == [] then s else ScanText(Next(s, text[0]), text[1..])
  }

  /** The scanner state depends on the concatenated tokens only, not on how they were split. */
  lemma {:induction false} ScanAppend(s: Scan, a: string, b: string)
    ensures ScanText(s, a + b) == ScanText(ScanText(s, a), b)
    decreases |a|
  {
    if a == [] {
      assert a + b == b;
    } else {
      assert (a + b)[1..] == a[1..] + b;
      ScanAppend(Next(s, a[0]), a[1..], b);
    }
  }

  // ----- Whitespace and the token filter -----

  /** The characters with the Unicode property White_Space, which is what trimming removes. */
  predicate IsWhitespace(c: char) {
    || '\t' <= c <= '\r' || c == ' ' || c == '\U{85}' || c == '\U{A0}' || c == '\U{1680}'
    || '\U{2000}' <= c <= '\U{200A}' || c == '\U{2028}' || c == '\U{2029}' || c == '\U{202F}'
    || c == '\U{205F}' || c == '\U{3000}'
  }

  function TrimStart(s: string): string {
    if s != [] && IsWhitespace(s[0]) then TrimStart(s[1..]) else s
  }

  function TrimEnd(s: string): string {
    if s != [] && IsWhitespace(s[|s| - 1]) then TrimEnd(s[..|s| - 1]) else s
  }

  function Trim(s: string): string { TrimEnd(TrimStart(s)) }

  predicate Blank(s: string) { forall k | 0 <= k < |s| :: IsWhitespace(s[k]) }

  lemma {:induction false} TrimStartBlank(s: string)
    ensures TrimStart(s) == [] <==> Blank(s)
    ensures TrimStart(s) != [] ==> !IsWhitespace(TrimStart(s)[0])
  {
    if s != [] && IsWhitespace(s[0]) {
      TrimStartBlank(s[1..]);
      assert Blank(s[1..]) ==> Blank(s) by {
        assert forall k | 0 < k < |s| :: s[k] == s[1..][k - 1];
      }
    }
  }

  lemma {:induction false} TrimEndKeepsFirst(s: string)
    requires s != [] && !IsWhitespace(s[0])
    ensures TrimEnd(s) != [] && TrimEnd(s)[0] == s[0]
  {
    if IsWhitespace(s[|s| - 1]) {
      TrimEndKeepsFirst(s[..|s| - 1]);
    }
  }

  /** A text trims to nothing exactly when it is all whitespace. */
  lemma TrimBlank(s: string)
    ensures Trim(s) == [] <==> Blank(s)
  {
    TrimStartBlank(s);
    if TrimStart(s) != [] {
      TrimEndKeepsFirst(TrimStart(s));
    }
  }

  predicate IsComplete(kind: GrammarKind, s: Scan, output: string) {
    kind.Regex? || (!s.inString && s.depth == 0 && Trim(output) != "")
  }

  /** `alphanumeric` stands for the Unicode predicate of that name. */
  predicate TokenChar(alphanumeric: char -> bool, c: char) {
    alphanumeric(c) || c in "{}[]\",:.-+eE_ \t\n\r\\/"
  }

  predicate IsJsonTokenAllowed(alphanumeric: char -> bool, s: Scan, output: string, token: string) {
    var trimmed := Trim(token);
    trimmed == "" || s.inString
    || (if Trim(output) == "" then trimmed[0] in "{[\""
        else forall k | 0 <= k < |trimmed| :: TokenChar(alphanumeric, trimmed[k]))
  }

  predicate IsTokenAllowed(kind: GrammarKind, alphanumeric: char -> bool, s: Scan, output: string, token: string) {
    if kind.Regex? then token != "" else IsJsonTokenAllowed(alphanumeric, s, output, token)
  }

  // ----- What the filter blocks, character by character -----

  /** The first character that is not white. */
  ghost predicate FirstInk(token: string, k: nat) {
    k < |token| && !IsWhitespace(token[k]) && Blank(token[..k])
  }

  /** Between the first and the last character that are not white, these included. */
  ghost predicate Inner(token: string, k: nat) {
    k < |token| && !Blank(token[..k + 1]) && !Blank(token[k..])
  }

  predicate Listed(c: char) {
    c in {'{', '}', '[', ']', '"', ',', ':', '.', '-', '+', 'e', 'E', '_', ' ', '\t', '\n', '\r', '\\', '/'}
  }

  /** The token begins, white space aside, with something other than an opening bracket or a quotation mark. */
  ghost predicate BadStart(token: string) {
    exists k: nat :: FirstInk(token, k) && token[k] != '{' && token[k] != '[' && token[k] != '"'
  }

  /** The token holds, white space at its ends aside, a character that is neither alphanumeric nor listed. */
  ghost predicate BadChar(alphanumeric: char -> bool, token: string) {
    exists k: nat :: Inner(token, k) && !alphanumeric(token[k]) && !Listed(token[k])
  }

  /**
   What the filter blocks: outside strings, a token with a bad start while there is no output, and one with a bad
   character later. A regular expression blocks the empty token only.
   */
  ghost predicate Blocked(
    kind: GrammarKind, alphanumeric: char -> bool, inString: bool, output: string, token: string)
  {
    if kind.Regex? then |token| == 0
    else !inString && if Blank(output) then BadStart(token) else BadChar(alphanumeric, token)
  }

  lemma {:induction false} StartOfInk(s: string) returns (k: nat)
    ensures k <= |s| && TrimStart(s) == s[k..] && Blank(s[..k])
    ensures k < |s| ==> !IsWhitespace(s[k])
  {
    if s != [] && IsWhitespace(s[0]) {
      k := StartOfInk(s[1..]);
      assert s[1..][k..] == s[k + 1..];
      assert forall j | 0 < j < k + 1 :: s[j] == s[1..][..k][j - 1];
      k := k + 1;
    } else {
      k := 0;
      assert s[0..] == s;
    }
  }

  lemma {:induction false} EndOfInk(s: string) returns (n: nat)
    ensures n <= |s| && TrimEnd(s) == s[..n] && Blank(s[n..])
    ensures n > 0 ==> !IsWhitespace(s[n - 1])
  {
    var last := |s| - 1;
    if s != [] && IsWhitespace(s[last]) {
      n := EndOfInk(s[..last]);
      assert s[..last][..n] == s[..n];
      assert forall j | n <= j < last :: s[j] == s[..last][n..][j - n];
    } else {
      n := |s|;
      assert s[..|s|] == s;
    }
  }

  /** Trimming cuts out the part from the first to the last character that is not white. */
  lemma TrimBounds(s: string) returns (a: nat, b: nat)
    requires !Blank(s)
    ensures a < b <= |s| && Trim(s) == s[a..b]
    ensures FirstInk(s, a) && forall k: nat :: Inner(s, k) <==> a <= k < b
  {
    a := StartOfInk(s);
    var t := s[a..];
    var n := EndOfInk(t);
    b := a + n;
    assert s[..|s|] == s;
    assert s[a..][..n] == s[a..b];
    TrimBlank(s);
    InkBetween(s, a, b);
  }

  lemma InkBetween(s: string, a: nat, b: nat)
    requires a < b <= |s| && Blank(s[..a]) && !IsWhitespace(s[a]) && !IsWhitespace(s[b - 1]) && Blank(s[a..][b - a..])
    ensures forall k: nat :: Inner(s, k) <==> a <= k < b
  {
    forall k: nat | k < |s|
      ensures Inner(s, k) <==> a <= k < b
    {
      assert k < a ==> forall j | 0 <= j <= k :: s[..k + 1][j] == s[..a][j];
      assert k >= a ==> s[..k + 1][a] == s[a];
      assert k < b ==> s[k..][b - 1 - k] == s[b - 1];
      assert k >= b ==> forall j | 0 <= j < |s| - k :: s[k..][j] == s[a..][b - a..][k + j - b];
    }
  }

  /** The filter lets a token through exactly if it is not blocked. */
  lemma AllowedIff(kind: GrammarKind, alphanumeric: char -> bool, s: Scan, output: string, token: string)
    ensures IsTokenAllowed(kind, alphanumeric, s, output, token)
       <==> !Blocked(kind, alphanumeric, s.inString, output, token)
  {
    TrimBlank(output);
    TrimBlank(token);
    if !kind.Regex? && !s.inString {
      if Blank(token) {
        NoInk(token);
      } else {
        var a, b := TrimBounds(token);
        OnlyFirstInk(token, a);
        hide Trim;
        hide Inner;
        hide FirstInk;
        assert Trim(token)[0] == token[a];
        assert forall k: nat | a <= k < b :: Trim(token)[k - a] == token[k];
        assert forall k: nat | k < b - a :: Trim(token)[k] == token[a + k];
        ListedIff(alphanumeric);
      }
    }
  }

  lemma NoInk(token: string)
    requires Blank(token)
    ensures forall k: nat :: !FirstInk(token, k) && !Inner(token, k)
  {
    forall k: nat
      ensures !FirstInk(token, k) && !Inner(token, k)
    {
      if k < |token| {
        BlankPart(token, k + 1);
      }
    }
  }

  lemma OnlyFirstInk(token: string, a: nat)
    requires FirstInk(token, a)
    ensures forall k: nat :: FirstInk(token, k) <==> k == a
  {
    BlankPart(token, a);
    forall k: nat | FirstInk(token, k)
      ensures k == a
    {
      BlankPart(token, k);
    }
  }

  lemma BlankPart(s: string, k: nat)
    requires k <= |s|
    ensures Blank(s[..k]) <==> forall j | 0 <= j < k :: IsWhitespace(s[j])
  {
    assert forall j | 0 <= j < k :: s[..k][j] == s[j];
  }

  lemma ListedIff(alphanumeric: char -> bool)
    ensures forall c :: TokenChar(alphanumeric, c) <==> (alphanumeric(c) || Listed(c))
  {
  }

  /** White are exactly these twenty-five code points. */
  lemma WhitespaceExactly(c: char)
    ensures IsWhitespace(c)
       <==> c as int in {9, 10, 11, 12, 13, 32, 133, 160, 5760, 8192, 8193, 8194, 8195, 8196, 8197, 8198, 8199, 8200,
                         8201, 8202, 8232, 8233, 8239, 8287, 12288}
  {
  }

  // ----- The in-place state machine -----

  newtype i32 = x: int | -0x8000_0000 <= x < 0x8000_0000

  datatype Logit = NegInfinity | Finite(value: real)

  class GrammarState {
    const grammar: GrammarKind
    const alphanumeric: char -> bool
    var outputSoFar: string
    var depth: i32
    var inString: bool
    var escaped: bool

    function View(): Scan
      reads this
    {
      Scan(depth as int, inString, escaped)
    }

    constructor (grammar: GrammarKind, alphanumeric: char -> bool)
      ensures View() == Outside(0) && outputSoFar == "" && this.grammar == grammar
      ensures this.alphanumeric == alphanumeric
    {
      this.grammar := grammar;
      this.alphanumeric := alphanumeric;
      outputSoFar, depth, inString, escaped := "", 0, false, false;
    }

    method Advance(token: string)
      modifies this
      ensures View() == Wrapped(ScanText(old(View()), token))
      ensures outputSoFar == old(outputSoFar) + token
    {
      ghost var start := View();
      WrapFits(start.depth);
      for i := 0 to |token|
        invariant View() == Wrapped(ScanText(start, token[..i]))
        invariant outputSoFar == old(outputSoFar)
      {
        var ch := token[i];
        ghost var before := View();
        if inString {
          if escaped {
            escaped := false;
          } else if ch == '\\' {
            escaped := true;
          } else if ch == '"' {
            inString := false;
          }
        } else {
          match ch {
            case '"' => inString := true;
            case '{' => depth := Wrap(depth as int + 1) as i32;
            case '[' => depth := Wrap(depth as int + 1) as i32;
            case '}' => depth := Wrap(depth as int - 1) as i32;
            case ']' => depth := Wrap(depth as int - 1) as i32;
            case _ =>
          }
        }
        WrapFits(before.depth);
        NextWrapped(ScanText(start, token[..i]), ch);
        ScanAppend(start, token[..i], [ch]);
        assert token[..i + 1] == token[..i] + [ch];
      }
      assert token[..|token|] == token;
      outputSoFar := outputSoFar + token;
    }

    method Complete() returns (b: bool)
      ensures b <==> IsComplete(grammar, View(), outputSoFar)
      ensures b <==> grammar.Regex? || (!inString && depth == 0 && !Blank(outputSoFar))
    {
      TrimBlank(outputSoFar);
      b := grammar.Regex? || (!inString && depth == 0 && Trim(outputSoFar) != "");
    }

    /** Exactly the logits of blocked vocabulary entries change, and they become minus infinity. */
    method MaskLogits(logits: array<Logit>, vocab: seq<string>)
      modifies logits
      ensures forall i | 0 <= i < logits.Length ::
        logits[i] == if i < |vocab| && Blocked(grammar, alphanumeric, inString, outputSoFar, vocab[i])
                     then NegInfinity else old(logits[i])
    {
      hide Blocked;
      hide IsTokenAllowed;
      for i := 0 to logits.Length
        invariant forall j | i <= j < logits.Length :: logits[j] == old(logits[j])
        invariant forall j | 0 <= j < i ::
          logits[j] == if j < |vocab| && Blocked(grammar, alphanumeric, inString, outputSoFar, vocab[j])
                       then NegInfinity else old(logits[j])
      {
        if i < |vocab| {
          AllowedIff(grammar, alphanumeric, View(), outputSoFar, vocab[i]);
          if !IsTokenAllowed(grammar, alphanumeric, View(), outputSoFar, vocab[i]) {
            logits[i] := NegInfinity;
          }
        }
      }
    }
  }

  lemma WrapRange(x: int)
    ensures -0x8000_0000 <= Wrap(x) < 0x8000_0000
    ensures -0x8000_0000 <= x < 0x8000_0000 ==> Wrap(x) == x
    ensures Wrap(x) == 0 <==> x % 0x1_0000_0000 == 0
  {
  }

  lemma WrapShift(x: int, k: int)
    ensures Wrap(x + k * 0x1_0000_0000) == Wrap(x)
  {
    ModShift(x + 0x8000_0000, k);
  }

  lemma ModShift(x: int, k: int)
    ensures (x + k * 0x1_0000_0000) % 0x1_0000_0000 == x % 0x1_0000_0000
  {
    var q, r := x / 0x1_0000_0000, x % 0x1_0000_0000;
    assert x + k * 0x1_0000_0000 == (q + k) * 0x1_0000_0000 + r;
  }

  /** Wrapping takes off a multiple of 2^32. */
  lemma WrapMultiple(x: int) returns (k: int)
    ensures Wrap(x) == x + k * 0x1_0000_0000
  {
    k := -((x + 0x8000_0000) / 0x1_0000_0000);
  }

  lemma WrapFits(x: int)
    ensures -0x8000_0000 <= Wrap(x) < 0x8000_0000
    ensures -0x8000_0000 <= x < 0x8000_0000 ==> Wrap(x) == x
    ensures Wrap(Wrap(x) + 1) == Wrap(x + 1) && Wrap(Wrap(x) - 1) == Wrap(x - 1)
    ensures Wrap(x) == 0 <==> x % 0x1_0000_0000 == 0
  {
    hide Wrap;
    WrapRange(x);
    var k := WrapMultiple(x);
    WrapShift(x + 1, k);
    WrapShift(x - 1, k);
  }

  /** Wrapping after every character is the same as wrapping the true depth once. */
  lemma NextWrapped(s: Scan, ch: char)
    ensures Wrapped(Next(Wrapped(s), ch)) == Wrapped(Next(s, ch))
  {
    WrapFits(s.depth);
  }
}
