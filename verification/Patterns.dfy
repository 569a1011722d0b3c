/** Segmenter rule patterns: the matcher, what it means, and the parser against
    the printed form of a pattern. */
module Patterns {
  import opened Wrappers

  datatype Token = Literal(text: string) | AnyField | Alternation(alternatives: seq<string>)

  datatype Pattern = Pattern(tokens: seq<Token>, anchoredEnd: bool, matchAll: bool)

  datatype PatternError = InsideGroup(c: char) | UnterminatedGroup | EmptyAlternative
                        | Construct(c: char) | EmptyPattern

  // ---------------------------------------------------------------- matching

  /** The text up to the first comma. */
  function FieldLength(s: string): (n: nat)
    ensures n <= |s| && ',' !in s[..n]
    ensures n < |s| ==> s[n] == ','
  {
    if s == "" || s[0] == ',' then 0
    else
      var n := 1 + FieldLength(s[1..]);
      assert s[..n] == [s[0]] + s[1..][..n - 1];
      n
  }

  /** match_tokens: backtracking prefix match. */
  predicate MatchTokens(tokens: seq<Token>, rest: string, anchoredEnd: bool)
    decreases |tokens|
  {
    if tokens == [] then !anchoredEnd || rest == ""
    else match tokens[0]
      case Literal(text) => text <= rest && MatchTokens(tokens[1..], rest[|text|..], anchoredEnd)
      case AnyField =>
        exists n :: 1 <= n <= FieldLength(rest) && MatchTokens(tokens[1..], rest[n..], anchoredEnd)
      case Alternation(alternatives) =>
        exists i :: 0 <= i < |alternatives| && alternatives[i] <= rest
                    && MatchTokens(tokens[1..], rest[|alternatives[i]|..], anchoredEnd)
  }

  predicate Matches(p: Pattern, feature: string) {
    p.matchAll || MatchTokens(p.tokens, feature, p.anchoredEnd)
  }

  /** The words a token stands for. */
  predicate InLanguage(token: Token, piece: string) {
    match token
    case Literal(text) => piece == text
    case AnyField => piece != "" && ',' !in piece
    case Alternation(alternatives) => piece in alternatives
  }

  function Concat(pieces: seq<string>): string {
    if pieces == [] then "" else pieces[0] + Concat(pieces[1..])
  }

  /** One piece per token, each in its token's language. */
  ghost predicate Pieces(tokens: seq<Token>, pieces: seq<string>) {
    |pieces| == |tokens| && forall i :: 0 <= i < |tokens| ==> InLanguage(tokens[i], pieces[i])
  }

  /** The declarative meaning: some prefix of the feature, all of it when the
      pattern is anchored, splits into one piece per token. */
  ghost predicate Splits(tokens: seq<Token>, feature: string, anchoredEnd: bool) {
    exists pieces: seq<string> :: Pieces(tokens, pieces) && Covers(pieces, feature, anchoredEnd)
  }

  ghost predicate Covers(pieces: seq<string>, feature: string, anchoredEnd: bool) {
    Concat(pieces) <= feature && (anchoredEnd ==> Concat(pieces) == feature)
  }

  lemma {:induction false} MatchSplits(tokens: seq<Token>, rest: string, anchoredEnd: bool)
    requires MatchTokens(tokens, rest, anchoredEnd)
    ensures Splits(tokens, rest, anchoredEnd)
    decreases |tokens|
  {
    if tokens == [] {
      assert Pieces(tokens, []) && Covers([], rest, anchoredEnd);
    } else {
      var piece := FirstPiece(tokens, rest, anchoredEnd);
      MatchSplits(tokens[1..], rest[|piece|..], anchoredEnd);
      var pieces :| Pieces(tokens[1..], pieces) && Covers(pieces, rest[|piece|..], anchoredEnd);
      var all := [piece] + pieces;
      assert all[1..] == pieces;
      assert forall i :: 0 < i < |tokens| ==> tokens[1..][i - 1] == tokens[i] && all[i] == pieces[i - 1];
      assert Pieces(tokens, all);
      assert rest == piece + rest[|piece|..];
      assert Covers(all, rest, anchoredEnd);
    }
  }

  lemma FirstPiece(tokens: seq<Token>, rest: string, anchoredEnd: bool) returns (piece: string)
    requires tokens != [] && MatchTokens(tokens, rest, anchoredEnd)
    ensures InLanguage(tokens[0], piece) && piece <= rest
    ensures MatchTokens(tokens[1..], rest[|piece|..], anchoredEnd)
  {
    match tokens[0]
    case Literal(text) => piece := text;
    case AnyField =>
      var n :| 1 <= n <= FieldLength(rest) && MatchTokens(tokens[1..], rest[n..], anchoredEnd);
      piece := rest[..n];
      assert forall i :: 0 <= i < n ==> piece[i] == rest[..FieldLength(rest)][i];
    case Alternation(alternatives) =>
      var i :| 0 <= i < |alternatives| && alternatives[i] <= rest
               && MatchTokens(tokens[1..], rest[|alternatives[i]|..], anchoredEnd);
      piece := alternatives[i];
  }

  lemma {:induction false} SplitMatches(tokens: seq<Token>, rest: string, anchoredEnd: bool, pieces: seq<string>)
    requires Pieces(tokens, pieces) && Covers(pieces, rest, anchoredEnd)
    ensures MatchTokens(tokens, rest, anchoredEnd)
    decreases |tokens|
  {
    if tokens != [] {
      var piece, tail := pieces[0], rest[|pieces[0]|..];
      assert Concat(pieces) == piece + Concat(pieces[1..]);
      assert piece <= rest;
      assert rest == piece + tail;
      assert Covers(pieces[1..], tail, anchoredEnd);
      SplitMatches(tokens[1..], tail, anchoredEnd, pieces[1..]);
      match tokens[0]
      case Literal(text) =>
      case AnyField =>
        FieldCovers(rest, piece);
      case Alternation(alternatives) =>
        var i :| 0 <= i < |alternatives| && alternatives[i] == piece;
        assert alternatives[i] <= rest;
    }
  }

  lemma FieldCovers(s: string, piece: string)
    requires piece <= s && ',' !in piece
    ensures |piece| <= FieldLength(s)
  {
    if FieldLength(s) < |piece| {
      assert false;
    }
  }

  /** The backtracking matcher decides exactly the declarative meaning. */
  lemma MatcherIsExact(tokens: seq<Token>, feature: string, anchoredEnd: bool)
    ensures MatchTokens(tokens, feature, anchoredEnd) <==> Splits(tokens, feature, anchoredEnd)
  {
    if MatchTokens(tokens, feature, anchoredEnd) {
      MatchSplits(tokens, feature, anchoredEnd);
    }
    if Splits(tokens, feature, anchoredEnd) {
      var pieces :| Pieces(tokens, pieces) && Covers(pieces, feature, anchoredEnd);
      SplitMatches(tokens, feature, anchoredEnd, pieces);
    }
  }

  // ----------------------------------------------------------------- parsing

  /** Characters with a meaning of their own; every other one is literal text. */
  predicate IsSpecial(c: char) {
    c == '(' || c == ')' || c == '|' || c == '*' || c == '[' || c == ']' || c == '.' || c == '+'
    || c == '?' || c == '{' || c == '}' || c == '\\' || c == '^' || c == '$'
  }

  predicate IsPlain(s: string) {
    forall i :: 0 <= i < |s| ==> !IsSpecial(s[i])
  }

  function JoinAlternatives(alternatives: seq<string>): string {
    if alternatives == [] then ""
    else if |alternatives| == 1 then alternatives[0]
    else alternatives[0] + "|" + JoinAlternatives(alternatives[1..])
  }

  function PrintToken(token: Token): string {
    match token
    case Literal(text) => text
    case AnyField => "*"
    case Alternation(alternatives) => "(" + JoinAlternatives(alternatives) + ")"
  }

  function PrintTokens(tokens: seq<Token>): string {
    if tokens == [] then "" else PrintToken(tokens[0]) + PrintTokens(tokens[1..])
  }

  /** How rule files spell a pattern; a leading ^ may be written or left out. */
  function Print(p: Pattern, caret: bool): string {
    if p.matchAll then "*"
    else (if caret then "^" else "") + PrintTokens(p.tokens) + (if p.anchoredEnd then "$" else "")
  }

  predicate NormalToken(token: Token) {
    match token
    case Literal(text) => text != "" && IsPlain(text)
    case AnyField => true
    case Alternation(alternatives) =>
      alternatives != [] && forall i :: 0 <= i < |alternatives| ==> alternatives[i] != "" && IsPlain(alternatives[i])
  }

  /** Tokens a parse can produce: literal runs are maximal. */
  predicate NormalTokens(tokens: seq<Token>) {
    && (forall i :: 0 <= i < |tokens| ==> NormalToken(tokens[i]))
    && (forall i :: 0 < i < |tokens| ==> !(tokens[i - 1].Literal? && tokens[i].Literal?))
  }

  predicate Normal(p: Pattern) {
    if p.matchAll then p.tokens == [] && !p.anchoredEnd else p.tokens != [] && NormalTokens(p.tokens)
  }

  function Flush(literal: string): seq<Token> {
    if literal == "" then [] else [Literal(literal)]
  }

  /** The inside of a group: the finished alternatives, the current one, and
      the text after the closing bracket. */
  function ParseGroup(s: string, done: seq<string>, current: string): (r: Result<(seq<string>, string), PatternError>)
    ensures r.Ok? ==> |r.value.1| < |s|
  {
    if s == "" then Err(UnterminatedGroup)
    else if s[0] == ')' then Ok((done + [current], s[1..]))
    else if s[0] == '|' then ParseGroup(s[1..], done + [current], "")
    else if IsSpecial(s[0]) then Err(InsideGroup(s[0]))
    else ParseGroup(s[1..], done, current + [s[0]])
  }

  function Prepend(tokens: seq<Token>, r: Result<seq<Token>, PatternError>): Result<seq<Token>, PatternError> {
    if r.Ok? then Ok(tokens + r.value) else r
  }

  /** The tokens of the rest of a pattern, with `literal` already collected. */
  function ParseTokens(s: string, literal: string): Result<seq<Token>, PatternError>
    decreases |s|
  {
    if s == "" then Ok(Flush(literal))
    else if s[0] == '*' then Prepend(Flush(literal) + [AnyField], ParseTokens(s[1..], ""))
    else if s[0] == '(' then
      var group :- ParseGroup(s[1..], [], "");
      if HasEmpty(group.0) then Err(EmptyAlternative)
      else Prepend(Flush(literal) + [Alternation(group.0)], ParseTokens(group.1, ""))
    else if IsSpecial(s[0]) then Err(Construct(s[0]))
    else ParseTokens(s[1..], literal + [s[0]])
  }

  predicate HasEmpty(alternatives: seq<string>) {
    exists i :: 0 <= i < |alternatives| && alternatives[i] == ""
  }

  /** What is left between an optional leading ^ and an optional trailing $. */
  function Inner(text: string): (string, bool) {
    var rest := if text != "" && text[0] == '^' then text[1..] else text;
    if rest != "" && rest[|rest| - 1] == '$' then (rest[..|rest| - 1], true) else (rest, false)
  }

  function Parse(text: string): Result<Pattern, PatternError> {
    if text == "*" then Ok(Pattern([], false, true))
    else
      var (rest, anchoredEnd) := Inner(text);
      var tokens :- ParseTokens(rest, "");
      if tokens == [] then Err(EmptyPattern) else Ok(Pattern(tokens, anchoredEnd, false))
  }

  /** The group loop of parse_pattern; `at` ends after the closing bracket. */
  method ScanGroup(rest: string, start: nat) returns (r: Result<seq<string>, PatternError>, at: nat)
    requires start <= |rest|
    ensures start <= at <= |rest|
    ensures var group := ParseGroup(rest[start..], [], "");
            if group.Ok? then r == Ok(group.value.0) && rest[at..] == group.value.1 && at > start
            else r == Err(group.error)
  {
    var alternatives, current := [], "";
    at := start;
    while at < |rest|
      invariant start <= at <= |rest|
      invariant ParseGroup(rest[start..], [], "") == ParseGroup(rest[at..], alternatives, current)
    {
      var c := rest[at];
      assert rest[at..][0] == c && rest[at..][1..] == rest[at + 1..];
      at := at + 1;
      if c == ')' {
        return Ok(alternatives + [current]), at;
      } else if c == '|' {
        alternatives, current := alternatives + [current], "";
      } else if IsSpecial(c) {
        return Err(InsideGroup(c)), at;
      } else {
        current := current + [c];
      }
    }
    r := Err(UnterminatedGroup);
  }

  lemma PrependEmpty(r: Result<seq<Token>, PatternError>)
    ensures Prepend([], r) == r
  {
    if r.Ok? { assert [] + r.value == r.value; }
  }

  lemma PrependTwice(a: seq<Token>, b: seq<Token>, r: Result<seq<Token>, PatternError>)
    ensures Prepend(a, Prepend(b, r)) == Prepend(a + b, r)
  {
    if r.Ok? { assert a + (b + r.value) == (a + b) + r.value; }
  }

  /** parse_pattern. */
  method ParsePattern(text: string) returns (r: Result<Pattern, PatternError>)
    ensures r == Parse(text)
  {
    if text == "*" {
      return Ok(Pattern([], false, true));
    }
    var (rest, anchoredEnd) := Inner(text);
    var tokens, literal, at := [], "", 0;
    assert rest[0..] == rest;
    PrependEmpty(ParseTokens(rest, ""));
    while at < |rest|
      invariant 0 <= at <= |rest|
      invariant ParseTokens(rest, "") == Prepend(tokens, ParseTokens(rest[at..], literal))
    {
      var c := rest[at];
      assert rest[at..][0] == c && rest[at..][1..] == rest[at + 1..];
      at := at + 1;
      if c == '*' {
        PrependTwice(tokens, Flush(literal) + [AnyField], ParseTokens(rest[at..], ""));
        tokens, literal := tokens + (Flush(literal) + [AnyField]), "";
      } else if c == '(' {
        var alternatives, end := ScanGroup(rest, at);
        if alternatives.Err? {
          return Err(alternatives.error);
        }
        if HasEmpty(alternatives.value) {
          return Err(EmptyAlternative);
        }
        PrependTwice(tokens, Flush(literal) + [Alternation(alternatives.value)], ParseTokens(rest[end..], ""));
        tokens, literal := tokens + (Flush(literal) + [Alternation(alternatives.value)]), "";
        at := end;
      } else if IsSpecial(c) {
        return Err(Construct(c));
      } else {
        literal := literal + [c];
      }
    }
    assert rest[at..] == "";
    tokens := tokens + Flush(literal);
    if tokens == [] {
      return Err(EmptyPattern);
    }
    r := Ok(Pattern(tokens, anchoredEnd, false));
  }

  lemma {:induction false} ParsePlainRun(text: string, rest: string, literal: string)
    requires IsPlain(text)
    ensures ParseTokens(text + rest, literal) == ParseTokens(rest, literal + text)
    decreases |text|
  {
    if text == "" {
      assert text + rest == rest && literal + text == literal;
    } else {
      var s := text + rest;
      assert s[0] == text[0] && s[1..] == text[1..] + rest;
      ParsePlainRun(text[1..], rest, literal + [text[0]]);
      assert literal + [text[0]] + text[1..] == literal + text;
    }
  }

  lemma {:induction false} GroupPlainRun(text: string, rest: string, done: seq<string>, current: string)
    requires IsPlain(text)
    ensures ParseGroup(text + rest, done, current) == ParseGroup(rest, done, current + text)
    decreases |text|
  {
    if text == "" {
      assert text + rest == rest && current + text == current;
    } else {
      var s := text + rest;
      assert s[0] == text[0] && s[1..] == text[1..] + rest;
      GroupPlainRun(text[1..], rest, done, current + [text[0]]);
      assert current + [text[0]] + text[1..] == current + text;
    }
  }

  lemma {:induction false} GroupInvertsJoin(alternatives: seq<string>, rest: string, done: seq<string>)
    requires alternatives != [] && forall i :: 0 <= i < |alternatives| ==> IsPlain(alternatives[i])
    ensures ParseGroup(JoinAlternatives(alternatives) + ")" + rest, done, "") == Ok((done + alternatives, rest))
    decreases |alternatives|
  {
    var first := alternatives[0];
    assert "" + first == first;
    if |alternatives| == 1 {
      assert JoinAlternatives(alternatives) + ")" + rest == first + (")" + rest);
      GroupPlainRun(first, ")" + rest, done, "");
      assert (")" + rest)[1..] == rest;
      assert alternatives == [first];
    } else {
      var more := JoinAlternatives(alternatives[1..]) + ")" + rest;
      assert JoinAlternatives(alternatives) + ")" + rest == first + ("|" + more);
      GroupPlainRun(first, "|" + more, done, "");
      assert ("|" + more)[1..] == more;
      GroupInvertsJoin(alternatives[1..], rest, done + [first]);
      assert done + [first] + alternatives[1..] == done + alternatives;
    }
  }

  lemma StarStep(rest: string, literal: string)
    ensures ParseTokens("*" + rest, literal) == Prepend(Flush(literal) + [AnyField], ParseTokens(rest, ""))
  {
    assert ("*" + rest)[1..] == rest;
  }

  lemma GroupStep(alternatives: seq<string>, rest: string, literal: string)
    requires NormalToken(Alternation(alternatives))
    ensures ParseTokens(PrintToken(Alternation(alternatives)) + rest, literal)
         == Prepend(Flush(literal) + [Alternation(alternatives)], ParseTokens(rest, ""))
  {
    var s := PrintToken(Alternation(alternatives)) + rest;
    assert s[1..] == JoinAlternatives(alternatives) + ")" + rest;
    GroupInvertsJoin(alternatives, rest, []);
    assert [] + alternatives == alternatives;
  }

  lemma PrependTail(front: seq<Token>, first: Token, tail: seq<Token>)
    ensures Prepend(front + [first], Ok(Flush("") + tail)) == Ok(front + ([first] + tail))
  {
    assert front + [first] + (Flush("") + tail) == front + ([first] + tail);
  }

  /** Parsing the printed tokens gives them back; a literal already collected
      can only be followed by another kind of token. */
  lemma {:induction false} TokensInvertPrint(tokens: seq<Token>, literal: string)
    requires NormalTokens(tokens)
    requires literal == "" || tokens == [] || !tokens[0].Literal?
    ensures ParseTokens(PrintTokens(tokens), literal) == Ok(Flush(literal) + tokens)
    decreases |tokens|
  {
    if tokens == [] {
      assert Flush(literal) + tokens == Flush(literal);
    } else {
      var first, tail := tokens[0], tokens[1..];
      assert tokens == [first] + tail;
      match first
      case Literal(text) =>
        ParsePlainRun(text, PrintTokens(tail), "");
        assert "" + text == text;
        TokensInvertPrint(tail, text);
        assert Flush(literal) + tokens == Flush(text) + tail;
      case AnyField =>
        TokensInvertPrint(tail, "");
        StarStep(PrintTokens(tail), literal);
        PrependTail(Flush(literal), first, tail);
      case Alternation(alternatives) =>
        TokensInvertPrint(tail, "");
        GroupStep(alternatives, PrintTokens(tail), literal);
        PrependTail(Flush(literal), first, tail);
    }
  }

  lemma {:induction false} PrintKeepsEnds(tokens: seq<Token>)
    requires NormalTokens(tokens) && tokens != []
    ensures var s := PrintTokens(tokens); s != "" && s[0] != '^' && s[|s| - 1] != '$'
    decreases |tokens|
  {
    var first := tokens[0];
    if |tokens| > 1 {
      PrintKeepsEnds(tokens[1..]);
    } else {
      assert PrintTokens(tokens) == PrintToken(first);
    }
  }

  lemma PrintedAlone(tokens: seq<Token>)
    requires NormalTokens(tokens) && PrintTokens(tokens) == "*"
    ensures tokens == [AnyField]
  {
    TokensInvertPrint(tokens, "");
    StarStep("", "");
    assert "*" + "" == "*";
    assert Flush("") + tokens == tokens;
  }

  /** Parsing inverts printing on every normal pattern, written with or without
      the leading ^, except the one spelling that means "every class". */
  lemma ParseInvertsPrint(p: Pattern, caret: bool)
    requires Normal(p)
    ensures Parse(Print(p, caret)) ==
      if p == Pattern([AnyField], false, false) && !caret then Ok(Pattern([], false, true)) else Ok(p)
  {
    if !p.matchAll {
      var body, text := PrintTokens(p.tokens), Print(p, caret);
      TokensInvertPrint(p.tokens, "");
      assert Flush("") + p.tokens == p.tokens;
      PrintKeepsEnds(p.tokens);
      if text == "*" {
        assert !caret && !p.anchoredEnd && body == text;
        PrintedAlone(p.tokens);
      } else {
        InnerOfPrint(body, caret, p.anchoredEnd);
        PrintOne(AnyField);
      }
    }
  }

  lemma InnerOfPrint(body: string, caret: bool, anchoredEnd: bool)
    requires body != "" && body[0] != '^' && body[|body| - 1] != '$'
    ensures Inner((if caret then "^" else "") + body + (if anchoredEnd then "$" else "")) == (body, anchoredEnd)
  {
    var rest := body + (if anchoredEnd then "$" else "");
    var text := (if caret then "^" else "") + rest;
    assert text == (if caret then "^" else "") + body + (if anchoredEnd then "$" else "");
    assert rest[0] == body[0];
    if caret {
      assert text[1..] == rest;
    } else {
      assert text == rest;
    }
    if anchoredEnd {
      assert rest[..|rest| - 1] == body;
    } else {
      assert rest == body;
    }
  }

  lemma JoinOne(first: string)
    ensures JoinAlternatives([first]) == first
  {}

  lemma JoinCons(first: string, later: seq<string>, rest: string)
    requires later != []
    ensures JoinAlternatives([first] + later) + ")" + rest == first + "|" + (JoinAlternatives(later) + ")" + rest)
  {
    assert ([first] + later)[1..] == later;
    assert first + "|" + JoinAlternatives(later) + ")" + rest == first + "|" + (JoinAlternatives(later) + ")" + rest);
  }

  lemma AfterBar(s: string, done: seq<string>, current: string, alternatives: seq<string>, rest: string)
    requires s != "" && s[0] == '|' && done + [current] < alternatives
    requires s[1..] == JoinAlternatives(alternatives[|done| + 1..]) + ")" + rest
    ensures current + s == JoinAlternatives(alternatives[|done|..]) + ")" + rest
  {
    hide JoinAlternatives;
    var later := alternatives[|done| + 1..];
    assert alternatives[|done|..] == [current] + later;
    JoinCons(current, later, rest);
    assert current + s == current + "|" + s[1..];
  }

  lemma {:induction false} GroupPrints(s: string, done: seq<string>, current: string)
    requires IsPlain(current) && forall i :: 0 <= i < |done| ==> IsPlain(done[i])
    requires ParseGroup(s, done, current).Ok?
    ensures var (alternatives, rest) := ParseGroup(s, done, current).value;
            && done < alternatives
            && (forall i :: 0 <= i < |alternatives| ==> IsPlain(alternatives[i]))
            && current + s == JoinAlternatives(alternatives[|done|..]) + ")" + rest
    decreases |s|
  {
    hide IsSpecial, JoinAlternatives;
    var (alternatives, rest) := ParseGroup(s, done, current).value;
    var tail := s[1..];
    if s[0] == ')' {
      AtBracket(s, done, current);
    } else if s[0] == '|' {
      GroupPrints(tail, done + [current], "");
      assert "" + tail == tail;
      AfterBar(s, done, current, alternatives, rest);
    } else {
      GroupPrints(tail, done, current + [s[0]]);
      TakeFirst(s, current);
    }
  }

  lemma AtBracket(s: string, done: seq<string>, current: string)
    requires s != "" && s[0] == ')'
    ensures current + s == JoinAlternatives((done + [current])[|done|..]) + ")" + s[1..]
  {
    assert (done + [current])[|done|..] == [current];
    JoinOne(current);
    TakeFirst(s, current);
  }

  lemma TakeFirst(s: string, current: string)
    requires s != ""
    ensures current + [s[0]] + s[1..] == current + s
  {}

  lemma {:induction false} PrintAppend(a: seq<Token>, b: seq<Token>)
    ensures PrintTokens(a + b) == PrintTokens(a) + PrintTokens(b)
    decreases |a|
  {
    hide PrintToken;
    if a == [] {
      assert a + b == b;
    } else {
      PrintAppend(a[1..], b);
      assert (a + b)[1..] == a[1..] + b;
    }
  }

  lemma PrintOne(token: Token)
    ensures PrintTokens([token]) == PrintToken(token)
  {
    assert PrintTokens([token]) == PrintToken(token) + PrintTokens([]);
  }

  /** Whatever the parser accepts prints back to the text it read. */
  lemma {:induction false} PrintInvertsTokens(s: string, literal: string)
    requires IsPlain(literal) && ParseTokens(s, literal).Ok?
    ensures var tokens := ParseTokens(s, literal).value;
            && PrintTokens(tokens) == literal + s
            && NormalTokens(tokens)
            && (literal != "" ==> tokens != [])
    decreases |s|
  {
    hide IsSpecial, NormalTokens, PrintTokens, PrintToken, ParseGroup, HasEmpty;
    var tokens := ParseTokens(s, literal).value;
    if s == "" {
      FlushPrints(literal);
      assert literal + s == literal;
    } else if s[0] == '*' {
      PrintInvertsTokens(s[1..], "");
      var tail := ParseTokens(s[1..], "").value;
      assert "" + s[1..] == s[1..];
      StarReads(s);
      JoinPrinted(literal, AnyField, tail, s[1..], s);
    } else if s[0] == '(' {
      var (alternatives, rest) := ParseGroup(s[1..], [], "").value;
      PrintInvertsTokens(rest, "");
      assert "" + rest == rest;
      GroupTokenPrints(s, literal, alternatives, rest, ParseTokens(rest, "").value);
    } else {
      PrintInvertsTokens(s[1..], literal + [s[0]]);
      assert literal + [s[0]] + s[1..] == literal + s;
    }
  }

  lemma StarReads(s: string)
    requires s != "" && s[0] == '*'
    ensures s == PrintToken(AnyField) + s[1..]
  {}

  lemma GroupTokenPrints(s: string, literal: string, alternatives: seq<string>, rest: string, tail: seq<Token>)
    requires IsPlain(literal) && s != "" && s[0] == '('
    requires ParseGroup(s[1..], [], "") == Ok((alternatives, rest)) && !HasEmpty(alternatives)
    requires NormalTokens(tail) && PrintTokens(tail) == rest
    ensures PrintTokens(Flush(literal) + [Alternation(alternatives)] + tail) == literal + s
    ensures NormalTokens(Flush(literal) + [Alternation(alternatives)] + tail)
  {
    hide IsSpecial, NormalTokens, NormalToken, PrintToken, PrintTokens, ParseGroup, Flush;
    GroupReads(s, alternatives, rest);
    JoinPrinted(literal, Alternation(alternatives), tail, rest, s);
  }

  lemma GroupReads(s: string, alternatives: seq<string>, rest: string)
    requires s != "" && s[0] == '('
    requires ParseGroup(s[1..], [], "") == Ok((alternatives, rest)) && !HasEmpty(alternatives)
    ensures NormalToken(Alternation(alternatives)) && s == PrintToken(Alternation(alternatives)) + rest
  {
    hide IsSpecial, IsPlain, JoinAlternatives, PrintToken;
    assert IsPlain("") by { EmptyIsPlain(); }
    GroupPrints(s[1..], [], "");
    hide ParseGroup;
    assert alternatives[0..] == alternatives;
    AlternationReads(s, alternatives, rest);
  }

  lemma EmptyIsPlain()
    ensures IsPlain("")
  {}

  lemma AlternationReads(s: string, alternatives: seq<string>, rest: string)
    requires s != "" && s[0] == '(' && "" + s[1..] == JoinAlternatives(alternatives) + ")" + rest
    ensures s == PrintToken(Alternation(alternatives)) + rest
  {
    hide JoinAlternatives;
    Bracketed(s, JoinAlternatives(alternatives), rest);
  }

  lemma Bracketed(s: string, inside: string, rest: string)
    requires s != "" && s[0] == '(' && "" + s[1..] == inside + ")" + rest
    ensures s == "(" + inside + ")" + rest
  {
    assert "" + s[1..] == s[1..];
    assert "(" + inside + ")" + rest == "(" + (inside + ")" + rest);
  }

  lemma FlushPrints(literal: string)
    requires IsPlain(literal)
    ensures PrintTokens(Flush(literal)) == literal && NormalTokens(Flush(literal))
  {
    if literal != "" { PrintOne(Literal(literal)); }
  }

  lemma JoinPrinted(literal: string, token: Token, tail: seq<Token>, rest: string, s: string)
    requires IsPlain(literal) && NormalToken(token) && !token.Literal?
    requires NormalTokens(tail) && PrintTokens(tail) == rest && s == PrintToken(token) + rest
    ensures PrintTokens(Flush(literal) + [token] + tail) == literal + s
    ensures NormalTokens(Flush(literal) + [token] + tail)
  {
    hide *;
    JoinedText(literal, token, tail);
    JoinedNormal(literal, token, tail);
    Regroup(literal, PrintToken(token), rest);
  }

  lemma Regroup(a: string, b: string, c: string)
    ensures a + b + c == a + (b + c)
  {}

  lemma JoinedText(literal: string, token: Token, tail: seq<Token>)
    requires IsPlain(literal)
    ensures PrintTokens(Flush(literal) + [token] + tail) == literal + PrintToken(token) + PrintTokens(tail)
  {
    hide PrintTokens, PrintToken, IsPlain, Flush;
    FlushPrints(literal);
    PrintOne(token);
    PrintAppend(Flush(literal) + [token], tail);
    PrintAppend(Flush(literal), [token]);
  }

  lemma JoinedNormal(literal: string, token: Token, tail: seq<Token>)
    requires IsPlain(literal) && NormalToken(token) && !token.Literal? && NormalTokens(tail)
    ensures NormalTokens(Flush(literal) + [token] + tail)
  {
    hide IsPlain, PrintTokens;
    FlushPrints(literal);
  }

  /** The accepted texts are exactly the printed normal patterns. */
  lemma PrintInvertsParse(text: string)
    requires Parse(text).Ok?
    ensures Normal(Parse(text).value)
    ensures exists caret :: Print(Parse(text).value, caret) == text
  {
    hide ParseTokens, NormalTokens, IsSpecial, PrintTokens;
    if text == "*" {
      assert Print(Parse(text).value, false) == text;
    } else {
      var (rest, anchoredEnd) := Inner(text);
      var p := Parse(text).value;
      PrintInvertsTokens(rest, "");
      assert "" + rest == rest;
      var caret := text != "" && text[0] == '^';
      InnerRebuilds(text);
      assert Print(p, caret) == text;
    }
  }

  /** Stripping the anchors loses nothing. */
  lemma InnerRebuilds(text: string)
    ensures var (rest, anchoredEnd) := Inner(text);
            var caret := text != "" && text[0] == '^';
            text == (if caret then "^" else "") + rest + (if anchoredEnd then "$" else "")
  {
    var (rest, anchoredEnd) := Inner(text);
    var caret := text != "" && text[0] == '^';
    var cut := if caret then text[1..] else text;
    LastSplits(cut);
    if caret { assert text == [text[0]] + text[1..]; }
    assert caret ==> text == "^" + cut;
    assert (if caret then "^" else "") + rest + (if anchoredEnd then "$" else "") ==
      (if caret then "^" else "") + (rest + (if anchoredEnd then "$" else ""));
  }

  lemma LastSplits(s: string)
    ensures s != "" ==> s == s[..|s| - 1] + [s[|s| - 1]]
  {
  }
}
