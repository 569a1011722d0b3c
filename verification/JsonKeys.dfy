/** Printed JSON values of every nesting depth, and what the duplicate-key
    scanner does on them. */
module JsonKeys {
  import opened Wrappers
  import opened Sequences
  import opened Wire
  import opened JsonScan

  /** A character of a string body: itself, or a backslash and what it escapes. */
  datatype Piece = Plain(b: byte) | Escaped(b: byte)

  /** Values with the whitespace between their parts. `Atom` is a number or one
      of the three literal names. */
  datatype Value = Atom(token: Bytes)
                 | Text(body: seq<Piece>)
                 | Array(items: Items, inside: Bytes)
                 | Object(members: Members, inside: Bytes)

  datatype Items = NoItems | Item(before: Bytes, value: Value, after: Bytes, rest: Items)

  datatype Members = NoMembers
                   | Member(before: Bytes, name: seq<Piece>, colon: Bytes, gap: Bytes, value: Value, after: Bytes,
                            rest: Members)

  predicate IsBlank(s: Bytes) { forall i :: 0 <= i < |s| ==> IsSpace(s[i]) }

  function PrintBody(body: seq<Piece>): Bytes {
    if body == [] then [QUOTE]
    else (match body[0] case Plain(b) => [b] case Escaped(b) => [BACKSLASH, b]) + PrintBody(body[1..])
  }

  function PrintText(body: seq<Piece>): Bytes { [QUOTE] + PrintBody(body) }

  function Print(v: Value): Bytes {
    match v
    case Atom(token) => token
    case Text(body) => PrintText(body)
    case Array(items, inside) => [OPEN_ARRAY] + (if items.NoItems? then inside + [CLOSE_ARRAY] else PrintItems(items))
    case Object(members, inside) =>
      [OPEN_OBJECT] + (if members.NoMembers? then inside + [CLOSE_OBJECT] else PrintMembers(members))
  }

  /** The elements with their commas, up to the closing bracket. */
  function PrintItems(items: Items): Bytes {
    match items
    case NoItems => []
    case Item(before, value, after, rest) =>
      before + (Print(value) + (after + (if rest.NoItems? then [CLOSE_ARRAY] else [COMMA] + PrintItems(rest))))
  }

  function PrintMembers(members: Members): Bytes {
    match members
    case NoMembers => []
    case Member(before, name, colon, gap, value, after, rest) =>
      before + (PrintText(name) + (colon + ([COLON] + (gap + (Print(value) + (after +
        (if rest.NoMembers? then [CLOSE_OBJECT] else [COMMA] + PrintMembers(rest))))))))
  }

  /** String bodies hold no bare quote, backslash or control character, and the
      decoder accepts them. */
  predicate GoodText(decode: Decoder, body: seq<Piece>) {
    && (forall i :: 0 <= i < |body| ==> body[i].Plain? ==> body[i].b >= 0x20 && body[i].b != QUOTE && body[i].b != BACKSLASH)
    && decode(PrintText(body)).Some?
  }

  predicate GoodToken(token: Bytes) {
    && token != [] && token[0] != QUOTE && token[0] != OPEN_OBJECT && token[0] != OPEN_ARRAY
    && forall i :: 0 <= i < |token| ==> !EndsToken(token[i])
  }

  predicate Good(decode: Decoder, v: Value) {
    match v
    case Atom(token) => GoodToken(token)
    case Text(body) => GoodText(decode, body)
    case Array(items, inside) => IsBlank(inside) && GoodItems(decode, items)
    case Object(members, inside) => IsBlank(inside) && GoodMembers(decode, members)
  }

  predicate GoodItems(decode: Decoder, items: Items) {
    match items
    case NoItems => true
    case Item(before, value, after, rest) =>
      IsBlank(before) && Good(decode, value) && IsBlank(after) && GoodItems(decode, rest)
  }

  predicate GoodMembers(decode: Decoder, members: Members) {
    match members
    case NoMembers => true
    case Member(before, name, colon, gap, value, after, rest) =>
      IsBlank(before) && GoodText(decode, name) && IsBlank(colon) && IsBlank(gap) && Good(decode, value)
      && IsBlank(after) && GoodMembers(decode, rest)
  }

  function NameOf(decode: Decoder, name: seq<Piece>): string
    requires GoodText(decode, name)
  {
    decode(PrintText(name)).value
  }

  /** The decoded names of an object, in order. */
  function Names(decode: Decoder, members: Members): seq<string>
    requires GoodMembers(decode, members)
  {
    match members
    case NoMembers => []
    case Member(_, name, _, _, _, _, rest) => [NameOf(decode, name)] + Names(decode, rest)
  }

  predicate NoRepeats(names: seq<string>) {
    forall i, j :: 0 <= i < j < |names| ==> names[i] != names[j]
  }

  /** No object at any depth has two members with the same decoded name. */
  predicate UniqueNames(decode: Decoder, v: Value)
    requires Good(decode, v)
  {
    match v
    case Atom(_) => true
    case Text(_) => true
    case Array(items, _) => UniqueInItems(decode, items)
    case Object(members, _) => NoRepeats(Names(decode, members)) && UniqueInMembers(decode, members)
  }

  predicate UniqueInItems(decode: Decoder, items: Items)
    requires GoodItems(decode, items)
  {
    match items
    case NoItems => true
    case Item(_, value, _, rest) => UniqueNames(decode, value) && UniqueInItems(decode, rest)
  }

  predicate UniqueInMembers(decode: Decoder, members: Members)
    requires GoodMembers(decode, members)
  {
    match members
    case NoMembers => true
    case Member(_, _, _, _, value, _, rest) => UniqueNames(decode, value) && UniqueInMembers(decode, rest)
  }

  // ------------------------------------------------------------------ lemmas

  lemma {:induction false} SkipBlank(blank: Bytes, s: Bytes)
    requires IsBlank(blank)
    ensures SkipSpace(blank + s) == SkipSpace(s)
    decreases |blank|
  {
    if blank == [] {
      assert blank + s == s;
    } else {
      assert (blank + s)[1..] == blank[1..] + s;
      SkipBlank(blank[1..], s);
    }
  }

  lemma {:induction false} BodyEnd(all: Bytes, i: nat, body: seq<Piece>, rest: Bytes)
    requires i <= |all| && all[i..] == PrintBody(body) + rest
    requires forall k :: 0 <= k < |body| ==> body[k].Plain? ==>
      body[k].b >= 0x20 && body[k].b != QUOTE && body[k].b != BACKSLASH
    ensures StringEnd(all, i) == Some(|all| - |rest|)
    decreases |body|
  {
    assert all[i] == all[i..][0];
    if body != [] {
      var step := if body[0].Plain? then 1 else 2;
      assert all[i..][step..] == PrintBody(body[1..]) + rest;
      assert all[i + step..] == all[i..][step..];
      BodyEnd(all, i + step, body[1..], rest);
    }
  }

  lemma SkipTo(blank: Bytes, s: Bytes)
    requires IsBlank(blank) && (s == [] || !IsSpace(s[0]))
    ensures SkipSpace(blank + s) == s
  {
    SkipBlank(blank, s);
  }

  /** A printed string is consumed exactly and decoded as a whole. */
  lemma TextIsConsumed(decode: Decoder, body: seq<Piece>, rest: Bytes)
    requires GoodText(decode, body)
    ensures ScanString(decode, PrintText(body) + rest) == Ok((NameOf(decode, body), rest))
  {
    var s := PrintText(body) + rest;
    assert s[1..] == PrintBody(body) + rest;
    BodyEnd(s, 1, body, rest);
    assert s[..|s| - |rest|] == PrintText(body) && s[|s| - |rest|..] == rest;
  }

  lemma {:induction false} TokenIsConsumed(token: Bytes, rest: Bytes)
    requires forall i :: 0 <= i < |token| ==> !EndsToken(token[i])
    requires rest == [] || EndsToken(rest[0])
    ensures TokenLength(token + rest) == |token|
    decreases |token|
  {
    if token == [] {
      assert token + rest == rest;
    } else {
      assert (token + rest)[1..] == token[1..] + rest;
      TokenIsConsumed(token[1..], rest);
    }
  }

  /** What the scanner must answer: all of the value, or a duplicate name. */
  function Answer(unique: bool, rest: Bytes): Result<Bytes, ScanError> {
    if unique then Ok(rest) else Err(DuplicateKey)
  }

  lemma AtomIsScanned(decode: Decoder, token: Bytes, blank: Bytes, rest: Bytes)
    requires GoodToken(token) && IsBlank(blank) && (rest == [] || EndsToken(rest[0]))
    ensures ScanValue(decode, blank + (token + rest)) == Ok(rest)
  {
    hide ScanMembers, ScanItems, ScanString, SkipSpace;
    assert (token + rest)[0] == token[0] && !EndsToken(token[0]);
    SkipTo(blank, token + rest);
    TokenIsConsumed(token, rest);
    assert (token + rest)[|token|..] == rest;
  }

  lemma TextIsScanned(decode: Decoder, body: seq<Piece>, blank: Bytes, rest: Bytes)
    requires GoodText(decode, body) && IsBlank(blank)
    ensures ScanValue(decode, blank + (PrintText(body) + rest)) == Ok(rest)
  {
    hide ScanMembers, ScanItems, ScanString, SkipSpace;
    assert (PrintText(body) + rest)[0] == QUOTE;
    SkipTo(blank, PrintText(body) + rest);
    TextIsConsumed(decode, body, rest);
  }

  /** An opening bracket hands over to its loop. */
  lemma BracketIsScanned(decode: Decoder, open: byte, blank: Bytes, tail: Bytes)
    requires IsBlank(blank) && (open == OPEN_ARRAY || open == OPEN_OBJECT)
    ensures ScanValue(decode, blank + ([open] + tail))
         == if open == OPEN_ARRAY then ScanItems(decode, tail) else ScanMembers(decode, tail, {})
  {
    hide ScanMembers, ScanItems, ScanString, SkipSpace;
    SkipTo(blank, [open] + tail);
    assert ([open] + tail)[1..] == tail;
  }

  /** Brackets around nothing but whitespace. */
  lemma EmptyIsScanned(decode: Decoder, inside: Bytes, rest: Bytes)
    requires IsBlank(inside)
    ensures ScanItems(decode, inside + ([CLOSE_ARRAY] + rest)) == Ok(rest)
    ensures ScanMembers(decode, inside + ([CLOSE_OBJECT] + rest), {}) == Ok(rest)
  {
    hide ScanValue, ScanName, ScanSeparator, SkipSpace;
    SkipTo(inside, [CLOSE_ARRAY] + rest);
    SkipTo(inside, [CLOSE_OBJECT] + rest);
    assert ([CLOSE_ARRAY] + rest)[1..] == rest && ([CLOSE_OBJECT] + rest)[1..] == rest;
  }

  /** The main fact, at every depth: a printed value is consumed exactly when its
      names are unique, and otherwise reported as a duplicate. */
  lemma {:induction false} ValueIsScanned(decode: Decoder, v: Value, blank: Bytes, rest: Bytes)
    requires Good(decode, v) && IsBlank(blank) && (rest == [] || EndsToken(rest[0]))
    ensures ScanValue(decode, blank + (Print(v) + rest)) == Answer(UniqueNames(decode, v), rest)
    decreases v, 0
  {
    hide ScanValue, ScanItems, ScanMembers, SkipSpace, PrintText, GoodText, GoodToken, NoRepeats;
    match v
    case Atom(token) =>
      AtomIsScanned(decode, token, blank, rest);
    case Text(body) =>
      TextIsScanned(decode, body, blank, rest);
    case Array(items, inside) =>
      var inner := if items.NoItems? then inside + [CLOSE_ARRAY] else PrintItems(items);
      Regroup([OPEN_ARRAY], inner, rest);
      BracketIsScanned(decode, OPEN_ARRAY, blank, inner + rest);
      if items.NoItems? {
        Regroup(inside, [CLOSE_ARRAY], rest);
        EmptyIsScanned(decode, inside, rest);
      } else {
        ItemsAreScanned(decode, items, rest);
      }
    case Object(members, inside) =>
      var inner := if members.NoMembers? then inside + [CLOSE_OBJECT] else PrintMembers(members);
      Regroup([OPEN_OBJECT], inner, rest);
      BracketIsScanned(decode, OPEN_OBJECT, blank, inner + rest);
      if members.NoMembers? {
        Regroup(inside, [CLOSE_OBJECT], rest);
        EmptyIsScanned(decode, inside, rest);
        NothingRepeats(decode, members);
      } else {
        MembersAreScanned(decode, members, {}, rest);
        FreshAmongNone(Names(decode, members));
      }
  }

  lemma NothingRepeats(decode: Decoder, members: Members)
    requires members.NoMembers?
    ensures NoRepeats(Names(decode, members))
  {}

  predicate Fresh(names: seq<string>, seen: set<string>) {
    forall i :: 0 <= i < |names| ==> names[i] !in seen
  }

  lemma FreshAmongNone(names: seq<string>)
    ensures Fresh(names, {})
  {}

  /** What follows an element: the closing bracket, or a comma and the others. */
  function Tail(after: Bytes, close: byte, more: Bytes, last: bool): Bytes {
    after + ([if last then close else COMMA] + more)
  }

  lemma TailEndsToken(after: Bytes, close: byte, more: Bytes, last: bool)
    requires IsBlank(after) && (close == CLOSE_ARRAY || close == CLOSE_OBJECT)
    ensures var t := Tail(after, close, more, last); t != [] && EndsToken(t[0])
  {
    if after != [] {
      assert Tail(after, close, more, last)[0] == after[0];
    }
  }

  lemma SeparatorIsScanned(after: Bytes, close: byte, more: Bytes, last: bool, name: string, error: ScanError)
    requires IsBlank(after) && (close == CLOSE_ARRAY || close == CLOSE_OBJECT)
    ensures ScanSeparator(Tail(after, close, more, last), close, name, error)
         == Ok(if last then Closed(more) else Another(more, name))
  {
    hide SkipSpace;
    var t := [if last then close else COMMA] + more;
    SkipTo(after, t);
    assert t[1..] == more;
  }

  /** The element loop reaches its value past the whitespace. */
  lemma ItemStart(decode: Decoder, before: Bytes, value: Value, tail: Bytes)
    requires IsBlank(before) && Good(decode, value)
    ensures SkipSpace(before + (Print(value) + tail)) == Print(value) + tail
    ensures !StartsWith(Print(value) + tail, CLOSE_ARRAY)
  {
    hide SkipSpace, Print;
    PrintStart(decode, value);
    assert (Print(value) + tail)[0] == Print(value)[0];
    SkipTo(before, Print(value) + tail);
  }

  lemma PrintStart(decode: Decoder, value: Value)
    requires Good(decode, value)
    ensures Print(value) != [] && !EndsToken(Print(value)[0])
  {
    if value.Atom? {
      assert !EndsToken(value.token[0]);
    }
  }

  /** One turn of the element loop. */
  lemma {:induction false} ItemIsScanned(decode: Decoder, before: Bytes, value: Value, after: Bytes, more: Bytes, last: bool)
    requires IsBlank(before) && Good(decode, value) && IsBlank(after)
    ensures ScanItem(decode, before + (Print(value) + Tail(after, CLOSE_ARRAY, more, last)))
         == if !UniqueNames(decode, value) then Err(DuplicateKey)
            else if last then Ok(Closed(more)) else Ok(Another(more, ""))
    decreases value, 1
  {
    hide ScanValue, SkipSpace, Print, ScanSeparator, StartsWith, Tail, UniqueNames, IsBlank;
    var tail := Tail(after, CLOSE_ARRAY, more, last);
    ItemStart(decode, before, value, tail);
    TailEndsToken(after, CLOSE_ARRAY, more, last);
    NothingIsBlank();
    ValueIsScanned(decode, value, [], tail);
    assert [] + (Print(value) + tail) == Print(value) + tail;
    SeparatorIsScanned(after, CLOSE_ARRAY, more, last, "", UnterminatedArray);
  }

  lemma NothingIsBlank()
    ensures IsBlank([])
  {}

  /** A printed element and what follows it. */
  lemma ItemShape(items: Items, rest: Bytes, more: Bytes)
    requires items.Item?
    requires more == (if items.rest.NoItems? then [] else PrintItems(items.rest)) + rest
    ensures PrintItems(items) + rest
         == items.before + (Print(items.value) + Tail(items.after, CLOSE_ARRAY, more, items.rest.NoItems?))
  {
    hide Print;
    var end := if items.rest.NoItems? then [CLOSE_ARRAY] else [COMMA] + PrintItems(items.rest);
    assert end + rest == [if items.rest.NoItems? then CLOSE_ARRAY else COMMA] + more;
    Regroup(items.before, Print(items.value) + (items.after + end), rest);
    Regroup(Print(items.value), items.after + end, rest);
    Regroup(items.after, end, rest);
  }

  lemma {:induction false} ItemsAreScanned(decode: Decoder, items: Items, rest: Bytes)
    requires GoodItems(decode, items) && items.Item?
    ensures ScanItems(decode, PrintItems(items) + rest) == Answer(UniqueInItems(decode, items), rest)
    decreases items, 0
  {
    hide ScanItem, Print, PrintItems, Tail, UniqueNames;
    var last := items.rest.NoItems?;
    var more := (if last then [] else PrintItems(items.rest)) + rest;
    ItemShape(items, rest, more);
    ItemIsScanned(decode, items.before, items.value, items.after, more, last);
    if !last {
      ItemsAreScanned(decode, items.rest, rest);
    } else {
      assert more == rest;
    }
  }

  lemma NamesSplit(name: string, names: seq<string>, seen: set<string>)
    ensures Fresh([name] + names, seen) && NoRepeats([name] + names)
       <==> name !in seen && Fresh(names, seen + {name}) && NoRepeats(names)
  {
    var all := [name] + names;
    if Fresh(all, seen) && NoRepeats(all) {
      forall i | 0 <= i < |names| ensures names[i] !in seen + {name} {
        assert all[i + 1] == names[i] && all[0] == name;
      }
      forall i, j | 0 <= i < j < |names| ensures names[i] != names[j] {
        assert all[i + 1] == names[i] && all[j + 1] == names[j];
      }
      assert all[0] !in seen;
    }
  }

  /** A member's name, colon and the start of its value. */
  lemma NameIsScanned(decode: Decoder, name: seq<Piece>, colon: Bytes, tail: Bytes, seen: set<string>)
    requires GoodText(decode, name) && IsBlank(colon)
    ensures ScanName(decode, PrintText(name) + (colon + ([COLON] + tail)), seen)
         == if NameOf(decode, name) in seen then Err(DuplicateKey) else Ok((NameOf(decode, name), tail))
  {
    hide ScanString, PrintText, GoodText, SkipSpace;
    TextIsConsumed(decode, name, colon + ([COLON] + tail));
    SkipTo(colon, [COLON] + tail);
    assert ([COLON] + tail)[1..] == tail;
  }

  /** One turn of the member loop. */
  lemma {:induction false} MemberIsScanned(decode: Decoder, m: Members, seen: set<string>, more: Bytes)
    requires GoodMembers(decode, m) && m.Member?
    ensures ScanMember(decode, MemberBytes(m, more), seen) ==
      if NameOf(decode, m.name) in seen || !UniqueNames(decode, m.value) then Err(DuplicateKey)
      else if m.rest.NoMembers? then Ok(Closed(more))
      else Ok(Another(more, NameOf(decode, m.name)))
    decreases m, 0
  {
    hide ScanName, ScanValue, ScanSeparator, SkipSpace, Print, PrintText, Tail, UniqueNames, GoodText, IsBlank, NameOf;
    var last := m.rest.NoMembers?;
    var tail := Tail(m.after, CLOSE_OBJECT, more, last);
    var afterColon := m.gap + (Print(m.value) + tail);
    var named := PrintText(m.name) + (m.colon + ([COLON] + afterColon));
    SkipBlank(m.before, named);
    TextStart(m.name, m.colon + ([COLON] + afterColon));
    NameIsScanned(decode, m.name, m.colon, afterColon, seen);
    TailEndsToken(m.after, CLOSE_OBJECT, more, last);
    ValueIsScanned(decode, m.value, m.gap, tail);
    SeparatorIsScanned(m.after, CLOSE_OBJECT, more, last, NameOf(decode, m.name), UnterminatedObject);
  }

  lemma TextStart(name: seq<Piece>, tail: Bytes)
    ensures SkipSpace(PrintText(name) + tail) == PrintText(name) + tail
    ensures !StartsWith(PrintText(name) + tail, CLOSE_OBJECT)
  {
    assert (PrintText(name) + tail)[0] == QUOTE;
  }

  /** The first member and then `more` after its comma or closing brace. */
  function MemberBytes(m: Members, more: Bytes): Bytes
    requires m.Member?
  {
    m.before + (PrintText(m.name) + (m.colon + ([COLON] + (m.gap + (Print(m.value) +
      Tail(m.after, CLOSE_OBJECT, more, m.rest.NoMembers?))))))
  }

  lemma MemberShape(m: Members, rest: Bytes, more: Bytes)
    requires m.Member?
    requires more == (if m.rest.NoMembers? then [] else PrintMembers(m.rest)) + rest
    ensures PrintMembers(m) + rest == MemberBytes(m, more)
  {
    hide Print, PrintText;
    var end := if m.rest.NoMembers? then [CLOSE_OBJECT] else [COMMA] + PrintMembers(m.rest);
    assert end + rest == [if m.rest.NoMembers? then CLOSE_OBJECT else COMMA] + more;
    var fromAfter := m.after + end;
    var fromValue := Print(m.value) + fromAfter;
    var fromGap := m.gap + fromValue;
    var fromSign := [COLON] + fromGap;
    var fromColon := m.colon + fromSign;
    Regroup(m.before, PrintText(m.name) + fromColon, rest);
    Regroup(PrintText(m.name), fromColon, rest);
    Regroup(m.colon, fromSign, rest);
    Regroup([COLON], fromGap, rest);
    Regroup(m.gap, fromValue, rest);
    Regroup(Print(m.value), fromAfter, rest);
    Regroup(m.after, end, rest);
  }

  lemma {:induction false} MembersAreScanned(decode: Decoder, members: Members, seen: set<string>, rest: Bytes)
    requires GoodMembers(decode, members) && members.Member?
    ensures ScanMembers(decode, PrintMembers(members) + rest, seen)
         == Answer(Fresh(Names(decode, members), seen) && NoRepeats(Names(decode, members))
                   && UniqueInMembers(decode, members), rest)
    decreases members, 1
  {
    hide ScanMember, PrintMembers, MemberBytes, UniqueNames, Fresh, NoRepeats, NameOf, GoodText, IsBlank;
    var last := members.rest.NoMembers?;
    var more := (if last then [] else PrintMembers(members.rest)) + rest;
    var name := NameOf(decode, members.name);
    MemberShape(members, rest, more);
    MemberIsScanned(decode, members, seen, more);
    NamesSplit(name, Names(decode, members.rest), seen);
    if !last {
      MembersAreScanned(decode, members.rest, seen + {name}, rest);
    } else {
      assert more == rest;
      FreshNothing(seen + {name});
    }
  }

  lemma FreshNothing(seen: set<string>)
    ensures Fresh([], seen) && NoRepeats([])
  {}

  lemma AfterDocument(after: Bytes)
    requires IsBlank(after)
    ensures after == [] || EndsToken(after[0])
  {}

  /** A whole document is accepted exactly when no object of it, at any depth,
      repeats a decoded name; the only complaint is the duplicate. */
  lemma DocumentIsJudged(decode: Decoder, v: Value, before: Bytes, after: Bytes)
    requires Good(decode, v) && IsBlank(before) && IsBlank(after)
    ensures Reject(decode, before + (Print(v) + after))
         == if UniqueNames(decode, v) then Ok(()) else Err(DuplicateKey)
  {
    hide ScanValue, Print, UniqueNames, SkipSpace;
    AfterDocument(after);
    ValueIsScanned(decode, v, before, after);
    SkipTo(after, []);
    assert after + [] == after;
  }
}
