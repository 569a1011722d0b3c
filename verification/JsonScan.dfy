/** The recursive duplicate-key scanner that release inputs pass before they are
    decoded, as a function of the unread bytes and as the cursor-moving code. */
module JsonScan {
  import opened Wrappers
  import opened Wire

  /** Decodes one string literal, quotes included. */
  type Decoder = Bytes -> Option<string>

  datatype ScanError = MissingValue | DuplicateKey | KeyNotString | KeyWithoutColon | UnterminatedObject
                     | UnterminatedArray | UnterminatedString | InvalidEscape | TrailingData

  const QUOTE: byte := 0x22
  const BACKSLASH: byte := 0x5c
  const OPEN_OBJECT: byte := 0x7b
  const CLOSE_OBJECT: byte := 0x7d
  const OPEN_ARRAY: byte := 0x5b
  const CLOSE_ARRAY: byte := 0x5d
  const COLON: byte := 0x3a
  const COMMA: byte := 0x2c

  predicate IsSpace(b: byte) { b == 0x20 || b == 0x09 || b == 0x0d || b == 0x0a }

  predicate EndsToken(b: byte) { b == COMMA || b == CLOSE_ARRAY || b == CLOSE_OBJECT || IsSpace(b) }

  predicate StartsWith(s: Bytes, b: byte) { s != [] && s[0] == b }

  function SkipSpace(s: Bytes): (r: Bytes)
    ensures |r| <= |s|
  {
    if s != [] && IsSpace(s[0]) then SkipSpace(s[1..]) else s
  }

  function TokenLength(s: Bytes): (n: nat)
    ensures n <= |s|
  {
    if s == [] || EndsToken(s[0]) then 0 else 1 + TokenLength(s[1..])
  }

  /** Position after the closing quote, from position i inside a literal. */
  function StringEnd(s: Bytes, i: nat): (r: Option<nat>)
    ensures r.Some? ==> i < r.value <= |s|
    decreases |s| - i
  {
    if i >= |s| then None
    else if s[i] == QUOTE then Some(i + 1)
    else if s[i] == BACKSLASH then StringEnd(s, i + 2)
    else if s[i] >= 0x20 then StringEnd(s, i + 1)
    else None
  }

  /** scan_string: the decoded literal and the unread rest. */
  function ScanString(decode: Decoder, s: Bytes): (r: Result<(string, Bytes), ScanError>)
    ensures r.Ok? ==> |r.value.1| < |s|
  {
    if !StartsWith(s, QUOTE) then Err(KeyNotString)
    else match StringEnd(s, 1)
      case None => Err(UnterminatedString)
      case Some(end) =>
        match decode(s[..end])
        case None => Err(InvalidEscape)
        case Some(text) => Ok((text, s[end..]))
  }

  /** scan_value: the unread rest after one value. Every success moves forward. */
  function ScanValue(decode: Decoder, s: Bytes): (r: Result<Bytes, ScanError>)
    ensures r.Ok? ==> |r.value| < |s|
    decreases |s|, 1
  {
    var t := SkipSpace(s);
    if t == [] then Err(MissingValue)
    else if t[0] == OPEN_OBJECT then ScanMembers(decode, t[1..], {})
    else if t[0] == OPEN_ARRAY then ScanItems(decode, t[1..])
    else if t[0] == QUOTE then
      var text :- ScanString(decode, t);
      Ok(text.1)
    else
      var n := TokenLength(t);
      if n == 0 then Err(MissingValue) else Ok(t[n..])
  }

  /** One turn of an object or array loop: the closing bracket, or an element
      followed by a comma. */
  datatype Turn = Closed(rest: Bytes) | Another(rest: Bytes, name: string)

  /** A new name and its colon: the name and what follows the colon. */
  function ScanName(decode: Decoder, t: Bytes, names: set<string>): (r: Result<(string, Bytes), ScanError>)
    ensures r.Ok? ==> |r.value.1| < |t|
  {
    var key :- ScanString(decode, t);
    if key.0 in names then Err(DuplicateKey)
    else
      var u := SkipSpace(key.1);
      if !StartsWith(u, COLON) then Err(KeyWithoutColon) else Ok((key.0, u[1..]))
  }

  /** What stands after an element. */
  function ScanSeparator(rest: Bytes, close: byte, name: string, error: ScanError): (r: Result<Turn, ScanError>)
    ensures r.Ok? ==> |r.value.rest| < |rest|
  {
    var v := SkipSpace(rest);
    if StartsWith(v, COMMA) then Ok(Another(v[1..], name))
    else if StartsWith(v, close) then Ok(Closed(v[1..]))
    else Err(error)
  }

  /** One member, with the names seen so far. */
  function ScanMember(decode: Decoder, s: Bytes, names: set<string>): (r: Result<Turn, ScanError>)
    ensures r.Ok? ==> |r.value.rest| < |s|
    decreases |s|, 2
  {
    var t := SkipSpace(s);
    if StartsWith(t, CLOSE_OBJECT) then Ok(Closed(t[1..]))
    else
      var key :- ScanName(decode, t, names);
      var rest :- ScanValue(decode, key.1);
      ScanSeparator(rest, CLOSE_OBJECT, key.0, UnterminatedObject)
  }

  /** scan_object after its opening brace. */
  function ScanMembers(decode: Decoder, s: Bytes, names: set<string>): (r: Result<Bytes, ScanError>)
    ensures r.Ok? ==> |r.value| < |s|
    decreases |s|, 3
  {
    var turn :- ScanMember(decode, s, names);
    if turn.Closed? then Ok(turn.rest) else ScanMembers(decode, turn.rest, names + {turn.name})
  }

  function ScanItem(decode: Decoder, s: Bytes): (r: Result<Turn, ScanError>)
    ensures r.Ok? ==> |r.value.rest| < |s|
    decreases |s|, 2
  {
    var t := SkipSpace(s);
    if StartsWith(t, CLOSE_ARRAY) then Ok(Closed(t[1..]))
    else
      var rest :- ScanValue(decode, t);
      ScanSeparator(rest, CLOSE_ARRAY, "", UnterminatedArray)
  }

  /** scan_array after its opening bracket. */
  function ScanItems(decode: Decoder, s: Bytes): (r: Result<Bytes, ScanError>)
    ensures r.Ok? ==> |r.value| < |s|
    decreases |s|, 3
  {
    var turn :- ScanItem(decode, s);
    if turn.Closed? then Ok(turn.rest) else ScanItems(decode, turn.rest)
  }

  /** reject_duplicate_object_keys */
  function Reject(decode: Decoder, s: Bytes): Result<(), ScanError> {
    var rest :- ScanValue(decode, s);
    if SkipSpace(rest) == [] then Ok(()) else Err(TrailingData)
  }

  // --------------------------------------------------- the cursor-moving code

  /** A cursor result agrees with the unread rest of the functional scanner. */
  ghost predicate Agrees(bytes: Bytes, spec: Result<Bytes, ScanError>, r: Result<(), ScanError>, next: nat) {
    match spec
    case Ok(rest) => r == Ok(()) && next <= |bytes| && bytes[next..] == rest
    case Err(e) => r == Err(e)
  }

  method SkipWhitespace(bytes: Bytes, index: nat) returns (next: nat)
    requires index <= |bytes|
    ensures index <= next <= |bytes| && bytes[next..] == SkipSpace(bytes[index..])
  {
    next := index;
    while next < |bytes| && IsSpace(bytes[next])
      invariant index <= next <= |bytes|
      invariant SkipSpace(bytes[index..]) == SkipSpace(bytes[next..])
    {
      assert bytes[next..][1..] == bytes[next + 1..];
      next := next + 1;
    }
  }

  method ReadString(decode: Decoder, bytes: Bytes, index: nat) returns (r: Result<string, ScanError>, next: nat)
    requires index <= |bytes|
    ensures match ScanString(decode, bytes[index..])
            case Ok((text, rest)) => r == Ok(text) && index < next <= |bytes| && bytes[next..] == rest
            case Err(e) => r == Err(e)
  {
    ghost var s := bytes[index..];
    next := index;
    if next >= |bytes| || bytes[next] != QUOTE {
      return Err(KeyNotString), next;
    }
    next := next + 1;
    while true
      invariant index < next
      invariant StringEnd(s, 1) == StringEnd(s, next - index)
      decreases |bytes| - next
    {
      if next >= |bytes| {
        return Err(UnterminatedString), next;
      }
      assert bytes[next] == s[next - index];
      if bytes[next] == QUOTE {
        next := next + 1;
        break;
      } else if bytes[next] == BACKSLASH {
        next := next + 2;
      } else if bytes[next] >= 0x20 {
        next := next + 1;
      } else {
        return Err(UnterminatedString), next;
      }
    }
    assert bytes[index..next] == s[..next - index];
    assert bytes[next..] == s[next - index..];
    match decode(bytes[index..next])
    case None => r := Err(InvalidEscape);
    case Some(text) => r := Ok(text);
  }

  lemma Advance(bytes: Bytes, at: nat)
    requires at < |bytes|
    ensures bytes[at..][0] == bytes[at] && bytes[at..][1..] == bytes[at + 1..]
  {}

  method ReadToken(bytes: Bytes, start: nat) returns (next: nat)
    requires start <= |bytes|
    ensures next == start + TokenLength(bytes[start..])
  {
    next := start;
    while next < |bytes| && !EndsToken(bytes[next])
      invariant start <= next <= |bytes|
      invariant TokenLength(bytes[start..]) == next - start + TokenLength(bytes[next..])
    {
      Advance(bytes, next);
      next := next + 1;
    }
  }

  method ReadValue(decode: Decoder, bytes: Bytes, index: nat) returns (r: Result<(), ScanError>, next: nat)
    requires index <= |bytes|
    ensures Agrees(bytes, ScanValue(decode, bytes[index..]), r, next)
    decreases |bytes| - index, 1
  {
    hide ScanMembers, ScanItems, ScanString;
    next := SkipWhitespace(bytes, index);
    if next >= |bytes| {
      return Err(MissingValue), next;
    }
    Advance(bytes, next);
    if bytes[next] == OPEN_OBJECT {
      r, next := ReadObject(decode, bytes, next);
    } else if bytes[next] == OPEN_ARRAY {
      r, next := ReadArray(decode, bytes, next);
    } else if bytes[next] == QUOTE {
      var text;
      text, next := ReadString(decode, bytes, next);
      r := if text.Ok? then Ok(()) else Err(text.error);
    } else {
      var start := next;
      next := ReadToken(bytes, start);
      assert bytes[start..][next - start..] == bytes[next..];
      r := if start == next then Err(MissingValue) else Ok(());
    }
  }

  /** A cursor turn agrees with the functional one: `closed` ends the loop. */
  ghost predicate TurnAgrees(bytes: Bytes, spec: Result<Turn, ScanError>, r: Result<Option<string>, ScanError>, next: nat) {
    match spec
    case Ok(Closed(rest)) => r == Ok(None) && next <= |bytes| && bytes[next..] == rest
    case Ok(Another(rest, name)) => r == Ok(Some(name)) && next <= |bytes| && bytes[next..] == rest
    case Err(e) => r == Err(e)
  }

  method ReadSeparator(bytes: Bytes, index: nat, close: byte, name: string, error: ScanError)
    returns (r: Result<Option<string>, ScanError>, next: nat)
    requires index <= |bytes|
    ensures TurnAgrees(bytes, ScanSeparator(bytes[index..], close, name, error), r, next)
  {
    hide SkipSpace;
    next := SkipWhitespace(bytes, index);
    if next < |bytes| && (bytes[next] == COMMA || bytes[next] == close) {
      Advance(bytes, next);
      return Ok(if bytes[next] == COMMA then Some(name) else None), next + 1;
    }
    r := Err(error);
  }

  method ReadName(decode: Decoder, bytes: Bytes, index: nat, names: set<string>)
    returns (r: Result<string, ScanError>, next: nat)
    requires index <= |bytes|
    ensures match ScanName(decode, bytes[index..], names)
            case Ok((name, rest)) => r == Ok(name) && index < next <= |bytes| && bytes[next..] == rest
            case Err(e) => r == Err(e)
  {
    hide ScanString;
    r, next := ReadString(decode, bytes, index);
    if r.Err? {
      return;
    }
    if r.value in names {
      return Err(DuplicateKey), next;
    }
    next := SkipWhitespace(bytes, next);
    if next >= |bytes| || bytes[next] != COLON {
      return Err(KeyWithoutColon), next;
    }
    Advance(bytes, next);
    next := next + 1;
  }

  method ReadMember(decode: Decoder, bytes: Bytes, index: nat, names: set<string>)
    returns (r: Result<Option<string>, ScanError>, next: nat)
    requires index <= |bytes|
    ensures TurnAgrees(bytes, ScanMember(decode, bytes[index..], names), r, next)
    decreases |bytes| - index, 2
  {
    hide ScanName, ScanValue, ScanSeparator;
    next := SkipWhitespace(bytes, index);
    if next < |bytes| && bytes[next] == CLOSE_OBJECT {
      Advance(bytes, next);
      return Ok(None), next + 1;
    }
    var key, value;
    key, next := ReadName(decode, bytes, next, names);
    if key.Err? {
      return Err(key.error), next;
    }
    value, next := ReadValue(decode, bytes, next);
    if value.Err? {
      return Err(value.error), next;
    }
    r, next := ReadSeparator(bytes, next, CLOSE_OBJECT, key.value, UnterminatedObject);
  }

  method ReadObject(decode: Decoder, bytes: Bytes, index: nat) returns (r: Result<(), ScanError>, next: nat)
    requires index < |bytes|
    ensures Agrees(bytes, ScanMembers(decode, bytes[index + 1..], {}), r, next)
    decreases |bytes| - index, 0
  {
    hide ScanMember;
    next := index + 1;
    var names: set<string> := {};
    while true
      invariant index < next <= |bytes|
      invariant ScanMembers(decode, bytes[index + 1..], {}) == ScanMembers(decode, bytes[next..], names)
      decreases |bytes| - next
    {
      var turn;
      turn, next := ReadMember(decode, bytes, next, names);
      match turn
      case Err(e) => return Err(e), next;
      case Ok(None) => return Ok(()), next;
      case Ok(Some(name)) => names := names + {name};
    }
  }

  method ReadItem(decode: Decoder, bytes: Bytes, index: nat) returns (r: Result<Option<string>, ScanError>, next: nat)
    requires index <= |bytes|
    ensures TurnAgrees(bytes, ScanItem(decode, bytes[index..]), r, next)
    decreases |bytes| - index, 2
  {
    hide ScanValue, ScanSeparator;
    next := SkipWhitespace(bytes, index);
    if next < |bytes| && bytes[next] == CLOSE_ARRAY {
      Advance(bytes, next);
      return Ok(None), next + 1;
    }
    var value;
    value, next := ReadValue(decode, bytes, next);
    if value.Err? {
      return Err(value.error), next;
    }
    r, next := ReadSeparator(bytes, next, CLOSE_ARRAY, "", UnterminatedArray);
  }

  method ReadArray(decode: Decoder, bytes: Bytes, index: nat) returns (r: Result<(), ScanError>, next: nat)
    requires index < |bytes|
    ensures Agrees(bytes, ScanItems(decode, bytes[index + 1..]), r, next)
    decreases |bytes| - index, 0
  {
    hide ScanItem;
    next := index + 1;
    while true
      invariant index < next <= |bytes|
      invariant ScanItems(decode, bytes[index + 1..]) == ScanItems(decode, bytes[next..])
      decreases |bytes| - next
    {
      var turn;
      turn, next := ReadItem(decode, bytes, next);
      match turn
      case Err(e) => return Err(e), next;
      case Ok(None) => return Ok(()), next;
      case Ok(Some(_)) =>
    }
  }

  /** reject_duplicate_object_keys, with its shared cursor. */
  method RejectDuplicateKeys(decode: Decoder, bytes: Bytes) returns (r: Result<(), ScanError>)
    ensures r == Reject(decode, bytes)
  {
    assert bytes[0..] == bytes;
    var index;
    r, index := ReadValue(decode, bytes, 0);
    if r.Ok? {
      index := SkipWhitespace(bytes, index);
      r := if index == |bytes| then Ok(()) else Err(TrailingData);
    }
  }
}
