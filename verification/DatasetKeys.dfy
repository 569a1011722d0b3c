/** Length-framed identity strings and the duplicate keys built from them.
    Strings are byte strings: one character for each UTF-8 byte. */
module DatasetKeys {
  import opened Wrappers
  import opened Decimal

  /** canonical_parts: each part behind its length. */
  function CanonicalParts(parts: seq<string>): string {
    if parts == [] then "" else Digits(|parts[0]|) + (":" + (parts[0] + ("|" + CanonicalParts(parts[1..]))))
  }

  /** Part after part can be read off, so no two lists are framed alike. */
  lemma {:induction false} PartsInjective(a: seq<string>, b: seq<string>)
    requires CanonicalParts(a) == CanonicalParts(b)
    ensures a == b
    decreases |a|
  {
    hide Digits;
    if a != [] && b != [] {
      var x, y := "|" + CanonicalParts(a[1..]), "|" + CanonicalParts(b[1..]);
      NumeralSplits(Digits(|a[0]|), ":" + (a[0] + x), Digits(|b[0]|), ":" + (b[0] + y));
      DigitsInjective(|a[0]|, |b[0]|);
      SamePrefix(":", a[0] + x, b[0] + y);
      SameLengthPrefix(a[0], x, b[0], y);
      SamePrefix("|", CanonicalParts(a[1..]), CanonicalParts(b[1..]));
      PartsInjective(a[1..], b[1..]);
      assert a == [a[0]] + a[1..] && b == [b[0]] + b[1..];
    }
  }

  lemma SameLengthPrefix(a: string, x: string, b: string, y: string)
    requires |a| == |b| && a + x == b + y
    ensures a == b && x == y
  {
    assert (a + x)[..|a|] == a && (b + y)[..|b|] == b;
    SamePrefix(a, x, y);
  }

  datatype Split = Train | Tuning | HeldOut

  datatype Tier = A | B | C

  /** A normalized record; `rest` stands for the fields no key looks at. */
  datatype Record = Record(sampleId: string, split: Split, tier: Tier, context: string, reading: string,
                           candidateIds: seq<string>, expected: Option<string>, rest: string)

  const NEAR_DUPLICATE_ALGORITHM := "nfc-alphanumeric-layout-insensitive-v1"

  /** What the keys take from unseen libraries: the digest, the layout-free form
      of a context, and its number of characters. */
  datatype Library = Library(digest: string -> string, simplify: string -> string, characters: string -> nat)

  function JoinIds(ids: seq<string>): string {
    if ids == [] then "" else if |ids| == 1 then ids[0] else ids[0] + "," + JoinIds(ids[1..])
  }

  function ExpectedText(r: Record): string { match r.expected case None => "-" case Some(id) => id }

  function ExactParts(r: Record): seq<string> { [r.context, r.reading, JoinIds(r.candidateIds), ExpectedText(r)] }

  function ExactKey(lib: Library, r: Record): string { lib.digest(CanonicalParts(ExactParts(r))) }

  function NearKey(lib: Library, r: Record): Option<string> {
    var context := lib.simplify(r.context);
    if lib.characters(context) < 16 then None
    else Some(lib.digest(CanonicalParts([NEAR_DUPLICATE_ALGORITHM, context, r.reading, ExpectedText(r)])))
  }

  ghost predicate DigestInjective(lib: Library) { forall a, b :: lib.digest(a) == lib.digest(b) ==> a == b }

  /** Records that agree on the exact key agree on the near key. */
  ghost predicate Coherent(lib: Library, records: seq<Record>) {
    forall a, b :: a in records && b in records && ExactKey(lib, a) == ExactKey(lib, b) ==> NearKey(lib, a) == NearKey(lib, b)
  }

  lemma ExactMeansNear(lib: Library, records: seq<Record>)
    requires DigestInjective(lib)
    ensures Coherent(lib, records)
  {
    hide CanonicalParts, JoinIds;
    forall a, b | a in records && b in records && ExactKey(lib, a) == ExactKey(lib, b)
      ensures NearKey(lib, a) == NearKey(lib, b)
    {
      PartsInjective(ExactParts(a), ExactParts(b));
      assert ExactParts(a)[0] == ExactParts(b)[0] && ExactParts(a)[1] == ExactParts(b)[1];
      assert ExactParts(a)[3] == ExactParts(b)[3];
    }
  }
}
