/** Lexicon rows as every lexicon stage passes them on. */
module Lexicon {
  datatype Entry = Entry(reading: string, surface: string, leftId: nat, rightId: nat, wordCost: int, predictionCost: int,
                         flags: nat, annotation: string, source: string, line: nat)

  /** What identifies a row: reading, surface and both classes. */
  datatype Identity = Identity(reading: string, surface: string, leftId: nat, rightId: nat)

  function IdentityOf(e: Entry): Identity { Identity(e.reading, e.surface, e.leftId, e.rightId) }

  predicate SameIdentity(a: Entry, b: Entry) {
    a.reading == b.reading && a.surface == b.surface && a.leftId == b.leftId && a.rightId == b.rightId
  }
}
