/** The 16-byte records of the NODE and ENTR tables, as the compiler writes them
    and the runtime dictionary reads them (format v2). */
module ImageBytes {
  import opened Wrappers
  import opened Wire
  import opened NodeTable

  const NODE_LEN := 16
  const ENTRY_LEN := 16

  function NodeFields(r: NodeRecord): (fs: seq<Field>)
    ensures |fs| == 5 && (Fits(r) ==> FieldsFit(fs))
    ensures Offset(fs, 1) == 4 && Offset(fs, 2) == 6 && Offset(fs, 3) == 8
    ensures Offset(fs, 4) == 12 && Offset(fs, 5) == NODE_LEN
  {
    Radixes();
    var fs := [Field(r.firstChild, 4), Field(r.childCount, 2), Field(r.valueCount, 2), Field(r.valueStart, 4),
               Field(r.scalar, 4)];
    assert Offset(fs, 1) == 4;
    assert Offset(fs, 2) == 6;
    assert Offset(fs, 3) == 8;
    assert Offset(fs, 4) == 12;
    fs
  }

  function EntryFields(r: EntryRecord): (fs: seq<Field>)
    ensures |fs| == 7 && FieldsFit(fs)
    ensures Offset(fs, 1) == 4 && Offset(fs, 2) == 6 && Offset(fs, 3) == 8 && Offset(fs, 4) == 10
    ensures Offset(fs, 5) == 12 && Offset(fs, 6) == 14 && Offset(fs, 7) == ENTRY_LEN
  {
    Radixes();
    var fs := [Field(r.surfaceId, 4), Field(r.leftId, 2), Field(r.rightId, 2), Field(r.wordCost, 2),
               Field(r.prediction, 2), Field(r.flags, 2), Field(0, 2)];
    assert Offset(fs, 1) == 4;
    assert Offset(fs, 2) == 6;
    assert Offset(fs, 3) == 8;
    assert Offset(fs, 4) == 10;
    assert Offset(fs, 5) == 12;
    assert Offset(fs, 6) == 14;
    fs
  }

  /** put_u32 and put_u16 for every field of every record. */
  function NodeBytes(table: seq<NodeRecord>): seq<byte> {
    Join(seq(|table|, i requires 0 <= i < |table| => Record(NodeFields(table[i]))))
  }

  function EntryBytes(table: seq<EntryRecord>): seq<byte> {
    Join(seq(|table|, i requires 0 <= i < |table| => Record(EntryFields(table[i]))))
  }

  /** Dictionary::node with the label accessor. */
  function ReadNode(bytes: seq<byte>, count: nat, k: nat): Option<NodeRecord> {
    var at := k * NODE_LEN;
    if k >= count then None
    else match (Read(bytes, at, 4), Read(bytes, at + 4, 2), Read(bytes, at + 6, 2),
                Read(bytes, at + 8, 4), Read(bytes, at + 12, 4))
      case (Some(first), Some(children), Some(values), Some(start), Some(scalar)) =>
        Some(NodeRecord(first, children, values, start, scalar))
      case _ => None
  }

  /** Dictionary::entry, before the prediction sentinel is resolved. */
  function ReadEntry(bytes: seq<byte>, count: nat, k: nat): Option<EntryRecord> {
    var at := k * ENTRY_LEN;
    if k >= count || Read(bytes, at + 14, 2) != Some(0) then None
    else
      match (Read(bytes, at, 4), Read(bytes, at + 4, 2), Read(bytes, at + 6, 2), Read(bytes, at + 8, 2),
             Read(bytes, at + 10, 2), Read(bytes, at + 12, 2))
      case (Some(surface), Some(left), Some(right), Some(word), Some(prediction), Some(flags)) =>
        if surface <= U32_MAX && left <= U16_MAX && right <= U16_MAX && word <= U16_MAX
           && prediction <= U16_MAX && flags <= U16_MAX
        then Some(EntryRecord(surface, left, right, word, prediction, flags))
        else None
      case _ => None
  }

  /** Every in-range node index reads back its record; every other index fails. */
  lemma NodesRoundTrip(table: seq<NodeRecord>, k: nat)
    requires forall i :: 0 <= i < |table| ==> Fits(table[i])
    ensures ReadNode(NodeBytes(table), |table|, k) == if k < |table| then Some(table[k]) else None
  {
    if k < |table| {
      var parts := seq(|table|, i requires 0 <= i < |table| => Record(NodeFields(table[i])));
      NodeReads(parts, k, table[k]);
    }
  }

  lemma NodeReads(parts: seq<seq<byte>>, k: nat, r: NodeRecord)
    requires forall i :: 0 <= i < |parts| ==> |parts[i]| == NODE_LEN
    requires k < |parts| && Fits(r) && parts[k] == Record(NodeFields(r))
    ensures var bytes, at := Join(parts), k * NODE_LEN;
            && Read(bytes, at, 4) == Some(r.firstChild)
            && Read(bytes, at + 4, 2) == Some(r.childCount)
            && Read(bytes, at + 6, 2) == Some(r.valueCount)
            && Read(bytes, at + 8, 4) == Some(r.valueStart)
            && Read(bytes, at + 12, 4) == Some(r.scalar)
  {
    var fs := NodeFields(r);
    forall i | 0 <= i < 5
      ensures Read(Join(parts), k * NODE_LEN + Offset(fs, i), fs[i].width) == Some(fs[i].value)
    {
      TableField(parts, NODE_LEN, k, k * NODE_LEN, fs, i);
    }
    assert fs[0] == Field(r.firstChild, 4) && fs[1] == Field(r.childCount, 2) && fs[2] == Field(r.valueCount, 2)
        && fs[3] == Field(r.valueStart, 4) && fs[4] == Field(r.scalar, 4);
  }

  lemma EntriesRoundTrip(table: seq<EntryRecord>, k: nat)
    ensures ReadEntry(EntryBytes(table), |table|, k) == if k < |table| then Some(table[k]) else None
  {
    if k < |table| {
      var parts := seq(|table|, i requires 0 <= i < |table| => Record(EntryFields(table[i])));
      EntryReads(parts, k, table[k]);
    }
  }

  lemma EntryReads(parts: seq<seq<byte>>, k: nat, r: EntryRecord)
    requires forall i :: 0 <= i < |parts| ==> |parts[i]| == ENTRY_LEN
    requires k < |parts| && parts[k] == Record(EntryFields(r))
    ensures var bytes, at := Join(parts), k * ENTRY_LEN;
            && Read(bytes, at, 4) == Some(r.surfaceId)
            && Read(bytes, at + 4, 2) == Some(r.leftId)
            && Read(bytes, at + 6, 2) == Some(r.rightId)
            && Read(bytes, at + 8, 2) == Some(r.wordCost)
            && Read(bytes, at + 10, 2) == Some(r.prediction)
            && Read(bytes, at + 12, 2) == Some(r.flags)
            && Read(bytes, at + 14, 2) == Some(0)
  {
    var fs := EntryFields(r);
    forall i | 0 <= i < 7
      ensures Read(Join(parts), k * ENTRY_LEN + Offset(fs, i), fs[i].width) == Some(fs[i].value)
    {
      TableField(parts, ENTRY_LEN, k, k * ENTRY_LEN, fs, i);
    }
    assert fs[0] == Field(r.surfaceId, 4) && fs[1] == Field(r.leftId, 2) && fs[2] == Field(r.rightId, 2)
        && fs[3] == Field(r.wordCost, 2) && fs[4] == Field(r.prediction, 2) && fs[5] == Field(r.flags, 2)
        && fs[6] == Field(0, 2);
  }
}
