/** Little-endian integers, fixed-width record tables and packed bits: the byte
    layouts that the writers and readers of images and frames share. */
module Wire {
  import opened Wrappers

  type byte = x: int | 0 <= x < 0x100
  type Bytes = seq<byte>
  type u16 = x: int | 0 <= x < 0x1_0000
  type u32 = x: int | 0 <= x < 0x1_0000_0000
  type u64 = x: int | 0 <= x < 0x1_0000_0000_0000_0000
  type i16 = x: int | -0x8000 <= x < 0x8000
  type i32 = x: int | -0x8000_0000 <= x < 0x8000_0000

  const U16_MAX := 0xffff
  const U32_MAX := 0xffff_ffff
  const I32_MAX := 0x7fff_ffff

  function Radix(width: nat): (r: nat)
    ensures r > 0
  {
    if width == 0 then 1 else 0x100 * Radix(width - 1)
  }

  /** to_le_bytes for a `width`-byte unsigned integer. */
  function ToLe(n: nat, width: nat): (bytes: seq<byte>)
    ensures |bytes| == width
    decreases width
  {
    if width == 0 then [] else [n % 0x100] + ToLe(n / 0x100, width - 1)
  }

  /** from_le_bytes. */
  function FromLe(bytes: seq<byte>): nat {
    if bytes == [] then 0 else bytes[0] + 0x100 * FromLe(bytes[1..])
  }

  lemma {:induction false} LeRoundTrip(n: nat, width: nat)
    requires n < Radix(width)
    ensures FromLe(ToLe(n, width)) == n
    decreases width
  {
    if width > 0 {
      LeRoundTrip(n / 0x100, width - 1);
      assert ToLe(n, width)[1..] == ToLe(n / 0x100, width - 1);
    }
  }

  lemma {:induction false} LeInverse(bytes: seq<byte>)
    ensures FromLe(bytes) < Radix(|bytes|)
    ensures ToLe(FromLe(bytes), |bytes|) == bytes
  {
    if bytes != [] {
      LeInverse(bytes[1..]);
      assert FromLe(bytes) / 0x100 == FromLe(bytes[1..]);
      assert FromLe(bytes) % 0x100 == bytes[0];
    }
  }

  lemma Radixes()
    ensures Radix(1) == 0x100 && Radix(2) == 0x1_0000 && Radix(4) == 0x1_0000_0000
    ensures Radix(8) == 0x1_0000_0000_0000_0000
  {
    assert Radix(1) == 0x100;
    assert Radix(2) == 0x100 * Radix(1);
    assert Radix(4) == 0x100 * (0x100 * Radix(2));
    assert Radix(8) == 0x100 * (0x100 * (0x100 * (0x100 * Radix(4))));
  }

  /** Two's complement, as a signed integer of `width` bytes is stored. */
  function FromSigned(n: int, width: nat): nat
    requires 0 <= n + Radix(width)
  {
    if n < 0 then n + Radix(width) else n
  }

  function ToSigned(n: nat, width: nat): int {
    if 2 * n < Radix(width) then n else n - Radix(width)
  }

  /** A bounds-checked read, as every reader of these layouts does it. */
  function Read(bytes: seq<byte>, at: nat, width: nat): Option<nat> {
    if at + width <= |bytes| then Some(FromLe(bytes[at..at + width])) else None
  }

  /** Reading back an integer from wherever it was written. */
  lemma ReadBack(before: seq<byte>, n: nat, width: nat, after: seq<byte>)
    requires n < Radix(width)
    ensures Read(before + ToLe(n, width) + after, |before|, width) == Some(n)
  {
    LeRoundTrip(n, width);
    assert (before + ToLe(n, width) + after)[|before|..|before| + width] == ToLe(n, width);
  }

  /** One integer field of a record. */
  datatype Field = Field(value: nat, width: nat)

  predicate FieldsFit(fs: seq<Field>) {
    forall i :: 0 <= i < |fs| ==> fs[i].value < Radix(fs[i].width)
  }

  function Offset(fs: seq<Field>, i: nat): nat
    requires i <= |fs|
  {
    if i == 0 then 0 else Offset(fs, i - 1) + fs[i - 1].width
  }

  /** The fields one after the other. */
  function Record(fs: seq<Field>): (bytes: seq<byte>)
    ensures |bytes| == Offset(fs, |fs|)
  {
    if fs == [] then []
    else
      var n := |fs| - 1;
      OffsetPrefix(fs, n, n);
      Record(fs[..n]) + ToLe(fs[n].value, fs[n].width)
  }

  lemma {:induction false} OffsetPrefix(fs: seq<Field>, n: nat, i: nat)
    requires i <= n <= |fs|
    ensures Offset(fs[..n], i) == Offset(fs, i)
  {
    if i > 0 { OffsetPrefix(fs, n, i - 1); }
  }

  lemma {:induction false} FieldValue(fs: seq<Field>, i: nat)
    requires FieldsFit(fs) && i < |fs|
    ensures Offset(fs, i) + fs[i].width <= |Record(fs)|
    ensures FromLe(Record(fs)[Offset(fs, i)..Offset(fs, i) + fs[i].width]) == fs[i].value
    decreases |fs|
  {
    var n := |fs| - 1;
    var front, last := Record(fs[..n]), ToLe(fs[n].value, fs[n].width);
    LastField(fs);
    hide Record, ToLe, FromLe, Offset, Radix;
    if i == n {
      LeRoundTrip(fs[n].value, fs[n].width);
      assert Record(fs)[|front|..|front| + fs[n].width] == last;
    } else {
      FieldValue(fs[..n], i);
      OffsetPrefix(fs, n, i);
      var at, end := Offset(fs, i), Offset(fs, i) + fs[i].width;
      assert Record(fs)[at..end] == front[at..end];
    }
  }

  lemma LastField(fs: seq<Field>)
    requires fs != []
    ensures var n := |fs| - 1;
            Record(fs) == Record(fs[..n]) + ToLe(fs[n].value, fs[n].width) && |Record(fs[..n])| == Offset(fs, n)
  {
    hide ToLe;
    OffsetPrefix(fs, |fs| - 1, |fs| - 1);
  }

  function Join<T>(parts: seq<seq<T>>): seq<T> {
    if parts == [] then [] else Join(parts[..|parts| - 1]) + parts[|parts| - 1]
  }

  lemma JoinPush<T>(parts: seq<seq<T>>, part: seq<T>)
    ensures Join(parts + [part]) == Join(parts) + part
  {
    assert (parts + [part])[..|parts|] == parts;
  }

  /** A table of records of one width is indexed by multiplication. */
  lemma {:induction false} JoinAt<T>(parts: seq<seq<T>>, width: nat, k: nat)
    requires forall i :: 0 <= i < |parts| ==> |parts[i]| == width
    requires k < |parts|
    ensures |Join(parts)| == |parts| * width
    ensures 0 <= k * width && (k + 1) * width <= |parts| * width
    ensures (k + 1) * width == k * width + width
    ensures Join(parts)[k * width..(k + 1) * width] == parts[k]
    decreases |parts|
  {
    var n := |parts| - 1;
    var front := parts[..n];
    assert |parts| * width == n * width + width;
    if n == 0 {
      assert Join(front) == [];
    } else if k == n {
      JoinAt(front, width, 0);
    } else {
      JoinAt(front, width, k);
      assert front[k] == parts[k];
    }
  }

  lemma SliceOfSlice<T>(all: seq<T>, lo: nat, hi: nat, i: nat, j: nat)
    requires lo <= hi <= |all| && i <= j <= hi - lo
    ensures all[lo..hi][i..j] == all[lo + i..lo + j]
  {
    var inner, outer := all[lo..hi][i..j], all[lo + i..lo + j];
    assert |inner| == |outer|;
    forall k | 0 <= k < |inner| ensures inner[k] == outer[k] {
      assert inner[k] == all[lo..hi][i + k] == all[lo + i + k];
    }
  }

  lemma ReadInside(all: seq<byte>, lo: nat, hi: nat, at: nat, size: nat)
    requires lo <= hi <= |all| && at + size <= hi - lo
    ensures Read(all, lo + at, size) == Some(FromLe(all[lo..hi][at..at + size]))
  {
    SliceOfSlice(all, lo, hi, at, at + size);
  }

  lemma Locate<T>(parts: seq<seq<T>>, width: nat, k: nat, base: nat)
    requires forall j :: 0 <= j < |parts| ==> |parts[j]| == width
    requires k < |parts| && base == k * width
    ensures base + width <= |Join(parts)| && Join(parts)[base..base + width] == parts[k]
  {
    JoinAt(parts, width, k);
  }

  /** Reading field i of record k of a table; `base` is where the record starts. */
  lemma TableField(parts: seq<seq<byte>>, width: nat, k: nat, base: nat, fs: seq<Field>, i: nat)
    requires forall j :: 0 <= j < |parts| ==> |parts[j]| == width
    requires k < |parts| && base == k * width
    requires parts[k] == Record(fs) && FieldsFit(fs) && i < |fs|
    ensures Read(Join(parts), base + Offset(fs, i), fs[i].width) == Some(fs[i].value)
  {
    hide Record, Join, FromLe, Radix, Read, Offset;
    Locate(parts, width, k, base);
    FieldValue(fs, i);
    FieldInside(Join(parts), base, base + width, Record(fs), Offset(fs, i), fs[i].width, fs[i].value);
  }

  lemma FieldInside(all: seq<byte>, lo: nat, hi: nat, record: seq<byte>, at: nat, size: nat, value: nat)
    requires lo <= hi <= |all| && all[lo..hi] == record && at + size <= |record|
    requires FromLe(record[at..at + size]) == value
    ensures Read(all, lo + at, size) == Some(value)
  {
    ReadInside(all, lo, hi, at, size);
  }

  lemma ReadPrefix(a: seq<byte>, b: seq<byte>, at: nat, width: nat)
    requires Read(a, at, width).Some?
    ensures Read(a + b, at, width) == Read(a, at, width)
  {
    assert (a + b)[at..at + width] == a[at..at + width];
  }

  /** Reading behind what stands in front. */
  lemma ReadShift(a: seq<byte>, b: seq<byte>, at: nat, width: nat)
    ensures Read(a + b, |a| + at, width) == Read(b, at, width)
  {
    if at + width <= |b| {
      assert (a + b)[|a| + at..|a| + at + width] == b[at..at + width];
    }
  }
}
