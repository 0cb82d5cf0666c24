/**
 Bytes on the pipe: little-endian integers, structs as fields without padding, and UTF-16
 code units of two bytes. Encoding and decoding are proved to be inverse in both directions.
 */
module WireFormat {
  import opened Words

  type Bytes = seq<U8>

  /** How many values fit into `width` bytes. */
  function Range(width: nat): nat {
    if width == 0 then 1 else 256 * Range(width - 1)
  }

  lemma Ranges()
    ensures Range(2) == 0x1_0000 && Range(4) == U32_MAX + 1 && Range(8) == U64_MAX + 1
  {
    assert Range(1) == 256;
    assert Range(3) == 0x100_0000;
    assert Range(5) == 0x100_0000_0000;
    assert Range(7) == 0x100_0000_0000_0000;
  }

  function LittleEndian(n: nat, width: nat): (b: Bytes)
    ensures |b| == width
  {
    if width == 0 then [] else [n % 256] + LittleEndian(n / 256, width - 1)
  }

  function Number(b: Bytes): nat {
    if b == [] then 0 else b[0] + 256 * Number(b[1..])
  }

  lemma {:induction false} NumberOfLittleEndian(n: nat, width: nat)
    requires n < Range(width)
    ensures Number(LittleEndian(n, width)) == n
  {
    if width > 0 {
      NumberOfLittleEndian(n / 256, width - 1);
      assert LittleEndian(n, width)[1..] == LittleEndian(n / 256, width - 1);
    }
  }

  lemma LowByte(low: nat, rest: nat)
    requires low < 256
    ensures (low + 256 * rest) % 256 == low && (low + 256 * rest) / 256 == rest
  {
  }

  lemma {:induction false} LittleEndianOfNumber(b: Bytes)
    ensures Number(b) < Range(|b|)
    ensures LittleEndian(Number(b), |b|) == b
  {
    if b != [] {
      LittleEndianOfNumber(b[1..]);
      LowByte(b[0], Number(b[1..]));
      assert b == [b[0]] + b[1..];
    }
  }

  /** The number shifted right by whole bytes. */
  function ShiftedRight(n: nat, bytes: nat): nat {
    if bytes == 0 then n else ShiftedRight(n, bytes - 1) / 256
  }

  lemma {:induction false} ShiftFromOutside(n: nat, k: nat)
    ensures ShiftedRight(n / 256, k) == ShiftedRight(n, k + 1)
  {
    if k > 0 {
      ShiftFromOutside(n, k - 1);
    }
  }

  /** The byte at place `k` holds the bits from 8k up: least significant first. */
  lemma {:induction false} ByteAt(n: nat, width: nat, k: nat)
    requires k < width
    ensures LittleEndian(n, width)[k] == ShiftedRight(n, k) % 256
  {
    if k > 0 {
      ByteAt(n / 256, width - 1, k - 1);
      ShiftFromOutside(n, k - 1);
    }
  }

  // ---- structs

  function Size(layout: seq<nat>): nat {
    if layout == [] then 0 else layout[0] + Size(layout[1..])
  }

  predicate Fits(fields: seq<nat>, layout: seq<nat>) {
    |fields| == |layout| && forall i :: 0 <= i < |layout| ==> fields[i] < Range(layout[i])
  }

  function PackFields(fields: seq<nat>, layout: seq<nat>): (b: Bytes)
    requires |fields| == |layout|
    ensures |b| == Size(layout)
  {
    if layout == [] then [] else LittleEndian(fields[0], layout[0]) + PackFields(fields[1..], layout[1..])
  }

  function UnpackFields(b: Bytes, layout: seq<nat>): (fields: seq<nat>)
    requires |b| == Size(layout)
    ensures |fields| == |layout|
  {
    if layout == [] then [] else [Number(b[..layout[0]])] + UnpackFields(b[layout[0]..], layout[1..])
  }

  /** Where a field begins: after all the fields before it. */
  function Offset(layout: seq<nat>, i: nat): nat
    requires i <= |layout|
  {
    if i == 0 then 0 else Offset(layout, i - 1) + layout[i - 1]
  }

  lemma {:induction false} OffsetFromTail(layout: seq<nat>, i: nat)
    requires 0 < i <= |layout|
    ensures Offset(layout, i) == layout[0] + Offset(layout[1..], i - 1)
  {
    if i > 1 {
      OffsetFromTail(layout, i - 1);
    }
  }

  /** Each field is found at its offset, without padding. */
  lemma {:induction false} FieldAt(fields: seq<nat>, layout: seq<nat>, i: nat)
    requires |fields| == |layout| && i < |layout|
    ensures Offset(layout, i) + layout[i] <= Size(layout)
    ensures PackFields(fields, layout)[Offset(layout, i)..Offset(layout, i) + layout[i]] ==
            LittleEndian(fields[i], layout[i])
  {
    var head, tail := LittleEndian(fields[0], layout[0]), PackFields(fields[1..], layout[1..]);
    if i > 0 {
      FieldAt(fields[1..], layout[1..], i - 1);
      OffsetFromTail(layout, i);
      var o, w := Offset(layout[1..], i - 1), layout[i];
      assert (head + tail)[layout[0] + o..layout[0] + o + w] == tail[o..o + w];
    }
  }

  lemma {:induction false} UnpackUndoesPack(fields: seq<nat>, layout: seq<nat>)
    requires Fits(fields, layout)
    ensures UnpackFields(PackFields(fields, layout), layout) == fields
  {
    if layout != [] {
      var head, tail := LittleEndian(fields[0], layout[0]), PackFields(fields[1..], layout[1..]);
      assert (head + tail)[..layout[0]] == head && (head + tail)[layout[0]..] == tail;
      NumberOfLittleEndian(fields[0], layout[0]);
      UnpackUndoesPack(fields[1..], layout[1..]);
    }
  }

  lemma {:induction false} PackUndoesUnpack(b: Bytes, layout: seq<nat>)
    requires |b| == Size(layout)
    ensures Fits(UnpackFields(b, layout), layout)
    ensures PackFields(UnpackFields(b, layout), layout) == b
  {
    if layout != [] {
      var head, tail := b[..layout[0]], b[layout[0]..];
      assert b == head + tail;
      LittleEndianOfNumber(head);
      PackUndoesUnpack(tail, layout[1..]);
      var fields := UnpackFields(b, layout);
      assert fields[1..] == UnpackFields(tail, layout[1..]);
      forall i | 0 <= i < |layout| ensures fields[i] < Range(layout[i]) {
        if i > 0 {
          assert fields[i] == fields[1..][i - 1] && layout[i] == layout[1..][i - 1];
        }
      }
    }
  }

  // ---- text

  function PackText(text: seq<U16>): (b: Bytes)
    ensures |b| == 2 * |text|
  {
    if text == [] then [] else LittleEndian(text[0], 2) + PackText(text[1..])
  }

  function UnpackText(b: Bytes): (text: seq<U16>)
    requires |b| % 2 == 0
    ensures 2 * |text| == |b|
  {
    if b == [] then []
    else
      assert Number(b[..2]) < 0x1_0000 by { LittleEndianOfNumber(b[..2]); Ranges(); }
      [Number(b[..2])] + UnpackText(b[2..])
  }

  /** Each unit takes two bytes, the low one first. */
  lemma {:induction false} UnitAt(text: seq<U16>, i: nat)
    requires i < |text|
    ensures PackText(text)[2 * i] == text[i] % 256 && PackText(text)[2 * i + 1] == text[i] / 256
  {
    if i > 0 {
      UnitAt(text[1..], i - 1);
    } else {
      ByteAt(text[0], 2, 0);
      ByteAt(text[0], 2, 1);
      assert ShiftedRight(text[0], 1) == text[0] / 256;
    }
  }

  lemma {:induction false} UnpackUndoesPackText(text: seq<U16>)
    ensures UnpackText(PackText(text)) == text
  {
    if text != [] {
      var head, tail := LittleEndian(text[0], 2), PackText(text[1..]);
      assert (head + tail)[..2] == head && (head + tail)[2..] == tail;
      Ranges();
      NumberOfLittleEndian(text[0], 2);
      UnpackUndoesPackText(text[1..]);
    }
  }

  lemma {:induction false} PackUndoesUnpackText(b: Bytes)
    requires |b| % 2 == 0
    ensures PackText(UnpackText(b)) == b
    decreases |b|
  {
    if b != [] {
      LittleEndianOfNumber(b[..2]);
      PackUndoesUnpackText(b[2..]);
      assert UnpackText(b)[1..] == UnpackText(b[2..]);
      assert b == b[..2] + b[2..];
    }
  }
}
