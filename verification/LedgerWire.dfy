/** Bytes, the descriptor loops that tolerate short reads and writes, and the fixed
    112-byte record layout. */
module LedgerWire {
  type byte = b: int | 0 <= b < 256
  type bytes = seq<byte>

  function Repeat(b: byte, n: nat): (r: bytes)
    ensures |r| == n && forall i | 0 <= i < n :: r[i] == b
  {
    seq(n, i requires 0 <= i < n => b)
  }

  // ----- descriptor I/O -----

  /** A regular file opened for appending. Reads and writes may be short. */
  class Descriptor {
    var contents: bytes
    var position: nat

    constructor (contents: bytes)
      ensures this.contents == contents && position == 0
    {
      this.contents, position := contents, 0;
    }

    /** `os.read`: at least one byte unless the end is reached. */
    method Read(limit: nat) returns (chunk: bytes)
      requires limit > 0
      modifies this`position
      ensures |chunk| <= limit && position == old(position) + |chunk|
      ensures chunk == [] <==> old(position) >= |contents|
      ensures chunk != [] ==> position <= |contents| && chunk == contents[old(position)..position]
    {
      if position >= |contents| {
        return [];
      }
      var available := |contents| - position;
      var count: nat :| 1 <= count <= limit && count <= available;
      chunk := contents[position..position + count];
      position := position + count;
    }

    /** `os.ftruncate` to a smaller size. */
    method Truncate(size: nat)
      requires size <= |contents|
      modifies this`contents
      ensures contents == old(contents[..size])
    {
      contents := contents[..size];
    }

    /** `os.write` under O_APPEND: any number of leading bytes, or a failure (count <= 0). */
    method Write(payload: bytes) returns (count: int)
      modifies this`contents
      ensures count <= |payload|
      ensures contents == old(contents) + if count > 0 then payload[..count] else []
    {
      count :| -1 <= count <= |payload|;
      if count > 0 {
        contents := contents + payload[..count];
      }
    }
  }

  /** `_write_all`: everything is appended, or a proper prefix is and the append fails. */
  method WriteAll(d: Descriptor, payload: bytes) returns (ok: bool, ghost written: nat)
    modifies d`contents
    ensures written <= |payload| && d.contents == old(d.contents) + payload[..written]
    ensures ok <==> written == |payload|
  {
    var offset := 0;
    while offset < |payload|
      invariant offset <= |payload| && d.contents == old(d.contents) + payload[..offset]
    {
      ghost var before := d.contents;
      var count := d.Write(payload[offset..]);
      if count <= 0 {
        return false, offset;
      }
      assert payload[..offset] + payload[offset..][..count] == payload[..offset + count];
      offset := offset + count;
    }
    assert payload[..|payload|] == payload;
    return true, offset;
  }

  /** `_read_exact`: the full span whenever the file holds it, however short the reads are. */
  method ReadExact(d: Descriptor, length: nat) returns (ok: bool, data: bytes)
    modifies d`position
    ensures ok <==> length == 0 || old(d.position) + length <= |d.contents|
    ensures ok && length > 0 ==> data == d.contents[old(d.position)..old(d.position) + length]
    ensures ok ==> d.position == old(d.position) + length && |data| == length
  {
    data := [];
    var remaining: nat := length;
    while remaining > 0
      invariant remaining + |data| == length && d.position == old(d.position) + |data|
      invariant data != [] ==> d.position <= |d.contents| && data == d.contents[old(d.position)..d.position]
    {
      var chunk := d.Read(remaining);
      if chunk == [] {
        return false, [];
      }
      data := data + chunk;
      remaining := remaining - |chunk|;
    }
    return true, data;
  }

  // ----- big-endian integers -----

  function Pow256(width: nat): nat {
    if width == 0 then 1 else 256 * Pow256(width - 1)
  }

  function BigEndian(n: nat, width: nat): (r: bytes)
    ensures |r| == width
  {
    if width == 0 then [] else BigEndian(n / 256, width - 1) + [n % 256]
  }

  function FromBigEndian(b: bytes): nat {
    if b == [] then 0 else 256 * FromBigEndian(b[..|b| - 1]) + b[|b| - 1]
  }

  lemma {:induction false} DecodeEncode(n: nat, width: nat)
    requires n < Pow256(width)
    ensures FromBigEndian(BigEndian(n, width)) == n
  {
    if width > 0 {
      DecodeEncode(n / 256, width - 1);
      var r := BigEndian(n, width);
      assert r[..|r| - 1] == BigEndian(n / 256, width - 1);
    }
  }

  lemma {:induction false} EncodeDecode(b: bytes)
    ensures FromBigEndian(b) < Pow256(|b|) && BigEndian(FromBigEndian(b), |b|) == b
  {
    if b != [] {
      var p := b[..|b| - 1];
      EncodeDecode(p);
      assert FromBigEndian(b) / 256 == FromBigEndian(p);
      assert FromBigEndian(b) % 256 == b[|b| - 1];
      assert b == p + [b[|b| - 1]];
    }
  }

  /** The most significant byte comes first. */
  lemma {:induction false} MostSignificantFirst(x: byte, b: bytes)
    ensures FromBigEndian([]) == 0 && FromBigEndian([x] + b) == x * Pow256(|b|) + FromBigEndian(b)
  {
    var all := [x] + b;
    if b == [] {
      assert all[..0] == [] && FromBigEndian(all) == x;
    } else {
      MostSignificantFirst(x, b[..|b| - 1]);
      assert all[..|all| - 1] == [x] + b[..|b| - 1];
      assert Pow256(|b|) == 256 * Pow256(|b| - 1);
      Distribute(x, Pow256(|b| - 1), FromBigEndian(b[..|b| - 1]));
    }
  }

  lemma Distribute(x: nat, p: nat, v: nat)
    ensures 256 * (x * p + v) == x * (256 * p) + 256 * v
  {
  }

  // ----- the record layout `>B3x16s16s32sQI32s` -----

  const RECORD_BYTES: nat := 112

  datatype Fields = Fields(
    kind: nat, permitId: bytes, singleUseId: bytes, digest: bytes, stamp: nat, metadata: nat, previous: bytes)

  /** The field widths of the struct format. */
  predicate Fits(f: Fields) {
    && f.kind < 256
    && |f.permitId| == 16 && |f.singleUseId| == 16 && |f.digest| == 32 && |f.previous| == 32
    && f.stamp < Pow256(8) && f.metadata < Pow256(4)
  }

  function Pack(f: Fields): (raw: bytes)
    requires Fits(f)
    ensures |raw| == RECORD_BYTES
  {
    [f.kind, 0, 0, 0] + f.permitId + f.singleUseId + f.digest + BigEndian(f.stamp, 8) + BigEndian(f.metadata, 4) +
      f.previous
  }

  function Unpack(raw: bytes): Fields
    requires |raw| == RECORD_BYTES
  {
    Fields(raw[0], raw[4..20], raw[20..36], raw[36..68], FromBigEndian(raw[68..76]), FromBigEndian(raw[76..80]),
      raw[80..])
  }

  predicate PaddingZero(raw: bytes)
    requires |raw| == RECORD_BYTES
  {
    raw[1..4] == [0, 0, 0]
  }

  lemma UnpackPack(f: Fields)
    requires Fits(f)
    ensures Unpack(Pack(f)) == f && PaddingZero(Pack(f))
  {
    var raw := Pack(f);
    DecodeEncode(f.stamp, 8);
    DecodeEncode(f.metadata, 4);
    assert raw[4..20] == f.permitId;
    assert raw[20..36] == f.singleUseId;
    assert raw[36..68] == f.digest;
    assert raw[68..76] == BigEndian(f.stamp, 8);
    assert raw[76..80] == BigEndian(f.metadata, 4);
    assert raw[80..] == f.previous;
  }

  /** A record with clean padding is determined by its fields. */
  lemma PackUnpack(raw: bytes)
    requires |raw| == RECORD_BYTES && PaddingZero(raw)
    ensures Fits(Unpack(raw)) && Pack(Unpack(raw)) == raw
  {
    EncodeDecode(raw[68..76]);
    EncodeDecode(raw[76..80]);
    assert raw[1] == raw[1..4][0] && raw[2] == raw[1..4][1] && raw[3] == raw[1..4][2];
    assert raw == raw[..4] + raw[4..20] + raw[20..36] + raw[36..68] + raw[68..76] + raw[76..80] + raw[80..];
    assert raw[..4] == [raw[0], 0, 0, 0];
  }
}
