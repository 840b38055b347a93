/** The record `(pk, lsn, op, value)` and its write-ahead-log frame (src/record.rs). */
module Records {
  import opened Bytes

  datatype Op = Put | Delete

  datatype Record = Record(key: Key, lsn: nat, op: Op, value: seq<byte>)

  const FrameHeaderLen: nat := 8
  const EntryOverhead: nat := 64

  function PutRecord(key: Key, lsn: nat, value: seq<byte>): Record {
    Record(key, lsn, Put, value)
  }

  function DeleteRecord(key: Key, lsn: nat): Record {
    Record(key, lsn, Delete, [])
  }

  function HeapSize(rec: Record): nat {
    |rec.key| + |rec.value| + EntryOverhead
  }

  // ---- CRC-32 (reflected polynomial 0xEDB88320) --------------------------------

  /** One bit through the shift register. */
  function CrcShift(c: bv32): bv32 {
    if c & 1 == 1 then (c >> 1) ^ 0xEDB88320 else c >> 1
  }

  /** The shift register after the first `bits` bits of `data`, low bit of each byte first. */
  function CrcRegister(data: seq<byte>, bits: nat): bv32
    requires bits <= 8 * |data|
    decreases bits
  {
    if bits == 0 then 0xFFFFFFFF
    else
      var before := CrcRegister(data, bits - 1);
      var c := if (bits - 1) % 8 == 0 then before ^ (data[(bits - 1) / 8] as bv32) else before;
      CrcShift(c)
  }

  function CrcFinal(c: bv32): (crc: nat)
    ensures crc < U32
  {
    (c ^ 0xFFFFFFFF) as nat
  }

  function Crc32(data: seq<byte>): (crc: nat)
    ensures crc < U32
  {
    CrcFinal(CrcRegister(data, 8 * |data|))
  }

  // ---- Framing -------------------------------------------------------------------

  function OpByte(op: Op): byte {
    if op.Put? then 0 else 1
  }

  /** Lengths are written through `as u32`, which keeps the low 32 bits. */
  function Payload(rec: Record): (p: seq<byte>)
    ensures |p| == 17 + |rec.key| + |rec.value|
  {
    Le64(rec.lsn) + [OpByte(rec.op)]
    + Le32(|rec.key|) + rec.key
    + Le32(|rec.value|) + rec.value
  }

  function Frame(rec: Record): (f: seq<byte>)
    ensures |f| == FrameHeaderLen + |Payload(rec)|
  {
    Le32(Crc32(Payload(rec))) + Le32(|Payload(rec)|) + Payload(rec)
  }

  /** What `u64` and the `as u32` casts can carry without truncation. */
  predicate Encodable(rec: Record) {
    rec.lsn < U64 && |Payload(rec)| < U32
  }

  /** Append one frame to `out`: reserve the header, write the payload, patch the header. */
  method Encode(rec: Record, out: seq<byte>) returns (buf: seq<byte>)
    ensures buf == out + Frame(rec)
  {
    buf := out;
    var payloadStart := |buf| + FrameHeaderLen;
    buf := buf + [0, 0, 0, 0, 0, 0, 0, 0];
    buf := buf + Le64(rec.lsn);
    buf := buf + [OpByte(rec.op)];
    buf := buf + Le32(|rec.key|);
    buf := buf + rec.key;
    buf := buf + Le32(|rec.value|);
    buf := buf + rec.value;
    assert buf[payloadStart..] == Payload(rec);

    var payloadLen := |buf| - payloadStart;
    var crc := Crc32(buf[payloadStart..]);
    var header := Le32(crc) + Le32(payloadLen);
    buf := buf[..payloadStart - FrameHeaderLen] + header + buf[payloadStart..];
    assert buf[..|out|] == out;
  }

  datatype Reason = PayloadTooShort | UnknownOp | KeyOverruns | ValueOverruns

  datatype Decoded = Decoded(rec: Record, size: nat) | Torn | Corrupt(reason: Reason)

  function DecodePayload(payload: seq<byte>): Result<Record, Reason> {
    if |payload| < 13 then Err(PayloadTooShort)
    else if payload[8] > 1 then Err(UnknownOp)
    else
      var lsn := FromLe(payload[0..8]);
      var op := if payload[8] == 0 then Put else Delete;
      var keyEnd := 13 + FromLe(payload[9..13]);
      if |payload| < keyEnd + 4 then Err(KeyOverruns)
      else
        var valEnd := keyEnd + 4 + FromLe(payload[keyEnd..keyEnd + 4]);
        if |payload| < valEnd then Err(ValueOverruns)
        else Ok(Record(payload[13..keyEnd], lsn, op, payload[keyEnd + 4..valEnd]))
  }

  function Decode(buf: seq<byte>): (d: Decoded)
    ensures d.Decoded? ==> FrameHeaderLen <= d.size <= |buf|
  {
    if |buf| < FrameHeaderLen then Torn
    else
      var crc := FromLe(buf[0..4]);
      var end := FrameHeaderLen + FromLe(buf[4..8]);
      if |buf| < end then Torn
      else
        var payload := buf[FrameHeaderLen..end];
        if Crc32(payload) != crc then Torn
        else match DecodePayload(payload)
             case Ok(rec) => Decoded(rec, end)
             case Err(reason) => Corrupt(reason)
  }

  // ---- Round trip ----------------------------------------------------------------

  lemma PayloadFields(lsn: seq<byte>, op: byte, kn: seq<byte>, key: Key, vn: seq<byte>, value: seq<byte>)
    requires |lsn| == 8 && |kn| == 4 && |vn| == 4
    ensures var p := lsn + [op] + kn + key + vn + value; var end := 13 + |key|;
            && p[0..8] == lsn && p[8] == op && p[9..13] == kn && p[13..end] == key
            && p[end..end + 4] == vn && p[end + 4..end + 4 + |value|] == value
  {
  }

  lemma PayloadRoundTrip(rec: Record)
    requires Encodable(rec)
    ensures DecodePayload(Payload(rec)) == Ok(rec)
  {
    hide FromLe, ToLe, Le32, Le64;
    var kn, vn := |rec.key|, |rec.value|;
    Le64RoundTrip(rec.lsn);
    Le32RoundTrip(kn);
    Le32RoundTrip(vn);
    PayloadFields(Le64(rec.lsn), OpByte(rec.op), Le32(kn), rec.key, Le32(vn), rec.value);
  }

  lemma FrameFields(crc: seq<byte>, len: seq<byte>, payload: seq<byte>, rest: seq<byte>)
    requires |crc| == 4 && |len| == 4
    ensures var buf := crc + len + payload + rest;
            buf[0..4] == crc && buf[4..8] == len && buf[8..8 + |payload|] == payload
  {
  }

  lemma HeaderValues(crc: nat, len: nat, payload: seq<byte>, rest: seq<byte>)
    requires crc < U32
    ensures var buf := Le32(crc) + Le32(len) + payload + rest;
            && FromLe(buf[0..4]) == crc
            && FromLe(buf[4..8]) == len % U32
            && buf[8..8 + |payload|] == payload
  {
    FrameFields(Le32(crc), Le32(len), payload, rest);
    Le32RoundTrip(crc);
    Le32RoundTrip(len);
  }

  lemma HeaderFields(rec: Record, rest: seq<byte>)
    ensures var buf := Frame(rec) + rest;
            && FromLe(buf[0..4]) == Crc32(Payload(rec))
            && FromLe(buf[4..8]) == |Payload(rec)| % U32
            && buf[8..8 + |Payload(rec)|] == Payload(rec)
  {
    HeaderValues(Crc32(Payload(rec)), |Payload(rec)|, Payload(rec), rest);
  }

  /** A frame decodes to its record, whatever follows it, exactly when its payload
      length survives the `as u32` cast. */
  lemma FrameRoundTrip(rec: Record, rest: seq<byte>)
    requires rec.lsn < U64
    ensures Decode(Frame(rec) + rest) == Decoded(rec, |Frame(rec)|) <==> |Payload(rec)| < U32
  {
    hide FromLe, Crc32, Payload;
    HeaderFields(rec, rest);
    var p := Payload(rec);
    if |p| < U32 {
      PayloadRoundTrip(rec);
      assert |p| % U32 == |p|;
    } else {
      assert |p| % U32 < |p|;
    }
  }

  lemma PrefixSlices(f: seq<byte>, n: nat)
    requires 8 <= n <= |f|
    ensures f + [] == f && f[..n][4..8] == f[4..8]
  {
  }

  /** A byte-prefix that stops inside a frame is a torn tail, never an error and never a record. */
  lemma CutFrameIsTorn(rec: Record, n: nat)
    requires Encodable(rec) && n < |Frame(rec)|
    ensures Decode(Frame(rec)[..n]) == Torn
  {
    hide FromLe, Crc32, Payload;
    if n >= 8 {
      HeaderFields(rec, []);
      PrefixSlices(Frame(rec), n);
    }
  }

  // ---- What decodes --------------------------------------------------------------------

  lemma FieldsRejoin(p: seq<byte>, keyEnd: nat, valEnd: nat)
    requires 13 <= keyEnd && keyEnd + 4 <= valEnd <= |p|
    ensures p[..valEnd] == p[0..8] + [p[8]] + p[9..13] + p[13..keyEnd] + p[keyEnd..keyEnd + 4] + p[keyEnd + 4..valEnd]
  {
  }

  lemma DecodedIsPrefix(p: seq<byte>)
    requires DecodePayload(p).Ok?
    ensures var rec := DecodePayload(p).value; rec.lsn < U64 && Payload(rec) <= p
  {
    hide FromLe, Le32, Le64;
    var kn := FromLe(p[9..13]);
    var keyEnd := 13 + kn;
    var vn := FromLe(p[keyEnd..keyEnd + 4]);
    FieldBytes(p[0..8]);
    FieldBytes(p[9..13]);
    FieldBytes(p[keyEnd..keyEnd + 4]);
    FieldsRejoin(p, keyEnd, keyEnd + 4 + vn);
  }

  lemma PrefixDecodes(rec: Record, rest: seq<byte>)
    requires Encodable(rec)
    ensures DecodePayload(Payload(rec) + rest) == Ok(rec)
  {
    hide FromLe, ToLe, Le32, Le64;
    var kn, vn := |rec.key|, |rec.value|;
    Le64RoundTrip(rec.lsn);
    Le32RoundTrip(kn);
    Le32RoundTrip(vn);
    PayloadFields(Le64(rec.lsn), OpByte(rec.op), Le32(kn), rec.key, Le32(vn), rec.value);
    PrefixFields(Payload(rec), rest, 13 + kn, 17 + kn + vn);
  }

  lemma PrefixFields(p: seq<byte>, rest: seq<byte>, keyEnd: nat, valEnd: nat)
    requires 13 <= keyEnd && keyEnd + 4 <= valEnd == |p|
    ensures var q := p + rest;
            && q[0..8] == p[0..8] && q[8] == p[8] && q[9..13] == p[9..13] && q[13..keyEnd] == p[13..keyEnd]
            && q[keyEnd..keyEnd + 4] == p[keyEnd..keyEnd + 4] && q[keyEnd + 4..valEnd] == p[keyEnd + 4..valEnd]
  {
  }

  /** Past the checksum, a payload decodes to a record exactly when it begins with that record's
      encoding; everything else is damage. */
  lemma DecodeIsExact(p: seq<byte>, rec: Record)
    requires |p| < U32
    ensures DecodePayload(p) == Ok(rec) <==> rec.lsn < U64 && Payload(rec) <= p
  {
    hide Payload, DecodePayload;
    if DecodePayload(p) == Ok(rec) {
      DecodedIsPrefix(p);
    }
    if rec.lsn < U64 && Payload(rec) <= p {
      PrefixDecodes(rec, p[|Payload(rec)|..]);
      assert p == Payload(rec) + p[|Payload(rec)|..];
    }
  }

  // ---- Layout ----------------------------------------------------------------------

  /** Where each field of a payload starts, and what its bytes are: the LSN's eight from 0, the
      operation at 8, the key's length at 9, the key at 13, then the value's length and the value. */
  lemma PayloadLayout(rec: Record)
    requires Encodable(rec)
    ensures var p := Payload(rec); var end := 13 + |rec.key|;
            && Spells(p[0..8], rec.lsn)
            && (p[8] == 0 <==> rec.op.Put?) && (p[8] == 1 <==> rec.op.Delete?)
            && Spells(p[9..13], |rec.key|) && p[13..end] == rec.key
            && Spells(p[end..end + 4], |rec.value|) && p[end + 4..] == rec.value
  {
    hide ToLe, Spells;
    var kn, vn := |rec.key|, |rec.value|;
    PayloadFields(Le64(rec.lsn), OpByte(rec.op), Le32(kn), rec.key, Le32(vn), rec.value);
    LeSpells(rec.lsn, 8);
    LeSpells(kn, 4);
    LeSpells(vn, 4);
    assert kn % U32 == kn && vn % U32 == vn;
  }
}
