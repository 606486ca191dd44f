/** The telemetry record: a fixed 33-byte little-endian packing of the three
    trackers' reports, the sixteen line probes and the frame rate, in the
    layout `<bbhhbhhbhh` + sixteen `b` + `b`, and its decoder. */
module Telemetry {
  import opened Types
  import opened Tracker
  import opened LineScan

  newtype byte = x: int | 0 <= x < 256

  /** The sentinel in the first byte of every record. */
  const Magic: byte := 85
  /** Size in bytes of the packed record. */
  const RecordSize := 33

  predicate FitsI8(v: int) {
    -128 <= v < 128
  }

  predicate FitsI16(v: int) {
    -32768 <= v < 32768
  }

  /** The signed 8-bit value with the same low eight bits as v. */
  function WrapI8(v: int): (w: int)
    ensures FitsI8(w)
    ensures (w - v) % 256 == 0
    ensures FitsI8(v) ==> w == v
  {
    (v + 128) % 256 - 128
  }

  /** The signed 16-bit value with the same low sixteen bits as v. */
  function WrapI16(v: int): (w: int)
    ensures FitsI16(w)
    ensures (w - v) % 65536 == 0
    ensures FitsI16(v) ==> w == v
  {
    (v + 32768) % 65536 - 32768
  }

  /** The low eight bits of v; the packer stores them without a range
      check. */
  function LowByte(v: int): byte {
    (v % 256) as byte
  }

  /** A signed byte read back from its two's-complement bits. */
  function DecodeI8(b: byte): (v: int)
    ensures FitsI8(v)
    ensures LowByte(v) == b
  {
    if b < 128 then b as int else b as int - 256
  }

  /** A one-byte field (`b`). */
  function EncodeI8(v: int): (bs: seq<byte>)
    ensures |bs| == 1
    ensures DecodeI8(bs[0]) == WrapI8(v)
  {
    [LowByte(v)]
  }

  /** A signed little-endian 16-bit value read back from its two bytes. */
  function DecodeI16(lo: byte, hi: byte): (v: int)
    ensures FitsI16(v)
    ensures EncodeI16(v) == [lo, hi]
  {
    var u := lo as int + 256 * hi as int;
    var v := if u < 32768 then u else u - 65536;
    assert EncodeI16(v) == [lo, hi] by {
      assert v % 65536 == u;
      LittleEndianDigits(lo as int, hi as int);
    }
    v
  }

  /** Splitting lo + 256 * hi into base-256 digits gives back lo and hi. */
  lemma LittleEndianDigits(lo: int, hi: int)
    requires 0 <= lo < 256 && 0 <= hi < 256
    ensures (lo + 256 * hi) % 256 == lo && (lo + 256 * hi) / 256 == hi
  {
  }

  /** A two-byte little-endian two's-complement field (`h`): low byte
      first. */
  function EncodeI16(v: int): (bs: seq<byte>)
    ensures |bs| == 2
    ensures bs[0] as int + 256 * bs[1] as int == v % 65536
  {
    var u := v % 65536;
    [(u % 256) as byte, (u / 256) as byte]
  }

  lemma I16RoundTrip(v: int)
    ensures DecodeI16(EncodeI16(v)[0], EncodeI16(v)[1]) == WrapI16(v)
  {
    var bs := EncodeI16(v);
    var u := v % 65536;
    var q := v / 65536;
    assert v == q * 65536 + u;
    assert bs[0] as int + 256 * bs[1] as int == u;
    if u < 32768 {
      assert v + 32768 == q * 65536 + (u + 32768);
      assert (v + 32768) % 65536 == u + 32768;
    } else {
      assert v + 32768 == (q + 1) * 65536 + (u - 32768);
      assert (v + 32768) % 65536 == u - 32768;
    }
  }

  /** What a tracker reports: presence token, bearing and distance. */
  datatype Report = Report(token: int, angle: int, dist: int)

  /** The record before packing. */
  datatype Record = Record(ball: Report, yellow: Report, blue: Report, lines: seq<int>, fps: int)

  /** Every field fits its packed width. */
  predicate ReportInRange(r: Report) {
    FitsI8(r.token) && FitsI16(r.angle) && FitsI16(r.dist)
  }

  predicate InRange(rec: Record) {
    && ReportInRange(rec.ball) && ReportInRange(rec.yellow) && ReportInRange(rec.blue)
    && |rec.lines| == SegmentN
    && (forall i :: 0 <= i < |rec.lines| ==> FitsI8(rec.lines[i]))
    && FitsI8(rec.fps)
  }

  /** The record as its packed fields read back: every field reduced to its
      width in two's complement. */
  function Wrapped(rec: Record): Record {
    Record(WrapReport(rec.ball), WrapReport(rec.yellow), WrapReport(rec.blue),
           WrapLines(rec.lines), WrapI8(rec.fps))
  }

  /** Each line value reduced to eight bits. */
  function WrapLines(lines: seq<int>): (ws: seq<int>)
    ensures |ws| == |lines|
    ensures forall i :: 0 <= i < |lines| ==> ws[i] == WrapI8(lines[i])
  {
    if |lines| == 0 then [] else [WrapI8(lines[0])] + WrapLines(lines[1..])
  }

  function WrapReport(r: Report): Report {
    Report(WrapI8(r.token), WrapI16(r.angle), WrapI16(r.dist))
  }

  /** Token, angle, distance: `bhh`, five bytes. */
  function EncodeReport(r: Report): (bs: seq<byte>)
    ensures |bs| == 5
  {
    EncodeI8(r.token) + EncodeI16(r.angle) + EncodeI16(r.dist)
  }

  function DecodeReport(bs: seq<byte>): Report
    requires |bs| == 5
  {
    Report(DecodeI8(bs[0]), DecodeI16(bs[1], bs[2]), DecodeI16(bs[3], bs[4]))
  }

  /** The line values as `b` fields: one low byte each. */
  function EncodeLines(lines: seq<int>): (bs: seq<byte>)
    ensures |bs| == |lines|
    ensures forall i :: 0 <= i < |lines| ==> bs[i] == LowByte(lines[i])
  {
    if |lines| == 0 then [] else [LowByte(lines[0])] + EncodeLines(lines[1..])
  }

  /** The line bytes read back as signed values. */
  function DecodeLines(bs: seq<byte>): (lines: seq<int>)
    ensures |lines| == |bs|
    ensures forall i :: 0 <= i < |bs| ==> lines[i] == DecodeI8(bs[i])
  {
    if |bs| == 0 then [] else [DecodeI8(bs[0])] + DecodeLines(bs[1..])
  }

  /** The packed record: 33 bytes, the sentinel first, then the ball, the
      yellow goal, the blue goal, the sixteen line bytes and the frame
      rate. */
  function Encode(rec: Record): (bs: seq<byte>)
    requires |rec.lines| == SegmentN
    ensures |bs| == RecordSize && bs[0] == Magic
  {
    [Magic] + EncodeReport(rec.ball) + EncodeReport(rec.yellow) + EncodeReport(rec.blue)
      + EncodeLines(rec.lines) + EncodeI8(rec.fps)
  }

  /** The consumer's side: a record of the right size that starts with the
      sentinel, read field by field at the fixed offsets. */
  function Decode(bs: seq<byte>): (r: Option<Record>)
    ensures r.Some? <==> |bs| == RecordSize && bs[0] == Magic
    ensures r.Some? ==> InRange(r.value)
  {
    if |bs| != RecordSize || bs[0] != Magic then None
    else Some(Record(DecodeReport(bs[1..6]), DecodeReport(bs[6..11]), DecodeReport(bs[11..16]),
                     DecodeLines(bs[16..32]), DecodeI8(bs[32])))
  }

  lemma ReportRoundTrip(r: Report)
    ensures DecodeReport(EncodeReport(r)) == WrapReport(r)
  {
    var bs := EncodeReport(r);
    assert bs[1..3] == EncodeI16(r.angle);
    assert bs[3..5] == EncodeI16(r.dist);
    I16RoundTrip(r.angle);
    I16RoundTrip(r.dist);
  }

  /** Decoding a packed record gives back every field reduced to its packed
      width: the packer keeps only the low bits of an out-of-range value. */
  lemma DecodeEncodeWraps(rec: Record)
    requires |rec.lines| == SegmentN
    ensures Decode(Encode(rec)) == Some(Wrapped(rec))
  {
    var bs := Encode(rec);
    assert bs[1..6] == EncodeReport(rec.ball);
    assert bs[6..11] == EncodeReport(rec.yellow);
    assert bs[11..16] == EncodeReport(rec.blue);
    assert bs[16..32] == EncodeLines(rec.lines);
    assert bs[32..] == EncodeI8(rec.fps);
    ReportRoundTrip(rec.ball);
    ReportRoundTrip(rec.yellow);
    ReportRoundTrip(rec.blue);
    assert DecodeLines(bs[16..32]) == Wrapped(rec).lines by {
      forall i | 0 <= i < SegmentN
        ensures DecodeLines(bs[16..32])[i] == Wrapped(rec).lines[i]
      {
        assert EncodeI8(rec.lines[i]) == [bs[16 + i]];
      }
    }
  }

  /** Round trip: every in-range record is decoded exactly as it was
      packed. */
  lemma DecodeEncode(rec: Record)
    requires InRange(rec)
    ensures Decode(Encode(rec)) == Some(rec)
  {
    DecodeEncodeWraps(rec);
    assert Wrapped(rec).lines == rec.lines;
  }

  /** The other direction: a byte string the consumer accepts is exactly the
      packing of what it decodes to. */
  lemma EncodeDecode(bs: seq<byte>)
    requires Decode(bs).Some?
    ensures Encode(Decode(bs).value) == bs
  {
  }

  /** A tracker's report: its current token, bearing and distance. */
  function ReportOf(st: TrackerState): Report {
    Report(st.newValue, st.angle, st.dist)
  }

  /** A line probe as packed: True is 1, False is 0. */
  function BitOf(found: bool): int {
    if found then 1 else 0
  }

  /** The record assembled from the trackers, the line scan and the frame
      rate (already truncated to an integer). */
  function Snapshot(ball: TrackerState, yellow: TrackerState, blue: TrackerState, lineArr: seq<bool>, fps: int): Record {
    Record(ReportOf(ball), ReportOf(yellow), ReportOf(blue),
           seq(|lineArr|, i requires 0 <= i < |lineArr| => BitOf(lineArr[i])), fps)
  }

  /** The published buffer of one processing cycle. */
  function GenerateData(ball: TrackerState, yellow: TrackerState, blue: TrackerState, lineArr: seq<bool>, fps: int): (bs: seq<byte>)
    requires |lineArr| == SegmentN
    ensures |bs| == RecordSize && bs[0] == Magic
  {
    Encode(Snapshot(ball, yellow, blue, lineArr, fps))
  }

  /** What the consumer reads from a published buffer: for valid trackers
      whose vectors fit sixteen bits and a frame rate below 128, every token
      (0 for absent, 1..100 for present), bearing, distance, line probe and
      the frame rate arrive unchanged. */
  lemma GenerateDataDecodes(g: Geometry, ball: TrackerState, yellow: TrackerState, blue: TrackerState,
                            lineArr: seq<bool>, fps: int)
    requires Valid(g, ball) && Valid(g, yellow) && Valid(g, blue)
    requires FitsI16(ball.angle) && FitsI16(ball.dist)
    requires FitsI16(yellow.angle) && FitsI16(yellow.dist)
    requires FitsI16(blue.angle) && FitsI16(blue.dist)
    requires |lineArr| == SegmentN && FitsI8(fps)
    ensures Decode(GenerateData(ball, yellow, blue, lineArr, fps)) == Some(Snapshot(ball, yellow, blue, lineArr, fps))
    ensures var rec := Decode(GenerateData(ball, yellow, blue, lineArr, fps)).value;
      && rec.ball.token == ball.newValue && 0 <= rec.ball.token <= 100
      && (rec.ball.token == 0 <==> ball.bestMatch.None?)
      && rec.yellow.token == yellow.newValue && 0 <= rec.yellow.token <= 100
      && (rec.yellow.token == 0 <==> yellow.bestMatch.None?)
      && rec.blue.token == blue.newValue && 0 <= rec.blue.token <= 100
      && (rec.blue.token == 0 <==> blue.bestMatch.None?)
      && (forall i :: 0 <= i < SegmentN ==> (rec.lines[i] == 1 <==> lineArr[i]))
  {
    DecodeEncode(Snapshot(ball, yellow, blue, lineArr, fps));
  }
}
