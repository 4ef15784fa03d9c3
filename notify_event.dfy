/**
 * One inotify record as the kernel lays it out in a read buffer, and the
 * NotifyEvent the watcher builds from it (wd, mask, cookie copied, name
 * taken up to its terminating NUL, or "" when the record has no name).
 *
 * Layout (struct inotify_event, little-endian):
 *   bytes 0..4   wd      (int32, two's complement)
 *   bytes 4..8   mask    (uint32)
 *   bytes 8..12  cookie  (uint32)
 *   bytes 12..16 len     (uint32)
 *   bytes 16..16+len    name, NUL-terminated and NUL-padded
 */
module NotifyEvents {
  import opened InotifyFlags

  type Byte = x: int | 0 <= x < 256

  const HeaderSize: nat := 16
  const TwoTo32: int := 0x1_0000_0000
  const TwoTo31: int := 0x8000_0000

  /** The watcher's view of one kernel record. */
  datatype NotifyEvent = NotifyEvent(wd: int, mask: U32, cookie: U32, name: string)

  /** Unsigned 32-bit little-endian value at offset i. */
  function U32At(buf: seq<Byte>, i: nat): (v: U32)
    requires i + 4 <= |buf|
  {
    LE32(buf[i..i + 4])
  }

  /** Four bytes read as a little-endian unsigned value. */
  function LE32(bs: seq<Byte>): (v: U32)
    requires |bs| == 4
  {
    var b0: int, b1: int, b2: int, b3: int := bs[0], bs[1], bs[2], bs[3];
    b0 + 256 * (b1 + 256 * (b2 + 256 * b3))
  }

  /** Signed 32-bit two's-complement value at offset i. */
  function I32At(buf: seq<Byte>, i: nat): (v: int)
    requires i + 4 <= |buf|
    ensures -TwoTo31 <= v < TwoTo31
  {
    var u := U32At(buf, i);
    if u >= TwoTo31 then u - TwoTo32 else u
  }

  /** The record's len field: the number of name bytes after the header. */
  function NameLen(buf: seq<Byte>): U32
    requires |buf| >= HeaderSize
  {
    U32At(buf, 12)
  }

  /** Bytes before the first NUL (all of them when there is none). */
  function UpToNul(bs: seq<Byte>): (r: seq<Byte>)
    ensures |r| <= |bs| && r == bs[..|r|]
    ensures forall i :: 0 <= i < |r| ==> r[i] != 0
    ensures |r| < |bs| ==> bs[|r|] == 0
  {
    if bs == [] || bs[0] == 0 then [] else [bs[0]] + UpToNul(bs[1..])
  }

  /** With a NUL present, the bytes before the first one are fewer than all. */
  lemma UpToNulStopsAtNul(bs: seq<Byte>)
    requires 0 in bs
    ensures |UpToNul(bs)| < |bs|
  {
  }

  function BytesToString(bs: seq<Byte>): (s: string)
    ensures |s| == |bs| && forall i :: 0 <= i < |bs| ==> s[i] as int == bs[i]
  {
    if bs == [] then "" else [bs[0] as char] + BytesToString(bs[1..])
  }

  /**
   * A record the kernel can deliver: the header and its name bytes fit
   * in the buffer, and a non-empty name area holds a terminating NUL.
   */
  predicate RecordAt(buf: seq<Byte>)
  {
    |buf| >= HeaderSize && HeaderSize + NameLen(buf) <= |buf|
    && (NameLen(buf) > 0 ==> 0 in buf[HeaderSize..HeaderSize + NameLen(buf)])
  }

  /** The size of the record at the start of buf: header plus name area. */
  function RecordSize(buf: seq<Byte>): (n: nat)
    requires RecordAt(buf)
    ensures HeaderSize <= n <= |buf|
  {
    HeaderSize + NameLen(buf)
  }

  /** The name of the record: "" when len is 0, else the bytes up to the NUL. */
  function MakeName(buf: seq<Byte>): (name: string)
    requires RecordAt(buf)
    ensures NameLen(buf) == 0 ==> name == ""
    ensures |name| < NameLen(buf) || NameLen(buf) == 0
    ensures NameLen(buf) > 0 ==> buf[HeaderSize + |name|] == 0
    ensures forall i :: 0 <= i < |name| ==> name[i] as int == buf[HeaderSize + i] && name[i] != 0 as char
  {
    if NameLen(buf) == 0 then ""
    else
      var area := buf[HeaderSize..HeaderSize + NameLen(buf)];
      var bs := UpToNul(area);
      UpToNulStopsAtNul(area);
      assert forall i :: 0 <= i < |bs| ==> bs[i] == area[i] == buf[HeaderSize + i];
      BytesToString(bs)
  }

  /** The NotifyEvent constructed from the record at the start of buf. */
  function Decode(buf: seq<Byte>): (e: NotifyEvent)
    requires RecordAt(buf)
  {
    NotifyEvent(I32At(buf, 0), U32At(buf, 4), U32At(buf, 8), MakeName(buf))
  }

  // ---------------------------------------------------------------------
  // The kernel side: how a record is laid out, used as the partner of
  // Decode.

  function U32Bytes(v: U32): (bs: seq<Byte>)
    ensures |bs| == 4
  {
    var q1 := v / 256;
    var q2 := q1 / 256;
    var q3 := q2 / 256;
    [v % 256, q1 % 256, q2 % 256, q3]
  }

  function I32Bytes(v: int): (bs: seq<Byte>)
    requires -TwoTo31 <= v < TwoTo31
    ensures |bs| == 4
  {
    U32Bytes(if v < 0 then v + TwoTo32 else v)
  }

  lemma U32RoundTrip(v: U32)
    ensures LE32(U32Bytes(v)) == v
  {
    var q1 := v / 256;
    var q2 := q1 / 256;
    assert q2 % 256 + 256 * (q2 / 256) == q2;
    assert q1 % 256 + 256 * q2 == q1;
  }

  lemma I32RoundTrip(v: int)
    requires -TwoTo31 <= v < TwoTo31
    ensures var u := LE32(I32Bytes(v)); (if u >= TwoTo31 then u - TwoTo32 else u) == v
  {
    U32RoundTrip(if v < 0 then v + TwoTo32 else v);
  }

  /** A name the kernel can report: byte-sized characters, none of them NUL. */
  predicate NameChars(name: string) {
    forall i :: 0 <= i < |name| ==> 0 < name[i] as int < 256
  }

  function StringToBytes(s: string): (bs: seq<Byte>)
    requires NameChars(s)
    ensures |bs| == |s| && forall i :: 0 <= i < |s| ==> bs[i] == s[i] as int
  {
    if s == [] then [] else [s[0] as int] + StringToBytes(s[1..])
  }

  function Zeros(n: nat): (z: seq<Byte>)
    ensures |z| == n && forall i :: 0 <= i < n ==> z[i] == 0
  {
    if n == 0 then [] else [0] + Zeros(n - 1)
  }

  /** The event can be laid out as a record (its wd fits in 32 bits). */
  predicate Encodable(e: NotifyEvent) {
    -TwoTo31 <= e.wd < TwoTo31 && NameChars(e.name)
    && (e.name != "" ==> |e.name| + 1 < TwoTo32)
  }

  /** The name area of a record: empty, or the name, a NUL and pad more NULs. */
  function NameArea(name: string, pad: nat): (bs: seq<Byte>)
    requires NameChars(name)
  {
    if name == "" then [] else StringToBytes(name) + Zeros(1 + pad)
  }

  /** The record the kernel writes for e, with pad extra NUL bytes of alignment. */
  function Encode(e: NotifyEvent, pad: nat): (bs: seq<Byte>)
    requires Encodable(e) && (e.name != "" ==> |e.name| + 1 + pad < TwoTo32)
    ensures |bs| >= HeaderSize
  {
    var area := NameArea(e.name, pad);
    Header(e, |area|) + area
  }

  /** The 16 header bytes of the record for e with a name area of n bytes. */
  function Header(e: NotifyEvent, n: U32): (h: seq<Byte>)
    requires -TwoTo31 <= e.wd < TwoTo31
    ensures |h| == HeaderSize
  {
    I32Bytes(e.wd) + U32Bytes(e.mask) + U32Bytes(e.cookie) + U32Bytes(n)
  }

  lemma HeaderRoundTrip(e: NotifyEvent, n: U32, tail: seq<Byte>)
    requires -TwoTo31 <= e.wd < TwoTo31
    ensures |Header(e, n) + tail| >= HeaderSize
    ensures I32At(Header(e, n) + tail, 0) == e.wd
    ensures U32At(Header(e, n) + tail, 4) == e.mask
    ensures U32At(Header(e, n) + tail, 8) == e.cookie
    ensures NameLen(Header(e, n) + tail) == n
  {
    var buf := Header(e, n) + tail;
    assert buf[0..4] == I32Bytes(e.wd);
    assert buf[4..8] == U32Bytes(e.mask);
    assert buf[8..12] == U32Bytes(e.cookie);
    assert buf[12..16] == U32Bytes(n);
    I32RoundTrip(e.wd);
    U32RoundTrip(e.mask);
    U32RoundTrip(e.cookie);
    U32RoundTrip(n);
  }

  lemma {:induction false} UpToNulOfTerminated(name: seq<Byte>, z: seq<Byte>)
    requires forall i :: 0 <= i < |name| ==> name[i] != 0
    requires |z| > 0 && z[0] == 0
    ensures UpToNul(name + z) == name
  {
    if name != [] {
      assert (name + z)[1..] == name[1..] + z;
      UpToNulOfTerminated(name[1..], z);
    } else {
      assert (name + z)[0] == 0;
    }
  }

  lemma {:induction false} BytesToStringOfBytes(s: string)
    requires NameChars(s)
    ensures BytesToString(StringToBytes(s)) == s
  {
    if s != [] {
      assert StringToBytes(s)[1..] == StringToBytes(s[1..]);
      BytesToStringOfBytes(s[1..]);
    }
  }

  /**
   * Decoding the record the kernel writes for an event gives back that
   * event, whatever the padding and whatever follows the record, and the
   * record's size is exactly what was written.
   */
  lemma DecodeEncode(e: NotifyEvent, pad: nat, rest: seq<Byte>)
    requires Encodable(e) && (e.name != "" ==> |e.name| + 1 + pad < TwoTo32)
    ensures RecordAt(Encode(e, pad) + rest)
    ensures RecordSize(Encode(e, pad) + rest) == |Encode(e, pad)|
    ensures Decode(Encode(e, pad) + rest) == e
  {
    var area := NameArea(e.name, pad);
    var buf := Encode(e, pad) + rest;
    assert buf == Header(e, |area|) + (area + rest);
    HeaderRoundTrip(e, |area|, area + rest);
    assert buf[HeaderSize..HeaderSize + |area|] == area;
    if e.name != "" {
      var nb := StringToBytes(e.name);
      assert area[|nb|] == 0;
      UpToNulOfTerminated(nb, Zeros(1 + pad));
      BytesToStringOfBytes(e.name);
    }
  }
}
