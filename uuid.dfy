/**
 * Anchor identifiers and the scene-graph name derived from them.
 *
 * An anchor id is Foundation's `UUID`: 16 bytes in memory order. The node
 * name `"MeshAnchor-\(anchor.id)"` interpolates the UUID's description, which
 * is taken to be the canonical 8-4-4-4-12 upper-case hexadecimal form. The
 * scene-graph lemmas rely only on `AnchorName` being injective, which is
 * proved here through a parser that inverts the textual form; the lemma
 * relating the colour channels to the name also rests on the layout itself.
 */
module Uuid {
  import opened Wrappers
  import opened Bytes

  /** The 16 bytes of a `uuid_t`, in memory order. */
  type UUID = s: seq<byte> | |s| == 16 witness seq(16, _ => 0)

  const AnchorNamePrefix: string := "MeshAnchor-"

  /** Upper-case hexadecimal digit for a nibble. */
  function HexDigit(n: nat): (c: char)
    requires n < 16
    ensures DigitValue(c) == Some(n)
  {
    if n < 10 then ('0' as int + n) as char else ('A' as int + (n - 10)) as char
  }

  /** Value of an upper-case hexadecimal digit, or None for any other character. */
  function DigitValue(c: char): (r: Option<nat>)
    ensures r.Some? ==> r.value < 16
  {
    if '0' <= c <= '9' then Some(c as int - '0' as int)
    else if 'A' <= c <= 'F' then Some(c as int - 'A' as int + 10)
    else None
  }

  /** Two digits per byte, high nibble first. */
  function HexByte(b: byte): (r: string)
    ensures |r| == 2
  {
    [HexDigit(b / 16), HexDigit(b % 16)]
  }

  function HexBytes(s: seq<byte>): (r: string)
    ensures |r| == 2 * |s|
  {
    if s == [] then [] else HexByte(s[0]) + HexBytes(s[1..])
  }

  /** Foundation's `uuidString`: groups of 4, 2, 2, 2 and 6 bytes joined by dashes. */
  function UuidString(u: UUID): (r: string)
    ensures |r| == 36
  {
    HexBytes(u[..4]) + "-" + HexBytes(u[4..6]) + "-" + HexBytes(u[6..8]) + "-"
    + HexBytes(u[8..10]) + "-" + HexBytes(u[10..])
  }

  /** The name `createMeshEntity` gives an anchor's node. */
  function AnchorName(u: UUID): (r: string)
    ensures |r| == |AnchorNamePrefix| + 36 && r[..|AnchorNamePrefix|] == AnchorNamePrefix
  {
    AnchorNamePrefix + UuidString(u)
  }

  /** Inverse of HexBytes: an even number of hexadecimal digits to bytes. */
  function ParseHexBytes(t: string): (r: Option<seq<byte>>)
    ensures r.Some? ==> 2 * |r.value| == |t|
    decreases |t|
  {
    if t == [] then Some([])
    else if |t| == 1 then None
    else
      match (DigitValue(t[0]), DigitValue(t[1]), ParseHexBytes(t[2..]))
      case (Some(hi), Some(lo), Some(rest)) => Some([(hi * 16 + lo)] + rest)
      case _ => None
  }

  /** Inverse of UuidString: None unless the text has the 8-4-4-4-12 shape. */
  function ParseUuidString(t: string): (r: Option<UUID>)
  {
    if |t| != 36 || t[8] != '-' || t[13] != '-' || t[18] != '-' || t[23] != '-' then None
    else
      match (ParseHexBytes(t[..8]), ParseHexBytes(t[9..13]), ParseHexBytes(t[14..18]),
             ParseHexBytes(t[19..23]), ParseHexBytes(t[24..]))
      case (Some(a), Some(b), Some(c), Some(d), Some(e)) => Some(a + b + c + d + e)
      case _ => None
  }

  lemma {:induction false} ParseHexBytesRoundTrip(s: seq<byte>)
    ensures ParseHexBytes(HexBytes(s)) == Some(s)
  {
    if s != [] {
      var t := HexBytes(s);
      assert t == HexByte(s[0]) + HexBytes(s[1..]);
      assert t[2..] == HexBytes(s[1..]);
      ParseHexBytesRoundTrip(s[1..]);
      assert [s[0]] + s[1..] == s;
    }
  }

  /** A text of five digit groups of the right lengths parses to the bytes of the groups. */
  lemma ParseGroups(a: string, b: string, c: string, d: string, e: string,
                    x: seq<byte>, y: seq<byte>, z: seq<byte>, v: seq<byte>, w: seq<byte>)
    requires |a| == 8 && |b| == 4 && |c| == 4 && |d| == 4 && |e| == 12
    requires ParseHexBytes(a) == Some(x) && ParseHexBytes(b) == Some(y)
    requires ParseHexBytes(c) == Some(z) && ParseHexBytes(d) == Some(v)
    requires ParseHexBytes(e) == Some(w)
    requires |x + y + z + v + w| == 16
    ensures ParseUuidString(a + "-" + b + "-" + c + "-" + d + "-" + e) == Some(x + y + z + v + w)
  {
    var t := a + "-" + b + "-" + c + "-" + d + "-" + e;
    assert t[..8] == a;
    assert t[9..13] == b;
    assert t[14..18] == c;
    assert t[19..23] == d;
    assert t[24..] == e;
  }

  /** Parsing the printed form of an id gives the id back. */
  lemma UuidStringRoundTrip(u: UUID)
    ensures ParseUuidString(UuidString(u)) == Some(u)
  {
    var x, y, z, v, w := u[..4], u[4..6], u[6..8], u[8..10], u[10..];
    ParseHexBytesRoundTrip(x);
    ParseHexBytesRoundTrip(y);
    ParseHexBytesRoundTrip(z);
    ParseHexBytesRoundTrip(v);
    ParseHexBytesRoundTrip(w);
    assert x + y + z + v + w == u;
    ParseGroups(HexBytes(x), HexBytes(y), HexBytes(z), HexBytes(v), HexBytes(w), x, y, z, v, w);
  }

  /** Distinct anchors get distinct node names, and equal names mean equal anchors. */
  lemma AnchorNameInjective(u: UUID, v: UUID)
    ensures AnchorName(u) == AnchorName(v) <==> u == v
  {
    if AnchorName(u) == AnchorName(v) {
      assert AnchorName(u)[|AnchorNamePrefix|..] == UuidString(u);
      assert AnchorName(v)[|AnchorNamePrefix|..] == UuidString(v);
      UuidStringRoundTrip(u);
      UuidStringRoundTrip(v);
    }
  }
}
