/**
 * `colorFromUUID`: the material colour of an anchor's mesh, chosen from the
 * anchor id's bytes. Only the byte selection is modelled; the channels are
 * kept as the selected bytes, before the division by 255 into `CGFloat`.
 */
module Color {
  import opened Bytes
  import opened Uuid

  /** A colour as the three channel bytes it is built from, plus its alpha. */
  datatype ColorBytes = ColorBytes(red: byte, green: byte, blue: byte, alpha: real)

  function ColorFromUuid(u: UUID): (c: ColorBytes)
    ensures c.red == u[0] && c.green == u[1] && c.blue == u[2] && c.alpha == 1.0
  {
    ColorBytes(u[0], u[1], u[2], 1.0)
  }

  /**
   * The colour is a function of the id's first three bytes and of nothing
   * else: two ids share a colour exactly when they agree on bytes 0, 1 and 2.
   */
  lemma ColorDeterminedByFirstThreeBytes(u: UUID, v: UUID)
    ensures ColorFromUuid(u) == ColorFromUuid(v) <==> u[..3] == v[..3]
  {
  }

  /**
   * The three channels are the bytes behind the first six characters of the
   * anchor's printed id, two hex digits each, so a node's colour can be read
   * off its name.
   */
  lemma ChannelsArePrintedBytes(u: UUID)
    ensures var name, p, c := AnchorName(u), |AnchorNamePrefix|, ColorFromUuid(u);
      && name[p..p + 2] == HexByte(c.red)
      && name[p + 2..p + 4] == HexByte(c.green)
      && name[p + 4..p + 6] == HexByte(c.blue)
  {
    var h := HexBytes(u[..4]);
    assert h == HexByte(u[0]) + HexBytes(u[1..4]);
    assert HexBytes(u[1..4]) == HexByte(u[1]) + HexBytes(u[2..4]);
    assert HexBytes(u[2..4]) == HexByte(u[2]) + HexBytes(u[3..4]);
    var name, p := AnchorName(u), |AnchorNamePrefix|;
    var w := name[p..p + 8];
    assert w == h;
    assert h[..2] == HexByte(u[0]) && h[2..4] == HexByte(u[1]) && h[4..6] == HexByte(u[2]);
    assert name[p..p + 2] == w[..2] && name[p + 2..p + 4] == w[2..4] && name[p + 4..p + 6] == w[4..6];
  }
}
