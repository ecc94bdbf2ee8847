/** The order-header decoder of the Interleaved RLE bitmap stream
    (MS-RDPBCGR section 2.2.9.1.1.3.1.2.4, RLE_BITMAP_STREAM, decoded as in
    section 3.1.9): one call looks at the first bytes of the remaining stream and
    says which compression order starts there, its run length, and how many
    header bytes it took. This is `b_unrle`. */
module Orders {
  import opened Bytes

  /** A decoded order header: the order code (the lead byte with its run-length
      bits cleared, or the whole lead byte for the 0xF0-0xFF orders), the run
      length, and the number of header bytes read. */
  datatype Order = Order(code: byte, run: nat, size: nat)

  /** What b_unrle returns: an order `(x, c, o)`, the "stream ended" tuple
      `(-1, 1, 0)`, or the "unexpected lead byte x" tuple `(-1, 2, x)`. */
  datatype Lead = Parsed(order: Order) | Truncated | Unexpected(lead: byte)

  /** The order codes b_uncompress has a branch for. */
  const HandledCodes: set<byte> :=
    {0x00, 0x20, 0x40, 0x60, 0x80, 0xC0, 0xD0, 0xE0,
     0xF0, 0xF1, 0xF2, 0xF3, 0xF4, 0xF6, 0xF7, 0xF8, 0xF9, 0xFA, 0xFD, 0xFE}

  /** Lead bytes that name no order: 0xA0-0xBF and 0xF5, 0xFB, 0xFC, 0xFF. */
  predicate IsUnexpectedLead(x: byte)
  {
    0xA0 <= x <= 0xBF || x == 0xF5 || x == 0xFB || x == 0xFC || x == 0xFF
  }

  /** The two special orders whose mask is implied (0xF9 and 0xFA) always cover
      eight pixels; every other order may carry any run. */
  predicate WellFormed(o: Order)
  {
    (o.code == 0xF9 || o.code == 0xFA) ==> o.run == 8
  }

  /** b_unrle, given at most the first three bytes of the remaining stream. */
  function Unrle(data: seq<byte>): (r: Lead)
    ensures r.Parsed? ==> 1 <= r.order.size <= 3 && r.order.size <= |data|
    ensures r.Parsed? ==> r.order.code in HandledCodes && WellFormed(r.order)
    ensures r.Unexpected? ==> |data| > 0 && r.lead == data[0]
    ensures r.Truncated? ==> |data| < 3
  {
    if |data| == 0 then Truncated
    else
      var x := data[0];
      if x & 0xF0 == 0xF0 then
        if x in [0xF5, 0xFB, 0xFC, 0xFF] then Unexpected(x)
        else if x in [0xFD, 0xFE] then Parsed(Order(x, 0, 1))
        else if x in [0xF9, 0xFA] then Parsed(Order(x, 8, 1))
        else if |data| < 3 then Truncated
        else Parsed(Order(x, U16(data, 1), 3))
      else if x & 0xE0 == 0xA0 then Unexpected(x)
      else
        // regular orders keep 5 run bits and bias an extended run by 32,
        // lite orders keep 4 bits and bias by 16
        var regular := x & 0x80 == 0x00 || x & 0xE0 == 0x80;
        var code := if regular then x & 0xE0 else x & 0xF0;
        var c := if regular then (x & 0x1F) as nat else (x & 0x0F) as nat;
        var bias := if regular then 32 else 16;
        // the two foreground/background image orders count in units of 8 pixels
        var (c, bias) := if code in [0x40, 0xD0] then (c * 8, 1) else (c, bias);
        if c == 0 then
          if |data| < 2 then Truncated
          else Parsed(Order(code, data[1] as nat + bias, 2))
        else Parsed(Order(code, c, 1))
  }

  // ---------------------------------------------------------------------------
  // The order table of MS-RDPBCGR section 2.2.9.1.1.3.1.2.4, written by ranges
  // of the lead byte instead of by bit masks.

  /** Header length of the order that lead byte x starts. */
  function OrderLength(x: byte): nat
  {
    if x >= 0xF0 then (if x == 0xF9 || x == 0xFA || x == 0xFD || x == 0xFE then 1 else 3)
    else if x < 0xA0 then (if x % 32 == 0 then 2 else 1)
    else if x % 16 == 0 then 2 else 1
  }

  /** Order code of lead byte x: regular orders (below 0xA0) are 32 wide,
      lite orders (0xC0-0xEF) 16 wide, and 0xF0-0xFF are single codes. */
  function OrderCode(x: byte): byte
  {
    if x >= 0xF0 then x else if x < 0xA0 then x - x % 32 else x - x % 16
  }

  /** Run length of the order at the start of data. */
  function RunLength(data: seq<byte>): nat
    requires |data| > 0 && |data| >= OrderLength(data[0])
  {
    var x := data[0];
    var fgbg := OrderCode(x) == 0x40 || OrderCode(x) == 0xD0;
    if x >= 0xF0 then
      (if x == 0xF9 || x == 0xFA then 8 else if x == 0xFD || x == 0xFE then 0 else U16(data, 1))
    else
      var low := if x < 0xA0 then (x % 32) as nat else (x % 16) as nat;
      if low != 0 then (if fgbg then 8 * low else low)
      else data[1] as nat + (if fgbg then 1 else if x < 0xA0 then 32 else 16)
  }

  /** b_unrle decodes exactly the order table: an expected lead byte with all
      of its header present gives the table's code, run and header length, and
      one with part of its header missing gives the "stream ended" tuple. */
  lemma UnrleMatchesTable(data: seq<byte>)
    requires |data| > 0 && !IsUnexpectedLead(data[0])
    ensures |data| >= OrderLength(data[0]) ==>
      Unrle(data) == Parsed(Order(OrderCode(data[0]), RunLength(data), OrderLength(data[0])))
    ensures |data| < OrderLength(data[0]) ==> Unrle(data) == Truncated
  {
    var x := data[0];
    if x >= 0xF0 {
      SpecialMatchesTable(data);
    } else if x < 0xA0 {
      RegularMatchesTable(data);
    } else {
      LiteMatchesTable(data);
    }
  }

  /** The table's entries for the lead bytes 0xF0-0xFF. */
  lemma SpecialMatchesTable(data: seq<byte>)
    requires |data| > 0 && !IsUnexpectedLead(data[0]) && data[0] >= 0xF0
    ensures |data| >= OrderLength(data[0]) ==>
      Unrle(data) == Parsed(Order(OrderCode(data[0]), RunLength(data), OrderLength(data[0])))
    ensures |data| < OrderLength(data[0]) ==> Unrle(data) == Truncated
  {
    assert data[0] & 0xF0 == 0xF0;
  }

  /** The table's entries for the regular orders, lead bytes below 0xA0. */
  lemma RegularMatchesTable(data: seq<byte>)
    requires |data| > 0 && data[0] < 0xA0
    ensures |data| >= OrderLength(data[0]) ==>
      Unrle(data) == Parsed(Order(OrderCode(data[0]), RunLength(data), OrderLength(data[0])))
    ensures |data| < OrderLength(data[0]) ==> Unrle(data) == Truncated
  {
    var x := data[0];
    assert x & 0xF0 != 0xF0 && x & 0xE0 != 0xA0 && x & 0xE0 == x - x % 32;
  }

  /** The table's entries for the lite orders, lead bytes 0xC0-0xEF. */
  lemma LiteMatchesTable(data: seq<byte>)
    requires |data| > 0 && 0xC0 <= data[0] < 0xF0
    ensures |data| >= OrderLength(data[0]) ==>
      Unrle(data) == Parsed(Order(OrderCode(data[0]), RunLength(data), OrderLength(data[0])))
    ensures |data| < OrderLength(data[0]) ==> Unrle(data) == Truncated
  {
    var x := data[0];
    assert x & 0xF0 != 0xF0 && x & 0xE0 != 0xA0 && x & 0xF0 == x - x % 16;
  }

  /** The lead bytes b_unrle rejects as unexpected are exactly 0xA0-0xBF and
      0xF5, 0xFB, 0xFC, 0xFF; the empty stream gives the "stream ended" tuple. */
  lemma UnrleUnexpected(data: seq<byte>)
    ensures |data| == 0 ==> Unrle(data) == Truncated
    ensures |data| > 0 ==> (Unrle(data) == Unexpected(data[0]) <==> IsUnexpectedLead(data[0]))
  {
  }

  /** Only the first three bytes matter: b_uncompress hands b_unrle `data[:3]`. */
  lemma UnrlePrefix(data: seq<byte>, more: seq<byte>)
    requires Unrle(data).Parsed?
    ensures Unrle(data + more) == Unrle(data)
  {
    var all := data + more;
    var x := data[0];
    assert all[0] == x;
    UnrleUnexpected(data);
    UnrleMatchesTable(data);
    assert |data| >= OrderLength(x);
    UnrleMatchesTable(all);
    if OrderLength(x) == 3 {
      assert all[1] == data[1] && all[2] == data[2];
    } else if OrderLength(x) == 2 {
      assert all[1] == data[1];
    }
    assert RunLength(all) == RunLength(data);
  }
}
