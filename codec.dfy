/** What `b_uncompress` computes, written as functions: the decoder state, the
    effect of one compression order on it, and the walk over a whole compressed
    tile. The imperative decoder in module Decompress is proved to compute
    exactly `Uncompress` below.

    The stream format is the Interleaved RLE bitmap stream of MS-RDPBCGR
    (section 2.2.9.1.1.3.1.2.4 for the orders, section 3.1.9 for the decoding
    rules); the decoder works on a 64-pixel-wide cell of `bbp` bytes per pixel.

    The source keeps its output as one byte string. Every order appends whole
    pixels, so the output is always a join of `bbp`-byte pixels; the model keeps
    that list of pixels and joins it at the end. "The output is shorter than
    64*bbp bytes" is then "fewer than 64 pixels", and `d_out[-64*bbp:][:bbp]`
    is the pixel 64 places back. */
module Codec {
  import opened Bytes
  import opened Orders

  type Pixel = seq<byte>

  /** Decoder state carried from order to order: the output so far (`d_out`),
      the foreground colour (`fgc`), and `bro`, which is -1 unless the previous
      order was a background run, in which case it holds the number of complete
      64-pixel rows written when that run ended. */
  datatype State = State(out: seq<Pixel>, fg: Pixel, bro: int)

  /** Why a tile is given up (the source logs each and returns b""). */
  datatype DecodeError = EndOfStream | UnexpectedOrder(lead: byte) | UnhandledOrder(code: byte)

  /** The state after one order and the stream bytes still unread. */
  datatype Step = Step(st: State, rest: seq<byte>)

  /** Every pixel of s is bbp bytes long. */
  predicate Pixels(s: seq<Pixel>, bbp: nat)
  {
    forall i :: 0 <= i < |s| ==> |s[i]| == bbp
  }

  /** A pixel whose every channel is v (`COLOR_BLACK*bbp`, `COLOR_WHITE*bbp`). */
  function Solid(v: byte, bbp: nat): (c: Pixel)
    ensures |c| == bbp && forall i :: 0 <= i < bbp ==> c[i] == v
  {
    seq(bbp, _ => v)
  }

  /** Initial state: nothing written, a white foreground, no background run before. */
  function Start(bbp: nat): State
  {
    State([], Solid(0xFF, bbp), -1)
  }

  /** The invariant the decoder keeps: pixel-sized output and foreground, and
      `bro` either -1 or the number of complete rows written. */
  ghost predicate Valid(st: State, bbp: nat)
  {
    && bbp >= 1
    && |st.fg| == bbp
    && Pixels(st.out, bbp)
    && (st.bro == -1 || st.bro == |st.out| / 64)
  }

  lemma StartValid(bbp: nat)
    requires bbp >= 1
    ensures Valid(Start(bbp), bbp)
  {
  }

  // ---------------------------------------------------------------------------
  // Pixels

  /** Channel-wise XOR of a pixel with the foreground colour. */
  function XorPixel(c: Pixel, fg: Pixel): (x: Pixel)
    requires |c| == |fg|
    ensures |x| == |c| && forall i :: 0 <= i < |c| ==> x[i] == c[i] ^ fg[i]
  {
    seq(|c|, i requires 0 <= i < |c| => c[i] ^ fg[i])
  }

  /** Bit j of byte m, counting from the least significant. */
  function Bit(m: byte, j: nat): bool
    requires j < 8
  {
    m & (1 << j) != 0
  }

  /** Bit k of a mask, least significant bit of each byte first. */
  function MaskBit(mask: seq<byte>, k: nat): bool
    requires k / 8 < |mask|
  {
    Bit(mask[k / 8], k % 8)
  }

  /** `data[:n*bbp]` cut into n pixels. */
  function {:induction false} Chunks(data: seq<byte>, bbp: nat, n: nat): (r: seq<Pixel>)
    requires |data| >= n * bbp
    ensures |r| == n && Pixels(r, bbp)
    ensures Concat(r) == data[..n * bbp]
  {
    if n == 0 then []
    else
      assert n * bbp == (n - 1) * bbp + bbp;
      var tail := Chunks(data[bbp..], bbp, n - 1);
      assert data[..n * bbp] == data[..bbp] + data[bbp..][..(n - 1) * bbp];
      [data[..bbp]] + tail
  }

  // ---------------------------------------------------------------------------
  // Runs of pixels

  /** n pixels, each a copy of the pixel one row (64 pixels) above it. */
  function CopyRun(out: seq<Pixel>, n: int, bbp: nat): (r: seq<Pixel>)
    requires |out| >= 64 && Pixels(out, bbp)
    ensures |r| == |out| + Max(n, 0) && r[..|out|] == out && Pixels(r, bbp)
    ensures forall i :: |out| <= i < |r| ==> r[i] == r[i - 64]
    decreases n
  {
    if n <= 0 then out
    else
      var next := out + [out[|out| - 64]];
      var r := CopyRun(next, n - 1, bbp);
      assert r[..|out|] == out by { assert r[..|next|][..|out|] == out; }
      assert r[|out|] == r[|out| - 64] by {
        assert r[|out|] == next[|out|];
        assert r[|out| - 64] == next[|out| - 64];
      }
      r
  }

  /** n pixels, each the pixel one row above it XOR the foreground colour. */
  function XorRun(out: seq<Pixel>, fg: Pixel, n: int): (r: seq<Pixel>)
    requires |out| >= 64 && Pixels(out, |fg|)
    ensures |r| == |out| + Max(n, 0) && r[..|out|] == out && Pixels(r, |fg|)
    ensures forall i :: |out| <= i < |r| ==> r[i] == XorPixel(r[i - 64], fg)
    decreases n
  {
    if n <= 0 then out
    else
      var next := out + [XorPixel(out[|out| - 64], fg)];
      var r := XorRun(next, fg, n - 1);
      assert r[..|out|] == out by { assert r[..|next|][..|out|] == out; }
      assert r[|out|] == XorPixel(r[|out| - 64], fg) by {
        assert r[|out|] == next[|out|];
        assert r[|out| - 64] == next[|out| - 64];
      }
      r
  }

  /** Pixel t of a mask image, written after the pixels in out: where its mask
      bit is set, the foreground colour in the first row and the pixel above XOR
      the foreground below it; where it is clear, black in the first row and a
      copy of the pixel above below it. */
  function MaskPixel(out: seq<Pixel>, fg: Pixel, mask: seq<byte>, t: nat): (c: Pixel)
    requires Pixels(out, |fg|) && t / 8 < |mask|
    ensures |c| == |fg|
    ensures MaskedAt(out + [c], fg, mask, |out|, t, |out|)
  {
    if |out| < 64 then (if MaskBit(mask, t) then fg else Solid(0x00, |fg|))
    else if MaskBit(mask, t) then XorPixel(out[|out| - 64], fg)
    else out[|out| - 64]
  }

  /** Pixel i of r, the (k + i - start)-th of a mask image that starts at
      index start: where its mask bit is set, the foreground colour in the first
      row and the pixel above XOR the foreground below it; where it is clear,
      black in the first row and a copy of the pixel above below it. */
  ghost predicate MaskedAt(r: seq<Pixel>, fg: Pixel, mask: seq<byte>, start: nat, k: nat, i: int)
    requires start <= i < |r| && Pixels(r, |fg|) && (k + i - start) / 8 < |mask|
  {
    var lit := MaskBit(mask, k + i - start);
    r[i] == if i < 64 then (if lit then fg else Solid(0x00, |fg|))
            else if lit then XorPixel(r[i - 64], fg)
            else r[i - 64]
  }

  /** Pixels k .. n-1 of a mask image. The first-row test is made again for
      every pixel. */
  function MaskRun(out: seq<Pixel>, fg: Pixel, mask: seq<byte>, k: nat, n: int): (r: seq<Pixel>)
    requires Pixels(out, |fg|) && n <= 8 * |mask|
    ensures |r| == |out| + Max(n - k, 0) && r[..|out|] == out && Pixels(r, |fg|)
    ensures forall i :: |out| <= i < |r| ==> MaskedAt(r, fg, mask, |out|, k, i)
    decreases n - k
  {
    if k >= n then out
    else
      var next := out + [MaskPixel(out, fg, mask, k)];
      var r := MaskRun(next, fg, mask, k + 1, n);
      assert r[..|out|] == out by { assert r[..|next|][..|out|] == out; }
      assert |out| >= 64 ==> r[|out| - 64] == out[|out| - 64] by {
        if |out| >= 64 { assert r[|out| - 64] == next[|out| - 64]; }
      }
      assert r[|out|] == next[|out|];
      forall i | |out| <= i < |r|
        ensures MaskedAt(r, fg, mask, |out|, k, i)
      {
        if i > |out| {
          assert MaskedAt(r, fg, mask, |next|, k + 1, i);
          assert k + 1 + i - |next| == k + i - |out|;
        }
      }
      r
  }

  /** One pixel of a mask image, then the rest. */
  lemma MaskRunStep(out: seq<Pixel>, fg: Pixel, mask: seq<byte>, k: nat, n: int)
    requires Pixels(out, |fg|) && n <= 8 * |mask| && k < n
    ensures MaskRun(out, fg, mask, k, n) == MaskRun(out + [MaskPixel(out, fg, mask, k)], fg, mask, k + 1, n)
  {
  }

  // ---------------------------------------------------------------------------
  // Orders

  /** A background run of `run` pixels (orders 0x00 and 0xF0), the first-row
      test being made once for the whole run. */
  function BgFill(st: State, run: nat, bbp: nat): (r: seq<Pixel>)
    requires Valid(st, bbp)
    // one extra foreground pixel comes first exactly when the previous order
    // was also a background run
    ensures |r| == |st.out| + (if st.bro != -1 then Max(run, 1) else run)
    ensures r[..|st.out|] == st.out && Pixels(r, bbp)
    ensures st.bro != -1 ==>
      r[|st.out|] == if |st.out| < 64 then st.fg else XorPixel(st.out[|st.out| - 64], st.fg)
    ensures forall i :: |st.out| + (if st.bro != -1 then 1 else 0) <= i < |r| ==>
      r[i] == if |st.out| < 64 then Solid(0x00, bbp) else r[i - 64]
  {
    if |st.out| < 64 then
      var lead := if st.bro == 0 then [st.fg] else [];
      var n := if st.bro == 0 then run - 1 else run;
      st.out + lead + seq(Max(n, 0), _ => Solid(0x00, bbp))
    else if st.bro > 0 then
      CopyRun(st.out + [XorPixel(st.out[|st.out| - 64], st.fg)], run - 1, bbp)
    else
      CopyRun(st.out, run, bbp)
  }

  /** A foreground run of `run` pixels: all the foreground colour when the run
      starts in the first row, else each the pixel above XOR the foreground. */
  function FgFill(out: seq<Pixel>, fg: Pixel, run: nat): (r: seq<Pixel>)
    requires Pixels(out, |fg|)
    ensures |r| == |out| + run && r[..|out|] == out && Pixels(r, |fg|)
    ensures forall i :: |out| <= i < |r| ==>
      r[i] == if |out| < 64 then fg else XorPixel(r[i - 64], fg)
  {
    if |out| < 64 then out + seq(run, _ => fg) else XorRun(out, fg, run)
  }

  /** `ml` in the source: the bytes of mask a run of `run` pixels needs. */
  function MaskLength(run: nat): (ml: nat)
    ensures run <= 8 * ml < run + 8
  {
    if run % 8 != 0 then run / 8 + 1 else run / 8
  }

  /** The orders that first read a new foreground colour from the stream. */
  predicate ReloadsFg(code: byte)
  {
    code == 0xC0 || code == 0xF6 || code == 0xD0 || code == 0xF7
  }

  /** The order families of b_uncompress, by order code. */
  predicate IsBackground(code: byte) { code == 0x00 || code == 0xF0 }

  predicate IsForeground(code: byte) { code == 0x20 || code == 0xC0 || code == 0xF1 || code == 0xF6 }

  predicate IsDithered(code: byte) { code == 0xE0 || code == 0xF8 }

  predicate IsColour(code: byte) { code == 0x60 || code == 0xF3 }

  predicate IsMask(code: byte)
  {
    code == 0x40 || code == 0xD0 || code == 0xF2 || code == 0xF7 || code == 0xF9 || code == 0xFA
  }

  predicate IsLiteral(code: byte) { code == 0x80 || code == 0xF4 }

  /** What an order reads from the stream after its header: a new foreground
      colour, the colours it paints with, and its bit mask. */
  datatype Operands = Operands(fg: Option<Pixel>, colours: seq<Pixel>, mask: seq<byte>)

  /** The operands have the shape order o paints with. */
  predicate Fits(o: Order, ops: Operands, bbp: nat)
  {
    && (ops.fg.Some? ==> |ops.fg.value| == bbp)
    && Pixels(ops.colours, bbp)
    && (IsDithered(o.code) ==> |ops.colours| == 2)
    && (IsColour(o.code) ==> |ops.colours| == 1)
    && (IsLiteral(o.code) ==> |ops.colours| == o.run)
    && (IsMask(o.code) ==> o.run <= 8 * |ops.mask|)
  }

  /** The reading half of one order of b_uncompress: its operands and the
      stream bytes after them, or the reason the tile is given up. */
  function Fetch(o: Order, rest: seq<byte>, bbp: nat): (r: Result<(Operands, seq<byte>), DecodeError>)
    requires WellFormed(o)
    ensures r.Ok? ==> o.code in HandledCodes && Fits(o, r.value.0, bbp) && |r.value.1| <= |rest|
    ensures r.Err? ==> r.error == EndOfStream || (r.error == UnhandledOrder(o.code) && o.code !in HandledCodes)
  {
    var code := o.code;
    var none := Operands(None, [], []);
    if IsBackground(code) then Ok((none, rest))
    else if IsForeground(code) then
      if ReloadsFg(code) && |rest| < bbp then Err(EndOfStream)
      else if ReloadsFg(code) then Ok((Operands(Some(rest[..bbp]), [], []), rest[bbp..]))
      else Ok((none, rest))
    else if IsDithered(code) then
      if |rest| < 2 * bbp then Err(EndOfStream)
      else Ok((Operands(None, [rest[..bbp], rest[bbp..2 * bbp]], []), rest[2 * bbp..]))
    else if IsColour(code) then
      if |rest| < bbp then Err(EndOfStream)
      else Ok((Operands(None, [rest[..bbp]], []), rest[bbp..]))
    else if IsMask(code) then FetchMask(o, rest, bbp)
    else if IsLiteral(code) then FetchLiteral(o, rest, bbp)
    else if code == 0xFD || code == 0xFE then Ok((none, rest))
    else Err(UnhandledOrder(code))
  }

  /** The operands of a mask order: an optional new foreground colour, then
      the mask bytes (fixed for 0xF9 and 0xFA). */
  function FetchMask(o: Order, rest: seq<byte>, bbp: nat): (r: Result<(Operands, seq<byte>), DecodeError>)
    requires WellFormed(o) && IsMask(o.code)
    ensures r.Ok? ==> Fits(o, r.value.0, bbp) && |r.value.1| <= |rest|
    ensures r.Ok? ==> (r.value.0.fg.Some? <==> ReloadsFg(o.code))
    ensures r.Ok? && ReloadsFg(o.code) ==> |rest| >= bbp && r.value.0.fg == Some(rest[..bbp])
    ensures r.Ok? && o.code == 0xF9 ==> r.value.0.mask == [0x03]
    ensures r.Ok? && o.code == 0xFA ==> r.value.0.mask == [0x05]
    ensures r.Ok? && o.code != 0xF9 && o.code != 0xFA ==>
      var skip := if ReloadsFg(o.code) then bbp else 0;
      |rest| >= skip + MaskLength(o.run) && r.value.0.mask == rest[skip..skip + MaskLength(o.run)]
    ensures r.Err? ==> r.error == EndOfStream
  {
    var code := o.code;
    if ReloadsFg(code) && |rest| < bbp then Err(EndOfStream)
    else
      var fg := if ReloadsFg(code) then Some(rest[..bbp]) else None;
      var rest' := if ReloadsFg(code) then rest[bbp..] else rest;
      if code == 0xF9 then Ok((Operands(fg, [], [0x03]), rest'))
      else if code == 0xFA then Ok((Operands(fg, [], [0x05]), rest'))
      else
        var ml := MaskLength(o.run);
        if |rest'| < ml then Err(EndOfStream)
        else Ok((Operands(fg, [], rest'[..ml]), rest'[ml..]))
  }

  /** The operands of a literal order: run pixels straight from the stream. */
  function FetchLiteral(o: Order, rest: seq<byte>, bbp: nat): (r: Result<(Operands, seq<byte>), DecodeError>)
    requires IsLiteral(o.code)
    ensures r.Ok? ==> Fits(o, r.value.0, bbp) && |r.value.1| <= |rest|
    ensures r.Err? ==> r.error == EndOfStream
  {
    if |rest| < bbp * o.run then Err(EndOfStream)
    else
      assert bbp * o.run == o.run * bbp;
      Ok((Operands(None, Chunks(rest, bbp, o.run), []), rest[o.run * bbp..]))
  }

  /** The painting half of one order of b_uncompress: the pixels it appends,
      the foreground colour it leaves, and `bro`. */
  function Paint(st: State, o: Order, ops: Operands, bbp: nat): (r: State)
    requires Valid(st, bbp) && o.code in HandledCodes && Fits(o, ops, bbp)
    ensures Valid(r, bbp)
    ensures |r.out| >= |st.out| && r.out[..|st.out|] == st.out
    ensures r.bro != -1 <==> IsBackground(o.code)
    ensures r.fg == if ops.fg.Some? then ops.fg.value else st.fg
  {
    var code, run := o.code, o.run;
    var fg := if ops.fg.Some? then ops.fg.value else st.fg;
    if IsBackground(code) then
      var out := BgFill(st, run, bbp);
      State(out, fg, |out| / 64)
    else if IsForeground(code) then State(FgFill(st.out, fg, run), fg, -1)
    else if IsDithered(code) then
      State(st.out + seq(2 * run, i requires 0 <= i < 2 * run => ops.colours[i % 2]), fg, -1)
    else if IsColour(code) then State(st.out + seq(run, _ => ops.colours[0]), fg, -1)
    else if IsMask(code) then State(MaskRun(st.out, fg, ops.mask, 0, run), fg, -1)
    else if IsLiteral(code) then State(st.out + ops.colours, fg, -1)
    else if code == 0xFD then State(st.out + [Solid(0xFF, bbp)], fg, -1)
    else State(st.out + [Solid(0x00, bbp)], fg, -1)
  }

  /** One order of b_uncompress, applied to the state and the stream bytes
      after its header. */
  function Apply(st: State, o: Order, rest: seq<byte>, bbp: nat): (r: Result<Step, DecodeError>)
    requires Valid(st, bbp) && WellFormed(o)
    ensures r.Ok? ==> Valid(r.value.st, bbp) && |r.value.rest| <= |rest|
    ensures r.Ok? ==> |r.value.st.out| >= |st.out| && r.value.st.out[..|st.out|] == st.out
    ensures r.Ok? ==> (r.value.st.bro != -1 <==> IsBackground(o.code))
    ensures r.Err? ==> r.error == EndOfStream || (r.error == UnhandledOrder(o.code) && o.code !in HandledCodes)
  {
    match Fetch(o, rest, bbp)
    case Err(e) => Err(e)
    case Ok((ops, rest')) => Ok(Step(Paint(st, o, ops, bbp), rest'))
  }

  // ---------------------------------------------------------------------------
  // The whole stream

  /** One pass of the order loop of b_uncompress: decode the order header at
      the front of data (b_unrle sees at most three bytes) and apply the order. */
  function Next(st: State, data: seq<byte>, bbp: nat): (r: Result<Step, DecodeError>)
    requires Valid(st, bbp) && |data| > 0
    ensures r.Ok? ==> Valid(r.value.st, bbp) && |r.value.rest| < |data|
    ensures r.Ok? ==> |r.value.st.out| >= |st.out| && r.value.st.out[..|st.out|] == st.out
  {
    match Unrle(data[..Min(3, |data|)])
    case Truncated => Err(EndOfStream)
    case Unexpected(x) => Err(UnexpectedOrder(x))
    case Parsed(o) => Apply(st, o, data[o.size..], bbp)
  }

  /** The order loop of b_uncompress from state st over the unread bytes data:
      the final state, or the reason the tile is given up. */
  function Run(st: State, data: seq<byte>, bbp: nat): (r: Result<State, DecodeError>)
    requires Valid(st, bbp)
    ensures r.Ok? ==> Valid(r.value, bbp)
    ensures r.Ok? ==> |r.value.out| >= |st.out| && r.value.out[..|st.out|] == st.out
    decreases |data|
  {
    if |data| == 0 then Ok(st)
    else
      match Next(st, data, bbp)
      case Err(e) => Err(e)
      case Ok(next) =>
        var r := Run(next.st, next.rest, bbp);
        if r.Ok? then PrefixTrans(st.out, next.st.out, r.value.out); r
        else r
  }

  lemma PrefixTrans<T>(a: seq<T>, b: seq<T>, c: seq<T>)
    requires |a| <= |b| <= |c| && b[..|a|] == a && c[..|b|] == b
    ensures c[..|a|] == a
  {
    assert c[..|b|][..|a|] == c[..|a|];
  }

  /** b_uncompress: the decoded bytes, or b"" when any order fails. */
  function Uncompress(data: seq<byte>, bbp: nat): (r: seq<byte>)
    requires bbp >= 1
    ensures |r| % bbp == 0
  {
    StartValid(bbp);
    match Run(Start(bbp), data, bbp)
    case Ok(st) =>
      ConcatLength(st.out, bbp);
      DivModUnique(|st.out| * bbp, bbp, |st.out|, 0);
      Concat(st.out)
    case Err(_) => []
  }

  // ---------------------------------------------------------------------------
  // Properties of the decoder

  /** The stream bytes an order reads after its header: a new foreground
      colour for the orders that reload it, then its colours, mask or literal
      pixels. */
  function OrderPayload(o: Order, bbp: nat): nat
  {
    var fg := if ReloadsFg(o.code) then bbp else 0;
    if IsDithered(o.code) then 2 * bbp
    else if IsColour(o.code) then bbp
    else if IsMask(o.code) && o.code != 0xF9 && o.code != 0xFA then fg + MaskLength(o.run)
    else if IsLiteral(o.code) then bbp * o.run
    else fg
  }

  /** Every order b_unrle can produce succeeds exactly when its payload is
      there, and consumes exactly its payload; the only error is the end of
      the stream. */
  lemma FetchReads(o: Order, rest: seq<byte>, bbp: nat)
    requires WellFormed(o) && o.code in HandledCodes
    ensures Fetch(o, rest, bbp).Ok? <==> |rest| >= OrderPayload(o, bbp)
    ensures Fetch(o, rest, bbp).Ok? ==> Fetch(o, rest, bbp).value.1 == rest[OrderPayload(o, bbp)..]
    ensures Fetch(o, rest, bbp).Err? ==> Fetch(o, rest, bbp).error == EndOfStream
  {
    if IsMask(o.code) {
      assert Fetch(o, rest, bbp) == FetchMask(o, rest, bbp);
      FetchReadsMask(o, rest, bbp);
    } else if IsLiteral(o.code) {
      assert Fetch(o, rest, bbp) == FetchLiteral(o, rest, bbp);
      FetchReadsLiteral(o, rest, bbp);
    } else {
      FetchReadsOther(o, rest, bbp);
    }
  }

  lemma FetchReadsMask(o: Order, rest: seq<byte>, bbp: nat)
    requires WellFormed(o) && IsMask(o.code)
    ensures FetchMask(o, rest, bbp).Ok? <==> |rest| >= OrderPayload(o, bbp)
    ensures FetchMask(o, rest, bbp).Ok? ==> FetchMask(o, rest, bbp).value.1 == rest[OrderPayload(o, bbp)..]
  {
    var fg := if ReloadsFg(o.code) then bbp else 0;
    if o.code != 0xF9 && o.code != 0xFA {
      var ml := MaskLength(o.run);
      assert OrderPayload(o, bbp) == fg + ml;
      if |rest| >= fg + ml {
        assert rest[fg..][ml..] == rest[fg + ml..];
      }
    } else {
      assert OrderPayload(o, bbp) == 0 && !ReloadsFg(o.code);
    }
  }

  lemma FetchReadsLiteral(o: Order, rest: seq<byte>, bbp: nat)
    requires IsLiteral(o.code)
    ensures FetchLiteral(o, rest, bbp).Ok? <==> |rest| >= OrderPayload(o, bbp)
    ensures FetchLiteral(o, rest, bbp).Ok? ==> FetchLiteral(o, rest, bbp).value.1 == rest[OrderPayload(o, bbp)..]
  {
    assert OrderPayload(o, bbp) == bbp * o.run;
    assert bbp * o.run == o.run * bbp;
  }

  lemma FetchReadsOther(o: Order, rest: seq<byte>, bbp: nat)
    requires WellFormed(o) && o.code in HandledCodes && !IsMask(o.code) && !IsLiteral(o.code)
    ensures Fetch(o, rest, bbp).Ok? <==> |rest| >= OrderPayload(o, bbp)
    ensures Fetch(o, rest, bbp).Ok? ==> Fetch(o, rest, bbp).value.1 == rest[OrderPayload(o, bbp)..]
    ensures Fetch(o, rest, bbp).Err? ==> Fetch(o, rest, bbp).error == EndOfStream
  {
  }

  /** The same, for the whole order. */
  lemma ApplyReads(st: State, o: Order, rest: seq<byte>, bbp: nat)
    requires Valid(st, bbp) && WellFormed(o) && o.code in HandledCodes
    ensures Apply(st, o, rest, bbp).Ok? <==> |rest| >= OrderPayload(o, bbp)
    ensures Apply(st, o, rest, bbp).Ok? ==> Apply(st, o, rest, bbp).value.rest == rest[OrderPayload(o, bbp)..]
    ensures Apply(st, o, rest, bbp).Err? ==> Apply(st, o, rest, bbp).error == EndOfStream
  {
    FetchReads(o, rest, bbp);
  }

  /** Bytes after an order's operands do not change what it reads. */
  lemma FetchExtends(o: Order, rest: seq<byte>, more: seq<byte>, bbp: nat)
    requires WellFormed(o) && Fetch(o, rest, bbp).Ok?
    ensures Fetch(o, rest + more, bbp)
         == Ok((Fetch(o, rest, bbp).value.0, Fetch(o, rest, bbp).value.1 + more))
  {
    if IsMask(o.code) {
      assert Fetch(o, rest, bbp) == FetchMask(o, rest, bbp);
      assert Fetch(o, rest + more, bbp) == FetchMask(o, rest + more, bbp);
      FetchExtendsMask(o, rest, more, bbp);
    } else if IsLiteral(o.code) {
      assert Fetch(o, rest, bbp) == FetchLiteral(o, rest, bbp);
      assert Fetch(o, rest + more, bbp) == FetchLiteral(o, rest + more, bbp);
      FetchExtendsLiteral(o, rest, more, bbp);
    } else {
      FetchExtendsOther(o, rest, more, bbp);
    }
  }

  lemma FetchExtendsMask(o: Order, rest: seq<byte>, more: seq<byte>, bbp: nat)
    requires WellFormed(o) && IsMask(o.code) && FetchMask(o, rest, bbp).Ok?
    ensures FetchMask(o, rest + more, bbp)
         == Ok((FetchMask(o, rest, bbp).value.0, FetchMask(o, rest, bbp).value.1 + more))
  {
    var all := rest + more;
    if ReloadsFg(o.code) {
      assert all[..bbp] == rest[..bbp] && all[bbp..] == rest[bbp..] + more;
    }
    var rest' := if ReloadsFg(o.code) then rest[bbp..] else rest;
    var all' := if ReloadsFg(o.code) then all[bbp..] else all;
    assert all' == rest' + more;
    if o.code != 0xF9 && o.code != 0xFA {
      var ml := MaskLength(o.run);
      assert all'[..ml] == rest'[..ml];
      assert all'[ml..] == rest'[ml..] + more;
    }
  }

  lemma FetchExtendsLiteral(o: Order, rest: seq<byte>, more: seq<byte>, bbp: nat)
    requires IsLiteral(o.code) && FetchLiteral(o, rest, bbp).Ok?
    ensures FetchLiteral(o, rest + more, bbp)
         == Ok((FetchLiteral(o, rest, bbp).value.0, FetchLiteral(o, rest, bbp).value.1 + more))
  {
    var n := o.run * bbp;
    assert bbp * o.run == n;
    assert (rest + more)[n..] == rest[n..] + more;
    ChunksPrefix(rest, more, bbp, o.run);
  }

  lemma FetchExtendsOther(o: Order, rest: seq<byte>, more: seq<byte>, bbp: nat)
    requires WellFormed(o) && !IsMask(o.code) && !IsLiteral(o.code) && Fetch(o, rest, bbp).Ok?
    ensures Fetch(o, rest + more, bbp)
         == Ok((Fetch(o, rest, bbp).value.0, Fetch(o, rest, bbp).value.1 + more))
  {
    var all := rest + more;
    if ReloadsFg(o.code) || IsColour(o.code) {
      assert all[..bbp] == rest[..bbp] && all[bbp..] == rest[bbp..] + more;
    }
    if IsDithered(o.code) {
      assert all[..bbp] == rest[..bbp] && all[bbp..2 * bbp] == rest[bbp..2 * bbp];
      assert all[2 * bbp..] == rest[2 * bbp..] + more;
    }
  }

  /** Bytes after an order's payload do not change what the order does. */
  lemma ApplyExtends(st: State, o: Order, rest: seq<byte>, more: seq<byte>, bbp: nat)
    requires Valid(st, bbp) && WellFormed(o) && Apply(st, o, rest, bbp).Ok?
    ensures Apply(st, o, rest + more, bbp)
         == Ok(Step(Apply(st, o, rest, bbp).value.st, Apply(st, o, rest, bbp).value.rest + more))
  {
    FetchExtends(o, rest, more, bbp);
  }

  /** Cutting pixels from the front of a buffer only looks at their bytes. */
  lemma {:induction false} ChunksPrefix(data: seq<byte>, more: seq<byte>, bbp: nat, n: nat)
    requires |data| >= n * bbp
    ensures Chunks(data + more, bbp, n) == Chunks(data, bbp, n)
  {
    if n > 0 {
      var all := data + more;
      assert n * bbp == (n - 1) * bbp + bbp;
      assert all[..bbp] == data[..bbp];
      assert all[bbp..] == data[bbp..] + more;
      ChunksPrefix(data[bbp..], more, bbp, n - 1);
      assert Chunks(all, bbp, n) == [all[..bbp]] + Chunks(all[bbp..], bbp, n - 1);
      assert Chunks(data, bbp, n) == [data[..bbp]] + Chunks(data[bbp..], bbp, n - 1);
    }
  }

  /** A pass of the order loop that completes within data completes the same
      way whatever follows data. */
  lemma NextExtends(st: State, data: seq<byte>, more: seq<byte>, bbp: nat)
    requires Valid(st, bbp) && |data| > 0 && Next(st, data, bbp).Ok?
    ensures Next(st, data + more, bbp)
         == Ok(Step(Next(st, data, bbp).value.st, Next(st, data, bbp).value.rest + more))
  {
    var all := data + more;
    var m := Min(3, |data|);
    var lead := Unrle(data[..m]);
    assert lead.Parsed?;
    var o := lead.order;
    assert o.size <= m <= |data|;
    var extra := all[m..Min(3, |all|)];
    assert all[..Min(3, |all|)] == data[..m] + extra;
    UnrlePrefix(data[..m], extra);
    DropAppend(data, more, o.size);
    ApplyExtends(st, o, data[o.size..], more, bbp);
  }

  /** The decoder is incremental: once a prefix of the stream decodes, the
      rest of the stream continues from the state the prefix ended in. */
  lemma {:induction false} RunAppend(st: State, d1: seq<byte>, d2: seq<byte>, bbp: nat)
    requires Valid(st, bbp) && Run(st, d1, bbp).Ok?
    ensures Run(st, d1 + d2, bbp) == Run(Run(st, d1, bbp).value, d2, bbp)
    decreases |d1|
  {
    if |d1| == 0 {
      assert d1 + d2 == d2;
    } else {
      NextExtends(st, d1, d2, bbp);
      var next := Next(st, d1, bbp).value;
      RunAppend(next.st, next.rest, d2, bbp);
    }
  }

  /** A stream that decodes up to some point and then holds an order that
      fails (its header or its operands run past the data, or its lead is
      rejected) gives b"": the pixels decoded before it are thrown away. */
  lemma UncompressFails(d1: seq<byte>, d2: seq<byte>, bbp: nat)
    requires bbp >= 1 && Run(Start(bbp), d1, bbp).Ok?
    requires |d2| > 0 && Next(Run(Start(bbp), d1, bbp).value, d2, bbp).Err?
    ensures Uncompress(d1 + d2, bbp) == []
  {
    StartValid(bbp);
    RunAppend(Start(bbp), d1, d2, bbp);
  }

  // ---------------------------------------------------------------------------
  // What the orders that paint from the stream append

  /** A colour run (0x60, 0xF3) appends run copies of the colour that
      follows its header. */
  lemma ApplyColour(st: State, o: Order, rest: seq<byte>, bbp: nat)
    requires Valid(st, bbp) && WellFormed(o) && IsColour(o.code) && |rest| >= bbp
    ensures Apply(st, o, rest, bbp).Ok?
    ensures var out := Apply(st, o, rest, bbp).value.st.out;
      && |out| == |st.out| + o.run && out[..|st.out|] == st.out
      && forall i :: |st.out| <= i < |out| ==> out[i] == rest[..bbp]
  {
  }

  /** A dithered run (0xE0, 0xF8) appends run pairs of the two colours that
      follow its header, alternating from the first. */
  lemma ApplyDithered(st: State, o: Order, rest: seq<byte>, bbp: nat)
    requires Valid(st, bbp) && WellFormed(o) && IsDithered(o.code) && |rest| >= 2 * bbp
    ensures Apply(st, o, rest, bbp).Ok?
    ensures var out := Apply(st, o, rest, bbp).value.st.out;
      && |out| == |st.out| + 2 * o.run && out[..|st.out|] == st.out
      && forall i :: |st.out| <= i < |out| ==>
           out[i] == if (i - |st.out|) % 2 == 0 then rest[..bbp] else rest[bbp..2 * bbp]
  {
  }

  /** A literal run (0x80, 0xF4) appends exactly the run * bbp bytes that
      follow its header. */
  lemma ApplyLiteral(st: State, o: Order, rest: seq<byte>, bbp: nat)
    requires Valid(st, bbp) && WellFormed(o) && IsLiteral(o.code) && |rest| >= o.run * bbp
    ensures Apply(st, o, rest, bbp).Ok?
    ensures Concat(Apply(st, o, rest, bbp).value.st.out) == Concat(st.out) + rest[..o.run * bbp]
  {
    assert bbp * o.run == o.run * bbp;
    var chunks := Chunks(rest, bbp, o.run);
    assert Apply(st, o, rest, bbp).value.st.out == st.out + chunks;
    ConcatAppend(st.out, chunks);
  }

  /** The white (0xFD) and black (0xFE) orders append one pixel of all 0xFF
      or all 0x00 bytes and read nothing more. */
  lemma ApplySolid(st: State, o: Order, rest: seq<byte>, bbp: nat)
    requires Valid(st, bbp) && WellFormed(o) && (o.code == 0xFD || o.code == 0xFE)
    ensures Apply(st, o, rest, bbp).Ok? && Apply(st, o, rest, bbp).value.rest == rest
    ensures Apply(st, o, rest, bbp).value.st.out == st.out + [Solid(if o.code == 0xFD then 0xFF else 0x00, bbp)]
  {
    var none := Operands(None, [], []);
    assert !IsBackground(o.code) && !IsForeground(o.code) && !IsDithered(o.code) && !IsColour(o.code);
    assert !IsMask(o.code) && !IsLiteral(o.code);
    assert Fetch(o, rest, bbp) == Ok((none, rest));
  }
}
