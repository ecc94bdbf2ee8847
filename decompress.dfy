/** `b_uncompress` as the source writes it: a loop over the compressed stream
    that appends pixels to the output one run at a time. Each method is proved
    to compute the function of module Codec that specifies it, so everything
    proved there about the decoder holds of this code. */
module Decompress {
  import opened Bytes
  import opened Orders
  import opened Codec

  /** The pixel above XOR the foreground colour, one channel at a time. */
  method XorChannels(c: Pixel, fg: Pixel) returns (x: Pixel)
    requires |c| == |fg|
    ensures x == XorPixel(c, fg)
  {
    x := [];
    var i := 0;
    while i < |c|
      invariant 0 <= i <= |c| && |x| == i
      invariant forall j :: 0 <= j < i ==> x[j] == c[j] ^ fg[j]
    {
      x := x + [c[i] ^ fg[i]];
      i := i + 1;
    }
  }

  /** The copy loop of a background run: each new pixel is the pixel one row
      above it. */
  method CopyRows(out0: seq<Pixel>, n: int, bbp: nat) returns (out: seq<Pixel>)
    requires |out0| >= 64 && Pixels(out0, bbp)
    ensures out == CopyRun(out0, n, bbp)
  {
    out := out0;
    var rl := n;
    while rl > 0
      invariant |out| >= 64 && Pixels(out, bbp)
      invariant CopyRun(out, rl, bbp) == CopyRun(out0, n, bbp)
      decreases rl
    {
      out := out + [out[|out| - 64]];
      rl := rl - 1;
    }
  }

  /** A background run (orders 0x00 and 0xF0). */
  method FillBackground(st: State, run: nat, bbp: nat) returns (out: seq<Pixel>)
    requires Valid(st, bbp)
    ensures out == BgFill(st, run, bbp)
  {
    if |st.out| < 64 {
      var rl: int := run;
      out := st.out;
      if st.bro == 0 {
        out := out + [st.fg];
        rl := rl - 1;
      }
      out := out + seq(Max(rl, 0), _ => Solid(0x00, bbp));
    } else if st.bro > 0 {
      var c := XorChannels(st.out[|st.out| - 64], st.fg);
      assert Pixels(st.out + [c], bbp);
      out := CopyRows(st.out + [c], run - 1, bbp);
    } else {
      out := CopyRows(st.out, run, bbp);
    }
  }

  /** A foreground run (orders 0x20, 0xC0, 0xF1 and 0xF6), after any new
      foreground colour has been read. */
  method FillForeground(out0: seq<Pixel>, fg: Pixel, run: nat) returns (out: seq<Pixel>)
    requires Pixels(out0, |fg|)
    ensures out == FgFill(out0, fg, run)
  {
    out := out0;
    if |out| < 64 {
      out := out + seq(run, _ => fg);
    } else {
      var rl: int := run;
      while rl > 0
        invariant |out| >= 64 && Pixels(out, |fg|)
        invariant XorRun(out, fg, rl) == XorRun(out0, fg, run)
        decreases rl
      {
        var c := XorChannels(out[|out| - 64], fg);
        out := out + [c];
        rl := rl - 1;
      }
    }
  }

  /** A mask image (orders 0x40, 0xD0, 0xF2, 0xF7, 0xF9 and 0xFA): pixel k
      takes bit k % 8 of mask byte k / 8, the byte being fetched whenever k
      reaches a multiple of 8. */
  method FillMasked(out0: seq<Pixel>, fg: Pixel, mask: seq<byte>, run: nat) returns (out: seq<Pixel>)
    requires Pixels(out0, |fg|) && run <= 8 * |mask|
    ensures out == MaskRun(out0, fg, mask, 0, run)
  {
    out := out0;
    var k: nat := 0;
    var m: byte := 0;
    while k < run
      invariant k <= run && Pixels(out, |fg|)
      invariant MaskRun(out, fg, mask, k, run) == MaskRun(out0, fg, mask, 0, run)
      invariant k % 8 != 0 ==> m == mask[k / 8]
    {
      if k % 8 == 0 {
        m := mask[k / 8];
      }
      var c := MaskedPixel(out, fg, m, k % 8);
      MaskLoopStep(out, fg, mask, k, run, m, c);
      out := out + [c];
      k := k + 1;
    }
  }

  /** The pixel for mask bit j of byte m, after the pixels in out. */
  method MaskedPixel(out: seq<Pixel>, fg: Pixel, m: byte, j: nat) returns (c: Pixel)
    requires Pixels(out, |fg|) && j < 8
    ensures c == MaskPixel(out, fg, [m], j)
  {
    var lit := Bit(m, j);
    if |out| < 64 {
      c := if lit then fg else Solid(0x00, |fg|);
    } else {
      c := out[|out| - 64];
      if lit {
        c := XorChannels(c, fg);
      }
    }
  }

  /** One turn of the mask loop: the pixel made from the current mask byte
      is the next pixel of the mask image. */
  lemma MaskLoopStep(out: seq<Pixel>, fg: Pixel, mask: seq<byte>, k: nat, run: nat, m: byte, c: Pixel)
    requires Pixels(out, |fg|) && k < run <= 8 * |mask| && mask[k / 8] == m
    requires c == MaskPixel(out, fg, [m], k % 8)
    ensures Pixels(out + [c], |fg|)
    ensures MaskRun(out + [c], fg, mask, k + 1, run) == MaskRun(out, fg, mask, k, run)
    ensures (k + 1) % 8 != 0 ==> m == mask[(k + 1) / 8]
  {
    NextBitSameByte(k);
    assert MaskBit(mask, k) == MaskBit([m], k % 8);
    assert c == MaskPixel(out, fg, mask, k);
    MaskRunStep(out, fg, mask, k, run);
  }

  /** Within a byte of the mask, the next bit is in the same byte. */
  lemma NextBitSameByte(k: nat)
    ensures (k + 1) % 8 != 0 ==> (k + 1) / 8 == k / 8
  {
  }

  /** One order: read its operands, then paint it. */
  method DecodeOrder(st: State, o: Order, rest: seq<byte>, bbp: nat) returns (r: Result<Step, DecodeError>)
    requires Valid(st, bbp) && WellFormed(o)
    ensures r == Apply(st, o, rest, bbp)
  {
    var fetched := Fetch(o, rest, bbp);
    if fetched.Err? {
      return Err(fetched.error);
    }
    var (ops, rest') := fetched.value;
    var code, run := o.code, o.run;
    var fg := if ops.fg.Some? then ops.fg.value else st.fg;
    var out := st.out;
    var bro := -1;
    if IsBackground(code) {
      out := FillBackground(st, run, bbp);
      bro := |out| / 64;
    } else if IsForeground(code) {
      out := FillForeground(out, fg, run);
    } else if IsDithered(code) {
      out := out + seq(2 * run, i requires 0 <= i < 2 * run => ops.colours[i % 2]);
    } else if IsColour(code) {
      out := out + seq(run, _ => ops.colours[0]);
    } else if IsMask(code) {
      out := FillMasked(out, fg, ops.mask, run);
    } else if IsLiteral(code) {
      out := out + ops.colours;
    } else if code == 0xFD {
      out := out + [Solid(0xFF, bbp)];
    } else {
      out := out + [Solid(0x00, bbp)];
    }
    r := Ok(Step(State(out, fg, bro), rest'));
  }

  /** b_uncompress: decode orders until the stream is used up, and give up
      with no output on the first order that fails. */
  method Uncompress(data: seq<byte>, bbp: nat) returns (out: seq<byte>)
    requires bbp >= 1
    ensures out == Codec.Uncompress(data, bbp)
  {
    var pixels: seq<Pixel> := [];
    var fg := Solid(0xFF, bbp);
    var bro := -1;
    var rest := data;
    StartValid(bbp);
    while |rest| > 0
      invariant Valid(State(pixels, fg, bro), bbp)
      invariant Run(Start(bbp), data, bbp) == Run(State(pixels, fg, bro), rest, bbp)
      decreases |rest|
    {
      var lead := Unrle(rest[..Min(3, |rest|)]);
      if !lead.Parsed? {
        return [];
      }
      var o := lead.order;
      var step := DecodeOrder(State(pixels, fg, bro), o, rest[o.size..], bbp);
      if step.Err? {
        return [];
      }
      pixels, fg, bro, rest := step.value.st.out, step.value.st.fg, step.value.st.bro, step.value.rest;
    }
    out := Concat(pixels);
  }
}
