/** The display wire format: the command encoders, and the device that interprets a transfer. */
module Wire {
  import opened Proto
  import opened Words

  const WIDTH := 480
  const HEIGHT := 272
  const PIXELS := 130560
  const HEADER_LEN := 32
  const CMD_LEN := 8

  type Screen = s: seq<u16> | |s| == PIXELS witness seq(PIXELS, _ => 0)

  datatype DisplayId = Left | Right

  datatype Rect = Rect(x: u16, y: u16, w: u16, h: u16) {
    /** Pixel `k` of a row-major screen lies inside. */
    predicate Contains(k: nat) {
      x <= k % WIDTH < x + w && y <= k / WIDTH < y + h
    }
    /** Rows are filled left to right, top to bottom: the place of pixel `k` in the pixel stream. */
    function Place(k: nat): nat
      requires Contains(k)
    {
      (k / WIDTH - y) * w + (k % WIDTH - x)
    }
  }

  const FULL := Rect(0, 0, 480, 272)

  datatype Rgb = Rgb(r: u8, g: u8, b: u8) {
    /** Five, six and five leading bits; shifts and masks of 8-bit components as arithmetic. */
    function ToRgb565(): u16 {
      r / 8 * 0x800 + g / 4 * 0x20 + b / 8
    }
  }

  datatype Outcome = Done(written: nat) | Failed(error: ProtoError)

  // ----- the bytes of each command -----

  function DisplayCode(id: DisplayId): u8 {
    match id case Left => 0 case Right => 1
  }

  /** The two header parts: fixed prefix, display, then the framed rect in big-endian words. */
  function HeaderByte(id: DisplayId, rect: Rect, i: nat): u8 {
    if i == 0 then 0x84
    else if i == 2 then DisplayCode(id)
    else if i == 3 then 0x60
    else if i == 16 then rect.x / 0x100 else if i == 17 then rect.x % 0x100
    else if i == 18 then rect.y / 0x100 else if i == 19 then rect.y % 0x100
    else if i == 20 then rect.w / 0x100 else if i == 21 then rect.w % 0x100
    else if i == 22 then rect.h / 0x100 else if i == 23 then rect.h % 0x100
    else 0x00
  }

  function HeaderBytes(id: DisplayId, rect: Rect): (s: seq<u8>)
    ensures |s| == HEADER_LEN
  {
    seq(HEADER_LEN, (i: nat) => HeaderByte(id, rect, i))
  }

  /** The low three bytes of a count, most significant first. */
  function Be24(n: u32): (s: seq<u8>)
    ensures |s| == 3
  {
    [n / 0x1_0000 % 0x100, n / 0x100 % 0x100, n % 0x100]
  }

  function BlitBytes(pairs: u32): (s: seq<u8>)
    ensures |s| == CMD_LEN
  {
    [0x00] + Be24(pairs) + [0, 0, 0, 0]
  }

  function RepeatBytes(pairs: u32, pair: seq<u8>): (s: seq<u8>)
    requires |pair| == 4
    ensures |s| == CMD_LEN
  {
    [0x01] + Be24(pairs) + pair
  }

  const FLUSH_BYTES: seq<u8> := [0x03, 0, 0, 0, 0, 0, 0, 0]
  const END_BYTES: seq<u8> := [0x40, 0, 0, 0, 0, 0, 0, 0]

  function Pack(native: seq<u16>): (s: seq<u8>)
    ensures |s| == 2 * |native|
  {
    seq(2 * |native|, (i: nat) requires i < 2 * |native| =>
      if i % 2 == 0 then native[i / 2] / 0x100 else native[i / 2] % 0x100)
  }

  // ----- encoders writing into a slice that starts at `off` -----

  /** `now` is `was` with `bytes` written over it from `off` on. */
  ghost predicate Spliced(was: seq<u8>, off: nat, bytes: seq<u8>, now: seq<u8>) {
    && |now| == |was| && off + |bytes| <= |was|
    && (forall k :: 0 <= k < |was| && !(off <= k < off + |bytes|) ==> now[k] == was[k])
    && (forall k :: off <= k < off + |bytes| ==> now[k] == bytes[k - off])
  }

  method Write(bytes: seq<u8>, out: array<u8>, off: nat)
    requires off + |bytes| <= out.Length
    modifies out
    ensures Spliced(old(out[..]), off, bytes, out[..])
  {
    for i := 0 to |bytes|
      invariant Spliced(old(out[..]), off, bytes[..i], out[..])
    {
      out[off + i] := bytes[i];
    }
  }

  method EncodeHeader(id: DisplayId, rect: Rect, out: array<u8>, off: nat) returns (res: Outcome)
    requires off <= out.Length
    modifies out
    ensures out.Length - off < HEADER_LEN ==>
              res == Failed(OutputTooSmall(HEADER_LEN, out.Length - off)) && out[..] == old(out[..])
    ensures out.Length - off >= HEADER_LEN ==>
              res.Done? && Spliced(old(out[..]), off, HeaderBytes(id, rect), out[..])
  {
    if out.Length - off < HEADER_LEN {
      return Failed(OutputTooSmall(HEADER_LEN, out.Length - off));
    }
    for i := 0 to HEADER_LEN
      invariant forall k :: 0 <= k < out.Length && !(off <= k < off + i) ==> out[k] == old(out[k])
      invariant forall k :: off <= k < off + i ==> out[k] == 0
    {
      out[off + i] := 0;
    }
    Write([0x84, 0x00, DisplayCode(id), 0x60], out, off);
    Write(Be16(rect.x), out, off + 16);
    Write(Be16(rect.y), out, off + 18);
    Write(Be16(rect.w), out, off + 20);
    Write(Be16(rect.h), out, off + 22);
    return Done(HEADER_LEN);
  }

  /** Opcode 0, the 24-bit pair count, four zero bytes; the pixels follow separately. */
  method EncodeBlitCmd(pairs: u32, out: array<u8>, off: nat) returns (res: Outcome)
    requires off <= out.Length
    modifies out
    ensures out.Length - off < CMD_LEN ==>
              res == Failed(OutputTooSmall(CMD_LEN, out.Length - off)) && out[..] == old(out[..])
    ensures out.Length - off >= CMD_LEN ==>
              res == Done(CMD_LEN) && Spliced(old(out[..]), off, BlitBytes(pairs), out[..])
  {
    if out.Length - off < CMD_LEN {
      return Failed(OutputTooSmall(CMD_LEN, out.Length - off));
    }
    out[off] := 0x00;
    out[off + 1] := pairs / 0x1_0000 % 0x100;
    out[off + 2] := pairs / 0x100 % 0x100;
    out[off + 3] := pairs % 0x100;
    Write([0, 0, 0, 0], out, off + 4);
    return Done(CMD_LEN);
  }

  /** Opcode 1, the 24-bit count, the four bytes of the pixel pair. */
  method EncodeRepeatCmd(pairs: u32, pair: seq<u8>, out: array<u8>, off: nat) returns (res: Outcome)
    requires |pair| == 4 && off <= out.Length
    modifies out
    ensures out.Length - off < CMD_LEN ==>
              res == Failed(OutputTooSmall(CMD_LEN, out.Length - off)) && out[..] == old(out[..])
    ensures out.Length - off >= CMD_LEN ==>
              res == Done(CMD_LEN) && Spliced(old(out[..]), off, RepeatBytes(pairs, pair), out[..])
  {
    if out.Length - off < CMD_LEN {
      return Failed(OutputTooSmall(CMD_LEN, out.Length - off));
    }
    out[off] := 0x01;
    out[off + 1] := pairs / 0x1_0000 % 0x100;
    out[off + 2] := pairs / 0x100 % 0x100;
    out[off + 3] := pairs % 0x100;
    Write(pair, out, off + 4);
    return Done(CMD_LEN);
  }

  /** Opcode 3. */
  method EncodeFlushCmd(out: array<u8>, off: nat) returns (res: Outcome)
    requires off <= out.Length
    modifies out
    ensures out.Length - off < CMD_LEN ==>
              res == Failed(OutputTooSmall(CMD_LEN, out.Length - off)) && out[..] == old(out[..])
    ensures out.Length - off >= CMD_LEN ==>
              res == Done(CMD_LEN) && Spliced(old(out[..]), off, FLUSH_BYTES, out[..])
  {
    if out.Length - off < CMD_LEN {
      return Failed(OutputTooSmall(CMD_LEN, out.Length - off));
    }
    Write([0x03, 0, 0, 0, 0, 0, 0, 0], out, off);
    return Done(CMD_LEN);
  }

  /** Opcode 0x40. */
  method EncodeEndCmd(out: array<u8>, off: nat) returns (res: Outcome)
    requires off <= out.Length
    modifies out
    ensures out.Length - off < CMD_LEN ==>
              res == Failed(OutputTooSmall(CMD_LEN, out.Length - off)) && out[..] == old(out[..])
    ensures out.Length - off >= CMD_LEN ==>
              res == Done(CMD_LEN) && Spliced(old(out[..]), off, END_BYTES, out[..])
  {
    if out.Length - off < CMD_LEN {
      return Failed(OutputTooSmall(CMD_LEN, out.Length - off));
    }
    Write([0x40, 0, 0, 0, 0, 0, 0, 0], out, off);
    return Done(CMD_LEN);
  }

  /** A full-screen fill: header, one repeat, flush, end. */
  function SolidBytes(id: DisplayId, color: Rgb): (s: seq<u8>)
    ensures |s| == HEADER_LEN + 3 * CMD_LEN
  {
    var be := Be16(color.ToRgb565());
    HeaderBytes(id, FULL) + RepeatBytes(PIXELS / 2, be + be) + FLUSH_BYTES + END_BYTES
  }

  method EncodeSolidFrame(id: DisplayId, color: Rgb, out: array<u8>) returns (res: Outcome)
    modifies out
    ensures out.Length < 56 ==> res == Failed(OutputTooSmall(56, out.Length)) && out[..] == old(out[..])
    ensures out.Length >= 56 ==>
              res == Done(56) && Spliced(old(out[..]), 0, SolidBytes(id, color), out[..])
  {
    var total := HEADER_LEN + 3 * CMD_LEN;
    if out.Length < total {
      return Failed(OutputTooSmall(total, out.Length));
    }
    var r := EncodeHeader(id, FULL, out, 0);
    var be := Be16(color.ToRgb565());
    var off := HEADER_LEN;
    r := EncodeRepeatCmd(PIXELS / 2, be + be, out, off);
    off := off + r.written;
    r := EncodeFlushCmd(out, off);
    off := off + r.written;
    r := EncodeEndCmd(out, off);
    off := off + r.written;
    return Done(off);
  }

  method PackRgb565Be(native: seq<u16>, out: array<u8>, off: nat)
    requires off + 2 * |native| <= out.Length
    modifies out
    ensures Spliced(old(out[..]), off, Pack(native), out[..])
  {
    for i := 0 to |native|
      invariant Spliced(old(out[..]), off, Pack(native)[..2 * i], out[..])
    {
      var b := Be16(native[i]);
      out[off + i * 2] := b[0];
      out[off + i * 2 + 1] := b[1];
      assert Pack(native)[2 * i] == b[0] && Pack(native)[2 * i + 1] == b[1];
    }
  }

  // ----- the device: reading the byte stream -----

  /** One item of a transfer. */
  datatype Op = Frame(id: DisplayId, rect: Rect) | Pixels(px: seq<u16>) | Flush | End

  function FromBe24(hi: u8, mid: u8, lo: u8): nat {
    hi * 0x1_0000 + mid * 0x100 + lo
  }

  predicate Zero(s: seq<u8>) {
    forall i :: 0 <= i < |s| ==> s[i] == 0
  }

  function Unpack(s: seq<u8>): (px: seq<u16>) {
    seq(|s| / 2, (i: nat) requires i < |s| / 2 => FromBe16(s[2 * i], s[2 * i + 1]))
  }

  function PairRepeated(n: nat, a: u16, b: u16): seq<u16> {
    seq(2 * n, i => if i % 2 == 0 then a else b)
  }

  function ReadHeader(s: seq<u8>): (r: Option<(Op, nat)>) {
    if |s| >= HEADER_LEN && s[1] == 0 && s[2] <= 1 && s[3] == 0x60 && Zero(s[4..16]) && Zero(s[24..32]) then
      var rect := Rect(FromBe16(s[16], s[17]), FromBe16(s[18], s[19]),
                       FromBe16(s[20], s[21]), FromBe16(s[22], s[23]));
      Some((Frame(if s[2] == 0 then Left else Right, rect), HEADER_LEN))
    else None
  }

  function ReadBlit(s: seq<u8>, n: nat): (r: Option<(Op, nat)>)
    requires |s| >= CMD_LEN
  {
    if Zero(s[4..8]) && |s| >= CMD_LEN + 4 * n then
      Some((Pixels(Unpack(s[CMD_LEN..CMD_LEN + 4 * n])), CMD_LEN + 4 * n))
    else None
  }

  function ReadRepeat(s: seq<u8>, n: nat): (r: Option<(Op, nat)>)
    requires |s| >= CMD_LEN
  {
    Some((Pixels(PairRepeated(n, FromBe16(s[4], s[5]), FromBe16(s[6], s[7]))), CMD_LEN))
  }

  /** The first item of the stream and the number of bytes it takes. */
  function LexOp(s: seq<u8>): (r: Option<(Op, nat)>)
    ensures r.Some? ==> CMD_LEN <= r.value.1 <= |s|
  {
    if |s| < CMD_LEN then None
    else if s[0] == 0x84 then ReadHeader(s)
    else if s[0] == 0x00 then ReadBlit(s, FromBe24(s[1], s[2], s[3]))
    else if s[0] == 0x01 then ReadRepeat(s, FromBe24(s[1], s[2], s[3]))
    else if s[0] == 0x03 && Zero(s[1..8]) then Some((Flush, CMD_LEN))
    else if s[0] == 0x40 && Zero(s[1..8]) then Some((End, CMD_LEN))
    else None
  }

  /** A whole transfer: items up to the end command, which must be the last bytes. */
  function Lex(s: seq<u8>): Option<seq<Op>>
    decreases |s|
  {
    match LexOp(s)
    case None => None
    case Some((op, n)) =>
      if op.End? then (if n == |s| then Some([End]) else None)
      else
        match Lex(s[n..])
        case None => None
        case Some(rest) => Some([op] + rest)
  }

  // ----- the device: painting -----

  datatype Screens = Screens(left: Screen, right: Screen) {
    function Get(id: DisplayId): Screen {
      match id case Left => left case Right => right
    }
    function Put(id: DisplayId, s: Screen): Screens {
      match id case Left => Screens(s, right) case Right => Screens(left, s)
    }
  }

  datatype Target = Target(id: DisplayId, rect: Rect, cursor: nat)
  datatype Device = Device(screens: Screens, target: Option<Target>)

  /** Writes `px` into the rect from stream place `cursor` on; pixels past the rect are dropped. */
  function Paint(screen: Screen, rect: Rect, cursor: nat, px: seq<u16>): Screen {
    seq(PIXELS, (k: nat) requires k < PIXELS =>
      if rect.Contains(k) && cursor <= rect.Place(k) < cursor + |px|
      then px[rect.Place(k) - cursor] else screen[k])
  }

  function Exec(d: Device, op: Op): Device {
    match op
    case Frame(id, rect) => d.(target := Some(Target(id, rect, 0)))
    case Pixels(px) =>
      if d.target.None? then d
      else
        var t := d.target.value;
        Device(d.screens.Put(t.id, Paint(d.screens.Get(t.id), t.rect, t.cursor, px)),
               Some(t.(cursor := t.cursor + |px|)))
    case Flush => d
    case End => d
  }

  function ExecAll(d: Device, ops: seq<Op>): Device
    decreases |ops|
  {
    if ops == [] then d else ExecAll(Exec(d, ops[0]), ops[1..])
  }

  /** What both screens show after the device has received the transfer; None if it is malformed. */
  function Interpret(screens: Screens, bytes: seq<u8>): Option<Screens> {
    match Lex(bytes)
    case None => None
    case Some(ops) => Some(ExecAll(Device(screens, None), ops).screens)
  }

  // ----- every encoder is undone by the device's reader -----

  lemma LexHeader(id: DisplayId, rect: Rect, rest: seq<u8>)
    ensures LexOp(HeaderBytes(id, rect) + rest) == Some((Frame(id, rect), HEADER_LEN))
  {
    var s := HeaderBytes(id, rect) + rest;
    assert forall i :: 0 <= i < HEADER_LEN ==> s[i] == HeaderByte(id, rect, i);
  }

  lemma CountReadBack(n: u32)
    requires n < 0x100_0000
    ensures FromBe24(Be24(n)[0], Be24(n)[1], Be24(n)[2]) == n
  {
    ThreeDigits(n);
    assert Be24(n)[0] == n / 0x1_0000 % 0x100 && Be24(n)[1] == n / 0x100 % 0x100 && Be24(n)[2] == n % 0x100;
  }

  lemma ThreeDigits(n: int)
    requires 0 <= n < 0x100_0000
    ensures n / 0x1_0000 % 0x100 * 0x1_0000 + n / 0x100 % 0x100 * 0x100 + n % 0x100 == n
  {
    var mid := n / 0x100;
    assert mid / 0x100 == n / 0x1_0000 < 0x100;
  }

  /** The parts of a command chunk, whatever follows it. */
  lemma ChunkParts(opcode: u8, count: seq<u8>, last: seq<u8>, rest: seq<u8>)
    requires |count| == 3 && |last| == 4
    ensures var s := [opcode] + count + last + rest;
            && s[0] == opcode && s[1] == count[0] && s[2] == count[1] && s[3] == count[2]
            && s[4..8] == last && s[8..] == rest
  {
  }

  lemma PairReadBack(s: seq<u8>, n: nat, a: u16, b: u16)
    requires |s| >= CMD_LEN && s[4..8] == Be16(a) + Be16(b)
    ensures ReadRepeat(s, n) == Some((Pixels(PairRepeated(n, a, b)), CMD_LEN))
  {
    var pair := s[4..8];
    assert s[4] == pair[0] && s[5] == pair[1] && s[6] == pair[2] && s[7] == pair[3];
  }

  lemma LexRepeat(n: u32, a: u16, b: u16, rest: seq<u8>)
    requires n < 0x100_0000
    ensures LexOp(RepeatBytes(n, Be16(a) + Be16(b)) + rest) == Some((Pixels(PairRepeated(n, a, b)), CMD_LEN))
  {
    var s := RepeatBytes(n, Be16(a) + Be16(b)) + rest;
    ChunkParts(1, Be24(n), Be16(a) + Be16(b), rest);
    CountReadBack(n);
    PairReadBack(s, n, a, b);
  }

  lemma BlitHeadBytes(n: u32, rest: seq<u8>)
    requires n < 0x100_0000
    ensures var s := BlitBytes(n) + rest;
            s[0] == 0 && FromBe24(s[1], s[2], s[3]) == n && Zero(s[4..8]) && s[CMD_LEN..] == rest
  {
    ChunkParts(0, Be24(n), [0, 0, 0, 0], rest);
    CountReadBack(n);
  }

  lemma BlitReadBack(s: seq<u8>, native: seq<u16>, rest: seq<u8>)
    requires |s| >= CMD_LEN && s[CMD_LEN..] == Pack(native) + rest && Zero(s[4..8]) && |native| % 2 == 0
    ensures ReadBlit(s, |native| / 2) == Some((Pixels(native), CMD_LEN + 2 * |native|))
  {
    assert s[CMD_LEN..CMD_LEN + 2 * |native|] == s[CMD_LEN..][..2 * |native|] == Pack(native);
    UnpackPack(native);
  }

  lemma LexBlit(n: u32, native: seq<u16>, rest: seq<u8>)
    requires n < 0x100_0000 && |native| == 2 * n
    ensures LexOp(BlitBytes(n) + Pack(native) + rest) == Some((Pixels(native), CMD_LEN + 4 * n))
  {
    var s := BlitBytes(n) + (Pack(native) + rest);
    AppendAssoc(BlitBytes(n), Pack(native), rest);
    BlitHeadBytes(n, Pack(native) + rest);
    BlitReadBack(s, native, rest);
  }

  lemma UnpackPack(native: seq<u16>)
    ensures Unpack(Pack(native)) == native
  {
    forall i: nat | i < |native| ensures Unpack(Pack(native))[i] == native[i] {
      assert Pack(native)[2 * i] == native[i] / 0x100;
      assert Pack(native)[2 * i + 1] == native[i] % 0x100;
    }
  }

  lemma LexTail()
    ensures Lex(FLUSH_BYTES + END_BYTES) == Some([Flush, End])
  {
    var s := FLUSH_BYTES + END_BYTES;
    assert LexOp(s) == Some((Flush, CMD_LEN));
    assert s[CMD_LEN..] == END_BYTES;
    assert LexOp(END_BYTES) == Some((End, CMD_LEN));
    assert Lex(END_BYTES) == Some([End]);
    assert [Flush] + [End] == [Flush, End];
  }

  /** Reading one item off the front of a stream. */
  lemma LexStep(op: Op, head: seq<u8>, rest: seq<u8>)
    requires LexOp(head + rest) == Some((op, |head|)) && !op.End?
    ensures Lex(head + rest) == match Lex(rest) case None => None case Some(ops) => Some([op] + ops)
  {
    assert (head + rest)[|head|..] == rest;
  }

  /** A header and one pixel command are read as such, whatever follows. */
  lemma LexBlock(id: DisplayId, rect: Rect, body: seq<u8>, px: seq<u16>, rest: seq<u8>, ops: seq<Op>)
    requires LexOp(body + rest) == Some((Pixels(px), |body|)) && Lex(rest) == Some(ops)
    ensures Lex(HeaderBytes(id, rect) + body + rest) == Some([Frame(id, rect), Pixels(px)] + ops)
  {
    LexStep(Pixels(px), body, rest);
    LexHeader(id, rect, body + rest);
    LexStep(Frame(id, rect), HeaderBytes(id, rect), body + rest);
    AppendAssoc(HeaderBytes(id, rect), body, rest);
    AppendAssoc([Frame(id, rect)], [Pixels(px)], ops);
    assert [Frame(id, rect)] + [Pixels(px)] == [Frame(id, rect), Pixels(px)];
  }

  lemma ExecTwo(d: Device, op: Op)
    ensures ExecAll(d, [op, Flush, End]) == Exec(d, op)
  {
    assert [op, Flush, End][1..] == [Flush, End] && [Flush, End][1..] == [End];
    assert ExecAll(Exec(d, op), [End]) == Exec(d, op);
  }

  /** The start-up clear shows one colour on the whole of one screen and leaves the other alone. */
  lemma SolidFrameFills(screens: Screens, id: DisplayId, color: Rgb)
    ensures Interpret(screens, SolidBytes(id, color))
         == Some(screens.Put(id, seq(PIXELS, _ => color.ToRgb565())))
  {
    var v := color.ToRgb565();
    var px := PairRepeated(PIXELS / 2, v, v);
    SolidFrameLexes(id, color, v, px);
    var ops := [Frame(id, FULL), Pixels(px), Flush, End];
    assert ops[1..] == [Pixels(px), Flush, End];
    var d := Device(screens, Some(Target(id, FULL, 0)));
    ExecTwo(d, Pixels(px));
    assert Paint(screens.Get(id), FULL, 0, px) == seq(PIXELS, _ => v);
  }

  lemma SolidFrameLexes(id: DisplayId, color: Rgb, v: u16, px: seq<u16>)
    requires v == color.ToRgb565() && px == PairRepeated(PIXELS / 2, v, v)
    ensures Lex(SolidBytes(id, color)) == Some([Frame(id, FULL), Pixels(px), Flush, End])
  {
    var header := HeaderBytes(id, FULL);
    var fill := RepeatBytes(PIXELS / 2, Be16(v) + Be16(v));
    var tail := FLUSH_BYTES + END_BYTES;
    LexTail();
    LexRepeat(PIXELS / 2, v, v, tail);
    LexBlock(id, FULL, fill, px, tail, [Flush, End]);
    assert SolidBytes(id, color) == header + fill + tail;
    assert [Frame(id, FULL), Pixels(px)] + [Flush, End] == [Frame(id, FULL), Pixels(px), Flush, End];
  }

  /** The packed word keeps exactly the leading 5, 6 and 5 bits of the components. */
  lemma Rgb565Keeps(c: Rgb, d: Rgb)
    ensures c.ToRgb565() == d.ToRgb565() <==> c.r / 8 == d.r / 8 && c.g / 4 == d.g / 4 && c.b / 8 == d.b / 8
  {
    assert c.ToRgb565() / 0x800 == c.r / 8 && d.ToRgb565() / 0x800 == d.r / 8;
  }

  /** Red is the top five bits of the word, green the six below, blue the low five. */
  lemma Rgb565Fields(c: Rgb)
    ensures var w := c.ToRgb565(); w / 0x800 == c.r / 8 && w / 0x20 % 0x40 == c.g / 4 && w % 0x20 == c.b / 8
  {
    var w := c.ToRgb565();
    assert w / 0x20 == c.r / 8 * 0x40 + c.g / 4;
  }

  lemma RedBits(c: Rgb, i: nat)
    ensures Bit(c.ToRgb565(), 11 + i) <==> Bit(c.r, 3 + i)
  {
    PowersOf565();
    BitHigh(c.r / 8, c.r % 8, 3, i);
    BitHigh(c.r / 8, c.g / 4 * 0x20 + c.b / 8, 11, i);
  }

  lemma GreenBits(c: Rgb, i: nat)
    requires i < 6
    ensures Bit(c.ToRgb565(), 5 + i) <==> Bit(c.g, 2 + i)
  {
    PowersOf565();
    BitHigh(c.g / 4, c.g % 4, 2, i);
    BitHigh(c.r / 8 * 0x40 + c.g / 4, c.b / 8, 5, i);
    BitLow(c.r / 8, c.g / 4, 6, i);
  }

  lemma BlueBits(c: Rgb, i: nat)
    requires i < 5
    ensures Bit(c.ToRgb565(), i) <==> Bit(c.b, 3 + i)
  {
    PowersOf565();
    BitHigh(c.b / 8, c.b % 8, 3, i);
    BitLow(c.r / 8 * 0x40 + c.g / 4, c.b / 8, 5, i);
  }

  /** Bit by bit: bits 3 to 7 of red become bits 11 to 15, bits 2 to 7 of green bits 5 to 10, bits 3 to 7 of blue
      bits 0 to 4. */
  lemma Rgb565Bits(c: Rgb, i: nat)
    ensures i < 5 ==> (Bit(c.ToRgb565(), 11 + i) <==> Bit(c.r, 3 + i))
    ensures i < 6 ==> (Bit(c.ToRgb565(), 5 + i) <==> Bit(c.g, 2 + i))
    ensures i < 5 ==> (Bit(c.ToRgb565(), i) <==> Bit(c.b, 3 + i))
  {
    RedBits(c, i);
    if i < 6 { GreenBits(c, i); }
    if i < 5 { BlueBits(c, i); }
  }

  lemma PowersOf565()
    ensures Pow2(2) == 4 && Pow2(3) == 8 && Pow2(5) == 0x20 && Pow2(6) == 0x40 && Pow2(11) == 0x800
  {
    assert Pow2(8) == 0x100;
  }
}
