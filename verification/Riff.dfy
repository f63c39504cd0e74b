/** The chunk walk over an NKS preset: a RIFF container of form NIKS, read with a file cursor. */
module Riff {
  import opened Words

  datatype Error = Io | NotNks | MsgPack | MissingChunk(name: string)
  datatype Result<+T> = Ok(value: T) | Err(error: Error)

  /** A four-character code. */
  datatype Tag = Tag(a: u8, b: u8, c: u8, d: u8)

  const RIFF := Tag(0x52, 0x49, 0x46, 0x46)
  const NIKS := Tag(0x4E, 0x49, 0x4B, 0x53)
  const NISI := Tag(0x4E, 0x49, 0x53, 0x49)
  const PLID := Tag(0x50, 0x4C, 0x49, 0x44)
  const NICA := Tag(0x4E, 0x49, 0x43, 0x41)
  const PCHK := Tag(0x50, 0x43, 0x48, 0x4B)

  function TagBytes(t: Tag): (s: seq<u8>)
    ensures |s| == 4
  {
    [t.a, t.b, t.c, t.d]
  }

  function TagAt(bytes: seq<u8>, pos: nat): Tag
    requires pos + 4 <= |bytes|
  {
    Tag(bytes[pos], bytes[pos + 1], bytes[pos + 2], bytes[pos + 3])
  }

  /** The MessagePack decoders, known only as partial functions of the payload. */
  datatype Codec<S, P> = Codec(summary: seq<u8> -> Option<S>, plugin: seq<u8> -> Option<P>)

  /** What the walk has collected so far. */
  datatype Found<S, P> = Found(
    summary: Option<S>, plugin: Option<P>, controller: Option<seq<u8>>, pchk: Option<(nat, nat)>)

  datatype NksFile<S, P> = NksFile(
    summary: S, plugin: P, controller: Option<seq<u8>>, pchkOffset: nat, pchkLen: nat)
  {
    /** Opens the preset again and reads only the plugin state. */
    method ReadState(bytes: seq<u8>) returns (r: Result<seq<u8>>)
      ensures r == State(bytes, pchkOffset, pchkLen)
    {
      var f := new File(bytes);
      f.Seek(pchkOffset);
      r := f.ReadExact(pchkLen);
    }
  }

  // ----- the file cursor -----

  /** `n` bytes at `pos`; reading nothing succeeds anywhere, even past the end. */
  function State(bytes: seq<u8>, pos: nat, n: nat): Result<seq<u8>> {
    if n == 0 then Ok([]) else if pos + n > |bytes| then Err(Io) else Ok(bytes[pos..pos + n])
  }

  class File {
    const bytes: seq<u8>
    var pos: nat

    constructor (bytes: seq<u8>)
      ensures this.bytes == bytes && pos == 0
    {
      this.bytes := bytes;
      pos := 0;
    }

    method ReadExact(n: nat) returns (r: Result<seq<u8>>)
      modifies this
      ensures r == State(bytes, old(pos), n)
      ensures pos == if r.Ok? then old(pos) + n else if old(pos) > |bytes| then old(pos) else |bytes|
    {
      r := State(bytes, pos, n);
      pos := if r.Ok? then pos + n else if pos > |bytes| then pos else |bytes|;
    }

    method Seek(to: nat)
      modifies this
      ensures pos == to
    {
      pos := to;
    }
  }

  // ----- one chunk -----

  predicate Known(id: Tag) {
    id == NISI || id == PLID || id == NICA
  }

  function SaturatingSub4(len: nat): nat {
    if len >= 4 then len - 4 else 0
  }

  /** Keep what a known chunk carries; a later chunk of the same kind replaces an earlier one. */
  function Absorb<S, P>(found: Found<S, P>, id: Tag, payload: seq<u8>, codec: Codec<S, P>): Result<Found<S, P>> {
    if id == NISI then
      match codec.summary(payload) case None => Err(MsgPack) case Some(s) => Ok(found.(summary := Some(s)))
    else if id == PLID then
      match codec.plugin(payload) case None => Err(MsgPack) case Some(p) => Ok(found.(plugin := Some(p)))
    else if id == NICA then Ok(found.(controller := Some(payload)))
    else Ok(found)
  }

  /** The bytes at `pos` start with the tag of a chunk and end inside its length, or inside the version prefix or
      the data of a chunk of a kind that is read. */
  predicate CutShortAt(bytes: seq<u8>, pos: nat) {
    pos + 4 <= |bytes| &&
    if pos + 8 > |bytes| then true
    else
      var len := FromLe(bytes[pos + 4..pos + 8]);
      Known(TagAt(bytes, pos)) && |bytes| < pos + 8 + if len >= 4 then len else 4
  }

  /** The chunk whose header is at `pos`: what is known after it, and where the cursor is left. */
  function Take<S, P>(bytes: seq<u8>, pos: nat, found: Found<S, P>, codec: Codec<S, P>): (r: Result<(Found<S, P>, nat)>)
    requires pos + 8 <= |bytes|
    ensures r.Ok? ==> r.value.1 >= pos + 8
    ensures CutShortAt(bytes, pos) <==> r == Err(Io)
  {
    var id := TagAt(bytes, pos);
    var len := FromLe(bytes[pos + 4..pos + 8]);
    var at := pos + 8;
    var n := SaturatingSub4(len);
    if Known(id) then
      if at + 4 + n > |bytes| then Err(Io)
      else
        match Absorb(found, id, bytes[at + 4..at + 4 + n], codec)
        case Err(e) => Err(e)
        case Ok(next) => Ok((next, at + 4 + n + len % 2))
    else if id == PCHK then Ok((found.(pchk := Some((at + 4, n))), at + len + len % 2))
    else Ok((found, at + len + len % 2))
  }

  /** Chunk after chunk until no four bytes are left for another tag. */
  function Walk<S, P>(bytes: seq<u8>, pos: nat, found: Found<S, P>, codec: Codec<S, P>): Result<Found<S, P>>
    decreases |bytes| - pos
  {
    if pos + 4 > |bytes| then Ok(found)
    else if pos + 8 > |bytes| then Err(Io)
    else
      match Take(bytes, pos, found, codec)
      case Err(e) => Err(e)
      case Ok((next, after)) => Walk(bytes, after, next, codec)
  }

  function Finish<S, P>(found: Found<S, P>): Result<NksFile<S, P>> {
    if found.summary.None? then Err(MissingChunk("NISI"))
    else if found.plugin.None? then Err(MissingChunk("PLID"))
    else
      var (offset, len) := if found.pchk.Some? then found.pchk.value else (0, 0);
      Ok(NksFile(found.summary.value, found.plugin.value, found.controller, offset, len))
  }

  function Metadata<S, P>(bytes: seq<u8>, codec: Codec<S, P>): Result<NksFile<S, P>> {
    if |bytes| < 4 then Err(Io)
    else if TagAt(bytes, 0) != RIFF then Err(NotNks)
    else if |bytes| < 12 then Err(Io)
    else if TagAt(bytes, 8) != NIKS then Err(NotNks)
    else
      match Walk(bytes, 12, Found(None, None, None, None), codec)
      case Err(e) => Err(e)
      case Ok(found) => Finish(found)
  }

  lemma TagOfSlice(bytes: seq<u8>, pos: nat)
    requires pos + 4 <= |bytes|
    ensures TagAt(bytes[pos..pos + 4], 0) == TagAt(bytes, pos)
  {
  }

  /** One arm of the loop, through the cursor. */
  method TakeChunk<S, P>(f: File, id: Tag, found: Found<S, P>, codec: Codec<S, P>) returns (r: Result<Found<S, P>>)
    requires 4 <= f.pos <= |f.bytes| && id == TagAt(f.bytes, f.pos - 4)
    modifies f
    ensures f.pos >= old(f.pos) && (r.Ok? ==> f.pos >= old(f.pos) + 4)
    ensures CutShortAt(f.bytes, old(f.pos) - 4) <==> r == Err(Io)
    ensures old(f.pos) + 4 <= |f.bytes| ==>
      Take(f.bytes, old(f.pos) - 4, found, codec) == if r.Ok? then Ok((r.value, f.pos)) else Err(r.error)
  {
    var lenBytes := f.ReadExact(4);
    if lenBytes.Err? { return Err(lenBytes.error); }
    var len := FromLe(lenBytes.value);
    var dataStart := f.pos;
    var payloadLen := SaturatingSub4(len);
    var next := found;
    if Known(id) {
      var version := f.ReadExact(4);
      if version.Err? { return Err(version.error); }
      var buf := f.ReadExact(payloadLen);
      if buf.Err? { return Err(buf.error); }
      var kept := Absorb(found, id, buf.value, codec);
      if kept.Err? { return Err(kept.error); }
      next := kept.value;
    } else {
      if id == PCHK { next := found.(pchk := Some((dataStart + 4, payloadLen))); }
      f.Seek(f.pos + len);
    }
    if len % 2 == 1 { f.Seek(f.pos + 1); }
    return Ok(next);
  }

  method ReadMetadata<S, P>(bytes: seq<u8>, codec: Codec<S, P>) returns (r: Result<NksFile<S, P>>)
    ensures r == Metadata(bytes, codec)
    ensures r == Err(NotNks)
       <==> (|bytes| >= 4 && bytes[..4] != Ascii("RIFF")) || (|bytes| >= 12 && bytes[8..12] != Ascii("NIKS"))
  {
    NotNksExactly(bytes, codec);
    var f := new File(bytes);
    var magic := f.ReadExact(4);
    if magic.Err? { return Err(magic.error); }
    TagOfSlice(bytes, 0);
    if TagAt(magic.value, 0) != RIFF { return Err(NotNks); }
    var total := f.ReadExact(4);
    if total.Err? { return Err(total.error); }
    var form := f.ReadExact(4);
    if form.Err? { return Err(form.error); }
    TagOfSlice(bytes, 8);
    if TagAt(form.value, 0) != NIKS { return Err(NotNks); }
    var found := ReadChunks(f, codec);
    if found.Err? { return Err(found.error); }
    return Finish(found.value);
  }

  /** The chunk loop. */
  method ReadChunks<S, P>(f: File, codec: Codec<S, P>) returns (r: Result<Found<S, P>>)
    modifies f
    ensures r == Walk(f.bytes, old(f.pos), Found(None, None, None, None), codec)
  {
    var found: Found<S, P> := Found(None, None, None, None);
    while true
      invariant Walk(f.bytes, f.pos, found, codec)
             == Walk(f.bytes, old(f.pos), Found(None, None, None, None), codec)
      decreases |f.bytes| - f.pos
    {
      var id := f.ReadExact(4);
      if id.Err? { break; }
      TagOfSlice(f.bytes, f.pos - 4);
      var next := TakeChunk(f, TagAt(id.value, 0), found, codec);
      if next.Err? { return Err(next.error); }
      found := next.value;
    }
    return Ok(found);
  }

  // ----- what a well-laid-out container holds -----

  datatype Chunk = Chunk(id: Tag, body: seq<u8>)

  /** The chunk data after its version prefix. */
  function Payload(body: seq<u8>): seq<u8> {
    if |body| >= 4 then body[4..] else []
  }

  /** A chunk the walk reads carries its version prefix. */
  predicate Versioned(c: Chunk) {
    |c.body| < 0x1_0000_0000 && (Known(c.id) ==> |c.body| >= 4)
  }

  predicate Decodes<S, P>(c: Chunk, codec: Codec<S, P>) {
    && (c.id == NISI ==> codec.summary(Payload(c.body)).Some?)
    && (c.id == PLID ==> codec.plugin(Payload(c.body)).Some?)
  }

  predicate AllDecode<S, P>(chunks: seq<Chunk>, codec: Codec<S, P>) {
    forall i :: 0 <= i < |chunks| ==> Decodes(chunks[i], codec)
  }

  predicate AllVersioned(chunks: seq<Chunk>) {
    forall i :: 0 <= i < |chunks| ==> Versioned(chunks[i])
  }

  /** Header, data and the pad byte that makes the length even. */
  function Size(c: Chunk): nat {
    8 + |c.body| + |c.body| % 2
  }

  function Print(c: Chunk): (s: seq<u8>)
    ensures |s| == Size(c)
  {
    TagBytes(c.id) + LeBytes(|c.body|, 4) + c.body + if |c.body| % 2 == 1 then [0] else []
  }

  function PrintAll(chunks: seq<Chunk>): seq<u8> {
    if chunks == [] then [] else Print(chunks[0]) + PrintAll(chunks[1..])
  }

  /** The chunk stands at `pos`. */
  predicate ChunkAt(bytes: seq<u8>, pos: nat, c: Chunk) {
    && pos + 8 + |c.body| <= |bytes|
    && TagAt(bytes, pos) == c.id
    && bytes[pos + 4..pos + 8] == LeBytes(|c.body|, 4)
    && bytes[pos + 8..pos + 8 + |c.body|] == c.body
  }

  /** The chunks follow one another from `pos` and too few bytes for another tag are left. Pad bytes may be
      anything, and the last one may be missing. */
  predicate LaidOut(bytes: seq<u8>, pos: nat, chunks: seq<Chunk>)
    decreases |chunks|
  {
    if chunks == [] then pos + 4 > |bytes|
    else ChunkAt(bytes, pos, chunks[0]) && LaidOut(bytes, pos + Size(chunks[0]), chunks[1..])
  }

  /** The payload of the last chunk of a kind. */
  function LastPayload(chunks: seq<Chunk>, id: Tag): Option<seq<u8>> {
    if chunks == [] then None
    else
      match LastPayload(chunks[1..], id)
      case Some(p) => Some(p)
      case None => if chunks[0].id == id then Some(Payload(chunks[0].body)) else None
  }

  /** Where the last chunk of plugin state has its payload, the chunks starting at `pos`. */
  function LastState(chunks: seq<Chunk>, pos: nat): Option<(nat, nat)>
    decreases |chunks|
  {
    if chunks == [] then None
    else
      match LastState(chunks[1..], pos + Size(chunks[0]))
      case Some(p) => Some(p)
      case None => if chunks[0].id == PCHK then Some((pos + 12, SaturatingSub4(|chunks[0].body|))) else None
  }

  function OrElse<T>(a: Option<T>, b: Option<T>): Option<T> {
    if a.Some? then a else b
  }

  function DecodeWith<T>(payload: Option<seq<u8>>, decode: seq<u8> -> Option<T>): Option<T> {
    if payload.Some? then decode(payload.value) else None
  }

  /** What is known after the chunks: the last of each kind, or what was known before. */
  function Latest<S, P>(found: Found<S, P>, chunks: seq<Chunk>, pos: nat, codec: Codec<S, P>): Found<S, P> {
    Found(OrElse(DecodeWith(LastPayload(chunks, NISI), codec.summary), found.summary),
          OrElse(DecodeWith(LastPayload(chunks, PLID), codec.plugin), found.plugin),
          OrElse(LastPayload(chunks, NICA), found.controller),
          OrElse(LastState(chunks, pos), found.pchk))
  }

  /** What is known after one more chunk that decodes. */
  function After<S, P>(found: Found<S, P>, c: Chunk, pos: nat, codec: Codec<S, P>): Found<S, P> {
    if c.id == NISI then found.(summary := codec.summary(Payload(c.body)))
    else if c.id == PLID then found.(plugin := codec.plugin(Payload(c.body)))
    else if c.id == NICA then found.(controller := Some(Payload(c.body)))
    else if c.id == PCHK then found.(pchk := Some((pos + 12, SaturatingSub4(|c.body|))))
    else found
  }

  lemma LengthRead(bytes: seq<u8>, pos: nat, c: Chunk)
    requires ChunkAt(bytes, pos, c) && |c.body| < 0x1_0000_0000
    ensures FromLe(bytes[pos + 4..pos + 8]) == |c.body|
  {
    Pow2Of32();
    LeRoundTrip(|c.body|, 4);
  }

  /** The walk leaves a chunk at its even end exactly if the chunk decodes and, being of a kind that is
      read, is long enough for the version prefix. */
  lemma LandsOnBoundary<S, P>(bytes: seq<u8>, pos: nat, c: Chunk, found: Found<S, P>, codec: Codec<S, P>)
    requires ChunkAt(bytes, pos, c) && |c.body| < 0x1_0000_0000
    ensures var r := Take(bytes, pos, found, codec);
            (r.Ok? && r.value.1 == pos + Size(c)) <==> (Versioned(c) && Decodes(c, codec))
  {
    LengthRead(bytes, pos, c);
    if Known(c.id) && |c.body| >= 4 {
      assert bytes[pos + 12..pos + 8 + |c.body|] == Payload(c.body);
    }
  }

  lemma TakeAbsorbs<S, P>(bytes: seq<u8>, pos: nat, c: Chunk, found: Found<S, P>, codec: Codec<S, P>)
    requires ChunkAt(bytes, pos, c) && Versioned(c)
    ensures !Decodes(c, codec) ==> Take(bytes, pos, found, codec) == Err(MsgPack)
    ensures Decodes(c, codec) ==>
      Take(bytes, pos, found, codec) == Ok((After(found, c, pos, codec), pos + Size(c)))
  {
    LengthRead(bytes, pos, c);
    if Known(c.id) {
      assert bytes[pos + 12..pos + 8 + |c.body|] == Payload(c.body);
    }
  }

  lemma LastDecodes<S, P>(chunks: seq<Chunk>, codec: Codec<S, P>)
    requires AllDecode(chunks, codec)
    ensures LastPayload(chunks, NISI).Some? ==> codec.summary(LastPayload(chunks, NISI).value).Some?
    ensures LastPayload(chunks, PLID).Some? ==> codec.plugin(LastPayload(chunks, PLID).value).Some?
  {
    if chunks != [] {
      assert Decodes(chunks[0], codec);
      assert forall i :: 0 <= i < |chunks[1..]| ==> chunks[1..][i] == chunks[i + 1];
      LastDecodes(chunks[1..], codec);
    }
  }

  lemma LatestOfTwo<S, P>(found: Found<S, P>, chunks: seq<Chunk>, pos: nat, codec: Codec<S, P>)
    requires chunks != [] && Decodes(chunks[0], codec) && AllDecode(chunks[1..], codec)
    ensures Latest(After(found, chunks[0], pos, codec), chunks[1..], pos + Size(chunks[0]), codec)
         == Latest(found, chunks, pos, codec)
  {
    LastDecodes(chunks[1..], codec);
  }

  lemma AllOfTwo<S, P>(chunks: seq<Chunk>, codec: Codec<S, P>)
    requires chunks != []
    ensures AllDecode(chunks, codec) <==> Decodes(chunks[0], codec) && AllDecode(chunks[1..], codec)
  {
    assert chunks == [chunks[0]] + chunks[1..];
  }

  lemma WalkStep<S, P>(bytes: seq<u8>, pos: nat, found: Found<S, P>, codec: Codec<S, P>)
    requires pos + 8 <= |bytes|
    ensures Walk(bytes, pos, found, codec)
         == var r := Take(bytes, pos, found, codec);
            if r.Ok? then Walk(bytes, r.value.1, r.value.0, codec) else Err(r.error)
  {
  }

  lemma WalkChunk<S, P>(bytes: seq<u8>, pos: nat, c: Chunk, found: Found<S, P>, codec: Codec<S, P>)
    requires ChunkAt(bytes, pos, c) && Versioned(c)
    ensures Walk(bytes, pos, found, codec)
         == if Decodes(c, codec) then Walk(bytes, pos + Size(c), After(found, c, pos, codec), codec) else Err(MsgPack)
  {
    WalkStep(bytes, pos, found, codec);
    TakeAbsorbs(bytes, pos, c, found, codec);
  }

  /** Chunk after chunk, without bytes. */
  function Fold<S, P>(chunks: seq<Chunk>, pos: nat, found: Found<S, P>, codec: Codec<S, P>): Result<Found<S, P>>
    decreases |chunks|
  {
    if chunks == [] then Ok(found)
    else if !Decodes(chunks[0], codec) then Err(MsgPack)
    else Fold(chunks[1..], pos + Size(chunks[0]), After(found, chunks[0], pos, codec), codec)
  }

  lemma WalkFoldsStep<S, P>(bytes: seq<u8>, pos: nat, chunks: seq<Chunk>, found: Found<S, P>, codec: Codec<S, P>)
    requires chunks != [] && ChunkAt(bytes, pos, chunks[0]) && Versioned(chunks[0])
    requires Decodes(chunks[0], codec) ==>
      Walk(bytes, pos + Size(chunks[0]), After(found, chunks[0], pos, codec), codec)
      == Fold(chunks[1..], pos + Size(chunks[0]), After(found, chunks[0], pos, codec), codec)
    ensures Walk(bytes, pos, found, codec) == Fold(chunks, pos, found, codec)
  {
    WalkChunk(bytes, pos, chunks[0], found, codec);
  }

  lemma {:induction false} WalkFolds<S, P>(
      bytes: seq<u8>, pos: nat, chunks: seq<Chunk>, found: Found<S, P>, codec: Codec<S, P>)
    requires LaidOut(bytes, pos, chunks) && AllVersioned(chunks)
    ensures Walk(bytes, pos, found, codec) == Fold(chunks, pos, found, codec)
    decreases |chunks|
  {
    if chunks == [] {
    } else {
      var next := After(found, chunks[0], pos, codec);
      WalkFolds(bytes, pos + Size(chunks[0]), chunks[1..], next, codec);
      WalkFoldsStep(bytes, pos, chunks, found, codec);
    }
  }

  lemma {:induction false} FoldKeepsLatest<S, P>(chunks: seq<Chunk>, pos: nat, found: Found<S, P>, codec: Codec<S, P>)
    ensures Fold(chunks, pos, found, codec)
         == if AllDecode(chunks, codec) then Ok(Latest(found, chunks, pos, codec)) else Err(MsgPack)
    decreases |chunks|
  {
    if chunks == [] {
    } else {
      AllOfTwo(chunks, codec);
      FoldKeepsLatest(chunks[1..], pos + Size(chunks[0]), After(found, chunks[0], pos, codec), codec);
      if AllDecode(chunks, codec) { LatestOfTwo(found, chunks, pos, codec); }
    }
  }

  /** The walk over any layout: it stops with a decoding error exactly if some chunk does not decode,
      and otherwise knows the last chunk of each kind. */
  lemma WalkLaidOut<S, P>(bytes: seq<u8>, pos: nat, chunks: seq<Chunk>, found: Found<S, P>, codec: Codec<S, P>)
    requires LaidOut(bytes, pos, chunks) && AllVersioned(chunks)
    ensures Walk(bytes, pos, found, codec)
         == if AllDecode(chunks, codec) then Ok(Latest(found, chunks, pos, codec)) else Err(MsgPack)
  {
    WalkFolds(bytes, pos, chunks, found, codec);
    FoldKeepsLatest(chunks, pos, found, codec);
  }

  /** The recorded offset and length are those of the last state chunk's payload. */
  lemma {:induction false} StateOfLast(bytes: seq<u8>, pos: nat, chunks: seq<Chunk>)
    requires LaidOut(bytes, pos, chunks)
    ensures LastState(chunks, pos).Some? <==> LastPayload(chunks, PCHK).Some?
    ensures LastState(chunks, pos).Some? ==>
      State(bytes, LastState(chunks, pos).value.0, LastState(chunks, pos).value.1)
      == Ok(LastPayload(chunks, PCHK).value)
    decreases |chunks|
  {
    if chunks == [] {
    } else {
      StateOfLast(bytes, pos + Size(chunks[0]), chunks[1..]);
      var body := chunks[0].body;
      if |body| >= 4 { assert bytes[pos + 12..pos + 8 + |body|] == Payload(body); }
    }
  }

  lemma SameChunk(bytes: seq<u8>, pos: nat, c: Chunk, d: Chunk)
    requires ChunkAt(bytes, pos, c) && ChunkAt(bytes, pos, d) && Versioned(c) && Versioned(d)
    ensures c == d
  {
    LengthRead(bytes, pos, c);
    LengthRead(bytes, pos, d);
  }

  /** Bytes determine the chunks they hold. */
  lemma {:induction false} LayoutUnique(bytes: seq<u8>, pos: nat, a: seq<Chunk>, b: seq<Chunk>)
    requires LaidOut(bytes, pos, a) && AllVersioned(a)
    requires LaidOut(bytes, pos, b) && AllVersioned(b)
    ensures a == b
    decreases |a|
  {
    if a != [] && b != [] {
      assert Versioned(a[0]) && Versioned(b[0]);
      SameChunk(bytes, pos, a[0], b[0]);
      LayoutUnique(bytes, pos + Size(a[0]), a[1..], b[1..]);
      assert a == [a[0]] + a[1..] && b == [b[0]] + b[1..];
    }
  }

  lemma LaidOutCons(bytes: seq<u8>, pos: nat, chunks: seq<Chunk>)
    requires chunks != [] && ChunkAt(bytes, pos, chunks[0]) && LaidOut(bytes, pos + Size(chunks[0]), chunks[1..])
    ensures LaidOut(bytes, pos, chunks)
  {
  }

  lemma PrintedSplit(before: seq<u8>, chunks: seq<Chunk>, tail: seq<u8>)
    requires chunks != []
    ensures var c, rest := chunks[0], PrintAll(chunks[1..]);
            && before + PrintAll(chunks) + tail == before + Print(c) + rest + tail
            && ChunkAt(before + PrintAll(chunks) + tail, |before|, c)
  {
    var c, rest := chunks[0], PrintAll(chunks[1..]);
    AppendAssoc(before, Print(c), rest);
    AppendAssoc(before + Print(c), rest, tail);
    PrintedHead(before, c, rest + tail);
  }

  /** A printed list of chunks lies where it was put, with up to three stray bytes after it. */
  lemma {:induction false} PrintedIsLaidOut(before: seq<u8>, chunks: seq<Chunk>, tail: seq<u8>)
    requires |tail| < 4
    ensures LaidOut(before + PrintAll(chunks) + tail, |before|, chunks)
    decreases |chunks|
  {
    if chunks == [] {
    } else {
      PrintedSplit(before, chunks, tail);
      PrintedIsLaidOut(before + Print(chunks[0]), chunks[1..], tail);
      LaidOutCons(before + PrintAll(chunks) + tail, |before|, chunks);
    }
  }

  lemma PrintedHead(before: seq<u8>, c: Chunk, after: seq<u8>)
    ensures ChunkAt(before + Print(c) + after, |before|, c)
  {
    var bytes := before + Print(c) + after;
    assert bytes[|before|..|before| + Size(c)] == Print(c);
    PrintedAt(bytes, |before|, c);
  }

  lemma SliceOfSlice(s: seq<u8>, from: nat, to: nat, i: nat, j: nat)
    requires i <= j && from + j <= to <= |s|
    ensures s[from..to][i..j] == s[from + i..from + j]
  {
    forall k | 0 <= k < j - i ensures s[from..to][i..j][k] == s[from + i..from + j][k] {
      assert s[from..to][i..j][k] == s[from..to][i + k];
    }
  }

  lemma PrintedAt(bytes: seq<u8>, pos: nat, c: Chunk)
    requires pos + Size(c) <= |bytes| && bytes[pos..pos + Size(c)] == Print(c)
    ensures ChunkAt(bytes, pos, c)
  {
    var here := bytes[pos..pos + Size(c)];
    assert TagAt(here, 0) == c.id && here[4..8] == LeBytes(|c.body|, 4) && here[8..8 + |c.body|] == c.body;
    assert forall k :: 0 <= k < 4 ==> bytes[pos + k] == here[k];
    SliceOfSlice(bytes, pos, pos + Size(c), 4, 8);
    SliceOfSlice(bytes, pos, pos + Size(c), 8, 8 + |c.body|);
  }

  function Container(total: seq<u8>, chunks: seq<Chunk>, tail: seq<u8>): seq<u8> {
    TagBytes(RIFF) + total + TagBytes(NIKS) + PrintAll(chunks) + tail
  }

  /** Reading back a printed container, whatever its declared length and however many foreign chunks it
      holds: the error tells which requirement failed, and on success every field is that of the last
      chunk of its kind and the state read later is the last state payload. */
  lemma ReadPrinted<S, P>(total: seq<u8>, chunks: seq<Chunk>, tail: seq<u8>, codec: Codec<S, P>)
    requires |total| == 4 && |tail| < 4 && AllVersioned(chunks)
    ensures var r := Metadata(Container(total, chunks, tail), codec);
            if !AllDecode(chunks, codec) then r == Err(MsgPack)
            else if LastPayload(chunks, NISI).None? then r == Err(MissingChunk("NISI"))
            else if LastPayload(chunks, PLID).None? then r == Err(MissingChunk("PLID"))
            else
              && r.Ok?
              && Some(r.value.summary) == codec.summary(LastPayload(chunks, NISI).value)
              && Some(r.value.plugin) == codec.plugin(LastPayload(chunks, PLID).value)
              && r.value.controller == LastPayload(chunks, NICA)
              && State(Container(total, chunks, tail), r.value.pchkOffset, r.value.pchkLen)
                 == Ok(if LastPayload(chunks, PCHK).Some? then LastPayload(chunks, PCHK).value else [])
  {
    var bytes := Container(total, chunks, tail);
    var before := TagBytes(RIFF) + total + TagBytes(NIKS);
    assert TagAt(bytes, 0) == RIFF && TagAt(bytes, 8) == NIKS;
    PrintedIsLaidOut(before, chunks, tail);
    WalkLaidOut(bytes, 12, chunks, Found(None, None, None, None), codec);
    if AllDecode(chunks, codec) { LastDecodes(chunks, codec); }
    StateOfLast(bytes, 12, chunks);
  }

  /** A summary chunk without a body, then a plugin chunk. */
  predicate ShortSummary(bytes: seq<u8>) {
    && |bytes| == 20
    && TagAt(bytes, 0) == NISI && TagAt(bytes, 4) == Tag(0, 0, 0, 0)
    && TagAt(bytes, 8) == PLID && TagAt(bytes, 12) == Tag(4, 0, 0, 0) && TagAt(bytes, 16) == Tag(1, 0, 0, 0)
  }

  /** A summary chunk too short for its version prefix makes the walk take the next chunk's tag for the
      version: the plugin chunk laid out after it is never seen. */
  lemma ShortChunkMisreads<S, P>(bytes: seq<u8>, codec: Codec<S, P>)
    requires codec.summary([]).Some? && ShortSummary(bytes)
    ensures LaidOut(bytes, 0, [Chunk(NISI, []), Chunk(PLID, [1, 0, 0, 0])])
    ensures Walk(bytes, 0, Found(None, None, None, None), codec) == Ok(Found(codec.summary([]), None, None, None))
  {
    var found: Found<S, P> := Found(codec.summary([]), None, None, None);
    ShortChunkLaidOut(bytes);
    ShortChunkTaken(bytes, codec);
    WalkStep(bytes, 0, Found(None, None, None, None), codec);
    WalkStep(bytes, 12, found, codec);
  }

  lemma ShortChunkLaidOut(bytes: seq<u8>)
    requires ShortSummary(bytes)
    ensures LaidOut(bytes, 0, [Chunk(NISI, []), Chunk(PLID, [1, 0, 0, 0])])
  {
    var chunks := [Chunk(NISI, []), Chunk(PLID, [1, 0, 0, 0])];
    Little(bytes, 4, 0);
    Little(bytes, 12, 4);
    assert ChunkAt(bytes, 0, chunks[0]);
    assert chunks[1..] == [chunks[1]] && ChunkAt(bytes, 8, chunks[1]);
    assert LaidOut(bytes, 20, [chunks[1]][1..]);
  }

  lemma ShortChunkTaken<S, P>(bytes: seq<u8>, codec: Codec<S, P>)
    requires codec.summary([]).Some? && ShortSummary(bytes)
    ensures var found: Found<S, P> := Found(codec.summary([]), None, None, None);
            && Take(bytes, 0, Found(None, None, None, None), codec) == Ok((found, 12))
            && Take(bytes, 12, found, codec) == Ok((found, 22))
  {
    Little(bytes, 4, 0);
    Little(bytes, 16, 1);
    assert bytes[12..12] == [];
  }

  lemma Little(bytes: seq<u8>, pos: nat, n: u8)
    requires pos + 4 <= |bytes| && TagAt(bytes, pos) == Tag(n, 0, 0, 0)
    ensures bytes[pos..pos + 4] == LeBytes(n, 4) && FromLe(bytes[pos..pos + 4]) == n
  {
    assert LeBytes(n, 4) == [n, 0, 0, 0];
    Pow2Of32();
    LeRoundTrip(n, 4);
  }

  // ----- files that are something else, or end too soon -----

  function Ascii(s: string): seq<u8>
    requires forall i :: 0 <= i < |s| ==> s[i] < 128 as char
  {
    seq(|s|, (i: nat) requires i < |s| => s[i] as int)
  }

  lemma TagsAreAscii()
    ensures TagBytes(RIFF) == Ascii("RIFF") && TagBytes(NIKS) == Ascii("NIKS")
    ensures TagBytes(NISI) == Ascii("NISI") && TagBytes(PLID) == Ascii("PLID")
    ensures TagBytes(NICA) == Ascii("NICA") && TagBytes(PCHK) == Ascii("PCHK")
  {
  }

  lemma TagIs(bytes: seq<u8>, pos: nat, t: Tag)
    requires pos + 4 <= |bytes|
    ensures TagAt(bytes, pos) == t <==> bytes[pos..pos + 4] == TagBytes(t)
  {
    var four := bytes[pos..pos + 4];
    assert four[0] == bytes[pos] && four[1] == bytes[pos + 1] && four[2] == bytes[pos + 2] && four[3] == bytes[pos + 3];
  }

  lemma {:induction false} WalkErrors<S, P>(bytes: seq<u8>, pos: nat, found: Found<S, P>, codec: Codec<S, P>)
    ensures Walk(bytes, pos, found, codec).Err? ==> Walk(bytes, pos, found, codec).error in {Io, MsgPack}
    decreases |bytes| - pos
  {
    if pos + 8 <= |bytes| {
      var r := Take(bytes, pos, found, codec);
      WalkStep(bytes, pos, found, codec);
      if r.Ok? { WalkErrors(bytes, r.value.1, r.value.0, codec); }
    }
  }

  /** A file is refused as foreign exactly if it has a magic that is not RIFF or a form that is not NIKS. */
  lemma NotNksExactly<S, P>(bytes: seq<u8>, codec: Codec<S, P>)
    ensures Metadata(bytes, codec) == Err(NotNks)
       <==> (|bytes| >= 4 && bytes[..4] != Ascii("RIFF")) || (|bytes| >= 12 && bytes[8..12] != Ascii("NIKS"))
  {
    TagsAreAscii();
    if |bytes| >= 4 { TagIs(bytes, 0, RIFF); }
    if |bytes| >= 12 {
      TagIs(bytes, 8, NIKS);
      WalkErrors(bytes, 12, Found(None, None, None, None), codec);
    }
  }

  /** A file that ends inside the twelve header bytes is an i/o error unless its magic is wrong. */
  lemma HeaderCutShort<S, P>(bytes: seq<u8>, codec: Codec<S, P>)
    requires |bytes| < 12
    ensures Metadata(bytes, codec)
         == if |bytes| >= 4 && bytes[..4] != Ascii("RIFF") then Err(NotNks) else Err(Io)
  {
    TagsAreAscii();
    if |bytes| >= 4 { TagIs(bytes, 0, RIFF); }
  }

  /** The chunks follow one another from `pos` to `end`; anything may come after. */
  predicate LaidOutTo(bytes: seq<u8>, pos: nat, chunks: seq<Chunk>, end: nat)
    decreases |chunks|
  {
    if chunks == [] then pos == end
    else ChunkAt(bytes, pos, chunks[0]) && LaidOutTo(bytes, pos + Size(chunks[0]), chunks[1..], end)
  }

  /** The walk passes whole chunks and goes on behind them. */
  lemma {:induction false} WalkTo<S, P>(
      bytes: seq<u8>, pos: nat, chunks: seq<Chunk>, end: nat, found: Found<S, P>, codec: Codec<S, P>)
    requires LaidOutTo(bytes, pos, chunks, end) && AllVersioned(chunks) && AllDecode(chunks, codec)
    ensures Walk(bytes, pos, found, codec) == Walk(bytes, end, Latest(found, chunks, pos, codec), codec)
    decreases |chunks|
  {
    if chunks == [] {
    } else {
      AllOfTwo(chunks, codec);
      assert Versioned(chunks[0]);
      WalkTo(bytes, pos + Size(chunks[0]), chunks[1..], end, After(found, chunks[0], pos, codec), codec);
      WalkToStep(bytes, pos, chunks, found, codec);
    }
  }

  lemma WalkToStep<S, P>(bytes: seq<u8>, pos: nat, chunks: seq<Chunk>, found: Found<S, P>, codec: Codec<S, P>)
    requires chunks != [] && ChunkAt(bytes, pos, chunks[0]) && Versioned(chunks[0])
    requires Decodes(chunks[0], codec) && AllDecode(chunks[1..], codec)
    ensures var next := After(found, chunks[0], pos, codec);
            && Walk(bytes, pos, found, codec) == Walk(bytes, pos + Size(chunks[0]), next, codec)
            && Latest(next, chunks[1..], pos + Size(chunks[0]), codec) == Latest(found, chunks, pos, codec)
  {
    WalkChunk(bytes, pos, chunks[0], found, codec);
    LatestOfTwo(found, chunks, pos, codec);
  }

  lemma {:induction false} PrintedTo(before: seq<u8>, chunks: seq<Chunk>, rest: seq<u8>)
    ensures LaidOutTo(before + PrintAll(chunks) + rest, |before|, chunks, |before| + |PrintAll(chunks)|)
    decreases |chunks|
  {
    if chunks == [] {
    } else {
      PrintedSplit(before, chunks, rest);
      PrintedTo(before + Print(chunks[0]), chunks[1..], rest);
    }
  }

  /** `rest` starts a chunk that it cuts short. */
  predicate CutShort(rest: seq<u8>) {
    CutShortAt(rest, 0)
  }

  lemma CutShortIsIo<S, P>(bytes: seq<u8>, pos: nat, found: Found<S, P>, codec: Codec<S, P>)
    requires pos <= |bytes| && CutShort(bytes[pos..])
    ensures Walk(bytes, pos, found, codec) == Err(Io)
  {
    var rest := bytes[pos..];
    if |rest| >= 8 {
      assert TagAt(rest, 0) == TagAt(bytes, pos);
      assert bytes[pos + 4..pos + 8] == rest[4..8];
    }
    assert CutShortAt(bytes, pos);
  }

  lemma BehindChunks<S, P>(total: seq<u8>, chunks: seq<Chunk>, rest: seq<u8>, codec: Codec<S, P>)
    requires |total| == 4 && AllVersioned(chunks) && AllDecode(chunks, codec)
    ensures var bytes, end := Container(total, chunks, rest), 12 + |PrintAll(chunks)|;
            && end <= |bytes| && bytes[end..] == rest
            && Metadata(bytes, codec)
               == match Walk(bytes, end, Latest(Found(None, None, None, None), chunks, 12, codec), codec)
                  case Err(e) => Err(e)
                  case Ok(found) => Finish(found)
  {
    var before := TagBytes(RIFF) + total + TagBytes(NIKS);
    var bytes := Container(total, chunks, rest);
    assert TagAt(bytes, 0) == RIFF && TagAt(bytes, 8) == NIKS;
    PrintedTo(before, chunks, rest);
    WalkTo(bytes, 12, chunks, 12 + |PrintAll(chunks)|, Found(None, None, None, None), codec);
  }

  /** A preset that ends inside a chunk that is read, or inside any chunk's header, is an i/o error, whatever came
      before: it is never taken for one without that chunk. */
  lemma CutPresetFails<S, P>(total: seq<u8>, chunks: seq<Chunk>, rest: seq<u8>, codec: Codec<S, P>)
    requires |total| == 4 && AllVersioned(chunks) && AllDecode(chunks, codec) && CutShort(rest)
    ensures Metadata(Container(total, chunks, rest), codec) == Err(Io)
  {
    BehindChunks(total, chunks, rest, codec);
    CutShortIsIo(Container(total, chunks, rest), 12 + |PrintAll(chunks)|,
                 Latest(Found(None, None, None, None), chunks, 12, codec), codec);
  }

  /** A preset that ends inside its plugin state is accepted, and loading the state fails later. */
  lemma CutStateFailsLater<S, P>(total: seq<u8>, chunks: seq<Chunk>, rest: seq<u8>, codec: Codec<S, P>)
    requires |total| == 4 && AllVersioned(chunks) && AllDecode(chunks, codec)
    requires LastPayload(chunks, NISI).Some? && LastPayload(chunks, PLID).Some?
    requires |rest| >= 8 && TagAt(rest, 0) == PCHK && 4 < FromLe(rest[4..8]) && |rest| - 8 < FromLe(rest[4..8])
    ensures var bytes := Container(total, chunks, rest);
            var r := Metadata(bytes, codec);
            r.Ok? && State(bytes, r.value.pchkOffset, r.value.pchkLen) == Err(Io)
  {
    var bytes, end := Container(total, chunks, rest), 12 + |PrintAll(chunks)|;
    var found := Latest(Found(None, None, None, None), chunks, 12, codec);
    BehindChunks(total, chunks, rest, codec);
    LastDecodes(chunks, codec);
    assert TagAt(rest, 0) == TagAt(bytes, end) && bytes[end + 4..end + 8] == rest[4..8];
    WalkStep(bytes, end, found, codec);
  }
}
