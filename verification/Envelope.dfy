/** The plugin host's line protocol: a hand-written scanner for one-line JSON envelopes, and the printer
    it has to undo. Strings are the bytes of a `std::string`, one character each. */
module Envelope {
  import opened Words

  datatype Message = Message(id: u64, kind: string, body: string)

  // ----- searching -----

  /** `piece` stands at `off`. */
  predicate Has(s: string, off: nat, piece: string) {
    off + |piece| <= |s| && forall i :: 0 <= i < |piece| ==> s[off + i] == piece[i]
  }

  /** `std::string::find`: the first occurrence at or after `from`. */
  function Find(s: string, piece: string, from: nat): (r: Option<nat>)
    ensures r.Some? ==> from <= r.value && Has(s, r.value, piece)
    ensures forall i: nat :: from <= i && (r.Some? ==> i < r.value) ==> !Has(s, i, piece)
    decreases |s| - from
  {
    if from + |piece| > |s| then None
    else if Has(s, from, piece) then Some(from)
    else Find(s, piece, from + 1)
  }

  predicate IsSpace(c: char) {
    c == ' ' || '\t' <= c <= '\r'
  }

  /** The first place at or after `v` without white space. */
  function SkipSpace(s: string, v: nat): (r: nat)
    ensures r >= v && (r < |s| ==> !IsSpace(s[r]))
    decreases |s| - v
  {
    if v < |s| && IsSpace(s[v]) then SkipSpace(s, v + 1) else v
  }

  /** The first unescaped quote at or after `v`; without one, at or just past the end. */
  function StringEnd(s: string, v: nat): (r: nat)
    ensures r >= v && (r < |s| ==> s[r] == '\"')
    decreases |s| - v
  {
    if v >= |s| || s[v] == '\"' then v
    else if s[v] == '\\' then StringEnd(s, v + 2)
    else StringEnd(s, v + 1)
  }

  /** Just past the brace that brings the depth to zero. */
  function BraceEnd(s: string, v: nat, depth: nat): (r: nat)
    ensures r >= v
    decreases |s| - v
  {
    if v >= |s| || depth == 0 then v
    else if s[v] == '{' then BraceEnd(s, v + 1, depth + 1)
    else if s[v] == '}' then BraceEnd(s, v + 1, depth - 1)
    else BraceEnd(s, v + 1, depth)
  }

  /** The first comma or closing brace. */
  function BareEnd(s: string, v: nat): (r: nat)
    ensures r >= v
    decreases |s| - v
  {
    if v >= |s| || s[v] == ',' || s[v] == '}' then v else BareEnd(s, v + 1)
  }

  function ValueEnd(s: string, v: nat): (r: nat)
    ensures r >= v
  {
    if v < |s| && s[v] == '\"' then StringEnd(s, v + 1) + 1
    else if v < |s| && s[v] == '{' then BraceEnd(s, v + 1, 1)
    else BareEnd(s, v)
  }

  function Quoted(key: string): string {
    "\"" + key + "\""
  }

  /** Where the value of a key starts and ends. */
  function Field(s: string, key: string): (r: Option<(nat, nat)>)
    ensures r.Some? ==> r.value.0 <= r.value.1 && r.value.0 <= |s|
  {
    match Find(s, Quoted(key), 0)
    case None => None
    case Some(pos) =>
      match Find(s, ":", pos + |key| + 2)
      case None => None
      case Some(colon) =>
        SpaceInside(s, colon + 1);
        Some((SkipSpace(s, colon + 1), ValueEnd(s, SkipSpace(s, colon + 1))))
  }

  lemma SpaceInside(s: string, v: nat)
    requires v <= |s|
    ensures SkipSpace(s, v) <= |s|
    decreases |s| - v
  {
    if v < |s| { SpaceInside(s, v + 1); }
  }

  method FindField(s: string, key: string) returns (r: Option<(nat, nat)>)
    ensures r == Field(s, key)
  {
    var k := "\"" + key + "\"";
    var pos := Find(s, k, 0);
    if pos.None? { return None; }
    var colon := Find(s, ":", pos.value + |k|);
    if colon.None? { return None; }
    var v := colon.value + 1;
    while v < |s| && IsSpace(s[v])
      invariant SkipSpace(s, v) == SkipSpace(s, colon.value + 1)
    {
      v := v + 1;
    }
    SpaceInside(s, colon.value + 1);
    var end := ScanValue(s, v);
    return Some((v, end));
  }

  /** A quoted string, a braced object, or anything up to a comma or closing brace. */
  method ScanValue(s: string, start: nat) returns (v: nat)
    ensures v == ValueEnd(s, start)
  {
    v := start;
    if v < |s| && s[v] == '\"' {
      v := v + 1;
      while v < |s| && s[v] != '\"'
        invariant StringEnd(s, v) == StringEnd(s, start + 1)
      {
        if s[v] == '\\' { v := v + 1; }
        v := v + 1;
      }
      v := v + 1;
    } else if v < |s| && s[v] == '{' {
      var depth := 1;
      v := v + 1;
      while v < |s| && depth > 0
        invariant depth >= 0 && BraceEnd(s, v, depth) == BraceEnd(s, start + 1, 1)
        decreases |s| - v
      {
        if s[v] == '{' { depth := depth + 1; } else if s[v] == '}' { depth := depth - 1; }
        v := v + 1;
      }
    } else {
      while v < |s| && s[v] != ',' && s[v] != '}'
        invariant BareEnd(s, v) == BareEnd(s, start)
      {
        v := v + 1;
      }
    }
  }

  /** `substr` stops at the end of the string. */
  function Slice(s: string, start: nat, end: nat): string
    requires start <= |s| && start <= end
  {
    if end <= |s| then s[start..end] else s[start..]
  }

  function Unquote(s: string): string {
    if |s| >= 2 && s[0] == '\"' && s[|s| - 1] == '\"' then s[1..|s| - 1] else s
  }

  // ----- numbers -----

  predicate IsDigit(c: char) {
    '0' <= c <= '9'
  }

  function DigitOf(n: nat): (c: char)
    requires n < 10
    ensures IsDigit(c)
  {
    ('0' as int + n) as char
  }

  function DigitValue(c: char): nat
    requires IsDigit(c)
  {
    c as int - '0' as int
  }

  /** Decimal printing. */
  function Digits(n: nat): (s: string)
    ensures |s| >= 1 && forall i :: 0 <= i < |s| ==> IsDigit(s[i])
  {
    if n < 10 then [DigitOf(n)] else Digits(n / 10) + [DigitOf(n % 10)]
  }

  function Value(s: string): nat
    requires forall i :: 0 <= i < |s| ==> IsDigit(s[i])
  {
    if s == "" then 0 else 10 * Value(s[..|s| - 1]) + DigitValue(s[|s| - 1])
  }

  /** The first place at or after `v` that is not a digit. */
  function DigitsEnd(s: string, v: nat): (r: nat)
    requires v <= |s|
    ensures v <= r <= |s| && forall i :: v <= i < r ==> IsDigit(s[i])
    decreases |s| - v
  {
    if v < |s| && IsDigit(s[v]) then DigitsEnd(s, v + 1) else v
  }

  /** `std::stoull`: white space, a sign, digits; anything may follow. A minus sign negates modulo 2^64. */
  function Stoull(s: string): Option<u64> {
    SpaceInside(s, 0);
    var v := SkipSpace(s, 0);
    var negative := v < |s| && s[v] == '-';
    var from := if v < |s| && (s[v] == '-' || s[v] == '+') then v + 1 else v;
    var to := DigitsEnd(s, from);
    if from == to then None
    else
      var n := Value(s[from..to]);
      if n >= 0x1_0000_0000_0000_0000 then None
      else if negative && n > 0 then Some(0x1_0000_0000_0000_0000 - n)
      else Some(n)
  }

  lemma {:induction false} ValueOfDigits(n: nat)
    ensures Value(Digits(n)) == n
  {
    if n >= 10 {
      ValueOfDigits(n / 10);
      assert Digits(n)[..|Digits(n)| - 1] == Digits(n / 10);
    }
  }

  lemma {:induction false} AllDigitsEnd(s: string, v: nat)
    requires v <= |s| && forall i :: v <= i < |s| ==> IsDigit(s[i])
    ensures DigitsEnd(s, v) == |s|
    decreases |s| - v
  {
    if v < |s| { AllDigitsEnd(s, v + 1); }
  }

  lemma StoullOfDigits(n: u64)
    ensures Stoull(Digits(n)) == Some(n)
  {
    var d := Digits(n);
    assert IsDigit(d[0]);
    AllDigitsEnd(d, 0);
    ValueOfDigits(n);
    assert d[0..|d|] == d;
  }

  // ----- reading and writing one line -----

  function ValueOf(s: string, key: string): Option<string> {
    match Field(s, key)
    case None => None
    case Some(range) => Some(Slice(s, range.0, range.1))
  }

  function ValueOr<T>(a: Option<T>, b: T): T {
    if a.Some? then a.value else b
  }

  function ParseId(t: Option<string>): u64 {
    if t.Some? then ValueOr(Stoull(t.value), 0) else 0
  }

  function ParseLine(line: string): Message {
    var kind := ValueOf(line, "kind");
    Message(ParseId(ValueOf(line, "id")), if kind.Some? then Unquote(kind.value) else "",
            ValueOr(ValueOf(line, "body"), "{}"))
  }

  /** One message off the front of the text, and what is left; the empty message at the end of input. */
  function ReadFrom(text: string): (Message, string) {
    if text == "" then (Message(0, "", ""), "")
    else
      match Find(text, "\n", 0)
      case None => (ParseLine(text), "")
      case Some(i) => (ParseLine(text[..i]), text[i + 1..])
  }

  const ID := "{\"id\":"
  const KIND := ",\"kind\":\""
  const BODY := "\",\"body\":"

  function Line(digits: string, kind: string, body: string): string {
    ID + digits + KIND + kind + BODY + body + "}"
  }

  function Print(m: Message): string {
    Line(Digits(m.id), m.kind, if m.body == "" then "{}" else m.body) + "\n"
  }

  /** Text flowing one way between daemon and host. */
  class Pipe {
    var text: string

    constructor ()
      ensures text == ""
    {
      text := "";
    }

    method WriteMessage(m: Message)
      modifies this
      ensures text == old(text) + Print(m)
    {
      var line := ID + Digits(m.id) + KIND + m.kind + BODY;
      line := line + (if m.body == "" then "{}" else m.body) + "}";
      text := text + (line + "\n");
    }

    method GetLine() returns (line: Option<string>)
      modifies this
      ensures old(text) == "" ==> line == None && text == ""
      ensures old(text) != "" ==> line.Some? && (ParseLine(line.value), text) == ReadFrom(old(text))
    {
      if text == "" { return None; }
      var end := Find(text, "\n", 0);
      if end.None? {
        line, text := Some(text), "";
      } else {
        line, text := Some(text[..end.value]), text[end.value + 1..];
      }
    }

    method ReadMessage() returns (m: Message)
      modifies this
      ensures (m, text) == ReadFrom(old(text))
    {
      var line := GetLine();
      if line.None? { return Message(0, "", ""); }
      var s := line.value;
      var id: u64 := 0;
      var range := FindField(s, "id");
      if range.Some? {
        var n := Stoull(Slice(s, range.value.0, range.value.1));
        if n.Some? { id := n.value; }
      }
      var kind := "";
      range := FindField(s, "kind");
      if range.Some? { kind := Unquote(Slice(s, range.value.0, range.value.1)); }
      var body := "{}";
      range := FindField(s, "body");
      if range.Some? { body := Slice(s, range.value.0, range.value.1); }
      return Message(id, kind, body);
    }
  }

  // ----- when the scanner undoes the printer -----

  /** Every quote is escaped and no backslash dangles: the text between the quotes of a JSON string
      (section 7 of RFC 8259), escapes unchecked. */
  predicate Closed(k: string) {
    k == "" ||
    if k[0] == '\\' then |k| >= 2 && Closed(k[2..]) else k[0] != '\"' && Closed(k[1..])
  }

  function Weight(c: char): int {
    if c == '{' then 1 else if c == '}' then -1 else 0
  }

  /** Opening minus closing braces, quoted or not. */
  function Depth(s: string): int {
    if s == "" then 0 else Depth(s[..|s| - 1]) + Weight(s[|s| - 1])
  }

  /** An object whose brace depth first returns to zero at its last character. */
  predicate Balanced(b: string) {
    b != "" && b[0] == '{' && Depth(b) == 0 && forall i :: 0 < i < |b| ==> Depth(b[..i]) > 0
  }

  predicate Free(s: string, c: char) {
    forall i :: 0 <= i < |s| ==> s[i] != c
  }

  /** The bodies the value scanner delimits: a balanced object, one string, or a bare word. */
  predicate Delimited(b: string) {
    && b != ""
    && if b[0] == '{' then Balanced(b)
       else if b[0] == '\"' then |b| >= 2 && b[|b| - 1] == '\"' && Closed(b[1..|b| - 1])
       else !IsSpace(b[0]) && Free(b, ',') && Free(b, '}')
  }

  predicate Readable(m: Message) {
    Free(m.kind, '\n') && Free(m.body, '\n') && Closed(m.kind) && Delimited(m.body)
  }

  // ----- the parts of a printed line -----

  /** A printed line, part by part: the kind's key starts after the comma at `6 + |digits|`. */
  ghost predicate LineIs(s: string, d: string, k: string, b: string) {
    && |s| == 25 + |d| + |k| + |b|
    && Has(s, 0, ID) && Has(s, 6, d) && Has(s, 6 + |d|, KIND) && Has(s, 15 + |d|, k)
    && Has(s, 15 + |d| + |k|, BODY) && Has(s, 24 + |d| + |k|, b) && s[|s| - 1] == '}'
  }

  lemma Appended(s: string, t: string)
    ensures Has(s + t, |s|, t)
    ensures forall off: nat, piece {:trigger Has(s, off, piece)} :: Has(s, off, piece) ==> Has(s + t, off, piece)
  {
  }

  lemma LineShape(d: string, k: string, b: string)
    ensures LineIs(Line(d, k, b), d, k, b)
  {
    assert Has(ID, 0, ID);
    Appended(ID, d);
    Appended(ID + d, KIND);
    Appended(ID + d + KIND, k);
    Appended(ID + d + KIND + k, BODY);
    Appended(ID + d + KIND + k + BODY, b);
    Appended(ID + d + KIND + k + BODY + b, "}");
  }

  lemma HasSlice(s: string, off: nat, piece: string)
    requires Has(s, off, piece)
    ensures s[off..off + |piece|] == piece
  {
  }

  lemma FoundAt(s: string, piece: string, from: nat, at: nat)
    requires from <= at && Has(s, at, piece) && forall i: nat :: from <= i < at ==> !Has(s, i, piece)
    ensures Find(s, piece, from) == Some(at)
  {
  }

  lemma HasTail(s: string, off: nat, piece: string)
    requires Has(s, off, piece) && piece != ""
    ensures s[off] == piece[0] && Has(s, off + 1, piece[1..])
  {
    assert s[off + 0] == piece[0];
    forall i | 0 <= i < |piece[1..]| ensures s[off + 1 + i] == piece[1..][i] {
      assert s[off + (i + 1)] == piece[i + 1];
    }
  }

  lemma HasHead(s: string, off: nat, piece: string)
    requires Has(s, off, piece) && piece != ""
    ensures s[off] == piece[0]
  {
    assert s[off + 0] == piece[0];
  }

  lemma HasNot(s: string, off: nat, piece: string, i: nat)
    requires i < |piece| && (off + i < |s| ==> s[off + i] != piece[i])
    ensures !Has(s, off, piece)
  {
  }

  lemma {:induction false} BareEndAfter(s: string, v: nat, piece: string)
    requires Has(s, v, piece)
    requires v + |piece| < |s| && (s[v + |piece|] == ',' || s[v + |piece|] == '}')
    ensures BareEnd(s, v) == v + |piece| <==> Free(piece, ',') && Free(piece, '}')
    decreases |piece|
  {
    if piece == "" {
    } else {
      HasTail(s, v, piece);
      BareEndAfter(s, v + 1, piece[1..]);
      FreeTail(piece, ',');
      FreeTail(piece, '}');
    }
  }

  lemma FreeTail(s: string, c: char)
    requires s != ""
    ensures Free(s, c) <==> s[0] != c && Free(s[1..], c)
  {
    assert s == [s[0]] + s[1..];
  }

  /** The string scan stops at the quote after `k` exactly if `k` has no other end. */
  lemma {:induction false} StringEndAfter(s: string, v: nat, k: string)
    requires Has(s, v, k) && v + |k| < |s| && s[v + |k|] == '\"'
    ensures StringEnd(s, v) == v + |k| <==> Closed(k)
    decreases |k|
  {
    if k == "" {
    } else {
      HasTail(s, v, k);
      if k[0] == '\\' {
        if |k| >= 2 {
          HasTail(s, v + 1, k[1..]);
          assert k[1..][1..] == k[2..];
          StringEndAfter(s, v + 2, k[2..]);
        }
      } else if k[0] != '\"' {
        StringEndAfter(s, v + 1, k[1..]);
      }
    }
  }

  /** The brace scan from inside `b`, with `i` characters taken, stops at its end exactly if the depth
      first returns to zero there. */
  lemma {:induction false} BraceEndAfter(s: string, v: nat, b: string, i: nat)
    requires Has(s, v, b) && 0 < i <= |b| && |s| == v + |b| + 1 && s[v + |b|] == '}'
    requires Depth(b[..i]) >= 0
    ensures BraceEnd(s, v + i, Depth(b[..i])) == v + |b|
       <==> Depth(b) == 0 && forall j :: i <= j < |b| ==> Depth(b[..j]) > 0
    decreases |b| - i
  {
    if i == |b| {
      assert b[..i] == b;
    } else if Depth(b[..i]) > 0 {
      assert b[..i + 1][..i] == b[..i] && s[v + i] == b[i];
      BraceEndAfter(s, v, b, i + 1);
    }
  }

  lemma ObjectEnd(s: string, v: nat, b: string)
    requires Has(s, v, b) && |s| == v + |b| + 1 && s[v + |b|] == '}' && b != "" && b[0] == '{'
    ensures ValueEnd(s, v) == v + |b| <==> Balanced(b)
  {
    HasTail(s, v, b);
    assert b[..1][..0] == "" && Depth(b[..1]) == 1;
    BraceEndAfter(s, v, b, 1);
  }

  lemma QuotedEnd(s: string, v: nat, b: string)
    requires Has(s, v, b) && |s| == v + |b| + 1 && b != "" && b[0] == '\"'
    ensures ValueEnd(s, v) == v + |b|
       <==> |b| >= 2 && b[|b| - 1] == '\"' && Closed(b[1..|b| - 1])
  {
    HasTail(s, v, b);
    if |b| >= 2 {
      var inner := b[1..|b| - 1];
      assert s[v + (|b| - 1)] == b[|b| - 1];
      assert Has(s, v + 1, inner) by {
        forall i | 0 <= i < |inner| ensures s[v + 1 + i] == inner[i] { assert s[v + (i + 1)] == b[i + 1]; }
      }
      if b[|b| - 1] == '\"' { StringEndAfter(s, v + 1, inner); }
    }
  }

  /** The value scan over a body followed by the last brace of the line. */
  lemma BodyEnd(s: string, v: nat, b: string)
    requires Has(s, v, b) && |s| == v + |b| + 1 && s[v + |b|] == '}' && b != "" && !IsSpace(b[0])
    ensures ValueEnd(s, v) == v + |b| <==> Delimited(b)
  {
    assert s[v + 0] == b[0];
    if b[0] == '{' { ObjectEnd(s, v, b); }
    else if b[0] == '\"' { QuotedEnd(s, v, b); }
    else { BareEndAfter(s, v, b); }
  }

  // ----- each field of a printed line -----

  lemma FieldAt(s: string, key: string, pos: nat, colon: nat)
    requires Find(s, Quoted(key), 0) == Some(pos) && Find(s, ":", pos + |key| + 2) == Some(colon)
    ensures Field(s, key) == Some((SkipSpace(s, colon + 1), ValueEnd(s, SkipSpace(s, colon + 1))))
  {
  }

  lemma NineChars(s: string, off: nat, piece: string)
    requires Has(s, off, piece) && |piece| == 9
    ensures s[off] == piece[0] && s[off + 1] == piece[1] && s[off + 2] == piece[2] && s[off + 3] == piece[3]
    ensures s[off + 4] == piece[4] && s[off + 5] == piece[5] && s[off + 6] == piece[6]
    ensures s[off + 7] == piece[7] && s[off + 8] == piece[8]
  {
    assert s[off + 0] == piece[0];
  }

  lemma LineChars(s: string, d: string, k: string, b: string)
    requires LineIs(s, d, k, b)
    ensures s[0] == '{' && s[1] == '\"' && s[2] == 'i' && s[3] == 'd' && s[4] == '\"' && s[5] == ':'
    ensures var p := 7 + |d|;
            && s[p - 1] == ',' && s[p] == '\"' && s[p + 1] == 'k' && s[p + 2] == 'i' && s[p + 3] == 'n'
            && s[p + 4] == 'd' && s[p + 5] == '\"' && s[p + 6] == ':' && s[p + 7] == '\"'
    ensures var q := 15 + |d| + |k|;
            && s[q] == '\"' && s[q + 1] == ',' && s[q + 2] == '\"' && s[q + 3] == 'b' && s[q + 4] == 'o'
            && s[q + 5] == 'd' && s[q + 6] == 'y' && s[q + 7] == '\"' && s[q + 8] == ':'
  {
    assert s[0] == ID[0] && s[1] == ID[1] && s[2] == ID[2] && s[3] == ID[3] && s[4] == ID[4] && s[5] == ID[5];
    NineChars(s, 6 + |d|, KIND);
    NineChars(s, 15 + |d| + |k|, BODY);
  }

  predicate AllDigits(d: string) {
    d != "" && forall i :: 0 <= i < |d| ==> IsDigit(d[i])
  }

  lemma IdField(s: string, d: string, k: string, b: string)
    requires LineIs(s, d, k, b) && AllDigits(d)
    ensures ValueOf(s, "id") == Some(d)
  {
    LineChars(s, d, k, b);
    assert Quoted("id") == "\"id\"";
    HasNot(s, 0, "\"id\"", 0);
    FoundAt(s, "\"id\"", 0, 1);
    FoundAt(s, ":", 5, 5);
    FieldAt(s, "id", 1, 5);
    assert IsDigit(d[0]) && s[6] == s[6 + 0] == d[0];
    BareEndAfter(s, 6, d);
    HasSlice(s, 6, d);
  }

  lemma NoEarlyKind(s: string, d: string, k: string, b: string, j: nat)
    requires LineIs(s, d, k, b) && AllDigits(d) && j < 7 + |d|
    ensures !Has(s, j, "\"kind\"")
  {
    LineChars(s, d, k, b);
    if 6 <= j < 6 + |d| { assert s[6 + (j - 6)] == d[j - 6] && IsDigit(d[j - 6]); }
    HasNot(s, j, "\"kind\"", if j == 1 || j == 4 then 1 else 0);
  }

  lemma KindFound(s: string, d: string, k: string, b: string)
    requires LineIs(s, d, k, b) && AllDigits(d)
    ensures Find(s, Quoted("kind"), 0) == Some(7 + |d|) && Find(s, ":", 13 + |d|) == Some(13 + |d|)
  {
    LineChars(s, d, k, b);
    assert Quoted("kind") == "\"kind\"";
    forall j: nat | j < 7 + |d| ensures !Has(s, j, "\"kind\"") { NoEarlyKind(s, d, k, b, j); }
    FoundAt(s, "\"kind\"", 0, 7 + |d|);
    FoundAt(s, ":", 13 + |d|, 13 + |d|);
  }

  lemma QuoteStarts(s: string, v: nat)
    requires v < |s| && s[v] == '\"'
    ensures SkipSpace(s, v) == v && ValueEnd(s, v) == StringEnd(s, v + 1) + 1
  {
  }

  lemma KindField(s: string, d: string, k: string, b: string)
    requires LineIs(s, d, k, b) && AllDigits(d)
    ensures Field(s, "kind") == Some((14 + |d|, StringEnd(s, 15 + |d|) + 1))
  {
    KindFound(s, d, k, b);
    LineChars(s, d, k, b);
    QuoteStarts(s, 14 + |d|);
    FieldAt(s, "kind", 7 + |d|, 13 + |d|);
  }

  /** A key inside the kind could only end at its closing quote. */
  lemma {:induction false} ClosedQuote(k: string, i: nat)
    requires Closed(k) && i < |k| && k[i] == '\"'
    ensures i > 0 && k[i - 1] != 'y'
    decreases |k|
  {
    if k[0] == '\\' {
      if i > 1 { ClosedQuote(k[2..], i - 2); }
    } else {
      ClosedQuote(k[1..], i - 1);
    }
  }

  const BODY_KEY := "\"body\""

  /** The body's key is found at its place or, if the kind ends in that word, at the kind's closing quote. */
  lemma NoEarlyBody(s: string, d: string, k: string, b: string, j: nat)
    requires LineIs(s, d, k, b) && AllDigits(d) && Closed(k)
    requires j < 17 + |d| + |k| && j + 5 != 15 + |d| + |k|
    ensures !Has(s, j, BODY_KEY)
  {
    LineChars(s, d, k, b);
    var q := 15 + |d| + |k|;
    if j + 5 < 15 + |d| {
      if 6 <= j < 6 + |d| { assert s[6 + (j - 6)] == d[j - 6] && IsDigit(d[j - 6]); }
      HasNot(s, j, BODY_KEY, if j == 1 || j == 4 || j == 7 + |d| then 1 else 0);
    } else if j + 5 < q {
      var i := j + 5 - (15 + |d|);
      assert s[15 + |d| + i] == k[i];
      if k[i] == '\"' {
        ClosedQuote(k, i);
        assert s[15 + |d| + (i - 1)] == k[i - 1];
        HasNot(s, j, BODY_KEY, 4);
      } else {
        HasNot(s, j, BODY_KEY, 5);
      }
    } else {
      HasNot(s, j, BODY_KEY, if j == q + 1 then 0 else if j == q then 1 else q - j);
    }
  }

  lemma BodyKeyFound(s: string, d: string, k: string, b: string)
    requires LineIs(s, d, k, b) && AllDigits(d) && Closed(k)
    ensures var r, q := Find(s, BODY_KEY, 0), 15 + |d| + |k|;
            r.Some? && (r.value == q + 2 || r.value == q - 5)
  {
    var q := 15 + |d| + |k|;
    LineChars(s, d, k, b);
    assert Has(s, q + 2, BODY_KEY);
    var r := Find(s, BODY_KEY, 0);
    if r.value < q + 2 && r.value + 5 != q { NoEarlyBody(s, d, k, b, r.value); }
  }

  lemma ColonIs(s: string, from: nat, at: nat)
    requires from <= at < |s| && s[at] == ':' && forall i :: from <= i < at ==> s[i] != ':'
    ensures Find(s, ":", from) == Some(at)
  {
    forall i: nat | from <= i < at ensures !Has(s, i, ":") { HasNot(s, i, ":", 0); }
    FoundAt(s, ":", from, at);
  }

  lemma BodyColon(s: string, d: string, k: string, b: string, at: nat)
    requires LineIs(s, d, k, b) && (at == 17 + |d| + |k| || at + 5 == 15 + |d| + |k|)
    ensures Find(s, ":", at + 6) == Some(23 + |d| + |k|)
  {
    LineChars(s, d, k, b);
    ColonIs(s, at + 6, 23 + |d| + |k|);
  }

  lemma BodyFound(s: string, d: string, k: string, b: string) returns (pos: nat)
    requires LineIs(s, d, k, b) && AllDigits(d) && Closed(k)
    ensures Find(s, Quoted("body"), 0) == Some(pos) && Find(s, ":", pos + 6) == Some(23 + |d| + |k|)
  {
    BodyKeyFound(s, d, k, b);
    pos := Find(s, BODY_KEY, 0).value;
    BodyColon(s, d, k, b, pos);
    assert Quoted("body") == BODY_KEY;
  }

  lemma UnquoteSlice(s: string, start: nat, end: nat)
    requires start < end < |s| && s[start] == '\"' && s[end] == '\"'
    ensures Unquote(s[start..end + 1]) == s[start + 1..end]
  {
    var text := s[start..end + 1];
    var inner, want := text[1..end - start], s[start + 1..end];
    forall i | 0 <= i < |want| ensures inner[i] == want[i] {
      assert inner[i] == text[i + 1] == s[start + 1 + i];
    }
    assert inner == want;
  }

  lemma UnquotedIs(s: string, start: nat, k: string, e: nat)
    requires Has(s, start + 1, k) && start + 1 + |k| < |s| && s[start] == '\"' && s[|s| - 1] == '}'
    requires e > start && (e < |s| ==> s[e] == '\"')
    ensures Unquote(Slice(s, start, e + 1)) == k <==> e == start + 1 + |k|
  {
    var text := Slice(s, start, e + 1);
    if e < |s| {
      UnquoteSlice(s, start, e);
      HasSlice(s, start + 1, k);
    } else {
      assert text[|text| - 1] == '}' && |Unquote(text)| > |k|;
    }
  }

  lemma KindScan(s: string, d: string, k: string, b: string)
    requires LineIs(s, d, k, b)
    ensures s[14 + |d|] == '\"' && (StringEnd(s, 15 + |d|) == 15 + |d| + |k| <==> Closed(k))
  {
    LineChars(s, d, k, b);
    StringEndAfter(s, 15 + |d|, k);
  }

  lemma ValueAt(s: string, key: string, start: nat, end: nat)
    requires start <= end && start <= |s| && Field(s, key) == Some((start, end))
    ensures ValueOf(s, key) == Some(Slice(s, start, end))
  {
  }

  lemma SpanIsKind(s: string, start: nat, k: string, e: nat)
    requires Field(s, "kind") == Some((start, e + 1))
    requires Has(s, start + 1, k) && start + 1 + |k| < |s| && s[start] == '\"' && s[|s| - 1] == '}'
    requires e > start && (e < |s| ==> s[e] == '\"')
    ensures ValueOf(s, "kind").Some? && (Unquote(ValueOf(s, "kind").value) == k <==> e == start + 1 + |k|)
  {
    ValueAt(s, "kind", start, e + 1);
    UnquotedIs(s, start, k, e);
  }

  /** The kind is read back exactly if it has no unescaped quote and no dangling backslash. */
  lemma KindBack(s: string, d: string, k: string, b: string)
    requires LineIs(s, d, k, b) && AllDigits(d)
    ensures ValueOf(s, "kind").Some?
    ensures Unquote(ValueOf(s, "kind").value) == k <==> Closed(k)
  {
    KindScan(s, d, k, b);
    KindField(s, d, k, b);
    SpanIsKind(s, 14 + |d|, k, StringEnd(s, 15 + |d|));
  }

  lemma ValueFound(s: string, key: string, pos: nat, colon: nat)
    requires Find(s, Quoted(key), 0) == Some(pos) && Find(s, ":", pos + |key| + 2) == Some(colon)
    ensures var v := SkipSpace(s, colon + 1);
            v <= |s| && ValueOf(s, key) == Some(Slice(s, v, ValueEnd(s, v)))
  {
    SpaceInside(s, colon + 1);
    FieldAt(s, key, pos, colon);
  }

  lemma SpanBack(s: string, at: nat, b: string)
    requires Has(s, at, b) && |s| == at + |b| + 1 && s[at + |b|] == '}' && b != ""
    ensures var v := SkipSpace(s, at);
            v <= |s| && (Slice(s, v, ValueEnd(s, v)) == b <==> Delimited(b))
  {
    var v := SkipSpace(s, at);
    SpaceInside(s, at);
    HasSlice(s, at, b);
    assert s[at] == s[at + 0] == b[0];
    if IsSpace(b[0]) {
      var text := Slice(s, v, ValueEnd(s, v));
      if text != "" { assert text[0] == s[v]; }
    } else {
      BodyEnd(s, at, b);
    }
  }

  lemma LastBack(s: string, pos: nat, at: nat, b: string)
    requires Find(s, Quoted("body"), 0) == Some(pos) && at > 0 && Find(s, ":", pos + 6) == Some(at - 1)
    requires Has(s, at, b) && |s| == at + |b| + 1 && s[at + |b|] == '}' && b != ""
    ensures ValueOf(s, "body") == Some(b) <==> Delimited(b)
  {
    ValueFound(s, "body", pos, at - 1);
    SpanBack(s, at, b);
  }

  /** The body is read back exactly if the value scanner can tell where it ends. */
  lemma BodyBack(s: string, d: string, k: string, b: string)
    requires LineIs(s, d, k, b) && AllDigits(d) && Closed(k) && b != ""
    ensures ValueOf(s, "body") == Some(b) <==> Delimited(b)
  {
    var pos := BodyFound(s, d, k, b);
    LastBack(s, pos, 24 + |d| + |k|, b);
  }

  lemma IdBack(s: string, id: u64, k: string, b: string)
    requires LineIs(s, Digits(id), k, b)
    ensures ParseId(ValueOf(s, "id")) == id
  {
    IdField(s, Digits(id), k, b);
    StoullOfDigits(id);
  }

  lemma EmptyObject()
    ensures Delimited("{}")
  {
    assert "{}"[..1] == "{" && "{"[..0] == "";
    assert Depth("{") == 1 && Depth("{}") == 0;
    assert forall i :: 0 < i < 2 ==> "{}"[..i] == "{";
  }

  lemma LineBack(m: Message)
    ensures var b := if m.body == "" then "{}" else m.body;
            ParseLine(Line(Digits(m.id), m.kind, b)) == m <==> Closed(m.kind) && Delimited(m.body)
  {
    var d, b := Digits(m.id), if m.body == "" then "{}" else m.body;
    var s := Line(d, m.kind, b);
    LineShape(d, m.kind, b);
    IdBack(s, m.id, m.kind, b);
    KindBack(s, d, m.kind, b);
    if Closed(m.kind) {
      BodyBack(s, d, m.kind, b);
      EmptyObject();
    }
  }

  // ----- whole messages and whole streams -----

  lemma DigitsAreDigits(n: nat)
    ensures AllDigits(Digits(n)) && Free(Digits(n), '\n')
  {
  }

  lemma FreeParts(k: string, b: string, d: string)
    requires Free(d, '\n')
    ensures Free(Line(d, k, b), '\n') <==> Free(k, '\n') && Free(b, '\n')
  {
    var s := Line(d, k, b);
    LineShape(d, k, b);
    if Free(s, '\n') {
      forall i | 0 <= i < |k| ensures k[i] != '\n' { assert s[15 + |d| + i] == k[i]; }
      forall i | 0 <= i < |b| ensures b[i] != '\n' { assert s[24 + |d| + |k| + i] == b[i]; }
    }
  }

  lemma SliceFree(s: string, start: nat, end: nat, c: char)
    requires Free(s, c) && start <= |s| && start <= end
    ensures Free(Slice(s, start, end), c)
  {
  }

  lemma ValueFree(s: string, key: string, c: char)
    requires Free(s, c)
    ensures ValueOf(s, key).Some? ==> Free(ValueOf(s, key).value, c)
  {
    var r := Field(s, key);
    if r.Some? { SliceFree(s, r.value.0, r.value.1, c); }
  }

  /** What is read from one line holds no line break. */
  lemma ParseFree(line: string)
    requires Free(line, '\n')
    ensures Free(ParseLine(line).kind, '\n') && Free(ParseLine(line).body, '\n')
  {
    ValueFree(line, "kind", '\n');
    ValueFree(line, "body", '\n');
  }

  lemma BreakAt(text: string, at: nat)
    requires at < |text| && text[at] == '\n' && Free(text[..at], '\n')
    ensures Find(text, "\n", 0) == Some(at)
  {
    forall i: nat | i < at ensures !Has(text, i, "\n") { assert text[..at][i] == text[i]; HasNot(text, i, "\n", 0); }
    FoundAt(text, "\n", 0, at);
  }

  lemma BreakBefore(text: string, at: nat)
    requires at <= |text| && !Free(text[..at], '\n')
    ensures var r := Find(text, "\n", 0); r.Some? && r.value < at && Free(text[..r.value], '\n')
  {
    var i :| 0 <= i < at && text[..at][i] == '\n';
    assert Has(text, i, "\n");
    var r := Find(text, "\n", 0).value;
    forall j: nat | j < r ensures text[j] != '\n' { assert Has(text, j, "\n") <==> text[j] == '\n'; }
  }

  /** A message without line breaks is read off the stream as one line. */
  lemma ReadsLine(m: Message, rest: string)
    requires Free(m.kind, '\n') && Free(m.body, '\n')
    ensures ReadFrom(Print(m) + rest)
         == (ParseLine(Line(Digits(m.id), m.kind, if m.body == "" then "{}" else m.body)), rest)
  {
    var d, b := Digits(m.id), if m.body == "" then "{}" else m.body;
    var line := Line(d, m.kind, b);
    var text := Print(m) + rest;
    assert text[..|line|] == line && text[|line|] == '\n' && text[|line| + 1..] == rest;
    DigitsAreDigits(m.id);
    FreeParts(m.kind, b, d);
    BreakAt(text, |line|);
  }

  lemma BrokenLine(m: Message, rest: string)
    requires !Free(m.kind, '\n') || !Free(m.body, '\n')
    ensures ReadFrom(Print(m) + rest).0 != m
  {
    var d, b := Digits(m.id), if m.body == "" then "{}" else m.body;
    var line := Line(d, m.kind, b);
    var text := Print(m) + rest;
    assert text[..|line|] == line;
    DigitsAreDigits(m.id);
    FreeParts(m.kind, b, d);
    BreakBefore(text, |line|);
    ParseFree(text[..Find(text, "\n", 0).value]);
  }

  /** For every message and whatever follows it in the stream: reading undoes writing exactly if the
      message is readable. */
  lemma ReadBack(m: Message, rest: string)
    ensures ReadFrom(Print(m) + rest) == (m, rest) <==> Readable(m)
  {
    if Free(m.kind, '\n') && Free(m.body, '\n') {
      ReadsLine(m, rest);
      LineBack(m);
    } else {
      BrokenLine(m, rest);
    }
  }

  function PrintAll(ms: seq<Message>): string {
    if ms == [] then "" else Print(ms[0]) + PrintAll(ms[1..])
  }

  /** The messages of `n` reads, and what is left. */
  function ReadAll(text: string, n: nat): (seq<Message>, string)
    decreases n
  {
    if n == 0 then ([], text)
    else
      var (m, rest) := ReadFrom(text);
      var (ms, last) := ReadAll(rest, n - 1);
      ([m] + ms, last)
  }

  lemma ReadAllCons(text: string, m: Message, rest: string, n: nat)
    requires ReadFrom(text) == (m, rest)
    ensures ReadAll(text, n + 1) == ([m] + ReadAll(rest, n).0, ReadAll(rest, n).1)
  {
  }

  /** A stream of readable messages is read back one for one, in order; then the reader sees the end. */
  lemma {:induction false} StreamBack(ms: seq<Message>)
    requires forall i :: 0 <= i < |ms| ==> Readable(ms[i])
    ensures ReadAll(PrintAll(ms), |ms|) == (ms, "")
    ensures ReadFrom("") == (Message(0, "", ""), "")
    decreases |ms|
  {
    if ms == [] {
    } else {
      assert Readable(ms[0]);
      ReadBack(ms[0], PrintAll(ms[1..]));
      StreamBack(ms[1..]);
      ReadAllCons(PrintAll(ms), ms[0], PrintAll(ms[1..]), |ms| - 1);
      assert ms == [ms[0]] + ms[1..];
    }
  }

  /** A closing brace inside a string already ends the body: a plugin path with one is cut short. */
  lemma BraceInStringCuts(m: Message)
    requires m.body == "{\"bundle\":\"}\"}"
    ensures !Readable(m)
  {
    var b := m.body;
    assert b[..12][..11] == b[..11] && b[11] == '}';
    DepthOfOpen(b[..11]);
  }

  lemma {:induction false} DepthOfOpen(s: string)
    requires s != "" && s[0] == '{' && forall i :: 0 < i < |s| ==> s[i] != '{' && s[i] != '}'
    ensures Depth(s) == 1
  {
    if |s| > 1 { DepthOfOpen(s[..|s| - 1]); } else { assert s[..0] == "" && Depth("") == 0; }
  }

  // ----- strings inside a body -----

  function HexDigit(n: nat): char
    requires n < 16
  {
    if n < 10 then DigitOf(n) else ('a' as int + n - 10) as char
  }

  /** One character as `json_escape` prints it; other control characters as four hex digits. */
  function EscapeChar(c: char): string {
    if c == '\"' then "\\\""
    else if c == '\\' then "\\\\"
    else if c == '\n' then "\\n"
    else if c == '\r' then "\\r"
    else if c == '\t' then "\\t"
    else if c < ' ' then ['\\', 'u', '0', '0', HexDigit(c as int / 16), HexDigit(c as int % 16)]
    else [c]
  }

  function Escape(s: string): string {
    if s == "" then "" else EscapeChar(s[0]) + Escape(s[1..])
  }

  method JsonEscape(s: string) returns (out: string)
    ensures out == Escape(s)
  {
    out := "";
    for i := 0 to |s|
      invariant out + Escape(s[i..]) == Escape(s)
    {
      AppendAssoc(out, EscapeChar(s[i]), Escape(s[i + 1..]));
      assert s[i..][1..] == s[i + 1..];
      out := out + EscapeChar(s[i]);
    }
  }

  /** Up to the next unescaped quote, dropping each backslash before another character. */
  function Unescape(s: string, p: nat): string
    decreases |s| - p
  {
    if p >= |s| || s[p] == '\"' then ""
    else if s[p] == '\\' && p + 1 < |s| then [s[p + 1]] + Unescape(s, p + 2)
    else [s[p]] + Unescape(s, p + 1)
  }

  function StringKey(key: string): string {
    "\"" + key + "\":\""
  }

  function StringField(body: string, key: string, def: string): string {
    var r := Find(body, StringKey(key), 0);
    if r.None? then def else Unescape(body, r.value + |StringKey(key)|)
  }

  method ReadString(body: string, key: string, def: string) returns (out: string)
    ensures out == StringField(body, key, def)
  {
    var k := "\"" + key + "\":\"";
    var at := Find(body, k, 0);
    if at.None? { return def; }
    out := ReadEscaped(body, at.value + |k|);
  }

  method ReadEscaped(body: string, start: nat) returns (out: string)
    ensures out == Unescape(body, start)
  {
    var p := start;
    out := "";
    while p < |body| && body[p] != '\"'
      invariant out + Unescape(body, p) == Unescape(body, start)
    {
      if body[p] == '\\' && p + 1 < |body| {
        AppendAssoc(out, [body[p + 1]], Unescape(body, p + 2));
        out, p := out + [body[p + 1]], p + 2;
      } else {
        AppendAssoc(out, [body[p]], Unescape(body, p + 1));
        out, p := out + [body[p]], p + 1;
      }
    }
  }

  /** What the field reader makes of an escaped character: the escape loses its backslash and nothing else. */
  function Seen(c: char): string {
    if c == '\"' || c == '\\' || c >= ' ' then [c] else EscapeChar(c)[1..]
  }

  function SeenAll(s: string): string {
    if s == "" then "" else Seen(s[0]) + SeenAll(s[1..])
  }

  lemma HasJoin(s: string, p: nat, a: string, b: string)
    requires Has(s, p, a + b)
    ensures Has(s, p, a) && Has(s, p + |a|, b)
  {
    forall i | 0 <= i < |a| ensures s[p + i] == a[i] { assert s[p + i] == (a + b)[i]; }
    forall i | 0 <= i < |b| ensures s[p + |a| + i] == b[i] { assert s[p + (|a| + i)] == (a + b)[|a| + i]; }
  }

  lemma {:induction false} UnescapePlain(s: string, p: nat, t: string)
    requires Has(s, p, t) && Free(t, '\"') && Free(t, '\\')
    ensures Unescape(s, p) == t + Unescape(s, p + |t|)
    decreases |t|
  {
    if t != "" {
      HasTail(s, p, t);
      FreeTail(t, '\"');
      FreeTail(t, '\\');
      UnescapePlain(s, p + 1, t[1..]);
      AppendAssoc([t[0]], t[1..], Unescape(s, p + |t|));
      assert t == [t[0]] + t[1..];
    } else {
      assert "" + Unescape(s, p) == Unescape(s, p);
    }
  }

  predicate NeedsEscape(c: char) {
    c == '\"' || c == '\\' || c < ' '
  }

  lemma HexIsPlain(n: nat)
    requires n < 16
    ensures HexDigit(n) != '\"' && HexDigit(n) != '\\'
  {
  }

  lemma EscapeShape(c: char)
    ensures NeedsEscape(c) ==> EscapeChar(c) == "\\" + Seen(c) && Seen(c) != ""
    ensures NeedsEscape(c) ==> Free(Seen(c)[1..], '\"') && Free(Seen(c)[1..], '\\')
    ensures !NeedsEscape(c) ==> EscapeChar(c) == Seen(c) == [c]
  {
    if c < ' ' {
      HexIsPlain(c as int / 16);
      HexIsPlain(c as int % 16);
    }
  }

  lemma UnescapeStep(s: string, p: nat)
    requires p + 1 < |s| && s[p] == '\\'
    ensures Unescape(s, p) == [s[p + 1]] + Unescape(s, p + 2)
  {
  }

  lemma UnescapePair(s: string, p: nat, t: string)
    requires Has(s, p, "\\" + t) && t != "" && Free(t[1..], '\"') && Free(t[1..], '\\')
    ensures Unescape(s, p) == t + Unescape(s, p + 1 + |t|)
  {
    HasJoin(s, p, "\\", t);
    HasTail(s, p, "\\");
    HasTail(s, p + 1, t);
    UnescapeStep(s, p);
    UnescapePlain(s, p + 2, t[1..]);
    AppendAssoc([t[0]], t[1..], Unescape(s, p + 1 + |t|));
    assert t == [t[0]] + t[1..];
  }

  lemma UnescapeChar(s: string, p: nat, c: char)
    requires Has(s, p, EscapeChar(c))
    ensures Unescape(s, p) == Seen(c) + Unescape(s, p + |EscapeChar(c)|)
  {
    EscapeShape(c);
    if NeedsEscape(c) {
      UnescapePair(s, p, Seen(c));
    } else {
      UnescapePlain(s, p, [c]);
    }
  }

  lemma UnescapeEnd(s: string, p: nat)
    requires p < |s| ==> s[p] == '\"'
    ensures Unescape(s, p) == ""
  {
  }

  lemma EscapeCons(c: char, t: string)
    ensures Escape([c] + t) == EscapeChar(c) + Escape(t)
  {
    assert ([c] + t)[1..] == t;
  }

  /** The first character of an escaped string and the rest. */
  lemma EscapedSplit(s: string, p: nat, v: string)
    requires v != "" && Has(s, p, Escape(v))
    ensures Has(s, p, EscapeChar(v[0])) && Has(s, p + |EscapeChar(v[0])|, Escape(v[1..]))
    ensures |Escape(v)| == |EscapeChar(v[0])| + |Escape(v[1..])|
  {
    HasJoin(s, p, EscapeChar(v[0]), Escape(v[1..]));
  }

  lemma UnescapeHead(s: string, p: nat, v: string)
    requires v != "" && Has(s, p, Escape(v))
    ensures Unescape(s, p) == Seen(v[0]) + Unescape(s, p + |EscapeChar(v[0])|)
    ensures Has(s, p + |EscapeChar(v[0])|, Escape(v[1..]))
    ensures |Escape(v)| == |EscapeChar(v[0])| + |Escape(v[1..])|
  {
    EscapedSplit(s, p, v);
    UnescapeChar(s, p, v[0]);
  }

  lemma SeenCons(v: string, t: string)
    requires v != ""
    ensures SeenAll(v) + t == Seen(v[0]) + (SeenAll(v[1..]) + t)
  {
    AppendAssoc(Seen(v[0]), SeenAll(v[1..]), t);
  }

  /** Reading an escaped string in front of what reads as `t`. */
  lemma {:induction false} UnescapeBefore(s: string, p: nat, v: string, t: string)
    requires Has(s, p, Escape(v)) && Unescape(s, p + |Escape(v)|) == t
    ensures Unescape(s, p) == SeenAll(v) + t
    decreases |v|
  {
    if v == "" {
      assert "" + t == t;
    } else {
      UnescapeHead(s, p, v);
      UnescapeBefore(s, p + |EscapeChar(v[0])|, v[1..], t);
      SeenCons(v, t);
    }
  }

  /** Reading an escaped string that is followed by a quote or ends the text. */
  lemma UnescapeEscaped(s: string, p: nat, v: string)
    requires Has(s, p, Escape(v)) && (p + |Escape(v)| < |s| ==> s[p + |Escape(v)|] == '\"')
    ensures Unescape(s, p) == SeenAll(v)
  {
    UnescapeEnd(s, p + |Escape(v)|);
    UnescapeBefore(s, p, v, "");
    assert SeenAll(v) + "" == SeenAll(v);
  }

  /** A backslash with nothing after it is kept. */
  lemma TrailingBackslash(s: string, p: nat, v: string)
    requires Has(s, p, Escape(v)) && |s| == p + |Escape(v)| + 1 && s[|s| - 1] == '\\'
    ensures Unescape(s, p) == SeenAll(v) + "\\"
  {
    UnescapeEnd(s, |s|);
    assert Unescape(s, |s| - 1) == ['\\'] + Unescape(s, |s|) == "\\";
    UnescapeBefore(s, p, v, "\\");
  }

  predicate NoControls(s: string) {
    forall i :: 0 <= i < |s| ==> s[i] >= ' '
  }

  lemma SeenHead(c: char)
    ensures Seen(c) != "" && (c >= ' ' ==> Seen(c) == [c]) && (c < ' ' ==> Seen(c)[0] != c)
  {
  }

  /** What is read of the front part `u` of a string is the string exactly if it is all of it and has no
      control character. */
  lemma {:induction false} SeenOfPrefix(u: string, v: string)
    requires u <= v
    ensures SeenAll(u) == v <==> u == v && NoControls(v)
    decreases |u|
  {
    if u == "" {
    } else {
      SeenHead(u[0]);
      assert u == [u[0]] + u[1..] && v == [v[0]] + v[1..];
      SeenOfPrefix(u[1..], v[1..]);
      if u[0] >= ' ' {
        assert SeenAll(u)[1..] == SeenAll(u[1..]);
      } else {
        assert SeenAll(u)[0] == Seen(u[0])[0];
      }
    }
  }

  lemma SeenSame(v: string)
    ensures SeenAll(v) == v <==> NoControls(v)
  {
    SeenOfPrefix(v, v);
  }

  lemma StringAt(body: string, at: nat, key: string, def: string)
    requires Has(body, at, StringKey(key)) && forall i: nat :: i < at ==> !Has(body, i, StringKey(key))
    ensures StringField(body, key, def) == Unescape(body, at + |StringKey(key)|)
  {
    FoundAt(body, StringKey(key), 0, at);
  }

  lemma EscapedAt(s: string, p: nat, v: string)
    requires Has(s, p, Escape(v) + "\"")
    ensures Unescape(s, p) == SeenAll(v)
  {
    HasJoin(s, p, Escape(v), "\"");
    assert s[p + |Escape(v)| + 0] == "\""[0];
    UnescapeEscaped(s, p, v);
  }

  /** Where a key first occurs with an escaped string as its value, the reader returns that string exactly if
      it has no control character. */
  lemma StringBack(body: string, at: nat, key: string, v: string, def: string)
    requires Has(body, at, StringKey(key)) && forall i: nat :: i < at ==> !Has(body, i, StringKey(key))
    requires Has(body, at + |StringKey(key)|, Escape(v) + "\"")
    ensures StringField(body, key, def) == v <==> NoControls(v)
  {
    StringAt(body, at, key, def);
    EscapedAt(body, at + |StringKey(key)|, v);
    SeenSame(v);
  }

  // ----- a string field of a message that went through the pipe -----

  const BUNDLE := "{\"bundle\":\""

  /** The part of `t` that the brace scan takes, starting at the given depth. */
  function Scanned(t: string, depth: int): string {
    if t == "" || depth <= 0 then "" else [t[0]] + Scanned(t[1..], depth + Weight(t[0]))
  }

  /** No proper prefix brings the depth to zero. */
  predicate StaysOpen(t: string, depth: int) {
    forall i :: 0 <= i < |t| ==> depth + Depth(t[..i]) > 0
  }

  lemma {:induction false} DepthHead(t: string)
    requires t != ""
    ensures Depth(t) == Weight(t[0]) + Depth(t[1..])
  {
    if |t| == 1 {
      assert t[..0] == "" && t[1..] == "";
    } else {
      var n := |t| - 1;
      DepthHead(t[..n]);
      assert t[..n][1..] == t[1..][..n - 1];
    }
  }

  lemma StaysOpenTail(t: string, depth: int)
    requires t != ""
    ensures StaysOpen(t, depth) <==> depth > 0 && StaysOpen(t[1..], depth + Weight(t[0]))
  {
    assert t[..0] == "" && Depth("") == 0;
    forall i | 0 <= i < |t| - 1 ensures Depth(t[..i + 1]) == Weight(t[0]) + Depth(t[1..][..i]) {
      DepthHead(t[..i + 1]);
      assert t[..i + 1][1..] == t[1..][..i];
    }
    if StaysOpen(t, depth) {
      assert depth + Depth(t[..0]) > 0;
      forall i | 0 <= i < |t| - 1 ensures depth + Weight(t[0]) + Depth(t[1..][..i]) > 0 {
        assert depth + Depth(t[..i + 1]) > 0;
      }
    }
    if depth > 0 && StaysOpen(t[1..], depth + Weight(t[0])) {
      forall i | 0 <= i < |t| ensures depth + Depth(t[..i]) > 0 {
        if i > 0 { assert depth + Weight(t[0]) + Depth(t[1..][..i - 1]) > 0; }
      }
    }
  }

  lemma {:induction false} ScannedAll(t: string, depth: int)
    ensures Scanned(t, depth) <= t && (Scanned(t, depth) == t <==> StaysOpen(t, depth))
    decreases |t|
  {
    if t == "" {
    } else {
      StaysOpenTail(t, depth);
      ScannedAll(t[1..], depth + Weight(t[0]));
      assert t == [t[0]] + t[1..];
    }
  }

  predicate NoBraces(t: string) {
    Free(t, '{') && Free(t, '}')
  }

  lemma {:induction false} BraceEndPlain(s: string, p: nat, t: string, depth: nat)
    requires Has(s, p, t) && NoBraces(t) && depth > 0
    ensures BraceEnd(s, p, depth) == BraceEnd(s, p + |t|, depth)
    decreases |t|
  {
    if t == "" {
    } else {
      HasTail(s, p, t);
      FreeTail(t, '{');
      FreeTail(t, '}');
      BraceEndPlain(s, p + 1, t[1..], depth);
    }
  }

  lemma EscapeHasNoBraces(c: char)
    requires Weight(c) == 0
    ensures NoBraces(EscapeChar(c))
  {
    if c < ' ' {
      assert HexDigit(c as int / 16) != '{' && HexDigit(c as int / 16) != '}';
      assert HexDigit(c as int % 16) != '{' && HexDigit(c as int % 16) != '}';
    }
  }

  lemma BraceEndChar(s: string, p: nat, c: char, depth: nat)
    requires Has(s, p, EscapeChar(c)) && depth > 0
    ensures BraceEnd(s, p, depth) == BraceEnd(s, p + |EscapeChar(c)|, depth + Weight(c))
  {
    if Weight(c) == 0 {
      EscapeHasNoBraces(c);
      BraceEndPlain(s, p, EscapeChar(c), depth);
    } else {
      assert EscapeChar(c) == [c];
      HasTail(s, p, [c]);
    }
  }

  lemma EscapeLength(t: string)
    requires t != ""
    ensures |Escape(t)| == |EscapeChar(t[0])| + |Escape(t[1..])|
  {
  }

  /** Where the brace scan over an escaped string gets to, and the depth there. */
  function ScanStop(p: nat, t: string, depth: nat): (nat, nat)
    decreases |t|
  {
    if t == "" || depth == 0 then (p, depth)
    else ScanStop(p + |EscapeChar(t[0])|, t[1..], depth + Weight(t[0]))
  }

  lemma {:induction false} ScanStopIs(p: nat, t: string, depth: nat)
    ensures var (at, left) := ScanStop(p, t, depth);
            at == p + |Escape(Scanned(t, depth))| && (Scanned(t, depth) != t ==> left == 0)
    decreases |t|
  {
    if t == "" {
    } else if depth == 0 {
    } else {
      var u := Scanned(t[1..], depth + Weight(t[0]));
      ScanStopIs(p + |EscapeChar(t[0])|, t[1..], depth + Weight(t[0]));
      assert ([t[0]] + u)[1..] == u;
      EscapeLength([t[0]] + u);
      assert t == [t[0]] + t[1..];
    }
  }

  lemma BraceEndHead(s: string, p: nat, t: string, depth: nat)
    requires t != "" && Has(s, p, Escape(t)) && depth > 0
    ensures BraceEnd(s, p, depth) == BraceEnd(s, p + |EscapeChar(t[0])|, depth + Weight(t[0]))
    ensures Has(s, p + |EscapeChar(t[0])|, Escape(t[1..]))
  {
    EscapedSplit(s, p, t);
    BraceEndChar(s, p, t[0], depth);
  }

  lemma BraceEndZero(s: string, p: nat)
    ensures BraceEnd(s, p, 0) == p
  {
  }

  /** Over an escaped string the brace scan stops where the depth of the string itself reaches zero. */
  lemma {:induction false} BraceEndEscaped(s: string, p: nat, t: string, depth: nat)
    requires Has(s, p, Escape(t))
    ensures var (at, left) := ScanStop(p, t, depth); BraceEnd(s, p, depth) == BraceEnd(s, at, left)
    decreases |t|
  {
    if t == "" {
    } else if depth == 0 {
    } else {
      BraceEndHead(s, p, t, depth);
      BraceEndEscaped(s, p + |EscapeChar(t[0])|, t[1..], depth + Weight(t[0]));
    }
  }

  lemma BundleIsKey()
    ensures BUNDLE[1..] == StringKey("bundle") && NoBraces(BUNDLE[1..]) && |BUNDLE| == 11
  {
    assert StringKey("bundle") == "\"bundle\":\"";
    assert BUNDLE[1..] == "\"bundle\":\"";
  }

  /** The request body as the scanner delimits it ends inside the escaped path, or goes on past its closing quote. */
  lemma RequestEnd(s: string, v: nat, path: string)
    requires Has(s, v, BUNDLE) && Has(s, v + 11, Escape(path) + "\"")
    ensures var u := Scanned(path, 1);
            && u <= path
            && var end := ValueEnd(s, v);
            end == v + 11 + |Escape(u)| || (u == path && end > v + 11 + |Escape(u)|)
  {
    var u := Scanned(path, 1);
    BundleIsKey();
    HasTail(s, v, BUNDLE);
    BraceEndPlain(s, v + 1, BUNDLE[1..], 1);
    HasJoin(s, v + 11, Escape(path), "\"");
    ScannedAll(path, 1);
    BraceEndEscaped(s, v + 11, path, 1);
    ScanStopIs(v + 11, path, 1);
    var (at, left) := ScanStop(v + 11, path, 1);
    BraceEndZero(s, at);
    if u == path && left > 0 {
      HasTail(s, at, "\"");
      assert BraceEnd(s, at, left) == BraceEnd(s, at + 1, left);
    }
  }

  lemma HasInSlice(s: string, v: nat, end: nat, off: nat, piece: string)
    requires v <= off && Has(s, off, piece) && off + |piece| <= end
    ensures v <= |s| && Has(Slice(s, v, end), off - v, piece)
  {
    var text := Slice(s, v, end);
    forall i | 0 <= i < |piece| ensures text[off - v + i] == piece[i] {
      assert text[off - v + i] == s[off + i];
    }
  }

  lemma BundleField(text: string, def: string)
    requires Has(text, 0, BUNDLE)
    ensures StringField(text, "bundle", def) == Unescape(text, 11)
  {
    BundleIsKey();
    HasTail(text, 0, BUNDLE);
    HasNot(text, 0, StringKey("bundle"), 0);
    StringAt(text, 1, "bundle", def);
  }

  /** The delimited body, part by part. */
  lemma RequestText(s: string, v: nat, path: string)
    requires Has(s, v, BUNDLE) && Has(s, v + 11, Escape(path) + "\"")
    ensures var u, text := Scanned(path, 1), Slice(s, v, ValueEnd(s, v));
            && Has(text, 0, BUNDLE) && Has(text, 11, Escape(u))
            && (11 + |Escape(u)| < |text| ==> text[11 + |Escape(u)|] == '\"')
  {
    var u, end := Scanned(path, 1), ValueEnd(s, v);
    RequestEnd(s, v, path);
    HasInSlice(s, v, end, v, BUNDLE);
    HasPrefix(s, v + 11, u, path);
    HasInSlice(s, v, end, v + 11, Escape(u));
    if end > v + 11 + |Escape(u)| {
      HasJoin(s, v + 11, Escape(path), "\"");
      HasInSlice(s, v, end, v + 11 + |Escape(path)|, "\"");
      HasTail(Slice(s, v, end), 11 + |Escape(u)|, "\"");
    }
  }

  /** What the string reader finds in that body: the scanned part of the path. */
  lemma RequestField(s: string, v: nat, path: string, def: string)
    requires Has(s, v, BUNDLE) && Has(s, v + 11, Escape(path) + "\"")
    ensures StringField(Slice(s, v, ValueEnd(s, v)), "bundle", def) == SeenAll(Scanned(path, 1))
  {
    RequestText(s, v, path);
    var text := Slice(s, v, ValueEnd(s, v));
    BundleField(text, def);
    UnescapeEscaped(text, 11, Scanned(path, 1));
  }

  lemma {:induction false} EscapePrefix(u: string, t: string)
    requires u <= t
    ensures Escape(u) <= Escape(t)
    decreases |u|
  {
    if u == "" {
    } else {
      EscapePrefix(u[1..], t[1..]);
    }
  }

  lemma HasPrefix(s: string, p: nat, u: string, path: string)
    requires u <= path && Has(s, p, Escape(path) + "\"")
    ensures Has(s, p, Escape(u))
  {
    EscapePrefix(u, path);
    HasJoin(s, p, Escape(path), "\"");
    assert forall i :: 0 <= i < |Escape(u)| ==> Escape(u)[i] == Escape(path)[i];
  }

  lemma {:induction false} EscapeFree(t: string)
    ensures Free(Escape(t), '\n')
  {
    if t == "" {
    } else {
      EscapeFree(t[1..]);
      if t[0] < ' ' {
        assert HexDigit(t[0] as int / 16) != '\n' && HexDigit(t[0] as int % 16) != '\n';
      }
    }
  }

  /** The body of a request for a bundle, with any further fields. */
  function Request(path: string, tail: string): string {
    BUNDLE + (Escape(path) + "\"" + tail)
  }

  lemma LastValue(s: string, pos: nat, at: nat)
    requires Find(s, Quoted("body"), 0) == Some(pos) && at > 0 && Find(s, ":", pos + 6) == Some(at - 1)
    requires at < |s| && !IsSpace(s[at])
    ensures ValueOf(s, "body") == Some(Slice(s, at, ValueEnd(s, at)))
  {
    ValueFound(s, "body", pos, at - 1);
    assert SkipSpace(s, at) == at;
  }

  lemma BodyHead(s: string, d: string, k: string, b: string)
    requires LineIs(s, d, k, b) && b != ""
    ensures 24 + |d| + |k| < |s| && s[24 + |d| + |k|] == b[0] && Has(s, 24 + |d| + |k|, b)
  {
    HasHead(s, 24 + |d| + |k|, b);
  }

  /** The body read back from a printed line is the value scanner's. */
  lemma BodyOfLine(s: string, d: string, k: string, b: string)
    requires LineIs(s, d, k, b) && AllDigits(d) && Closed(k)
    requires 24 + |d| + |k| < |s| && !IsSpace(s[24 + |d| + |k|])
    ensures ValueOf(s, "body") == Some(Slice(s, 24 + |d| + |k|, ValueEnd(s, 24 + |d| + |k|)))
  {
    var pos := BodyFound(s, d, k, b);
    LastValue(s, pos, 24 + |d| + |k|);
  }

  lemma ParsedBody(s: string)
    requires ValueOf(s, "body").Some?
    ensures ParseLine(s).body == ValueOf(s, "body").value
  {
  }

  lemma RequestInLine(s: string, v: nat, path: string, tail: string)
    requires Has(s, v, Request(path, tail))
    ensures Has(s, v, BUNDLE) && Has(s, v + 11, Escape(path) + "\"")
  {
    BundleIsKey();
    HasJoin(s, v, BUNDLE, Escape(path) + "\"" + tail);
    HasJoin(s, v + 11, Escape(path) + "\"", tail);
  }

  lemma RequestShape(path: string, tail: string)
    requires Free(tail, '\n')
    ensures var b := Request(path, tail); Free(b, '\n') && b != "" && !IsSpace(b[0])
  {
    EscapeFree(path);
    assert Request(path, tail)[0] == BUNDLE[0];
  }

  lemma LineBody(s: string, d: string, k: string, b: string)
    requires s == Line(d, k, b) && AllDigits(d) && Closed(k) && b != "" && !IsSpace(b[0])
    ensures var v := 24 + |d| + |k|;
            Has(s, v, b) && v <= |s| && ParseLine(s).body == Slice(s, v, ValueEnd(s, v))
  {
    LineShape(d, k, b);
    BodyHead(s, d, k, b);
    BodyOfLine(s, d, k, b);
    ParsedBody(s);
  }

  /** What the string reader finds in the body parsed from a line with a request. */
  lemma LineRequest(s: string, d: string, k: string, path: string, tail: string, def: string)
    requires s == Line(d, k, Request(path, tail)) && AllDigits(d) && Closed(k) && Free(tail, '\n')
    ensures StringField(ParseLine(s).body, "bundle", def) == SeenAll(Scanned(path, 1))
  {
    var v := 24 + |d| + |k|;
    RequestShape(path, tail);
    LineBody(s, d, k, Request(path, tail));
    RequestInLine(s, v, path, tail);
    RequestField(s, v, path, def);
  }

  /** What the string reader finds in a request that went through the pipe. */
  lemma PathRead(m: Message, path: string, tail: string, rest: string, def: string)
    requires m.body == Request(path, tail)
    requires Free(m.kind, '\n') && Closed(m.kind) && Free(tail, '\n')
    ensures StringField(ReadFrom(Print(m) + rest).0.body, "bundle", def) == SeenAll(Scanned(path, 1))
  {
    var s := Line(Digits(m.id), m.kind, m.body);
    RequestShape(path, tail);
    DigitsAreDigits(m.id);
    ReadsLine(m, rest);
    LineRequest(s, Digits(m.id), m.kind, path, tail, def);
  }

  /** A path sent through the pipe in a request, escaped, and then picked out of the body that was read comes back
      exactly if it has no control character and none of its proper prefixes closes more braces than it opens.
      It does come back if only its last character does, though the body is then cut short right after it. */
  lemma PathBack(m: Message, path: string, tail: string, rest: string, def: string)
    requires m.body == Request(path, tail)
    requires Free(m.kind, '\n') && Closed(m.kind) && Free(tail, '\n')
    ensures StringField(ReadFrom(Print(m) + rest).0.body, "bundle", def) == path
       <==> NoControls(path) && forall i :: 0 <= i < |path| ==> Depth(path[..i]) >= 0
  {
    PathRead(m, path, tail, rest, def);
    ScannedAll(path, 1);
    SeenOfPrefix(Scanned(path, 1), path);
    assert StaysOpen(path, 1) <==> forall i :: 0 <= i < |path| ==> Depth(path[..i]) >= 0;
  }

  // ----- what a JSON parser makes of an escaped string -----

  /** The two-character escapes of section 7 of RFC 8259. */
  function ShortEscape(c: char): Option<char> {
    match c
    case '\"' => Some('\"')
    case '\\' => Some('\\')
    case '/' => Some('/')
    case 'b' => Some(8 as char)
    case 'f' => Some(12 as char)
    case 'n' => Some(10 as char)
    case 'r' => Some(13 as char)
    case 't' => Some(9 as char)
    case _ => None
  }

  function HexValue(c: char): Option<nat> {
    if IsDigit(c) then Some(DigitValue(c))
    else if 'a' <= c <= 'f' then Some(10 + (c as int - 'a' as int))
    else if 'A' <= c <= 'F' then Some(10 + (c as int - 'A' as int))
    else None
  }

  /** Four hex digits, below the surrogates. */
  function HexChar(a: char, b: char, c: char, d: char): Option<char> {
    var (h, i, j, k) := (HexValue(a), HexValue(b), HexValue(c), HexValue(d));
    if h.Some? && i.Some? && j.Some? && k.Some? then
      var n: int := h.value * 0x1000 + i.value * 0x100 + j.value * 0x10 + k.value;
      if 0 <= n < 0xD800 then Some(n as char) else None
    else None
  }

  function Prepend(c: Option<char>, t: Option<string>): Option<string> {
    if c.Some? && t.Some? then Some([c.value] + t.value) else None
  }

  /** The text between the quotes of a JSON string, decoded; surrogate pairs are not. */
  function JsonDecode(s: string): Option<string>
    decreases |s|
  {
    if s == "" then Some("")
    else if s[0] == '\\' then
      if |s| >= 2 && ShortEscape(s[1]).Some? then Prepend(ShortEscape(s[1]), JsonDecode(s[2..]))
      else if |s| >= 6 && s[1] == 'u' then Prepend(HexChar(s[2], s[3], s[4], s[5]), JsonDecode(s[6..]))
      else None
    else if s[0] == '\"' || s[0] < ' ' then None
    else Prepend(Some(s[0]), JsonDecode(s[1..]))
  }

  lemma HexRoundTrip(n: nat)
    requires n < 16
    ensures HexValue(HexDigit(n)) == Some(n)
  {
  }

  lemma DecodeControl(c: char, t: string)
    requires c < ' ' && |EscapeChar(c)| == 6
    ensures JsonDecode(EscapeChar(c) + t) == Prepend(Some(c), JsonDecode(t))
  {
    var s := EscapeChar(c) + t;
    var hi, lo := c as int / 16, c as int % 16;
    HexRoundTrip(hi);
    HexRoundTrip(lo);
    assert s[0] == '\\' && s[1] == 'u' && s[2] == '0' && s[3] == '0' && s[4] == HexDigit(hi) && s[5] == HexDigit(lo);
    assert s[6..] == t;
    assert HexChar(s[2], s[3], s[4], s[5]) == Some(c);
  }

  lemma DecodeChar(c: char, t: string)
    ensures JsonDecode(EscapeChar(c) + t) == Prepend(Some(c), JsonDecode(t))
  {
    var e := EscapeChar(c);
    var s := e + t;
    if |e| == 6 {
      DecodeControl(c, t);
    } else if |e| == 2 {
      assert s[0] == '\\' && s[1] == e[1] && s[2..] == t;
      assert ShortEscape(e[1]) == Some(c);
    } else {
      assert s[0] == c && s[1..] == t;
    }
  }

  /** A JSON string decoder undoes the host's escaping on every string, control characters included. */
  lemma {:induction false} DecodeEscaped(v: string)
    ensures JsonDecode(Escape(v)) == Some(v)
    decreases |v|
  {
    if v == "" {
    } else {
      DecodeEscaped(v[1..]);
      DecodeChar(v[0], Escape(v[1..]));
      assert v == [v[0]] + v[1..];
    }
  }

  // ----- what else the reader accepts -----

  predicate AllSpaces(s: string) {
    forall i :: 0 <= i < |s| ==> IsSpace(s[i])
  }

  lemma {:induction false} SkipsSpaces(s: string, v: nat, to: nat)
    requires v <= to <= |s| && (forall i :: v <= i < to ==> IsSpace(s[i])) && (to < |s| ==> !IsSpace(s[to]))
    ensures SkipSpace(s, v) == to
    decreases |s| - v
  {
    if v == to {
    } else {
      SkipsSpaces(s, v + 1, to);
    }
  }

  lemma {:induction false} DigitsEndAt(s: string, v: nat, to: nat)
    requires v <= to <= |s| && (forall i :: v <= i < to ==> IsDigit(s[i])) && (to < |s| ==> !IsDigit(s[to]))
    ensures DigitsEnd(s, v) == to
    decreases |s| - v
  {
    if v == to {
    } else {
      DigitsEndAt(s, v + 1, to);
    }
  }

  /** Where the parts of a number with white space, sign and following text are. */
  lemma NumberParts(s: string, spaces: string, sign: string, d: string, rest: string)
    requires s == spaces + sign + d + rest
    ensures forall i :: 0 <= i < |spaces| ==> s[i] == spaces[i]
    ensures sign != "" ==> s[|spaces|] == sign[0]
    ensures |s| == |spaces| + |sign| + |d| + |rest|
    ensures s[|spaces| + |sign|..|spaces| + |sign| + |d|] == d
    ensures rest != "" ==> s[|spaces| + |sign| + |d|] == rest[0]
  {
  }

  /** The scan of a number: where it starts, after the sign, and where it ends. */
  lemma NumberScan(s: string, v: nat, from: nat, to: nat)
    requires v <= from < to <= |s| && (forall i :: 0 <= i < v ==> IsSpace(s[i]))
    requires (from == v && IsDigit(s[v])) || (from == v + 1 && (s[v] == '-' || s[v] == '+'))
    requires (forall i :: from <= i < to ==> IsDigit(s[i])) && (to < |s| ==> !IsDigit(s[to]))
    ensures Stoull(s)
         == var n := Value(s[from..to]);
            if n >= 0x1_0000_0000_0000_0000 then None
            else if from > v && s[v] == '-' && n > 0 then Some(0x1_0000_0000_0000_0000 - n) else Some(n)
  {
    SkipsSpaces(s, 0, v);
    DigitsEndAt(s, from, to);
  }

  /** An id in decimal, after any white space and one sign, before anything but a digit: out of range it is no id,
      and a minus sign negates it modulo 2^64. */
  lemma StoullOfNumber(spaces: string, sign: string, n: nat, rest: string)
    requires AllSpaces(spaces) && sign in {"", "+", "-"} && (rest != "" ==> !IsDigit(rest[0]))
    ensures Stoull(spaces + sign + Digits(n) + rest)
         == if n >= 0x1_0000_0000_0000_0000 then None
            else if sign == "-" && n > 0 then Some(0x1_0000_0000_0000_0000 - n) else Some(n)
  {
    var s, d := spaces + sign + Digits(n) + rest, Digits(n);
    var v, from := |spaces|, |spaces| + |sign|;
    var to := from + |d|;
    NumberParts(s, spaces, sign, d, rest);
    forall i | from <= i < to ensures IsDigit(s[i]) { assert s[i] == s[from..to][i - from]; }
    NumberScan(s, v, from, to);
    ValueOfDigits(n);
  }

  /** A field whose key does not occur has its default: id 0, no kind, an empty object. */
  lemma MissingFields(line: string)
    ensures (forall i: nat :: !Has(line, i, "\"id\"")) ==> ParseLine(line).id == 0
    ensures (forall i: nat :: !Has(line, i, "\"kind\"")) ==> ParseLine(line).kind == ""
    ensures (forall i: nat :: !Has(line, i, "\"body\"")) ==> ParseLine(line).body == "{}"
  {
    assert Quoted("id") == "\"id\"" && Quoted("kind") == "\"kind\"" && Quoted("body") == "\"body\"";
  }

  /** A last line without a line break is read as if it had one. */
  lemma UnterminatedLine(line: string)
    requires line != "" && Free(line, '\n')
    ensures ReadFrom(line) == ReadFrom(line + "\n") == (ParseLine(line), "")
  {
    forall i: nat ensures !Has(line, i, "\n") { HasNot(line, i, "\n", 0); }
    var text := line + "\n";
    assert text[..|line|] == line && text[|line| + 1..] == "";
    BreakAt(text, |line|);
  }

  /** A key that does not occur gives the default. */
  lemma MissingString(body: string, key: string, def: string)
    requires forall i: nat :: !Has(body, i, "\"" + key + "\":\"")
    ensures StringField(body, key, def) == def
  {
  }
}
