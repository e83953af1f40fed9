/** services/serializer/serializer.c: cards as length-prefixed fields in a packet
    with a header and a CRC-32 trailer. */
module PacketCodec {
  import Crc32
  import opened UInt32
  import opened BigEndian
  import opened Buffers
  import opened Options

  const OK := 0
  const ERR_NULL := -1
  const ERR_OVERFLOW := -2
  const ERR_MAGIC := -3
  const ERR_VERSION := -4
  const ERR_TRUNCATED := -5
  const ERR_INVALID := -6
  const ERR_TOO_MANY := -7

  const MAGIC_NUMBER := 0x4B52_5455
  const FORMAT_VERSION: bv8 := 1
  const MAX_CARDS := 256
  const MAX_FUDA_LEN: nat := 64
  const MAX_YOMI_LEN: nat := 256
  const MAX_IMAGE_LEN: nat := 256

  datatype RawCard = Card(id: u32, fuda: seq<bv8>, yomi: seq<bv8>, image: seq<bv8>)

  /** The C struct: an id and three character arrays of fixed size. */
  type Card = c: RawCard | |c.fuda| == 64 && |c.yomi| == 256 && |c.image| == 256
    witness RawCard.Card(0, seq(64, _ => 0), seq(256, _ => 0), seq(256, _ => 0))

  // ---- C strings ----

  /** strnlen over the whole array: the index of the first NUL, or the size. */
  function StrLen(s: seq<bv8>): (n: nat)
    ensures n <= |s|
    ensures n < |s| ==> s[n] == 0
    ensures forall i | 0 <= i < n :: s[i] != 0
  {
    if s == [] || s[0] == 0 then 0 else 1 + StrLen(s[1..])
  }

  function Text(s: seq<bv8>): (t: seq<bv8>)
    ensures NoNul(t)
  {
    s[..StrLen(s)]
  }

  predicate NoNul(t: seq<bv8>) {
    forall i | 0 <= i < |t| :: t[i] != 0
  }

  /** A text copied into a zeroed array of the given size. */
  function Padded(t: seq<bv8>, size: nat): (s: seq<bv8>)
    requires |t| <= size
    ensures |s| == size
  {
    t + seq(size - |t|, _ => 0)
  }

  lemma StrLenUnique(s: seq<bv8>, n: nat)
    requires n <= |s| && (forall i | 0 <= i < n :: s[i] != 0) && (n < |s| ==> s[n] == 0)
    ensures StrLen(s) == n
  {
    hide StrLen;
    var m := StrLen(s);
  }

  lemma TextOfPadded(t: seq<bv8>, size: nat)
    requires |t| < size
    ensures NoNul(t) ==> Text(Padded(t, size)) == t
    ensures !NoNul(t) ==> |Text(Padded(t, size))| < |t|
    ensures |Text(Padded(t, size))| < size
  {
    hide StrLen;
    var s := Padded(t, size);
    assert s[..|t|] == t;
    if NoNul(t) {
      assert forall i | 0 <= i < |t| :: s[i] == t[i];
      StrLenUnique(s, |t|);
    } else {
      var i :| 0 <= i < |t| && t[i] == 0;
      assert s[i] == 0;
    }
  }

  // ---- Validation ----

  /** card_validate on a card that is there. */
  function Validate(c: Card): int {
    if c.id == 0 then ERR_INVALID
    else if c.fuda[0] == 0 then ERR_INVALID
    else if c.yomi[0] == 0 then ERR_INVALID
    else if c.image[0] == 0 then ERR_INVALID
    else if StrLen(c.fuda) == MAX_FUDA_LEN then ERR_OVERFLOW
    else if StrLen(c.yomi) == MAX_YOMI_LEN then ERR_OVERFLOW
    else if StrLen(c.image) == MAX_IMAGE_LEN then ERR_OVERFLOW
    else OK
  }

  /** cards_validate_all: the code of the first bad card. */
  function ValidateAll(cs: seq<Card>): int {
    if cs == [] then OK else if Validate(cs[0]) != OK then Validate(cs[0]) else ValidateAll(cs[1..])
  }

  /** A card that passes has a non-zero id and three non-empty, terminated strings. */
  lemma ValidMeans(c: Card)
    ensures Validate(c) == OK <==>
            c.id != 0 && 0 < |Text(c.fuda)| < 64 && 0 < |Text(c.yomi)| < 256 && 0 < |Text(c.image)| < 256
  {
  }

  lemma {:induction false} AllValid(cs: seq<Card>)
    ensures ValidateAll(cs) == OK <==> forall i | 0 <= i < |cs| :: Validate(cs[i]) == OK
  {
    hide Validate;
    if cs != [] {
      AllValid(cs[1..]);
      assert forall i | 1 <= i < |cs| :: cs[i] == cs[1..][i - 1];
    }
  }

  // ---- What a card looks like on the wire ----

  /** A card as its id and the three strings on the wire. */
  datatype Wire = Wire(id: u32, fuda: seq<bv8>, yomi: seq<bv8>, image: seq<bv8>)

  predicate Fits(w: Wire) {
    |w.fuda| < MAX_FUDA_LEN && |w.yomi| < MAX_YOMI_LEN && |w.image| < MAX_IMAGE_LEN
  }

  predicate AllFit(ws: seq<Wire>) {
    forall i | 0 <= i < |ws| :: Fits(ws[i])
  }

  function FieldBytes(t: seq<bv8>): (b: seq<bv8>)
    requires |t| < 0x1_0000
    ensures |b| == 2 + |t|
  {
    U16Bytes(|t|) + t
  }

  function WireBytes(w: Wire): (b: seq<bv8>)
    requires Fits(w)
    ensures |b| == 10 + |w.fuda| + |w.yomi| + |w.image|
  {
    U32Bytes(w.id) + (FieldBytes(w.fuda) + (FieldBytes(w.yomi) + FieldBytes(w.image)))
  }

  /** The strings of a struct. */
  function ToWire(c: Card): (w: Wire)
    requires Validate(c) == OK
    ensures Fits(w)
  {
    ValidMeans(c);
    Wire(c.id, Text(c.fuda), Text(c.yomi), Text(c.image))
  }

  /** The struct the decoder fills in. */
  function ToCard(w: Wire): Card
    requires Fits(w)
  {
    RawCard.Card(w.id, Padded(w.fuda, 64), Padded(w.yomi, 256), Padded(w.image, 256))
  }

  function AllBytes(ws: seq<Wire>): (b: seq<bv8>)
    requires AllFit(ws)
  {
    if ws == [] then [] else WireBytes(ws[0]) + AllBytes(ws[1..])
  }

  function ToWires(cs: seq<Card>): (ws: seq<Wire>)
    requires forall i | 0 <= i < |cs| :: Validate(cs[i]) == OK
    ensures AllFit(ws) && |ws| == |cs| && forall i | 0 <= i < |cs| :: ws[i] == ToWire(cs[i])
  {
    seq(|cs|, i requires 0 <= i < |cs| => ToWire(cs[i]))
  }

  function ToCards(ws: seq<Wire>): (cs: seq<Card>)
    requires AllFit(ws)
    ensures |cs| == |ws| && forall i | 0 <= i < |ws| :: cs[i] == ToCard(ws[i])
  {
    seq(|ws|, i requires 0 <= i < |ws| => ToCard(ws[i]))
  }

  function Header(reserved: seq<bv8>, count: u32): (b: seq<bv8>)
    requires |reserved| == 3
    ensures |b| == 12
  {
    U32Bytes(MAGIC_NUMBER) + [FORMAT_VERSION] + reserved + U32Bytes(count)
  }

  /** crc32_compute as a number. */
  function CrcOf(data: seq<bv8>): u32 {
    AsNumber(Crc32.Reference(data))
  }

  function AsNumber(w: bv32): u32 {
    w as int
  }

  /** Any data followed by its CRC. */
  function Sealed(data: seq<bv8>): (b: seq<bv8>)
    ensures |b| == |data| + 4
  {
    data + U32Bytes(CrcOf(data))
  }

  predicate SealHolds(buf: seq<bv8>, at: nat)
    requires at + 4 <= |buf|
  {
    U32Of(buf[at..at + 4]) == CrcOf(buf[..at])
  }

  /** Header, cards and seal. */
  function PacketWith(reserved: seq<bv8>, ws: seq<Wire>): (b: seq<bv8>)
    requires |reserved| == 3 && |ws| < 0x1_0000_0000 && AllFit(ws)
    ensures |b| == 16 + |AllBytes(ws)|
  {
    Sealed(Header(reserved, |ws|) + AllBytes(ws))
  }

  /** The packet for a list of wire cards. */
  function Packet(ws: seq<Wire>): (b: seq<bv8>)
    requires |ws| < 0x1_0000_0000 && AllFit(ws)
    ensures |b| == 16 + |AllBytes(ws)|
  {
    PacketWith([0, 0, 0], ws)
  }

  // ---- The parser ----

  /** A length-prefixed string at the front of some bytes. */
  function ParseField(rest: seq<bv8>, max: nat): (t: Option<seq<bv8>>)
    ensures t.Some? ==> |t.value| < max && 2 + |t.value| <= |rest|
  {
    if |rest| < 2 then None
    else
      var len := U16Of(rest[..2]);
      if |rest| - 2 < len || len >= max then None else Some(rest[2..2 + len])
  }

  function ParseStrings(id: u32, rest: seq<bv8>): (w: Option<Wire>)
    ensures w.Some? ==> Fits(w.value) && |WireBytes(w.value)| <= 4 + |rest|
  {
    match ParseField(rest, MAX_FUDA_LEN)
    case None => None
    case Some(f) =>
      var afterFuda := rest[2 + |f|..];
      match ParseField(afterFuda, MAX_YOMI_LEN)
      case None => None
      case Some(y) =>
        match ParseField(afterFuda[2 + |y|..], MAX_IMAGE_LEN)
        case None => None
        case Some(i) => Some(Wire(id, f, y, i))
  }

  /** card_decode_single. */
  function ParseCard(rest: seq<bv8>): (w: Option<Wire>)
    ensures w.Some? ==> Fits(w.value) && |WireBytes(w.value)| <= |rest|
  {
    if |rest| < 10 then None else ParseStrings(U32Of(rest[..4]), rest[4..])
  }

  lemma OneMoreCard(w: Wire, ws: seq<Wire>)
    requires Fits(w) && AllFit(ws)
    ensures AllFit([w] + ws) && AllBytes([w] + ws) == WireBytes(w) + AllBytes(ws)
  {
    hide WireBytes, Fits;
    assert ([w] + ws)[1..] == ws;
  }

  lemma NoCards()
    ensures AllFit([]) && AllBytes([]) == []
  {
  }

  /** The decoding loop: n cards, one after the other. */
  function ParseCards(rest: seq<bv8>, n: nat): (ws: Option<seq<Wire>>)
    ensures ws.Some? ==>
              |ws.value| == n && AllFit(ws.value) &&
              |AllBytes(ws.value)| <= |rest|
    decreases n
  {
    hide WireBytes, ParseCard, Fits, AllFit, AllBytes;
    NoCards();
    if n == 0 then Some([])
    else
      match ParseCard(rest)
      case None => None
      case Some(w) =>
        match ParseCards(rest[|WireBytes(w)|..], n - 1)
        case None => None
        case Some(ws) =>
          OneMoreCard(w, ws);
          Some([w] + ws)
  }

  datatype Unpacked = Unpacked(code: int, cards: seq<Wire>)

  function MagicOf(buf: seq<bv8>): u32
    requires |buf| >= 12
  {
    U32Of(buf[..4])
  }

  predicate VersionOk(buf: seq<bv8>)
    requires |buf| >= 12
  {
    buf[4] == FORMAT_VERSION
  }

  /** The three bytes the decoder steps over. */
  function Reserved(buf: seq<bv8>): (r: seq<bv8>)
    requires |buf| >= 12
    ensures |r| == 3
  {
    buf[5..8]
  }

  function CountOf(buf: seq<bv8>): u32
    requires |buf| >= 12
  {
    U32Of(buf[8..12])
  }

  /** What card_unpack finds wrong with the twelve header bytes. */
  function HeaderCode(buf: seq<bv8>, maxCards: u32): (code: int)
    ensures code == OK ==> |buf| >= 16 && CountOf(buf) <= maxCards
  {
    hide MagicOf, CountOf, VersionOk;
    if |buf| < 16 then ERR_TRUNCATED
    else if MagicOf(buf) != MAGIC_NUMBER then ERR_MAGIC
    else if !VersionOk(buf) then ERR_VERSION
    else if CountOf(buf) > maxCards then ERR_TOO_MANY
    else OK
  }

  /** The cards after the header and the seal after the cards. */
  function UnpackBody(buf: seq<bv8>, count: nat): (r: Unpacked)
    requires |buf| >= 16
    ensures r.code == OK ==>
              |r.cards| == count && AllFit(r.cards) &&
              12 + |AllBytes(r.cards)| + 4 <= |buf|
  {
    hide U32Of, CrcOf, ParseCards, AllBytes, AllFit, SealHolds;
    match ParseCards(buf[12..|buf| - 4], count)
    case None => Unpacked(ERR_TRUNCATED, [])
    case Some(ws) =>
      if SealHolds(buf, 12 + |AllBytes(ws)|) then Unpacked(OK, ws) else Unpacked(ERR_INVALID, [])
  }

  /** card_unpack on a buffer that is there. */
  function Unpack(buf: seq<bv8>, maxCards: u32): (r: Unpacked)
    ensures r.code == OK ==> |buf| >= 16 && |r.cards| <= maxCards && AllFit(r.cards)
  {
    hide CountOf, HeaderCode, UnpackBody, AllFit;
    var code := HeaderCode(buf, maxCards);
    if code != OK then Unpacked(code, []) else UnpackBody(buf, CountOf(buf))
  }

  // ---- Parser and printer are inverse ----

  lemma FieldParses(t: seq<bv8>, tail: seq<bv8>, max: nat)
    requires |t| < max <= 256
    ensures ParseField(FieldBytes(t) + tail, max) == Some(t) && (FieldBytes(t) + tail)[2 + |t|..] == tail
  {
    hide U16Bytes, U16Of;
    var s := FieldBytes(t) + tail;
    assert s[..2] == U16Bytes(|t|);
    U16RoundTrip(|t|);
    assert s[2..2 + |t|] == t;
  }

  lemma FieldPrints(rest: seq<bv8>, max: nat)
    requires max <= 256 && ParseField(rest, max).Some?
    ensures var t := ParseField(rest, max).value; rest[..2 + |t|] == FieldBytes(t)
  {
    hide U16Bytes, U16Of;
    U16Back(rest[..2]);
    var t := ParseField(rest, max).value;
    assert rest[..2 + |t|] == rest[..2] + rest[2..2 + |t|];
  }

  lemma CardParses(w: Wire, tail: seq<bv8>)
    requires Fits(w)
    ensures ParseCard(WireBytes(w) + tail) == Some(w)
  {
    hide U32Bytes, U32Of, FieldBytes, ParseField;
    var image := FieldBytes(w.image) + tail;
    var yomi := FieldBytes(w.yomi) + image;
    var fuda := FieldBytes(w.fuda) + yomi;
    var all := WireBytes(w) + tail;
    assert all == U32Bytes(w.id) + fuda;
    assert all[..4] == U32Bytes(w.id) && all[4..] == fuda;
    U32RoundTrip(w.id);
    FieldParses(w.fuda, yomi, MAX_FUDA_LEN);
    FieldParses(w.yomi, image, MAX_YOMI_LEN);
    FieldParses(w.image, tail, MAX_IMAGE_LEN);
  }

  lemma CardPrints(rest: seq<bv8>)
    requires ParseCard(rest).Some?
    ensures var w := ParseCard(rest).value; rest[..|WireBytes(w)|] == WireBytes(w)
  {
    hide U32Bytes, U32Of, FieldBytes, ParseField;
    var w := ParseCard(rest).value;
    var afterId := rest[4..];
    var afterFuda := afterId[2 + |w.fuda|..];
    var afterYomi := afterFuda[2 + |w.yomi|..];
    U32Back(rest[..4]);
    FieldPrints(afterId, MAX_FUDA_LEN);
    FieldPrints(afterFuda, MAX_YOMI_LEN);
    FieldPrints(afterYomi, MAX_IMAGE_LEN);
    TakeParts(rest, 2 + |w.fuda|, 2 + |w.yomi|, 2 + |w.image|);
  }

  lemma TakeParts(rest: seq<bv8>, f: nat, y: nat, i: nat)
    requires 4 + f + y + i <= |rest|
    ensures rest[..4 + f + y + i] ==
            rest[..4] + (rest[4..][..f] + (rest[4..][f..][..y] + rest[4..][f..][y..][..i]))
  {
  }

  lemma {:induction false} CardsParse(ws: seq<Wire>, tail: seq<bv8>)
    requires AllFit(ws)
    ensures ParseCards(AllBytes(ws) + tail, |ws|) == Some(ws)
    decreases |ws|
  {
    hide WireBytes, ParseCard;
    if ws != [] {
      var first, rest := WireBytes(ws[0]), AllBytes(ws[1..]) + tail;
      assert AllBytes(ws) + tail == first + rest;
      CardParses(ws[0], rest);
      assert (first + rest)[|first|..] == rest;
      CardsParse(ws[1..], tail);
      assert ParseCards(AllBytes(ws) + tail, |ws|) == Some([ws[0]] + ws[1..]);
      assert [ws[0]] + ws[1..] == ws;
    }
  }

  lemma {:induction false} CardsPrint(rest: seq<bv8>, n: nat)
    requires ParseCards(rest, n).Some?
    ensures var ws := ParseCards(rest, n).value; rest[..|AllBytes(ws)|] == AllBytes(ws)
    decreases n
  {
    hide WireBytes, ParseCard;
    if n > 0 {
      var w := ParseCard(rest).value;
      var k := |WireBytes(w)|;
      CardPrints(rest);
      CardsPrint(rest[k..], n - 1);
      var ws := ParseCards(rest[k..], n - 1).value;
      assert ([w] + ws)[1..] == ws;
      assert rest[..k + |AllBytes(ws)|] == rest[..k] + rest[k..][..|AllBytes(ws)|];
    }
  }

  // ---- Whole packets ----

  lemma HeaderReads(reserved: seq<bv8>, count: u32, tail: seq<bv8>)
    requires |reserved| == 3
    ensures var buf := Header(reserved, count) + tail;
            MagicOf(buf) == MAGIC_NUMBER && VersionOk(buf) && Reserved(buf) == reserved &&
            CountOf(buf) == count && buf[12..] == tail
  {
    hide U32Bytes, U32Of;
    var buf := Header(reserved, count) + tail;
    assert buf[..4] == U32Bytes(MAGIC_NUMBER);
    assert buf[8..12] == U32Bytes(count);
    U32RoundTrip(MAGIC_NUMBER);
    U32RoundTrip(count);
  }

  lemma HeaderPrints(buf: seq<bv8>)
    requires |buf| >= 12 && MagicOf(buf) == MAGIC_NUMBER && VersionOk(buf)
    ensures buf[..12] == Header(Reserved(buf), CountOf(buf))
  {
    hide U32Bytes, U32Of;
    U32Back(buf[..4]);
    U32Back(buf[8..12]);
    assert buf[..12] == buf[..4] + [buf[4]] + buf[5..8] + buf[8..12];
  }

  /** The trailer of a sealed message holds, whatever follows it. */
  lemma SealedHolds(data: seq<bv8>, extra: seq<bv8>)
    ensures SealHolds(Sealed(data) + extra, |data|)
  {
    hide U32Bytes, U32Of, CrcOf;
    var buf := Sealed(data) + extra;
    assert buf[|data|..|data| + 4] == U32Bytes(CrcOf(data)) && buf[..|data|] == data;
    U32RoundTrip(CrcOf(data));
  }

  lemma SealPrints(buf: seq<bv8>, at: nat)
    requires at + 4 <= |buf| && SealHolds(buf, at)
    ensures buf[..at + 4] == Sealed(buf[..at])
  {
    hide U32Bytes, U32Of, CrcOf;
    U32Back(buf[at..at + 4]);
    assert buf[..at + 4] == buf[..at] + buf[at..at + 4];
  }

  lemma Framed(h: seq<bv8>, body: seq<bv8>, extra: seq<bv8>)
    ensures var buf := Sealed(h + body) + extra;
            exists tail :: buf == h + (body + tail) && |tail| == 4 + |extra| &&
                           buf[|h|..|buf| - 4] == body + tail[..|extra|]
  {
    hide U32Bytes, CrcOf;
    var buf := Sealed(h + body) + extra;
    var tail := U32Bytes(CrcOf(h + body)) + extra;
    assert buf == h + (body + tail);
    assert buf[|h|..|buf| - 4] == body + tail[..|extra|];
  }

  /** Unpacking a packet, with any bytes after it, gives the cards it was made of. */
  lemma UnpackOfPacket(ws: seq<Wire>, extra: seq<bv8>, maxCards: u32)
    requires AllFit(ws) && |ws| <= maxCards
    ensures Unpack(Packet(ws) + extra, maxCards) == Unpacked(OK, ws)
  {
    hide Header, AllBytes, Sealed, SealHolds, ParseCards, MagicOf, CountOf, VersionOk, Reserved, AllFit;
    var h, body := Header([0, 0, 0], |ws|), AllBytes(ws);
    var buf := Packet(ws) + extra;
    Framed(h, body, extra);
    var tail :| buf == h + (body + tail) && buf[|h|..|buf| - 4] == body + tail[..|extra|];
    HeaderReads([0, 0, 0], |ws|, body + tail);
    CardsParse(ws, tail[..|extra|]);
    SealedHolds(h + body, extra);
    assert |h + body| == 12 + |body|;
  }

  /** Everything card_unpack accepts, apart from the three reserved bytes, is the packet of
      the cards it returns; so packet bytes come back exactly when the reserved bytes are 0. */
  lemma PacketOfUnpack(buf: seq<bv8>, maxCards: u32)
    requires Unpack(buf, maxCards).code == OK
    ensures |buf| >= 16 && PacketWith(Reserved(buf), Unpack(buf, maxCards).cards) <= buf
  {
    hide Header, AllBytes, Sealed, SealHolds, ParseCards, MagicOf, CountOf, VersionOk, Reserved, AllFit;
    var ws := Unpack(buf, maxCards).cards;
    var at := 12 + |AllBytes(ws)|;
    assert ParseCards(buf[12..|buf| - 4], |ws|) == Some(ws);
    CardsPrint(buf[12..|buf| - 4], |ws|);
    HeaderPrints(buf);
    SealPrints(buf, at);
    assert buf[..at] == buf[..12] + buf[12..|buf| - 4][..|AllBytes(ws)|];
  }

  /** No NUL inside any of the three strings. */
  predicate Clean(w: Wire) {
    NoNul(w.fuda) && NoNul(w.yomi) && NoNul(w.image)
  }

  /** The strings of the struct the decoder filled in are the strings received exactly
      when no string has a NUL inside. */
  lemma CardKeepsStrings(w: Wire)
    requires Fits(w) && Validate(ToCard(w)) == OK
    ensures ToWire(ToCard(w)) == w <==> Clean(w)
  {
    hide StrLen, Padded;
    TextOfPadded(w.fuda, 64);
    TextOfPadded(w.yomi, 256);
    TextOfPadded(w.image, 256);
  }

  /** A struct that passes validation decodes back to the same strings. */
  lemma StructRoundTrip(c: Card)
    requires Validate(c) == OK
    ensures Clean(ToWire(c)) && Validate(ToCard(ToWire(c))) == OK && ToWire(ToCard(ToWire(c))) == ToWire(c)
  {
    hide StrLen, Padded;
    var w := ToWire(c);
    ValidMeans(c);
    TextOfPadded(w.fuda, 64);
    TextOfPadded(w.yomi, 256);
    TextOfPadded(w.image, 256);
    ValidMeans(ToCard(w));
  }

  // ---- card_pack as a function ----

  function PackCode(cs: seq<Card>, outSize: nat): (code: int)
    ensures code == OK <==>
            |cs| <= MAX_CARDS && (forall i | 0 <= i < |cs| :: Validate(cs[i]) == OK) &&
            outSize >= 16 + |AllBytes(ToWires(cs))|
  {
    hide Validate, AllBytes, ToWires;
    AllValid(cs);
    if |cs| > MAX_CARDS then ERR_TOO_MANY
    else if outSize < 16 then ERR_OVERFLOW
    else if ValidateAll(cs) != OK then ValidateAll(cs)
    else if outSize < 16 + |AllBytes(ToWires(cs))| then ERR_OVERFLOW
    else OK
  }

  /** The bytes of n cards: ten each, and their strings. */
  function TextSize(cs: seq<Card>): nat {
    if cs == [] then 0
    else 10 + |Text(cs[0].fuda)| + |Text(cs[0].yomi)| + |Text(cs[0].image)| + TextSize(cs[1..])
  }

  lemma {:induction false} PackedSize(cs: seq<Card>)
    requires forall i | 0 <= i < |cs| :: Validate(cs[i]) == OK
    ensures |AllBytes(ToWires(cs))| == TextSize(cs)
  {
    hide Validate, Text, WireBytes;
    if cs != [] {
      assert ToWires(cs)[1..] == ToWires(cs[1..]);
      PackedSize(cs[1..]);
    }
  }

  /** card_pack succeeds exactly when the count, the cards and the room allow it. */
  lemma PackSucceedsExactlyWhen(cs: seq<Card>, outSize: nat)
    ensures PackCode(cs, outSize) == OK <==>
            |cs| <= MAX_CARDS && (forall i | 0 <= i < |cs| :: Validate(cs[i]) == OK) && outSize >= 16 + TextSize(cs)
  {
    hide Validate, AllBytes, ToWires, TextSize;
    if forall i | 0 <= i < |cs| :: Validate(cs[i]) == OK {
      PackedSize(cs);
    }
  }

  /** What card_pack wrote, card_unpack reads back as structs with the same ids and strings. */
  lemma UnpackOfPack(cs: seq<Card>, outSize: nat, extra: seq<bv8>, maxCards: u32)
    requires PackCode(cs, outSize) == OK && |cs| <= maxCards
    ensures var r := Unpack(Packet(ToWires(cs)) + extra, maxCards);
            r.code == OK && |r.cards| == |cs| &&
            forall i | 0 <= i < |cs| ::
              var back := ToCard(r.cards[i]);
              back.id == cs[i].id && Text(back.fuda) == Text(cs[i].fuda) &&
              Text(back.yomi) == Text(cs[i].yomi) && Text(back.image) == Text(cs[i].image)
  {
    hide Validate, Unpack, Packet, Text, Padded;
    UnpackOfPacket(ToWires(cs), extra, maxCards);
    forall i | 0 <= i < |cs|
      ensures var back := ToCard(ToWire(cs[i])); Validate(back) == OK && ToWire(back) == ToWire(cs[i])
    {
      StructRoundTrip(cs[i]);
    }
  }

  /** Packing the structs decoded from arbitrary bytes gives those bytes back exactly when
      the reserved bytes are 0 and no string has a NUL inside. */
  lemma RepackExactlyWhen(buf: seq<bv8>, maxCards: u32, outSize: nat)
    requires Unpack(buf, maxCards).code == OK
    requires PackCode(ToCards(Unpack(buf, maxCards).cards), outSize) == OK
    ensures var ws := Unpack(buf, maxCards).cards;
            var again := Packet(ToWires(ToCards(ws)));
            again <= buf <==> Reserved(buf) == [0, 0, 0] && forall i | 0 <= i < |ws| :: Clean(ws[i])
  {
    hide Validate, PacketWith, Unpack, ToWire, ToCard, Clean, PackCode, HeaderCode;
    var ws := Unpack(buf, maxCards).cards;
    var back := ToWires(ToCards(ws));
    forall i | 0 <= i < |ws|
      ensures back[i] == ws[i] <==> Clean(ws[i])
    {
      CardKeepsStrings(ws[i]);
    }
    PacketOfUnpack(buf, maxCards);
    if Packet(back) <= buf {
      SameCards(buf, back, maxCards);
    }
    if forall i | 0 <= i < |ws| :: Clean(ws[i]) {
      assert back == ws;
      assert Reserved(buf) == [0, 0, 0] ==> Packet(ws) <= buf;
    }
  }

  lemma SameCards(buf: seq<bv8>, back: seq<Wire>, maxCards: u32)
    requires AllFit(back) && |back| <= maxCards && Packet(back) <= buf
    ensures |buf| >= 16 && Unpack(buf, maxCards) == Unpacked(OK, back) && Reserved(buf) == [0, 0, 0]
  {
    hide Packet, Unpack, AllFit;
    var extra := buf[|Packet(back)|..];
    assert buf == Packet(back) + extra;
    UnpackOfPacket(back, extra, maxCards);
    PacketReserved(back, extra);
  }

  lemma PacketReserved(ws: seq<Wire>, extra: seq<bv8>)
    requires AllFit(ws) && |ws| < 0x1_0000_0000
    ensures Reserved(Packet(ws) + extra) == [0, 0, 0]
  {
    hide AllFit, AllBytes, U32Bytes, CrcOf;
    assert Reserved(Packet(ws) + extra) == Reserved(Header([0, 0, 0], |ws|));
  }

  // ---- What the encoder leaves in a buffer that is too small ----

  /** The bytes of the cards stored before the first one that does not fit. */
  function Fitting(ws: seq<Wire>, room: nat): (b: seq<bv8>)
    requires AllFit(ws)
    ensures |b| <= room
    decreases |ws|
  {
    if ws == [] || |WireBytes(ws[0])| > room then []
    else WireBytes(ws[0]) + Fitting(ws[1..], room - |WireBytes(ws[0])|)
  }

  /** card_pack has passed its checks and begun to write. */
  predicate Begun(cs: seq<Card>, outSize: nat) {
    |cs| <= MAX_CARDS && outSize >= 16 && ValidateAll(cs) == OK
  }

  lemma BegunValid(cs: seq<Card>, outSize: nat)
    requires Begun(cs, outSize)
    ensures forall i | 0 <= i < |cs| :: Validate(cs[i]) == OK
  {
    hide Validate;
    AllValid(cs);
  }

  // ---- What the decoder leaves in the structs ----

  /** The strings stored before the first one that does not parse. */
  function FilledStrings(id: u32, rest: seq<bv8>): (w: Wire)
    ensures Fits(w)
  {
    match ParseField(rest, MAX_FUDA_LEN)
    case None => Wire(id, [], [], [])
    case Some(f) =>
      var afterFuda := rest[2 + |f|..];
      match ParseField(afterFuda, MAX_YOMI_LEN)
      case None => Wire(id, f, [], [])
      case Some(y) =>
        match ParseField(afterFuda[2 + |y|..], MAX_IMAGE_LEN)
        case None => Wire(id, f, y, [])
        case Some(i) => Wire(id, f, y, i)
  }

  lemma FilledWhenParsed(id: u32, rest: seq<bv8>)
    ensures ParseStrings(id, rest).Some? ==> ParseStrings(id, rest).value == FilledStrings(id, rest)
  {
    hide ParseField;
  }

  /** The struct after card_decode_single: untouched if there are fewer than ten bytes, otherwise
      zeroed and filled as far as the bytes parse. */
  function FilledCard(rest: seq<bv8>, was: Card): Card {
    if |rest| < 10 then was else ToCard(FilledStrings(U32Of(rest[..4]), rest[4..]))
  }

  /** A card that parses fills its struct. */
  lemma FilledCardIs(rest: seq<bv8>, was: Card)
    requires ParseCard(rest).Some?
    ensures FilledCard(rest, was) == ToCard(ParseCard(rest).value)
  {
    hide ParseStrings, FilledStrings, U32Of, ToCard;
    FilledWhenParsed(U32Of(rest[..4]), rest[4..]);
  }

  /** The structs after the decoding loop, which stops at the first card that does not parse. */
  function Filling(rest: seq<bv8>, n: nat, was: seq<Card>): (cs: seq<Card>)
    requires n <= |was|
    ensures |cs| == |was|
    decreases n
  {
    if n == 0 then was
    else
      match ParseCard(rest)
      case None => [FilledCard(rest, was[0])] + was[1..]
      case Some(w) => [ToCard(w)] + Filling(rest[|WireBytes(w)|..], n - 1, was[1..])
  }

  lemma ParseCardsCons(rest: seq<bv8>, n: nat)
    requires n > 0 && ParseCards(rest, n).Some?
    ensures ParseCard(rest).Some?
    ensures var w := ParseCard(rest).value;
            var ws := ParseCards(rest[|WireBytes(w)|..], n - 1);
            ws.Some? && ParseCards(rest, n).value == [w] + ws.value
  {
    hide ParseCard, WireBytes, AllFit, AllBytes, Fits;
  }

  lemma ToCardsCons(w: Wire, ws: seq<Wire>)
    requires Fits(w) && AllFit(ws)
    ensures AllFit([w] + ws) && ToCards([w] + ws) == [ToCard(w)] + ToCards(ws)
  {
    hide ToCard, Fits;
    OneMoreCard(w, ws);
  }

  lemma FillingCons(rest: seq<bv8>, n: nat, was: seq<Card>)
    requires 0 < n <= |was| && ParseCard(rest).Some?
    ensures var w := ParseCard(rest).value;
            Filling(rest, n, was) == [ToCard(w)] + Filling(rest[|WireBytes(w)|..], n - 1, was[1..])
  {
    hide ParseCard, WireBytes, ToCard, FilledCard;
  }

  lemma NothingParsed(rest: seq<bv8>, was: seq<Card>)
    ensures ParseCards(rest, 0) == Some([]) && AllFit([]) && ToCards([]) == [] && Filling(rest, 0, was) == was
  {
  }

  /** If all cards parse, the structs are those cards and then what was there. */
  lemma {:induction false} FillingIsCards(rest: seq<bv8>, n: nat, was: seq<Card>)
    requires n <= |was| && ParseCards(rest, n).Some?
    ensures Filling(rest, n, was) == ToCards(ParseCards(rest, n).value) + was[n..]
    decreases n
  {
    hide ParseCard, ParseCards, WireBytes, ToCard, ToCards, Fits, AllFit, AllBytes, FilledCard, Filling;
    if n == 0 {
      NothingParsed(rest, was);
      assert [] + was[0..] == was;
    } else {
      ParseCardsCons(rest, n);
      var w := ParseCard(rest).value;
      var k := |WireBytes(w)|;
      var ws := ParseCards(rest[k..], n - 1).value;
      FillingIsCards(rest[k..], n - 1, was[1..]);
      FillingCons(rest, n, was);
      ToCardsCons(w, ws);
      assert was[1..][n - 1..] == was[n..];
      assert [ToCard(w)] + (ToCards(ws) + was[n..]) == [ToCard(w)] + ToCards(ws) + was[n..];
    }
  }

  /** Structs beyond the count are never touched. */
  lemma {:induction false} FillingKeepsRest(rest: seq<bv8>, n: nat, was: seq<Card>, k: nat)
    requires n <= k < |was|
    ensures Filling(rest, n, was)[k] == was[k]
    decreases n
  {
    hide ParseCard, WireBytes, ToCard, FilledCard;
    if n > 0 && ParseCard(rest).Some? {
      FillingKeepsRest(rest[|WireBytes(ParseCard(rest).value)|..], n - 1, was[1..], k - 1);
    }
  }
}
