/** services/serializer/serializer.c: the loops that write and read packets in the caller's
    buffers, against the format. */
module PacketLoops {
  import CrcTable
  import opened UInt32
  import opened BigEndian
  import opened Buffers
  import opened Options
  import opened PacketCodec

  // ---- The C loops ----

  /** A two-byte length and the string. */
  method PutField(out: array<bv8>, at: nat, t: seq<bv8>)
    requires |t| < 0x1_0000 && at + 2 + |t| <= out.Length
    modifies out
    ensures out[..] == Splice(old(out[..]), at, FieldBytes(t))
  {
    hide U16Bytes, Splice;
    Put(out, at, U16Bytes(|t|));
    Put(out, at + 2, t);
    SpliceSplice(old(out[..]), at, U16Bytes(|t|), t);
  }

  /** The stores of card_encode_single. */
  method PutCard(out: array<bv8>, at: nat, w: Wire)
    requires Fits(w) && at + |WireBytes(w)| <= out.Length
    modifies out
    ensures out[..] == Splice(old(out[..]), at, WireBytes(w))
  {
    hide U32Bytes, FieldBytes, Splice;
    ghost var s := out[..];
    ghost var id, f, y, i := U32Bytes(w.id), FieldBytes(w.fuda), FieldBytes(w.yomi), FieldBytes(w.image);
    Put(out, at, U32Bytes(w.id));
    PutField(out, at + 4, w.fuda);
    SpliceSplice(s, at, id, f);
    PutField(out, at + 6 + |w.fuda|, w.yomi);
    SpliceSplice(s, at, id + f, y);
    PutField(out, at + 8 + |w.fuda| + |w.yomi|, w.image);
    SpliceSplice(s, at, id + f + y, i);
    Regrouped(id, f, y, i);
  }

  lemma Regrouped(b: seq<bv8>, c: seq<bv8>, d: seq<bv8>, e: seq<bv8>)
    ensures b + c + d + e == b + (c + (d + e))
  {
  }

  /** card_encode_single, writing at an offset into out with outSize bytes left there. */
  method EncodeSingle(card: Option<Card>, out: array?<bv8>, at: nat, outSize: nat) returns (code: int, written: nat)
    requires out != null ==> at + outSize <= out.Length
    modifies if out == null then {} else {out}
    ensures card.None? || out == null ==> code == ERR_NULL
    ensures card.Some? && out != null ==> code == EncodeCode(card.value, outSize)
    ensures code == OK ==>
              written == |WireBytes(ToWire(card.value))| <= outSize &&
              out[..] == Splice(old(out[..]), at, WireBytes(ToWire(card.value)))
    ensures code != OK && out != null ==> out[..] == old(out[..])
  {
    hide Validate, StrLen, U16Bytes, U32Bytes, Splice;
    written := 0;
    if card.None? || out == null {
      return ERR_NULL, written;
    }
    code := Validate(card.value);
    if code != OK {
      return code, written;
    }
    var w := ToWire(card.value);
    var total := 4 + 2 + |w.fuda| + 2 + |w.yomi| + 2 + |w.image|;
    if outSize < total {
      return ERR_OVERFLOW, written;
    }
    PutCard(out, at, w);
    return OK, total;
  }

  function EncodeCode(c: Card, outSize: nat): (code: int) {
    if Validate(c) != OK then Validate(c) else if outSize < |WireBytes(ToWire(c))| then ERR_OVERFLOW else OK
  }

  /** The stores of the twelve header bytes. */
  method PutHeader(out: array<bv8>, count: u32)
    requires out.Length >= 12
    modifies out
    ensures out[..] == Splice(old(out[..]), 0, Header([0, 0, 0], count))
  {
    hide U32Bytes, Splice;
    ghost var s, magic, version, zeros: seq<bv8> := out[..], U32Bytes(MAGIC_NUMBER), [FORMAT_VERSION], [0, 0, 0];
    Put(out, 0, U32Bytes(MAGIC_NUMBER));
    Put(out, 4, [FORMAT_VERSION]);
    SpliceSplice(s, 0, magic, version);
    Put(out, 5, [0, 0, 0]);
    SpliceSplice(s, 0, magic + version, zeros);
    Put(out, 8, U32Bytes(count));
    SpliceSplice(s, 0, magic + version + zeros, U32Bytes(count));
  }

  lemma ConsAll(done: seq<bv8>, ws: seq<Wire>, i: nat)
    requires AllFit(ws) && i < |ws|
    ensures AllFit(ws[i..]) && AllFit(ws[i + 1..])
    ensures done + AllBytes(ws[i..]) == done + WireBytes(ws[i]) + AllBytes(ws[i + 1..])
  {
    hide WireBytes;
    assert ws[i..][1..] == ws[i + 1..];
    Associate(done, WireBytes(ws[i]), AllBytes(ws[i + 1..]));
  }

  lemma Associate(a: seq<bv8>, b: seq<bv8>, c: seq<bv8>)
    ensures a + (b + c) == a + b + c
  {
  }

  /** The encoding loop of card_pack, after the header h has been stored. */
  method PackCards(cards: array<Card>, count: nat, out: array<bv8>, outSize: nat, ghost s: seq<bv8>, ghost h: seq<bv8>)
    returns (code: int, off: nat)
    requires cards != out as object && count <= cards.Length && 12 <= outSize <= out.Length
    requires |h| == 12 && |s| == out.Length
    requires forall i | 0 <= i < count :: Validate(cards[i]) == OK
    requires out[..] == Splice(s, 0, h)
    modifies out
    ensures var body := AllBytes(ToWires(old(cards[..count])));
            code == (if outSize < 12 + |body| then ERR_OVERFLOW else OK) &&
            (code == OK ==> off == 12 + |body| && out[..] == Splice(s, 0, h + body))
    ensures out[..] == Splice(s, 0, h + Fitting(ToWires(old(cards[..count])), outSize - 12))
    ensures out[outSize..] == s[outSize..]
  {
    hide Validate, Splice, WireBytes, ToWire, AllFit, AllBytes, Fitting;
    ghost var cs := cards[..count];
    ghost var ws := ToWires(cs);
    ghost var done: seq<bv8> := [];
    off := 12;
    assert h + done == h && ws[0..] == ws && done + AllBytes(ws) == AllBytes(ws);
    for i := 0 to count
      invariant cards[..count] == cs && |s| == out.Length && off == 12 + |done| <= outSize
      invariant AllFit(ws[i..]) && done + AllBytes(ws[i..]) == AllBytes(ws)
      invariant Fitting(ws, outSize - 12) == done + Fitting(ws[i..], outSize - off)
      invariant out[..] == Splice(s, 0, h + done)
    {
      ConsAll(done, ws, i);
      assert cards[i] == cs[i] && ws[i] == ToWire(cs[i]);
      var r, written := EncodeSingle(Some(cards[i]), out, off, outSize - off);
      FittingStep(done, ws, i, outSize - off);
      if r != OK {
        TailKept(s, h + done, out[..], outSize);
        return r, off;
      }
      SpliceSplice(s, 0, h + done, WireBytes(ws[i]));
      Associate(h, done, WireBytes(ws[i]));
      done := done + WireBytes(ws[i]);
      off := off + written;
    }
    NoCardsLeft(ws, done, outSize - off);
    TailKept(s, h + done, out[..], outSize);
    return OK, off;
  }

  lemma NoCardsLeft(ws: seq<Wire>, done: seq<bv8>, room: nat)
    requires AllFit(ws[|ws|..])
    ensures done + AllBytes(ws[|ws|..]) == done && done + Fitting(ws[|ws|..], room) == done
  {
  }

  /** The next card is stored if it fits, and otherwise nothing more is. */
  lemma FittingStep(done: seq<bv8>, ws: seq<Wire>, i: nat, room: nat)
    requires AllFit(ws) && i < |ws|
    ensures AllFit(ws[i..]) && AllFit(ws[i + 1..]) && Fits(ws[i])
    ensures done + Fitting(ws[i..], room) ==
            if |WireBytes(ws[i])| > room then done
            else done + WireBytes(ws[i]) + Fitting(ws[i + 1..], room - |WireBytes(ws[i])|)
  {
    hide WireBytes, Fits;
    ConsAll(done, ws, i);
    assert ws[i..][0] == ws[i] && ws[i..][1..] == ws[i + 1..];
    if |WireBytes(ws[i])| <= room {
      Associate(done, WireBytes(ws[i]), Fitting(ws[i + 1..], room - |WireBytes(ws[i])|));
    }
  }

  lemma TailKept(s: seq<bv8>, b: seq<bv8>, r: seq<bv8>, n: nat)
    requires |b| <= n <= |s| && r == Splice(s, 0, b)
    ensures r[n..] == s[n..]
  {
    hide Splice;
    assert r[n..] == r[|b|..][n - |b|..];
  }

  /** card_pack. */
  method CardPack(table: CrcTable.Table, cards: array?<Card>, count: u32, out: array?<bv8>, outSize: nat)
    returns (code: int, written: nat)
    requires table.Valid() && (cards != null ==> cards != out as object? && count <= cards.Length)
    requires out != null ==> outSize <= out.Length
    modifies table`ready, table.entries, if out == null then {} else {out}
    ensures table.Valid() && table.entries == old(table.entries)
    ensures cards == null || out == null ==> code == ERR_NULL
    ensures cards != null && out != null ==> code == PackCode(old(cards[..count]), outSize)
    ensures code == OK ==>
              var packet := Packet(ToWires(old(cards[..count])));
              written == |packet| <= outSize && out[..] == Splice(old(out[..]), 0, packet)
    ensures out != null ==> out[outSize..] == old(out[outSize..])
    ensures code == ERR_NULL && out != null ==> out[..] == old(out[..])
    ensures cards != null && out != null && code != OK ==>
              var cs := old(cards[..count]);
              if Begun(cs, outSize) then
                (BegunValid(cs, outSize);
                 out[..] == Splice(old(out[..]), 0, Header([0, 0, 0], count) + Fitting(ToWires(cs), outSize - 12)))
              else out[..] == old(out[..])
  {
    hide Validate, Splice, AllBytes, AllFit, ToWires, Header, U32Bytes, CrcOf, Fitting;
    written := 0;
    if cards == null || out == null {
      return ERR_NULL, written;
    }
    if count > MAX_CARDS {
      return ERR_TOO_MANY, written;
    }
    if outSize < 16 {
      return ERR_OVERFLOW, written;
    }
    ghost var cs, s, h := cards[..count], out[..], Header([0, 0, 0], count);
    code := ValidateCards(cards, count);
    if code != OK {
      return code, written;
    }
    AllValid(cs);
    PutHeader(out, count);
    assert cards[..count] == cs;
    var off;
    code, off := PackCards(cards, count, out, outSize, s, h);
    if code != OK {
      return code, written;
    }
    assert out[..] == Splice(s, 0, h + Fitting(ToWires(cs), outSize - 12));
    code := PutSeal(table, out, off, outSize, s, h + AllBytes(ToWires(cs)));
    return code, off + 4;
  }

  /** The checksum at the end of card_pack, over the bytes stored so far. */
  method PutSeal(table: CrcTable.Table, out: array<bv8>, off: nat, outSize: nat, ghost s: seq<bv8>,
                 ghost data: seq<bv8>)
    returns (code: int)
    requires table.Valid() && |s| == out.Length && off == |data| <= outSize <= out.Length
    requires out[..] == Splice(s, 0, data)
    modifies table`ready, table.entries, out
    ensures table.Valid() && table.entries == old(table.entries)
    ensures code == if outSize < off + 4 then ERR_OVERFLOW else OK
    ensures out[..] == if code == OK then Splice(s, 0, Sealed(data)) else old(out[..])
    ensures out[outSize..] == s[outSize..]
  {
    hide Splice, U32Bytes, AsNumber;
    assert out[..off] == data;
    TailKept(s, data, out[..], outSize);
    var crc := table.Crc32Compute(out, off);
    assert out[..] == Splice(s, 0, data);
    if outSize - off < 4 {
      return ERR_OVERFLOW;
    }
    Put(out, off, U32Bytes(AsNumber(crc)));
    SpliceSplice(s, 0, data, U32Bytes(CrcOf(data)));
    TailKept(s, Sealed(data), out[..], outSize);
    return OK;
  }

  /** cards_validate_all. */
  method ValidateCards(cards: array<Card>, count: nat) returns (code: int)
    requires count <= cards.Length
    ensures code == ValidateAll(cards[..count])
  {
    hide Validate;
    for i := 0 to count
      invariant ValidateAll(cards[..count]) == ValidateAll(cards[i..count])
    {
      assert cards[i..count][1..] == cards[i + 1..count];
      var r := Validate(cards[i]);
      if r != OK {
        return r;
      }
    }
    return OK;
  }

  /** One length-prefixed string: two length bytes, two checks, memcpy. */
  method ReadField(buf: array<bv8>, p: nat, remaining: nat, max: nat) returns (t: Option<seq<bv8>>)
    requires p + remaining <= buf.Length
    ensures t == ParseField(buf[p..p + remaining], max)
  {
    hide U16Of;
    if remaining < 2 {
      return None;
    }
    ghost var rest := buf[p..p + remaining];
    assert rest[..2] == buf[p..p + 2];
    var len := U16Of(buf[p..p + 2]);
    if remaining - 2 < len || len >= max {
      return None;
    }
    Tail(buf[..], p, 2, remaining);
    assert rest[2..2 + len] == rest[2..][..len] == buf[p + 2..p + 2 + len];
    return Some(buf[p + 2..p + 2 + len]);
  }

  /** card_decode_single on the size bytes from an offset, into a struct that held `was`. */
  method DecodeSingle(buf: array<bv8>, at: nat, size: nat, was: Card) returns (code: int, card: Card, consumed: nat)
    requires at + size <= buf.Length
    ensures card == FilledCard(buf[at..at + size], was)
    ensures var w := ParseCard(buf[at..at + size]);
            code == (if w.None? then ERR_TRUNCATED else OK) &&
            (w.Some? ==> card == ToCard(w.value) && consumed == |WireBytes(w.value)| <= size)
  {
    hide U32Of, ParseStrings, ToCard, FilledStrings;
    ghost var rest := buf[at..at + size];
    consumed := 0;
    if size < 10 {
      return ERR_TRUNCATED, was, consumed;
    }
    FirstBytes(buf[..], at, 4, size);
    Tail(buf[..], at, 4, size);
    var id := U32Of(buf[at..at + 4]);
    var ok, w := ReadStrings(buf, at + 4, size - 4, id);
    FilledWhenParsed(id, rest[4..]);
    card := ToCard(w);
    if !ok {
      return ERR_TRUNCATED, card, consumed;
    }
    consumed := 10 + |w.fuda| + |w.yomi| + |w.image|;
    return OK, card, consumed;
  }

  lemma FirstBytes(s: seq<bv8>, at: nat, k: nat, size: nat)
    requires k <= size && at + size <= |s|
    ensures s[at..at + size][..k] == s[at..at + k]
  {
  }

  /** The three strings, each read where the one before it ended; a string that does not parse
      ends the reading and stores nothing. */
  method ReadStrings(buf: array<bv8>, at: nat, size: nat, id: u32) returns (ok: bool, w: Wire)
    requires at + size <= buf.Length
    ensures w == FilledStrings(id, buf[at..at + size]) && (ok <==> ParseStrings(id, buf[at..at + size]).Some?)
  {
    hide ParseField, WireBytes, Fits;
    var p, remaining := at, size;
    w := Wire(id, [], [], []);
    var fuda := ReadField(buf, p, remaining, MAX_FUDA_LEN);
    if fuda.None? {
      return false, w;
    }
    Tail(buf[..], p, 2 + |fuda.value|, remaining);
    p, remaining, w := p + 2 + |fuda.value|, remaining - 2 - |fuda.value|, w.(fuda := fuda.value);
    var yomi := ReadField(buf, p, remaining, MAX_YOMI_LEN);
    if yomi.None? {
      return false, w;
    }
    Tail(buf[..], p, 2 + |yomi.value|, remaining);
    p, remaining, w := p + 2 + |yomi.value|, remaining - 2 - |yomi.value|, w.(yomi := yomi.value);
    var image := ReadField(buf, p, remaining, MAX_IMAGE_LEN);
    if image.None? {
      return false, w;
    }
    return true, w.(image := image.value);
  }

  lemma Tail(s: seq<bv8>, at: nat, k: nat, size: nat)
    requires k <= size && at + size <= |s|
    ensures s[at..at + size][k..] == s[at + k..at + size]
  {
  }

  /** card_unpack. Every size passed down is a natural number, so off + 4 <= bufSize holds
      at each turn and neither subtraction underflows, whatever the bytes are. */
  method CardUnpack(table: CrcTable.Table, buf: array?<bv8>, bufSize: nat, cardsOut: array?<Card>, maxCards: u32)
    returns (code: int, count: u32)
    requires table.Valid() && (buf != null ==> bufSize <= buf.Length && buf as object? != cardsOut)
    requires cardsOut != null ==> maxCards <= cardsOut.Length && table.entries as object? != cardsOut
    modifies table`ready, table.entries, if cardsOut == null then {} else {cardsOut}
    ensures table.Valid() && table.entries == old(table.entries)
    ensures buf == null || cardsOut == null ==> code == ERR_NULL
    ensures buf != null && cardsOut != null ==>
              var r := Unpack(old(buf[..bufSize]), maxCards);
              code == r.code &&
              (code == OK ==> count == |r.cards| && cardsOut[..count] == ToCards(r.cards))
    ensures buf != null && cardsOut != null ==>
              var bytes := old(buf[..bufSize]);
              cardsOut[..] == if HeaderCode(bytes, maxCards) != OK then old(cardsOut[..])
                              else Filling(bytes[12..bufSize - 4], CountOf(bytes), old(cardsOut[..]))
    ensures cardsOut != null ==> cardsOut[maxCards..] == old(cardsOut[maxCards..])
  {
    hide Unpack, HeaderCode, MagicOf, CountOf, VersionOk, ParseCards, AllBytes, AllFit, SealHolds, ToCards, Filling;
    count := 0;
    if buf == null || cardsOut == null {
      return ERR_NULL, count;
    }
    ghost var bytes := buf[..bufSize];
    code, count := ReadHeader(buf, bufSize, maxCards);
    if code != OK {
      HeaderRead(bytes, maxCards);
      return code, count;
    }
    HeaderRead(bytes, maxCards);
    assert bytes[12..bufSize - 4] == buf[12..bufSize - 4];
    ghost var was := cardsOut[..];
    code := ReadBody(table, buf, bufSize, cardsOut, count);
    forall k | maxCards <= k < |was|
      ensures cardsOut[k] == was[k]
    {
      FillingKeepsRest(bytes[12..bufSize - 4], count, was, k);
    }
    return code, count;
  }

  lemma HeaderRead(buf: seq<bv8>, maxCards: u32)
    ensures HeaderCode(buf, maxCards) != OK ==> Unpack(buf, maxCards) == Unpacked(HeaderCode(buf, maxCards), [])
    ensures HeaderCode(buf, maxCards) == OK ==> Unpack(buf, maxCards) == UnpackBody(buf, CountOf(buf))
  {
    hide HeaderCode, UnpackBody, CountOf;
  }

  method ReadBody(table: CrcTable.Table, buf: array<bv8>, bufSize: nat, cardsOut: array<Card>, count: u32)
    returns (code: int)
    requires table.Valid() && 16 <= bufSize <= buf.Length && count <= cardsOut.Length && buf != cardsOut as object
    requires table.entries != cardsOut as object
    modifies table`ready, table.entries, cardsOut
    ensures table.Valid() && table.entries == old(table.entries)
    ensures var r := UnpackBody(old(buf[..bufSize]), count);
            code == r.code && (code == OK ==> count == |r.cards| && cardsOut[..count] == ToCards(r.cards))
    ensures cardsOut[..] == Filling(old(buf[12..bufSize - 4]), count, old(cardsOut[..]))
  {
    hide ParseCards, AllBytes, AllFit, SealHolds, ToCard, Filling;
    ghost var bytes := buf[..bufSize];
    assert bytes[12..|bytes| - 4] == buf[12..bufSize - 4];
    var off;
    code, off := ReadCards(buf, bufSize, cardsOut, count);
    assert buf[..bufSize] == bytes;
    if code != OK {
      return code;
    }
    ghost var filled := cardsOut[..];
    FillingIsCards(bytes[12..|bytes| - 4], count, old(cardsOut[..]));
    code := CheckSeal(table, buf, bufSize, off);
    assert cardsOut[..] == filled && cardsOut[..count] == filled[..count];
    return code;
  }

  method ReadHeader(buf: array<bv8>, bufSize: nat, maxCards: u32) returns (code: int, count: u32)
    requires bufSize <= buf.Length
    ensures code == HeaderCode(buf[..bufSize], maxCards)
    ensures code == OK ==> count == CountOf(buf[..bufSize])
  {
    hide U32Of;
    count := 0;
    if bufSize < 16 {
      return ERR_TRUNCATED, count;
    }
    ghost var bytes := buf[..bufSize];
    assert bytes[..4] == buf[0..4] && bytes[8..12] == buf[8..12];
    var magic := U32Of(buf[0..4]);
    if magic != MAGIC_NUMBER {
      return ERR_MAGIC, count;
    }
    if buf[4] != FORMAT_VERSION {
      return ERR_VERSION, count;
    }
    count := U32Of(buf[8..12]);
    if count > maxCards {
      return ERR_TOO_MANY, count;
    }
    return OK, count;
  }

  /** i of the n cards have been parsed, off bytes in, and rest is to be parsed. */
  ghost predicate Left(full: Option<seq<Wire>>, rest: seq<bv8>, i: nat, n: nat, off: nat)
    requires i <= n
  {
    match full
    case None => ParseCards(rest, n - i) == None
    case Some(ws) =>
      AllFit(ws) && |ws| == n && ParseCards(rest, n - i) == Some(ws[i..]) &&
      off + |AllBytes(ws[i..])| == 12 + |AllBytes(ws)|
  }

  lemma LeftStep(full: Option<seq<Wire>>, rest: seq<bv8>, i: nat, n: nat, off: nat)
    requires i < n && Left(full, rest, i, n, off)
    ensures ParseCard(rest).None? ==> full.None?
    ensures ParseCard(rest).Some? ==>
              var k := |WireBytes(ParseCard(rest).value)|;
              (full.Some? ==> full.value[i] == ParseCard(rest).value) && Left(full, rest[k..], i + 1, n, off + k)
  {
    hide ParseCard, WireBytes, Fits;
    if full.Some? {
      var ws := full.value;
      assert ws[i..][1..] == ws[i + 1..];
      var w := ParseCard(rest).value;
      var v := ParseCards(rest[|WireBytes(w)|..], n - i - 1);
      assert v.Some? && [w] + v.value == ws[i..];
      assert ([w] + v.value)[1..] == v.value;
    }
  }

  lemma LeftDone(full: Option<seq<Wire>>, rest: seq<bv8>, n: nat, off: nat)
    requires Left(full, rest, n, n, off)
    ensures full.Some? && off == 12 + |AllBytes(full.value)|
  {
  }

  /** The decoding loop of card_unpack. */
  method ReadCards(buf: array<bv8>, bufSize: nat, cardsOut: array<Card>, count: nat) returns (code: int, off: nat)
    requires 16 <= bufSize <= buf.Length && count <= cardsOut.Length && buf != cardsOut as object
    modifies cardsOut
    ensures var ws := ParseCards(old(buf[12..bufSize - 4]), count);
            code == (if ws.None? then ERR_TRUNCATED else OK) &&
            (ws.Some? ==> off == 12 + |AllBytes(ws.value)| && off + 4 <= bufSize)
    ensures cardsOut[..] == Filling(old(buf[12..bufSize - 4]), count, old(cardsOut[..]))
  {
    hide ParseCard, ParseCards, WireBytes, AllBytes, ToCard, Left, AllFit, Filling, FilledCard, FillsOn;
    ghost var was, filling := cardsOut[..], Filling(buf[12..bufSize - 4], count, cardsOut[..]);
    FillStart(was, buf[12..bufSize - 4], count);
    ghost var full := ParseCards(buf[12..bufSize - 4], count);
    LeftStart(buf[12..bufSize - 4], count);
    off := 12;
    for i := 0 to count
      invariant 12 <= off && off + 4 <= bufSize && Left(full, buf[off..bufSize - 4], i, count, off)
      invariant FillsOn(cardsOut[..], was, i, buf[off..bufSize - 4], count - i, filling)
    {
      ghost var rest := buf[off..bufSize - 4];
      LeftStep(full, rest, i, count, off);
      var r, card, consumed := DecodeSingle(buf, off, bufSize - off - 4, cardsOut[i]);
      FillTurn(cardsOut[..], was, i, rest, count - i, filling);
      ghost var before := cardsOut[..];
      cardsOut[i] := card;
      assert cardsOut[..] == before[i := card] && buf[off..bufSize - 4] == rest;
      if r != OK {
        return r, off;
      }
      Tail(buf[..], off, consumed, bufSize - off - 4);
      off := off + consumed;
    }
    LeftDone(full, buf[off..bufSize - 4], count, off);
    FillEnd(cardsOut[..], was, count, buf[off..bufSize - 4], filling);
    return OK, off;
  }

  /** i structs are done, n cards remain to be parsed from rest. */
  ghost predicate FillsOn(now: seq<Card>, was: seq<Card>, i: nat, rest: seq<bv8>, n: nat, filling: seq<Card>) {
    |now| == |was| && i + n <= |was| && now[i..] == was[i..] && filling == now[..i] + Filling(rest, n, was[i..])
  }

  lemma FillStart(was: seq<Card>, rest: seq<bv8>, n: nat)
    requires n <= |was|
    ensures FillsOn(was, was, 0, rest, n, Filling(rest, n, was))
  {
    hide Filling;
    assert was[0..] == was;
  }

  /** One card more, or the end of the loop. */
  lemma FillTurn(now: seq<Card>, was: seq<Card>, i: nat, rest: seq<bv8>, n: nat, filling: seq<Card>)
    requires FillsOn(now, was, i, rest, n, filling) && n > 0
    ensures ParseCard(rest).None? ==> now[i := FilledCard(rest, now[i])] == filling
    ensures ParseCard(rest).Some? ==>
              FillsOn(now[i := FilledCard(rest, now[i])], was, i + 1, rest[|WireBytes(ParseCard(rest).value)|..], n - 1,
                      filling)
  {
    hide ParseCard, WireBytes, ToCard, FilledCard;
    var card := FilledCard(rest, now[i]);
    assert now[i] == now[i..][0] == was[i..][0] && was[i..][1..] == was[i + 1..];
    assert now[i := card][i + 1..] == now[i..][1..] == was[i + 1..];
    assert now[i := card][..i + 1] == now[..i] + [card];
    if ParseCard(rest).Some? {
      FilledCardIs(rest, now[i]);
      var t := Filling(rest[|WireBytes(ParseCard(rest).value)|..], n - 1, was[i + 1..]);
      assert now[..i] + ([card] + t) == now[..i] + [card] + t;
    }
  }

  lemma FillEnd(now: seq<Card>, was: seq<Card>, i: nat, rest: seq<bv8>, filling: seq<Card>)
    requires FillsOn(now, was, i, rest, 0, filling)
    ensures now == filling
  {
  }

  lemma LeftStart(rest: seq<bv8>, n: nat)
    ensures Left(ParseCards(rest, n), rest, 0, n, 12)
  {
    hide ParseCards, AllBytes;
    if ParseCards(rest, n).Some? {
      var ws := ParseCards(rest, n).value;
      assert ws[0..] == ws;
    }
  }

  /** The checksum comparison at the end of card_unpack; the length check before it cannot fail. */
  method CheckSeal(table: CrcTable.Table, buf: array<bv8>, bufSize: nat, off: nat) returns (code: int)
    requires table.Valid() && off + 4 <= bufSize <= buf.Length
    modifies table`ready, table.entries
    ensures table.Valid() && table.entries == old(table.entries)
    ensures code == if SealHolds(old(buf[..bufSize]), off) then OK else ERR_INVALID
  {
    hide U32Of, AsNumber;
    ghost var bytes := buf[..bufSize];
    assert bytes[off..off + 4] == buf[off..off + 4] && bytes[..off] == buf[..off];
    var stored := U32Of(buf[off..off + 4]);
    var crc := table.Crc32Compute(buf, off);
    return if stored != AsNumber(crc) then ERR_INVALID else OK;
  }
}
