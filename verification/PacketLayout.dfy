/** What the bytes of a packet are, position by position, which damage the trailer reveals, and the
    look at a packet that services/serializer/serializer.c offers over HTTP. */
module PacketLayout {
  import Crc32
  import opened UInt32
  import opened Bytes
  import opened BigEndian
  import opened Options
  import opened PacketCodec

  /** Four bytes read with the most significant first. */
  function WordAt(p: seq<bv8>, at: nat): int
    requires at + 4 <= |p|
  {
    Val(p[at]) * 0x100_0000 + Val(p[at + 1]) * 0x1_0000 + Val(p[at + 2]) * 0x100 + Val(p[at + 3])
  }

  function HalfAt(p: seq<bv8>, at: nat): int
    requires at + 2 <= |p|
  {
    Val(p[at]) * 0x100 + Val(p[at + 1])
  }

  lemma WordStored(p: seq<bv8>, at: nat, n: u32)
    requires at + 4 <= |p| && p[at..at + 4] == U32Bytes(n)
    ensures WordAt(p, at) == n
  {
    hide U32Bytes, Val;
    U32RoundTrip(n);
    assert p[at..at + 4][0] == p[at];
  }

  lemma HalfStored(p: seq<bv8>, at: nat, n: nat)
    requires n < 0x1_0000 && at + 2 <= |p| && p[at..at + 2] == U16Bytes(n)
    ensures HalfAt(p, at) == n
  {
    hide U16Bytes, Val;
    U16RoundTrip(n);
    assert p[at..at + 2][0] == p[at];
  }

  // ---- The frame ----

  /** A packet starts with the letters KRTU, version 1, three zero bytes and the count, and ends with
      the CRC-32 of everything before it, numbers most significant byte first. */
  lemma FrameBytes(ws: seq<Wire>)
    requires AllFit(ws) && |ws| < 0x1_0000_0000
    ensures var p := Packet(ws);
            |p| >= 16 && p[..8] == [0x4B, 0x52, 0x54, 0x55, 1, 0, 0, 0] && WordAt(p, 8) == |ws| &&
            WordAt(p, |p| - 4) == Crc32.Reference(p[..|p| - 4]) as int
  {
    hide AllBytes, AllFit, U32Bytes, WordAt, Crc32.Reference;
    var p := Packet(ws);
    var data := Header([0, 0, 0], |ws|) + AllBytes(ws);
    assert p == data + U32Bytes(CrcOf(data));
    MagicBytes();
    assert p[..8] == U32Bytes(MAGIC_NUMBER) + [FORMAT_VERSION] + [0, 0, 0];
    assert p[8..12] == U32Bytes(|ws|);
    WordStored(p, 8, |ws|);
    assert p[..|p| - 4] == data && p[|p| - 4..] == U32Bytes(CrcOf(data));
    WordStored(p, |p| - 4, CrcOf(data));
  }

  lemma MagicBytes()
    ensures U32Bytes(MAGIC_NUMBER) == [0x4B, 0x52, 0x54, 0x55]
  {
    hide ToByte, Val;
    assert U32Of([0x4B, 0x52, 0x54, 0x55]) == MAGIC_NUMBER by {
      MagicValues();
    }
    U32Back([0x4B, 0x52, 0x54, 0x55]);
  }

  lemma MagicValues()
    ensures Val(0x4B) == 0x4B && Val(0x52) == 0x52 && Val(0x54) == 0x54 && Val(0x55) == 0x55
  {
  }

  // ---- A card ----

  /** The bytes at a position are a card: the id, then three strings behind their lengths, in the
      order name, verse, picture. */
  predicate CardAt(p: seq<bv8>, at: nat, w: Wire) {
    at + 10 + |w.fuda| + |w.yomi| + |w.image| <= |p| && WordAt(p, at) == w.id &&
    TextAt(p, at + 4, w.fuda) && TextAt(p, at + 6 + |w.fuda|, w.yomi) &&
    TextAt(p, at + 8 + |w.fuda| + |w.yomi|, w.image)
  }

  predicate TextAt(p: seq<bv8>, at: nat, t: seq<bv8>) {
    at + 2 + |t| <= |p| && HalfAt(p, at) == |t| && p[at + 2..at + 2 + |t|] == t
  }

  lemma TextStored(p: seq<bv8>, at: nat, t: seq<bv8>)
    requires |t| < 0x1_0000 && at + 2 + |t| <= |p| && p[at..at + 2 + |t|] == FieldBytes(t)
    ensures TextAt(p, at, t)
  {
    hide U16Bytes, HalfAt;
    assert p[at..at + 2] == p[at..at + 2 + |t|][..2];
    assert p[at + 2..at + 2 + |t|] == p[at..at + 2 + |t|][2..];
    HalfStored(p, at, |t|);
  }

  lemma CardStored(p: seq<bv8>, at: nat, w: Wire)
    requires Fits(w) && at + |WireBytes(w)| <= |p| && p[at..at + |WireBytes(w)|] == WireBytes(w)
    ensures CardAt(p, at, w)
  {
    hide U32Bytes, FieldBytes, WordAt, TextAt;
    FourParts(p, at, U32Bytes(w.id), FieldBytes(w.fuda), FieldBytes(w.yomi), FieldBytes(w.image));
    WordStored(p, at, w.id);
    TextStored(p, at + 4, w.fuda);
    TextStored(p, at + 6 + |w.fuda|, w.yomi);
    TextStored(p, at + 8 + |w.fuda| + |w.yomi|, w.image);
  }

  lemma FourParts(p: seq<bv8>, at: nat, a: seq<bv8>, b: seq<bv8>, c: seq<bv8>, d: seq<bv8>)
    requires at + |a| + |b| + |c| + |d| <= |p| && p[at..at + |a| + |b| + |c| + |d|] == a + (b + (c + d))
    ensures p[at..at + |a|] == a && p[at + |a|..at + |a| + |b|] == b
    ensures p[at + |a| + |b|..at + |a| + |b| + |c|] == c
    ensures p[at + |a| + |b| + |c|..at + |a| + |b| + |c| + |d|] == d
  {
    FirstPart(p, at, a, b + (c + d));
    FirstPart(p, at + |a|, b, c + d);
    FirstPart(p, at + |a| + |b|, c, d);
  }

  lemma FirstPart(p: seq<bv8>, at: nat, a: seq<bv8>, b: seq<bv8>)
    requires at + |a| + |b| <= |p| && p[at..at + |a| + |b|] == a + b
    ensures p[at..at + |a|] == a && p[at + |a|..at + |a| + |b|] == b
  {
    assert p[at..at + |a|] == p[at..at + |a| + |b|][..|a|];
    assert p[at + |a|..at + |a| + |b|] == p[at..at + |a| + |b|][|a|..];
  }

  /** Where the k-th card starts. */
  function CardStart(ws: seq<Wire>, k: nat): nat
    requires k <= |ws|
  {
    if k == 0 then 12
    else CardStart(ws, k - 1) + 10 + |ws[k - 1].fuda| + |ws[k - 1].yomi| + |ws[k - 1].image|
  }

  lemma {:induction false} StartIsPrefix(ws: seq<Wire>, k: nat)
    requires AllFit(ws) && k <= |ws|
    ensures AllFit(ws[..k]) && CardStart(ws, k) == 12 + |AllBytes(ws[..k])|
    decreases k
  {
    hide AllFit, AllBytes, Fits, WireBytes;
    if k == 0 {
      PacketCodec.NoCards();
      assert ws[..0] == [];
    } else {
      StartIsPrefix(ws, k - 1);
      assert ws[..k] == ws[..k - 1] + [ws[k - 1]];
      EachFits(ws, k - 1);
      BytesSnoc(ws[..k - 1], ws[k - 1]);
    }
  }

  lemma {:induction false} BytesSnoc(ws: seq<Wire>, w: Wire)
    requires AllFit(ws) && Fits(w)
    ensures AllFit(ws + [w]) && AllBytes(ws + [w]) == AllBytes(ws) + WireBytes(w)
    decreases |ws|
  {
    hide WireBytes, Fits;
    if ws == [] {
      OneMoreCard(w, []);
      assert [w] + [] == [] + [w] && WireBytes(w) + [] == [] + WireBytes(w);
    } else {
      BytesSnoc(ws[1..], w);
      assert (ws + [w])[1..] == ws[1..] + [w];
    }
  }

  lemma {:induction false} BytesSplit(ws: seq<Wire>, k: nat)
    requires AllFit(ws) && k < |ws|
    ensures AllFit(ws[..k]) && AllFit(ws[k + 1..])
    ensures AllBytes(ws) == AllBytes(ws[..k]) + WireBytes(ws[k]) + AllBytes(ws[k + 1..])
    decreases k
  {
    hide WireBytes, Fits;
    if k == 0 {
      assert AllBytes(ws[..0]) == [];
    } else {
      BytesSplit(ws[1..], k - 1);
      assert ws[1..][..k - 1] == ws[..k][1..] && ws[1..][k..] == ws[k + 1..] && ws[1..][k - 1] == ws[k];
    }
  }

  /** The cards stand one behind the other from position 12 on, and nothing is between the last of
      them and the trailer. */
  lemma CardsInPlace(ws: seq<Wire>)
    requires AllFit(ws) && |ws| < 0x1_0000_0000
    ensures |Packet(ws)| == CardStart(ws, |ws|) + 4
    ensures forall k: nat | k < |ws| :: CardAt(Packet(ws), CardStart(ws, k), ws[k])
  {
    hide CardAt, AllBytes, AllFit, CardStart, Packet;
    StartIsPrefix(ws, |ws|);
    assert ws[..|ws|] == ws;
    forall k: nat | k < |ws|
      ensures CardAt(Packet(ws), CardStart(ws, k), ws[k])
    {
      CardInPlace(ws, k);
    }
  }

  lemma CardInPlace(ws: seq<Wire>, k: nat)
    requires AllFit(ws) && k < |ws| < 0x1_0000_0000
    ensures CardAt(Packet(ws), CardStart(ws, k), ws[k])
  {
    hide CardAt, AllBytes, AllFit, CardStart, WireBytes, Header, Fits, U32Bytes, CrcOf;
    EachFits(ws, k);
    StartIsPrefix(ws, k);
    BytesSplit(ws, k);
    var h, end := Header([0, 0, 0], |ws|), U32Bytes(CrcOf(Header([0, 0, 0], |ws|) + AllBytes(ws)));
    var before, card, behind := AllBytes(ws[..k]), WireBytes(ws[k]), AllBytes(ws[k + 1..]);
    assert Packet(ws) == h + (before + card + behind) + end;
    InPacket(h, before, card, behind, end);
    CardStored(Packet(ws), CardStart(ws, k), ws[k]);
  }

  lemma EachFits(ws: seq<Wire>, k: nat)
    requires AllFit(ws) && k < |ws|
    ensures Fits(ws[k])
  {
  }

  lemma InPacket(h: seq<bv8>, a: seq<bv8>, b: seq<bv8>, c: seq<bv8>, end: seq<bv8>)
    ensures var p := h + (a + b + c) + end; p[|h| + |a|..|h| + |a| + |b|] == b
  {
  }

  // ---- Damage ----

  /** A packet with one run of up to four damaged bytes, before the trailer or in it, is refused,
      unless the damage makes its cards end earlier. */
  lemma DamageNoticed(ws: seq<Wire>, damaged: seq<bv8>, at: nat, maxCards: u32)
    requires AllFit(ws) && |ws| < 0x1_0000_0000 && |damaged| == |Packet(ws)| && damaged != Packet(ws)
    requires forall k | 0 <= k < |damaged| && damaged[k] != Packet(ws)[k] :: at <= k < at + 4
    requires at + 4 <= |damaged| - 4 || at >= |damaged| - 4
    ensures var r := Unpack(damaged, maxCards);
            r.code == OK ==> |AllBytes(r.cards)| < |AllBytes(ws)|
  {
    hide AllBytes, AllFit, Unpack, Header, CrcOf, Packet;
    var p, r := Packet(ws), Unpack(damaged, maxCards);
    PacketSealed(ws);
    if r.code == OK {
      PacketOfUnpack(damaged, maxCards);
      var size := 12 + |AllBytes(r.cards)|;
      if |AllBytes(r.cards)| >= |AllBytes(ws)| {
        assert damaged == PacketWith(Reserved(damaged), r.cards);
        SealedParts(damaged, Reserved(damaged), r.cards);
        SealsDiffer(p, damaged, at);
      }
    }
  }

  lemma SealedParts(p: seq<bv8>, reserved: seq<bv8>, ws: seq<Wire>)
    requires AllFit(ws) && |ws| < 0x1_0000_0000 && |reserved| == 3 && p == PacketWith(reserved, ws)
    ensures |p| >= 16 && p[|p| - 4..] == U32Bytes(CrcOf(p[..|p| - 4]))
  {
    hide AllBytes, AllFit, Header, CrcOf, U32Bytes;
    var data := Header(reserved, |ws|) + AllBytes(ws);
    assert p[..|p| - 4] == data;
  }

  lemma PacketSealed(ws: seq<Wire>)
    requires AllFit(ws) && |ws| < 0x1_0000_0000
    ensures var p := Packet(ws); p[|p| - 4..] == U32Bytes(CrcOf(p[..|p| - 4]))
  {
    hide AllFit, PacketWith, CrcOf, U32Bytes;
    SealedParts(Packet(ws), [0, 0, 0], ws);
  }

  lemma SealsDiffer(p: seq<bv8>, q: seq<bv8>, at: nat)
    requires |p| == |q| >= 16 && p != q
    requires forall k | 0 <= k < |q| && q[k] != p[k] :: at <= k < at + 4
    requires at + 4 <= |q| - 4 || at >= |q| - 4
    requires p[|p| - 4..] == U32Bytes(CrcOf(p[..|p| - 4]))
    ensures q[|q| - 4..] != U32Bytes(CrcOf(q[..|q| - 4]))
  {
    hide Crc32.Reference, U32Bytes;
    var a, b := p[..|p| - 4], q[..|q| - 4];
    assert p == a + p[|p| - 4..] && q == b + q[|q| - 4..];
    if at >= |q| - 4 {
      assert a == b;
    } else {
      assert p[|p| - 4..] == q[|q| - 4..];
      Crc32.FourByteBurstDetected(a, b, at);
      NumbersDiffer(Crc32.Reference(a), Crc32.Reference(b));
      U32RoundTrip(CrcOf(a));
      U32RoundTrip(CrcOf(b));
    }
  }

  lemma NumbersDiffer(a: bv32, b: bv32)
    requires a != b
    ensures AsNumber(a) != AsNumber(b)
  {
    assert (a as int) as bv32 == a && (b as int) as bv32 == b;
  }

  // ---- Refusals ----

  /** What is wrong with a card: no id or an empty string first, then a string without its end. */
  lemma CardRefusals(c: Card)
    ensures Validate(c) == 0 || Validate(c) == -6 || Validate(c) == -2
    ensures Validate(c) == -6 <==> c.id == 0 || Text(c.fuda) == [] || Text(c.yomi) == [] || Text(c.image) == []
    ensures Validate(c) == -2 <==>
            Validate(c) != -6 && (0 !in c.fuda || 0 !in c.yomi || 0 !in c.image)
  {
    hide StrLen;
    FullWithoutNul(c.fuda);
    FullWithoutNul(c.yomi);
    FullWithoutNul(c.image);
  }

  lemma FullWithoutNul(s: seq<bv8>)
    ensures StrLen(s) == |s| <==> 0 !in s
  {
    hide StrLen;
    if 0 !in s {
      StrLenUnique(s, |s|);
    }
  }

  /** The first bad card decides. */
  predicate FirstBad(cs: seq<Card>, code: int) {
    exists i | 0 <= i < |cs| :: BadAt(cs, i) && Validate(cs[i]) == code
  }

  predicate BadAt(cs: seq<Card>, i: nat)
    requires i < |cs|
  {
    Validate(cs[i]) != 0 && forall j | 0 <= j < i :: Validate(cs[j]) == 0
  }

  lemma {:induction false} FirstBadIs(cs: seq<Card>)
    ensures ValidateAll(cs) != 0 ==> FirstBad(cs, ValidateAll(cs))
  {
    hide Validate;
    if cs != [] {
      FirstBadIs(cs[1..]);
      if Validate(cs[0]) != 0 {
        assert BadAt(cs, 0);
      } else if ValidateAll(cs) != 0 {
        var i: nat :| i < |cs[1..]| && BadAt(cs[1..], i) && Validate(cs[1..][i]) == ValidateAll(cs[1..]);
        assert cs[i + 1] == cs[1..][i];
        forall j | 0 <= j < i + 1
          ensures Validate(cs[j]) == 0
        {
          assert j > 0 ==> cs[j] == cs[1..][j - 1];
        }
        assert BadAt(cs, i + 1);
      }
    }
  }

  /** card_pack's codes: more than 256 cards, no room for a frame, the first bad card, no room for
      the cards, in this order. */
  lemma PackRefusals(cs: seq<Card>, outSize: nat)
    ensures var code := PackCode(cs, outSize);
            (code == -7 <==> |cs| > 256) &&
            (|cs| <= 256 && outSize < 16 ==> code == -2) &&
            (|cs| <= 256 && outSize >= 16 ==>
               FirstBad(cs, code) ||
               ((forall i | 0 <= i < |cs| :: Validate(cs[i]) == 0) &&
                code == if outSize < 16 + TextSize(cs) then -2 else 0))
  {
    hide Validate, AllBytes, ToWires, TextSize, FirstBad;
    AllValid(cs);
    FirstBadIs(cs);
    if forall i | 0 <= i < |cs| :: Validate(cs[i]) == 0 {
      PackedSize(cs);
    } else {
      NotTooMany(cs);
    }
  }

  lemma NotTooMany(cs: seq<Card>)
    ensures ValidateAll(cs) == 0 || ValidateAll(cs) == -2 || ValidateAll(cs) == -6
  {
    if cs != [] {
      NotTooMany(cs[1..]);
    }
  }

  /** card_unpack's codes: too short, other letters, other version, too many cards, in this order;
      then it is truncated exactly if the cards do not parse, and otherwise the trailer decides. */
  lemma UnpackRefusals(buf: seq<bv8>, maxCards: u32)
    ensures var code := Unpack(buf, maxCards).code;
            if |buf| < 16 then code == -5
            else if buf[..4] != [0x4B, 0x52, 0x54, 0x55] then code == -3
            else if buf[4] != 1 then code == -4
            else if WordAt(buf, 8) > maxCards then code == -7
            else
              var ws := ParseCards(buf[12..|buf| - 4], WordAt(buf, 8));
              if ws == None then code == -5
              else if Sealed(buf[..12 + |AllBytes(ws.value)|]) <= buf then code == 0
              else code == -6
  {
    hide AllBytes, ParseCards, Val, CrcOf, U32Bytes, AllFit;
    if |buf| >= 16 {
      MagicBytes();
      U32Back(buf[..4]);
      U32RoundTrip(MAGIC_NUMBER);
      WordIs(buf, 8);
      var ws := ParseCards(buf[12..|buf| - 4], WordAt(buf, 8));
      if ws.Some? {
        SealIsBytes(buf, 12 + |AllBytes(ws.value)|);
      }
    }
  }

  lemma WordIs(p: seq<bv8>, at: nat)
    requires at + 4 <= |p|
    ensures U32Of(p[at..at + 4]) == WordAt(p, at)
  {
  }

  lemma SealIsBytes(buf: seq<bv8>, at: nat)
    requires at + 4 <= |buf|
    ensures SealHolds(buf, at) <==> Sealed(buf[..at]) <= buf
  {
    hide CrcOf, U32Bytes, U32Of;
    U32RoundTrip(CrcOf(buf[..at]));
    U32Back(buf[at..at + 4]);
    assert buf[..at + 4] == buf[..at] + buf[at..at + 4];
    if Sealed(buf[..at]) <= buf {
      assert buf[at..at + 4] == Sealed(buf[..at])[at..at + 4] == U32Bytes(CrcOf(buf[..at]));
    }
  }

  // ---- Cut off ----

  /** A card cut off after ten bytes or more fills its struct with the id and exactly the strings that
      arrived whole. */
  lemma CutCardFills(w: Wire, n: nat, was: Card)
    requires Fits(w) && 10 <= n <= |WireBytes(w)|
    ensures var f, y, i := |w.fuda|, |w.yomi|, |w.image|;
            FilledCard(WireBytes(w)[..n], was) ==
            ToCard(Wire(w.id, if n < 6 + f then [] else w.fuda, if n < 8 + f + y then [] else w.yomi,
                        if n < 10 + f + y + i then [] else w.image))
  {
    hide U32Bytes, U32Of, FieldBytes, ToCard, ParseField;
    var rest := WireBytes(w)[..n];
    var strings := FieldBytes(w.fuda) + (FieldBytes(w.yomi) + FieldBytes(w.image));
    assert rest[..4] == U32Bytes(w.id) && rest[4..] == strings[..n - 4];
    U32RoundTrip(w.id);
    CutField(w.fuda, FieldBytes(w.yomi) + FieldBytes(w.image), n - 4, MAX_FUDA_LEN);
    if n >= 6 + |w.fuda| {
      CutField(w.yomi, FieldBytes(w.image), n - 6 - |w.fuda|, MAX_YOMI_LEN);
      if n >= 8 + |w.fuda| + |w.yomi| {
        assert FieldBytes(w.image) + [] == FieldBytes(w.image);
        CutField(w.image, [], n - 8 - |w.fuda| - |w.yomi|, MAX_IMAGE_LEN);
      }
    }
  }

  lemma CutField(t: seq<bv8>, tail: seq<bv8>, n: nat, max: nat)
    requires |t| < max <= 256 && n <= 2 + |t| + |tail|
    ensures n < 2 + |t| ==> ParseField((FieldBytes(t) + tail)[..n], max) == None
    ensures n >= 2 + |t| ==>
              ParseField((FieldBytes(t) + tail)[..n], max) == Some(t) &&
              (FieldBytes(t) + tail)[..n][2 + |t|..] == tail[..n - 2 - |t|]
  {
    hide U16Bytes, U16Of;
    var s := (FieldBytes(t) + tail)[..n];
    U16RoundTrip(|t|);
    if n >= 2 {
      assert s[..2] == U16Bytes(|t|);
    }
    if n >= 2 + |t| {
      assert s[2..2 + |t|] == t;
    }
  }

  // ---- The look over HTTP ----

  /** validate_packet_buffer: the magic number is put together with the first byte lowest. */
  function Precheck(buf: seq<bv8>): (code: int) {
    if |buf| < 16 then ERR_TRUNCATED
    else if LowFirstWord(buf) != MAGIC_NUMBER then ERR_MAGIC
    else if buf[4] != FORMAT_VERSION then ERR_VERSION
    else OK
  }

  function LowFirstWord(buf: seq<bv8>): int
    requires |buf| >= 4
  {
    Val(buf[0]) + Val(buf[1]) * 0x100 + Val(buf[2]) * 0x1_0000 + Val(buf[3]) * 0x100_0000
  }

  /** Accepted are the buffers that spell the magic letters backwards. */
  lemma PrecheckAcceptsExactlyWhen(buf: seq<bv8>)
    ensures Precheck(buf) == OK <==> |buf| >= 16 && buf[..5] == [0x55, 0x54, 0x52, 0x4B, 1]
  {
    if |buf| >= 16 {
      hide Val;
      LowFirstSpells(buf[0], buf[1], buf[2], buf[3]);
      assert buf[..5] == [buf[0], buf[1], buf[2], buf[3], buf[4]];
    }
  }

  lemma LowFirstSpells(a: bv8, b: bv8, c: bv8, d: bv8)
    ensures Val(a) + Val(b) * 0x100 + Val(c) * 0x1_0000 + Val(d) * 0x100_0000 == MAGIC_NUMBER <==>
            a == 0x55 && b == 0x54 && c == 0x52 && d == 0x4B
  {
    hide Val;
    MagicValues();
    if Val(a) + Val(b) * 0x100 + Val(c) * 0x1_0000 + Val(d) * 0x100_0000 == MAGIC_NUMBER {
      Digits(Val(d), Val(c), Val(b), Val(a));
      ValInjective(a, 0x55);
      ValInjective(b, 0x54);
      ValInjective(c, 0x52);
      ValInjective(d, 0x4B);
    }
  }

  /** So no packet card_pack makes passes, and nothing that passes is unpacked. */
  lemma PrecheckRefusesPackets(ws: seq<Wire>, extra: seq<bv8>)
    requires AllFit(ws) && |ws| < 0x1_0000_0000
    ensures Precheck(Packet(ws) + extra) == ERR_MAGIC
  {
    hide Packet, AllFit, Val, WordAt, Crc32.Reference;
    var p := Packet(ws);
    var buf := p + extra;
    FrameBytes(ws);
    assert buf[0] == p[..8][0] && buf[1] == p[..8][1] && buf[2] == p[..8][2] && buf[3] == p[..8][3];
    MagicValues();
  }

  lemma PassedIsNotUnpacked(buf: seq<bv8>, maxCards: u32)
    requires Precheck(buf) == OK
    ensures Unpack(buf, maxCards) == Unpacked(ERR_MAGIC, [])
  {
    hide Val, Precheck;
    PrecheckAcceptsExactlyWhen(buf);
    assert buf[..5][..4] == buf[..4];
    assert MagicOf(buf) != MAGIC_NUMBER by {
      MagicValues();
    }
  }
}
