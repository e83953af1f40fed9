/** services/serializer/base64.c: the encoder and decoder of sections 4 and 5
    of RFC 4648, with the source's looser reading of padding. */
module Base64 {
  import opened Buffers
  import opened Bytes

  /** A C char: one octet of text. */
  type octet = c: char | c as int < 256 witness 'A'

  datatype Alphabet = Standard | UrlSafe

  const ERR_NULL := -1
  const ERR_OVERFLOW := -2
  const ERR_INVALID := -3
  const BAD: bv8 := 0xFF
  const NUL: octet := '\0'

  // ---- Alphabets (tables 1 and 2 of RFC 4648) ----

  function Letter(alphabet: Alphabet, v: int): (c: octet)
    requires 0 <= v < 64
  {
    if v < 26 then (65 + v) as char
    else if v < 52 then (97 + (v - 26)) as char
    else if v < 62 then (48 + (v - 52)) as char
    else if v == 62 then (if alphabet == Standard then '+' else '-')
    else (if alphabet == Standard then '/' else '_')
  }

  /** The position of an octet in the alphabet, or -1. */
  function Position(alphabet: Alphabet, c: octet): (v: int)
    ensures -1 <= v < 64
    ensures v >= 0 ==> Letter(alphabet, v) == c
    ensures v == -1 ==> forall w | 0 <= w < 64 :: Letter(alphabet, w) != c
  {
    var k := c as int;
    if 65 <= k <= 90 then k - 65
    else if 97 <= k <= 122 then k - 97 + 26
    else if 48 <= k <= 57 then k - 48 + 52
    else if c == Letter(alphabet, 62) then 62
    else if c == Letter(alphabet, 63) then 63
    else -1
  }

  lemma LetterPosition(alphabet: Alphabet, v: int)
    requires 0 <= v < 64
    ensures Position(alphabet, Letter(alphabet, v)) == v && Letter(alphabet, v) != '='
  {
  }

  // ---- Octets and sextets ----

  function Sextet0(a: bv8): bv8 { a >> 2 }
  function Sextet1(a: bv8, b: bv8): bv8 { ((a & 0x03) << 4) | (b >> 4) }
  function Sextet2(b: bv8, c: bv8): bv8 { ((b & 0x0F) << 2) | (c >> 6) }
  function Sextet3(c: bv8): bv8 { c & 0x3F }

  function Octet0(s: bv8, t: bv8): bv8 { (s << 2) | (t >> 4) }
  function Octet1(t: bv8, u: bv8): bv8 { (t << 4) | (u >> 2) }
  function Octet2(u: bv8, v: bv8): bv8 { (u << 6) | v }

  /** Three octets as four sextets. */
  function Quad(a: bv8, b: bv8, c: bv8): (q: seq<bv8>)
    ensures |q| == 4
  {
    [Sextet0(a), Sextet1(a, b), Sextet2(b, c), Sextet3(c)]
  }

  /** Four sextets as three octets. */
  function Trio(s: bv8, t: bv8, u: bv8, v: bv8): (r: seq<bv8>)
    ensures |r| == 3
  {
    [Octet0(s, t), Octet1(t, u), Octet2(u, v)]
  }

  /** The sextets of a byte string; a short tail is filled up with zero bits. */
  function Sextets(data: seq<bv8>): (vs: seq<bv8>)
    ensures |vs| == (4 * |data| + 2) / 3
    decreases |data|
  {
    match |data|
    case 0 => []
    case 1 => Quad(data[0], 0, 0)[..2]
    case 2 => Quad(data[0], data[1], 0)[..3]
    case _ => Quad(data[0], data[1], data[2]) + Sextets(data[3..])
  }

  /** The whole octets in a string of sextets; spare bits are dropped. */
  function Octets(vs: seq<bv8>): (data: seq<bv8>)
    ensures |data| == 3 * |vs| / 4
    decreases |vs|
  {
    match |vs|
    case 0 => []
    case 1 => []
    case 2 => Trio(vs[0], vs[1], 0, 0)[..1]
    case 3 => Trio(vs[0], vs[1], vs[2], 0)[..2]
    case _ => Trio(vs[0], vs[1], vs[2], vs[3]) + Octets(vs[4..])
  }

  predicate AreSextets(vs: seq<bv8>) {
    forall i | 0 <= i < |vs| :: vs[i] < 64
  }

  lemma SextetRange(a: bv8, b: bv8)
    ensures Sextet0(a) < 64 && Sextet1(a, b) < 64 && Sextet2(a, b) < 64 && Sextet3(a) < 64
  {
  }

  lemma Octet0Back(a: bv8, b: bv8)
    ensures Octet0(Sextet0(a), Sextet1(a, b)) == a
  {
  }

  lemma Octet1Back(a: bv8, b: bv8, c: bv8)
    ensures Octet1(Sextet1(a, b), Sextet2(b, c)) == b
  {
  }

  lemma Octet2Back(b: bv8, c: bv8)
    ensures Octet2(Sextet2(b, c), Sextet3(c)) == c
  {
  }

  lemma Sextet01Back(s: bv8, t: bv8, u: bv8)
    requires s < 64 && t < 64 && u < 64
    ensures Sextet0(Octet0(s, t)) == s && Sextet1(Octet0(s, t), Octet1(t, u)) == t
  {
  }

  lemma Sextet23Back(t: bv8, u: bv8, v: bv8)
    requires u < 64 && v < 64
    ensures Sextet2(Octet1(t, u), Octet2(u, v)) == u && Sextet3(Octet2(u, v)) == v
  {
  }

  lemma QuadTrio(a: bv8, b: bv8, c: bv8)
    ensures var q := Quad(a, b, c); AreSextets(q) && Trio(q[0], q[1], q[2], q[3]) == [a, b, c]
  {
    hide Sextet0, Sextet1, Sextet2, Sextet3, Octet0, Octet1, Octet2;
    SextetRange(a, b);
    SextetRange(b, c);
    SextetRange(c, c);
    Octet0Back(a, b);
    Octet1Back(a, b, c);
    Octet2Back(b, c);
  }

  lemma TrioQuad(s: bv8, t: bv8, u: bv8, v: bv8)
    requires s < 64 && t < 64 && u < 64 && v < 64
    ensures var r := Trio(s, t, u, v); Quad(r[0], r[1], r[2]) == [s, t, u, v]
  {
    hide Sextet0, Sextet1, Sextet2, Sextet3, Octet0, Octet1, Octet2;
    Sextet01Back(s, t, u);
    Sextet23Back(t, u, v);
  }

  /** Decoding the sextets of a byte string gives the byte string back. */
  lemma {:induction false} OctetsOfSextets(data: seq<bv8>)
    ensures AreSextets(Sextets(data)) && Octets(Sextets(data)) == data
    decreases |data|
  {
    hide Sextet0, Sextet1, Sextet2, Sextet3, Octet0, Octet1, Octet2;
    if |data| == 1 {
      QuadTrio(data[0], 0, 0);
    } else if |data| == 2 {
      QuadTrio(data[0], data[1], 0);
    } else if |data| > 2 {
      QuadTrio(data[0], data[1], data[2]);
      OctetsOfSextets(data[3..]);
      assert Sextets(data)[4..] == Sextets(data[3..]);
    }
  }

  predicate LowFourClear(v: bv8) { v & 0x0F == 0 }
  predicate LowTwoClear(v: bv8) { v & 0x03 == 0 }

  /** A sextet string is what the encoder would emit: no lone last sextet and
      no bits in the spare positions. */
  predicate Canonical(vs: seq<bv8>) {
    match |vs| % 4
    case 0 => true
    case 1 => false
    case 2 => LowFourClear(vs[|vs| - 1])
    case _ => LowTwoClear(vs[|vs| - 1])
  }

  lemma TailOfTwo(s: bv8, t: bv8)
    requires s < 64 && t < 64
    ensures Sextet0(Octet0(s, t)) == s
    ensures Sextet1(Octet0(s, t), 0) == t <==> LowFourClear(t)
  {
  }

  lemma TailOfThree(t: bv8, u: bv8)
    requires t < 64 && u < 64
    ensures Sextet2(Octet1(t, u), 0) == u <==> LowTwoClear(u)
  {
  }

  lemma ShortCanonical(vs: seq<bv8>)
    requires AreSextets(vs) && |vs| < 4
    ensures Sextets(Octets(vs)) == vs <==> Canonical(vs)
  {
    hide Sextet0, Sextet1, Sextet2, Sextet3, Octet0, Octet1, Octet2, LowFourClear, LowTwoClear;
    if |vs| == 2 {
      TailOfTwo(vs[0], vs[1]);
    } else if |vs| == 3 {
      Sextet01Back(vs[0], vs[1], vs[2]);
      TailOfThree(vs[1], vs[2]);
    }
  }

  lemma SextetsOfGroup(r: seq<bv8>, rest: seq<bv8>)
    requires |r| == 3
    ensures Sextets(r + rest) == Quad(r[0], r[1], r[2]) + Sextets(rest)
  {
    hide Quad;
    assert (r + rest)[3..] == rest;
  }

  lemma SextetsCons(vs: seq<bv8>)
    requires AreSextets(vs) && |vs| > 3
    ensures Sextets(Octets(vs)) == vs[..4] + Sextets(Octets(vs[4..]))
  {
    var r := Trio(vs[0], vs[1], vs[2], vs[3]);
    assert vs[0] < 64 && vs[1] < 64 && vs[2] < 64 && vs[3] < 64;
    hide Quad, Trio, Sextets, Octets, AreSextets;
    OctetsCons(vs);
    TrioQuad(vs[0], vs[1], vs[2], vs[3]);
    SextetsOfGroup(r, Octets(vs[4..]));
    FirstFour(vs);
  }

  lemma OctetsCons(vs: seq<bv8>)
    requires |vs| > 3
    ensures Octets(vs) == Trio(vs[0], vs[1], vs[2], vs[3]) + Octets(vs[4..])
  {
    hide Trio;
  }

  lemma FirstFour(vs: seq<bv8>)
    requires |vs| > 3
    ensures vs[..4] == [vs[0], vs[1], vs[2], vs[3]]
  {
  }

  lemma PrefixEqual(head: seq<bv8>, a: seq<bv8>, b: seq<bv8>)
    ensures head + a == head + b <==> a == b
  {
    assert (head + a)[|head|..] == a && (head + b)[|head|..] == b;
  }

  lemma CanonicalTail(vs: seq<bv8>)
    requires |vs| >= 4
    ensures Canonical(vs) <==> Canonical(vs[4..])
  {
    hide LowFourClear, LowTwoClear;
    assert |vs[4..]| % 4 == |vs| % 4;
    if |vs| > 4 {
      assert vs[4..][|vs| - 5] == vs[|vs| - 1];
    }
  }

  /** Re-encoding what was decoded gives the same sextets exactly when they were canonical. */
  lemma {:induction false} SextetsOfOctets(vs: seq<bv8>)
    requires AreSextets(vs)
    ensures Sextets(Octets(vs)) == vs <==> Canonical(vs)
    decreases |vs|
  {
    hide Sextets, Octets, Canonical;
    if |vs| < 4 {
      ShortCanonical(vs);
    } else {
      SextetsCons(vs);
      SextetsOfOctets(vs[4..]);
      assert vs == vs[..4] + vs[4..];
      PrefixEqual(vs[..4], Sextets(Octets(vs[4..])), vs[4..]);
      CanonicalTail(vs);
    }
  }

  // ---- Text ----

  /** A sextet as an index into the alphabet. */
  function Index(v: bv8): (i: int)
    ensures 0 <= i < 64
    ensures v < 64 ==> i == v as int
  {
    (v & 0x3F) as int
  }

  function Letters(alphabet: Alphabet, vs: seq<bv8>): (text: seq<octet>)
    ensures |text| == |vs|
    ensures forall i | 0 <= i < |vs| :: text[i] == Letter(alphabet, Index(vs[i]))
  {
    if vs == [] then [] else [Letter(alphabet, Index(vs[0]))] + Letters(alphabet, vs[1..])
  }

  function Padding(length: nat): (text: seq<octet>)
    ensures (4 * length + 2) / 3 + |text| == (length + 2) / 3 * 4
    ensures forall i | 0 <= i < |text| :: text[i] == '='
  {
    if length % 3 == 0 then [] else if length % 3 == 1 then ['=', '='] else ['=']
  }

  /** The encoded text; padded output always fills whole groups of four. */
  function EncodedText(alphabet: Alphabet, padded: bool, data: seq<bv8>): (text: seq<octet>)
    ensures padded ==> |text| == (|data| + 2) / 3 * 4
    ensures !padded ==> |text| == (4 * |data| + 2) / 3
  {
    Letters(alphabet, Sextets(data)) + if padded then Padding(|data|) else []
  }

  function EncodedSize(length: nat): nat {
    (length + 2) / 3 * 4 + 1
  }

  function DecodedSize(length: nat): nat {
    length / 4 * 3 + 1
  }

  // ---- Encoder ----

  function Triple(a: bv8, b: bv8, c: bv8): bv32 {
    ((a as bv32) << 16) | ((b as bv32) << 8) | (c as bv32)
  }

  /** A six-bit field of the triple as an alphabet index. */
  function Field0(w: bv32): (i: int)
    ensures 0 <= i < 64
  {
    ((w >> 18) & 0x3F) as int
  }

  function Field1(w: bv32): (i: int)
    ensures 0 <= i < 64
  {
    ((w >> 12) & 0x3F) as int
  }

  function Field2(w: bv32): (i: int)
    ensures 0 <= i < 64
  {
    ((w >> 6) & 0x3F) as int
  }

  function Field3(w: bv32): (i: int)
    ensures 0 <= i < 64
  {
    (w & 0x3F) as int
  }

  lemma Field0OfTriple(a: bv8, b: bv8, c: bv8)
    ensures Field0(Triple(a, b, c)) == Index(Sextet0(a))
  {
    assert ((Triple(a, b, c) >> 18) & 0x3F) == (Sextet0(a) & 0x3F) as bv32;
  }

  lemma Field1OfTriple(a: bv8, b: bv8, c: bv8)
    ensures Field1(Triple(a, b, c)) == Index(Sextet1(a, b))
  {
    assert ((Triple(a, b, c) >> 12) & 0x3F) == (Sextet1(a, b) & 0x3F) as bv32;
  }

  lemma Field2OfTriple(a: bv8, b: bv8, c: bv8)
    ensures Field2(Triple(a, b, c)) == Index(Sextet2(b, c))
  {
    assert ((Triple(a, b, c) >> 6) & 0x3F) == (Sextet2(b, c) & 0x3F) as bv32;
  }

  lemma Field3OfTriple(a: bv8, b: bv8, c: bv8)
    ensures Field3(Triple(a, b, c)) == Index(Sextet3(c))
  {
    assert (Triple(a, b, c) & 0x3F) == (Sextet3(c) & 0x3F) as bv32;
  }

  lemma LettersAppend(alphabet: Alphabet, s: seq<bv8>, t: seq<bv8>)
    ensures Letters(alphabet, s + t) == Letters(alphabet, s) + Letters(alphabet, t)
  {
  }

  /** The four characters written for one whole group. */
  lemma GroupLetters(alphabet: Alphabet, data: seq<bv8>)
    requires |data| >= 3
    ensures var w := Triple(data[0], data[1], data[2]);
            Letters(alphabet, Sextets(data)) ==
            [Letter(alphabet, Field0(w)), Letter(alphabet, Field1(w)),
             Letter(alphabet, Field2(w)), Letter(alphabet, Field3(w))]
            + Letters(alphabet, Sextets(data[3..]))
  {
    hide Triple, Field0, Field1, Field2, Field3, Sextet0, Sextet1, Sextet2, Sextet3, Index, Letter;
    Field0OfTriple(data[0], data[1], data[2]);
    Field1OfTriple(data[0], data[1], data[2]);
    Field2OfTriple(data[0], data[1], data[2]);
    Field3OfTriple(data[0], data[1], data[2]);
    LettersAppend(alphabet, Quad(data[0], data[1], data[2]), Sextets(data[3..]));
  }

  /** The characters written for a tail of one or two octets. */
  lemma TailLetters(alphabet: Alphabet, data: seq<bv8>)
    requires 1 <= |data| <= 2
    ensures var w := Triple(data[0], if |data| == 2 then data[1] else 0, 0);
            Letters(alphabet, Sextets(data)) ==
            [Letter(alphabet, Field0(w)), Letter(alphabet, Field1(w))]
            + (if |data| == 2 then [Letter(alphabet, Field2(w))] else [])
  {
    hide Triple, Field0, Field1, Field2, Sextet0, Sextet1, Sextet2, Sextet3, Index, Letter;
    var b := if |data| == 2 then data[1] else 0;
    Field0OfTriple(data[0], b, 0);
    Field1OfTriple(data[0], b, 0);
    Field2OfTriple(data[0], b, 0);
    assert Sextets(data) == Quad(data[0], b, 0)[..|data| + 1];
  }

  lemma TailPadding(length: nat, i: nat)
    requires i <= length && i % 3 == 0 && length - i < 3
    ensures Padding(length) == Padding(length - i)
  {
  }

  /** The remainder of one or two octets, the padding and the closing NUL. */
  method EncodeTail(input: array<bv8>, i: nat, inLen: nat, out: array<octet>, j: nat,
                    alphabet: Alphabet, padded: bool) returns (n: nat)
    requires i <= inLen <= input.Length && inLen - i < 3
    requires j < out.Length && (i < inLen ==> j + 4 < out.Length)
    requires out != input as object
    modifies out
    ensures n == j + |EncodedText(alphabet, padded, input[i..inLen])| < out.Length
    ensures out[..] == Splice(old(out[..]), j, EncodedText(alphabet, padded, input[i..inLen]) + [NUL])
  {
    hide EncodedText, Splice;
    ghost var data, s := input[i..inLen], out[..];
    var text := TailText(input, i, inLen, alphabet, padded);
    Put(out, j, text);
    n := j + |text|;
    Put(out, n, [NUL]);
    SpliceSplice(s, j, text, [NUL]);
    assert input[i..inLen] == data;
  }

  /** The characters for what remains, in the order in which they are stored. */
  method TailText(input: array<bv8>, i: nat, inLen: nat, alphabet: Alphabet, padded: bool) returns (text: seq<octet>)
    requires i <= inLen <= input.Length && inLen - i < 3
    ensures text == EncodedText(alphabet, padded, input[i..inLen])
    ensures |text| <= if i < inLen then 4 else 0
  {
    hide Triple, Field0, Field1, Field2, Field3, Letter, Sextets, Letters;
    var rem := inLen - i;
    if rem == 1 {
      TailLetters(alphabet, input[i..inLen]);
      var v := Triple(input[i], 0, 0);
      text := [Letter(alphabet, Field0(v)), Letter(alphabet, Field1(v))];
      if padded {
        text := text + ['=', '='];
      }
    } else if rem == 2 {
      TailLetters(alphabet, input[i..inLen]);
      var v := Triple(input[i], input[i + 1], 0);
      text := [Letter(alphabet, Field0(v)), Letter(alphabet, Field1(v)), Letter(alphabet, Field2(v))];
      if padded {
        text := text + ['='];
      }
    } else {
      EmptyText(alphabet);
      text := [];
    }
  }

  lemma EmptyText(alphabet: Alphabet)
    ensures Letters(alphabet, Sextets([])) == []
  {
  }

  function GroupText(alphabet: Alphabet, triple: bv32): (text: seq<octet>)
    ensures |text| == 4
  {
    [Letter(alphabet, Field0(triple)), Letter(alphabet, Field1(triple)),
     Letter(alphabet, Field2(triple)), Letter(alphabet, Field3(triple))]
  }

  lemma RoomForGroup(inLen: nat, groups: nat)
    requires 3 * groups <= inLen
    ensures 4 * groups < EncodedSize(inLen)
    ensures 3 * groups < inLen ==> 4 * groups + 4 < EncodedSize(inLen)
  {
  }

  lemma Reassociate<T>(a: seq<T>, b: seq<T>, c: seq<T>)
    ensures a + (b + c) == (a + b) + c
  {
  }

  lemma NextGroup(alphabet: Alphabet, data: seq<bv8>, i: nat, acc: seq<octet>)
    requires i + 3 <= |data|
    ensures acc + Letters(alphabet, Sextets(data[i..])) ==
            (acc + GroupText(alphabet, Triple(data[i], data[i + 1], data[i + 2])))
            + Letters(alphabet, Sextets(data[i + 3..]))
  {
    hide Triple, Field0, Field1, Field2, Field3, Letter, Sextets, Letters;
    GroupLetters(alphabet, data[i..]);
    assert data[i..][3..] == data[i + 3..];
    Reassociate(acc, GroupText(alphabet, Triple(data[i], data[i + 1], data[i + 2])),
                Letters(alphabet, Sextets(data[i + 3..])));
  }

  /** One turn of the main loop: three octets in, four characters out. */
  method EncodeGroup(out: array<octet>, j: nat, triple: bv32, alphabet: Alphabet, ghost was: seq<octet>,
                     ghost acc: seq<octet>) returns (ghost longer: seq<octet>)
    requires j == |acc| && j + 4 <= out.Length == |was| && out[..] == Splice(was, 0, acc)
    modifies out
    ensures longer == acc + GroupText(alphabet, triple) && out[..] == Splice(was, 0, longer)
  {
    hide GroupText, Splice;
    var text := GroupText(alphabet, triple);
    Put(out, j, text);
    SpliceSplice(was, 0, acc, text);
    longer := acc + text;
  }

  /** The main loop: all whole groups. */
  method EncodeGroups(input: array<bv8>, inLen: nat, out: array<octet>, alphabet: Alphabet)
    returns (i: nat, j: nat, ghost acc: seq<octet>)
    requires inLen <= input.Length && EncodedSize(inLen) <= out.Length && out != input as object
    modifies out
    ensures i <= inLen && i % 3 == 0 && inLen - i < 3
    ensures j == |acc| < EncodedSize(inLen) && (i < inLen ==> j + 4 < EncodedSize(inLen))
    ensures Letters(alphabet, Sextets(input[..inLen])) == acc + Letters(alphabet, Sextets(input[..inLen][i..]))
    ensures out[..] == Splice(old(out[..]), 0, acc)
  {
    hide Letters, Sextets, EncodedSize, GroupText, Triple, Splice;
    ghost var data, was := input[..inLen], out[..];
    ghost var letters := Letters(alphabet, Sextets(data));
    assert data[0..] == data;
    i, j, acc := 0, 0, [];
    ghost var groups := 0;
    RoomForGroup(inLen, 0);
    SpliceNothing(was, 0);
    while i + 3 <= inLen
      invariant i == 3 * groups <= inLen && j == 4 * groups == |acc| < EncodedSize(inLen)
      invariant letters == acc + Letters(alphabet, Sextets(data[i..]))
      invariant out[..] == Splice(was, 0, acc) && input[..inLen] == data
    {
      RoomForGroup(inLen, groups);
      NextGroup(alphabet, data, i, acc);
      acc := EncodeGroup(out, j, Triple(input[i], input[i + 1], input[i + 2]), alphabet, was, acc);
      i, j, groups := i + 3, j + 4, groups + 1;
      RoomForGroup(inLen, groups);
    }
    RoomForGroup(inLen, groups);
  }

  /** The encoder once its arguments are known to be good. */
  method EncodeInto(input: array<bv8>, inLen: nat, out: array<octet>, alphabet: Alphabet, padded: bool)
    returns (n: nat)
    requires inLen <= input.Length && EncodedSize(inLen) <= out.Length && out != input as object
    modifies out
    ensures n == |EncodedText(alphabet, padded, input[..inLen])| < out.Length
    ensures out[..] == Splice(old(out[..]), 0, EncodedText(alphabet, padded, input[..inLen]) + [NUL])
  {
    hide Letters, Sextets, Padding, EncodedSize, Splice;
    ghost var data, was := input[..inLen], out[..];
    var i, j;
    ghost var acc;
    i, j, acc := EncodeGroups(input, inLen, out, alphabet);
    assert input[..inLen] == data && input[i..inLen] == data[i..];
    TailPadding(inLen, i);
    ghost var tail := EncodedText(alphabet, padded, data[i..]);
    n := EncodeTail(input, i, inLen, out, j, alphabet, padded);
    assert input[..inLen] == data;
    Reassociate(acc, Letters(alphabet, Sextets(data[i..])), if padded then Padding(inLen) else []);
    Reassociate(acc, tail, [NUL]);
    SpliceSplice(was, 0, acc, tail + [NUL]);
  }

  method DoEncode(input: array?<bv8>, inLen: nat, out: array?<octet>, outSize: nat,
                  alphabet: Alphabet, padded: bool) returns (n: int)
    requires input != null ==> inLen <= input.Length
    requires out != null ==> outSize <= out.Length
    requires input != null && out != null ==> out != input as object
    modifies if out == null then {} else {out}
    ensures n == (if input == null || out == null then ERR_NULL
                  else if outSize < EncodedSize(inLen) then ERR_OVERFLOW
                  else |EncodedText(alphabet, padded, input[..inLen])|)
    ensures n >= 0 ==>
              out[..] == EncodedText(alphabet, padded, input[..inLen]) + [NUL] + old(out[n + 1..])
    ensures n < 0 && out != null ==> out[..] == old(out[..])
  {
    hide EncodedText;
    if input == null || out == null {
      return ERR_NULL;
    }
    if outSize < EncodedSize(inLen) {
      return ERR_OVERFLOW;
    }
    n := EncodeInto(input, inLen, out, alphabet, padded);
    assert old(out[..])[n + 1..] == old(out[n + 1..]);
    assert input[..inLen] == old(input[..inLen]);
  }

  // ---- Decoder ----

  /** What the decode table holds for an octet. */
  function Value(alphabet: Alphabet, c: octet): bv8 {
    var v := Position(alphabet, c);
    if v < 0 then BAD else ToByte(v)
  }

  function Values(alphabet: Alphabet, text: seq<octet>): (vs: seq<bv8>)
    ensures |vs| == |text|
    ensures forall i | 0 <= i < |text| :: vs[i] == Value(alphabet, text[i])
  {
    seq(|text|, i requires 0 <= i < |text| => Value(alphabet, text[i]))
  }

  /** The length without the run of '=' at the end. */
  function Effective(text: seq<octet>): (n: nat)
    ensures n <= |text|
    ensures n > 0 ==> text[n - 1] != '='
    ensures forall i | n <= i < |text| :: text[i] == '='
  {
    if text != [] && text[|text| - 1] == '=' then Effective(text[..|text| - 1]) else |text|
  }

  /** The index of the first octet outside the alphabet, or the length. */
  function FirstBad(alphabet: Alphabet, text: seq<octet>): (n: nat)
    ensures n <= |text|
    ensures n < |text| ==> Position(alphabet, text[n]) < 0
    ensures forall i | 0 <= i < n :: Position(alphabet, text[i]) >= 0
  {
    if text == [] || Position(alphabet, text[0]) < 0 then 0 else 1 + FirstBad(alphabet, text[1..])
  }

  /** The octets a decoder with unlimited room has produced when it stops. */
  function Produced(alphabet: Alphabet, text: seq<octet>): seq<bv8> {
    Octets(Values(alphabet, text[..FirstBad(alphabet, text[..Effective(text)])]))
  }

  /** The decoder's answer: running out of room before the first bad octet wins. */
  function DecodeCode(alphabet: Alphabet, text: seq<octet>, room: nat): int {
    var body := text[..Effective(text)];
    var bad := FirstBad(alphabet, body);
    if 3 * bad / 4 > room then ERR_OVERFLOW
    else if bad < |body| then ERR_INVALID
    else 3 * |body| / 4
  }

  lemma ValueRange(alphabet: Alphabet, c: octet)
    ensures Value(alphabet, c) == BAD <==> Position(alphabet, c) < 0
    ensures Value(alphabet, c) != BAD ==> Value(alphabet, c) < 64
  {
    var v := Position(alphabet, c);
    if v >= 0 {
      SmallByte(v);
    }
  }

  lemma SmallByte(v: int)
    requires 0 <= v < 64
    ensures ToByte(v) < 64 && ToByte(v) != BAD && ToByte(v) as int == v
  {
    hide ToByte;
    ByteBack(v);
    Below64(ToByte(v));
  }

  lemma Below64(b: bv8)
    requires Val(b) < 64
    ensures b < 64 && b != BAD && b as int == Val(b)
  {
  }

  // ---- The 32-bit accumulator ----

  function Accumulate(buffer: bv32, v: bv8): bv32 {
    (buffer << 6) | (v as bv32)
  }

  function TopOctet(buffer: bv32, bits: int): bv8
    requires 0 <= bits < 8
  {
    ((buffer >> bits) & 0xFF) as bv8
  }

  /** The low bits of the accumulator that are still to be emitted, against the
      sextet they come from; everything above them may hold anything. */
  predicate Pending(buffer: bv32, bits: int, last: bv8) {
    (bits == 6 ==> buffer & 0x3F == last as bv32) &&
    (bits == 4 ==> buffer & 0x0F == (last as bv32) & 0x0F) &&
    (bits == 2 ==> buffer & 0x03 == (last as bv32) & 0x03)
  }

  lemma PendingFirst(buffer: bv32, v: bv8)
    requires v < 64
    ensures Pending(Accumulate(buffer, v), 6, v)
  {
  }

  lemma PendingRest(buffer: bv32, v: bv8)
    ensures Pending(Accumulate(buffer, v), 4, v) && Pending(Accumulate(buffer, v), 2, v)
  {
  }

  lemma EmitFromSix(buffer: bv32, last: bv8, v: bv8)
    requires Pending(buffer, 6, last) && v < 64
    ensures TopOctet(Accumulate(buffer, v), 4) == Octet0(last, v)
  {
  }

  lemma EmitFromFour(buffer: bv32, last: bv8, v: bv8)
    requires Pending(buffer, 4, last) && v < 64
    ensures TopOctet(Accumulate(buffer, v), 2) == Octet1(last, v)
  {
  }

  lemma EmitFromTwo(buffer: bv32, last: bv8, v: bv8)
    requires Pending(buffer, 2, last) && v < 64
    ensures TopOctet(Accumulate(buffer, v), 0) == Octet2(last, v)
  {
  }

  lemma {:induction false} OctetsOfGroups(s: seq<bv8>, t: seq<bv8>)
    requires |s| % 4 == 0
    ensures Octets(s + t) == Octets(s) + Octets(t)
    decreases |s|
  {
    hide Trio;
    if |s| == 0 {
      assert s + t == t;
    } else {
      OctetsOfGroups(s[4..], t);
      assert (s + t)[4..] == s[4..] + t;
      Reassociate(Trio(s[0], s[1], s[2], s[3]), Octets(s[4..]), Octets(t));
    }
  }

  function Completed(phase: nat, last: bv8, v: bv8): seq<bv8> {
    match phase
    case 0 => []
    case 1 => [Octet0(last, v)]
    case 2 => [Octet1(last, v)]
    case _ => [Octet2(last, v)]
  }

  lemma OneSextet(a: bv8)
    ensures Octets([a]) == []
  {
  }

  lemma TwoSextets(a: bv8, b: bv8)
    ensures Octets([a, b]) == [Octet0(a, b)]
  {
    hide Octet0, Octet1, Octet2;
  }

  lemma ThreeSextets(a: bv8, b: bv8, c: bv8)
    ensures Octets([a, b, c]) == [Octet0(a, b), Octet1(b, c)]
  {
    hide Octet0, Octet1, Octet2;
  }

  lemma FourSextets(a: bv8, b: bv8, c: bv8, d: bv8)
    ensures Octets([a, b, c, d]) == [Octet0(a, b), Octet1(b, c), Octet2(c, d)]
  {
    hide Octet0, Octet1, Octet2;
    assert [a, b, c, d][4..] == [];
  }

  lemma CompletedIs(last: bv8, v: bv8)
    ensures Completed(0, last, v) == []
    ensures Completed(1, last, v) == [Octet0(last, v)]
    ensures Completed(2, last, v) == [Octet1(last, v)]
    ensures Completed(3, last, v) == [Octet2(last, v)]
  {
    hide Octet0, Octet1, Octet2;
  }

  lemma CompletedTwo(a: bv8, b: bv8)
    ensures Octets([a, b]) == Octets([a]) + Completed(1, a, b)
  {
    hide Octet0, Octet1, Octet2, Octets, Completed;
    OneSextet(a);
    TwoSextets(a, b);
    CompletedIs(a, b);
  }

  lemma CompletedThree(a: bv8, b: bv8, c: bv8)
    ensures Octets([a, b, c]) == Octets([a, b]) + Completed(2, b, c)
  {
    hide Octet0, Octet1, Octet2, Octets, Completed;
    TwoSextets(a, b);
    ThreeSextets(a, b, c);
    CompletedIs(b, c);
  }

  lemma CompletedFour(a: bv8, b: bv8, c: bv8, d: bv8)
    ensures Octets([a, b, c, d]) == Octets([a, b, c]) + Completed(3, c, d)
  {
    hide Octet0, Octet1, Octet2, Octets, Completed;
    ThreeSextets(a, b, c);
    FourSextets(a, b, c, d);
    CompletedIs(c, d);
  }

  lemma GroupOfOne(t: seq<bv8>)
    requires |t| == 1
    ensures Octets(t) == Octets(t[..0]) + Completed(0, t[0], t[0])
  {
    hide Octets, Completed;
    OneSextet(t[0]);
    NoOctets();
    CompletedIs(t[0], t[0]);
    assert t == [t[0]];
  }

  lemma GroupOfTwo(t: seq<bv8>)
    requires |t| == 2
    ensures Octets(t) == Octets(t[..1]) + Completed(1, t[0], t[1])
  {
    hide Octets, Completed;
    assert t == [t[0], t[1]] && t[..1] == [t[0]];
    CompletedTwo(t[0], t[1]);
  }

  lemma GroupOfThree(t: seq<bv8>)
    requires |t| == 3
    ensures Octets(t) == Octets(t[..2]) + Completed(2, t[1], t[2])
  {
    hide Octets, Completed;
    assert t == [t[0], t[1], t[2]] && t[..2] == [t[0], t[1]];
    CompletedThree(t[0], t[1], t[2]);
  }

  lemma GroupOfFour(t: seq<bv8>)
    requires |t| == 4
    ensures Octets(t) == Octets(t[..3]) + Completed(3, t[2], t[3])
  {
    hide Octets, Completed;
    assert t == [t[0], t[1], t[2], t[3]] && t[..3] == [t[0], t[1], t[2]];
    CompletedFour(t[0], t[1], t[2], t[3]);
  }

  lemma CompletedInGroup(t: seq<bv8>, r: nat, last: bv8)
    requires 1 <= |t| <= 4 && r == |t| - 1 && last == t[if r == 0 then 0 else r - 1]
    ensures Octets(t) == Octets(t[..r]) + Completed(r, last, t[r])
  {
    hide Octets, Completed;
    if r == 0 {
      GroupOfOne(t);
    } else if r == 1 {
      GroupOfTwo(t);
    } else if r == 2 {
      GroupOfThree(t);
    } else {
      GroupOfFour(t);
    }
  }

  lemma NoOctets()
    ensures Octets([]) == []
  {
  }

  /** The octet, if any, that one more sextet completes. */
  lemma NextOctet(vs: seq<bv8>, i: nat)
    requires i < |vs|
    ensures Octets(vs[..i + 1]) ==
            Octets(vs[..i]) + Completed(i % 4, if i % 4 == 0 then vs[i] else vs[i - 1], vs[i])
  {
    var g, r := i - i % 4, i % 4;
    GroupsBefore(vs, i, g, r, if r == 0 then vs[i] else vs[i - 1]);
  }

  lemma GroupsBefore(vs: seq<bv8>, i: nat, g: nat, r: nat, last: bv8)
    requires i < |vs| && g + r == i && g % 4 == 0 && r < 4 && last == vs[if r == 0 then i else i - 1]
    ensures Octets(vs[..i + 1]) == Octets(vs[..i]) + Completed(r, last, vs[i])
  {
    hide Octets, Completed;
    var t := vs[g..i + 1];
    OctetsOfGroups(vs[..g], vs[g..i]);
    OctetsOfGroups(vs[..g], t);
    assert vs[..i] == vs[..g] + vs[g..i] && vs[..i + 1] == vs[..g] + t;
    assert t[r] == vs[i] && t[..r] == vs[g..i];
    CompletedInGroup(t, r, last);
    Reassociate(Octets(vs[..g]), Octets(vs[g..i]), Completed(r, last, vs[i]));
  }

  // ---- The decoder itself ----

  predicate TableFor(table: seq<bv8>, alphabet: Alphabet) {
    |table| == 256 && forall c: octet :: table[c as int] == Value(alphabet, c)
  }

  /** The bits left over after i sextets. */
  function BitsAfter(i: nat): (bits: int)
    ensures 0 <= bits < 8
  {
    match i % 4 case 0 => 0 case 1 => 6 case 2 => 4 case _ => 2
  }

  method Strip(input: array<octet>, inLen: nat) returns (n: nat)
    requires inLen <= input.Length
    ensures n == Effective(input[..inLen])
  {
    n := inLen;
    while n > 0 && input[n - 1] == '='
      invariant n <= inLen && Effective(input[..n]) == Effective(input[..inLen])
    {
      assert input[..n][..n - 1] == input[..n - 1];
      n := n - 1;
    }
  }

  /** One turn of the decoder's loop on the accumulator. */
  lemma AccumulatorStep(buffer: bv32, i: nat, last: bv8, v: bv8)
    requires v < 64 && Pending(buffer, BitsAfter(i), last)
    ensures Pending(Accumulate(buffer, v), BitsAfter(i + 1), v)
    ensures i % 4 != 0 ==> [TopOctet(Accumulate(buffer, v), BitsAfter(i + 1))] == Completed(i % 4, last, v)
    ensures i % 4 == 0 ==> Completed(i % 4, last, v) == []
  {
    hide Pending, Accumulate, TopOctet, Octet0, Octet1, Octet2;
    match i % 4 {
      case 0 => PendingFirst(buffer, v);
      case 1 => EmitFromSix(buffer, last, v); PendingRest(buffer, v);
      case 2 => EmitFromFour(buffer, last, v); PendingRest(buffer, v);
      case _ => EmitFromTwo(buffer, last, v); PendingZero(Accumulate(buffer, v), v);
    }
  }

  lemma PendingZero(buffer: bv32, v: bv8)
    ensures Pending(buffer, 0, v)
  {
  }

  lemma {:induction false} OctetsPrefix(vs: seq<bv8>, i: nat, k: nat)
    requires i <= k <= |vs|
    ensures Octets(vs[..i]) <= Octets(vs[..k])
    decreases k
  {
    hide Octets, Completed;
    if i < k {
      OctetsPrefix(vs, i, k - 1);
      NextOctet(vs, k - 1);
    }
  }

  /** The state a decoder may stop in: its code and what it left in the buffer. */
  ghost predicate Stopped(alphabet: Alphabet, text: seq<octet>, room: nat, was: seq<bv8>, code: int, now: seq<bv8>)
    requires room <= |was|
  {
    var bad := FirstBad(alphabet, text);
    var octets := Octets(Values(alphabet, text[..bad]));
    var kept := if |octets| <= room then |octets| else room;
    code == (if |octets| > room then ERR_OVERFLOW else if bad < |text| then ERR_INVALID else |octets|) &&
    now == octets[..kept] + was[kept..]
  }

  lemma StopHere(alphabet: Alphabet, text: seq<octet>, room: nat, was: seq<bv8>, i: nat, now: seq<bv8>)
    requires room <= |was| && i == FirstBad(alphabet, text) && 3 * i / 4 <= room
    requires now == Octets(Values(alphabet, text)[..i]) + was[3 * i / 4..]
    ensures Stopped(alphabet, text, room, was, if i < |text| then ERR_INVALID else 3 * i / 4, now)
  {
    hide Octets, Value, Position, FirstBad;
    assert Values(alphabet, text)[..i] == Values(alphabet, text[..i]);
  }

  lemma StopFull(alphabet: Alphabet, text: seq<octet>, room: nat, was: seq<bv8>, i: nat, now: seq<bv8>)
    requires room <= |was| && i < FirstBad(alphabet, text) && i % 4 != 0 && 3 * i / 4 == room
    requires now == Octets(Values(alphabet, text)[..i]) + was[room..]
    ensures Stopped(alphabet, text, room, was, ERR_OVERFLOW, now)
  {
    hide Octets, Value, Position, FirstBad, Values;
    var bad := FirstBad(alphabet, text);
    var vs := Values(alphabet, text);
    assert vs[..bad] == Values(alphabet, text[..bad]);
    OctetsPrefix(vs, i, bad);
    EmittedCount(i);
    MoreEmitted(i + 1, bad);
    assert Octets(vs[..bad])[..room] == Octets(vs[..i]);
  }

  lemma MoreEmitted(i: nat, k: nat)
    requires i <= k
    ensures 3 * i / 4 <= 3 * k / 4
  {
  }

  lemma PhaseStep(i: nat)
    ensures BitsAfter(i) in {0, 2, 4, 6}
    ensures BitsAfter(i + 1) == if i % 4 == 0 then 6 else BitsAfter(i) - 2
    ensures i % 4 == 0 <==> BitsAfter(i) == 0
    ensures 3 * (i + 1) / 4 == 3 * i / 4 + if i % 4 == 0 then 0 else 1
  {
    var q, r := i / 4, i % 4;
    assert i == 4 * q + r;
    EmittedCount(i);
    if r == 3 {
      FourthOf(i + 1, q + 1, 0);
    } else {
      FourthOf(i + 1, q, r + 1);
    }
  }

  lemma FourthOf(i: nat, q: nat, r: nat)
    requires i == 4 * q + r && r < 4
    ensures i / 4 == q && i % 4 == r && 3 * i / 4 == 3 * q + 3 * r / 4
  {
    var m := 3 * i;
    assert m == 4 * (3 * q) + 3 * r;
    QuarterOf(3 * q, 3 * r);
  }

  lemma QuarterOf(x: nat, d: nat)
    ensures (4 * x + d) / 4 == x + d / 4
  {
  }

  lemma BadHere(alphabet: Alphabet, text: seq<octet>, i: nat)
    requires i <= FirstBad(alphabet, text) && i < |text|
    ensures Value(alphabet, text[i]) == BAD <==> i == FirstBad(alphabet, text)
    ensures Value(alphabet, text[i]) != BAD ==> Value(alphabet, text[i]) < 64
  {
    hide Position, Value, FirstBad;
    ValueRange(alphabet, text[i]);
  }

  lemma EmitOne(octets: seq<bv8>, was: seq<bv8>, b: bv8)
    requires |octets| < |was|
    ensures var s := octets + was[|octets|..];
            s[|octets| := b] == (octets + [b]) + was[|octets| + 1..]
  {
  }

  lemma EmittedCount(i: nat)
    ensures 3 * (i + 1) / 4 == 3 * i / 4 + if i % 4 == 0 then 0 else 1
  {
    var q, r := i / 4, i % 4;
    FourthOf(i, q, r);
    if r == 3 {
      FourthOf(i + 1, q + 1, 0);
    } else {
      FourthOf(i + 1, q, r + 1);
    }
  }

  /** What one more good sextet does to the decoder's state and buffer. */
  lemma StepInvariant(vs: seq<bv8>, was: seq<bv8>, i: nat, buffer: bv32, last: bv8)
    requires i < |vs| && vs[i] < 64 && Pending(buffer, BitsAfter(i), last)
    requires i > 0 ==> last == vs[i - 1]
    requires 3 * i / 4 <= |was|
    ensures var p := 3 * i / 4;
            var next, bits := Accumulate(buffer, vs[i]), BitsAfter(i + 1);
            var now := Octets(vs[..i]) + was[p..];
            Pending(next, bits, vs[i]) &&
            (i % 4 == 0 ==> Octets(vs[..i + 1]) + was[p..] == now) &&
            (i % 4 != 0 && p < |was| ==> now[p := TopOctet(next, bits)] == Octets(vs[..i + 1]) + was[p + 1..])
  {
    hide Octets, Completed, Accumulate, TopOctet, Pending, BitsAfter;
    var p := 3 * i / 4;
    var last' := if i % 4 == 0 then vs[i] else vs[i - 1];
    NextOctet(vs, i);
    if i % 4 == 0 {
      PendingAtStart(buffer, i, vs[i]);
      CompletedIs(last', vs[i]);
      assert Octets(vs[..i + 1]) == Octets(vs[..i]);
    } else {
      AccumulatorStep(buffer, i, last, vs[i]);
      var b := TopOctet(Accumulate(buffer, vs[i]), BitsAfter(i + 1));
      assert Octets(vs[..i + 1]) == Octets(vs[..i]) + [b];
      if p < |was| {
        EmitOne(Octets(vs[..i]), was, b);
      }
    }
  }

  lemma PendingAtStart(buffer: bv32, i: nat, v: bv8)
    requires i % 4 == 0 && v < 64
    ensures Pending(Accumulate(buffer, v), BitsAfter(i + 1), v)
  {
    hide Pending, Accumulate;
    PendingFirst(buffer, v);
  }

  /** The decoder after i good sextets: what is pending, and what has been stored. */
  ghost predicate AtTurn(vs: seq<bv8>, was: seq<bv8>, i: nat, outPos: nat, buffer: bv32, bits: int, last: bv8,
                         now: seq<bv8>)
  {
    i <= |vs| && bits == BitsAfter(i) && outPos == 3 * i / 4 <= |was| && Pending(buffer, bits, last) &&
    (i > 0 ==> last == vs[i - 1]) && now == Octets(vs[..i]) + was[outPos..]
  }

  lemma FirstTurn(vs: seq<bv8>, was: seq<bv8>)
    ensures AtTurn(vs, was, 0, 0, 0, 0, 0, was)
  {
    hide Octets, Pending;
    PendingZero(0, 0);
    NoOctets();
    assert vs[..0] == [] && [] + was[0..] == was;
  }

  /** One good sextet: with nothing pending it waits, otherwise it completes an octet. */
  lemma NextTurn(vs: seq<bv8>, was: seq<bv8>, i: nat, outPos: nat, buffer: bv32, bits: int, last: bv8, now: seq<bv8>)
    requires AtTurn(vs, was, i, outPos, buffer, bits, last, now) && i < |vs| && vs[i] < 64
    ensures |now| == |was| && bits in {0, 2, 4, 6} && (i % 4 == 0 <==> bits == 0)
    ensures bits == 0 ==> AtTurn(vs, was, i + 1, outPos, Accumulate(buffer, vs[i]), 6, vs[i], now)
    ensures bits != 0 && outPos < |was| ==>
              var next := Accumulate(buffer, vs[i]);
              AtTurn(vs, was, i + 1, outPos + 1, next, bits - 2, vs[i], now[outPos := TopOctet(next, bits - 2)])
  {
    hide Octets, Pending, Accumulate, TopOctet, BitsAfter;
    PhaseStep(i);
    StepInvariant(vs, was, i, buffer, last);
    OctetsSize(vs, i);
  }

  lemma OctetsSize(vs: seq<bv8>, i: nat)
    requires i <= |vs|
    ensures |Octets(vs[..i])| == 3 * i / 4
  {
    hide Octets;
  }

  lemma StopsHere(alphabet: Alphabet, text: seq<octet>, room: nat, was: seq<bv8>, i: nat, outPos: nat, buffer: bv32,
                  bits: int, last: bv8, now: seq<bv8>)
    requires AtTurn(Values(alphabet, text), was, i, outPos, buffer, bits, last, now) && outPos <= room <= |was|
    ensures i == FirstBad(alphabet, text) ==>
              Stopped(alphabet, text, room, was, if i < |text| then ERR_INVALID else outPos, now)
    ensures i < FirstBad(alphabet, text) && bits != 0 && outPos == room ==>
              Stopped(alphabet, text, room, was, ERR_OVERFLOW, now)
  {
    hide Octets, Pending, Stopped, FirstBad, BitsAfter;
    PhaseStep(i);
    if i == FirstBad(alphabet, text) {
      StopHere(alphabet, text, room, was, i, now);
    } else if i < FirstBad(alphabet, text) && bits != 0 && outPos == room {
      StopFull(alphabet, text, room, was, i, now);
    }
  }

  method DecodeBody(input: array<octet>, n: nat, out: array<bv8>, outSize: nat,
                    table: array<bv8>, alphabet: Alphabet) returns (code: int)
    requires n <= input.Length && outSize <= out.Length
    requires TableFor(table[..], alphabet) && out != input as object && out != table
    modifies out
    ensures Stopped(alphabet, input[..n], outSize, old(out[..]), code, out[..])
  {
    hide Accumulate, TopOctet, Value, Stopped, FirstBad, Position, AtTurn;
    ghost var text, was, decode := input[..n], out[..], table[..];
    ghost var vs := Values(alphabet, text);
    var outPos: nat, buffer, bits := 0, 0 as bv32, 0;
    ghost var last: bv8 := 0;
    FirstTurn(vs, was);
    for i := 0 to n
      invariant i <= FirstBad(alphabet, text) && input[..n] == text && table[..] == decode && outPos <= outSize
      invariant AtTurn(vs, was, i, outPos, buffer, bits, last, out[..])
    {
      var v := table[input[i] as int];
      assert v == vs[i] by {
        assert v == decode[text[i] as int];
      }
      BadHere(alphabet, text, i);
      StopsHere(alphabet, text, outSize, was, i, outPos, buffer, bits, last, out[..]);
      if v == BAD {
        return ERR_INVALID;
      }
      NextTurn(vs, was, i, outPos, buffer, bits, last, out[..]);
      buffer := Accumulate(buffer, v);
      bits := bits + 6;
      if bits >= 8 {
        bits := bits - 8;
        if outPos >= outSize {
          return ERR_OVERFLOW;
        }
        ghost var before := out[..];
        out[outPos] := TopOctet(buffer, bits);
        assert out[..] == before[outPos := TopOctet(buffer, bits)];
        outPos := outPos + 1;
      }
      last := v;
    }
    StopsHere(alphabet, text, outSize, was, n, outPos, buffer, bits, last, out[..]);
    return outPos;
  }

  /** do_decode after its checks: strip the '=', then the loop. */
  method DecodeText(input: array<octet>, inLen: nat, out: array<bv8>, outSize: nat,
                    table: array<bv8>, alphabet: Alphabet) returns (code: int)
    requires inLen <= input.Length && outSize <= out.Length
    requires TableFor(table[..], alphabet) && out != input as object && out != table
    modifies out
    ensures code == DecodeCode(alphabet, old(input[..inLen]), outSize)
    ensures var octets := Produced(alphabet, old(input[..inLen]));
            var kept := if |octets| <= outSize then |octets| else outSize;
            out[..] == octets[..kept] + old(out[..])[kept..]
  {
    hide Octets, FirstBad, TableFor, Position, Effective, Value;
    ghost var text := input[..inLen];
    var n := Strip(input, inLen);
    assert input[..n] == text[..n];
    code := DecodeBody(input, n, out, outSize, table, alphabet);
    assert text[..n][..FirstBad(alphabet, text[..n])] == text[..FirstBad(alphabet, text[..n])];
  }

  /** The static decode tables and their ready flag. */
  class DecodeTables {
    var std: array<bv8>
    var url: array<bv8>
    var ready: bool

    ghost predicate Valid()
      reads this, std, url
    {
      std.Length == 256 && url.Length == 256 && std != url &&
      (ready ==> TableFor(std[..], Standard) && TableFor(url[..], UrlSafe))
    }

    constructor ()
      ensures Valid() && fresh(std) && fresh(url)
    {
      std, url := new bv8[256], new bv8[256];
      ready := false;
    }

    method Blank(table: array<bv8>)
      requires table.Length == 256
      modifies table
      ensures forall k | 0 <= k < 256 :: table[k] == BAD
    {
      for i := 0 to 256
        invariant forall k | 0 <= k < i :: table[k] == BAD
      {
        table[i] := BAD;
      }
    }

    method Fill(table: array<bv8>, alphabet: Alphabet)
      requires table.Length == 256
      modifies table
      ensures TableFor(table[..], alphabet)
    {
      hide Letter, Position, ToByte;
      Blank(table);
      for i := 0 to 64
        invariant forall c: octet :: table[c as int] ==
                    if 0 <= Position(alphabet, c) < i then ToByte(Position(alphabet, c)) else BAD
      {
        LetterPosition(alphabet, i);
        table[Letter(alphabet, i) as int] := ToByte(i);
      }
    }

    method Build()
      requires Valid()
      modifies this`ready, std, url
      ensures Valid() && ready && std == old(std) && url == old(url)
    {
      Fill(std, Standard);
      Fill(url, UrlSafe);
      ready := true;
    }

    /** base64_decode and base64_decode_url: the tables are built before anything is checked. */
    method Decode(input: array?<octet>, inLen: nat, out: array?<bv8>, outSize: nat, alphabet: Alphabet)
      returns (code: int)
      requires Valid()
      requires input != null ==> inLen <= input.Length && input != std as object && input != url as object
      requires out != null ==> outSize <= out.Length && out != std && out != url
      requires input != null && out != null ==> out != input as object
      modifies this`ready, std, url, if out == null then {} else {out}
      ensures Valid() && ready && std == old(std) && url == old(url)
      ensures code == if input == null || out == null then ERR_NULL else DecodeCode(alphabet, input[..inLen], outSize)
      ensures out != null && input == null ==> out[..] == old(out[..])
      ensures out != null && input != null ==>
                var octets := Produced(alphabet, input[..inLen]);
                var kept := if |octets| <= outSize then |octets| else outSize;
                out[..] == octets[..kept] + old(out[..])[kept..]
    {
      hide Octets, FirstBad, TableFor, Position, Produced, DecodeCode;
      ghost var text := if input == null then [] else input[..inLen];
      ghost var was := if out == null then [] else out[..];
      if !ready {
        Build();
      }
      if input == null || out == null {
        return ERR_NULL;
      }
      assert input[..inLen] == text && out[..] == was;
      code := DecodeText(input, inLen, out, outSize, if alphabet == Standard then std else url, alphabet);
    }
  }

  // ---- Encoder and decoder together ----

  lemma ValuesOfLetters(alphabet: Alphabet, vs: seq<bv8>)
    requires AreSextets(vs)
    ensures Values(alphabet, Letters(alphabet, vs)) == vs
    ensures forall i | 0 <= i < |vs| :: Position(alphabet, Letters(alphabet, vs)[i]) >= 0
    ensures forall i | 0 <= i < |vs| :: Letters(alphabet, vs)[i] != '='
  {
    hide Letter, Position, Letters, Index;
    forall i | 0 <= i < |vs|
      ensures Value(alphabet, Letters(alphabet, vs)[i]) == vs[i]
      ensures Position(alphabet, Letters(alphabet, vs)[i]) >= 0 && Letters(alphabet, vs)[i] != '='
    {
      LetterPosition(alphabet, Index(vs[i]));
      IndexBack(vs[i]);
    }
  }

  lemma IndexBack(v: bv8)
    requires v < 64
    ensures ToByte(Index(v)) == v
  {
    hide ToByte;
    ByteForth(v);
    assert Index(v) == Val(v);
  }

  /** A text of alphabet letters followed only by '=' is read up to the '='. */
  lemma {:induction false} EffectiveOf(letters: seq<octet>, pad: seq<octet>)
    requires forall i | 0 <= i < |letters| :: letters[i] != '='
    requires forall i | 0 <= i < |pad| :: pad[i] == '='
    ensures Effective(letters + pad) == |letters|
    decreases |pad|
  {
    if pad == [] {
      assert letters + pad == letters;
    } else {
      var shorter := pad[..|pad| - 1];
      assert (letters + pad)[..|letters + pad| - 1] == letters + shorter;
      EffectiveOf(letters, shorter);
    }
  }

  /** Decoding an encoded text into a large enough buffer gives the bytes back. */
  lemma RoundTrip(alphabet: Alphabet, padded: bool, data: seq<bv8>, room: nat)
    requires |data| <= room
    ensures Produced(alphabet, EncodedText(alphabet, padded, data)) == data
    ensures DecodeCode(alphabet, EncodedText(alphabet, padded, data), room) == |data|
  {
    hide Effective, FirstBad, Position, Letters, Octets, Sextets, Padding;
    var letters := Letters(alphabet, Sextets(data));
    var pad := if padded then Padding(|data|) else [];
    OctetsOfSextets(data);
    ValuesOfLetters(alphabet, Sextets(data));
    EffectiveOf(letters, pad);
    var text := EncodedText(alphabet, padded, data);
    assert text == letters + pad && text[..|letters|] == letters;
    assert FirstBad(alphabet, letters) == |letters|;
    assert text[..|letters|] == letters;
  }

  /** A text is accepted exactly when everything before the trailing '=' is in
      the alphabet and the buffer holds three octets for every four characters. */
  lemma AcceptedExactlyWhen(alphabet: Alphabet, text: seq<octet>, room: nat)
    ensures DecodeCode(alphabet, text, room) >= 0 <==>
            (forall i | 0 <= i < Effective(text) :: Position(alphabet, text[i]) >= 0) &&
            3 * Effective(text) / 4 <= room
    ensures DecodeCode(alphabet, text, room) >= 0 ==>
            DecodeCode(alphabet, text, room) == 3 * Effective(text) / 4 == |Produced(alphabet, text)|
  {
    hide Position, Effective, FirstBad;
    var body := text[..Effective(text)];
    var bad := FirstBad(alphabet, body);
    if bad < |body| {
      assert Position(alphabet, text[bad]) < 0;
    } else {
      forall i | 0 <= i < |body|
        ensures Position(alphabet, text[i]) >= 0
      {
        assert Position(alphabet, body[i]) >= 0;
      }
    }
  }

  /** The advertised decode buffer size is enough except for an unpadded text
      whose length is 3 modulo 4, where it is one octet short. */
  lemma DecodedSizeSuffices(text: seq<octet>)
    ensures 3 * Effective(text) / 4 <= DecodedSize(|text|) <==>
            !(|text| % 4 == 3 && Effective(text) == |text|)
  {
    var n, m := |text|, Effective(text);
    assert n == 4 * (n / 4) + n % 4;
    if n % 4 == 3 && m < n {
      assert 3 * m / 4 <= 3 * (n - 1) / 4;
    }
  }

  /** For an unpadded text in the alphabet, encoding the decoded bytes
      reproduces the text exactly when its sextets are canonical. */
  lemma ReencodeUnpadded(alphabet: Alphabet, text: seq<octet>)
    requires FirstBad(alphabet, text) == |text|
    ensures EncodedText(alphabet, false, Octets(Values(alphabet, text))) == text <==>
            Canonical(Values(alphabet, text))
  {
    hide FirstBad, Position, Letters, Octets, Sextets, Canonical;
    var vs := Values(alphabet, text);
    ValuesAreSextets(alphabet, text);
    SextetsOfOctets(vs);
    var again := Sextets(Octets(vs));
    OctetsOfSextets(Octets(vs));
    ValuesOfLetters(alphabet, again);
    assert EncodedText(alphabet, false, Octets(vs)) == Letters(alphabet, again);
  }

  lemma ValuesAreSextets(alphabet: Alphabet, text: seq<octet>)
    requires FirstBad(alphabet, text) == |text|
    ensures AreSextets(Values(alphabet, text))
    ensures Letters(alphabet, Values(alphabet, text)) == text
  {
    hide FirstBad, Position, Letters, Letter, Index;
    forall i | 0 <= i < |text|
      ensures Value(alphabet, text[i]) < 64
      ensures Letter(alphabet, Index(Value(alphabet, text[i]))) == text[i]
    {
      ValueRange(alphabet, text[i]);
      IndexOfPosition(Position(alphabet, text[i]));
    }
  }

  lemma IndexOfPosition(v: int)
    requires 0 <= v < 64
    ensures Index(ToByte(v)) == v
  {
    hide ToByte;
    SmallByte(v);
  }
}
