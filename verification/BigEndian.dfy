/** Big-endian integers of two and four bytes, as serializer.c writes and reads them. */
module BigEndian {
  import opened Bytes

  function U16Bytes(n: int): (b: seq<bv8>)
    requires 0 <= n < 0x1_0000
    ensures |b| == 2
  {
    [ToByte(n / 256), ToByte(n % 256)]
  }

  function U16Of(b: seq<bv8>): (n: int)
    requires |b| == 2
    ensures 0 <= n < 0x1_0000
  {
    Val(b[0]) * 256 + Val(b[1])
  }

  function U32Bytes(n: int): (b: seq<bv8>)
    requires 0 <= n < 0x1_0000_0000
    ensures |b| == 4
  {
    [ToByte(n / 0x100_0000), ToByte(n / 0x1_0000 % 256), ToByte(n / 0x100 % 256), ToByte(n % 256)]
  }

  function U32Of(b: seq<bv8>): (n: int)
    requires |b| == 4
    ensures 0 <= n < 0x1_0000_0000
  {
    Val(b[0]) * 0x100_0000 + Val(b[1]) * 0x1_0000 + Val(b[2]) * 0x100 + Val(b[3])
  }

  lemma U16RoundTrip(n: int)
    requires 0 <= n < 0x1_0000
    ensures U16Of(U16Bytes(n)) == n
  {
    hide ToByte, Val;
    ByteBack(n / 256);
    ByteBack(n % 256);
  }

  lemma U16Back(b: seq<bv8>)
    requires |b| == 2
    ensures U16Bytes(U16Of(b)) == b
  {
    hide ToByte, Val;
    ByteForth(b[0]);
    ByteForth(b[1]);
  }

  lemma U32RoundTrip(n: int)
    requires 0 <= n < 0x1_0000_0000
    ensures U32Of(U32Bytes(n)) == n
  {
    hide ToByte, Val;
    ByteBack(n / 0x100_0000);
    ByteBack(n / 0x1_0000 % 256);
    ByteBack(n / 0x100 % 256);
    ByteBack(n % 256);
    DigitSum(n);
  }

  lemma DigitSum(n: int)
    requires 0 <= n < 0x1_0000_0000
    ensures n / 0x100_0000 * 0x100_0000 + n / 0x1_0000 % 256 * 0x1_0000 + n / 0x100 % 256 * 0x100 + n % 256 == n
  {
    assert n / 0x1_0000 == n / 0x100 / 256;
    assert n / 0x100_0000 == n / 0x1_0000 / 256;
  }

  lemma OneDigit(x: int, d: int)
    requires 0 <= d < 256
    ensures (x * 256 + d) / 256 == x && (x * 256 + d) % 256 == d
  {
  }

  lemma U32Back(b: seq<bv8>)
    requires |b| == 4
    ensures U32Bytes(U32Of(b)) == b
  {
    hide ToByte, Val;
    ByteForth(b[0]);
    ByteForth(b[1]);
    ByteForth(b[2]);
    ByteForth(b[3]);
    Digits(Val(b[0]), Val(b[1]), Val(b[2]), Val(b[3]));
  }

  lemma Digits(a: int, b: int, c: int, d: int)
    requires 0 <= a < 256 && 0 <= b < 256 && 0 <= c < 256 && 0 <= d < 256
    ensures var n := a * 0x100_0000 + b * 0x1_0000 + c * 0x100 + d;
            n / 0x100_0000 == a && n / 0x1_0000 % 256 == b && n / 0x100 % 256 == c && n % 256 == d
  {
    var ab := a * 256 + b;
    var abc := ab * 256 + c;
    var n := abc * 256 + d;
    OneDigit(abc, d);
    OneDigit(ab, c);
    OneDigit(a, b);
    assert n / 0x100 == abc;
    assert n / 0x1_0000 == n / 0x100 / 256;
    assert n / 0x100_0000 == n / 0x1_0000 / 256;
  }
}
