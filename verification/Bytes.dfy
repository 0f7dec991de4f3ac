/** Big-endian byte strings and the numbers they denote. */
module Bytes {
  import opened Basics
  import opened Numerals

  function BigEndian(bytes: seq<byte>): nat {
    if bytes == [] then 0 else BigEndian(bytes[..|bytes| - 1]) * 0x100 + bytes[|bytes| - 1]
  }

  function Pow256(n: nat): (r: nat)
    ensures r >= 1
  {
    if n == 0 then 1 else Pow256(n - 1) * 0x100
  }

  lemma PowersOf256()
    ensures Pow256(8) == U64_BOUND && Pow256(32) == U256_BOUND
  {
    assert Pow256(4) == 0x1_0000_0000;
    assert Pow256(8) == U64_BOUND;
    assert Pow256(16) == 0x1_0000_0000_0000_0000_0000_0000_0000_0000;
    assert Pow256(24) == 0x1_0000_0000_0000_0000_0000_0000_0000_0000_0000_0000_0000_0000;
  }

  function BytesOf(n: nat, len: nat): (r: seq<byte>)
    ensures |r| == len
  {
    if len == 0 then [] else BytesOf(n / 0x100, len - 1) + [n % 0x100]
  }

  function Zeros(n: nat): (r: seq<byte>)
    ensures |r| == n
  {
    seq(n, _ => 0)
  }

  lemma {:induction false} BigEndianBound(bytes: seq<byte>)
    ensures BigEndian(bytes) < Pow256(|bytes|)
    ensures |bytes| == 8 ==> BigEndian(bytes) < U64_BOUND
  {
    if bytes == [] {
    } else {
      BigEndianBound(bytes[..|bytes| - 1]);
    }
    PowersOf256();
  }

  lemma {:induction false} BytesOfValue(n: nat, len: nat)
    requires n < Pow256(len)
    ensures BigEndian(BytesOf(n, len)) == n
  {
    if len == 0 {
    } else {
      var high, l := n / 0x100, len - 1;
      assert high < Pow256(l);
      BytesOfValue(high, l);
      var r := BytesOf(n, len);
      assert r == BytesOf(high, l) + [n % 0x100] && r[..l] == BytesOf(high, l);
    }
  }

  lemma {:induction false} BytesOfSmall(n: nat, len: nat, high: nat)
    requires high <= len && n < Pow256(len - high)
    ensures BytesOf(n, len) == Zeros(high) + BytesOf(n, len - high)
  {
    if high < len {
      assert n / 0x100 < Pow256(len - high - 1);
      BytesOfSmall(n / 0x100, len - 1, high);
    } else {
      AllZeros(len);
    }
  }

  lemma {:induction false} AllZeros(len: nat)
    ensures BytesOf(0, len) == Zeros(len)
  {
    if len == 0 {
    } else {
      AllZeros(len - 1);
    }
  }

  lemma {:induction false} LeadingZeros(bytes: seq<byte>, high: nat)
    requires high <= |bytes|
    ensures (forall i :: 0 <= i < high ==> bytes[i] == 0) ==> BigEndian(bytes) == BigEndian(bytes[high..])
    ensures !(forall i :: 0 <= i < high ==> bytes[i] == 0) ==> BigEndian(bytes) >= Pow256(|bytes| - high)
    decreases |bytes|
  {
    if high < |bytes| {
      var init := bytes[..|bytes| - 1];
      LeadingZeros(init, high);
      assert bytes[high..][..|bytes| - 1 - high] == init[high..];
    } else if bytes != [] {
      assert bytes[high..] == [];
      var init := bytes[..|bytes| - 1];
      LeadingZeros(init, high - 1);
      assert init[high - 1..] == [];
    }
  }

  /** A byte text in lower-case hex. */
  function HexText(bytes: seq<byte>): (r: string)
    ensures |r| == 2 * |bytes|
  {
    seq(2 * |bytes|,
      j requires 0 <= j < 2 * |bytes| => DigitChar(if j % 2 == 0 then bytes[j / 2] / 16 else bytes[j / 2] % 16))
  }

  lemma HexTextDigits(bytes: seq<byte>, i: nat)
    requires i < |bytes|
    ensures HexText(bytes)[2 * i] == DigitChar(bytes[i] / 16) && HexText(bytes)[2 * i + 1] == DigitChar(bytes[i] % 16)
  {
  }

  lemma HexTextSnoc(bytes: seq<byte>, b: byte)
    ensures HexText(bytes + [b]) == HexText(bytes) + [DigitChar(b / 16)] + [DigitChar(b % 16)]
  {
  }

  lemma HexTextLower(bytes: seq<byte>)
    ensures forall c :: c in HexText(bytes) ==> IsLowerDigit(c)
  {
    var text := HexText(bytes);
    forall j | 0 <= j < |text| ensures IsLowerDigit(text[j]) {
      LowerDigits(if j % 2 == 0 then bytes[j / 2] / 16 else bytes[j / 2] % 16);
    }
  }

  /** Two more digits. */
  lemma {:induction false} ByteParses(text: string, b: byte)
    requires text != "" ==> Parse(text, 16).Some?
    ensures Parse(text + [DigitChar(b / 16)] + [DigitChar(b % 16)], 16)
            == Some((if text == "" then 0 else Parse(text, 16).value) * 0x100 + b)
  {
    var high, low := DigitChar(b / 16), DigitChar(b % 16);
    DigitRoundTrip(b / 16, 16);
    DigitRoundTrip(b % 16, 16);
    if text == "" {
      assert text + [high] == [high] && Parse([high], 16) == Some(b / 16);
    } else {
      ParseSnoc(text, high, 16);
    }
    ParseSnoc(text + [high], low, 16);
  }

  /** The text of bytes, read back as a number, is theirs. */
  lemma {:induction false} HexTextParses(bytes: seq<byte>)
    requires bytes != []
    ensures Parse(HexText(bytes), 16) == Some(BigEndian(bytes))
  {
    var init, b := bytes[..|bytes| - 1], bytes[|bytes| - 1];
    if init != [] {
      HexTextParses(init);
    }
    HexTextMore(init, b);
    assert bytes == init + [b];
  }

  lemma {:induction false} HexTextMore(bytes: seq<byte>, b: byte)
    requires bytes != [] ==> Parse(HexText(bytes), 16) == Some(BigEndian(bytes))
    ensures Parse(HexText(bytes + [b]), 16) == Some(BigEndian(bytes + [b]))
  {
    HexTextSnoc(bytes, b);
    ByteParses(HexText(bytes), b);
    assert (bytes + [b])[..|bytes|] == bytes;
  }

  /** Texts of the same length are equal only for equal bytes. */
  lemma HexTextInjective(a: seq<byte>, b: seq<byte>)
    requires |a| == |b|
    ensures HexText(a) == HexText(b) <==> a == b
  {
    if HexText(a) == HexText(b) {
      forall i | 0 <= i < |a| ensures a[i] == b[i] {
        HexTextDigits(a, i);
        HexTextDigits(b, i);
        DigitRoundTrip(a[i] / 16, 16);
        DigitRoundTrip(b[i] / 16, 16);
        DigitRoundTrip(a[i] % 16, 16);
        DigitRoundTrip(b[i] % 16, 16);
      }
    }
  }

  lemma {:induction false} BigEndianInjective(a: seq<byte>, b: seq<byte>)
    requires |a| == |b| && BigEndian(a) == BigEndian(b)
    ensures a == b
  {
    if a == [] {
    } else {
      var n := |a| - 1;
      BigEndianInjective(a[..n], b[..n]);
      assert a == a[..n] + [a[n]] && b == b[..n] + [b[n]];
    }
  }
}
