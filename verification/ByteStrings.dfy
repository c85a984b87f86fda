/** Byte strings and the integers they spell, most significant byte first. */
module ByteStrings {
  import opened Congruence
  import opened JsNumber

  type byte = i: int | 0 <= i < 256

  function Min(a: nat, b: nat): nat { if a < b then a else b }

  /** bytes.reduce((sum, byte) => sum * 256 + byte, 0). */
  function BigEndian(s: seq<byte>): (v: nat) {
    if s == [] then 0 else 256 * BigEndian(s[..|s| - 1]) + s[|s| - 1]
  }

  /** The same reduction in doubles: every sum is rounded. */
  function ReadNumber(s: seq<byte>): (v: nat) {
    if s == [] then 0 else ToDouble(256 * ReadNumber(s[..|s| - 1]) + s[|s| - 1])
  }

  function ToBytes(v: int, n: nat): (s: seq<byte>)
    ensures |s| == n
    decreases n
  {
    if n == 0 then [] else ToBytes(v / 256, n - 1) + [v % 256]
  }

  lemma {:induction false} BytesRoundTrip(v: int, n: nat)
    requires 0 <= v < Pow(256, n)
    ensures BigEndian(ToBytes(v, n)) == v
  {
    if n > 0 {
      BytesRoundTrip(v / 256, n - 1);
      assert ToBytes(v, n)[..n - 1] == ToBytes(v / 256, n - 1);
    }
  }

  lemma {:induction false} BigEndianBound(s: seq<byte>)
    ensures BigEndian(s) < Pow(256, |s|)
  {
    if s != [] { BigEndianBound(s[..|s| - 1]); }
  }

  lemma {:induction false} ToBytesUnique(s: seq<byte>)
    ensures ToBytes(BigEndian(s), |s|) == s
  {
    if s != [] {
      ToBytesUnique(s[..|s| - 1]);
      assert s == s[..|s| - 1] + [s[|s| - 1]];
    }
  }

  predicate AllZero(s: seq<byte>) {
    forall i :: 0 <= i < |s| ==> s[i] == 0
  }

  lemma {:induction false} BigEndianZero(s: seq<byte>)
    ensures BigEndian(s) == 0 <==> AllZero(s)
  {
    if s != [] {
      BigEndianZero(s[..|s| - 1]);
      assert s == s[..|s| - 1] + [s[|s| - 1]];
    }
  }

  function Zeros(n: nat): (s: seq<byte>)
    ensures |s| == n && AllZero(s)
  {
    seq(n, _ => 0)
  }

  /** text.replace(/\0+$/, ''): drop trailing zero bytes. */
  function TrimZeros(s: seq<byte>): seq<byte> {
    if s != [] && s[|s| - 1] == 0 then TrimZeros(s[..|s| - 1]) else s
  }

  function PadTo(s: seq<byte>, n: nat): (r: seq<byte>)
    requires |s| <= n
    ensures |r| == n
  {
    s + Zeros(n - |s|)
  }

  lemma {:induction false} TrimPads(s: seq<byte>)
    ensures |TrimZeros(s)| <= |s| && s == PadTo(TrimZeros(s), |s|)
  {
    if s != [] && s[|s| - 1] == 0 {
      TrimPads(s[..|s| - 1]);
      assert s == s[..|s| - 1] + [0];
      assert Zeros(|s| - |TrimZeros(s)|) == Zeros(|s| - 1 - |TrimZeros(s)|) + [0];
    } else {
      assert Zeros(0) == [];
    }
  }

  lemma {:induction false} TrimOfPadded(s: seq<byte>, k: nat)
    ensures TrimZeros(s + Zeros(k)) == TrimZeros(s)
  {
    if k == 0 {
      assert s + Zeros(0) == s;
    } else {
      assert (s + Zeros(k))[..|s| + k - 1] == s + Zeros(k - 1);
      TrimOfPadded(s, k - 1);
    }
  }

  lemma {:induction false} TrimKeeps(s: seq<byte>)
    ensures |TrimZeros(s)| <= |s|
    ensures TrimZeros(s) == s <==> s == [] || s[|s| - 1] != 0
  {
    if s != [] && s[|s| - 1] == 0 { TrimKeeps(s[..|s| - 1]); }
  }

  /** Below 2^53 no sum is rounded. */
  lemma {:induction false} ReadsExactly(s: seq<byte>)
    ensures ReadNumber(s) < EXACT_MAX || BigEndian(s) < EXACT_MAX ==> ReadNumber(s) == BigEndian(s)
  {
    if s != [] {
      var init := s[..|s| - 1];
      ReadsExactly(init);
      SmallDouble(256 * ReadNumber(init) + s[|s| - 1]);
    }
  }

  /** Six bytes always are. */
  lemma SixBytes(s: seq<byte>)
    requires |s| <= 6
    ensures ReadNumber(s) == BigEndian(s)
  {
    BigEndianBound(s);
    assert Pow(256, 3) == 0x100_0000;
    PowAdd(256, 3, 3);
    if |s| < 6 { PowMonotone(256, |s|, 6); }
    ReadsExactly(s);
  }

  /** A double comes back from its digits: every prefix of them is a double as well. */
  lemma {:induction false} ReadsDouble(v: nat, n: nat)
    requires IsDouble(v) && v < Pow(256, n)
    ensures ReadNumber(ToBytes(v, n)) == v
  {
    if n > 0 {
      ByteOff(v);
      ReadsDouble(v / 256, n - 1);
      assert ToBytes(v, n)[..n - 1] == ToBytes(v / 256, n - 1);
    }
  }

  lemma OneMoreByte(s: seq<byte>, x: byte)
    ensures BigEndian(s + [x]) == 256 * BigEndian(s) + x
    ensures ReadNumber(s + [x]) == ToDouble(256 * ReadNumber(s) + x)
  {
    assert (s + [x])[..|s|] == s;
  }

  lemma MoreDigits(v: int, n: nat)
    ensures ToBytes(v, n + 1) == ToBytes(v / 256, n) + [v % 256]
  {
  }

  lemma NoBytes(v: int)
    ensures BigEndian([]) == 0 && ReadNumber([]) == 0 && ToBytes(v, 0) == []
  {
  }

  lemma TieToEven()
    ensures ToDouble(0x20_0000_0000_0001) == 0x20_0000_0000_0000 && IsDouble(0x20_0000_0000_0000)
  {
    assert Ulp(0x10_0000_0000_0000) == 1;
    assert Ulp(0x20_0000_0000_0001) == 2 && Ulp(0x20_0000_0000_0000) == 2;
  }

  /** 2^53 and the next integer: seven bytes each, read as one double. */
  lemma RoundedBytes()
    ensures ToBytes(0x20_0000_0000_0000, 7) == [0x20, 0, 0, 0, 0, 0, 0]
    ensures BigEndian([0x20, 0, 0, 0, 0, 0, 1]) == 0x20_0000_0000_0001
    ensures ReadNumber([0x20, 0, 0, 0, 0, 0, 1]) == 0x20_0000_0000_0000
  {
    hide BigEndian, ReadNumber, ToBytes, ToDouble;
    SixZeros();
    var six: seq<byte> := [0x20, 0, 0, 0, 0, 0];
    SixBytes(six);
    OneMoreByte(six, 1);
    TieToEven();
    assert six + [1] == [0x20, 0, 0, 0, 0, 0, 1];
    MoreDigits(0x20_0000_0000_0000, 6);
    assert six + [0] == [0x20, 0, 0, 0, 0, 0, 0];
  }

  /** A zero byte more. */
  lemma TimesByte(v: nat, s: seq<byte>, n: nat)
    requires ToBytes(v, n) == s && BigEndian(s) == v
    ensures ToBytes(256 * v, n + 1) == s + [0] && BigEndian(s + [0]) == 256 * v
  {
    hide ToBytes, BigEndian, ReadNumber;
    OneMoreByte(s, 0);
    MoreDigits(256 * v, n);
  }

  lemma SixZeros()
    ensures ToBytes(0x2000_0000_0000, 6) == [0x20, 0, 0, 0, 0, 0]
    ensures BigEndian([0x20, 0, 0, 0, 0, 0]) == 0x2000_0000_0000
  {
    hide BigEndian, ReadNumber, ToBytes;
    NoBytes(0);
    OneMoreByte([], 0x20);
    MoreDigits(0x20, 0);
    var s: seq<byte> := [] + [0x20];
    TimesByte(0x20, s, 1);
    TimesByte(0x2000, s + [0], 2);
    TimesByte(0x20_0000, s + [0] + [0], 3);
    TimesByte(0x2000_0000, s + [0] + [0] + [0], 4);
    TimesByte(0x20_0000_0000, s + [0] + [0] + [0] + [0], 5);
    assert s + [0] + [0] + [0] + [0] + [0] == [0x20, 0, 0, 0, 0, 0];
  }
}
