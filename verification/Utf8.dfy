/** UTF-8 text (RFC 3629) and what a text decoder makes of arbitrary bytes: ill-formed parts
    become U+FFFD, one for each maximal start of a sequence, and a leading byte-order mark is
    dropped. Text is represented by its UTF-8 bytes. */
module Utf8 {
  import opened ByteStrings

  /** The length a lead byte announces, 0 for a byte that leads nothing. */
  function Announced(lead: byte): nat {
    if lead < 0x80 then 1
    else if 0xc2 <= lead <= 0xdf then 2
    else if 0xe0 <= lead <= 0xef then 3
    else if 0xf0 <= lead <= 0xf4 then 4
    else 0
  }

  /** The second byte's range depends on the lead: no overlong forms, no surrogates, nothing
      above U+10FFFF. */
  predicate SecondFits(lead: byte, b: byte) {
    (if lead == 0xe0 then 0xa0 else if lead == 0xf0 then 0x90 else 0x80) <= b
    && b <= (if lead == 0xed then 0x9f else if lead == 0xf4 then 0x8f else 0xbf)
  }

  predicate Continues(b: byte) {
    0x80 <= b <= 0xbf
  }

  /** How many bytes at the front fit the announced sequence. */
  function Fitting(s: seq<byte>): (n: nat)
    requires s != []
    ensures n <= |s| && n <= Announced(s[0])
  {
    var n := Announced(s[0]);
    if n <= 1 then n
    else if |s| < 2 || !SecondFits(s[0], s[1]) then 1
    else if n == 2 || |s| < 3 || !Continues(s[2]) then 2
    else if n == 3 || |s| < 4 || !Continues(s[3]) then 3
    else 4
  }

  /** A whole character stands at the front. */
  predicate Leads(s: seq<byte>) {
    s != [] && Announced(s[0]) > 0 && Fitting(s) == Announced(s[0])
  }

  predicate WellFormed(s: seq<byte>)
    decreases |s|
  {
    s == [] || (Leads(s) && WellFormed(s[Fitting(s)..]))
  }

  type Text = s: seq<byte> | WellFormed(s) witness []

  /** What an ill-formed start gives up: the bytes that fitted, or a byte that leads nothing. */
  function Skipped(s: seq<byte>): (n: nat)
    requires s != []
    ensures 0 < n <= |s|
  {
    if Fitting(s) == 0 then 1 else Fitting(s)
  }

  // ---------------------------------------------------------------- which strings are text

  predicate Scalar(c: nat) {
    c < 0xd800 || 0xe000 <= c < 0x11_0000
  }

  /** The encoding of a scalar value (section 3 of RFC 3629). */
  function Encoded(c: nat): (s: seq<byte>)
    requires Scalar(c)
  {
    if c < 0x80 then [c]
    else if c < 0x800 then [0xc0 + c / 64, 0x80 + c % 64]
    else if c < 0x1_0000 then [0xe0 + c / 4096, 0x80 + c / 64 % 64, 0x80 + c % 64]
    else [0xf0 + c / 0x4_0000, 0x80 + c / 4096 % 64, 0x80 + c / 64 % 64, 0x80 + c % 64]
  }

  function EncodedAll(cs: seq<nat>): seq<byte>
    requires forall i :: 0 <= i < |cs| ==> Scalar(cs[i])
  {
    if cs == [] then [] else Encoded(cs[0]) + EncodedAll(cs[1..])
  }

  lemma EncodedLeads(c: nat, rest: seq<byte>)
    requires Scalar(c)
    ensures Leads(Encoded(c) + rest) && Fitting(Encoded(c) + rest) == |Encoded(c)|
  {
    var s := Encoded(c) + rest;
    assert s[0] == Encoded(c)[0] && Announced(s[0]) == |Encoded(c)|;
    assert |Encoded(c)| > 1 ==> s[1] == Encoded(c)[1];
    assert |Encoded(c)| > 2 ==> s[2] == Encoded(c)[2];
    assert |Encoded(c)| > 3 ==> s[3] == Encoded(c)[3];
  }

  /** The character at the front is the encoding of a scalar value. */
  lemma LeadingScalar(s: seq<byte>) returns (c: nat)
    requires Leads(s)
    ensures Scalar(c) && Encoded(c) == s[..Fitting(s)]
  {
    var n, a: int := Fitting(s), s[0];
    if n == 1 {
      c := a;
    } else if n == 2 {
      c := TwoBytes(a, s[1]);
    } else if n == 3 {
      c := ThreeBytes(a, s[1], s[2]);
    } else {
      c := FourBytes(a, s[1], s[2], s[3]);
    }
  }

  lemma TwoBytes(a: byte, b: byte) returns (c: nat)
    requires Announced(a) == 2 && Continues(b)
    ensures Scalar(c) && Encoded(c) == [a, b]
  {
    var x: int, y: int := a, b;
    c := 64 * (x - 0xc0) + (y - 0x80);
  }

  lemma ThreeBytes(a: byte, b: byte, d: byte) returns (c: nat)
    requires Announced(a) == 3 && SecondFits(a, b) && Continues(d)
    ensures Scalar(c) && Encoded(c) == [a, b, d]
  {
    var x: int, y: int, z: int := a, b, d;
    var m := 64 * (x - 0xe0) + (y - 0x80);
    c := 64 * m + (z - 0x80);
    assert c / 64 == m && c / 4096 == m / 64;
  }

  lemma FourBytes(a: byte, b: byte, d: byte, e: byte) returns (c: nat)
    requires Announced(a) == 4 && SecondFits(a, b) && Continues(d) && Continues(e)
    ensures Scalar(c) && Encoded(c) == [a, b, d, e]
  {
    var x: int, y: int, z: int, t: int := a, b, d, e;
    var m := 64 * (x - 0xf0) + (y - 0x80);
    var n := 64 * m + (z - 0x80);
    c := 64 * n + (t - 0x80);
    assert c / 64 == n && c / 4096 == m && c / 0x4_0000 == m / 64;
  }

  lemma {:induction false} EncodedIsText(cs: seq<nat>)
    requires forall i :: 0 <= i < |cs| ==> Scalar(cs[i])
    ensures WellFormed(EncodedAll(cs))
  {
    if cs != [] {
      EncodedIsText(cs[1..]);
      EncodedLeads(cs[0], EncodedAll(cs[1..]));
      assert EncodedAll(cs)[|Encoded(cs[0])|..] == EncodedAll(cs[1..]);
    }
  }

  lemma {:induction false} TextIsEncoded(s: seq<byte>) returns (cs: seq<nat>)
    requires WellFormed(s)
    ensures (forall i :: 0 <= i < |cs| ==> Scalar(cs[i])) && EncodedAll(cs) == s
    decreases |s|
  {
    if s == [] {
      cs := [];
    } else {
      var c := LeadingScalar(s);
      var rest := TextIsEncoded(s[Fitting(s)..]);
      cs := [c] + rest;
      assert cs[1..] == rest && s == s[..Fitting(s)] + s[Fitting(s)..];
    }
  }

  /** Well-formed strings are exactly the encodings of sequences of scalar values. */
  lemma WellFormedExactly(s: seq<byte>)
    ensures WellFormed(s)
            <==> exists cs: seq<nat> :: (forall i :: 0 <= i < |cs| ==> Scalar(cs[i])) && EncodedAll(cs) == s
  {
    if WellFormed(s) {
      var cs := TextIsEncoded(s);
    }
    if cs: seq<nat> :| (forall i :: 0 <= i < |cs| ==> Scalar(cs[i])) && EncodedAll(cs) == s {
      EncodedIsText(cs);
    }
  }

  // ---------------------------------------------------------------- decoding

  const REPLACEMENT: seq<byte> := [0xef, 0xbf, 0xbd]

  function Replaced(s: seq<byte>): (t: seq<byte>)
    decreases |s|
  {
    if s == [] then []
    else if Leads(s) then s[..Fitting(s)] + Replaced(s[Fitting(s)..])
    else REPLACEMENT + Replaced(s[Skipped(s)..])
  }

  predicate StartsWithMark(s: seq<byte>) {
    |s| >= 3 && s[0] == 0xef && s[1] == 0xbb && s[2] == 0xbf
  }

  function WithoutMark(s: seq<byte>): seq<byte> {
    if StartsWithMark(s) then s[3..] else s
  }

  /** new TextDecoder().decode, as the UTF-8 bytes of the resulting text. */
  function TextDecode(s: seq<byte>): Text {
    ReplacedWellFormed(WithoutMark(s));
    Replaced(WithoutMark(s))
  }

  /** A character followed by text is text. */
  lemma Prepend(s: seq<byte>, t: seq<byte>)
    requires Leads(s) && WellFormed(t)
    ensures WellFormed(s[..Fitting(s)] + t)
  {
    var n, u := Fitting(s), s[..Fitting(s)] + t;
    assert u[0] == s[0] && (n > 1 ==> u[1] == s[1]) && (n > 2 ==> u[2] == s[2]) && (n > 3 ==> u[3] == s[3]);
    assert Fitting(u) == n && u[n..] == t;
  }

  lemma {:induction false} ReplacedWellFormed(s: seq<byte>)
    ensures WellFormed(Replaced(s))
    decreases |s|
  {
    if s != [] {
      if Leads(s) {
        ReplacedWellFormed(s[Fitting(s)..]);
        Prepend(s, Replaced(s[Fitting(s)..]));
      } else {
        ReplacedWellFormed(s[Skipped(s)..]);
        Prepend(REPLACEMENT, Replaced(s[Skipped(s)..]));
        assert REPLACEMENT[..3] == REPLACEMENT;
      }
    }
  }

  /** Exactly text is left as it is. */
  lemma {:induction false} ReplacedKeeps(s: seq<byte>)
    ensures Replaced(s) == s <==> WellFormed(s)
    decreases |s|
  {
    ReplacedWellFormed(s);
    if s != [] && Leads(s) {
      ReplacedKeeps(s[Fitting(s)..]);
      assert s == s[..Fitting(s)] + s[Fitting(s)..];
    }
  }

  /** A zero byte at the end is a character of its own. */
  lemma {:induction false} AppendZero(s: seq<byte>)
    ensures WellFormed(s + [0]) <==> WellFormed(s)
    decreases |s|
  {
    var u := s + [0];
    if s == [] {
      assert u[0] == 0 && Fitting(u) == 1 && u[1..] == [];
    } else {
      assert u[0] == s[0] && (|s| > 1 ==> u[1] == s[1]) && (|s| > 2 ==> u[2] == s[2]) && (|s| > 3 ==> u[3] == s[3]);
      assert u[|s|] == 0;
      assert Fitting(u) == Fitting(s);
      if Leads(s) {
        AppendZero(s[Fitting(s)..]);
        assert u[Fitting(s)..] == s[Fitting(s)..] + [0];
      }
    }
  }

  lemma {:induction false} AppendZeros(s: seq<byte>, k: nat)
    ensures WellFormed(s + Zeros(k)) <==> WellFormed(s)
  {
    if k == 0 {
      assert s + Zeros(0) == s;
    } else {
      AppendZeros(s, k - 1);
      AppendZero(s + Zeros(k - 1));
      assert s + Zeros(k) == s + Zeros(k - 1) + [0];
    }
  }

  lemma TrimmedText(s: seq<byte>)
    ensures WellFormed(TrimZeros(s)) <==> WellFormed(s)
  {
    TrimPads(s);
    AppendZeros(TrimZeros(s), |s| - |TrimZeros(s)|);
  }

  /** The mark is a character, so text without it is text. */
  lemma MarklessText(s: seq<byte>)
    ensures WellFormed(WithoutMark(s)) <==> WellFormed(s)
  {
  }

  /** Decoding zero-padded text drops the mark and nothing else. */
  lemma DecodePadded(t: seq<byte>, k: nat)
    requires WellFormed(t)
    ensures TextDecode(t + Zeros(k)) == WithoutMark(t) + Zeros(k)
  {
    var s := t + Zeros(k);
    assert StartsWithMark(s) <==> StartsWithMark(t);
    assert WithoutMark(s) == WithoutMark(t) + Zeros(k);
    MarklessText(t);
    AppendZeros(WithoutMark(t), k);
    ReplacedKeeps(WithoutMark(s));
  }

  /** A field that begins with the mark is not its own shift by three places. */
  lemma {:induction false} ShiftedZeros(s: seq<byte>, i: nat)
    requires |s| >= 3 && s == s[3..] + Zeros(3) && i < |s|
    ensures s[i] == 0
    decreases |s| - i
  {
    if i + 3 < |s| {
      ShiftedZeros(s, i + 3);
      assert s[i] == s[3..][i];
    } else {
      assert s[i] == Zeros(3)[i - (|s| - 3)];
    }
  }

  /** Which fields a decoder reads so that trimming and padding give them back: text without
      a leading mark. */
  lemma FieldKeeps(s: seq<byte>)
    ensures var t := TrimZeros(TextDecode(s));
            |t| <= |s| && PadTo(t, |s|) == s <==> WellFormed(s) && !StartsWithMark(s)
  {
    hide Replaced, TrimZeros, WellFormed;
    var d := TextDecode(s);
    var t := TrimZeros(d);
    TrimPads(d);
    if WellFormed(s) && !StartsWithMark(s) {
      ReplacedKeeps(s);
    }
    if |t| <= |s| && PadTo(t, |s|) == s {
      TrimmedText(d);
      AppendZeros(t, |s| - |t|);
      if StartsWithMark(s) {
        MarklessText(s);
        ReplacedKeeps(s[3..]);
        assert d == s[3..];
        ZerosMeet(t, |d| - |t|, 3);
        ShiftedZeros(s, 0);
        assert false;
      }
    }
  }

  lemma ZerosMeet(t: seq<byte>, m: nat, n: nat)
    ensures t + Zeros(m) + Zeros(n) == t + Zeros(m + n)
  {
  }
}
