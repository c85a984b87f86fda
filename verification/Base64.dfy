/** The base64 codec of bit arrays (sections 4 and 5 of RFC 4648). */
module Base64 {
  import opened BitArrays
  import opened Congruence
  import opened Outcomes
  import opened WordBits

  datatype Base64Error = NotBase64

  // ---------------------------------------------------------------- the alphabet

  /** The character of a 6-bit value. */
  function CharOf(v: nat, url: bool): char
    requires v < 64
  {
    if v < 26 then 'A' + v as char
    else if v < 52 then 'a' + (v - 26) as char
    else if v < 62 then '0' + (v - 52) as char
    else if v == 62 then (if url then '-' else '+')
    else (if url then '_' else '/')
  }

  /** indexOf in the alphabet. */
  function IndexOf(c: char, url: bool): (r: Option<nat>)
    ensures r.Some? ==> r.value < 64
  {
    if 'A' <= c <= 'Z' then Some((c - 'A') as nat)
    else if 'a' <= c <= 'z' then Some((c - 'a') as nat + 26)
    else if '0' <= c <= '9' then Some((c - '0') as nat + 52)
    else if c == (if url then '-' else '+') then Some(62)
    else if c == (if url then '_' else '/') then Some(63)
    else None
  }

  lemma IndexOfChar(v: nat, url: bool)
    requires v < 64
    ensures IndexOf(CharOf(v, url), url) == Some(v) && !Dropped(CharOf(v, url))
  {
  }

  function Upper(): (s: string)
    ensures |s| == 26
  {
    "ABCDEFGHIJKLMNOPQRSTUVWXYZ"
  }

  function Lower(): (s: string)
    ensures |s| == 26
  {
    "abcdefghijklmnopqrstuvwxyz"
  }

  function Numerals(): (s: string)
    ensures |s| == 10
  {
    "0123456789"
  }

  /** Tables 1 and 2 of RFC 4648. */
  function Alphabet(url: bool): (a: string)
    ensures |a| == 64
  {
    Upper() + Lower() + Numerals() + (if url then "-_" else "+/")
  }

  lemma Runs(v: nat)
    ensures v < 26 ==> Upper()[v] == 'A' + v as char && Lower()[v] == 'a' + v as char
    ensures v < 10 ==> Numerals()[v] == '0' + v as char
  {
  }

  lemma CharIs(v: nat, url: bool)
    requires v < 64
    ensures CharOf(v, url) == Alphabet(url)[v]
  {
    hide Upper, Lower, Numerals;
    var a, b, c := Upper(), Lower(), Numerals();
    if v < 26 { Runs(v); } else if v < 52 { Runs(v - 26); } else if v < 62 { Runs(v - 52); }
    assert v < 26 ==> Alphabet(url)[v] == a[v];
    assert 26 <= v < 52 ==> Alphabet(url)[v] == b[v - 26];
    assert 52 <= v < 62 ==> Alphabet(url)[v] == c[v - 52];
  }

  lemma IndexIs(c: char, v: nat, url: bool)
    ensures IndexOf(c, url) == Some(v) <==> v < 64 && Alphabet(url)[v] == c
  {
    hide Alphabet;
    if v < 64 {
      CharIs(v, url);
      IndexOfChar(v, url);
      if IndexOf(c, url) == Some(v) { CharOfIndex(c, url); }
    }
  }

  lemma CharOfIndex(c: char, url: bool)
    requires IndexOf(c, url).Some?
    ensures CharOf(IndexOf(c, url).value, url) == c
  {
  }

  /** What replace(/\s|=/g, '') removes. */
  predicate Dropped(c: char) {
    var u := c as int;
    c == '=' || 9 <= u <= 13 || u in {0x20, 0xa0, 0x1680, 0x2028, 0x2029, 0x202f, 0x205f, 0x3000, 0xfeff}
    || 0x2000 <= u <= 0x200a
  }

  function Strip(s: string): string {
    if s == [] then [] else Strip(s[..|s| - 1]) + (if Dropped(s[|s| - 1]) then [] else [s[|s| - 1]])
  }

  lemma {:induction false} StripPadded(s: string, k: nat)
    requires forall i :: 0 <= i < |s| ==> !Dropped(s[i])
    ensures Strip(s + Equals(k)) == s
  {
    if k > 0 {
      assert (s + Equals(k))[..|s| + k - 1] == s + Equals(k - 1);
      StripPadded(s, k - 1);
    } else if s != [] {
      var n := |s| - 1;
      StripPadded(s[..n], 0);
      assert s[..n] + Equals(0) == s[..n] && s + Equals(0) == s;
    }
  }

  function Equals(k: nat): string {
    seq(k, _ => '=')
  }

  // ---------------------------------------------------------------- text and bits

  /** The k-th six bits of x, zeros past its end. */
  function Sextet(x: seq<bool>, k: nat): (v: nat)
    requires 6 * k < |x|
    ensures v < 64
  {
    var s := (x + Falses(6))[6 * k..6 * k + 6];
    ValueBound(s);
    assert Pow(2, 6) == 64 by { PowSix(); }
    Value(s)
  }

  lemma PowSix()
    ensures Pow(2, 6) == 64
  {
    assert Pow(2, 3) == 8;
    PowAdd(2, 3, 3);
  }

  /** The characters of x, without padding. */
  function Letters(x: seq<bool>, url: bool): string {
    seq((|x| + 5) / 6, k requires 0 <= k < (|x| + 5) / 6 => CharOf(Sextet(x, k), url))
  }

  function Encode(x: seq<bool>, noEquals: bool, url: bool): string {
    var s := Letters(x, url);
    s + Equals(if noEquals then 0 else (4 - |s| % 4) % 4)
  }

  /** The character stands for the six bits. */
  predicate Spells(c: char, six: seq<bool>, url: bool) {
    Value(six) < 64 && c == Alphabet(url)[Value(six)]
  }

  /** Each character stands for the next six bits, zeros past the end; equals signs follow up to
      a multiple of four unless they are left out. */
  lemma EncodeSpelledOut(x: seq<bool>, noEquals: bool, url: bool)
    ensures var s, n := Encode(x, noEquals, url), (|x| + 5) / 6;
            && |s| == (if noEquals then n else (n + 3) / 4 * 4)
            && (forall k :: 0 <= k < n ==> Spells(s[k], (x + Falses(6))[6 * k..6 * k + 6], url))
            && (forall k :: n <= k < |s| ==> s[k] == '=')
  {
    hide CharOf, Alphabet, Value, Sextet;
    var n, s := (|x| + 5) / 6, Encode(x, noEquals, url);
    assert |s| == if noEquals then n else (n + 3) / 4 * 4;
    forall k | 0 <= k < n ensures Spells(s[k], (x + Falses(6))[6 * k..6 * k + 6], url) {
      SextetIs(x, k);
      CharIs(Sextet(x, k), url);
    }
  }

  lemma SextetIs(x: seq<bool>, k: nat)
    requires 6 * k < |x|
    ensures Sextet(x, k) == Value((x + Falses(6))[6 * k..6 * k + 6])
  {
  }

  /** All characters belong to the alphabet. */
  predicate Readable(s: string, url: bool) {
    forall i :: 0 <= i < |s| ==> IndexOf(s[i], url).Some?
  }

  /** The bits of the characters, six each. */
  function Groups(s: string, url: bool): (x: seq<bool>)
    requires Readable(s, url)
    ensures |x| == 6 * |s|
  {
    if s == [] then []
    else Groups(s[..|s| - 1], url) + BitsOf(IndexOf(s[|s| - 1], url).value, 6)
  }

  /** What decoding gives: whole bytes of the characters' bits. */
  function Bytes(x: seq<bool>): seq<bool> {
    x[..|x| - |x| % 8]
  }

  lemma {:induction false} GroupsOfLetters(x: seq<bool>, url: bool, k: nat)
    requires k <= (|x| + 5) / 6
    ensures Readable(Letters(x, url)[..k], url)
    ensures 6 * k <= |x| + 6 && Groups(Letters(x, url)[..k], url) == (x + Falses(6))[..6 * k]
  {
    hide BitsOf, CharOf, IndexOf;
    var s := Letters(x, url);
    forall i | 0 <= i < k ensures IndexOf(s[..k][i], url).Some? {
      IndexOfChar(Sextet(x, i), url);
    }
    if k > 0 {
      GroupsOfLetters(x, url, k - 1);
      IndexOfChar(Sextet(x, k - 1), url);
      assert s[..k][..k - 1] == s[..k - 1];
      var e := x + Falses(6);
      var last := e[6 * (k - 1)..6 * (k - 1) + 6];
      BitsOfValue(last);
      assert e[..6 * k] == e[..6 * (k - 1)] + last;
    }
  }

  /** Reading throws exactly when some character is neither dropped nor in the alphabet. */
  lemma {:induction false} ReadableExactly(s: string, url: bool)
    ensures Readable(Strip(s), url) <==> forall i :: 0 <= i < |s| ==> Dropped(s[i]) || s[i] in Alphabet(url)
  {
    hide Dropped, IndexOf, Alphabet;
    if s != [] {
      var n := |s| - 1;
      ReadableExactly(s[..n], url);
      InAlphabet(s[n], url);
      var t := Strip(s[..n]);
      if !Dropped(s[n]) {
        assert Strip(s) == t + [s[n]];
        assert Readable(t + [s[n]], url) <==> Readable(t, url) && IndexOf(s[n], url).Some? by {
          if Readable(t + [s[n]], url) {
            assert (t + [s[n]])[|t|] == s[n];
            forall i | 0 <= i < |t| ensures IndexOf(t[i], url).Some? { assert (t + [s[n]])[i] == t[i]; }
          }
        }
      } else {
        assert Strip(s) == t + [] == t;
      }
      assert (forall i :: 0 <= i < |s| ==> Dropped(s[i]) || s[i] in Alphabet(url))
             <==> (forall i :: 0 <= i < n ==> Dropped(s[..n][i]) || s[..n][i] in Alphabet(url))
                  && (Dropped(s[n]) || s[n] in Alphabet(url));
    }
  }

  lemma InAlphabet(c: char, url: bool)
    ensures IndexOf(c, url).Some? <==> c in Alphabet(url)
  {
    hide Alphabet, IndexOf;
    if IndexOf(c, url).Some? { IndexIs(c, IndexOf(c, url).value, url); }
    if c in Alphabet(url) {
      var v :| 0 <= v < 64 && Alphabet(url)[v] == c;
      IndexIs(c, v, url);
    }
  }

  /** Character k gives bits 6 k to 6 k + 5. */
  lemma {:induction false} GroupAt(s: string, url: bool, k: nat)
    requires Readable(s, url) && k < |s|
    ensures Spells(s[k], Groups(s, url)[6 * k..6 * k + 6], url)
  {
    hide IndexOf, Alphabet, Value, BitsOf;
    var n := |s| - 1;
    if k < n {
      GroupAt(s[..n], url, k);
      assert Groups(s, url)[6 * k..6 * k + 6] == Groups(s[..n], url)[6 * k..6 * k + 6];
    } else {
      var v := IndexOf(s[n], url).value;
      assert Groups(s, url)[6 * n..6 * n + 6] == BitsOf(v, 6);
      ValueOfBits(v, 6);
      PowSix();
      IndexIs(s[n], v, url);
    }
  }

  /** Decoding undoes encoding on every byte-aligned bit string. */
  lemma DecodeEncode(x: seq<bool>, noEquals: bool, url: bool)
    requires |x| % 8 == 0
    ensures var s := Strip(Encode(x, noEquals, url));
            Readable(s, url) && Bytes(Groups(s, url)) == x && AllFalse(Groups(s, url)[|x|..])
  {
    hide Groups, Readable, Letters, Strip, Equals;
    var s := Letters(x, url);
    LettersKept(x, url);
    StripPadded(s, if noEquals then 0 else (4 - |s| % 4) % 4);
    GroupsOfLetters(x, url, |s|);
    assert s[..|s|] == s;
    SextetCount(|x|, |s|);
    PaddedWhole(x, 6 * |s|);
  }

  lemma LettersKept(x: seq<bool>, url: bool)
    ensures |Letters(x, url)| == (|x| + 5) / 6
    ensures forall i :: 0 <= i < |Letters(x, url)| ==> !Dropped(Letters(x, url)[i])
  {
    hide CharOf, IndexOf, Sextet, Dropped;
    forall i | 0 <= i < |Letters(x, url)| ensures !Dropped(Letters(x, url)[i]) {
      IndexOfChar(Sextet(x, i), url);
    }
  }

  lemma PaddedWhole(x: seq<bool>, m: nat)
    requires |x| <= m <= |x| + 6
    ensures (x + Falses(6))[..m][..|x|] == x && AllFalse((x + Falses(6))[..m][|x|..])
  {
  }

  lemma SextetCount(n: nat, k: nat)
    requires n % 8 == 0 && k == (n + 5) / 6
    ensures n <= 6 * k <= n + 5 && 6 * k - 6 * k % 8 == n
  {
  }

  // ---------------------------------------------------------------- writing

  /** Bits of the array with zeros to read past its end. */
  function Longer(arr: seq<int>): seq<bool> {
    All(arr) + Falses(64)
  }

  /** p bits written, i words used up, of which the last `bits` bits wait in ta. */
  predicate Pending(arr: seq<int>, p: nat, i: nat, bits: nat, ta: int) {
    && i <= |arr| + 1 && bits < 32 && p + bits == 32 * i
    && Bits(ta) == Longer(arr)[p..32 * i] + Falses(32 - bits)
  }

  lemma NextWord(arr: seq<int>, i: nat)
    requires i <= |arr|
    ensures Bits(At(arr, i)) == Longer(arr)[32 * i..32 * i + 32]
  {
    hide Bits;
    ZeroBits();
    if i < |arr| {
      WordAt(arr, i);
    }
  }

  /** The next six bits, as the character's index. */
  lemma NextSextet(arr: seq<int>, p: nat, i: nat, bits: nat, ta: int)
    requires Pending(arr, p, i, bits, ta) && i <= |arr|
    ensures p + 6 <= |Longer(arr)|
    ensures Ushr(Xor(ta, Ushr(At(arr, i), bits)), 26) == Value(Longer(arr)[p..p + 6])
  {
    hide Bits, Xor, Ushr, All, Value, Longer;
    var e, w := Longer(arr), At(arr, i);
    LongerLength(arr);
    NextWord(arr, i);
    UshrBits(w, bits);
    var x := Xor(ta, Ushr(w, bits));
    assert Bits(ta)[bits..] == Falses(32 - bits) && Bits(Ushr(w, bits))[..bits] == Falses(bits);
    OrJoins(ta, Ushr(w, bits), bits);
    Window(e, p, i, bits);
    UshrValue(x, 26);
    assert e[p..p + 32][..6] == e[p..p + 6];
  }

  lemma LongerLength(arr: seq<int>)
    ensures |Longer(arr)| == 32 * |arr| + 64
  {
  }

  /** What waits and the next word make 32 bits from position p on. */
  lemma Window(e: seq<bool>, p: nat, i: nat, bits: nat)
    requires p + bits == 32 * i && bits < 32 && 32 * i + 32 <= |e|
    ensures (e[p..32 * i] + Falses(32 - bits))[..bits] + (Falses(bits) + e[32 * i..32 * i + 32][..32 - bits])[bits..]
            == e[p..p + 32]
  {
    assert e[p..p + 32] == e[p..32 * i] + e[32 * i..32 * i + 32][..32 - bits];
  }

  lemma UshrValue(x: int, k: nat)
    requires k < 32
    ensures Ushr(x, k) == Value(Bits(x)[..32 - k])
  {
    hide BitsOf, Value, Pow;
    UshrBits(x, k);
    Pow32();
    PowPositive(2, k);
    var u := Ushr(x, k);
    UshrRange(x, k);
    ValueOfBits(u, 32);
    ValueAppend(Falses(k), Bits(x)[..32 - k]);
    ValueOfFalses(k);
  }

  lemma QuotientAtMost(u: nat, p: nat)
    requires p > 0
    ensures 0 <= u / p <= u
  {
    var q := u / p;
    assert u == q * p + u % p;
    if q < 0 { MulMono(q, -1, p); } else { MulMono(1, p, q); }
  }

  lemma UshrRange(x: int, k: nat)
    requires k < 32
    ensures Ushr(x, k) < 0x1_0000_0000
  {
    PowPositive(2, k);
    hide Pow;
    QuotientAtMost(x % 0x1_0000_0000, Pow(2, k));
  }

  /** The rest of the word moves into ta. */
  lemma TakeWord(arr: seq<int>, p: nat, i: nat, bits: nat, ta: int)
    requires Pending(arr, p, i, bits, ta) && bits < 6 && i <= |arr|
    ensures Pending(arr, p + 6, i + 1, bits + 26, Shl(At(arr, i), 6 - bits))
  {
    hide Bits, Shl, All;
    NextWord(arr, i);
    ShlBits(At(arr, i), 6 - bits);
    var e := Longer(arr);
    assert e[32 * i..32 * i + 32][6 - bits..] == e[p + 6..32 * (i + 1)];
  }

  /** Six bits leave ta. */
  lemma TakeBits(arr: seq<int>, p: nat, i: nat, bits: nat, ta: int)
    requires Pending(arr, p, i, bits, ta) && bits >= 6
    ensures Pending(arr, p + 6, i, bits - 6, Shl(ta, 6))
  {
    hide Bits, Shl, All;
    ShlBits(ta, 6);
    var e := Longer(arr);
    assert (e[p..32 * i] + Falses(32 - bits))[6..] == e[p + 6..32 * i] + Falses(32 - bits);
    FalsesAdd(32 - bits, 6);
    assert e[p + 6..32 * i] + Falses(32 - bits) + Falses(6) == e[p + 6..32 * i] + (Falses(32 - bits) + Falses(6));
  }

  /** The character loop of fromBits. */
  method WriteLetters(arr: seq<int>, url: bool) returns (out: string)
    requires Valid(arr)
    ensures out == Letters(Contents(arr), url)
  {
    hide Bits, Shl, Ushr, Xor, All, Valid, BitLength, CharOf, Pending, Sextet, Contents, Letters;
    BitLengthBound(arr);
    UnusedFalse(arr);
    ghost var x := Contents(arr);
    out := [];
    var i, bits, ta, bl := 0, 0, 0, BitLength(arr);
    PendingStart(arr);
    LettersStart(x, url);
    while |out| * 6 < bl
      invariant Pending(arr, 6 * |out|, i, bits, ta) && 0 <= bits
      invariant |out| <= (|x| + 5) / 6 == |Letters(x, url)| && out == Letters(x, url)[..|out|]
    {
      ghost var p := 6 * |out|;
      PendingWithin(arr, p, i, bits, ta, bl);
      NextSextet(arr, p, i, bits, ta);
      SextetOf(arr, |out|);
      LettersNext(x, url, out);
      out := out + [CharOf(Ushr(Xor(ta, Ushr(At(arr, i), bits)), 26), url)];
      if bits < 6 {
        TakeWord(arr, p, i, bits, ta);
        ta := Shl(At(arr, i), 6 - bits);
        bits := bits + 26;
        i := i + 1;
      } else {
        TakeBits(arr, p, i, bits, ta);
        ta := Shl(ta, 6);
        bits := bits - 6;
      }
    }
    assert Letters(x, url)[..|out|] == Letters(x, url);
  }

  lemma LettersStart(x: seq<bool>, url: bool)
    ensures |Letters(x, url)| == (|x| + 5) / 6 && Letters(x, url)[..0] == []
  {
  }

  lemma LettersNext(x: seq<bool>, url: bool, out: string)
    requires |Letters(x, url)| == (|x| + 5) / 6 && 6 * |out| < |x| && out == Letters(x, url)[..|out|]
    ensures out + [CharOf(Sextet(x, |out|), url)] == Letters(x, url)[..|out| + 1]
    ensures |out| + 1 <= |Letters(x, url)|
  {
    hide CharOf, Sextet;
  }

  /** fromBits: the characters, then equals signs up to a multiple of four. */
  method FromBits(arr: seq<int>, noEquals: bool, url: bool) returns (out: string)
    requires Valid(arr)
    ensures out == Encode(Contents(arr), noEquals, url)
  {
    hide Letters, Contents, Valid;
    out := WriteLetters(arr, url);
    ghost var letters := out;
    assert letters + Equals(0) == letters;
    while |out| % 4 != 0 && !noEquals
      invariant |letters| <= |out| <= |letters| + (4 - |letters| % 4) % 4
      invariant out == letters + Equals(|out| - |letters|)
      invariant noEquals ==> out == letters
      decreases |letters| + 4 - |out|
    {
      out := out + "=";
    }
  }

  lemma PendingStart(arr: seq<int>)
    ensures Pending(arr, 0, 0, 0, 0)
  {
    hide Bits;
    ZeroBits();
    assert Longer(arr)[0..0] + Falses(32) == Falses(32);
  }

  lemma PendingWithin(arr: seq<int>, p: nat, i: nat, bits: nat, ta: int, bl: int)
    requires Pending(arr, p, i, bits, ta) && p < bl <= 32 * |arr|
    ensures i <= |arr| && bits < 32
  {
  }

  /** Within the array's length the extended bits are those of its contents. */
  lemma SextetOf(arr: seq<int>, k: nat)
    requires Valid(arr) && 6 * k < |Contents(arr)|
    ensures 6 * k + 6 <= |Longer(arr)| && Sextet(Contents(arr), k) == Value(Longer(arr)[6 * k..6 * k + 6])
  {
    hide Valid, All, Value, GetPartial, Pow;
    UnusedFalse(arr);
    PaddedPrefix(All(arr), |Contents(arr)|, 6 * k);
  }

  lemma PaddedPrefix(x: seq<bool>, n: nat, o: nat)
    requires o < n <= |x| && AllFalse(x[n..])
    ensures (x + Falses(64))[o..o + 6] == (x[..n] + Falses(6))[o..o + 6]
  {
    var s, t := (x + Falses(64))[o..o + 6], (x[..n] + Falses(6))[o..o + 6];
    forall j | 0 <= j < 6 ensures s[j] == t[j] {
      if n <= o + j < |x| { assert !x[n..][o + j - n]; }
    }
  }

  // ---------------------------------------------------------------- reading

  /** The words written and the `bits` bits waiting in ta are the bits read. */
  predicate Gathered(x: seq<bool>, out: seq<int>, bits: nat, ta: int) {
    && bits <= 32 && AllFull(out) && Full(ta)
    && All(out) + Bits(ta)[..bits] == x && AllFalse(Bits(ta)[bits..])
  }

  lemma SixBits(v: nat)
    requires v < 64
    ensures Bits(v) == Falses(26) + BitsOf(v, 6)
  {
    hide BitsOf, Pow;
    PowSix();
    BitsSplit(v, 26, 6);
    BitsOfZero(26);
  }

  /** The character completes a word. */
  lemma GatherWord(x: seq<bool>, out: seq<int>, bits: nat, ta: int, v: nat)
    requires Gathered(x, out, bits, ta) && 26 < bits && v < 64
    ensures Gathered(x + BitsOf(v, 6), out + [Xor(ta, Ushr(v, bits - 26))], bits - 26, Shl(v, 32 - (bits - 26)))
  {
    hide BitsOf, Xor, Ushr, Shl, All, Full, Word;
    var b := bits - 26;
    var w, c := Xor(ta, Ushr(v, b)), Shl(v, 32 - b);
    SixBits(v);
    UshrBits(v, b);
    ShlBits(v, 32 - b);
    var s := BitsOf(v, 6);
    assert Bits(Ushr(v, b)) == Falses(bits) + s[..6 - b];
    assert Bits(Ushr(v, b))[..bits] == Falses(bits);
    OrJoins(ta, Ushr(v, b), bits);
    XorIsFull(ta, Ushr(v, b));
    ShlIsFull(v, 32 - b);
    AllLast(out, w);
    assert Bits(w) == Bits(ta)[..bits] + s[..6 - b];
    assert Bits(c)[..b] == s[6 - b..] && AllFalse(Bits(c)[b..]);
    Regroup2(All(out), Bits(ta)[..bits], s, 6 - b);
  }

  lemma Regroup2(o: seq<bool>, t: seq<bool>, s: seq<bool>, k: nat)
    requires k <= |s|
    ensures (o + (t + s[..k])) + s[k..] == (o + t) + s
  {
    assert s == s[..k] + s[k..];
  }

  lemma ShlIsFull(x: int, k: nat)
    requires k < 32
    ensures Full(Shl(x, k))
  {
  }

  lemma XorIsFull(x: int, y: int)
    ensures Full(Xor(x, y))
  {
  }

  /** The character still fits into the waiting word. */
  lemma GatherBits(x: seq<bool>, out: seq<int>, bits: nat, ta: int, v: nat)
    requires Gathered(x, out, bits, ta) && bits <= 26 && v < 64
    ensures Gathered(x + BitsOf(v, 6), out, bits + 6, Xor(ta, Shl(v, 32 - (bits + 6))))
  {
    hide BitsOf, Xor, Shl, All, Full;
    var k := 32 - (bits + 6);
    SixBits(v);
    ShlBits(v, k);
    var s := BitsOf(v, 6);
    assert Bits(Shl(v, k)) == Falses(bits) + s + Falses(k);
    assert Bits(Shl(v, k))[..bits] == Falses(bits);
    OrJoins(ta, Shl(v, k), bits);
    var t := Xor(ta, Shl(v, k));
    XorIsFull(ta, Shl(v, k));
    assert Bits(t) == Bits(ta)[..bits] + (s + Falses(k));
    assert Bits(t)[..bits + 6] == Bits(ta)[..bits] + s && AllFalse(Bits(t)[bits + 6..]);
    Associate(All(out), Bits(ta)[..bits], s);
  }

  /** toBits: whole bytes are kept; the array is a proper one when the left-over bits are 0,
      as they are in what fromBits writes. */
  method ToBits(str: string, url: bool) returns (r: Result<seq<int>, Base64Error>)
    ensures r.Ok? <==> Readable(Strip(str), url)
    ensures r.Ok? ==>
              var x := Groups(Strip(str), url);
              AllFalse(x[|Bytes(x)|..]) ==> Valid(r.value) && Contents(r.value) == Bytes(x)
  {
    hide Xor, Ushr, Shl, BitsOf, All, Valid, Gathered, IndexOf, Strip, Contents, Partial;
    var s := Strip(str);
    var out: seq<int>, bits, ta := [], 0, 0;
    GatherStart();
    for i := 0 to |s|
      invariant Readable(s[..i], url) && 0 <= bits <= 32 && 32 * |out| + bits == 6 * i
      invariant Gathered(Groups(s[..i], url), out, bits, ta)
    {
      assert s[..i + 1][..i] == s[..i];
      var x := IndexOf(s[i], url);
      if x.None? { return Err(NotBase64); }
      if bits > 26 {
        GatherWord(Groups(s[..i], url), out, bits, ta, x.value);
        bits := bits - 26;
        out := out + [Xor(ta, Ushr(x.value, bits))];
        ta := Shl(x.value, 32 - bits);
      } else {
        GatherBits(Groups(s[..i], url), out, bits, ta, x.value);
        bits := bits + 6;
        ta := Xor(ta, Shl(x.value, 32 - bits));
      }
    }
    assert s[..|s|] == s;
    var whole := bits - bits % 8;
    GatherEnd(Groups(s, url), out, bits, ta, whole);
    if whole != 0 {
      out := out + [Partial(whole, ta, true)];
    }
    return Ok(out);
  }

  lemma GatherStart()
    ensures Gathered([], [], 0, 0)
  {
    ZeroBits();
    assert Bits(0)[..0] == [];
  }

  lemma GatherEnd(x: seq<bool>, out: seq<int>, bits: nat, ta: int, whole: nat)
    requires Gathered(x, out, bits, ta) && whole == bits - bits % 8 && |x| == 32 * |out| + bits
    ensures AllFalse(x[|Bytes(x)|..]) ==>
              var r := if whole == 0 then out else out + [Partial(whole, ta, true)];
              Valid(r) && Contents(r) == Bytes(x)
  {
    hide Bits, All, Full, Valid, Contents, Partial;
    if AllFalse(x[|Bytes(x)|..]) {
      assert |Bytes(x)| == 32 * |out| + whole;
      JoinCut(All(out), Bits(ta), bits, whole);
      if whole == 0 {
        FullContents(out);
        assert Bits(ta)[..0] == [];
      } else {
        LastWord(out, ta, whole);
      }
    }
  }

  /** A waiting word of 32 bits is written as it is, and is a signed word already. */
  lemma LastWord(out: seq<int>, ta: int, whole: nat)
    requires AllFull(out) && Full(ta) && 1 <= whole <= 32 && AllFalse(Bits(ta)[whole..])
    ensures var r := out + [Partial(whole, ta, true)]; Valid(r) && Contents(r) == All(out) + Bits(ta)[..whole]
  {
    hide Bits, All, Valid, Contents, GetPartial, Word;
    if whole == 32 {
      OneWord(ta, 32);
      Joined(out, [ta]);
    } else {
      assert Low5(whole) == whole;
      TailWord(out, ta, whole);
    }
  }

  /** toBits(fromBits(arr)): the same bits for every array of whole bytes, with or without
      equals signs, in either alphabet. */
  method Reread(arr: seq<int>, noEquals: bool, url: bool) returns (r: Result<seq<int>, Base64Error>)
    requires Valid(arr) && |Contents(arr)| % 8 == 0
    ensures r.Ok? && Valid(r.value) && Contents(r.value) == Contents(arr)
  {
    hide Valid, Contents, Encode, Groups, Readable, Strip, AllFalse;
    var str := FromBits(arr, noEquals, url);
    DecodeEncode(Contents(arr), noEquals, url);
    r := ToBits(str, url);
  }
}
