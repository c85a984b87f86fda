/** Byte strings as curve points: 31 bytes to a point, in the low bytes of its abscissa,
    under an adjusting byte that is raised until the abscissa lies on the curve. */
module PointEmbedding {
  import opened ByteStrings
  import opened Congruence
  import Jacobian
  import opened Outcomes
  import PointCompression

  /** POINT_CONTENT_SIZE. */
  const CONTENT := 31

  /** The curve as the embedding sees it: the field prime, the decoder of type-2 strings,
      and the abscissa of a point (none for the identity). */
  datatype Embedding<!P> = Embedding(p: nat, lift: nat -> Option<P>, abscissa: P -> Option<nat>)

  /** A 32-byte prime, and a decoder that keeps the abscissa. */
  ghost predicate Faithful<P>(e: Embedding<P>) {
    && e.p <= Pow(256, CONTENT + 1)
    && forall x: nat :: x < e.p && e.lift(x).Some? ==> e.abscissa(e.lift(x).value) == Some(x)
  }

  datatype EmbeddingError = Exhausted | TooManyBytes | InvalidEncoding | IdentityPoint

  /** The search of bytesToPoint from x on: x, x + 256^31, ... while below the prime. */
  function Search<P>(e: Embedding<P>, x: nat): Option<P>
    decreases e.p - x
  {
    if x >= e.p then None
    else if e.lift(x).Some? then e.lift(x)
    else
      PowPositive(256, CONTENT);
      Search(e, x + Pow(256, CONTENT))
  }

  /** The point is the first liftable candidate; there are at most 256, all congruent to the
      block modulo 256^31. */
  lemma {:induction false} SearchFinds<P>(e: Embedding<P>, c: nat, k: nat) returns (j: nat)
    requires Faithful(e) && c < Pow(256, CONTENT)
    requires c + k * Pow(256, CONTENT) >= 0
    ensures j >= k && (k < j ==> j <= 256)
    ensures forall i: nat :: k <= i < j ==> Candidate(e, c, i).None?
    ensures Candidate(e, c, j).Some? ==> j <= 255
    ensures Search(e, c + k * Pow(256, CONTENT)) == Candidate(e, c, j)
    ensures Candidate(e, c, j).None? ==> c + j * Pow(256, CONTENT) >= e.p
    decreases e.p - (c + k * Pow(256, CONTENT))
  {
    PowPositive(256, CONTENT);
    var s := Pow(256, CONTENT);
    assert Pow(256, CONTENT + 1) == 256 * s;
    var x := c + k * s;
    if x >= e.p || e.lift(x).Some? {
      j := k;
    } else {
      assert c + (k + 1) * s == x + s;
      j := SearchFinds(e, c, k + 1);
    }
    if x < e.p && k >= 256 { MulMono(256, k, s); }
  }

  /** The i-th candidate of a block of value c, if it is below the prime and on the curve. */
  function Candidate<P>(e: Embedding<P>, c: nat, i: nat): Option<P> {
    PowPositive(256, CONTENT);
    MulMono(0, i, Pow(256, CONTENT));
    var x: nat := c + i * Pow(256, CONTENT);
    if x < e.p then e.lift(x) else None
  }

  /** The content bytes of a point: the low 31 of its abscissa's 32. */
  function PointToBytes<P>(e: Embedding<P>, point: P): Result<seq<byte>, EmbeddingError> {
    match e.abscissa(point)
    case None => Err(IdentityPoint)
    case Some(x) => Ok(ToBytes(x, CONTENT + 1)[1..])
  }

  lemma {:induction false} LowBytes(c: nat, k: nat, n: nat)
    requires c < Pow(256, n) && c + k * Pow(256, n) < Pow(256, n + 1)
    ensures ToBytes(c + k * Pow(256, n), n + 1)[1..] == ToBytes(c, n)
  {
    if n == 0 {
      assert Pow(256, 0) == 1;
    } else {
      var s := Pow(256, n - 1);
      assert Pow(256, n) == 256 * s && Pow(256, n + 1) == 256 * Pow(256, n);
      assert k * (256 * s) == 256 * (k * s);
      LowBytes(c / 256, k, n - 1);
      var v := c + k * Pow(256, n);
      assert v / 256 == c / 256 + k * s && v % 256 == c % 256;
      assert ToBytes(v, n + 1)[1..] == ToBytes(v / 256, n)[1..] + [v % 256];
    }
  }

  /** A block that is embedded at all comes back from its point. */
  lemma BlockRoundTrip<P>(e: Embedding<P>, block: seq<byte>)
    requires Faithful(e) && |block| == CONTENT && Search(e, BigEndian(block)).Some?
    ensures PointToBytes(e, Search(e, BigEndian(block)).value) == Ok(block)
  {
    hide Pow, ToBytes, BigEndian, Search;
    var c := BigEndian(block);
    BigEndianBound(block);
    assert c + 0 * Pow(256, CONTENT) == c;
    var j := SearchFinds(e, c, 0);
    PowPositive(256, CONTENT);
    MulMono(0, j, Pow(256, CONTENT));
    LowBytes(c, j, CONTENT);
    ToBytesUnique(block);
  }

  // ---------------------------------------------------------------- whole strings

  function BlockCount(n: nat): nat {
    (n + CONTENT - 1) / CONTENT
  }

  /** The points of the blocks of a padded string, or the first failure. */
  function EmbedBlocks<P>(e: Embedding<P>, padded: seq<byte>): Result<seq<P>, EmbeddingError>
    requires |padded| % CONTENT == 0
    decreases |padded|
  {
    if padded == [] then Ok([])
    else
      match Search(e, BigEndian(padded[..CONTENT]))
      case None => Err(Exhausted)
      case Some(p) =>
        match EmbedBlocks(e, padded[CONTENT..])
        case Err(x) => Err(x)
        case Ok(rest) => Ok([p] + rest)
  }

  lemma PaddedLength(n: nat)
    ensures BlockCount(n) * CONTENT >= n && (BlockCount(n) * CONTENT) % CONTENT == 0
    ensures BlockCount(n) * CONTENT < n + CONTENT
  {
  }

  function BytesToPointsSpec<P>(e: Embedding<P>, bytes: seq<byte>): Result<seq<P>, EmbeddingError> {
    PaddedLength(|bytes|);
    EmbedBlocks(e, PadTo(bytes, BlockCount(|bytes|) * CONTENT))
  }

  function AllBytes<P>(e: Embedding<P>, points: seq<P>): Result<seq<byte>, EmbeddingError> {
    if points == [] then Ok([])
    else
      match PointToBytes(e, points[0])
      case Err(x) => Err(x)
      case Ok(head) =>
        match AllBytes(e, points[1..])
        case Err(x) => Err(x)
        case Ok(rest) => Ok(head + rest)
  }

  /** pointsToBytes: the content bytes of all points, with only zeros after byteCount. */
  function PointsToBytes<P>(e: Embedding<P>, points: seq<P>, byteCount: nat): Result<seq<byte>, EmbeddingError> {
    if |points| * CONTENT < byteCount then Err(TooManyBytes)
    else
      match AllBytes(e, points)
      case Err(x) => Err(x)
      case Ok(bytes) =>
        if AllZero(bytes[Min(byteCount, |bytes|)..]) then Ok(bytes[..Min(byteCount, |bytes|)])
        else Err(InvalidEncoding)
  }

  lemma {:induction false} BlocksRoundTrip<P>(e: Embedding<P>, padded: seq<byte>)
    requires Faithful(e) && |padded| % CONTENT == 0 && EmbedBlocks(e, padded).Ok?
    ensures |EmbedBlocks(e, padded).value| * CONTENT == |padded|
    ensures AllBytes(e, EmbedBlocks(e, padded).value) == Ok(padded)
    decreases |padded|
  {
    if padded != [] {
      var points := EmbedBlocks(e, padded).value;
      BlockRoundTrip(e, padded[..CONTENT]);
      BlocksRoundTrip(e, padded[CONTENT..]);
      assert points[1..] == EmbedBlocks(e, padded[CONTENT..]).value;
      assert padded == padded[..CONTENT] + padded[CONTENT..];
    }
  }

  /** Every byte string that is embedded comes back from its ceil(n/31) points. */
  lemma StringRoundTrip<P>(e: Embedding<P>, bytes: seq<byte>)
    requires Faithful(e) && BytesToPointsSpec(e, bytes).Ok?
    ensures |BytesToPointsSpec(e, bytes).value| == BlockCount(|bytes|)
    ensures PointsToBytes(e, BytesToPointsSpec(e, bytes).value, |bytes|) == Ok(bytes)
  {
    PaddedLength(|bytes|);
    var padded := PadTo(bytes, BlockCount(|bytes|) * CONTENT);
    BlocksRoundTrip(e, padded);
    assert padded[..|bytes|] == bytes && AllZero(padded[|bytes|..]);
  }

  /** Whether block i of the padded string has a liftable candidate at all. */
  ghost predicate BlockEmbeds<P>(e: Embedding<P>, padded: seq<byte>, i: nat)
    requires (i + 1) * CONTENT <= |padded|
  {
    Embeds(e, BigEndian(padded[i * CONTENT..(i + 1) * CONTENT]))
  }

  /** One of the 256 candidates of a block of value c is on the curve. */
  ghost predicate Embeds<P>(e: Embedding<P>, c: nat) {
    exists k: nat :: k < 256 && Candidate(e, c, k).Some?
  }

  /** A block fails only when all its candidates below the prime are off the curve. */
  lemma SearchFails<P>(e: Embedding<P>, block: seq<byte>)
    requires Faithful(e) && |block| == CONTENT
    ensures Search(e, BigEndian(block)).Some? <==> Embeds(e, BigEndian(block))
  {
    var c := BigEndian(block);
    BigEndianBound(block);
    assert c + 0 * Pow(256, CONTENT) == c;
    var j := SearchFinds(e, c, 0);
    if Search(e, c).Some? {
      assert Candidate(e, c, j).Some?;
    } else if exists k: nat :: k < 256 && Candidate(e, c, k).Some? {
      var k: nat :| k < 256 && Candidate(e, c, k).Some?;
      if k >= j {
        PowPositive(256, CONTENT);
        MulMono(j, k, Pow(256, CONTENT));
      }
    }
  }

  /** Embedding succeeds exactly when no block exhausts its adjusting byte. */
  lemma {:induction false} EmbedsExactly<P>(e: Embedding<P>, padded: seq<byte>)
    requires Faithful(e) && |padded| % CONTENT == 0
    ensures EmbedBlocks(e, padded).Ok?
            <==> forall i: nat :: (i + 1) * CONTENT <= |padded| ==> BlockEmbeds(e, padded, i)
    decreases |padded|
  {
    if padded != [] {
      var rest := padded[CONTENT..];
      SearchFails(e, padded[..CONTENT]);
      assert padded[0 * CONTENT..(0 + 1) * CONTENT] == padded[..CONTENT];
      EmbedsExactly(e, rest);
      assert BlockEmbeds(e, padded, 0) <==> Search(e, BigEndian(padded[..CONTENT])).Some?;
      forall i: nat | (i + 1) * CONTENT <= |rest|
        ensures BlockEmbeds(e, rest, i) <==> BlockEmbeds(e, padded, i + 1)
      {
        assert rest[i * CONTENT..(i + 1) * CONTENT] == padded[(i + 1) * CONTENT..(i + 2) * CONTENT];
      }
      if forall i: nat :: (i + 1) * CONTENT <= |rest| ==> BlockEmbeds(e, rest, i) {
        forall i: nat | (i + 1) * CONTENT <= |padded| && BlockEmbeds(e, padded, 0)
          ensures BlockEmbeds(e, padded, i)
        {
          if i > 0 { assert BlockEmbeds(e, rest, i - 1); }
        }
      } else {
        var i: nat :| (i + 1) * CONTENT <= |rest| && !BlockEmbeds(e, rest, i);
        assert !BlockEmbeds(e, padded, i + 1);
      }
    }
  }

  // ---------------------------------------------------------------- which point a block becomes

  /** The point is the first one found at c, c + 256^31, c + 2 256^31, ... */
  ghost predicate FirstOnCurve<P>(e: Embedding<P>, c: nat, k: nat, point: P) {
    && Pow(256, 31) > 0 && c + k * Pow(256, 31) < e.p
    && (forall i: nat :: i < k ==> c + i * Pow(256, 31) >= 0 && e.lift(c + i * Pow(256, 31)).None?)
    && c + k * Pow(256, 31) >= 0 && e.lift(c + k * Pow(256, 31)) == Some(point)
  }

  lemma SearchIsFirst<P>(e: Embedding<P>, c: nat, point: P) returns (k: nat)
    requires Faithful(e) && c < Pow(256, CONTENT) && Search(e, c) == Some(point)
    ensures k < 256 && FirstOnCurve(e, c, k, point)
  {
    hide Pow, Search;
    assert c + 0 * Pow(256, CONTENT) == c;
    k := SearchFinds(e, c, 0);
    var s := Pow(256, CONTENT);
    PowPositive(256, CONTENT);
    MulMono(0, k, s);
    forall i: nat | i < k ensures c + i * s >= 0 && e.lift(c + i * s).None? {
      MulMono(0, i, s);
      MulMono(i, k, s);
      assert Candidate(e, c, i).None?;
    }
  }

  lemma {:induction false} BlockPoint<P>(e: Embedding<P>, padded: seq<byte>, i: nat) returns (k: nat)
    requires Faithful(e) && |padded| % CONTENT == 0 && EmbedBlocks(e, padded).Ok? && (i + 1) * CONTENT <= |padded|
    ensures i < |EmbedBlocks(e, padded).value| && k < 256
    ensures FirstOnCurve(e, BigEndian(padded[CONTENT * i..CONTENT * i + CONTENT]), k, EmbedBlocks(e, padded).value[i])
    decreases i
  {
    hide FirstOnCurve, Search, BigEndian, Pow;
    if i == 0 {
      BigEndianBound(padded[..CONTENT]);
      k := SearchIsFirst(e, BigEndian(padded[..CONTENT]), EmbedBlocks(e, padded).value[0]);
      assert padded[CONTENT * 0..CONTENT * 0 + CONTENT] == padded[..CONTENT];
    } else {
      var rest := padded[CONTENT..];
      k := BlockPoint(e, rest, i - 1);
      assert rest[CONTENT * (i - 1)..CONTENT * (i - 1) + CONTENT] == padded[CONTENT * i..CONTENT * i + CONTENT];
    }
  }

  /** Point i of a string holds bytes 31 i to 31 i + 30, zeros past the end. */
  lemma PointOfBytes<P>(e: Embedding<P>, bytes: seq<byte>, i: nat) returns (k: nat)
    requires Faithful(e) && BytesToPointsSpec(e, bytes).Ok? && 31 * i < |bytes|
    ensures |BytesToPointsSpec(e, bytes).value| == (|bytes| + 30) / 31 && i < (|bytes| + 30) / 31 && k < 256
    ensures FirstOnCurve(e, BigEndian((bytes + Zeros(31))[31 * i..31 * i + 31]), k, BytesToPointsSpec(e, bytes).value[i])
  {
    hide FirstOnCurve, BigEndian, Search;
    PaddedLength(|bytes|);
    StringRoundTrip(e, bytes);
    var padded := PadTo(bytes, BlockCount(|bytes|) * CONTENT);
    k := BlockPoint(e, padded, i);
    assert padded[31 * i..31 * i + 31] == (bytes + Zeros(31))[31 * i..31 * i + 31];
  }

  // ---------------------------------------------------------------- the loops

  /** bytesToPoint: raise x by 256^31 until it decodes or leaves the field. */
  method BytesToPoint<P>(e: Embedding<P>, bytes: seq<byte>) returns (r: Result<P, EmbeddingError>)
    ensures r == (match Search(e, BigEndian(bytes)) case Some(p) => Ok(p) case None => Err(Exhausted))
  {
    hide Pow;
    var x: nat := BigEndian(bytes);
    PowPositive(256, CONTENT);
    while x < e.p
      invariant Search(e, x) == Search(e, BigEndian(bytes))
      decreases e.p - x
    {
      match e.lift(x) {
        case Some(p) => return Ok(p);
        case None => x := x + Pow(256, CONTENT);
      }
    }
    return Err(Exhausted);
  }

  /** bytesToPoints: pad on the right, then one point per block. */
  method BytesToPoints<P>(e: Embedding<P>, bytes: seq<byte>) returns (r: Result<seq<P>, EmbeddingError>)
    ensures r == BytesToPointsSpec(e, bytes)
  {
    hide Search, BigEndian;
    var pointCount := BlockCount(|bytes|);
    PaddedLength(|bytes|);
    var padded := PadTo(bytes, pointCount * CONTENT);
    var points: seq<P> := [];
    ghost var whole := EmbedBlocks(e, padded);
    assert padded[0..] == padded;
    AfterNothing(whole);
    for i := 0 to pointCount
      invariant i * CONTENT <= |padded| && |padded[i * CONTENT..]| % CONTENT == 0
      invariant whole == After(points, EmbedBlocks(e, padded[i * CONTENT..]))
    {
      var offset := i * CONTENT;
      assert padded[offset..][..CONTENT] == padded[offset..offset + CONTENT];
      assert padded[offset..][CONTENT..] == padded[offset + CONTENT..];
      var p := BytesToPoint(e, padded[offset..offset + CONTENT]);
      if p.Err? { return Err(Exhausted); }
      AfterTwice(points, p.value, EmbedBlocks(e, padded[offset + CONTENT..]));
      points := points + [p.value];
    }
    assert points + [] == points;
    return Ok(points);
  }

  lemma AfterNothing<P>(r: Result<seq<P>, EmbeddingError>)
    ensures After([], r) == r
  {
    if r.Ok? { assert [] + r.value == r.value; }
  }

  lemma AfterTwice<P>(a: seq<P>, p: P, r: Result<seq<P>, EmbeddingError>)
    ensures After(a, After([p], r)) == After(a + [p], r)
  {
    if r.Ok? { assert a + ([p] + r.value) == a + [p] + r.value; }
  }

  function After<P>(done: seq<P>, r: Result<seq<P>, EmbeddingError>): Result<seq<P>, EmbeddingError> {
    match r
    case Err(x) => Err(x)
    case Ok(rest) => Ok(done + rest)
  }

  // ---------------------------------------------------------------- the curve itself

  /** pointFromBits on a type-2 string of a 32-byte abscissa is a faithful decoder. */
  lemma DecoderIsFaithful(x: nat, cv: Jacobian.Curve)
    requires PointCompression.Compressible(cv) && x < cv.p
    ensures cv.p > 2
    ensures var t := PointCompression.Decode([2] + ToBytes(x, 32), cv);
            t.Some? ==> t.value.Affine? && t.value.x == x && Jacobian.OnCurve(t.value, cv)
  {
    var s := [2] + ToBytes(x, 32);
    PointCompression.CompressibleBounds(cv);
    var t := PointCompression.Decode(s, cv);
    if t.Some? {
      PointCompression.DecodeExact(s, t.value, cv);
      BytesRoundTrip(x, 32);
      assert PointCompression.Field32(s, 1, 33) == ToBytes(x, 32);
      Jacobian.ResidueOf(x, cv.p);
    }
  }
}
