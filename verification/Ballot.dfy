/** The ballot pipeline: selections to cryptograms, the board's shares added, and decryption
    with the opened randomness. Points, scalars and pairs stand for their hex strings. */
module Ballot {
  import opened ByteBuffers
  import opened ByteCoding
  import opened Congruence
  import opened ElGamal
  import opened Groups
  import opened Outcomes
  import opened Pedersen
  import opened PointEmbedding
  import Primes
  import SigmaProofs

  datatype ContestEnvelope<+P> = ContestEnvelope(
    reference: string, cryptograms: seq<Pair<P>>, randomizers: seq<nat>)

  datatype PipelineError = CodingFailed(coding: CodingError) | EmbeddingFailed(embedding: EmbeddingError) | TypeError

  /** The curve as a group, as an embedding, and the election's encryption key. */
  datatype Context<!P(!new)> = Context(setup: Setup<P>, embedding: Embedding<P>, key: P)

  ghost predicate Usable<P(!new)>(x: Context<P>) {
    x.setup.r > 0 && Sound(x.setup) && Faithful(x.embedding)
  }

  // ---------------------------------------------------------------- encryption

  /** The points of a contest selection. */
  function PointsOf<P>(e: Embedding<P>, config: ContestConfig, s: ContestSelection): Result<seq<P>, PipelineError> {
    match EncodeSelection(config, s)
    case Err(x) => Err(CodingFailed(x))
    case Ok(bytes) =>
      match BytesToPointsSpec(e, bytes)
      case Err(x) => Err(EmbeddingFailed(x))
      case Ok(points) => Ok(points)
  }

  function Envelope<P(!new)>(x: Context<P>, reference: string, points: seq<P>, rand: nat -> nat): ContestEnvelope<P> {
    ContestEnvelope(
      reference,
      seq(|points|, i requires 0 <= i < |points| => Encrypt(x.setup, points[i], x.key, rand(i))),
      seq(|points|, i requires 0 <= i < |points| => rand(i)))
  }

  /** encryptContestSelection; rand(i) is the i-th random number drawn for the contest. */
  method EncryptContestSelection<P(!new)>(
    x: Context<P>, config: ContestConfig, s: ContestSelection, rand: nat -> nat)
    returns (r: Result<ContestEnvelope<P>, PipelineError>)
    ensures r == (match PointsOf(x.embedding, config, s)
                  case Err(e) => Err(e)
                  case Ok(points) => Ok(Envelope(x, s.reference, points, rand)))
    ensures r.Ok? ==>
              && PointsOf(x.embedding, config, s).Ok?
              && var points, g := PointsOf(x.embedding, config, s).value, x.setup.g;
              && r.value.reference == s.reference
              && |r.value.cryptograms| == |r.value.randomizers| == |points|
              && forall i :: 0 <= i < |points| ==>
                   && r.value.randomizers[i] == rand(i)
                   && r.value.cryptograms[i].randomness == Times(g, rand(i), x.setup.base)
                   && r.value.cryptograms[i].ciphertext == g.add(Times(g, rand(i), x.key), points[i])
  {
    hide EncodeSelection, BytesToPointsSpec, Encrypt;
    var encoded := ContestSelectionToByteArray(config, s);
    if encoded.Err? { return Err(CodingFailed(encoded.error)); }
    var embedded := BytesToPoints(x.embedding, encoded.value);
    if embedded.Err? { return Err(EmbeddingFailed(embedded.error)); }
    var points := embedded.value;
    ghost var whole := Envelope(x, s.reference, points, rand);
    var cryptograms: seq<Pair<P>>, randomizers: seq<nat> := [], [];
    for i := 0 to |points|
      invariant cryptograms == whole.cryptograms[..i] && randomizers == whole.randomizers[..i]
    {
      var n := rand(i);
      cryptograms := cryptograms + [Encrypt(x.setup, points[i], x.key, n)];
      randomizers := randomizers + [n];
    }
    assert cryptograms == whole.cryptograms && randomizers == whole.randomizers;
    EnvelopeEncrypts(x, s.reference, points, rand);
    return Ok(ContestEnvelope(s.reference, cryptograms, randomizers));
  }

  /** Point i under the i-th number, which is kept. */
  lemma EnvelopeEncrypts<P(!new)>(x: Context<P>, reference: string, points: seq<P>, rand: nat -> nat)
    ensures var env, g := Envelope(x, reference, points, rand), x.setup.g;
            && env.reference == reference && |env.cryptograms| == |env.randomizers| == |points|
            && forall i :: 0 <= i < |points| ==>
                 && env.randomizers[i] == rand(i)
                 && env.cryptograms[i].randomness == Times(g, rand(i), x.setup.base)
                 && env.cryptograms[i].ciphertext == g.add(Times(g, rand(i), x.key), points[i])
  {
  }

  function Row(rand: (nat, nat) -> nat, n: nat): nat -> nat {
    i => rand(n, i)
  }

  /** encryptContestSelections over the first n selections: a missing configuration throws. */
  function EncryptAll<P(!new)>(
    x: Context<P>, configs: map<string, ContestConfig>, ss: seq<ContestSelection>, rand: (nat, nat) -> nat)
    : Result<seq<ContestEnvelope<P>>, PipelineError>
  {
    if ss == [] then Ok([])
    else
      var n := |ss| - 1;
      match EncryptAll(x, configs, ss[..n], rand)
      case Err(e) => Err(e)
      case Ok(envelopes) =>
        if ss[n].reference !in configs then Err(TypeError)
        else
          match PointsOf(x.embedding, configs[ss[n].reference], ss[n])
          case Err(e) => Err(e)
          case Ok(points) => Ok(envelopes + [Envelope(x, ss[n].reference, points, Row(rand, n))])
  }

  /** Every selection is encrypted with its own row of random numbers. */
  lemma {:induction false} AllEncrypted<P(!new)>(
    x: Context<P>, configs: map<string, ContestConfig>, ss: seq<ContestSelection>, rand: (nat, nat) -> nat, n: nat)
    requires EncryptAll(x, configs, ss, rand).Ok? && n < |ss|
    ensures |EncryptAll(x, configs, ss, rand).value| == |ss| && ss[n].reference in configs
    ensures PointsOf(x.embedding, configs[ss[n].reference], ss[n]).Ok?
    ensures var env, g := EncryptAll(x, configs, ss, rand).value[n], x.setup.g;
            var points := PointsOf(x.embedding, configs[ss[n].reference], ss[n]).value;
            && env.reference == ss[n].reference && |env.cryptograms| == |env.randomizers| == |points|
            && forall i :: 0 <= i < |points| ==>
                 && env.randomizers[i] == rand(n, i)
                 && env.cryptograms[i].randomness == Times(g, rand(n, i), x.setup.base)
                 && env.cryptograms[i].ciphertext == g.add(Times(g, rand(n, i), x.key), points[i])
  {
    hide PointsOf, Envelope, Times;
    var m := |ss| - 1;
    EncryptedLength(x, configs, ss[..m], rand);
    if n == m {
      EnvelopeEncrypts(x, ss[n].reference, PointsOf(x.embedding, configs[ss[n].reference], ss[n]).value, Row(rand, n));
    } else {
      AllEncrypted(x, configs, ss[..m], rand, n);
    }
  }

  lemma {:induction false} EncryptedLength<P(!new)>(
    x: Context<P>, configs: map<string, ContestConfig>, ss: seq<ContestSelection>, rand: (nat, nat) -> nat)
    requires EncryptAll(x, configs, ss, rand).Ok?
    ensures |EncryptAll(x, configs, ss, rand).value| == |ss|
  {
    hide PointsOf, Envelope;
    if ss != [] { EncryptedLength(x, configs, ss[..|ss| - 1], rand); }
  }

  /** Two cryptograms of a ballot share their randomness point exactly when the numbers drawn
      for them are congruent modulo the prime order. */
  lemma RandomnessApart<P(!new)>(
    x: Context<P>, configs: map<string, ContestConfig>, ss: seq<ContestSelection>, rand: (nat, nat) -> nat,
    n: nat, i: nat, m: nat, j: nat)
    requires x.setup.r > 0 && Sound(x.setup) && Primes.Prime(x.setup.r) && x.setup.base != x.setup.g.zero
    requires EncryptAll(x, configs, ss, rand).Ok? && n < |EncryptAll(x, configs, ss, rand).value|
    requires m < |EncryptAll(x, configs, ss, rand).value|
    requires i < |EncryptAll(x, configs, ss, rand).value[n].cryptograms|
    requires j < |EncryptAll(x, configs, ss, rand).value[m].cryptograms|
    ensures var envs := EncryptAll(x, configs, ss, rand).value;
            envs[n].cryptograms[i].randomness == envs[m].cryptograms[j].randomness
            <==> Cong(rand(n, i), rand(m, j), x.setup.r)
  {
    hide PointsOf, EncryptAll, Times, Sound, Cong, Primes.Prime;
    EncryptedLength(x, configs, ss, rand);
    AllEncrypted(x, configs, ss, rand, n);
    AllEncrypted(x, configs, ss, rand, m);
    SigmaProofs.TimesInjective(x.setup, rand(n, i), rand(m, j), x.setup.base);
  }

  // ---------------------------------------------------------------- finalization

  /** addCryptograms: list2 is only looked at where list1 has an entry. */
  function Sums<P(!new)>(g: Group<P>, list1: seq<Pair<P>>, list2: Option<seq<Pair<P>>>)
    : Result<seq<Pair<P>>, PipelineError>
  {
    if list1 == [] then Ok([])
    else if list2.None? || |list2.value| < |list1| then Err(TypeError)
    else Ok(seq(|list1|, i requires 0 <= i < |list1| => PairSum(g, list1[i], list2.value[i])))
  }

  method AddCryptograms<P(!new)>(g: Group<P>, list1: seq<Pair<P>>, list2: Option<seq<Pair<P>>>)
    returns (r: Result<seq<Pair<P>>, PipelineError>)
    ensures r == Sums(g, list1, list2)
    ensures r.Ok? <==> list1 == [] || (list2.Some? && |list1| <= |list2.value|)
    ensures r.Ok? ==>
              && |r.value| == |list1|
              && forall i :: 0 <= i < |list1| ==>
                   && r.value[i].randomness == g.add(list1[i].randomness, list2.value[i].randomness)
                   && r.value[i].ciphertext == g.add(list1[i].ciphertext, list2.value[i].ciphertext)
  {
    var sums: seq<Pair<P>> := [];
    for i := 0 to |list1|
      invariant |sums| == i && (i > 0 ==> list2.Some? && i <= |list2.value|)
      invariant forall j :: 0 <= j < i ==> sums[j] == PairSum(g, list1[j], list2.value[j])
    {
      if list2.None? || i >= |list2.value| { return Err(TypeError); }
      var point1 := new ElGamalPointCryptogram(list1[i]);
      var point2 := new ElGamalPointCryptogram(list2.value[i]);
      point1.HomomorphicallyAddCryptogram(g, point2);
      sums := sums + [Pair(point1.randomness_point, point1.ciphertext_point)];
    }
    assert list1 != [] ==> sums == Sums(g, list1, list2).value;
    SumsAdd(g, list1, list2);
    return Ok(sums);
  }

  lemma SumsAdd<P(!new)>(g: Group<P>, list1: seq<Pair<P>>, list2: Option<seq<Pair<P>>>)
    requires Sums(g, list1, list2).Ok?
    ensures var sums := Sums(g, list1, list2).value;
            && |sums| == |list1| && (list1 != [] ==> list2.Some? && |list1| <= |list2.value|)
            && forall i :: 0 <= i < |list1| ==>
                 && sums[i].randomness == g.add(list1[i].randomness, list2.value[i].randomness)
                 && sums[i].ciphertext == g.add(list1[i].ciphertext, list2.value[i].ciphertext)
  {
  }

  function Lookup<V>(m: map<string, V>, k: string): Option<V> {
    if k in m then Some(m[k]) else None
  }

  /** finalizeCryptograms: a later envelope of the same contest replaces an earlier one. */
  function FinalizeCryptograms<P(!new)>(
    g: Group<P>, envelopes: seq<ContestEnvelope<P>>, server: map<string, seq<Pair<P>>>)
    : Result<map<string, seq<Pair<P>>>, PipelineError>
  {
    if envelopes == [] then Ok(map[])
    else
      var last := envelopes[|envelopes| - 1];
      match FinalizeCryptograms(g, envelopes[..|envelopes| - 1], server)
      case Err(e) => Err(e)
      case Ok(done) =>
        match Sums(g, last.cryptograms, Lookup(server, last.reference))
        case Err(e) => Err(e)
        case Ok(sums) => Ok(done[last.reference := sums])
  }

  /** The finalized ballot: for every contest, its last envelope's cryptograms, each added to
      the board's at the same place. */
  lemma {:induction false} FinalizedSums<P(!new)>(
    g: Group<P>, envelopes: seq<ContestEnvelope<P>>, server: map<string, seq<Pair<P>>>, n: nat)
    requires FinalizeCryptograms(g, envelopes, server).Ok? && n < |envelopes|
    requires forall m :: n < m < |envelopes| ==> envelopes[m].reference != envelopes[n].reference
    ensures var done, env := FinalizeCryptograms(g, envelopes, server).value, envelopes[n];
            && env.reference in done && |done[env.reference]| == |env.cryptograms|
            && (env.cryptograms != [] ==> env.reference in server
                                          && |env.cryptograms| <= |server[env.reference]|)
            && forall i :: 0 <= i < |env.cryptograms| ==>
                 var sum, mine, theirs := done[env.reference][i], env.cryptograms[i], server[env.reference][i];
                 && sum.randomness == g.add(mine.randomness, theirs.randomness)
                 && sum.ciphertext == g.add(mine.ciphertext, theirs.ciphertext)
  {
    hide Sums;
    var l := |envelopes| - 1;
    if n == l {
      SumsAdd(g, envelopes[n].cryptograms, Lookup(server, envelopes[n].reference));
    } else {
      FinalizedSums(g, envelopes[..l], server, n);
      assert envelopes[l].reference != envelopes[n].reference;
    }
  }

  /** The voter's opening: Object.fromEntries of reference and randomizers. */
  function Randomizers<P>(envelopes: seq<ContestEnvelope<P>>): map<string, seq<nat>> {
    if envelopes == [] then map[]
    else
      var last := envelopes[|envelopes| - 1];
      Randomizers(envelopes[..|envelopes| - 1])[last.reference := last.randomizers]
  }

  // ---------------------------------------------------------------- decryption

  /** combineRandomizers for one contest, over the voter's indices. */
  function CombineRandomizers(r: nat, voter: Option<seq<nat>>, board: Option<seq<nat>>): Result<seq<nat>, PipelineError>
    requires r > 0
  {
    if voter.None? then Err(TypeError)
    else if voter.value == [] then Ok([])
    else if board.None? || |board.value| < |voter.value| then Err(TypeError)
    else
      var v, b := voter.value, board.value;
      Ok(seq(|v|, i requires 0 <= i < |v| => (v[i] + b[i]) % r))
  }

  /** The combined randomizer of a place: reduced, and its multiple of every point is the sum of
      the two multiples. */
  lemma CombinedAdds<P(!new)>(c: Setup<P>, voter: seq<nat>, board: seq<nat>, i: nat, p: P)
    requires c.r > 0 && Sound(c) && i < |voter| <= |board|
    ensures var combined := CombineRandomizers(c.r, Some(voter), Some(board));
            && combined.Ok? && |combined.value| == |voter| && combined.value[i] < c.r
            && Times(c.g, combined.value[i], p) == c.g.add(Times(c.g, voter[i], p), Times(c.g, board[i], p))
  {
    hide Abelian, Exponent, Times;
    TimesMod(c.g, c.r, voter[i] + board[i], p);
    TimesAdd(c.g, voter[i], board[i], p);
  }

  /** decryptPoints: each cryptogram with the key in place of its randomness point. */
  function DecryptPoints<P(!new)>(x: Context<P>, cryptograms: seq<Pair<P>>, randomizers: seq<nat>)
    : Result<seq<P>, PipelineError>
  {
    if |randomizers| < |cryptograms| then Err(TypeError)
    else
      Ok(seq(|cryptograms|, i requires 0 <= i < |cryptograms| =>
        DecryptPair(x.setup.g, Pair(x.key, cryptograms[i].ciphertext), randomizers[i])))
  }

  /** What it returns for arbitrary cryptograms: the points that the randomizers' multiples of
      the key complete to the ciphertexts. */
  lemma DecryptedPoints<P(!new)>(x: Context<P>, cryptograms: seq<Pair<P>>, randomizers: seq<nat>, points: seq<P>)
    requires Abelian(x.setup.g)
    ensures DecryptPoints(x, cryptograms, randomizers) == Ok(points)
            <==> && |points| == |cryptograms| <= |randomizers|
                 && forall i :: 0 <= i < |points| ==>
                      x.setup.g.add(points[i], Times(x.setup.g, randomizers[i], x.key)) == cryptograms[i].ciphertext
  {
    hide Abelian, Times;
    var g := x.setup.g;
    if |points| == |cryptograms| <= |randomizers| {
      var got := DecryptPoints(x, cryptograms, randomizers).value;
      forall i | 0 <= i < |points|
        ensures points[i] == got[i]
                <==> g.add(points[i], Times(g, randomizers[i], x.key)) == cryptograms[i].ciphertext
      {
        Moves(g, points[i], Times(g, randomizers[i], x.key), cryptograms[i].ciphertext);
      }
      assert got == points <==> forall i :: 0 <= i < |points| ==> points[i] == got[i];
    }
  }

  /** p = c - t exactly when p + t = c. */
  lemma Moves<P(!new)>(g: Group<P>, p: P, t: P, c: P)
    requires Abelian(g)
    ensures p == g.add(c, g.neg(t)) <==> g.add(p, t) == c
  {
    hide Abelian;
    Cancel(g, p, t);
    Assoc(g, c, g.neg(t), t);
    Comm(g, g.neg(t), t);
    Groups.Inverse(g, t);
    Zero(g, c);
  }

  function DecryptContest<P(!new)>(
    x: Context<P>, config: Option<ContestConfig>, cryptograms: seq<Pair<P>>,
    voter: Option<seq<nat>>, board: Option<seq<nat>>)
    : Result<ContestSelection, PipelineError>
    requires x.setup.r > 0
  {
    match CombineRandomizers(x.setup.r, voter, board)
    case Err(e) => Err(e)
    case Ok(randomizers) =>
      match DecryptPoints(x, cryptograms, randomizers)
      case Err(e) => Err(e)
      case Ok(points) =>
        if config.None? then Err(TypeError)
        else
          match PointsToBytes(x.embedding, points, config.value.maxSize)
          case Err(e) => Err(EmbeddingFailed(e))
          case Ok(bytes) =>
            match DecodeSelection(config.value, bytes)
            case Err(e) => Err(CodingFailed(e))
            case Ok(s) => Ok(s)
  }

  /** decryptContestSelections, with the contests in the order of `keys`. */
  function DecryptContestSelections<P(!new)>(
    x: Context<P>, configs: map<string, ContestConfig>, cryptograms: map<string, seq<Pair<P>>>,
    voter: map<string, seq<nat>>, board: map<string, seq<nat>>, keys: seq<string>)
    : Result<seq<ContestSelection>, PipelineError>
    requires x.setup.r > 0 && forall k :: k in keys ==> k in cryptograms
  {
    if keys == [] then Ok([])
    else
      var n := |keys| - 1;
      var k := keys[n];
      match DecryptContestSelections(x, configs, cryptograms, voter, board, keys[..n])
      case Err(e) => Err(e)
      case Ok(done) =>
        match DecryptContest(x, Lookup(configs, k), cryptograms[k], Lookup(voter, k), Lookup(board, k))
        case Err(e) => Err(e)
        case Ok(s) => Ok(done + [s])
  }

  // ---------------------------------------------------------------- cast as intended

  /** The board's empty cryptograms for its randomizers b. */
  function BoardShares<P(!new)>(x: Context<P>, b: seq<nat>): seq<Pair<P>> {
    seq(|b|, i requires 0 <= i < |b| => EmptyPair(x.setup, x.key, b[i]))
  }

  function AllShares<P(!new)>(x: Context<P>, board: map<string, seq<nat>>): map<string, seq<Pair<P>>> {
    map k | k in board :: BoardShares(x, board[k])
  }

  /** What the voter selected in each contest. */
  function Selected(ss: seq<ContestSelection>): map<string, ContestSelection> {
    if ss == [] then map[]
    else Selected(ss[..|ss| - 1])[ss[|ss| - 1].reference := ss[|ss| - 1]]
  }

  /** The last selection of a contest counts, and its last envelope opens it. */
  lemma {:induction false} LastCounts<P>(ss: seq<ContestSelection>, envelopes: seq<ContestEnvelope<P>>, n: nat)
    requires |ss| == |envelopes| && n < |ss|
    requires forall m :: 0 <= m < |ss| ==> ss[m].reference == envelopes[m].reference
    requires forall m :: n < m < |ss| ==> ss[m].reference != ss[n].reference
    ensures ss[n].reference in Selected(ss) && Selected(ss)[ss[n].reference] == ss[n]
    ensures ss[n].reference in Randomizers(envelopes)
    ensures Randomizers(envelopes)[ss[n].reference] == envelopes[n].randomizers
  {
    var l := |ss| - 1;
    if n < l {
      LastCounts(ss[..l], envelopes[..l], n);
      assert ss[l].reference != ss[n].reference;
    }
  }

  /** A selection as it reads after a round trip; see ByteCoding.Canonical. */
  function CanonicalSelection(config: ContestConfig, s: ContestSelection): ContestSelection {
    ContestSelection(s.reference, CanonicalAll(Tables(FlattenOptions(config.options)), s.optionSelections))
  }

  lemma PointsOfLength<P(!new)>(e: Embedding<P>, config: ContestConfig, s: ContestSelection)
    requires Faithful(e) && Distinct(FlattenOptions(config.options)) && PointsOf(e, config, s).Ok?
    ensures var bytes := PointsToBytes(e, PointsOf(e, config, s).value, config.maxSize);
            bytes.Ok? && DecodeSelection(config, bytes.value) == Ok(CanonicalSelection(config, s))
  {
    hide PointsToBytes, BytesToPointsSpec, DecodeSelection, EncodeOptions, Distinct, Tables, FlattenOptions;
    hide CanonicalAll, Faithful;
    var bytes := EncodeSelection(config, s).value;
    assert |bytes| == config.maxSize;
    StringRoundTrip(e, bytes);
    DecodeEncode(config, s);
  }

  /** Decrypting the sums with the combined randomizers gives the encrypted points. */
  lemma PointsComeBack<P(!new)>(x: Context<P>, reference: string, points: seq<P>, rand: nat -> nat, b: seq<nat>)
    requires Usable(x) && |points| <= |b|
    ensures var env := Envelope(x, reference, points, rand);
            var sums := Sums(x.setup.g, env.cryptograms, Some(BoardShares(x, b)));
            var combined := CombineRandomizers(x.setup.r, Some(env.randomizers), Some(b));
            && sums.Ok? && combined.Ok?
            && DecryptPoints(x, sums.value, combined.value) == Ok(points)
  {
    hide Sound, Faithful, Encrypt, EmptyPair, PairSum, DecryptPair;
    var env := Envelope(x, reference, points, rand);
    var sums := Sums(x.setup.g, env.cryptograms, Some(BoardShares(x, b))).value;
    var combined := CombineRandomizers(x.setup.r, Some(env.randomizers), Some(b)).value;
    forall i | 0 <= i < |points|
      ensures DecryptPair(x.setup.g, Pair(x.key, sums[i].ciphertext), combined[i]) == points[i]
    {
      DecryptsWithRandomness(x.setup, points[i], x.key, rand(i), b[i]);
    }
    assert DecryptPoints(x, sums, combined).value == points;
  }

  /** One contest, from selection to decrypted selection. */
  lemma ContestComesBack<P(!new)>(
    x: Context<P>, config: ContestConfig, s: ContestSelection, rand: nat -> nat, b: Option<seq<nat>>)
    requires Usable(x) && Distinct(FlattenOptions(config.options))
    requires PointsOf(x.embedding, config, s).Ok?
    requires var points := PointsOf(x.embedding, config, s).value;
             points == [] || (b.Some? && |points| <= |b.value|)
    ensures var env := Envelope(x, s.reference, PointsOf(x.embedding, config, s).value, rand);
            var shares := if b.Some? then Some(BoardShares(x, b.value)) else None;
            var sums := Sums(x.setup.g, env.cryptograms, shares);
            && sums.Ok?
            && DecryptContest(x, Some(config), sums.value, Some(env.randomizers), b) == Ok(CanonicalSelection(config, s))
  {
    hide PointsOf, Distinct, FlattenOptions, BoardShares, DecodeSelection, PointsToBytes, CanonicalSelection, Usable;
    var points := PointsOf(x.embedding, config, s).value;
    UsableParts(x);
    PointsOfLength(x.embedding, config, s);
    if points == [] {
      var env := Envelope(x, s.reference, points, rand);
      assert env.cryptograms == [] && env.randomizers == [];
      assert DecryptPoints(x, [], []).value == points;
    } else {
      PointsComeBack(x, s.reference, points, rand, b.value);
    }
  }

  lemma UsableParts<P(!new)>(x: Context<P>)
    requires Usable(x)
    ensures x.setup.r > 0 && Sound(x.setup) && Faithful(x.embedding)
  {
  }

  /** The board answers with enough cryptograms for every contest that has any. */
  predicate Covers<P(!new)>(board: map<string, seq<nat>>, envelopes: seq<ContestEnvelope<P>>) {
    forall i :: 0 <= i < |envelopes| ==> CoversOne(board, envelopes[i])
  }

  predicate CoversOne<P(!new)>(board: map<string, seq<nat>>, env: ContestEnvelope<P>) {
    env.cryptograms == [] || (env.reference in board && |env.cryptograms| <= |board[env.reference]|)
  }

  /** Finalization throws exactly when the board's answer falls short. */
  lemma {:induction false} FinalizesExactly<P(!new)>(
    x: Context<P>, envelopes: seq<ContestEnvelope<P>>, board: map<string, seq<nat>>)
    ensures FinalizeCryptograms(x.setup.g, envelopes, AllShares(x, board)).Ok? <==> Covers(board, envelopes)
  {
    hide PairSum, EmptyPair;
    if envelopes != [] {
      var n := |envelopes| - 1;
      var init := envelopes[..n];
      FinalizesExactly(x, init, board);
      assert Covers(board, envelopes) <==> Covers(board, init) && CoversOne(board, envelopes[n]) by {
        if Covers(board, envelopes) {
          assert forall i :: 0 <= i < |init| ==> init[i] == envelopes[i];
        }
        if Covers(board, init) && CoversOne(board, envelopes[n]) {
          forall i | 0 <= i < |envelopes| ensures CoversOne(board, envelopes[i]) {
            if i < n { assert init[i] == envelopes[i]; }
          }
        }
      }
    }
  }

  /** What one contest decrypts to, before and after the next envelope is added. */
  ghost predicate ComesBack<P(!new)>(
    x: Context<P>, configs: map<string, ContestConfig>, done: map<string, seq<Pair<P>>>,
    voter: map<string, seq<nat>>, board: map<string, seq<nat>>, chosen: map<string, ContestSelection>, k: string)
  {
    && x.setup.r > 0 && k in done && k in voter && k in configs && k in chosen
    && DecryptContest(x, Some(configs[k]), done[k], Some(voter[k]), Lookup(board, k))
       == Ok(CanonicalSelection(configs[k], chosen[k]))
  }

  ghost predicate AllComeBack<P(!new)>(
    x: Context<P>, configs: map<string, ContestConfig>, done: map<string, seq<Pair<P>>>,
    voter: map<string, seq<nat>>, board: map<string, seq<nat>>, chosen: map<string, ContestSelection>)
  {
    && done.Keys == voter.Keys == chosen.Keys
    && forall k :: k in done ==> ComesBack(x, configs, done, voter, board, chosen, k)
  }

  ghost predicate DistinctOptions(configs: map<string, ContestConfig>) {
    forall k :: k in configs ==> Distinct(FlattenOptions(configs[k].options))
  }

  lemma {:induction false} EveryContest<P(!new)>(
    x: Context<P>, configs: map<string, ContestConfig>, ss: seq<ContestSelection>, rand: (nat, nat) -> nat,
    board: map<string, seq<nat>>)
    requires Usable(x) && DistinctOptions(configs) && EncryptAll(x, configs, ss, rand).Ok?
    requires FinalizeCryptograms(x.setup.g, EncryptAll(x, configs, ss, rand).value, AllShares(x, board)).Ok?
    ensures var envs := EncryptAll(x, configs, ss, rand).value;
            var done := FinalizeCryptograms(x.setup.g, envs, AllShares(x, board)).value;
            AllComeBack(x, configs, done, Randomizers(envs), board, Selected(ss))
  {
    hide Usable, PointsOf, Envelope, Sums, DecryptContest, CanonicalSelection, Distinct, FlattenOptions, BoardShares;
    if ss != [] {
      var n := |ss| - 1;
      var s := ss[n];
      var envs := EncryptAll(x, configs, ss, rand).value;
      var init := EncryptAll(x, configs, ss[..n], rand).value;
      var env := Envelope(x, s.reference, PointsOf(x.embedding, configs[s.reference], s).value, Row(rand, n));
      assert envs[..|envs| - 1] == init && envs[|envs| - 1] == env;
      UsableParts(x);
      EveryContest(x, configs, ss[..n], rand, board);
      EnvelopeShape(x, s.reference, PointsOf(x.embedding, configs[s.reference], s).value, Row(rand, n));
      SumsNeed(x.setup.g, env.cryptograms, Lookup(AllShares(x, board), s.reference));
      SharesLength(x, board, s.reference);
      ContestComesBack(x, configs[s.reference], s, Row(rand, n), Lookup(board, s.reference));
      var k0, g, server := s.reference, x.setup.g, AllShares(x, board);
      OthersStay(x, configs, FinalizeCryptograms(g, init, server).value, Randomizers(init), board, Selected(ss[..n]),
                 k0, FinalizeCryptograms(g, envs, server).value[k0], env.randomizers, s);
    }
  }

  lemma OthersStay<P(!new)>(
    x: Context<P>, configs: map<string, ContestConfig>, done: map<string, seq<Pair<P>>>,
    voter: map<string, seq<nat>>, board: map<string, seq<nat>>, chosen: map<string, ContestSelection>,
    k0: string, sums: seq<Pair<P>>, rs: seq<nat>, s: ContestSelection)
    requires x.setup.r > 0 && AllComeBack(x, configs, done, voter, board, chosen) && k0 in configs
    requires DecryptContest(x, Some(configs[k0]), sums, Some(rs), Lookup(board, k0))
             == Ok(CanonicalSelection(configs[k0], s))
    ensures AllComeBack(x, configs, done[k0 := sums], voter[k0 := rs], board, chosen[k0 := s])
  {
    hide DecryptContest, CanonicalSelection;
    var next := done[k0 := sums];
    forall k | k in next
      ensures ComesBack(x, configs, next, voter[k0 := rs], board, chosen[k0 := s], k)
    {
      if k != k0 { assert ComesBack(x, configs, done, voter, board, chosen, k); }
    }
  }

  lemma EnvelopeShape<P(!new)>(x: Context<P>, reference: string, points: seq<P>, rand: nat -> nat)
    ensures Envelope(x, reference, points, rand).reference == reference
    ensures |Envelope(x, reference, points, rand).cryptograms| == |points|
  {
  }

  lemma SumsNeed<P(!new)>(g: Group<P>, list1: seq<Pair<P>>, list2: Option<seq<Pair<P>>>)
    ensures Sums(g, list1, list2).Ok? <==> list1 == [] || (list2.Some? && |list1| <= |list2.value|)
  {
  }

  lemma SharesLength<P(!new)>(x: Context<P>, board: map<string, seq<nat>>, k: string)
    ensures Lookup(AllShares(x, board), k) == (if k in board then Some(BoardShares(x, board[k])) else None)
    ensures k in board ==> |BoardShares(x, board[k])| == |board[k]|
  {
  }

  /** The expected selections, contest by contest in the order of the keys. */
  function Expected(configs: map<string, ContestConfig>, chosen: map<string, ContestSelection>, keys: seq<string>)
    : seq<ContestSelection>
    requires forall k :: k in keys ==> k in configs && k in chosen
  {
    seq(|keys|, i requires 0 <= i < |keys| => CanonicalSelection(configs[keys[i]], chosen[keys[i]]))
  }

  lemma {:induction false} DecryptsInOrder<P(!new)>(
    x: Context<P>, configs: map<string, ContestConfig>, done: map<string, seq<Pair<P>>>,
    voter: map<string, seq<nat>>, board: map<string, seq<nat>>, chosen: map<string, ContestSelection>,
    keys: seq<string>)
    requires x.setup.r > 0 && AllComeBack(x, configs, done, voter, board, chosen)
    requires forall k :: k in keys ==> k in done
    ensures forall k :: k in keys ==> k in configs && k in chosen
    ensures DecryptContestSelections(x, configs, done, voter, board, keys) == Ok(Expected(configs, chosen, keys))
  {
    hide DecryptContest, CanonicalSelection;
    forall k | k in keys ensures k in configs && k in chosen {
      assert ComesBack(x, configs, done, voter, board, chosen, k);
    }
    if keys == [] {
      assert Expected(configs, chosen, keys) == [];
    } else {
      var n := |keys| - 1;
      DecryptsInOrder(x, configs, done, voter, board, chosen, keys[..n]);
      assert ComesBack(x, configs, done, voter, board, chosen, keys[n]);
      var expected := Expected(configs, chosen, keys);
      assert expected == Expected(configs, chosen, keys[..n]) + [expected[n]];
    }
  }

  /** Cast as intended: encrypting any accepted ballot, adding the board's shares and
      decrypting with the two openings yields the voter's selection in every contest, for
      every order in which the contests are listed. */
  lemma CastAsIntended<P(!new)>(
    x: Context<P>, configs: map<string, ContestConfig>, ss: seq<ContestSelection>, rand: (nat, nat) -> nat,
    board: map<string, seq<nat>>, keys: seq<string>)
    requires Usable(x) && DistinctOptions(configs) && EncryptAll(x, configs, ss, rand).Ok?
    requires Covers(board, EncryptAll(x, configs, ss, rand).value)
    requires (set k | k in keys) == Selected(ss).Keys
    ensures x.setup.r > 0 && forall k :: k in keys ==> k in configs && k in Selected(ss)
    ensures var envs := EncryptAll(x, configs, ss, rand).value;
            var done := FinalizeCryptograms(x.setup.g, envs, AllShares(x, board));
            && done.Ok? && (set k | k in keys) == done.value.Keys
            && DecryptContestSelections(x, configs, done.value, Randomizers(envs), board, keys)
               == Ok(Expected(configs, Selected(ss), keys))
  {
    hide Covers, EncryptAll, FinalizeCryptograms, DecryptContestSelections, Expected, Sound, Faithful;
    var envs := EncryptAll(x, configs, ss, rand).value;
    FinalizesExactly(x, envs, board);
    EveryContest(x, configs, ss, rand, board);
    var done := FinalizeCryptograms(x.setup.g, envs, AllShares(x, board)).value;
    DecryptsInOrder(x, configs, done, Randomizers(envs), board, Selected(ss), keys);
  }

  /** A contest's write-ins carry text without a leading mark and trailing NULs, its other
      options none. */
  predicate PlainSelection(config: ContestConfig, s: ContestSelection) {
    forall i :: 0 <= i < |s.optionSelections| ==>
      Plain(Tables(FlattenOptions(config.options)), s.optionSelections[i])
  }

  /** The chosen selections in the order of the keys. */
  function Listed(chosen: map<string, ContestSelection>, keys: seq<string>): seq<ContestSelection>
    requires forall k :: k in keys ==> k in chosen
  {
    seq(|keys|, i requires 0 <= i < |keys| => chosen[keys[i]])
  }

  lemma CanonicalPlain(config: ContestConfig, s: ContestSelection)
    ensures CanonicalSelection(config, s) == s <==> PlainSelection(config, s)
  {
    hide Tables, FlattenOptions, CanonicalAll, Plain;
    CanonicalExactly(Tables(FlattenOptions(config.options)), s.optionSelections);
  }

  lemma ExpectedExactly(configs: map<string, ContestConfig>, chosen: map<string, ContestSelection>, keys: seq<string>)
    requires forall k :: k in keys ==> k in configs && k in chosen
    ensures Expected(configs, chosen, keys) == Listed(chosen, keys)
            <==> forall k :: k in keys ==> PlainSelection(configs[k], chosen[k])
  {
    hide CanonicalSelection, PlainSelection;
    var e, l := Expected(configs, chosen, keys), Listed(chosen, keys);
    forall i | 0 <= i < |keys| ensures e[i] == l[i] <==> PlainSelection(configs[keys[i]], chosen[keys[i]]) {
      CanonicalPlain(configs[keys[i]], chosen[keys[i]]);
    }
    if forall k :: k in keys ==> PlainSelection(configs[k], chosen[k]) {
      forall i | 0 <= i < |keys| ensures e[i] == l[i] { assert keys[i] in keys; }
    } else {
      var k :| k in keys && !PlainSelection(configs[k], chosen[k]);
      var i :| 0 <= i < |keys| && keys[i] == k;
      assert e[i] != l[i];
    }
  }

  /** The voter's very selections come back exactly when they are plain. */
  lemma CastExactly<P(!new)>(
    x: Context<P>, configs: map<string, ContestConfig>, ss: seq<ContestSelection>, rand: (nat, nat) -> nat,
    board: map<string, seq<nat>>, keys: seq<string>)
    requires Usable(x) && DistinctOptions(configs) && EncryptAll(x, configs, ss, rand).Ok?
    requires Covers(board, EncryptAll(x, configs, ss, rand).value)
    requires (set k | k in keys) == Selected(ss).Keys
    ensures x.setup.r > 0 && forall k :: k in keys ==> k in configs && k in Selected(ss)
    ensures var envs := EncryptAll(x, configs, ss, rand).value;
            var done := FinalizeCryptograms(x.setup.g, envs, AllShares(x, board));
            && done.Ok? && (set k | k in keys) == done.value.Keys
            && (DecryptContestSelections(x, configs, done.value, Randomizers(envs), board, keys)
                == Ok(Listed(Selected(ss), keys))
                <==> forall k :: k in keys ==> PlainSelection(configs[k], Selected(ss)[k]))
  {
    hide Covers, EncryptAll, FinalizeCryptograms, DecryptContestSelections, Expected, Sound, Faithful, Listed;
    hide PlainSelection;
    CastAsIntended(x, configs, ss, rand, board, keys);
    ExpectedExactly(configs, Selected(ss), keys);
  }

  /** The voter's and the board's openings validate against their commitments, in whatever
      orders the contests of either map come when committing and when checking. */
  lemma BothOpeningsValidate<P(!new)>(
    x: Context<P>, gen: (string, nat) -> P, envelopes: seq<ContestEnvelope<P>>, board: map<string, seq<nat>>,
    voterKeys: seq<string>, voterOrder: seq<string>, boardKeys: seq<string>, boardOrder: seq<string>, v: nat, b: nat)
    requires Abelian(x.setup.g)
    requires Lists(Randomizers(envelopes), voterKeys) && Lists(Randomizers(envelopes), voterOrder)
    requires Lists(board, boardKeys) && Lists(board, boardOrder)
    ensures var m := Randomizers(envelopes);
            && Verify(x.setup, gen, Generate(x.setup, gen, Entries(m, voterKeys), v), Entries(m, voterOrder), v)
            && Verify(x.setup, gen, Generate(x.setup, gen, Entries(board, boardKeys), b), Entries(board, boardOrder), b)
  {
    OpeningValidates(x.setup, gen, Randomizers(envelopes), voterKeys, voterOrder, v);
    OpeningValidates(x.setup, gen, board, boardKeys, boardOrder, b);
  }
}
