/** Contest selections as byte strings: the option tree, what the encoder writes and the
    decoder reads, and when each undoes the other. Write-in text is its UTF-8 bytes. */
module ByteCoding {
  import opened ByteStrings
  import opened Congruence
  import opened JsNumber
  import opened Outcomes
  import opened Utf8

  datatype WriteIn = WriteIn(maxSize: nat, utf8: bool)

  datatype OptionContent = OptionContent(
    reference: string, code: int, writeIn: Option<WriteIn>, children: seq<OptionContent>)

  /** An option without its children. */
  datatype FlatOption = FlatOption(reference: string, code: int, writeIn: Option<WriteIn>)

  datatype ContestConfig = ContestConfig(
    reference: string, codeSize: nat, maxSize: nat, options: seq<OptionContent>)

  datatype OptionSelection = OptionSelection(reference: string, text: Option<Text>)

  datatype ContestSelection = ContestSelection(reference: string, optionSelections: seq<OptionSelection>)

  datatype CodingError =
    | WrongContest | OptionNotFound | UnsupportedEncoding | NegativeInteger | IntegerTooLarge
    | TextTooLong | OutOfBounds | UnexpectedBytes | UnexpectedCode

  function FlattenOption(o: OptionContent): seq<FlatOption>
    decreases o
  {
    [FlatOption(o.reference, o.code, o.writeIn)] + FlattenOptions(o.children)
  }

  /** flattenOptions: each option before its children, siblings in order. */
  function FlattenOptions(os: seq<OptionContent>): seq<FlatOption>
    decreases os
  {
    if os == [] then [] else FlattenOptions(os[..|os| - 1]) + FlattenOption(os[|os| - 1])
  }

  /** o is one of the options or sits somewhere below one of them. */
  predicate InTree(o: OptionContent, os: seq<OptionContent>)
    decreases os
  {
    os != [] && (os[|os| - 1] == o || InTree(o, os[|os| - 1].children) || InTree(o, os[..|os| - 1]))
  }

  /** Flattening lists exactly the options of the tree. */
  lemma {:induction false} FlattenLists(os: seq<OptionContent>, f: FlatOption)
    ensures f in FlattenOptions(os)
            <==> exists o :: InTree(o, os) && f == FlatOption(o.reference, o.code, o.writeIn)
    decreases os
  {
    if os != [] {
      var init, last := os[..|os| - 1], os[|os| - 1];
      FlattenLists(init, f);
      FlattenLists(last.children, f);
      if f in FlattenOptions(os) {
        if f in FlattenOptions(init) {
          var o :| InTree(o, init) && f == FlatOption(o.reference, o.code, o.writeIn);
          assert InTree(o, os);
        } else if f in FlattenOptions(last.children) {
          var o :| InTree(o, last.children) && f == FlatOption(o.reference, o.code, o.writeIn);
          assert InTree(o, os);
        } else {
          assert InTree(last, os);
        }
      }
    }
  }

  /** The three lookup tables. */
  datatype Codebook = Codebook(
    codes: map<string, int>, references: map<int, string>, writeIns: map<string, WriteIn>)

  /** One more option, overwriting an earlier one under the same key. */
  function Extended(b: Codebook, o: FlatOption): Codebook {
    Codebook(
      b.codes[o.reference := o.code],
      b.references[o.code := o.reference],
      if o.writeIn.Some? then b.writeIns[o.reference := o.writeIn.value] else b.writeIns)
  }

  function Tables(flat: seq<FlatOption>): Codebook {
    if flat == [] then Codebook(map[], map[], map[])
    else Extended(Tables(flat[..|flat| - 1]), flat[|flat| - 1])
  }

  /** Codes, which are JavaScript numbers, and references name options one to one. */
  predicate Distinct(flat: seq<FlatOption>) {
    && (forall i :: 0 <= i < |flat| ==> IsNumber(flat[i].code))
    && (forall i, j :: 0 <= i < j < |flat| ==> flat[i].reference != flat[j].reference)
    && (forall i, j :: 0 <= i < j < |flat| ==> flat[i].code != flat[j].code)
    && (forall i :: 0 <= i < |flat| ==> flat[i].reference != "")
  }

  predicate IsNumber(code: int) {
    code >= 0 ==> IsDouble(code)
  }

  predicate Utf8Only(flat: seq<FlatOption>) {
    forall i :: 0 <= i < |flat| && flat[i].writeIn.Some? ==> flat[i].writeIn.value.utf8
  }

  /** The tables invert each other. */
  ghost predicate Inverse(b: Codebook) {
    && (forall r :: r in b.codes ==> b.codes[r] in b.references && b.references[b.codes[r]] == r)
    && (forall c :: c in b.references ==> b.references[c] in b.codes && b.codes[b.references[c]] == c)
    && b.writeIns.Keys <= b.codes.Keys
    && "" !in b.codes
    && (forall r :: r in b.codes ==> IsNumber(b.codes[r]))
  }

  ghost predicate Utf8Book(b: Codebook) {
    forall r :: r in b.writeIns ==> b.writeIns[r].utf8
  }

  predicate Names(flat: seq<FlatOption>, reference: string) {
    exists i :: 0 <= i < |flat| && flat[i].reference == reference
  }

  predicate Numbers(flat: seq<FlatOption>, code: int) {
    exists i :: 0 <= i < |flat| && flat[i].code == code
  }

  /** The last option is new to those before it. */
  lemma LastIsNew(flat: seq<FlatOption>)
    requires Distinct(flat) && flat != []
    ensures var init, o := flat[..|flat| - 1], flat[|flat| - 1];
            && Distinct(init) && IsNumber(o.code) && o.reference != ""
            && !Names(init, o.reference) && !Numbers(init, o.code)
            && (forall r :: Names(flat, r) <==> Names(init, r) || r == o.reference)
            && (forall c :: Numbers(flat, c) <==> Numbers(init, c) || c == o.code)
  {
    hide IsNumber;
    var init, o := flat[..|flat| - 1], flat[|flat| - 1];
    forall r ensures Names(flat, r) <==> Names(init, r) || r == o.reference {
      if Names(init, r) {
        var i :| 0 <= i < |init| && init[i].reference == r;
        assert flat[i].reference == r;
      }
    }
    forall c ensures Numbers(flat, c) <==> Numbers(init, c) || c == o.code {
      if Numbers(init, c) {
        var i :| 0 <= i < |init| && init[i].code == c;
        assert flat[i].code == c;
      }
    }
  }

  lemma ExtendedInverse(b: Codebook, o: FlatOption)
    requires Inverse(b) && o.reference !in b.codes && o.code !in b.references
    requires IsNumber(o.code) && o.reference != ""
    ensures Inverse(Extended(b, o))
  {
    hide IsNumber;
  }

  /** The tables invert each other and hold exactly the options. */
  lemma {:induction false} TablesOfDistinct(flat: seq<FlatOption>)
    requires Distinct(flat)
    ensures Inverse(Tables(flat))
    ensures forall r :: r in Tables(flat).codes <==> Names(flat, r)
    ensures forall c :: c in Tables(flat).references <==> Numbers(flat, c)
  {
    if flat != [] {
      hide Distinct, IsNumber, Inverse, Names, Numbers;
      LastIsNew(flat);
      TablesOfDistinct(flat[..|flat| - 1]);
      ExtendedInverse(Tables(flat[..|flat| - 1]), flat[|flat| - 1]);
    }
  }

  /** Each option is found under its own reference, with its own code and write-in. */
  lemma {:induction false} TableEntries(flat: seq<FlatOption>, i: nat)
    requires Distinct(flat) && i < |flat|
    ensures var b, o := Tables(flat), flat[i];
            && o.reference in b.codes && b.codes[o.reference] == o.code
            && (o.reference in b.writeIns <==> o.writeIn.Some?)
            && (o.writeIn.Some? ==> b.writeIns[o.reference] == o.writeIn.value)
  {
    hide IsNumber;
    var n := |flat| - 1;
    if i < n {
      TableEntries(flat[..n], i);
      assert flat[i].reference != flat[n].reference;
    } else {
      TablesOfDistinct(flat[..n]);
      LastIsNew(flat);
      assert flat[n].reference !in Tables(flat[..n]).codes;
    }
  }

  lemma {:induction false} TablesUtf8(flat: seq<FlatOption>)
    requires Utf8Only(flat)
    ensures Utf8Book(Tables(flat))
  {
    if flat != [] {
      assert forall i :: 0 <= i < |flat| - 1 ==> flat[..|flat| - 1][i] == flat[i];
      TablesUtf8(flat[..|flat| - 1]);
    }
  }

  // ---------------------------------------------------------------- encoding

  /** The text the encoder takes: `text || ''`. */
  function TextOf(s: OptionSelection): Text {
    match s.text
    case None => []
    case Some(t) => t
  }

  /** The bytes one option selection adds when `used` bytes are taken, or the first error. */
  function EncodeOption(b: Codebook, codeSize: nat, maxSize: nat, s: OptionSelection, used: nat)
    : (r: Result<seq<byte>, CodingError>)
    ensures r.Ok? ==> used + |r.value| <= maxSize
  {
    if s.reference !in b.codes || b.codes[s.reference] == 0 then Err(OptionNotFound)
    else if s.reference in b.writeIns && !b.writeIns[s.reference].utf8 then Err(UnsupportedEncoding)
    else
      var code := b.codes[s.reference];
      if code < 0 then Err(NegativeInteger)
      else if code >= Pow(256, codeSize) then Err(IntegerTooLarge)
      else if used + codeSize > maxSize then Err(OutOfBounds)
      else if s.reference !in b.writeIns then Ok(ToBytes(code, codeSize))
      else
        var size := b.writeIns[s.reference].maxSize;
        if |TextOf(s)| > size then Err(TextTooLong)
        else if used + codeSize + size > maxSize then Err(OutOfBounds)
        else Ok(ToBytes(code, codeSize) + PadTo(TextOf(s), size))
  }

  /** The bytes of a list of selections from position `used` on. */
  function EncodeOptions(b: Codebook, codeSize: nat, maxSize: nat, ss: seq<OptionSelection>, used: nat)
    : (r: Result<seq<byte>, CodingError>)
    requires used <= maxSize
    ensures r.Ok? ==> used + |r.value| <= maxSize
  {
    if ss == [] then Ok([])
    else
      match EncodeOption(b, codeSize, maxSize, ss[0], used)
      case Err(e) => Err(e)
      case Ok(head) =>
        match EncodeOptions(b, codeSize, maxSize, ss[1..], used + |head|)
        case Err(e) => Err(e)
        case Ok(rest) => Ok(head + rest)
  }

  /** contestSelectionToByteArray: the written bytes, zero up to maxSize. */
  function EncodeSelection(c: ContestConfig, s: ContestSelection): Result<seq<byte>, CodingError> {
    if c.reference != s.reference then Err(WrongContest)
    else
      match EncodeOptions(Tables(FlattenOptions(c.options)), c.codeSize, c.maxSize, s.optionSelections, 0)
      case Err(e) => Err(e)
      case Ok(bytes) => Ok(PadTo(bytes, c.maxSize))
  }

  /** A selection that can be written at all. */
  predicate Encodable(b: Codebook, codeSize: nat, s: OptionSelection) {
    && s.reference in b.codes && 0 < b.codes[s.reference] < Pow(256, codeSize)
    && (s.reference in b.writeIns ==>
          b.writeIns[s.reference].utf8
          && |if s.text.Some? then s.text.value else []| <= b.writeIns[s.reference].maxSize)
  }

  /** What its field must be: the code, most significant byte first, and for a write-in the text
      filled up with zeros. */
  predicate Field(b: Codebook, codeSize: nat, s: OptionSelection, f: seq<byte>) {
    && s.reference in b.codes && |f| == Width(b, codeSize, s)
    && BigEndian(f[..codeSize]) == b.codes[s.reference]
    && (s.reference in b.writeIns ==>
          && var text: seq<byte> := if s.text.Some? then s.text.value else [];
          && |text| <= b.writeIns[s.reference].maxSize
          && f[codeSize..codeSize + |text|] == text && AllZero(f[codeSize + |text|..]))
  }

  function Width(b: Codebook, codeSize: nat, s: OptionSelection): nat {
    codeSize + if s.reference in b.writeIns then b.writeIns[s.reference].maxSize else 0
  }

  function TotalWidth(b: Codebook, codeSize: nat, ss: seq<OptionSelection>): nat {
    if ss == [] then 0 else Width(b, codeSize, ss[0]) + TotalWidth(b, codeSize, ss[1..])
  }

  function Join(parts: seq<seq<byte>>): seq<byte> {
    if parts == [] then [] else parts[0] + Join(parts[1..])
  }

  lemma OptionExactly(b: Codebook, codeSize: nat, maxSize: nat, s: OptionSelection, used: nat)
    ensures var r := EncodeOption(b, codeSize, maxSize, s, used);
            && (r.Ok? <==> Encodable(b, codeSize, s) && used + Width(b, codeSize, s) <= maxSize)
            && (r.Ok? ==> Field(b, codeSize, s, r.value))
  {
    hide Pow, BigEndian, ToBytes, WellFormed;
    var r := EncodeOption(b, codeSize, maxSize, s, used);
    if r.Ok? {
      var code := b.codes[s.reference];
      BytesRoundTrip(code, codeSize);
      assert r.value[..codeSize] == ToBytes(code, codeSize);
    }
  }

  /** The encoder accepts exactly known, writable selections that fit together. */
  lemma {:induction false} OptionsExactly(
    b: Codebook, codeSize: nat, maxSize: nat, ss: seq<OptionSelection>, used: nat)
    requires used <= maxSize
    ensures EncodeOptions(b, codeSize, maxSize, ss, used).Ok?
            <==> (forall i :: 0 <= i < |ss| ==> Encodable(b, codeSize, ss[i]))
                 && used + TotalWidth(b, codeSize, ss) <= maxSize
  {
    hide Encodable, EncodeOption, Field;
    if ss != [] {
      OptionExactly(b, codeSize, maxSize, ss[0], used);
      var head := EncodeOption(b, codeSize, maxSize, ss[0], used);
      if head.Ok? {
        FieldWidth(b, codeSize, ss[0], head.value);
        OptionsExactly(b, codeSize, maxSize, ss[1..], used + |head.value|);
      }
      AllFromFirst(b, codeSize, ss);
    }
  }

  lemma FieldWidth(b: Codebook, codeSize: nat, s: OptionSelection, f: seq<byte>)
    requires Field(b, codeSize, s, f)
    ensures |f| == Width(b, codeSize, s)
  {
  }

  lemma AllFromFirst(b: Codebook, codeSize: nat, ss: seq<OptionSelection>)
    requires ss != []
    ensures (forall i :: 0 <= i < |ss| ==> Encodable(b, codeSize, ss[i]))
            <==> Encodable(b, codeSize, ss[0]) && forall i :: 0 <= i < |ss[1..]| ==> Encodable(b, codeSize, ss[1..][i])
  {
    hide Encodable;
    if Encodable(b, codeSize, ss[0]) && forall i :: 0 <= i < |ss[1..]| ==> Encodable(b, codeSize, ss[1..][i]) {
      forall i | 0 <= i < |ss| ensures Encodable(b, codeSize, ss[i]) {
        if i > 0 { assert ss[i] == ss[1..][i - 1]; }
      }
    }
  }

  /** Its bytes are the fields of the selections, one after the other. */
  lemma {:induction false} OptionsLayout(b: Codebook, codeSize: nat, maxSize: nat, ss: seq<OptionSelection>, used: nat)
    returns (parts: seq<seq<byte>>)
    requires used <= maxSize && EncodeOptions(b, codeSize, maxSize, ss, used).Ok?
    ensures |parts| == |ss| && forall i :: 0 <= i < |ss| ==> Field(b, codeSize, ss[i], parts[i])
    ensures EncodeOptions(b, codeSize, maxSize, ss, used).value == Join(parts)
  {
    hide Field, EncodeOption;
    if ss == [] {
      parts := [];
    } else {
      OptionExactly(b, codeSize, maxSize, ss[0], used);
      var head := EncodeOption(b, codeSize, maxSize, ss[0], used).value;
      var rest := OptionsLayout(b, codeSize, maxSize, ss[1..], used + |head|);
      parts := [head] + rest;
      assert parts[1..] == rest;
    }
  }

  /** Which selections of a contest are encoded. */
  lemma EncodesExactly(c: ContestConfig, s: ContestSelection)
    ensures var b := Tables(FlattenOptions(c.options));
            EncodeSelection(c, s).Ok?
            <==> && c.reference == s.reference
                 && (forall i :: 0 <= i < |s.optionSelections| ==> Encodable(b, c.codeSize, s.optionSelections[i]))
                 && TotalWidth(b, c.codeSize, s.optionSelections) <= c.maxSize
  {
    OptionsExactly(Tables(FlattenOptions(c.options)), c.codeSize, c.maxSize, s.optionSelections, 0);
  }

  /** And as what: the fields in order, then zeros up to maxSize. */
  lemma EncodingLayout(c: ContestConfig, s: ContestSelection) returns (parts: seq<seq<byte>>, zeros: seq<byte>)
    requires EncodeSelection(c, s).Ok?
    ensures |parts| == |s.optionSelections|
    ensures forall i :: 0 <= i < |parts| ==>
              Field(Tables(FlattenOptions(c.options)), c.codeSize, s.optionSelections[i], parts[i])
    ensures EncodeSelection(c, s).value == Join(parts) + zeros && AllZero(zeros)
    ensures |EncodeSelection(c, s).value| == c.maxSize
  {
    parts := OptionsLayout(Tables(FlattenOptions(c.options)), c.codeSize, c.maxSize, s.optionSelections, 0);
    zeros := Zeros(c.maxSize - |Join(parts)|);
  }

  // ---------------------------------------------------------------- decoding

  /** The decoded text of a field, without trailing NUL characters. */
  function ReadText(field: seq<byte>): Text {
    TrimmedText(TextDecode(field));
    TrimZeros(TextDecode(field))
  }

  /** One option selection read at the front of buf, with the bytes it took. */
  function DecodeOption(b: Codebook, codeSize: nat, buf: seq<byte>)
    : (r: Result<(OptionSelection, nat), CodingError>)
    ensures r.Ok? ==> codeSize <= r.value.1 && 0 < r.value.1 <= |buf|
  {
    if codeSize > |buf| then Err(OutOfBounds)
    else
      var code := ReadNumber(buf[..codeSize]);
      if code == 0 then Err(UnexpectedBytes)
      else if code !in b.references || b.references[code] == "" then Err(UnexpectedCode)
      else
        var r := b.references[code];
        if r !in b.writeIns then Ok((OptionSelection(r, None), codeSize))
        else
          var size := b.writeIns[r].maxSize;
          if codeSize + size > |buf| then Err(OutOfBounds)
          else Ok((OptionSelection(r, Some(ReadText(buf[codeSize..codeSize + size]))), codeSize + size))
  }

  function DecodeOptions(b: Codebook, codeSize: nat, buf: seq<byte>)
    : Result<seq<OptionSelection>, CodingError>
    decreases |buf|
  {
    if AllZero(buf) then Ok([])
    else
      match DecodeOption(b, codeSize, buf)
      case Err(e) => Err(e)
      case Ok((s, taken)) =>
        match DecodeOptions(b, codeSize, buf[taken..])
        case Err(e) => Err(e)
        case Ok(rest) => Ok([s] + rest)
  }

  /** byteArrayToContestSelection. */
  function DecodeSelection(c: ContestConfig, buf: seq<byte>): Result<ContestSelection, CodingError> {
    match DecodeOptions(Tables(FlattenOptions(c.options)), c.codeSize, buf)
    case Err(e) => Err(e)
    case Ok(ss) => Ok(ContestSelection(c.reference, ss))
  }

  // ---------------------------------------------------------------- round trips

  /** What a selection looks like after a round trip: write-ins carry text without a leading
      byte-order mark and without trailing NULs, other options carry none. */
  function Canonical(b: Codebook, s: OptionSelection): OptionSelection {
    MarklessText(TextOf(s));
    TrimmedText(WithoutMark(TextOf(s)));
    OptionSelection(s.reference, if s.reference in b.writeIns then Some(TrimZeros(WithoutMark(TextOf(s)))) else None)
  }

  function CanonicalAll(b: Codebook, ss: seq<OptionSelection>): seq<OptionSelection> {
    if ss == [] then [] else [Canonical(b, ss[0])] + CanonicalAll(b, ss[1..])
  }

  /** Write-ins carry text that neither begins with the mark nor ends in a NUL, other options
      carry none. */
  predicate Plain(b: Codebook, s: OptionSelection) {
    if s.reference in b.writeIns then
      s.text.Some? && !StartsWithMark(s.text.value)
      && (s.text.value == [] || s.text.value[|s.text.value| - 1] != 0)
    else s.text.None?
  }

  /** Exactly these selections are their own canonical form. */
  lemma {:induction false} CanonicalExactly(b: Codebook, ss: seq<OptionSelection>)
    ensures CanonicalAll(b, ss) == ss <==> forall i :: 0 <= i < |ss| ==> Plain(b, ss[i])
  {
    if ss != [] {
      CanonicalExactly(b, ss[1..]);
      assert CanonicalAll(b, ss)[0] == Canonical(b, ss[0]) && CanonicalAll(b, ss)[1..] == CanonicalAll(b, ss[1..]);
      TrimKeeps(TextOf(ss[0]));
      TrimKeeps(WithoutMark(TextOf(ss[0])));
      if forall i :: 0 <= i < |ss| ==> Plain(b, ss[i]) {
        assert Plain(b, ss[0]);
        assert forall i :: 0 <= i < |ss[1..]| ==> ss[1..][i] == ss[i + 1];
        assert ss == [ss[0]] + ss[1..];
      } else {
        var i :| 0 <= i < |ss| && !Plain(b, ss[i]);
        if i > 0 { assert ss[1..][i - 1] == ss[i]; }
      }
    }
  }

  lemma InverseCode(b: Codebook, r: string)
    requires Inverse(b) && r in b.codes
    ensures b.codes[r] in b.references && b.references[b.codes[r]] == r && r != "" && IsNumber(b.codes[r])
  {
  }

  lemma InverseReference(b: Codebook, c: int)
    requires Inverse(b) && c in b.references
    ensures b.references[c] in b.codes && b.codes[b.references[c]] == c
  {
  }

  lemma DecodesOption(b: Codebook, codeSize: nat, maxSize: nat, s: OptionSelection, used: nat, rest: seq<byte>)
    requires Inverse(b) && EncodeOption(b, codeSize, maxSize, s, used).Ok?
    ensures var bytes := EncodeOption(b, codeSize, maxSize, s, used).value;
            && DecodeOption(b, codeSize, bytes + rest) == Ok((Canonical(b, s), |bytes|))
            && !AllZero(bytes + rest)
  {
    hide Inverse, WellFormed, IsDouble, BigEndian, ToBytes, ReadNumber, TrimZeros, Pow, TextDecode, StartsWithMark;
    var bytes, code := EncodeOption(b, codeSize, maxSize, s, used).value, b.codes[s.reference];
    InverseCode(b, s.reference);
    var buf := bytes + rest;
    BytesRoundTrip(code, codeSize);
    ReadsDouble(code, codeSize);
    assert buf[..codeSize] == ToBytes(code, codeSize);
    BigEndianZero(buf[..codeSize]);
    assert forall i :: 0 <= i < codeSize ==> buf[i] == buf[..codeSize][i];
    if s.reference in b.writeIns {
      var size := b.writeIns[s.reference].maxSize;
      var text := TextOf(s);
      assert buf[codeSize..codeSize + size] == PadTo(text, size);
      DecodePadded(text, size - |text|);
      TrimOfPadded(WithoutMark(text), size - |text|);
    }
  }

  lemma {:induction false} DecodesOptions(
    b: Codebook, codeSize: nat, maxSize: nat, ss: seq<OptionSelection>, used: nat, k: nat)
    requires Inverse(b) && used <= maxSize && EncodeOptions(b, codeSize, maxSize, ss, used).Ok?
    ensures DecodeOptions(b, codeSize, EncodeOptions(b, codeSize, maxSize, ss, used).value + Zeros(k))
            == Ok(CanonicalAll(b, ss))
  {
    var bytes := EncodeOptions(b, codeSize, maxSize, ss, used).value;
    if ss == [] {
      assert AllZero(bytes + Zeros(k));
    } else {
      var head := EncodeOption(b, codeSize, maxSize, ss[0], used).value;
      var tail := EncodeOptions(b, codeSize, maxSize, ss[1..], used + |head|).value;
      var buf := bytes + Zeros(k);
      assert buf == head + (tail + Zeros(k));
      DecodesOption(b, codeSize, maxSize, ss[0], used, tail + Zeros(k));
      assert buf[|head|..] == tail + Zeros(k);
      DecodesOptions(b, codeSize, maxSize, ss[1..], used + |head|, k);
    }
  }

  /** Decoding an encoded selection gives back its canonical form. */
  lemma DecodeEncode(c: ContestConfig, s: ContestSelection)
    requires Distinct(FlattenOptions(c.options)) && EncodeSelection(c, s).Ok?
    ensures DecodeSelection(c, EncodeSelection(c, s).value)
            == Ok(ContestSelection(s.reference, CanonicalAll(Tables(FlattenOptions(c.options)), s.optionSelections)))
  {
    var b := Tables(FlattenOptions(c.options));
    TablesOfDistinct(FlattenOptions(c.options));
    var bytes := EncodeOptions(b, c.codeSize, c.maxSize, s.optionSelections, 0).value;
    DecodesOptions(b, c.codeSize, c.maxSize, s.optionSelections, 0, c.maxSize - |bytes|);
  }

  /** The field at the front says what it is read as: its code is not rounded, and its text
      is well formed and begins without a mark. */
  predicate ExactField(b: Codebook, codeSize: nat, buf: seq<byte>) {
    var r := DecodeOption(b, codeSize, buf);
    r.Ok? ==>
      && ReadNumber(buf[..codeSize]) == BigEndian(buf[..codeSize])
      && TextField(b, codeSize, buf)
  }

  predicate TextField(b: Codebook, codeSize: nat, buf: seq<byte>) {
    var r := DecodeOption(b, codeSize, buf);
    r.Ok? && r.value.0.reference in b.writeIns ==>
      WellFormed(buf[codeSize..r.value.1]) && !StartsWithMark(buf[codeSize..r.value.1])
  }

  predicate ExactFields(b: Codebook, codeSize: nat, buf: seq<byte>)
    decreases |buf|
  {
    AllZero(buf)
    || var r := DecodeOption(b, codeSize, buf);
       r.Ok? && ExactField(b, codeSize, buf) && ExactFields(b, codeSize, buf[r.value.1..])
  }

  predicate TextFields(b: Codebook, codeSize: nat, buf: seq<byte>)
    decreases |buf|
  {
    AllZero(buf)
    || var r := DecodeOption(b, codeSize, buf);
       r.Ok? && TextField(b, codeSize, buf) && TextFields(b, codeSize, buf[r.value.1..])
  }

  lemma EncodesOption(b: Codebook, codeSize: nat, maxSize: nat, buf: seq<byte>, used: nat)
    requires Inverse(b) && Utf8Book(b) && DecodeOption(b, codeSize, buf).Ok? && used + |buf| <= maxSize
    ensures var (s, taken) := DecodeOption(b, codeSize, buf).value;
            var r := EncodeOption(b, codeSize, maxSize, s, used);
            && (r.Ok? ==> |r.value| == taken)
            && (r == Ok(buf[..taken]) <==> ExactField(b, codeSize, buf))
  {
    hide Inverse, Utf8Book, WellFormed, IsDouble, BigEndian, ToBytes, ReadNumber, TrimZeros, Pow, TextDecode;
    hide StartsWithMark, ReadText;
    var (s, taken) := DecodeOption(b, codeSize, buf).value;
    InverseReference(b, ReadNumber(buf[..codeSize]));
    Utf8At(b, s.reference);
    var number := buf[..codeSize];
    var code := ReadNumber(number);
    BigEndianBound(number);
    ToBytesUnique(number);
    if code < Pow(256, codeSize) { BytesRoundTrip(code, codeSize); }
    if s.reference in b.writeIns {
      var field := buf[codeSize..taken];
      ReadTextKeeps(field);
      assert buf[..taken] == number + field;
      if |TextOf(s)| <= |field| { JoinedEqual(ToBytes(code, codeSize), number, PadTo(TextOf(s), |field|), field); }
    }
  }

  lemma Utf8At(b: Codebook, r: string)
    requires Utf8Book(b)
    ensures r in b.writeIns ==> b.writeIns[r].utf8
  {
  }

  lemma ReadTextKeeps(field: seq<byte>)
    ensures |ReadText(field)| <= |field| && PadTo(ReadText(field), |field|) == field
            <==> WellFormed(field) && !StartsWithMark(field)
  {
    FieldKeeps(field);
  }

  lemma JoinedEqual(a: seq<byte>, a': seq<byte>, b: seq<byte>, b': seq<byte>)
    requires |a| == |a'|
    ensures a + b == a' + b' <==> a == a' && b == b'
  {
    if a + b == a' + b' {
      assert a == (a + b)[..|a|] == (a' + b')[..|a|] == a';
      assert b == (a + b)[|a|..] == (a' + b')[|a|..] == b';
    }
  }

  lemma {:induction false} EncodesOptions(b: Codebook, codeSize: nat, maxSize: nat, buf: seq<byte>, used: nat)
    requires Inverse(b) && Utf8Book(b) && DecodeOptions(b, codeSize, buf).Ok? && used + |buf| <= maxSize
    ensures var r := EncodeOptions(b, codeSize, maxSize, DecodeOptions(b, codeSize, buf).value, used);
            && (r.Ok? ==> |r.value| <= |buf|)
            && (r.Ok? && PadTo(r.value, |buf|) == buf <==> ExactFields(b, codeSize, buf))
    decreases |buf|
  {
    hide EncodeOption, DecodeOption, Inverse, Utf8Book, ExactField;
    var ss := DecodeOptions(b, codeSize, buf).value;
    if !AllZero(buf) {
      var (s, taken) := DecodeOption(b, codeSize, buf).value;
      EncodesOption(b, codeSize, maxSize, buf, used);
      assert ss[0] == s && ss[1..] == DecodeOptions(b, codeSize, buf[taken..]).value;
      var head := EncodeOption(b, codeSize, maxSize, s, used);
      if head.Ok? {
        EncodesOptions(b, codeSize, maxSize, buf[taken..], used + taken);
        var rest := EncodeOptions(b, codeSize, maxSize, ss[1..], used + taken);
        if rest.Ok? { PaddedJoin(head.value, rest.value, buf, taken); }
      }
    }
  }

  lemma PaddedJoin(head: seq<byte>, rest: seq<byte>, buf: seq<byte>, taken: nat)
    requires |head| == taken && taken + |rest| <= |buf|
    ensures PadTo(head + rest, |buf|) == buf <==> head == buf[..taken] && PadTo(rest, |buf| - taken) == buf[taken..]
  {
    assert PadTo(head + rest, |buf|) == head + PadTo(rest, |buf| - taken);
    assert buf == buf[..taken] + buf[taken..];
    JoinedEqual(head, buf[..taken], PadTo(rest, |buf| - taken), buf[taken..]);
  }

  /** Re-encoding what was decoded from a buffer of maxSize bytes gives the buffer back exactly
      when no code in it is rounded and its write-in fields are text without a leading mark. */
  lemma EncodeDecode(c: ContestConfig, buf: seq<byte>)
    requires Distinct(FlattenOptions(c.options)) && Utf8Only(FlattenOptions(c.options))
    requires |buf| == c.maxSize && DecodeSelection(c, buf).Ok?
    ensures EncodeSelection(c, DecodeSelection(c, buf).value) == Ok(buf)
            <==> ExactFields(Tables(FlattenOptions(c.options)), c.codeSize, buf)
  {
    TablesOfDistinct(FlattenOptions(c.options));
    TablesUtf8(FlattenOptions(c.options));
    EncodesOptions(Tables(FlattenOptions(c.options)), c.codeSize, c.maxSize, buf, 0);
  }

  /** Codes of at most six bytes, or below 2^53. */
  predicate SmallCodes(b: Codebook, codeSize: nat) {
    codeSize <= 6 || forall c :: c in b.references ==> c < EXACT_MAX
  }

  /** Then no code is rounded, whatever the buffer. */
  lemma {:induction false} SmallCodesExact(b: Codebook, codeSize: nat, buf: seq<byte>)
    requires SmallCodes(b, codeSize)
    ensures ExactFields(b, codeSize, buf) <==> TextFields(b, codeSize, buf)
    decreases |buf|
  {
    if !AllZero(buf) && DecodeOption(b, codeSize, buf).Ok? {
      ReadsExactly(buf[..codeSize]);
      if codeSize <= 6 { SixBytes(buf[..codeSize]); }
      SmallCodesExact(b, codeSize, buf[DecodeOption(b, codeSize, buf).value.1..]);
    }
  }

  /** With small codes only the write-in fields matter. */
  lemma EncodeDecodeSmall(c: ContestConfig, buf: seq<byte>)
    requires Distinct(FlattenOptions(c.options)) && Utf8Only(FlattenOptions(c.options))
    requires |buf| == c.maxSize && DecodeSelection(c, buf).Ok?
    requires SmallCodes(Tables(FlattenOptions(c.options)), c.codeSize)
    ensures EncodeSelection(c, DecodeSelection(c, buf).value) == Ok(buf)
            <==> TextFields(Tables(FlattenOptions(c.options)), c.codeSize, buf)
  {
    EncodeDecode(c, buf);
    SmallCodesExact(Tables(FlattenOptions(c.options)), c.codeSize, buf);
  }

  /** One option with the code 2^53. */
  function LargeOption(): FlatOption {
    FlatOption("a", 0x20_0000_0000_0000, None)
  }

  function LargeBook(): Codebook {
    Codebook(map["a" := 0x20_0000_0000_0000], map[0x20_0000_0000_0000 := "a"], map[])
  }

  lemma LargeTables()
    ensures Tables([LargeOption()]) == LargeBook() && Distinct([LargeOption()])
  {
    assert [LargeOption()][..0] == [];
    TieToEven();
  }

  lemma LargeDecodes(buf: seq<byte>)
    requires |buf| == 7 && ReadNumber(buf) == 0x20_0000_0000_0000 && !AllZero(buf)
    ensures DecodeOption(LargeBook(), 7, buf) == Ok((OptionSelection("a", None), 7))
    ensures DecodeOptions(LargeBook(), 7, buf) == Ok([OptionSelection("a", None)])
    ensures ExactFields(LargeBook(), 7, buf) <==> BigEndian(buf) == 0x20_0000_0000_0000
  {
    hide ReadNumber, BigEndian, WellFormed, ToBytes;
    assert buf[..7] == buf && buf[7..] == [];
    assert AllZero(buf[7..]);
    assert DecodeOptions(LargeBook(), 7, buf[7..]) == Ok([]);
    assert [OptionSelection("a", None)] + [] == [OptionSelection("a", None)];
  }

  lemma LargeEncodes()
    ensures EncodeOptions(LargeBook(), 7, 7, [OptionSelection("a", None)], 0)
            == Ok(ToBytes(0x20_0000_0000_0000, 7))
  {
    hide ToBytes, WellFormed, Pow;
    PowSeven();
    var s := OptionSelection("a", None);
    assert EncodeOption(LargeBook(), 7, 7, s, 0) == Ok(ToBytes(0x20_0000_0000_0000, 7));
    assert [s][1..] == [] && EncodeOptions(LargeBook(), 7, 7, [], 7) == Ok([]);
    assert ToBytes(0x20_0000_0000_0000, 7) + [] == ToBytes(0x20_0000_0000_0000, 7);
  }

  /** A code that is rounded: seven bytes that spell 2^53 + 1 are read as the option 2^53, and
      written back as 2^53. */
  lemma RoundedCode()
    ensures var buf := [0x20, 0, 0, 0, 0, 0, 1];
            && Tables([LargeOption()]) == LargeBook() && Distinct([LargeOption()])
            && DecodeOptions(LargeBook(), 7, buf) == Ok([OptionSelection("a", None)])
            && EncodeOptions(LargeBook(), 7, 7, [OptionSelection("a", None)], 0) == Ok([0x20, 0, 0, 0, 0, 0, 0])
            && !ExactFields(LargeBook(), 7, buf)
  {
    hide ReadNumber, BigEndian, ToBytes, Tables, DecodeOptions, EncodeOptions, ExactFields, Distinct;
    var buf: seq<byte> := [0x20, 0, 0, 0, 0, 0, 1];
    RoundedBytes();
    LargeTables();
    assert buf[0] != 0;
    LargeDecodes(buf);
    LargeEncodes();
  }

  lemma PowSeven()
    ensures Pow(256, 7) > 0x20_0000_0000_0000
  {
    assert Pow(256, 3) == 0x100_0000;
    PowAdd(256, 3, 3);
    PowAdd(256, 6, 1);
  }
}
