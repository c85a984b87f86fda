/** The byte array reader and writer, and the two codec loops over them. */
module ByteBuffers {
  import opened ByteCoding
  import opened ByteStrings
  import opened Congruence
  import opened JsNumber
  import opened Outcomes
  import opened Utf8

  class ByteArrayWriter {
    var pointer: nat
    const byteArray: array<byte>

    ghost predicate Valid()
      reads this, byteArray
    {
      pointer <= byteArray.Length && AllZero(byteArray[pointer..])
    }

    ghost function Written(): seq<byte>
      requires pointer <= byteArray.Length
      reads this, byteArray
    {
      byteArray[..pointer]
    }

    constructor (length: nat)
      ensures Valid() && fresh(byteArray) && byteArray.Length == length && Written() == []
    {
      pointer := 0;
      byteArray := new byte[length](_ => 0);
    }

    /** Appends the bytes, or fails without writing when they do not fit. */
    method Write(bytes: seq<byte>) returns (ok: bool)
      requires Valid()
      modifies this`pointer, byteArray
      ensures Valid() && ok == (old(pointer) + |bytes| <= byteArray.Length)
      ensures Written() == if ok then old(Written()) + bytes else old(Written())
    {
      if pointer + |bytes| > byteArray.Length { return false; }
      ghost var before := byteArray[..];
      forall i | 0 <= i < |bytes| {
        byteArray[pointer + i] := bytes[i];
      }
      assert byteArray[..pointer] == before[..pointer];
      assert byteArray[pointer..pointer + |bytes|] == bytes;
      assert byteArray[..pointer + |bytes|] == before[..pointer] + bytes;
      assert byteArray[pointer + |bytes|..] == before[pointer..][|bytes|..];
      pointer := pointer + |bytes|;
      return true;
    }

    /** Big-endian digits from the back; the remainder must come out zero. */
    method WriteInteger(length: nat, integer: int) returns (r: Result<(), CodingError>)
      requires Valid()
      modifies this`pointer, byteArray
      ensures Valid()
      ensures r == (if integer < 0 then Err(NegativeInteger)
                    else if integer >= Pow(256, length) then Err(IntegerTooLarge)
                    else if old(pointer) + length > byteArray.Length then Err(OutOfBounds)
                    else Ok(()))
      ensures Written() == old(Written()) + if r.Ok? then ToBytes(integer, length) else []
    {
      if integer < 0 { return Err(NegativeInteger); }
      var slice: seq<byte> := Zeros(length);
      var remainder := integer;
      var index := length - 1;
      while remainder > 0 && index >= 0
        invariant -1 <= index < length && |slice| == length && remainder >= 0
        invariant slice[..index + 1] == Zeros(index + 1)
        invariant ToBytes(integer, length) == ToBytes(remainder, index + 1) + slice[index + 1..]
        invariant integer >= Pow(256, length) <==> remainder >= Pow(256, index + 1)
        modifies {}
      {
        DigitStep(remainder, index + 1);
        assert slice[..index] == slice[..index + 1][..index];
        slice := slice[index := remainder % 256];
        assert slice[index..] == [remainder % 256] + slice[index + 1..];
        remainder := remainder / 256;
        index := index - 1;
      }
      if remainder != 0 {
        assert Pow(256, 0) == 1;
        return Err(IntegerTooLarge);
      }
      PowPositive(256, index + 1);
      BytesOfZero(index + 1);
      assert slice == ToBytes(integer, length);
      var ok := Write(slice);
      if !ok { return Err(OutOfBounds); }
      return Ok(());
    }

    /** The text, zero-padded to the given length. */
    method WriteString(length: nat, text: seq<byte>) returns (r: Result<(), CodingError>)
      requires Valid()
      modifies this`pointer, byteArray
      ensures Valid()
      ensures r == (if |text| > length then Err(TextTooLong)
                    else if old(pointer) + length > byteArray.Length then Err(OutOfBounds)
                    else Ok(()))
      ensures Written() == old(Written()) + if r.Ok? then PadTo(text, length) else []
    {
      if |text| > length { return Err(TextTooLong); }
      var ok := Write(text + Zeros(length - |text|));
      if !ok { return Err(OutOfBounds); }
      return Ok(());
    }
  }

  lemma DigitStep(v: nat, n: nat)
    requires n > 0
    ensures ToBytes(v, n) == ToBytes(v / 256, n - 1) + [v % 256]
    ensures v >= Pow(256, n) <==> v / 256 >= Pow(256, n - 1)
  {
  }

  lemma {:induction false} BytesOfZero(n: nat)
    ensures ToBytes(0, n) == Zeros(n)
  {
    if n > 0 {
      BytesOfZero(n - 1);
      assert Zeros(n) == Zeros(n - 1) + [0];
    } else {
      assert Zeros(0) == [];
    }
  }

  lemma AllZeroSnoc(s: seq<byte>, x: byte)
    ensures AllZero(s + [x]) <==> AllZero(s) && x == 0
  {
    if AllZero(s + [x]) {
      assert forall i :: 0 <= i < |s| ==> s[i] == (s + [x])[i];
      assert (s + [x])[|s|] == x;
    }
  }

  class ByteArrayReader {
    var pointer: nat
    const byteArray: seq<byte>

    ghost predicate Valid() reads this { pointer <= |byteArray| }

    ghost function Rest(): seq<byte>
      requires Valid()
      reads this
    {
      byteArray[pointer..]
    }

    constructor (bytes: seq<byte>)
      ensures Valid() && byteArray == bytes && Rest() == bytes
    {
      pointer := 0;
      byteArray := bytes;
    }

    /** The next bytes, or nothing and no movement when there are too few. */
    method Read(length: nat) returns (r: Option<seq<byte>>)
      requires Valid()
      modifies this
      ensures Valid() && (r.Some? <==> length <= |old(Rest())|)
      ensures r.Some? ==> r.value == old(Rest())[..length] && Rest() == old(Rest())[length..]
      ensures r.None? ==> Rest() == old(Rest())
    {
      if pointer + length > |byteArray| { return None; }
      var out := byteArray[pointer..pointer + length];
      assert byteArray[pointer..][length..] == byteArray[pointer + length..];
      pointer := pointer + length;
      return Some(out);
    }

    /** Whether any byte left is not zero. */
    method HasMore() returns (more: bool)
      requires Valid()
      ensures more == !AllZero(Rest())
    {
      var i := pointer;
      more := false;
      while i < |byteArray|
        invariant pointer <= i <= |byteArray|
        invariant more == !AllZero(byteArray[pointer..i])
      {
        AllZeroSnoc(byteArray[pointer..i], byteArray[i]);
        assert byteArray[pointer..i + 1] == byteArray[pointer..i] + [byteArray[i]];
        more := more || byteArray[i] != 0;
        i := i + 1;
      }
      assert byteArray[pointer..i] == byteArray[pointer..];
    }

    /** The sum over the bytes in doubles, rounded at each step. */
    method ReadInteger(size: nat) returns (r: Option<nat>)
      requires Valid()
      modifies this
      ensures Valid() && (r.Some? <==> size <= |old(Rest())|)
      ensures r.Some? ==> r.value == ReadNumber(old(Rest())[..size]) && Rest() == old(Rest())[size..]
      ensures r.None? ==> Rest() == old(Rest())
    {
      var bytes := Read(size);
      if bytes.None? { return None; }
      var sum: nat, i := 0, 0;
      while i < |bytes.value|
        invariant 0 <= i <= |bytes.value| && sum == ReadNumber(bytes.value[..i])
      {
        assert bytes.value[..i + 1][..i] == bytes.value[..i];
        sum := ToDouble(sum * 256 + bytes.value[i]);
        i := i + 1;
      }
      assert bytes.value[..i] == bytes.value;
      return Some(sum);
    }

    /** The decoded text of the next bytes, without trailing NULs. */
    method ReadString(size: nat) returns (r: Option<Text>)
      requires Valid()
      modifies this
      ensures Valid() && (r.Some? <==> size <= |old(Rest())|)
      ensures r.Some? ==> r.value == ReadText(old(Rest())[..size]) && Rest() == old(Rest())[size..]
      ensures r.None? ==> Rest() == old(Rest())
    {
      var bytes := Read(size);
      if bytes.None? { return None; }
      return Some(ReadText(bytes.value));
    }
  }

  /** contestSelectionToByteArray. */
  method ContestSelectionToByteArray(c: ContestConfig, s: ContestSelection)
    returns (r: Result<seq<byte>, CodingError>)
    ensures r == EncodeSelection(c, s)
  {
    hide EncodeOption, Tables, FlattenOptions, EncodeOptions;
    if c.reference != s.reference { return Err(WrongContest); }
    var b := Tables(FlattenOptions(c.options));
    var writer := new ByteArrayWriter(c.maxSize);
    var e := WriteOptions(writer, b, c.codeSize, s.optionSelections);
    if e.Some? { return Err(e.value); }
    ZeroRest(writer.byteArray[..], writer.pointer);
    assert writer.byteArray[..][..writer.pointer] == writer.Written();
    assert writer.byteArray[..][writer.pointer..] == writer.byteArray[writer.pointer..];
    return Ok(writer.byteArray[..]);
  }

  /** The encoder's forEach; the first error thrown, if any. */
  method WriteOptions(writer: ByteArrayWriter, b: Codebook, codeSize: nat, ss: seq<OptionSelection>)
    returns (e: Option<CodingError>)
    requires writer.Valid() && writer.pointer == 0
    modifies writer`pointer, writer.byteArray
    ensures writer.Valid()
    ensures var r := EncodeOptions(b, codeSize, writer.byteArray.Length, ss, 0);
            match e
            case Some(x) => r == Err(x)
            case None => r == Ok(writer.Written())
  {
    hide EncodeOption, EncodeOptions;
    ghost var maxSize := writer.byteArray.Length;
    ghost var whole := EncodeOptions(b, codeSize, maxSize, ss, 0);
    assert ss[0..] == ss;
    PrependEmpty(whole);
    var i := 0;
    while i < |ss|
      invariant 0 <= i <= |ss| && writer.Valid()
      invariant whole == Prepend(writer.Written(), EncodeOptions(b, codeSize, maxSize, ss[i..], writer.pointer))
    {
      EncodeStep(b, codeSize, maxSize, ss, i, writer.pointer);
      ghost var done := writer.Written();
      ghost var head := EncodeOption(b, codeSize, maxSize, ss[i], writer.pointer);
      e := WriteOption(writer, b, codeSize, ss[i]);
      if e.Some? { return; }
      PrependTwice(done, head.value, EncodeOptions(b, codeSize, maxSize, ss[i + 1..], writer.pointer));
      i := i + 1;
    }
    assert ss[i..] == [];
    NothingLeft(b, codeSize, maxSize, writer.Written(), writer.pointer);
    return None;
  }

  function Prepend(done: seq<byte>, r: Result<seq<byte>, CodingError>): Result<seq<byte>, CodingError> {
    match r
    case Err(e) => Err(e)
    case Ok(rest) => Ok(done + rest)
  }

  lemma NothingLeft(b: Codebook, codeSize: nat, maxSize: nat, done: seq<byte>, used: nat)
    requires used <= maxSize
    ensures Prepend(done, EncodeOptions(b, codeSize, maxSize, [], used)) == Ok(done)
  {
    assert done + [] == done;
  }

  lemma ZeroRest(bytes: seq<byte>, n: nat)
    requires n <= |bytes|
    ensures AllZero(bytes[n..]) ==> bytes == bytes[..n] + Zeros(|bytes| - n)
  {
    if AllZero(bytes[n..]) { assert bytes[n..] == Zeros(|bytes| - n); }
  }

  lemma PrependEmpty(r: Result<seq<byte>, CodingError>)
    ensures Prepend([], r) == r
  {
    if r.Ok? { assert [] + r.value == r.value; }
  }

  lemma PrependTwice(a: seq<byte>, b: seq<byte>, r: Result<seq<byte>, CodingError>)
    ensures Prepend(a, Prepend(b, r)) == Prepend(a + b, r)
  {
    if r.Ok? { assert a + (b + r.value) == a + b + r.value; }
  }

  lemma EncodeStep(b: Codebook, codeSize: nat, maxSize: nat, ss: seq<OptionSelection>, i: nat, used: nat)
    requires i < |ss| && used <= maxSize
    ensures var head := EncodeOption(b, codeSize, maxSize, ss[i], used);
            EncodeOptions(b, codeSize, maxSize, ss[i..], used)
            == (match head
                case Err(e) => Err(e)
                case Ok(h) => Prepend(h, EncodeOptions(b, codeSize, maxSize, ss[i + 1..], used + |h|)))
  {
    assert ss[i..][1..] == ss[i + 1..];
  }

  /** The body of the encoder's forEach; the error thrown, if any. */
  method WriteOption(writer: ByteArrayWriter, b: Codebook, codeSize: nat, s: OptionSelection)
    returns (e: Option<CodingError>)
    requires writer.Valid()
    modifies writer`pointer, writer.byteArray
    ensures writer.Valid()
    ensures var r := EncodeOption(b, codeSize, writer.byteArray.Length, s, old(writer.pointer));
            && (e.None? <==> r.Ok?)
            && (r.Err? ==> e == Some(r.error))
            && (r.Ok? ==> writer.Written() == old(writer.Written()) + r.value)
  {
    if s.reference !in b.codes || b.codes[s.reference] == 0 { return Some(OptionNotFound); }
    if s.reference in b.writeIns && !b.writeIns[s.reference].utf8 { return Some(UnsupportedEncoding); }
    var w := writer.WriteInteger(codeSize, b.codes[s.reference]);
    if w.Err? { return Some(w.error); }
    if s.reference in b.writeIns {
      var t := writer.WriteString(b.writeIns[s.reference].maxSize, TextOf(s));
      if t.Err? { return Some(t.error); }
    }
    return None;
  }

  function Followed(done: seq<OptionSelection>, r: Result<seq<OptionSelection>, CodingError>)
    : Result<seq<OptionSelection>, CodingError>
  {
    match r
    case Err(e) => Err(e)
    case Ok(rest) => Ok(done + rest)
  }

  lemma FollowedEmpty(r: Result<seq<OptionSelection>, CodingError>)
    ensures Followed([], r) == r
  {
    if r.Ok? { assert [] + r.value == r.value; }
  }

  lemma FollowedTwice(a: seq<OptionSelection>, s: OptionSelection, r: Result<seq<OptionSelection>, CodingError>)
    ensures Followed(a, Followed([s], r)) == Followed(a + [s], r)
  {
    if r.Ok? { assert a + ([s] + r.value) == a + [s] + r.value; }
  }

  /** byteArrayToContestSelection; the reader loop ends on every input. */
  method ByteArrayToContestSelection(c: ContestConfig, bytes: seq<byte>)
    returns (r: Result<ContestSelection, CodingError>)
    ensures r == DecodeSelection(c, bytes)
  {
    var b := Tables(FlattenOptions(c.options));
    var reader := new ByteArrayReader(bytes);
    var selections: seq<OptionSelection> := [];
    ghost var whole := DecodeOptions(b, c.codeSize, bytes);
    FollowedEmpty(whole);
    var more := reader.HasMore();
    while more
      invariant reader.Valid() && fresh(reader) && more == !AllZero(reader.Rest())
      invariant whole == Followed(selections, DecodeOptions(b, c.codeSize, reader.Rest()))
      decreases |reader.Rest()|, more
    {
      var s := ReadOption(reader, b, c.codeSize);
      if s.Err? { return Err(s.error); }
      FollowedTwice(selections, s.value, DecodeOptions(b, c.codeSize, reader.Rest()));
      selections := selections + [s.value];
      more := reader.HasMore();
    }
    assert selections + [] == selections;
    return Ok(ContestSelection(c.reference, selections));
  }

  /** The body of the decoder's while. */
  method ReadOption(reader: ByteArrayReader, b: Codebook, codeSize: nat)
    returns (r: Result<OptionSelection, CodingError>)
    requires reader.Valid()
    modifies reader
    ensures reader.Valid()
    ensures var d := DecodeOption(b, codeSize, old(reader.Rest()));
            && (r.Ok? <==> d.Ok?)
            && (d.Err? ==> r == Err(d.error))
            && (d.Ok? ==> r.value == d.value.0 && reader.Rest() == old(reader.Rest())[d.value.1..])
  {
    ghost var buf := reader.Rest();
    var code := reader.ReadInteger(codeSize);
    if code.None? { return Err(OutOfBounds); }
    if code.value == 0 { return Err(UnexpectedBytes); }
    if code.value !in b.references || b.references[code.value] == "" { return Err(UnexpectedCode); }
    var reference := b.references[code.value];
    if reference in b.writeIns {
      var size := b.writeIns[reference].maxSize;
      var text := reader.ReadString(size);
      if text.None? { return Err(OutOfBounds); }
      assert buf[codeSize..][..size] == buf[codeSize..codeSize + size];
      assert buf[codeSize..][size..] == buf[codeSize + size..];
      return Ok(OptionSelection(reference, Some(text.value)));
    }
    return Ok(OptionSelection(reference, None));
  }
}
