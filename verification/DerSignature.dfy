// ECDSA signatures: the DER form (section 2.2.3 of RFC 3279) as the agent's test helper `der` prints
// it, and the parser of the issuer script that turns it into the raw form of section 3.4 of RFC 7518.
module DerSignature {
  import opened Basics
  import opened BigEndian

  const HALF: nat := 32

  // ---- the parser

  datatype Failure = NotSequence | NotInteger | IndexError | OverflowError

  // Python's slice: the bounds are clamped to the data.
  function Slice(data: seq<byte>, from: nat, to: nat): seq<byte>
    requires from <= to
  {
    data[Min(from, |data|)..Min(to, |data|)]
  }

  // A length and the offset after it.
  datatype Field = Field(length: nat, next: nat)

  function DerLength(data: seq<byte>, offset: nat): Result<Field, Failure> {
    if offset >= |data| then Err(IndexError)
    else
      var first := data[offset];
      if first < 0x80 then Ok(Field(first, offset + 1))
      else
        var count := first - 0x80;
        Ok(Field(FromBytes(Slice(data, offset + 1, offset + 1 + count)), offset + 1 + count))
  }

  datatype Half = Half(bytes: seq<byte>, next: nat)

  // One round of the loop: an integer, as 32 bytes, and the offset after it.
  function DerInteger(data: seq<byte>, offset: nat): Result<Half, Failure> {
    if offset >= |data| then Err(IndexError)
    else if data[offset] != 0x02 then Err(NotInteger)
    else match DerLength(data, offset + 1)
      case Err(failure) => Err(failure)
      case Ok(Field(length, next)) =>
        var value := FromBytes(Slice(data, next, next + length));
        if value >= Power256(HALF) then Err(OverflowError) else Ok(Half(ToBytes(value, HALF), next + length))
  }

  function ParseDer(data: seq<byte>): Result<seq<byte>, Failure> {
    if data == [] then Err(IndexError)
    else if data[0] != 0x30 then Err(NotSequence)
    else match DerLength(data, 1)
      case Err(failure) => Err(failure)
      case Ok(Field(_, offset)) =>
        match DerInteger(data, offset)
        case Err(failure) => Err(failure)
        case Ok(Half(r, next)) =>
          match DerInteger(data, next)
          case Err(failure) => Err(failure)
          case Ok(Half(s, _)) => Ok(r + s)
  }

  // der_to_raw; an exception is an Err.
  method DerToRaw(data: seq<byte>) returns (raw: Result<seq<byte>, Failure>)
    ensures raw == ParseDer(data)
    ensures raw.Ok? ==> |raw.value| == 64
  {
    if data == [] {
      return Err(IndexError);
    }
    if data[0] != 0x30 {
      return Err(NotSequence);
    }
    var outer := DerLength(data, 1);
    if outer.Err? {
      return Err(outer.error);
    }
    var offset: nat := outer.value.next;
    var halves: seq<byte> := [];
    for round := 0 to 2
      invariant round == 0 ==> offset == outer.value.next && halves == []
      invariant round == 1 ==> DerInteger(data, outer.value.next) == Ok(Half(halves, offset))
      invariant round == 2 ==> ParseDer(data) == Ok(halves)
      invariant |halves| == HALF * round
    {
      match DerInteger(data, offset) {
        case Err(failure) =>
          return Err(failure);
        case Ok(Half(bytes, next)) =>
          assert [] + bytes == bytes;
          halves := halves + bytes;
          offset := next;
      }
    }
    raw := Ok(halves);
  }

  // ---- the printer

  function SkipZeros(s: seq<byte>): seq<byte> {
    if s != [] && s[0] == 0 then SkipZeros(s[1..]) else s
  }

  function Contents(half: seq<byte>): seq<byte> {
    var trimmed := SkipZeros(half);
    (if trimmed != [] && trimmed[0] >= 0x80 then [0] else []) + trimmed
  }

  // `as u8` on a length truncates.
  function AsByte(n: nat): byte { n % 256 }

  function PrintInteger(half: seq<byte>): seq<byte> {
    [2, AsByte(|Contents(half)|)] + Contents(half)
  }

  function PrintDer(raw: seq<byte>): seq<byte>
    requires |raw| >= 32
  {
    var body := PrintInteger(raw[..32]) + PrintInteger(raw[32..]);
    [0x30, AsByte(|body|)] + body
  }

  predicate IsZero(s: seq<byte>) { forall i | 0 <= i < |s| :: s[i] == 0 }

  lemma {:induction false} SkipZerosExact(s: seq<byte>)
    ensures |SkipZeros(s)| <= |s|
    ensures s == seq(|s| - |SkipZeros(s)|, i => 0) + SkipZeros(s)
    ensures SkipZeros(s) == [] || SkipZeros(s)[0] != 0
    ensures SkipZeros(s) == [] <==> IsZero(s)
  {
    if s != [] && s[0] == 0 {
      SkipZerosExact(s[1..]);
      assert s == [s[0]] + s[1..];
    }
  }

  lemma ContentsShort(half: seq<byte>)
    requires |half| == HALF
    ensures |Contents(half)| <= 33 && (Contents(half) == [] <==> IsZero(half))
  {
    SkipZerosExact(half);
  }

  lemma ContentsValue(half: seq<byte>)
    ensures FromBytes(Contents(half)) == FromBytes(SkipZeros(half))
  {
    ZeroInFront(SkipZeros(half));
    assert [] + SkipZeros(half) == SkipZeros(half);
  }

  lemma ContentsExact(half: seq<byte>)
    requires |half| == HALF
    ensures FromBytes(Contents(half)) < Power256(HALF) && ToBytes(FromBytes(Contents(half)), HALF) == half
  {
    var trimmed := SkipZeros(half);
    SkipZerosExact(half);
    ContentsValue(half);
    hide SkipZeros, Contents, FromBytes, ToBytes, Power256;
    Padded(trimmed, HALF);
  }

  // ---- both ways

  // Two integers with these contents in a sequence, all lengths in the short form.
  function Sequence(c: seq<byte>, d: seq<byte>): seq<byte>
    requires |c| <= 33 && |d| <= 33
  {
    [0x30, 4 + |c| + |d|, 2, |c|] + c + [2, |d|] + d
  }

  lemma SequenceLayout(c: seq<byte>, d: seq<byte>)
    requires |c| <= 33 && |d| <= 33
    ensures var data, n := Sequence(c, d), 4 + |c|;
            && |data| == n + 2 + |d| && data[0] == 0x30 && data[1] == n + |d|
            && data[2] == 2 && data[3] == |c| && data[4..4 + |c|] == c
            && data[n] == 2 && data[n + 1] == |d| && data[n + 2..n + 2 + |d|] == d
  {
  }

  lemma IntegerAt(data: seq<byte>, offset: nat, c: seq<byte>)
    requires |c| <= 33 && FromBytes(c) < Power256(HALF)
    requires offset + 2 + |c| <= |data|
    requires data[offset] == 2 && data[offset + 1] == |c| && data[offset + 2..offset + 2 + |c|] == c
    ensures DerInteger(data, offset) == Ok(Half(ToBytes(FromBytes(c), HALF), offset + 2 + |c|))
  {
    hide FromBytes, ToBytes, Power256;
    assert DerLength(data, offset + 1) == Ok(Field(|c|, offset + 2));
    assert Slice(data, offset + 2, offset + 2 + |c|) == c;
  }

  lemma SequenceParses(c: seq<byte>, d: seq<byte>)
    requires |c| <= 33 && |d| <= 33 && FromBytes(c) < Power256(HALF) && FromBytes(d) < Power256(HALF)
    ensures ParseDer(Sequence(c, d)) == Ok(ToBytes(FromBytes(c), HALF) + ToBytes(FromBytes(d), HALF))
  {
    var data := Sequence(c, d);
    SequenceLayout(c, d);
    IntegerAt(data, 2, c);
    IntegerAt(data, 4 + |c|, d);
    assert DerLength(data, 1) == Ok(Field(data[1], 2));
  }

  lemma PrintIntegerExact(half: seq<byte>)
    requires |half| == HALF
    ensures |Contents(half)| <= 33
    ensures PrintInteger(half) == [2, |Contents(half)|] + Contents(half)
  {
    ContentsShort(half);
  }

  lemma SequenceFromParts(a: seq<byte>, b: seq<byte>, c: seq<byte>, d: seq<byte>)
    requires |c| <= 33 && |d| <= 33 && a == [2, |c|] + c && b == [2, |d|] + d
    ensures [0x30, AsByte(|a + b|)] + (a + b) == Sequence(c, d)
  {
  }

  // The printer never needs the long form, and no length is truncated.
  lemma PrintIsSequence(raw: seq<byte>)
    requires |raw| == 64
    ensures |Contents(raw[..32])| <= 33 && |Contents(raw[32..])| <= 33
    ensures PrintDer(raw) == Sequence(Contents(raw[..32]), Contents(raw[32..]))
    ensures |PrintDer(raw)| <= 72 && PrintDer(raw)[1] <= 70
  {
    PrintIntegerExact(raw[..32]);
    PrintIntegerExact(raw[32..]);
    SequenceFromParts(PrintInteger(raw[..32]), PrintInteger(raw[32..]), Contents(raw[..32]), Contents(raw[32..]));
    SequenceLayout(Contents(raw[..32]), Contents(raw[32..]));
  }

  // Parsing undoes printing, for every raw signature: leading zeros, set high bits and zero halves included.
  lemma ParsePrint(raw: seq<byte>)
    requires |raw| == 64
    ensures ParseDer(PrintDer(raw)) == Ok(raw)
  {
    hide ParseDer, PrintDer, Sequence, Contents, ToBytes, FromBytes, Power256;
    PrintIsSequence(raw);
    ContentsExact(raw[..32]);
    ContentsExact(raw[32..]);
    SequenceParses(Contents(raw[..32]), Contents(raw[32..]));
    assert raw == raw[..32] + raw[32..];
  }

  // DER's encoding of a positive integer of at most 256 bits: no sign bit, no superfluous zero.
  ghost predicate Minimal(c: seq<byte>) {
    && c != [] && c[0] < 0x80
    && (c[0] == 0 ==> |c| > 1 && c[1] >= 0x80)
    && (|c| <= 32 || (|c| == 33 && c[0] == 0))
  }

  ghost predicate Canonical(data: seq<byte>) {
    exists c, d :: Minimal(c) && Minimal(d) && data == Sequence(c, d)
  }

  // A minimal integer is what the printer makes of its value.
  lemma MinimalPrints(c: seq<byte>)
    requires Minimal(c)
    ensures FromBytes(c) < Power256(HALF) && Contents(ToBytes(FromBytes(c), HALF)) == c
  {
    var trimmed := if c[0] == 0 then c[1..] else c;
    assert c[0] == 0 ==> c == [0] + trimmed;
    ZeroInFront(trimmed);
    hide FromBytes, ToBytes, Power256, SkipZeros;
    Padded(trimmed, HALF);
    SkipsPadding(32 - |trimmed|, trimmed);
  }

  lemma {:induction false} SkipsPadding(n: nat, s: seq<byte>)
    requires s != [] && s[0] != 0
    ensures SkipZeros(seq(n, i => 0) + s) == s
  {
    var padded := seq<byte>(n, i => 0) + s;
    if n == 0 {
      assert padded == s;
    } else {
      assert padded[1..] == seq<byte>(n - 1, i => 0) + s;
      SkipsPadding(n - 1, s);
    }
  }

  // Printing undoes parsing on canonical DER.
  lemma PrintParse(data: seq<byte>)
    requires Canonical(data)
    ensures ParseDer(data).Ok? && |ParseDer(data).value| == 64 && PrintDer(ParseDer(data).value) == data
  {
    var c, d :| Minimal(c) && Minimal(d) && data == Sequence(c, d);
    MinimalPrints(c);
    MinimalPrints(d);
    SequenceParses(c, d);
    var raw := ToBytes(FromBytes(c), HALF) + ToBytes(FromBytes(d), HALF);
    assert raw[..32] == ToBytes(FromBytes(c), HALF) && raw[32..] == ToBytes(FromBytes(d), HALF);
    PrintIsSequence(raw);
  }

  lemma ContentsMinimal(half: seq<byte>)
    requires |half| == 32
    ensures Minimal(Contents(half)) <==> !IsZero(half)
  {
    SkipZerosExact(half);
    ContentsShort(half);
  }

  // What is printed is canonical exactly if neither half is zero: a zero half is printed without contents.
  lemma PrintCanonical(raw: seq<byte>)
    requires |raw| == 64
    ensures Canonical(PrintDer(raw)) <==> !IsZero(raw[..32]) && !IsZero(raw[32..])
  {
    PrintIsSequence(raw);
    ContentsMinimal(raw[..32]);
    ContentsMinimal(raw[32..]);
    var a, b := Contents(raw[..32]), Contents(raw[32..]);
    if Canonical(PrintDer(raw)) {
      var c, d :| Minimal(c) && Minimal(d) && PrintDer(raw) == Sequence(c, d);
      SequenceLayout(c, d);
      SequenceLayout(a, b);
      ContentsShort(raw[..32]);
      ContentsShort(raw[32..]);
    }
  }

  // ---- what else the parser takes

  // A length in either form of section 8.1.3 of X.690: one byte, or a count and so many bytes.
  ghost predicate LengthForm(bytes: seq<byte>, n: nat) {
    || (n < 0x80 && bytes == [n])
    || exists count: nat :: count < 0x80 && n < Power256(count) && bytes == [0x80 + count] + ToBytes(n, count)
  }

  // A part of the data.
  ghost predicate Stands(data: seq<byte>, offset: nat, part: seq<byte>) {
    offset + |part| <= |data| && data[offset..offset + |part|] == part
  }

  lemma StandsBoth(data: seq<byte>, offset: nat, a: seq<byte>, b: seq<byte>)
    requires Stands(data, offset, a + b)
    ensures Stands(data, offset, a) && Stands(data, offset + |a|, b)
  {
    var all := data[offset..offset + |a + b|];
    assert all[..|a|] == a && all[|a|..] == b;
    assert data[offset..offset + |a|] == all[..|a|] && data[offset + |a|..offset + |a| + |b|] == all[|a|..];
  }

  lemma StandsOne(data: seq<byte>, offset: nat, b: byte)
    requires Stands(data, offset, [b])
    ensures data[offset] == b
  {
    assert data[offset] == data[offset..offset + 1][0];
  }

  lemma StandsAll(data: seq<byte>)
    ensures Stands(data, 0, data)
  {
  }

  lemma SliceStands(data: seq<byte>, offset: nat, part: seq<byte>)
    requires Stands(data, offset, part)
    ensures Slice(data, offset, offset + |part|) == part && offset + |part| <= |data|
  {
  }

  lemma LongLengthReads(data: seq<byte>, offset: nat, count: nat, n: nat)
    requires offset < |data| && count < 0x80 && n < Power256(count)
    requires data[offset] == 0x80 + count && Stands(data, offset + 1, ToBytes(n, count))
    ensures DerLength(data, offset) == Ok(Field(n, offset + 1 + count))
  {
    ValueExact(n, count);
    SliceStands(data, offset + 1, ToBytes(n, count));
    hide ToBytes, FromBytes, Power256, Slice, Stands;
  }

  lemma LengthReads(data: seq<byte>, offset: nat, bytes: seq<byte>, n: nat)
    requires LengthForm(bytes, n) && Stands(data, offset, bytes)
    ensures DerLength(data, offset) == Ok(Field(n, offset + |bytes|))
  {
    hide Stands, ToBytes, Power256;
    if n < 0x80 && bytes == [n] {
      StandsOne(data, offset, n);
      StandsInside(data, offset, bytes);
    } else {
      hide DerLength;
      var count: nat :| count < 0x80 && n < Power256(count) && bytes == [0x80 + count] + ToBytes(n, count);
      StandsBoth(data, offset, [0x80 + count], ToBytes(n, count));
      StandsOne(data, offset, 0x80 + count);
      StandsInside(data, offset, bytes);
      LongLengthReads(data, offset, count, n);
    }
  }

  lemma StandsInside(data: seq<byte>, offset: nat, part: seq<byte>)
    requires Stands(data, offset, part)
    ensures offset + |part| <= |data|
  {
  }

  // An integer with any contents and either form of its length.
  ghost predicate IntegerForm(bytes: seq<byte>, contents: seq<byte>) {
    exists length :: LengthForm(length, |contents|) && bytes == [2] + (length + contents)
  }

  // What becomes of an integer with these contents, the next one at `next`.
  ghost function Value(contents: seq<byte>, next: nat): Result<Half, Failure> {
    if FromBytes(contents) < Power256(HALF) then Ok(Half(ToBytes(FromBytes(contents), HALF), next))
    else Err(OverflowError)
  }

  lemma IntegerParts(data: seq<byte>, offset: nat, next: nat, contents: seq<byte>)
    requires offset < |data| && data[offset] == 2 && DerLength(data, offset + 1) == Ok(Field(|contents|, next))
    requires Stands(data, next, contents)
    ensures DerInteger(data, offset) == Value(contents, next + |contents|)
  {
    SliceStands(data, next, contents);
    hide DerLength, ToBytes, FromBytes, Power256, Stands, Slice;
  }

  lemma IntegerReads(data: seq<byte>, offset: nat, bytes: seq<byte>, contents: seq<byte>)
    requires IntegerForm(bytes, contents) && Stands(data, offset, bytes)
    ensures DerInteger(data, offset) == Value(contents, offset + |bytes|)
  {
    hide DerLength, DerInteger, Stands, LengthForm, Value;
    var length :| LengthForm(length, |contents|) && bytes == [2] + (length + contents);
    StandsInside(data, offset, bytes);
    StandsBoth(data, offset, [2], length + contents);
    StandsOne(data, offset, 2);
    StandsBoth(data, offset + 1, length, contents);
    LengthReads(data, offset + 1, length, |contents|);
    IntegerParts(data, offset, offset + 1 + |length|, contents);
  }

  lemma SequenceReads(data: seq<byte>, n: nat, first: nat, c: seq<byte>, second: nat, d: seq<byte>, end: nat)
    requires data != [] && data[0] == 0x30 && DerLength(data, 1) == Ok(Field(n, first))
    requires DerInteger(data, first) == Value(c, second) && DerInteger(data, second) == Value(d, end)
    ensures ParseDer(data) ==
            if FromBytes(c) < Power256(HALF) && FromBytes(d) < Power256(HALF)
            then Ok(ToBytes(FromBytes(c), HALF) + ToBytes(FromBytes(d), HALF))
            else Err(OverflowError)
  {
    hide DerLength, DerInteger, ToBytes, FromBytes, Power256;
  }

  // The parser is no check of DER: it takes any length of the sequence, either form of a length, any
  // leading zeros, and any bytes behind, and refuses a value only if it does not fit into 32 bytes.
  lemma ParseAnyForm(length: seq<byte>, n: nat, r: seq<byte>, c: seq<byte>, s: seq<byte>, d: seq<byte>, rest: seq<byte>)
    requires LengthForm(length, n) && IntegerForm(r, c) && IntegerForm(s, d)
    ensures ParseDer([0x30] + (length + (r + (s + rest)))) ==
            if FromBytes(c) < Power256(HALF) && FromBytes(d) < Power256(HALF)
            then Ok(ToBytes(FromBytes(c), HALF) + ToBytes(FromBytes(d), HALF))
            else Err(OverflowError)
  {
    hide LengthForm, IntegerForm, DerLength, DerInteger, ParseDer, ToBytes, FromBytes, Power256, Stands, Value;
    var data := [0x30] + (length + (r + (s + rest)));
    var first, second := 1 + |length|, 1 + |length| + |r|;
    StandsAll(data);
    StandsBoth(data, 0, [0x30], length + (r + (s + rest)));
    StandsBoth(data, 1, length, r + (s + rest));
    StandsBoth(data, first, r, s + rest);
    StandsBoth(data, second, s, rest);
    LengthReads(data, 1, length, n);
    IntegerReads(data, first, r, c);
    IntegerReads(data, second, s, d);
    SequenceReads(data, n, first, c, second, d, second + |s|);
  }

  // The other exceptions: data that ends before a tag or a length, and a wrong tag.
  lemma ParseFailures(data: seq<byte>, offset: nat)
    ensures ParseDer(data) == Err(NotSequence) <==> data != [] && data[0] != 0x30
    ensures data == [] ==> ParseDer(data) == Err(IndexError)
    ensures DerInteger(data, offset) == Err(NotInteger) <==> offset < |data| && data[offset] != 2
    ensures DerInteger(data, offset) == Err(IndexError) <==>
            offset >= |data| || (data[offset] == 2 && offset + 1 == |data|)
    ensures DerLength(data, offset) == Err(IndexError) <==> offset >= |data|
  {
    hide FromBytes, ToBytes, Power256, Slice;
  }
}
