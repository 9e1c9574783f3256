// The top-level box walk of tests/lib/media-metrics.sh and its faststart test (section 4.2 of
// ISO/IEC 14496-12). Shell arithmetic wraps at 64 bits; text is one char a byte.
module MovieBoxes {
  import opened Basics
  import opened BigEndian

  const INT64_LIMIT: int := 0x8000_0000_0000_0000

  // $(( )) of bash, for an int64 value plus a size.
  function Wrap(x: int): int
    requires -INT64_LIMIT <= x < 2 * INT64_LIMIT
  {
    if x >= INT64_LIMIT then x - 2 * INT64_LIMIT else x
  }

  // The int64 with the same lower 64 bits.
  lemma WrapExact(x: int)
    requires -INT64_LIMIT <= x < 2 * INT64_LIMIT
    ensures -INT64_LIMIT <= Wrap(x) < INT64_LIMIT && Wrap(x) % U64_LIMIT == x % U64_LIMIT
  {
  }

  function Ahead(file: seq<byte>, offset: int): nat {
    if offset < 0 || offset > |file| then 0 else |file| + 1 - offset
  }

  // dd bs=1 skip=offset count=n: nothing for a bad offset, and what there is at the end of the file.
  function ReadAt(file: seq<byte>, offset: int, n: nat): (bytes: seq<byte>)
    ensures |bytes| <= n
  {
    if offset < 0 || offset >= |file| then [] else file[offset..Min(offset + n, |file|)]
  }

  function AppendZeros(v: nat, n: nat): nat
    decreases n
  {
    if n == 0 then v else AppendZeros(v * 256, n - 1)
  }

  // od -tu: empty for no input; a short last block is filled with zero bytes.
  function Number(s: seq<byte>, width: nat): Option<nat>
    requires |s| <= width
  {
    if s == [] then None else Some(AppendZeros(FromBytes(s), width - |s|))
  }

  lemma {:induction false} ZerosBehind(s: seq<byte>, n: nat)
    ensures FromBytes(s + seq(n, i => 0)) == AppendZeros(FromBytes(s), n)
    decreases n
  {
    if n == 0 {
      assert s + seq<byte>(0, i => 0) == s;
    } else {
      assert (s + [0])[..|s|] == s;
      ZerosBehind(s + [0], n - 1);
      assert s + [0] + seq<byte>(n - 1, i => 0) == s + seq<byte>(n, i => 0);
    }
  }

  // What od prints of one block: the number of its bytes and the zero bytes that fill it.
  lemma NumberExact(s: seq<byte>, width: nat)
    requires |s| <= width
    ensures Number(s, width) == if s == [] then None else Some(FromBytes(s + seq(width - |s|, i => 0)))
  {
    ZerosBehind(s, width - |s|);
  }

  // tr -cd '[:print:]'
  function Printable(s: seq<byte>): string {
    if s == [] then ""
    else Printable(s[..|s| - 1]) + if 32 <= s[|s| - 1] < 127 then [s[|s| - 1] as char] else []
  }

  function TypeAt(file: seq<byte>, offset: int): string { Printable(ReadAt(file, offset + 4, 4)) }

  // The size of the box at an offset as the script computes it; None stops the walk.
  function SizeAt(file: seq<byte>, offset: int, small: nat): Option<nat> {
    if small == 0 then None
    else
      var size := if small == 1 then Number(ReadAt(file, offset + 8, 8), 8) else Some(small);
      // test(1) fails on a number that is not an int64
      if size.None? || size.value < 8 || size.value >= INT64_LIMIT then None else size
  }

  // The walk over mathematical integers: the words it echoes from an offset on. Every step but the
  // last advances by at least 8.
  function Walk(file: seq<byte>, offset: int): seq<string>
    decreases Ahead(file, offset)
  {
    var small := Number(ReadAt(file, offset, 4), 4);
    if offset + 8 > |file| || small.None? then []
    else
      [TypeAt(file, offset)] +
      match SizeAt(file, offset, small.value)
      case None => []
      case Some(size) => Walk(file, offset + size)
  }

  // Where the walk ends for want of bytes; None if a size ends it.
  function Stop(file: seq<byte>, offset: int): Option<int>
    decreases Ahead(file, offset)
  {
    var small := Number(ReadAt(file, offset, 4), 4);
    if offset + 8 > |file| || small.None? then Some(offset)
    else match SizeAt(file, offset, small.value)
      case None => None
      case Some(size) => Stop(file, offset + size)
  }

  // The script adds before it compares. For bytes left over in the last 8 offsets of int64 the sum
  // wraps, the comparison succeeds, and one more word is echoed.
  function Stray(file: seq<byte>, offset: int): seq<string> {
    match Stop(file, offset)
    case Some(end) => if INT64_LIMIT - 8 <= end < |file| then [TypeAt(file, end)] else []
    case None => []
  }

  function Echoed(file: seq<byte>, offset: int): seq<string> { Walk(file, offset) + Stray(file, offset) }

  // An address that wraps around is negative, and nothing is read there, as past the end of the file.
  lemma WrapReads(file: seq<byte>, x: int, n: nat)
    requires |file| < INT64_LIMIT && -INT64_LIMIT <= x < 2 * INT64_LIMIT
    ensures ReadAt(file, Wrap(x), n) == ReadAt(file, x, n)
  {
  }

  lemma NothingThere(file: seq<byte>, offset: int)
    requires ReadAt(file, offset, 4) == []
    ensures Echoed(file, offset) == []
  {
  }

  // What one round of the shell loop sees, although its arithmetic wraps.
  lemma RoundSees(file: seq<byte>, offset: int)
    requires |file| < INT64_LIMIT && -INT64_LIMIT <= offset < INT64_LIMIT
    ensures var small := Number(ReadAt(file, offset, 4), 4);
            if Wrap(offset + 8) > |file| || small.None? then Echoed(file, offset) == []
            else
              && 0 <= offset < |file|
              && Echoed(file, offset) == [TypeAt(file, offset)] +
                                         match SizeAt(file, offset, small.value)
                                         case None => []
                                         case Some(size) => Echoed(file, offset + size)
  {
    hide AppendZeros, FromBytes, TypeAt;
    var small := Number(ReadAt(file, offset, 4), 4);
    if small.Some? && offset + 8 >= INT64_LIMIT && SizeAt(file, offset, small.value).Some? {
      NothingThere(file, offset + SizeAt(file, offset, small.value).value);
    }
  }

  lemma WrapGoesOn(file: seq<byte>, offset: nat, size: nat)
    requires |file| < INT64_LIMIT && offset < |file| && 8 <= size < INT64_LIMIT
    ensures Echoed(file, Wrap(offset + size)) == Echoed(file, offset + size)
    ensures Ahead(file, Wrap(offset + size)) < Ahead(file, offset)
  {
    if offset + size >= INT64_LIMIT {
      WrapReads(file, offset + size, 4);
      NothingThere(file, offset + size);
      NothingThere(file, Wrap(offset + size));
    }
  }

  lemma Regroup(a: seq<string>, b: seq<string>, c: seq<string>)
    ensures a + (b + c) == a + b + c
  {
  }

  // mp4_top_level_boxes, with wrapping arithmetic, on any file whose size is an int64.
  method TopLevelBoxes(file: seq<byte>) returns (words: seq<string>)
    requires |file| < INT64_LIMIT
    ensures words == Walk(file, 0) + Stray(file, 0)
  {
    hide Echoed, Number, ReadAt, Printable, Ahead;
    words := [];
    var offset := 0;
    RoundSees(file, offset);
    while Wrap(offset + 8) <= |file|
      invariant -INT64_LIMIT <= offset < INT64_LIMIT
      invariant words + Echoed(file, offset) == Echoed(file, 0)
      invariant Wrap(offset + 8) > |file| ==> Echoed(file, offset) == []
      decreases Ahead(file, offset)
    {
      RoundSees(file, offset);
      WrapReads(file, offset + 4, 4);
      WrapReads(file, offset + 8, 8);
      var size := Number(ReadAt(file, offset, 4), 4);
      var kind := Printable(ReadAt(file, Wrap(offset + 4), 4));
      if size.None? {
        break;
      }
      ghost var next := SizeAt(file, offset, size.value);
      Regroup(words, [kind], if next.None? then [] else Echoed(file, offset + next.value));
      words := words + [kind];
      if size.value == 1 {
        size := Number(ReadAt(file, Wrap(offset + 8), 8), 8);
        if size.None? {
          break;
        }
      } else if size.value == 0 {
        break;
      }
      if size.value < 8 || size.value >= INT64_LIMIT {
        break;
      }
      assert next == size;
      WrapGoesOn(file, offset, size.value);
      offset := Wrap(offset + size.value);
      RoundSees(file, offset);
    }
    assert words + [] == words;
    EchoedIs(file);
  }

  lemma EchoedIs(file: seq<byte>)
    ensures Echoed(file, 0) == Walk(file, 0) + Stray(file, 0)
  {
  }

  // ---- well-formed files

  // A box with its size in 32 or, large, in 64 bits.
  datatype Box = Box(kind: Kind, payload: seq<byte>, large: bool)

  predicate PrintableKind(kind: string) {
    |kind| == 4 && forall i | 0 <= i < 4 :: 32 <= kind[i] as int < 127
  }

  lemma KindExact(kind: string)
    ensures PrintableKind(kind) <==> |kind| == 4 && forall c | c in kind :: ' ' <= c <= '~'
  {
    if |kind| == 4 && forall c | c in kind :: ' ' <= c <= '~' {
      assert forall i | 0 <= i < 4 :: kind[i] in kind;
    }
  }

  type Kind = kind: string | PrintableKind(kind) witness "free"

  ghost predicate WellFormed(box: Box) {
    if box.large then 16 + |box.payload| < INT64_LIMIT else 8 + |box.payload| < 0x1_0000_0000
  }

  function KindBytes(kind: Kind): (bytes: seq<byte>)
    ensures |bytes| == 4
  {
    seq(4, i requires 0 <= i < 4 => kind[i] as int)
  }

  function HeaderOf(box: Box): seq<byte> {
    if box.large then ToBytes(1, 4) + KindBytes(box.kind) + ToBytes(16 + |box.payload|, 8)
    else ToBytes(8 + |box.payload|, 4) + KindBytes(box.kind)
  }

  function BytesOf(box: Box): seq<byte> { HeaderOf(box) + box.payload }

  function Layout(boxes: seq<Box>): seq<byte> {
    if boxes == [] then [] else BytesOf(boxes[0]) + Layout(boxes[1..])
  }

  function Kinds(boxes: seq<Box>): seq<string> {
    seq(|boxes|, i requires 0 <= i < |boxes| => boxes[i].kind)
  }

  // What may follow the last sized box: fewer bytes than a header, a box that goes on to the end of the
  // file, or one whose size is smaller than a header or no int64, behind which nothing is looked at.
  datatype Ending =
    | Fragment(bytes: seq<byte>)
    | OpenBox(kind: Kind, payload: seq<byte>)
    | BadBox(kind: Kind, size: nat, payload: seq<byte>)
    | BadLargeBox(kind: Kind, size: nat, payload: seq<byte>)

  ghost predicate ValidEnding(ending: Ending) {
    match ending
    case Fragment(bytes) => |bytes| < 8
    case OpenBox(_, _) => true
    case BadBox(_, size, _) => 2 <= size < 8
    case BadLargeBox(_, size, _) => size < 8 || INT64_LIMIT <= size < U64_LIMIT
  }

  function EndingBytes(ending: Ending): seq<byte> {
    match ending
    case Fragment(bytes) => bytes
    case OpenBox(kind, payload) => ToBytes(0, 4) + KindBytes(kind) + payload
    case BadBox(kind, size, payload) => ToBytes(size, 4) + KindBytes(kind) + payload
    case BadLargeBox(kind, size, payload) => ToBytes(1, 4) + KindBytes(kind) + (ToBytes(size, 8) + payload)
  }

  function EndingKinds(ending: Ending): seq<string> {
    if ending.Fragment? then [] else [ending.kind]
  }

  lemma KindPrintable(kind: Kind)
    ensures Printable(KindBytes(kind)) == kind
  {
    var s := KindBytes(kind);
    assert s[..4] == s;
    assert Printable(s[..0]) == "";
    assert s[..1][..0] == s[..0] && s[..2][..1] == s[..1] && s[..3][..2] == s[..2] && s[..4][..3] == s[..3];
    assert Printable(s[..1]) == kind[..1];
    assert Printable(s[..2]) == kind[..2];
    assert Printable(s[..3]) == kind[..3];
    assert kind[..3] + [kind[3]] == kind;
  }

  lemma {:induction false} PrintableShort(s: seq<byte>)
    ensures |Printable(s)| <= |s|
  {
    if s != [] {
      PrintableShort(s[..|s| - 1]);
    }
  }

  // Exactly the printable characters of ASCII are kept, in order.
  lemma {:induction false} PrintableExact(s: seq<byte>, t: seq<byte>, b: byte)
    ensures Printable([b]) == if ' ' as int <= b <= '~' as int then [b as char] else []
    ensures Printable(s + t) == Printable(s) + Printable(t)
    decreases |t|
  {
    assert [b][..0] == [];
    if t == [] {
      assert s + t == s;
    } else {
      PrintableExact(s, t[..|t| - 1], b);
      assert (s + t)[..|s + t| - 1] == s + t[..|t| - 1];
    }
  }

  // A 64-bit size that the file cuts short leads nowhere: the walk has its last type.
  lemma CutSizeEnds(file: seq<byte>, offset: nat)
    requires offset + 8 <= |file| < offset + 16 && Number(ReadAt(file, offset, 4), 4) == Some(1)
    ensures Walk(file, offset) == [TypeAt(file, offset)]
  {
    var size := SizeAt(file, offset, 1);
    hide Number, ReadAt, TypeAt;
    if size.Some? {
      assert offset + size.value + 8 > |file|;
      assert Walk(file, offset + size.value) == [];
    }
  }

  // Reading what stands at an offset.
  lemma ReadPart(file: seq<byte>, offset: nat, part: seq<byte>)
    requires part != [] && offset + |part| <= |file| && file[offset..offset + |part|] == part
    ensures ReadAt(file, offset, |part|) == part
    ensures Number(ReadAt(file, offset, |part|), |part|) == Some(FromBytes(part))
  {
  }

  lemma BoundsOfWidth()
    ensures Power256(4) == 0x1_0000_0000 && Power256(8) == U64_LIMIT
  {
    assert Power256(2) == 0x1_0000;
    assert Power256(4) == 0x1_0000_0000;
    assert Power256(6) == 0x1_0000_0000_0000;
  }

  // The first eight bytes of a header are read as its short size and its type.
  lemma HeaderReads(file: seq<byte>, offset: nat, small: nat, kind: Kind)
    requires small < 0x1_0000_0000 && offset + 8 <= |file|
    requires file[offset..offset + 4] == ToBytes(small, 4) && file[offset + 4..offset + 8] == KindBytes(kind)
    ensures Number(ReadAt(file, offset, 4), 4) == Some(small) && TypeAt(file, offset) == kind
  {
    BoundsOfWidth();
    ValueExact(small, 4);
    KindPrintable(kind);
    ReadPart(file, offset, ToBytes(small, 4));
    ReadPart(file, offset + 4, KindBytes(kind));
  }

  lemma LargeSizeReads(file: seq<byte>, offset: nat, size: nat)
    requires 8 <= size < INT64_LIMIT && offset + 16 <= |file|
    requires file[offset + 8..offset + 16] == ToBytes(size, 8)
    ensures SizeAt(file, offset, 1) == Some(size)
  {
    BoundsOfWidth();
    ValueExact(size, 8);
    ReadPart(file, offset + 8, ToBytes(size, 8));
  }

  // Parts of a part.
  lemma Within(file: seq<byte>, offset: nat, part: seq<byte>, i: nat, j: nat)
    requires i <= j <= |part| && offset + |part| <= |file| && file[offset..offset + |part|] == part
    ensures file[offset + i..offset + j] == part[i..j]
  {
    forall k | 0 <= k < |part| ensures file[offset + k] == part[k] {
      assert file[offset..offset + |part|][k] == file[offset + k];
    }
  }

  lemma Slices(a: seq<byte>, b: seq<byte>, c: seq<byte>)
    ensures (a + b + c)[0..|a|] == a && (a + b + c)[|a|..|a| + |b|] == b && (a + b + c)[|a| + |b|..] == c
  {
  }

  lemma BoxParts(box: Box)
    ensures var bytes := BytesOf(box);
            && |bytes| == (if box.large then 16 else 8) + |box.payload|
            && bytes[0..4] == ToBytes(if box.large then 1 else |bytes|, 4)
            && bytes[4..8] == KindBytes(box.kind)
            && (box.large ==> bytes[8..16] == ToBytes(|bytes|, 8))
  {
    var kind := KindBytes(box.kind);
    hide ToBytes, KindBytes;
    if box.large {
      var first, size := ToBytes(1, 4), ToBytes(16 + |box.payload|, 8);
      Slices(first, kind, size + box.payload);
      Slices(first + kind, size, box.payload);
      assert BytesOf(box) == first + kind + (size + box.payload);
    } else {
      Slices(ToBytes(8 + |box.payload|, 4), kind, box.payload);
    }
  }

  lemma SizeReads(file: seq<byte>, offset: nat, box: Box)
    requires WellFormed(box)
    requires offset + |BytesOf(box)| <= |file| && file[offset..offset + |BytesOf(box)|] == BytesOf(box)
    ensures var small := if box.large then 1 else |BytesOf(box)|;
            && |BytesOf(box)| >= 8 && TypeAt(file, offset) == box.kind
            && Number(ReadAt(file, offset, 4), 4) == Some(small)
            && SizeAt(file, offset, small) == Some(|BytesOf(box)|)
  {
    var bytes := BytesOf(box);
    BoxParts(box);
    Within(file, offset, bytes, 0, 4);
    Within(file, offset, bytes, 4, 8);
    HeaderReads(file, offset, if box.large then 1 else |bytes|, box.kind);
    if box.large {
      Within(file, offset, bytes, 8, 16);
      LargeSizeReads(file, offset, |bytes|);
    }
  }

  lemma RoundWalks(file: seq<byte>, offset: nat, small: nat, size: nat)
    requires offset + 8 <= |file|
    requires Number(ReadAt(file, offset, 4), 4) == Some(small) && SizeAt(file, offset, small) == Some(size)
    ensures Walk(file, offset) == [TypeAt(file, offset)] + Walk(file, offset + size)
    ensures Stop(file, offset) == Stop(file, offset + size)
  {
    hide Number, ReadAt, SizeAt, TypeAt;
  }

  lemma StepAcross(file: seq<byte>, offset: nat, box: Box)
    requires WellFormed(box)
    requires offset + |BytesOf(box)| <= |file| && file[offset..offset + |BytesOf(box)|] == BytesOf(box)
    ensures Walk(file, offset) == [box.kind] + Walk(file, offset + |BytesOf(box)|)
    ensures Stop(file, offset) == Stop(file, offset + |BytesOf(box)|)
  {
    hide *;
    SizeReads(file, offset, box);
    RoundWalks(file, offset, if box.large then 1 else |BytesOf(box)|, |BytesOf(box)|);
  }

  // A header whose size the script does not follow.
  lemma HeaderStops(file: seq<byte>, offset: nat, small: nat, kind: Kind, rest: seq<byte>)
    requires small < 0x1_0000_0000 && offset <= |file| && file[offset..] == ToBytes(small, 4) + KindBytes(kind) + rest
    requires SizeAt(file, offset, small).None?
    ensures Walk(file, offset) == [kind] && Stop(file, offset) == None
  {
    var bytes := ToBytes(small, 4) + KindBytes(kind) + rest;
    assert bytes[..4] == ToBytes(small, 4) && bytes[4..8] == KindBytes(kind);
    assert file[offset..offset + 4] == bytes[..4] && file[offset + 4..offset + 8] == bytes[4..8];
    hide Number, ReadAt, TypeAt, SizeAt;
    HeaderReads(file, offset, small, kind);
  }

  lemma BadLargeSize(file: seq<byte>, offset: nat, size: nat)
    requires (size < 8 || INT64_LIMIT <= size < U64_LIMIT) && offset + 16 <= |file|
    requires file[offset + 8..offset + 16] == ToBytes(size, 8)
    ensures SizeAt(file, offset, 1).None?
  {
    BoundsOfWidth();
    ValueExact(size, 8);
    ReadPart(file, offset + 8, ToBytes(size, 8));
  }

  lemma EndingWalk(file: seq<byte>, offset: nat, ending: Ending)
    requires ValidEnding(ending) && offset <= |file| && file[offset..] == EndingBytes(ending)
    ensures Walk(file, offset) == EndingKinds(ending)
    ensures Stop(file, offset) == if ending.Fragment? then Some(offset) else None
  {
    match ending
    case Fragment(_) =>
    case OpenBox(kind, payload) => HeaderStops(file, offset, 0, kind, payload);
    case BadBox(kind, size, payload) => HeaderStops(file, offset, size, kind, payload);
    case BadLargeBox(kind, size, payload) =>
      var bytes := EndingBytes(ending);
      assert bytes[8..16] == ToBytes(size, 8);
      assert file[offset + 8..offset + 16] == bytes[8..16];
      BadLargeSize(file, offset, size);
      HeaderStops(file, offset, 1, kind, ToBytes(size, 8) + payload);
  }

  lemma Divide(file: seq<byte>, offset: nat, a: seq<byte>, b: seq<byte>, c: seq<byte>)
    requires offset <= |file| && file[offset..] == a + b + c
    ensures offset + |a| <= |file| && file[offset..offset + |a|] == a && file[offset + |a|..] == b + c
  {
    var rest := file[offset..];
    assert rest[..|a|] == a && rest[|a|..] == b + c;
    assert file[offset..offset + |a|] == rest[..|a|] && file[offset + |a|..] == rest[|a|..];
  }

  lemma {:induction false} WalkAcross(file: seq<byte>, offset: nat, boxes: seq<Box>, tail: seq<byte>)
    requires forall i | 0 <= i < |boxes| :: WellFormed(boxes[i])
    requires offset <= |file| && file[offset..] == Layout(boxes) + tail
    ensures Walk(file, offset) == Kinds(boxes) + Walk(file, |file| - |tail|)
    ensures Stop(file, offset) == Stop(file, |file| - |tail|)
    decreases |boxes|
  {
    hide Walk, Stop, BytesOf;
    if boxes != [] {
      var bytes, rest := BytesOf(boxes[0]), boxes[1..];
      assert Layout(boxes) == bytes + Layout(rest);
      Divide(file, offset, bytes, Layout(rest), tail);
      StepAcross(file, offset, boxes[0]);
      WalkAcross(file, offset + |bytes|, rest, tail);
      assert Kinds(boxes) == [boxes[0].kind] + Kinds(rest);
    }
  }

  ghost predicate Laid(boxes: seq<Box>, ending: Ending) {
    (forall i | 0 <= i < |boxes| :: WellFormed(boxes[i])) && ValidEnding(ending)
  }

  function FileOf(boxes: seq<Box>, ending: Ending): seq<byte> { Layout(boxes) + EndingBytes(ending) }

  function AllKinds(boxes: seq<Box>, ending: Ending): seq<string> { Kinds(boxes) + EndingKinds(ending) }

  // The walk finds the types of any boxes laid end to end, in order, and of a last box that is open or bad.
  lemma {:induction false} WalkFindsBoxes(boxes: seq<Box>, ending: Ending)
    requires Laid(boxes, ending)
    ensures Walk(FileOf(boxes, ending), 0) == AllKinds(boxes, ending)
    ensures Stop(FileOf(boxes, ending), 0) == if ending.Fragment? then Some(|Layout(boxes)|) else None
  {
    var tail := EndingBytes(ending);
    var file := Layout(boxes) + tail;
    assert file[0..] == file && file[|file| - |tail|..] == tail;
    WalkAcross(file, 0, boxes, tail);
    EndingWalk(file, |file| - |tail|, ending);
  }

  // The script echoes just these types, except for a fragment in the last 8 offsets of int64.
  lemma {:induction false} StrayExact(boxes: seq<Box>, ending: Ending)
    requires Laid(boxes, ending)
    ensures Stray(FileOf(boxes, ending), 0) != [] <==>
            ending.Fragment? && ending.bytes != [] && |Layout(boxes)| >= INT64_LIMIT - 8
  {
    WalkFindsBoxes(boxes, ending);
  }

  // The type that the script reads in the fragment.
  function StrayType(ending: Ending): string
    requires ending.Fragment?
  {
    Printable(ending.bytes[Min(4, |ending.bytes|)..])
  }

  lemma FragmentReads(file: seq<byte>, end: nat, bytes: seq<byte>)
    requires end <= |file| && file[end..] == bytes && |bytes| < 8
    ensures ReadAt(file, end + 4, 4) == bytes[Min(4, |bytes|)..]
  {
    if |bytes| > 4 {
      assert file[end..][4..] == file[end + 4..];
    }
  }

  lemma StrayAt(file: seq<byte>, end: int)
    requires Stop(file, 0) == Some(end) && Stray(file, 0) != []
    ensures Stray(file, 0) == [Printable(ReadAt(file, end + 4, 4))]
  {
    hide Stop, Printable, ReadAt;
  }

  lemma FileEnds(boxes: seq<Box>, ending: Ending)
    requires ending.Fragment?
    ensures |Layout(boxes)| <= |FileOf(boxes, ending)|
    ensures FileOf(boxes, ending)[|Layout(boxes)|..] == ending.bytes
  {
    hide Layout;
  }

  lemma {:induction false} StrayWord(boxes: seq<Box>, ending: Ending)
    requires Laid(boxes, ending) && Stray(FileOf(boxes, ending), 0) != []
    ensures ending.Fragment? && |StrayType(ending)| <= 3
    ensures Stray(FileOf(boxes, ending), 0) == [StrayType(ending)]
  {
    hide Stray, Stop, Walk, Layout, FileOf, ReadAt, Printable;
    var file, end := FileOf(boxes, ending), |Layout(boxes)|;
    StrayExact(boxes, ending);
    WalkFindsBoxes(boxes, ending);
    StrayAt(file, end);
    FileEnds(boxes, ending);
    FragmentReads(file, end, ending.bytes);
    PrintableShort(ending.bytes[Min(4, |ending.bytes|)..]);
  }

  // ---- from echo to read

  // Words that the echo of bash takes for options.
  predicate IsEchoOption(word: string) {
    |word| >= 2 && word[0] == '-' && forall i | 1 <= i < |word| :: word[i] in "neE"
  }

  // A hyphen and then letters, at least one, of which each is an n, an e or an E.
  lemma EchoOptionExact(word: string)
    ensures IsEchoOption(word) <==>
            exists letters: string ::
              letters != "" && word == "-" + letters && forall c | c in letters :: c in {'n', 'e', 'E'}
  {
    if IsEchoOption(word) {
      assert word == "-" + word[1..];
      forall c | c in word[1..] ensures c in {'n', 'e', 'E'} {
        var i :| 0 <= i < |word[1..]| && word[1..][i] == c;
        assert word[i + 1] == c;
      }
    }
    if letters: string :| letters != "" && word == "-" + letters && forall c | c in letters :: c in {'n', 'e', 'E'} {
      forall i | 1 <= i < |word| ensures word[i] in "neE" {
        assert word[i] == letters[i - 1] && letters[i - 1] in letters;
        assert word[i] == "neE"[0] || word[i] == "neE"[1] || word[i] == "neE"[2];
      }
    }
  }

  // The lines that `echo "$type"` prints.
  function EchoLines(word: string): seq<string> {
    if !IsEchoOption(word) then [word] else if 'n' in word then [] else [""]
  }

  function Output(words: seq<string>): seq<string> {
    if words == [] then [] else EchoLines(words[0]) + Output(words[1..])
  }

  ghost predicate NoOption(words: seq<string>) {
    forall i | 0 <= i < |words| :: !IsEchoOption(words[i])
  }

  // The printed lines are the words exactly if no word is spelled like an option of echo.
  lemma {:induction false} OutputExact(words: seq<string>)
    ensures |Output(words)| <= |words|
    ensures Output(words) == words <==> NoOption(words)
  {
    if words != [] {
      OutputExact(words[1..]);
      assert words == [words[0]] + words[1..];
      if !IsEchoOption(words[0]) {
        assert Output(words)[1..] == Output(words[1..]);
      } else if 'n' !in words[0] {
        assert Output(words)[0] == "";
      }
    }
  }

  lemma OutputStep(words: seq<string>, more: seq<string>)
    requires words != []
    ensures Output(words + more) == EchoLines(words[0]) + Output(words[1..] + more)
  {
    assert (words + more)[1..] == words[1..] + more;
  }

  lemma NothingInFront(more: seq<string>)
    ensures [] + more == more && Output([]) == []
  {
  }

  lemma {:induction false} OutputConcat(words: seq<string>, more: seq<string>)
    ensures Output(words + more) == Output(words) + Output(more)
  {
    if words == [] {
      hide Output;
      NothingInFront(more);
      NothingInFront(Output(more));
    } else {
      var lines := EchoLines(words[0]);
      assert Output(words) == lines + Output(words[1..]);
      hide Output, EchoLines;
      OutputStep(words, more);
      OutputConcat(words[1..], more);
      Regroup(lines, Output(words[1..]), Output(more));
    }
  }

  // A short word behind the types: it can make up for nothing that is missing.
  lemma ShortWordBehind(kinds: seq<string>, word: string)
    requires |word| <= 3 && forall i | 0 <= i < |kinds| :: |kinds[i]| == 4
    ensures Output(kinds + [word]) == kinds <==> NoOption(kinds) && EchoLines(word) == []
  {
    OutputConcat(kinds, [word]);
    OutputExact(kinds);
    assert Output([word]) == EchoLines(word);
    var lines := Output(kinds + [word]);
    if EchoLines(word) != [] {
      assert lines[|lines| - 1] == EchoLines(word)[0] && |EchoLines(word)[0]| <= 3;
    }
    hide Output;
  }

  lemma KindsAreFour(boxes: seq<Box>, ending: Ending)
    ensures forall i | 0 <= i < |AllKinds(boxes, ending)| :: |AllKinds(boxes, ending)[i]| == 4
  {
  }

  // A fragment that the script takes for a box, because the sum wraps, and of which it prints a line.
  ghost predicate ShowsFragment(boxes: seq<Box>, ending: Ending) {
    && ending.Fragment? && ending.bytes != [] && |Layout(boxes)| >= INT64_LIMIT - 8
    && EchoLines(StrayType(ending)) != []
  }

  // For the file itself, of boxes laid end to end: the script prints exactly the types, in order, if
  // and only if none is spelled like an option of echo and no fragment behind them shows.
  lemma ScriptPrintsBoxes(boxes: seq<Box>, ending: Ending)
    requires Laid(boxes, ending)
    ensures var (file, kinds) := (FileOf(boxes, ending), AllKinds(boxes, ending));
            Output(Walk(file, 0) + Stray(file, 0)) == kinds <==> NoOption(kinds) && !ShowsFragment(boxes, ending)
  {
    var file, kinds := FileOf(boxes, ending), AllKinds(boxes, ending);
    WalkFindsBoxes(boxes, ending);
    StrayExact(boxes, ending);
    KindsAreFour(boxes, ending);
    OutputExact(kinds);
    if Stray(file, 0) == [] {
      assert Walk(file, 0) + Stray(file, 0) == kinds;
    } else {
      StrayWord(boxes, ending);
      ShortWordBehind(kinds, StrayType(ending));
    }
  }

  // A file of one box whose type the script does not print.
  lemma OptionWitness()
    ensures PrintableKind("-nee")
    ensures var file := FileOf([Box("-nee", [], false)], Fragment([]));
            Walk(file, 0) == ["-nee"] && Output(Walk(file, 0) + Stray(file, 0)) == []
  {
    var boxes := [Box("-nee", [], false)];
    WalkFindsBoxes(boxes, Fragment([]));
    StrayExact(boxes, Fragment([]));
    assert Kinds(boxes) == ["-nee"];
    assert IsEchoOption("-nee") && 'n' in "-nee";
  }

  // A file of a box of almost 8 EiB and one more byte: its one type is no option of echo, and the
  // script prints an empty line behind it.
  lemma StrayWitness(payload: seq<byte>)
    requires |payload| == INT64_LIMIT - 24
    ensures var (boxes, ending) := ([Box("mdat", payload, true)], Fragment([0]));
            var file := FileOf(boxes, ending);
            && Laid(boxes, ending) && |file| < INT64_LIMIT && NoOption(AllKinds(boxes, ending))
            && Walk(file, 0) == ["mdat"] && Output(Walk(file, 0) + Stray(file, 0)) == ["mdat", ""]
  {
    var boxes, ending := [Box("mdat", payload, true)], Fragment([0]);
    BoxParts(boxes[0]);
    assert Layout(boxes) == BytesOf(boxes[0]);
    StrayExact(boxes, ending);
    StrayWord(boxes, ending);
    WalkFindsBoxes(boxes, ending);
    assert Kinds(boxes) == ["mdat"];
    assert StrayType(ending) == "";
    OutputConcat(["mdat"], [""]);
  }

  // $( ) drops trailing newlines; the here-string puts one back, so that it has at least one line.
  function Captured(lines: seq<string>): seq<string> {
    if lines == [] then [""]
    else if lines[|lines| - 1] == "" then Captured(lines[..|lines| - 1])
    else lines
  }

  function TrimLeft(s: string): string { if s != "" && s[0] in " \t" then TrimLeft(s[1..]) else s }

  function TrimRight(s: string): string {
    if s != "" && s[|s| - 1] in " \t" then TrimRight(s[..|s| - 1]) else s
  }

  // read -r strips blanks from both ends.
  function ReadWord(line: string): string { TrimRight(TrimLeft(line)) }

  // Blanks go from both ends and from nowhere else.
  ghost predicate Stripped(line: string, i: int, j: int) {
    && 0 <= i <= j <= |line|
    && (forall k | 0 <= k < |line| && !(i <= k < j) :: line[k] == ' ' || line[k] == '\t')
    && (i < j ==> line[i] !in {' ', '\t'} && line[j - 1] !in {' ', '\t'})
  }

  lemma {:induction false} TrimLeftExact(s: string)
    ensures var n := |s| - |TrimLeft(s)|;
            && 0 <= n && s[n..] == TrimLeft(s) && (forall k | 0 <= k < n :: s[k] == ' ' || s[k] == '\t')
            && (n < |s| ==> s[n] !in {' ', '\t'})
  {
    if s != "" && s[0] in " \t" {
      TrimLeftExact(s[1..]);
    }
  }

  lemma {:induction false} TrimRightExact(s: string)
    ensures var n := |TrimRight(s)|;
            && n <= |s| && s[..n] == TrimRight(s) && (forall k | n <= k < |s| :: s[k] == ' ' || s[k] == '\t')
            && (n > 0 ==> s[n - 1] !in {' ', '\t'})
  {
    if s != "" && s[|s| - 1] in " \t" {
      TrimRightExact(s[..|s| - 1]);
    }
  }

  lemma ReadWordExact(line: string)
    ensures exists i, j :: Stripped(line, i, j) && ReadWord(line) == line[i..j]
  {
    TrimLeftExact(line);
    TrimRightExact(TrimLeft(line));
    var i := |line| - |TrimLeft(line)|;
    assert Stripped(line, i, i + |ReadWord(line)|);
  }

  // What is captured: the lines up to the last one that is not empty, or one empty line.
  lemma {:induction false} CapturedExact(lines: seq<string>)
    ensures if exists i :: 0 <= i < |lines| && lines[i] != ""
            then Captured(lines) != [] && Captured(lines) <= lines && Captured(lines)[|Captured(lines)| - 1] != ""
                 && forall i | |Captured(lines)| <= i < |lines| :: lines[i] == ""
            else Captured(lines) == [""]
  {
    if lines != [] && lines[|lines| - 1] == "" {
      var front := lines[..|lines| - 1];
      CapturedExact(front);
      assert forall i | 0 <= i < |front| :: lines[i] == front[i];
      if i :| 0 <= i < |lines| && lines[i] != "" {
        assert front[i] != "";
      }
    }
  }

  // A moov, and no mdat before it.
  function MoovFirst(words: seq<string>): bool {
    words != [] && (words[0] == "moov" || (words[0] != "mdat" && MoovFirst(words[1..])))
  }

  lemma {:induction false} MoovFirstExact(words: seq<string>)
    ensures MoovFirst(words) <==>
            exists i :: 0 <= i < |words| && words[i] == "moov" && forall j | 0 <= j < i :: words[j] != "mdat"
  {
    if words != [] {
      var rest := words[1..];
      MoovFirstExact(rest);
      if MoovFirst(words) && words[0] != "moov" {
        var i :| 0 <= i < |rest| && rest[i] == "moov" && forall j | 0 <= j < i :: rest[j] != "mdat";
        assert words[i + 1] == "moov";
      }
      if i :| 0 <= i < |words| && words[i] == "moov" && forall j | 0 <= j < i :: words[j] != "mdat" {
        if i > 0 {
          assert rest[i - 1] == "moov";
          assert words[0] != "mdat";
        }
      }
    }
  }

  // The loop of mp4_faststart over the captured lines.
  method FirstMoov(lines: seq<string>) returns (faststart: bool)
    ensures faststart <==> MoovFirst(Words(lines))
  {
    var moov, mdat, i := -1, -1, 0;
    var words := Words(lines);
    while i < |lines|
      invariant 0 <= i <= |lines|
      invariant -1 <= moov < i && -1 <= mdat < i
      invariant moov >= 0 ==> words[moov] == "moov" && forall j | 0 <= j < moov :: words[j] != "moov"
      invariant mdat >= 0 ==> words[mdat] == "mdat" && forall j | 0 <= j < mdat :: words[j] != "mdat"
      invariant moov < 0 ==> forall j | 0 <= j < i :: words[j] != "moov"
      invariant mdat < 0 ==> forall j | 0 <= j < i :: words[j] != "mdat"
    {
      var box := ReadWord(lines[i]);
      assert box == words[i];
      if moov < 0 && box == "moov" {
        moov := i;
      }
      if mdat < 0 && box == "mdat" {
        mdat := i;
      }
      i := i + 1;
    }
    MoovFirstExact(words);
    if moov < 0 {
      return false;
    }
    if mdat < 0 {
      return true;
    }
    return moov < mdat;
  }

  function Words(lines: seq<string>): seq<string> {
    seq(|lines|, i requires 0 <= i < |lines| => ReadWord(lines[i]))
  }

  lemma {:induction false} TrimShortens(s: string)
    ensures |TrimLeft(s)| <= |s| && (|TrimLeft(s)| == |s| ==> TrimLeft(s) == s)
  {
    if s != "" && s[0] in " \t" {
      TrimShortens(s[1..]);
    }
  }

  lemma {:induction false} TrimRightShortens(s: string)
    ensures |TrimRight(s)| <= |s| && (|TrimRight(s)| == |s| ==> TrimRight(s) == s)
  {
    if s != "" && s[|s| - 1] in " \t" {
      TrimRightShortens(s[..|s| - 1]);
    }
  }

  // A word of at most four characters is read as moov or mdat only if it is that.
  lemma ReadsItself(word: string, name: string)
    requires |word| <= 4 && |name| == 4 && name[0] !in " \t" && name[3] !in " \t"
    ensures ReadWord(word) == name <==> word == name
  {
    TrimShortens(word);
    TrimRightShortens(TrimLeft(word));
  }

  ghost predicate Short(words: seq<string>) { forall i | 0 <= i < |words| :: |words[i]| <= 4 }

  // What echo and read make of one short word: nothing, or a word that is moov or mdat only if it was.
  lemma EchoReads(word: string)
    requires |word| <= 4
    ensures |EchoLines(word)| <= 1
    ensures EchoLines(word) == [] ==> word != "moov" && word != "mdat"
    ensures EchoLines(word) != [] ==>
              var line := EchoLines(word)[0];
              && |line| <= 4
              && (ReadWord(line) == "moov" <==> word == "moov")
              && (ReadWord(line) == "mdat" <==> word == "mdat")
  {
    ReadsItself(word, "moov");
    ReadsItself(word, "mdat");
  }

  lemma WordsCons(line: string, lines: seq<string>)
    ensures Words([line] + lines) == [ReadWord(line)] + Words(lines)
  {
  }

  lemma {:induction false} OutputKeepsOrder(words: seq<string>)
    requires Short(words)
    ensures Short(Output(words)) && MoovFirst(Words(Output(words))) == MoovFirst(words)
  {
    if words != [] {
      var rest := Output(words[1..]);
      OutputKeepsOrder(words[1..]);
      EchoReads(words[0]);
      hide EchoLines, ReadWord, Words;
      if EchoLines(words[0]) == [] {
        assert Output(words) == rest;
      } else {
        var line := EchoLines(words[0])[0];
        assert Output(words) == [line] + rest;
        WordsCons(line, rest);
        assert ([ReadWord(line)] + Words(rest))[1..] == Words(rest);
      }
    }
  }

  lemma {:induction false} OtherLast(words: seq<string>, word: string)
    requires word != "moov" && word != "mdat"
    ensures MoovFirst(words + [word]) == MoovFirst(words)
  {
    if words == [] {
      assert MoovFirst([word]) == MoovFirst([word][1..]);
    } else {
      OtherLast(words[1..], word);
      assert (words + [word])[1..] == words[1..] + [word];
    }
  }

  lemma EmptyLineLast(lines: seq<string>)
    ensures MoovFirst(Words(lines + [""])) == MoovFirst(Words(lines))
  {
    OtherLast(Words(lines), "");
    assert Words(lines + [""]) == Words(lines) + [""];
  }

  lemma {:induction false} CaptureKeepsOrder(lines: seq<string>)
    ensures MoovFirst(Words(Captured(lines))) == MoovFirst(Words(lines))
  {
    if lines == [] {
      EmptyLineLast([]);
      assert [] + [""] == [""];
    } else if lines[|lines| - 1] == "" {
      CaptureKeepsOrder(lines[..|lines| - 1]);
      EmptyLineLast(lines[..|lines| - 1]);
      assert lines[..|lines| - 1] + [""] == lines;
    }
  }

  lemma ShortCons(word: string, words: seq<string>)
    requires |word| <= 4 && Short(words)
    ensures Short([word] + words)
  {
  }

  lemma {:induction false} WalkShort(file: seq<byte>, offset: int)
    ensures Short(Walk(file, offset))
    decreases Ahead(file, offset)
  {
    PrintableShort(ReadAt(file, offset + 4, 4));
    hide Number, ReadAt, SizeAt, Printable, Short;
    var small := Number(ReadAt(file, offset, 4), 4);
    NoWords();
    ShortCons(TypeAt(file, offset), []);
    assert [TypeAt(file, offset)] + [] == [TypeAt(file, offset)];
    if offset + 8 <= |file| && small.Some? && SizeAt(file, offset, small.value).Some? {
      var next := offset + SizeAt(file, offset, small.value).value;
      WalkShort(file, next);
      ShortCons(TypeAt(file, offset), Walk(file, next));
    }
  }

  lemma NoWords()
    ensures Short([])
  {
  }

  lemma StrayShort(file: seq<byte>)
    requires |file| < INT64_LIMIT
    ensures |Stray(file, 0)| <= 1 && forall i | 0 <= i < |Stray(file, 0)| :: |Stray(file, 0)[i]| <= 3
  {
    if Stray(file, 0) != [] {
      var end := Stop(file, 0).value;
      PrintableShort(ReadAt(file, end + 4, 4));
    }
  }

  // A stray word is too short to be a moov or an mdat.
  lemma StrayKeepsOrder(file: seq<byte>)
    requires |file| < INT64_LIMIT
    ensures Short(Walk(file, 0) + Stray(file, 0))
    ensures MoovFirst(Walk(file, 0) + Stray(file, 0)) == MoovFirst(Walk(file, 0))
  {
    WalkShort(file, 0);
    StrayShort(file);
    hide Walk, Stray;
    var walk, stray := Walk(file, 0), Stray(file, 0);
    if stray == [] {
      assert walk + stray == walk;
    } else {
      assert stray == [stray[0]];
      OtherLast(walk, stray[0]);
    }
  }

  // mp4_faststart: on any file whose size is an int64 it is true exactly if the walk meets a moov with
  // no mdat before it; what echo swallows, what read strips and a stray word make no difference.
  method FastStart(file: seq<byte>) returns (faststart: bool)
    requires |file| < INT64_LIMIT
    ensures faststart <==>
            exists i :: 0 <= i < |Walk(file, 0)| && Walk(file, 0)[i] == "moov"
                        && forall j | 0 <= j < i :: Walk(file, 0)[j] != "mdat"
  {
    var words := TopLevelBoxes(file);
    StrayKeepsOrder(file);
    hide Stray;
    OutputKeepsOrder(words);
    CaptureKeepsOrder(Output(words));
    MoovFirstExact(Walk(file, 0));
    faststart := FirstMoov(Captured(Output(words)));
  }
}
