// Base64url without padding (section 5 of RFC 4648), as strict as the decoder the agent uses: no
// padding, no foreign characters, and unused bits of the last character must be zero.
module Base64Url {
  import opened Basics

  type Sextet = x: int | 0 <= x < 64

  function ToChar(v: Sextet): char {
    if v < 26 then 'A' + v as char
    else if v < 52 then 'a' + (v - 26) as char
    else if v < 62 then '0' + (v - 52) as char
    else if v == 62 then '-' else '_'
  }

  predicate InAlphabet(c: char) {
    'A' <= c <= 'Z' || 'a' <= c <= 'z' || '0' <= c <= '9' || c == '-' || c == '_'
  }

  function FromChar(c: char): Sextet
    requires InAlphabet(c)
  {
    if 'A' <= c <= 'Z' then c as int - 'A' as int
    else if 'a' <= c <= 'z' then c as int - 'a' as int + 26
    else if '0' <= c <= '9' then c as int - '0' as int + 52
    else if c == '-' then 62 else 63
  }

  lemma CharsExact(v: Sextet, c: char)
    ensures InAlphabet(ToChar(v)) && FromChar(ToChar(v)) == v
    ensures InAlphabet(c) ==> ToChar(FromChar(c)) == c
  {
  }

  // Table 2 of RFC 4648: three runs of consecutive characters and two single ones.
  lemma AlphabetExact(v: Sextet, c: char)
    ensures ToChar(0) == 'A' && ToChar(25) == 'Z' && ToChar(26) == 'a' && ToChar(51) == 'z'
    ensures ToChar(52) == '0' && ToChar(61) == '9' && ToChar(62) == '-' && ToChar(63) == '_'
    ensures v !in {25, 51, 61, 62, 63} ==> ToChar(v + 1) as int == ToChar(v) as int + 1
    ensures InAlphabet(c) <==> exists w: Sextet :: ToChar(w) == c
  {
    if InAlphabet(c) {
      assert ToChar(FromChar(c)) == c;
    }
  }

  predicate AllInAlphabet(t: string) { forall i | 0 <= i < |t| :: InAlphabet(t[i]) }

  // The bytes of a group in four sextets, and back.
  function First(a: byte): Sextet { a / 4 }
  function Second(a: byte, b: byte): Sextet { a % 4 * 16 + b / 16 }
  function Third(b: byte, c: byte): Sextet { b % 16 * 4 + c / 64 }
  function Fourth(c: byte): Sextet { c % 64 }

  function High(v: Sextet, w: Sextet): byte { v * 4 + w / 16 }
  function Middle(w: Sextet, x: Sextet): byte { w % 16 * 16 + x / 4 }
  function Low(x: Sextet, y: Sextet): byte { x % 4 * 64 + y }

  function Group(a: byte, b: byte, c: byte): string {
    [ToChar(First(a)), ToChar(Second(a, b)), ToChar(Third(b, c)), ToChar(Fourth(c))]
  }

  function Encode(s: seq<byte>): string {
    if |s| == 0 then []
    else if |s| == 1 then Group(s[0], 0, 0)[..2]
    else if |s| == 2 then Group(s[0], s[1], 0)[..3]
    else Group(s[0], s[1], s[2]) + Encode(s[3..])
  }

  function Ungroup(t: string): seq<byte>
    requires |t| == 4 && AllInAlphabet(t)
  {
    var v, w, x, y := FromChar(t[0]), FromChar(t[1]), FromChar(t[2]), FromChar(t[3]);
    [High(v, w), Middle(w, x), Low(x, y)]
  }

  function Decode(t: string): Option<seq<byte>> {
    if |t| == 0 then Some([])
    else if |t| == 1 then None
    else if |t| == 2 then
      if !AllInAlphabet(t) || FromChar(t[1]) % 16 != 0 then None else Some(Ungroup(t + "AA")[..1])
    else if |t| == 3 then
      if !AllInAlphabet(t) || FromChar(t[2]) % 4 != 0 then None else Some(Ungroup(t + "A")[..2])
    else if !AllInAlphabet(t[..4]) then None
    else match Decode(t[4..])
      case Some(rest) => Some(Ungroup(t[..4]) + rest)
      case None => None
  }

  lemma BytesKept(a: byte, b: byte, c: byte)
    ensures High(First(a), Second(a, b)) == a
    ensures Middle(Second(a, b), Third(b, c)) == b
    ensures Low(Third(b, c), Fourth(c)) == c
    ensures Second(a, b) % 16 == b / 16 && Third(b, c) % 4 == c / 64
  {
  }

  lemma SextetsKept(v: Sextet, w: Sextet, x: Sextet, y: Sextet)
    ensures First(High(v, w)) == v
    ensures Second(High(v, w), Middle(w, x)) == w
    ensures Third(Middle(w, x), Low(x, y)) == x
    ensures Fourth(Low(x, y)) == y
  {
  }

  // The 24 bits of a group, most significant first, cut into four times six.
  lemma GroupBits(a: byte, b: byte, c: byte)
    ensures ((First(a) * 64 + Second(a, b)) * 64 + Third(b, c)) * 64 + Fourth(c) == (a * 256 + b) * 256 + c
  {
  }

  // Reading a character of the alphabet, for sextets given by name so that no arithmetic is unfolded.
  lemma FourChars(v: Sextet, w: Sextet, x: Sextet, y: Sextet)
    ensures var t := [ToChar(v), ToChar(w), ToChar(x), ToChar(y)];
            && AllInAlphabet(t)
            && FromChar(t[1]) == w && FromChar(t[2]) == x
            && Ungroup(t) == [High(v, w), Middle(w, x), Low(x, y)]
  {
    CharsExact(v, 'A');
    CharsExact(w, 'A');
    CharsExact(x, 'A');
    CharsExact(y, 'A');
  }

  lemma GroupExact(a: byte, b: byte, c: byte)
    ensures AllInAlphabet(Group(a, b, c)) && Ungroup(Group(a, b, c)) == [a, b, c]
    ensures FromChar(Group(a, b, c)[1]) % 16 == b / 16 && FromChar(Group(a, b, c)[2]) % 4 == c / 64
  {
    FourChars(First(a), Second(a, b), Third(b, c), Fourth(c));
    BytesKept(a, b, c);
  }

  lemma UngroupExact(t: string)
    requires |t| == 4 && AllInAlphabet(t)
    ensures Group(Ungroup(t)[0], Ungroup(t)[1], Ungroup(t)[2]) == t
  {
    CharsExact(0, t[0]);
    CharsExact(0, t[1]);
    CharsExact(0, t[2]);
    CharsExact(0, t[3]);
    SextetsKept(FromChar(t[0]), FromChar(t[1]), FromChar(t[2]), FromChar(t[3]));
  }

  // The sextets that a short group lacks are zero.
  lemma ShortGroups(a: byte, b: byte)
    ensures Encode([a]) + "AA" == Group(a, 0, 0)
    ensures Encode([a, b]) + "A" == Group(a, b, 0)
  {
  }

  lemma DecodeTwo(t: string)
    requires |t| == 2 && AllInAlphabet(t) && FromChar(t[1]) % 16 == 0
    ensures AllInAlphabet(t + "AA") && Decode(t) == Some([Ungroup(t + "AA")[0]])
  {
    hide FromChar, High, Middle, Low;
    assert Ungroup(t + "AA")[..1] == [Ungroup(t + "AA")[0]];
  }

  lemma OneByteExact(a: byte)
    ensures AllInAlphabet(Encode([a])) && Decode(Encode([a])) == Some([a])
  {
    ShortGroups(a, 0);
    GroupExact(a, 0, 0);
    hide *;
    var t := Encode([a]);
    var g := Group(a, 0, 0);
    assert |g| == 4 && t + "AA" == g;
    assert t[0] == g[0] && t[1] == g[1];
    assert AllInAlphabet(t) by {
      InFront(t, "AA");
    }
    DecodeTwo(t);
  }

  lemma InFront(t: string, u: string)
    requires AllInAlphabet(t + u)
    ensures AllInAlphabet(t)
  {
    forall i | 0 <= i < |t| ensures InAlphabet(t[i]) {
      assert (t + u)[i] == t[i];
    }
  }

  lemma TwoBytesExact(a: byte, b: byte)
    ensures AllInAlphabet(Encode([a, b])) && Decode(Encode([a, b])) == Some([a, b])
  {
    ShortGroups(a, b);
    GroupExact(a, b, 0);
    hide Encode, Group, First, Second, Third, Fourth, High, Middle, Low, ToChar, FromChar, InAlphabet;
    var t := Encode([a, b]);
    assert |t| == 3;
    assert AllInAlphabet(t + "A") ==> AllInAlphabet(t) by {
      assert forall i | 0 <= i < |t| :: t[i] == (t + "A")[i];
    }
    assert t[2] == Group(a, b, 0)[2];
    assert Ungroup(t + "A")[..2] == [a, b];
  }

  lemma SameFront(t: string, u: string, tail: string)
    requires t + tail == u + tail
    ensures t == u
  {
    assert |t| == |u|;
    assert (t + tail)[..|t|] == t && (u + tail)[..|t|] == u;
  }

  // A short text is the front of the group that its bytes make with zeros behind them.
  lemma TwoCharsGroup(t: string)
    requires |t| == 2 && AllInAlphabet(t) && FromChar(t[1]) % 16 == 0
    ensures AllInAlphabet(t + "AA") && Ungroup(t + "AA")[1] == 0 && Ungroup(t + "AA")[2] == 0
  {
  }

  lemma TwoCharsUnique(t: string)
    requires |t| == 2 && Decode(t).Some?
    ensures Encode(Decode(t).value) == t
  {
    DecodeTwo(t);
    TwoCharsGroup(t);
    hide *;
    var a := Ungroup(t + "AA")[0];
    UngroupExact(t + "AA");
    ShortGroups(a, 0);
    SameFront(Encode([a]), t, "AA");
  }

  lemma ThreeCharsUnique(t: string)
    requires |t| == 3 && Decode(t).Some?
    ensures Encode(Decode(t).value) == t
  {
    var u := t + "A";
    UngroupExact(u);
    assert Ungroup(u)[2] == 0;
    hide Group, Ungroup;
    assert Decode(t).value == [Ungroup(u)[0], Ungroup(u)[1]];
    assert u[..3] == t;
  }

  // A full group in front.
  lemma DecodeMore(g: string, t: string)
    requires |g| == 4 && AllInAlphabet(g) && Decode(t).Some?
    ensures Decode(g + t) == Some(Ungroup(g) + Decode(t).value)
  {
    hide Ungroup, AllInAlphabet;
    assert (g + t)[..4] == g && (g + t)[4..] == t;
  }

  lemma EncodeMore(s: seq<byte>)
    requires |s| > 2
    ensures Encode(s) == Group(s[0], s[1], s[2]) + Encode(s[3..])
    ensures |Group(s[0], s[1], s[2])| == 4
  {
  }

  lemma InAlphabetBoth(t: string, u: string)
    requires AllInAlphabet(t) && AllInAlphabet(u)
    ensures AllInAlphabet(t + u)
  {
  }

  lemma FrontOf(s: seq<byte>)
    requires |s| > 2
    ensures s == [s[0], s[1], s[2]] + s[3..]
  {
  }

  lemma DecodeEncodeMore(s: seq<byte>)
    requires |s| > 2 && Decode(Encode(s[3..])) == Some(s[3..]) && AllInAlphabet(Encode(s[3..]))
    ensures Decode(Encode(s)) == Some(s) && AllInAlphabet(Encode(s))
  {
    hide *;
    var group, text := Group(s[0], s[1], s[2]), Encode(s[3..]);
    GroupExact(s[0], s[1], s[2]);
    EncodeMore(s);
    InAlphabetBoth(group, text);
    DecodeMore(group, text);
    FrontOf(s);
  }

  // Six bits a character, rounded up.
  lemma {:induction false} EncodedLength(s: seq<byte>)
    ensures |Encode(s)| == (|s| * 4 + 2) / 3
  {
    if |s| > 2 {
      EncodedLength(s[3..]);
      EncodeMore(s);
    }
  }

  // Decoding undoes encoding.
  lemma {:induction false} DecodeEncode(s: seq<byte>)
    ensures Decode(Encode(s)) == Some(s)
    ensures AllInAlphabet(Encode(s))
    ensures |Encode(s)| == (|s| * 4 + 2) / 3
  {
    EncodedLength(s);
    hide Encode, Decode;
    if s == [] {
      NothingEncoded();
    } else if |s| == 1 {
      OneByteExact(s[0]);
      assert s == [s[0]];
    } else if |s| == 2 {
      TwoBytesExact(s[0], s[1]);
      assert s == [s[0], s[1]];
    } else {
      DecodeEncode(s[3..]);
      DecodeEncodeMore(s);
    }
  }

  lemma NothingEncoded()
    ensures Decode(Encode([])) == Some([]) && AllInAlphabet(Encode([]))
  {
  }

  // And only the encoding of some bytes decodes to them: there is one text for every byte string.
  lemma {:induction false} EncodeDecode(t: string)
    requires Decode(t).Some?
    ensures Encode(Decode(t).value) == t
  {
    if |t| == 2 {
      TwoCharsUnique(t);
    } else if |t| == 3 {
      ThreeCharsUnique(t);
    } else if |t| >= 4 {
      EncodeDecode(t[4..]);
      UngroupExact(t[..4]);
      var s := Decode(t).value;
      assert s[3..] == Decode(t[4..]).value;
      assert t == t[..4] + t[4..];
    }
  }
}
