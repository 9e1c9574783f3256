// read_progress in agent/src/engine.rs: FFmpeg's counters, read from stdout in chunks with one
// bounded line buffer. Here text is a sequence of Unicode code points.
module ProgressLines {
  import opened Basics

  const NEWLINE: byte := 10
  const LINE_LIMIT: nat := 1024

  // ---- the meaning of one line

  type CodePoint = nat

  function Ascii(text: string): seq<CodePoint> { seq(|text|, i requires 0 <= i < |text| => text[i] as nat) }

  predicate Continuation(b: byte) { 0x80 <= b <= 0xBF }

  // The length of the first UTF-8 sequence (Unicode standard, table 3-7), 0 if it is ill-formed.
  function SequenceLength(s: seq<byte>): (n: nat)
    requires s != []
    ensures n <= |s|
  {
    var b := s[0];
    if b <= 0x7F then 1
    else if 0xC2 <= b <= 0xDF && |s| >= 2 && Continuation(s[1]) then 2
    else if 0xE0 <= b <= 0xEF && |s| >= 3 && Continuation(s[1]) && Continuation(s[2])
            && (b == 0xE0 ==> s[1] >= 0xA0) && (b == 0xED ==> s[1] <= 0x9F) then 3
    else if 0xF0 <= b <= 0xF4 && |s| >= 4 && Continuation(s[1]) && Continuation(s[2]) && Continuation(s[3])
            && (b == 0xF0 ==> s[1] >= 0x90) && (b == 0xF4 ==> s[1] <= 0x8F) then 4
    else 0
  }

  function FirstCodePoint(s: seq<byte>): CodePoint
    requires s != [] && SequenceLength(s) > 0
  {
    match SequenceLength(s)
    case 1 => s[0]
    case 2 => (s[0] as int - 0xC0) * 64 + s[1] as int - 0x80
    case 3 => ((s[0] as int - 0xE0) * 64 + s[1] as int - 0x80) * 64 + s[2] as int - 0x80
    case _ => (((s[0] as int - 0xF0) * 64 + s[1] as int - 0x80) * 64 + s[2] as int - 0x80) * 64 + s[3] as int - 0x80
  }

  // std::str::from_utf8
  function Utf8(s: seq<byte>): Option<seq<CodePoint>>
    decreases |s|
  {
    if s == [] then Some([])
    else if SequenceLength(s) == 0 then None
    else match Utf8(s[SequenceLength(s)..])
      case Some(rest) => Some([FirstCodePoint(s)] + rest)
      case None => None
  }

  predicate IsScalar(c: CodePoint) { c < 0xD800 || 0xE000 <= c < 0x11_0000 }

  // The UTF-8 form of a scalar value: a lead byte and up to three continuation bytes of six bits.
  function Utf8Form(c: CodePoint): seq<byte>
    requires IsScalar(c)
  {
    if c < 0x80 then [c]
    else if c < 0x800 then [0xC0 + c / 64, Tail(c)]
    else if c < 0x1_0000 then [0xE0 + c / 64 / 64, Tail(c / 64), Tail(c)]
    else [0xF0 + c / 64 / 64 / 64, Tail(c / 64 / 64), Tail(c / 64), Tail(c)]
  }

  function Tail(c: nat): byte { 0x80 + c % 64 }

  function Utf8Text(t: seq<CodePoint>): seq<byte>
    requires AllScalar(t)
  {
    if t == [] then [] else Utf8Form(t[0]) + Utf8Text(t[1..])
  }

  lemma SixBits(h: nat, l: nat)
    requires l < 64
    ensures (h * 64 + l) / 64 == h && Tail(h * 64 + l) == 0x80 + l
  {
  }

  lemma FormIsSequence(c: CodePoint, rest: seq<byte>)
    requires IsScalar(c)
    ensures SequenceLength(Utf8Form(c) + rest) == |Utf8Form(c)|
    ensures FirstCodePoint(Utf8Form(c) + rest) == c
  {
    var s := Utf8Form(c) + rest;
    assert forall i | 0 <= i < |Utf8Form(c)| :: s[i] == Utf8Form(c)[i];
    var d, e, f := c / 64, c / 64 / 64, c / 64 / 64 / 64;
    assert c == d * 64 + c % 64 && d == e * 64 + d % 64 && e == f * 64 + e % 64;
  }

  lemma FormOfTwo(h: nat, l: nat)
    requires l < 64 && 0x80 <= h * 64 + l < 0x800
    ensures Utf8Form(h * 64 + l) == [0xC0 + h, 0x80 + l]
  {
    SixBits(h, l);
  }

  lemma FormOfThree(h: nat, m: nat, l: nat)
    requires m < 64 && l < 64
    requires 0x800 <= (h * 64 + m) * 64 + l < 0x1_0000 && IsScalar((h * 64 + m) * 64 + l)
    ensures Utf8Form((h * 64 + m) * 64 + l) == [0xE0 + h, 0x80 + m, 0x80 + l]
  {
    SixBits(h * 64 + m, l);
    SixBits(h, m);
    hide Tail;
  }

  lemma FormOfFour(h: nat, m: nat, n: nat, l: nat)
    requires m < 64 && n < 64 && l < 64 && 0x1_0000 <= ((h * 64 + m) * 64 + n) * 64 + l < 0x11_0000
    ensures Utf8Form(((h * 64 + m) * 64 + n) * 64 + l) == [0xF0 + h, 0x80 + m, 0x80 + n, 0x80 + l]
  {
    SixBits((h * 64 + m) * 64 + n, l);
    SixBits(h * 64 + m, n);
    SixBits(h, m);
    hide Tail;
  }

  lemma SequenceIsForm(s: seq<byte>)
    requires s != [] && SequenceLength(s) > 0
    ensures IsScalar(FirstCodePoint(s)) && Utf8Form(FirstCodePoint(s)) == s[..SequenceLength(s)]
  {
    hide Utf8Form;
    match SequenceLength(s)
    case 1 => SmallForm(s[0]);
    case 2 => FormOfTwo(s[0] - 0xC0, s[1] - 0x80);
    case 3 => FormOfThree(s[0] - 0xE0, s[1] - 0x80, s[2] - 0x80);
    case _ => FormOfFour(s[0] - 0xF0, s[1] - 0x80, s[2] - 0x80, s[3] - 0x80);
  }

  lemma SmallForm(c: CodePoint)
    requires c < 0x80
    ensures Utf8Form(c) == [c]
  {
  }

  ghost predicate AllScalar(t: seq<CodePoint>) {
    forall i | 0 <= i < |t| :: IsScalar(t[i])
  }

  // One code point in front.
  lemma Utf8Cons(c: CodePoint, rest: seq<byte>)
    requires IsScalar(c)
    ensures Utf8(Utf8Form(c) + rest) == if Utf8(rest).Some? then Some([c] + Utf8(rest).value) else None
  {
    FormIsSequence(c, rest);
    hide SequenceLength, FirstCodePoint, Utf8Form, IsScalar;
    var s := Utf8Form(c) + rest;
    assert s[|Utf8Form(c)|..] == rest;
  }

  lemma {:induction false} Utf8OfText(t: seq<CodePoint>)
    requires AllScalar(t)
    ensures Utf8(Utf8Text(t)) == Some(t)
  {
    if t != [] {
      hide IsScalar, Utf8Form, Utf8;
      Utf8OfText(t[1..]);
      Utf8Cons(t[0], Utf8Text(t[1..]));
      assert t == [t[0]] + t[1..];
    } else {
      NoText();
    }
  }

  lemma NoText()
    ensures Utf8([]) == Some([]) && AllScalar([]) && Utf8Text([]) == []
  {
  }

  lemma Utf8Front(s: seq<byte>)
    requires s != [] && Utf8(s).Some?
    ensures SequenceLength(s) > 0 && Utf8(s[SequenceLength(s)..]).Some?
    ensures Utf8(s).value == [FirstCodePoint(s)] + Utf8(s[SequenceLength(s)..]).value
  {
    hide SequenceLength, FirstCodePoint;
  }

  lemma TextCons(c: CodePoint, rest: seq<CodePoint>)
    requires IsScalar(c) && AllScalar(rest)
    ensures AllScalar([c] + rest) && Utf8Text([c] + rest) == Utf8Form(c) + Utf8Text(rest)
  {
    hide IsScalar, Utf8Form;
    assert ([c] + rest)[1..] == rest;
  }

  lemma {:induction false} TextOfUtf8(s: seq<byte>)
    requires Utf8(s).Some?
    ensures AllScalar(Utf8(s).value) && s == Utf8Text(Utf8(s).value)
    decreases |s|
  {
    hide *;
    if s == [] {
      NoText();
    } else {
      var n := SequenceLength(s);
      Utf8Front(s);
      SequenceIsForm(s);
      TextOfUtf8(s[n..]);
      TextCons(FirstCodePoint(s), Utf8(s[n..]).value);
      assert s == s[..n] + s[n..];
    }
  }

  // from_utf8 accepts exactly the UTF-8 forms of texts, and gives the text.
  lemma Utf8Exact(s: seq<byte>, t: seq<CodePoint>)
    ensures Utf8(s) == Some(t) <==> AllScalar(t) && s == Utf8Text(t)
  {
    hide Utf8, AllScalar;
    if Utf8(s).Some? {
      TextOfUtf8(s);
    }
    if AllScalar(t) {
      Utf8OfText(t);
    }
  }

  // The Unicode property White_Space.
  predicate IsWhitespace(c: CodePoint) {
    || 9 <= c <= 13 || c == 0x20 || c == 0x85 || c == 0xA0 || c == 0x1680 || 0x2000 <= c <= 0x200A
    || c == 0x2028 || c == 0x2029 || c == 0x202F || c == 0x205F || c == 0x3000
  }

  function TrimStart(t: seq<CodePoint>): seq<CodePoint> {
    if t != [] && IsWhitespace(t[0]) then TrimStart(t[1..]) else t
  }

  function TrimEnd(t: seq<CodePoint>): seq<CodePoint> {
    if t != [] && IsWhitespace(t[|t| - 1]) then TrimEnd(t[..|t| - 1]) else t
  }

  function Trim(t: seq<CodePoint>): seq<CodePoint> { TrimEnd(TrimStart(t)) }

  // Index of the first '=', or the length.
  function FirstEquals(t: seq<CodePoint>): (n: nat)
    ensures n <= |t|
  {
    if t == [] || t[0] == '=' as nat then 0 else 1 + FirstEquals(t[1..])
  }

  predicate AllDigits(t: seq<CodePoint>) {
    forall i | 0 <= i < |t| :: '0' as nat <= t[i] <= '9' as nat
  }

  function NumeralValue(t: seq<CodePoint>): nat
    requires AllDigits(t)
  {
    if t == [] then 0 else 10 * NumeralValue(t[..|t| - 1]) + (t[|t| - 1] - '0' as nat)
  }

  // str::parse::<u64>: one leading '+' is allowed, at least one digit is needed, and the value must fit.
  function ParseU64(t: seq<CodePoint>): Option<nat> {
    var digits := if t != [] && t[0] == '+' as nat then t[1..] else t;
    if digits != [] && AllDigits(digits) && NumeralValue(digits) < U64_LIMIT
    then Some(NumeralValue(digits)) else None
  }

  const KEYS: seq<string> := ["frame", "out_time_us", "total_size"]

  type Key = k: nat | k < 3

  function KeyIndex(key: seq<CodePoint>): Option<Key> {
    if key == Ascii(KEYS[0]) then Some(0)
    else if key == Ascii(KEYS[1]) then Some(1)
    else if key == Ascii(KEYS[2]) then Some(2)
    else None
  }

  // A counter update: which of the keys, and the value.
  datatype Counter = Counter(key: Key, value: nat)

  function CounterOf(text: seq<CodePoint>): Option<Counter> {
    var line := Trim(text);
    var n := FirstEquals(line);
    if n == |line| || KeyIndex(line[..n]).None? || ParseU64(Trim(line[n + 1..])).None? then None
    else Some(Counter(KeyIndex(line[..n]).value, ParseU64(Trim(line[n + 1..])).value))
  }

  function LineCounter(line: seq<byte>): Option<Counter> {
    if |line| > LINE_LIMIT || Utf8(line).None? then None else CounterOf(Utf8(line).value)
  }

  // ---- the meaning of the whole of stdout

  // What follows the last newline.
  function Rest(stream: seq<byte>): seq<byte> {
    if stream == [] || stream[|stream| - 1] == NEWLINE then []
    else Rest(stream[..|stream| - 1]) + [stream[|stream| - 1]]
  }

  // The newline-terminated lines, without their newlines.
  function Lines(stream: seq<byte>): seq<seq<byte>> {
    if stream == [] then []
    else
      var before := stream[..|stream| - 1];
      Lines(before) + if stream[|stream| - 1] == NEWLINE then [Rest(before)] else []
  }

  function Terminated(lines: seq<seq<byte>>): seq<byte> {
    if lines == [] then [] else Terminated(lines[..|lines| - 1]) + lines[|lines| - 1] + [NEWLINE]
  }

  // The lines and the rest put the stream together again, and hold no newline.
  lemma {:induction false} SplitExact(stream: seq<byte>)
    ensures Terminated(Lines(stream)) + Rest(stream) == stream
    ensures NEWLINE !in Rest(stream) && forall line | line in Lines(stream) :: NEWLINE !in line
  {
    if stream != [] {
      var n := |stream| - 1;
      var before := stream[..n];
      SplitExact(before);
      assert stream == before + [stream[n]];
      if stream[n] == NEWLINE {
        assert Lines(stream)[..|Lines(before)|] == Lines(before);
        assert Terminated(Lines(stream)) == Terminated(Lines(before)) + Rest(before) + [NEWLINE];
        assert Terminated(Lines(stream)) + Rest(stream) == Terminated(Lines(stream));
      } else {
        assert Lines(stream) == Lines(before);
        assert Rest(stream) == Rest(before) + [stream[n]];
      }
    }
  }

  datatype Tally = Tally(maxima: seq<nat>, touches: nat)

  function Counters(lines: seq<seq<byte>>): seq<Option<Counter>> {
    seq(|lines|, i requires 0 <= i < |lines| => LineCounter(lines[i]))
  }

  // A counter above its maximum replaces it and is a touch; other lines do nothing.
  function Count(tally: Tally, counter: Option<Counter>): Tally
    requires |tally.maxima| == 3
  {
    if counter.Some? && counter.value.value > tally.maxima[counter.value.key]
    then Tally(tally.maxima[counter.value.key := counter.value.value], tally.touches + 1)
    else tally
  }

  function TallyOf(counters: seq<Option<Counter>>): (tally: Tally)
    ensures |tally.maxima| == 3
  {
    if counters == [] then Tally([0, 0, 0], 0)
    else Count(TallyOf(counters[..|counters| - 1]), counters[|counters| - 1])
  }

  // The maxima are maxima: no counter is greater, and each was reported by some line unless it is 0.
  lemma {:induction false} TallyIsMaximum(counters: seq<Option<Counter>>, key: Key)
    ensures forall value | Some(Counter(key, value)) in counters :: value <= TallyOf(counters).maxima[key]
    ensures var m := TallyOf(counters).maxima[key]; m == 0 || Some(Counter(key, m)) in counters
  {
    if counters != [] {
      var n := |counters| - 1;
      TallyIsMaximum(counters[..n], key);
      assert counters == counters[..n] + [counters[n]];
    }
  }

  // Counter i is a strict increase over everything before it.
  ghost predicate Increases(counters: seq<Option<Counter>>, i: nat)
    requires i < |counters|
  {
    counters[i].Some? && counters[i].value.value > TallyOf(counters[..i]).maxima[counters[i].value.key]
  }

  ghost function IncreasesBelow(counters: seq<Option<Counter>>, n: nat): set<nat>
    requires n <= |counters|
  {
    set i: nat | i < n && Increases(counters, i)
  }

  lemma IncreasesStep(counters: seq<Option<Counter>>, n: nat)
    requires n < |counters|
    ensures IncreasesBelow(counters, n + 1) ==
            IncreasesBelow(counters, n) + if Increases(counters, n) then {n} else {}
  {
    forall i: nat
      ensures i in IncreasesBelow(counters, n + 1) <==>
              i in IncreasesBelow(counters, n) || (i == n && Increases(counters, n))
    {
    }
  }

  lemma TallyStep(counters: seq<Option<Counter>>, n: nat)
    requires n < |counters|
    ensures TallyOf(counters[..n + 1]) == Count(TallyOf(counters[..n]), counters[n])
  {
    assert counters[..n + 1][..n] == counters[..n];
  }

  // The touches count exactly the strict increases.
  lemma {:induction false} TouchesCountIncreases(counters: seq<Option<Counter>>, n: nat)
    requires n <= |counters|
    ensures TallyOf(counters[..n]).touches == |IncreasesBelow(counters, n)|
  {
    if n > 0 {
      TouchesCountIncreases(counters, n - 1);
      IncreasesStep(counters, n - 1);
      TallyStep(counters, n - 1);
      assert n - 1 !in IncreasesBelow(counters, n - 1);
      hide TallyOf, IncreasesBelow;
    }
  }

  // ---- the reader

  // What the bounded buffer keeps of the rest.
  function Kept(rest: seq<byte>): seq<byte> { rest[..Min(|rest|, LINE_LIMIT)] }

  lemma KeptStep(rest: seq<byte>, b: byte)
    ensures Kept(rest + [b]) == if |Kept(rest)| < LINE_LIMIT then Kept(rest) + [b] else Kept(rest)
    ensures |rest| <= LINE_LIMIT ==> Kept(rest) == rest
    ensures |Kept(rest)| < LINE_LIMIT ==> |rest| < LINE_LIMIT
  {
  }

  class Reader {
    var line: seq<byte>
    var overflow: bool
    var maxima: seq<nat>
    var touches: nat
    ghost var stream: seq<byte>  // all of stdout so far

    // The buffer holds at most LINE_LIMIT bytes of the unterminated rest; the counters are those of
    // the terminated lines. So the state depends on the bytes read, not on how they were chunked.
    ghost predicate Valid()
      reads this
    {
      && line == Kept(Rest(stream))
      && (overflow <==> |Rest(stream)| > LINE_LIMIT)
      && Tally(maxima, touches) == TallyOf(Counters(Lines(stream)))
    }

    constructor ()
      ensures Valid() && stream == []
    {
      line, overflow, maxima, touches, stream := [], false, [0, 0, 0], 0, [];
    }

    method EndLine()
      requires |maxima| == 3 && |line| <= LINE_LIMIT
      modifies this`maxima, this`touches
      ensures Tally(maxima, touches) ==
              if overflow then Tally(old(maxima), old(touches))
              else Count(Tally(old(maxima), old(touches)), LineCounter(line))
    {
      hide Utf8, Trim, FirstEquals, KeyIndex, ParseU64;
      if !overflow && Utf8(line).Some? {
        var text := Trim(Utf8(line).value);
        var n := FirstEquals(text);
        if n < |text| {
          var index := KeyIndex(text[..n]);
          var value := ParseU64(Trim(text[n + 1..]));
          if index.Some? && value.Some? && value.value > maxima[index.value] {
            maxima := maxima[index.value := value.value];
            touches := touches + 1;
          }
        }
      }
    }

    // One byte of the buffer.
    method Take(b: byte)
      requires Valid()
      modifies this
      ensures Valid() && stream == old(stream) + [b]
    {
      ghost var before := stream;
      hide Rest, Lines, TallyOf, Counters, LineCounter;
      stream := stream + [b];
      KeptStep(Rest(before), b);
      if b == NEWLINE {
        NewLine(before);
        EndLine();
        line, overflow := [], false;
      } else {
        OtherByte(before, b);
        if |line| < LINE_LIMIT {
          line := line + [b];
        } else {
          overflow := true;
        }
      }
    }

    // One successful read of stdout.
    method Feed(buffer: seq<byte>)
      requires Valid()
      modifies this
      ensures Valid() && stream == old(stream) + buffer
    {
      hide Rest, Lines, TallyOf, Counters, Kept;
      for i := 0 to |buffer|
        invariant Valid() && stream == old(stream) + buffer[..i]
      {
        Take(buffer[i]);
        assert stream == old(stream) + (buffer[..i] + [buffer[i]]);
        assert buffer[..i + 1] == buffer[..i] + [buffer[i]];
      }
      assert buffer[..|buffer|] == buffer;
    }
  }

  lemma TooLong(line: seq<byte>)
    ensures |line| > LINE_LIMIT ==> LineCounter(line).None?
  {
  }

  lemma LineEnds(stream: seq<byte>)
    ensures Lines(stream + [NEWLINE]) == Lines(stream) + [Rest(stream)] && Rest(stream + [NEWLINE]) == []
  {
    assert (stream + [NEWLINE])[..|stream|] == stream;
  }

  // A newline ends the rest as one more line, which counts only within the limit.
  lemma {:induction false} NewLine(stream: seq<byte>)
    ensures var counters := Counters(Lines(stream));
            && Rest(stream + [NEWLINE]) == []
            && Counters(Lines(stream + [NEWLINE])) == counters + [LineCounter(Rest(stream))]
            && TallyOf(Counters(Lines(stream + [NEWLINE]))) == Count(TallyOf(counters), LineCounter(Rest(stream)))
            && (|Rest(stream)| > LINE_LIMIT ==> LineCounter(Rest(stream)).None?)
  {
    var counters := Counters(Lines(stream));
    LineEnds(stream);
    hide Lines, Rest, LineCounter;
    assert LineCounter(Rest(stream)).None? || |Rest(stream)| <= LINE_LIMIT by {
      TooLong(Rest(stream));
    }
    assert Counters(Lines(stream + [NEWLINE])) == counters + [LineCounter(Rest(stream))];
    assert (counters + [LineCounter(Rest(stream))])[..|counters|] == counters;
  }

  lemma OtherByte(stream: seq<byte>, b: byte)
    requires b != NEWLINE
    ensures Rest(stream + [b]) == Rest(stream) + [b] && Lines(stream + [b]) == Lines(stream)
  {
    assert (stream + [b])[..|stream|] == stream;
  }

  // The split is the only one: any newline-free lines and rest are found again in what they form.
  lemma {:induction false} SplitOfJoin(lines: seq<seq<byte>>, rest: seq<byte>)
    requires NEWLINE !in rest && forall line | line in lines :: NEWLINE !in line
    ensures Lines(Terminated(lines) + rest) == lines && Rest(Terminated(lines) + rest) == rest
    decreases |lines|, |rest|
  {
    if rest != [] {
      hide Lines, Rest, Terminated;
      var front, b := rest[..|rest| - 1], rest[|rest| - 1];
      assert rest == front + [b];
      SplitOfJoin(lines, front);
      OtherByte(Terminated(lines) + front, b);
      assert Terminated(lines) + front + [b] == Terminated(lines) + rest;
    } else if lines != [] {
      var front, last := lines[..|lines| - 1], lines[|lines| - 1];
      hide Lines, Rest;
      SplitOfJoin(front, last);
      LineEnds(Terminated(front) + last);
      hide Terminated;
      assert lines == front + [last];
      assert Terminated(lines) + rest == Terminated(front) + last + [NEWLINE];
    } else {
      assert Terminated(lines) + rest == [];
    }
  }

  // ---- which texts are numbers

  function Zeros(k: nat): seq<CodePoint> { seq(k, i => '0' as nat) }

  // The text of v behind k zeros.
  ghost predicate Padded(t: seq<CodePoint>, v: nat, k: nat) { t == Zeros(k) + Ascii(Decimal(v)) }

  // Digits with a value are its decimal numeral behind any number of zeros, and nothing else.
  lemma {:induction false} NumeralExact(t: seq<CodePoint>, v: nat)
    ensures t != [] && AllDigits(t) && NumeralValue(t) == v <==> exists k :: Padded(t, v, k)
  {
    if t != [] && AllDigits(t) && NumeralValue(t) == v {
      NumeralIsDecimal(t);
    }
    if k :| Padded(t, v, k) {
      NumeralOfDecimal(v);
      ZerosInFront(k, Ascii(Decimal(v)));
    }
  }

  lemma {:induction false} ZerosInFront(k: nat, t: seq<CodePoint>)
    requires AllDigits(t)
    ensures AllDigits(Zeros(k) + t) && NumeralValue(Zeros(k) + t) == NumeralValue(t)
  {
    var all := Zeros(k) + t;
    if t != [] {
      ZerosInFront(k, t[..|t| - 1]);
      assert all[..|all| - 1] == Zeros(k) + t[..|t| - 1];
    } else if k > 0 {
      ZerosInFront(k - 1, t);
      assert all[..|all| - 1] == Zeros(k - 1) + t;
    }
  }

  lemma AsciiStep(v: nat, d: nat)
    requires d < 10
    ensures Ascii(Decimal(d)) == ['0' as nat + d]
    ensures v > 0 ==> Ascii(Decimal(10 * v + d)) == Ascii(Decimal(v)) + ['0' as nat + d]
  {
    var text := Decimal(10 * v + d);
    assert (10 * v + d) / 10 == v && (10 * v + d) % 10 == d;
    if v > 0 {
      assert text == Decimal(v) + [Digit(d)];
    }
  }

  lemma PaddedStep(t: seq<CodePoint>, v: nat, k: nat, d: nat)
    requires Padded(t, v, k) && d < 10
    ensures Padded(t + ['0' as nat + d], 10 * v + d, if v == 0 then k + 1 else k)
  {
    AsciiStep(v, d);
    AsciiStep(0, 0);
    hide Ascii, Decimal;
    if v == 0 {
      assert t == Zeros(k + 1);
    }
  }

  lemma NumeralStep(t: seq<CodePoint>, d: nat)
    requires AllDigits(t) && d < 10
    ensures AllDigits(t + ['0' as nat + d]) && NumeralValue(t + ['0' as nat + d]) == 10 * NumeralValue(t) + d
  {
    assert (t + ['0' as nat + d])[..|t|] == t;
  }

  lemma DigitPadded(d: nat)
    requires d < 10
    ensures Padded(['0' as nat + d], d, 0)
  {
    AsciiStep(0, d);
  }

  lemma {:induction false} NumeralIsDecimal(t: seq<CodePoint>)
    requires t != [] && AllDigits(t)
    ensures exists k :: Padded(t, NumeralValue(t), k)
  {
    var front, d := t[..|t| - 1], t[|t| - 1] - '0' as nat;
    NumeralStep(front, d);
    assert NumeralValue([]) == 0;
    hide Padded, NumeralValue;
    assert t == front + ['0' as nat + d];
    if front == [] {
      DigitPadded(d);
      assert t == ['0' as nat + d];
    } else {
      NumeralIsDecimal(front);
      var k: nat :| Padded(front, NumeralValue(front), k);
      PaddedStep(front, NumeralValue(front), k, d);
      assert Padded(t, NumeralValue(t), if NumeralValue(front) == 0 then k + 1 else k);
    }
  }

  // parse::<u64>, in both directions: an optional plus sign, any zeros, and the decimal numeral of a
  // u64. So an empty text, a minus sign, any other character and an overflow are refused.
  ghost predicate IsNumber(t: seq<CodePoint>, v: nat) {
    && v < U64_LIMIT
    && ((exists k :: Padded(t, v, k)) || (t != [] && t[0] == '+' as nat && exists k :: Padded(t[1..], v, k)))
  }

  lemma ParseU64Exact(t: seq<CodePoint>, v: nat)
    ensures ParseU64(t) == Some(v) <==> IsNumber(t, v)
  {
    NumeralExact(t, v);
    if t != [] && t[0] == '+' as nat {
      assert !AllDigits(t);
      NumeralExact(t[1..], v);
    }
    hide Padded, NumeralValue, AllDigits;
  }

  // ---- what trimming leaves

  lemma {:induction false} TrimStartExact(t: seq<CodePoint>)
    ensures var n := |t| - |TrimStart(t)|;
            && 0 <= n && t[n..] == TrimStart(t) && (forall i | 0 <= i < n :: IsWhitespace(t[i]))
            && (TrimStart(t) != [] ==> !IsWhitespace(TrimStart(t)[0]))
  {
    if t != [] && IsWhitespace(t[0]) {
      var rest := t[1..];
      var n := |rest| - |TrimStart(rest)|;
      TrimStartExact(rest);
      assert TrimStart(t) == TrimStart(rest);
      hide IsWhitespace, TrimStart;
      assert t[n + 1..] == rest[n..];
      assert forall i | 0 < i <= n :: t[i] == rest[i - 1];
    }
  }

  lemma {:induction false} TrimEndExact(t: seq<CodePoint>)
    ensures var n := |TrimEnd(t)|;
            && n <= |t| && t[..n] == TrimEnd(t) && (forall i | n <= i < |t| :: IsWhitespace(t[i]))
            && (n > 0 ==> !IsWhitespace(t[n - 1]))
  {
    if t != [] && IsWhitespace(t[|t| - 1]) {
      TrimEndExact(t[..|t| - 1]);
      hide IsWhitespace;
    }
  }

  // Trimming cuts whitespace off both ends, and leaves a text that has none there.
  lemma TrimExact(t: seq<CodePoint>)
    ensures exists i, j :: Trims(t, i, j) && Trim(t) == t[i..j]
  {
    TrimStartExact(t);
    TrimEndExact(TrimStart(t));
    var i := |t| - |TrimStart(t)|;
    assert Trims(t, i, i + |Trim(t)|);
  }

  ghost predicate Trims(t: seq<CodePoint>, i: int, j: int) {
    && 0 <= i <= j <= |t|
    && (forall k | 0 <= k < |t| && !(i <= k < j) :: IsWhitespace(t[k]))
    && (i < j ==> !IsWhitespace(t[i]) && !IsWhitespace(t[j - 1]))
  }

  // The characters of the Unicode property White_Space.
  lemma WhitespaceExact(c: CodePoint)
    ensures IsWhitespace(c) <==>
            c in {0x09, 0x0A, 0x0B, 0x0C, 0x0D, 0x20, 0x85, 0xA0, 0x1680,
                  0x2000, 0x2001, 0x2002, 0x2003, 0x2004, 0x2005, 0x2006, 0x2007, 0x2008, 0x2009, 0x200A,
                  0x2028, 0x2029, 0x202F, 0x205F, 0x3000}
  {
  }

  // ---- FFmpeg's own lines are understood

  lemma {:induction false} AsciiUtf8(s: seq<byte>)
    requires forall i | 0 <= i < |s| :: s[i] < 0x80
    ensures Utf8(s).Some? && Utf8(s).value == s
  {
    if s != [] {
      AsciiUtf8(s[1..]);
      assert s == [s[0]] + s[1..];
    }
  }

  lemma {:induction false} NumeralOfDecimal(v: nat)
    ensures AllDigits(Ascii(Decimal(v))) && NumeralValue(Ascii(Decimal(v))) == v
  {
    var t := Ascii(Decimal(v));
    if v < 10 {
      assert t == [Digit(v) as nat];
      assert t[..0] == [];
    } else {
      NumeralOfDecimal(v / 10);
      assert t == Ascii(Decimal(v / 10)) + [Digit(v % 10) as nat];
      assert t[..|t| - 1] == Ascii(Decimal(v / 10));
    }
  }

  lemma {:induction false} FirstEqualsAt(key: seq<CodePoint>, tail: seq<CodePoint>)
    requires '=' as nat !in key && tail != [] && tail[0] == '=' as nat
    ensures FirstEquals(key + tail) == |key|
  {
    if key == [] {
      assert key + tail == tail;
    } else {
      assert (key + tail)[1..] == key[1..] + tail;
      FirstEqualsAt(key[1..], tail);
    }
  }

  lemma {:induction false} TrimBlanks(blanks: seq<CodePoint>, t: seq<CodePoint>)
    requires forall i | 0 <= i < |blanks| :: IsWhitespace(blanks[i])
    requires t != [] && !IsWhitespace(t[0]) && !IsWhitespace(t[|t| - 1])
    ensures Trim(blanks + t) == t
  {
    if blanks == [] {
      assert blanks + t == t;
    } else {
      assert (blanks + t)[1..] == blanks[1..] + t;
      TrimBlanks(blanks[1..], t);
    }
  }

  // The number as printed, after an optional plus sign.
  function Numeral(value: nat, plus: bool): seq<CodePoint> {
    if plus then ['+' as nat] + Ascii(Decimal(value)) else Ascii(Decimal(value))
  }

  lemma ParseDigits(digits: seq<CodePoint>)
    requires digits != [] && AllDigits(digits) && NumeralValue(digits) < U64_LIMIT
    ensures ParseU64(digits) == Some(NumeralValue(digits)) == ParseU64(['+' as nat] + digits)
    ensures !IsWhitespace(digits[0]) && !IsWhitespace(digits[|digits| - 1])
  {
    hide NumeralValue;
    assert (['+' as nat] + digits)[1..] == digits;
  }

  lemma ParseNumeral(value: nat, plus: bool)
    requires value < U64_LIMIT
    ensures ParseU64(Numeral(value, plus)) == Some(value)
    ensures Numeral(value, plus) != []
    ensures !IsWhitespace(Numeral(value, plus)[0]) && !IsWhitespace(Numeral(value, plus)[|Numeral(value, plus)| - 1])
  {
    NumeralOfDecimal(value);
    ParseDigits(Ascii(Decimal(value)));
    hide Decimal, NumeralValue, AllDigits, ParseU64, Ascii;
  }

  lemma NothingToTrim(t: seq<CodePoint>)
    requires t != [] && !IsWhitespace(t[0]) && !IsWhitespace(t[|t| - 1])
    ensures Trim(t) == t
  {
  }

  lemma KeysKnown(key: Key)
    ensures var name := Ascii(KEYS[key]);
            && KeyIndex(name) == Some(key)
            && name != [] && !IsWhitespace(name[0]) && '=' as nat !in name
  {
    var name := Ascii(KEYS[key]);
    assert |Ascii(KEYS[0])| == 5 && |Ascii(KEYS[1])| == 11 && |Ascii(KEYS[2])| == 10;
    forall i | 0 <= i < |name| ensures name[i] != '=' as nat {
      assert name[i] == KEYS[key][i] as nat;
    }
  }

  lemma {:induction false} FirstEqualsExact(t: seq<CodePoint>)
    ensures '=' as nat !in t[..FirstEquals(t)]
    ensures FirstEquals(t) < |t| ==> t[FirstEquals(t)] == '=' as nat
  {
    if t != [] && t[0] != '=' as nat {
      FirstEqualsExact(t[1..]);
      assert t[..FirstEquals(t)] == [t[0]] + t[1..][..FirstEquals(t[1..])];
    }
  }

  // The key stands before the first '=' and nowhere later.
  lemma KeyFirst(line: seq<CodePoint>, name: seq<CodePoint>, rest: seq<CodePoint>)
    requires '=' as nat !in name && line == name + ['=' as nat] + rest
    ensures FirstEquals(line) == |name| < |line|
    ensures line[..|name|] == name && line[|name| + 1..] == rest
  {
    FirstEqualsAt(name, ['=' as nat] + rest);
    assert line == name + (['=' as nat] + rest);
  }

  // Which texts are counters, in both directions: after trimming the line, the key stands exactly
  // before the first '=', and the rest is a number once it is trimmed.
  lemma CounterExact(text: seq<CodePoint>, key: Key, value: nat)
    ensures CounterOf(text) == Some(Counter(key, value)) <==>
            exists rest :: Trim(text) == Ascii(KEYS[key]) + ['=' as nat] + rest && IsNumber(Trim(rest), value)
  {
    hide Trim, ParseU64, KeyIndex, Ascii, IsNumber;
    var line, name := Trim(text), Ascii(KEYS[key]);
    var n := FirstEquals(line);
    FirstEqualsExact(line);
    KeysKnown(key);
    if CounterOf(text) == Some(Counter(key, value)) {
      KeyIndexExact(line[..n], key);
      ParseU64Exact(Trim(line[n + 1..]), value);
      assert line == name + ['=' as nat] + line[n + 1..];
    }
    if rest :| line == name + ['=' as nat] + rest && IsNumber(Trim(rest), value) {
      KeyFirst(line, name, rest);
      ParseU64Exact(Trim(rest), value);
    }
  }

  lemma KeyIndexExact(name: seq<CodePoint>, key: Key)
    ensures KeyIndex(name) == Some(key) <==> name == Ascii(KEYS[key])
  {
    KeysKnown(key);
  }

  lemma LineTrims(name: seq<CodePoint>, blanks: seq<CodePoint>, number: seq<CodePoint>)
    requires forall i | 0 <= i < |blanks| :: IsWhitespace(blanks[i])
    requires name != [] && !IsWhitespace(name[0])
    requires number != [] && !IsWhitespace(number[0]) && !IsWhitespace(number[|number| - 1])
    ensures Trim(name + ['=' as nat] + blanks + number) == name + ['=' as nat] + (blanks + number)
    ensures Trim(blanks + number) == number
  {
    var text := name + ['=' as nat] + blanks + number;
    hide IsWhitespace, Trim;
    assert text[0] == name[0] && text[|text| - 1] == number[|number| - 1];
    assert text == name + ['=' as nat] + (blanks + number);
    NothingToTrim(text);
    TrimBlanks(blanks, number);
  }

  // Printing a counter and reading the line gives the counter back, for every u64 value, with or
  // without a plus sign, and with blanks between the '=' and the number.
  lemma CounterRoundTrip(key: Key, value: nat, blanks: seq<CodePoint>, plus: bool)
    requires value < U64_LIMIT
    requires forall i | 0 <= i < |blanks| :: IsWhitespace(blanks[i])
    ensures CounterOf(Ascii(KEYS[key]) + ['=' as nat] + blanks + Numeral(value, plus)) == Some(Counter(key, value))
  {
    var name, number := Ascii(KEYS[key]), Numeral(value, plus);
    hide *;
    KeysKnown(key);
    ParseNumeral(value, plus);
    ParseU64Exact(number, value);
    LineTrims(name, blanks, number);
    CounterLine(name + ['=' as nat] + blanks + number, key, value, blanks + number);
  }

  lemma CounterLine(text: seq<CodePoint>, key: Key, value: nat, rest: seq<CodePoint>)
    requires Trim(text) == Ascii(KEYS[key]) + ['=' as nat] + rest && IsNumber(Trim(rest), value)
    ensures CounterOf(text) == Some(Counter(key, value))
  {
    CounterExact(text, key, value);
  }

  // The bytes of an ASCII line are its text.
  lemma AsciiLine(line: seq<byte>)
    requires forall i | 0 <= i < |line| :: line[i] < 0x80
    ensures LineCounter(line) == if |line| <= LINE_LIMIT then CounterOf(line) else None
  {
    AsciiUtf8(line);
  }

  function Power10(n: nat): nat { if n == 0 then 1 else 10 * Power10(n - 1) }

  lemma {:induction false} DecimalLength(v: nat, n: nat)
    requires n > 0 && v < Power10(n)
    ensures |Decimal(v)| <= n
  {
    if v >= 10 {
      DecimalLength(v / 10, n - 1);
    }
  }

  lemma U64Length(v: nat)
    requires v < U64_LIMIT
    ensures |Decimal(v)| <= 20
  {
    assert Power10(5) == 100000;
    assert Power10(10) == 100000 * 100000;
    assert Power10(20) >= U64_LIMIT;
    DecimalLength(v, 20);
  }

  // The line in which FFmpeg reports a counter is a string of ASCII characters, well within the limit.
  lemma PrintedLineFits(key: Key, value: nat)
    requires value < U64_LIMIT
    ensures var line := Ascii(KEYS[key] + "=" + Decimal(value));
            && |line| <= LINE_LIMIT && (forall i | 0 <= i < |line| :: line[i] < 0x80)
            && line == Ascii(KEYS[key]) + ['=' as nat] + [] + Numeral(value, false)
  {
    U64Length(value);
    NumeralOfDecimal(value);
    hide Decimal, NumeralValue;
    var text, digits := KEYS[key] + "=" + Decimal(value), Ascii(Decimal(value));
    forall i | 0 <= i < |text| ensures text[i] as nat < 0x80 {
      if i >= |KEYS[key]| + 1 {
        assert text[i] as nat == digits[i - |KEYS[key]| - 1];
      }
    }
  }

  // FFmpeg's own lines are always understood: the bytes of "key=value" give that counter, for every u64.
  lemma PrintedLineCounts(key: Key, value: nat, line: seq<byte>)
    requires value < U64_LIMIT && line == Ascii(KEYS[key] + "=" + Decimal(value))
    ensures LineCounter(line) == Some(Counter(key, value))
  {
    PrintedLineFits(key, value);
    AsciiLine(line);
    CounterRoundTrip(key, value, [], false);
  }
}
