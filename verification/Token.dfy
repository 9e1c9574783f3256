// Bearer tokens: the Authorization header (agent/src/auth/mod.rs) and the verification of an ES256
// token (agent/src/auth/jwt.rs). JSON decoding and the signature check are parameters.
module Token {
  import opened Basics
  import opened Base64Url
  import opened KeyStorage

  const MAX_TOKEN_BYTES: nat := 16 * 1024
  const CLOCK_SKEW_SECS: nat := 15

  type u64 = x: nat | x < U64_LIMIT

  datatype Rejection =
    | MissingCredential | DuplicateCredential | MalformedAuthorization | MalformedToken | TokenTooLarge
    | InvalidHeader | UnsupportedAlgorithm | MissingKid | TypeMismatch | Key(reason: KeyStorage.Rejection)
    | BadSignature | InvalidClaims | MissingClaim(name: string) | InvalidTimes | Expired | IssuedInFuture
    | NotYetValid | LifetimeTooLong | WrongIssuer | WrongAudience | SubjectNotAllowed

  datatype Policy = Policy(audience: string, issuer: Option<string>, typ: Option<string>,
                           maxLifetimeSecs: u64, subjects: Option<set<string>>)

  datatype Header = Header(alg: string, kid: Option<string>, typ: Option<string>)

  // A single audience is a list of one.
  datatype Claims = Claims(sub: Option<string>, iss: Option<string>, aud: Option<seq<string>>,
                           exp: Option<u64>, iat: Option<u64>, nbf: Option<u64>)

  // The foreign parts: the two JSON decoders, the key lookup and the signature check.
  datatype World = World(header: seq<byte> -> Option<Header>,
                         claims: seq<byte> -> Option<Claims>,
                         key: string -> Result<VerifyingKey, KeyStorage.Rejection>,
                         signed: (VerifyingKey, string, seq<byte>) -> bool)

  // ---- splitting

  // str::split('.'): always at least one part.
  function Split(text: string): (parts: seq<string>)
    ensures parts != []
  {
    if text == "" then [""]
    else
      var before := Split(text[..|text| - 1]);
      var c := text[|text| - 1];
      if c == '.' then before + [""] else before[..|before| - 1] + [before[|before| - 1] + [c]]
  }

  function Join(parts: seq<string>): string
    requires parts != []
  {
    if |parts| == 1 then parts[0] else Join(parts[..|parts| - 1]) + "." + parts[|parts| - 1]
  }

  // One more part, and one more character of the last part.
  lemma JoinOneMore(parts: seq<string>, last: string)
    requires parts != []
    ensures Join(parts + [last]) == Join(parts) + "." + last
  {
    assert (parts + [last])[..|parts|] == parts;
  }

  lemma JoinLonger(front: seq<string>, last: string, c: char)
    ensures Join(front + [last + [c]]) == Join(front + [last]) + [c]
  {
    if front == [] {
      assert front + [last] == [last] && front + [last + [c]] == [last + [c]];
    } else {
      JoinOneMore(front, last);
      JoinOneMore(front, last + [c]);
      hide Join;
      assert Join(front) + "." + (last + [c]) == Join(front) + "." + last + [c];
    }
  }

  lemma SplitDot(text: string)
    ensures Split(text + ".") == Split(text) + [""]
  {
    assert (text + ".")[..|text|] == text;
  }

  lemma SplitChar(text: string, c: char)
    requires c != '.'
    ensures var parts := Split(text);
            Split(text + [c]) == parts[..|parts| - 1] + [parts[|parts| - 1] + [c]]
  {
    assert (text + [c])[..|text|] == text;
  }

  ghost predicate Dotless(parts: seq<string>) {
    forall i | 0 <= i < |parts| :: '.' !in parts[i]
  }

  lemma {:induction false} SplitDotless(text: string)
    ensures Dotless(Split(text))
  {
    if text != "" {
      SplitDotless(text[..|text| - 1]);
    }
  }

  // The parts hold no dot, and joined they are the text.
  lemma {:induction false} JoinSplit(text: string)
    ensures Join(Split(text)) == text && Dotless(Split(text))
  {
    SplitDotless(text);
    if text != "" {
      var before, c := text[..|text| - 1], text[|text| - 1];
      JoinSplit(before);
      if c == '.' {
        JoinSplitDot(before);
      } else {
        JoinSplitChar(before, c);
      }
      assert text == before + [c];
    }
  }

  lemma JoinSplitDot(text: string)
    ensures Join(Split(text + ".")) == Join(Split(text)) + "."
  {
    SplitDot(text);
    JoinOneMore(Split(text), "");
  }

  lemma JoinSplitChar(text: string, c: char)
    requires c != '.'
    ensures Join(Split(text + [c])) == Join(Split(text)) + [c]
  {
    hide Join, Split;
    var parts := Split(text);
    var front, last := parts[..|parts| - 1], parts[|parts| - 1];
    SplitChar(text, c);
    JoinLonger(front, last, c);
    assert front + [last] == parts;
  }

  // Text without a dot extends the last part.
  lemma {:induction false} SplitExtend(text: string, part: string)
    requires '.' !in part
    ensures var parts := Split(text);
            Split(text + part) == parts[..|parts| - 1] + [parts[|parts| - 1] + part]
  {
    hide Split;
    var parts := Split(text);
    var front, last := parts[..|parts| - 1], parts[|parts| - 1];
    if part == "" {
      assert text + part == text && last + part == last;
    } else {
      var shorter, c := part[..|part| - 1], part[|part| - 1];
      SplitExtend(text, shorter);
      SplitChar(text + shorter, c);
      assert text + shorter + [c] == text + part && last + shorter + [c] == last + part;
      assert (front + [last + shorter])[..|front|] == front;
    }
  }

  lemma SplitOneMore(front: seq<string>, last: string)
    requires front != [] && Split(Join(front)) == front && '.' !in last
    ensures Split(Join(front) + "." + last) == front + [last]
  {
    SplitDot(Join(front));
    SplitExtend(Join(front) + ".", last);
    assert (front + [""])[..|front|] == front && "" + last == last;
  }

  lemma SplitAlone(part: string)
    requires '.' !in part
    ensures Split(Join([part])) == [part]
  {
    SplitExtend("", part);
    assert "" + part == part;
  }

  lemma {:induction false} SplitJoin(parts: seq<string>)
    requires parts != [] && Dotless(parts)
    ensures Split(Join(parts)) == parts
    decreases |parts|
  {
    hide Split, Join;
    var front, last := parts[..|parts| - 1], parts[|parts| - 1];
    assert parts == front + [last];
    if front == [] {
      SplitAlone(last);
    } else {
      SplitJoin(front);
      SplitOneMore(front, last);
      JoinOneMore(front, last);
    }
  }

  lemma JoinThree(parts: seq<string>)
    requires |parts| == 3
    ensures Join(parts) == parts[0] + "." + parts[1] + "." + parts[2]
    ensures Join(parts)[..|parts[0]| + 1 + |parts[1]|] == parts[0] + "." + parts[1]
  {
    assert parts[..2][..1] == [parts[0]];
    assert Join(parts[..2]) == parts[0] + "." + parts[1];
  }

  // ---- verification

  function SaturatingAdd(a: u64, b: u64): u64 {
    if a + b < U64_LIMIT then a + b else U64_LIMIT - 1
  }

  function Segment(text: string): Result<seq<byte>, Rejection> {
    if text == "" || Decode(text).None? then Err(MalformedToken) else Ok(Decode(text).value)
  }

  datatype Parts = Parts(header: seq<byte>, payload: seq<byte>, signature: seq<byte>, signingInput: string)

  // The three parts of a compact token and the text that its signature is about.
  function Dissect(token: string): Result<Parts, Rejection> {
    if |token| > MAX_TOKEN_BYTES then Err(TokenTooLarge)
    else
      var parts := Split(token);
      if |parts| != 3 then Err(MalformedToken)
      else if Segment(parts[0]).Err? || Segment(parts[1]).Err? || Segment(parts[2]).Err? then Err(MalformedToken)
      else
        JoinSplit(token);  // the signing input is a part of the token
        JoinThree(parts);
        Ok(Parts(Segment(parts[0]).value, Segment(parts[1]).value, Segment(parts[2]).value,
                 token[..|parts[0]| + 1 + |parts[1]|]))
  }

  function CheckHeader(policy: Policy, header: Header): Option<Rejection> {
    if header.alg != "ES256" then Some(UnsupportedAlgorithm)
    else if header.kid.None? || header.kid.value == "" then Some(MissingKid)
    else if policy.typ.Some? && header.typ != policy.typ then Some(TypeMismatch)
    else None
  }

  function CheckTimes(policy: Policy, exp: u64, iat: u64, nbf: Option<u64>, now: u64): Option<Rejection> {
    if iat >= exp then Some(InvalidTimes)
    else if exp <= now then Some(Expired)
    else if iat > SaturatingAdd(now, CLOCK_SKEW_SECS) then Some(IssuedInFuture)
    else if nbf.Some? && nbf.value > SaturatingAdd(now, CLOCK_SKEW_SECS) then Some(NotYetValid)
    else
      var lifetime: u64 := exp - iat;  // cannot wrap: iat < exp was checked first
      if lifetime > policy.maxLifetimeSecs then Some(LifetimeTooLong) else None
  }

  function CheckClaims(policy: Policy, claims: Claims, now: u64): Result<string, Rejection> {
    if claims.exp.None? then Err(MissingClaim("exp"))
    else if claims.iat.None? then Err(MissingClaim("iat"))
    else if claims.sub.None? || claims.sub.value == "" then Err(MissingClaim("sub"))
    else
      var times := CheckTimes(policy, claims.exp.value, claims.iat.value, claims.nbf, now);
      if times.Some? then Err(times.value)
      else if policy.issuer.Some? && claims.iss != policy.issuer then Err(WrongIssuer)
      else if claims.aud.None? || policy.audience !in claims.aud.value then Err(WrongAudience)
      else if policy.subjects.Some? && claims.sub.value !in policy.subjects.value then Err(SubjectNotAllowed)
      else Ok(claims.sub.value)
  }

  // verify after the token has been taken apart; Ok carries the subject.
  function VerifyParts(world: World, policy: Policy, parts: Parts, now: u64): Result<string, Rejection> {
    var header := world.header(parts.header);
    if header.None? then Err(InvalidHeader)
    else if CheckHeader(policy, header.value).Some? then Err(CheckHeader(policy, header.value).value)
    else
      var key := world.key(header.value.kid.value);
      if key.Err? then Err(Key(key.error))
      else if !world.signed(key.value, parts.signingInput, parts.signature) then Err(BadSignature)
      else
        var claims := world.claims(parts.payload);
        if claims.None? then Err(InvalidClaims) else CheckClaims(policy, claims.value, now)
  }

  function Verify(world: World, policy: Policy, token: string, now: u64): Result<string, Rejection> {
    match Dissect(token)
    case Err(rejection) => Err(rejection)
    case Ok(parts) => VerifyParts(world, policy, parts, now)
  }

  // ---- the issuer's printer

  function SigningInput(header: seq<byte>, claims: seq<byte>): string {
    Encode(header) + "." + Encode(claims)
  }

  // sign_raw, with the signature its key made for the signing input.
  function Print(header: seq<byte>, claims: seq<byte>, signature: seq<byte>): string {
    SigningInput(header, claims) + "." + Encode(signature)
  }

  lemma EncodedPart(s: seq<byte>)
    ensures '.' !in Encode(s) && (s != [] <==> Encode(s) != "")
    ensures s != [] ==> Segment(Encode(s)) == Ok(s)
  {
    DecodeEncode(s);
    assert !InAlphabet('.');
  }

  lemma {:induction false} SplitThree(a: string, b: string, c: string)
    requires '.' !in a && '.' !in b && '.' !in c
    ensures Split(a + "." + b + "." + c) == [a, b, c]
    ensures (a + "." + b + "." + c)[..|a| + 1 + |b|] == a + "." + b
  {
    JoinThree([a, b, c]);
    SplitJoin([a, b, c]);
  }

  lemma DissectThree(a: string, b: string, c: string)
    requires '.' !in a && '.' !in b && '.' !in c
    requires Segment(a).Ok? && Segment(b).Ok? && Segment(c).Ok?
    requires |a + "." + b + "." + c| <= MAX_TOKEN_BYTES
    ensures Dissect(a + "." + b + "." + c) ==
            Ok(Parts(Segment(a).value, Segment(b).value, Segment(c).value, a + "." + b))
  {
    SplitThree(a, b, c);
  }

  // Round trip of the compact serialization (section 7.1 of RFC 7515): the verifier takes a printed
  // token apart into exactly the bytes that were printed, and checks exactly the string that was signed.
  lemma PrintedTokenDissects(header: seq<byte>, claims: seq<byte>, signature: seq<byte>)
    requires header != [] && claims != [] && signature != []
    ensures var token := Print(header, claims, signature);
            Dissect(token) == if |token| > MAX_TOKEN_BYTES then Err(TokenTooLarge)
                              else Ok(Parts(header, claims, signature, SigningInput(header, claims)))
  {
    EncodedPart(header);
    EncodedPart(claims);
    EncodedPart(signature);
    if |Print(header, claims, signature)| <= MAX_TOKEN_BYTES {
      DissectThree(Encode(header), Encode(claims), Encode(signature));
    }
  }

  // And back: what the verifier takes apart is the print of its parts. So the parts determine the
  // token, and no second spelling of an accepted token is accepted.
  lemma {:induction false} DissectedTokenPrints(token: string)
    requires Dissect(token).Ok?
    ensures var parts := Dissect(token).value;
            && token == Print(parts.header, parts.payload, parts.signature)
            && parts.signingInput == SigningInput(parts.header, parts.payload)
            && parts.header != [] && parts.payload != [] && parts.signature != []
  {
    var texts := Split(token);
    JoinSplit(token);
    JoinThree(texts);
    EncodeDecode(texts[0]);
    EncodeDecode(texts[1]);
    EncodeDecode(texts[2]);
  }

  // ---- the header of the request

  function Lower(c: char): char {
    if 'A' <= c <= 'Z' then c - 'A' + 'a' else c
  }

  predicate IsBearer(scheme: string) {
    |scheme| == 6 && forall i | 0 <= i < 6 :: Lower(scheme[i]) == "bearer"[i]
  }

  predicate VisibleAscii(c: char) { 32 <= c as int < 127 || c == '\t' }

  function FirstSpace(text: string): (n: nat)
    ensures n <= |text|
    ensures n < |text| ==> text[n] == ' '
  {
    if text == "" || text[0] == ' ' then 0 else 1 + FirstSpace(text[1..])
  }

  predicate TokenChars(token: string) {
    forall i | 0 <= i < |token| :: InAlphabet(token[i]) || token[i] == '.'
  }

  // bearer: the values of all Authorization headers, one char a byte.
  function Bearer(values: seq<string>): Result<string, Rejection> {
    if values == [] then Err(MissingCredential)
    else if |values| > 1 then Err(DuplicateCredential)
    else
      var value := values[0];
      var n := FirstSpace(value);
      if |value| > MAX_TOKEN_BYTES + |"Bearer "| then Err(TokenTooLarge)
      else if exists i | 0 <= i < |value| :: !VisibleAscii(value[i]) then Err(MalformedAuthorization)
      else if n == |value| then Err(MalformedAuthorization)
      else if !IsBearer(value[..n]) || value[n + 1..] == "" then Err(MalformedAuthorization)
      else if !TokenChars(value[n + 1..]) then Err(MalformedToken)
      else Ok(value[n + 1..])
  }

  lemma {:induction false} FirstSpaceAt(scheme: string, rest: string)
    requires ' ' !in scheme
    ensures FirstSpace(scheme + " " + rest) == |scheme|
  {
    var value := scheme + " " + rest;
    if scheme != "" {
      FirstSpaceAt(scheme[1..], rest);
      assert value[1..] == scheme[1..] + " " + rest;
    }
  }

  // The header that bearer accepts, and the token in it.
  ghost predicate Carries(values: seq<string>, scheme: string, token: string) {
    && values == [scheme + " " + token] && IsScheme(scheme)
    && 0 < |token| <= MAX_TOKEN_BYTES && Plain(token)
  }

  // "bearer", each letter in either case.
  ghost predicate IsScheme(scheme: string) {
    |scheme| == 6 && forall i | 0 <= i < 6 :: scheme[i] == "bearer"[i] || scheme[i] == "BEARER"[i]
  }

  ghost predicate Plain(token: string) {
    forall i | 0 <= i < |token| ::
      'a' <= token[i] <= 'z' || 'A' <= token[i] <= 'Z' || '0' <= token[i] <= '9' || token[i] in {'-', '_', '.'}
  }

  lemma PlainExact(token: string)
    ensures TokenChars(token) <==> Plain(token)
  {
  }

  lemma SchemeExact(scheme: string)
    ensures IsBearer(scheme) <==> IsScheme(scheme)
  {
    if |scheme| == 6 {
      forall i | 0 <= i < 6
        ensures Lower(scheme[i]) == "bearer"[i] <==> scheme[i] == "bearer"[i] || scheme[i] == "BEARER"[i]
      {
        assert Lower("bearer"[i]) == "bearer"[i] == Lower("BEARER"[i]);
      }
    }
  }

  // In both directions: bearer returns exactly the token of a single header "Bearer <token>", in any
  // case of the scheme. Such a token is never too large for the verifier.
  lemma BearerExact(values: seq<string>, token: string)
    ensures Bearer(values) == Ok(token) <==> exists scheme :: Carries(values, scheme, token)
    ensures Bearer(values) == Ok(token) ==> Dissect(token) != Err(TokenTooLarge)
  {
    PlainExact(token);
    if Bearer(values) == Ok(token) {
      var n := FirstSpace(values[0]);
      SchemeExact(values[0][..n]);
      hide IsBearer, TokenChars, Plain, IsScheme;
      assert values[0] == values[0][..n] + " " + values[0][n + 1..];
      assert Carries(values, values[0][..n], token);
    }
    if scheme :| Carries(values, scheme, token) {
      CarriedVisible(scheme, token);
      CarriedSplits(scheme, token);
      hide IsBearer, TokenChars, Plain, IsScheme, FirstSpace, VisibleAscii;
    }
  }

  lemma CarriedSplits(scheme: string, token: string)
    requires IsScheme(scheme)
    ensures var value := scheme + " " + token;
            FirstSpace(value) == 6 && IsBearer(value[..6]) && value[7..] == token && |value| == 7 + |token|
  {
    SchemeExact(scheme);
    assert ' ' !in scheme by {
      assert forall i | 0 <= i < 6 :: Lower(scheme[i]) == "bearer"[i];
    }
    FirstSpaceAt(scheme, token);
    hide IsBearer, IsScheme;
    assert (scheme + " " + token)[..6] == scheme;
  }

  lemma CarriedVisible(scheme: string, token: string)
    requires IsScheme(scheme) && Plain(token)
    ensures forall i | 0 <= i < |scheme + " " + token| :: VisibleAscii((scheme + " " + token)[i])
  {
    var value := scheme + " " + token;
    forall i | 0 <= i < |value| ensures VisibleAscii(value[i]) {
      assert if i < 6 then value[i] == scheme[i] else i == 6 || value[i] == token[i - 7];
    }
  }

  // A scheme, a space and a token, all of them there.
  ghost predicate Credential(value: string, scheme: string, token: string) {
    value == scheme + " " + token && IsScheme(scheme) && token != ""
  }

  // Why a request is refused before its token is looked at.
  lemma BearerRejections(values: seq<string>)
    ensures Bearer(values) == Err(MissingCredential) <==> values == []
    ensures Bearer(values) == Err(DuplicateCredential) <==> |values| > 1
    ensures |values| == 1 ==>
              var value := values[0];
              var visible := forall i | 0 <= i < |value| :: value[i] == '\t' || ' ' <= value[i] <= '~';
              && (Bearer(values) == Err(TokenTooLarge) <==> |value| > 16 * 1024 + 7)
              && (Bearer(values) == Err(MalformedAuthorization) <==>
                    |value| <= 16 * 1024 + 7 && !(visible && exists scheme, token :: Credential(value, scheme, token)))
              && (Bearer(values) == Err(MalformedToken) <==>
                    && |value| <= 16 * 1024 + 7 && visible
                    && exists scheme, token :: Credential(value, scheme, token) && !Plain(token))
  {
    if |values| == 1 {
      var value := values[0];
      assert forall i | 0 <= i < |value| :: VisibleAscii(value[i]) <==> value[i] == '\t' || ' ' <= value[i] <= '~';
      CredentialExact(value);
      hide IsBearer, TokenChars, Plain, IsScheme, FirstSpace, VisibleAscii, Credential;
    }
  }

  lemma SpaceSplits(value: string, n: nat)
    requires n < |value| && value[n] == ' '
    ensures value == value[..n] + " " + value[n + 1..]
  {
  }

  lemma CredentialThere(value: string)
    requires var n := FirstSpace(value); n < |value| && IsBearer(value[..n]) && value[n + 1..] != ""
    ensures Credential(value, value[..FirstSpace(value)], value[FirstSpace(value) + 1..])
  {
    var n := FirstSpace(value);
    SchemeExact(value[..n]);
    SpaceSplits(value, n);
    hide IsBearer, IsScheme, FirstSpace;
  }

  lemma CredentialOnly(value: string, scheme: string, token: string)
    requires Credential(value, scheme, token)
    ensures FirstSpace(value) == 6 < |value| && IsBearer(value[..6]) && token == value[7..]
  {
    CarriedSplits(scheme, token);
    hide IsBearer, IsScheme, FirstSpace;
  }

  lemma CredentialExact(value: string)
    ensures var n := FirstSpace(value);
            var there := n < |value| && IsBearer(value[..n]) && value[n + 1..] != "";
            && (there <==> exists scheme, token :: Credential(value, scheme, token))
            && (there && !TokenChars(value[n + 1..]) <==>
                  exists scheme, token :: Credential(value, scheme, token) && !Plain(token))
  {
    var n := FirstSpace(value);
    if n < |value| {
      PlainExact(value[n + 1..]);
    }
    if n < |value| && IsBearer(value[..n]) && value[n + 1..] != "" {
      CredentialThere(value);
    }
    forall scheme, token | Credential(value, scheme, token)
      ensures n == 6 < |value| && IsBearer(value[..n]) && token == value[n + 1..] && token != ""
    {
      CredentialOnly(value, scheme, token);
    }
    hide IsBearer, TokenChars, Plain, Credential, FirstSpace;
  }

  lemma PrintChars(header: seq<byte>, claims: seq<byte>, signature: seq<byte>)
    ensures Print(header, claims, signature) != "" && TokenChars(Print(header, claims, signature))
  {
    DecodeEncode(header);
    DecodeEncode(claims);
    DecodeEncode(signature);
    hide Encode, InAlphabet;
  }

  // A printed token of at most 16 KiB passes through the header unchanged.
  lemma PrintedTokenPasses(header: seq<byte>, claims: seq<byte>, signature: seq<byte>)
    requires |Print(header, claims, signature)| <= MAX_TOKEN_BYTES
    ensures Bearer(["Bearer " + Print(header, claims, signature)]) == Ok(Print(header, claims, signature))
  {
    PrintChars(header, claims, signature);
    PlainExact(Print(header, claims, signature));
    hide Print, Bearer, TokenChars, Plain;
    var token := Print(header, claims, signature);
    assert "Bearer " + token == "Bearer" + " " + token;
    assert Carries(["Bearer " + token], "Bearer", token);
    BearerExact(["Bearer " + token], token);
  }

  // ---- the life of a token

  // The first second at which the clock admits the claims.
  function NotBefore(iat: u64, nbf: Option<u64>): nat {
    var latest := if nbf.Some? then Max(iat, nbf.value) else iat;
    if latest <= CLOCK_SKEW_SECS then 0 else latest - CLOCK_SKEW_SECS
  }

  // The clock alone: an interval that ends before exp, no longer than the lifetime and the skew.
  lemma TimesExact(policy: Policy, exp: u64, iat: u64, nbf: Option<u64>, now: u64)
    ensures CheckTimes(policy, exp, iat, nbf, now).None? <==>
            iat < exp && exp - iat <= policy.maxLifetimeSecs && NotBefore(iat, nbf) <= now < exp
    ensures iat < exp && exp - iat <= policy.maxLifetimeSecs ==>
            exp - NotBefore(iat, nbf) <= policy.maxLifetimeSecs + CLOCK_SKEW_SECS
  {
  }

  // What the claims must be for a policy, except for the time.
  ghost predicate Agreed(policy: Policy, claims: Claims) {
    && claims.exp.Some? && claims.iat.Some? && claims.iat.value < claims.exp.value
    && claims.exp.value - claims.iat.value <= policy.maxLifetimeSecs
    && claims.sub.Some? && claims.sub.value != ""
    && (policy.issuer.Some? ==> claims.iss == policy.issuer)
    && claims.aud.Some? && policy.audience in claims.aud.value
    && (policy.subjects.Some? ==> claims.sub.value in policy.subjects.value)
  }

  // What the header must say.
  ghost predicate Signs(policy: Policy, header: Header) {
    && header.alg == "ES256" && header.kid.Some? && header.kid.value != ""
    && (policy.typ.Some? ==> header.typ.Some? && header.typ.value == policy.typ.value)
  }

  // All that verification asks of a token, except for the time.
  ghost predicate Acceptable(world: World, policy: Policy, token: string, claims: Claims) {
    && Dissect(token).Ok?
    && var parts := Dissect(token).value;
       var header := world.header(parts.header);
    && header.Some? && Signs(policy, header.value)
    && world.key(header.value.kid.value).Ok?
    && world.signed(world.key(header.value.kid.value).value, parts.signingInput, parts.signature)
    && world.claims(parts.payload) == Some(claims) && Agreed(policy, claims)
  }

  ghost predicate Alive(claims: Claims, now: u64)
    requires claims.exp.Some? && claims.iat.Some?
  {
    NotBefore(claims.iat.value, claims.nbf) <= now < claims.exp.value
  }

  lemma ClaimsExact(policy: Policy, claims: Claims, now: u64)
    ensures CheckClaims(policy, claims, now).Ok? <==> Agreed(policy, claims) && Alive(claims, now)
    ensures Agreed(policy, claims) && Alive(claims, now) ==> CheckClaims(policy, claims, now) == Ok(claims.sub.value)
    ensures Agreed(policy, claims) ==>
              claims.exp.value - NotBefore(claims.iat.value, claims.nbf) <= policy.maxLifetimeSecs + CLOCK_SKEW_SECS
  {
    hide CheckTimes;
    if claims.exp.Some? && claims.iat.Some? {
      TimesExact(policy, claims.exp.value, claims.iat.value, claims.nbf, now);
    }
  }

  // A token is accepted exactly if it is acceptable, with claims that decode, and the time is in its
  // interval: over all clocks its life is one interval of at most the maximal lifetime plus the skew,
  // the same subject throughout.
  lemma VerifyExact(world: World, policy: Policy, token: string, now: u64)
    ensures Verify(world, policy, token, now).Ok? <==>
            exists claims :: Acceptable(world, policy, token, claims) && Alive(claims, now)
    ensures forall claims | Acceptable(world, policy, token, claims) ::
              && (Verify(world, policy, token, now).Ok? <==> Alive(claims, now))
              && (Alive(claims, now) ==> Verify(world, policy, token, now).value == claims.sub.value)
              && claims.exp.value - NotBefore(claims.iat.value, claims.nbf) <= policy.maxLifetimeSecs + CLOCK_SKEW_SECS
  {
    hide Dissect, CheckClaims, Agreed, Alive;
    if Dissect(token).Ok? && world.claims(Dissect(token).value.payload).Some? {
      var claims := world.claims(Dissect(token).value.payload).value;
      ClaimsExact(policy, claims, now);
      assert Verify(world, policy, token, now).Ok? ==> Acceptable(world, policy, token, claims);
    }
  }

  // ---- why a token is rejected

  // Exactly the prints of three nonempty byte strings, within the limit, are taken apart.
  lemma DissectExact(token: string)
    ensures Dissect(token) == Err(TokenTooLarge) <==> |token| > 16 * 1024
    ensures Dissect(token) == Err(MalformedToken) <==>
            |token| <= 16 * 1024 && !exists header: seq<byte>, claims: seq<byte>, signature: seq<byte> ::
              header != [] && claims != [] && signature != [] && token == Print(header, claims, signature)
  {
    if Dissect(token).Ok? {
      DissectedTokenPrints(token);
    }
    hide Print, SigningInput;
    if header: seq<byte>, claims: seq<byte>, signature: seq<byte> :|
      header != [] && claims != [] && signature != [] && token == Print(header, claims, signature)
    {
      PrintedTokenDissects(header, claims, signature);
    }
  }

  lemma HeaderRejections(policy: Policy, header: Header)
    ensures CheckHeader(policy, header) == None <==> Signs(policy, header)
    ensures CheckHeader(policy, header) == Some(UnsupportedAlgorithm) <==> header.alg != "ES256"
    ensures CheckHeader(policy, header) == Some(MissingKid) <==>
            header.alg == "ES256" && (header.kid.None? || header.kid.value == "")
    ensures CheckHeader(policy, header) == Some(TypeMismatch) <==>
            && header.alg == "ES256" && header.kid.Some? && header.kid.value != ""
            && policy.typ.Some? && (header.typ.None? || header.typ.value != policy.typ.value)
  {
  }

  // The clock and the claims, over mathematical integers: the first check that fails.
  lemma ClaimRejections(policy: Policy, claims: Claims, now: u64)
    ensures var result := CheckClaims(policy, claims, now);
            && (result == Err(MissingClaim("exp")) <==> claims.exp.None?)
            && (result == Err(MissingClaim("iat")) <==> claims.exp.Some? && claims.iat.None?)
            && (result == Err(MissingClaim("sub")) <==>
                  claims.exp.Some? && claims.iat.Some? && (claims.sub.None? || claims.sub.value == ""))
    ensures claims.exp.Some? && claims.iat.Some? && claims.sub.Some? && claims.sub.value != "" ==>
              var (result, exp, iat) := (CheckClaims(policy, claims, now), claims.exp.value, claims.iat.value);
              var begun := claims.nbf.Some? ==> claims.nbf.value <= now + 15;
              var timely := iat < exp <= iat + policy.maxLifetimeSecs && now < exp && iat <= now + 15 && begun;
              var issued := policy.issuer.Some? ==> claims.iss == policy.issuer;
              var meant := claims.aud.Some? && policy.audience in claims.aud.value;
              && (result == Err(InvalidTimes) <==> exp <= iat)
              && (result == Err(Expired) <==> iat < exp <= now)
              && (result == Err(IssuedInFuture) <==> iat < exp && now < exp && now + 15 < iat)
              && (result == Err(NotYetValid) <==> iat < exp && now < exp && iat <= now + 15 && !begun)
              && (result == Err(LifetimeTooLong) <==>
                    now < exp && iat <= now + 15 && begun && iat + policy.maxLifetimeSecs < exp)
              && (result == Err(WrongIssuer) <==> timely && !issued)
              && (result == Err(WrongAudience) <==> timely && issued && !meant)
              && (result == Err(SubjectNotAllowed) <==>
                    timely && issued && meant && policy.subjects.Some? && claims.sub.value !in policy.subjects.value)
  {
  }

  // A whole token: its parts, the header, the key, the signature and the claims, in this order.
  lemma VerifyRejections(world: World, policy: Policy, token: string, now: u64)
    ensures Dissect(token).Err? ==> Verify(world, policy, token, now) == Err(Dissect(token).error)
    ensures Dissect(token).Ok? ==>
              var (parts, result) := (Dissect(token).value, Verify(world, policy, token, now));
              var header := world.header(parts.header);
              && (header.None? ==> result == Err(InvalidHeader))
              && (header.Some? && !Signs(policy, header.value) ==>
                    CheckHeader(policy, header.value).Some? && result == Err(CheckHeader(policy, header.value).value))
              && (header.Some? && Signs(policy, header.value) ==>
                    var key := world.key(header.value.kid.value);
                    && (key.Err? ==> result == Err(Key(key.error)))
                    && (key.Ok? && !world.signed(key.value, parts.signingInput, parts.signature) ==>
                          result == Err(BadSignature))
                    && (key.Ok? && world.signed(key.value, parts.signingInput, parts.signature) ==>
                          result == if world.claims(parts.payload).None? then Err(InvalidClaims)
                                    else CheckClaims(policy, world.claims(parts.payload).value, now)))
  {
    hide Dissect, CheckClaims;
  }

  // Once expired, always expired; and between two acceptances there is no gap.
  lemma AcceptanceIsConvex(world: World, policy: Policy, token: string, early: u64, middle: u64, late: u64)
    requires early <= middle <= late
    requires Verify(world, policy, token, early).Ok?
    ensures Verify(world, policy, token, late).Ok? ==>
              Verify(world, policy, token, middle) == Verify(world, policy, token, early)
    ensures Verify(world, policy, token, middle) == Err(Expired) ==> Verify(world, policy, token, late) == Err(Expired)
  {
    VerifyExact(world, policy, token, early);
    VerifyExact(world, policy, token, middle);
    VerifyExact(world, policy, token, late);
  }

  // A clock before the epoch reads 0 (agent/src/main.rs). That is not enough to refuse every token:
  // it does exactly if some time of the token lies beyond the skew.
  lemma EpochClock(world: World, policy: Policy, token: string, claims: Claims)
    requires Acceptable(world, policy, token, claims)
    ensures Verify(world, policy, token, 0).Ok? <==>
            claims.iat.value <= CLOCK_SKEW_SECS && (claims.nbf.Some? ==> claims.nbf.value <= CLOCK_SKEW_SECS)
  {
    VerifyExact(world, policy, token, 0);
  }

  // A whole token, signed and with all that a policy asks for, that is accepted at the clock 0.
  lemma EpochWitness(world: World, policy: Policy, header: seq<byte>, payload: seq<byte>, signature: seq<byte>)
    requires header != [] && payload != [] && signature != []
    requires |Print(header, payload, signature)| <= MAX_TOKEN_BYTES
    requires world.header(header) == Some(Header("ES256", Some("key"), policy.typ))
    requires world.key("key").Ok? && world.signed(world.key("key").value, SigningInput(header, payload), signature)
    requires world.claims(payload) ==
             Some(Claims(Some("caller"), policy.issuer, Some([policy.audience]), Some(60), Some(0), None))
    requires policy.maxLifetimeSecs >= 60 && (policy.subjects.Some? ==> "caller" in policy.subjects.value)
    ensures Verify(world, policy, Print(header, payload, signature), 0) == Ok("caller")
  {
    PrintedTokenDissects(header, payload, signature);
    var claims := world.claims(payload).value;
    var token := Print(header, payload, signature);
    hide Print, SigningInput, Dissect, Verify;
    assert Acceptable(world, policy, token, claims) && Alive(claims, 0);
    VerifyExact(world, policy, token, 0);
  }
}
