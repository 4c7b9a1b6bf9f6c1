/**
 The server side of a SCRAM-SHA-256 exchange against a stored verifier
 (src/scram_verifier.rs:174-338): sections 3, 5 and 7 of RFC 5802.  The hash and the keyed hash are
 parameters; nothing is assumed of them but the length of their results.
 */
module Scram {
  import opened Wrappers
  import opened Bytes
  import opened Base64
  import opened ScramVerifier

  datatype Crypto = Crypto(h: Text -> Text, hmac: (Text, Text) -> Text) {
    ghost predicate Sound() {
      && (forall m :: |h(m)| == 32)
      && (forall k, m :: |hmac(k, m)| == 32)
    }
  }

  datatype ScramError =
    | NotUtf8 | NoFirstMessage | MalformedFirst | NegotiationFailed | UnsupportedMechanism(name: Text)
    | MalformedFinal | ChannelBindingFailed | NonceMismatch | InvalidPassword(user: Text)

  const SCRAM_SHA_256 := Ascii("SCRAM-SHA-256")
  const SCRAM_SHA_256_PLUS := Ascii("SCRAM-SHA-256-PLUS")
  const TLS_SERVER_END_POINT := Ascii("p=tls-server-end-point")

  // ---------- client-first-message ---------------------------------------

  datatype ClientFirst = ClientFirst(flag: Text, gs2Header: Text, bare: Text, nonce: Text)

  function ParseFirst(message: Text): Result<ClientFirst, ScramError> {
    match SplitOnce(message, COMMA)
    case None => Err(MalformedFirst)
    case Some((flag, rest)) =>
      match SplitOnce(rest, COMMA)
      case None => Err(MalformedFirst)
      case Some((authzid, bare)) =>
        if !(authzid == [] || Ascii("a=") <= authzid) then Err(MalformedFirst)
        else ParseBare(flag, message[..|message| - |bare|], bare)
  }

  function ParseBare(flag: Text, header: Text, bare: Text): Result<ClientFirst, ScramError> {
    var parts := Split(bare, COMMA);
    if |parts| < 2 then Err(MalformedFirst)
    else
      match (StripPrefix(parts[0], Ascii("n=")), StripPrefix(parts[1], Ascii("r=")))
      case (Some(_), Some(nonce)) =>
        if nonce == [] then Err(MalformedFirst) else Ok(ClientFirst(flag, header, bare, nonce))
      case _ => Err(MalformedFirst)
  }

  function Gs2Header(flag: Text, authzid: Text): Text {
    flag + [COMMA] + authzid + [COMMA]
  }

  function BareFirst(user: Text, nonce: Text, tail: Text): Text {
    Ascii("n=") + user + [COMMA] + (Ascii("r=") + nonce + tail)
  }

  ghost predicate FirstParts(flag: Text, authzid: Text, user: Text, nonce: Text, tail: Text) {
    && COMMA !in flag && COMMA !in authzid && COMMA !in user && COMMA !in nonce
    && (authzid == [] || Ascii("a=") <= authzid)
    && nonce != [] && Tail(tail, COMMA)
  }

  lemma ParsePrintedFirst(flag: Text, authzid: Text, user: Text, nonce: Text, tail: Text)
    requires FirstParts(flag, authzid, user, nonce, tail)
    ensures var header, bare := Gs2Header(flag, authzid), BareFirst(user, nonce, tail);
      ParseFirst(header + bare) == Ok(ClientFirst(flag, header, bare, nonce))
  {
    var header, bare := Gs2Header(flag, authzid), BareFirst(user, nonce, tail);
    var message := header + bare;
    assert message == flag + [COMMA] + (authzid + [COMMA] + bare);
    SplitOnceAt(flag, COMMA, authzid + [COMMA] + bare);
    SplitOnceAt(authzid, COMMA, bare);
    assert message[..|message| - |bare|] == header;
    ParsePrintedBare(flag, header, user, nonce, tail);
  }

  lemma ParsePrintedBare(flag: Text, header: Text, user: Text, nonce: Text, tail: Text)
    requires COMMA !in user && COMMA !in nonce && nonce != [] && Tail(tail, COMMA)
    ensures var bare := BareFirst(user, nonce, tail);
      ParseBare(flag, header, bare) == Ok(ClientFirst(flag, header, bare, nonce))
  {
    SplitTwo(Ascii("n=") + user, COMMA, Ascii("r=") + nonce, tail);
    StripPrefixOf(Ascii("n="), user);
    StripPrefixOf(Ascii("r="), nonce);
  }

  lemma ParsedBareParts(flag: Text, header: Text, bare: Text) returns (user: Text, tail: Text)
    requires ParseBare(flag, header, bare).Ok?
    ensures var f := ParseBare(flag, header, bare).value;
      && f == ClientFirst(flag, header, bare, f.nonce) && f.nonce != []
      && COMMA !in user && COMMA !in f.nonce && Tail(tail, COMMA)
      && bare == BareFirst(user, f.nonce, tail)
  {
    var parts := Split(bare, COMMA);
    tail := SplitTwoSound(bare, COMMA);
    user := StripPrefix(parts[0], Ascii("n=")).value;
    StripPrefixSound(parts[0], Ascii("n="));
    StripPrefixSound(parts[1], Ascii("r="));
  }

  lemma HeaderThenBare(message: Text, flag: Text, rest: Text, authzid: Text, bare: Text)
    requires message == flag + [COMMA] + rest && rest == authzid + [COMMA] + bare
    ensures message == Gs2Header(flag, authzid) + bare
    ensures message[..|message| - |bare|] == Gs2Header(flag, authzid)
  {
  }

  lemma ParsedFirstParts(message: Text) returns (authzid: Text, user: Text, tail: Text)
    requires ParseFirst(message).Ok?
    ensures var f := ParseFirst(message).value;
      && FirstParts(f.flag, authzid, user, f.nonce, tail)
      && f.gs2Header == Gs2Header(f.flag, authzid) && f.bare == BareFirst(user, f.nonce, tail)
      && message == f.gs2Header + f.bare
  {
    var (flag, rest) := SplitOnce(message, COMMA).value;
    var (id, bare) := SplitOnce(rest, COMMA).value;
    authzid := id;
    HeaderThenBare(message, flag, rest, authzid, bare);
    user, tail := ParsedBareParts(flag, Gs2Header(flag, authzid), bare);
  }

  /** A client-first-message is accepted exactly when it is printed from parts of the grammar, and
      then the parts are what the parser finds. */
  lemma ParseFirstIff(message: Text, f: ClientFirst)
    ensures ParseFirst(message) == Ok(f) <==>
      exists authzid, user, tail ::
        && FirstParts(f.flag, authzid, user, f.nonce, tail)
        && f.gs2Header == Gs2Header(f.flag, authzid) && f.bare == BareFirst(user, f.nonce, tail)
        && message == f.gs2Header + f.bare
  {
    if ParseFirst(message) == Ok(f) {
      var authzid, user, tail := ParsedFirstParts(message);
    }
    if authzid, user, tail :|
      && FirstParts(f.flag, authzid, user, f.nonce, tail)
      && f.gs2Header == Gs2Header(f.flag, authzid) && f.bare == BareFirst(user, f.nonce, tail)
      && message == f.gs2Header + f.bare
    {
      ParsePrintedFirst(f.flag, authzid, user, f.nonce, tail);
    }
  }

  // ---------- Channel binding --------------------------------------------

  function Negotiate(mechanism: Text, flag: Text, certificate: Option<Text>): Result<Text, ScramError> {
    if mechanism == SCRAM_SHA_256_PLUS && flag == TLS_SERVER_END_POINT && certificate.Some? then
      Ok(certificate.value)
    else if mechanism == SCRAM_SHA_256 && (flag == Ascii("n") || (flag == Ascii("y") && certificate.None?)) then
      Ok([])
    else if mechanism == SCRAM_SHA_256 || mechanism == SCRAM_SHA_256_PLUS then Err(NegotiationFailed)
    else Err(UnsupportedMechanism(mechanism))
  }

  // ---------- The exchange -----------------------------------------------

  datatype Exchange = Exchange(
    user: Text, verifier: Verifier, mock: bool, nonce: Text, channelBinding: Text, serverFirst: Text,
    authPrefix: Text)

  function NewExchange(first: ClientFirst, data: Text, serverNonce: Text, user: Text, verifier: Verifier,
                       mock: bool): Exchange
  {
    var nonce := first.nonce + serverNonce;
    var serverFirst := Ascii("r=") + nonce + [COMMA]
                       + (Ascii("s=") + Encode(verifier.salt) + [COMMA] + (Ascii("i=") + Decimal(verifier.iterations)));
    Exchange(user, verifier, mock, nonce, Encode(first.gs2Header + data), serverFirst,
             first.bare + [COMMA] + serverFirst)
  }

  const PROOF_FIELD := Ascii(",p=")

  function AuthMessage(x: Exchange, withoutProof: Text): Text {
    x.authPrefix + [COMMA] + withoutProof
  }

  function Verify(c: Crypto, x: Exchange, message: Text): Result<Text, ScramError> {
    if !ValidUtf8(message) then Err(NotUtf8)
    else
      match RSplitOnce(message, PROOF_FIELD)
      case None => Err(MalformedFinal)
      case Some((withoutProof, proof)) =>
        var parts := Split(withoutProof, COMMA);
        if |parts| < 2 then Err(MalformedFinal)
        else
          match (StripPrefix(parts[0], Ascii("c=")), StripPrefix(parts[1], Ascii("r=")))
          case (Some(channelBinding), Some(nonce)) =>
            if channelBinding != x.channelBinding then Err(ChannelBindingFailed)
            else if nonce != x.nonce then Err(NonceMismatch)
            else CheckProof(c, x, withoutProof, proof)
          case _ => Err(MalformedFinal)
  }

  function CheckProof(c: Crypto, x: Exchange, withoutProof: Text, proof: Text): Result<Text, ScramError> {
    match Decode(proof)
    case None => Err(MalformedFinal)
    case Some(p) =>
      if |p| != 32 then Err(MalformedFinal)
      else
        var message := AuthMessage(x, withoutProof);
        var clientKey := XorAll(p, c.hmac(x.verifier.storedKey, message));
        if c.h(clientKey) != x.verifier.storedKey || x.mock then Err(InvalidPassword(x.user))
        else Ok(Ascii("v=") + Encode(c.hmac(x.verifier.serverKey, message)))
  }

  /** The verifier that stands in for an unknown user. */
  function MockVerifier(c: Crypto, secret: Text, user: Text, iterations: nat): Verifier
    requires c.Sound()
  {
    var key := c.hmac(secret, Ascii("key") + [0] + user);
    Verifier(iterations, c.hmac(secret, Ascii("salt") + [0] + user)[..16], key, key)
  }

  /** To every user the stand-in announces the configured iterations and 16 bytes of salt.  Salt and keys
      are made from different inputs, and those of two users differ. */
  lemma MockVerifierInputs(c: Crypto, secret: Text, user: Text, other: Text, iterations: nat)
    requires c.Sound()
    ensures var v := MockVerifier(c, secret, user, iterations);
      var salt, key := [115, 97, 108, 116, 0], [107, 101, 121, 0];
      && v.iterations == iterations && |v.salt| == 16 && v.salt <= c.hmac(secret, salt + user)
      && v.storedKey == c.hmac(secret, key + user) == v.serverKey
      && salt + user != key + other
      && (user != other ==> salt + user != salt + other && key + user != key + other)
  {
    var salt: Text, key: Text := [115, 97, 108, 116, 0], [107, 101, 121, 0];
    assert Ascii("salt") + [0] + user == salt + user && Ascii("key") + [0] + user == key + user;
    assert (salt + user)[0] != (key + other)[0];
    assert (salt + user)[5..] == user && (salt + other)[5..] == other;
    assert (key + user)[4..] == user && (key + other)[4..] == other;
  }

  /** The stand-in is a valid verifier of the usual shape, so its server-first-message is one too. */
  lemma MockVerifierIsValid(c: Crypto, secret: Text, user: Text, iterations: nat)
    requires c.Sound() && 0 < iterations <= U32_MAX
    ensures Valid(MockVerifier(c, secret, user, iterations))
  {
  }

  // ---------- The client -------------------------------------------------

  /** client-final-message-without-proof, with any extensions behind it. */
  function WithoutProof(gs2Header: Text, data: Text, nonce: Text, extensions: Text): Text {
    Ascii("c=") + Encode(gs2Header + data) + [COMMA] + (Ascii("r=") + nonce + extensions)
  }

  lemma FieldInLetters(a: Text, name: Text, b: Text, tail: Text)
    requires name == Ascii(",r=")
    ensures a + [COMMA] + (Ascii("r=") + b + tail) == a + name + b + tail
  {
    assert name == [COMMA] + Ascii("r=");
    Associate(Ascii("r="), b, tail);
    Regroup(a, [COMMA], Ascii("r="), b + tail);
    Associate(a + name, b, tail);
  }

  /** The client's messages of section 7 of RFC 5802 in its own letters. */
  lemma MessagesInLetters(flag: Text, authzid: Text, user: Text, nonce: Text, tail: Text, data: Text)
    ensures Gs2Header(flag, authzid) == flag + Ascii(",") + authzid + Ascii(",")
    ensures BareFirst(user, nonce, tail) == Ascii("n=") + user + Ascii(",r=") + nonce + tail
    ensures WithoutProof(flag, data, nonce, tail) == Ascii("c=") + Encode(flag + data) + Ascii(",r=") + nonce + tail
    ensures PROOF_FIELD == Ascii(",p=")
  {
    assert Ascii(",") == [COMMA];
    FieldInLetters(Ascii("n=") + user, Ascii(",r="), nonce, tail);
    FieldInLetters(Ascii("c=") + Encode(flag + data), Ascii(",r="), nonce, tail);
  }

  /** The server's first message in its own letters. */
  lemma ServerFirstInLetters(first: ClientFirst, data: Text, serverNonce: Text, user: Text, v: Verifier, mock: bool)
    ensures NewExchange(first, data, serverNonce, user, v, mock).serverFirst ==
      Ascii("r=") + (first.nonce + serverNonce) + Ascii(",s=") + Encode(v.salt) + Ascii(",i=") + Decimal(v.iterations)
  {
    var head, salt, count := Ascii("r=") + (first.nonce + serverNonce), Encode(v.salt), Decimal(v.iterations);
    assert Ascii(",s=") == [COMMA] + Ascii("s=") && Ascii(",i=") == [COMMA] + Ascii("i=");
    InLetters(head, [COMMA], Ascii("s="), salt, [COMMA], Ascii("i="), count);
  }

  lemma InLetters(a: Text, b: Text, c: Text, d: Text, e: Text, f: Text, g: Text)
    ensures a + b + (c + d + e + (f + g)) == a + (b + c) + d + (e + f) + g
  {
    Regroup(c + d, e, f, g);
    Associate(c + d, e + f, g);
    Associate(c, d, (e + f) + g);
    Regroup(a, b, c, d + ((e + f) + g));
    Associate(a + (b + c), d, (e + f) + g);
    Associate(a + (b + c) + d, e + f, g);
  }

  /** What section 3 of RFC 5802 has the client send, given its salted password. */
  function ClientFinal(c: Crypto, salted: Text, bare: Text, serverFirst: Text, withoutProof: Text): Text {
    var clientKey := c.hmac(salted, Ascii("Client Key"));
    var authMessage := bare + [COMMA] + serverFirst + [COMMA] + withoutProof;
    withoutProof + Ascii(",p=") + Encode(XorAll(clientKey, c.hmac(c.h(clientKey), authMessage)))
  }

  function ClientsServerSignature(c: Crypto, salted: Text, bare: Text, serverFirst: Text, withoutProof: Text): Text {
    c.hmac(c.hmac(salted, Ascii("Server Key")), bare + [COMMA] + serverFirst + [COMMA] + withoutProof)
  }

  /** The verifier of a salted password. */
  ghost predicate VerifierOf(c: Crypto, salted: Text, v: Verifier) {
    && v.storedKey == c.h(c.hmac(salted, Ascii("Client Key")))
    && v.serverKey == c.hmac(salted, Ascii("Server Key"))
  }

  lemma ThreeFields(a: Text, b: Text, c: Text)
    requires COMMA !in a && COMMA !in b && COMMA !in c
    ensures Split(a + [COMMA] + (b + [COMMA] + c), COMMA) == [a, b, c]
  {
    SplitFirst(a, COMMA, b + [COMMA] + c);
    SplitFirst(b, COMMA, c);
    SplitNowhere(c, COMMA);
  }

  /** What a client takes for the nonce of a server-first-message. */
  function AnnouncedNonce(serverFirst: Text): Option<Text> {
    StripPrefix(Split(serverFirst, COMMA)[0], Ascii("r="))
  }

  /** The nonce that is checked is the one that is announced: the client's own and the server's behind it. */
  lemma NonceIsAnnounced(first: ClientFirst, data: Text, serverNonce: Text, user: Text, v: Verifier, mock: bool)
    requires COMMA !in first.nonce && COMMA !in serverNonce
    ensures var x := NewExchange(first, data, serverNonce, user, v, mock);
      AnnouncedNonce(x.serverFirst) == Some(first.nonce + serverNonce) == Some(x.nonce)
  {
    var x := NewExchange(first, data, serverNonce, user, v, mock);
    var head := Ascii("r=") + (first.nonce + serverNonce);
    var rest := Ascii("s=") + Encode(v.salt) + [COMMA] + (Ascii("i=") + Decimal(v.iterations));
    assert x.serverFirst == head + [COMMA] + rest;
    SplitFirst(head, COMMA, rest);
    StripPrefixOf(Ascii("r="), first.nonce + serverNonce);
  }

  /** The client can read nonce, salt and iteration count back from the server-first-message. */
  lemma ServerFirstIsReadable(first: ClientFirst, data: Text, serverNonce: Text, user: Text, v: Verifier, mock: bool)
    requires COMMA !in first.nonce && COMMA !in serverNonce && Valid(v)
    ensures var x := NewExchange(first, data, serverNonce, user, v, mock);
      var parts := Split(x.serverFirst, COMMA);
      && |parts| == 3
      && StripPrefix(parts[0], Ascii("r=")) == Some(first.nonce + serverNonce)
      && (var s := StripPrefix(parts[1], Ascii("s=")); s.Some? && Decode(s.value) == Some(v.salt))
      && (var i := StripPrefix(parts[2], Ascii("i=")); i.Some? && ParseU32(i.value) == Some(v.iterations))
  {
    var nonce, salt, iterations := first.nonce + serverNonce, Encode(v.salt), Decimal(v.iterations);
    EncodingIsPlain(v.salt);
    DecodeEncode(v.salt);
    ParseU32Decimal(v.iterations);
    ThreeFields(Ascii("r=") + nonce, Ascii("s=") + salt, Ascii("i=") + iterations);
    StripPrefixOf(Ascii("r="), nonce);
    StripPrefixOf(Ascii("s="), salt);
    StripPrefixOf(Ascii("i="), iterations);
  }

  lemma FinalSplits(x: Exchange, extensions: Text, proof: Text)
    requires COMMA !in x.channelBinding && COMMA !in x.nonce && Tail(extensions, COMMA)
    ensures var w := Ascii("c=") + x.channelBinding + [COMMA] + (Ascii("r=") + x.nonce + extensions);
      && RSplitOnce(w + PROOF_FIELD + Encode(proof), PROOF_FIELD) == Some((w, Encode(proof)))
      && |Split(w, COMMA)| >= 2
      && StripPrefix(Split(w, COMMA)[0], Ascii("c=")) == Some(x.channelBinding)
      && StripPrefix(Split(w, COMMA)[1], Ascii("r=")) == Some(x.nonce)
  {
    var w := Ascii("c=") + x.channelBinding + [COMMA] + (Ascii("r=") + x.nonce + extensions);
    EncodingIsPlain(proof);
    RSplitOnceAt(w, PROOF_FIELD, Encode(proof));
    SplitTwo(Ascii("c=") + x.channelBinding, COMMA, Ascii("r=") + x.nonce, extensions);
    StripPrefixOf(Ascii("c="), x.channelBinding);
    StripPrefixOf(Ascii("r="), x.nonce);
  }

  lemma FinalIsUtf8(channelBinding: Text, nonce: Text, extensions: Text, proof: Text)
    requires ValidUtf8(nonce) && ValidUtf8(extensions)
    ensures ValidUtf8(Ascii("c=") + Encode(channelBinding) + [COMMA] + (Ascii("r=") + nonce + extensions)
                      + PROOF_FIELD + Encode(proof))
  {
    EncodingIsPlain(channelBinding);
    EncodingIsPlain(proof);
    AsciiIsValidUtf8(Ascii("c="));
    AsciiIsValidUtf8(Ascii("r="));
    AsciiIsValidUtf8([COMMA]);
    AsciiIsValidUtf8(PROOF_FIELD);
    var a := Ascii("c=") + Encode(channelBinding) + [COMMA];
    var b := Ascii("r=") + nonce + extensions;
    ValidUtf8Concat(Ascii("c="), Encode(channelBinding));
    ValidUtf8Concat(Ascii("c=") + Encode(channelBinding), [COMMA]);
    ValidUtf8Concat(Ascii("r="), nonce);
    ValidUtf8Concat(Ascii("r=") + nonce, extensions);
    ValidUtf8Concat(a, b);
    ValidUtf8Concat(a + b, PROOF_FIELD);
    ValidUtf8Concat(a + b + PROOF_FIELD, Encode(proof));
  }

  ghost predicate WellFormed(x: Exchange) {
    COMMA !in x.channelBinding && COMMA !in x.nonce
  }

  lemma NewExchangeIsWellFormed(first: ClientFirst, data: Text, serverNonce: Text, user: Text, v: Verifier, mock: bool)
    requires COMMA !in first.nonce && COMMA !in serverNonce
    ensures WellFormed(NewExchange(first, data, serverNonce, user, v, mock))
  {
    EncodingIsPlain(first.gs2Header + data);
  }

  /** A final message for this exchange comes down to its proof. */
  lemma VerifyPrinted(c: Crypto, x: Exchange, extensions: Text, proof: Text)
    requires WellFormed(x) && Tail(extensions, COMMA)
    ensures var w := Ascii("c=") + x.channelBinding + [COMMA] + (Ascii("r=") + x.nonce + extensions);
      var message := w + PROOF_FIELD + Encode(proof);
      ValidUtf8(message) ==> Verify(c, x, message) == CheckProof(c, x, w, Encode(proof))
  {
    FinalSplits(x, extensions, proof);
  }

  /** The proof of the client of section 3 of RFC 5802 checks against its verifier. */
  lemma ProofChecks(c: Crypto, salted: Text, x: Exchange, withoutProof: Text)
    requires c.Sound() && VerifierOf(c, salted, x.verifier) && !x.mock
    ensures var message := AuthMessage(x, withoutProof);
      var proof := XorAll(c.hmac(salted, Ascii("Client Key")), c.hmac(x.verifier.storedKey, message));
      CheckProof(c, x, withoutProof, Encode(proof))
      == Ok(Ascii("v=") + Encode(c.hmac(c.hmac(salted, Ascii("Server Key")), message)))
  {
    var clientKey := c.hmac(salted, Ascii("Client Key"));
    var signature := c.hmac(x.verifier.storedKey, AuthMessage(x, withoutProof));
    DecodeEncode(XorAll(clientKey, signature));
    XorAllCancel(clientKey, signature);
  }

  /** A client that knows the salted password behind the verifier is accepted, whatever the channel
      binding, the nonces and the extensions, and is sent the server signature it computes itself. */
  lemma Completeness(c: Crypto, salted: Text, first: ClientFirst, data: Text, serverNonce: Text, user: Text,
                     v: Verifier, extensions: Text)
    requires c.Sound() && VerifierOf(c, salted, v)
    requires COMMA !in first.nonce && COMMA !in serverNonce && Tail(extensions, COMMA)
    requires ValidUtf8(first.nonce) && ValidUtf8(serverNonce) && ValidUtf8(extensions)
    ensures var x := NewExchange(first, data, serverNonce, user, v, false);
      && AnnouncedNonce(x.serverFirst).Some?
      && (var w := WithoutProof(first.gs2Header, data, AnnouncedNonce(x.serverFirst).value, extensions);
          Verify(c, x, ClientFinal(c, salted, first.bare, x.serverFirst, w))
          == Ok(Ascii("v=") + Encode(ClientsServerSignature(c, salted, first.bare, x.serverFirst, w))))
  {
    NonceIsAnnounced(first, data, serverNonce, user, v, false);
    var x := NewExchange(first, data, serverNonce, user, v, false);
    NewExchangeIsWellFormed(first, data, serverNonce, user, v, false);
    ValidUtf8Concat(first.nonce, serverNonce);
    var w := WithoutProof(first.gs2Header, data, x.nonce, extensions);
    var proof := XorAll(c.hmac(salted, Ascii("Client Key")), c.hmac(v.storedKey, AuthMessage(x, w)));
    FinalIsUtf8(first.gs2Header + data, x.nonce, extensions, proof);
    VerifyPrinted(c, x, extensions, proof);
    ProofChecks(c, salted, x, w);
  }

  /** The whole conversation: whatever first message an honest client prints, if the server agrees to
      its choice of channel binding the client is let in and sent the signature it computes itself. */
  lemma HonestClientIsAccepted(c: Crypto, salted: Text, flag: Text, authzid: Text, name: Text, nonce: Text, tail: Text,
                               mechanism: Text, certificate: Option<Text>, random: Text, user: Text, v: Verifier,
                               extensions: Text)
    requires c.Sound() && VerifierOf(c, salted, v)
    requires FirstParts(flag, authzid, name, nonce, tail) && Negotiate(mechanism, flag, certificate).Ok?
    requires ValidUtf8(nonce) && ValidUtf8(extensions) && Tail(extensions, COMMA)
    ensures var header, bare := Gs2Header(flag, authzid), BareFirst(name, nonce, tail);
      var data := Negotiate(mechanism, flag, certificate).value;
      var first := ParseFirst(header + bare);
      && first.Ok?
      && (var x := NewExchange(first.value, data, Encode(random), user, v, false);
          var n := AnnouncedNonce(x.serverFirst);
          && n.Some? && nonce <= n.value
          && (var w := WithoutProof(header, data, n.value, extensions);
              Verify(c, x, ClientFinal(c, salted, bare, x.serverFirst, w))
              == Ok(Ascii("v=") + Encode(ClientsServerSignature(c, salted, bare, x.serverFirst, w)))))
  {
    ParsePrintedFirst(flag, authzid, name, nonce, tail);
    EncodingIsPlain(random);
    NonceIsAnnounced(ClientFirst(flag, Gs2Header(flag, authzid), BareFirst(name, nonce, tail), nonce),
                     Negotiate(mechanism, flag, certificate).value, Encode(random), user, v, false);
    Completeness(c, salted, ClientFirst(flag, Gs2Header(flag, authzid), BareFirst(name, nonce, tail), nonce),
                 Negotiate(mechanism, flag, certificate).value, Encode(random), user, v, extensions);
  }

  // ---------- Acceptance -------------------------------------------------

  /** `message` is a client-final-message for this very exchange whose proof yields a preimage of
      the stored key. */
  ghost predicate Proves(c: Crypto, x: Exchange, message: Text, extensions: Text, proof: Text) {
    var w := Ascii("c=") + x.channelBinding + [COMMA] + (Ascii("r=") + x.nonce + extensions);
    && ValidUtf8(message) && message == w + PROOF_FIELD + Encode(proof)
    && Tail(extensions, COMMA) && |proof| == 32
    && c.h(XorAll(proof, c.hmac(x.verifier.storedKey, AuthMessage(x, w)))) == x.verifier.storedKey
  }

  lemma AcceptedProves(c: Crypto, x: Exchange, message: Text) returns (extensions: Text, proof: Text)
    requires Verify(c, x, message).Ok?
    ensures !x.mock && Proves(c, x, message, extensions, proof)
    ensures RSplitOnce(message, PROOF_FIELD).value.0
         == Ascii("c=") + x.channelBinding + [COMMA] + (Ascii("r=") + x.nonce + extensions)
  {
    var (w, text) := RSplitOnce(message, PROOF_FIELD).value;
    extensions := SplitTwoSound(w, COMMA);
    proof := Decode(text).value;
    EncodeDecode(text);
    StripPrefixSound(Split(w, COMMA)[0], Ascii("c="));
    StripPrefixSound(Split(w, COMMA)[1], Ascii("r="));
  }

  /** The nonce of an accepted message is the one that was announced. */
  lemma NonceIsEchoed(c: Crypto, first: ClientFirst, data: Text, serverNonce: Text, user: Text, v: Verifier,
                      mock: bool, message: Text)
    requires COMMA !in first.nonce && COMMA !in serverNonce
    requires Verify(c, NewExchange(first, data, serverNonce, user, v, mock), message).Ok?
    ensures var w := RSplitOnce(message, PROOF_FIELD).value.0;
      var announced := AnnouncedNonce(NewExchange(first, data, serverNonce, user, v, mock).serverFirst);
      announced.Some? && StripPrefix(Split(w, COMMA)[1], Ascii("r=")) == announced
  {
    NonceIsAnnounced(first, data, serverNonce, user, v, mock);
  }

  // ---------- Refusals ---------------------------------------------------

  /** A client-final-message of this shape, whose proof field is the last one. */
  ghost predicate FinalParts(message: Text, channelBinding: Text, nonce: Text, extensions: Text, proof: Text) {
    && COMMA !in channelBinding && COMMA !in nonce && Tail(extensions, COMMA)
    && !Occurs(PROOF_FIELD, (PROOF_FIELD + proof)[1..])
    && message == Ascii("c=") + channelBinding + [COMMA] + (Ascii("r=") + nonce + extensions) + PROOF_FIELD + proof
  }

  /** What `Verify` makes of a message of that shape. */
  lemma VerifyParts(c: Crypto, x: Exchange, message: Text, channelBinding: Text, nonce: Text, extensions: Text,
                    proof: Text)
    requires ValidUtf8(message) && FinalParts(message, channelBinding, nonce, extensions, proof)
    ensures var w := Ascii("c=") + channelBinding + [COMMA] + (Ascii("r=") + nonce + extensions);
      Verify(c, x, message) ==
        if channelBinding != x.channelBinding then Err(ChannelBindingFailed)
        else if nonce != x.nonce then Err(NonceMismatch)
        else CheckProof(c, x, w, proof)
  {
    var w := Ascii("c=") + channelBinding + [COMMA] + (Ascii("r=") + nonce + extensions);
    RSplitOnceIff(message, PROOF_FIELD, w, proof);
    SplitTwo(Ascii("c=") + channelBinding, COMMA, Ascii("r=") + nonce, extensions);
    StripPrefixOf(Ascii("c="), channelBinding);
    StripPrefixOf(Ascii("r="), nonce);
  }

  /** A message of any other shape is malformed. */
  lemma OtherShape(c: Crypto, x: Exchange, message: Text)
    returns (channelBinding: Text, nonce: Text, extensions: Text, proof: Text)
    requires ValidUtf8(message)
    ensures FinalParts(message, channelBinding, nonce, extensions, proof)
            || Verify(c, x, message) == Err(MalformedFinal)
  {
    channelBinding, nonce, extensions, proof := [], [], [], [];
    var split := RSplitOnce(message, PROOF_FIELD);
    if split.Some? {
      var (w, p) := split.value;
      proof := p;
      RSplitOnceIff(message, PROOF_FIELD, w, proof);
      var parts := Split(w, COMMA);
      if |parts| >= 2 && Ascii("c=") <= parts[0] && Ascii("r=") <= parts[1] {
        extensions := SplitTwoSound(w, COMMA);
        StripPrefixSound(parts[0], Ascii("c="));
        StripPrefixSound(parts[1], Ascii("r="));
        channelBinding, nonce := parts[0][2..], parts[1][2..];
      }
    }
  }

  /** A proof is malformed exactly if it is not the encoding of 32 bytes. */
  lemma ProofErrors(c: Crypto, x: Exchange, w: Text, proof: Text)
    ensures CheckProof(c, x, w, proof) == Err(MalformedFinal) <==> forall p :: proof == Encode(p) ==> |p| != 32
    ensures CheckProof(c, x, w, proof) in {Err(MalformedFinal), Err(InvalidPassword(x.user))}
            || CheckProof(c, x, w, proof).Ok?
  {
    var d := Decode(proof);
    if d.Some? {
      EncodeDecode(proof);
    }
    forall p | proof == Encode(p) ensures d == Some(p) {
      DecodeEncode(p);
    }
  }

  /** Each refusal by its condition on the message: its encoding, its shape, the channel binding, the
      nonce, and the form of the proof, in this order; everything else is a wrong password. */
  lemma RefusalsIff(c: Crypto, x: Exchange, message: Text)
    ensures Verify(c, x, message) == Err(NotUtf8) <==> !ValidUtf8(message)
    ensures Verify(c, x, message) == Err(ChannelBindingFailed) <==>
      && ValidUtf8(message)
      && exists b, n, e, p :: FinalParts(message, b, n, e, p) && b != x.channelBinding
    ensures Verify(c, x, message) == Err(NonceMismatch) <==>
      && ValidUtf8(message)
      && exists n, e, p :: FinalParts(message, x.channelBinding, n, e, p) && n != x.nonce
    ensures Verify(c, x, message) == Err(MalformedFinal) <==>
      && ValidUtf8(message)
      && forall b, n, e, p :: FinalParts(message, b, n, e, p) ==>
           b == x.channelBinding && n == x.nonce && forall q :: p == Encode(q) ==> |q| != 32
    ensures Verify(c, x, message).Ok? || Verify(c, x, message) == Err(InvalidPassword(x.user)) <==>
      && ValidUtf8(message)
      && exists e, q :: |q| == 32 && FinalParts(message, x.channelBinding, x.nonce, e, Encode(q))
  {
    if ValidUtf8(message) {
      var b, n, e, p := OtherShape(c, x, message);
      forall b, n, e, p | FinalParts(message, b, n, e, p)
        ensures Verify(c, x, message) == if b != x.channelBinding then Err(ChannelBindingFailed)
                else if n != x.nonce then Err(NonceMismatch)
                else CheckProof(c, x, Ascii("c=") + b + [COMMA] + (Ascii("r=") + n + e), p)
        ensures CheckProof(c, x, Ascii("c=") + b + [COMMA] + (Ascii("r=") + n + e), p) == Err(MalformedFinal)
                <==> forall q :: p == Encode(q) ==> |q| != 32
      {
        VerifyParts(c, x, message, b, n, e, p);
        ProofErrors(c, x, Ascii("c=") + b + [COMMA] + (Ascii("r=") + n + e), p);
      }
    }
  }

  /** Exactly the proofs of a real exchange are accepted. */
  lemma AcceptsIff(c: Crypto, x: Exchange, message: Text)
    requires WellFormed(x)
    ensures Verify(c, x, message).Ok? <==>
      !x.mock && exists extensions, proof :: Proves(c, x, message, extensions, proof)
  {
    if Verify(c, x, message).Ok? {
      var extensions, proof := AcceptedProves(c, x, message);
    }
    if extensions, proof :| !x.mock && Proves(c, x, message, extensions, proof) {
      VerifyPrinted(c, x, extensions, proof);
      DecodeEncode(proof);
    }
  }

  /** Two accepted messages that differ only in their proof give two different 32-byte preimages of
      the stored key; where there are none, a message is determined by its part without proof. */
  lemma AcceptedOncePerProoflessPart(c: Crypto, x: Exchange, m1: Text, m2: Text) returns (k1: Text, k2: Text)
    requires c.Sound() && Verify(c, x, m1).Ok? && Verify(c, x, m2).Ok?
    requires RSplitOnce(m1, PROOF_FIELD).value.0 == RSplitOnce(m2, PROOF_FIELD).value.0
    ensures |k1| == |k2| == 32 && c.h(k1) == c.h(k2) == x.verifier.storedKey
    ensures m1 == m2 <==> k1 == k2
  {
    var e1, p1 := AcceptedProves(c, x, m1);
    var e2, p2 := AcceptedProves(c, x, m2);
    var w := RSplitOnce(m1, PROOF_FIELD).value.0;
    var signature := c.hmac(x.verifier.storedKey, AuthMessage(x, w));
    k1, k2 := XorAll(p1, signature), XorAll(p2, signature);
    XorAllCancel(p1, signature);
    XorAllCancel(p2, signature);
    if m1 == m2 {
      DecodeEncode(p1);
      DecodeEncode(p2);
      var n := |w| + |PROOF_FIELD|;
      assert m1[n..] == Encode(p1) && m2[n..] == Encode(p2);
    }
  }

  /** With a hash that is injective on keys, at most one proof is accepted. */
  lemma UniqueProof(c: Crypto, x: Exchange, m1: Text, m2: Text)
    requires c.Sound() && Verify(c, x, m1).Ok? && Verify(c, x, m2).Ok?
    requires RSplitOnce(m1, PROOF_FIELD).value.0 == RSplitOnce(m2, PROOF_FIELD).value.0
    requires forall a, b :: |a| == |b| == 32 && c.h(a) == c.h(b) ==> a == b
    ensures m1 == m2
  {
    var k1, k2 := AcceptedOncePerProoflessPart(c, x, m1, m2);
  }

  /** The outcomes of the negotiation: binding to the certificate over the PLUS mechanism and only
      there, and the claim that the server offers none only where that is true. */
  lemma NegotiatedIff(mechanism: Text, flag: Text, certificate: Option<Text>, data: Text)
    ensures Negotiate(mechanism, flag, certificate) == Ok(data) <==>
      || (mechanism == Ascii("SCRAM-SHA-256-PLUS") && flag == Ascii("p=tls-server-end-point")
          && certificate == Some(data))
      || (mechanism == Ascii("SCRAM-SHA-256") && flag == Ascii("n") && data == [])
      || (mechanism == Ascii("SCRAM-SHA-256") && flag == Ascii("y") && certificate.None? && data == [])
  {
    assert |SCRAM_SHA_256| != |SCRAM_SHA_256_PLUS|;
  }

  /** Acceptance means that the client echoed the very header it sent in its first message and the
      data the server negotiated, which over the PLUS mechanism is the hash of the configured
      certificate. */
  lemma ChannelBindingIsEchoed(c: Crypto, first: ClientFirst, mechanism: Text, certificate: Option<Text>, data: Text,
                               serverNonce: Text, user: Text, v: Verifier, mock: bool, message: Text)
    requires Negotiate(mechanism, first.flag, certificate) == Ok(data)
    requires Verify(c, NewExchange(first, data, serverNonce, user, v, mock), message).Ok?
    ensures var w := RSplitOnce(message, PROOF_FIELD).value.0;
      var echoed := StripPrefix(Split(w, COMMA)[0], Ascii("c="));
      && echoed.Some? && Decode(echoed.value) == Some(first.gs2Header + data)
    ensures mechanism == SCRAM_SHA_256_PLUS ==> first.flag == TLS_SERVER_END_POINT && certificate == Some(data)
    ensures first.flag == Ascii("y") ==> certificate.None? && data == []
  {
    NegotiatedIff(mechanism, first.flag, certificate, data);
    DecodeEncode(first.gs2Header + data);
    FlagsDiffer();
  }

  lemma FlagsDiffer()
    ensures SCRAM_SHA_256 != SCRAM_SHA_256_PLUS
    ensures Ascii("y") != Ascii("n") && Ascii("y") != TLS_SERVER_END_POINT
  {
    assert |SCRAM_SHA_256| != |SCRAM_SHA_256_PLUS|;
    assert |Ascii("y")| != |TLS_SERVER_END_POINT| && Ascii("y")[0] != Ascii("n")[0];
  }

  // ---------- The unknown user -------------------------------------------

  /** To a client that cannot prove the right password, the stand-in for an unknown user answers like
      the genuine exchange, error for error; and it never answers with a signature. */
  lemma MockEquivalence(c: Crypto, mock: Exchange, genuine: Exchange, message: Text)
    requires mock.mock && !genuine.mock
    requires mock.user == genuine.user && mock.nonce == genuine.nonce && mock.channelBinding == genuine.channelBinding
    ensures Verify(c, mock, message).Err?
    ensures Verify(c, genuine, message).Err? ==> Verify(c, mock, message) == Verify(c, genuine, message)
    ensures Verify(c, genuine, message).Ok? ==> Verify(c, mock, message) == Err(InvalidPassword(genuine.user))
  {
  }
}
