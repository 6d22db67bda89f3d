/**
 * Bearer tokens: issuing them on register and login, and the `verifyToken`
 * middleware that guards the file routes.
 *
 * JSON Web Token signing and password hashing are library code; they are
 * represented by a bundle of functions, `Primitives`, about which the model
 * assumes only what `Sound` states.
 */
module Tokens {
  import opened Wrappers
  import opened Tables
  import opened Http

  /** The salt bcrypt draws for each hash. */
  type Salt = nat

  /** `expiresIn: "1h"`: the `exp` claim is the issue time plus one hour, in seconds. */
  const TokenLifetime: nat := 3600

  /** What verification recovers from a token's text: the `id` claim, the `exp` claim, and whether the signature checks. */
  datatype Token = Token(userId: nat, exp: nat, sigOk: bool)

  /** The library calls: `bcrypt.hash`, `bcrypt.compare`, `jwt.sign` and the decoding half of `jwt.verify`. */
  datatype Primitives = Primitives(
    hash: (string, Salt) -> Digest,
    matches: (string, Digest) -> bool,
    sign: (nat, nat) -> string,
    decode: string -> Option<Token>)

  /**
   * All the model assumes of the libraries: a password matches its own hash,
   * a signed token decodes to its claims with a good signature, and the
   * signed text is non-empty and holds no space.
   */
  ghost predicate Sound(p: Primitives)
  {
    && (forall pw, salt :: p.matches(pw, p.hash(pw, salt)))
    && (forall id, exp :: p.decode(p.sign(id, exp)) == Some(Token(id, exp, true)))
    && (forall id, exp :: p.sign(id, exp) != "" && ' ' !in p.sign(id, exp))
  }

  /** JavaScript's `s.split(" ")`: the pieces between single spaces, empty pieces included. */
  function Split(s: string): (fields: seq<string>)
    ensures |fields| >= 1
    ensures forall k :: 0 <= k < |fields| ==> ' ' !in fields[k]
  {
    if s == [] then [""]
    else
      var rest := Split(s[1..]);
      if s[0] == ' ' then [""] + rest
      else [[s[0]] + rest[0]] + rest[1..]
  }

  /** The pieces put back together with single spaces. */
  function Join(fields: seq<string>): string
    requires |fields| >= 1
  {
    if |fields| == 1 then fields[0] else fields[0] + " " + Join(fields[1..])
  }

  /** Splitting loses nothing: joining the pieces gives the header back. */
  lemma {:induction false} JoinSplit(s: string)
    ensures Join(Split(s)) == s
  {
    if s != [] {
      var rest := Split(s[1..]);
      JoinSplit(s[1..]);
      if s[0] == ' ' {
        assert s == " " + s[1..];
      } else if |rest| == 1 {
        assert s == [s[0]] + s[1..];
      } else {
        assert Join(rest) == rest[0] + " " + Join(rest[1..]);
        assert Split(s)[1..] == rest[1..];
        assert s == [s[0]] + s[1..];
      }
    }
  }

  /** A word followed by a space and more text splits into that word and the rest's pieces. */
  lemma {:induction false} SplitAfterWord(w: string, rest: string)
    requires ' ' !in w
    ensures Split(w + " " + rest) == [w] + Split(rest)
  {
    if w == [] {
      assert w + " " + rest == " " + rest;
      assert (" " + rest)[1..] == rest;
    } else {
      SplitAfterWord(w[1..], rest);
      assert (w + " " + rest)[1..] == w[1..] + " " + rest;
      assert [w[0]] + w[1..] == w;
    }
  }

  /** Text without a space is a single piece. */
  lemma {:induction false} SplitWord(w: string)
    requires ' ' !in w
    ensures Split(w) == [w]
  {
    if w != [] {
      SplitWord(w[1..]);
      assert [w[0]] + w[1..] == w;
    }
  }

  /** The header the client sends: `Bearer ${token}`. */
  function BearerHeader(token: string): string
  {
    "Bearer " + token
  }

  /** `jwt.sign({ id }, secret, { expiresIn: "1h" })` at time `now`. */
  function Issue(p: Primitives, id: nat, now: nat): string
  {
    p.sign(id, now + TokenLifetime)
  }

  /** The token is accepted at time `now`: its signature checks and it has not expired. */
  predicate Live(t: Token, now: nat)
  {
    t.sigOk && now < t.exp
  }

  /**
   * `verifyToken`: no (or an empty) Authorization header is refused with 403.
   * The credential is the second space-separated piece, whatever the first
   * piece says; a missing or empty credential (which `jwt.verify` refuses
   * before decoding) or one that does not verify is refused with 401;
   * otherwise the request proceeds as the token's user.
   */
  function Authenticate(p: Primitives, header: Option<string>, now: nat): (r: Result<nat, Reply>)
    ensures r.Failure? ==> r.error == NoTokenReply || r.error == UnauthorizedReply
    ensures (r.Failure? && r.error == NoTokenReply) <==> header.None? || header.value == ""
    ensures r.Success? <==>
      && header.Some? && header.value != "" && |Split(header.value)| >= 2 && Split(header.value)[1] != ""
      && p.decode(Split(header.value)[1]).Some? && Live(p.decode(Split(header.value)[1]).value, now)
    ensures r.Success? ==> r.value == p.decode(Split(header.value)[1]).value.userId
  {
    if header.None? || header.value == "" then Failure(NoTokenReply)
    else
      var fields := Split(header.value);
      if |fields| < 2 || fields[1] == "" then Failure(UnauthorizedReply)
      else
        match p.decode(fields[1])
        case None => Failure(UnauthorizedReply)
        case Some(t) => if Live(t, now) then Success(t.userId) else Failure(UnauthorizedReply)
  }

  /**
   * A token this server signed for `id` with expiry `exp`, sent as `Bearer ${token}`,
   * lets the request through as `id` exactly until `exp`, and is refused with 401 from then on.
   */
  lemma SignedTokenVerdict(p: Primitives, id: nat, exp: nat, now: nat)
    requires Sound(p)
    ensures Authenticate(p, Some(BearerHeader(p.sign(id, exp))), now)
         == if now < exp then Success(id) else Failure(UnauthorizedReply)
  {
    var text := p.sign(id, exp);
    SplitAfterWord("Bearer", text);
    SplitWord(text);
    assert "Bearer" + " " + text == BearerHeader(text);
  }

  /** A token issued at `issuedAt` is accepted for its own user for exactly one hour. */
  lemma IssuedTokenAccepted(p: Primitives, id: nat, issuedAt: nat, now: nat)
    requires Sound(p)
    ensures Authenticate(p, Some(BearerHeader(Issue(p, id, issuedAt))), now).Success?
        <==> now < issuedAt + TokenLifetime
    ensures Authenticate(p, Some(BearerHeader(Issue(p, id, issuedAt))), now).Success? ==>
      Authenticate(p, Some(BearerHeader(Issue(p, id, issuedAt))), now).value == id
  {
    SignedTokenVerdict(p, id, issuedAt + TokenLifetime, now);
  }

  /**
   * A header with no token after the scheme word, such as the `Bearer ` a client
   * with no stored token sends, or a scheme word followed by two spaces, is
   * refused with 401.
   */
  lemma EmptyCredentialRejected(p: Primitives, scheme: string, rest: string, now: nat)
    requires ' ' !in scheme
    ensures Authenticate(p, Some(scheme + " "), now) == Failure(UnauthorizedReply)
    ensures Authenticate(p, Some(scheme + " " + " " + rest), now) == Failure(UnauthorizedReply)
  {
    SplitAfterWord(scheme, "");
    assert scheme + " " + "" == scheme + " ";
    assert Split("") == [""];
    SplitAfterWord(scheme, " " + rest);
    assert scheme + " " + (" " + rest) == scheme + " " + " " + rest;
    assert Split(" " + rest) == [""] + Split(rest) by {
      assert (" " + rest)[1..] == rest;
    }
  }

  /**
   * The scheme word is never checked: a signed, unexpired token after any
   * space-free first word and a single space lets the request through.
   */
  lemma SchemeIgnored(p: Primitives, scheme: string, id: nat, exp: nat, now: nat)
    requires Sound(p)
    requires ' ' !in scheme && now < exp
    ensures Authenticate(p, Some(scheme + " " + p.sign(id, exp)), now) == Success(id)
  {
    var text := p.sign(id, exp);
    SplitAfterWord(scheme, text);
    SplitWord(text);
  }

  /** A header whose credential fails signature verification is refused with 401, whatever it claims. */
  lemma ForgedTokenRejected(p: Primitives, header: string, now: nat)
    requires header != ""
    requires |Split(header)| >= 2 && p.decode(Split(header)[1]).Some?
    requires !p.decode(Split(header)[1]).value.sigOk
    ensures Authenticate(p, Some(header), now) == Failure(UnauthorizedReply)
  {
  }
}
