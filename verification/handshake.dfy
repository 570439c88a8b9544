/**
  The challenge-response handshake. The responder sends a random six-digit
  challenge; the initiator answers with the hex SHA-256 digest of the
  challenge followed by the shared secret; the responder compares that with
  its own digest and answers with a status string.
 */
module Handshake {
  import opened Strings
  import opened Channel
  import opened Settings

  /** `hash_challenge`: the digest of the challenge followed by the secret. */
  function HashChallenge(cfg: Config, challenge: string): string {
    cfg.sha(challenge + cfg.secret)
  }

  /** `validate_response`: the response is the digest the responder expects. */
  predicate ValidateResponse(cfg: Config, response: string, challenge: string) {
    response == HashChallenge(cfg, challenge)
  }

  /** A challenge `str(random.randint(100000, 999999))` can produce. */
  predicate IsChallenge(challenge: string) {
    && |challenge| == 6
    && (forall k :: 0 <= k < |challenge| ==> IsDigit(challenge[k]))
    && 100000 <= ParseDecimal(challenge) <= 999999
  }

  /** Every number in the range prints as a challenge that reads back as that number. */
  lemma ChallengeOfNumber(n: nat)
    requires 100000 <= n <= 999999
    ensures IsChallenge(Decimal(n))
    ensures ParseDecimal(Decimal(n)) == n
  {
    assert Pow10(5) == 100000 && Pow10(6) == 1000000;
    DecimalLength(n, 5);
    ParseDecimalRoundTrip(n);
  }

  /** `generate_challenge`: the random draw is any number in the range. */
  method GenerateChallenge() returns (challenge: string)
    ensures IsChallenge(challenge)
  {
    var n: nat :| 100000 <= n <= 999999;
    ChallengeOfNumber(n);
    challenge := Decimal(n);
  }

  /** An initiator that holds the same secret always passes. */
  lemma SameSecretAccepted(cfg: Config, challenge: string)
    ensures ValidateResponse(cfg, HashChallenge(cfg, challenge), challenge)
  {
  }

  /**
    An initiator holding a different secret fails, provided the digest has no
    collision on the two inputs (SHA-256 is taken to be injective here).
   */
  lemma OtherSecretRejected(cfg: Config, other: Config, challenge: string)
    requires other.secret != cfg.secret && other.sha == cfg.sha
    requires forall a, b :: cfg.sha(a) == cfg.sha(b) ==> a == b
    ensures !ValidateResponse(cfg, HashChallenge(other, challenge), challenge)
  {
    var a, b := challenge + other.secret, challenge + cfg.secret;
    assert a[|challenge|..] == other.secret && b[|challenge|..] == cfg.secret;
  }

  /**
    The responder's half (`authenticate_client_with_server`, `Server.authenticate`):
    send a fresh challenge, read the answer, and check it.
   */
  method Challenge(conn: Connection, cfg: Config) returns (ok: bool, challenge: string)
    modifies conn
    ensures IsChallenge(challenge)
    ensures conn.sent == old(conn.sent) + [challenge]
    ensures conn.incoming == Tail(old(conn.incoming))
    ensures ok <==> ValidateResponse(cfg, Head(old(conn.incoming)), challenge)
  {
    challenge := GenerateChallenge();
    conn.SendAll(challenge);
    var response := conn.Recv();
    ok := response == HashChallenge(cfg, challenge);
  }

  /**
    The initiator's half (`authenticate_server_with_client`): read the
    challenge, send its digest, read the status; success is the status
    being exactly the agreed success string.
   */
  method Respond(conn: Connection, cfg: Config) returns (ok: bool)
    modifies conn
    ensures conn.sent == old(conn.sent) + [HashChallenge(cfg, Head(old(conn.incoming)))]
    ensures conn.incoming == Tail(Tail(old(conn.incoming)))
    ensures ok <==> Head(Tail(old(conn.incoming))) == cfg.authSuccess
  {
    var challenge := conn.Recv();
    var response := HashChallenge(cfg, challenge);
    conn.SendAll(response);
    var status := conn.Recv();
    ok := status == cfg.authSuccess;
  }
}
