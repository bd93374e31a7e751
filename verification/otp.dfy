/** The one-time-password store: a map from phone number to the pending
    code and its expiry time, with the send and verify handlers. The clock
    (`Date.now()`, in milliseconds) and the random draw (`Math.random()`)
    are parameters. */
module Otp {
  import Text

  datatype OtpEntry = OtpEntry(code: string, expiresAt: int)

  type OtpStore = map<string, OtpEntry>

  /** Five minutes, in milliseconds. */
  const Lifetime: int := 5 * 60 * 1000

  /** `Math.floor(100000 + random * 900000)` for a draw in [0, 1). */
  function DrawCode(random: real): (code: nat)
    requires 0.0 <= random < 1.0
    ensures 100000 <= code <= 999999
  {
    assert random * 900000.0 < 900000.0;
    (100000.0 + random * 900000.0).Floor
  }

  /** The code as the string the store keeps: six decimal digits. */
  function CodeText(random: real): (code: string)
    requires 0.0 <= random < 1.0
    ensures |code| == 6 && Text.AllDigits(code)
    ensures 100000 <= Text.Value(code) <= 999999
    ensures Text.Value(code) == DrawCode(random)
  {
    var n := DrawCode(random);
    assert Text.Pow10(5) == 100000 && Text.Pow10(6) == 1000000;
    Text.DecimalLength(n, 5);
    Text.DecimalDenotes(n);
    Text.Decimal(n)
  }

  /** The body of `POST /api/otp/send`: a fresh code for `phone`, replacing
      any pending one, expiring five minutes from now. */
  function Send(store: OtpStore, phone: string, now: int, random: real): (r: OtpStore)
    requires 0.0 <= random < 1.0
    ensures r.Keys == store.Keys + {phone}
    ensures r[phone].expiresAt == now + 300000
    ensures |r[phone].code| == 6 && Text.AllDigits(r[phone].code)
    ensures 100000 <= Text.Value(r[phone].code) <= 999999
    ensures forall p :: p in store && p != phone ==> r[p] == store[p]
  {
    store[phone := OtpEntry(CodeText(random), now + Lifetime)]
  }

  /** The four answers of `POST /api/otp/verify`; only `Verified` is a success. */
  datatype Outcome = Verified | NotFound | Expired | Mismatch
  {
    predicate Success() { this == Verified }
  }

  datatype Verification = Verification(outcome: Outcome, store: OtpStore)

  /** The body of `POST /api/otp/verify`. An entry stays valid up to and
      including the instant `expiresAt`. */
  function Verify(store: OtpStore, phone: string, otp: string, now: int): (r: Verification)
    ensures phone !in store ==> r == Verification(NotFound, store)
    // past expiry: a failure that drops the entry, whatever the code
    ensures phone in store && store[phone].expiresAt < now ==>
      r.outcome == Expired && r.store == store - {phone}
    // in time, wrong code: a failure that keeps the entry
    ensures phone in store && now <= store[phone].expiresAt && otp != store[phone].code ==>
      r == Verification(Mismatch, store)
    // in time, right code: `success: true`, and the entry is used up
    ensures r.outcome.Success() <==>
      phone in store && now <= store[phone].expiresAt && otp == store[phone].code
    ensures r.outcome == Verified ==> r.store == store - {phone}
    ensures r.store.Keys <= store.Keys
    ensures forall p :: p in r.store ==> r.store[p] == store[p]
  {
    if phone !in store then Verification(NotFound, store)
    else if store[phone].expiresAt < now then Verification(Expired, store - {phone})
    else if store[phone].code != otp then Verification(Mismatch, store)
    else Verification(Verified, store - {phone})
  }

  /** The code just sent is accepted at any time up to five minutes later,
      and only once: a second attempt with it finds no entry. */
  lemma SendThenVerify(store: OtpStore, phone: string, now: int, random: real, later: int, again: int)
    requires 0.0 <= random < 1.0
    requires now <= later <= now + Lifetime
    ensures var first := Verify(Send(store, phone, now, random), phone, CodeText(random), later);
      && first.outcome == Verified
      && Verify(first.store, phone, CodeText(random), again).outcome == NotFound
  {
  }

  /** After the five minutes have passed the code is refused as expired,
      whatever code is given, and the entry is gone. */
  lemma ExpiresAfterLifetime(store: OtpStore, phone: string, now: int, random: real, later: int, otp: string)
    requires 0.0 <= random < 1.0
    requires later > now + Lifetime
    ensures var r := Verify(Send(store, phone, now, random), phone, otp, later);
      r.outcome == Expired && phone !in r.store
  {
  }

  /** A wrong guess does not use the code up: the right code still works. */
  lemma MismatchKeepsCode(store: OtpStore, phone: string, wrong: string, now: int, later: int)
    requires phone in store && later <= store[phone].expiresAt && now <= later
    requires wrong != store[phone].code
    ensures var first := Verify(store, phone, wrong, now);
      first.outcome == Mismatch && Verify(first.store, phone, store[phone].code, later).outcome == Verified
  {
  }

  /** Sending twice leaves only the second code pending. */
  lemma SendOverwrites(store: OtpStore, phone: string, now1: int, r1: real, now2: int, r2: real)
    requires 0.0 <= r1 < 1.0 && 0.0 <= r2 < 1.0
    ensures Send(Send(store, phone, now1, r1), phone, now2, r2) == Send(store, phone, now2, r2)
  {
  }
}
