/** The registration service (app/services/auth_service.py, `AuthService`).

    Per mobile number it runs the implicit state machine
    New -> OtpPending -> Verified, where a pending code falls back to New by
    expiring in the cache. `Initiate` and `Verify` give the effect of the two
    service calls on a `World` value (the cache table and the user table);
    the class `AuthService` performs them step by step on the cache and user
    store objects and is proved to have exactly that effect. */
module Auth {
  import opened Wrappers
  import opened Schemas
  import opened Twilio
  import opened Cache
  import opened Users

  const OTP_EXPIRY_SECONDS: int := 300

  const HTTP_400_BAD_REQUEST: int := 400

  /** An `HTTPException` raised towards the client. */
  datatype HttpError = HttpError(statusCode: int, detail: string)

  const USER_EXISTS: HttpError := HttpError(HTTP_400_BAD_REQUEST, "User already exists and is verified.")
  const OTP_EXPIRED: HttpError := HttpError(HTTP_400_BAD_REQUEST, "OTP has expired or request is invalid.")
  const INVALID_OTP: HttpError := HttpError(HTTP_400_BAD_REQUEST, "Invalid OTP Code")

  const OTP_KEY_PREFIX: string := "otp:"

  /** The cache key of a number's pending code. */
  function OtpKey(mobile: string): (key: string)
    ensures |key| == |OTP_KEY_PREFIX| + |mobile|
    ensures key[..|OTP_KEY_PREFIX|] == OTP_KEY_PREFIX && key[|OTP_KEY_PREFIX|..] == mobile
  {
    OTP_KEY_PREFIX + mobile
  }

  /** Different numbers never share a cache key. */
  lemma OtpKeyInjective(a: string, b: string)
    requires OtpKey(a) == OtpKey(b)
    ensures a == b
  {
  }

  /** Everything the two service calls read and write. */
  datatype World = World(cache: Store, users: Table, nextId: int)

  /** `initiate_registration(mobile)` at time `now`, where `draw` is the integer
      `generate_otp` drew. */
  function Initiate(w: World, mobile: string, draw: int, now: int): (res: (Result<string, HttpError>, World))
    requires OTP_MIN <= draw <= OTP_MAX
    ensures res.1.users == w.users && res.1.nextId == w.nextId
    ensures res.0.Failure? <==> mobile in w.users
    ensures res.0.Failure? ==> res.0.error == USER_EXISTS && res.1 == w
    ensures res.0.Success? ==>
              && OtpCodeAccepted(res.0.value)
              && Visible(res.1.cache, OtpKey(mobile), now + OTP_EXPIRY_SECONDS) == Some(res.0.value)
              && Visible(res.1.cache, OtpKey(mobile), now + OTP_EXPIRY_SECONDS + 1) == None
  {
    if mobile in w.users then
      (Failure(USER_EXISTS), w)
    else
      var code := GenerateOtp(draw);
      (Success(code), w.(cache := Stored(w.cache, OtpKey(mobile), OTP_EXPIRY_SECONDS, code, now)))
  }

  /** `verify_and_create(mobile, otp)` at time `now`. */
  function Verify(w: World, mobile: string, otp: string, now: int): (res: (Result<User, HttpError>, World))
    ensures res.0.Success? <==> Visible(w.cache, OtpKey(mobile), now) == Some(otp) && otp != ""
    ensures res.0.Failure? ==> res.0.error in {OTP_EXPIRED, INVALID_OTP} && res.1.users == w.users && res.1.nextId == w.nextId
    ensures res.0.Failure? ==> (res.0.error == OTP_EXPIRED <==> Visible(w.cache, OtpKey(mobile), now) in {None, Some("")})
    ensures res.0.Success? ==>
              && OtpKey(mobile) !in res.1.cache
              && mobile in res.1.users && res.1.users[mobile] == res.0.value
              && (Consistent(w.users, w.nextId) ==> res.0.value.mobileNumber == mobile && res.0.value.isVerified)
              && res.1.users.Keys == w.users.Keys + {mobile}
              && (mobile in w.users ==> res.1.users == w.users)
  {
    var key := OtpKey(mobile);
    var stored := Visible(w.cache, key, now);
    var cache := Swept(w.cache, key, now);
    if stored.None? || stored.value == "" then
      (Failure(OTP_EXPIRED), w.(cache := cache))
    else if stored.value != otp then
      (Failure(INVALID_OTP), w.(cache := cache))
    else if mobile in w.users then
      (Success(w.users[mobile]), w.(cache := Removed(cache, key)))
    else
      var u := NewUser(w.nextId, mobile, now);
      (Success(u), World(Removed(cache, key), w.users[mobile := u], w.nextId + 1))
  }

  datatype Phase = New | OtpPending | Verified

  /** Where a number stands at time `now`: registered, holding a live code, or neither. */
  function PhaseOf(w: World, mobile: string, now: int): Phase {
    if mobile in w.users then Verified
    else
      var stored := Visible(w.cache, OtpKey(mobile), now);
      if stored.Some? && stored.value != "" then OtpPending else New
  }

  /** The invariant of the two tables: the user table is consistent, and the
      cache holds only codes the verify request would accept. */
  predicate WellFormed(w: World) {
    Consistent(w.users, w.nextId) && CodesOnly(w.cache)
  }

  predicate CodesOnly(cache: Store) {
    forall k :: k in cache ==> OtpCodeAccepted(cache[k].value)
  }

  // ---------------------------------------------------------------------
  // initiate_registration

  /** A registered number is refused with 400 and nothing changes. */
  lemma InitiateRegistered(w: World, mobile: string, draw: int, now: int)
    requires OTP_MIN <= draw <= OTP_MAX
    requires mobile in w.users
    ensures Initiate(w, mobile, draw, now) == (Failure(USER_EXISTS), w)
  {
  }

  /** For a new number the generated code is returned and cached under
      "otp:" + number for 300 seconds; only that cache key changes. */
  lemma InitiateNew(w: World, mobile: string, draw: int, now: int)
    requires OTP_MIN <= draw <= OTP_MAX
    requires mobile !in w.users
    ensures var (r, w') := Initiate(w, mobile, draw, now);
            && r == Success(GenerateOtp(draw))
            && OtpCodeAccepted(r.value)
            && w'.cache == Stored(w.cache, OtpKey(mobile), OTP_EXPIRY_SECONDS, r.value, now)
            && w'.users == w.users && w'.nextId == w.nextId
  {
    GeneratedCodeAccepted(draw);
  }

  /** Initiate never touches the user table. */
  lemma InitiateKeepsUsers(w: World, mobile: string, draw: int, now: int)
    requires OTP_MIN <= draw <= OTP_MAX
    ensures Initiate(w, mobile, draw, now).1.users == w.users
    ensures Initiate(w, mobile, draw, now).1.nextId == w.nextId
  {
  }

  /** Initiate moves an unregistered number to OtpPending for the next 300
      seconds and back to New after that. */
  lemma InitiatePhase(w: World, mobile: string, draw: int, now: int, later: int)
    requires OTP_MIN <= draw <= OTP_MAX
    requires PhaseOf(w, mobile, now) != Verified
    ensures later <= now + OTP_EXPIRY_SECONDS ==> PhaseOf(Initiate(w, mobile, draw, now).1, mobile, later) == OtpPending
    ensures later > now + OTP_EXPIRY_SECONDS ==> PhaseOf(Initiate(w, mobile, draw, now).1, mobile, later) == New
  {
    var code := GenerateOtp(draw);
    assert code != "";
    ReadAfterSetex(w.cache, OtpKey(mobile), OTP_EXPIRY_SECONDS, code, now, later);
  }

  // ---------------------------------------------------------------------
  // verify_and_create

  /** No live code (or an empty one): refused as expired or invalid. The user
      table is untouched, and the cache only loses an expired entry, which no
      read from `now` on could have seen. */
  lemma VerifyWithoutCode(w: World, mobile: string, otp: string, now: int)
    requires Visible(w.cache, OtpKey(mobile), now) in {None, Some("")}
    ensures var (r, w') := Verify(w, mobile, otp, now);
            && r == Failure(OTP_EXPIRED)
            && w'.users == w.users && w'.nextId == w.nextId
            && (OtpKey(mobile) !in w.cache ==> w' == w)
            && forall k, later :: now <= later ==> Visible(w'.cache, k, later) == Visible(w.cache, k, later)
  {
    var w' := Verify(w, mobile, otp, now).1;
    forall k, later | now <= later
      ensures Visible(w'.cache, k, later) == Visible(w.cache, k, later)
    {
      SweepUnobservable(w.cache, OtpKey(mobile), now, later, k);
    }
  }

  /** A wrong code is refused as invalid and changes nothing: the pending code stays. */
  lemma VerifyWrongCode(w: World, mobile: string, otp: string, now: int)
    requires OtpKey(mobile) in w.cache && now <= w.cache[OtpKey(mobile)].expiry
    requires w.cache[OtpKey(mobile)].value !in {"", otp}
    ensures Verify(w, mobile, otp, now) == (Failure(INVALID_OTP), w)
  {
  }

  /** After a wrong guess the right code still succeeds, at any time up to expiry. */
  lemma WrongThenRightCode(w: World, mobile: string, wrong: string, now: int, later: int)
    requires OtpKey(mobile) in w.cache
    requires w.cache[OtpKey(mobile)].value !in {"", wrong}
    requires now <= later <= w.cache[OtpKey(mobile)].expiry
    ensures Verify(Verify(w, mobile, wrong, now).1, mobile, w.cache[OtpKey(mobile)].value, later).0.Success?
  {
    VerifyWrongCode(w, mobile, wrong, now);
  }

  /** The right code for a registered number returns the existing row, adds
      nothing, and consumes the code. */
  lemma VerifyRegistered(w: World, mobile: string, now: int)
    requires OtpKey(mobile) in w.cache && now <= w.cache[OtpKey(mobile)].expiry
    requires w.cache[OtpKey(mobile)].value != ""
    requires mobile in w.users
    ensures Verify(w, mobile, w.cache[OtpKey(mobile)].value, now)
            == (Success(w.users[mobile]), w.(cache := Removed(w.cache, OtpKey(mobile))))
  {
  }

  /** The right code for a new number adds exactly one verified row for it,
      returns that row, and consumes the code. */
  lemma VerifyCreates(w: World, mobile: string, now: int)
    requires OtpKey(mobile) in w.cache && now <= w.cache[OtpKey(mobile)].expiry
    requires w.cache[OtpKey(mobile)].value != ""
    requires mobile !in w.users
    ensures var (r, w') := Verify(w, mobile, w.cache[OtpKey(mobile)].value, now);
            && r.Success? && r.value.mobileNumber == mobile && r.value.isVerified
            && r.value.userId == w.nextId
            && w'.users == w.users[mobile := r.value]
            && |w'.users| == |w.users| + 1
            && w'.cache == Removed(w.cache, OtpKey(mobile))
  {
    var w' := Verify(w, mobile, w.cache[OtpKey(mobile)].value, now).1;
    assert w'.users.Keys == w.users.Keys + {mobile};
  }

  /** A successful verify consumes the code: repeating it, with any code at any
      time, is refused as expired or invalid. */
  lemma ReplayFails(w: World, mobile: string, otp: string, now: int, otp2: string, later: int)
    requires Verify(w, mobile, otp, now).0.Success?
    ensures Verify(Verify(w, mobile, otp, now).1, mobile, otp2, later).0 == Failure(OTP_EXPIRED)
  {
  }

  /** Any successful verify leaves the number Verified, for good. */
  lemma VerifyPhase(w: World, mobile: string, otp: string, now: int, later: int)
    requires Verify(w, mobile, otp, now).0.Success?
    ensures PhaseOf(Verify(w, mobile, otp, now).1, mobile, later) == Verified
  {
  }

  // ---------------------------------------------------------------------
  // The two calls together

  /** Requesting a code and then submitting it before it expires registers the
      number, whatever the draw. */
  lemma InitiateThenVerify(w: World, mobile: string, draw: int, now: int, later: int)
    requires OTP_MIN <= draw <= OTP_MAX
    requires mobile !in w.users
    requires now <= later <= now + OTP_EXPIRY_SECONDS
    ensures var (r1, w1) := Initiate(w, mobile, draw, now);
            && r1.Success?
            && var (r2, w2) := Verify(w1, mobile, r1.value, later);
               && r2 == Success(NewUser(w.nextId, mobile, later))
               && w2.users == w.users[mobile := r2.value]
               && OtpKey(mobile) !in w2.cache
  {
    var code := GenerateOtp(draw);
    assert code != "";
    var w1 := Initiate(w, mobile, draw, now).1;
    VerifyCreates(w1, mobile, later);
  }

  /** A code submitted after its 300 seconds is refused as expired, whatever it is. */
  lemma InitiateThenExpire(w: World, mobile: string, draw: int, now: int, otp: string, later: int)
    requires OTP_MIN <= draw <= OTP_MAX
    requires mobile !in w.users
    requires later > now + OTP_EXPIRY_SECONDS
    ensures Verify(Initiate(w, mobile, draw, now).1, mobile, otp, later).0 == Failure(OTP_EXPIRED)
  {
  }

  /** Calls about one number leave every other number's row and phase alone,
      at every time. */
  lemma OtherNumbersUntouched(w: World, mobile: string, other: string, draw: int, otp: string, now: int, later: int)
    requires OTP_MIN <= draw <= OTP_MAX
    requires other != mobile
    ensures var w1 := Initiate(w, mobile, draw, now).1;
            (other in w1.users <==> other in w.users) && PhaseOf(w1, other, later) == PhaseOf(w, other, later)
    ensures var w2 := Verify(w, mobile, otp, now).1;
            && (other in w2.users <==> other in w.users)
            && (other in w.users ==> w2.users[other] == w.users[other])
            && PhaseOf(w2, other, later) == PhaseOf(w, other, later)
  {
    if OtpKey(other) == OtpKey(mobile) {
      OtpKeyInjective(other, mobile);
    }
  }

  // ---------------------------------------------------------------------
  // Invariant

  /** Initiate keeps the tables well formed. */
  lemma InitiateKeepsWellFormed(w: World, mobile: string, draw: int, now: int)
    requires OTP_MIN <= draw <= OTP_MAX
    requires WellFormed(w)
    ensures WellFormed(Initiate(w, mobile, draw, now).1)
  {
    GeneratedCodeAccepted(draw);
  }

  /** Verify keeps the tables well formed. */
  lemma VerifyKeepsWellFormed(w: World, mobile: string, otp: string, now: int)
    requires WellFormed(w)
    ensures WellFormed(Verify(w, mobile, otp, now).1)
  {
    var key := OtpKey(mobile);
    var swept := Swept(w.cache, key, now);
    assert CodesOnly(swept);
    assert CodesOnly(Removed(swept, key));
    var stored := Visible(w.cache, key, now);
    if stored.Some? && stored.value != "" && stored.value == otp && mobile !in w.users {
      InsertKeepsConsistent(w.users, w.nextId, mobile, now);
    }
  }

  /** In well-formed tables no cached code is empty, so the refusal as expired
      or invalid happens exactly when no live code is cached. */
  lemma ExpiredExactlyWhenAbsent(w: World, mobile: string, otp: string, now: int)
    requires WellFormed(w)
    ensures Verify(w, mobile, otp, now).0 == Failure(OTP_EXPIRED) <==> Visible(w.cache, OtpKey(mobile), now).None?
  {
    var key := OtpKey(mobile);
    if key in w.cache {
      assert OtpCodeAccepted(w.cache[key].value);
    }
  }

  // ---------------------------------------------------------------------
  // The service object

  class AuthService {
    const db: UserStore
    const cache: InMemoryRedis

    constructor (db: UserStore, cache: InMemoryRedis)
      ensures this.db == db && this.cache == cache
    {
      this.db := db;
      this.cache := cache;
    }

    /** The tables as a value. */
    ghost function State(): World
      reads this, db, cache
    {
      World(cache.store, db.rows, db.nextId)
    }

    method InitiateRegistration(mobile: string, draw: int, now: int) returns (r: Result<string, HttpError>)
      requires db.Valid()
      requires OTP_MIN <= draw <= OTP_MAX
      modifies cache
      ensures db.Valid()
      ensures (r, State()) == Initiate(old(State()), mobile, draw, now)
    {
      var existing := db.FindByMobile(mobile);
      if existing.Some? {
        return Failure(USER_EXISTS);
      }
      var generated := GenerateOtp(draw);
      var key := OtpKey(mobile);
      var _ := cache.Setex(key, OTP_EXPIRY_SECONDS, generated, now);
      r := Success(generated);
    }

    method VerifyAndCreate(mobile: string, otp: string, now: int) returns (r: Result<User, HttpError>)
      requires db.Valid()
      modifies cache, db
      ensures db.Valid()
      ensures (r, State()) == Verify(old(State()), mobile, otp, now)
    {
      var key := OtpKey(mobile);
      var stored := cache.Get(key, now);
      if stored.None? || stored.value == "" {
        return Failure(OTP_EXPIRED);
      }
      if stored.value != otp {
        return Failure(INVALID_OTP);
      }
      var existing := db.FindByMobile(mobile);
      if existing.Some? {
        var _ := cache.Delete(key);
        return Success(existing.value);
      }
      var inserted := db.Insert(mobile, now);
      var _ := cache.Delete(key);
      r := Success(inserted.value);
    }
  }
}
