/**
 * fastapp.py: the access-code registry of the upload server. A Discord user
 * obtains a one-off code; the server stores it with an expiry five minutes
 * ahead, a background task sweeps expired codes, and an upload is accepted
 * only with a live code, which the upload consumes once the match is written.
 *
 * Time is a whole number of seconds and is passed in as `now`; the upload's
 * processing pipeline (OCR, the confirmation session, the database write) is a
 * parameter that reports the error it raised, if any.
 */
module FastApp {
  import opened Wrappers

  /** `datetime.timedelta(minutes=5)`, in seconds. */
  const TTL: int := 300

  datatype CodeEntry = CodeEntry(userId: string, expires: int)

  /** The check at the top of `upload_image`: the code is known and now is strictly before its expiry. */
  predicate Authorized(codes: map<string, CodeEntry>, code: string, now: int) {
    code in codes && now < codes[code].expires
  }

  /** The registry after one sweep of `cleanup_codes` at time `now`. */
  function Swept(codes: map<string, CodeEntry>, now: int): (r: map<string, CodeEntry>)
    ensures forall c :: c in r <==> c in codes && codes[c].expires >= now
    ensures forall c :: c in r ==> r[c] == codes[c]
  {
    map c | c in codes && codes[c].expires >= now :: codes[c]
  }

  /** The registry after `store_access_code` at time `now`. */
  function Stored(codes: map<string, CodeEntry>, userId: string, code: string, now: int): (r: map<string, CodeEntry>)
    ensures r.Keys == codes.Keys + {code}
    ensures r[code] == CodeEntry(userId, now + TTL)
    ensures forall c :: c in codes && c != code ==> r[c] == codes[c]
  {
    codes[code := CodeEntry(userId, now + TTL)]
  }

  /** A freshly stored code is accepted exactly during the next five minutes, whatever it replaced. */
  lemma StoredCodeLifetime(codes: map<string, CodeEntry>, userId: string, code: string, stored: int, now: int)
    ensures Authorized(Stored(codes, userId, code, stored), code, now) <==> now < stored + TTL
    ensures Stored(codes, userId, code, stored)[code].userId == userId
  {
  }

  /**
   * At the instant of expiry the two checks disagree: the sweep keeps the code
   * (its expiry is not before now) while an upload rejects it (now is not before its expiry).
   */
  lemma ExpiryInstant(codes: map<string, CodeEntry>, code: string, now: int)
    requires code in codes && codes[code].expires == now
    ensures code in Swept(codes, now)
    ensures !Authorized(codes, code, now)
  {
  }

  /** A sweep never takes away a code an upload would accept, now or later. */
  lemma SweepKeepsLiveCodes(codes: map<string, CodeEntry>, code: string, now: int, later: int)
    requires now <= later && Authorized(codes, code, later)
    ensures Authorized(Swept(codes, now), code, later)
    ensures Swept(codes, now)[code] == codes[code]
  {
  }

  /** Acceptance is decided by the entry alone, so sweeping first changes no upload's outcome. */
  lemma SweepPreservesAuthorization(codes: map<string, CodeEntry>, code: string, now: int)
    ensures Authorized(Swept(codes, now), code, now) <==> Authorized(codes, code, now)
  {
  }

  /** Sweeping twice at the same time removes nothing more. */
  lemma SweepIdempotent(codes: map<string, CodeEntry>, now: int)
    ensures Swept(Swept(codes, now), now) == Swept(codes, now)
  {
  }

  /** After a sweep at `now` no remaining code expired before `now`. */
  lemma SweptHasNoStaleCode(codes: map<string, CodeEntry>, now: int)
    ensures forall c :: c in Swept(codes, now) ==> Swept(codes, now)[c].expires >= now
  {
  }

  /** The module-level `codes` dictionary and the three operations that change it. */
  class CodeRegistry {
    var codes: map<string, CodeEntry>

    constructor ()
      ensures codes == map[]
    {
      codes := map[];
    }

    /** `store_access_code`: the code maps to its user and an expiry five minutes after `now`. */
    method StoreAccessCode(userId: string, accessCode: string, now: int)
      modifies this
      ensures codes == Stored(old(codes), userId, accessCode, now)
    {
      var expirationTime := now + TTL;
      codes := codes[accessCode := CodeEntry(userId, expirationTime)];
    }

    /**
     * One iteration of `cleanup_codes`: collect the codes whose expiry is
     * strictly before `now`, then delete them one at a time.
     */
    method CleanupCodes(now: int)
      modifies this
      ensures codes == Swept(old(codes), now)
    {
      var expiredKeys := set key | key in codes && codes[key].expires < now;
      ghost var expired := expiredKeys;
      while expiredKeys != {}
        invariant expiredKeys <= expired
        invariant forall c :: c in codes <==> c in old(codes) && (c !in expired || c in expiredKeys)
        invariant forall c :: c in codes ==> codes[c] == old(codes)[c]
        decreases |expiredKeys|
      {
        var key :| key in expiredKeys;
        codes := codes - {key};
        expiredKeys := expiredKeys - {key};
      }
      assert codes.Keys == Swept(old(codes), now).Keys;
    }

    /**
     * The authorise and consume path of `upload_image`. A code that is absent
     * or expired raises 403 and changes nothing. Otherwise the stored user's
     * session runs the pipeline; only if it returns is the code deleted, so a
     * failure part-way leaves the code usable for a retry. The result names
     * the user whose session ran.
     */
    method UploadImage(accessCode: string, now: int, pipeline: string -> Option<Error>)
      returns (outcome: Result<string>)
      modifies this
      ensures !Authorized(old(codes), accessCode, now) ==> outcome == Failure(Forbidden) && codes == old(codes)
      ensures Authorized(old(codes), accessCode, now) ==>
        var userId := old(codes)[accessCode].userId;
        match pipeline(userId)
        case None => outcome == Success(userId) && codes == old(codes) - {accessCode}
        case Some(e) => outcome == Failure(e) && codes == old(codes)
    {
      if accessCode in codes && now < codes[accessCode].expires {
        var userId := codes[accessCode].userId;
        var raised := pipeline(userId);
        if raised.Some? {
          return Failure(raised.value);
        }
        codes := codes - {accessCode};
        outcome := Success(userId);
      } else {
        outcome := Failure(Forbidden);
      }
    }
  }
}
