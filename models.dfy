/** The two persistent entities, the rows of `promo_codes` and
    `promo_redemptions`, and the consistency the service keeps between them.
    Timestamps are integers (seconds since an epoch, UTC). */
module Models {
  import opened Wrappers

  /** A row of `promo_codes`. `expiresAt == None` means the code never
      expires; `notes` is the nullable free-text column. */
  datatype PromoCode = PromoCode(
    id: int,
    code: string,
    bonusQuestions: int,
    expiresAt: Option<int>,
    maxRedemptions: int,
    redemptionsUsed: int,
    notes: Option<string>)

  /** A row of `promo_redemptions`; every column is non-null. */
  datatype PromoRedemption = PromoRedemption(
    id: int,
    promoCodeId: int,
    deviceId: string,
    redeemedAt: int)

  /** The committed contents of the two tables, with the next value of each
      table's auto-increment primary key. */
  datatype Db = Db(
    codes: seq<PromoCode>,
    redemptions: seq<PromoRedemption>,
    nextCodeId: int,
    nextRedemptionId: int)

  /** Column default of `max_redemptions`. */
  const DefaultMaxRedemptions: int := 1

  /** Column default of `redemptions_used`. */
  const DefaultRedemptionsUsed: int := 0

  /** A new `promo_codes` row: the columns given are kept, the two columns
      left out take their defaults. */
  function NewPromoCode(id: int, code: string, bonusQuestions: int, expiresAt: Option<int>,
                        maxRedemptions: Option<int>, redemptionsUsed: Option<int>,
                        notes: Option<string>): (p: PromoCode)
    ensures p.id == id && p.code == code && p.bonusQuestions == bonusQuestions
    ensures p.expiresAt == expiresAt && p.notes == notes
    ensures maxRedemptions.Some? ==> p.maxRedemptions == maxRedemptions.value
    ensures maxRedemptions.None? ==> p.maxRedemptions == 1
    ensures redemptionsUsed.None? ==> p.redemptionsUsed == 0 && WithinLimit(p)
    ensures redemptionsUsed.Some? ==> p.redemptionsUsed == redemptionsUsed.value
  {
    PromoCode(id, code, bonusQuestions, expiresAt,
              if maxRedemptions.Some? then maxRedemptions.value else DefaultMaxRedemptions,
              if redemptionsUsed.Some? then redemptionsUsed.value else DefaultRedemptionsUsed,
              notes)
  }

  /** The counter never exceeds the cap once it has moved. (The cap is not
      checked when a row is written, so a row may carry a cap below 1; such a
      row can never be redeemed and its counter stays 0.) */
  predicate WithinLimit(p: PromoCode)
  {
    p.redemptionsUsed == 0 || p.redemptionsUsed <= p.maxRedemptions
  }

  /** The number of redemption records that point at the row with id `codeId`. */
  function CountFor(recs: seq<PromoRedemption>, codeId: int): nat
  {
    if recs == [] then 0
    else CountFor(recs[..|recs| - 1], codeId) + (if recs[|recs| - 1].promoCodeId == codeId then 1 else 0)
  }

  function CodeIds(codes: seq<PromoCode>): set<int>
  {
    set i | 0 <= i < |codes| :: codes[i].id
  }

  /** `id` is the primary key of `promo_codes`. */
  predicate CodeIdsUnique(codes: seq<PromoCode>)
  {
    forall i, j | 0 <= i < j < |codes| :: codes[i].id != codes[j].id
  }

  /** `code` carries a unique constraint. */
  predicate CodesUnique(codes: seq<PromoCode>)
  {
    forall i, j | 0 <= i < j < |codes| :: codes[i].code != codes[j].code
  }

  /** `id` is the primary key of `promo_redemptions`. */
  predicate RecordIdsUnique(recs: seq<PromoRedemption>)
  {
    forall k, l | 0 <= k < l < |recs| :: recs[k].id != recs[l].id
  }

  /** No two records for the same (promo code, device) pair. The schema has
      no such constraint; the redemption check is what keeps it. */
  predicate DevicePairsUnique(recs: seq<PromoRedemption>)
  {
    forall k, l | 0 <= k < l < |recs| ::
      recs[k].promoCodeId != recs[l].promoCodeId || recs[k].deviceId != recs[l].deviceId
  }

  /** The foreign key from `promo_redemptions.promo_code_id`. */
  predicate RecordsReferenceCodes(db: Db)
  {
    forall k | 0 <= k < |db.redemptions| :: db.redemptions[k].promoCodeId in CodeIds(db.codes)
  }

  /** Every key handed out so far is below the next one. */
  predicate KeysBelowNext(db: Db)
  {
    && (forall i | 0 <= i < |db.codes| :: db.codes[i].id < db.nextCodeId)
    && (forall k | 0 <= k < |db.redemptions| :: db.redemptions[k].id < db.nextRedemptionId)
  }

  /** Each row's counter is the number of its redemption records, and stays
      within the row's cap. */
  predicate UsageCounted(db: Db)
  {
    forall i | 0 <= i < |db.codes| ::
      db.codes[i].redemptionsUsed == CountFor(db.redemptions, db.codes[i].id) && WithinLimit(db.codes[i])
  }

  /** The consistency every committed state of the service satisfies. */
  predicate Consistent(db: Db)
  {
    && CodeIdsUnique(db.codes)
    && CodesUnique(db.codes)
    && RecordIdsUnique(db.redemptions)
    && DevicePairsUnique(db.redemptions)
    && RecordsReferenceCodes(db)
    && KeysBelowNext(db)
    && UsageCounted(db)
  }

  /** The freshly created tables. */
  const EmptyDb: Db := Db([], [], 1, 1)

  lemma EmptyDbConsistent()
    ensures Consistent(EmptyDb)
  {
  }

  /** At most one row carries a given code. */
  lemma UniqueCodeRow(db: Db, i: int, j: int)
    requires Consistent(db)
    requires 0 <= i < |db.codes| && 0 <= j < |db.codes|
    requires db.codes[i].code == db.codes[j].code
    ensures i == j
  {
  }

  /** The number of records of a code never exceeds its cap (and is 0 for a
      cap below 1). */
  lemma RedemptionsWithinCap(db: Db, i: int)
    requires Consistent(db) && 0 <= i < |db.codes|
    ensures CountFor(db.redemptions, db.codes[i].id) <= if db.codes[i].maxRedemptions < 0 then 0 else db.codes[i].maxRedemptions
  {
  }

  lemma {:induction false} CountForAppend(recs: seq<PromoRedemption>, r: PromoRedemption, codeId: int)
    ensures CountFor(recs + [r], codeId) == CountFor(recs, codeId) + (if r.promoCodeId == codeId then 1 else 0)
  {
    assert (recs + [r])[..|recs|] == recs;
  }

  /** A code id that no record references has a count of zero. */
  lemma {:induction false} CountForAbsent(recs: seq<PromoRedemption>, codeId: int)
    requires forall k | 0 <= k < |recs| :: recs[k].promoCodeId != codeId
    ensures CountFor(recs, codeId) == 0
  {
    if recs != [] {
      CountForAbsent(recs[..|recs| - 1], codeId);
    }
  }
}
