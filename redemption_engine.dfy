/** Redemption of a promo code by a device: lookup of the normalised code,
    the four checks in their fixed order, then one record and one counter
    increment committed together. */
module RedemptionEngine {
  import opened Wrappers
  import opened Text
  import opened Models
  import opened CodeIssuer

  datatype RedeemError = InvalidCode | Expired | MaxRedemptions | AlreadyRedeemed | ServerError

  /** What a successful redemption hands back: the code's own bonus and
      expiry. */
  datatype Grant = Grant(bonusQuestions: int, expiresAt: Option<int>)

  datatype Redemption = Redemption(db: Db, result: Result<Grant, RedeemError>)

  /** The row whose `code` column equals `code`, as an index into `codes`. */
  function FindCode(codes: seq<PromoCode>, code: string): (r: Option<nat>)
    ensures r.Some? ==> r.value < |codes| && codes[r.value].code == code
    ensures r.None? ==> forall i | 0 <= i < |codes| :: codes[i].code != code
  {
    if codes == [] then None
    else if codes[0].code == code then Some(0)
    else match FindCode(codes[1..], code)
      case None => None
      case Some(i) => Some(i + 1)
  }

  /** Under the unique constraint on `code`, the lookup finds exactly the row
      that carries the code. */
  lemma FindCodeFindsTheRow(codes: seq<PromoCode>, i: int)
    requires CodesUnique(codes) && 0 <= i < |codes|
    ensures FindCode(codes, codes[i].code) == Some(i)
  {
  }

  /** Some record already pairs this code row with this device. */
  predicate HasRedemption(recs: seq<PromoRedemption>, codeId: int, deviceId: string)
  {
    exists k | 0 <= k < |recs| :: recs[k].promoCodeId == codeId && recs[k].deviceId == deviceId
  }

  /** An expiry at or before `now` has passed; no expiry never passes. */
  predicate IsExpired(p: PromoCode, now: int)
  {
    p.expiresAt.Some? && p.expiresAt.value <= now
  }

  /** The store after recording a redemption of row `i` by `deviceId`. */
  function Recorded(db: Db, i: nat, deviceId: string, now: int): (r: Db)
    requires i < |db.codes|
    ensures |r.codes| == |db.codes|
    ensures r.codes[i] == db.codes[i].(redemptionsUsed := db.codes[i].redemptionsUsed + 1)
    ensures forall j | 0 <= j < |db.codes| && j != i :: r.codes[j] == db.codes[j]
    ensures |r.redemptions| == |db.redemptions| + 1 && r.redemptions[..|db.redemptions|] == db.redemptions
    ensures r.redemptions[|db.redemptions|] == PromoRedemption(db.nextRedemptionId, db.codes[i].id, deviceId, now)
    ensures r.nextCodeId == db.nextCodeId && r.nextRedemptionId == db.nextRedemptionId + 1
  {
    var p := db.codes[i];
    Db(db.codes[i := p.(redemptionsUsed := p.redemptionsUsed + 1)],
       db.redemptions + [PromoRedemption(db.nextRedemptionId, p.id, deviceId, now)],
       db.nextCodeId, db.nextRedemptionId + 1)
  }

  /** `redeem_promo` once the submitted code has been normalised to `key`,
      at time `now`. `commitFails` stands for a storage failure in the
      transaction, reported as `ServerError`. Every failure leaves the store
      as it was; a success adds one record for the (code, device) pair and
      raises that code's counter by one. */
  function RedeemKey(db: Db, key: string, deviceId: string, now: int, commitFails: bool): (out: Redemption)
    ensures out.result == Failure(InvalidCode) <==> FindCode(db.codes, key).None?
    ensures out.result.Failure? ==> out.db == db
    ensures out.result.Success? ==>
              && out.db.codes != db.codes
              && |out.db.redemptions| == |db.redemptions| + 1
              && out.db.redemptions[..|db.redemptions|] == db.redemptions
  {
    match FindCode(db.codes, key)
    case None => Redemption(db, Failure(InvalidCode))
    case Some(i) =>
      var promo := db.codes[i];
      if IsExpired(promo, now) then Redemption(db, Failure(Expired))
      else if promo.redemptionsUsed >= promo.maxRedemptions then Redemption(db, Failure(MaxRedemptions))
      else if HasRedemption(db.redemptions, promo.id, deviceId) then Redemption(db, Failure(AlreadyRedeemed))
      else if commitFails then Redemption(db, Failure(ServerError))
      else Redemption(Recorded(db, i, deviceId, now), Success(Grant(promo.bonusQuestions, promo.expiresAt)))
  }

  /** `redeem_promo`: the submitted code is trimmed and upper-cased before
      it is looked up. */
  function Redeem(db: Db, code: string, deviceId: string, now: int, commitFails: bool): (out: Redemption)
    ensures out.result == Failure(InvalidCode) <==>
              forall i | 0 <= i < |db.codes| :: db.codes[i].code != Normalize(code)
    ensures out.result.Failure? ==> out.db == db
  {
    var key := Normalize(code);
    var r := RedeemKey(db, key, deviceId, now, commitFails);
    assert r.result == Failure(InvalidCode) <==> FindCode(db.codes, key).None?;
    r
  }

  /** The four rejections and the order in which they are tried: an unknown
      code, then expiry (whatever capacity is left), then the cap, then an
      earlier redemption by the same device. */
  lemma RedeemCheckOrder(db: Db, key: string, deviceId: string, now: int, commitFails: bool)
    ensures var r := RedeemKey(db, key, deviceId, now, commitFails).result;
            var found := FindCode(db.codes, key);
            && (r == Failure(InvalidCode) <==> found.None?)
            && (found.Some? ==>
                  var p := db.codes[found.value];
                  && (r == Failure(Expired) <==> IsExpired(p, now))
                  && (r == Failure(MaxRedemptions) <==> !IsExpired(p, now) && p.redemptionsUsed >= p.maxRedemptions)
                  && (r == Failure(AlreadyRedeemed) <==>
                        !IsExpired(p, now) && p.redemptionsUsed < p.maxRedemptions &&
                        HasRedemption(db.redemptions, p.id, deviceId))
                  && (r.Success? <==>
                        !IsExpired(p, now) && p.redemptionsUsed < p.maxRedemptions &&
                        !HasRedemption(db.redemptions, p.id, deviceId) && !commitFails))
  {
  }

  /** A success returns the row's bonus and expiry, appends exactly the record
      (row id, device, now), raises that row's counter by exactly one, and
      changes no other row and no other column. */
  lemma RedeemSuccessEffect(db: Db, key: string, deviceId: string, now: int, commitFails: bool)
    requires RedeemKey(db, key, deviceId, now, commitFails).result.Success?
    ensures FindCode(db.codes, key).Some?
    ensures var out := RedeemKey(db, key, deviceId, now, commitFails);
            var i := FindCode(db.codes, key).value;
            var p := db.codes[i];
            && out.result.value == Grant(p.bonusQuestions, p.expiresAt)
            && out.db.redemptions == db.redemptions + [PromoRedemption(db.nextRedemptionId, p.id, deviceId, now)]
            && |out.db.codes| == |db.codes|
            && out.db.codes[i].redemptionsUsed == p.redemptionsUsed + 1
            && out.db.codes[i] == p.(redemptionsUsed := out.db.codes[i].redemptionsUsed)
            && (forall j | 0 <= j < |db.codes| && j != i :: out.db.codes[j] == db.codes[j])
            && out.db.nextCodeId == db.nextCodeId
  {
    var i := FindCode(db.codes, key).value;
    var p := db.codes[i];
    assert RedeemKey(db, key, deviceId, now, commitFails) == Redemption(Recorded(db, i, deviceId, now), Success(Grant(p.bonusQuestions, p.expiresAt)));
  }

  /** Submitted text that differs only in surrounding whitespace is redeemed
      the same way. */
  lemma RedeemIgnoresPadding(db: Db, u: string, code: string, v: string, deviceId: string, now: int, commitFails: bool)
    requires AllSpace(u) && AllSpace(v)
    ensures Redeem(db, u + code + v, deviceId, now, commitFails) == Redeem(db, code, deviceId, now, commitFails)
  {
    StripPadding(u, code, v);
  }

  /** Submitted text that differs only in the case of its letters is
      redeemed the same way. */
  lemma RedeemIgnoresCase(db: Db, s: string, t: string, deviceId: string, now: int, commitFails: bool)
    requires SameUpToCase(s, t)
    ensures Redeem(db, s, deviceId, now, commitFails) == Redeem(db, t, deviceId, now, commitFails)
  {
    NormalizeIgnoresCase(s, t);
  }

  /** Text that is already trimmed and upper-case is looked up as it is. */
  lemma RedeemNormalKey(db: Db, code: string, deviceId: string, now: int, commitFails: bool)
    requires IsNormal(code)
    ensures Redeem(db, code, deviceId, now, commitFails) == RedeemKey(db, code, deviceId, now, commitFails)
  {
    NormalizeFixedIff(code);
  }

  /** "  stabab12 " and "STABAB12" are redeemed against the same row, with
      the same outcome. */
  lemma RedeemExample(db: Db, u: string, code: string, v: string, key: string,
                      deviceId: string, now: int, commitFails: bool)
    requires u == "  " && code == "stabab12" && v == " " && key == "STABAB12"
    ensures Redeem(db, u + code + v, deviceId, now, commitFails) == Redeem(db, key, deviceId, now, commitFails)
  {
    NormalizeExample(u, code, v);
    NormalExample(key);
    assert Normalize(u + code + v) == Normalize(key);
  }

  lemma RecordedKeepsCodeIds(db: Db, i: nat, deviceId: string, now: int)
    requires i < |db.codes|
    ensures CodeIds(Recorded(db, i, deviceId, now).codes) == CodeIds(db.codes)
  {
    var codes := Recorded(db, i, deviceId, now).codes;
    forall x ensures x in CodeIds(codes) <==> x in CodeIds(db.codes) {
      if x in CodeIds(db.codes) {
        var j :| 0 <= j < |db.codes| && db.codes[j].id == x;
        assert codes[j].id == x;
      }
      if x in CodeIds(codes) {
        var j :| 0 <= j < |codes| && codes[j].id == x;
        assert db.codes[j].id == x;
      }
    }
  }

  lemma RecordedKeepsPairsUnique(db: Db, i: nat, deviceId: string, now: int)
    requires i < |db.codes|
    requires DevicePairsUnique(db.redemptions) && RecordIdsUnique(db.redemptions) && KeysBelowNext(db)
    requires !HasRedemption(db.redemptions, db.codes[i].id, deviceId)
    ensures DevicePairsUnique(Recorded(db, i, deviceId, now).redemptions)
    ensures RecordIdsUnique(Recorded(db, i, deviceId, now).redemptions)
  {
    var recs := Recorded(db, i, deviceId, now).redemptions;
    var n := |db.redemptions|;
    forall k, l | 0 <= k < l < |recs|
      ensures recs[k].promoCodeId != recs[l].promoCodeId || recs[k].deviceId != recs[l].deviceId
      ensures recs[k].id != recs[l].id
    {
      assert recs[k] == db.redemptions[k];
      if l < n {
        assert recs[l] == db.redemptions[l];
      }
    }
  }

  lemma RecordedKeepsCounts(db: Db, i: nat, deviceId: string, now: int)
    requires i < |db.codes|
    requires CodeIdsUnique(db.codes) && UsageCounted(db)
    requires db.codes[i].redemptionsUsed < db.codes[i].maxRedemptions
    ensures UsageCounted(Recorded(db, i, deviceId, now))
  {
    var after := Recorded(db, i, deviceId, now);
    var p := db.codes[i];
    var record := PromoRedemption(db.nextRedemptionId, p.id, deviceId, now);
    assert after.redemptions == db.redemptions + [record];
    forall j | 0 <= j < |after.codes|
      ensures after.codes[j].redemptionsUsed == CountFor(after.redemptions, after.codes[j].id)
      ensures WithinLimit(after.codes[j])
    {
      CountForAppend(db.redemptions, record, after.codes[j].id);
      if j != i {
        assert db.codes[j].id != p.id;
        assert after.codes[j] == db.codes[j];
      }
    }
  }

  /** Recording a redemption that passed the checks keeps the store
      consistent: the counter stays equal to the number of records and
      within the cap, the new (code, device) pair is new, and the record
      points at an existing row. */
  lemma RecordedConsistent(db: Db, i: nat, deviceId: string, now: int)
    requires Consistent(db) && i < |db.codes|
    requires db.codes[i].redemptionsUsed < db.codes[i].maxRedemptions
    requires !HasRedemption(db.redemptions, db.codes[i].id, deviceId)
    ensures Consistent(Recorded(db, i, deviceId, now))
  {
    var after := Recorded(db, i, deviceId, now);
    RecordedKeepsCodeIds(db, i, deviceId, now);
    RecordedKeepsPairsUnique(db, i, deviceId, now);
    RecordedKeepsCounts(db, i, deviceId, now);
    assert db.codes[i].id in CodeIds(db.codes);
    assert RecordsReferenceCodes(after);
    assert CodeIdsUnique(after.codes) && CodesUnique(after.codes);
  }

  /** Every redemption, failed or not, keeps the store consistent. */
  lemma RedeemKeyPreservesConsistency(db: Db, key: string, deviceId: string, now: int, commitFails: bool)
    requires Consistent(db)
    ensures Consistent(RedeemKey(db, key, deviceId, now, commitFails).db)
  {
    var out := RedeemKey(db, key, deviceId, now, commitFails);
    if out.result.Success? {
      var i := FindCode(db.codes, key).value;
      assert out.db == Recorded(db, i, deviceId, now);
      RecordedConsistent(db, i, deviceId, now);
    }
  }

  /** A device that already holds a record for the code is refused, by one
      of the three checks that can fire on a known code. */
  lemma RedeemRefusedOnceRecorded(db: Db, key: string, deviceId: string, now: int, commitFails: bool)
    requires FindCode(db.codes, key).Some?
    requires HasRedemption(db.redemptions, db.codes[FindCode(db.codes, key).value].id, deviceId)
    ensures var r := RedeemKey(db, key, deviceId, now, commitFails).result;
            r.Failure? && r.error in {Expired, MaxRedemptions, AlreadyRedeemed}
  {
  }

  /** Once a device has redeemed a code, no later attempt by that device on
      the same code succeeds: it is refused as expired, as over the cap, or,
      while the code is live and has room, as already redeemed. */
  lemma RedeemAgainRefused(db: Db, key: string, deviceId: string, now: int, commitFails: bool,
                           later: int, laterFails: bool)
    requires Consistent(db)
    requires RedeemKey(db, key, deviceId, now, commitFails).result.Success?
    ensures var db' := RedeemKey(db, key, deviceId, now, commitFails).db;
            var r := RedeemKey(db', key, deviceId, later, laterFails).result;
            && r.Failure?
            && r.error in {Expired, MaxRedemptions, AlreadyRedeemed}
  {
    var i := FindCode(db.codes, key).value;
    var db' := Recorded(db, i, deviceId, now);
    assert RedeemKey(db, key, deviceId, now, commitFails).db == db';
    RecordedConsistent(db, i, deviceId, now);
    assert db'.codes[i].code == key;
    FindCodeFindsTheRow(db'.codes, i);
    var k := |db.redemptions|;
    assert db'.redemptions[k].promoCodeId == db'.codes[i].id && db'.redemptions[k].deviceId == deviceId;
    RedeemRefusedOnceRecorded(db', key, deviceId, later, laterFails);
  }

  /** Some row carries `key` and holds a record for `deviceId`. */
  predicate Redeemed(db: Db, key: string, deviceId: string)
  {
    exists i | 0 <= i < |db.codes| :: db.codes[i].code == key && HasRedemption(db.redemptions, db.codes[i].id, deviceId)
  }

  /** A successful redemption leaves the device's record behind. */
  lemma RedeemLeavesRecord(db: Db, key: string, deviceId: string, now: int, commitFails: bool)
    requires RedeemKey(db, key, deviceId, now, commitFails).result.Success?
    ensures Redeemed(RedeemKey(db, key, deviceId, now, commitFails).db, key, deviceId)
  {
    var i := FindCode(db.codes, key).value;
    var db' := Recorded(db, i, deviceId, now);
    assert RedeemKey(db, key, deviceId, now, commitFails).db == db';
    assert db'.redemptions[|db.redemptions|].promoCodeId == db'.codes[i].id;
  }

  /** Any redemption, by any device of any code, keeps an earlier record. */
  lemma RedeemKeepsRecord(db: Db, key: string, deviceId: string,
                          other: string, otherDevice: string, now: int, commitFails: bool)
    requires Redeemed(db, key, deviceId)
    ensures Redeemed(RedeemKey(db, other, otherDevice, now, commitFails).db, key, deviceId)
  {
    var out := RedeemKey(db, other, otherDevice, now, commitFails);
    if out.result.Success? {
      var j := FindCode(db.codes, other).value;
      assert out.db == Recorded(db, j, otherDevice, now);
      var i :| 0 <= i < |db.codes| && db.codes[i].code == key && HasRedemption(db.redemptions, db.codes[i].id, deviceId);
      var k :| 0 <= k < |db.redemptions| && db.redemptions[k].promoCodeId == db.codes[i].id && db.redemptions[k].deviceId == deviceId;
      assert out.db.codes[i].code == key && out.db.codes[i].id == db.codes[i].id;
      assert out.db.redemptions[k] == db.redemptions[k];
    }
  }

  /** Issuing a batch, stored or not, keeps an earlier record. */
  lemma IssueKeepsRecord(db: Db, key: string, deviceId: string,
                         req: IssueRequest, picks: seq<seq<nat>>, commitFails: bool)
    requires ValidBatchPicks(req, picks)
    requires Redeemed(db, key, deviceId)
    ensures Redeemed(Issue(db, req, picks, commitFails).db, key, deviceId)
  {
    var out := Issue(db, req, picks, commitFails);
    if out.result.Success? {
      IssueSuccess(db, req, picks, commitFails);
      var i :| 0 <= i < |db.codes| && db.codes[i].code == key && HasRedemption(db.redemptions, db.codes[i].id, deviceId);
      assert out.db.codes[i] == out.db.codes[..|db.codes|][i];
    }
  }

  /** One call to the service that changes the store: a redemption or the
      issue of a batch. */
  datatype Step =
    | RedeemStep(key: string, deviceId: string, now: int, commitFails: bool)
    | IssueStep(req: IssueRequest, picks: seq<seq<nat>>, commitFails: bool)

  predicate StepsValid(steps: seq<Step>)
  {
    forall n | 0 <= n < |steps| :: steps[n].IssueStep? ==> ValidBatchPicks(steps[n].req, steps[n].picks)
  }

  /** The store after `steps`, taken in order. */
  function Replay(db: Db, steps: seq<Step>): Db
    requires StepsValid(steps)
    decreases |steps|
  {
    if steps == [] then db
    else
      var next := match steps[0]
        case RedeemStep(key, deviceId, now, commitFails) => RedeemKey(db, key, deviceId, now, commitFails).db
        case IssueStep(req, picks, commitFails) => Issue(db, req, picks, commitFails).db;
      Replay(next, steps[1..])
  }

  /** Whatever redemptions and batches follow, a record stays, and so does
      the store's consistency. */
  lemma {:induction false} ReplayKeepsRecord(db: Db, key: string, deviceId: string, steps: seq<Step>)
    requires StepsValid(steps)
    requires Consistent(db) && Redeemed(db, key, deviceId)
    ensures Consistent(Replay(db, steps)) && Redeemed(Replay(db, steps), key, deviceId)
    decreases |steps|
  {
    if steps != [] {
      assert StepsValid(steps[1..]) by {
        forall n | 0 <= n < |steps[1..]| ensures steps[1..][n] == steps[n + 1] { }
      }
      match steps[0]
      case RedeemStep(other, otherDevice, now, commitFails) =>
        RedeemKeyPreservesConsistency(db, other, otherDevice, now, commitFails);
        RedeemKeepsRecord(db, key, deviceId, other, otherDevice, now, commitFails);
        ReplayKeepsRecord(RedeemKey(db, other, otherDevice, now, commitFails).db, key, deviceId, steps[1..]);
      case IssueStep(req, picks, commitFails) =>
        assert ValidBatchPicks(req, picks);
        IssuePreservesConsistency(db, req, picks, commitFails);
        IssueKeepsRecord(db, key, deviceId, req, picks, commitFails);
        ReplayKeepsRecord(Issue(db, req, picks, commitFails).db, key, deviceId, steps[1..]);
    }
  }

  /** Once a device has redeemed a code, no later attempt by that device on
      that code succeeds, whatever redemptions and batches come in between. */
  lemma NoSecondRedemption(db: Db, key: string, deviceId: string, now: int, commitFails: bool,
                           steps: seq<Step>, later: int, laterFails: bool)
    requires Consistent(db) && StepsValid(steps)
    requires RedeemKey(db, key, deviceId, now, commitFails).result.Success?
    ensures var r := RedeemKey(Replay(RedeemKey(db, key, deviceId, now, commitFails).db, steps),
                               key, deviceId, later, laterFails).result;
            && r.Failure?
            && r.error in {Expired, MaxRedemptions, AlreadyRedeemed}
  {
    var db' := RedeemKey(db, key, deviceId, now, commitFails).db;
    RedeemKeyPreservesConsistency(db, key, deviceId, now, commitFails);
    RedeemLeavesRecord(db, key, deviceId, now, commitFails);
    ReplayKeepsRecord(db', key, deviceId, steps);
    var end := Replay(db', steps);
    var i :| 0 <= i < |end.codes| && end.codes[i].code == key && HasRedemption(end.redemptions, end.codes[i].id, deviceId);
    FindCodeFindsTheRow(end.codes, i);
    RedeemRefusedOnceRecorded(end, key, deviceId, later, laterFails);
  }
}
