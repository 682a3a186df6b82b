/** The service's handlers over the store: the two tables are fields that the
    redemption and issuance handlers read and replace inside one commit. */
module PromoService {
  import opened Wrappers
  import opened Text
  import opened Models
  import opened AdminGuard
  import opened CodeIssuer
  import opened RedemptionEngine

  datatype CreateError = Rejected(guard: AdminError) | NotStored(issue: IssueError)

  /** The loop of `_create_codes_in_db`: `count` iterations, each drawing one
      code and staging its row (numbered from `firstId` in the order added)
      next to the list of codes returned to the caller. */
  method StageBatch(req: IssueRequest, picks: seq<seq<nat>>, firstId: int)
    returns (generated: seq<string>, staged: seq<PromoCode>)
    requires ValidBatchPicks(req, picks)
    ensures generated == BatchCodes(req, picks)
    ensures staged == BatchRows(req, generated, firstId)
  {
    ghost var batch := BatchCodes(req, picks);
    ghost var rows := BatchRows(req, batch, firstId);
    generated, staged := [], [];
    var n := 0;
    while n < req.count
      invariant 0 <= n <= |picks|
      invariant generated == batch[..n]
      invariant staged == rows[..n]
    {
      var code := RandomCode(req.prefix, req.codeLength, picks[n]);
      assert code == batch[n];
      staged := staged + [IssuedRow(req, firstId + n, code)];
      generated := generated + [code];
      n := n + 1;
    }
    assert generated == batch[..|picks|];
  }

  class PromoStore {
    var codes: seq<PromoCode>
    var redemptions: seq<PromoRedemption>
    var nextCodeId: int
    var nextRedemptionId: int

    /** The committed state of the two tables. */
    function Snapshot(): Db
      reads this
    {
      Db(codes, redemptions, nextCodeId, nextRedemptionId)
    }

    predicate Valid()
      reads this
    {
      Consistent(Snapshot())
    }

    /** Empty tables, as `create_all` leaves them. */
    constructor ()
      ensures Valid() && Snapshot() == EmptyDb
    {
      codes, redemptions := [], [];
      nextCodeId, nextRedemptionId := 1, 1;
      EmptyDbConsistent();
    }

    /** `redeem_promo`: normalise, look up, run the four checks in order,
        then stage the record and the counter increment and commit them
        together. Any refusal returns before anything is written. */
    method Redeem(code: string, deviceId: string, now: int, commitFails: bool)
      returns (result: Result<Grant, RedeemError>)
      requires Valid()
      modifies this
      ensures Valid()
      ensures Redemption(Snapshot(), result) == RedeemKey(old(Snapshot()), Normalize(code), deviceId, now, commitFails)
    {
      ghost var before := Snapshot();
      var key := Normalize(code);
      RedeemKeyPreservesConsistency(before, key, deviceId, now, commitFails);
      var found := FindCode(codes, key);
      if found.None? {
        return Failure(InvalidCode);
      }
      var i := found.value;
      var promo := codes[i];
      if IsExpired(promo, now) {
        return Failure(Expired);
      }
      if promo.redemptionsUsed >= promo.maxRedemptions {
        return Failure(MaxRedemptions);
      }
      if HasRedemption(redemptions, promo.id, deviceId) {
        return Failure(AlreadyRedeemed);
      }
      if commitFails {
        return Failure(ServerError);
      }
      Record(i, deviceId, now);
      result := Success(Grant(promo.bonusQuestions, promo.expiresAt));
    }

    /** The write half of `redeem_promo`: the new record and the raised
        counter of row `i`, committed together. It runs only once the checks
        have passed: the row has room and the device holds no record for it. */
    method Record(i: nat, deviceId: string, now: int)
      requires Valid() && i < |codes|
      requires codes[i].redemptionsUsed < codes[i].maxRedemptions
      requires !HasRedemption(redemptions, codes[i].id, deviceId)
      modifies this
      ensures Valid()
      ensures Snapshot() == Recorded(old(Snapshot()), i, deviceId, now)
    {
      RecordedConsistent(Snapshot(), i, deviceId, now);
      var promo := codes[i];
      var record := PromoRedemption(nextRedemptionId, promo.id, deviceId, now);
      redemptions := redemptions + [record];
      codes := codes[i := promo.(redemptionsUsed := promo.redemptionsUsed + 1)];
      nextRedemptionId := nextRedemptionId + 1;
    }

    /** `_create_codes_in_db`: generate `count` codes one after another,
        staging a row for each, then commit the whole batch at once. `picks`
        holds the random source's choices, one body per code. */
    method CreateCodes(req: IssueRequest, picks: seq<seq<nat>>, commitFails: bool)
      returns (result: Result<seq<string>, IssueError>)
      requires Valid() && ValidBatchPicks(req, picks)
      modifies this
      ensures Valid()
      ensures Issuance(Snapshot(), result) == Issue(old(Snapshot()), req, picks, commitFails)
    {
      ghost var before := Snapshot();
      IssuePreservesConsistency(before, req, picks, commitFails);
      var generated, staged := StageBatch(req, picks, nextCodeId);
      if !FitsUnique(codes, generated) {
        return Failure(DuplicateCode);
      }
      if commitFails {
        return Failure(StorageFailure);
      }
      codes, nextCodeId := codes + staged, nextCodeId + |generated|;
      result := Success(generated);
      assert Issue(before, req, picks, commitFails) == Issuance(Snapshot(), result);
    }

    /** The create-codes form handler: the guard and the expiry field are
        checked before anything is generated, so a refused request stores
        nothing; otherwise the batch is issued with the parsed expiry. The
        other form fields arrive in `req`; its `expiresAt` is ignored and
        replaced by the expiry parsed from `expiresDate`. */
    method AdminCreate(adminToken: Option<string>, token: string, expiresDate: string,
                       parseDate: string -> Option<int>, req: IssueRequest,
                       picks: seq<seq<nat>>, commitFails: bool)
      returns (result: Result<seq<string>, CreateError>)
      requires Valid() && ValidBatchPicks(req, picks)
      modifies this
      ensures Valid()
      ensures var pre := AdminCreatePreamble(adminToken, token, expiresDate, parseDate);
              match pre
              case Failure(e) => result == Failure(Rejected(e)) && Snapshot() == old(Snapshot())
              case Success(expiresAt) =>
                var out := Issue(old(Snapshot()), req.(expiresAt := expiresAt), picks, commitFails);
                && Snapshot() == out.db
                && result == (if out.result.Success? then Success(out.result.value)
                              else Failure(NotStored(out.result.error)))
      ensures !IsConfigured(adminToken) ==>
                result == Failure(Rejected(AdminTokenNotConfigured)) && Snapshot() == old(Snapshot())
    {
      var pre := AdminCreatePreamble(adminToken, token, expiresDate, parseDate);
      if pre.Failure? {
        return Failure(Rejected(pre.error));
      }
      var issued := CreateCodes(req.(expiresAt := pre.value), picks, commitFails);
      if issued.Failure? {
        return Failure(NotStored(issued.error));
      }
      result := Success(issued.value);
    }
  }
}
