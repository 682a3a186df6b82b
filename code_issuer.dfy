/** Code issuance: the shape of one generated code, and what a batch insert
    does to the store. The random source is an oracle: each character of a
    code body is given as an index into the alphabet. */
module CodeIssuer {
  import opened Wrappers
  import opened Text
  import opened Models

  /** 32 symbols: the upper-case letters and digits without 0, O, 1 and I. */
  const Alphabet: string := "ABCDEFGHJKLMNPQRSTUVWXYZ23456789"

  /** How many times Python's `range(n)` runs: never for a negative `n`. */
  function Iterations(n: int): nat
  {
    if n < 0 then 0 else n
  }

  /** The oracle's answer for one code body of `length` characters. */
  predicate ValidPicks(length: int, picks: seq<nat>)
  {
    |picks| == Iterations(length) && forall k | 0 <= k < |picks| :: picks[k] < |Alphabet|
  }

  /** Every alphabet symbol is an upper-case letter or a digit. */
  predicate IsCodeSymbol(c: char)
  {
    ('A' <= c <= 'Z') || ('2' <= c <= '9')
  }

  lemma {:induction false} AscendingOrder(s: string)
    requires forall k | 0 <= k < |s| - 1 :: s[k] < s[k + 1]
    ensures forall a, b | 0 <= a < b < |s| :: s[a] < s[b]
    decreases |s|
  {
    if |s| > 1 {
      AscendingOrder(s[1..]);
      forall b | 1 < b < |s| ensures s[0] < s[b] {
        assert s[1..][0] == s[1] && s[1..][b - 1] == s[b];
      }
    }
  }

  // The next three lemmas take the literal they speak about as a parameter
  // (`requires s == "..."`): stated directly on a literal, the facts make the
  // verifier expand the literal eagerly, which is far slower.

  lemma LettersAscending(s: string)
    requires s == "ABCDEFGHJKLMNPQRSTUVWXYZ"
    ensures forall k | 0 <= k < |s| - 1 :: s[k] < s[k + 1]
    ensures s[0] == 'A' && s[7] == 'H' && s[8] == 'J' && s[12] == 'N' && s[13] == 'P' && s[23] == 'Z'
  {
  }

  lemma DigitsAscending(s: string)
    requires s == "23456789"
    ensures forall k | 0 <= k < |s| - 1 :: s[k] < s[k + 1]
    ensures s[0] == '2' && s[7] == '9'
  {
  }

  lemma AlphabetSplit(s: string)
    requires s == Alphabet
    ensures |s| == 32
    ensures s[..24] == "ABCDEFGHJKLMNPQRSTUVWXYZ" && s[24..] == "23456789"
  {
  }

  /** The alphabet is the 24 letters, then the 8 digits, each in ascending
      order. */
  lemma AlphabetAscending()
    ensures |Alphabet| == 32
    ensures forall a, b | 0 <= a < b < 24 :: Alphabet[a] < Alphabet[b]
    ensures forall a, b | 24 <= a < b < 32 :: Alphabet[a] < Alphabet[b]
    ensures Alphabet[0] == 'A' && Alphabet[7] == 'H' && Alphabet[8] == 'J'
    ensures Alphabet[12] == 'N' && Alphabet[13] == 'P' && Alphabet[23] == 'Z'
    ensures Alphabet[24] == '2' && Alphabet[31] == '9'
  {
    AlphabetSplit(Alphabet);
    var letters, digits := Alphabet[..24], Alphabet[24..];
    LettersAscending(letters);
    DigitsAscending(digits);
    AscendingOrder(letters);
    AscendingOrder(digits);
    forall a, b | 0 <= a < b < 24 ensures Alphabet[a] < Alphabet[b] {
      assert Alphabet[a] == letters[a] && Alphabet[b] == letters[b];
    }
    forall a, b | 24 <= a < b < 32 ensures Alphabet[a] < Alphabet[b] {
      assert Alphabet[a] == digits[a - 24] && Alphabet[b] == digits[b - 24];
    }
    assert Alphabet[7] == letters[7] && Alphabet[8] == letters[8] && Alphabet[12] == letters[12];
    assert Alphabet[13] == letters[13] && Alphabet[23] == letters[23] && Alphabet[31] == digits[7];
  }

  /** 32 pairwise different symbols, each an upper-case letter or a digit,
      and none of the look-alikes 0, O, 1 and I. */
  lemma AlphabetShape()
    ensures |Alphabet| == 32
    ensures forall a, b | 0 <= a < b < |Alphabet| :: Alphabet[a] != Alphabet[b]
    ensures forall k | 0 <= k < |Alphabet| :: IsCodeSymbol(Alphabet[k])
    ensures '0' !in Alphabet && 'O' !in Alphabet && '1' !in Alphabet && 'I' !in Alphabet
  {
    AlphabetAscending();
    forall k | 0 <= k < 32
      ensures IsCodeSymbol(Alphabet[k])
      ensures Alphabet[k] != '0' && Alphabet[k] != 'O' && Alphabet[k] != '1' && Alphabet[k] != 'I'
    {
      if k < 24 {
        assert 'A' <= Alphabet[k] <= 'Z';
        assert k <= 7 || 8 <= k;
        assert k <= 12 || 13 <= k;
      } else {
        assert '2' <= Alphabet[k] <= '9';
      }
    }
  }

  lemma CodeSymbolIsNormal(c: char)
    requires IsCodeSymbol(c)
    ensures !IsSpace(c) && !IsLower(c)
  {
  }

  /** The code body spelled by the picked symbols, one character per pick. */
  function Spell(picks: seq<nat>): (body: string)
    requires forall k | 0 <= k < |picks| :: picks[k] < |Alphabet|
    ensures |body| == |picks|
    ensures forall k | 0 <= k < |body| :: body[k] == Alphabet[picks[k]]
  {
    if picks == [] then [] else [Alphabet[picks[0]]] + Spell(picks[1..])
  }

  /** `_random_code(prefix, length)`. */
  function RandomCode(prefix: string, length: int, picks: seq<nat>): (code: string)
    requires ValidPicks(length, picks)
    ensures |code| == |prefix| + Iterations(length)
    ensures code[..|prefix|] == prefix
    ensures forall k | |prefix| <= k < |code| :: code[k] == Alphabet[picks[k - |prefix|]]
  {
    prefix + Spell(picks)
  }

  /** None of the ambiguous characters ever appears after the prefix. */
  lemma NoAmbiguousCharacters(prefix: string, length: int, picks: seq<nat>, k: int)
    requires ValidPicks(length, picks)
    requires |prefix| <= k < |RandomCode(prefix, length, picks)|
    ensures RandomCode(prefix, length, picks)[k] !in {'0', 'O', '1', 'I'}
  {
    AlphabetShape();
  }

  /** With a prefix already in normal form, a generated code is in normal
      form too, so the redemption endpoint's normalisation maps the code
      (and any padded or lower-case spelling of it) onto itself. */
  lemma IssuedCodeIsNormal(prefix: string, length: int, picks: seq<nat>)
    requires ValidPicks(length, picks)
    requires IsNormal(prefix)
    ensures Normalize(RandomCode(prefix, length, picks)) == RandomCode(prefix, length, picks)
  {
    var code := RandomCode(prefix, length, picks);
    AlphabetShape();
    forall k | |prefix| <= k < |code| ensures !IsSpace(code[k]) && !IsLower(code[k]) {
      CodeSymbolIsNormal(code[k]);
    }
    assert forall k | 0 <= k < |prefix| :: code[k] == prefix[k];
    assert IsNormal(code);
    NormalizeFixedIff(code);
  }

  /** A prefix holding a lower-case letter is kept as it is, so no submitted
      text normalises to the generated code: such a code can never be found
      by a redemption. */
  lemma LowerCasePrefixUnredeemable(prefix: string, length: int, picks: seq<nat>, k: int, submitted: string)
    requires ValidPicks(length, picks)
    requires 0 <= k < |prefix| && IsLower(prefix[k])
    ensures Normalize(submitted) != RandomCode(prefix, length, picks)
  {
    var code := RandomCode(prefix, length, picks);
    assert code[k] == prefix[k];
  }

  /** The form fields of one create-codes request. */
  datatype IssueRequest = IssueRequest(
    count: int,
    bonusQuestions: int,
    maxRedemptions: int,
    note: string,
    prefix: string,
    codeLength: int,
    expiresAt: Option<int>)

  /** The oracle's answers for a whole batch: one body per iteration. */
  predicate ValidBatchPicks(req: IssueRequest, picks: seq<seq<nat>>)
  {
    |picks| == Iterations(req.count) &&
    forall i | 0 <= i < |picks| :: ValidPicks(req.codeLength, picks[i])
  }

  /** The codes of a batch, in the order they are generated. */
  function BatchCodes(req: IssueRequest, picks: seq<seq<nat>>): (codes: seq<string>)
    requires ValidBatchPicks(req, picks)
    ensures |codes| == Iterations(req.count)
    ensures forall i | 0 <= i < |codes| ::
              |codes[i]| == |req.prefix| + Iterations(req.codeLength) && codes[i][..|req.prefix|] == req.prefix
  {
    seq(|picks|, i requires 0 <= i < |picks| => RandomCode(req.prefix, req.codeLength, picks[i]))
  }

  /** The row inserted for one generated code: the counter starts at 0 and
      every other column comes from the request. */
  function IssuedRow(req: IssueRequest, id: int, code: string): (p: PromoCode)
    ensures p.redemptionsUsed == 0 && WithinLimit(p)
    ensures p.id == id && p.code == code
  {
    NewPromoCode(id, code, req.bonusQuestions, req.expiresAt, Some(req.maxRedemptions), Some(0), Some(req.note))
  }

  /** The rows of a batch; the store numbers them from `firstId` in the
      order they were added. */
  function BatchRows(req: IssueRequest, codes: seq<string>, firstId: int): (rows: seq<PromoCode>)
    ensures |rows| == |codes|
    ensures forall i | 0 <= i < |rows| :: rows[i] == IssuedRow(req, firstId + i, codes[i])
  {
    seq(|codes|, i requires 0 <= i < |codes| => IssuedRow(req, firstId + i, codes[i]))
  }

  predicate Distinct(codes: seq<string>)
  {
    forall i, j | 0 <= i < j < |codes| :: codes[i] != codes[j]
  }

  /** The unique constraint on `code` admits the batch: no two new codes are
      equal and none equals a code already stored. */
  predicate FitsUnique(existing: seq<PromoCode>, codes: seq<string>)
  {
    Distinct(codes) && forall i, j | 0 <= i < |existing| && 0 <= j < |codes| :: existing[i].code != codes[j]
  }

  datatype IssueError = DuplicateCode | StorageFailure

  datatype Issuance = Issuance(db: Db, result: Result<seq<string>, IssueError>)

  /** `_create_codes_in_db`: generate the batch, then commit every row at once.
      A duplicate code (against the table or within the batch) or any other
      storage failure makes the single commit fail, and nothing is stored. */
  function Issue(db: Db, req: IssueRequest, picks: seq<seq<nat>>, commitFails: bool): (out: Issuance)
    requires ValidBatchPicks(req, picks)
    ensures out.result.Failure? ==> out.db == db
    ensures out.result.Success? <==> FitsUnique(db.codes, BatchCodes(req, picks)) && !commitFails
    ensures out.result == Failure(DuplicateCode) <==> !FitsUnique(db.codes, BatchCodes(req, picks))
  {
    var codes := BatchCodes(req, picks);
    if !FitsUnique(db.codes, codes) then Issuance(db, Failure(DuplicateCode))
    else if commitFails then Issuance(db, Failure(StorageFailure))
    else
      Issuance(Db(db.codes + BatchRows(req, codes, db.nextCodeId), db.redemptions,
                  db.nextCodeId + |codes|, db.nextRedemptionId),
               Success(codes))
  }

  /** A successful batch returns `count` distinct codes of the requested
      shape, and stores one new row per code after the existing rows, with a
      zero counter and the requested columns; the records are untouched. */
  lemma IssueSuccess(db: Db, req: IssueRequest, picks: seq<seq<nat>>, commitFails: bool)
    requires ValidBatchPicks(req, picks)
    requires Issue(db, req, picks, commitFails).result.Success?
    ensures var out := Issue(db, req, picks, commitFails);
            var codes := out.result.value;
            && |codes| == Iterations(req.count)
            && Distinct(codes)
            && (forall i | 0 <= i < |codes| ::
                  && |codes[i]| == |req.prefix| + Iterations(req.codeLength)
                  && codes[i][..|req.prefix|] == req.prefix
                  && (forall k | |req.prefix| <= k < |codes[i]| :: codes[i][k] in Alphabet))
            && |out.db.codes| == |db.codes| + |codes|
            && out.db.codes[..|db.codes|] == db.codes
            && (forall i | 0 <= i < |codes| ::
                  var row := out.db.codes[|db.codes| + i];
                  && row.code == codes[i] && row.redemptionsUsed == 0
                  && row.bonusQuestions == req.bonusQuestions && row.maxRedemptions == req.maxRedemptions
                  && row.expiresAt == req.expiresAt && row.notes == Some(req.note))
            && out.db.redemptions == db.redemptions
  {
    var codes := BatchCodes(req, picks);
    forall i | 0 <= i < |codes|
      ensures forall k | |req.prefix| <= k < |codes[i]| :: codes[i][k] in Alphabet
    {
      assert codes[i] == RandomCode(req.prefix, req.codeLength, picks[i]);
    }
    var out := Issue(db, req, picks, commitFails);
    assert out.db.codes == db.codes + BatchRows(req, codes, db.nextCodeId);
  }

  /** New rows numbered upwards from the next key, with zero counters. */
  predicate FreshRows(db: Db, rows: seq<PromoCode>)
  {
    forall i | 0 <= i < |rows| ::
      rows[i].id == db.nextCodeId + i && rows[i].redemptionsUsed == 0 && WithinLimit(rows[i])
  }

  lemma AppendedIdsUnique(db: Db, rows: seq<PromoCode>)
    requires Consistent(db) && FreshRows(db, rows)
    ensures CodeIdsUnique(db.codes + rows)
    ensures forall i | 0 <= i < |db.codes + rows| :: (db.codes + rows)[i].id < db.nextCodeId + |rows|
  {
    var all := db.codes + rows;
    forall i | |db.codes| <= i < |all|
      ensures all[i].id == db.nextCodeId + i - |db.codes|
    {
      assert all[i] == rows[i - |db.codes|];
    }
  }

  lemma AppendedKeepsReferences(db: Db, rows: seq<PromoCode>)
    requires Consistent(db)
    ensures CodeIds(db.codes) <= CodeIds(db.codes + rows)
  {
    var all := db.codes + rows;
    forall x | x in CodeIds(db.codes) ensures x in CodeIds(all) {
      var i :| 0 <= i < |db.codes| && db.codes[i].id == x;
      assert all[i] == db.codes[i];
    }
  }

  lemma AppendedCounts(db: Db, rows: seq<PromoCode>)
    requires Consistent(db) && FreshRows(db, rows)
    ensures forall i | 0 <= i < |db.codes + rows| ::
              (db.codes + rows)[i].redemptionsUsed == CountFor(db.redemptions, (db.codes + rows)[i].id) &&
              WithinLimit((db.codes + rows)[i])
  {
    var all := db.codes + rows;
    forall i | 0 <= i < |all|
      ensures all[i].redemptionsUsed == CountFor(db.redemptions, all[i].id) && WithinLimit(all[i])
    {
      if i >= |db.codes| {
        assert all[i] == rows[i - |db.codes|];
        forall k | 0 <= k < |db.redemptions|
          ensures db.redemptions[k].promoCodeId != all[i].id
        {
          var id := db.redemptions[k].promoCodeId;
          assert id in CodeIds(db.codes);
          var j :| 0 <= j < |db.codes| && db.codes[j].id == id;
        }
        CountForAbsent(db.redemptions, all[i].id);
      } else {
        assert all[i] == db.codes[i];
      }
    }
  }

  /** Appending fresh rows whose codes keep the unique constraint leaves the
      store consistent. */
  lemma AppendedConsistent(db: Db, rows: seq<PromoCode>)
    requires Consistent(db) && FreshRows(db, rows) && CodesUnique(db.codes + rows)
    ensures Consistent(Db(db.codes + rows, db.redemptions, db.nextCodeId + |rows|, db.nextRedemptionId))
  {
    AppendedIdsUnique(db, rows);
    AppendedKeepsReferences(db, rows);
    AppendedCounts(db, rows);
  }

  /** The unique constraint holds over the stored rows plus a batch that
      fits it. */
  lemma BatchKeepsCodesUnique(db: Db, req: IssueRequest, codes: seq<string>)
    requires CodesUnique(db.codes) && FitsUnique(db.codes, codes)
    ensures CodesUnique(db.codes + BatchRows(req, codes, db.nextCodeId))
  {
    var all := db.codes + BatchRows(req, codes, db.nextCodeId);
    forall i | |db.codes| <= i < |all|
      ensures all[i].code == codes[i - |db.codes|]
    {
    }
  }

  /** Issuing a batch keeps the store consistent: the new rows get fresh
      keys that no record references, so their zero counters are exact. */
  lemma IssuePreservesConsistency(db: Db, req: IssueRequest, picks: seq<seq<nat>>, commitFails: bool)
    requires ValidBatchPicks(req, picks)
    requires Consistent(db)
    ensures Consistent(Issue(db, req, picks, commitFails).db)
  {
    var out := Issue(db, req, picks, commitFails);
    if out.result.Success? {
      var codes := BatchCodes(req, picks);
      var rows := BatchRows(req, codes, db.nextCodeId);
      assert out.db == Db(db.codes + rows, db.redemptions, db.nextCodeId + |rows|, db.nextRedemptionId);
      BatchKeepsCodesUnique(db, req, codes);
      AppendedConsistent(db, rows);
    }
  }
}
