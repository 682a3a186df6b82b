# Promo-code service: a verified model

This project models the business logic of a small promo-code service. It has three parts.

- **Redemption.** The public `redeem_promo` endpoint:
  - trims and upper-cases the submitted code, then looks it up;
  - refuses the request as `invalid_code`, `expired`, `max_redemptions` or `already_redeemed`, tried in that order;
  - otherwise records one redemption for the (code, device) pair, raises the code's `redemptions_used` by one, and returns the code's `bonus_questions` and `expires_at`.
- **Issuance.** `_random_code` and `_create_codes_in_db` build `count` codes, each the prefix followed by symbols from a 32-symbol alphabet. They insert one fresh row per code and commit the whole batch in one transaction.
- **Admin guard.** `require_admin` is a fail-closed shared-secret check. The preamble of the `admin_create` form handler runs it, then reads the optional expiry date.

The two tables (`promo_codes`, `promo_redemptions`) are datatypes, and `Models.Consistent` is the invariant every committed state keeps:
- the primary keys are unique;
- `code` is unique;
- every record references an existing code;
- no two records share a (code, device) pair;
- each code's counter equals its number of records, and is 0 or at most the code's cap.

Modules:

- `wrappers.dfy`: `Option`, `Result`, `Outcome`.
- `models.dfy`: the rows, the store and its consistency invariant (`models.py`).
- `text.dfy`: Python's `str.strip()` and `str.upper()`, and the normalisation built from them.
- `admin_guard.dfy`: `require_admin` and the `admin_create` preamble.
- `code_issuer.dfy`: the alphabet, `_random_code`, and the batch insert as a function on the store.
- `redemption_engine.dfy`: `redeem_promo` as a function on the store, and its properties.
- `promo_service.dfy`: the store as a class whose two tables are fields. Its methods `Redeem`, `CreateCodes` and `AdminCreate` update the tables imperatively (the batch is staged in a loop) and are proved equal to the functions above.

The current time is an integer parameter. Randomness is an oracle: a sequence of alphabet indices, one per body character. A storage failure at commit time is a boolean parameter. The date parser is a function parameter.

The cap check (main.py:75-76) runs before the device check (main.py:79-85). So when a device has already redeemed a code with a cap of 2 and another device then fills it, a third attempt by the first device is refused as `max_redemptions`, not `already_redeemed`. `RedemptionEngine.RedeemCheckOrder` states this order.

## Model

| member | source | states |
|---|---|---|
| AdminGuard.RequireAdmin | main.py:21-26 | passes exactly when a non-empty token is configured and the supplied token equals it; with no (or an empty) token it fails with `admin_token_not_configured` whatever is supplied; otherwise a mismatch fails with `forbidden` |
| AdminGuard.GuardAdmitsOnlyTheToken | main.py:21-26 | two tokens that both pass the guard are equal, and a token is configured |
| AdminGuard.AdminCreatePreamble | main.py:251-260 | the guard's failure comes first; a blank (after trimming) expiry means no expiry; otherwise the trimmed text is parsed: a successful parse is the expiry returned, and a parse failure is exactly `invalid_expires_date` |
| Models.PromoCode | models.py:9-22 | a row of `promo_codes`: id, code, required bonus, optional expiry (none means no expiry), cap, counter and optional note |
| Models.PromoRedemption | models.py:25-33 | a row of `promo_redemptions`: id, referenced code id, device and time, all required |
| Models.Consistent | models.py:12-13 | the store invariant: unique primary keys and codes, every record referencing a row (models.py:29), no two records for one (code, device) pair (kept by main.py:79-85), every counter equal to its record count and 0 or at most its cap (kept by main.py:75) |
| Models.NewPromoCode | models.py:9-20 | a new row keeps the given columns; an omitted `max_redemptions` is 1 and an omitted `redemptions_used` is 0 |
| Models.EmptyDbConsistent | models.py:9-33 | the freshly created empty tables satisfy the store invariant |
| Models.UniqueCodeRow | models.py:13 | in a consistent store at most one row carries a given code |
| Models.RedemptionsWithinCap | models.py:17-18 | in a consistent store the number of records of a code never exceeds its cap |
| Models.CountForAppend | models.py:29 | appending one record raises the record count of its code by one and leaves every other count alone |
| Models.CountForAbsent | models.py:29 | a code id no record references has no records |
| Text.TrimStartPadding | main.py:58 | leading whitespace is dropped whatever follows it |
| Text.TrimEndPadding | main.py:58 | trailing whitespace is dropped whatever precedes it |
| Text.TrimStartAppend | main.py:58 | trimming the front of a string with a non-blank part does not look past that part |
| Text.StripPadding | main.py:58 | surrounding a string with whitespace does not change its `strip()` |
| Text.Strip | main.py:58 | the result neither starts nor ends with whitespace and is no longer than the input |
| Text.Upper | main.py:58 | the result has the same length; each lower-case ASCII letter becomes its capital and every other character is kept |
| Text.UpperIgnoresCase | main.py:58 | two strings differing only in the case of ASCII letters upper-case to the same string |
| Text.StripUpper | main.py:58 | trimming and upper-casing commute |
| Text.NormalizeIgnoresCase | main.py:58 | two submissions differing only in letter case normalise to the same code |
| Text.Normalize | main.py:58 | the normalised code is trimmed and has no lower-case letter |
| Text.NormalizeFixedIff | main.py:58 | a string is unchanged by normalisation exactly when it is trimmed and has no lower-case letter |
| Text.NormalizeIdempotent | main.py:58 | normalising twice is normalising once |
| Text.NormalizeExample | main.py:58 | `"  stabab12 "` normalises to `"STABAB12"` |
| Text.NormalExample | main.py:58 | `"STABAB12"` is left unchanged by the normalisation |
| CodeIssuer.AlphabetShape | main.py:114-115 | the alphabet has 32 pairwise different symbols, each an upper-case letter or a digit, and holds none of `0`, `O`, `1`, `I` |
| CodeIssuer.AlphabetAscending | main.py:115 | the alphabet's 24 letters and 8 digits each appear in ascending order |
| CodeIssuer.Spell | main.py:116 | the body has one character per pick, namely the picked alphabet symbol |
| CodeIssuer.RandomCode | main.py:113-117 | the code is the prefix followed by exactly `length` characters (none for a negative length), each one the alphabet symbol picked for it |
| CodeIssuer.NoAmbiguousCharacters | main.py:114-117 | no character after the prefix is `0`, `O`, `1` or `I` |
| CodeIssuer.IssuedCodeIsNormal | main.py:113-117 | with a trimmed upper-case prefix, a generated code is fixed by the redemption normalisation |
| CodeIssuer.LowerCasePrefixUnredeemable | main.py:58 | a prefix with a lower-case letter yields a code that no submitted text normalises to |
| CodeIssuer.BatchCodes | main.py:133-134 | a batch has `count` codes (none for a negative count), each of the requested length and starting with the prefix |
| CodeIssuer.IssuedRow | main.py:136-143 | each new row has the given id and code and a counter of 0 |
| CodeIssuer.BatchRows | main.py:133-144 | one row per generated code, in order, numbered upwards from the next key |
| CodeIssuer.Issue | main.py:130-149 | the batch is stored exactly when no code collides with a stored code or another code of the batch and the commit succeeds; a collision is exactly `DuplicateCode`; on any failure nothing is stored |
| CodeIssuer.IssueSuccess | main.py:130-149 | a stored batch returns `count` distinct codes of the requested shape over the alphabet, and appends after the existing rows one row per code, with counter 0 and the requested bonus, cap, expiry and note; the records are untouched |
| CodeIssuer.AppendedIdsUnique | models.py:12 | rows numbered from the next key keep the primary key unique and below the new next key |
| CodeIssuer.AppendedKeepsReferences | models.py:29 | appending rows keeps every existing code id, so every record still references a row |
| CodeIssuer.AppendedCounts | models.py:17-18 | fresh rows with a zero counter have exactly zero records, and the old rows' counts are unchanged |
| CodeIssuer.AppendedConsistent | main.py:144-147 | appending fresh rows that keep `code` unique leaves the store consistent |
| CodeIssuer.BatchKeepsCodesUnique | models.py:13 | a batch that fits the unique constraint keeps `code` unique over the whole table |
| CodeIssuer.IssuePreservesConsistency | main.py:130-149 | issuing a batch, stored or not, keeps the store consistent |
| RedemptionEngine.FindCode | main.py:64-65 | the lookup finds a row carrying exactly the normalised code, and returns none only when no row carries it |
| RedemptionEngine.Redeem | main.py:56-65 | the submitted code is normalised before the lookup: `invalid_code` exactly when no row carries the normalised code, and a refusal leaves the store unchanged |
| RedemptionEngine.Recorded | main.py:87-98 | the write step: that row's counter raised by one, every other row unchanged, the record (next id, code id, device, now) appended after the existing records, and the next record key advanced |
| RedemptionEngine.RedeemKey | main.py:61-106 | every refusal leaves the store unchanged; a success changes the code rows and appends exactly one record after the existing ones |
| RedemptionEngine.RedeemCheckOrder | main.py:67-85 | `invalid_code` exactly for an unknown code; then `expired` exactly when the expiry is at or before now, whatever capacity is left; then `max_redemptions` exactly when the counter has reached the cap; then `already_redeemed` exactly when the device has a record for the code; success exactly when none of these holds and the commit succeeds |
| RedemptionEngine.RedeemSuccessEffect | main.py:87-103 | a success returns the row's bonus and expiry, appends exactly the record (code id, device, now), raises that row's counter by one, and changes no other row, no other column and no other key |
| RedemptionEngine.RedeemIgnoresPadding | main.py:58 | whitespace around the submitted code does not change the outcome |
| RedemptionEngine.RedeemIgnoresCase | main.py:58 | submissions differing only in letter case have the same outcome and leave the same store |
| RedemptionEngine.RedeemNormalKey | main.py:58-64 | a trimmed upper-case submission is looked up as it is |
| RedemptionEngine.RedeemExample | main.py:58-64 | `"  stabab12 "` and `"STABAB12"` are redeemed against the same row with the same outcome |
| RedemptionEngine.RecordedKeepsCodeIds | main.py:88-96 | recording a redemption keeps the set of code ids |
| RedemptionEngine.RecordedKeepsPairsUnique | main.py:79-93 | a record for a pair that had none keeps the (code, device) pairs unique |
| RedemptionEngine.RecordedKeepsCounts | main.py:93-95 | the appended record and the raised counter keep every counter equal to its record count |
| RedemptionEngine.RecordedConsistent | main.py:75-98 | a redemption that passed the checks leaves the store consistent |
| RedemptionEngine.RedeemKeyPreservesConsistency | main.py:61-106 | every redemption, refused or not, keeps the store consistent, including the cap and the unique (code, device) pairs |
| RedemptionEngine.RedeemRefusedOnceRecorded | main.py:70-85 | a device that already holds a record for the code is refused as expired, over the cap, or already redeemed |
| RedemptionEngine.RedeemAgainRefused | main.py:79-85 | after a device's successful redemption, the next attempt by that device on the same code is refused, whenever it is made |
| RedemptionEngine.RedeemLeavesRecord | main.py:87-98 | a successful redemption leaves a record of the device on the code's row |
| RedemptionEngine.RedeemKeepsRecord | main.py:87-98 | any redemption keeps every earlier record and the row it references |
| RedemptionEngine.IssueKeepsRecord | main.py:130-149 | issuing a batch keeps every earlier record and the row it references |
| RedemptionEngine.ReplayKeepsRecord | main.py:56-149 | through any sequence of redemptions and batches, the store stays consistent and a record stays |
| RedemptionEngine.NoSecondRedemption | main.py:79-85 | once a device has redeemed a code, no later attempt by that device on that code succeeds, whatever redemptions and batches came in between |
| PromoService.StageBatch | main.py:130-145 | the loop returns exactly the batch's codes in generation order, with one staged row per code |
| PromoService.PromoStore.constructor | models.py:9-33 | the store starts empty and consistent |
| PromoService.PromoStore.Redeem | main.py:56-106 | the store stays consistent, and the outcome and new tables are those of redeeming the normalised code |
| PromoService.PromoStore.Record | main.py:87-98 | run on a consistent store for a row with room and a device without a record for it, the write keeps the store consistent, and the new tables are the old ones with the record appended and the counter raised |
| PromoService.PromoStore.CreateCodes | main.py:120-149 | the store stays consistent, and the result and new tables are those of the batch insert |
| PromoService.PromoStore.AdminCreate | main.py:240-270 | a refused guard or an unparsable expiry stores nothing; otherwise the batch is issued with the parsed expiry; with no configured token the answer is always `admin_token_not_configured` |

## Left out

- FastAPI routing, request and response schemas, and HTTP status codes are not modelled. Errors are datatype tags.
- The HTML of `admin_form` and of the `admin_create` response is not modelled.
- Date parsing (`strptime` with `%Y-%m-%d` at UTC midnight) is the `parseDate` function parameter. Timestamps are integers.
- `secrets.choice` is an oracle: the sequence of picked alphabet indices.
- `db.py` and `create_tables.py` are not part of this model. They hold only engine, session and schema setup.
- Sessions, transactions and isolation are not modelled. Each call is one sequential transaction. Nothing is said about concurrent redemptions, which the code does not guard against.
- A storage failure is modelled only at commit time, as a flag that turns the call into `server_error` (or a failed batch) with nothing stored. Failures of the reads are not modelled.
- RedemptionEngine.RedeemKey: a failed reload after the commit is not modelled. Sessions expire their objects on commit, so the reads of `bonus_questions` and `expires_at` (main.py:101-102) reload the row after `db.commit()` (main.py:98). If that reload fails, the caller gets `server_error` although the redemption is already stored. The model's "every failure leaves the store as it was" does not cover that case.
- The `String(64)`, `String(128)` and `String(255)` column limits are enforced by the database and are not modelled.
- Text.Upper: only ASCII letters are upper-cased. Python's `upper()` also maps other scripts and can lengthen a string (`ß` becomes `SS`).
- The database's string comparison is modelled as exact equality. Collations are not modelled.
- `max_redemptions` is not validated, so a row may carry a cap below 1. The invariant is therefore "counter is 0 or at most the cap", not "counter at most the cap". Such a row can never be redeemed.
- A second record for the same (code, device) pair would make `scalar_one_or_none` raise. The model never reaches that case because the store invariant rules it out.
- PromoService.PromoStore.Redeem: the record and the raised counter are staged and committed as one write after the commit-failure test. The model does not capture the staging order inside the session.
- How the key sequences advance after a rolled-back insert is not modelled. Keys advance only on a successful commit.
