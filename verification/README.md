# Verified core of a wallet

This project models the parts of the GNU Taler wallet whose correctness is hardest to see from the
code, and proves what they are for: amounts, coin selection and payment, the reserve history,
SHA-256, HMAC and key derivation, Crockford base 32, RSA blind signing, refreshing and withdrawing
coins, the balance, the pool of crypto workers, and the in-memory IndexedDB backend.

`dafny verify dfyconfig.toml` checks the whole project.

## How the modules fit together

- `Amounts`, `AmountStrings`: amounts as the code keeps them, whole units and fractions of 1/10^8.
  Everything else computes with `Money`, the number of fractions; `Amounts.MoneyIsAmounts` ties the two.
- `PayCoins`: choosing coins for a payment, and debiting them.
- `ReserveHistory`, `ReserveSummary`, `ReserveMatches`, `ReserveRun`: matching the wallet's view of a
  reserve with the exchange's, the totals computed from it, which transactions find an item that waits
  for them, and runs of updates and depletions.
- `Division` has the two facts about division by a variable that several modules need.
- `Sha256Spec` follows sections 5.1.1, 5.3.3, 6.2 and 6.2.2 of FIPS 180-4, `Sha256Constants` sections
  4.2.2 and 5.3.3; `Sha256Stream` is the streaming object with its buffer; `Hmac` follows section 2 of RFC 2104, `Kdf` sections 2.2 and 2.3
  of RFC 5869.
- `Crock` on bit sequences, most significant bit first; `ModArith` and `Rsa`.
- `WithdrawDenoms`: which coins to withdraw for an amount. `Withdrawals`: turning planchets into coins.
  `Balance`: what the wallet shows. `Refresh`, `RefreshRuns`: refresh transactions and their runs.
- `CryptoApi`: the pool of crypto workers.
- `Keys`: the order of IndexedDB keys (section 2.4 of the W3C Indexed Database API 2.0), and why the
  backend may be modelled with natural numbers for keys. `KeyMaps`: the persistent sorted maps.
  `IndexData`, `ObjectStores`, `StoreRuns`: indexes, records, and their agreement. `IndexScan`,
  `StoreScan`: scans. `Dumps`, `Database`, `Transactions`: dumps, rollback and commit. `Backend`: the
  object whose methods do all this in place.

Database transactions and messages are atomic steps; replies, retries, random identifiers and the
order of steps are arbitrary. Methods that the code writes as loops or updates are loops and updates
here, each proved equal to a specification function; the lemmas are about those functions.

## Where the code does not do what is intended

Each has its exact condition as a lemma.

- A forward scan whose open lower bound is itself a key gives nothing (`IndexScan.ScanIsCompleteIff`,
  `StoreScan.StoreScanIsExact`).
- A range delete overruns an open upper bound that no record sits on (`StoreRuns.DeleteRangeIsExact`);
  with an open lower bound and nothing above it, it throws unless the store is empty.
- A multi-entry index keeps only the last new key of a record and forgets only its last one
  (`IndexData.MultiEntryListsAllIff`, `IndexData.MultiEntryForgetsIff`); an overwrite
  with another index key leaves the old entry (`IndexData.OverwriteKeepsGroupedIff`); a unique index refuses a
  record that is stored again (`IndexData.UniqueRefusesExactlyTakenKeys`).
- A value without a key for an index, or with a taken key of a unique one, makes the store fail after
  the record has been written (`StoreRuns.RefusedRecordIsStoredAnyway`).
- A key generator that was set to zero takes effect only with the commit (`Database.CommitPublishesView`).
- Subtracting amounts whose fractions reach a whole unit, on either side, may saturate too early or
  give a negative fraction instead of saturating (`Amounts.SubIsRightIff`).
- RSA keys of 65536 bytes or more are not read back (`Rsa.DecodeOfEncode`).
- A withdrawal list reaches its limit of 1000 coins if a denomination costs nothing, whatever the
  amount (`WithdrawDenoms.ListReachesLimitIff`).
- A worker that answers unasked, or with another number, breaks the busy count or loses a request
  (`CryptoApi.CountIsRightIffBusy`, `CryptoApi.RequestIsLostIffMismatched`). After a stop the busy
  count is wrong if a worker was busy, and a later request is queued or lost at once depending on it
  (`CryptoApi.StopRejectsExactlyRunning`, `CryptoApi.RequestAfterStopIsLostIff`); neither is ever
  answered (`CryptoApi.StoppedRunsSettleNothing`).
- If what is still due with the next coin's fee exceeds the largest amount, coin selection loses the
  excess: a success is right if and only if that never happens, and otherwise pays too little, also
  when the coins suffice (`PayCoins.SelectionIsRight`, `PayCoins.OverflowUnderpaysCovered`).

## Model

| member | source | states |
|---|---|---|
| Amounts.Add | src/util/amounts.ts:115-145 | variadic addition is min(true sum, maximum amount), saturated exactly when clamped; a foreign currency is reported unless the sum has saturated before it |
| Amounts.Sum | src/util/amounts.ts:101-108 | the sum of a non-empty list is its clamped total, or the first foreign currency is reported unless it has saturated before; an empty list is an error |
| Amounts.Sub | src/util/amounts.ts:154-180 | for normalized amounts variadic subtraction is max(0, true difference), saturated exactly when negative; a foreign currency is reported unless it has saturated before |
| Amounts.SubIsRightIff | src/util/amounts.ts:154-180 | for all amounts of one currency, normalized or not, the result is right if and only if the whole units suffice at every step exactly when the units suffice in total |
| Amounts.SubOfUnnormalizedFails | src/util/amounts.ts:160-177 | an unnormalized minuend for which it saturates too early |
| Amounts.SubOfUnnormalizedGoesNegative | src/util/amounts.ts:160-177 | an unnormalized subtrahend for which it does not saturate but gives a negative fraction |
| Amounts.CmpComparesUnits | src/util/amounts.ts:185-207 | comparison agrees with the order of the combined integers, normalized or not |
| Amounts.DivideFloors | src/util/amounts.ts:223-236 | division is floor division of the combined integer and keeps amounts normalized |
| Amounts.MoneyIsAmounts | src/util/amounts.ts:115-207 | in-range amounts and integers up to the maximum correspond one to one, and addition, subtraction, comparison and zero test with them |
| AmountStrings.Stringify | src/util/amounts.ts:300-318 | the printing loop gives the canonical decimal string, carrying over-long fractions |
| AmountStrings.FractionValueOfDigits | src/util/amounts.ts:304-316 | the digits printed for a fraction read back as that fraction |
| AmountStrings.ParseOfStringify | src/util/amounts.ts:252-318 | parse(stringify(a)) is a for every normalized in-range amount |
| AmountStrings.StringifyOfParse | src/util/amounts.ts:252-318 | every accepted string denotes a normalized in-range amount whose canonical string denotes the same |
| AmountStrings.WrittenIsAcceptedIff | src/util/amounts.ts:252-270 | a string of the form is accepted if and only if it has at most 8 digits behind the point and a small enough whole number, and then denotes that number and the digits filled up to 8 |
| AmountStrings.OnlyWrittenIsAccepted | src/util/amounts.ts:252-256 | no string of another form is accepted |
| AmountStrings.WrittenAmounts | src/util/amounts.ts:252-318 | EUR:20.5 and KUDOS:7, printed and read |
| PayCoins.StrcmpIsLexical | src/util/helpers.ts:139-147 | negative exactly if the first string is a proper prefix of the second or has the smaller character where they first differ, zero exactly if they are equal |
| PayCoins.SortedIsLargestFirst | src/operations/pay.ts:188-193 | sorted by the comparison means: the available amount never rises; at equal amounts the deposit fee never falls; at equal fees too the denominations never descend lexically |
| PayCoins.SortCoinsSorts | src/operations/pay.ts:188-193 | the sorted coins are a permutation with the largest amounts first, then the lowest fees, then the smallest denominations |
| PayCoins.SortedOnlyOneWay | src/operations/pay.ts:188-193 | there is only one sorted permutation of coins that the comparison tells apart |
| PayCoins.SelectPayCoins | src/operations/pay.ts:175-266 | sorts the coins in place, the largest first, and, unless what is due overflows, returns the shortest sufficient prefix of the usable ones with exact contributions, or nothing |
| PayCoins.UsableCoinsAreUsable | src/operations/pay.ts:201-205 | the coins considered are exactly those whose deposit fee is below their available amount |
| PayCoins.CollectCoins | src/operations/pay.ts:200-266 | the loop with its two budgets computes the selection function on which the following rows rest, for all payments |
| PayCoins.SpendCoinStep | src/operations/pay.ts:212-259 | one coin keeps the accounting or ends it with the exact law, less what saturated sums have lost; something is lost exactly if the coins overflow, and then no later coin is raised to its fee |
| PayCoins.SelectionIsRight | src/operations/pay.ts:175-266 | a refusal is always right; a success is the shortest sufficient prefix with each contribution between fee and amount and an exact total if and only if what is due never overflows, a condition on coins, payment and limit alone; with an overflow it pays less than is due |
| PayCoins.SelectionIsComplete | src/operations/pay.ts:175-266 | a positive payment that some subset of the usable coins covers, with that subset's fees beyond the limit, always succeeds; without an overflow it succeeds only then; with one, a success pays too little whether or not some subset covers |
| PayCoins.SelectionIgnoresInputOrder | src/operations/pay.ts:188-193 | the order in which coins are given does not matter if no two have equal amounts, fees and denominations |
| PayCoins.SmallPaymentsDoNotOverflow | src/operations/pay.ts:236-255 | a payment that leaves room for each usable coin's fee below the largest amount never overflows |
| PayCoins.OverflowUnderpays | src/operations/pay.ts:200-266 | a run of the loop that succeeds with less than is due, where no subset covers |
| PayCoins.OverflowUnderpaysCovered | src/operations/pay.ts:200-266 | a run of the loop that succeeds with less than is due although the two coins together suffice |
| PayCoins.LargestPaymentMayFit | src/operations/pay.ts:200-266 | a run at the largest amount that does not overflow, since the merchant covers the fee |
| PayCoins.CoinStore.RecordConfirmPay | src/operations/pay.ts:466-481 | the debit loop writes exactly the debited coins, or throws and leaves them |
| PayCoins.DebitFailsIff | src/operations/pay.ts:466-481 | the debit throws if and only if some coin is missing or has too little left at its turn, and reports the first such coin; otherwise every coin gives exactly its contributions, is dormant if it was selected, and no other coin changes |
| PayCoins.DebitNeverFails | src/operations/pay.ts:466-481 | with distinct, unchanged coins and contributions within their amounts the debit never throws |
| PayCoins.DebitedCoin | src/operations/pay.ts:471-480 | each coin loses its contribution and becomes dormant |
| PayCoins.OtherCoinsUntouched | src/operations/pay.ts:466-481 | no other coin changes |
| PayCoins.DebitedTotal | src/operations/pay.ts:466-481 | the total of all coins falls by exactly the contributions |
| PayCoins.SelectionCanBePaid | src/operations/pay.ts:175-266 | a right selection of distinct, unchanged coins can always be debited, takes exactly its contributions from the wallet, and pays at least the payment and the fees beyond the limit |
| ReserveHistory.RemoteMatchIsAnEquivalence | src/util/reserveHistoryUtil.ts:89-111 | matching is an equivalence relation: equal up to the amount |
| ReserveHistory.LocalMatchIsWaiting | src/util/reserveHistoryUtil.ts:116-141 | an item matches exactly the transactions of its own type and expected amount, and closings never match |
| ReserveHistory.FindDefiniteMatches | src/util/reserveHistoryUtil.ts:256-273 | greedy pairing of matched items with transactions |
| ReserveHistory.PairingIsPerfect | src/util/reserveHistoryUtil.ts:256-287 | the greedy pairing leaves a matched item over if and only if some identity has more matched items than transactions |
| ReserveHistory.FindNewMatches | src/util/reserveHistoryUtil.ts:290-313 | unmatched items take free transactions of their type and expected amount, each at most one, and none is left free that an unmatched item waits for |
| ReserveHistory.AddNewItems | src/util/reserveHistoryUtil.ts:315-353 | one new item for every transaction that is left |
| ReserveHistory.ReconcileReserveHistory | src/util/reserveHistoryUtil.ts:240-360 | throws if and only if a matched transaction has disappeared; otherwise the two histories agree on every identity, old items change only by being matched with a transaction of their type and expected amount, and no item waits for a transaction that was added as new |
| ReserveSummary.SummarizeReserveHistory | src/util/reserveHistoryUtil.ts:148-234 | throws if and only if an item is neither expected nor matched; otherwise gives the clamped balances of what came in, went out and is expected |
| ReserveSummary.CollectAmounts | src/util/reserveHistoryUtil.ts:157-206 | the five lists sum up to the five totals of the history |
| ReserveSummary.ListsAreAmounts | src/util/amounts.ts:115-180 | adding and subtracting whole lists of in-range amounts of one currency is the clamped arithmetic that the totals use |
| ReserveSummary.AgreementGivesSums | src/util/reserveHistoryUtil.ts:148-234 | histories that agree, with equal amounts for equal identities, have equal totals |
| ReserveSummary.ComputedBalanceIsExchangeBalance | src/util/reserveHistoryUtil.ts:210-213 | the computed balance is the exchange's credits and recoups minus its withdrawals and closings |
| ReserveSummary.WithdrawnIsReported | src/util/reserveHistoryUtil.ts:215-228 | in agreement the withdrawn amount is what the exchange reports as withdrawn, and the unclaimed amount the balance without the withdrawals still expected |
| ReserveSummary.AwaitedIsExpected | src/util/reserveHistoryUtil.ts:221-224 | the awaited amount is what expected transfers bring in beyond expected withdrawals |
| ReserveMatches.TransactionsFindWaitingItems | src/util/reserveHistoryUtil.ts:290-353 | of each type and amount, as many newly reported credits, recoups or withdrawals are matched as items wait for them, and only the rest is added; so nothing is added while an item still waits for it |
| ReserveMatches.ClosingsAreAdded | src/util/reserveHistoryUtil.ts:315-329 | every closing that is not matched yet is added |
| ReserveRun.Reserve.constructor | src/operations/reserves.ts:97-126 | a new reserve expects the user's transfer and nothing is matched |
| ReserveRun.Reserve.UpdateReserve | src/operations/reserves.ts:465-521 | the update transaction: reconciled history, and withdrawing or dormant depending on whether anything is new; throws and changes nothing if and only if a match is lost or an item is broken |
| ReserveRun.Reserve.DepleteReserve | src/operations/reserves.ts:711-750 | the depletion transaction: claims every coin's cost if the unclaimed amount covers all, otherwise changes nothing; throws if and only if an item is broken |
| ReserveRun.ReconcileNeverFails | src/operations/reserves.ts:465-521 | over every run with a growing exchange history no match is ever lost and no item is ever broken, so no update or depletion throws |
| ReserveRun.ReconcileIsIdempotent | src/util/reserveHistoryUtil.ts:240-360 | reconciling the output with the same history adds, matches and changes nothing |
| ReserveRun.UpdateIsDormantIff | src/operations/reserves.ts:494-516 | an update leaves the reserve dormant if and only if the exchange reports nothing new, and then changes no item; otherwise it is withdrawing |
| ReserveRun.UpdateFindsWaitingItems | src/operations/reserves.ts:465-521 | over every run, after an update the wallet has matched as many items of each type and amount as are reported, and only those still wait that found no transaction |
| ReserveRun.FirstTransferIsMatched | src/operations/reserves.ts:97-126 | a new reserve awaits the transfer; the first credit of its amount is matched with it, and then nothing is awaited and all of it is unclaimed |
| ReserveRun.BalanceAfterUpdate | src/operations/reserves.ts:465-521 | over every run, after each update the wallet's balance of the reserve is the exchange's |
| ReserveRun.BalanceUntilNextUpdate | src/operations/reserves.ts:465-750 | it stays the balance at that update until the next one, whatever is depleted or appended in between |
| ReserveRun.DepletionIsBacked | src/operations/reserves.ts:711-750 | a depletion never claims more than what came in and was not claimed yet |
| ReserveRun.DepletesIffCovered | src/operations/reserves.ts:711-750 | a depletion happens if and only if the reserve is withdrawing and enough is unclaimed; it then claims exactly the values and fees, otherwise it changes nothing |
| ReserveRun.ClaimIsValueWithFee | src/operations/reserves.ts:734-742 | the claim of each coin expects its value and withdrawal fee together |
| ReserveRun.ReportedWithdrawalsFindClaims | src/util/reserveHistoryUtil.ts:290-353 | if of every amount the exchange reports no more withdrawals than the wallet has claimed, greedy matching by amount finds a claim for each and adds no withdrawal |
| ReserveRun.ClaimsNeverExceedCredits | src/operations/reserves.ts:465-750 | over every run in which the exchange, whenever asked, reports only claimed withdrawals, total claims never exceed total credits |
| Sha256Spec.CompressConcat | src/crypto/primitives/sha256.ts:85-180 | hashing blocks of a concatenation is hashing its parts in turn |
| Sha256Constants.InitialHashIsSquareRoots | src/crypto/primitives/sha256.ts:203-210 | the initial hash value holds the fractional parts of the square roots of the first eight primes |
| Sha256Constants.RoundConstantsAreCubeRoots | src/crypto/primitives/sha256.ts:18-83 | the round constants hold the fractional parts of the cube roots of the first 64 primes |
| Sha256Stream.HashBlocks | src/crypto/primitives/sha256.ts:85-180 | the in-place rounds compress every whole block as section 6.2.2 of FIPS 180-4 does and report the position behind the last |
| Sha256Stream.ExpandBlock | src/crypto/primitives/sha256.ts:115-138 | the message schedule of section 6.2.2 of FIPS 180-4, in place |
| Sha256Stream.OneRound | src/crypto/primitives/sha256.ts:140-165 | one round in the code's own forms of Ch, Maj and the rotations is the round of section 6.2.2 of FIPS 180-4 |
| Sha256Stream.HashSha256.constructor | src/crypto/primitives/sha256.ts:183-215 | a new object has an empty message |
| Sha256Stream.HashSha256.Reset | src/crypto/primitives/sha256.ts:202-215 | back to the empty message, whatever was hashed before |
| Sha256Stream.HashSha256.Update | src/crypto/primitives/sha256.ts:235-260 | appends the bytes to the message; the buffered length stays the byte count mod 64; throws if and only if finished |
| Sha256Stream.HashSha256.Finish | src/crypto/primitives/sha256.ts:265-299 | writes the digest of the whole message as in sections 5.1.1 and 6.2 of FIPS 180-4, and the same when called again |
| Sha256Stream.HashSha256.HashPadding | src/crypto/primitives/sha256.ts:266-290 | padding in the buffer: the bit 1, zeros, and the 64-bit length, in one block or two |
| Sha256Stream.HashSha256.Digest | src/crypto/primitives/sha256.ts:302-306 | the digest in a new array |
| Sha256Stream.HashSha256.SaveState | src/crypto/primitives/sha256.ts:309-313 | copies the hash state out |
| Sha256Stream.HashSha256.RestoreState | src/crypto/primitives/sha256.ts:316-323 | continues as after the one block whose state was saved |
| Sha256Stream.LengthBytes | src/crypto/primitives/sha256.ts:269-288 | the eight bytes written are the big-endian bit length |
| Sha256Stream.Sha256Of | src/crypto/primitives/sha256.ts:413-418 | the digest of a message in one call |
| Sha256Stream.DigestOfChunks | src/crypto/primitives/sha256.ts:235-299 | for every way of cutting a message into chunks, updating with each gives the digest of the concatenation, twice |
| Hmac.HmacGeneric | src/crypto/primitives/kdf.ts:24-52 | section 2 of RFC 2104 for any hash function and block size |
| Hmac.HMAC.constructor | src/crypto/primitives/sha256.ts:339-368 | keying for keys shorter than, equal to or longer than a block |
| Hmac.HMAC.SetKey | src/crypto/primitives/sha256.ts:339-368 | the two pads are made in one buffer by masking it twice, and the states after each pad are saved |
| Hmac.HMAC.Reset | src/crypto/primitives/sha256.ts:372-376 | back to the state right after keying |
| Hmac.HMAC.Update | src/crypto/primitives/sha256.ts:388-391 | appends to the text |
| Hmac.HMAC.Finish | src/crypto/primitives/sha256.ts:394-402 | the code of key and text in the first 32 bytes of the output, and the same when called again |
| Hmac.HmacSha256 | src/crypto/primitives/sha256.ts:421-426 | the stateful object agrees with the generic HMAC |
| Hmac.HmacOfEach | src/crypto/primitives/sha256.ts:327-402 | one object reset and reused gives the generic HMAC of every message |
| Kdf.DeriveKey | src/crypto/primitives/kdf.ts:62-92 | the expansion loop over one buffer gives the recursive expansion of section 2.3 of RFC 5869, cut to length |
| Kdf.KdfPrefix | src/crypto/primitives/kdf.ts:62-92 | shorter outputs are prefixes of longer ones |
| Crock.EncodeCrock | src/crypto/talerCrypto.ts:72-95 | encodes the bit sequence in groups of five although the accumulator overflows 32 bits |
| Crock.DecodeCrock | src/crypto/talerCrypto.ts:97-123 | throws if and only if some character has no value; otherwise gives the whole bytes of the bit sequence |
| Crock.ShiftIn | src/crypto/talerCrypto.ts:82-116 | an overflow of the accumulator never reaches bits that are still needed |
| Crock.DecodeOfEncode | src/crypto/talerCrypto.ts:72-123 | decoding the encoding of any byte string gives the byte string |
| Crock.Aliases | src/crypto/talerCrypto.ts:38-70 | O reads as 0, I and L as 1, U as V, and lower case as upper case |
| Crock.ValidCharacters | src/crypto/talerCrypto.ts:38-70 | exactly the digits and the letters of both cases have values, and the case does not matter |
| Crock.EncodedByte | src/crypto/talerCrypto.ts:72-95 | the byte 0x4f is encoded as 9W |
| Crock.DecodeIgnoresAliases | src/crypto/talerCrypto.ts:38-123 | replacing characters by aliases changes neither validity nor the decoded bytes |
| Rsa.DecodeOfEncode | src/crypto/talerCrypto.ts:237-266 | a public key survives encoding if and only if both numbers have fewer than 65536 bytes |
| Rsa.DecodeAcceptsIff | src/crypto/talerCrypto.ts:237-253 | the accepted keys are exactly two two-byte lengths with a modulus and an exponent of these lengths behind them |
| Rsa.FullDomainHashIs | src/crypto/talerCrypto.ts:222-235 | the hash is the number derived from the message and the encoded key if it is coprime to the modulus; otherwise the key is reported as malicious |
| Rsa.BlindedMessageIs | src/crypto/talerCrypto.ts:268-279 | blinding gives a number below the modulus that is congruent to r^e times the hash, or the error of the key, the hash or the derivation |
| Rsa.UnblindGivesSignature | src/crypto/talerCrypto.ts:268-292 | unblinding the signed blinded message gives the plain signature, for every blinding factor coprime to N |
| Rsa.BlindSignatureVerifies | src/crypto/talerCrypto.ts:268-304 | blind, sign, unblind, verify succeeds |
| Rsa.VerifyAcceptsIff | src/crypto/talerCrypto.ts:294-304 | a signature is accepted if and only if its e-th power is congruent to the hash, and refused otherwise; errors are exactly those of the key and the hash |
| Rsa.OnlyPlainSignatureIsAccepted | src/crypto/talerCrypto.ts:294-304 | where the private exponent inverts the public one, a signature is accepted if and only if it is congruent to the plain signature |
| Rsa.KdfMod | src/crypto/talerCrypto.ts:168-192 | the loop over counters returns the first masked candidate below the modulus |
| Rsa.KdfModEndsIff | src/crypto/talerCrypto.ts:168-192 | it ends if and only if some candidate is below the modulus, and looking at 65536 counters decides that |
| Rsa.CandidateFitsBits | src/crypto/talerCrypto.ts:174-186 | a candidate never has more bits than the modulus |
| Rsa.CandidateIsReducedBytes | src/crypto/talerCrypto.ts:174-186 | a candidate is the big-endian number of the derived bytes modulo two to the bit length of the modulus; the counter enters with its two low bytes |
| Rsa.BitLengthBounds | src/crypto/talerCrypto.ts:174-176 | a positive number lies between two to its bit length less one and two to its bit length |
| ModArith.ModInvInverts | src/crypto/talerCrypto.ts:286-290 | the modular inverse exists exactly for coprime numbers, and inverts |
| ModArith.GcdIsOneIff | src/crypto/talerCrypto.ts:222-227 | the greatest common divisor is 1 if and only if no other number divides both |
| ModArith.PowOfSum | src/crypto/talerCrypto.ts:276-302 | the powers taken: the first power is the number itself, and exponents add up |
| WithdrawDenoms.SortDenomsSorts | src/operations/withdraw.ts:81-82 | the denominations are tried in descending value |
| WithdrawDenoms.GetWithdrawDenomList | src/operations/withdraw.ts:74-104 | the two nested loops take the first denomination that fits, at most 1000 times |
| WithdrawDenoms.RescanIsOnePass | src/operations/withdraw.ts:87-102 | for positive costs this is one pass that takes floor(remaining / cost) copies of each denomination, cut off at the limit |
| WithdrawDenoms.LeftoverIsBelowEveryCost | src/operations/withdraw.ts:74-104 | the coins never cost more than the amount, and below the limit the leftover pays for no denomination |
| WithdrawDenoms.ChosenDenoms | src/operations/withdraw.ts:74-104 | only withdrawable denominations are chosen, each the most valuable one that the rest of the amount pays for, up to 1000 or until it pays for none |
| WithdrawDenoms.ListReachesLimitIff | src/operations/withdraw.ts:87-102 | the list reaches its limit if and only if some denomination costs nothing or one pass gives that many coins |
| WithdrawDenoms.GetTotalRefreshCost | src/operations/refresh.ts:60-80 | cost and value of the new coins make up exactly the amount left; without new coins the cost is all of it |
| WithdrawDenoms.RefreshCostIsFeesAndRest | src/operations/refresh.ts:50-80 | the cost is the refresh fee, the withdrawal fees and a rest too small for any denomination |
| Withdrawals.WalletDb.ProcessPlanchet | src/operations/withdraw.ts:243-274 | the transaction: flag, finish timestamp and coin are written together or not at all |
| Withdrawals.ProcessKeepsInv | src/operations/withdraw.ts:243-274 | adding the coin never fails, a planchet is flagged exactly when its coin is there, and a group is finished exactly when all are |
| Withdrawals.OnlyPlanchetIsTouched | src/operations/withdraw.ts:243-274 | processing changes nothing but the flag of the planchet, the finish mark of its group, and its coin |
| Withdrawals.ProcessKeepsWealth | src/operations/withdraw.ts:243-274 | processing a planchet moves its value from pending to available, in its currency and at its exchange |
| Withdrawals.PendingIsRest | src/operations/balance.ts:109-119 | the pending amount computed by taking coins off the total never saturates and is the value of the missing coins |
| Withdrawals.RunsConserveValue | src/operations/withdraw.ts:158-290 | over every interleaving and retry, in each currency and at each exchange, available plus pending grows only by created groups, and each coin is inserted exactly as often as its flag was set, at most once |
| Withdrawals.InsertedCoin | src/operations/withdraw.ts:222-241 | over every run, an inserted coin is there, fresh, with its planchet's value and its group's currency and exchange |
| Withdrawals.RunsFromTheStart | src/operations/withdraw.ts:158-290 | from any coins and no groups on, available plus pending is the coins' value and that of the created groups, a coin has been inserted exactly if its flag is set, and a group is finished exactly when all its coins are there |
| Balance.WalletBalance.GetBalances | src/operations/balance.ts:76-121 | the additions for coins and withdrawal groups, in the order of the tables, up to the first that throws |
| Balance.PendingOfGroup | src/operations/balance.ts:109-119 | the pending amount of a group, by taking withdrawn coins off the total |
| Balance.FoldFailsIff | src/operations/balance.ts:41-69 | the balance throws if and only if one exchange has amounts in two currencies |
| Balance.EntriesAreTotals | src/operations/balance.ts:41-121 | every entry is the clamped sum of what belongs to its currency or exchange |
| Balance.SlicesAgree | src/operations/balance.ts:41-121 | the entries of the exchanges of a currency sum up to the entry of the currency |
| Balance.BalanceIsWealth | src/operations/balance.ts:76-121 | whatever order the tables list their records in, in each currency and at each exchange, available and pending show the fresh coins and the missing ones, so their sum is the conserved quantity of withdrawals |
| Refresh.CreateRefreshSession | src/crypto/workers/cryptoImplementation.ts:361-459 | the amounts of a session: input from values, withdrawal fees and melt fee, clamped step by step, and the values of the new coins |
| Refresh.SessionTakesValuesAndFees | src/crypto/workers/cryptoImplementation.ts:361-459 | the input of a session is the sum of the values, the withdrawal fees and the melt fee, at most the largest amount |
| Refresh.PlanIsCovered | src/operations/refresh.ts:128-178 | a session's input is at least the value of its new coins, and no more than the coin held if that covers the melt fee |
| Refresh.RefreshDb.RefreshCreateSession | src/operations/refresh.ts:85-205 | debits the coin and stores the session together or neither; without new coins marks the coin as done |
| Refresh.NewSessionFollowsPlan | src/operations/refresh.ts:113-178 | a stored session is for the coin of its slot, with new keys, the denominations chosen for the amount seen less the melt fee, and their values, fees and the melt fee as its input |
| Refresh.StoredSessionDebitsCoin | src/operations/refresh.ts:175-200 | a session is stored if and only if its coin holds enough and its slot is free; the coin has then paid the input and is dormant, and all else stays |
| Refresh.FirstMeltSetsIndex | src/operations/refresh.ts:274-289 | the first reply to a melt sets the no-reveal index, later ones and those for finished sessions change nothing |
| Refresh.RefreshDb.RefreshReveal | src/operations/refresh.ts:296-453 | finishes the session and inserts the coins whose signatures were usable, once |
| Refresh.RefreshDb.FinishOne | src/operations/refresh.ts:433-445 | the loop over the flags marks the group finished exactly when all are set |
| RefreshRuns.PutCoinsKeys | src/operations/refresh.ts:384-417 | exactly the coins of the revealed gamma with a usable signature are written, with their denomination's value |
| RefreshRuns.RevealWrites | src/operations/refresh.ts:384-448 | a reveal inserts exactly the coins of the no-reveal index with a usable signature, each new, fresh and with its planned value |
| RefreshRuns.SessionStoredKeeps | src/operations/refresh.ts:181-200 | storing a session moves its input from the coin to the session |
| RefreshRuns.RevealedKeeps | src/operations/refresh.ts:419-453 | revealing creates no value and overwrites no coin |
| RefreshRuns.StepKeeps | src/operations/refresh.ts:139-453 | what every step keeps |
| RefreshRuns.RunsCreateNoValue | src/operations/refresh.ts:85-593 | over every interleaving and retry, also with two groups naming the same coin, coin amounts plus open melt inputs never grow, each session's coins are inserted exactly once when it finishes, and a stored session never changes |
| RefreshRuns.MeltedCoinsStayDormant | src/operations/refresh.ts:85-453 | over every run a session melts the coin of its own slot, and that coin stays dormant |
| RefreshRuns.FlagIsSetIff | src/operations/refresh.ts:143-445 | the flag of a coin is set by revealing its session or by finding no denomination worth refreshing into, and never unset |
| RefreshRuns.GroupFinishedIff | src/operations/refresh.ts:143-165 | in every run that starts without groups, a non-empty group is marked finished if and only if all its flags are set |
| CryptoApi.CryptoPool.constructor | src/crypto/workers/cryptoApi.ts:293-309 | all workers idle and stopped, all queues empty |
| CryptoApi.CryptoPool.FindWorkFor | src/crypto/workers/cryptoApi.ts:250-263 | in a running pool the worker ends up with the head of the highest non-empty queue, which loses it, or stays idle when all are empty; in a stopped pool the head is dropped; no assertion fails |
| CryptoApi.CryptoPool.Rpc | src/crypto/workers/cryptoApi.ts:311-348 | queues the request if all workers are busy, otherwise wakes the first idle one |
| CryptoApi.CryptoPool.OnMessage | src/crypto/workers/cryptoApi.ts:265-291 | frees the worker, gives it more work, then settles the request if the number matches |
| CryptoApi.CryptoPool.OnError | src/crypto/workers/cryptoApi.ts:224-248 | stops the worker, rejects what it ran, and gives it more work |
| CryptoApi.CryptoPool.Terminate | src/crypto/workers/cryptoApi.ts:151-167 | stops all started workers and rejects what they ran |
| CryptoApi.FreedWorkerTakesOldest | src/crypto/workers/cryptoApi.ts:250-263 | a freed worker takes the oldest item of the highest priority that has one |
| CryptoApi.FindWorkKeeps | src/crypto/workers/cryptoApi.ts:250-263 | finding work for a freed worker restores the invariant and never fails an assertion |
| CryptoApi.RequestKeeps | src/crypto/workers/cryptoApi.ts:311-348 | a request never fails an assertion and is then queued or running, exactly once |
| CryptoApi.RequestGoesTo | src/crypto/workers/cryptoApi.ts:311-348 | if all workers are busy a request becomes the last item of the queue of its own priority; otherwise the first idle worker runs it |
| CryptoApi.EventsTouchOneWorker | src/crypto/workers/cryptoApi.ts:206-291 | an event changes its own worker only: after an answer it stays started, after an error it is started only for new work, and the timer stops only idle ones |
| CryptoApi.AnswerKeeps | src/crypto/workers/cryptoApi.ts:265-291 | an answer settles the request the worker ran, and no other |
| CryptoApi.ErrorKeeps | src/crypto/workers/cryptoApi.ts:224-248 | an error rejects the request the worker ran, if any, and no other |
| CryptoApi.PoolIsWorkConserving | src/crypto/workers/cryptoApi.ts:177-348 | as many workers are busy as there are open requests or workers |
| CryptoApi.RunsKeepPool | src/crypto/workers/cryptoApi.ts:177-348 | over every run of a new pool the busy count is right, a non-empty queue means all workers are busy, every request is in exactly one of queued, running and settled, and no promise is settled twice |
| CryptoApi.RunsNeverFail | src/crypto/workers/cryptoApi.ts:177-348 | no run of a new pool reaches a failed assertion |
| CryptoApi.CountIsRightIffBusy | src/crypto/workers/cryptoApi.ts:271-278 | a message keeps the busy count right if and only if the worker had work |
| CryptoApi.RequestIsLostIffMismatched | src/crypto/workers/cryptoApi.ts:271-282 | a request disappears from the pool if and only if the answer has another number |
| CryptoApi.StopRejectsExactlyRunning | src/crypto/workers/cryptoApi.ts:151-172 | stopping ends all workers, rejects exactly the running requests, keeps each request in one place, and keeps the busy count right if and only if no worker was busy |
| CryptoApi.RequestAfterStopIsLostIff | src/crypto/workers/cryptoApi.ts:177-348 | a request after the stop is lost at once, neither queued nor running nor settled, if and only if some worker was idle at the stop |
| CryptoApi.StoppedRunsSettleNothing | src/crypto/workers/cryptoApi.ts:177-348 | over every run of a stopped pool no worker runs anything and no promise is settled |
| Keys.KeysSwap | packages/idb-bridge/src/util/cmp.ts:41-106 | comparing the other way round gives the opposite sign, and only equal keys compare equal |
| Keys.KeysTransitive | packages/idb-bridge/src/util/cmp.ts:41-106 | key comparison is transitive, through nested arrays |
| Keys.KeyOrder | packages/idb-bridge/src/util/cmp.ts:41-106 | numbers before dates, dates before strings, strings before binary keys, these before arrays; numbers and dates by value, all others by their first difference, a proper prefix first |
| Keys.RankKeepsOrder | packages/idb-bridge/src/util/cmp.ts:41-106 | the finitely many keys of a run can be replaced by numbers without changing any comparison |
| IndexData.IndexKeysFound | packages/idb-bridge/src/util/getIndexKeys.ts:22-43 | a multi-entry index over several paths takes exactly the keys found under any of them; any other needs the key under its path and takes just that |
| IndexData.InsertIntoIndex | packages/idb-bridge/src/MemoryBackend.ts:1450-1508 | inserting a record's keys: the state left behind and the error thrown, for any number of keys; each step starts from the content before the first |
| IndexData.DeleteFromIndex | packages/idb-bridge/src/MemoryBackend.ts:963-1001 | removing a record's keys: the state left behind and the error thrown, for any number of keys |
| IndexData.GroupedIsUnique | packages/idb-bridge/src/MemoryBackend.ts:1450-1508 | there is only one index that is the records grouped by index key with ascending lists |
| IndexData.StoringKeepsListed | packages/idb-bridge/src/MemoryBackend.ts:1450-1508 | storing keeps every record listed under its current index key, whatever it replaces |
| IndexData.StoringKeepsGrouped | packages/idb-bridge/src/MemoryBackend.ts:1450-1508 | storing keeps the index grouped if an overwritten record had the same index key |
| IndexData.StaleEntryStays | packages/idb-bridge/src/MemoryBackend.ts:1428-1445 | an overwrite with another index key leaves an entry for a key the record no longer has |
| IndexData.OverwriteKeepsGroupedIff | packages/idb-bridge/src/MemoryBackend.ts:1428-1445 | an overwrite keeps the index grouped if and only if it keeps the record's index key |
| IndexData.DeletingKeepsListed | packages/idb-bridge/src/MemoryBackend.ts:963-1001 | deleting a listed record finds its entry and keeps all others listed |
| IndexData.DeletingKeepsGrouped | packages/idb-bridge/src/MemoryBackend.ts:963-1001 | deleting keeps the index grouped |
| IndexData.UniqueRefusesExactlyTakenKeys | packages/idb-bridge/src/MemoryBackend.ts:1485-1487 | a unique index refuses a value if and only if a stored record has its key, the same record included |
| IndexData.MultiEntryListsAllIff | packages/idb-bridge/src/MemoryBackend.ts:1461-1507 | a multi-entry index lists a record under all its keys if and only if at most one of them was new |
| IndexData.MultiEntryForgetsIff | packages/idb-bridge/src/MemoryBackend.ts:963-1001 | deleting a record rids a multi-entry index of it if and only if all its keys are the same |
| ObjectStores.StoreRecord | packages/idb-bridge/src/MemoryBackend.ts:1364-1448 | storing one record: choice of key, overwrite protection, key generator, record, then every index until one throws; what that means for the request is said by the next rows |
| ObjectStores.DeleteRecord | packages/idb-bridge/src/MemoryBackend.ts:884-961 | the loop over positions that deletes records and their index entries |
| StoreRuns.UpdateGivesNewValue | packages/idb-bridge/src/MemoryBackend.ts:1379-1390 | an update fails without changing a record if and only if there is no key or no record under it; otherwise that record gets the new value, the other records and the generator stay, and it succeeds if and only if every index accepts the value |
| StoreRuns.MadeRecordIsStored | packages/idb-bridge/src/MemoryBackend.ts:1391-1448 | any other store writes the record, key and generator made for the generator in force; a key that may not be overwritten is refused with the records unchanged and the generator set |
| StoreRuns.FirstRefusalIsReported | packages/idb-bridge/src/MemoryBackend.ts:1436-1487 | the error thrown is that of the first index that refuses the value |
| StoreRuns.PutKeepsAgreement | packages/idb-bridge/src/MemoryBackend.ts:1331-1448 | all indexes stay in agreement; an update succeeds if and only if its record exists and gives it the new value; any other store succeeds if and only if a key can be made that may be written, and writes exactly the record made |
| StoreRuns.RefusedRecordIsStoredAnyway | packages/idb-bridge/src/MemoryBackend.ts:1428-1508 | the indexes accept a value if and only if each finds its keys and no unique one has any of them yet; a refused record is stored all the same |
| StoreRuns.DeleteRangeIsExact | packages/idb-bridge/src/MemoryBackend.ts:842-961 | a range delete never finds an index entry missing, and removes exactly the records in the range if and only if it does not overrun an open upper bound |
| StoreRuns.RunsKeepAgreement | packages/idb-bridge/src/MemoryBackend.ts:842-1508 | after any sequence of stores and range deletes every record is listed in every index, and without key-changing overwrites every index is the grouped records |
| StoreRuns.PopulateIndex | packages/idb-bridge/src/MemoryBackend.ts:829-839 | filling a new index succeeds if and only if every record has its key and, in a unique index, no two share one; it then is exactly the grouped records |
| IndexScan.ScanIndex | packages/idb-bridge/src/MemoryBackend.ts:1072-1239 | forward requests: one request on an index: the first entries of the full scan up to the limit; throws if and only if it is to advance without a position |
| IndexScan.Walk | packages/idb-bridge/src/MemoryBackend.ts:1176-1239 | forward requests: from any position, the entries still wanted up to the limit, one per index key for unique scans |
| IndexScan.SkipSeen | packages/idb-bridge/src/MemoryBackend.ts:1126-1163 | forward requests: moves to the first primary key behind the last position and not before the one to advance to |
| IndexScan.ScanMembers | packages/idb-bridge/src/MemoryBackend.ts:1072-1239 | a full scan gives exactly the wanted pairs: in range, behind the last one, and for unique scans the smallest primary key of each index key |
| IndexScan.ScanIsIncreasing | packages/idb-bridge/src/MemoryBackend.ts:1072-1239 | it gives them in ascending order, each once |
| IndexScan.ScanGivesWanted | packages/idb-bridge/src/MemoryBackend.ts:1072-1239 | whatever position is given as the last one, a scan gives only wanted pairs, in ascending order |
| IndexScan.ScanIsCompleteIff | packages/idb-bridge/src/MemoryBackend.ts:1180-1185 | it is complete if and only if it does not start on an open lower bound that is an index key while something is wanted |
| IndexScan.ScanContinues | packages/idb-bridge/src/MemoryBackend.ts:1080-1163 | continuing behind an entry gives the rest of the whole scan |
| IndexScan.ScanByPages | packages/idb-bridge/src/BridgeIDBCursor.ts:134-185 | feeding the last position back until nothing comes gives what one unlimited scan gives, for every page size |
| StoreScan.ScanStore | packages/idb-bridge/src/MemoryBackend.ts:1254-1314 | forward requests: one request on a store: the first keys of the full scan up to the limit |
| StoreScan.StoreScanIsExact | packages/idb-bridge/src/MemoryBackend.ts:1254-1314 | the full forward scan is ascending, and gives exactly the wanted keys if and only if it does not start on an open lower bound that is a stored key while something is wanted |
| StoreScan.StoreScanGivesWanted | packages/idb-bridge/src/MemoryBackend.ts:1254-1314 | whatever position is given as the last one, a scan gives only wanted keys, in ascending order |
| StoreScan.StoreScanContinues | packages/idb-bridge/src/MemoryBackend.ts:1254-1314 | continuing behind a key gives the rest of the whole scan |
| StoreScan.ScanStoreByPages | packages/idb-bridge/src/BridgeIDBCursor.ts:134-185 | feeding the last key back gives what one unlimited scan gives, for every page size |
| Dumps.ListPairs | packages/idb-bridge/src/MemoryBackend.ts:359-369 | the records in ascending order |
| Dumps.FromPairsOfPairs | packages/idb-bridge/src/MemoryBackend.ts:271-300 | building a map from its own ascending list gives the map |
| Dumps.PairsOfFromPairsIff | packages/idb-bridge/src/MemoryBackend.ts:271-300 | a list survives being read and written if and only if it ascends |
| Database.StepKeepsOriginals | packages/idb-bridge/src/MemoryBackend.ts:842-1508 | no store or delete, failed or not, touches what was committed |
| Database.RollbackRestoresView | packages/idb-bridge/src/MemoryBackend.ts:1527-1545 | a rolled-back store reads, generates keys and dumps as before |
| Database.CommitPublishesView | packages/idb-bridge/src/MemoryBackend.ts:1573-1594 | after a commit dump and reads are the modified contents, the key generator unless it was set to zero |
| Database.ImportOfDump | packages/idb-bridge/src/MemoryBackend.ts:252-385 | importing a dumped store gives the same committed contents and nothing modified |
| Database.DumpOfImportIff | packages/idb-bridge/src/MemoryBackend.ts:252-385 | an imported dump is dumped again unchanged if and only if its lists ascend |
| Transactions.IndexResponse | packages/idb-bridge/src/MemoryBackend.ts:1003-1329 | forward requests: a response of an index has as many entries in each list as it counts; entry i has an index key and a primary key listed under it that the request asks for, in ascending order; value i is the record under that primary key; the result level decides which lists there are; unless the scan starts on an open bound or outside the range, nothing asked for is missing in front of the last entry, and nothing at all below the limit |
| Transactions.StoreResponse | packages/idb-bridge/src/MemoryBackend.ts:1003-1329 | forward requests: the same for a response of a store, whose primary keys are those of its records |
| Transactions.ReadFailsIff | packages/idb-bridge/src/MemoryBackend.ts:1003-1329 | forward requests: a read throws if and only if the index is missing, it is to advance without a position, it advances an index key on a store, or values are wanted for a listed record that is missing |
| Transactions.LevelsCountTheSame | packages/idb-bridge/src/MemoryBackend.ts:1321-1328 | the result level changes neither the count nor the keys |
| Transactions.GroupedScanFindsRecords | packages/idb-bridge/src/MemoryBackend.ts:1240-1252 | reading values through a grouped index never finds a record missing |
| Transactions.CallIsAdmittedIff | packages/idb-bridge/src/MemoryBackend.ts:1331-1358 | a call is admitted if and only if its transaction runs, was opened for reading or for writing, and has the store in scope |
| Transactions.ScopeIsRespected | packages/idb-bridge/src/MemoryBackend.ts:842-1448 | the calls of a transaction change no store out of its scope and nothing if it only reads or does not run; on a store in scope they are the run of their operations on it |
| Transactions.RollbackIsExact | packages/idb-bridge/src/MemoryBackend.ts:1510-1549 | after any stores and deletes of a transaction a rollback leaves every read, key generator and the dump as before it |
| Transactions.CommitIsExact | packages/idb-bridge/src/MemoryBackend.ts:1551-1604 | after a commit the dump is exactly the modified contents, and reads stay the same |
| Transactions.TransactionEffect | packages/idb-bridge/src/MemoryBackend.ts:471-1604 | from beginning to end a transaction changes the records of each store in its scope by its own operations on it if it writes and commits, and no other record |
| Transactions.CallsKeepAgreement | packages/idb-bridge/src/MemoryBackend.ts:842-1508 | over all calls of a transaction on all its stores the indexes agree with the records |
| Transactions.TransactionsKeepAgreement | packages/idb-bridge/src/MemoryBackend.ts:842-1604 | whether it commits or rolls back, the indexes agree afterwards |
| Transactions.AgreementFromTheStart | packages/idb-bridge/src/MemoryBackend.ts:471-1604 | from a new database on, over any sequence of committed and rolled-back transactions, every index lists every record, and is the grouped records without key-changing overwrites |
| Transactions.ImportOfExport | packages/idb-bridge/src/MemoryBackend.ts:252-385 | a backend loaded from an exported dump has the same committed contents and exports the same dump |
| Backend.MemoryBackend.ConnectDatabase | packages/idb-bridge/src/MemoryBackend.ts:425-469 | a new connection once the database is free |
| Backend.MemoryBackend.StoreRecord | packages/idb-bridge/src/MemoryBackend.ts:1331-1448 | checks connection, level and scope, then stores as `StoreRuns.UpdateGivesNewValue` and `StoreRuns.MadeRecordIsStored` say; nothing else changes |
| Backend.MemoryBackend.DeleteRecord | packages/idb-bridge/src/MemoryBackend.ts:842-961 | checks connection, level and scope, then deletes |
| Backend.MemoryBackend.GetRecords | packages/idb-bridge/src/MemoryBackend.ts:1003-1329 | forward requests: a read changes nothing and gives the response that `Transactions.IndexResponse` and `Transactions.StoreResponse` describe, from the readable contents only |
| Backend.MemoryBackend.Rollback | packages/idb-bridge/src/MemoryBackend.ts:1510-1549 | drops everything modified |
| Backend.MemoryBackend.Commit | packages/idb-bridge/src/MemoryBackend.ts:1551-1604 | makes everything modified the committed contents |
| Backend.MemoryBackend.ExportDump | packages/idb-bridge/src/MemoryBackend.ts:349-385 | the dump of the committed contents |
| Backend.MemoryBackend.ImportDump | packages/idb-bridge/src/MemoryBackend.ts:252-327 | loads any dump; throws if and only if a connection or transaction has been made |
| Backend.ExportedIsImportable | packages/idb-bridge/src/MemoryBackend.ts:252-385 | after importing a dump that a backend exported, all operations are as specified again |

## Left out

- PayCoins.SelectPayCoins: the returned customer fees are always zero in the code, so fee claims are about the loop's budgets.
- ReserveMatches.TransactionsFindWaitingItems: the exchange gives each transaction one amount.
- ReserveRun.ClaimsNeverExceedCredits: amounts stay below the maximum, and an exchange that reports withdrawals nobody claimed is not considered.
- ReserveRun.BalanceAfterUpdate: the exchange's credits cover its withdrawals and stay below the maximum.
- ReserveRun.Reserve.UpdateReserve: an update sees the exchange's history of that moment; the code shares one running query per reserve, so stale replies are not modelled.
- Sha256Stream.HashSha256.Update: requires the total to stay below 2^61 bytes, as FIPS 180-4 does.
- Hmac.HMAC.Finish: clean and digest of the HMAC object are not modelled.
- Kdf.DeriveKey: SHA-512 is a parameter; beyond 255 blocks, where RFC 5869 defines nothing, the counter byte wraps as in the code.
- Rsa.BlindSignatureVerifies: SHA-512 is a parameter, and the private exponent is assumed to invert the public one on the values used.
- Rsa.KdfMod: the method is for inputs on which the loop ends; `Rsa.KdfModEndsIff` says which these are.
- Withdrawals.RunsConserveValue: other operations on coins, such as spending, are not among the steps; planchets of one wallet have different keys.
- Balance.WalletBalance.GetBalances: the parts for refresh groups and purchases; a revealed session is still counted until its whole group finishes.
- RefreshRuns.RunsCreateNoValue: a step may be taken with any snapshot of the coin's amount, so checks the code makes only on its snapshot are not used.
- Refresh.CreateRefreshSession: the keys, hashes, planchets and signatures of a session.
- Refresh.RefreshDb.RefreshReveal: the link signatures and the unblinding; which signatures are usable is arbitrary.
- CryptoApi.RunsKeepPool: for pools that are not stopped and whose workers answer each item once.
- StoreRuns.PopulateIndex: for multi-entry indexes over an array of key paths nothing is said; `IndexData.MultiEntryListsAllIff` is about one record of such an index.
- IndexScan.ScanIndex: only forward scans; requires the non-empty ascending lists that all operations keep.
- IndexScan.Walk: only forward scans; backward ones step upward in the code.
- IndexScan.SkipSeen: only forward scans.
- StoreScan.ScanStore: only forward scans.
- Transactions.AgreementFromTheStart: for indexes without uniqueness and values with exactly one key for every index.
- Backend.MemoryBackend.ImportDump: what later operations do after importing a dump whose index lists are empty or not ascending.
- Backend.MemoryBackend.ConnectDatabase: one database and one connection, once nobody else is connected.
- Backend.MemoryBackend.GetRecords: store and index objects are values in the fields of the backend, so sharing one object between the committed stores and a connection is not modelled; without schema changes the two always coincide.
- Several databases and connections, version changes, renaming and deleting stores and indexes, and deleteDatabase.
- makeStoreKeyValue and extracting keys at key paths: a store request says which key and value result for a given key generator, and a value says which keys it has.
- Currencies other than one per computation: `Money` has none; `Amounts` and `Balance` check them.
- IEEE floating point: amounts and counters are exact integers below 2^53.
- HTTP, clocks, timers, retry counters, notifications, logging, random numbers and signatures of the exchange.
- The limit on retries and the verification of denominations before withdrawing.
- Refunds, recoups, tips, proposals, the user interface, the command line and the other packages.
