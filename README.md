# CryptographyConcepts: secure random numbers and password strength in Dafny

This project models two classes of the CryptographyConcepts repository and proves properties of them.

`SecureRandom` (random/secure-random.js):
- `getRandomInt(min, max)` is a rejection sampler. It draws `bytesNeeded` random bytes, reads them as a big-endian number and rejects draws at or above `maxRange`, the largest multiple of the range that fits in those bytes. It returns `min` plus the accepted draw modulo the range.
- `getRandomString(length, charset)` picks one character per position with `getRandomInt`.
- `addEntropy(data)` appends the SHA-256 digest of `data` to an entropy pool.
- `getEntropy(length)` hands out the oldest pooled bytes. It throws when the pool is too short.

`PasswordStrengthChecker` (password-strength/password-strength.js):
- `checkStrength(password)` runs seven checks in a fixed order: length, uppercase, lowercase, digit, special character, common pattern, entropy.
- Each failed check pushes an issue and clears `isStrong`.
- A passed length or entropy check adds a point to the score, and so does a passed class check that the settings enable. A disabled class check adds nothing.
- A common pattern takes a point away; its absence adds nothing.
- `calculateEntropy(password)` is log2(distinct^length).

Files:
- `wrappers.dfy`: `Option` and `Result`.
- `random_bounds.dfy` (module `RandomBounds`): the sampler's arithmetic, stated over values. This covers the byte width, the rejection bound, the big-endian reading of a draw and the first accepted draw in a stream of bytes. It also holds the counting lemmas for the absence of modulo bias and the as-written and corrected forms of the width for a one-value range.
- `secure_random.dfy` (module `SecureRandomModel`): the class `SecureRandom`.
  - The entropy pool is a field that `AddEntropy` and `GetEntropy` reassign.
  - `GetRandomInt` is the source's draw-until-accepted loop, proved against `SampleInt`.
  - `GetRandomString` is the source's character loop.
  - SHA-256 is the function the object is constructed with.
  - The operating system's random bytes are a finite byte stream handed to each sampling call.
- `password_strength.dfy` (module `PasswordStrength`): the class `PasswordStrengthChecker`.
  - Its five settings fields are set by the constructor.
  - `CheckStrength` is the source's sequence of if/else-if blocks. It is proved against the specification functions `Issues` and `Score`.
  - `IssuesUpTo`, `ScoreUpTo` and `StrongUpTo` give the state after the first k checks.
  - The lemmas state what each issue means, the order of the issues and what the score counts.

## Model

| member | source | states |
|---|---|---|
| RandomBounds.BytesNeededAsWritten | random/secure-random.js:11 | the source's width ceil(log2(range)/8) is the least b >= 0 with 256^b >= range; it is 0 for a range of one value |
| RandomBounds.BytesNeeded | random/secure-random.js:11 | the width the model uses is at least 1, holds range values (256^b >= range), is one byte or else one byte fewer is too narrow, and equals the source's width for every range of two or more |
| RandomBounds.BytesNeededIsLeast | random/secure-random.js:11 | every width c with 1 <= c < bytesNeeded has 256^c < range, so bytesNeeded is the least width >= 1 that fits the range |
| RandomBounds.MaxRange | random/secure-random.js:12-13 | maxRange = maxNum - maxNum % range is floor(maxNum / range) * range, lies in [range, maxNum] and is within range of maxNum |
| RandomBounds.BigEndian | random/secure-random.js:17 | the number parseInt reads from a chunk's hex lies in [0, 256^width) |
| RandomBounds.ParseHex | random/secure-random.js:17 | parseInt of the hex is NaN exactly for the empty chunk; otherwise it is a number below 256^width whose width-byte encoding is the chunk again |
| RandomBounds.ToBytesBigEndian | random/secure-random.js:17 | reading a chunk as hex-then-parseInt and encoding the number back at the chunk's width gives the chunk again |
| RandomBounds.BigEndianInjective | random/secure-random.js:17 | two chunks of one width that parse to the same number are equal |
| RandomBounds.DrawAt | random/secure-random.js:17 | the draw read in place at offset p lies in [0, 256^width) |
| RandomBounds.DrawAtIsBigEndian | random/secure-random.js:17 | the draw the loop reads at offset p is the big-endian value of the bytes rng[p..p + width] |
| RandomBounds.ResidueClassSize | random/secure-random.js:13-20 | below k * range every offset r in [0, range) is hit by exactly k values v with v % range == r |
| RandomBounds.NoModuloBias | random/secure-random.js:13-20 | maxRange is a multiple of range and every offset has exactly maxRange / range accepted values |
| RandomBounds.AcceptedDrawsMembers | random/secure-random.js:16-20 | a byte chunk is an accepted draw for offset r exactly when it has the sampler's width, reads below maxRange and is congruent to r |
| RandomBounds.AcceptedDrawsUniform | random/secure-random.js:16-20 | every offset r has the same number maxRange / range of accepted byte chunks, so each result is produced by equally many draws |
| RandomBounds.FirstAcceptAt | random/secure-random.js:16-18 | the draw where the do-while stops lies in the stream, at or after the start, and reads below the bound (its completeness is FirstAcceptFinds) |
| RandomBounds.FirstAcceptFinds | random/secure-random.js:16-18 | when the grid of draws from pos holds an accepted draw at q, the do-while stops, at q or before it |
| RandomBounds.FirstAcceptIsFirst | random/secure-random.js:16-18 | every draw on the grid before the first accepted one reads at or above the bound |
| RandomBounds.SampleInt | random/secure-random.js:9-21 | one call's result lies in [min, max] and it consumes at least one draw's width and no more than the stream holds |
| RandomBounds.SampleIntSucceeds | random/secure-random.js:9-21 | a call succeeds whenever its stream holds an accepted draw on the grid, and reads no further than the end of that draw |
| RandomBounds.SampleIntIsFirstAccepted | random/secure-random.js:16-20 | an accepted draw at grid offset q preceded only by rejected draws is the draw the call uses: it returns min plus that draw modulo range and consumes the stream up to q + width |
| RandomBounds.SampleIntRejectsEarlierDraws | random/secure-random.js:16-18 | a call consumes whole draws, and every draw before the one that produced its value was rejected |
| RandomBounds.SampleIntDrawIsAccepted | random/secure-random.js:16-20 | the bytes that produced r form one of the accepted draws for offset r - min |
| RandomBounds.AsWrittenDraw | random/secure-random.js:10-20 | with the source's own width, one pass returns NaN exactly for a one-value range, any number it returns lies in [min, max], and it rejects exactly the non-empty draws at or above maxRange |
| RandomBounds.SingletonRangeAsWritten | random/secure-random.js:10-20 | as written, getRandomInt(k, k) uses width 0, draws no bytes and returns NaN |
| RandomBounds.AsWrittenAgreesAboveOne | random/secure-random.js:10-20 | for ranges of two or more values the source's width and the floored width give the same result on every draw |
| RandomBounds.SingletonRangeCorrected | random/secure-random.js:9-21 | with the width floored at one byte, getRandomInt(k, k) accepts its first byte and returns k |
| SecureRandomModel.SecureRandom.constructor | random/secure-random.js:4-6 | a new object has an empty entropy pool |
| SecureRandomModel.SecureRandom.GetRandomInt | random/secure-random.js:9-21 | the draw-until-accepted loop returns a value in [min, max], namely SampleInt's value, and reports the bytes it consumed |
| SecureRandomModel.SecureRandom.GetRandomString | random/secure-random.js:24-34 | the result has the requested length (empty for length <= 0), every character is in the charset, and character i is charset[getRandomInt(0, len - 1)] on the i-th call's bytes |
| SecureRandomModel.SecureRandom.AddEntropy | random/secure-random.js:47-51 | the pool becomes the old pool followed by sha256(data), 32 bytes longer |
| SecureRandomModel.SliceIndex | random/secure-random.js:58-59 | Buffer.slice's index is clamped to [0, len] and is the index itself when already in range |
| SecureRandomModel.SecureRandom.GetEntropy | random/secure-random.js:54-61 | it fails exactly when the pool is shorter than length and then leaves the pool unchanged; otherwise it returns the oldest bytes and the returned bytes followed by the new pool are the old pool |
| SecureRandomModel.PoolRoundTrip | random/secure-random.js:47-61 | after two contributions, two withdrawals totalling 64 bytes read back both digests in order and the drained pool refuses one more byte |
| PasswordStrength.PasswordStrengthChecker.constructor | password-strength/password-strength.js:2-8 | a new checker asks for 8 characters and all four character classes |
| PasswordStrength.DistinctChars | password-strength/password-strength.js:79 | the number of distinct characters is at most the length and at least 1 for a non-empty password |
| PasswordStrength.CalculateEntropy | password-strength/password-strength.js:78-82 | the estimate is kept as (distinct characters, length), with distinct <= length and distinct >= 1 when non-empty |
| PasswordStrength.LowEntropyIff | password-strength/password-strength.js:68 | log2(distinct^length) < 3 holds exactly for passwords of at most two characters and for passwords of one repeated character |
| PasswordStrength.IssueOf | password-strength/password-strength.js:17-73 | the issue of check k sits at position k of the running order |
| PasswordStrength.StrongIffNoIssues | password-strength/password-strength.js:12-73 | after any number of checks isStrong is still true exactly when no issue has been pushed |
| PasswordStrength.PasswordStrengthChecker.CheckStrength | password-strength/password-strength.js:10-76 | the issues and score are those of the seven checks under the checker's current settings, isStrong holds exactly when there is no issue, and entropy is calculateEntropy(password) |
| PasswordStrength.IssueReportedIff | password-strength/password-strength.js:17-73 | the issue of each check is reported exactly when that check fails |
| PasswordStrength.LengthIssue | password-strength/password-strength.js:18-20 | the length issue naming minLength is reported exactly when the password is shorter than minLength |
| PasswordStrength.ClassIssues | password-strength/password-strength.js:26-55 | each character-class issue is reported exactly when the class is required and the password has no character of it; HasUpper, HasLower, HasDigit and HasSpecial are the regular-expression tests of lines 26, 34, 42 and 50 |
| PasswordStrength.CommonPatternIssue | password-strength/password-strength.js:58-62 | the pattern issue is reported exactly when the lowercased password contains password, 123456, qwerty or admin; HasCommonPattern and ToLower are the test of lines 58-59 |
| PasswordStrength.LowEntropyIssue | password-strength/password-strength.js:66-70 | the entropy issue is reported exactly when distinct^length < 8, that is for at most two characters or one repeated character |
| PasswordStrength.IssuesInCheckOrder | password-strength/password-strength.js:17-73 | the issues appear in the order the checks run, none twice, at most seven |
| PasswordStrength.ScoreCountsIssues | password-strength/password-strength.js:14-73 | the score is 2 plus the number of enabled class checks minus the number of issues |
| PasswordStrength.CommonPatternHasEntropy | password-strength/password-strength.js:58-70 | a password with a common pattern has at least five characters, two of them different, and passes the entropy check |
| PasswordStrength.ScoreBounds | password-strength/password-strength.js:14-73 | the score lies between 0 and 2 plus the number of enabled class checks; the point a common pattern takes is made up by the entropy check |
| PasswordStrength.DefaultPolicyScore | password-strength/password-strength.js:10-76 | with the default settings the score is 6 minus the number of issues, lies in [0, 6], and is 6 exactly when there is no issue |
| PasswordStrength.ToLower | password-strength/password-strength.js:59 | lowercasing keeps the length, leaves no uppercase letter, turns each uppercase letter into a lowercase one and keeps every other character |
| PasswordStrength.ToLowerIdempotent | password-strength/password-strength.js:59 | lowercasing a lowercased password changes nothing |
| PasswordStrength.CommonPatternIgnoresCase | password-strength/password-strength.js:59 | a password and its lowercase form get the same common-pattern verdict |

## Left out

- getRandomBytes and getRandomUUID (random/secure-random.js:37-44) only pass through to the crypto module, so they are not modelled.
- The demonstration code at the end of both files is not modelled. It prints sample output.
- The operating system's random bytes are an explicit finite byte stream per sampling call. crypto.randomBytes is not part of this model.
- SecureRandomModel.SecureRandom.GetRandomInt requires that the stream holds an accepted draw. The source's loop ends only with probability 1, and its non-termination is not modelled.
- SecureRandomModel.SecureRandom.GetRandomString gives each getRandomInt call its own stream. That matches the one stream of the source cut at the points where each call stops reading.
- Uniformity is stated by counting accepted draws per result. Probabilities are not modelled.
- SHA-256 is a parameter of the constructor, a function to 32-byte digests. Its internals are not part of this model.
- JavaScript number precision is not modelled. Math.log2 and Math.pow work on floats. Above a range of 2^48, bytesNeeded is 7, so maxNum is 2^56 and a 7-byte draw can exceed 2^53; parseInt and maxNum - maxNum % range can then round. Ranges above 2^48 are therefore outside the model.
- SecureRandomModel.SecureRandom.GetRandomInt requires min <= max and integer bounds. With min > max, the range is 0 or negative, bytesNeeded is -Infinity or NaN, and crypto.randomBytes throws a RangeError at random/secure-random.js:17. The precondition stands in for that thrown error.
- SecureRandomModel.SecureRandom.GetRandomString requires a non-empty charset when length > 0. The source then calls getRandomInt(0, -1), which throws a RangeError from crypto.randomBytes(-Infinity). The precondition stands in for that thrown error.
- SecureRandomModel.SecureRandom.GetRandomString with a one-character charset returns that character at every position. The source's getRandomInt(0, 0) returns NaN (the finding below), charset[NaN] is undefined, and the source appends the text "undefined" at each position. The model follows the corrected getRandomInt here.
- Non-integer lengths are not modelled, in getRandomString or in getEntropy.
- Data given to addEntropy and bytes taken from the pool are byte sequences. String and other argument types are not modelled.
- toLowerCase is modelled on ASCII letters only. Unicode case mapping is not modelled. The character-class tests /[A-Z]/, /[a-z]/ and /\d/ are ASCII in the source too.
- Strings are sequences of Dafny characters. JavaScript's UTF-16 code units are not modelled, so a character outside the Basic Multilingual Plane counts once here but twice in the source's length.
- Issue messages are modelled as issue kinds. The length issue carries the minLength that the source's message interpolates.
- The entropy value is kept as the pair (distinct characters, length) rather than the float log2(distinct^length). The test entropy < 3 is the exact comparison distinct^length < 8.
- The range of one value is handled by the floored width, as in the corrected member of the finding below.

## Findings

| source | as written | input that shows it | evidently intended | confidence | as-written member | corrected member |
|---|---|---|---|---|---|---|
| random/secure-random.js:11 | bytesNeeded = ceil(log2(range) / 8) is 0 for a range of one value, so randomBytes(0) gives an empty hex string and parseInt('', 16) is NaN, which the do-while accepts and returns | getRandomInt(5, 5); getRandomString(n, 'a') through getRandomInt(0, 0) | return 5 after a one-byte draw that is always accepted | not executed | RandomBounds.SingletonRangeAsWritten | RandomBounds.SingletonRangeCorrected |
