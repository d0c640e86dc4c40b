# Classical ciphers and the file container of crypto-calc, in Dafny

This project models the cipher engine of crypto-calc (`src/cryptoUtils.js`)
and the pure parts of its file processor (`src/FileCrypto.jsx`), and proves
properties of the model.

The cipher engine holds five stateless string transforms over the 26-letter
alphabet:

- Vigenère
- Affine
- Playfair
- Hill (3×3)
- a one-rotor Enigma with the Rotor I and Reflector B wirings

It also has two helpers: `mod`, a non-negative remainder, and `modInverse`, a
linear inverse search that returns the sentinel `1` when no inverse exists.

The file processor encrypts a file with AES-GCM under a key derived from a
password by PBKDF2. It writes `salt(16) ‖ iv(12) ‖ ciphertext`, names the
result `encrypted_<name>.enc`, and reverses both on decryption.

Modules, one per file:

| file | module | contents |
|---|---|---|
| `wrappers.dfy` | `Wrappers` | `Option`, and `Result` carrying one `CipherError` in place of the source's error strings |
| `mod_arith.dfy` | `ModArith` | JS `%` (truncating), `mod`, `modInverse` and the sentinel test, `gcd` |
| `alphabet.dfy` | `Alphabet` | ASCII upper-casing, letter ↔ index, the strip-to-letters clean-up, `indexOf` |
| `vigenere.dfy` | `Vigenere` | `vigenere` |
| `affine.dfy` | `Affine` | `affine` |
| `playfair.dfy` | `Playfair` | the table, the digraph padding, the three digraph rules, `playfair` |
| `hill.dfy` | `Hill` | determinant, adjugate, decryption matrix, X-padding, block product, `hill` |
| `enigma.dfy` | `Enigma` | the wiring tables, one letter's path, the stepping loop, `enigma` |
| `file_crypto.dfy` | `FileCrypto` | framing and slicing, output names, the guard, `handleProcess` |

Modelling choices:

- **Text and keys.** Text is `seq<char>`. Keys arrive already parsed:
  - Vigenère and Playfair take a string.
  - Affine takes a pair of `Option<int>`, where `None` is a missing or
    non-numeric component.
  - Hill takes `seq<int>`.
  - Enigma takes a `nat` start position.
- **Errors.** Each error string of the source is a `Result` error of its own
  kind.
- **Web-crypto calls.** PBKDF2, AES-GCM encryption and decryption are the
  function-valued fields of a `Primitives` record, so they are deterministic
  by construction.
- **Randomness.** The random salt and IV are arguments.
- **Failed decryption.** A rejected AES-GCM decryption is `None`.

Where the interface's hints and the cipher code differ, the model follows the
cipher code:

- **Enigma key.** The hint in `src/App.jsx:35` speaks of a rotor position
  from 0 to 25. `parseInt(key) || 0` at `src/cryptoUtils.js:178` keeps any larger position as it is,
  and the first step `(pos + 1) % 26` at `src/cryptoUtils.js:184` wraps it.
  `Enigma.EnigmaKeyWraps` states that start position `k` behaves exactly like
  `k % 26`.
- **Hill size.** The hint and the cipher menu in `src/App.jsx:34` and
  `src/App.jsx:59` offer a 2×2 matrix. `src/cryptoUtils.js:108-112` accepts
  exactly nine numbers, a 3×3 matrix, and so does the model. A four-number
  key is refused with `InvalidKeyLength`.
- **Affine sentinel test.** `modInverse(a, 26) === 1 && a !== 1` is not the
  same as "a is not coprime with 26":
  - `a = 27` has inverse 1 and is refused.
  - Every negative `a` is refused, because JS `%` keeps the sign.

  The model keeps this behaviour (`Affine.AffineRefuses27`,
  `Affine.AffineRefusesNegative`). It proves the coprimality reading only for
  `1 <= a <= 25`.

## Model

| member | source | states |
|---|---|---|
| ModArith.JsRem | src/cryptoUtils.js:6 | JS `%` on integers: `n` is `m` times the quotient truncated toward zero plus the result, the result lies strictly between `-m` and `m`, and it takes the sign of the dividend |
| ModArith.Mod | src/cryptoUtils.js:6 | `mod(n, m)` lies in `[0, m)` and equals the Euclidean remainder of `n` by `m`, so it is congruent to `n`, for every `n` and every `m > 0` |
| ModArith.ModArithLemma | src/cryptoUtils.js:6 | adding `m` between two truncating remainders, as the helper does, gives the Euclidean remainder for negative `n` too |
| ModArith.ModInverse | src/cryptoUtils.js:30-33 | when some `x` in `[1, m)` has `a*x % m == 1`, the result is the smallest such `x`; when none does, the result is the sentinel `1` |
| ModArith.NonPositiveHasNoInverse | src/cryptoUtils.js:31 | for `a <= 0` the JS remainder is never 1, so the search always answers the sentinel |
| ModArith.AcceptedHasInverse | src/cryptoUtils.js:38-41 | when the sentinel test lets `a` through, `a * modInverse(a, 26)` is 1 modulo 26 |
| ModArith.SentinelRejectsIffNotCoprime | src/cryptoUtils.js:123-124 | for a residue `0..25`, the sentinel test rejects it exactly when it shares a factor with 26 |
| ModArith.ModShiftBack | src/cryptoUtils.js:19 | subtracting a shift modulo m undoes adding it, and the other way round |
| Alphabet.Upper | src/cryptoUtils.js:15 | ASCII `toUpperCase`: the result is a capital letter exactly when the input is an ASCII letter; a lower-case letter becomes the capital at the same alphabet index; capitals and non-letters are unchanged |
| Alphabet.Clean | src/cryptoUtils.js:156 | `toUpperCase().replace(/[^A-Z]/g, "")` keeps only letters, one per letter of the input, and leaves an all-capital text unchanged |
| Alphabet.CleanAt | src/cryptoUtils.js:156 | the k-th letter of the upper-cased input, counted from 0, is the k-th character of the cleaned text, so the clean-up keeps the letters in order |
| Alphabet.IndexOf | src/cryptoUtils.js:93 | `indexOf` is -1 exactly when the character is absent; otherwise it is the first position holding it |
| Alphabet.IndexOfDistinct | src/cryptoUtils.js:93 | in a table without repeats, `indexOf` of the i-th entry is i |
| Vigenere.NormalizeKey | src/cryptoUtils.js:12 | the key in use is never empty and is all capital letters; when the supplied key has letters, it is exactly those letters, upper-cased, in order |
| Vigenere.VigenereDefaultKey | src/cryptoUtils.js:12 | a key without letters behaves exactly like `"KEY"` |
| Vigenere.ShiftInverse | src/cryptoUtils.js:17-20 | shifting a letter back by a key letter undoes shifting it forward, and the other way round |
| Vigenere.Vigenere | src/cryptoUtils.js:9-27 | the output has the input's length, a letter exactly where the upper-cased input has one, and every other character copied |
| Vigenere.VigenereAt | src/cryptoUtils.js:14-25 | the letter at index i is shifted by key letter number (letters before i) mod key length, so only letters advance `j` |
| Vigenere.IndexAtCountsLetters | src/cryptoUtils.js:21 | the key index reached at position i is the start index plus the number of letters before i |
| Vigenere.RunRoundTrip | src/cryptoUtils.js:14-25 | running the loop back in the other direction from the same key index restores the upper-cased text |
| Vigenere.VigenereRoundTrip | src/cryptoUtils.js:9-27 | decrypting an encryption under the same key returns the upper-cased input, and so does encrypting a decryption |
| Vigenere.VigenereExample | src/cryptoUtils.js:14-25 | `"A B"` under `"KEY"` encrypts to `"K F"`: the space is copied and does not use up the `E` |
| Affine.MapChar | src/cryptoUtils.js:44-50 | a character maps to a letter exactly when it is one, and non-letters pass through |
| Affine.Affine | src/cryptoUtils.js:35-53 | a missing component gives `InvalidKeyFormat`; otherwise the result is `NonInvertibleCoefficient` exactly when the sentinel test rejects `a`; an accepted key keeps the text's layout |
| Affine.AffineAcceptsIffCoprime | src/cryptoUtils.js:38 | for `1 <= a <= 25` the key is accepted exactly when `gcd(a, 26) == 1` |
| Affine.AffineRefuses13 | src/cryptoUtils.js:38 | `a = 13` is refused |
| Affine.AffineRefuses27 | src/cryptoUtils.js:38 | `a = 27` is refused although `27 * 1` is 1 modulo 26 |
| Affine.AffineRefusesNegative | src/cryptoUtils.js:38 | every negative `a` is refused |
| Affine.InverseOf5 | src/cryptoUtils.js:30-33 | `modInverse(5, 26)` is 21 |
| Affine.DecryptUndoesEncrypt | src/cryptoUtils.js:46 | with `a * aInv` = 1 mod 26, the decryption formula recovers the index the encryption formula was given |
| Affine.EncryptUndoesDecrypt | src/cryptoUtils.js:46 | with `a * aInv` = 1 mod 26, the encryption formula recovers the index the decryption formula was given |
| Affine.LetterRoundTrip | src/cryptoUtils.js:44-47 | one letter encrypted then decrypted, or decrypted then encrypted, is itself |
| Affine.AffineRoundTrip | src/cryptoUtils.js:35-53 | for an accepted key, decrypting the encryption returns the upper-cased text, and so does encrypting the decryption |
| Affine.AffineEncryptExample | src/cryptoUtils.js:46 | key `(5, 8)` encrypts `"A"` to `"I"` |
| Affine.AffineDecryptExample | src/cryptoUtils.js:46 | key `(5, 8)` decrypts `"I"` to `"A"` |
| Playfair.AlphabetNoJFacts | src/cryptoUtils.js:57 | the alphabet without J has 25 distinct letters, exactly the letters other than J |
| Playfair.Dedup | src/cryptoUtils.js:58 | `[...new Set(s)]` has no repeats and holds exactly the characters of s |
| Playfair.DedupOrder | src/cryptoUtils.js:58 | `[...new Set(s)]` keeps first-occurrence order: an earlier entry of the result first occurs earlier in s |
| Playfair.DedupAppend | src/cryptoUtils.js:57-58 | first occurrences of a concatenation are those of the first part followed by the new ones of the second |
| Playfair.Table | src/cryptoUtils.js:57-58 | the table has 25 distinct entries, exactly the letters other than J |
| Playfair.TableOrder | src/cryptoUtils.js:57-58 | the table is the keyword's letters (J read as I) in first-occurrence order, then the remaining letters of the J-less alphabet in alphabet order |
| Playfair.Prepared | src/cryptoUtils.js:60 | the prepared text has one table letter per letter of the input |
| Playfair.PreparedAt | src/cryptoUtils.js:60 | the k-th letter of the input, upper-cased and with J read as I, is the k-th character of the prepared text |
| Playfair.Filler | src/cryptoUtils.js:73 | the filler is `Q`, or `X` after a `Q`, and so always differs from the letter it follows |
| Playfair.Pad | src/cryptoUtils.js:66-85 | the padded text has even length, is no shorter than its input, has two different letters in every digraph, and holds only the input's characters and the fillers `Q` and `X` |
| Playfair.PadInsertsFillers | src/cryptoUtils.js:66-85 | the padded text is the input with `Q`/`X` fillers inserted: deleting some fillers from it leaves the input, in order |
| Playfair.PadDoubledPair | src/cryptoUtils.js:71-74 | the padding rule for a doubled letter: the first copy and a filler form a digraph, and the second copy starts the next one |
| Playfair.PadDistinctPair | src/cryptoUtils.js:76-78 | the padding rule for two different letters: they form a digraph as they are |
| Playfair.PadLoneTail | src/cryptoUtils.js:81-84 | the padding rule for an odd tail: a lone last letter is followed by its filler, `Q`, or `X` after a `Q` |
| Playfair.PadKeepsGoodText | src/cryptoUtils.js:66-85 | text of even length whose digraphs already have two different letters is left unchanged |
| Playfair.PadExample | src/cryptoUtils.js:66-85 | `"BALLOON"` is padded to `"BALQLOON"` |
| Playfair.StepBack | src/cryptoUtils.js:98-100 | a wrapped step of a row or column index backward undoes the step forward, and the other way round |
| Playfair.CellPosition | src/cryptoUtils.js:93-94 | in a table without repeats, the row and column found for a cell's letter are that cell's |
| Playfair.EncodePair | src/cryptoUtils.js:92-103 | a digraph of table letters becomes two table letters |
| Playfair.PairRoundTrip | src/cryptoUtils.js:97-102 | under each of the same-row, same-column and rectangle rules, decoding an encoded digraph returns it, and the other way round |
| Playfair.TransformRoundTrip | src/cryptoUtils.js:90-105 | over even-length text of table letters, the digraph loop in one direction then the other is the identity |
| Playfair.Playfair | src/cryptoUtils.js:56-106 | encryption always succeeds with an even-length output; decryption fails, with `OddLengthCiphertext`, exactly when the letter count is odd; every output letter is in the table |
| Playfair.PlayfairRoundTrip | src/cryptoUtils.js:56-106 | decrypting an encryption returns the padded, prepared plaintext exactly |
| Hill.ReducedDet | src/cryptoUtils.js:117-120 | the determinant in use is reduced into `0..25` |
| Hill.AdjugateProduct | src/cryptoUtils.js:136-152 | the adjugate the code writes out, times the key matrix, is the determinant times the identity |
| Hill.DecryptionMatrixInverts | src/cryptoUtils.js:136-152 | when `detInv` inverts the reduced determinant, the decryption matrix times the key matrix is the identity modulo 26 |
| Hill.HillInverseMatrix | src/cryptoUtils.js:117-152 | for every accepted nine-number key, the decryption matrix built with `modInverse(det, 26)` inverts the key matrix modulo 26 |
| Hill.Apply | src/cryptoUtils.js:166-168 | each component of a block's product is reduced into `0..25` |
| Hill.ApplyCompose | src/cryptoUtils.js:166-168 | multiplying a block by b and then by a, reducing each time, equals multiplying it once by `a·b` |
| Hill.BlockRoundTrip | src/cryptoUtils.js:161-169 | with a matrix that inverts the key modulo 26, a block multiplied by the key and then by it comes back unchanged |
| Hill.PadX | src/cryptoUtils.js:157 | the padded text keeps the text as a prefix, adds fewer than three letters, all `X`, and has a length divisible by 3 |
| Hill.Blocks | src/cryptoUtils.js:161-169 | the block loop keeps the length and writes only letters |
| Hill.BlocksRoundTrip | src/cryptoUtils.js:161-169 | with a matrix that inverts the key modulo 26, the block loop undoes the key's block loop |
| Hill.Hill | src/cryptoUtils.js:109-171 | a key that is not nine numbers gives `InvalidKeyLength`; otherwise `NonInvertibleMatrix` exactly when the sentinel test rejects the reduced determinant; a result has the length of the X-padded letters |
| Hill.HillRejectsIffNotCoprime | src/cryptoUtils.js:117-124 | a nine-number key is refused, in both directions, exactly when `gcd(det mod 26, 26) != 1` |
| Hill.EncryptionIsBlocks | src/cryptoUtils.js:128-169 | the encrypting branch: a successful encryption is the key's block loop over the X-padded letters |
| Hill.DecryptionOfBlocks | src/cryptoUtils.js:134-169 | decrypting letter text of length divisible by 3 runs the decryption matrix's block loop over it unchanged |
| Hill.HillRoundTrip | src/cryptoUtils.js:109-171 | for an accepted key, decrypting the encryption returns the X-padded, stripped plaintext |
| Enigma.RotorIsPermutation | src/cryptoUtils.js:174 | Rotor I is 26 letters holding every letter once |
| Enigma.ReflectorIsFixedPointFreeInvolution | src/cryptoUtils.js:175 | Reflector B pairs letters: it maps each letter to a different letter that maps back to it |
| Enigma.StandardIsValid | src/cryptoUtils.js:174-175 | the two wiring tables of the code satisfy both properties above |
| Enigma.RotorInOut | src/cryptoUtils.js:187-195 | looking a letter up in the rotor with `indexOf` undoes the forward rotor lookup |
| Enigma.EncipherInvolution | src/cryptoUtils.js:185-195 | at a fixed rotor position, forward, reflect, backward applied twice returns the letter index |
| Enigma.EncipherNoFixedPoint | src/cryptoUtils.js:185-195 | at any rotor position no letter index is mapped to itself |
| Enigma.AdvanceIsMod | src/cryptoUtils.js:184 | stepping k > 0 times from `pos` reaches `(pos + k) % 26` |
| Enigma.Enigma | src/cryptoUtils.js:177-200 | the output has the input's length, a letter exactly where the upper-cased input has one, and every other character copied |
| Enigma.EnigmaAt | src/cryptoUtils.js:181-197 | the letter at index i is enciphered at the start position stepped once per letter before it and once more for itself, so only letters step the rotor, each before it is enciphered |
| Enigma.EnigmaNoFixedLetter | src/cryptoUtils.js:181-197 | no letter of the text is enciphered to itself |
| Enigma.RunInvolution | src/cryptoUtils.js:181-198 | from any start position, running the loop over its own output replays the same positions and returns the upper-cased text |
| Enigma.EnigmaInvolution | src/cryptoUtils.js:177-200 | for every start position, `enigma` applied twice with the same key returns the upper-cased input |
| Enigma.EnigmaKeyWraps | src/cryptoUtils.js:184 | start position k gives the same output as `k % 26` |
| FileCrypto.Frame | src/FileCrypto.jsx:57 | the blob holds the salt at bytes `[0, 16)`, the IV at `[16, 28)` and the cipher output from 28 on |
| FileCrypto.Slice | src/FileCrypto.jsx:61-63 | `slice` with non-negative bounds clamps both to the length, is empty from the end on, and is empty for a reversed range |
| FileCrypto.Unframe | src/FileCrypto.jsx:60-63 | the three slices concatenate back to the file; a file of at least 28 bytes gives a 16-byte salt and a 12-byte IV; a shorter one gives an empty ciphertext |
| FileCrypto.UnframeFrame | src/FileCrypto.jsx:57-63 | slicing a blob built from a 16-byte salt, a 12-byte IV and a cipher output recovers exactly those three |
| FileCrypto.FrameUnframe | src/FileCrypto.jsx:60-63 | every file of at least 28 bytes is the blob of its own three slices |
| FileCrypto.StripPrefix | src/FileCrypto.jsx:73 | `replace(/^p/, '')` removes one leading p when present and otherwise leaves the name unchanged |
| FileCrypto.StripSuffix | src/FileCrypto.jsx:73 | `replace(/p$/, '')` removes one trailing p when present and otherwise leaves the name unchanged |
| FileCrypto.StripsOnce | src/FileCrypto.jsx:73 | a doubled `encrypted_` prefix or `.enc` suffix loses only one copy |
| FileCrypto.UnmarkedName | src/FileCrypto.jsx:73-75 | a name with neither marker is only prefixed with `decrypted_` |
| FileCrypto.NameRoundTrip | src/FileCrypto.jsx:58-75 | the decrypted name of `encrypted_<name>.enc` is `decrypted_<name>` for every name |
| FileCrypto.EncryptFile | src/FileCrypto.jsx:46-58 | encryption downloads `encrypted_<name>.enc`; reading its blob back gives the salt, the IV, and the content encrypted under the key derived from password and salt |
| FileCrypto.DecryptFile | src/FileCrypto.jsx:59-79 | decryption fails exactly when AES-GCM rejects under the key derived from the password and the file's salt; otherwise it downloads the plaintext as `decrypted_<stem>` |
| FileCrypto.Process | src/FileCrypto.jsx:36-82 | processing is refused exactly when the file is missing or the password is empty; a download is named by the direction's rule |
| FileCrypto.SameKeyAndIv | src/FileCrypto.jsx:47-68 | decrypting an encrypted file with the same password derives the same key, and uses the same IV and cipher output as the encryption |
| FileCrypto.FileRoundTrip | src/FileCrypto.jsx:36-82 | if AES-GCM decrypts what it encrypted, then encrypting a file and decrypting the download with the same password gives back its bytes, named `decrypted_<name>` |

## Left out

- Non-ASCII `toUpperCase`: upper-casing folds only `a`-`z`. Characters whose
  upper case is longer, such as `ß`, are not modelled.
- Key parsing: `split(",").map(Number)` and `parseInt` are not modelled.
  - Keys arrive parsed.
  - For Affine, a NaN or missing component is `None`.
  - A NaN inside a Hill key has no counterpart in `seq<int>`.
- Negative Enigma start positions: the position is a `nat`. For a negative
  `pos`, `(c + pos) % 26` can be negative in JS, and the rotor lookup reads
  outside the table.
- `src/App.jsx` is not part of this model. It holds the cipher dispatcher and
  the UI hint for a 2×2 Hill key, which the 3×3 code refuses.
- React state and rendering are not modelled: the `isProcessing` flag, drag
  and drop, and `downloadFile`. A download is the `Download` outcome.
- Alert texts and `console.error` are not modelled. They become the `Refused`
  and `Failed` outcomes.
- PBKDF2 internals are not modelled: SHA-256, 100000 iterations, the 256-bit
  AES-GCM key, and the `["encrypt"]` / `["decrypt"]` key usages. Key
  derivation is an arbitrary deterministic function of password and salt.
  The two keys are taken to hold the same key material.
- AES-GCM is not modelled. Encryption and decryption are arbitrary functions.
  Only `FileCrypto.FileRoundTrip` assumes AES-GCM's correctness, as a
  hypothesis.
- `getRandomValues`: the salt and IV are arguments of the encrypting branch.
- FileCrypto.EncryptFile: always produces a download. A failure of
  `file.arrayBuffer()` (`src/FileCrypto.jsx:44`) or of the encryption call
  would end in the failure alert, and is not modelled.
- FileCrypto.DecryptFile: fails only when AES-GCM rejects. A failure of
  `file.arrayBuffer()` (`src/FileCrypto.jsx:44`), which precedes both
  branches, would also end in the failure alert, and is not modelled.
- Affine.AffineRoundTrip: holds over unbounded integers. JavaScript numbers
  are IEEE doubles, so once `a * x` (`src/cryptoUtils.js:31`) or
  `a * x + b` and `aInv * (x - b)` (`src/cryptoUtils.js:46`) pass 2^53 the
  products round. For such huge keys the source's round trip can fail.
- Hill.HillRoundTrip: holds over unbounded integers. The determinant
  (`src/cryptoUtils.js:117-119`) and the block products
  (`src/cryptoUtils.js:166-168`) are doubles in the source and round above
  2^53, so for huge key entries the source's round trip can fail.
- Enigma.AdvanceIsMod: holds over unbounded integers. The source's
  `pos = (pos + 1) % 26` (`src/cryptoUtils.js:184`) is double arithmetic, so
  for a position at or above 2^53 `pos + 1` rounds and the first step can
  land elsewhere than `(pos + 1) % 26`.
- Enigma.EnigmaAt: states the positions for every start position. For a
  start position at or above 2^53, which `parseInt` at
  `src/cryptoUtils.js:178` can return, the source's first position can
  differ from the model's because `pos + 1` rounds.
- Enigma.EnigmaKeyWraps: start position k behaves like `k % 26` only below
  2^53 in the source. For k = 2^53 the source's `pos + 1` rounds back to k,
  so its first position is 6 where the model's is 7.
