# Vigenère cipher engine — a Dafny model

This project models the cipher engine of a small Java command-line program,
`src/Main.java`, and proves properties of the model. The engine is made of
four private static methods:

- `vigenereTableLookup(row, col, encrypt)`: one cell of the Vigenère table.
  It rejects anything but two upper-case letters. Otherwise it returns
  `'A' + (r + c) % 26` when encrypting and `'A' + (r - c + 26) % 26` when
  decrypting.
- `vigenerePrepareString(input)`: the normaliser. It upper-cases every
  character and keeps it only if it is then a letter.
- `vigenereEncrypt(message, key)` and `vigenereDecrypt(message, key)`:
  both normalise the message and the key. They then pair message letter `i`
  with key letter `i % |key|` through the table. Encryption passes the key
  letter as the row. Decryption passes the message letter as the row.

Modules, in dependency order:

- `Results` (`results.dfy`): `Result<T, E>`, an `Ok`/`Err` value usable with
  `:-`. It stands in for Java exceptions.
- `JavaChars` (`java_chars.dfy`): the ASCII character domain `AsciiChar`.
  It also holds ASCII versions of `Character.isLetter`, `isUpperCase` and
  `toUpperCase`, and Java's truncating integer remainder `Rem`.
- `Vigenere` (`vigenere.dfy`): the four operations as pure functions, plus
  the fault type. `Fault.IllegalArgument` is the lookup's
  `IllegalArgumentException`. `Fault.ArithmeticFault` is the
  `ArithmeticException` of `i % 0`.
- `VigenereProperties` (`properties.dfy`): lemmas relating several calls.
  They cover the lookup round trip, what the normaliser keeps, and its
  idempotence. They also relate the engine to `Shifted`, an independent
  textbook definition of the cipher by alphabet positions, and prove the
  encrypt/decrypt round trip in both directions.
- `VigenereLoops` (`loops.dfy`): the engine as the Java writes it, as index
  loops that append to a builder. Each method is proved equal to its
  functional counterpart.
- `VigenereVectors` (`vectors.dfy`): worked examples on concrete strings, among them the classic ATTACKATDAWN under LEMON.

Modelling assumptions:

- Characters are restricted to 7-bit ASCII (`AsciiChar`). On ASCII a letter
  is `A`-`Z` or `a`-`z`, and upper-casing maps `a`-`z` to `A`-`Z` and leaves
  everything else alone. The model says nothing about non-ASCII input.
- Java's `%` truncates toward zero, while Dafny's is Euclidean, so it is
  written out as `JavaChars.Rem`. Every place the source uses `%` has a
  non-negative left operand. `Rem`'s contract shows the two operators agree
  there.
- Java `int` is 32 bits. No value in the engine comes near overflow, since
  table indices stay below 52 and the loop index stays below the string
  length. So no wrap-around is modelled.
- The result of a failure is `Err(fault)`. A thrown exception ends the
  computation, so the first fault in loop order is the one reported.

A key with no letters is not rejected up front. The code only faults when
it first computes `i % 0`, which needs a non-empty normalised message. With
an empty normalised message it returns `""` for any key, and the model does
the same (`Vigenere.Encrypt`, `VigenereProperties.EmptyMessage`).

## Model

| member | source | states |
|---|---|---|
| `JavaChars.ToUpperCase` | src/Main.java:43 | upper-casing keeps letters letters and non-letters non-letters; every letter comes out upper-case; anything not lower-case is unchanged; a lower-case letter becomes the upper-case letter at the same alphabet position |
| `JavaChars.Rem` | src/Main.java:26 | Java's remainder is smaller in magnitude than the divisor and takes the dividend's sign; for a non-negative dividend and positive divisor it equals the mathematical residue |
| `Vigenere.Index` | src/Main.java:21-22 | `c - 'A'` of an upper-case letter is an alphabet position below 26 |
| `Vigenere.Letter` | src/Main.java:29 | `'A' + n` for a position below 26 is an upper-case letter whose position is `n`, so `Index` inverts it |
| `Vigenere.CipherIndex` | src/Main.java:24-26 | the table index lies in 0..25 and is the residue modulo 26 of `r + c` (encrypt) or `r - c` (decrypt); the `+ 26` is what makes Java's remainder non-negative |
| `Vigenere.TableLookup` | src/Main.java:14-30 | succeeds exactly when both characters are `A`-`Z`, and fails otherwise with the illegal-argument fault; the result is an upper-case letter at position `(r + c) mod 26` or `(r - c) mod 26` |
| `Vigenere.Prepare` | src/Main.java:39-52 | the normalised string contains only `A`-`Z` and is no longer than the input |
| `Vigenere.Step` | src/Main.java:61-86 | one loop iteration's lookup: encryption passes the key letter as row, decryption the message letter; either way it succeeds exactly on two upper-case letters, fails otherwise with the illegal-argument fault, and yields the message letter shifted by the key letter's position, forward or backward |
| `Vigenere.KeyLetter` | src/Main.java:66 | reading the key at Java's `i % key.length()` for a non-negative `i` picks the key letter at `i` modulo the key length, so the key repeats |
| `Vigenere.Stream` | src/Main.java:65-66 | the loop from iteration `i` on: on success it yields one upper-case letter per remaining message letter; a fault is the arithmetic fault exactly when the key is empty; on letter-only inputs it fails exactly when the key is empty and some iteration remains |
| `VigenereProperties.StreamCell` | src/Main.java:65-66 | on success, output letter `j` of the loop started at iteration `i` is the lookup of message letter `i + j` with key letter `(i + j)` modulo the key length, in the row/column order of the direction |
| `VigenereProperties.StreamCells` | src/Main.java:82-83 | the same, for every output letter at once |
| `Vigenere.Encrypt` | src/Main.java:61-69 | fails exactly when the normalised key is empty and the normalised message is not, and then with the arithmetic fault; otherwise returns as many upper-case letters as the normalised message has |
| `VigenereProperties.EncryptCells` | src/Main.java:65-66 | encryption output letter `i` is the encrypting lookup with row `K[i mod len(K)]` and column `M[i]`, for the normalised message `M` and key `K` |
| `Vigenere.Decrypt` | src/Main.java:78-86 | the same failure condition and fault; otherwise as many upper-case letters as the normalised message has |
| `VigenereProperties.DecryptCells` | src/Main.java:82-83 | decryption output letter `i` is the decrypting lookup with row `M[i]` and column `K[i mod len(K)]` |
| `VigenereProperties.LookupRoundTrip` | src/Main.java:24-26 | for letters `k`, `m`, decrypting `lookup(k, m, encrypt)` with column `k` gives back `m` |
| `VigenereProperties.LookupRoundTripReverse` | src/Main.java:24-26 | for letters `k`, `c`, encrypting with row `k` the result of decrypting `c` with column `k` gives back `c` |
| `VigenereProperties.PrepareConcat` | src/Main.java:42-50 | the normaliser works character by character: normalising `a + b` is normalising `a` followed by normalising `b` |
| `VigenereProperties.PrepareFixesUpperText` | src/Main.java:42-49 | a string made only of `A`-`Z` is returned unchanged |
| `VigenereProperties.PrepareIdempotent` | src/Main.java:39-52 | normalising twice equals normalising once |
| `VigenereProperties.PrepareIsSubsequence` | src/Main.java:42-50 | the output keeps input order: it is a subsequence of the upper-cased input |
| `VigenereProperties.PrepareKeepsEveryLetter` | src/Main.java:45-49 | the output has exactly as many characters as the input has letters; with the two lemmas above this pins the output down |
| `VigenereProperties.StepIsShift` | src/Main.java:24-26 | on letters, one loop step shifts the message letter by the key letter's position, forward when encrypting and backward when decrypting, although the two directions pass the key letter on opposite sides of the table |
| `VigenereProperties.StreamIsShifted` | src/Main.java:65-66 | on letter-only message and non-empty letter-only key, the loop returns the textbook Vigenère shift of the message by the cycled key, forward or backward |
| `VigenereProperties.EncryptIsVigenere` | src/Main.java:61-69 | with a non-empty normalised key, encryption is the textbook forward shift of the normalised message by the cycled normalised key |
| `VigenereProperties.DecryptIsVigenere` | src/Main.java:78-86 | with a non-empty normalised key, decryption is the textbook backward shift |
| `VigenereProperties.StreamRoundTrip` | src/Main.java:65-66 | on a letter-only message and a non-empty letter-only key, the encrypting walk succeeds and the decrypting walk over its output with the same key returns the message |
| `VigenereProperties.RoundTrip` | src/Main.java:61-86 | with a non-empty normalised key, encryption succeeds and decrypting its output with the same key returns the normalised message |
| `VigenereProperties.RoundTripReverse` | src/Main.java:61-86 | with a non-empty normalised key, decryption succeeds and encrypting its output with the same key returns the normalised input |
| `VigenereProperties.EmptyMessage` | src/Main.java:65-66 | a message with no letters encrypts and decrypts to the empty string, whatever the key |
| `VigenereProperties.AllAKeyIsIdentity` | src/Main.java:61-69 | a key whose letters are all `A` leaves the normalised message unchanged |
| `VigenereLoops.PrepareString` | src/Main.java:39-52 | the append loop with `continue` computes the normaliser |
| `VigenereLoops.EncryptLoop` | src/Main.java:61-69 | the encryption loop, with its `i % key.length()` fault, computes `Encrypt` |
| `VigenereLoops.DecryptLoop` | src/Main.java:78-86 | the decryption loop computes `Decrypt` |
| `VigenereVectors.DigitKeyFaults` | src/Main.java:63-66 | encrypting `"hello"` under the key `"123"` fails with the arithmetic fault, because the key normalises to nothing |
| `VigenereVectors.AttackAtDawn` | src/Main.java:61-86 | `"ATTACKATDAWN"` under the key `"LEMON"` encrypts to `"LXFOPVEFRNHR"`, and that decrypts back to `"ATTACKATDAWN"` |
| `VigenereVectors.AllAKeyExample` | src/Main.java:61-69 | encrypting `"hello"` under `"aaa"` gives `"HELLO"` |

## Left out

- `main` (src/Main.java:94-125) is left out. It holds the console menu, the `Scanner` input, the printing, and a key prompt that is mislabelled.
- Java's Unicode character semantics are left out. `Character.isLetter`, `isUpperCase` and `toUpperCase` are modelled only on ASCII. Over full Unicode the normaliser keeps letters outside `A`-`Z`. Some of them, such as `É`, pass the lookup's guard and give out-of-alphabet arithmetic. Others, such as letters without case, fail the guard. Neither behaviour is modelled.
- Exception types and messages are reduced to the two `Fault` values. No richer error behaviour is modelled.
- No claim of cryptographic strength is made or modelled.
