# Habit tracker core in Dafny

This project models three parts of the habit-tracker client:

- **Goal codec.** `src/lib/supabase.js` maps a row of the remote `goals` table (snake_case columns) to an in-memory goal (camelCase fields) and back. Missing values get defaults, and encoding stamps `updated_at`.
- **Attachment envelope.** `src/utils/crypto.ts` encrypts a voice clip with AES-GCM under a fresh 12-byte IV. It turns the ciphertext and the IV into base 64 text, using two hand-written loops around the browser's `btoa` and `atob`. Decryption reverses each step.
- **Habit screen.** `src/App.jsx` holds three pieces of state: one goal contract, the history of days on which it was kept, and the current view. It changes them through a start button, a done button, five field inputs and three navigation buttons.

Files:

| file | module | contents |
|---|---|---|
| `Wrappers.dfy` | `Wrappers` | `Option` (a JavaScript `undefined`/`null` is `None`) and `Result` (a thrown exception is `Failure`) |
| `Dom.dfy` | `Dom` | the two DOMException names the cipher path can throw |
| `GoalCodec.dfy` | `GoalCodec` | `DbToGoal`, `GoalToDb` and their round-trip lemmas |
| `Base64.dfy` | `Base64` | `btoa`/`atob`: base 64 encoding with padding (RFC 4648, section 4) and the forgiving-base64 decode of the WHATWG Infra standard, with the proof that decoding inverts encoding |
| `Crypto.dfy` | `Crypto` | the byte/character loops as methods, `encryptData`, `encryptBlob`, `decryptData`, `decryptToBlob`, and the envelope round trip |
| `HabitTracker.dfy` | `HabitTracker` | the screen state as class `App`, with the pure rules it uses (initial state, today's date, `isDoneToday`, the history update) |

How the model is built:

- **Codec.** `DbToGoal` and `GoalToDb` are pure functions. JavaScript's `x || ''` on the `reward` string and `x || []` on the two log arrays are exactly `GetOr`: `''` is the only falsy string and its default is `''` again, and every array is truthy.
- **Cipher.** The AES-GCM cipher is a parameter (`Crypto.Cipher`). `Crypto.Sound` states its round trip, `dec(k, iv, enc(k, iv, p)) == Success(p)`. Every lemma that needs this property assumes it in a `requires`.
- **Random source.** `random(i)` is the i-th byte the platform's random source delivers.
- **Bytes.** A byte is an integer in `0..255`, and a byte string is a `string` whose character codes are below 256.
- **Imperative parts.** Where the source runs a loop (`arrayBufferToBase64`, `base64ToArrayBuffer`) or fills an array in place (`encryptData`'s IV), the model is a method. It is proved against the base 64 functions.
- **React state.** The state of `App.jsx` is a Dafny class whose handlers are methods with `modifies this`.

Two facts about the code shape the codec lemmas:

- Decoding drops `updated_at`, and a `reward` of `null` decodes as `''`. So the goal round trip holds exactly for goals whose three defaulted fields are present (`GoalCodec.DecodeEncode`), and the row round trip fills those defaults in (`GoalCodec.EncodeDecode`).
- `src/App.jsx:6-13` reads saved values with `JSON.parse`, which throws on a corrupt value; the model takes a load to be an `Option` of an already-parsed value (see "Left out").

## Model

| member | source | states |
|---|---|---|
| `GoalCodec.DecodeFields` | src/lib/supabase.js:9-20 | `dbToGoal` copies `id`, `title`, `reason`, `deadline` and `risk`. It renames `is_signed`, `voice_data` and `failure_logs` without changing their values. A present `reward`/`logs`/`failure_logs` is kept as it is; an absent one becomes `''`/`[]`/`[]` |
| `GoalCodec.EncodeFields` | src/lib/supabase.js:23-35 | `goalToDb` does the same renaming and defaulting the other way, is total, and sets `updated_at` to the clock reading |
| `GoalCodec.FillDefaults` | src/lib/supabase.js:29-33 | the row with `''`, `[]`, `[]` in place of absent `reward`, `logs`, `failure_logs`; present values are kept, and every other column is unchanged |
| `GoalCodec.DecodeNormalizes` | src/lib/supabase.js:9-20 | every decoded goal has `reward`, `logs` and `failureLogs` present, and `updated_at` has no influence on decoding |
| `GoalCodec.DecodeEncode` | src/lib/supabase.js:9-35 | decoding the encoding of a goal gives it back exactly when its three defaulted fields are present |
| `GoalCodec.EncodeDecode` | src/lib/supabase.js:9-35 | encoding a decoded row gives the row with defaults filled and `updated_at` replaced by the clock reading |
| `GoalCodec.NormalizeIdempotent` | src/lib/supabase.js:9-35 | a second trip through the store changes neither a decoded goal nor an encoded row (except the stamp) |
| `Base64.Encode` | src/utils/crypto.ts:164 | the `btoa` output is 4·⌈n/3⌉ characters, all from the RFC 4648 alphabet or `=`, and `=` appears exactly when n is not a multiple of 3 |
| `Base64.Decode` | src/utils/crypto.ts:173 | `atob` throws `InvalidCharacterError` exactly when the text left after whitespace and padding removal has length ≡ 1 (mod 4) or contains a character outside the alphabet |
| `Base64.RemoveWhitespace` | src/utils/crypto.ts:173 | the first step of `atob`: the result contains no ASCII whitespace, only characters of the input, and is no longer than the input |
| `Base64.RemoveWhitespaceKeeps` | src/utils/crypto.ts:173 | every character that is not ASCII whitespace occurs in the result exactly as often as in the input |
| `Base64.RemoveWhitespaceAppend` | src/utils/crypto.ts:173 | removal from a concatenation is the concatenation of the removals, so the kept characters stay in input order |
| `Base64.DecodeEncode` | src/utils/crypto.ts:158-179 | `atob(btoa(x))` gives back every byte sequence |
| `Base64.EncodeInjective` | src/utils/crypto.ts:158-165 | two byte sequences have the same base 64 text exactly when they are equal |
| `Base64.ByteChar` | src/utils/crypto.ts:162 | `String.fromCharCode` of a byte has that byte as its code |
| `Base64.Btoa` | src/utils/crypto.ts:164 | `btoa` succeeds exactly on byte strings, and then encodes their bytes |
| `Base64.Atob` | src/utils/crypto.ts:173 | `atob` succeeds exactly when the decode does, and returns the decoded bytes as a byte string |
| `Base64.AtobBtoa` | src/utils/crypto.ts:164-173 | on every byte string, `btoa` succeeds and `atob` of its result gives the string back |
| `Crypto.BinaryString` | src/utils/crypto.ts:159-163 | the string the loop builds has one character per byte, and character i has code `bytes[i]` |
| `Crypto.ArrayBufferToBase64` | src/utils/crypto.ts:158-165 | `arrayBufferToBase64` returns the base 64 encoding of the bytes (so `btoa` never throws here), of length 4·⌈n/3⌉ |
| `Crypto.CharCodes` | src/utils/crypto.ts:174-178 | the filled array has `binary.length` bytes, and byte i is `binary.charCodeAt(i)` modulo 256 |
| `Crypto.Base64ToArrayBuffer` | src/utils/crypto.ts:172-179 | `base64ToArrayBuffer` returns exactly the decode of its input, including its `InvalidCharacterError` |
| `Crypto.RandomIv` | src/utils/crypto.ts:62-63 | the IV is the first 12 random bytes |
| `Crypto.EncryptData` | src/utils/crypto.ts:56-76 | `encryptData` always yields a 12-byte IV filled from the random source, and the ciphertext of the data under that IV |
| `Crypto.DecryptEncrypt` | src/utils/crypto.ts:85-98 | `decryptData` passes the platform's result through unchanged, so for a sound cipher, decrypting with the encryption's key and IV returns the plaintext; `Crypto.OpenSeal` uses it |
| `Crypto.EncryptBlob` | src/utils/crypto.ts:107-122 | `encryptBlob` returns the envelope of the Blob's bytes under the random IV; its IV text is 16 alphabet characters with no padding |
| `Crypto.BlobType` | src/utils/crypto.ts:146 | the `type` a Blob records: empty if a character is outside U+0020..U+007E, otherwise the ASCII lower case of the given text |
| `Crypto.DecryptToBlob` | src/utils/crypto.ts:132-147 | `decryptToBlob` returns exactly the specified opening of the envelope: the first failure of the two decodes and the decryption, or the decrypted bytes with the MIME type |
| `Crypto.OpenSeal` | src/utils/crypto.ts:107-147 | envelope round trip: for a sound cipher, decrypting the envelope of bytes b with the same key and no MIME type returns b labelled `audio/webm` |
| `Crypto.OpenMimeType` | src/utils/crypto.ts:136-146 | a decrypted Blob is labelled `audio/webm` when no MIME type is given, and otherwise with the caller's type as the Blob constructor records it |
| `Crypto.OpenFailure` | src/utils/crypto.ts:139-143 | nothing on the decrypt path is caught: an invalid base 64 text gives `InvalidCharacterError`, and a failed decryption gives its own error. Bytes are returned only when all three steps succeed, and then they are the decrypted bytes |
| `Crypto.SealIv` | src/utils/crypto.ts:115-119 | the IV text of a 12-byte IV is 16 alphabet characters, and different IVs give different IV texts |
| `HabitTracker.InitialGoalData` | src/App.jsx:6-9 | the saved goal when there is one; otherwise all five text fields are `''` and `isStarted` is false |
| `HabitTracker.InitialHistory` | src/App.jsx:10-13 | the saved history when there is one, otherwise `[]` |
| `HabitTracker.InitialView` | src/App.jsx:16 | the first view is `dashboard` exactly when the goal is started, `setup` otherwise, never `history` |
| `HabitTracker.DatePart` | src/App.jsx:18 | `split('T')[0]`: a prefix of the timestamp without `'T'` that ends at its first `'T'` or at its end |
| `HabitTracker.DatePartUnique` | src/App.jsx:18 | those three properties determine the date part |
| `HabitTracker.IsDoneToday` | src/App.jsx:19 | `isDoneToday` holds exactly when some history entry has `date == today` |
| `HabitTracker.RecordDone` | src/App.jsx:35-38 | the new history records today. If today was already recorded, the history is unchanged. Otherwise it is one longer, starts with `{date: today, goal: title}`, and the old entries follow unchanged |
| `HabitTracker.RecordDoneIdempotent` | src/App.jsx:35-38 | pressing done twice on one day equals pressing it once |
| `HabitTracker.RecordDoneDistinct` | src/App.jsx:19-37 | if history dates are pairwise distinct before, they are after |
| `HabitTracker.App.constructor` | src/App.jsx:6-16 | the state starts from the saved data or the defaults, and the view follows the initial-view rule |
| `HabitTracker.App.HandleStart` | src/App.jsx:27-33 | with a non-empty title and reason, `isStarted` becomes true (other goal fields unchanged) and the view becomes `dashboard`. Otherwise nothing changes. `isStarted` is never reset |
| `HabitTracker.App.HandleDone` | src/App.jsx:35-39 | the history becomes `RecordDone` of the old one for the clock's date and the current title. Distinct dates stay distinct, and goal and view are unchanged |
| `HabitTracker.App.EditTitle` | src/App.jsx:54 | changes only `title` |
| `HabitTracker.App.EditReason` | src/App.jsx:58 | changes only `reason` |
| `HabitTracker.App.EditDeadline` | src/App.jsx:62 | changes only `deadline` |
| `HabitTracker.App.EditReward` | src/App.jsx:67 | changes only `reward` |
| `HabitTracker.App.EditRisk` | src/App.jsx:71 | changes only `risk` |
| `HabitTracker.App.Navigate` | src/App.jsx:132-134 | sets the view to the chosen one of the three and changes nothing else |

`GoalCodec.DbToGoal` (src/lib/supabase.js:9-20), `GoalCodec.GoalToDb` (src/lib/supabase.js:23-35), `Crypto.DecryptData` (src/utils/crypto.ts:85-98), `Crypto.Seal` (the composition of `encryptBlob`, src/utils/crypto.ts:115-121) and `Crypto.Open` (the composition of `decryptToBlob`, src/utils/crypto.ts:139-146) are the plain definitions the lemmas above state properties of; `Crypto.EncryptBlob` and `Crypto.DecryptToBlob` are proved equal to `Seal` and `Open`. `currentView` can only hold one of the three views because its type, `HabitTracker.View`, has exactly three values.

## Left out

- AES-GCM itself (NIST SP 800-38D) is not modelled. The cipher is a parameter whose round trip is an assumption (`Crypto.Sound`), so tamper detection is only present as the propagation of whatever failure the cipher reports.
- IV uniqueness across calls depends on the random source, which is a parameter. The model proves only that different IVs give different IV texts.
- `Crypto.EncryptData`: the platform's `encrypt` is taken to always succeed with a 12-byte IV and a valid key; a rejection by the platform is not modelled.
- `generateEncryptionKey`, `exportKey` and `importKey` (`src/utils/crypto.ts:10-48`) are not modelled. They are WebCrypto calls plus JWK serialisation through `JSON.stringify`/`JSON.parse`.
- `async`/`await` is not modelled: promises are treated as plain sequential calls.
- `localStorage` reads and writes, `JSON.parse`/`JSON.stringify` and the saving effect (`src/App.jsx:7,11,22-25`) are not modelled. A load is an `Option` of the already-parsed value, and the exception a corrupt value raises is not modelled.
- React's batching of state updates is not modelled: each handler runs on the latest state.
- The values saved in local storage are taken to have the shape the screen writes; a saved value of any other shape is not modelled.
- The clocks (`new Date()` at `src/App.jsx:18` and `src/lib/supabase.js:34`) are parameters.
- The codec's field values are typed (`string`, `bool`, string arrays). A column holding a value of another JavaScript type, such as a falsy number in `reward`, is not modelled.
- The Supabase client construction (`src/lib/supabase.js:3-6`) is not modelled; it is a network client.
- JSX rendering (`src/App.jsx:42-137`) is not modelled. This includes the done button being disabled on a recorded day; the handler's own guard is modelled.
- `backend/main.py`, `backend/infer_rvc.py` and `vite.config.js` are not part of this model. They are audio conversion, ML inference and build configuration.
- `src/test-crypto.ts` is a console test driver. Its check at lines 43-57 is the property `Crypto.OpenSeal` states.
