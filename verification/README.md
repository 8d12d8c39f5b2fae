# NadSafe, modelled and proved in Dafny

The project models the parts of the NadSafe password manager whose correctness is not visible from
one function: the CSV export and import of the vault, the PIN-protected service worker of the
browser extension, the password generators, the codecs shared by the Rust and TypeScript
clients, the database pool, the sharing of keys between browser tabs, the mail sanitizer and the
refresh of single sign-on sessions.

`dafny verify dfyconfig.toml` checks everything. Each module begins with a note on what it models.

| file | contents |
|---|---|
| `Csv.dfy`, `VaultCsv.dfy` | formula guard, CSV printer and parser, the whole-vault round trip |
| `VaultSpec.dfy`, `PinVault.dfy` | what the extension's worker shows its callers; the worker itself with its sealed boxes, proved against it |
| `Shuffle.dfy`, `PasswordGen.dfy` | rejection sampling, Fisher-Yates, the two generators |
| `Strings.dfy`, `Bytes.dfy` | white space of both languages, searching, big-endian numbers |
| `Base32.dfy`, `Totp.dfy` | one-time codes in Rust and in the browser |
| `Base64.dfy`, `Utf8.dfy`, `EncString.dfy`, `Recovery.dfy` | encrypted fields, recovery phrases, key wrapping |
| `Frames.dfy` | length-prefixed websocket frames |
| `DbPool.dfy` | permits and connections under every interleaving |
| `CrossTab.dfy`, `SessionStore.dfy` | keys shared between tabs and zeroed in place |
| `MailSanitizer.dfy` | one-pass tag stripping of JSON values |
| `SsoRefresh.dfy` | chains of session refreshes |

## Where the code does less than its comments say

- The exporter's comment says any value survives export and import. A cell with a carriage return and
  no comma, double quote or line feed does not (`Csv.CarriageReturnIsLost`), nor does a login whose
  line is blank. `VaultCsv.VaultRoundTrip` gives the exact condition, both ways.
- After a browser restart the extension's session flag is absent. GET_STATUS then reports a locked
  vault, yet SET_PIN is accepted and replaces the protected items by none
  (`VaultSpec.SetPinWhileReportedLocked`, `VaultSpec.ItemLostAfterRestart`).
- The snapshot behind the PIN follows the session except after an UNLOCK with other credentials whose sync
  failed (`VaultSpec.OnlyUnsyncedUnlockLags`, with a run in `VaultSpec.SecondLoginLags`);
  `VaultSpec.PinRestoresSession` says over every run exactly when the PIN brings back the last live session.
- The two base32 decoders differ on three kinds of secrets (`Base32.DecodersDiffer`): padding followed by white
  space and U+0085, which only Rust drops, and U+FEFF, which only the web drops. `Base32.DecodersAgree` gives
  the exact condition.
- A secret of fewer than two digits decodes to no bytes. Rust computes a code from the empty key, the browser
  refuses to import it (`Totp.EmptyKeyDiffers`); `Totp.GeneratorsAgree` says exactly when both succeed.
- The TypeScript parser of encrypted fields accepts texts the Rust parser refuses
  (`EncString.TsAcceptsMore`). `EncString.RustAcceptsIff` says which: those whose type or base64 is not
  strictly written.
- A text field that begins with U+FEFF is decrypted without it, because the browser's decoder drops a byte order
  mark (`EncString.TextFieldRoundTrip`).
- A tab that asks the others for the session can be told false and yet hold the key, when `adopt` throws after
  its first step (`CrossTab.FalseYetKeyHeld`, with a run in `CrossTab.FalseWithKeyHappens`).
- A caller of the database pool that is cancelled while it waits for a connection can leave a later
  permit holder without one (`DbPool.CancelledCheckoutStarves`).

## Assumptions

- Cryptography is symbolic or a parameter. An AES-GCM box opens under the key that sealed it and no
  other, and different PINs give different keys. For AES-CBC and HMAC only `decrypt(encrypt(p)) = p` and
  the length of the tag are used; for HKDF and HMAC-SHA1 only the length of the result.
- The Unicode case mappings are parameters: on ASCII they are the usual ones, and uppercase leaves white space alone
  and produces neither white space nor `=` from anything else.
- Random numbers, clock readings and answers from the network are inputs; every statement is for all of them.
- Each handler of the extension runs as one step, and so does each event of the pool and of the tabs.
- Session storage is empty when the extension is installed or updated and when the browser restarts.
- Request nonces of the tabs are distinct, and each login or unlock installs newly allocated arrays. A listener
  that was removed and a timer that was cleared are not called; any message may arrive at any time, and
  `adopt` may throw at any of its steps.

## Model

| member | source | states |
|---|---|---|
| Csv.GuardIsReversible | clients/web/src/lib/export.ts:157-167 | the guard maps all values one-to-one onto the cells that do not start a formula; the importer's strip is its inverse, also for values already starting with apostrophes |
| Csv.GuardAddsOne | clients/web/src/lib/export.ts:157-167 | exactly the texts in which one of = + - @ tab or carriage return follows any number of apostrophes get one apostrophe more, and exactly those with at least one lose one |
| Csv.QuotedOnlyIfNeeded | clients/web/src/lib/export.ts:168-172 | a cell is quoted if and only if it holds a comma, a double quote or a line feed |
| Csv.ParseCsv | clients/web/src/lib/importers.ts:193-224 | the character loop computes the rows of the quote automaton, without blank rows |
| Csv.ScanCell | clients/web/src/lib/export.ts:166-172 | a printed cell is read back as itself whatever follows it, unless it holds an unquoted carriage return |
| Csv.ParsedCrWasQuoted | clients/web/src/lib/importers.ts:202-223 | of any document, the parser keeps at most the carriage returns that lie inside quotes |
| Csv.AnyLineEndParses | clients/web/src/lib/importers.ts:185-224 | rows ended by LF, by CRLF or by a bare CR parse alike: same cells, only blank rows missing |
| Csv.QuoteParity | clients/web/src/lib/importers.ts:202-212 | for every document the parser is inside quotes exactly after an odd number of double quotes |
| Csv.ScanKeepsContent | clients/web/src/lib/importers.ts:202-219 | for every document the cells hold its characters other than quotes, commas and line ends, all of them, in order |
| Csv.BlankIsTrimmed | clients/web/src/lib/importers.ts:224 | a row is dropped exactly if trimming leaves nothing of any of its cells |
| Csv.PrintParseRoundTrip | clients/web/src/lib/importers.ts:193-224 | printing then parsing returns the same rows if and only if no row is blank and no cell holds an unquoted carriage return |
| Csv.CarriageReturnIsLost | clients/web/src/lib/export.ts:157-172 | a cell for which the promise of the exporter's comment fails |
| VaultCsv.FillRecord | clients/web/src/lib/importers.ts:236-240 | the header loop builds the record in which a repeated header keeps its last column and missing columns are empty |
| VaultCsv.RecordLookup | clients/web/src/lib/importers.ts:236-240 | a record has exactly the headers for keys, each with the last column under it, or the empty text where the row is shorter |
| VaultCsv.HeaderIsRead | clients/web/src/lib/importers.ts:235 | a header is recognised in any letter case and with any white space around it |
| VaultCsv.CsvRecords | clients/web/src/lib/importers.ts:232-241 | one record for each row after the header, none when there is no data row, whatever the lowercase mapping |
| VaultCsv.ParseGenericCsv | clients/web/src/lib/importers.ts:118-134 | the imported items are those of the records, each value with its guard removed |
| VaultCsv.ItemReads | clients/web/src/lib/importers.ts:118-134 | every field of an item for any record: guard removed, empty as absent, email for a missing username, Untitled for a missing name |
| VaultCsv.LoginsAtPositions | clients/web/src/lib/export.ts:124-127 | the exported items are those at the positions of login items, all of them, in order |
| VaultCsv.ExportPrintsRows | clients/web/src/lib/export.ts:123-139 | the exported text is the header row and one guarded row of six cells per login, printed |
| VaultCsv.HeaderComesFirst | clients/web/src/lib/importers.ts:232-235 | whatever the items hold, the first parsed row is the header, and no carriage return reaches the data rows unquoted |
| VaultCsv.ItemUnderHeader | clients/web/src/lib/importers.ts:118-134 | under the exported header each of the six columns lands in its own field |
| VaultCsv.GuardsCancel | clients/web/src/lib/importers.ts:109-121 | guard and strip cancel in every cell of every item |
| VaultCsv.VaultRoundTrip | clients/web/src/lib/export.ts:123-172 | exporting and importing returns the items at the login positions in order with name, username, password, totp, first URI and notes, if and only if every login's line is not blank and free of unquoted carriage returns |
| VaultSpec.RunKeepsInv | clients/extension/src/background/background.js:52-69 | after every run: locked means no items, keys or token in the session; the attempt counter is below five; while the key is in memory the snapshot's items are the session's |
| VaultSpec.LockLocks | clients/extension/src/background/background.js:43-69 | after every run LOCK, an install and a restart leave no items, keys or token, report a locked vault and keep what the PIN protects; only LOCK keeps the server |
| VaultSpec.StoreStores | clients/extension/src/background/background.js:127-145 | after every run STORE_ITEMS leaves exactly the pushed items, unlocked |
| VaultSpec.SyncStores | clients/extension/src/background/background.js:257-290 | after every run SYNC is accepted exactly with key, token, an answer and no lock, and then leaves exactly the synced items |
| VaultSpec.SaveAppends | clients/extension/src/background/background.js:311-367 | after every run a saved credential is added behind the others or nothing changes |
| VaultSpec.UnlockOpens | clients/extension/src/background/background.js:230-249 | after every run UNLOCK is accepted exactly with key and token, and leaves them, the server and the synced or old items |
| VaultSpec.SetPinProtects | clients/extension/src/background/background.js:601-630 | after every run SET_PIN is accepted exactly for four or six digits without a lock, and protects the whole session with no failure counted |
| VaultSpec.WrongPinCounts | clients/extension/src/background/background.js:661-677 | after every run a wrong PIN changes only the counter and is told five minus the failures; REMOVE_PIN forgets PIN and key and nothing else |
| VaultSpec.PinInForceUnlocks | clients/extension/src/background/background.js:632-671 | the counter equals the wrong PINs since the last SET_PIN or success, and UNLOCK_PIN succeeds with exactly the PIN last set and not yet removed or wiped |
| VaultSpec.FifthFailureWipes | clients/extension/src/background/background.js:661-669 | in every run an event wipes the PIN if and only if it enters a wrong PIN after exactly four wrong ones in a row |
| VaultSpec.WipeLastsUntilSetPin | clients/extension/src/background/background.js:663-677 | once the PIN is gone no run without SET_PIN makes UNLOCK_PIN succeed |
| VaultSpec.SnapshotIsLastLive | clients/extension/src/background/background.js:564-586 | the protected items are those of the last moment of the run at which the key was in memory |
| VaultSpec.PinRestoresItems | clients/extension/src/background/background.js:632-659 | after every run the PIN in force unlocks and restores those items |
| VaultSpec.PinRestoresSession | clients/extension/src/background/background.js:632-659 | after every run the PIN in force brings back items, server, user key and token of the last live moment without an unsynced UNLOCK outstanding, and of the last live moment itself if and only if none with other credentials is |
| VaultSpec.OnlyUnsyncedUnlockLags | clients/extension/src/background/background.js:230-249 | a handler takes the snapshot out of step if and only if it is an UNLOCK with key and token whose sync fails and whose key, token or server is not the session's |
| VaultSpec.RunIsTracked | clients/extension/src/background/background.js:564-586 | along every run the snapshot, the last live session and the outstanding credentials hang together as the previous statement says |
| VaultSpec.SecondLoginLags | clients/extension/src/background/background.js:230-249 | a run that lags: the PIN brings back the first login instead of the second |
| VaultSpec.SetPinWhileReportedLocked | clients/extension/src/background/background.js:601-605 | SET_PIN is accepted in a session reported as locked if and only if the flag was never written and the PIN is well formed |
| VaultSpec.SetPinAfterRestartForgets | clients/extension/src/background/background.js:604-617 | in that case the protected items are replaced by none |
| VaultSpec.ItemLostAfterRestart | clients/extension/src/background/background.js:601-630 | a run in which a stored item is lost that way |
| PinVault.Worker.constructor | clients/extension/src/background/background.js:518-525 | empty storage is the fresh specification state |
| PinVault.Worker.GetStatus | clients/extension/src/background/background.js:103-110 | the reported lock, PIN presence and PIN length are those of the specification |
| PinVault.Worker.LockVault | clients/extension/src/background/background.js:52-69 | sets the flag and clears items, keys and token; server, PIN record, blob and counter stay |
| PinVault.Worker.ResetSession | clients/extension/src/background/background.js:43-46 | a restart empties the session; an install also writes the flag |
| PinVault.Worker.RefreshVaultBlob | clients/extension/src/background/background.js:564-586 | reseals the snapshot under the key in memory, and only when there is one, so the PIN can always open it |
| PinVault.Worker.HandleSync | clients/extension/src/background/background.js:257-290 | refuses without an unlocked session, else replaces items and snapshot |
| PinVault.Worker.HandleUnlock | clients/extension/src/background/background.js:230-249 | refuses empty credentials, else opens the session and syncs |
| PinVault.Worker.StoreItems | clients/extension/src/background/background.js:127-145 | stores pushed items, unlocks, refreshes the snapshot |
| PinVault.Worker.HandleSaveCredential | clients/extension/src/background/background.js:311-367 | appends a created item to items and snapshot |
| PinVault.Worker.HandleSetPin | clients/extension/src/background/background.js:601-630 | seals the session under the key in memory or a new one, wraps that key under the PIN and resets the counter |
| PinVault.Worker.HandleUnlockPin | clients/extension/src/background/background.js:632-671 | opening the boxes succeeds exactly for the PIN that was set and restores the bundle, or the bare list of an older build; the fifth failure removes PIN, blob and counter |
| PinVault.Worker.HandleRemovePin | clients/extension/src/background/background.js:673-677 | removes PIN, blob, counter and the key in memory |
| PinVault.Worker.Handle | clients/extension/src/background/background.js:90-220 | every message keeps the pairing of PIN, key and blob and answers like the specification |
| PinVault.Worker.Serve | clients/extension/src/background/background.js:90-220 | so does every sequence of messages: the worker with sealed boxes refines the specification without them |
| Shuffle.RandomIndex | clients/web/src/lib/password-gen.ts:37-45 | the loop returns the first accepted word modulo the bound |
| Shuffle.SamplingIsUniform | clients/web/src/lib/password-gen.ts:37-45 | every index has exactly floor(2^32/max) accepted words, and more than half of all words are accepted |
| Shuffle.ShuffleInPlace | clients/web/src/lib/password-gen.ts:81-85 | the swaps in the array compute the shuffle of the choices |
| Shuffle.SwapIsPermutation | clients/web/src/lib/password-gen.ts:84 | a swap exchanges two places and leaves the others |
| Shuffle.ShuffleKeeps | clients/web/src/lib/password-gen.ts:81-85 | a shuffle permutes, and fixes position i by the choice made for it |
| Shuffle.ShuffleIsInjective | clients/web/src/lib/password-gen.ts:81-85 | different choices give different orders of distinct items |
| Shuffle.ShuffleIsSurjective | clients/web/src/lib/password-gen.ts:81-85 | every order comes from some choices |
| Shuffle.ExactlyOneChoice | clients/web/src/lib/password-gen.ts:81-85 | every permutation comes from exactly one sequence of choices |
| Shuffle.ChoiceCount | clients/web/src/lib/password-gen.ts:82-83 | there are n! sequences of choices for n items |
| Shuffle.AllChoicesAreValid | clients/web/src/lib/password-gen.ts:82-83 | the counted sequences are exactly the ones the loop can draw |
| PasswordGen.FilterKeeps | clients/web/src/lib/password-gen.ts:33-35 | the filter keeps exactly the characters that are not ambiguous |
| PasswordGen.PoolsAre | clients/web/src/lib/password-gen.ts:27-31 | the alphabets and digits in order, and the five ambiguous characters |
| PasswordGen.SymbolsAre | clients/web/src/lib/password-gen.ts:30 | the 26 symbols |
| PasswordGen.DemandedIs | clients/web/src/lib/password-gen.ts:59-74 | the characters required are the minima of the enabled classes, negative ones counting as none |
| PasswordGen.CharsetIsAllowed | clients/web/src/lib/password-gen.ts:52-56 | the character set holds exactly the allowed characters of the enabled classes |
| PasswordGen.CharsetIsFiltered | clients/web/src/lib/password-gen.ts:52-56 | it is the enabled pools in order, filtered as a whole |
| PasswordGen.CharsetEmptyIffNoClass | clients/web/src/lib/password-gen.ts:57 | it is empty if and only if no class is enabled |
| PasswordGen.PushPicks | clients/web/src/lib/password-gen.ts:47-79 | appends for each wanted character the one its draw picks from the pool |
| PasswordGen.PushClass | crates/crypto-core/src/password_gen.rs:80-102 | an enabled class contributes its minimum of characters, drawn from its own pool one after the other; a disabled one nothing |
| PasswordGen.Fill | clients/web/src/lib/password-gen.ts:59-79 | the buffer is what the draws 0, 1, 2, ... pick from the four class pools and then from the whole set |
| PasswordGen.DrawnAt | clients/web/src/lib/password-gen.ts:59-79 | character i of the buffer is picked by draw i out of the pool whose turn it is |
| PasswordGen.DrawnMeets | clients/web/src/lib/password-gen.ts:59-79 | whatever is drawn, only allowed characters and every minimum met |
| PasswordGen.PermutedMeets | clients/web/src/lib/password-gen.ts:81-87 | the requirements survive any permutation |
| PasswordGen.ShuffleString | clients/web/src/lib/password-gen.ts:81-87 | the shuffle of the string by the source's choices, with the same characters |
| PasswordGen.GeneratePassword | clients/web/src/lib/password-gen.ts:51-88 | fails only without a class; else the Fisher-Yates shuffle, by the next draws, of the drawn buffer: only allowed characters, every minimum met, length the larger of the wanted length and the sum of enabled minima |
| PasswordGen.GeneratePasswordRust | crates/crypto-core/src/password_gen.rs:52-125 | when it fails, with which error, and otherwise the shuffled buffer at the exact wanted length with every minimum met |
| Base32.IndexIsPosition | crates/crypto-core/src/totp.rs:51-66 | a digit's value is its position in the alphabet |
| Base32.DecodedValue | crates/crypto-core/src/totp.rs:53-74 | the floor(5n/8) decoded bytes denote the base-32 value without its last 5n mod 8 bits |
| Base32.DecodedIsUnique | crates/crypto-core/src/totp.rs:53-74 | and are the only byte string of that length that does |
| Base32.Base32DecodeRust | crates/crypto-core/src/totp.rs:42-77 | the u32 accumulator loop with its wrap-around computes those bytes or refuses, for every text |
| Base32.Base32DecodeWeb | clients/web/src/lib/totp.ts:8-26 | so does the signed 32-bit loop on the web's normalisation |
| Base32.RustTrimsWeb | crates/crypto-core/src/totp.rs:45-50 | what Rust decodes is the web's text with trailing padding removed, unless it holds one of the two characters only one language takes for white space |
| Base32.DecodersAgree | clients/web/src/lib/totp.ts:8-26 | the two answers are equal if and only if the secret is of none of three kinds: U+FEFF in what the web accepts, U+0085 or padding before white space in what Rust accepts; where both accept, the bytes are equal |
| Base32.DecodersDiffer | clients/web/src/lib/totp.ts:10 | from every text of digits, a secret of each kind that decodes to that text's bytes on one side only |
| Base32.AnySpellingDecodes | crates/crypto-core/src/totp.rs:43-50 | a secret in groups, in either letter case and with any padding at the end is decoded by both to the bytes of its digits |
| Totp.CountersAgree | clients/web/src/lib/totp.ts:34-40 | the two HMAC messages are equal if and only if the counter is below 2^32 |
| Totp.Offset | crates/crypto-core/src/totp.rs:31-37 | the truncation never reads past the 20 bytes |
| Totp.CodesAgree | clients/web/src/lib/totp.ts:51-57 | shifts in signed 32-bit integers give the big-endian reading of Rust, below 10^6 |
| Totp.TruncatedCode | crates/crypto-core/src/totp.rs:31-40 | both codes are the four bytes at the offset in the low half of byte 19, without the top bit, modulo a million |
| Totp.SampleCode | crates/crypto-core/src/totp.rs:26-40 | 872921 for the sample of section 5.4 of RFC 4226 |
| Totp.PaddedCode | crates/crypto-core/src/totp.rs:18-23 | the padded text is six digits that denote the code |
| Totp.GeneratorsAgree | clients/web/src/lib/totp.ts:29-60 | both generators succeed if and only if at least two digits and nothing else are left of the secret and no U+FEFF was dropped; below counter 2^32 both then return six digits denoting the truncation of the MAC of timestamp / 30 in eight bytes |
| Totp.EmptyKeyDiffers | clients/web/src/lib/totp.ts:42-48 | secrets without a whole byte, for which Rust returns a code and the web refuses the key |
| Base64.StrictInverse | crates/crypto-core/src/enc_string.rs:95-97 | the strict decoder accepts exactly the encodings and inverts them |
| Base64.SextetIsPosition | crates/crypto-core/src/enc_string.rs:95-97 | a character stands for its position in the alphabet, both ways |
| Base64.QuadDenotes | clients/extension/src/lib/vault-crypto.ts:49-56 | four sextets denote the same number as three bytes |
| Base64.EncodeGroups | clients/extension/src/lib/vault-crypto.ts:49-56 | three bytes at a time, the rest filled up with zeros and padded |
| Base64.SampleEncodings | clients/extension/src/lib/vault-crypto.ts:49-56 | samples of section 10 of RFC 4648 |
| Base64.ForgivingReadsBack | clients/extension/src/lib/vault-crypto.ts:42-56 | the browser's decoder inverts the encoder too |
| Base64.ForgivingExtendsStrict | clients/extension/src/lib/vault-crypto.ts:42-47 | it agrees with the strict decoder wherever that one accepts |
| Base64.ForgivingAccepts | clients/extension/src/lib/vault-crypto.ts:42-47 | atob ignores ASCII white space and padding of whole groups, and accepts of the rest exactly alphabet texts whose length is not 4k + 1 |
| Base64.LooseGroups | clients/extension/src/lib/vault-crypto.ts:42-47 | four sextets are three bytes |
| Base64.LooseTails | clients/extension/src/lib/vault-crypto.ts:42-47 | two or three left over give one or two bytes, whatever their spare bits |
| Base64.UnpaddedReadsBack | clients/extension/src/lib/vault-crypto.ts:42-47 | an encoding without its padding decodes to the same bytes |
| EncString.ParseIntExtendsU8 | clients/extension/src/lib/vault-crypto.ts:75-76 | parseInt reads every type text Rust reads as the same number |
| EncString.U8Reads | crates/crypto-core/src/enc_string.rs:80-82 | Rust reads decimal digits below 256 with an optional plus sign and nothing else |
| EncString.ParseIntReadsDecimal | clients/extension/src/lib/vault-crypto.ts:75 | parseInt skips white space, takes a sign and ignores what follows the digits |
| EncString.ParseIntReadsHex | clients/extension/src/lib/vault-crypto.ts:75 | after 0x it reads hexadecimal |
| EncString.PrintParse | crates/crypto-core/src/enc_string.rs:75-131 | both parsers recover exactly the printed fields |
| EncString.FieldsInOrder | crates/crypto-core/src/enc_string.rs:75-131 | the text is 2, dot, iv, bar, ciphertext, bar, MAC; both parsers take the parts in that order and refuse other lengths of iv and MAC |
| EncString.WhyRustRefuses | crates/crypto-core/src/enc_string.rs:75-93 | which texts fail for the missing dot, the type, or fewer than two bars |
| EncString.WhyTsRefuses | clients/extension/src/lib/vault-crypto.ts:72-80 | the same for TypeScript, where the bars must be exactly two |
| EncString.TsExtendsRust | clients/extension/src/lib/vault-crypto.ts:72-87 | every text Rust accepts, TypeScript parses to the same fields |
| EncString.StrictIffCanonical | crates/crypto-core/src/enc_string.rs:95-97 | the strict decoder accepts exactly the texts that are the encoding of what the browser decodes them to |
| EncString.RustAcceptsIff | crates/crypto-core/src/enc_string.rs:75-131 | Rust accepts a text if and only if TypeScript does, its type is a plain decimal number and its three parts are canonical base64; the fields are then the same |
| EncString.TsAcceptsMore | clients/extension/src/lib/vault-crypto.ts:75-76 | for every value a text only TypeScript accepts |
| EncString.ParsePrintParse | crates/crypto-core/src/enc_string.rs:75-131 | parse, print, parse is parse, for both parsers and every text |
| EncString.ConstantTimeEqual | clients/extension/src/lib/vault-crypto.ts:65-70 | the fold of all differences is zero if and only if the strings are equal |
| EncString.XorUndoes | clients/extension/src/lib/vault-crypto.ts:68 | the bitwise difference is exclusive or: applied twice it gives the first operand back |
| EncString.DecryptChecked | crates/crypto-core/src/enc_string.rs:59-72 | the MAC decides first: a mismatch is reported exactly when the tags differ, whatever the ciphertext |
| EncString.KeyHalves | crates/crypto-core/src/enc_string.rs:141-153 | the first 32 of 64 bytes encrypt, the last 32 authenticate; any other length is refused |
| EncString.FieldRoundTrip | crates/crypto-core/src/enc_string.rs:40-72 | bytes encrypted and printed are read and decrypted by either side |
| EncString.TextFieldRoundTrip | clients/extension/src/lib/vault-crypto.ts:108-129 | a text field is decrypted to the text that was encrypted if and only if that does not begin with U+FEFF, and otherwise to the text without it |
| EncString.FieldIsNull | clients/extension/src/lib/vault-crypto.ts:118-123 | only an absent or empty field is null; one that does not parse or authenticate is refused |
| Utf8.DecodeReadsBack | clients/extension/src/lib/vault-crypto.ts:28-29 | decoding inverts UTF-8 encoding for every text |
| Utf8.TextReadsBack | clients/extension/src/lib/vault-crypto.ts:28-29 | with the byte order mark dropped: exact result for every text |
| Utf8.FrontIsValid | clients/extension/src/lib/vault-crypto.ts:28-29 | for any bytes each decoded character is the one encoded there or replaces bytes at which no encoding starts |
| Utf8.ReplacedBytes | clients/extension/src/lib/vault-crypto.ts:28-29 | one replacement character stands for as many bytes as could still begin an encoding |
| Recovery.PhraseToEntropy | crates/crypto-core/src/recovery.rs:46-57 | the loop over the array fills in the bytes of the digit pairs, or refuses |
| Recovery.PhraseDenotes | crates/crypto-core/src/recovery.rs:44-57 | a phrase denotes an entropy if and only if its characters without white space, in lowercase, are its digits |
| Recovery.PrintedPhrase | crates/crypto-core/src/recovery.rs:35-42 | the printed phrase parses back and is eight groups of eight digits separated by spaces |
| Recovery.WrapUnwrap | crates/crypto-core/src/keys.rs:57-73 | what a secret wrapped, the same secret unwraps |
| Recovery.WhyUnwrapFails | crates/crypto-core/src/recovery.rs:81-92 | with the right digits it fails exactly on the MAC, the decryption or the length of the key |
| Recovery.WrongPhrase | crates/crypto-core/src/recovery.rs:44-57 | a phrase that shows no entropy is refused |
| Recovery.RecoveryRoundTrip | crates/crypto-core/src/recovery.rs:72-92 | any phrase showing the entropy's digits recovers the user key from the stored text |
| Frames.Serialize | server/src/api/notifications.rs:259-288 | the loop terminates with the length prefix before the payload |
| Frames.PrefixReadsBack | server/src/api/notifications.rs:265-284 | a prefix reads back as its length whatever follows, so none begins another |
| Frames.PrefixIsMinimal | server/src/api/notifications.rs:265-284 | the prefix is the only byte string without a superfluous group that reads as the length |
| Frames.SamplePrefix | server/src/api/notifications.rs:265-284 | the two bytes of 300 |
| Frames.FramesReadBack | server/src/api/notifications.rs:259-288 | a concatenation of frames reads back as exactly the list of payloads |
| DbPool.RunKeepsInv | server/src/db/mod.rs:149-168 | after every interleaving permits are conserved and every connection out of the pool is accounted for |
| DbPool.OneCall | server/src/db/mod.rs:149-252 | a call takes its permit, then its connection, and returns the connection and then the permit; nothing else changes |
| DbPool.CancelledCall | server/src/db/mod.rs:235-252 | a cancelled call gives its permit back at once and its connection later |
| DbPool.EverythingComesBack | server/src/db/mod.rs:149-168 | from every reachable state the callers can finish, and then all permits and connections are back |
| DbPool.PermitGuaranteesConnection | server/src/db/mod.rs:210-252 | without cancellation, connections out <= permits held <= max_conns, and whoever holds a permit without a connection finds one free |
| DbPool.OnlyStraysExhaust | server/src/db/mod.rs:235-252 | with cancellation, a permit holder finds a connection if and only if fewer are checked out for nobody than there are permits free, waiting or about to be released |
| DbPool.CancelledCheckoutStarves | server/src/db/mod.rs:244-247 | a run in which that happens |
| DbPool.OrderMatters | server/src/db/mod.rs:156-166 | releasing the permit before the connection would break the guarantee |
| CrossTab.StepKeepsSound | clients/web/src/lib/cross-tab-session.ts:45-65 | no step makes two tabs share a key array, whether adopting completes or throws on the way |
| CrossTab.OtherTabsKeepTheirKey | clients/web/src/stores/session.ts:27-34 | zeroing, installing or adopting in one tab leaves the key of every other tab as it was |
| CrossTab.KeysWereInstalled | clients/web/src/lib/cross-tab-session.ts:45-84 | in every run each key held or in flight is one that a login or unlock of the run installed |
| CrossTab.LockWipes | clients/web/src/stores/session.ts:27-34 | locking and logging out leave no key, RSA key or token, nothing to share, and zeros of the same length in the arrays |
| CrossTab.LoginActs | clients/web/src/stores/session.ts:11-21 | after a login the tab holds its key and acts with its token |
| CrossTab.RespondAnswers | clients/web/src/lib/cross-tab-session.ts:45-84 | a tab answers exactly requests, exactly while it has a key and a token and is not locked, with its own session |
| CrossTab.SessionIsShared | clients/web/src/lib/cross-tab-session.ts:58-114 | a tab that asks an unlocked one ends up with its key, RSA key, token and client, and is told true |
| CrossTab.ResolvesOnce | clients/web/src/lib/cross-tab-session.ts:97-111 | in every run the promise of a request is resolved exactly once if its flag is set and not at all before; until then listener and timer are in place, and the timer resolves it |
| CrossTab.AdoptsOwnResponse | clients/web/src/lib/cross-tab-session.ts:105-108 | in every run adopt runs only for a posted response with the request's own nonce, at most once, never after the promise was settled, and the promise is true if and only if it completed |
| CrossTab.RunIsOrderly | clients/web/src/lib/cross-tab-session.ts:90-114 | along every run flag, timer, listener and the log of effects stay consistent |
| CrossTab.FalseWithKey | clients/web/src/lib/cross-tab-session.ts:59-65 | a request settled with false gave its tab new key arrays if and only if adopt threw after copying; they hold the response's key, and token and lock changed only if the last step threw |
| CrossTab.FalseYetKeyHeld | clients/web/src/lib/cross-tab-session.ts:105-109 | over every run: the tab then keeps that key until an event concerns it |
| CrossTab.FalseWithKeyHappens | clients/web/src/lib/cross-tab-session.ts:107 | a run in which that happens |
| CrossTab.FlagDoesNotGuardAdopt | clients/web/src/lib/cross-tab-session.ts:97-107 | the flag alone would let a late response install its key; removing the listener prevents it |
| SessionStore.Store.SetSessionUserKey | clients/web/src/stores/session.ts:11-13 | the store refers to the given arrays |
| SessionStore.Store.ClearSessionKey | clients/web/src/stores/session.ts:27-34 | both arrays are zero afterwards and forgotten, and so is the RSA key |
| SessionStore.Store.LockVault | clients/web/src/stores/lock.ts:17-21 | also no items and no token are left, the tab is locked and shares nothing |
| SessionStore.Store.CurrentPayload | clients/web/src/lib/cross-tab-session.ts:45-56 | null exactly without a key, when locked or without a token; else new arrays with the same contents, RSA key, token and server |
| SessionStore.Store.Adopt | clients/web/src/lib/cross-tab-session.ts:59-65 | the store refers to new arrays with the payload's contents; RSA key, API client, token and lock follow |
| SessionStore.ShareThenLock | clients/web/src/stores/lock.ts:17-21 | the tab that adopted keeps key, RSA key and token after the other one locks and is wiped |
| MailSanitizer.ReplaceAll | server/src/mail.rs:103-106 | the scan computes the one-pass removal |
| MailSanitizer.LeftmostMatchGoes | server/src/mail.rs:103-106 | the leftmost match of the expression goes, the text before it stays, and the pass continues behind it |
| MailSanitizer.StripRemovesAll | server/src/mail.rs:99-106 | one pass leaves no match |
| MailSanitizer.StripFixes | server/src/mail.rs:99-106 | a string is unchanged if and only if it has no match |
| MailSanitizer.StripIsOnePass | server/src/mail.rs:103-106 | the removal is determined by the expression alone: up to the leftmost match the same text, behind it the same again, without a match the text itself |
| MailSanitizer.SanitizeData | server/src/mail.rs:100-119 | the recursion over arrays and objects computes the sanitized value: the same tree with every string leaf replaced by its removal in one pass |
| MailSanitizer.SanitizeIsOnePass | server/src/mail.rs:100-119 | a value is the sanitized one if and only if it is the same tree with exactly that at every string leaf |
| MailSanitizer.SanitizeIsClean | server/src/mail.rs:100-119 | same tree, same keys, same leaves other than strings, no match in any string, and no change if and only if there was none |
| MailSanitizer.SanitizeTwice | server/src/mail.rs:100-119 | a second pass changes nothing |
| SsoRefresh.ExpiryIsFixed | server/src/sso.rs:341-470 | redeeming fails exactly without an expiry; without a provider refresh token every chain of refreshes keeps the expiry of the provider's access token and that token |
| SsoRefresh.RefreshSucceedsIff | server/src/sso.rs:449-470 | a further refresh succeeds if and only if 300 seconds remain, the provider vouches for the token and the last claims are already valid |
| SsoRefresh.ProviderTokenFollows | server/src/sso.rs:388-445 | with a provider refresh token every chain holds the latest one and expires with it, or after 30 days if it is opaque |
| SsoRefresh.OwnSessions | server/src/auth.rs:1283-1293 | password sessions and sessions that only authenticate are renewed for two hours and 30 or 90 days, and when they are not |
| SsoRefresh.WhySsoRefuses | server/src/sso.rs:425-470 | which error a single sign-on session is refused with, and that it is renewed in every other case |
| SsoRefresh.StaleTokens | server/src/auth.rs:1251-1274 | a refresh token is unknown exactly outside its validity with 30 seconds of leeway or on another device |

## Left out

- Interleavings inside one extension handler at its awaits: the statements are about handlers that run one at a time.
- After a wipe the extension may keep its key in memory and write a blob again; without a PIN record nothing can open it, so the specification does not show it.
- Pending saves, alias services, autofill matching and the idle alarm's timing in the extension: no secret of the vault's life cycle depends on them.
- JavaScript strings are sequences of characters, not of UTF-16 units; lone surrogates are not covered.
- The LastPass and 1Password mappings, format detection, KeePass XML and JSON import: easy maps over the same records, or library parsers.
- PasswordGen.GeneratePasswordRust: does not model the overflow of the sum of minima, because sizes are unbounded here.
- PasswordGen.GeneratePassword: does not cover fractional lengths and minima, which JavaScript would allow; its configuration numbers are integers.
- PinVault.Worker.StoreItems: a message without an items field is treated like one with null; whether the browser then keeps the old items is not specified, and the web app always sends a list.
- MailSanitizer.SanitizeData: returns the new value and does not model the update in place of the tree it is given; no caller keeps another reference to it.
- Base64.ForgivingReadsBack: the chunked copying of toB64 and fromB64 between strings and buffers is not modelled, only the text and the bytes.
- The API client's choice of an empty base for the page's own origin, and closing a tab while its request is open.
- DbPool.PermitGuaranteesConnection: does not cover a caller cancelled inside get, for which it is false; the failing runs are the ones with stray checkouts.
- DbPool is a state machine over the steps of its tasks; the mutex around the connection is not a separate step.
- TOTP timestamps beyond the exact integers of JavaScript numbers.
- Library code: AES, HMAC, HKDF, PBKDF2, Argon2, RSA, JSON and MessagePack encoding, the HTTP server, the database layer and the OpenID client.
- The fuzzy matcher, the user interface, the configuration table, icons, rate limiting and administration pages: they would only add easy members.
