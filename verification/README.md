# ChromiumPass credential pipeline in Dafny

ChromiumPass is a macOS app that reads the passwords a Chromium-based browser
(Chrome, Brave, Opera, or a custom profile) stores in its `Login Data` SQLite
file. The app:

- takes the browser's "safe storage" secret from the Keychain, or a key typed in
  for a custom profile;
- derives an AES-128 key with PBKDF2-HMAC-SHA1 (salt `saltysalt`, 1003 rounds,
  16 bytes);
- strips the 3-byte version marker from each `password_value` blob;
- decrypts the rest with AES-CBC and PKCS#7 padding under an IV of sixteen
  spaces;
- lists the credentials that decode as UTF-8, with a search filter, a
  one-at-a-time password reveal and a CSV export.

This project models that core as pure functions and small methods, and proves
what it does.

| file | module | models |
|---|---|---|
| `wrappers.dfy` | `Wrappers` | Swift optionals as `Option` |
| `bytes.dfy` | `Bytes` | `Data` as a byte sequence: zero-filled buffers, prefix writes, `dropFirst` |
| `utf8.dfy` | `Utf8` | `String.data(using: .utf8)` and `String(bytes:encoding: .utf8)`, strict RFC 3629 |
| `hex.dfy` | `Hex` | the `Data+Hex` printer and regex parser |
| `common_crypto.dfy` | `CommonCrypto` | the CommonCrypto constants, `CCCrypt` buffer rules, the cipher and PBKDF2 as function values |
| `aes.dfy` | `AES` | the `AES` struct: failable init, `crypt`, `encrypt`, `decrypt` |
| `crypto_utils.dfy` | `CryptoUtils` | Chromium's key derivation, IV and `decrypt` |
| `sqlite.dfy` | `SQLite` | `DBValue`, column classification, `execute(querySql:)` over an abstract statement |
| `strings.dfy` | `Strings` | `contains`, `joined(separator:)`, and a splitter used to read joined text back |
| `content_view.dfy` | `ContentView` | the `decrypt()` loop, `filteredItems`, the reveal map |
| `csv_export.dfy` | `CsvExport` | the text `generateCSV` writes |

CommonCrypto, the SQLite engine and the Keychain are not modelled. They enter
as parameters:

- a `Cipher` (AES-CBC with PKCS#7 padding as a function of operation, key, IV
  and input);
- a `Pbkdf` (PBKDF2, section 5.2 of RFC 8018, as a function of PRF, password,
  salt, rounds and length);
- a `Database` (query text to an optional prepared statement, which is a
  column count and the sequence of `sqlite3_step` results);
- a keychain lookup (`string -> Option<string>`).

Two properties of the cipher are ghost predicates that only the lemmas needing
them require:

- `PaddingBound`: a successful output is at most one block longer than its
  input.
- `Inverts`: decryption undoes encryption under the same key and IV.

## Model

| member | source | states |
|---|---|---|
| Bytes.Zeros | ChromiumPass/AES.swift:50 | `Data(count:)`, like `Data(repeating: 0, count:)` for the derived key, is a buffer of exactly the requested length holding only zero bytes |
| Bytes.DropFirst | ChromiumPass/ContentView.swift:190 | `dropFirst(3)` keeps the bytes after the first three, in order; the result is empty when the blob has three bytes or fewer |
| Bytes.DropFirstAfterPrefix | ChromiumPass/ContentView.swift:190 | dropping a marker of k bytes gives back exactly the bytes that followed it |
| Utf8.DecodeEncode | ChromiumPass/AES.swift:38-45 | decoding the UTF-8 bytes of any string gives that string back |
| Utf8.EncodeDecode | ChromiumPass/AES.swift:42-45 | bytes that `String(bytes:encoding: .utf8)` accepts are exactly the UTF-8 encoding of the string it returns |
| Utf8.EncodeAscii | ChromiumPass/CryptoUtils.swift:15 | an ASCII string encodes to one byte per character, that character's code |
| Utf8.Encode | ChromiumPass/AES.swift:39 | `data(using: .utf8)` takes one to four bytes per character; Utf8.DecodeEncode shows it loses nothing |
| Utf8.Decode | ChromiumPass/AES.swift:44 | `String(bytes:encoding: .utf8)` yields at most one character per byte, and nil unless every byte belongs to a well-formed sequence; Utf8.EncodeDecode shows an accepted input is the encoding of the result |
| Hex.DigitChar | ChromiumPass/Data+Hex.swift:24 | the digit written for a value below 16 is a lower-case hex digit that parses back to the value |
| Hex.ByteHex | ChromiumPass/Data+Hex.swift:24 | `String(b, radix: 16)` is one digit for bytes below 0x10 and two otherwise, lower case, with no leading zero, and denotes b |
| Hex.ToHex | ChromiumPass/Data+Hex.swift:23-25 | `hex` writes only lower-case hex digits |
| Hex.ToHexLength | ChromiumPass/Data+Hex.swift:23-25 | `hex` has one character per byte plus one per byte at or above 0x10, so it is between n and 2n long and empty only for no bytes |
| Hex.Parse | ChromiumPass/Data+Hex.swift:11-20 | `Data(from:)` yields at most one byte per two characters |
| Hex.ParseDigits | ChromiumPass/Data+Hex.swift:11-20 | on a run of digits, the pairs are taken from the left, each pair gives one byte, and a lone last digit is dropped |
| Hex.ParseSeparated | ChromiumPass/Data+Hex.swift:11-20 | a character that is not a hex digit splits the input: both sides parse independently and their bytes are concatenated |
| Hex.ParseIgnoresCase | ChromiumPass/Data+Hex.swift:11 | the pattern `[0-9a-fA-F]` makes parsing blind to letter case |
| Hex.ParseUpperAndLower | ChromiumPass/Data+Hex.swift:11-18 | "AB" and "ab" both parse to the byte 0xAB |
| Hex.ParseToHex | ChromiumPass/Data+Hex.swift:14-25 | the parser inverts the printer on byte strings whose bytes are all at least 0x10 |
| Hex.ShortByteNarrows | ChromiumPass/Data+Hex.swift:23-25 | as soon as one byte is below 0x10, fewer than all the bytes are printed with two digits |
| Hex.RoundTripOnlyIfWide | ChromiumPass/Data+Hex.swift:14-25 | parsing the printed text gives the data back if and only if every byte is at least 0x10 |
| Hex.ParseToHexLosesShortBytes | ChromiumPass/Data+Hex.swift:23-25 | [0x01, 0x23] prints as "123", which parses to [0x12] |
| Hex.ByteHexPadded | ChromiumPass/Data+Hex.swift:24 | the zero-padded rendering is always two digits denoting the byte |
| Hex.ToHexPadded | ChromiumPass/Data+Hex.swift:23-25 | the padded printer writes exactly two characters per byte |
| Hex.ParseToHexPadded | ChromiumPass/Data+Hex.swift:14-25 | with zero padding the parser inverts the printer on every byte string |
| CommonCrypto.CCCrypt | ChromiumPass/AES.swift:54-67 | `CCCrypt` succeeds exactly when the cipher succeeds and its actual output fits the buffer, and then reports the cipher's output; CommonCrypto refuses on its up-front estimate instead, and the two agree on every buffer `crypt` allocates |
| AES.Init | ChromiumPass/AES.swift:20-33 | the initialiser succeeds exactly for a 16- or 32-byte key and a 16-byte IV, and keeps both unchanged |
| AES.OutputCapacity | ChromiumPass/AES.swift:49 | with a valid key, `cryptLength` leaves room for at least one block more than the input |
| AES.Crypt | ChromiumPass/AES.swift:47-71 | nil input gives nil; otherwise the result is non-nil exactly when `CCCrypt` reports success within the buffer, and it is the bytes moved |
| AES.CapacitySuffices | ChromiumPass/AES.swift:47-71 | with a valid key and a padding cipher, `crypt` fails exactly when the cipher fails, so the buffer size never causes a failure |
| AES.Encrypt | ChromiumPass/AES.swift:38-40 | `encrypt` is the cipher's output on the string's UTF-8 bytes, and it is nil exactly when the cipher fails or its output does not fit |
| AES.Decrypt | ChromiumPass/AES.swift:42-45 | `decrypt` is non-nil exactly when `crypt` succeeds and its bytes are well-formed UTF-8, and the string re-encodes to those bytes |
| AES.DecryptEncrypt | ChromiumPass/AES.swift:38-45 | with an inverting cipher, `decrypt(encrypt(s)) == s` for every string and valid context |
| CryptoUtils.Repeat | ChromiumPass/CryptoUtils.swift:15 | `String(repeating:count:)` has the given length and holds only the given character |
| CryptoUtils.ChromiumIv | ChromiumPass/CryptoUtils.swift:15 | the IV is one block of sixteen 0x20 bytes |
| CryptoUtils.SaltBytes | ChromiumPass/CryptoUtils.swift:20-23 | the salt is the ASCII bytes of "saltysalt" |
| CryptoUtils.Pbkdf2 | ChromiumPass/CryptoUtils.swift:32-58 | nil exactly when the derivation status is non-zero; otherwise the result is as long as `derivedKeyData`, and it is the derived bytes when they have that length |
| CryptoUtils.Pbkdf2Sha1 | ChromiumPass/CryptoUtils.swift:28-30 | PBKDF2 with HMAC-SHA1 as the PRF, with the same failure and length behaviour |
| CryptoUtils.DeriveKey | ChromiumPass/CryptoUtils.swift:20-26 | the key is PBKDF2-HMAC-SHA1 of the secret's UTF-8 bytes with salt "saltysalt", 1003 rounds and 16 bytes of output |
| CryptoUtils.ChromiumContext | ChromiumPass/CryptoUtils.swift:13-17 | a derived 16-byte key and the space IV always pass `AES.init`, so the optional chaining never yields nil |
| CryptoUtils.Decrypt | ChromiumPass/CryptoUtils.swift:13-18 | `decrypt` is AES decryption under the freshly derived key and the space IV |
| CryptoUtils.DecryptRoundTrip | ChromiumPass/CryptoUtils.swift:13-18 | what AES-CBC encrypted under the derived key and the space IV decrypts back to the plaintext |
| SQLite.Projections | ChromiumPass/SQLiteDatabase.swift:93-113 | at most one of `string` and `data` is non-nil, and the case with its projection rebuilds the value |
| SQLite.DBValue.StringValue | ChromiumPass/SQLiteDatabase.swift:97-104 | `string` is the payload of `.text`, which rebuilds the value, and nil for `.blob` |
| SQLite.DBValue.DataValue | ChromiumPass/SQLiteDatabase.swift:106-113 | `data` is the payload of `.blob`, which rebuilds the value, and nil for `.text` |
| SQLite.ValueTypeOf | ChromiumPass/SQLiteDatabase.swift:115-117 | raw values 1 to 5 and only those name a `ValueType`; 3 is text and 4 is blob |
| SQLite.ValueAt | ChromiumPass/SQLiteDatabase.swift:137-146 | a column becomes a blob exactly when its type code is SQLITE_BLOB; every other code, known or not, becomes text |
| SQLite.RowValues | ChromiumPass/SQLiteDatabase.swift:82-86 | a row holds exactly `column_count` values, column j being the classification of cell j |
| SQLite.Rows | ChromiumPass/SQLiteDatabase.swift:79-89 | one row per step, in step order, up to the first step that is not SQLITE_ROW |
| SQLite.Query | ChromiumPass/SQLiteDatabase.swift:71-74 | a query whose preparation fails yields no rows |
| SQLite.Execute | ChromiumPass/SQLiteDatabase.swift:71-90 | the step loop returns exactly the rows of `Query`: as many as the leading SQLITE_ROW steps, each `column_count` wide, each column classified |
| Strings.Contains | ChromiumPass/ContentView.swift:55-56 | `contains` holds exactly when the needle occurs at some position of the text |
| Strings.Join | ChromiumPass/ContentView.swift:210 | `joined(separator:)` starts with the first piece and is as long as the pieces plus one separator between each neighbouring pair; Strings.SplitJoin reads it back |
| Strings.SplitJoin | ChromiumPass/ContentView.swift:210 | splitting at the separator undoes `joined(separator:)` when no piece holds the separator |
| ContentView.Entries | ChromiumPass/ContentView.swift:188-194 | every entry comes from the row at its id: that row holds a blob, and the blob minus its 3-byte marker decrypts to the entry's password; url and username are the row's first two columns as text; ids strictly increase |
| ContentView.EntriesComplete | ChromiumPass/ContentView.swift:188-194 | a row gives an entry exactly when it holds blob data that decrypts, so no decryptable row is lost |
| ContentView.EntriesSnoc | ChromiumPass/ContentView.swift:188-194 | one more row appends exactly what that row yields |
| ContentView.NoBlobNoEntries | ChromiumPass/ContentView.swift:189 | with no blob data in any row, the loop yields nothing, whatever the decryptor |
| ContentView.MarkedRow | ChromiumPass/ContentView.swift:188-194 | a row whose blob is any 3-byte marker followed by decryptable data yields one entry with id 0 and that password |
| ContentView.MarkedBlobDecrypts | ChromiumPass/ContentView.swift:189-192 | end to end: a marker followed by the AES encryption of a password under the derived key yields an entry with that password |
| ContentView.Name | ChromiumPass/ContentView.swift:20-22 | a browser's name is its lower-case raw value with the first letter upper-cased and the rest unchanged |
| ContentView.SafeStorageKey | ChromiumPass/ContentView.swift:177-183 | the custom profile uses the typed key; every other browser uses the keychain item named after it |
| ContentView.Decrypt | ChromiumPass/ContentView.swift:172-199 | no keychain item or no readable store gives no items; otherwise the items are `Entries` of the logins query under the session's decryptor |
| ContentView.AppendEntries | ChromiumPass/ContentView.swift:188-194 | the loop appends exactly `Entries` of the rows |
| ContentView.RowEntry | ChromiumPass/ContentView.swift:189-193 | a row without blob data gives nothing; any other row gives its entry if its password decrypts |
| ContentView.Filter | ChromiumPass/ContentView.swift:54-58 | an entry is kept exactly when its username or url contains the search text |
| ContentView.FilteredItems | ChromiumPass/ContentView.swift:50-60 | an empty search shows every item; otherwise exactly the matching ones |
| ContentView.FilteredItemsAppend | ChromiumPass/ContentView.swift:50-60 | filtering keeps order: it distributes over concatenation |
| ContentView.FilteredItemsSingle | ChromiumPass/ContentView.swift:50-60 | a single entry survives a non-empty search exactly when it matches |
| ContentView.ToggleReveal | ChromiumPass/ContentView.swift:126-128 | after a toggle the map holds only the toggled id, with its previous state negated |
| ContentView.ResetReveal | ChromiumPass/ContentView.swift:143-145 | a change of search text hides every password |
| ContentView.ToggleShowsAtMostOne | ChromiumPass/ContentView.swift:126-128 | after a toggle no other password is shown |
| ContentView.ToggleTwice | ChromiumPass/ContentView.swift:126-128 | toggling the same entry twice restores whether it is shown |
| CsvExport.Record | ChromiumPass/ContentView.swift:207 | a record is the username, a comma, the password, a comma and the url, with nil fields written as "" |
| CsvExport.Records | ChromiumPass/ContentView.swift:207 | one record per item, in order |
| CsvExport.RecordFields | ChromiumPass/ContentView.swift:207 | a record reads back as username, password and url when no field holds a comma |
| CsvExport.CsvText | ChromiumPass/ContentView.swift:210 | the exported text starts with the heading "Passwords" |
| CsvExport.CsvHeadingGlued | ChromiumPass/ContentView.swift:204-210 | as written, the first line is the heading immediately followed by the first record |
| CsvExport.CsvHeadingGluedExample | ChromiumPass/ContentView.swift:204-210 | one entry with username "u", password "p" and url "w" exports as "Passwordsu,p,w" |
| CsvExport.CsvTextWithHeadingLine | ChromiumPass/ContentView.swift:204-210 | the corrected text starts with the heading and a line break |
| CsvExport.CsvLines | ChromiumPass/ContentView.swift:204-210 | with the line break, the lines are the heading followed by one record per item, in order |

## Left out

- The SwiftUI views, the file picker, the browser picker and its `.task` reset are left out: they are presentation, not logic.
- `Browser.path`, `loginDataPath`, and copying the store to a temporary file are left out. Which file is opened is file-system I/O; the model receives the opened store, or none, as `store`.
- Writing the CSV to the desktop is left out because it is file I/O. The model stops at the text that is written.
- `SQLiteDatabase.open` and its error messages, `sqlite3_errmsg`, and `sqlite3_finalize` are left out. Opening is the `store` parameter, and preparation failure is `Database.prepare` returning none.
- `KeychainHelper.read` is a parameter. KeychainHelper.swift is not part of this model.
- The AES, HMAC-SHA1 and PBKDF2 algorithms are function-valued parameters. Only the app's use of them is modelled: buffer sizes, status handling, key and IV checks, salt, rounds and key length.
- `debugPrint` and `print` diagnostics are left out, because they have no effect on results.
- `pbkdf2`'s nil `baseAddress` guards, which return kCCMemoryFailure (-4302), are not modelled. The model treats both buffers as present, and the derivation's status covers failure.
- The `!` after `data(using: .utf8)` on the IV, the salt and the password never traps, because UTF-8 encoding of a Swift string always succeeds. The model encodes directly.
- CryptoUtils.Decrypt: the `!` on the derived key is a precondition (`KeyDerivable`). ContentView.Decrypt requires it only when some row actually reaches decryption. The trap itself is not modelled.
- ContentView.Entries: `row[2]` is a precondition (`RowsIndexable`) rather than a trap. The logins query has three columns, and `execute` makes every row exactly that wide.
- Hex.Parse works on characters, not on Swift's grapheme clusters. `Range(_:in:)` gives nil for a match whose end falls inside a cluster, as in "ab" followed by the combining acute accent U+0301, and `compactMap` then drops that pair. The model keeps it, so it yields [0xAB] where the app yields no bytes. Combining marks after hex digits are not modelled.
- Hex.ParseSeparated: for the same reason, the split it states does not hold in the app when the separating character is a combining mark that joins the digit before it.
- Strings.Contains is plain code-point substring search. Swift's `contains` on `String` compares by canonical equivalence, and the model does not include Unicode normalisation.
- Utf8.Decode rejects any ill-formed input and has no byte-order-mark handling, as strict UTF-8 requires. What Foundation does with a leading BOM is not modelled.
- Integer widths are not modelled: `rounds` becomes `UInt32`, which the model states as a precondition below 2^32, and the counts are `Int`. No value in the app comes near those limits.
- The key is derived again for every row, because `CryptoUtils.decrypt` derives it on each call. The model follows the code; `SessionDecryptor` fixes the secret for the run, not the key.
- A blob of one to three bytes is not skipped. `dropFirst(3)` leaves it empty and the empty data is still handed to `decrypt`. The model follows the code, and such a row yields an entry only if the cipher accepts empty input. A zero-length blob is different: `sqlite3_column_blob` returns a NULL pointer for it, so `blob(at:)` gives nil and the row is skipped. The model represents that cell as `Cell.blob == None`.
- CommonCrypto.CCCrypt decides kCCBufferTooSmall from the actual output length. CommonCrypto decides it before running the cipher, from `CCCryptorGetOutputLength(cryptor, dataInLength, true)`, so a 32-byte ciphertext with a 15-byte plaintext is refused by CommonCrypto with a 20-byte buffer and accepted by the model. The app's buffer is always the input length plus the key length, at least one block more than the input, and both rules accept it.

## Findings

| source | as written | input that shows it | evidently intended | confidence | as-written member | corrected member |
|---|---|---|---|---|---|---|
| ChromiumPass/Data+Hex.swift:23-25 | `String($0, radix: 16)` writes bytes below 0x10 as one digit, so `hex` is not readable by `Data(from:)` | [0x01, 0x23] prints "123", which parses to [0x12] | every byte written as two digits (`%02x`), so that parsing the printed text gives the data back | high, not executed | Hex.RoundTripOnlyIfWide, Hex.ParseToHexLosesShortBytes | Hex.ParseToHexPadded |
| ChromiumPass/ContentView.swift:204-210 | `heading + rows.joined(separator: "\n")` puts no line break after the heading | one entry with username "u", password "p" and url "w" exports as "Passwordsu,p,w" | a heading line of its own, then one line per entry | high, not executed | CsvExport.CsvHeadingGluedExample | CsvExport.CsvLines |
