/**
 * The logic of ContentView.swift: the credential loop of `decrypt()`, the
 * search filter, and the single-open password reveal.
 */
module ContentView {
  import opened Wrappers
  import opened Bytes
  import opened CommonCrypto
  import opened SQLite
  import opened Strings
  import AES
  import CryptoUtils

  /** One recovered credential; `id` is the row's position in the query result. */
  datatype Entry = Entry(id: int, url: Option<string>, username: Option<string>, password: Option<string>)

  datatype Browser = Chrome | Brave | Opera | Custom

  /** The enum's `String` raw value: the case name, in lower case. */
  function RawValue(browser: Browser): string {
    match browser
    case Chrome => "chrome"
    case Brave => "brave"
    case Opera => "opera"
    case Custom => "custom"
  }

  /**
   * `Browser.name`, the capitalised raw value, which is also the keychain
   * account: each raw value is one lower-case word, so capitalising it
   * upper-cases its first letter and keeps the rest.
   */
  function Name(browser: Browser): (r: string)
    ensures var raw := RawValue(browser);
      |r| == |raw| > 0 &&
      'a' <= raw[0] <= 'z' && r[0] as int == raw[0] as int - 32 &&
      r[1..] == raw[1..]
  {
    match browser
    case Chrome => "Chrome"
    case Brave => "Brave"
    case Opera => "Opera"
    case Custom => "Custom"
  }

  const LoginsQuery: string := "SELECT origin_url, username_value, password_value FROM 'logins'"

  /** The length of the version marker Chromium writes before the ciphertext. */
  const MarkerLength: nat := 3

  /** Rows the loop can index: `row[2]` exists. */
  predicate RowsIndexable(rows: seq<seq<DBValue>>) {
    forall i :: 0 <= i < |rows| ==> |rows[i]| >= 3
  }

  /** Some row carries blob data, so the loop reaches `CryptoUtils.decrypt` and its key derivation. */
  predicate ReachesDecryption(rows: seq<seq<DBValue>>)
    requires RowsIndexable(rows)
  {
    exists i :: 0 <= i < |rows| && rows[i][2].DataValue().Some?
  }

  /**
   * The password a row yields: its blob without the 3-byte marker, decrypted;
   * nil when column 2 holds no blob data.
   */
  function RowPassword(decrypt: seq<byte> -> Option<string>, row: seq<DBValue>): Option<string>
    requires |row| >= 3
  {
    match row[2].DataValue()
    case None => None
    case Some(passwordData) => decrypt(DropFirst(passwordData, MarkerLength))
  }

  /** The body of the `for (i, row)` loop: an entry, or nothing for a skipped row. */
  function EntryOf(decrypt: seq<byte> -> Option<string>, i: nat, row: seq<DBValue>): seq<Entry>
    requires |row| >= 3
  {
    var decoded := RowPassword(decrypt, row);
    if decoded.None? then [] else [Entry(i, row[0].StringValue(), row[1].StringValue(), decoded)]
  }

  /**
   * The entries the loop of `decrypt()` appends for `rows`, where `decrypt` is
   * `CryptoUtils.decrypt` under the run's secret. Every entry comes from the
   * row at its id: a blob whose data, after the 3-byte marker is dropped,
   * decrypts; url and username are the row's first two columns as text. Ids
   * strictly increase, so order is kept and no row gives two entries.
   */
  function Entries(decrypt: seq<byte> -> Option<string>, rows: seq<seq<DBValue>>): (items: seq<Entry>)
    requires RowsIndexable(rows)
    ensures |items| <= |rows|
    ensures forall k :: 0 <= k < |items| ==>
              var i := items[k].id;
              && 0 <= i < |rows|
              && rows[i][2].DataValue().Some?
              && items[k].password.Some?
              && items[k] == Entry(i, rows[i][0].StringValue(), rows[i][1].StringValue(),
                                   decrypt(DropFirst(rows[i][2].DataValue().value, MarkerLength)))
    ensures forall k, l :: 0 <= k < l < |items| ==> items[k].id < items[l].id
    decreases |rows|
  {
    if rows == [] then []
    else
      var n := |rows| - 1;
      var prefix := rows[..n];
      assert forall i :: 0 <= i < n ==> prefix[i] == rows[i];
      Entries(decrypt, prefix) + EntryOf(decrypt, n, rows[n])
  }

  /** One more row appends what that row yields. */
  lemma EntriesSnoc(decrypt: seq<byte> -> Option<string>, rows: seq<seq<DBValue>>, i: nat)
    requires RowsIndexable(rows) && i < |rows|
    ensures RowsIndexable(rows[..i]) && RowsIndexable(rows[..i + 1])
    ensures Entries(decrypt, rows[..i + 1]) == Entries(decrypt, rows[..i]) + EntryOf(decrypt, i, rows[i])
  {
    assert rows[..i + 1][..i] == rows[..i];
  }

  /** The loop body under the run's secret: a blob row yields the entry of its decryption, if any. */
  lemma BlobRowStep(cipher: Cipher, kdf: Pbkdf, secret: string, i: nat, row: seq<DBValue>)
    requires |row| >= 3 && row[2].DataValue().Some? && CryptoUtils.KeyDerivable(kdf, secret)
    ensures var decoded := CryptoUtils.Decrypt(cipher, kdf, secret, DropFirst(row[2].DataValue().value, MarkerLength));
            EntryOf(CryptoUtils.SessionDecryptor(cipher, kdf, secret), i, row)
            == if decoded.None? then [] else [Entry(i, row[0].StringValue(), row[1].StringValue(), decoded)]
  {
  }

  /** Some item carries the id. */
  predicate HasEntry(items: seq<Entry>, id: int) {
    exists k :: 0 <= k < |items| && items[k].id == id
  }

  lemma HasEntryAppend(a: seq<Entry>, b: seq<Entry>, id: int)
    ensures HasEntry(a + b, id) <==> HasEntry(a, id) || HasEntry(b, id)
  {
    if HasEntry(a + b, id) {
      var k :| 0 <= k < |a + b| && (a + b)[k].id == id;
      if k < |a| {
        assert a[k].id == id;
      } else {
        assert b[k - |a|].id == id;
      }
    }
    if HasEntry(a, id) {
      var k :| 0 <= k < |a| && a[k].id == id;
      assert (a + b)[k].id == id;
    }
    if HasEntry(b, id) {
      var k :| 0 <= k < |b| && b[k].id == id;
      assert (a + b)[|a| + k].id == id;
    }
  }

  /** Ids stay below the number of rows. */
  lemma EntriesIdBound(decrypt: seq<byte> -> Option<string>, rows: seq<seq<DBValue>>, id: int)
    requires RowsIndexable(rows) && HasEntry(Entries(decrypt, rows), id)
    ensures 0 <= id < |rows|
  {
  }

  /** A row gives an entry exactly when it holds blob data that decrypts; skipped rows leave no trace. */
  lemma {:induction false} EntriesComplete(decrypt: seq<byte> -> Option<string>, rows: seq<seq<DBValue>>, i: nat)
    requires RowsIndexable(rows)
    requires i < |rows|
    ensures HasEntry(Entries(decrypt, rows), i) <==> RowPassword(decrypt, rows[i]).Some?
    decreases |rows|
  {
    var n := |rows| - 1;
    var prefix := rows[..n];
    var before := Entries(decrypt, prefix);
    var last := EntryOf(decrypt, n, rows[n]);
    assert Entries(decrypt, rows) == before + last;
    HasEntryAppend(before, last, i);
    if i < n {
      EntriesComplete(decrypt, prefix, i);
      assert prefix[i] == rows[i];
      assert !HasEntry(last, i);
    } else {
      if HasEntry(before, i) {
        EntriesIdBound(decrypt, prefix, i);
      }
      if RowPassword(decrypt, rows[i]).Some? {
        assert last[0].id == i;
      }
    }
  }

  /** With no blob data in any row the run never decrypts and yields nothing, whatever the decryptor. */
  lemma NoBlobNoEntries(decrypt: seq<byte> -> Option<string>, rows: seq<seq<DBValue>>)
    requires RowsIndexable(rows) && !ReachesDecryption(rows)
    ensures Entries(decrypt, rows) == []
  {
  }

  /**
   * End to end for one row: a blob made of any 3-byte marker and the AES
   * encryption of a password under the derived key and fixed IV gives back that password.
   */
  lemma MarkedBlobDecrypts(cipher: Cipher, kdf: Pbkdf, secret: string, marker: seq<byte>, plain: string,
                           url: DBValue, username: DBValue)
    requires PaddingBound(cipher) && Inverts(cipher) && CryptoUtils.KeyDerivable(kdf, secret)
    requires |marker| == MarkerLength
    requires AES.Encrypt(cipher, CryptoUtils.ChromiumContext(CryptoUtils.DeriveKey(kdf, secret).value), plain).Some?
    ensures var ciphertext := AES.Encrypt(cipher, CryptoUtils.ChromiumContext(CryptoUtils.DeriveKey(kdf, secret).value), plain).value;
            Entries(CryptoUtils.SessionDecryptor(cipher, kdf, secret), [[url, username, Blob(Some(marker + ciphertext))]])
            == [Entry(0, url.StringValue(), username.StringValue(), Some(plain))]
  {
    var ciphertext := AES.Encrypt(cipher, CryptoUtils.ChromiumContext(CryptoUtils.DeriveKey(kdf, secret).value), plain).value;
    var session := CryptoUtils.SessionDecryptor(cipher, kdf, secret);
    CryptoUtils.DecryptRoundTrip(cipher, kdf, secret, plain);
    MarkedRow(session, marker, ciphertext, plain, url, username);
  }

  /** A single row whose blob is a 3-byte marker followed by data the decryptor opens gives one entry with that password. */
  lemma MarkedRow(decrypt: seq<byte> -> Option<string>, marker: seq<byte>, ciphertext: seq<byte>, plain: string,
                  url: DBValue, username: DBValue)
    requires |marker| == MarkerLength && decrypt(ciphertext) == Some(plain)
    ensures Entries(decrypt, [[url, username, Blob(Some(marker + ciphertext))]])
            == [Entry(0, url.StringValue(), username.StringValue(), Some(plain))]
  {
    var row := [url, username, Blob(Some(marker + ciphertext))];
    DropFirstAfterPrefix(marker, ciphertext);
    assert RowPassword(decrypt, row) == Some(plain);
    assert [row][..0] == [];
  }

  /** The secret `decrypt()` uses: the typed key for a custom profile, otherwise the keychain item named after the browser. */
  function SafeStorageKey(browser: Browser, customSafeStorageKey: string, keychain: string -> Option<string>)
    : (r: Option<string>)
    ensures browser == Custom ==> r == Some(customSafeStorageKey)
    ensures browser != Custom ==> r == keychain(Name(browser))
  {
    if browser == Custom then Some(customSafeStorageKey) else keychain(Name(browser))
  }

  /**
   * `decrypt()`: clears the items, picks the secret (returning with no items
   * when the keychain has none), reads the logins table (no items when the
   * store cannot be copied or opened) and appends one entry per row that
   * decrypts. The key derivation is force-unwrapped, so it must succeed once a
   * blob reaches decryption.
   */
  method Decrypt(cipher: Cipher, kdf: Pbkdf, browser: Browser, customSafeStorageKey: string,
                 keychain: string -> Option<string>, store: Option<Database>)
    returns (items: seq<Entry>)
    requires var key := SafeStorageKey(browser, customSafeStorageKey, keychain);
             key.Some? && store.Some? ==>
               var rows := Query(store.value, LoginsQuery);
               RowsIndexable(rows) && (ReachesDecryption(rows) ==> CryptoUtils.KeyDerivable(kdf, key.value))
    ensures SafeStorageKey(browser, customSafeStorageKey, keychain).None? ==> items == []
    ensures store.None? ==> items == []
    ensures var key := SafeStorageKey(browser, customSafeStorageKey, keychain);
            key.Some? && store.Some? && CryptoUtils.KeyDerivable(kdf, key.value) ==>
              items == Entries(CryptoUtils.SessionDecryptor(cipher, kdf, key.value), Query(store.value, LoginsQuery))
    ensures var key := SafeStorageKey(browser, customSafeStorageKey, keychain);
            key.Some? && store.Some? && !CryptoUtils.KeyDerivable(kdf, key.value) ==> items == []
  {
    items := [];
    var safeStorageKey := "";
    if browser == Custom {
      safeStorageKey := customSafeStorageKey;
    } else {
      var key := keychain(Name(browser));
      if key.None? {
        return;
      }
      safeStorageKey := key.value;
    }
    if store.None? {
      return;
    }
    var db := store.value;
    var result := Execute(db, LoginsQuery);
    items := AppendEntries(cipher, kdf, safeStorageKey, result);
  }

  /**
   * The `for (i, row) in result.enumerated()` loop: rows without blob data and
   * rows that do not decrypt are skipped, every other row appends its entry.
   */
  method AppendEntries(cipher: Cipher, kdf: Pbkdf, safeStorageKey: string, result: seq<seq<DBValue>>)
    returns (items: seq<Entry>)
    requires RowsIndexable(result)
    requires ReachesDecryption(result) ==> CryptoUtils.KeyDerivable(kdf, safeStorageKey)
    ensures CryptoUtils.KeyDerivable(kdf, safeStorageKey) ==>
              items == Entries(CryptoUtils.SessionDecryptor(cipher, kdf, safeStorageKey), result)
    ensures !CryptoUtils.KeyDerivable(kdf, safeStorageKey) ==> items == []
  {
    items := [];
    ghost var derivable := CryptoUtils.KeyDerivable(kdf, safeStorageKey);
    ghost var session := if derivable then CryptoUtils.SessionDecryptor(cipher, kdf, safeStorageKey) else _ => None;
    for i := 0 to |result|
      invariant derivable ==> items == Entries(session, result[..i])
      invariant !derivable ==> items == []
    {
      if derivable {
        EntriesSnoc(session, result, i);
      } else {
        assert result[i][2].DataValue().None?;
      }
      var entry := RowEntry(cipher, kdf, safeStorageKey, i, result[i]);
      items := items + entry;
    }
    assert result[..|result|] == result;
  }

  /** One pass of the loop body: the row's entry, or nothing when the row is skipped. */
  method RowEntry(cipher: Cipher, kdf: Pbkdf, safeStorageKey: string, i: nat, row: seq<DBValue>)
    returns (entry: seq<Entry>)
    requires |row| >= 3
    requires row[2].DataValue().Some? ==> CryptoUtils.KeyDerivable(kdf, safeStorageKey)
    ensures row[2].DataValue().None? ==> entry == []
    ensures CryptoUtils.KeyDerivable(kdf, safeStorageKey) ==>
              entry == EntryOf(CryptoUtils.SessionDecryptor(cipher, kdf, safeStorageKey), i, row)
  {
    var passwordData := row[2].DataValue();
    if passwordData.None? {
      return [];
    }
    BlobRowStep(cipher, kdf, safeStorageKey, i, row);
    var password := DropFirst(passwordData.value, MarkerLength);
    var decoded := CryptoUtils.Decrypt(cipher, kdf, safeStorageKey, password);
    if decoded.None? {
      return [];
    }
    return [Entry(i, row[0].StringValue(), row[1].StringValue(), decoded)];
  }

  /** A username or url that contains the search text; nil fields never match. */
  predicate Matches(e: Entry, searchText: string) {
    (e.username.Some? && Contains(e.username.value, searchText)) || (e.url.Some? && Contains(e.url.value, searchText))
  }

  function Filter(items: seq<Entry>, searchText: string): (r: seq<Entry>)
    ensures |r| <= |items|
    ensures forall e :: e in r <==> e in items && Matches(e, searchText)
  {
    if items == [] then []
    else (if Matches(items[0], searchText) then [items[0]] else []) + Filter(items[1..], searchText)
  }

  /**
   * `filteredItems`: everything for an empty search text, otherwise exactly the
   * entries whose username or url contains it.
   */
  function FilteredItems(items: seq<Entry>, searchText: string): (r: seq<Entry>)
    ensures searchText == [] ==> r == items
    ensures searchText != [] ==> forall e :: e in r <==> e in items && Matches(e, searchText)
    ensures |r| <= |items|
  {
    if searchText == [] then items else Filter(items, searchText)
  }

  lemma {:induction false} FilterAppend(a: seq<Entry>, b: seq<Entry>, searchText: string)
    ensures Filter(a + b, searchText) == Filter(a, searchText) + Filter(b, searchText)
  {
    if a != [] {
      assert (a + b)[1..] == a[1..] + b;
      FilterAppend(a[1..], b, searchText);
    } else {
      assert a + b == b;
    }
  }

  /** Filtering keeps the order: it distributes over concatenation. */
  lemma FilteredItemsAppend(a: seq<Entry>, b: seq<Entry>, searchText: string)
    ensures FilteredItems(a + b, searchText) == FilteredItems(a, searchText) + FilteredItems(b, searchText)
  {
    if searchText != [] {
      FilterAppend(a, b, searchText);
    }
  }

  /** A single entry survives a non-empty search exactly when it matches. */
  lemma FilteredItemsSingle(e: Entry, searchText: string)
    ensures FilteredItems([e], searchText) == if searchText == [] || Matches(e, searchText) then [e] else []
  {
    if searchText != [] {
      assert Filter([e], searchText) == (if Matches(e, searchText) then [e] else []) + Filter([], searchText);
    }
  }

  /** `showPassword[id] ?? false`. */
  function Shown(showPassword: map<int, bool>, id: int): bool {
    if id in showPassword then showPassword[id] else false
  }

  /**
   * The eye button of entry `id`: the map is emptied and then holds only `id`,
   * with the negation of its previous state.
   */
  function ToggleReveal(showPassword: map<int, bool>, id: int): (r: map<int, bool>)
    ensures r.Keys == {id}
    ensures Shown(r, id) == !Shown(showPassword, id)
  {
    var state := Shown(showPassword, id);
    var cleared: map<int, bool> := map[];
    cleared[id := !state]
  }

  /** `onChange(of: searchText)`: the map is emptied, so every password is hidden. */
  function ResetReveal(showPassword: map<int, bool>): (r: map<int, bool>)
    ensures forall id :: !Shown(r, id)
    ensures |r| == 0
  {
    map[]
  }

  /** After a toggle at most one password is shown, the toggled one. */
  lemma ToggleShowsAtMostOne(showPassword: map<int, bool>, id: int, other: int)
    requires other != id
    ensures !Shown(ToggleReveal(showPassword, id), other)
  {
  }

  /** Toggling the same entry twice restores whether it is shown. */
  lemma ToggleTwice(showPassword: map<int, bool>, id: int)
    ensures Shown(ToggleReveal(ToggleReveal(showPassword, id), id), id) == Shown(showPassword, id)
  {
  }
}
