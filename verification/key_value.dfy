/** The browser adapter: every logical path is one key of a flat
    asynchronous key/value store (localforage).  The store is a finite map;
    a key outside the map is what localforage reports as `null`.  None of
    these operations can report an error: their callbacks are always called
    without one. */
module KeyValue {

  type Store = map<string, string>

  /** Two stores agree on every key outside `keys`: same presence, same value. */
  ghost predicate AgreeOutside(s: Store, t: Store, keys: set<string>)
  {
    forall k :: k !in keys ==> (k in s <==> k in t) && (k in s ==> s[k] == t[k])
  }

  /** `existsBrowser`: a key exists when the store holds a value for it, the
      empty string included. */
  predicate Exists(store: Store, key: string)
  {
    key in store
  }

  /** `writeFileBrowser`: a single-key overwrite. */
  function WriteFile(store: Store, key: string, contents: string): (r: Store)
    ensures Exists(r, key) && r[key] == contents
    ensures AgreeOutside(store, r, {key})
  {
    store[key := contents]
  }

  /** `readFileBrowser`: a missing key reads as the empty string, never as
      an error. */
  function ReadFile(store: Store, key: string): (contents: string)
    ensures Exists(store, key) ==> contents == store[key]
    ensures !Exists(store, key) ==> contents == ""
  {
    if key in store then store[key] else ""
  }

  /** `appendFileBrowser`: the old value (absent counts as empty) followed by
      the appended text. */
  function AppendFile(store: Store, key: string, data: string): (r: Store)
    ensures Exists(r, key) && r[key] == ReadFile(store, key) + data
    ensures AgreeOutside(store, r, {key})
  {
    store[key := ReadFile(store, key) + data]
  }

  /** `unlinkBrowser`: removing a key; removing an absent key is harmless. */
  function Unlink(store: Store, key: string): (r: Store)
    ensures !Exists(r, key)
    ensures AgreeOutside(store, r, {key})
    ensures !Exists(store, key) ==> r == store
  {
    store - {key}
  }

  /** `renameBrowser`: read the old key; when it is absent, remove the new
      key; otherwise write the value under the new key and then remove the
      old key.  Renaming a key onto itself therefore deletes it. */
  function Rename(store: Store, from: string, to: string): (r: Store)
    ensures Exists(store, from) && from != to ==> Exists(r, to) && r[to] == store[from]
    ensures !Exists(r, from)
    ensures !Exists(store, from) ==> !Exists(r, to)
    ensures AgreeOutside(store, r, {from, to})
  {
    if from !in store then Unlink(store, to)
    else Unlink(WriteFile(store, to, store[from]), from)
  }

  /** `mkdirpBrowser`: there are no directories, nothing to do. */
  function Mkdirp(store: Store, dir: string): (r: Store)
    ensures r == store
  {
    store
  }

  /** `ensureFileDoesntExistBrowser`: probe, and unlink only when present. */
  function EnsureFileDoesntExist(store: Store, key: string): (r: Store)
    ensures !Exists(r, key)
    ensures AgreeOutside(store, r, {key})
    ensures !Exists(store, key) ==> r == store
  {
    if !Exists(store, key) then store else Unlink(store, key)
  }

  /** `ensureDatafileIntegrityBrowser`: a single key cannot be half written,
      so there is nothing to recover. */
  function EnsureDatafileIntegrity(store: Store, key: string): (r: Store)
    ensures r == store
  {
    store
  }

  /** Reading back a write returns exactly what was written, and reading any
      other key sees the store as it was. */
  lemma WriteThenRead(store: Store, key: string, other: string, contents: string)
    ensures ReadFile(WriteFile(store, key, contents), key) == contents
    ensures other != key ==> ReadFile(WriteFile(store, key, contents), other) == ReadFile(store, other)
  {
  }

  /** `existsBrowser` tests for `null`, not for a falsy value: a key written
      with the empty string exists, an unlinked key does not, although the
      two read back alike. */
  lemma ExistsSeesEmptyFile(store: Store, key: string)
    ensures Exists(WriteFile(store, key, ""), key) && !Exists(Unlink(store, key), key)
    ensures ReadFile(WriteFile(store, key, ""), key) == ReadFile(Unlink(store, key), key)
  {
  }

  /** Two appends to a fresh key read back as their concatenation, with no
      separator inserted. */
  lemma AppendTwiceFresh(store: Store, key: string, d1: string, d2: string)
    requires !Exists(store, key)
    ensures ReadFile(AppendFile(AppendFile(store, key, d1), key, d2), key) == d1 + d2
  {
  }

  /** Renaming moves the value: the new key reads as the old key did, and
      the old key reads as empty afterwards. */
  lemma RenameMovesContents(store: Store, from: string, to: string)
    requires from != to
    ensures ReadFile(Rename(store, from, to), to) == ReadFile(store, from)
    ensures !Exists(Rename(store, from, to), from)
  {
  }

  /** A key renamed onto itself is lost: the write and the removal hit the
      same key, and the removal comes second. */
  lemma RenameOntoItselfRemoves(store: Store, key: string)
    ensures !Exists(Rename(store, key, key), key)
    ensures AgreeOutside(store, Rename(store, key, key), {key})
  {
  }

  /** Removing twice is the same as removing once, and the second call never
      touches the store. */
  lemma EnsureFileDoesntExistIdempotent(store: Store, key: string)
    ensures EnsureFileDoesntExist(EnsureFileDoesntExist(store, key), key)
            == EnsureFileDoesntExist(store, key)
  {
  }
}
