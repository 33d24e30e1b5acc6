/** Files under sysfs and in the user's directories: a map from path to text. */
module FileStore {
  import opened Text

  /** A path as its components. */
  type Path = seq<string>

  /** What reading a directory delivers: the names of its entries, up to an error if it is not complete. */
  datatype Listing = Listing(names: seq<string>, complete: bool)

  /**
   * The machine: its files, what listing a directory delivers, which files can be read, what their permission bits say
   * about writing (nothing when they cannot be looked up), which writes the kernel takes, and the library's Unicode
   * lower-casing. Nothing is assumed about the last five.
   */
  datatype Store = Store(
    files: map<Path, string>,
    listing: Path -> Option<Listing>,
    readable: Path -> bool,
    writable: Path -> Option<bool>,
    accepts: (Path, string) -> bool,
    lowercase: string -> string)
  {
    function Read(path: Path): Option<string> {
      if path in files && readable(path) then Some(files[path]) else None
    }

    /** The number in a file, with the surrounding white space trimmed. */
    function ReadNumber(path: Path, limit: nat): Option<nat> {
      match Read(path)
      case None => None
      case Some(text) => ParseUnsigned(Trim(text), 10, limit)
    }

    /** The directory holds at least one file at some depth. */
    predicate DirExists(dir: Path) {
      exists p :: p in files && dir < p
    }

    function Written(path: Path, text: string): Store {
      this.(files := files[path := text])
    }
  }

  class Sysfs {
    var store: Store

    constructor (store: Store)
      ensures this.store == store
    {
      this.store := store;
    }

    method Write(path: Path, text: string) returns (ok: bool)
      modifies this
      ensures ok == old(store).accepts(path, text)
      ensures store == if ok then old(store).Written(path, text) else old(store)
    {
      ok := store.accepts(path, text);
      if ok {
        store := store.Written(path, text);
      }
    }
  }

  // ---- numbers in files ----

  /** The file can be read and holds this number. */
  predicate Holds(store: Store, path: Path, v: nat) {
    path in store.files && store.readable(path) && Trim(store.files[path]) == Decimal(v)
  }

  /** There is nothing to read. */
  predicate Silent(store: Store, path: Path) {
    path !in store.files || !store.readable(path)
  }

  lemma NumberHeld(store: Store, path: Path, v: nat, limit: nat)
    requires Holds(store, path, v) && v < limit
    ensures store.ReadNumber(path, limit) == Some(v)
  {
    DecimalRoundTrip(v, limit);
    hide ParseUnsigned, Trim, Decimal;
  }

  lemma NothingHeld(store: Store, path: Path, limit: nat)
    requires Silent(store, path)
    ensures store.ReadNumber(path, limit) == None
  {
  }

  /** A number too large for its type is no reading. */
  lemma TooLarge(store: Store, path: Path, v: nat, limit: nat)
    requires Holds(store, path, v) && v >= limit
    ensures store.ReadNumber(path, limit) == None
  {
    DecimalReads(v);
    hide Decimal, Trim, AllDigits, Number;
  }

  lemma ReadingOf(store: Store, file: Path, v: nat, limit: nat)
    ensures Holds(store, file, v) && v < limit ==> store.ReadNumber(file, limit) == Some(v)
    ensures Silent(store, file) || (Holds(store, file, v) && v >= limit) ==> store.ReadNumber(file, limit) == None
  {
    hide Store.ReadNumber, Trim, Decimal;
    if Silent(store, file) {
      NothingHeld(store, file, limit);
    } else if Holds(store, file, v) {
      if v < limit {
        NumberHeld(store, file, v, limit);
      } else {
        TooLarge(store, file, v, limit);
      }
    }
  }

  /** One field is the number in one file, below this limit, and unknown without one. */
  ghost predicate Mirrors(store: Store, file: Path, limit: nat, field: Option<nat>) {
    && (forall v: nat :: Holds(store, file, v) ==> field == if v < limit then Some(v) else None)
    && (Silent(store, file) ==> field == None)
  }

  lemma NumberMirrors(store: Store, file: Path, limit: nat)
    ensures Mirrors(store, file, limit, store.ReadNumber(file, limit))
  {
    hide Holds, Silent, Store.ReadNumber;
    forall v: nat | Holds(store, file, v)
      ensures store.ReadNumber(file, limit) == if v < limit then Some(v) else None
    {
      ReadingOf(store, file, v, limit);
    }
    ReadingOf(store, file, 0, limit);
  }
}
