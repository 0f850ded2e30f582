/** The exported `storage` object: the adapter chosen once at load time,
    the bound root, and the lazy-initialisation wrapper put around every
    operation except `init`. */
module Storage {
  import opened Outcomes
  import KeyValue
  import FileTree
  import Native
  import Paths
  import Resolution
  import NativeProofs

  /** A root descriptor handed to `init` (a file-system URL). */
  type Url = string

  /** The substrate, chosen once from whether `cordova` is defined.  The
      device substrate maps each root URL it can resolve to the tree below
      it. */
  datatype Backend =
    | Browser(store: KeyValue.Store)
    | Device(volumes: map<Url, FileTree.FileSystem>)

  /** `rootFS` is `storage._rootFS`; `dataDirectory` is
      `cordova.file.dataDirectory` when `cordova.file` is defined. */
  datatype Storage = Storage(backend: Backend, rootFS: Option<Url>, dataDirectory: Option<Url>)

  /** One call of a storage-contract operation, with its arguments. */
  datatype Call =
    | Exists(path: string)
    | Rename(from: string, to: string)
    | WriteFile(path: string, data: string)
    | Unlink(path: string)
    | AppendFile(path: string, data: string)
    | ReadFile(path: string)
    | Mkdirp(path: string)
    | EnsureFileDoesntExist(path: string)
    | EnsureDatafileIntegrity(path: string)
    | CrashSafeWriteFile(path: string, data: string)

  /** What the caller's callback receives; `NoCompletion` is a callback
      that is never called. */
  datatype Reply =
    | Done
    | Found(found: bool)
    | Text(text: string)
    | Failed(error: Error)
    | NoCompletion

  datatype Outcome = Outcome(state: Storage, reply: Reply)

  /** A bound device root names a volume the substrate has. */
  ghost predicate WellFormed(st: Storage)
  {
    st.backend.Device? && st.rootFS.Some? ==> st.rootFS.value in st.backend.volumes
  }

  function StepReply<T>(r: Outcomes.Result<T>, ok: T -> Reply): (reply: Reply)
  {
    match r
    case Ok(v) => ok(v)
    case Err(e) => Failed(e)
  }

  /** A call on the browser store.  `crashSafeWriteFile` is the same
      function as `writeFile`. */
  function BrowserCall(store: KeyValue.Store, call: Call): (r: (KeyValue.Store, Reply))
    ensures r.1 != NoCompletion && !r.1.Failed?
  {
    match call
    case Exists(p) => (store, Found(KeyValue.Exists(store, p)))
    case Rename(a, b) => (KeyValue.Rename(store, a, b), Done)
    case WriteFile(p, d) => (KeyValue.WriteFile(store, p, d), Done)
    case CrashSafeWriteFile(p, d) => (KeyValue.WriteFile(store, p, d), Done)
    case Unlink(p) => (KeyValue.Unlink(store, p), Done)
    case AppendFile(p, d) => (KeyValue.AppendFile(store, p, d), Done)
    case ReadFile(p) => (store, Text(KeyValue.ReadFile(store, p)))
    case Mkdirp(p) => (KeyValue.Mkdirp(store, p), Done)
    case EnsureFileDoesntExist(p) => (KeyValue.EnsureFileDoesntExist(store, p), Done)
    case EnsureDatafileIntegrity(p) => (KeyValue.EnsureDatafileIntegrity(store, p), Done)
  }

  /** A call on the tree below the bound root.  `crashSafeWriteFile` is the
      same function as `writeFile`.  Every device call calls back; only
      `unlink` and `ensureFileDoesntExist` can take a directory away; a
      read hands back the contents of a file of the tree. */
  function DeviceCall(fs: FileTree.FileSystem, call: Call): (r: (FileTree.FileSystem, Reply))
    ensures r.1 != NoCompletion
    ensures !call.Unlink? && !call.EnsureFileDoesntExist? ==> FileTree.DirsKept(fs, r.0)
    ensures call.ReadFile? && r.1.Text? ==> exists l :: FileTree.IsFile(r.0, l) && r.0[l].contents == r.1.text
  {
    match call
    case Exists(p) =>
      var e := Native.Exists(fs, p); (e.fs, Found(e.found))
    case Rename(a, b) =>
      var s := Native.Rename(fs, a, b); (s.fs, StepReply(s.result, _ => Done))
    case WriteFile(p, d) =>
      var s := Native.WriteFile(fs, p, d, false); (s.fs, StepReply(s.result, _ => Done))
    case CrashSafeWriteFile(p, d) =>
      var s := Native.WriteFile(fs, p, d, false); (s.fs, StepReply(s.result, _ => Done))
    case Unlink(p) =>
      var s := Native.Unlink(fs, p); (s.fs, StepReply(s.result, _ => Done))
    case AppendFile(p, d) =>
      var s := Native.AppendFile(fs, p, d); (s.fs, StepReply(s.result, _ => Done))
    case ReadFile(p) =>
      var s := Native.ReadFile(fs, p); (s.fs, StepReply(s.result, (t: string) => Text(t)))
    case Mkdirp(p) =>
      var s := Native.Mkdirp(fs, p); (s.fs, StepReply(s.result, _ => Done))
    case EnsureFileDoesntExist(p) =>
      var s := Native.EnsureFileDoesntExist(fs, p); (s.fs, StepReply(s.result, _ => Done))
    case EnsureDatafileIntegrity(p) =>
      var s := Native.EnsureDatafileIntegrity(fs, p); (s.fs, StepReply(s.result, _ => Done))
  }

  /** The corrected adapter method itself, without the wrapper: the
      internal calls reach their functions directly, and the native rename
      walks the directory parts.  `DelegateAsWritten` keeps the calls
      through `storage` as written, which throw; the rename's walks as
      written are `Native.RenameFileAsWritten` and
      `Native.MoveFileAsWritten`.  The
      browser functions never look at the root; the native ones resolve
      every path from it, and without one they throw. */
  function Delegate(st: Storage, call: Call): (r: Outcome)
    ensures r.state.rootFS == st.rootFS && r.state.dataDirectory == st.dataDirectory
    ensures r.state.backend.Browser? == st.backend.Browser?
    ensures st.backend.Device? ==> r.state.backend.volumes.Keys == st.backend.volumes.Keys
  {
    match st.backend
    case Browser(store) =>
      var (store', reply) := BrowserCall(store, call);
      Outcome(st.(backend := Browser(store')), reply)
    case Device(volumes) =>
      if st.rootFS.None? || st.rootFS.value !in volumes then Outcome(st, Failed(NotInitialized))
      else
        var root := st.rootFS.value;
        var (fs', reply) := DeviceCall(volumes[root], call);
        Outcome(st.(backend := Device(volumes[root := fs'])), reply)
  }

  /** `storage.init(rootPath, cb)`, never wrapped.  In the browser it only
      configures the store: it binds no root and never calls back.  On a
      device it binds the root the URL resolves to, or reports the
      resolution failure. */
  function Init(st: Storage, url: Url): (r: Outcome)
    ensures st.backend.Browser? ==> r == Outcome(st, NoCompletion)
    ensures st.backend.Device? && url in st.backend.volumes ==> r == Outcome(st.(rootFS := Some(url)), Done)
    ensures st.backend.Device? && url !in st.backend.volumes ==> r == Outcome(st, Failed(IOFailure))
  {
    match st.backend
    case Browser(_) => Outcome(st, NoCompletion)
    case Device(volumes) =>
      if url in volumes then Outcome(st.(rootFS := Some(url)), Done)
      else Outcome(st, Failed(IOFailure))
  }

  /** A wrapped operation (`_ensureInit` followed by the adapter method,
      here the corrected one of `Delegate`, with the original arguments):
      with a root bound, delegate; otherwise,
      when a default root exists, call `init` on it and delegate from its
      callback (which runs whether or not `init` succeeded); otherwise
      throw. */
  function Wrapped(st: Storage, call: Call): (r: Outcome)
    ensures st.rootFS.Some? ==> r.state.rootFS == st.rootFS
    ensures st.rootFS.None? && st.dataDirectory.None? ==> r == Outcome(st, Failed(NotInitialized))
    ensures r.state.dataDirectory == st.dataDirectory
    ensures WellFormed(st) ==> WellFormed(r.state)
  {
    if st.rootFS.Some? then Delegate(st, call)
    else if st.dataDirectory.Some? then
      var i := Init(st, st.dataDirectory.value);
      if i.reply == NoCompletion then i else Delegate(i.state, call)
    else Outcome(st, Failed(NotInitialized))
  }

  // ---------------------------------------------------------------------
  // Properties of the wrapper

  /** With a root bound the wrapper is transparent: the call is the
      corrected adapter method's own, with the same arguments. */
  lemma BoundIsTransparent(st: Storage, call: Call)
    requires st.rootFS.Some?
    ensures Wrapped(st, call) == Delegate(st, call)
  {
  }

  /** With no root bound but a default one that resolves, the first call
      binds the default root and then runs as if it had been bound all
      along; the next call finds the root bound and does not initialise
      again. */
  lemma LazyInitBindsDefault(st: Storage, call: Call, next: Call)
    requires st.backend.Device? && st.rootFS.None?
    requires st.dataDirectory.Some? && st.dataDirectory.value in st.backend.volumes
    ensures Wrapped(st, call) == Delegate(st.(rootFS := st.dataDirectory), call)
    ensures Wrapped(st, call).state.rootFS == st.dataDirectory
    ensures Wrapped(Wrapped(st, call).state, next) == Delegate(Wrapped(st, call).state, next)
  {
  }

  /** With no root bound and a default root that does not resolve, the
      adapter method still runs from `init`'s callback, meets the unbound
      root, and fails; nothing changes. */
  lemma LazyInitFailure(st: Storage, call: Call)
    requires st.backend.Device? && st.rootFS.None?
    requires st.dataDirectory.Some? && st.dataDirectory.value !in st.backend.volumes
    ensures Wrapped(st, call) == Outcome(st, Failed(NotInitialized))
  {
  }

  /** In the browser `cordova` is undefined, so there is no default root,
      and `init` binds none: every wrapped call fails as not initialised,
      whatever was initialised before, and nothing in the store changes. */
  lemma BrowserNeverInitialises(st: Storage, url: Url, call: Call)
    requires st.backend.Browser? && st.rootFS.None? && st.dataDirectory.None?
    ensures Init(st, url).state == st
    ensures Wrapped(Init(st, url).state, call) == Outcome(st, Failed(NotInitialized))
  {
  }

  /** `crashSafeWriteFile` is `writeFile` on both substrates. */
  lemma CrashSafeWriteIsWrite(st: Storage, p: string, d: string)
    ensures Wrapped(st, CrashSafeWriteFile(p, d)) == Wrapped(st, WriteFile(p, d))
  {
  }

  /** The wrapper as evidently intended: the browser functions need no root,
      so in the browser every call goes straight to the store. */
  function WrappedIntended(st: Storage, call: Call): (r: Outcome)
    ensures st.backend.Browser? ==> r.state.rootFS == st.rootFS
  {
    if st.backend.Browser? then Delegate(st, call) else Wrapped(st, call)
  }

  /** With the intended wrapper the browser store answers every call
      without initialisation, and on a device nothing changes. */
  lemma BrowserNeedsNoRoot(st: Storage, call: Call)
    ensures st.backend.Browser? ==> WrappedIntended(st, call).reply != Failed(NotInitialized)
    ensures st.backend.Browser? ==> WrappedIntended(st, call) == Delegate(st, call)
    ensures st.backend.Device? ==> WrappedIntended(st, call) == Wrapped(st, call)
  {
  }

  /** Through the intended wrapper, a write that reports success is read
      back exactly, on any path: in the browser always, on a device by the
      root the write bound or found.  In the browser the write always
      succeeds, and so it does on a device with a bound root, for a plain
      path whose directories no file blocks. */
  lemma WrappedWriteThenRead(st: Storage, p: string, d: string)
    requires WellFormed(st)
    ensures var w := WrappedIntended(st, WriteFile(p, d));
            w.reply == Done ==> WrappedIntended(w.state, ReadFile(p)).reply == Text(d)
    ensures (|| st.backend.Browser?
             || (&& st.rootFS.Some?
                 && var fs := st.backend.volumes[st.rootFS.value];
                    Paths.Plain(p) && Resolution.Ready(fs, p) && !FileTree.IsDir(fs, Resolution.Loc(p))))
            ==> WrappedIntended(st, WriteFile(p, d)).reply == Done
  {
    if st.backend.Device? {
      if st.rootFS.Some? {
        DeviceWriteThenRead(st.backend.volumes[st.rootFS.value], p, d);
      } else if st.dataDirectory.Some? && st.dataDirectory.value in st.backend.volumes {
        LazyInitBindsDefault(st, WriteFile(p, d), ReadFile(p));
        DeviceWriteThenRead(st.backend.volumes[st.dataDirectory.value], p, d);
      }
    }
  }

  /** On a device, a write that reports success is read back exactly, on
      any path; on a plain path whose directories no file blocks, with no
      directory in the way, the write always succeeds. */
  lemma DeviceWriteThenRead(fs: FileTree.FileSystem, p: string, d: string)
    ensures var w := DeviceCall(fs, WriteFile(p, d));
            && (w.1 == Done ==> DeviceCall(w.0, ReadFile(p)).1 == Text(d))
            && (Paths.Plain(p) && Resolution.Ready(fs, p) && !FileTree.IsDir(fs, Resolution.Loc(p)) ==> w.1 == Done)
  {
    NativeProofs.WriteThenRead(fs, p, d);
  }

  // ---------------------------------------------------------------------
  // Calls through missing properties, as written

  /** The own properties of `storage` when a method runs: the ten contract
      operations and `init` (plus `_rootFS` once bound). */
  const Members: set<string> :=
    {"exists", "rename", "writeFile", "unlink", "appendFile", "readFile", "mkdirp",
     "ensureFileDoesntExist", "ensureDatafileIntegrity", "crashSafeWriteFile", "init"}

  /** The property of `storage` an adapter method calls before anything
      else, for the methods that call back into `storage`. */
  function SelfReference(b: Backend, call: Call): (name: Option<string>)
  {
    match call
    case AppendFile(_, _) => if b.Device? then Some("writeFileNative") else None
    case EnsureFileDoesntExist(_) => if b.Device? then Some("existsNative") else Some("existsBrowser")
    case EnsureDatafileIntegrity(_) => if b.Device? then Some("existsNative") else None
    case _ => None
  }

  /** The adapter method as written: a call through a property `storage`
      does not have throws before the store is touched. */
  function DelegateAsWritten(st: Storage, call: Call): (r: Outcome)
    ensures r.state.rootFS == st.rootFS && r.state.dataDirectory == st.dataDirectory
    ensures r.state.backend.Browser? == st.backend.Browser?
    ensures st.backend.Device? ==> r.state.backend.volumes.Keys == st.backend.volumes.Keys
  {
    match SelfReference(st.backend, call)
    case Some(name) => if name in Members then Delegate(st, call) else Outcome(st, Failed(NotAFunction))
    case None => Delegate(st, call)
  }

  /** As written, native `appendFile`, `ensureFileDoesntExist` and
      `ensureDatafileIntegrity`, and browser `ensureFileDoesntExist`, throw
      without touching the store; every other method is the intended one. */
  lemma SelfReferencesThrow(st: Storage, call: Call)
    ensures (st.backend.Device? && (call.AppendFile? || call.EnsureFileDoesntExist? || call.EnsureDatafileIntegrity?))
            || (st.backend.Browser? && call.EnsureFileDoesntExist?)
            ==> DelegateAsWritten(st, call) == Outcome(st, Failed(NotAFunction))
    ensures !((st.backend.Device? && (call.AppendFile? || call.EnsureFileDoesntExist? || call.EnsureDatafileIntegrity?))
              || (st.backend.Browser? && call.EnsureFileDoesntExist?))
            ==> DelegateAsWritten(st, call) == Delegate(st, call)
  {
    assert "writeFileNative" !in Members && "existsNative" !in Members && "existsBrowser" !in Members;
  }
}
