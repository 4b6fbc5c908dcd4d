/** `SessionManager`: the vault's session life cycle.

    The manager's fields are an immutable `Manager` value. The sandbox
    directory lives on a `Disk`, a map from directory path to the directory's
    files (file name to content); a secret named `n` is the file `n + ".enc"`.
    What the operating system decides is passed in: the random bytes and
    clock readings of `start_session` and the directory `tempfile.mkdtemp`
    creates (`StartInputs`), the order `os.listdir` reports, and whether
    `shutil.rmtree` completes (`Removal`). Python truthiness of the optional
    fields (None and the empty string are both false) is `Truthy`. */
module Session {
  import opened Common
  import Crypto
  import Hex
  import Base64

  type Dir = map<seq<char>, seq<byte>>
  type Disk = map<seq<char>, Dir>

  datatype Manager = Manager(
    sessionHash: Option<seq<char>>,
    salt: Option<seq<char>>,
    startTime: Option<real>,
    sandboxPath: Option<seq<char>>,
    vaultKey: Option<seq<char>>,
    isActive: bool)

  datatype World = World(manager: Manager, disk: Disk)

  /** What `start_session` draws from its environment: 16 salt bytes and 32
      token bytes from `secrets`, the text of `time.time()` used as entropy,
      a second `time.time()` reading kept as the start time, and the new
      directory made by `mkdtemp`. */
  datatype StartInputs = StartInputs(
    saltBytes: seq<byte>,
    clockText: seq<char>,
    tokenBytes: seq<byte>,
    startTime: real,
    tempDir: seq<char>)

  /** How `shutil.rmtree` ends: the whole tree is gone, or it raised after
      deleting some files, leaving the directory with the named ones. */
  datatype Removal = Removed | Interrupted(left: set<seq<char>>)

  const Extension: seq<char> := ".enc"

  predicate Truthy(o: Option<seq<char>>) {
    o.Some? && |o.value| > 0
  }

  function FileName(name: seq<char>): seq<char> {
    name + Extension
  }

  /** A plain directory entry name: no separator and no NUL. */
  predicate Creatable(fileName: seq<char>) {
    '/' !in fileName && '\0' !in fileName
  }

  /** The sandbox entry that `os.path.join(sandbox, fileName)` reaches when
      `open` or `os.path.exists` resolves it: separators and `./` segments in
      front of the last segment lead back to the sandbox itself. None when no
      file of the sandbox is reached: a NUL (refused by both calls), a
      segment naming a sub-directory (the sandbox holds none), a last segment
      that is a directory, and the paths that leave the sandbox — an
      absolute name and a `..` segment — which the model does not follow. */
  function Resolve(fileName: seq<char>): (r: Option<seq<char>>)
    ensures r.Some? ==> Creatable(r.value) && EndsWith(fileName, r.value)
  {
    if '\0' in fileName || (|fileName| > 0 && fileName[0] == '/') then None
    else Entry(fileName)
  }

  /** `""`, `.` and `..`: segments that name a directory. */
  predicate DotsOnly(segment: seq<char>) {
    |segment| <= 2 && forall i :: 0 <= i < |segment| ==> segment[i] == '.'
  }

  /** The last segment of a relative path whose other segments are empty or
      `.`, when it names a file. */
  function Entry(path: seq<char>): (r: Option<seq<char>>)
    ensures r.Some? ==> '/' !in r.value && !DotsOnly(r.value) && EndsWith(path, r.value)
    decreases |path|
  {
    if |path| > 0 && path[0] == '/' then
      var r := Entry(path[1..]);
      if r.Some? then SuffixOfTail(path, 1, r.value); r else r
    else if |path| >= 2 && path[0] == '.' && path[1] == '/' then
      var r := Entry(path[2..]);
      if r.Some? then SuffixOfTail(path, 2, r.value); r else r
    else if '/' in path || DotsOnly(path) then None
    else Some(path)
  }

  lemma SuffixOfTail(path: seq<char>, k: nat, v: seq<char>)
    requires k <= |path| && EndsWith(path[k..], v)
    ensures EndsWith(path, v)
  {
    assert path[k..][|path| - k - |v|..] == path[|path| - |v|..];
  }

  lemma ExtensionChars(path: seq<char>)
    requires EndsWith(path, Extension)
    ensures var n := |path|; n >= 4 && path[n - 4] == '.' && path[n - 3] == 'e'
  {
    var n := |path|;
    assert path[n - 4..] == Extension;
    assert path[n - 4] == path[n - 4..][0];
    assert path[n - 3] == path[n - 4..][1];
  }

  lemma TailKeepsExtension(path: seq<char>, k: nat)
    requires k + 4 <= |path| && EndsWith(path, Extension)
    ensures EndsWith(path[k..], Extension)
  {
    assert path[k..][|path| - k - 4..] == path[|path| - 4..];
  }

  /** The entry reached from `name.enc` is itself a `.enc` file. */
  lemma {:induction false} EntryKeepsExtension(path: seq<char>)
    requires EndsWith(path, Extension)
    ensures Entry(path).Some? ==> EndsWith(Entry(path).value, Extension)
    decreases |path|
  {
    var n := |path|;
    ExtensionChars(path);
    if n > 0 && path[0] == '/' {
      TailKeepsExtension(path, 1);
      EntryKeepsExtension(path[1..]);
    } else if n >= 2 && path[0] == '.' && path[1] == '/' {
      TailKeepsExtension(path, 2);
      EntryKeepsExtension(path[2..]);
    }
  }

  lemma ResolvedFileName(name: seq<char>)
    ensures Resolve(FileName(name)).Some? ==> EndsWith(Resolve(FileName(name)).value, Extension)
  {
    var f := FileName(name);
    assert f[|name|..] == Extension;
    EntryKeepsExtension(f);
  }

  /** `SessionManager()`: every field empty, inactive. */
  function Init(): (m: Manager)
    ensures !m.isActive && m.sessionHash.None? && m.vaultKey.None? && m.sandboxPath.None?
  {
    Manager(None, None, None, None, None, false)
  }

  /** The life-cycle invariant: the hash, salt, start time, sandbox and key
      are present exactly when the session is active, and then the key is the
      one derived from the hash and the sandbox exists and holds only `.enc`
      files. */
  ghost predicate Consistent(p: Crypto.Primitives, w: World)
    requires Crypto.Valid(p)
  {
    var m := w.manager;
    && (m.sessionHash.Some? <==> m.isActive)
    && (m.salt.Some? <==> m.isActive)
    && (m.startTime.Some? <==> m.isActive)
    && (m.sandboxPath.Some? <==> m.isActive)
    && (m.vaultKey.Some? <==> m.isActive)
    && (m.isActive ==>
          && Truthy(m.sessionHash) && Truthy(m.sandboxPath)
          && m.vaultKey == Some(Crypto.DeriveKey(p, m.sessionHash.value))
          && m.sandboxPath.value in w.disk
          && forall f :: f in w.disk[m.sandboxPath.value] ==> EndsWith(f, Extension) && Creatable(f))
  }

  lemma InitConsistent(p: Crypto.Primitives, disk: Disk)
    requires Crypto.Valid(p)
    ensures Consistent(p, World(Init(), disk))
  {
  }

  /** `mkdtemp` returns a new, non-empty path. */
  predicate FreshDir(disk: Disk, dir: seq<char>) {
    |dir| > 0 && dir !in disk
  }

  /** `start_session`. It does not look at the current state: on an active
      session the fields are replaced and the old sandbox stays on disk. */
  function Start(p: Crypto.Primitives, w: World, env: StartInputs): (r: World)
    requires Crypto.Valid(p)
    requires FreshDir(w.disk, env.tempDir)
    ensures r.manager.isActive
    ensures Consistent(p, r)
    ensures r.manager.sandboxPath == Some(env.tempDir) && r.disk[env.tempDir] == map[]
    ensures forall d :: d in w.disk ==> d in r.disk && r.disk[d] == w.disk[d]
    ensures r.disk.Keys == w.disk.Keys + {env.tempDir}
  {
    var m := Started(p, env);
    var disk := w.disk[env.tempDir := map[]];
    FreshDirAdded(w.disk, env.tempDir);
    StartedConsistent(p, m, disk);
    World(m, disk)
  }

  /** `mkdtemp` adds one empty directory and changes no other. */
  lemma FreshDirAdded(disk: Disk, dir: seq<char>)
    requires dir !in disk
    ensures var r := disk[dir := map[]];
      && r.Keys == disk.Keys + {dir}
      && (forall d :: d in disk ==> d in r && r[d] == disk[d])
      && r[dir] == map[]
  {
  }

  lemma StartedConsistent(p: Crypto.Primitives, m: Manager, disk: Disk)
    requires Crypto.Valid(p)
    requires m.isActive && m.salt.Some? && m.startTime.Some?
    requires Truthy(m.sessionHash) && Truthy(m.sandboxPath)
    requires m.vaultKey == Some(Crypto.DeriveKey(p, m.sessionHash.value))
    requires m.sandboxPath.value in disk && disk[m.sandboxPath.value] == map[]
    ensures Consistent(p, World(m, disk))
  {
  }

  /** The fields `start_session` sets: salt, hash, start time, derived key
      and sandbox. */
  function Started(p: Crypto.Primitives, env: StartInputs): (m: Manager)
    requires Crypto.Valid(p)
    ensures m.isActive && m.salt.Some? && m.startTime.Some?
    ensures Truthy(m.sessionHash) && m.sandboxPath == Some(env.tempDir)
    ensures m.vaultKey == Some(Crypto.DeriveKey(p, m.sessionHash.value))
  {
    var salt := Crypto.GenerateSalt(env.saltBytes);
    var entropy := env.clockText + Hex.Buf2Hex(env.tokenBytes);
    var hash := Crypto.GenerateSessionHash(p, salt, entropy);
    var key := Crypto.DeriveKey(p, hash);
    Manager(Some(hash), Some(salt), Some(env.startTime), Some(env.tempDir), Some(key), true)
  }

  datatype Stored = Stored(ok: bool, world: World)

  /** `store_secret`: encrypt under the vault key and write the file that
      `name.enc` reaches inside the sandbox; False, with nothing written, when
      inactive, when the key or sandbox is missing, or when `open` cannot
      create the file. */
  function StoreSecret(p: Crypto.Primitives, w: World, name: seq<char>, content: seq<char>,
                       nonce: Crypto.FernetNonce): (r: Stored)
    ensures !w.manager.isActive ==> r == Stored(false, w)
    ensures !r.ok ==> r.world == w
    ensures r.world.manager == w.manager
    ensures r.ok ==> Resolve(FileName(name)).Some?
    ensures r.ok ==> w.manager.isActive && Truthy(w.manager.sandboxPath) && Truthy(w.manager.vaultKey)
    ensures r.ok ==> var sb := w.manager.sandboxPath.value;
      && sb in w.disk
      && r.world.disk == w.disk[sb := w.disk[sb][Resolve(FileName(name)).value :=
                                                   p.encrypt(w.manager.vaultKey.value, nonce, content)]]
  {
    var m := w.manager;
    if !m.isActive || !Truthy(m.sandboxPath) || !Truthy(m.vaultKey) then Stored(false, w)
    else
      var sb := m.sandboxPath.value;
      match Resolve(FileName(name))
      case None => Stored(false, w)
      case Some(f) =>
        if sb !in w.disk then Stored(false, w)
        else
          var token := p.encrypt(m.vaultKey.value, nonce, content);
          Stored(true, World(m, w.disk[sb := w.disk[sb][f := token]]))
  }

  /** `retrieve_secret`: decrypt the file that `name.enc` reaches; None when
      inactive, when the key or sandbox is missing, when there is no such
      file, and when decryption fails. */
  function RetrieveSecret(p: Crypto.Primitives, w: World, name: seq<char>): (r: Option<seq<char>>)
    ensures !w.manager.isActive ==> r.None?
    ensures r.Some? ==> w.manager.isActive && Truthy(w.manager.sandboxPath) && Truthy(w.manager.vaultKey)
    ensures r.Some? ==> var sb := w.manager.sandboxPath.value;
      && Resolve(FileName(name)).Some?
      && var f := Resolve(FileName(name)).value;
      && sb in w.disk && f in w.disk[sb]
      && p.decrypt(w.manager.vaultKey.value, w.disk[sb][f]) == r
  {
    var m := w.manager;
    if !m.isActive || !Truthy(m.sandboxPath) || !Truthy(m.vaultKey) then None
    else
      var sb := m.sandboxPath.value;
      match Resolve(FileName(name))
      case None => None
      case Some(f) =>
        if sb !in w.disk || f !in w.disk[sb] then None
        else p.decrypt(m.vaultKey.value, w.disk[sb][f])
  }

  /** `order` is an `os.listdir` result for `dir`: every file once. */
  ghost predicate IsListing(order: seq<seq<char>>, dir: Dir) {
    && (forall f :: f in order <==> f in dir)
    && (forall i, j :: 0 <= i < j < |order| ==> order[i] != order[j])
  }

  /** The list comprehension of `get_secrets_list` over one listing. */
  function SecretNames(order: seq<seq<char>>): (names: seq<seq<char>>)
    ensures |names| <= |order|
    ensures forall n :: n in names <==>
              exists f :: f in order && EndsWith(f, Extension) && n == ReplaceAll(f, Extension, [])
  {
    if |order| == 0 then []
    else
      var rest := SecretNames(order[1..]);
      var f := order[0];
      assert forall g :: g in order <==> g == f || g in order[1..];
      if EndsWith(f, Extension) then [ReplaceAll(f, Extension, [])] + rest else rest
  }

  /** `get_secrets_list`: [] when inactive, when the sandbox is missing or
      cannot be listed; otherwise each `.enc` file with every occurrence of
      `.enc` removed from its name. */
  function SecretsList(w: World, order: seq<seq<char>>): (names: seq<seq<char>>)
    requires var sb := w.manager.sandboxPath;
      sb.Some? && sb.value in w.disk ==> IsListing(order, w.disk[sb.value])
    ensures !w.manager.isActive ==> names == []
  {
    var m := w.manager;
    if !m.isActive || !Truthy(m.sandboxPath) then []
    else if m.sandboxPath.value !in w.disk then []
    else SecretNames(order)
  }

  /** The listing as evidently intended: only the final `.enc` is removed,
      so every stored name is listed as itself. */
  function StoredNames(order: seq<seq<char>>): (names: seq<seq<char>>)
    ensures forall n :: n in names <==> FileName(n) in order
  {
    if |order| == 0 then []
    else
      var rest := StoredNames(order[1..]);
      var f := order[0];
      assert forall g :: g in order <==> g == f || g in order[1..];
      NamesOfFile(f);
      if EndsWith(f, Extension) then [f[..|f| - |Extension|]] + rest else rest
  }

  /** Which names are stored in file `f`: the one `f` minus its final `.enc`,
      and none when `f` does not end in `.enc`. */
  lemma NamesOfFile(f: seq<char>)
    ensures EndsWith(f, Extension) ==> FileName(f[..|f| - |Extension|]) == f
    ensures forall n :: FileName(n) == f ==> EndsWith(f, Extension) && n == f[..|f| - |Extension|]
  {
    if EndsWith(f, Extension) {
      assert f == f[..|f| - |Extension|] + f[|f| - |Extension|..];
    }
    forall n | FileName(n) == f
      ensures EndsWith(f, Extension) && n == f[..|f| - |Extension|]
    {
      assert FileName(n)[|n|..] == Extension && FileName(n)[..|n|] == n;
    }
  }

  /** `get_secrets_list` with the correction of `StoredNames`. */
  function StoredSecretsList(w: World, order: seq<seq<char>>): (names: seq<seq<char>>)
    requires var sb := w.manager.sandboxPath;
      sb.Some? && sb.value in w.disk ==> IsListing(order, w.disk[sb.value])
    ensures !w.manager.isActive ==> names == []
    ensures w.manager.isActive && Truthy(w.manager.sandboxPath) && w.manager.sandboxPath.value in w.disk ==>
              forall n :: n in names <==> FileName(n) in w.disk[w.manager.sandboxPath.value]
  {
    var m := w.manager;
    if !m.isActive || !Truthy(m.sandboxPath) then []
    else if m.sandboxPath.value !in w.disk then []
    else StoredNames(order)
  }

  function GetHash(w: World): Option<seq<char>> {
    w.manager.sessionHash
  }

  /** The full 44-character text a credential is cut from: URL-safe Base64
      of SHA-256 over `hash:service`. */
  function CredentialText(p: Crypto.Primitives, hash: seq<char>, service: seq<char>): (t: seq<char>)
    requires Crypto.Valid(p)
    ensures |t| == 44
  {
    Base64.DigestEncodingShape(Base64.UrlSafe, p.sha256(hash + ":" + service));
    Base64.Encode(Base64.UrlSafe, p.sha256(hash + ":" + service))
  }

  /** `derive_service_credential(service, length=16)`: None when inactive or
      without a hash; otherwise `CredentialText[:length]` with Python's
      slicing, so a negative length counts from the end. */
  function DeriveServiceCredential(p: Crypto.Primitives, w: World, service: seq<char>, length: int := 16)
    : (r: Option<seq<char>>)
    requires Crypto.Valid(p)
    ensures !w.manager.isActive ==> r.None?
    ensures r.Some? ==> w.manager.isActive && Truthy(w.manager.sessionHash)
    ensures r.Some? ==> StartsWith(CredentialText(p, w.manager.sessionHash.value, service), r.value)
    ensures r.Some? && length >= 0 ==> |r.value| == if length < 44 then length else 44
    ensures r.Some? && length < 0 ==> |r.value| == if length > -44 then 44 + length else 0
    ensures w.manager.isActive && Truthy(w.manager.sessionHash) ==> r.Some?
  {
    var m := w.manager;
    if !m.isActive || !Truthy(m.sessionHash) then None
    else Some(PyPrefix(CredentialText(p, m.sessionHash.value, service), length))
  }

  /** `burn_session`: only when the hash is truthy, every field is cleared and
      the session deactivated whatever `rmtree` does; the sandbox is removed
      from the disk, or left with the files `rmtree` did not reach. */
  function BurnSession(w: World, removal: Removal): (r: World)
    ensures !Truthy(w.manager.sessionHash) ==> r == w
    ensures Truthy(w.manager.sessionHash) ==> r.manager == Init()
    ensures forall d :: d in w.disk && Some(d) != w.manager.sandboxPath ==> d in r.disk && r.disk[d] == w.disk[d]
    ensures r.disk.Keys <= w.disk.Keys
  {
    var m := w.manager;
    if !Truthy(m.sessionHash) then w
    else
      var disk :=
        if Truthy(m.sandboxPath) && m.sandboxPath.value in w.disk then
          var sb := m.sandboxPath.value;
          match removal
          case Removed => w.disk - {sb}
          case Interrupted(left) => w.disk[sb := map f | f in w.disk[sb] && f in left :: w.disk[sb][f]]
        else w.disk;
      World(Init(), disk)
  }

  /** `regenerate_session`: burn, then start afresh. */
  function RegenerateSession(p: Crypto.Primitives, w: World, removal: Removal, env: StartInputs): (r: World)
    requires Crypto.Valid(p)
    requires FreshDir(BurnSession(w, removal).disk, env.tempDir)
    ensures r.manager.isActive && Consistent(p, r)
    ensures r.disk[r.manager.sandboxPath.value] == map[]
  {
    Start(p, BurnSession(w, removal), env)
  }

  /** `start_session` when `mkdtemp` raises (a full or unwritable temporary
      directory): the salt, hash, start time and key are already replaced,
      the sandbox path and `is_active` keep their old values, and the error
      propagates to the caller. */
  function StartRaised(p: Crypto.Primitives, w: World, env: StartInputs): (r: World)
    requires Crypto.Valid(p)
    ensures r.disk == w.disk
    ensures r.manager.isActive == w.manager.isActive && r.manager.sandboxPath == w.manager.sandboxPath
    ensures Truthy(r.manager.sessionHash) && r.manager.salt.Some? && r.manager.startTime == Some(env.startTime)
    ensures r.manager.vaultKey == Some(Crypto.DeriveKey(p, r.manager.sessionHash.value))
  {
    var m := Started(p, env);
    World(m.(sandboxPath := w.manager.sandboxPath, isActive := w.manager.isActive), w.disk)
  }

  /** `regenerate_session` when the `mkdtemp` of its start raises: the burn
      has happened, and the start stops after setting the hash and key. */
  function RegenerateRaised(p: Crypto.Primitives, w: World, removal: Removal, env: StartInputs): (r: World)
    requires Crypto.Valid(p)
    ensures r.disk == BurnSession(w, removal).disk
    ensures Truthy(w.manager.sessionHash) ==> !r.manager.isActive && r.manager.sandboxPath.None?
    ensures Truthy(r.manager.sessionHash)
  {
    StartRaised(p, BurnSession(w, removal), env)
  }
}
