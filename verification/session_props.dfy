/** Properties of the session life cycle: the invariant is kept by every
    operation, secrets round-trip while the session lives, and nothing is
    visible once it is burned. */
module SessionProperties {
  import opened Common
  import Crypto
  import opened Session

  /** Inside an active consistent world: the sandbox directory. */
  function Sandbox(w: World): Dir
    requires w.manager.sandboxPath.Some? && w.manager.sandboxPath.value in w.disk
  {
    w.disk[w.manager.sandboxPath.value]
  }

  lemma StorePreservesConsistent(p: Crypto.Primitives, w: World, name: seq<char>, content: seq<char>,
                                 nonce: Crypto.FernetNonce)
    requires Crypto.Valid(p) && Consistent(p, w)
    ensures Consistent(p, StoreSecret(p, w, name, content, nonce).world)
  {
    var r := StoreSecret(p, w, name, content, nonce);
    if r.ok {
      var sb := w.manager.sandboxPath.value;
      ResolvedFileName(name);
      forall f | f in r.world.disk[sb] ensures EndsWith(f, Extension) && Creatable(f) {
        if f != Resolve(FileName(name)).value {
          assert f in w.disk[sb];
        }
      }
    }
  }

  /** While active, a store succeeds exactly when `name.enc` reaches a file
      of the sandbox; in particular whenever it is a plain file name. */
  lemma StoreSucceeds(p: Crypto.Primitives, w: World, name: seq<char>, content: seq<char>,
                      nonce: Crypto.FernetNonce)
    requires Crypto.Valid(p) && Consistent(p, w) && w.manager.isActive
    ensures StoreSecret(p, w, name, content, nonce).ok <==> Resolve(FileName(name)).Some?
    ensures Creatable(FileName(name)) ==> StoreSecret(p, w, name, content, nonce).ok
  {
    PlainNameResolvesToItself(name);
  }

  /** A plain `name.enc` is the entry it names. */
  lemma PlainNameResolvesToItself(name: seq<char>)
    ensures Creatable(FileName(name)) ==> Resolve(FileName(name)) == Some(FileName(name))
  {
    var f := FileName(name);
    if Creatable(f) {
      assert f[|f| - 1] == 'c';
      assert f[0] != '/' && f[1] != '/';
    }
  }

  /** A leading `./` names the same file: `./x` is stored and retrieved as
      `x`. */
  lemma DotSlashIsSameName(name: seq<char>)
    requires |name| == 0 || name[0] != '/'
    ensures Resolve(FileName("./" + name)) == Resolve(FileName(name))
  {
    var f := FileName(name);
    var g := FileName("./" + name);
    assert g == "./" + f;
    assert g[2..] == f && g[0] == '.' && g[1] == '/';
    assert f[0] != '/' by {
      if |name| == 0 { assert f == Extension; } else { assert f[0] == name[0]; }
    }
    assert '\0' in g <==> '\0' in f by {
      forall i | 0 <= i < |f| ensures g[i + 2] == f[i] { }
    }
  }

  /** `store_secret("./x", c)` succeeds, and `x` then retrieves `c`. */
  lemma DotSlashRoundTrip(p: Crypto.Primitives, w: World, name: seq<char>, content: seq<char>,
                          nonce: Crypto.FernetNonce)
    requires Crypto.Valid(p) && Consistent(p, w) && w.manager.isActive
    requires Creatable(FileName(name))
    ensures var r := StoreSecret(p, w, "./" + name, content, nonce);
      && r.ok
      && RetrieveSecret(p, r.world, name) == Some(content)
      && RetrieveSecret(p, r.world, "./" + name) == Some(content)
  {
    assert |name| == 0 || name[0] != '/' by {
      if |name| > 0 { assert FileName(name)[0] == name[0]; }
    }
    DotSlashIsSameName(name);
    PlainNameResolvesToItself(name);
    var r := StoreSecret(p, w, "./" + name, content, nonce);
    RetrieveAfterStore(p, w, "./" + name, content, nonce);
    SameEntrySameSecret(p, r.world, name, "./" + name);
  }

  /** Names that reach the same file are the same secret. */
  lemma SameEntrySameSecret(p: Crypto.Primitives, w: World, a: seq<char>, b: seq<char>)
    requires Crypto.Valid(p)
    requires Resolve(FileName(a)) == Resolve(FileName(b))
    ensures RetrieveSecret(p, w, a) == RetrieveSecret(p, w, b)
    ensures forall content, nonce :: StoreSecret(p, w, a, content, nonce) == StoreSecret(p, w, b, content, nonce)
  {
  }

  /** Round trip: what was stored under a name is what is retrieved. */
  lemma RetrieveAfterStore(p: Crypto.Primitives, w: World, name: seq<char>, content: seq<char>,
                           nonce: Crypto.FernetNonce)
    requires Crypto.Valid(p) && Consistent(p, w) && w.manager.isActive
    requires Resolve(FileName(name)).Some?
    ensures RetrieveSecret(p, StoreSecret(p, w, name, content, nonce).world, name) == Some(content)
  {
    var r := StoreSecret(p, w, name, content, nonce);
    var sb := w.manager.sandboxPath.value;
    var f := Resolve(FileName(name)).value;
    assert r.world.disk[sb][f] == p.encrypt(w.manager.vaultKey.value, nonce, content);
  }

  lemma FileNameInjective(a: seq<char>, b: seq<char>)
    requires FileName(a) == FileName(b)
    ensures a == b
  {
    assert |a| == |b|;
    assert a == FileName(a)[..|a|];
  }

  /** Storing one name leaves the retrieval of every name that reaches
      another file as it was; two different plain names always do. */
  lemma StoreLeavesOthers(p: Crypto.Primitives, w: World, name: seq<char>, other: seq<char>,
                          content: seq<char>, nonce: Crypto.FernetNonce)
    requires Crypto.Valid(p) && Consistent(p, w)
    requires Resolve(FileName(other)) != Resolve(FileName(name)) || Resolve(FileName(name)).None?
    ensures RetrieveSecret(p, StoreSecret(p, w, name, content, nonce).world, other) == RetrieveSecret(p, w, other)
  {
  }

  lemma PlainNamesAreDistinct(a: seq<char>, b: seq<char>)
    requires Creatable(FileName(a)) && Creatable(FileName(b)) && a != b
    ensures Resolve(FileName(a)) != Resolve(FileName(b))
  {
    PlainNameResolvesToItself(a);
    PlainNameResolvesToItself(b);
    if FileName(a) == FileName(b) {
      FileNameInjective(a, b);
    }
  }

  /** A later store to the same name wins. */
  lemma LaterStoreOverwrites(p: Crypto.Primitives, w: World, name: seq<char>, c1: seq<char>, c2: seq<char>,
                             n1: Crypto.FernetNonce, n2: Crypto.FernetNonce)
    requires Crypto.Valid(p) && Consistent(p, w) && w.manager.isActive
    requires Resolve(FileName(name)).Some?
    ensures var w1 := StoreSecret(p, w, name, c1, n1).world;
            RetrieveSecret(p, StoreSecret(p, w1, name, c2, n2).world, name) == Some(c2)
  {
    var w1 := StoreSecret(p, w, name, c1, n1).world;
    StorePreservesConsistent(p, w, name, c1, n1);
    RetrieveAfterStore(p, w1, name, c2, n2);
  }

  /** A file that does not decrypt reads as absent, exactly like a file that
      is not there. */
  lemma UndecryptableIsAbsent(p: Crypto.Primitives, w: World, name: seq<char>)
    requires Crypto.Valid(p) && Consistent(p, w) && w.manager.isActive
    requires Resolve(FileName(name)).Some? && Resolve(FileName(name)).value in Sandbox(w)
    requires p.decrypt(w.manager.vaultKey.value, Sandbox(w)[Resolve(FileName(name)).value]).None?
    ensures RetrieveSecret(p, w, name).None?
  {
  }

  lemma NeverStoredIsAbsent(p: Crypto.Primitives, w: World, name: seq<char>)
    requires Crypto.Valid(p) && Consistent(p, w) && w.manager.isActive
    requires Resolve(FileName(name)).None? || Resolve(FileName(name)).value !in Sandbox(w)
    ensures RetrieveSecret(p, w, name).None?
  {
  }

  /** Removing `.enc` from a name that does not otherwise contain it gives
      the name back: `.enc` cannot overlap itself. */
  lemma {:induction false} StripExtension(g: seq<char>)
    requires !Contains(g, Extension)
    ensures ReplaceAll(FileName(g), Extension, []) == g
    decreases |g|
  {
    var s := FileName(g);
    if |g| == 0 {
      assert s == Extension;
      assert s[|Extension|..] == [];
    } else {
      assert !StartsWith(s, Extension) by {
        if |g| >= 4 {
          assert s[..4] == g[..4];
        } else {
          assert s[|g|] == '.';
        }
      }
      assert s[1..] == FileName(g[1..]);
      StripExtension(g[1..]);
      assert [g[0]] + g[1..] == g;
    }
  }

  /** When no stored name contains `.enc`, `get_secrets_list` lists exactly
      the stored names. */
  lemma ListIsStoredNames(p: Crypto.Primitives, w: World, order: seq<seq<char>>)
    requires Crypto.Valid(p) && Consistent(p, w) && w.manager.isActive
    requires IsListing(order, Sandbox(w))
    requires forall f :: f in Sandbox(w) ==> exists g :: f == FileName(g) && !Contains(g, Extension)
    ensures forall n :: !Contains(n, Extension) ==> (n in SecretsList(w, order) <==> FileName(n) in Sandbox(w))
  {
    var names := SecretsList(w, order);
    forall n | !Contains(n, Extension)
      ensures n in names <==> FileName(n) in Sandbox(w)
    {
      if FileName(n) in Sandbox(w) {
        StripExtension(n);
        assert EndsWith(FileName(n), Extension) by {
          assert FileName(n)[|n|..] == Extension;
        }
        assert FileName(n) in order;
      }
      if n in names {
        var f :| f in order && EndsWith(f, Extension) && n == ReplaceAll(f, Extension, []);
        var g :| f == FileName(g) && !Contains(g, Extension);
        StripExtension(g);
      }
    }
  }

  lemma StripInnerExample()
    ensures ReplaceAll("a.enc.enc", Extension, []) == "a"
  {
    var s: seq<char> := "a.enc.enc";
    assert !StartsWith(s, Extension);
    assert s[1..] == Extension + Extension;
    assert StartsWith(s[1..], Extension);
    assert s[1..][4..] == Extension;
    assert StartsWith(Extension, Extension);
    assert Extension[4..] == [];
  }

  /** The listing strips `.enc` wherever it occurs: a secret stored as
      `a.enc` is listed as `a`, a name under which nothing can be
      retrieved. */
  lemma ListStripsInnerExtension(p: Crypto.Primitives, w: World, content: seq<char>, nonce: Crypto.FernetNonce)
    requires Crypto.Valid(p) && Consistent(p, w) && w.manager.isActive
    requires Sandbox(w) == map[]
    ensures var w2 := StoreSecret(p, w, "a.enc", content, nonce);
      && w2.ok
      && w2.world.manager == w.manager
      && Sandbox(w2.world).Keys == {"a.enc.enc"}
      && IsListing(["a.enc.enc"], Sandbox(w2.world))
      && SecretsList(w2.world, ["a.enc.enc"]) == ["a"]
      && RetrieveSecret(p, w2.world, "a").None?
      && RetrieveSecret(p, w2.world, "a.enc") == Some(content)
  {
    var w2 := StoreSecret(p, w, "a.enc", content, nonce);
    StoreInnerName(p, w, "a.enc", content, nonce);
    InnerNameListing(Sandbox(w2.world));
    PlainNameResolvesToItself("a");
    RetrieveAfterStore(p, w, "a.enc", content, nonce);
  }

  /** Storing `a.enc` in an empty sandbox writes the one file `a.enc.enc`. */
  lemma StoreInnerName(p: Crypto.Primitives, w: World, name: seq<char>, content: seq<char>,
                       nonce: Crypto.FernetNonce)
    requires Crypto.Valid(p) && Consistent(p, w) && w.manager.isActive
    requires Sandbox(w) == map[] && name == "a.enc"
    ensures var w2 := StoreSecret(p, w, name, content, nonce);
      && w2.ok
      && w2.world.manager == w.manager
      && Sandbox(w2.world).Keys == {"a.enc.enc"}
  {
    assert FileName(name) == "a.enc.enc";
    StoreIntoEmpty(p, w, name, content, nonce);
  }

  /** A plain name stored in an empty sandbox is its only file. */
  lemma StoreIntoEmpty(p: Crypto.Primitives, w: World, name: seq<char>, content: seq<char>,
                       nonce: Crypto.FernetNonce)
    requires Crypto.Valid(p) && Consistent(p, w) && w.manager.isActive
    requires Sandbox(w) == map[] && Creatable(FileName(name))
    ensures var w2 := StoreSecret(p, w, name, content, nonce);
      && w2.ok
      && w2.world.manager == w.manager
      && Sandbox(w2.world).Keys == {FileName(name)}
  {
    PlainNameResolvesToItself(name);
  }

  /** A directory holding only `a.enc.enc` is listed as `a`, and has no
      `a.enc`. */
  lemma InnerNameListing(dir: Dir)
    requires dir.Keys == {"a.enc.enc"}
    ensures IsListing(["a.enc.enc"], dir)
    ensures SecretNames(["a.enc.enc"]) == ["a"]
    ensures FileName("a") !in dir
  {
    StripInnerExample();
    assert EndsWith("a.enc.enc", Extension);
    assert FileName("a") != "a.enc.enc";
  }

  /** With the correction, the listing is exactly the stored names, whatever
      they contain. */
  lemma StoredListIsStoredNames(p: Crypto.Primitives, w: World, order: seq<seq<char>>, name: seq<char>)
    requires Crypto.Valid(p) && Consistent(p, w) && w.manager.isActive
    requires IsListing(order, Sandbox(w))
    ensures name in StoredSecretsList(w, order) <==> FileName(name) in Sandbox(w)
  {
  }

  lemma BurnPreservesConsistent(p: Crypto.Primitives, w: World, removal: Removal)
    requires Crypto.Valid(p) && Consistent(p, w)
    ensures Consistent(p, BurnSession(w, removal))
  {
  }

  /** Burning twice is burning once. */
  lemma BurnIdempotent(w: World, r1: Removal, r2: Removal)
    ensures BurnSession(BurnSession(w, r1), r2) == BurnSession(w, r1)
  {
  }

  /** After a burn nothing of the session can be read: no secret, no name, no
      credential — however the sandbox removal went. */
  lemma NothingAfterBurn(p: Crypto.Primitives, w: World, removal: Removal, name: seq<char>,
                         service: seq<char>, order: seq<seq<char>>)
    requires Crypto.Valid(p) && Consistent(p, w)
    ensures var b := BurnSession(w, removal);
      && !b.manager.isActive
      && RetrieveSecret(p, b, name).None?
      && SecretsList(b, order) == []
      && DeriveServiceCredential(p, b, service).None?
  {
  }

  /** A complete removal deletes the sandbox from the disk. */
  lemma BurnRemovesSandbox(p: Crypto.Primitives, w: World)
    requires Crypto.Valid(p) && Consistent(p, w) && w.manager.isActive
    ensures w.manager.sandboxPath.value !in BurnSession(w, Removed).disk
  {
  }

  /** `start_session` on a live session abandons its sandbox on the disk,
      with its encrypted files still in it. */
  lemma StartOnActiveKeepsOldSandbox(p: Crypto.Primitives, w: World, env: StartInputs)
    requires Crypto.Valid(p) && Consistent(p, w) && w.manager.isActive
    requires FreshDir(w.disk, env.tempDir)
    ensures var sb := w.manager.sandboxPath.value;
      var r := Start(p, w, env);
      && sb in r.disk && r.disk[sb] == w.disk[sb]
      && r.manager.sandboxPath != Some(sb)
  {
  }

  /** A regenerated session starts with an empty vault: no name is listed
      (the only listing of its empty sandbox is the empty one) and none
      retrieves. */
  lemma RegenerateIsEmpty(p: Crypto.Primitives, w: World, removal: Removal, env: StartInputs,
                          name: seq<char>)
    requires Crypto.Valid(p)
    requires FreshDir(BurnSession(w, removal).disk, env.tempDir)
    ensures var r := RegenerateSession(p, w, removal, env);
      && SecretsList(r, []) == []
      && RetrieveSecret(p, r, name).None?
  {
    var r := RegenerateSession(p, w, removal, env);
    assert r.disk[r.manager.sandboxPath.value] == map[];
  }

  /** `get_hash` reports a hash exactly while the session is active. */
  lemma HashPresentIffActive(p: Crypto.Primitives, w: World)
    requires Crypto.Valid(p) && Consistent(p, w)
    ensures GetHash(w).Some? <==> w.manager.isActive
  {
  }

  /** A start whose `mkdtemp` raises has drawn the same salt, hash, start
      time and key as one that succeeds with the same inputs; only the
      sandbox and the activation are missing. */
  lemma StartRaisedDrawsSameSession(p: Crypto.Primitives, w: World, env: StartInputs)
    requires Crypto.Valid(p) && FreshDir(w.disk, env.tempDir)
    ensures var ok := Start(p, w, env).manager;
      StartRaised(p, w, env).manager == ok.(sandboxPath := w.manager.sandboxPath, isActive := w.manager.isActive)
  {
  }

  /** When the start inside `regenerate_session` raises, the manager is left
      inactive and without a sandbox but with a hash and a key: `get_hash`
      reports a hash while nothing else works, and the life-cycle invariant
      is broken. */
  lemma RegenerateRaisedReportsHash(p: Crypto.Primitives, w: World, removal: Removal, env: StartInputs,
                                    name: seq<char>, content: seq<char>, nonce: Crypto.FernetNonce,
                                    service: seq<char>, length: int)
    requires Crypto.Valid(p) && Consistent(p, w)
    ensures var r := RegenerateRaised(p, w, removal, env);
      && !r.manager.isActive && r.manager.sandboxPath.None?
      && GetHash(r).Some? && r.manager.vaultKey.Some?
      && !Consistent(p, r)
      && StoreSecret(p, r, name, content, nonce) == Stored(false, r)
      && RetrieveSecret(p, r, name).None?
      && SecretsList(r, []) == []
      && DeriveServiceCredential(p, r, service, length).None?
  {
    var b := BurnSession(w, removal);
    assert !b.manager.isActive && b.manager.sandboxPath.None? by {
      if !Truthy(w.manager.sessionHash) {
        assert w.manager.sessionHash.None?;
      }
    }
  }

  /** The next burn clears that state: every field is empty again, the disk
      is unchanged and the invariant holds once more. */
  lemma BurnAfterRaisedStart(p: Crypto.Primitives, w: World, env: StartInputs, removal: Removal)
    requires Crypto.Valid(p) && Consistent(p, w) && !w.manager.isActive
    ensures var r := BurnSession(StartRaised(p, w, env), removal);
      && r.manager == Init() && r.disk == w.disk && Consistent(p, r)
  {
    var s := StartRaised(p, w, env);
    assert s.manager.sandboxPath.None?;
  }

  /** Credentials depend on the session hash and the service name only. */
  lemma CredentialDeterministic(p: Crypto.Primitives, w1: World, w2: World, service: seq<char>, length: int)
    requires Crypto.Valid(p) && Consistent(p, w1) && Consistent(p, w2)
    requires w1.manager.isActive && w2.manager.isActive
    requires w1.manager.sessionHash == w2.manager.sessionHash
    ensures DeriveServiceCredential(p, w1, service, length) == DeriveServiceCredential(p, w2, service, length)
    ensures DeriveServiceCredential(p, w1, service, length).Some?
  {
  }
}
