/** What `secure_delete`, `encrypt` and `decrypt` in app/commands.py do to a
    single file, and what they promise for a whole tree, as functions and
    lemmas the walks in Commands.Host are proved against. */
module Walks {
  import opened Wrappers
  import opened Bytes
  import opened Paths
  import opened Exceptions
  import opened Tree
  import Crypto
  import Utf8

  // ---- secure_delete ----------------------------------------------------

  /** `str.replace(c, '')`. */
  function Without(s: string, c: char): (r: string)
    ensures c !in r
    ensures forall x :: x != c ==> (x in r <==> x in s)
  {
    if s == [] then [] else (if s[0] == c then [] else [s[0]]) + Without(s[1..], c)
  }

  lemma WithoutFirst(s: string, c: char)
    requires s != []
    ensures Without(s, c) == (if s[0] == c then [] else [s[0]]) + Without(s[1..], c)
  {
  }

  /** The options handed to `shred`: `v` only when `verbose`. */
  function ShredOptions(verbose: bool): (o: string)
    ensures 'v' in o <==> verbose
    ensures forall x :: x != 'v' ==> (x in o <==> x in "fuxz")
  {
    if verbose then "fuvxz" else Without("fuvxz", 'v')
  }

  /** `encrypt` and `decrypt` erase through `secure_delete(..., verbose=False)`. */
  lemma QuietOptions()
    ensures ShredOptions(false) == "fuxz" && ShredOptions(true) == "fuvxz"
  {
    WithoutFirst("z", 'v');
    WithoutFirst("xz", 'v');
    WithoutFirst("vxz", 'v');
    WithoutFirst("uvxz", 'v');
    WithoutFirst("fuvxz", 'v');
  }

  function ErasePrompt(isDir: bool, path: Path): string
  {
    if isDir then
      "\U{BF}Seguro desea eliminar permanentemente todos los archivos del directorio \"" + path + "\"? N/y: "
    else
      "\U{BF}Seguro desea eliminar permanentemente el archivo \"" + path + "\"? N/y: "
  }

  /** The message `secure_delete` and `encrypt` raise for a missing path. */
  function InvalidPath(path: Path): string
  {
    "\"" + path + "\" no es un archivo o directorio v\U{E1}lido."
  }

  /** The message `decrypt` raises for a missing path. */
  function InvalidDecryptPath(path: Path): string
  {
    "\"" + path + "\" is not valid file or directory."
  }

  // ---- One file ---------------------------------------------------------

  /** The outcome of one call: how it ended, the new tree, the shreds run. */
  datatype Step = Step(status: Status, fs: Fs, shredded: seq<ShredCall>)

  /** Write `payload` to `target`; then, with `delete`, shred `path` quietly. */
  function Finish(m: Fs, target: Path, payload: seq<byte>, path: Path, delete: bool): Step
  {
    match Write(m, target, payload)
    case Err(e) => Step(Raised(e), m, [])
    case Ok(m') =>
      if delete then Step(Returned, m' - {path}, [ShredCall(path, ShredOptions(false))])
      else Step(Returned, m', [])
  }

  /** `encrypt` on a file or link: read it, write the token next to it under
      `path + ".encrypted"`, then, with `delete`, shred the original quietly. */
  function SealLeaf(m: Fs, path: Path, passphrase: string, md5: seq<byte> -> Crypto.Digest, delete: bool): Step
    requires IsLeaf(m, path)
  {
    match Read(m, path)
    case Err(e) => Step(Raised(e), m, [])
    case Ok(data) => Finish(m, path + Suffix, Crypto.EncryptText(Crypto.Raw(data), passphrase, md5), path, delete)
  }

  /** `decrypt` on a file or link: read it, decrypt it (a wrong key raises
      before anything is written), write the plaintext under the path with
      its first `.encrypted` removed, then, with `delete`, shred `path`. */
  function OpenLeaf(m: Fs, path: Path, passphrase: string, md5: seq<byte> -> Crypto.Digest, delete: bool): Step
    requires IsLeaf(m, path)
  {
    match Read(m, path)
    case Err(e) => Step(Raised(e), m, [])
    case Ok(token) =>
      match Crypto.DecryptText(Crypto.Raw(token), passphrase, md5)
      case Err(e) => Step(Raised(e), m, [])
      case Ok(plain) => Finish(m, Strip(path), plain, path, delete)
  }

  // ---- Whole trees ------------------------------------------------------

  /** What `encrypt` writes for the leaves `l`: each file's token next to it. */
  ghost function SealPlan(m: Fs, l: set<Path>, passphrase: string, md5: seq<byte> -> Crypto.Digest): map<Path, Artifact>
  {
    map q | q in l && q in m && m[q].File? ::
      Artifact(q + Suffix, Crypto.EncryptText(Crypto.Raw(m[q].data), passphrase, md5))
  }

  /** Every leaf below `p` is a regular file whose `.encrypted` name is free. */
  ghost predicate Sealable(m: Fs, p: Path)
  {
    forall q :: q in Leaves(m, p) ==> m[q].File? && q + Suffix !in m
  }

  /** What `decrypt` writes for the leaves `l`: each token's plaintext under
      the name without the marker. */
  ghost function OpenPlan(m: Fs, l: set<Path>, passphrase: string, md5: seq<byte> -> Crypto.Digest): map<Path, Artifact>
  {
    map q | q in l && q in m && m[q].File? && Marked(q)
              && Crypto.DecryptText(Crypto.Raw(m[q].data), passphrase, md5).Ok? ::
      Artifact(Original(q), Crypto.DecryptText(Crypto.Raw(m[q].data), passphrase, md5).value)
  }

  /** Every leaf below `p` is a regular file named like an artifact, whose
      original name is free and can hold a file, and whose token opens
      under `passphrase`. */
  ghost predicate Openable(m: Fs, p: Path, passphrase: string, md5: seq<byte> -> Crypto.Digest)
  {
    forall q :: q in Leaves(m, p) ==>
      && m[q].File? && Marked(q)
      && Original(q) !in m && !IsRoot(Original(q)) && ValidName(Name(Original(q)))
      && Crypto.DecryptText(Crypto.Raw(m[q].data), passphrase, md5).Ok?
  }

  // ---- Lemmas: one file -------------------------------------------------

  /** Whatever happens to one file, the tree keeps its shape and its
      directories, at most that file disappears, a failure changes nothing,
      and only a quiet shred of that file is run. */
  lemma FinishShape(m: Fs, target: Path, payload: seq<byte>, path: Path, delete: bool)
    requires WellFormed(m) && IsLeaf(m, path)
    ensures var s := Finish(m, target, payload, path, delete);
      && WellFormed(s.fs) && Dirs(s.fs) == Dirs(m)
      && (forall k :: k in m && k !in s.fs ==> k == path)
      && (s.status.Raised? ==> s.status.error.OSError? && s.fs == m && s.shredded == [])
      && s.shredded == (if s.status.Returned? && delete then [ShredCall(path, ShredOptions(false))] else [])
  {
    var w := Write(m, target, payload);
    if w.Ok? {
      FinishWritten(m, target, payload, path, delete, w.value);
      WriteKeepsShape(m, target, payload, w.value);
      WrittenShape(m, w.value, path, delete);
    }
  }

  /** The tree after a successful write, with `path` shredded or not, keeps
      the original's shape and directories and loses at most `path`. */
  lemma WrittenShape(m: Fs, m1: Fs, path: Path, delete: bool)
    requires WellFormed(m1) && Dirs(m1) == Dirs(m) && m.Keys <= m1.Keys && IsLeaf(m1, path)
    ensures var n := if delete then m1 - {path} else m1;
      && WellFormed(n) && Dirs(n) == Dirs(m)
      && (forall k :: k in m && k !in n ==> k == path)
  {
    RemoveKeepsShape(m1, {path});
  }

  /** Once the write has succeeded, what is left of `Finish`: the written
      tree is still well formed and `path` is still a leaf in it. */
  lemma FinishWritten(m: Fs, target: Path, payload: seq<byte>, path: Path, delete: bool, m1: Fs)
    requires WellFormed(m) && IsLeaf(m, path)
    requires Write(m, target, payload) == Ok(m1)
    ensures WellFormed(m1) && IsLeaf(m1, path)
    ensures Finish(m, target, payload, path, delete) ==
      if delete then Step(Returned, m1 - {path}, [ShredCall(path, ShredOptions(false))])
      else Step(Returned, m1, [])
  {
    WriteKeepsShape(m, target, payload, m1);
  }

  lemma SealLeafShape(m: Fs, path: Path, passphrase: string, md5: seq<byte> -> Crypto.Digest, delete: bool)
    requires WellFormed(m) && IsLeaf(m, path)
    ensures var s := SealLeaf(m, path, passphrase, md5, delete);
      && WellFormed(s.fs) && Dirs(s.fs) == Dirs(m)
      && (forall k :: k in m && k !in s.fs ==> k == path)
      && (s.status.Raised? ==> s.status.error.OSError? && s.fs == m && s.shredded == [])
      && s.shredded == (if s.status.Returned? && delete then [ShredCall(path, ShredOptions(false))] else [])
  {
    var rd := Read(m, path);
    if rd.Ok? {
      FinishShape(m, path + Suffix, Crypto.EncryptText(Crypto.Raw(rd.value), passphrase, md5), path, delete);
    }
  }

  /** A step on a single leaf removes at most that leaf and shreds at most
      it, quietly. */
  lemma QuietLeafStep(m: Fs, fs: Fs, t0: seq<ShredCall>, path: Path, shredded: seq<ShredCall>)
    requires WellFormed(m) && IsLeaf(m, path)
    requires forall k :: k in m && k !in fs ==> k == path
    requires shredded == [] || shredded == [ShredCall(path, ShredOptions(false))]
    ensures RunsSince(t0, t0 + shredded, ShredOptions(false))
    ensures RemovedWithin(m, fs, Leaves(m, path))
  {
    LeafAlone(m, path);
    assert (t0 + shredded)[..|t0|] == t0;
  }

  lemma OpenLeafShape(m: Fs, path: Path, passphrase: string, md5: seq<byte> -> Crypto.Digest, delete: bool)
    requires WellFormed(m) && IsLeaf(m, path)
    ensures var s := OpenLeaf(m, path, passphrase, md5, delete);
      && WellFormed(s.fs) && Dirs(s.fs) == Dirs(m)
      && (forall k :: k in m && k !in s.fs ==> k == path)
      && (s.status.Raised? ==> (s.status.error.OSError? || s.status.error == ValueError(Crypto.WrongKeyMessage))
                               && s.fs == m && s.shredded == [])
      && s.shredded == (if s.status.Returned? && delete then [ShredCall(path, ShredOptions(false))] else [])
  {
    var rd := Read(m, path);
    if rd.Ok? {
      var dt := Crypto.DecryptText(Crypto.Raw(rd.value), passphrase, md5);
      if dt.Ok? {
        FinishShape(m, Strip(path), dt.value, path, delete);
      }
    }
  }

  /** With the target free and able to hold a file, `Finish` carries out the
      one-entry plan from `path` to `target`. */
  lemma FinishClean(m: Fs, target: Path, payload: seq<byte>, path: Path, delete: bool)
    requires WellFormed(m) && IsLeaf(m, path)
    requires target !in m && Storable(m, target)
    ensures var s := Finish(m, target, payload, path, delete);
      && s.status == Returned
      && Applied(m, s.fs, map[path := Artifact(target, payload)], delete)
      && ShredsExactly(s.shredded, if delete then {path} else {}, ShredOptions(false))
  {
    assert Write(m, target, payload) == Ok(m[target := File(payload)]);
    AppliedOne(m, path, Artifact(target, payload), delete);
    ShredsNone(ShredOptions(false));
    ShredsOne(path, ShredOptions(false));
  }

  lemma SealTargetFree(m: Fs, path: Path)
    requires WellFormed(m) && IsLeaf(m, path) && Sealable(m, path)
    ensures path + Suffix !in m && Storable(m, path + Suffix)
  {
    LeafAlone(m, path);
    assert path in Leaves(m, path);
    assert Placed(m, path);
    SuffixSibling(path);
  }

  lemma SealPlanOne(m: Fs, path: Path, passphrase: string, md5: seq<byte> -> Crypto.Digest)
    requires path in m && m[path].File?
    ensures SealPlan(m, {path}, passphrase, md5)
         == map[path := Artifact(path + Suffix, Crypto.EncryptText(Crypto.Raw(m[path].data), passphrase, md5))]
  {
  }

  lemma OpenPlanOne(m: Fs, path: Path, passphrase: string, md5: seq<byte> -> Crypto.Digest)
    requires path in m && m[path].File? && Marked(path)
    requires Crypto.DecryptText(Crypto.Raw(m[path].data), passphrase, md5).Ok?
    ensures OpenPlan(m, {path}, passphrase, md5)
         == map[path := Artifact(Original(path), Crypto.DecryptText(Crypto.Raw(m[path].data), passphrase, md5).value)]
  {
  }

  /** A regular file whose `.encrypted` name is free gets exactly its token
      written there, and is erased only with `delete`. */
  lemma SealLeafClean(m: Fs, path: Path, passphrase: string, md5: seq<byte> -> Crypto.Digest, delete: bool)
    requires WellFormed(m) && IsLeaf(m, path) && Sealable(m, path)
    ensures var s := SealLeaf(m, path, passphrase, md5, delete);
      && s.status == Returned
      && Applied(m, s.fs, SealPlan(m, Leaves(m, path), passphrase, md5), delete)
      && ShredsExactly(s.shredded, if delete then Leaves(m, path) else {}, ShredOptions(false))
  {
    LeafAlone(m, path);
    SealTargetFree(m, path);
    var token := Crypto.EncryptText(Crypto.Raw(m[path].data), passphrase, md5);
    assert Read(m, path) == Ok(m[path].data);
    assert SealLeaf(m, path, passphrase, md5, delete) == Finish(m, path + Suffix, token, path, delete);
    SealPlanOne(m, path, passphrase, md5);
    FinishClean(m, path + Suffix, token, path, delete);
  }

  /** A regular file named like an artifact whose original name is free and
      whose token opens gets its plaintext written under the original name,
      and is erased only with `delete`. */
  lemma OpenLeafClean(m: Fs, path: Path, passphrase: string, md5: seq<byte> -> Crypto.Digest, delete: bool)
    requires WellFormed(m) && IsLeaf(m, path) && Openable(m, path, passphrase, md5)
    ensures var s := OpenLeaf(m, path, passphrase, md5, delete);
      && s.status == Returned
      && Applied(m, s.fs, OpenPlan(m, Leaves(m, path), passphrase, md5), delete)
      && ShredsExactly(s.shredded, if delete then Leaves(m, path) else {}, ShredOptions(false))
  {
    LeafAlone(m, path);
    assert Placed(m, path);
    var o := Original(path);
    MarkedStrip(path);
    SuffixSibling(o);
    var plain := Crypto.DecryptText(Crypto.Raw(m[path].data), passphrase, md5).value;
    assert Read(m, path) == Ok(m[path].data);
    assert OpenLeaf(m, path, passphrase, md5, delete) == Finish(m, o, plain, path, delete);
    assert Storable(m, o);
    OpenPlanOne(m, path, passphrase, md5);
    FinishClean(m, o, plain, path, delete);
  }

  /** `encrypt` then `decrypt`, both with their default `delete=True`, on a
      regular file whose name holds no `.encrypted` and whose artifact name
      is free: the tree comes back exactly as it was, after one quiet shred
      of the file and one of its token. */
  lemma LeafRoundTrip(m: Fs, path: Path, passphrase: string, md5: seq<byte> -> Crypto.Digest)
    requires WellFormed(m) && IsLeaf(m, path) && m[path].File?
    requires path + Suffix !in m && !Contains(path, Suffix)
    ensures var s1 := SealLeaf(m, path, passphrase, md5, true);
      && s1.status == Returned && s1.shredded == [ShredCall(path, ShredOptions(false))]
      && IsLeaf(s1.fs, path + Suffix)
      && var s2 := OpenLeaf(s1.fs, path + Suffix, passphrase, md5, true);
      && s2 == Step(Returned, m, [ShredCall(path + Suffix, ShredOptions(false))])
  {
    var data := m[path].data;
    var token := Crypto.EncryptText(Crypto.Raw(data), passphrase, md5);
    var s1 := SealLeaf(m, path, passphrase, md5, true);
    SealedLeaf(m, path, passphrase, md5, true);
    Crypto.RoundTrip(Crypto.Raw(data), passphrase, md5);
    StripSuffix(path);
    OpenSealed(m, path, token, s1.fs, passphrase, md5);
  }

  /** The second half of the round trip: decrypting the stored token
      writes the file back and erases the token. */
  lemma OpenSealed(m: Fs, path: Path, token: seq<byte>, n: Fs, passphrase: string, md5: seq<byte> -> Crypto.Digest)
    requires WellFormed(m) && IsLeaf(m, path) && m[path].File?
    requires path + Suffix !in m && Strip(path + Suffix) == path
    requires Crypto.DecryptText(Crypto.Raw(token), passphrase, md5) == Ok(m[path].data)
    requires n == m[path + Suffix := File(token)] - {path}
    ensures IsLeaf(n, path + Suffix)
    ensures OpenLeaf(n, path + Suffix, passphrase, md5, true)
         == Step(Returned, m, [ShredCall(path + Suffix, ShredOptions(false))])
  {
    var data, q := m[path].data, path + Suffix;
    assert Placed(m, path);
    StorableAfterSwap(m, path, q, File(token));
    var n1 := n[path := File(data)];
    WriteFresh(n, path, data);
    RestoreEntry(m, path, q, File(token));
    assert n1 == m[q := File(token)];
    OpenWritten(n, q, path, data, passphrase, md5, true, n1);
    DropNew(m, q, File(token));
  }


  /** The tree `encrypt` leaves behind on a regular file whose artifact name
      is free: the token is stored there, and the file is gone with `delete`. */
  lemma SealedLeaf(m: Fs, path: Path, passphrase: string, md5: seq<byte> -> Crypto.Digest, d1: bool)
    requires WellFormed(m) && IsLeaf(m, path) && m[path].File? && path + Suffix !in m
    ensures var token := Crypto.EncryptText(Crypto.Raw(m[path].data), passphrase, md5);
      var s := SealLeaf(m, path, passphrase, md5, d1);
      && s.status == Returned
      && s.fs == (if d1 then m[path + Suffix := File(token)] - {path} else m[path + Suffix := File(token)])
      && s.shredded == if d1 then [ShredCall(path, ShredOptions(false))] else []
  {
    assert Placed(m, path);
    SealedPlacedLeaf(m, path, passphrase, md5, d1);
  }

  lemma SealedPlacedLeaf(m: Fs, path: Path, passphrase: string, md5: seq<byte> -> Crypto.Digest, d1: bool)
    requires Placed(m, path) && m[path].File? && path + Suffix !in m
    ensures var token := Crypto.EncryptText(Crypto.Raw(m[path].data), passphrase, md5);
      var s := SealLeaf(m, path, passphrase, md5, d1);
      && s.status == Returned
      && s.fs == (if d1 then m[path + Suffix := File(token)] - {path} else m[path + Suffix := File(token)])
      && s.shredded == if d1 then [ShredCall(path, ShredOptions(false))] else []
  {
    var token := Crypto.EncryptText(Crypto.Raw(m[path].data), passphrase, md5);
    SiblingStorable(m, path);
    FinishFresh(m, path + Suffix, token, path, d1);
    assert Read(m, path) == Ok(m[path].data);
  }

  /** The artifact name next to a placed leaf can hold a file when it is free. */
  lemma SiblingStorable(m: Fs, path: Path)
    requires Placed(m, path) && !m[path].Dir? && path + Suffix !in m
    ensures Storable(m, path + Suffix)
  {
    SuffixSibling(path);
  }

  /** `Finish` on a free name that can hold a file: the write succeeds. */
  lemma FinishFresh(m: Fs, q: Path, payload: seq<byte>, path: Path, d: bool)
    requires q !in m && Storable(m, q)
    ensures Finish(m, q, payload, path, d) ==
      if d then Step(Returned, m[q := File(payload)] - {path}, [ShredCall(path, ShredOptions(false))])
      else Step(Returned, m[q := File(payload)], [])
  {
  }

  /** `decrypt` on a token that opens, once the write of the plaintext has
      succeeded. */
  lemma OpenWritten(n: Fs, q: Path, target: Path, plain: seq<byte>, passphrase: string,
                    md5: seq<byte> -> Crypto.Digest, d2: bool, n1: Fs)
    requires IsLeaf(n, q) && n[q].File? && Strip(q) == target
    requires Crypto.DecryptText(Crypto.Raw(n[q].data), passphrase, md5) == Ok(plain)
    requires Write(n, target, plain) == Ok(n1)
    ensures OpenLeaf(n, q, passphrase, md5, d2) ==
      if d2 then Step(Returned, n1 - {q}, [ShredCall(q, ShredOptions(false))]) else Step(Returned, n1, [])
  {
    assert Read(n, q) == Ok(n[q].data);
  }

  /** A token sealed under one passphrase, opened under a passphrase with a
      different digest: `ValueError('Clave incorrecta.')`, raised before
      anything is written or shredded. */
  lemma OpenWithWrongKey(m: Fs, path: Path, plain: seq<byte>, p1: string, p2: string,
                         md5: seq<byte> -> Crypto.Digest, delete: bool)
    requires IsLeaf(m, path) && m[path] == File(Crypto.EncryptText(Crypto.Raw(plain), p1, md5))
    requires md5(Utf8.Encode(p1)) != md5(Utf8.Encode(p2))
    ensures OpenLeaf(m, path, p2, md5, delete) == Step(Raised(ValueError(Crypto.WrongKeyMessage)), m, [])
  {
    Crypto.WrongKey(Crypto.Raw(plain), p1, p2, md5);
  }

  /** `decrypt` on a file without the marker writes the plaintext over the
      file itself, and with `delete` then shreds it: nothing of the file is
      left. */
  lemma OpenUnmarked(m: Fs, path: Path, passphrase: string, md5: seq<byte> -> Crypto.Digest, delete: bool)
    requires WellFormed(m) && IsLeaf(m, path) && m[path].File? && !Contains(path, Suffix)
    requires Crypto.DecryptText(Crypto.Raw(m[path].data), passphrase, md5).Ok?
    ensures var plain := Crypto.DecryptText(Crypto.Raw(m[path].data), passphrase, md5).value;
      OpenLeaf(m, path, passphrase, md5, delete) ==
        if delete then Step(Returned, m - {path}, [ShredCall(path, ShredOptions(false))])
        else Step(Returned, m[path := File(plain)], [])
  {
    assert Placed(m, path);
    var plain := Crypto.DecryptText(Crypto.Raw(m[path].data), passphrase, md5).value;
    assert Storable(m, path);
    assert m[path := File(plain)] - {path} == m - {path};
  }

  // ---- Lemmas: whole trees ----------------------------------------------

  /** On a sealable tree the encryption plan writes each token to a free
      name in the directory of its file, never two to one name. */
  lemma SealPlanFits(m: Fs, p: Path, passphrase: string, md5: seq<byte> -> Crypto.Digest)
    requires WellFormed(m) && Sealable(m, p)
    ensures Fits(m, SealPlan(m, Leaves(m, p), passphrase, md5))
    ensures SiblingOutputs(SealPlan(m, Leaves(m, p), passphrase, md5))
  {
    var f := SealPlan(m, Leaves(m, p), passphrase, md5);
    forall q | q in f
      ensures HasParent(f[q].out) == HasParent(q) && (HasParent(q) ==> Parent(f[q].out) == Parent(q))
    {
      assert Placed(m, q);
      SuffixSibling(q);
    }
    forall q1, q2 | q1 in f && q2 in f && f[q1].out == f[q2].out
      ensures q1 == q2
    {
      assert q1 + Suffix == q2 + Suffix;
      assert q1 == (q1 + Suffix)[..|q1|];
    }
  }

  lemma SealPlanPart(m: Fs, a: set<Path>, b: set<Path>, passphrase: string, md5: seq<byte> -> Crypto.Digest)
    requires a <= b
    ensures SealPlan(m, a, passphrase, md5) == Restrict(SealPlan(m, b, passphrase, md5), a)
  {
  }

  /** Entering child `c` of a sealable directory: `c` is still there, its
      subtree is still sealable, and its plan is its part of the whole. */
  lemma SealChildReady(m0: Fs, fs: Fs, p: Path, done: set<Path>, c: Path,
                       passphrase: string, md5: seq<byte> -> Crypto.Digest, delete: bool)
    requires WellFormed(m0) && Sealable(m0, p)
    requires c in Children(m0, p) && c !in done
    requires Applied(m0, fs, Restrict(SealPlan(m0, Leaves(m0, p), passphrase, md5), LeavesBelow(m0, p, done)), delete)
    ensures c in fs && Leaves(fs, c) == Leaves(m0, c)
    ensures Sealable(fs, c)
    ensures SealPlan(fs, Leaves(fs, c), passphrase, md5)
         == Restrict(SealPlan(m0, Leaves(m0, p), passphrase, md5), Leaves(m0, c))
  {
    var f := SealPlan(m0, Leaves(m0, p), passphrase, md5);
    SealPlanFits(m0, p, passphrase, md5);
    ChildFits(m0, fs, f, delete, p, done, c);
    assert InSubtree(c, c);
    SameSubtreeLeaves(m0, fs, c);
    SealChildPlan(m0, fs, p, c, passphrase, md5);
    SealChildSealable(m0, fs, p, c, passphrase, md5);
  }

  /** Leaving child `c` of a sealable directory: the plan carried out and
      the shreds run grow by the part that belongs to `c`. */
  lemma SealProgress(m0: Fs, fs1: Fs, fs2: Fs, t0: seq<ShredCall>, before: seq<ShredCall>, after: seq<ShredCall>,
                     p: Path, done: set<Path>, c: Path, passphrase: string, md5: seq<byte> -> Crypto.Digest, delete: bool)
    requires WellFormed(m0) && Sealable(m0, p)
    requires c in Children(m0, p) && c !in done
    requires Applied(m0, fs1, Restrict(SealPlan(m0, Leaves(m0, p), passphrase, md5), LeavesBelow(m0, p, done)), delete)
    requires |before| >= |t0| && before[..|t0|] == t0
    requires ShredsExactly(before[|t0|..], if delete then LeavesBelow(m0, p, done) else {}, ShredOptions(false))
    requires Applied(fs1, fs2, SealPlan(fs1, Leaves(fs1, c), passphrase, md5), delete)
    requires |after| >= |before| && after[..|before|] == before
    requires ShredsExactly(after[|before|..], if delete then Leaves(fs1, c) else {}, ShredOptions(false))
    ensures Applied(m0, fs2, Restrict(SealPlan(m0, Leaves(m0, p), passphrase, md5), LeavesBelow(m0, p, done + {c})), delete)
    ensures |after| >= |t0| && after[..|t0|] == t0
    ensures ShredsExactly(after[|t0|..], if delete then LeavesBelow(m0, p, done + {c}) else {}, ShredOptions(false))
  {
    var f := SealPlan(m0, Leaves(m0, p), passphrase, md5);
    SealChildReady(m0, fs1, p, done, c, passphrase, md5, delete);
    SealPlanFits(m0, p, passphrase, md5);
    ChildDone(m0, fs1, fs2, f, delete, p, done, c);
    LeavesOfChild(m0, p, done, c);
    if delete {
      ShredsGrow(t0, before, after, LeavesBelow(m0, p, done), Leaves(m0, c), ShredOptions(false));
    } else {
      ShredsGrow(t0, before, after, {}, {}, ShredOptions(false));
    }
  }

  /** Leaving child `c` of a directory that can be opened: the plan carried
      out and the shreds run grow by the part that belongs to `c`. */
  lemma OpenProgress(m0: Fs, fs1: Fs, fs2: Fs, t0: seq<ShredCall>, before: seq<ShredCall>, after: seq<ShredCall>,
                     p: Path, done: set<Path>, c: Path, passphrase: string, md5: seq<byte> -> Crypto.Digest, delete: bool)
    requires WellFormed(m0) && Openable(m0, p, passphrase, md5)
    requires c in Children(m0, p) && c !in done
    requires Applied(m0, fs1, Restrict(OpenPlan(m0, Leaves(m0, p), passphrase, md5), LeavesBelow(m0, p, done)), delete)
    requires |before| >= |t0| && before[..|t0|] == t0
    requires ShredsExactly(before[|t0|..], if delete then LeavesBelow(m0, p, done) else {}, ShredOptions(false))
    requires Applied(fs1, fs2, OpenPlan(fs1, Leaves(fs1, c), passphrase, md5), delete)
    requires |after| >= |before| && after[..|before|] == before
    requires ShredsExactly(after[|before|..], if delete then Leaves(fs1, c) else {}, ShredOptions(false))
    ensures Applied(m0, fs2, Restrict(OpenPlan(m0, Leaves(m0, p), passphrase, md5), LeavesBelow(m0, p, done + {c})), delete)
    ensures |after| >= |t0| && after[..|t0|] == t0
    ensures ShredsExactly(after[|t0|..], if delete then LeavesBelow(m0, p, done + {c}) else {}, ShredOptions(false))
  {
    var f := OpenPlan(m0, Leaves(m0, p), passphrase, md5);
    OpenChildReady(m0, fs1, p, done, c, passphrase, md5, delete);
    OpenPlanFits(m0, p, passphrase, md5);
    ChildDone(m0, fs1, fs2, f, delete, p, done, c);
    LeavesOfChild(m0, p, done, c);
    if delete {
      ShredsGrow(t0, before, after, LeavesBelow(m0, p, done), Leaves(m0, c), ShredOptions(false));
    } else {
      ShredsGrow(t0, before, after, {}, {}, ShredOptions(false));
    }
  }

  /** A walk over directory `p` that has finished the children in `done`:
      every shred since `t0` was quiet, only leaves below those children are
      gone and, when the plan `f` was `ready` to run, its part for those
      children has been carried out with one shred per erased original. */
  ghost predicate WalkedBelow(m0: Fs, fs: Fs, t0: seq<ShredCall>, t: seq<ShredCall>, p: Path, done: set<Path>,
                              f: map<Path, Artifact>, ready: bool, delete: bool)
  {
    && RunsSince(t0, t, ShredOptions(false))
    && RemovedWithin(m0, fs, LeavesBelow(m0, p, done))
    && (ready ==>
          && Applied(m0, fs, Restrict(f, LeavesBelow(m0, p, done)), delete)
          && ShredsExactly(t[|t0|..], if delete then LeavesBelow(m0, p, done) else {}, ShredOptions(false)))
  }

  lemma WalkStart(m0: Fs, t0: seq<ShredCall>, p: Path, f: map<Path, Artifact>, ready: bool, delete: bool)
    ensures WalkedBelow(m0, m0, t0, t0, p, {}, f, ready, delete)
  {
    NoneBelow(m0, p, f, delete);
    NoRunsYet(t0, ShredOptions(false));
  }

  lemma NoneBelow(m0: Fs, p: Path, f: map<Path, Artifact>, delete: bool)
    ensures LeavesBelow(m0, p, {}) == {}
    ensures Applied(m0, m0, Restrict(f, LeavesBelow(m0, p, {})), delete)
  {
    assert Restrict(f, {}) == map[];
    AppliedNothing(m0, delete);
  }

  lemma NoRunsYet(t0: seq<ShredCall>, options: string)
    ensures RunsSince(t0, t0, options)
    ensures ShredsExactly(t0[|t0|..], {}, options)
  {
    assert t0[|t0|..] == [];
    ShredsNone(options);
  }

  /** Once every child is finished, the walk has done the whole plan. */
  lemma WalkEnd(m0: Fs, fs: Fs, t0: seq<ShredCall>, t: seq<ShredCall>, p: Path,
                f: map<Path, Artifact>, ready: bool, delete: bool)
    requires WellFormed(m0) && IsDir(m0, p) && f.Keys <= Leaves(m0, p)
    requires WalkedBelow(m0, fs, t0, t, p, Children(m0, p), f, ready, delete)
    ensures RunsSince(t0, t, ShredOptions(false)) && RemovedWithin(m0, fs, Leaves(m0, p))
    ensures ready ==>
      && Applied(m0, fs, f, delete)
      && ShredsExactly(t[|t0|..], if delete then Leaves(m0, p) else {}, ShredOptions(false))
  {
    LeavesOfDir(m0, p);
    RestrictWhole(m0, p, f);
  }

  lemma SubtreeLeaves(m: Fs, p: Path, c: Path)
    requires c in Children(m, p)
    ensures Leaves(m, c) <= Leaves(m, p)
  {
    forall q | q in Leaves(m, c)
      ensures q in Leaves(m, p)
    {
      ChildIsBelow(m, p, c, q);
    }
  }

  lemma SealChildPlan(m0: Fs, fs: Fs, p: Path, c: Path, passphrase: string, md5: seq<byte> -> Crypto.Digest)
    requires c in Children(m0, p) && SameSubtree(m0, fs, c)
    ensures SealPlan(fs, Leaves(fs, c), passphrase, md5)
         == Restrict(SealPlan(m0, Leaves(m0, p), passphrase, md5), Leaves(m0, c))
  {
    SameSubtreeLeaves(m0, fs, c);
    SubtreeLeaves(m0, p, c);
    SealPlanPart(m0, Leaves(m0, c), Leaves(m0, p), passphrase, md5);
    assert SealPlan(fs, Leaves(fs, c), passphrase, md5) == SealPlan(m0, Leaves(m0, c), passphrase, md5);
  }

  lemma SealChildSealable(m0: Fs, fs: Fs, p: Path, c: Path, passphrase: string, md5: seq<byte> -> Crypto.Digest)
    requires Sealable(m0, p) && c in Children(m0, p) && SameSubtree(m0, fs, c)
    requires Fits(fs, Restrict(SealPlan(m0, Leaves(m0, p), passphrase, md5), Leaves(m0, c)))
    ensures Sealable(fs, c)
  {
    SameSubtreeLeaves(m0, fs, c);
    SubtreeLeaves(m0, p, c);
    var f := SealPlan(m0, Leaves(m0, p), passphrase, md5);
    forall q | q in Leaves(fs, c)
      ensures fs[q].File? && q + Suffix !in fs
    {
      assert q in Restrict(f, Leaves(m0, c));
    }
  }

  /** On an openable tree the decryption plan writes each plaintext to a
      free name in the directory of its token, never two to one name. */
  lemma OpenPlanFits(m: Fs, p: Path, passphrase: string, md5: seq<byte> -> Crypto.Digest)
    requires WellFormed(m) && Openable(m, p, passphrase, md5)
    ensures Fits(m, OpenPlan(m, Leaves(m, p), passphrase, md5))
    ensures SiblingOutputs(OpenPlan(m, Leaves(m, p), passphrase, md5))
  {
    var f := OpenPlan(m, Leaves(m, p), passphrase, md5);
    forall q | q in f
      ensures HasParent(f[q].out) == HasParent(q) && (HasParent(q) ==> Parent(f[q].out) == Parent(q))
    {
      SuffixSibling(Original(q));
    }
  }

  lemma OpenPlanPart(m: Fs, a: set<Path>, b: set<Path>, passphrase: string, md5: seq<byte> -> Crypto.Digest)
    requires a <= b
    ensures OpenPlan(m, a, passphrase, md5) == Restrict(OpenPlan(m, b, passphrase, md5), a)
  {
  }

  /** Entering child `c` of an openable directory: `c` is still there, its
      subtree is still openable, and its plan is its part of the whole. */
  lemma OpenChildReady(m0: Fs, fs: Fs, p: Path, done: set<Path>, c: Path,
                       passphrase: string, md5: seq<byte> -> Crypto.Digest, delete: bool)
    requires WellFormed(m0) && Openable(m0, p, passphrase, md5)
    requires c in Children(m0, p) && c !in done
    requires Applied(m0, fs, Restrict(OpenPlan(m0, Leaves(m0, p), passphrase, md5), LeavesBelow(m0, p, done)), delete)
    ensures c in fs && Leaves(fs, c) == Leaves(m0, c)
    ensures Openable(fs, c, passphrase, md5)
    ensures OpenPlan(fs, Leaves(fs, c), passphrase, md5)
         == Restrict(OpenPlan(m0, Leaves(m0, p), passphrase, md5), Leaves(m0, c))
  {
    var f := OpenPlan(m0, Leaves(m0, p), passphrase, md5);
    OpenPlanFits(m0, p, passphrase, md5);
    ChildFits(m0, fs, f, delete, p, done, c);
    assert InSubtree(c, c);
    SameSubtreeLeaves(m0, fs, c);
    OpenChildPlan(m0, fs, p, c, passphrase, md5);
    OpenChildOpenable(m0, fs, p, c, passphrase, md5);
  }

  lemma OpenChildPlan(m0: Fs, fs: Fs, p: Path, c: Path, passphrase: string, md5: seq<byte> -> Crypto.Digest)
    requires c in Children(m0, p) && SameSubtree(m0, fs, c)
    ensures OpenPlan(fs, Leaves(fs, c), passphrase, md5)
         == Restrict(OpenPlan(m0, Leaves(m0, p), passphrase, md5), Leaves(m0, c))
  {
    SameSubtreeLeaves(m0, fs, c);
    SubtreeLeaves(m0, p, c);
    OpenPlanPart(m0, Leaves(m0, c), Leaves(m0, p), passphrase, md5);
    assert OpenPlan(fs, Leaves(fs, c), passphrase, md5) == OpenPlan(m0, Leaves(m0, c), passphrase, md5);
  }

  lemma OpenChildOpenable(m0: Fs, fs: Fs, p: Path, c: Path, passphrase: string, md5: seq<byte> -> Crypto.Digest)
    requires Openable(m0, p, passphrase, md5) && c in Children(m0, p) && SameSubtree(m0, fs, c)
    requires Fits(fs, Restrict(OpenPlan(m0, Leaves(m0, p), passphrase, md5), Leaves(m0, c)))
    ensures Openable(fs, c, passphrase, md5)
  {
    SameSubtreeLeaves(m0, fs, c);
    SubtreeLeaves(m0, p, c);
    var f := OpenPlan(m0, Leaves(m0, p), passphrase, md5);
    forall q | q in Leaves(fs, c)
      ensures Original(q) !in fs
    {
      assert q in Restrict(f, Leaves(m0, c));
    }
  }
}
