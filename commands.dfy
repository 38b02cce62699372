/** `secure_delete`, `encrypt`, `decrypt` and `confirm` from app/commands.py,
    run against a host: a filesystem, the record of `shred` runs, and the
    console (prompts written, answers still to be read). */
module Commands {
  import opened Wrappers
  import opened Bytes
  import opened Paths
  import opened Exceptions
  import opened Tree
  import opened Walks
  import Crypto
  import Confirmation

  class Host {
    var fs: Fs
    /** Every `sudo shred` command run so far. */
    var shreds: seq<ShredCall>
    /** Every prompt `input()` has written. */
    var prompts: seq<string>
    /** The answers the console will still give, in order. */
    var replies: seq<string>
    /** The MD5 digest `hashlib.md5` computes. */
    const md5: seq<byte> -> Crypto.Digest

    ghost predicate Valid()
      reads this
    {
      WellFormed(fs)
    }

    constructor (fs0: Fs, replies0: seq<string>, md5: seq<byte> -> Crypto.Digest)
      requires WellFormed(fs0)
      ensures Valid()
      ensures fs == fs0 && shreds == [] && prompts == [] && replies == replies0 && this.md5 == md5
    {
      fs := fs0;
      shreds := [];
      prompts := [];
      replies := replies0;
      this.md5 := md5;
    }

    /** `confirm(prompt)`: write the prompt, read one answer (`EOFError` when
        there is none) and take it as a yes when it is `y` or `yes`. */
    method Ask(prompt: string) returns (r: Result<bool, Error>)
      modifies this
      ensures prompts == old(prompts) + [prompt]
      ensures fs == old(fs) && shreds == old(shreds)
      ensures old(replies) == [] ==> r == Err(EOFError) && replies == []
      ensures old(replies) != [] ==>
        r == Ok(Confirmation.IsYes(old(replies)[0])) && replies == old(replies)[1..]
    {
      prompts := prompts + [prompt];
      if replies == [] {
        return Err(EOFError);
      }
      var answer := replies[0];
      replies := replies[1..];
      r := Ok(Confirmation.Confirm(answer));
    }

    /** The leaves at or below `path` in `m0` are gone, and the shreds run
        since `t0` are exactly one per leaf, each with `options`. */
    ghost predicate Erased(m0: Fs, t0: seq<ShredCall>, path: Path, options: string)
      reads this
    {
      && fs == m0 - Leaves(m0, path)
      && |shreds| >= |t0| && shreds[..|t0|] == t0
      && ShredsExactly(shreds[|t0|..], Leaves(m0, path), options)
    }

    /** `secure_delete(path, auto, verbose)`. */
    method SecureDelete(path: Path, auto: bool, verbose: bool) returns (status: Status)
      requires Valid()
      modifies this
      decreases DirsUnder(Dirs(fs), path), 3
      ensures Valid() && Dirs(fs) == Dirs(old(fs))
      ensures path !in old(fs) ==> status == Raised(ValueError(InvalidPath(path))) && unchanged(this)
      ensures path in old(fs) && auto ==>
        && status == Returned && prompts == old(prompts) && replies == old(replies)
        && Erased(old(fs), old(shreds), path, ShredOptions(verbose))
      ensures path in old(fs) && !auto ==>
        && prompts == old(prompts) + [ErasePrompt(IsDir(old(fs), path), path)]
        && (old(replies) == [] ==>
              status == Raised(EOFError) && replies == [] && fs == old(fs) && shreds == old(shreds))
        && (old(replies) != [] ==>
              && status == Returned && replies == old(replies)[1..]
              && if Confirmation.IsYes(old(replies)[0]) then Erased(old(fs), old(shreds), path, ShredOptions(verbose))
                 else fs == old(fs) && shreds == old(shreds))
    {
      if path !in fs {
        return Raised(ValueError(InvalidPath(path)));
      }
      if !auto {
        var yes := Ask(ErasePrompt(IsDir(fs, path), path));
        if yes.Err? {
          return Raised(yes.error);
        }
        if !yes.value {
          return Returned;
        }
      }
      Erase(path, verbose);
      status := Returned;
    }

    /** The part of `secure_delete` after any confirmation: a directory's
        entries are erased in turn, a file or link is shredded. */
    method Erase(path: Path, verbose: bool)
      requires Valid() && path in fs
      modifies this
      decreases DirsUnder(Dirs(fs), path), 2
      ensures Valid() && Dirs(fs) == Dirs(old(fs))
      ensures prompts == old(prompts) && replies == old(replies)
      ensures Erased(old(fs), old(shreds), path, ShredOptions(verbose))
    {
      if IsDir(fs, path) {
        EraseTree(path, verbose);
      } else {
        LeafAlone(fs, path);
        Shred(path, ShredOptions(verbose));
      }
    }

    /** `secure_delete` on a directory: the listing is taken, and every entry
        is erased with `auto=True` and the same `verbose`. */
    method EraseTree(path: Path, verbose: bool)
      requires Valid() && IsDir(fs, path)
      modifies this
      decreases DirsUnder(Dirs(fs), path), 1
      ensures Valid() && Dirs(fs) == Dirs(old(fs))
      ensures prompts == old(prompts) && replies == old(replies)
      ensures Erased(old(fs), old(shreds), path, ShredOptions(verbose))
    {
      var todo := Children(fs, path);
      ghost var m0, t0 := fs, shreds;
      ghost var done: set<Path> := {};
      EraseStart(m0, t0, path, ShredOptions(verbose));
      while todo != {}
        invariant todo + done == Children(m0, path) && todo !! done
        invariant prompts == old(prompts) && replies == old(replies)
        invariant ErasingBelow(m0, t0, path, done, ShredOptions(verbose))
        decreases todo
      {
        var c :| c in todo;
        EraseChild(m0, t0, path, done, c, verbose);
        MoveOne(todo, done, c);
        todo := todo - {c};
        done := done + {c};
      }
      EraseEnd(m0, fs, t0, shreds, path, ShredOptions(verbose));
    }

    /** The state of a `secure_delete` walk over `path` once the children
        in `done` are finished: exactly their leaves are gone, each shredded
        once with `options`. */
    ghost predicate ErasingBelow(m0: Fs, t0: seq<ShredCall>, path: Path, done: set<Path>, options: string)
      reads this
    {
      && Valid() && Dirs(fs) == Dirs(m0)
      && ErasedBelow(m0, fs, t0, shreds, path, done, options)
    }

    /** One iteration of the directory walk of `secure_delete`:
        `secure_delete(c, auto=True, verbose=verbose)`. */
    method EraseChild(ghost m0: Fs, ghost t0: seq<ShredCall>, path: Path, ghost done: set<Path>, c: Path, verbose: bool)
      requires WellFormed(m0) && IsDir(m0, path)
      requires c in Children(m0, path) && c !in done
      requires ErasingBelow(m0, t0, path, done, ShredOptions(verbose))
      modifies this
      decreases DirsUnder(Dirs(fs), path), 0
      ensures prompts == old(prompts) && replies == old(replies)
      ensures ErasingBelow(m0, t0, path, done + {c}, ShredOptions(verbose))
    {
      ErasedElsewhere(m0, path, done, c);
      assert InSubtree(c, c);
      ChildDirsFewer(Dirs(m0), path, c);
      ghost var before := shreds;
      var _ := SecureDelete(c, true, verbose);
      EraseStep(m0, fs, t0, before, shreds, path, done, c, ShredOptions(verbose));
    }

    /** `os.system(f'sudo shred -{options} "{path}"')`: the run is recorded
        and the file or link is gone. */
    method Shred(path: Path, options: string)
      requires Valid() && IsLeaf(fs, path)
      modifies this
      ensures Valid() && Dirs(fs) == Dirs(old(fs))
      ensures fs == old(fs) - {path} && shreds == old(shreds) + [ShredCall(path, options)]
      ensures prompts == old(prompts) && replies == old(replies)
      ensures ShredsExactly(shreds[|old(shreds)|..], {path}, options)
    {
      RemoveKeepsShape(fs, {path});
      ShredsOne(path, options);
      shreds := shreds + [ShredCall(path, options)];
      fs := fs - {path};
    }

    /** Everything shredded since `t0` was shredded quietly, and the entries
        that have disappeared since `m0` are leaves at or below `path`. */
    ghost predicate Quiet(m0: Fs, t0: seq<ShredCall>, path: Path)
      reads this
    {
      && RunsSince(t0, shreds, ShredOptions(false))
      && RemovedWithin(m0, fs, Leaves(m0, path))
    }

    /** The encryption plan for the leaves at or below `path` in `m0` is
        carried out, and the shreds since `t0` are one per original erased. */
    ghost predicate Sealed(m0: Fs, t0: seq<ShredCall>, path: Path, passphrase: string, delete: bool)
      reads this
    {
      && Applied(m0, fs, SealPlan(m0, Leaves(m0, path), passphrase, md5), delete)
      && |shreds| >= |t0| && shreds[..|t0|] == t0
      && ShredsExactly(shreds[|t0|..], if delete then Leaves(m0, path) else {}, ShredOptions(false))
    }

    /** `encrypt(path, key, delete)`. */
    method Encrypt(path: Path, passphrase: string, delete: bool) returns (status: Status)
      requires Valid()
      modifies this
      decreases DirsUnder(Dirs(fs), path), 2
      ensures Valid() && Dirs(fs) == Dirs(old(fs))
      ensures prompts == old(prompts) && replies == old(replies)
      ensures Quiet(old(fs), old(shreds), path)
      ensures path !in old(fs) ==> status == Raised(ValueError(InvalidPath(path))) && unchanged(this)
      ensures path in old(fs) && status.Raised? ==> status.error.OSError?
      ensures IsLeaf(old(fs), path) ==>
        var s := SealLeaf(old(fs), path, passphrase, md5, delete);
        status == s.status && fs == s.fs && shreds == old(shreds) + s.shredded
      ensures path in old(fs) && Sealable(old(fs), path) ==>
        status == Returned && Sealed(old(fs), old(shreds), path, passphrase, delete)
    {
      if IsDir(fs, path) {
        status := EncryptTree(path, passphrase, delete);
      } else if IsLeaf(fs, path) {
        ghost var m0, t0 := fs, shreds;
        status := SealFile(path, passphrase, delete);
        SealLeafShape(m0, path, passphrase, md5, delete);
        QuietLeafStep(m0, fs, t0, path, SealLeaf(m0, path, passphrase, md5, delete).shredded);
        if Sealable(m0, path) {
          SealLeafClean(m0, path, passphrase, md5, delete);
        }
      } else {
        status := Raised(ValueError(InvalidPath(path)));
      }
    }

    /** `encrypt` on a directory: every entry of the listing taken on entry
        is encrypted in turn with the same key and `delete`; the first
        failure ends the walk. */
    method EncryptTree(path: Path, passphrase: string, delete: bool) returns (status: Status)
      requires Valid() && IsDir(fs, path)
      modifies this
      decreases DirsUnder(Dirs(fs), path), 1
      ensures Valid() && Dirs(fs) == Dirs(old(fs))
      ensures prompts == old(prompts) && replies == old(replies)
      ensures Quiet(old(fs), old(shreds), path)
      ensures status.Raised? ==> status.error.OSError?
      ensures Sealable(old(fs), path) ==>
        status == Returned && Sealed(old(fs), old(shreds), path, passphrase, delete)
    {
      var todo := Children(fs, path);
      ghost var m0, t0 := fs, shreds;
      ghost var done: set<Path> := {};
      ghost var f := SealPlan(m0, Leaves(m0, path), passphrase, md5);
      WalkStart(m0, t0, path, f, Sealable(m0, path), delete);
      status := Returned;
      while todo != {}
        invariant todo + done == Children(m0, path) && todo !! done
        invariant prompts == old(prompts) && replies == old(replies)
        invariant SealingBelow(m0, t0, path, done, passphrase, delete)
        invariant status == Returned
        decreases todo
      {
        var c :| c in todo;
        status := SealChild(m0, t0, path, done, c, passphrase, delete);
        if status.Raised? {
          return;
        }
        MoveOne(todo, done, c);
        todo := todo - {c};
        done := done + {c};
      }
      WalkEnd(m0, fs, t0, shreds, path, f, Sealable(m0, path), delete);
    }

    /** The state of an `encrypt` walk over `path` once the children in
        `done` are finished: only quiet shreds, only leaves of those
        children removed and, when the tree is sealable, their part of the
        plan carried out. */
    ghost predicate SealingBelow(m0: Fs, t0: seq<ShredCall>, path: Path, done: set<Path>, passphrase: string, delete: bool)
      reads this
    {
      && Valid() && Dirs(fs) == Dirs(m0)
      && WalkedBelow(m0, fs, t0, shreds, path, done, SealPlan(m0, Leaves(m0, path), passphrase, md5), Sealable(m0, path), delete)
    }

    /** One iteration of the directory walk of `encrypt`: `encrypt(c, key, delete)`. */
    method SealChild(ghost m0: Fs, ghost t0: seq<ShredCall>, path: Path, ghost done: set<Path>, c: Path,
                     passphrase: string, delete: bool) returns (status: Status)
      requires WellFormed(m0) && IsDir(m0, path)
      requires c in Children(m0, path) && c !in done
      requires SealingBelow(m0, t0, path, done, passphrase, delete)
      modifies this
      decreases DirsUnder(Dirs(fs), path), 0
      ensures prompts == old(prompts) && replies == old(replies)
      ensures status.Raised? ==>
        && status.error.OSError? && Valid() && Dirs(fs) == Dirs(m0)
        && RunsSince(t0, shreds, ShredOptions(false)) && RemovedWithin(m0, fs, Leaves(m0, path))
      ensures status.Returned? ==> SealingBelow(m0, t0, path, done + {c}, passphrase, delete)
      ensures Sealable(m0, path) ==> status == Returned
    {
      TodoPresent(m0, fs, path, done, c);
      ChildDirsFewer(Dirs(m0), path, c);
      if Sealable(m0, path) {
        SealChildReady(m0, fs, path, done, c, passphrase, md5, delete);
      }
      ghost var fs1, before := fs, shreds;
      status := Encrypt(c, passphrase, delete);
      RemovedSoFar(m0, fs1, fs, path, done, c);
      RunsSinceChain(t0, before, shreds, ShredOptions(false));
      if Sealable(m0, path) {
        SealProgress(m0, fs1, fs, t0, before, shreds, path, done, c, passphrase, md5, delete);
      }
    }

    /** `encrypt` on a file or link: the token is written next to it and,
        with `delete`, the original is erased by
        `secure_delete(path, auto=True, verbose=False)`. */
    method SealFile(path: Path, passphrase: string, delete: bool) returns (status: Status)
      requires Valid() && IsLeaf(fs, path)
      modifies this
      ensures Valid()
      ensures prompts == old(prompts) && replies == old(replies)
      ensures var s := SealLeaf(old(fs), path, passphrase, md5, delete);
        status == s.status && fs == s.fs && shreds == old(shreds) + s.shredded
    {
      var rd := Read(fs, path);
      if rd.Err? {
        return Raised(rd.error);
      }
      var token := Crypto.EncryptText(Crypto.Raw(rd.value), passphrase, md5);
      status := Store(path + Suffix, token, path, delete);
    }

    /** The decryption plan for the leaves at or below `path` in `m0` is
        carried out, and the shreds since `t0` are one per token erased. */
    ghost predicate Opened(m0: Fs, t0: seq<ShredCall>, path: Path, passphrase: string, delete: bool)
      reads this
    {
      && Applied(m0, fs, OpenPlan(m0, Leaves(m0, path), passphrase, md5), delete)
      && |shreds| >= |t0| && shreds[..|t0|] == t0
      && ShredsExactly(shreds[|t0|..], if delete then Leaves(m0, path) else {}, ShredOptions(false))
    }

    /** `decrypt(path, key, delete)`. Inside a directory every entry is
        decrypted with the default `delete=True`, whatever was asked for. */
    method Decrypt(path: Path, passphrase: string, delete: bool) returns (status: Status)
      requires Valid()
      modifies this
      decreases DirsUnder(Dirs(fs), path), 2
      ensures Valid() && Dirs(fs) == Dirs(old(fs))
      ensures prompts == old(prompts) && replies == old(replies)
      ensures Quiet(old(fs), old(shreds), path)
      ensures path !in old(fs) ==> status == Raised(ValueError(InvalidDecryptPath(path))) && unchanged(this)
      ensures path in old(fs) && status.Raised? ==>
        status.error.OSError? || status.error == ValueError(Crypto.WrongKeyMessage)
      ensures IsLeaf(old(fs), path) ==>
        var s := OpenLeaf(old(fs), path, passphrase, md5, delete);
        status == s.status && fs == s.fs && shreds == old(shreds) + s.shredded
      ensures path in old(fs) && Openable(old(fs), path, passphrase, md5) ==>
        status == Returned && Opened(old(fs), old(shreds), path, passphrase, delete || IsDir(old(fs), path))
    {
      if IsDir(fs, path) {
        status := DecryptTree(path, passphrase);
      } else if IsLeaf(fs, path) {
        ghost var m0, t0 := fs, shreds;
        status := OpenFile(path, passphrase, delete);
        OpenLeafShape(m0, path, passphrase, md5, delete);
        QuietLeafStep(m0, fs, t0, path, OpenLeaf(m0, path, passphrase, md5, delete).shredded);
        if Openable(m0, path, passphrase, md5) {
          OpenLeafClean(m0, path, passphrase, md5, delete);
        }
      } else {
        status := Raised(ValueError(InvalidDecryptPath(path)));
      }
    }

    /** `decrypt` on a directory: every entry of the listing taken on entry
        is decrypted in turn and erased afterwards; the first failure ends
        the walk. */
    method DecryptTree(path: Path, passphrase: string) returns (status: Status)
      requires Valid() && IsDir(fs, path)
      modifies this
      decreases DirsUnder(Dirs(fs), path), 1
      ensures Valid() && Dirs(fs) == Dirs(old(fs))
      ensures prompts == old(prompts) && replies == old(replies)
      ensures Quiet(old(fs), old(shreds), path)
      ensures status.Raised? ==> status.error.OSError? || status.error == ValueError(Crypto.WrongKeyMessage)
      ensures Openable(old(fs), path, passphrase, md5) ==>
        status == Returned && Opened(old(fs), old(shreds), path, passphrase, true)
    {
      var todo := Children(fs, path);
      ghost var m0, t0 := fs, shreds;
      ghost var done: set<Path> := {};
      ghost var f := OpenPlan(m0, Leaves(m0, path), passphrase, md5);
      WalkStart(m0, t0, path, f, Openable(m0, path, passphrase, md5), true);
      status := Returned;
      while todo != {}
        invariant todo + done == Children(m0, path) && todo !! done
        invariant prompts == old(prompts) && replies == old(replies)
        invariant OpeningBelow(m0, t0, path, done, passphrase)
        invariant status == Returned
        decreases todo
      {
        var c :| c in todo;
        status := OpenChild(m0, t0, path, done, c, passphrase);
        if status.Raised? {
          return;
        }
        MoveOne(todo, done, c);
        todo := todo - {c};
        done := done + {c};
      }
      WalkEnd(m0, fs, t0, shreds, path, f, Openable(m0, path, passphrase, md5), true);
    }

    /** The state of a `decrypt` walk over `path` once the children in
        `done` are finished. */
    ghost predicate OpeningBelow(m0: Fs, t0: seq<ShredCall>, path: Path, done: set<Path>, passphrase: string)
      reads this
    {
      && Valid() && Dirs(fs) == Dirs(m0)
      && WalkedBelow(m0, fs, t0, shreds, path, done, OpenPlan(m0, Leaves(m0, path), passphrase, md5),
                     Openable(m0, path, passphrase, md5), true)
    }

    /** One iteration of the directory walk of `decrypt`: `decrypt(c, key)`. */
    method OpenChild(ghost m0: Fs, ghost t0: seq<ShredCall>, path: Path, ghost done: set<Path>, c: Path,
                     passphrase: string) returns (status: Status)
      requires WellFormed(m0) && IsDir(m0, path)
      requires c in Children(m0, path) && c !in done
      requires OpeningBelow(m0, t0, path, done, passphrase)
      modifies this
      decreases DirsUnder(Dirs(fs), path), 0
      ensures prompts == old(prompts) && replies == old(replies)
      ensures status.Raised? ==>
        && (status.error.OSError? || status.error == ValueError(Crypto.WrongKeyMessage))
        && Valid() && Dirs(fs) == Dirs(m0)
        && RunsSince(t0, shreds, ShredOptions(false)) && RemovedWithin(m0, fs, Leaves(m0, path))
      ensures status.Returned? ==> OpeningBelow(m0, t0, path, done + {c}, passphrase)
      ensures Openable(m0, path, passphrase, md5) ==> status == Returned
    {
      TodoPresent(m0, fs, path, done, c);
      ChildDirsFewer(Dirs(m0), path, c);
      if Openable(m0, path, passphrase, md5) {
        OpenChildReady(m0, fs, path, done, c, passphrase, md5, true);
      }
      ghost var fs1, before := fs, shreds;
      status := Decrypt(c, passphrase, true);
      RemovedSoFar(m0, fs1, fs, path, done, c);
      RunsSinceChain(t0, before, shreds, ShredOptions(false));
      if Openable(m0, path, passphrase, md5) {
        OpenProgress(m0, fs1, fs, t0, before, shreds, path, done, c, passphrase, md5, true);
      }
    }

    /** `decrypt` on a file or link: the plaintext is written under the path
        with its first `.encrypted` removed and, with `delete`, the token is
        erased by `secure_delete(path, auto=True, verbose=False)`. */
    method OpenFile(path: Path, passphrase: string, delete: bool) returns (status: Status)
      requires Valid() && IsLeaf(fs, path)
      modifies this
      ensures Valid()
      ensures prompts == old(prompts) && replies == old(replies)
      ensures var s := OpenLeaf(old(fs), path, passphrase, md5, delete);
        status == s.status && fs == s.fs && shreds == old(shreds) + s.shredded
    {
      var rd := Read(fs, path);
      if rd.Err? {
        return Raised(rd.error);
      }
      var plain := Crypto.DecryptText(Crypto.Raw(rd.value), passphrase, md5);
      if plain.Err? {
        return Raised(plain.error);
      }
      status := Store(Strip(path), plain.value, path, delete);
    }

    /** Write `payload` to `target` (the token, or the plaintext); then,
        with `delete`, erase `path` through `secure_delete`. */
    method Store(target: Path, payload: seq<byte>, path: Path, delete: bool) returns (status: Status)
      requires Valid() && IsLeaf(fs, path)
      modifies this
      ensures Valid()
      ensures prompts == old(prompts) && replies == old(replies)
      ensures var s := Finish(old(fs), target, payload, path, delete);
        status == s.status && fs == s.fs && shreds == old(shreds) + s.shredded
    {
      var w := Write(fs, target, payload);
      if w.Err? {
        ShredsAppendNone(shreds);
        return Raised(w.error);
      }
      FinishWritten(fs, target, payload, path, delete, w.value);
      Commit(w.value);
      if delete {
        ShredLeaf(path);
      } else {
        ShredsAppendNone(shreds);
      }
      status := Returned;
    }

    /** The bytes `open(..., 'wb').write()` put on disk: the host's tree
        becomes `m1`, and the shred record and the console stay as they were. */
    method Commit(m1: Fs)
      requires WellFormed(m1)
      modifies this
      ensures Valid() && fs == m1
      ensures shreds == old(shreds) && prompts == old(prompts) && replies == old(replies)
    {
      fs := m1;
    }

    /** `secure_delete(path, auto=True)` on a file or link: one quiet shred
        of that entry alone, and no question asked. */
    method ShredLeaf(path: Path)
      requires Valid() && IsLeaf(fs, path)
      modifies this
      ensures Valid()
      ensures prompts == old(prompts) && replies == old(replies)
      ensures fs == old(fs) - {path} && shreds == old(shreds) + [ShredCall(path, ShredOptions(false))]
    {
      ghost var fs1, t1 := fs, shreds;
      LeafAlone(fs1, path);
      var _ := SecureDelete(path, true, false);
      ShredsAppendOne(t1, shreds, path, ShredOptions(false));
    }
  }
}
