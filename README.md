# file-guardian, modelled in Dafny

file-guardian is a small command-line tool. It shreds files and directory
trees with `sudo shred`. It also encrypts and decrypts files and trees with
a Fernet key derived from a passphrase, and encrypts or decrypts single
texts. This project models the commands in `app/commands.py` and the command
line in `app/main.py`, and proves what they do.

The project is made of these modules:

- `Commands.Host` (commands.dfy) is a class holding the state the commands
  change:
  - the filesystem `fs`, a map from path strings, taken literally, to
    `File(bytes)`, `Link(target)` or `Dir`;
  - the `shred` runs made so far;
  - the prompts written and the console answers still to be read.

  `secure_delete`, `encrypt` and `decrypt` are recursive methods over
  `os.listdir`. Each directory's listing is walked by a loop, and the listing
  is taken once, on entry. The loop body is its own method (`EraseChild`,
  `SealChild`, `OpenChild`), proved against a predicate describing the walk
  so far.
- `Walks` (walks.dfy) is the specification side. What one file goes through
  is written as functions (`SealLeaf`, `OpenLeaf`, `Finish`). What a whole
  tree goes through is written as plans: `SealPlan`, `OpenPlan`, and a map
  from each leaf to the file it writes. `Tree.Applied` says a plan has been
  carried out.
- `Tree` (tree.dfy) holds the filesystem: well-formedness, leaves and
  subtrees, `open(...).read()` and `open(..., 'wb').write()`.
- `Paths` (paths.dfy) holds paths as `os.path.join` builds them, and
  `str.replace('.encrypted', '', 1)`.
- `Crypto` (crypto.dfy) holds `get_fernet_key`, `encrypt_text` and
  `decrypt_text`. It relies on:
  - `Base16`: the lowercase hex digest;
  - `Base64Url`: section 5 of RFC 4648;
  - `Utf8`: `str.encode()`.
- `Confirmation` (confirm.dfy) holds `confirm`.
- `RoundTrip` (roundtrip.dfy) proves that `decrypt` after `encrypt` restores
  a whole tree.
- `Cli` (cli.dfy) holds `command_map`, the guards of the `__main__` block,
  argument binding and the run.

Behaviour of the source that the model keeps as written:

- **Nested decrypt always erases.** Inside a directory, `decrypt` calls
  itself without `delete`. Every token below a directory is therefore erased
  even when `delete=False` was asked for. `Commands.Host.Decrypt` states this
  as `delete || IsDir(...)`.
- **Decrypting an unmarked file destroys it with the default options.**
  `decrypt` on a file whose name has no `.encrypted` writes the plaintext
  over the file itself. With `delete` (the default) it then shreds it
  (`Walks.OpenUnmarked`).
- **Only the first marker is removed.** `replace` takes out the first
  `.encrypted` anywhere in the path, a directory name included.
- **Any non-empty word sets a flag.** On the command line, flags are bound
  from strings, so `False` or `no` turns a flag on. Only an empty word turns
  it off (`Cli.FlagWords`).
- **Errors are reported, not fatal.** The first error ends a walk. The
  command line reports it and still exits with status 0.

## Model

| member | source | states |
|---|---|---|
| Confirmation.Confirm | app/commands.py:208-212 | The answer is a yes exactly when it is `y` or `yes` in any mix of letter case. Everything else is a no. |
| Confirmation.AffirmativeAnswers | app/commands.py:210 | Lowercasing and comparing with `('y', 'yes')` accepts exactly the answers `IsYes` describes, in both directions. |
| Confirmation.Lower | app/commands.py:210 | `lower()` keeps the length and lowercases each ASCII capital in place. |
| Commands.Host.Ask | app/commands.py:208-212 | Writes exactly the one prompt and consumes one answer, or raises `EOFError` when the console has none. The result is whether that answer is a yes. The filesystem and the shred log are untouched. |
| Commands.Host.SecureDelete | app/commands.py:7-47 | A missing path raises `ValueError` with the source's message and changes nothing. With `auto`, no prompt is written, and afterwards exactly the leaves at or below the path are gone, each shredded once with `ShredOptions(verbose)`. Without `auto`, exactly one prompt is written, worded for a directory or a file. No answer raises `EOFError` and changes nothing; a no changes nothing; a yes erases as with `auto`. |
| Commands.Host.Erase | app/commands.py:21-44 | After confirmation, a directory or a leaf is erased: exactly its leaves are removed and shredded once each. Directories stay, and nothing is prompted. |
| Commands.Host.EraseTree | app/commands.py:21-31 | The walk over the listing taken on entry erases every leaf of every child, with the same `verbose` and no prompt. |
| Commands.Host.EraseChild | app/commands.py:29-31 | `secure_delete(child, auto=True, verbose)` extends the walk by exactly that child's leaves and their shreds, and leaves the rest of the tree as it was. |
| Commands.Host.Shred | app/commands.py:44 | One run with these options is recorded for exactly this leaf, and the leaf is removed. |
| Walks.ShredOptions | app/commands.py:39-42 | `v` is among the options exactly when `verbose`. The other options are always `f`, `u`, `x`, `z`. |
| Walks.QuietOptions | app/commands.py:39-42 | The options are `fuvxz` when verbose and `fuxz` otherwise. |
| Walks.Without | app/commands.py:42 | `replace(c, '')` leaves no `c` and keeps every other character that was there. |
| Commands.Host.Encrypt | app/commands.py:50-90 | A missing path raises `ValueError` and changes nothing. No prompt is ever written. Only quiet shreds (`fuxz`) are run, and only leaves at or below the path can disappear. A file or link ends exactly as `SealLeaf` says. On a sealable tree the call returns, the encryption plan is carried out, and with `delete` each original is shredded exactly once. |
| Commands.Host.EncryptTree | app/commands.py:74-77 | Every entry of the listing is encrypted with the same key and `delete`, and only `OSError` can end the walk. On a sealable tree it returns with the whole plan carried out. |
| Commands.Host.SealChild | app/commands.py:75-77 | One recursive `encrypt` extends the walk's progress by that child's part of the plan and its shreds. It cannot fail on a sealable tree. |
| Commands.Host.SealFile | app/commands.py:78-88 | Encrypting a file or link changes the host exactly as `SealLeaf` describes. |
| Commands.Host.Store | app/commands.py:83-88 | The write, then the optional `secure_delete(path, auto=True, verbose=False)`, change the host exactly as `Finish` describes. The same code is used at lines 122-127 of `decrypt`. |
| Commands.Host.Commit | app/commands.py:83-84 | The written tree becomes the host's filesystem, which stays well formed. The shred record, the prompts and the answers are untouched. |
| Commands.Host.ShredLeaf | app/commands.py:86-88 | `secure_delete(path, auto=True, verbose=False)` on a file or link removes exactly that entry and records exactly one quiet shred of it. No prompt is written and no answer is read. |
| Commands.Host.Decrypt | app/commands.py:93-129 | A missing path raises `ValueError` with decrypt's own English message. Only `OSError` or 'Clave incorrecta.' can be raised. Only quiet shreds are run. A file or link ends exactly as `OpenLeaf` says. On an openable tree it returns with the decryption plan carried out, erasing every token when the path is a directory, whatever `delete` was. |
| Commands.Host.DecryptTree | app/commands.py:113-116 | Every entry is decrypted with `delete=True`. On an openable tree the whole plan is carried out and every token is shredded once. |
| Commands.Host.OpenChild | app/commands.py:114-116 | One recursive `decrypt(child, key)` extends the walk's progress by that child's part of the plan. It cannot fail on an openable tree. |
| Commands.Host.OpenFile | app/commands.py:117-127 | Decrypting a file or link changes the host exactly as `OpenLeaf` describes. |
| Walks.FinishShape | app/commands.py:83-88 | Whatever the write does, the tree stays well formed and keeps its directories. At most the file itself disappears. A failed write changes nothing and shreds nothing. The only possible shred is one quiet run on the file, and only with `delete`. |
| Walks.FinishWritten | app/commands.py:83-88 | Once the write has succeeded, the file is still a leaf. The step ends with that write, plus the removal of the file and one quiet shred when `delete`. |
| Walks.FinishClean | app/commands.py:83-88 | Writing to a free name carries out exactly the one-file plan, with the original kept or erased according to `delete`. |
| Walks.SealLeafShape | app/commands.py:78-88 | `encrypt` on one file keeps the tree well formed. Only `OSError` can be raised, and then nothing changes. At most the file disappears. |
| Walks.OpenLeafShape | app/commands.py:117-127 | `decrypt` on one file keeps the tree well formed. It raises only `OSError` or 'Clave incorrecta.', and then nothing changes. At most the token disappears. |
| Walks.QuietLeafStep | app/commands.py:86-88 | On one file, only that file can disappear and only quiet runs are recorded. |
| Walks.SealTargetFree | app/commands.py:83 | For a sealable file, `path + '.encrypted'` is free and can hold a file. |
| Walks.SealLeafClean | app/commands.py:78-88 | A regular file whose artifact name is free gets exactly its token written there. It is erased, with one quiet shred, only with `delete`. |
| Walks.OpenLeafClean | app/commands.py:117-127 | An artifact whose original name is free and whose token opens gets exactly its plaintext written under the original name. It is erased only with `delete`. |
| Walks.SealedLeaf | app/commands.py:80-88 | After `encrypt` on a file whose artifact name is free, the tree holds the token under `path + '.encrypted'` and, with `delete`, no longer the file. |
| Walks.OpenWritten | app/commands.py:119-127 | `decrypt` on a token that opens, once the plaintext is written, ends with the token shredded and removed exactly when `delete`. |
| Walks.OpenSealed | app/commands.py:119-127 | Decrypting the token `encrypt` stored gives back exactly the tree before `encrypt`, after one quiet shred of the token. |
| Walks.LeafRoundTrip | app/commands.py:78-127 | `encrypt` then `decrypt`, both with `delete=True`, on a file without the marker and with a free artifact name, returns the tree exactly as it was. The file is shredded once and its token once. |
| Walks.OpenWithWrongKey | app/commands.py:119-123 | A token sealed under a passphrase with another digest raises 'Clave incorrecta.' before anything is written or shredded. |
| Walks.OpenUnmarked | app/commands.py:122-127 | A file without the marker is overwritten by its own plaintext. With `delete` it is then shredded, so nothing of it is left. |
| Walks.SealPlanFits | app/commands.py:83 | On a sealable tree, every token goes to a free name in the directory of its file, and no two tokens share a name. |
| Walks.OpenPlanFits | app/commands.py:122 | On an openable tree, every plaintext goes to a free name in the directory of its token, and no two share a name. |
| Walks.SealChildReady | app/commands.py:74-77 | When the walk reaches a child of a sealable directory, the child is still there, its subtree is untouched and sealable, and its plan is its share of the whole. |
| Walks.OpenChildReady | app/commands.py:113-116 | When the walk reaches a child of an openable directory, the child is still there, its subtree is openable, and its plan is its share of the whole. |
| Walks.SealProgress | app/commands.py:75-77 | The walk's progress plus one child's completed `encrypt` is the progress over one more child. |
| Walks.OpenProgress | app/commands.py:114-116 | The walk's progress plus one child's completed `decrypt` is the progress over one more child. |
| Walks.WalkStart | app/commands.py:74-75 | Before the first entry, nothing has been written or shredded. |
| Walks.WalkEnd | app/commands.py:74-77 | After the last entry of the listing, the whole plan of the directory is carried out and every erased leaf is shredded once. |
| Tree.Write | app/commands.py:83-84 | Opening for writing succeeds exactly when the target, after one link hop, can hold a file. Then only that entry changes. |
| Tree.WriteKeepsShape | app/commands.py:83-84 | A write that succeeds keeps the tree well formed and keeps its directories, and no entry disappears. |
| Tree.StoreKeepsShape | app/commands.py:84 | Writing a file keeps the tree well formed and keeps its directories. |
| Tree.RemoveKeepsShape | app/commands.py:44 | Removing shredded files and links keeps the tree well formed and keeps its directories. |
| Tree.LeafAlone | app/commands.py:33-44 | The only leaf at or below a file or link is itself. |
| Tree.LeavesOfDir | app/commands.py:21-31 | The leaves of a directory are exactly the leaves below the entries `listdir` returns. |
| Tree.ChildDirsFewer | app/commands.py:29-31 | A child holds fewer directories than its parent, so the recursion ends. |
| Tree.ErasedElsewhere | app/commands.py:29-31 | Erasing some children's leaves leaves another child's subtree as it was. |
| Tree.EraseStep | app/commands.py:29-31 | Erasing one more child extends the erased leaves and the shreds by exactly that child's. |
| Tree.EraseStart | app/commands.py:29 | Before the first entry, nothing is erased. |
| Tree.EraseEnd | app/commands.py:29-31 | After every entry, exactly the directory's leaves are erased, each shredded once. |
| Paths.Strip | app/commands.py:122 | Without `.encrypted` the path is unchanged. Otherwise the first occurrence, ten characters, is taken out, and the text before and after it is kept. |
| Paths.FindFrom | app/commands.py:122 | Finds the first occurrence of the marker at or after a position, or reports that there is none. |
| Paths.StripSuffix | app/commands.py:122 | Removing the first marker from `path + '.encrypted'` gives `path` back when `path` has no marker. |
| Paths.MarkedStrip | app/commands.py:122 | On an artifact name, `replace` removes exactly the final marker. |
| Paths.SuffixSibling | app/commands.py:83 | `path + '.encrypted'` has a valid name and lies in the same directory as `path`. |
| Paths.Name | app/commands.py:75-76 | The name `listdir` reports for an entry has no slash. |
| Crypto.GetFernetKey | app/commands.py:193-205 | The key is 44 bytes, ending in `=`, for every passphrase. |
| Crypto.HexText | app/commands.py:205 | `hexdigest().encode()` is 32 ASCII bytes. |
| Crypto.EndsWithPad | app/commands.py:205 | Base64 of a length that leaves two bytes over ends in one `=`. |
| Crypto.KeyMaterial | app/commands.py:153-154 | The derived key is a valid Fernet key. Its 32 bytes of material are the hex digest text, so `Fernet(bkey)` never raises. |
| Crypto.DistinctKeys | app/commands.py:193-205 | Passphrases with different digests get different keys, with different material. |
| Crypto.EncryptText | app/commands.py:132-157 | The token is ASCII, whatever the text. What decrypting it gives is stated by `Crypto.RoundTrip` and `Crypto.WrongKey`. |
| Crypto.DecryptText | app/commands.py:160-190 | The only failures are 'Clave incorrecta.' and, for a non-ASCII `str` token, base64's own `ValueError`. |
| Crypto.Seal | app/commands.py:156 | A Fernet token is ASCII. |
| Crypto.Open | app/commands.py:187 | A token opens exactly when it carries this key's material, and then the result is the bytes after it. |
| Crypto.Authenticated | app/commands.py:183-190 | A successful decryption means the token was sealed under this passphrase's key, around exactly the bytes returned. |
| Crypto.RoundTrip | app/commands.py:132-190 | `decrypt_text(encrypt_text(t, key), key)` returns the bytes of `t`. |
| Crypto.WrongKey | app/commands.py:186-189 | A token sealed under another passphrase, one whose digest differs, raises 'Clave incorrecta.'. Real Fernet's HMAC covers only the first 8 digest bytes, so for digests that share them this is only the likely outcome (see Left out). |
| Base16.Encode | app/commands.py:205 | The hex digest has two lowercase hex digits per byte. |
| Base16.DecodeEncode | app/commands.py:205 | The hex digest text determines the digest. |
| Base16.EncodeInjective | app/commands.py:205 | Different digests give different hex texts. |
| Base64Url.Encode | app/commands.py:205 | `urlsafe_b64encode` gives four ASCII symbols for every three bytes, the last group padded. |
| Base64Url.DecodeEncode | app/commands.py:205 | Decoding the base64 text gives back the bytes encoded. |
| Utf8.EncodeAscii | app/commands.py:201 | An ASCII string encodes to its own codes, one byte each. |
| RoundTrip.SealedLeaves | app/commands.py:74-88 | After `encrypt` with `delete` on a sealable tree, the leaves are exactly the tokens, one per original file, each named after it. |
| RoundTrip.SealedOpenable | app/commands.py:113-123 | That tree is openable with the same passphrase, and its decryption plan writes each original's bytes back under the original's name. |
| RoundTrip.TreeRoundTrip | app/commands.py:74-127 | `decrypt(dir, key)` after `encrypt(dir, key)`, both with `delete=True`, on a sealable tree without `.encrypted` names leaves the tree exactly as it was. |
| Cli.Lookup | app/main.py:12-18 | A name found in `command_map` maps to the command registered under it. |
| Cli.LookupName | app/main.py:12-18 | Every command is found under its own name. |
| Cli.Required | app/main.py:53 | The arguments needed are the parameters of the signature without a default: `delete` needs one and every other command needs two. None needs more than it accepts. |
| Cli.Dispatch | app/main.py:32-56 | A command runs exactly when there is a non-help name in `command_map` with enough words after it. It receives exactly the words after its name. Exit code 0 is exactly the help case, and every other early exit is 1. |
| Cli.Bind | app/main.py:60 | The call raises `TypeError` exactly when more words are given than the signature accepts. |
| Cli.BindDefaults | app/main.py:60 | Omitted flags take the defaults of the signatures: `auto=False`, `verbose=True`, `delete=True`. |
| Cli.FlagWords | app/main.py:60 | A word given for a flag turns it on exactly when it is non-empty. |
| Cli.ExitCode | app/main.py:32-62 | The status is 0 exactly for help or once a command has run. |
| Cli.RunCommand | app/main.py:59-62 | The bound call runs, and what it raises is reported instead of propagated, as `Ran` states per command. `delete` with a missing path reports `ValueError` and changes nothing. `delete` with `auto` erases exactly the path's leaves. `delete` without `auto` writes exactly one prompt: no answer reports `EOFError` and changes nothing, a no changes nothing, a yes erases. `encrypt` and `decrypt` of a missing path report their own `ValueError` and change nothing. Otherwise they write no prompt, run only quiet shreds, remove only leaves below the path, and report only `OSError` (or, for `decrypt`, 'Clave incorrecta.'). On a file or link they end exactly as `SealLeaf` or `OpenLeaf` says. On a sealable or openable tree they carry out the plan, with nested tokens always erased. `encrypt_text` changes nothing and reports nothing; `decrypt_text` changes nothing and reports its error. |
| Cli.Execute | app/main.py:31-62 | Returns the guards' exit code. A guard exit changes nothing and reports nothing. Too many words report `TypeError` and change nothing. Otherwise the bound call runs, and the host and the report are exactly as `Cli.RunCommand` states. |

## Left out

- Fernet is symbolic. A token is the base64 of the version byte, the 32
  bytes of key material and the plaintext, and it opens only under the same
  material. AES, the IV, the timestamp and the randomness of each token are
  not modelled.
- Crypto.WrongKey: real Fernet signs with only the first 16 bytes of the key
  material, the first 8 digest bytes in hex. Two passphrases whose digests
  share those 8 bytes pass the HMAC check, and 'Clave incorrecta.' then
  follows only when AES unpadding fails, which is likely but not certain.
- MD5 is not modelled. It is a parameter, any function from bytes to 16
  bytes, held by the host.
- `lower()` in `confirm` is modelled on ASCII letters only. No other
  character lowercases to `y`, `e` or `s`, so the yes and no answers are the
  same.
- Links are leaves, as `islink` makes them in the source. Reading or writing
  through a link follows one hop; a longer chain is an `OSError`. The
  source's `os.path.isdir` follows links, so there a link to a directory is
  walked as a directory. In the model it is a leaf: `encrypt` and `decrypt`
  fail to read it, and `delete` shreds and removes the link itself, where
  the source (app/commands.py:21-31) asks about the target directory,
  shreds the files listed in it and keeps the link.
- The real `shred` is not modelled. It is recorded as a run, with its path
  and options, and the file or link is removed. Its exit status is ignored,
  as `os.system`'s is in the source. The real `shred -u` given a link to a
  file opens the target through the link, overwrites and truncates it, and
  then unlinks the link; the model removes only the link and leaves the
  target's bytes as they were.
- Directories are left in place by all three walks, as in the source.
- A write to a name that cannot be a file is an `OSError`: an empty name,
  `.`, `..`, or a name whose parent key is not a directory in the map.
- Path arguments are taken as literal map keys; the OS's path resolution is
  not modelled. `dir/`, `.`, `./x` and `a//b` are never keys of a tree
  built by `os.path.join`, so `delete`, `encrypt` and `decrypt` given them
  report the missing-path `ValueError` where the source walks the entry. A
  marker removed from a directory name (`a/.encrypted/b` becomes `a//b`)
  makes the write an `OSError` in the model, where the OS writes `a/b`.
  Because keys are literal, a well-formed tree may hold `//a` beside `/a`,
  and decrypting `/.encrypted/f` then adds the key `//f` beside `/f`.
  Strings are sequences of characters, so a lone surrogate cannot occur, and
  the `UnicodeEncodeError` of `.encode()` (app/commands.py:155 and 201) is
  not modelled.
- Entries other than files, links and directories (FIFOs, sockets, device
  files) are not modelled. In the source, `secure_delete`, `encrypt` and
  `decrypt` raise `ValueError` on meeting one (app/commands.py:46-47, 89-90,
  128-129). Inside a directory that stops the walk part-way, after the
  earlier entries of the listing were already handled. The model has no
  such entry, so this mid-walk abort does not occur.
- `os.listdir` returns names in no particular order. The walk picks an
  arbitrary remaining entry each time, and the tree-level properties hold
  for every order.
- `print`, `input`'s terminal handling, `exit` and `show_help` are not
  modelled. `input` is the host's queue of answers; `exit` is the returned
  code.
- Console output is not modelled: every message printed while walking, and
  the text results `encrypt_text` and `decrypt_text` return on the command
  line. The source discards those results too.
- Base64 decoding is strict: it needs full groups, with padding only at the
  end. Python's tolerance of stray characters is not modelled.
- Walks.LeafRoundTrip: covers only `delete=True` for both calls, the
  defaults; with `delete=False` the original and the token both remain.
- RoundTrip.TreeRoundTrip: is stated over the plans the host methods are
  proved to carry out (`Sealed`, `Opened`), not over two consecutive method
  calls.
- Commands.Host.Encrypt: on a tree that is not sealable (a link, or an
  artifact name already taken), only the shape is stated: quiet shreds,
  removals within the subtree, `OSError` only.
- Commands.Host.Decrypt: on a tree that is not openable, only the shape is
  stated: quiet shreds, removals within the subtree, `OSError` or
  'Clave incorrecta.' only.
