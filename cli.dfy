/** The command line of app/main.py: `command_map`, the guards that decide
    the exit code before any command runs, the binding of the remaining
    words to the command's parameters, and the run that reports instead of
    propagating whatever the command raises. */
module Cli {
  import opened Wrappers
  import opened Exceptions
  import opened Walks
  import Crypto
  import Tree
  import Commands
  import Confirmation

  /** The five entries of `command_map`. */
  datatype Command = Delete | Encrypt | Decrypt | EncryptText | DecryptText

  /** The key under which `command_map` holds each command. */
  function Name(c: Command): string
  {
    match c
    case Delete => "delete"
    case Encrypt => "encrypt"
    case Decrypt => "decrypt"
    case EncryptText => "encrypt_text"
    case DecryptText => "decrypt_text"
  }

  /** `command_map[name]`, when `name` is a key. */
  function Lookup(name: string): (r: Option<Command>)
    ensures r.Some? ==> Name(r.value) == name
  {
    if name == "delete" then Some(Delete)
    else if name == "encrypt" then Some(Encrypt)
    else if name == "decrypt" then Some(Decrypt)
    else if name == "encrypt_text" then Some(EncryptText)
    else if name == "decrypt_text" then Some(DecryptText)
    else None
  }

  /** Every command is found under its own name, so a name is a key
      exactly when some command carries it. */
  lemma LookupName(c: Command)
    ensures Lookup(Name(c)) == Some(c)
  {
  }

  /** `len(command.__annotations__)`: the annotated parameters, which are
      the ones without a default (no command annotates its result). */
  function Required(c: Command): (n: nat)
    ensures n <= Accepted(c)
    ensures n == Accepted(c) - Defaulted(c)
    ensures n == 1 <==> c == Delete
    ensures c != Delete ==> n == 2
  {
    if c == Delete then 1 else 2
  }

  /** How many trailing parameters of the signature have a default:
      `auto` and `verbose` for `delete`, `delete` for `encrypt` and
      `decrypt`, none for the two text commands. */
  function Defaulted(c: Command): nat
  {
    match c
    case Delete => 2
    case Encrypt => 1
    case Decrypt => 1
    case EncryptText => 0
    case DecryptText => 0
  }

  /** How many positional arguments the command's signature takes. */
  function Accepted(c: Command): nat
  {
    match c
    case Delete => 3
    case Encrypt => 3
    case Decrypt => 3
    case EncryptText => 2
    case DecryptText => 2
  }

  predicate IsHelp(word: string)
  {
    word == "help" || word == "h"
  }

  /** What the guards decide: leave with an exit code, or run a command on
      the words after its name. */
  datatype Outcome = Exit(code: int) | Run(command: Command, options: seq<string>)

  /** The guard chain of the `__main__` block, given `sys.argv`. */
  function Dispatch(argv: seq<string>): (o: Outcome)
    ensures o.Run? <==>
      && |argv| >= 2 && !IsHelp(argv[1]) && Lookup(argv[1]).Some?
      && |argv| - 2 >= Required(Lookup(argv[1]).value)
    ensures o.Run? ==> Name(o.command) == argv[1] && argv == argv[..2] + o.options
    ensures o.Exit? ==> (o.code == 0 <==> |argv| >= 2 && IsHelp(argv[1]))
    ensures o.Exit? ==> o.code == 0 || o.code == 1
  {
    if |argv| < 2 then Exit(1)
    else if IsHelp(argv[1]) then Exit(0)
    else
      match Lookup(argv[1])
      case None => Exit(1)
      case Some(c) =>
        if |argv[2..]| < Required(c) then Exit(1)
        else Run(c, argv[2..])
  }

  /** A Python call with its arguments bound: strings passed where the
      signature expects flags count by their truthiness. */
  datatype Call =
    | SecureDeleteCall(path: string, auto: bool, verbose: bool)
    | EncryptCall(path: string, key: string, delete: bool)
    | DecryptCall(path: string, key: string, delete: bool)
    | EncryptTextCall(text: string, key: string)
    | DecryptTextCall(token: string, key: string)

  /** `bool(s)` for a string: false only for the empty string. */
  predicate Truthy(s: string)
  {
    s != []
  }

  /** `command(*options)` up to the call itself: too many words raise
      `TypeError`; missing flags take their defaults (`auto=False`,
      `verbose=True`, `delete=True`). */
  function Bind(c: Command, options: seq<string>): (r: Result<Call, Error>)
    requires |options| >= Required(c)
    ensures r.Err? <==> |options| > Accepted(c)
    ensures r.Err? ==> r.error == TypeError
  {
    if |options| > Accepted(c) then Err(TypeError)
    else
      match c
      case Delete =>
        Ok(SecureDeleteCall(options[0], |options| > 1 && Truthy(options[1]), |options| < 3 || Truthy(options[2])))
      case Encrypt => Ok(EncryptCall(options[0], options[1], |options| < 3 || Truthy(options[2])))
      case Decrypt => Ok(DecryptCall(options[0], options[1], |options| < 3 || Truthy(options[2])))
      case EncryptText => Ok(EncryptTextCall(options[0], options[1]))
      case DecryptText => Ok(DecryptTextCall(options[0], options[1]))
  }

  /** The words after the command name become its parameters in order,
      and an omitted flag takes the default the signature gives it. */
  lemma BindDefaults(path: string, key: string)
    ensures Bind(Delete, [path]) == Ok(SecureDeleteCall(path, false, true))
    ensures Bind(Encrypt, [path, key]) == Ok(EncryptCall(path, key, true))
    ensures Bind(Decrypt, [path, key]) == Ok(DecryptCall(path, key, true))
  {
  }

  /** Any word given for a flag, `False` and `no` included, turns it on;
      only an empty word turns it off. */
  lemma FlagWords(path: string, key: string, word: string)
    ensures Bind(Delete, [path, word]).value.auto <==> word != []
    ensures Bind(Delete, [path, word, word]).value.verbose <==> word != []
    ensures Bind(Encrypt, [path, key, word]).value.delete <==> word != []
    ensures Bind(Decrypt, [path, key, word]).value.delete <==> word != []
  {
  }

  /** The exit status of the process: the guard's code, or 0 once a
      command has run, since its exceptions are caught and printed. */
  function ExitCode(o: Outcome): (code: int)
    ensures code == 0 <==> o.Run? || o.code == 0
  {
    match o
    case Exit(c) => c
    case Run(_, _) => 0
  }

  /** What the `__main__` block prints after `Error: `: the exception the
      command raised, if it raised one. */
  function Report(status: Status): (r: Option<Error>)
    ensures r.Some? <==> status.Raised?
    ensures r.Some? ==> r.value == status.error
  {
    if status.Raised? then Some(status.error) else None
  }

  /** What running `call` leaves on `host`, which held the tree `fs0`, the
      shred record `t0`, the prompts `p0` and the answers `r0` before, and
      what is reported. */
  ghost predicate Ran(host: Commands.Host, call: Call, fs0: Tree.Fs, t0: seq<Tree.ShredCall>,
                      p0: seq<string>, r0: seq<string>, reported: Option<Error>)
    reads host
  {
    match call
    case SecureDeleteCall(path, auto, verbose) => DeleteRan(host, path, auto, verbose, fs0, t0, p0, r0, reported)
    case EncryptCall(path, key, delete) => EncryptRan(host, path, key, delete, fs0, t0, p0, r0, reported)
    case DecryptCall(path, key, delete) => DecryptRan(host, path, key, delete, fs0, t0, p0, r0, reported)
    case EncryptTextCall(_, _) =>
      && reported == None
      && host.fs == fs0 && host.shreds == t0 && host.prompts == p0 && host.replies == r0
    case DecryptTextCall(token, key) =>
      && (var d := Crypto.DecryptText(Crypto.Str(token), key, host.md5);
          reported == if d.Ok? then None else Some(d.error))
      && host.fs == fs0 && host.shreds == t0 && host.prompts == p0 && host.replies == r0
  }

  /** `delete <path> [auto] [verbose]`: a missing path is reported; with
      `auto` the leaves are erased; otherwise one question is asked, and
      only a yes erases. */
  ghost predicate DeleteRan(host: Commands.Host, path: string, auto: bool, verbose: bool, fs0: Tree.Fs,
                            t0: seq<Tree.ShredCall>, p0: seq<string>, r0: seq<string>, reported: Option<Error>)
    reads host
  {
    && host.Valid() && Tree.Dirs(host.fs) == Tree.Dirs(fs0)
    && (path !in fs0 ==>
          && reported == Some(ValueError(InvalidPath(path)))
          && host.fs == fs0 && host.shreds == t0 && host.prompts == p0 && host.replies == r0)
    && (path in fs0 && auto ==>
          && reported == None && host.prompts == p0 && host.replies == r0
          && host.Erased(fs0, t0, path, ShredOptions(verbose)))
    && (path in fs0 && !auto ==>
          && host.prompts == p0 + [ErasePrompt(Tree.IsDir(fs0, path), path)]
          && (r0 == [] ==>
                reported == Some(EOFError) && host.replies == [] && host.fs == fs0 && host.shreds == t0)
          && (r0 != [] ==>
                && reported == None && host.replies == r0[1..]
                && if Confirmation.IsYes(r0[0]) then host.Erased(fs0, t0, path, ShredOptions(verbose))
                   else host.fs == fs0 && host.shreds == t0))
  }

  /** `encrypt <path> <key> [delete]`: a missing path is reported; anything
      else raised is an `OSError`; at most the leaves below the path go, by
      quiet shreds; a file or link gets `SealLeaf`, a sealable tree its plan. */
  ghost predicate EncryptRan(host: Commands.Host, path: string, key: string, delete: bool, fs0: Tree.Fs,
                             t0: seq<Tree.ShredCall>, p0: seq<string>, r0: seq<string>, reported: Option<Error>)
    reads host
  {
    && host.Valid() && Tree.Dirs(host.fs) == Tree.Dirs(fs0)
    && host.prompts == p0 && host.replies == r0
    && host.Quiet(fs0, t0, path)
    && (path !in fs0 ==>
          reported == Some(ValueError(InvalidPath(path))) && host.fs == fs0 && host.shreds == t0)
    && (path in fs0 && reported.Some? ==> reported.value.OSError?)
    && (Tree.IsLeaf(fs0, path) ==>
          var s := SealLeaf(fs0, path, key, host.md5, delete);
          reported == Report(s.status) && host.fs == s.fs && host.shreds == t0 + s.shredded)
    && (path in fs0 && Sealable(fs0, path) ==>
          reported == None && host.Sealed(fs0, t0, path, key, delete))
  }

  /** `decrypt <path> <key> [delete]`: as `encrypt`, with the wrong key's
      `ValueError` as the one other error, and tokens inside a directory
      always erased. */
  ghost predicate DecryptRan(host: Commands.Host, path: string, key: string, delete: bool, fs0: Tree.Fs,
                             t0: seq<Tree.ShredCall>, p0: seq<string>, r0: seq<string>, reported: Option<Error>)
    reads host
  {
    && host.Valid() && Tree.Dirs(host.fs) == Tree.Dirs(fs0)
    && host.prompts == p0 && host.replies == r0
    && host.Quiet(fs0, t0, path)
    && (path !in fs0 ==>
          reported == Some(ValueError(InvalidDecryptPath(path))) && host.fs == fs0 && host.shreds == t0)
    && (path in fs0 && reported.Some? ==>
          reported.value.OSError? || reported.value == ValueError(Crypto.WrongKeyMessage))
    && (Tree.IsLeaf(fs0, path) ==>
          var s := OpenLeaf(fs0, path, key, host.md5, delete);
          reported == Report(s.status) && host.fs == s.fs && host.shreds == t0 + s.shredded)
    && (path in fs0 && Openable(fs0, path, key, host.md5) ==>
          reported == None && host.Opened(fs0, t0, path, key, delete || Tree.IsDir(fs0, path)))
  }

  /** `command(*options)` inside the `try`: the command runs on the host,
      and what it raises is caught and reported. The text commands'
      results are computed and dropped. */
  method RunCommand(host: Commands.Host, call: Call) returns (reported: Option<Error>)
    requires host.Valid()
    modifies host
    ensures host.Valid()
    ensures Ran(host, call, old(host.fs), old(host.shreds), old(host.prompts), old(host.replies), reported)
  {
    var status: Status := Returned;
    match call {
      case SecureDeleteCall(path, auto, verbose) =>
        status := host.SecureDelete(path, auto, verbose);
      case EncryptCall(path, key, delete) =>
        status := host.Encrypt(path, key, delete);
      case DecryptCall(path, key, delete) =>
        status := host.Decrypt(path, key, delete);
      case EncryptTextCall(text, key) =>
        var _ := Crypto.EncryptText(Crypto.Str(text), key, host.md5);
      case DecryptTextCall(token, key) =>
        var d := Crypto.DecryptText(Crypto.Str(token), key, host.md5);
        if d.Err? {
          status := Raised(d.error);
        }
    }
    reported := Report(status);
  }

  /** The `__main__` block run on `host`: the guards, then the command,
      whose exception (if any) is reported rather than raised. */
  method Execute(host: Commands.Host, argv: seq<string>) returns (code: int, reported: Option<Error>)
    requires host.Valid()
    modifies host
    ensures host.Valid()
    ensures code == ExitCode(Dispatch(argv))
    ensures Dispatch(argv).Exit? ==> reported == None && unchanged(host)
    ensures Dispatch(argv).Run? ==>
      var o := Dispatch(argv);
      var b := Bind(o.command, o.options);
      && (b.Err? ==> reported == Some(TypeError) && unchanged(host))
      && (b.Ok? ==> Ran(host, b.value, old(host.fs), old(host.shreds), old(host.prompts), old(host.replies), reported))
  {
    var o := Dispatch(argv);
    code := ExitCode(o);
    if o.Exit? {
      return code, None;
    }
    var b := Bind(o.command, o.options);
    if b.Err? {
      return code, Some(b.error);
    }
    reported := RunCommand(host, b.value);
  }
}
