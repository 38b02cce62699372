/** The filesystem as the commands see it: `os.path.isdir`, `isfile`,
    `islink`, `os.listdir`, `open(..., 'rb').read()`, `open(..., 'wb').write()`
    and the files `shred` removes, over a map from path strings, taken
    literally, to entries. */
module Tree {
  import opened Wrappers
  import opened Bytes
  import opened Paths
  import opened Exceptions

  /** A regular file with its bytes, a symbolic link with its target, or a
      directory (whose entries are the keys it is the parent of). */
  datatype Entry = File(data: seq<byte>) | Link(target: Path) | Dir

  type Fs = map<Path, Entry>

  /** One `sudo shred -<options> "<path>"` run. */
  datatype ShredCall = ShredCall(path: Path, options: string)

  /** A file written by a walk: where, and what bytes. */
  datatype Artifact = Artifact(out: Path, content: seq<byte>)

  /** What a real directory tree guarantees: every entry has a proper name
      and sits in a directory that is present; the root is a directory. */
  ghost predicate WellFormed(m: Fs)
  {
    forall k {:trigger Placed(m, k)} :: k in m ==> Placed(m, k)
  }

  ghost predicate Placed(m: Fs, k: Path)
  {
    && k in m
    && (IsRoot(k) ==> m[k].Dir?)
    && (!IsRoot(k) ==> ValidName(Name(k)))
    && (HasParent(k) ==> IsDir(m, Parent(k)))
  }

  /** `os.path.isfile(p) or os.path.islink(p)` with links taken as leaves. */
  predicate IsLeaf(m: Fs, p: Path)
  {
    p in m && !m[p].Dir?
  }

  predicate IsDir(m: Fs, p: Path)
  {
    p in m && m[p].Dir?
  }

  /** The snapshot `os.listdir(p)` gives, each name already joined onto `p`. */
  function Children(m: Fs, p: Path): set<Path>
  {
    set c | c in m.Keys && HasParent(c) && Parent(c) == p
  }

  function Dirs(m: Fs): set<Path>
  {
    set d | d in m.Keys && m[d].Dir?
  }

  predicate InSubtree(k: Path, p: Path)
  {
    k == p || Under(k, p)
  }

  /** The directories at or below `p`: what shrinks on every recursive call. */
  ghost function DirsUnder(dirs: set<Path>, p: Path): set<Path>
  {
    set d | d in dirs && InSubtree(d, p)
  }

  /** The files and links at or below `p`: what a walk acts on. */
  ghost function Leaves(m: Fs, p: Path): set<Path>
  {
    set q | q in m && !m[q].Dir? && InSubtree(q, p)
  }

  /** The leaves below `p` that lie under one of the children in `cs`. */
  ghost function LeavesBelow(m: Fs, p: Path, cs: set<Path>): set<Path>
  {
    set q | q in m && !m[q].Dir? && Under(q, p) && Top(q, p) in cs
  }

  /** `open(p, 'rb').read()`: a link is followed one hop. */
  function Read(m: Fs, p: Path): Result<seq<byte>, Error>
    requires IsLeaf(m, p)
  {
    match m[p]
    case File(d) => Ok(d)
    case Link(t) => if t in m && m[t].File? then Ok(m[t].data) else Err(OSError(p))
    case Dir => Err(OSError(p))
  }

  /** The entry `open(p, 'wb')` writes: a link is followed one hop. */
  function WriteTarget(m: Fs, p: Path): Path
  {
    if p in m && m[p].Link? then m[p].target else p
  }

  /** `open(p, 'wb').write(data)`: fails on a directory, on a link chain, on a
      name that cannot be a file (empty, `.`, `..`, the root) and when the
      parent directory is missing. */
  function Write(m: Fs, p: Path, data: seq<byte>): (r: Result<Fs, Error>)
    ensures r.Ok? ==> r.value == m[WriteTarget(m, p) := File(data)]
    ensures r.Ok? <==> Storable(m, WriteTarget(m, p))
  {
    var t := WriteTarget(m, p);
    if Storable(m, t) then Ok(m[t := File(data)]) else Err(OSError(p))
  }

  /** A regular file can be stored under `t`. */
  predicate Storable(m: Fs, t: Path)
  {
    && !(t in m && !m[t].File?)
    && !IsRoot(t) && ValidName(Name(t))
    && (HasParent(t) ==> IsDir(m, Parent(t)))
  }

  /** Writing to a free name that can hold a file succeeds. */
  lemma WriteFresh(m: Fs, t: Path, data: seq<byte>)
    requires t !in m && Storable(m, t)
    ensures Write(m, t, data) == Ok(m[t := File(data)])
  {
  }

  /** Once a leaf has been replaced by a new entry elsewhere, its name can
      hold a file again. */
  lemma StorableAfterSwap(m: Fs, k: Path, q: Path, w: Entry)
    requires Placed(m, k) && !m[k].Dir? && q !in m
    ensures Storable(m[q := w] - {k}, k)
  {
    if HasParent(k) {
      assert |Parent(k)| < |k|;
    }
  }

  /** Storing a file keeps the tree's shape and its directories. */
  lemma {:induction false} StoreKeepsShape(m: Fs, t: Path, data: seq<byte>)
    requires WellFormed(m) && Storable(m, t)
    ensures WellFormed(m[t := File(data)])
    ensures Dirs(m[t := File(data)]) == Dirs(m)
  {
    var m' := m[t := File(data)];
    forall k | k in m'
      ensures Placed(m', k)
    {
      PlacedAfterStore(m, t, data, k);
    }
    StoreKeepsDirs(m, t, data);
  }

  /** One entry of the tree after a store is still placed: the new file
      sits in a present directory, and no directory was replaced. */
  lemma PlacedAfterStore(m: Fs, t: Path, data: seq<byte>, k: Path)
    requires WellFormed(m) && Storable(m, t) && k in m[t := File(data)]
    ensures Placed(m[t := File(data)], k)
  {
    if k == t {
      PlacedNewFile(m, t, data);
    } else {
      assert Placed(m, k);
      PlacedOldEntry(m, t, data, k);
    }
  }

  lemma PlacedNewFile(m: Fs, t: Path, data: seq<byte>)
    requires Storable(m, t)
    ensures Placed(m[t := File(data)], t)
  {
    if HasParent(t) {
      assert |Parent(t)| < |t|;
    }
  }

  lemma PlacedOldEntry(m: Fs, t: Path, data: seq<byte>, k: Path)
    requires Placed(m, k) && k != t && !IsDir(m, t)
    ensures Placed(m[t := File(data)], k)
  {
  }

  /** A write that succeeds keeps the tree's shape and its directories, and
      takes no entry away. */
  lemma WriteKeepsShape(m: Fs, p: Path, data: seq<byte>, m1: Fs)
    requires WellFormed(m) && Write(m, p, data) == Ok(m1)
    ensures WellFormed(m1) && Dirs(m1) == Dirs(m)
    ensures m.Keys <= m1.Keys
  {
    StoreKeepsShape(m, WriteTarget(m, p), data);
  }

  lemma StoreKeepsDirs(m: Fs, t: Path, data: seq<byte>)
    requires !IsDir(m, t)
    ensures Dirs(m[t := File(data)]) == Dirs(m)
  {
  }

  /** Removing files and links keeps the tree's shape and its directories. */
  lemma {:induction false} RemoveKeepsShape(m: Fs, leaves: set<Path>)
    requires WellFormed(m)
    requires forall q :: q in leaves ==> !IsDir(m, q)
    ensures WellFormed(m - leaves)
    ensures Dirs(m - leaves) == Dirs(m)
  {
    var m' := m - leaves;
    forall k | k in m'
      ensures Placed(m', k)
    {
      assert Placed(m, k);
    }
  }

  /** Every ancestor of an entry is present, so the walk reaches it. */
  lemma {:induction false} TopPresent(m: Fs, k: Path, p: Path)
    requires WellFormed(m) && k in m && Under(k, p)
    ensures Top(k, p) in m
    decreases |k|
  {
    assert Placed(m, k);
    if Parent(k) != p {
      TopPresent(m, Parent(k), p);
    }
  }

  lemma ChildIsBelow(m: Fs, p: Path, c: Path, k: Path)
    requires c in Children(m, p) && InSubtree(k, c)
    ensures Under(k, p) && Top(k, p) == c
  {
    TopOfChild(k, c);
  }

  /** The leaves of a directory are the leaves of its children. */
  lemma LeavesOfDir(m: Fs, p: Path)
    requires WellFormed(m) && IsDir(m, p)
    ensures Leaves(m, p) == LeavesBelow(m, p, Children(m, p))
    ensures LeavesBelow(m, p, {}) == {}
  {
    forall q | q in Leaves(m, p)
      ensures q in LeavesBelow(m, p, Children(m, p))
    {
      TopPresent(m, q, p);
    }
  }

  /** Part-way through the walk of `secure_delete` over `p`: exactly the
      leaves of the children in `done` are gone from `m0`, and the runs
      since `t0` shred each of them once with `options`. */
  ghost predicate ErasedBelow(m0: Fs, fs: Fs, t0: seq<ShredCall>, t: seq<ShredCall>, p: Path, done: set<Path>, options: string)
  {
    && fs == m0 - LeavesBelow(m0, p, done)
    && |t| >= |t0| && t[..|t0|] == t0
    && ShredsExactly(t[|t0|..], LeavesBelow(m0, p, done), options)
  }

  /** Before the walk nothing is erased. */
  lemma EraseStart(m0: Fs, t0: seq<ShredCall>, p: Path, options: string)
    ensures ErasedBelow(m0, m0, t0, t0, p, {}, options)
  {
    assert LeavesBelow(m0, p, {}) == {};
    assert t0[|t0|..] == [];
    ShredsNone(options);
  }

  /** Once every child is done, every leaf of the directory is erased. */
  lemma EraseEnd(m0: Fs, fs: Fs, t0: seq<ShredCall>, t: seq<ShredCall>, p: Path, options: string)
    requires WellFormed(m0) && IsDir(m0, p)
    requires ErasedBelow(m0, fs, t0, t, p, Children(m0, p), options)
    ensures fs == m0 - Leaves(m0, p)
    ensures |t| >= |t0| && t[..|t0|] == t0
    ensures ShredsExactly(t[|t0|..], Leaves(m0, p), options)
  {
    LeavesOfDir(m0, p);
  }

  lemma LeavesOfChild(m: Fs, p: Path, cs: set<Path>, c: Path)
    requires c in Children(m, p)
    ensures LeavesBelow(m, p, cs + {c}) == LeavesBelow(m, p, cs) + Leaves(m, c)
    ensures c !in cs ==> LeavesBelow(m, p, cs) !! Leaves(m, c)
  {
    forall q | q in Leaves(m, c)
      ensures Under(q, p) && Top(q, p) == c
    {
      ChildIsBelow(m, p, c, q);
    }
  }

  /** Nothing lies below a file or link. */
  lemma {:induction false} NothingUnderLeaf(m: Fs, k: Path, p: Path)
    requires WellFormed(m) && k in m && !IsDir(m, p)
    ensures !Under(k, p)
    decreases |k|
  {
    assert Placed(m, k);
    if HasParent(k) && Parent(k) != p {
      NothingUnderLeaf(m, Parent(k), p);
    }
  }

  /** What a walk reaches from a file or link is that entry alone. */
  lemma LeafAlone(m: Fs, p: Path)
    requires WellFormed(m) && IsLeaf(m, p)
    ensures Leaves(m, p) == {p}
  {
    forall k | k in m
      ensures !Under(k, p)
    {
      NothingUnderLeaf(m, k, p);
    }
  }

  /** Erasing the leaves of some children leaves the others' subtrees as
      they were. */
  lemma ErasedElsewhere(m0: Fs, p: Path, done: set<Path>, c: Path)
    requires c in Children(m0, p) && c !in done
    ensures SameSubtree(m0, m0 - LeavesBelow(m0, p, done), c)
  {
    forall k | InSubtree(k, c)
      ensures k !in LeavesBelow(m0, p, done)
    {
      ChildIsBelow(m0, p, c, k);
    }
  }

  /** A child's subtree holds fewer directories than its parent's. */
  lemma ChildDirsFewer(dirs: set<Path>, p: Path, c: Path)
    requires p in dirs && HasParent(c) && Parent(c) == p
    ensures DirsUnder(dirs, c) < DirsUnder(dirs, p)
  {
    forall d | d in DirsUnder(dirs, c)
      ensures d in DirsUnder(dirs, p)
    {
      TopOfChild(d, c);
    }
    assert p !in DirsUnder(dirs, c) by {
      if Under(p, c) {
        UnderLonger(p, c);
      }
    }
  }

  /** Keys at or below `c` are the same, with the same entries, in both. */
  ghost predicate SameSubtree(m0: Fs, m: Fs, c: Path)
  {
    forall k :: InSubtree(k, c) ==> (k in m <==> k in m0) && (k in m ==> m[k] == m0[k])
  }

  lemma SameSubtreeLeaves(m0: Fs, m: Fs, c: Path)
    requires SameSubtree(m0, m, c)
    ensures Leaves(m, c) == Leaves(m0, c)
  {
  }

  // ---- Shred logs -------------------------------------------------------

  function PathsOf(t: seq<ShredCall>): (r: seq<Path>)
    ensures |r| == |t| && forall i :: 0 <= i < |t| ==> r[i] == t[i].path
  {
    if t == [] then [] else [t[0].path] + PathsOf(t[1..])
  }

  /** `t` shreds every path of `targets` once and nothing else, each with
      `options`. */
  ghost predicate ShredsExactly(t: seq<ShredCall>, targets: set<Path>, options: string)
  {
    && (forall i :: 0 <= i < |t| ==> t[i].options == options)
    && multiset(PathsOf(t)) == multiset(targets)
  }

  lemma ShredsNone(options: string)
    ensures ShredsExactly([], {}, options)
  {
  }

  lemma ShredsOne(q: Path, options: string)
    ensures ShredsExactly([ShredCall(q, options)], {q}, options)
  {
    assert PathsOf([ShredCall(q, options)]) == [q];
  }

  lemma ShredsConcat(t1: seq<ShredCall>, a: set<Path>, t2: seq<ShredCall>, b: set<Path>, options: string)
    requires ShredsExactly(t1, a, options) && ShredsExactly(t2, b, options)
    requires a !! b
    ensures ShredsExactly(t1 + t2, a + b, options)
  {
    PathsOfConcat(t1, t2);
    DisjointUnion(a, b);
  }

  lemma PathsOfConcat(t1: seq<ShredCall>, t2: seq<ShredCall>)
    ensures PathsOf(t1 + t2) == PathsOf(t1) + PathsOf(t2)
  {
    var l, r := PathsOf(t1 + t2), PathsOf(t1) + PathsOf(t2);
    assert |l| == |r|;
    forall i | 0 <= i < |l| ensures l[i] == r[i] {
      if i < |t1| {
        assert (t1 + t2)[i] == t1[i];
      } else {
        assert (t1 + t2)[i] == t2[i - |t1|];
      }
    }
  }

  lemma DisjointUnion(a: set<Path>, b: set<Path>)
    requires a !! b
    ensures multiset(a + b) == multiset(a) + multiset(b)
  {
    forall x ensures multiset(a + b)[x] == (multiset(a) + multiset(b))[x] {
    }
  }

  // ---- Plans: what a walk writes ----------------------------------------

  ghost function Outputs(plan: map<Path, Artifact>): set<Path>
  {
    set q | q in plan :: plan[q].out
  }

  function Restrict(plan: map<Path, Artifact>, keys: set<Path>): (r: map<Path, Artifact>)
    ensures r.Keys == plan.Keys * keys
    ensures forall q :: q in r ==> r[q] == plan[q]
  {
    map q | q in plan && q in keys :: plan[q]
  }

  /** A plan `m0` can carry out in any order: it reads present entries,
      writes only to names that are free, and never twice to one name. */
  ghost predicate Fits(m0: Fs, plan: map<Path, Artifact>)
  {
    && (forall q :: q in plan ==> q in m0)
    && (forall q :: q in plan ==> plan[q].out !in m0)
    && (forall q1, q2 :: q1 in plan && q2 in plan && plan[q1].out == plan[q2].out ==> q1 == q2)
  }

  /** Each artifact lands in the directory of the entry it came from. */
  ghost predicate SiblingOutputs(plan: map<Path, Artifact>)
  {
    forall q :: q in plan ==>
      HasParent(plan[q].out) == HasParent(q) && (HasParent(q) ==> Parent(plan[q].out) == Parent(q))
  }

  /** `m` is `m0` with the plan carried out: every artifact written, every
      source kept or (with `delete`) erased, everything else as it was, and
      nothing else created. */
  ghost predicate Applied(m0: Fs, m: Fs, plan: map<Path, Artifact>, delete: bool)
  {
    && (forall q :: q in plan ==> plan[q].out in m && m[plan[q].out] == File(plan[q].content))
    && (forall q :: q in plan && q in m0 ==> if delete then q !in m else q in m && m[q] == m0[q])
    && (forall k :: k in m0 && k !in plan ==> k in m && m[k] == m0[k])
    && (forall k :: k in m && k !in m0 ==> k in Outputs(plan))
  }

  lemma AppliedNothing(m: Fs, delete: bool)
    ensures Applied(m, m, map[], delete)
  {
  }

  /** One leaf handled: the artifact written, the source erased with `delete`. */
  lemma AppliedOne(m: Fs, q: Path, a: Artifact, delete: bool)
    requires q in m && a.out !in m
    ensures Applied(m, if delete then m[a.out := File(a.content)] - {q} else m[a.out := File(a.content)],
                    map[q := a], delete)
  {
    var plan := map[q := a];
    assert plan[q].out == a.out;
    forall o | o in Outputs(plan)
      ensures o == a.out
    {
    }
    assert a.out in Outputs(plan);
  }

  /** Carrying out two disjoint parts of a plan one after the other carries
      out the whole plan. */
  lemma AppliedCompose(m0: Fs, m1: Fs, m2: Fs, p1: map<Path, Artifact>, p2: map<Path, Artifact>, delete: bool)
    requires p1.Keys !! p2.Keys
    requires Fits(m0, p1 + p2)
    requires Applied(m0, m1, p1, delete) && Applied(m1, m2, p2, delete)
    ensures Applied(m0, m2, p1 + p2, delete)
  {
    var pp := p1 + p2;
    forall q | q in p1
      ensures pp[q] == p1[q] && p1[q].out !in p2
    {
      assert q in pp;
    }
    forall q | q in p2
      ensures pp[q] == p2[q] && q in m0 && q in m1 && m1[q] == m0[q]
    {
      assert q in pp;
    }
    forall k | k in m2 && k !in m0
      ensures k in Outputs(pp)
    {
      if k in m1 {
        var q :| q in p1 && p1[q].out == k;
        assert pp[q].out == k;
      } else {
        var q :| q in p2 && p2[q].out == k;
        assert pp[q].out == k;
      }
    }
  }

  lemma RestrictUnion(plan: map<Path, Artifact>, a: set<Path>, b: set<Path>)
    ensures Restrict(plan, a) + Restrict(plan, b) == Restrict(plan, a + b)
    ensures a !! b ==> Restrict(plan, a).Keys !! Restrict(plan, b).Keys
  {
  }

  /** While a walk works through the children of `p`, the subtrees of the
      children it has not reached yet are untouched. */
  lemma {:induction false} Untouched(m0: Fs, m: Fs, plan: map<Path, Artifact>, delete: bool,
                                    p: Path, done: set<Path>, c: Path)
    requires Applied(m0, m, plan, delete) && Fits(m0, plan) && SiblingOutputs(plan)
    requires forall q :: q in plan ==> Under(q, p) && Top(q, p) in done
    requires c in Children(m0, p) && c !in done
    ensures SameSubtree(m0, m, c)
  {
    forall k | InSubtree(k, c)
      ensures (k in m <==> k in m0) && (k in m ==> m[k] == m0[k])
    {
      ChildIsBelow(m0, p, c, k);
    }
  }

  lemma FitsRestrict(m0: Fs, plan: map<Path, Artifact>, keys: set<Path>)
    requires Fits(m0, plan) && SiblingOutputs(plan)
    ensures Fits(m0, Restrict(plan, keys)) && SiblingOutputs(Restrict(plan, keys))
  {
  }

  /** Before a walk enters child `c` of `p`, having carried out the part of
      plan `f` that belongs to the children `done`: the subtree of `c` is as
      it was, and the part of `f` that belongs to `c` still fits. */
  lemma ChildFits(m0: Fs, fs: Fs, f: map<Path, Artifact>, delete: bool, p: Path, done: set<Path>, c: Path)
    requires Fits(m0, f) && SiblingOutputs(f)
    requires Applied(m0, fs, Restrict(f, LeavesBelow(m0, p, done)), delete)
    requires c in Children(m0, p) && c !in done
    ensures SameSubtree(m0, fs, c)
    ensures Fits(fs, Restrict(f, Leaves(m0, c)))
  {
    var p1 := Restrict(f, LeavesBelow(m0, p, done));
    FitsRestrict(m0, f, LeavesBelow(m0, p, done));
    Untouched(m0, fs, p1, delete, p, done, c);
    var p2 := Restrict(f, Leaves(m0, c));
    forall q | q in p2
      ensures q in fs && p2[q].out !in fs
    {
      ChildIsBelow(m0, p, c, q);
    }
  }

  /** After the walk leaves child `c`, the part of the plan carried out
      grows by the part that belongs to `c`. */
  lemma ChildDone(m0: Fs, fs: Fs, fs': Fs, f: map<Path, Artifact>, delete: bool, p: Path, done: set<Path>, c: Path)
    requires Fits(m0, f) && SiblingOutputs(f)
    requires Applied(m0, fs, Restrict(f, LeavesBelow(m0, p, done)), delete)
    requires Applied(fs, fs', Restrict(f, Leaves(m0, c)), delete)
    requires c in Children(m0, p) && c !in done
    ensures Applied(m0, fs', Restrict(f, LeavesBelow(m0, p, done + {c})), delete)
  {
    LeavesOfChild(m0, p, done, c);
    RestrictUnion(f, LeavesBelow(m0, p, done), Leaves(m0, c));
    FitsRestrict(m0, f, LeavesBelow(m0, p, done + {c}));
    AppliedCompose(m0, fs, fs', Restrict(f, LeavesBelow(m0, p, done)), Restrict(f, Leaves(m0, c)), delete);
  }

  /** Every entry of `m0` missing from `m` is in `s`. */
  ghost predicate RemovedWithin(m0: Fs, m: Fs, s: set<Path>)
  {
    forall k :: k in m0 && k !in m ==> k in s
  }

  /** The trace `t` extends `t0`, and every run added used `options`. */
  predicate RunsSince(t0: seq<ShredCall>, t: seq<ShredCall>, options: string)
  {
    && |t| >= |t0| && t[..|t0|] == t0
    && forall i :: |t0| <= i < |t| ==> t[i].options == options
  }

  lemma RunsSinceChain(t0: seq<ShredCall>, t1: seq<ShredCall>, t2: seq<ShredCall>, options: string)
    requires RunsSince(t0, t1, options) && RunsSince(t1, t2, options)
    ensures RunsSince(t0, t2, options)
  {
    assert t2[..|t0|] == t2[..|t1|][..|t0|];
    forall i | |t0| <= i < |t2|
      ensures t2[i].options == options
    {
      if i < |t1| {
        assert t2[i] == t2[..|t1|][i];
      }
    }
  }

  /** The entries a walk has removed so far are leaves below the children
      it has finished. */
  lemma RemovedSoFar(m0: Fs, fs: Fs, fs': Fs, p: Path, done: set<Path>, c: Path)
    requires Dirs(fs) == Dirs(m0)
    requires RemovedWithin(m0, fs, LeavesBelow(m0, p, done))
    requires RemovedWithin(fs, fs', Leaves(fs, c))
    requires c in Children(m0, p)
    ensures RemovedWithin(m0, fs', LeavesBelow(m0, p, done + {c}))
    ensures RemovedWithin(m0, fs', Leaves(m0, p))
  {
    forall k | k in m0 && k !in fs' && k in fs
      ensures k in LeavesBelow(m0, p, done + {c})
    {
      assert k !in Dirs(fs);
      ChildIsBelow(m0, p, c, k);
    }
  }

  /** Putting back the entry that was removed after adding another. */
  lemma RestoreEntry(m: Fs, k: Path, q: Path, w: Entry)
    requires k in m && q != k
    ensures (m[q := w] - {k})[k := m[k]] == m[q := w]
    ensures m[q := w][k := m[k]] == m[q := w]
  {
  }

  /** Removing the entry that was just added. */
  lemma DropNew(m: Fs, q: Path, w: Entry)
    requires q !in m
    ensures m[q := w] - {q} == m
  {
  }

  /** Moving one child from the walk's to-do set to its done set. */
  lemma MoveOne(todo: set<Path>, done: set<Path>, c: Path)
    requires c in todo && todo !! done
    ensures (todo - {c}) + (done + {c}) == todo + done && (todo - {c}) !! (done + {c})
  {
  }

  /** A plan over the leaves of `p` is all there once every child is done. */
  lemma RestrictWhole(m: Fs, p: Path, f: map<Path, Artifact>)
    requires WellFormed(m) && IsDir(m, p) && f.Keys <= Leaves(m, p)
    ensures Restrict(f, LeavesBelow(m, p, Children(m, p))) == f
  {
    LeavesOfDir(m, p);
  }

  /** A child of a directory is not among the leaves below other children. */
  lemma TodoPresent(m0: Fs, fs: Fs, p: Path, done: set<Path>, c: Path)
    requires RemovedWithin(m0, fs, LeavesBelow(m0, p, done))
    requires c in Children(m0, p) && c !in done
    ensures c in fs
  {
    ChildIsBelow(m0, p, c, c);
  }

  /** One more child of `p` erased: the erased leaves and the shreds run
      grow by that child's leaves. */
  lemma EraseStep(m0: Fs, fs': Fs, t0: seq<ShredCall>, before: seq<ShredCall>, after: seq<ShredCall>,
                  p: Path, done: set<Path>, c: Path, options: string)
    requires c in Children(m0, p) && c !in done
    requires fs' == (m0 - LeavesBelow(m0, p, done)) - Leaves(m0 - LeavesBelow(m0, p, done), c)
    requires |before| >= |t0| && before[..|t0|] == t0
    requires ShredsExactly(before[|t0|..], LeavesBelow(m0, p, done), options)
    requires |after| >= |before| && after[..|before|] == before
    requires ShredsExactly(after[|before|..], Leaves(m0 - LeavesBelow(m0, p, done), c), options)
    ensures fs' == m0 - LeavesBelow(m0, p, done + {c})
    ensures |after| >= |t0| && after[..|t0|] == t0
    ensures ShredsExactly(after[|t0|..], LeavesBelow(m0, p, done + {c}), options)
  {
    var fs := m0 - LeavesBelow(m0, p, done);
    ErasedElsewhere(m0, p, done, c);
    SameSubtreeLeaves(m0, fs, c);
    LeavesOfChild(m0, p, done, c);
    ShredsGrow(t0, before, after, LeavesBelow(m0, p, done), Leaves(m0, c), options);
  }

  lemma ShredsGrow(t0: seq<ShredCall>, before: seq<ShredCall>, after: seq<ShredCall>,
                   a: set<Path>, b: set<Path>, options: string)
    requires a !! b
    requires |before| >= |t0| && before[..|t0|] == t0 && ShredsExactly(before[|t0|..], a, options)
    requires |after| >= |before| && after[..|before|] == before && ShredsExactly(after[|before|..], b, options)
    ensures |after| >= |t0| && after[..|t0|] == t0
    ensures ShredsExactly(after[|t0|..], a + b, options)
  {
    SliceSplit(t0, before, after);
    ShredsConcat(before[|t0|..], a, after[|before|..], b, options);
  }

  /** Prefixes chain, and the part after the shorter one splits at the
      longer one. */
  lemma SliceSplit<T>(t0: seq<T>, before: seq<T>, after: seq<T>)
    requires |before| >= |t0| && before[..|t0|] == t0
    requires |after| >= |before| && after[..|before|] == before
    ensures after[..|t0|] == t0
    ensures after[|t0|..] == before[|t0|..] + after[|before|..]
  {
    assert after == before + after[|before|..];
    assert after[..|t0|] == before[..|t0|];
  }

  lemma ShredsSingle(t: seq<ShredCall>, q: Path, options: string)
    requires ShredsExactly(t, {q}, options)
    ensures t == [ShredCall(q, options)]
  {
    assert multiset(PathsOf(t)) == multiset{q};
    assert |PathsOf(t)| == |multiset(PathsOf(t))|;
    assert PathsOf(t)[0] in multiset(PathsOf(t));
  }

  /** Running no shred leaves the record as it was. */
  lemma ShredsAppendNone(t: seq<ShredCall>)
    ensures t + [] == t
  {
  }

  /** A trace that extends `t0` by exactly one run on `q` is `t0` plus that run. */
  lemma ShredsAppendOne(t0: seq<ShredCall>, t: seq<ShredCall>, q: Path, options: string)
    requires |t| >= |t0| && t[..|t0|] == t0
    requires ShredsExactly(t[|t0|..], {q}, options)
    ensures t == t0 + [ShredCall(q, options)]
  {
    ShredsSingle(t[|t0|..], q, options);
    assert t == t[..|t0|] + t[|t0|..];
  }
}
