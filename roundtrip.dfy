/** `encrypt(path, key)` followed by `decrypt(path, key)` on a directory,
    both with their default `delete=True`: when every file below it can be
    sealed and no name carries `.encrypted` yet, the tree comes back as it
    was. */
module RoundTrip {
  import opened Wrappers
  import opened Bytes
  import opened Paths
  import opened Tree
  import opened Walks
  import Crypto

  /** No leaf below `p` has `.encrypted` anywhere in its path. */
  ghost predicate Unmarked(m: Fs, p: Path)
  {
    forall q :: q in Leaves(m, p) ==> !Contains(q, Suffix)
  }

  /** A leaf strictly below a directory has a parent, a valid name, and an
      artifact that lies below the same directory. */
  lemma ArtifactBelow(m: Fs, p: Path, q: Path)
    requires WellFormed(m) && IsDir(m, p) && q in Leaves(m, p)
    ensures !IsRoot(q) && ValidName(Name(q)) && Under(q + Suffix, p)
  {
    assert Placed(m, q);
    SuffixSibling(q);
    assert Under(q, p);
  }

  /** After `encrypt` on the directory, its leaves are exactly the tokens:
      one per original file, named after it. */
  lemma SealedLeaves(m0: Fs, fs1: Fs, p: Path, passphrase: string, md5: seq<byte> -> Crypto.Digest)
    requires WellFormed(m0) && IsDir(m0, p) && Sealable(m0, p) && Unmarked(m0, p)
    requires Applied(m0, fs1, SealPlan(m0, Leaves(m0, p), passphrase, md5), true)
    ensures forall q :: q in Leaves(m0, p) ==> q + Suffix in Leaves(fs1, p)
    ensures forall k :: k in Leaves(fs1, p) ==> Marked(k) && Original(k) in Leaves(m0, p)
  {
    var f := SealPlan(m0, Leaves(m0, p), passphrase, md5);
    forall q | q in Leaves(m0, p)
      ensures q + Suffix in Leaves(fs1, p)
    {
      assert q in f;
      ArtifactBelow(m0, p, q);
    }
    forall k | k in Leaves(fs1, p)
      ensures Marked(k) && Original(k) in Leaves(m0, p)
    {
      if k in m0 {
        assert false;
      }
      assert k in Outputs(f);
      var q :| q in f && f[q].out == k;
      MarkOriginal(q);
    }
  }

  /** The tree `encrypt` leaves can be opened with the same passphrase, and
      the plan `decrypt` then carries out puts every original file back. */
  lemma SealedOpenable(m0: Fs, fs1: Fs, p: Path, passphrase: string, md5: seq<byte> -> Crypto.Digest)
    requires WellFormed(m0) && IsDir(m0, p) && Sealable(m0, p) && Unmarked(m0, p)
    requires Applied(m0, fs1, SealPlan(m0, Leaves(m0, p), passphrase, md5), true)
    ensures Openable(fs1, p, passphrase, md5)
    ensures var g := OpenPlan(fs1, Leaves(fs1, p), passphrase, md5);
      && (forall q :: q in Leaves(m0, p) ==> q + Suffix in g && g[q + Suffix] == Artifact(q, m0[q].data))
      && (forall k :: k in g ==> Marked(k) && Original(k) in Leaves(m0, p))
      && (forall k :: k in fs1 && k !in m0 ==> k in g)
  {
    var f := SealPlan(m0, Leaves(m0, p), passphrase, md5);
    SealedLeaves(m0, fs1, p, passphrase, md5);
    forall k | k in Leaves(fs1, p)
      ensures && fs1[k].File? && Marked(k)
              && Original(k) !in fs1 && !IsRoot(Original(k)) && ValidName(Name(Original(k)))
              && Crypto.DecryptText(Crypto.Raw(fs1[k].data), passphrase, md5) == Ok(m0[Original(k)].data)
    {
      var q := Original(k);
      assert q in f;
      ArtifactBelow(m0, p, q);
      Crypto.RoundTrip(Crypto.Raw(m0[q].data), passphrase, md5);
    }
    forall q | q in Leaves(m0, p)
      ensures Original(q + Suffix) == q
    {
      MarkOriginal(q);
    }
    forall k | k in fs1 && k !in m0
      ensures k in OpenPlan(fs1, Leaves(fs1, p), passphrase, md5)
    {
      assert k in Outputs(f);
      var q :| q in f && f[q].out == k;
      MarkOriginal(q);
    }
  }

  /** A name in the original tree is not the artifact of one of its
      sealable leaves. */
  lemma NotAnArtifact(m0: Fs, p: Path, k: Path)
    ensures Sealable(m0, p) && Marked(k) && Original(k) in Leaves(m0, p) ==> k !in m0
  {
    if Marked(k) {
      assert Original(k) + Suffix == k;
    }
  }

  /** `decrypt` after `encrypt` on a directory, both erasing what they
      replace, leaves the tree exactly as it was before `encrypt`. */
  lemma TreeRoundTrip(m0: Fs, fs1: Fs, fs2: Fs, p: Path, passphrase: string, md5: seq<byte> -> Crypto.Digest)
    requires WellFormed(m0) && IsDir(m0, p) && Sealable(m0, p) && Unmarked(m0, p)
    requires Applied(m0, fs1, SealPlan(m0, Leaves(m0, p), passphrase, md5), true)
    requires Applied(fs1, fs2, OpenPlan(fs1, Leaves(fs1, p), passphrase, md5), true)
    ensures fs2 == m0
  {
    var f := SealPlan(m0, Leaves(m0, p), passphrase, md5);
    var g := OpenPlan(fs1, Leaves(fs1, p), passphrase, md5);
    SealedOpenable(m0, fs1, p, passphrase, md5);
    forall k | k in m0
      ensures k in fs2 && fs2[k] == m0[k]
    {
      NotAnArtifact(m0, p, k);
      if k in Leaves(m0, p) {
        assert g[k + Suffix].out == k;
      }
    }
    forall k | k in fs2
      ensures k in m0
    {
      if k !in fs1 {
        assert k in Outputs(g);
        var r :| r in g && g[r].out == k;
      }
    }
  }
}
