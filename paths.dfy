/** Path strings as `os.path.join` builds them and as `str.replace` rewrites
    them. A path is a plain string and is never normalised: `Name` is what
    follows the last `/`, and `Parent` is what precedes it. A well-formed
    tree may therefore hold keys such as `//a` beside `/a`, which name the
    same file on a real system. */
module Paths {
  import opened Wrappers

  type Path = string

  /** The marker `encrypt` appends and `decrypt` removes. */
  const Suffix: string := ".encrypted"

  /** Index of the last `/`, or -1. */
  function LastSlash(p: Path): (r: int)
    ensures -1 <= r < |p|
    ensures r >= 0 ==> p[r] == '/'
    ensures forall i :: r < i < |p| ==> p[i] != '/'
  {
    if |p| == 0 then -1
    else if p[|p| - 1] == '/' then |p| - 1
    else LastSlash(p[..|p| - 1])
  }

  /** The three facts LastSlash ensures pin it down. */
  lemma LastSlashUnique(p: Path, r: int)
    requires -1 <= r < |p|
    requires r >= 0 ==> p[r] == '/'
    requires forall i :: r < i < |p| ==> p[i] != '/'
    ensures LastSlash(p) == r
  {
  }

  predicate ValidName(n: string)
  {
    && |n| > 0 && '/' !in n
    && !(n[0] == '.' && (|n| == 1 || (|n| == 2 && n[1] == '.')))
  }

  /** The last component: what `os.listdir` reports for this entry. */
  function Name(p: Path): (n: string)
    ensures '/' !in n
  {
    p[LastSlash(p) + 1..]
  }

  /** The path `/`. */
  predicate IsRoot(p: Path)
  {
    |p| == 1 && p[0] == '/'
  }

  predicate HasParent(p: Path)
  {
    LastSlash(p) >= 0 && |p| > 1
  }

  /** The directory `p` was joined onto. */
  function Parent(p: Path): (d: Path)
    requires HasParent(p)
    ensures |d| < |p|
  {
    if LastSlash(p) == 0 then "/" else p[..LastSlash(p)]
  }

  /** `q` lies somewhere below directory `p`. */
  predicate Under(q: Path, p: Path)
    decreases |q|
  {
    HasParent(q) && (Parent(q) == p || Under(Parent(q), p))
  }

  lemma {:induction false} UnderLonger(q: Path, p: Path)
    requires Under(q, p)
    ensures |q| > |p|
  {
    if Parent(q) != p {
      UnderLonger(Parent(q), p);
    }
  }

  /** The child of `p` whose subtree holds `q`. */
  function Top(q: Path, p: Path): (c: Path)
    requires Under(q, p)
    ensures HasParent(c) && Parent(c) == p
    ensures c == q || Under(q, c)
    decreases |q|
  {
    if Parent(q) == p then q
    else
      var c := Top(Parent(q), p);
      assert Parent(q) == c || Under(Parent(q), c);
      c
  }

  /** A path is in the subtree of exactly one child of `p`. */
  lemma {:induction false} TopOfChild(q: Path, c: Path)
    requires HasParent(c)
    requires q == c || Under(q, c)
    ensures Under(q, Parent(c)) && Top(q, Parent(c)) == c
  {
    var p := Parent(c);
    if q != c {
      UnderLonger(q, c);
      if Parent(q) == c {
        assert Under(q, p);
      } else {
        TopOfChild(Parent(q), c);
        UnderLonger(Parent(q), c);
      }
    }
  }

  /** Appending text without a slash to a path keeps it in the same
      directory. */
  lemma LastSlashAppend(q: Path, s: string)
    requires '/' !in s
    ensures LastSlash(q + s) == LastSlash(q)
  {
    var r := LastSlash(q);
    forall i | r < i < |q + s|
      ensures (q + s)[i] != '/'
    {
      if i >= |q| {
        assert (q + s)[i] == s[i - |q|];
      }
    }
    LastSlashUnique(q + s, r);
  }

  lemma AppendHasParent(q: Path, s: string)
    requires '/' !in s && !IsRoot(q)
    ensures HasParent(q + s) == HasParent(q)
  {
    LastSlashAppend(q, s);
    var t := q + s;
    if |s| > 0 && |q| > 0 {
      assert |t| >= 2;
      assert !IsRoot(t);
    }
    if |s| == 0 {
      assert t == q;
    }
  }

  lemma AppendName(q: Path, s: string)
    requires '/' !in s
    ensures Name(q + s) == Name(q) + s
  {
    LastSlashAppend(q, s);
    var r := LastSlash(q);
    assert (q + s)[r + 1..] == q[r + 1..] + s;
  }

  lemma AppendParent(q: Path, s: string)
    requires '/' !in s && !IsRoot(q) && HasParent(q)
    ensures HasParent(q + s) && Parent(q + s) == Parent(q)
  {
    LastSlashAppend(q, s);
    AppendHasParent(q, s);
    var r := LastSlash(q);
    if r > 0 {
      assert (q + s)[..r] == q[..r];
    }
  }

  lemma SuffixedName(n: string)
    requires '/' !in n
    ensures ValidName(n + Suffix)
  {
    var m := n + Suffix;
    assert |m| >= 10;
    forall i | 0 <= i < |m|
      ensures m[i] != '/'
    {
      if i >= |n| {
        assert m[i] == Suffix[i - |n|];
      } else {
        assert m[i] == n[i];
      }
    }
  }

  /** The artifact `q + ".encrypted"` is a sibling of `q` with a valid name. */
  lemma SuffixSibling(q: Path)
    requires !IsRoot(q)
    ensures Name(q + Suffix) == Name(q) + Suffix && ValidName(Name(q + Suffix))
    ensures HasParent(q + Suffix) == HasParent(q)
    ensures HasParent(q) ==> Parent(q + Suffix) == Parent(q)
  {
    SuffixedName(Name(q));
    AppendName(q, Suffix);
    AppendHasParent(q, Suffix);
    if HasParent(q) {
      AppendParent(q, Suffix);
    }
  }

  predicate MatchAt(s: string, pat: string, i: nat)
  {
    i + |pat| <= |s| && s[i..i + |pat|] == pat
  }

  /** `s.find(pat, i)` for a non-empty `pat`. */
  function FindFrom(s: string, pat: string, i: nat): (r: Option<nat>)
    requires pat != []
    ensures r.Some? ==> i <= r.value && MatchAt(s, pat, r.value)
    ensures r.Some? ==> forall j :: i <= j < r.value ==> !MatchAt(s, pat, j)
    ensures r.None? ==> forall j :: i <= j ==> !MatchAt(s, pat, j)
    decreases |s| - i
  {
    if i + |pat| > |s| then None
    else if s[i..i + |pat|] == pat then Some(i)
    else FindFrom(s, pat, i + 1)
  }

  predicate Contains(s: string, pat: string)
    requires pat != []
  {
    FindFrom(s, pat, 0).Some?
  }

  /** `path.replace('.encrypted', '', 1)`: the first occurrence anywhere in
      the path, directory names included, is removed. */
  function Strip(path: Path): (r: Path)
    ensures !Contains(path, Suffix) ==> r == path
    ensures Contains(path, Suffix) ==> |r| == |path| - |Suffix|
    ensures forall i: nat :: MatchAt(path, Suffix, i) && (forall j: nat :: j < i ==> !MatchAt(path, Suffix, j)) ==>
      r == path[..i] + path[i + |Suffix|..]
  {
    match FindFrom(path, Suffix, 0)
    case None => path
    case Some(i) => path[..i] + path[i + |Suffix|..]
  }

  /** The suffix cannot overlap itself: no proper tail of `.encrypted`
      starts with `.`. */
  lemma NoOverlap(o: Path, j: nat)
    requires j < |o| < j + |Suffix|
    ensures !MatchAt(o + Suffix, Suffix, j)
  {
    var t := o + Suffix;
    var k := |o| - j;
    assert t[|o|] == '.';
    assert Suffix[k] != '.';
    if j + |Suffix| <= |t| {
      assert t[j..j + |Suffix|][k] == t[|o|];
    }
  }

  lemma {:induction false} FirstMatchAtEnd(o: Path)
    requires !Contains(o, Suffix)
    ensures FindFrom(o + Suffix, Suffix, 0) == Some(|o|)
  {
    var t := o + Suffix;
    assert t[|o|..] == Suffix;
    assert MatchAt(t, Suffix, |o|);
    forall j | 0 <= j < |o|
      ensures !MatchAt(t, Suffix, j)
    {
      if j + |Suffix| <= |o| {
        assert !MatchAt(o, Suffix, j);
        assert t[j..j + |Suffix|] == o[j..j + |Suffix|];
      } else {
        NoOverlap(o, j);
      }
    }
  }

  /** Decrypting the name encrypt wrote gives back the original path when
      the original path holds no `.encrypted` of its own. */
  lemma StripSuffix(o: Path)
    requires !Contains(o, Suffix)
    ensures Strip(o + Suffix) == o
  {
    FirstMatchAtEnd(o);
    assert (o + Suffix)[..|o|] == o;
  }

  /** A name `encrypt` can have produced from a path without the marker:
      the marker ends it and occurs nowhere before. */
  predicate Marked(q: Path)
  {
    |q| >= |Suffix| && q[|q| - |Suffix|..] == Suffix && !Contains(q[..|q| - |Suffix|], Suffix)
  }

  function Original(q: Path): (o: Path)
    requires Marked(q)
    ensures o + Suffix == q
  {
    q[..|q| - |Suffix|]
  }

  /** On a marked name, `replace` removes exactly the final marker. */
  lemma MarkedStrip(q: Path)
    requires Marked(q)
    ensures Strip(q) == Original(q)
  {
    StripSuffix(Original(q));
  }

  lemma MarkOriginal(o: Path)
    requires !Contains(o, Suffix)
    ensures Marked(o + Suffix) && Original(o + Suffix) == o
  {
    var q := o + Suffix;
    assert q[..|q| - |Suffix|] == o;
    assert q[|q| - |Suffix|..] == Suffix;
  }
}
