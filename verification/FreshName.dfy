/** The search for an unoccupied " (copy N)" name. */
module FreshName {
  import opened FileTree
  import Decimal

  const U32_MAX: nat := 0xFFFF_FFFF

  datatype Search = Found(destination: Path) | Exhausted

  /** The position of the last dot of `s[..n]`, or -1. */
  function LastDot(s: string, n: nat): (k: int)
    requires n <= |s|
    ensures -1 <= k < n
    ensures k >= 0 ==> s[k] == '.'
    ensures forall i :: k < i < n ==> s[i] != '.'
  {
    if n == 0 then -1 else if s[n - 1] == '.' then n - 1 else LastDot(s, n - 1)
  }

  /** Splits a file name before its last dot, as `file_stem` and `extension` do; a leading
      dot does not start an extension. */
  function SplitName(name: Name): (parts: (string, string))
    ensures parts.0 + parts.1 == name
  {
    var k := LastDot(name, |name|);
    if k <= 0 || name == ".." then (name, "") else (name[..k], name[k..])
  }

  function CopyName(name: Name, suffix: nat): Name {
    var (stem, extension) := SplitName(name);
    (stem + " (copy ") + Decimal.Print(suffix) + (")" + extension)
  }

  lemma {:induction false} MiddleInjective(s: string, a: string, b: string, t: string)
    requires s + a + t == s + b + t
    ensures a == b
  {
    assert |a| == |b|;
    assert a == (s + a + t)[|s|..|s| + |a|];
    assert b == (s + b + t)[|s|..|s| + |b|];
  }

  lemma {:induction false} CopyNameInjective(name: Name, m: nat, n: nat)
    requires CopyName(name, m) == CopyName(name, n)
    ensures m == n
  {
    var (stem, extension) := SplitName(name);
    MiddleInjective(stem + " (copy ", Decimal.Print(m), Decimal.Print(n), ")" + extension);
    Decimal.PrintInjective(m, n);
  }

  function Candidate(original: Path, suffix: nat): Path
    requires original != []
  {
    Parent(original) + [CopyName(LastName(original), suffix)]
  }

  /** The candidate with the smallest free suffix from `suffix` on. */
  function FirstFree(fs: Fs, original: Path, suffix: nat): (r: Search)
    requires original != []
    ensures r.Found? ==>
      exists k :: suffix <= k <= U32_MAX && r.destination == Candidate(original, k) && r.destination !in fs
                  && forall j :: suffix <= j < k ==> Candidate(original, j) in fs
    ensures r.Exhausted? ==> forall j :: suffix <= j <= U32_MAX ==> Candidate(original, j) in fs
    decreases U32_MAX + 1 - suffix
  {
    if suffix > U32_MAX then Exhausted
    else if Candidate(original, suffix) !in fs then Found(Candidate(original, suffix))
    else FirstFree(fs, original, suffix + 1)
  }

  function NextCopyDestination(fs: Fs, original: Path): Search
    requires original != []
  {
    FirstFree(fs, original, 1)
  }

  method SearchCopyDestination(fs: Fs, original: Path) returns (r: Search)
    requires original != []
    ensures r == NextCopyDestination(fs, original)
  {
    var suffix := 1;
    while suffix <= U32_MAX
      invariant NextCopyDestination(fs, original) == FirstFree(fs, original, suffix)
      decreases U32_MAX + 1 - suffix
    {
      var candidate := Candidate(original, suffix);
      if candidate !in fs {
        return Found(candidate);
      }
      suffix := suffix + 1;
    }
    return Exhausted;
  }

  ghost function Siblings(fs: Fs, original: Path): set<Path>
    requires original != []
  {
    set p | p in fs && p != [] && Parent(p) == Parent(original)
  }

  ghost function Candidates(original: Path, n: nat): set<Path>
    requires original != []
  {
    set k | 1 <= k <= n :: Candidate(original, k)
  }

  lemma {:induction false} CandidateInjective(original: Path, m: nat, n: nat)
    requires original != [] && Candidate(original, m) == Candidate(original, n)
    ensures m == n
  {
    assert LastName(Candidate(original, m)) == CopyName(LastName(original), m);
    assert LastName(Candidate(original, n)) == CopyName(LastName(original), n);
    CopyNameInjective(LastName(original), m, n);
  }

  lemma {:induction false} CandidatesAreDistinct(original: Path, n: nat)
    requires original != []
    ensures |Candidates(original, n)| == n
  {
    if n > 0 {
      CandidatesAreDistinct(original, n - 1);
      var c := Candidate(original, n);
      forall k: nat | Candidate(original, k) == c
        ensures k == n
      {
        CandidateInjective(original, k, n);
      }
      assert Candidates(original, n) == Candidates(original, n - 1) + {c};
    }
  }

  lemma {:induction false} SubsetCardinality<T>(a: set<T>, b: set<T>)
    requires a <= b
    ensures |a| <= |b|
  {
    if a != {} {
      var x :| x in a;
      SubsetCardinality(a - {x}, b - {x});
    }
  }

  /** By the pigeonhole principle a directory with fewer than 2^32 - 1 entries has a free
      candidate, so the search returns. */
  lemma {:induction false} SearchSucceeds(fs: Fs, original: Path)
    requires original != []
    requires |Siblings(fs, original)| < U32_MAX
    ensures NextCopyDestination(fs, original).Found?
  {
    if NextCopyDestination(fs, original).Exhausted? {
      CandidatesAreDistinct(original, U32_MAX);
      forall c | c in Candidates(original, U32_MAX)
        ensures c in Siblings(fs, original)
      {
        var k :| 1 <= k <= U32_MAX && c == Candidate(original, k);
        assert Parent(c) == Parent(original);
      }
      SubsetCardinality(Candidates(original, U32_MAX), Siblings(fs, original));
    }
  }

  /** A copy name keeps what stands before the extension and the extension itself, which begins
      with the last dot unless that dot comes first. */
  lemma {:induction false} CopyNameKeepsParts(name: Name, suffix: nat) returns (stem: string, extension: string)
    ensures name == stem + extension
    ensures CopyName(name, suffix) == stem + " (copy " + Decimal.Print(suffix) + ")" + extension
    ensures extension != [] ==> extension[0] == '.' && '.' !in extension[1..] && stem != []
    ensures extension == [] ==> name == ".." || forall i :: 1 <= i < |name| ==> name[i] != '.'
  {
    stem, extension := SplitName(name).0, SplitName(name).1;
    assert CopyName(name, suffix) == (stem + " (copy ") + Decimal.Print(suffix) + (")" + extension);
    if extension != [] {
      var k := LastDot(name, |name|);
      forall c | c in extension[1..]
        ensures c != '.'
      {
        var i :| 0 <= i < |extension[1..]| && extension[1..][i] == c;
        var j := k + 1 + i;
        assert name[j] == c;
      }
    }
  }
}
