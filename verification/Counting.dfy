// Cardinalities of finite sets of integers, and lists without repetitions.
module Counting {

  // The integers in [0, n).
  function Range(n: nat): (r: set<int>)
    ensures forall k :: k in r <==> 0 <= k < n
    ensures |r| == n
  {
    if n == 0 then {} else Range(n - 1) + {n - 1}
  }

  lemma SubsetSize<T>(a: set<T>, b: set<T>)
    requires a <= b
    ensures |a| <= |b|
  {
    assert b == a + (b - a);
  }

  lemma SameSizeSubset<T>(a: set<T>, b: set<T>)
    requires a <= b && |a| == |b|
    ensures a == b
  {
    assert b == a + (b - a);
  }

  function Image(f: int -> int, s: set<int>): set<int> {
    set x | x in s :: f(x)
  }

  ghost predicate InjectiveOn(f: int -> int, s: set<int>) {
    forall x, y :: x in s && y in s && f(x) == f(y) ==> x == y
  }

  lemma AnElement<T>(s: set<T>) returns (x: T)
    requires |s| > 0
    ensures x in s
  {
    x :| x in s;
  }

  lemma {:induction false} ImageSize(f: int -> int, s: set<int>)
    requires InjectiveOn(f, s)
    ensures |Image(f, s)| == |s|
  {
    if |s| > 0 {
      var y := AnElement(s);
      var rest := s - {y};
      ImageSize(f, rest);
      assert Image(f, s) == Image(f, rest) + {f(y)};
      assert f(y) !in Image(f, rest);
    }
  }

  // An injection of [0, n) into itself hits every element.
  lemma InjectionIsOnto(f: int -> int, n: nat)
    requires Image(f, Range(n)) <= Range(n)
    requires InjectiveOn(f, Range(n))
    ensures Image(f, Range(n)) == Range(n)
  {
    ImageSize(f, Range(n));
    SameSizeSubset(Image(f, Range(n)), Range(n));
  }

  lemma ImageIsTarget(f: int -> int, domain: set<int>, preimage: set<int>, target: set<int>)
    requires target <= Image(f, domain)
    requires forall x :: x in preimage <==> x in domain && f(x) in target
    ensures Image(f, preimage) == target
  {
    forall y | y in target
      ensures y in Image(f, preimage)
    {
      assert y in Image(f, domain);
    }
  }

  // The preimage of a set under a permutation of [0, n) has as many elements.
  lemma PreimageSize(f: int -> int, n: nat, preimage: set<int>, target: set<int>)
    requires Image(f, Range(n)) <= Range(n)
    requires InjectiveOn(f, Range(n))
    requires target <= Range(n)
    requires forall x :: x in preimage <==> x in Range(n) && f(x) in target
    ensures |preimage| == |target|
  {
    hide Range;
    InjectionIsOnto(f, n);
    ImageIsTarget(f, Range(n), preimage, target);
    hide Image;
    ImageSize(f, preimage);
  }

  // The numbers below n that leave a remainder below p modulo m.
  function Residues(n: nat, m: nat, p: nat): set<int>
    requires 0 < m
  {
    set y | y in Range(n) && y % m < p
  }

  lemma {:induction false} CountResidues(n: nat, m: nat, p: nat)
    requires 0 < m && p <= m
    ensures |Residues(n, m, p)| == n / m * p + (if n % m <= p then n % m else p)
  {
    hide Range, Residues;
    if n == 0 {
      NoResidues(m, p);
    } else {
      CountResidues(n - 1, m, p);
      NextQuotient(n - 1, m, p);
      NextResidue(n - 1, m, p);
    }
  }

  lemma NoResidues(m: nat, p: nat)
    requires 0 < m
    ensures |Residues(0, m, p)| == 0
  {
    assert Residues(0, m, p) == {};
  }

  lemma NextResidue(n: nat, m: nat, p: nat)
    requires 0 < m
    ensures |Residues(n + 1, m, p)| == |Residues(n, m, p)| + (if n % m < p then 1 else 0)
  {
    hide Range;
    if n % m < p {
      assert Residues(n + 1, m, p) == Residues(n, m, p) + {n};
    } else {
      assert Residues(n + 1, m, p) == Residues(n, m, p);
    }
  }

  lemma NextQuotient(n: nat, m: nat, p: nat)
    requires 0 < m
    ensures if n % m == m - 1
            then (n + 1) % m == 0 && (n + 1) / m * p == n / m * p + p
            else (n + 1) % m == n % m + 1 && (n + 1) / m * p == n / m * p
  {
    var q, r := n / m, n % m;
    if r == m - 1 {
      Quotient(n + 1, m, q + 1, 0);
      assert (q + 1) * p == q * p + p;
    } else {
      Quotient(n + 1, m, q, r + 1);
    }
  }

  lemma Quotient(n: int, m: int, q: int, r: int)
    requires 0 < m && 0 <= r < m && n == q * m + r
    ensures n / m == q && n % m == r
  {
    var d := q - n / m;
    assert d * m == n % m - r;
    assert d >= 1 ==> d * m >= m;
    assert d <= -1 ==> d * m <= -m;
  }

  ghost predicate Distinct(log: seq<nat>) {
    forall j, k :: 0 <= j < k < |log| ==> log[j] != log[k]
  }

  // Each of the numbers below n, once.
  ghost predicate Permutation(log: seq<nat>, n: nat) {
    && Distinct(log)
    && (forall k :: 0 <= k < |log| ==> log[k] < n)
    && (forall i :: 0 <= i < n ==> i in log)
  }

  function Members(log: seq<nat>): set<int> {
    set k | 0 <= k < |log| :: log[k]
  }

  lemma MembersStep(log: seq<nat>)
    requires Distinct(log) && log != []
    ensures var n := |log| - 1;
            Members(log) == Members(log[..n]) + {log[n]} && log[n] !in Members(log[..n])
  {
  }

  lemma NoMembers()
    ensures Members([]) == {}
  {
  }

  lemma {:induction false} DistinctSize(log: seq<nat>)
    requires Distinct(log)
    ensures |Members(log)| == |log|
  {
    hide Members;
    if log == [] {
      NoMembers();
    } else {
      MembersStep(log);
      DistinctSize(log[..|log| - 1]);
    }
  }

  lemma DistinctIsShort(log: seq<nat>, n: nat)
    requires Distinct(log)
    requires forall k :: 0 <= k < |log| ==> log[k] < n
    ensures |log| <= n
  {
    DistinctSize(log);
    SubsetSize(Members(log), Range(n));
  }
}
