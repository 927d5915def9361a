/** Quorums and leaders of the consensus layer. */
module Quorum {
  import opened Bits

  // Two thirds, rounded down, plus one.
  function QuorumSize(n: nat): nat {
    2 * n / 3 + 1
  }

  // At most f of the n validators are faulty.
  predicate BftValid(n: nat, f: nat) {
    n >= 3 * f + 1
  }

  lemma Overlap<T>(validators: set<T>, a: set<T>, b: set<T>)
    requires a <= validators && b <= validators
    ensures |a * b| >= |a| + |b| - |validators|
  {
    assert a + b <= validators;
    UnionSize(a, b);
    SubsetSize(a + b, validators);
  }

  lemma UnionSize<T>(a: set<T>, b: set<T>)
    ensures |a + b| + |a * b| == |a| + |b|
  {
    assert a + b == a + (b - a);
    assert b == (b - a) + (a * b);
  }

  lemma SubsetSize<T>(a: set<T>, b: set<T>)
    requires a <= b
    ensures |a| <= |b|
  {
    assert b == a + (b - a);
  }

  /** Safety: two quorums share an honest validator. Liveness: the honest
      validators alone are a quorum. */
  lemma QuorumsMeetHonestly<T>(validators: set<T>, faulty: set<T>, f: nat, a: set<T>, b: set<T>)
    requires BftValid(|validators|, f) && faulty <= validators && |faulty| <= f
    requires a <= validators && b <= validators
    requires |a| >= QuorumSize(|validators|) && |b| >= QuorumSize(|validators|)
    ensures |a * b| >= f + 1
    ensures exists v :: v in a && v in b && v !in faulty
    ensures |validators - faulty| >= QuorumSize(|validators|)
  {
    Overlap(validators, a, b);
    UnionSize(validators - faulty, faulty);
    assert (validators - faulty) + faulty == validators && (validators - faulty) * faulty == {};
    if a * b <= faulty {
      SubsetSize(a * b, faulty);
    }
    var v :| v in a * b && v !in faulty;
  }

  lemma {:induction false} SubsetOfSize<T>(s: set<T>, k: nat) returns (a: set<T>)
    requires k <= |s|
    ensures a <= s && |a| == k
    decreases k
  {
    if k == 0 {
      a := {};
    } else {
      var x :| x in s;
      var rest := SubsetOfSize(s - {x}, k - 1);
      a := rest + {x};
    }
  }

  // Two sets of q validators that overlap as little as possible.
  lemma LeastOverlap<T>(validators: set<T>, q: nat) returns (a: set<T>, b: set<T>)
    requires q <= |validators|
    ensures a <= validators && b <= validators && |a| == |b| == q
    ensures |a * b| == if 2 * q >= |validators| then 2 * q - |validators| else 0
  {
    a := SubsetOfSize(validators, q);
    var others := validators - a;
    assert validators == others + a;
    UnionSize(others, a);
    assert others * a == {};
    if 2 * q >= |validators| {
      var shared := SubsetOfSize(a, 2 * q - |validators|);
      b := others + shared;
      UnionSize(others, shared);
      assert others * shared == {};
      assert a * b == shared;
    } else {
      b := SubsetOfSize(others, q);
      assert a * b == {};
    }
  }

  // Any two sets of at least q validators share at least m of them.
  ghost predicate AlwaysShare<T(!new)>(validators: set<T>, q: nat, m: nat) {
    forall a: set<T>, b: set<T> :: a <= validators && b <= validators && |a| >= q && |b| >= q ==> |a * b| >= m
  }

  /** Which sizes make any two sets of votes share m validators. */
  lemma AlwaysShareIff<T(!new)>(validators: set<T>, q: nat, m: nat)
    requires q <= |validators| && m > 0
    ensures AlwaysShare(validators, q, m) <==> 2 * q >= |validators| + m
  {
    if 2 * q >= |validators| + m {
      forall a: set<T>, b: set<T> | a <= validators && b <= validators && |a| >= q && |b| >= q
        ensures |a * b| >= m
      {
        Overlap(validators, a, b);
      }
    } else {
      var a, b := LeastOverlap(validators, q);
    }
  }

  /** The quorum size makes any two quorums share f + 1 validators, f being the
      most faults n tolerates. One vote less does so exactly when n is a
      multiple of three; otherwise the size is the least. */
  lemma QuorumIsLeast<T(!new)>(validators: set<T>, f: nat)
    requires validators != {} && f == (|validators| - 1) / 3
    ensures AlwaysShare(validators, QuorumSize(|validators|), f + 1)
    ensures AlwaysShare(validators, QuorumSize(|validators|) - 1, f + 1) <==> |validators| % 3 == 0
  {
    var n := |validators|;
    var k, r := n / 3, n % 3;
    assert n == 3 * k + r;
    assert QuorumSize(n) == 2 * k + (if r == 2 then 2 else 1);
    assert f == if r == 0 then k - 1 else k;
    AlwaysShareIff(validators, QuorumSize(n), f + 1);
    AlwaysShareIff(validators, QuorumSize(n) - 1, f + 1);
  }

  // ----- The C functions on 32-bit words -----

  const WORD := 0x1_0000_0000

  /** `bft_quorum`: the product wraps. */
  function BftQuorum(n: u32): u32 {
    ((2 * n) % WORD) / 3 + 1
  }

  /** The C function is the specified quorum exactly below 2^31 validators. */
  lemma BftQuorumExact(n: u32)
    ensures BftQuorum(n) == QuorumSize(n) <==> n < 0x8000_0000
    ensures n >= 0x8000_0000 ==> BftQuorum(n) == QuorumSize(n - 0x8000_0000)
  {
    if n >= 0x8000_0000 {
      assert (2 * n) % WORD == 2 * n - WORD;
    }
  }

  /** `get_leader_for_view`: view - 1 wraps at view 0. */
  function LeaderForView(view: u32, n: u32): u32 {
    if n == 0 then 0 else ((view + WORD - 1) % WORD) % n
  }

  lemma ModStep(x: nat, n: nat)
    requires n > 0
    ensures (x + 1) % n == if x % n + 1 == n then 0 else x % n + 1
  {
    var q, r := x / n, x % n;
    assert x == n * q + r;
    if r + 1 == n {
      assert x + 1 == n * (q + 1);
      ModUnique(x + 1, n, q + 1, 0);
    } else {
      ModUnique(x + 1, n, q, r + 1);
    }
  }

  lemma ModUnique(x: nat, n: nat, q: nat, r: nat)
    requires r < n && x == n * q + r
    ensures x % n == r
  {
    var d: int := (x / n) as int - q as int;
    assert n * d == r - x % n;
    Multiple(n, d);
  }

  lemma Multiple(n: nat, d: int)
    ensures d >= 1 ==> n * d >= n
    ensures d <= -1 ==> n * d + n <= 0
  {
  }

  // The next validator in ring order.
  function Successor(v: nat, n: nat): nat {
    if v + 1 == n then 0 else v + 1
  }

  /** The first validator leads view 1; without validators nobody else does. */
  lemma FirstLeader(view: u32, n: u32)
    ensures n > 0 ==> LeaderForView(1, n) == 0
    ensures LeaderForView(view, 0) == 0
  {
  }

  /** From view 1 on, each view passes the lead to the next validator. */
  lemma LeaderRotates(view: u32, n: u32)
    requires n > 0 && 0 < view && view + 1 < WORD
    ensures LeaderForView(view + 1, n) == Successor(LeaderForView(view, n), n)
  {
    ModStep(view - 1, n);
  }

  /** View 0 wraps around: the rotation also holds from view 0 to view 1 exactly
      when the number of validators divides 2^32. */
  lemma LeaderRotatesFromZero(n: u32)
    requires n > 0
    ensures LeaderForView(1, n) == Successor(LeaderForView(0, n), n) <==> WORD % n == 0
  {
    ModStep(WORD - 1, n);
    assert 0 % n == 0;
  }

  lemma {:induction false} LeaderAfter(view: u32, d: nat, n: u32)
    requires 0 < view && view + d < WORD && d < n
    ensures LeaderForView(view + d, n)
      == if LeaderForView(view, n) + d < n then LeaderForView(view, n) + d else LeaderForView(view, n) + d - n
    decreases d
  {
    if d > 0 {
      LeaderAfter(view, d - 1, n);
      LeaderRotates(view + d - 1, n);
    }
  }

  /** In any n consecutive views from view 1 on every validator leads exactly
      once. */
  lemma EveryoneLeadsOnce(view: u32, n: u32, v: nat)
    requires 0 < view && n > 0 && view + n <= WORD && v < n
    ensures exists d: nat :: d < n && LeadsAfter(view, n, d, v)
    ensures forall d: nat, e: nat :: d < n && e < n && LeadsAfter(view, n, d, v) && LeadsAfter(view, n, e, v) ==> d == e
  {
    var first := LeaderForView(view, n);
    var d := if v >= first then v - first else v + n - first;
    LeaderAfter(view, d, n);
    assert LeadsAfter(view, n, d, v);
    forall d: nat, e: nat | d < n && e < n && LeadsAfter(view, n, d, v) && LeadsAfter(view, n, e, v)
      ensures d == e
    {
      LeaderAfter(view, d, n);
      LeaderAfter(view, e, n);
    }
  }

  predicate LeadsAfter(view: u32, n: u32, d: nat, v: nat)
    requires view + d < WORD
  {
    LeaderForView(view + d, n) == v
  }
}
