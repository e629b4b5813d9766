/**
 * Node addresses, the node-set order behind sort.Sort, the decimal host
 * names the harness generates ("host<i>"), and first-match lookup by address.
 */
module Uris {
  import opened Wrappers

  type Uint16 = p: int | 0 <= p < 0x1_0000

  /** A node address (pilosa.URI): scheme, host and port. */
  datatype URI = URI(scheme: string, host: string, port: Uint16)

  // ---------------------------------------------------------------------------
  // The order of a NodeSet
  // ---------------------------------------------------------------------------

  /** Lexicographic order on strings (Go's < on strings, character by character). */
  predicate LexLess(a: string, b: string)
  {
    if |b| == 0 then false
    else if |a| == 0 then true
    else if a[0] != b[0] then a[0] < b[0]
    else LexLess(a[1..], b[1..])
  }

  lemma {:induction false} LexLessIrreflexive(a: string)
    ensures !LexLess(a, a)
  {
    if |a| > 0 {
      LexLessIrreflexive(a[1..]);
    }
  }

  lemma {:induction false} LexLessTransitive(a: string, b: string, c: string)
    requires LexLess(a, b) && LexLess(b, c)
    ensures LexLess(a, c)
  {
    if |a| > 0 && a[0] == b[0] && b[0] == c[0] {
      LexLessTransitive(a[1..], b[1..], c[1..]);
    }
  }

  lemma {:induction false} LexLessTotal(a: string, b: string)
    requires a != b
    ensures LexLess(a, b) || LexLess(b, a)
  {
    if |a| > 0 && |b| > 0 && a[0] == b[0] {
      assert a == [a[0]] + a[1..] && b == [b[0]] + b[1..];
      LexLessTotal(a[1..], b[1..]);
    }
  }

  /** A common prefix does not change the comparison. */
  lemma {:induction false} LexLessCommonPrefix(p: string, a: string, b: string)
    ensures LexLess(p + a, p + b) == LexLess(a, b)
  {
    if |p| > 0 {
      assert (p + a)[1..] == p[1..] + a;
      assert (p + b)[1..] == p[1..] + b;
      LexLessCommonPrefix(p[1..], a, b);
    } else {
      assert p + a == a && p + b == b;
    }
  }

  /**
   * The strict order a NodeSet is sorted by: host first, then port, then
   * scheme.
   */
  predicate UriLess(a: URI, b: URI)
  {
    || LexLess(a.host, b.host)
    || (a.host == b.host && a.port < b.port)
    || (a.host == b.host && a.port == b.port && LexLess(a.scheme, b.scheme))
  }

  /** UriLess is a strict total order: irreflexive, transitive and total. */
  lemma UriLessStrictTotalOrder(a: URI, b: URI, c: URI)
    ensures !UriLess(a, a)
    ensures UriLess(a, b) && UriLess(b, c) ==> UriLess(a, c)
    ensures a != b ==> UriLess(a, b) || UriLess(b, a)
    ensures !(UriLess(a, b) && UriLess(b, a))
  {
    LexLessIrreflexive(a.host);
    LexLessIrreflexive(a.scheme);
    if UriLess(a, b) && UriLess(b, c) {
      if LexLess(a.host, b.host) && LexLess(b.host, c.host) {
        LexLessTransitive(a.host, b.host, c.host);
      }
      if LexLess(a.scheme, b.scheme) && LexLess(b.scheme, c.scheme) {
        LexLessTransitive(a.scheme, b.scheme, c.scheme);
      }
    }
    if a != b {
      if a.host != b.host {
        LexLessTotal(a.host, b.host);
      } else if a.scheme != b.scheme {
        LexLessTotal(a.scheme, b.scheme);
      }
    }
    if UriLess(a, b) && UriLess(b, a) {
      if LexLess(a.host, b.host) && LexLess(b.host, a.host) {
        LexLessTransitive(a.host, b.host, a.host);
        LexLessIrreflexive(a.host);
      }
      if LexLess(a.scheme, b.scheme) && LexLess(b.scheme, a.scheme) {
        LexLessTransitive(a.scheme, b.scheme, a.scheme);
        LexLessIrreflexive(a.scheme);
      }
    }
  }

  /** "Not greater" is transitive, which is what sorting relies on. */
  lemma NotLessTransitive(a: URI, b: URI, c: URI)
    requires !UriLess(b, a) && !UriLess(c, b)
    ensures !UriLess(c, a)
  {
    UriLessStrictTotalOrder(a, b, c);
    UriLessStrictTotalOrder(c, a, b);
    UriLessStrictTotalOrder(b, c, a);
  }

  // ---------------------------------------------------------------------------
  // Sorting a NodeSet
  // ---------------------------------------------------------------------------

  /** No element is smaller than one before it. */
  predicate Sorted(s: seq<URI>)
  {
    forall i, j :: 0 <= i < j < |s| ==> !UriLess(s[j], s[i])
  }

  /** Inserts x before the first element that is not smaller than it. */
  function Insert(s: seq<URI>, x: URI): seq<URI>
  {
    if |s| == 0 then [x]
    else if UriLess(s[0], x) then [s[0]] + Insert(s[1..], x)
    else [x] + s
  }

  /** Insert adds x and keeps every other element. */
  lemma {:induction false} InsertPermutes(s: seq<URI>, x: URI)
    ensures multiset(Insert(s, x)) == multiset(s) + multiset{x}
  {
    if |s| > 0 && UriLess(s[0], x) {
      InsertPermutes(s[1..], x);
      assert s == [s[0]] + s[1..];
    }
  }

  /** Insert keeps a sorted sequence sorted. */
  lemma {:induction false} InsertKeepsSorted(s: seq<URI>, x: URI)
    requires Sorted(s)
    ensures Sorted(Insert(s, x))
  {
    if |s| == 0 {
    } else if UriLess(s[0], x) {
      var rest := Insert(s[1..], x);
      InsertKeepsSorted(s[1..], x);
      InsertPermutes(s[1..], x);
      InsertSortedHead(s, x, rest);
    } else {
      forall j | 0 <= j < |s| ensures !UriLess(s[j], x) {
        if j > 0 {
          NotLessTransitive(x, s[0], s[j]);
        }
      }
      assert Sorted([x] + s);
    }
  }

  /** Helper for Insert: the head stays in front of the insertion into the tail. */
  lemma InsertSortedHead(s: seq<URI>, x: URI, rest: seq<URI>)
    requires |s| > 0 && UriLess(s[0], x)
    requires multiset(rest) == multiset(s[1..]) + multiset{x}
    requires Sorted(s) ==> Sorted(rest)
    ensures Sorted(s) ==> Sorted([s[0]] + rest)
  {
    if Sorted(s) {
      forall j | 0 <= j < |rest| ensures !UriLess(rest[j], s[0]) {
        assert rest[j] in multiset(rest);
        if rest[j] == x {
          UriLessStrictTotalOrder(s[0], x, x);
        } else {
          assert rest[j] in multiset(s[1..]);
          var k :| 0 <= k < |s[1..]| && s[1..][k] == rest[j];
          assert s[k + 1] == rest[j];
        }
      }
    }
  }

  /** The node set after sort.Sort, as insertion sort computes it. */
  function Sort(s: seq<URI>): seq<URI>
  {
    if |s| == 0 then [] else Insert(Sort(s[..|s| - 1]), s[|s| - 1])
  }

  /** sort.Sort's promise: its result is sorted and a permutation of its input. */
  lemma {:induction false} SortSortsAndPermutes(s: seq<URI>)
    ensures Sorted(Sort(s))
    ensures multiset(Sort(s)) == multiset(s) && |Sort(s)| == |s|
  {
    if |s| > 0 {
      var init := s[..|s| - 1];
      SortSortsAndPermutes(init);
      InsertKeepsSorted(Sort(init), s[|s| - 1]);
      InsertPermutes(Sort(init), s[|s| - 1]);
      assert s == init + [s[|s| - 1]];
    }
    assert |multiset(Sort(s))| == |Sort(s)|;
  }

  /** The first element of a sorted sequence is its minimum. */
  lemma SortedHeadIsMinimum(s: seq<URI>, u: URI)
    requires Sorted(s) && u in s
    ensures !UriLess(u, s[0])
  {
    var k :| 0 <= k < |s| && s[k] == u;
    if k > 0 {
      assert !UriLess(s[k], s[0]);
    } else {
      UriLessStrictTotalOrder(u, u, u);
    }
  }

  /**
   * A sequence is determined by its elements once sorted: two sorted
   * permutations of each other are equal. So the result of sort.Sort does
   * not depend on its algorithm (stable or not) nor on the input order.
   */
  lemma {:induction false} SortedUnique(a: seq<URI>, b: seq<URI>)
    requires Sorted(a) && Sorted(b) && multiset(a) == multiset(b)
    ensures a == b
  {
    if |a| == 0 {
      assert |multiset(b)| == 0;
    } else {
      assert a[0] in multiset(b);
      assert |b| > 0;
      assert b[0] in multiset(a);
      SortedHeadIsMinimum(a, b[0]);
      SortedHeadIsMinimum(b, a[0]);
      UriLessStrictTotalOrder(a[0], b[0], b[0]);
      assert a[0] == b[0];
      assert a == [a[0]] + a[1..];
      assert b == [b[0]] + b[1..];
      assert multiset(a[1..]) == multiset(a) - multiset{a[0]};
      assert multiset(b[1..]) == multiset(b) - multiset{b[0]};
      assert multiset(a[1..]) == multiset(b[1..]);
      SortedUnique(a[1..], b[1..]);
    }
  }

  /** Inserting the same addresses in any arrival order yields the same node set. */
  lemma SortIgnoresArrivalOrder(s: seq<URI>, t: seq<URI>)
    requires multiset(s) == multiset(t)
    ensures Sort(s) == Sort(t)
  {
    SortSortsAndPermutes(s);
    SortSortsAndPermutes(t);
    SortedUnique(Sort(s), Sort(t));
  }

  // ---------------------------------------------------------------------------
  // Duplicate-free sequences
  // ---------------------------------------------------------------------------

  predicate NoDuplicates(s: seq<URI>)
  {
    forall i, j :: 0 <= i < j < |s| ==> s[i] != s[j]
  }

  lemma {:induction false} NoDuplicatesCount(s: seq<URI>, x: URI)
    requires NoDuplicates(s)
    ensures multiset(s)[x] <= 1
  {
    if |s| > 0 {
      assert s == [s[0]] + s[1..];
      assert NoDuplicates(s[1..]);
      NoDuplicatesCount(s[1..], x);
      if s[0] == x {
        assert x !in s[1..];
      }
    }
  }

  /** Being free of duplicates depends only on the elements, not their order. */
  lemma NoDuplicatesPermutation(a: seq<URI>, b: seq<URI>)
    requires NoDuplicates(a) && multiset(a) == multiset(b)
    ensures NoDuplicates(b)
  {
    forall i, j | 0 <= i < j < |b| ensures b[i] != b[j] {
      if b[i] == b[j] {
        var x := b[i];
        assert b == b[..i] + [x] + b[i + 1..j] + [x] + b[j + 1..];
        assert multiset(b)[x] >= 2;
        NoDuplicatesCount(a, x);
        assert false;
      }
    }
  }

  // ---------------------------------------------------------------------------
  // Host names "host<i>"
  // ---------------------------------------------------------------------------

  function DigitChar(d: nat): char
    requires d < 10
  {
    ('0' as int + d) as char
  }

  /** Decimal rendering of a natural number, as fmt's %d verb writes it. */
  function NatToString(n: nat): (s: string)
    ensures |s| >= 1
    ensures (|s| == 1) == (n < 10)
  {
    if n < 10 then [DigitChar(n)] else NatToString(n / 10) + [DigitChar(n % 10)]
  }

  /** fmt's %d verb on a signed integer. */
  function IntToString(i: int): string
  {
    if i < 0 then "-" + NatToString(-i) else NatToString(i)
  }

  /** Distinct numbers are written differently. */
  lemma {:induction false} NatToStringInjective(a: nat, b: nat)
    requires NatToString(a) == NatToString(b)
    ensures a == b
  {
    if a >= 10 && b >= 10 {
      var sa, sb := NatToString(a / 10), NatToString(b / 10);
      assert NatToString(a)[|sa|] == DigitChar(a % 10);
      assert sa == NatToString(a)[..|sa|];
      assert sb == NatToString(b)[..|sb|];
      NatToStringInjective(a / 10, b / 10);
    }
  }

  /** Only zero is written with a leading '0'. */
  lemma {:induction false} NatToStringLeadingDigit(n: nat)
    requires n >= 1
    ensures NatToString(n)[0] > '0'
  {
    if n >= 10 {
      NatToStringLeadingDigit(n / 10);
    }
  }

  /** The address the harness gives node i: http://host<i>:0. */
  function NodeUri(i: int): URI
  {
    URI("http", "host" + IntToString(i), 0)
  }

  /** The addresses of nodes 0 .. n-1, in creation order. */
  function HostUris(n: nat): (r: seq<URI>)
    ensures |r| == n
  {
    seq(n, k => NodeUri(k))
  }

  /** Adding node n to a cluster of n nodes appends its address. */
  lemma HostUrisSnoc(n: nat)
    ensures HostUris(n + 1) == HostUris(n) + [NodeUri(n)]
  {
  }

  /** Node addresses are distinct for distinct node numbers. */
  lemma NodeUriInjective(i: nat, j: nat)
    requires NodeUri(i) == NodeUri(j)
    ensures i == j
  {
    var hi, hj := NodeUri(i).host, NodeUri(j).host;
    assert NatToString(i) == hi[4..];
    assert NatToString(j) == hj[4..];
    NatToStringInjective(i, j);
  }

  /** host0 sorts before every other generated host. */
  lemma HostZeroFirst(k: nat)
    requires k >= 1
    ensures UriLess(NodeUri(0), NodeUri(k))
  {
    NatToStringLeadingDigit(k);
    LexLessCommonPrefix("host", NatToString(0), NatToString(k));
  }

  lemma HostUrisDistinct(n: nat)
    ensures NoDuplicates(HostUris(n))
  {
    forall i, j | 0 <= i < j < n ensures HostUris(n)[i] != HostUris(n)[j] {
      if NodeUri(i) == NodeUri(j) {
        NodeUriInjective(i, j);
      }
    }
  }

  /**
   * A node set holding exactly the addresses of nodes 0 .. n-1 is free of
   * duplicates once sorted, and its head (the coordinator) is host0.
   */
  lemma SortedHostsStartWithHostZero(ns: seq<URI>, n: nat)
    requires n >= 1 && Sorted(ns) && multiset(ns) == multiset(HostUris(n))
    ensures NoDuplicates(ns)
    ensures ns[0] == NodeUri(0)
  {
    HostUrisDistinct(n);
    NoDuplicatesPermutation(HostUris(n), ns);
    assert HostUris(n)[0] in multiset(ns);
    SortedHeadIsMinimum(ns, NodeUri(0));
    assert ns[0] in multiset(HostUris(n));
    var k :| 0 <= k < n && HostUris(n)[k] == ns[0];
    if k >= 1 {
      HostZeroFirst(k);
    }
  }

  // ---------------------------------------------------------------------------
  // Lookup by address
  // ---------------------------------------------------------------------------

  /** The position of the first occurrence of u at or after position i, if any. */
  function IndexFrom(uris: seq<URI>, u: URI, i: nat): (r: Option<nat>)
    requires i <= |uris|
    ensures r.Some? ==> i <= r.value < |uris| && uris[r.value] == u
    ensures r.Some? ==> forall j :: i <= j < r.value ==> uris[j] != u
    ensures r.None? <==> forall j :: i <= j < |uris| ==> uris[j] != u
    decreases |uris| - i
  {
    if i == |uris| then None
    else if uris[i] == u then Some(i)
    else IndexFrom(uris, u, i + 1)
  }

  /** The position of the first occurrence of u, if any. */
  function IndexOf(uris: seq<URI>, u: URI): (r: Option<nat>)
    ensures r.Some? ==> r.value < |uris| && uris[r.value] == u
    ensures r.Some? ==> forall j :: 0 <= j < r.value ==> uris[j] != u
    ensures r.None? <==> u !in uris
  {
    IndexFrom(uris, u, 0)
  }
}
