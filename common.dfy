/**
 * Shared vocabulary of the symbolication core: optional values, 64-bit
 * unsigned arithmetic, the Trace / ResolvedTrace records and floor-style
 * queries on ordered maps (std::map keyed by address).
 */
module Common {

  datatype Option<+T> = None | Some(value: T)

  /** Unsigned 64-bit machine words (uintptr_t, bfd_vma, Dwarf_Addr). */
  const Word64: nat := 0x1_0000_0000_0000_0000
  type U64 = x: nat | x < Word64

  /** Wrapping addition and subtraction on 64-bit unsigned words. */
  function Add64(a: U64, b: U64): (r: U64)
    ensures a + b < Word64 ==> r == a + b
    ensures a + b >= Word64 ==> r == a + b - Word64
  {
    (a + b) % Word64
  }

  function Sub64(a: U64, b: U64): (r: U64)
    ensures b <= a ==> r == a - b
    ensures a < b ==> r == a - b + Word64
  {
    (a - b) % Word64
  }

  /** A source location; empty strings and zero numbers mean "undetermined". */
  datatype SourceLoc = SourceLoc(filename: string, funcName: string, line: nat, col: nat)

  const EmptyLoc := SourceLoc("", "", 0, 0)

  /** A raw address together with its position in a captured stack. */
  datatype Trace = Trace(addr: U64, idx: nat)

  datatype ResolvedTrace = ResolvedTrace(
    addr: U64,
    idx: nat,
    objectFilename: string,
    objectFunction: string,
    source: SourceLoc,
    inliners: seq<SourceLoc>)

  /** ResolvedTrace(const Trace &): every resolved field starts empty. */
  function FromTrace(t: Trace): (r: ResolvedTrace)
    ensures r.addr == t.addr && r.idx == t.idx
    ensures r.objectFilename == "" && r.objectFunction == ""
    ensures r.source == EmptyLoc && r.inliners == []
  {
    ResolvedTrace(t.addr, t.idx, "", "", EmptyLoc, [])
  }

  // ---------------------------------------------------------------------
  // Ordered-map queries.  std::map iterates its keys in increasing order;
  // the lookups of the libdwarf backend are phrased with lower_bound, and
  // are stated here through the least and greatest keys of a set.

  predicate IsMax(s: set<nat>, k: nat)
  {
    k in s && forall j :: j in s ==> j <= k
  }

  predicate IsMin(s: set<nat>, k: nat)
  {
    k in s && forall j :: j in s ==> k <= j
  }

  /** Every non-empty finite set of naturals has a greatest element. */
  lemma {:induction false} MaxExists(s: set<nat>)
    requires s != {}
    ensures exists k :: IsMax(s, k)
    decreases |s|
  {
    var x :| x in s;
    if s != {x} {
      var rest := s - {x};
      MaxExists(rest);
      var k :| IsMax(rest, k);
      assert s == rest + {x};
      if x <= k {
        assert IsMax(s, k);
      } else {
        assert IsMax(s, x);
      }
    } else {
      assert IsMax(s, x);
    }
  }

  /** Every non-empty finite set of naturals has a least element. */
  lemma {:induction false} MinExists(s: set<nat>)
    requires s != {}
    ensures exists k :: IsMin(s, k)
    decreases |s|
  {
    var x :| x in s;
    if s != {x} {
      var rest := s - {x};
      MinExists(rest);
      var k :| IsMin(rest, k);
      assert s == rest + {x};
      if k <= x {
        assert IsMin(s, k);
      } else {
        assert IsMin(s, x);
      }
    } else {
      assert IsMin(s, x);
    }
  }

  function MaxOf(s: set<nat>): (k: nat)
    requires s != {}
    ensures IsMax(s, k)
  {
    MaxExists(s);
    var k :| IsMax(s, k); k
  }

  function MinOf(s: set<nat>): (k: nat)
    requires s != {}
    ensures IsMin(s, k)
  {
    MinExists(s);
    var k :| IsMin(s, k); k
  }

  /** The keys of `m` that are at most `a`. */
  function KeysAtMost<V>(m: map<nat, V>, a: nat): (s: set<nat>)
    ensures forall k :: k in s <==> k in m && k <= a
  {
    set k | k in m && k <= a
  }

  /** Regrouping a concatenation of three sequences. */
  lemma ConcatAssociative<T>(a: seq<T>, b: seq<T>, c: seq<T>)
    ensures a + (b + c) == (a + b) + c
  {
  }
}
