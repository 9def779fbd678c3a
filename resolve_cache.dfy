/**
 * backward::resolve: the process-wide memo from address to SourceLoc in
 * front of the platform's trace resolver.  The resolver is a stub that
 * answers with a fixed function and logs every call made to it, in order,
 * so the contracts can state the backend's work and its order.  The mutex and the lazily
 * initialised statics are not modelled: one Cache object is the state.
 */
module ResolveCache {
  import opened Common

  /** A call made to the platform resolver: load_addresses of a batch, or resolve of a trace. */
  datatype Event = Load(addresses: seq<U64>) | Ask(request: ResolvedTrace)

  /** The platform resolver, seen from outside. */
  class StubBackend {
    var log: seq<Event>
    const answer: ResolvedTrace -> ResolvedTrace

    constructor (answer: ResolvedTrace -> ResolvedTrace)
      ensures log == [] && this.answer == answer
    {
      log := [];
      this.answer := answer;
    }

    method LoadAddresses(addresses: seq<U64>)
      modifies this
      ensures log == old(log) + [Load(addresses)]
    {
      log := log + [Load(addresses)];
    }

    method Resolve(t: ResolvedTrace) returns (r: ResolvedTrace)
      modifies this
      ensures r == answer(t)
      ensures log == old(log) + [Ask(t)]
    {
      log := log + [Ask(t)];
      r := answer(t);
    }
  }

  /** The resolve calls for a list of traces, in order. */
  function Asks(ts: seq<ResolvedTrace>): (es: seq<Event>)
    ensures |es| == |ts|
    ensures forall i :: 0 <= i < |ts| ==> es[i] == Ask(ts[i])
  {
    if ts == [] then [] else [Ask(ts[0])] + Asks(ts[1..])
  }

  /** The traces a log asked the backend to resolve, in order. */
  function Requests(log: seq<Event>): (ts: seq<ResolvedTrace>)
    ensures |ts| <= |log|
  {
    if log == [] then []
    else
      var last := log[|log| - 1];
      Requests(log[..|log| - 1]) + (if last.Ask? then [last.request] else [])
  }

  /** A load adds no request; a resolve call adds its trace. */
  lemma RequestsSnoc(log: seq<Event>, e: Event)
    ensures Requests(log + [e]) == Requests(log) + (if e.Ask? then [e.request] else [])
  {
    assert (log + [e])[..|log|] == log;
  }

  /** The requests of a log of resolve calls are their traces. */
  lemma {:induction false} RequestsOfAsks(log: seq<Event>, ts: seq<ResolvedTrace>)
    ensures Requests(log + Asks(ts)) == Requests(log) + ts
    decreases |ts|
  {
    if ts == [] {
      assert log + Asks(ts) == log;
    } else {
      var n := |ts| - 1;
      AsksSnoc(ts[..n], ts[n]);
      assert ts[..n] + [ts[n]] == ts;
      assert log + Asks(ts) == (log + Asks(ts[..n])) + [Ask(ts[n])];
      RequestsSnoc(log + Asks(ts[..n]), Ask(ts[n]));
      RequestsOfAsks(log, ts[..n]);
    }
  }

  lemma AsksSnoc(ts: seq<ResolvedTrace>, t: ResolvedTrace)
    ensures Asks(ts + [t]) == Asks(ts) + [Ask(t)]
  {
    var a, b := Asks(ts + [t]), Asks(ts) + [Ask(t)];
    assert |a| == |b|;
    forall i | 0 <= i < |a| ensures a[i] == b[i] {
      if i < |ts| {
        assert (ts + [t])[i] == ts[i];
      }
    }
  }

  /** The addresses a list of requests asked about. */
  ghost function Addrs(rs: seq<ResolvedTrace>): (s: set<U64>)
    ensures forall a :: a in s <==> exists i :: 0 <= i < |rs| && rs[i].addr == a
  {
    set i | 0 <= i < |rs| :: rs[i].addr
  }

  ghost predicate DistinctAddrs(rs: seq<ResolvedTrace>)
  {
    forall i, j :: 0 <= i < j < |rs| ==> rs[i].addr != rs[j].addr
  }

  /**
   * The requests one call makes from position `from` on, when the
   * addresses in `known` are cached: one per first occurrence of an
   * uncached address, carrying that occurrence's position.
   */
  function Misses(known: set<U64>, addresses: seq<U64>, from: nat): (r: seq<ResolvedTrace>)
    decreases |addresses| - from
  {
    if from >= |addresses| then []
    else if addresses[from] in known then Misses(known, addresses, from + 1)
    else [FromTrace(Trace(addresses[from], from))] + Misses(known + {addresses[from]}, addresses, from + 1)
  }

  ghost predicate FirstOccurrences(r: seq<ResolvedTrace>, known: set<U64>, addresses: seq<U64>, from: nat)
  {
    forall i :: 0 <= i < |r| ==>
      && r[i] == FromTrace(Trace(r[i].addr, r[i].idx))
      && r[i].addr !in known
      && from <= r[i].idx < |addresses| && addresses[r[i].idx] == r[i].addr
      && (forall k :: from <= k < r[i].idx ==> addresses[k] != r[i].addr)
  }

  /**
   * Each miss is a fresh trace for the first occurrence, at or after
   * `from`, of an address that was not cached.
   */
  lemma {:induction false} MissesAreFirstOccurrences(known: set<U64>, addresses: seq<U64>, from: nat)
    ensures FirstOccurrences(Misses(known, addresses, from), known, addresses, from)
    decreases |addresses| - from
  {
    if from < |addresses| {
      var a := addresses[from];
      if a in known {
        MissesAreFirstOccurrences(known, addresses, from + 1);
        var r := Misses(known, addresses, from + 1);
        assert forall i :: 0 <= i < |r| ==> addresses[from] != r[i].addr;
      } else {
        MissesAreFirstOccurrences(known + {a}, addresses, from + 1);
        var rest := Misses(known + {a}, addresses, from + 1);
        var r := [FromTrace(Trace(a, from))] + rest;
        assert forall i :: 1 <= i < |r| ==> r[i] == rest[i - 1];
      }
    }
  }

  /** No address is asked twice, however often it occurs in the batch. */
  lemma {:induction false} MissesAreDistinct(known: set<U64>, addresses: seq<U64>, from: nat)
    ensures DistinctAddrs(Misses(known, addresses, from))
    decreases |addresses| - from
  {
    if from < |addresses| {
      var a := addresses[from];
      if a in known {
        MissesAreDistinct(known, addresses, from + 1);
      } else {
        MissesAreDistinct(known + {a}, addresses, from + 1);
        MissesAreFirstOccurrences(known + {a}, addresses, from + 1);
        var rest := Misses(known + {a}, addresses, from + 1);
        var r := [FromTrace(Trace(a, from))] + rest;
        assert forall i :: 1 <= i < |r| ==> r[i] == rest[i - 1];
        assert forall j :: 0 <= j < |rest| ==> rest[j].addr != a;
      }
    }
  }

  /** The misses cover exactly the uncached addresses of the batch. */
  lemma {:induction false} MissesCoverUncached(known: set<U64>, addresses: seq<U64>, from: nat)
    ensures forall a :: a in Addrs(Misses(known, addresses, from)) <==>
      a !in known && exists k :: from <= k < |addresses| && addresses[k] == a
    decreases |addresses| - from
  {
    if from < |addresses| {
      var a := addresses[from];
      if a in known {
        MissesCoverUncached(known, addresses, from + 1);
      } else {
        MissesCoverUncached(known + {a}, addresses, from + 1);
        var rest := Misses(known + {a}, addresses, from + 1);
        var r := [FromTrace(Trace(a, from))] + rest;
        assert forall i :: 1 <= i < |r| ==> r[i] == rest[i - 1];
        assert Addrs(r) == {a} + Addrs(rest) by {
          assert r[0].addr == a;
          forall b | b in Addrs(rest) ensures b in Addrs(r) {
            var j :| 0 <= j < |rest| && rest[j].addr == b;
            assert r[j + 1].addr == b;
          }
        }
      }
    }
  }

  /** A batch whose addresses are all cached asks nothing. */
  lemma {:induction false} MissesAllKnown(known: set<U64>, addresses: seq<U64>, from: nat)
    requires forall k :: from <= k < |addresses| ==> addresses[k] in known
    ensures Misses(known, addresses, from) == []
    decreases |addresses| - from
  {
    if from < |addresses| {
      MissesAllKnown(known, addresses, from + 1);
    }
  }

  /**
   * The memo agrees with the backend's history: every cached address was
   * asked exactly once, and its entry is the `source` part of the answer.
   */
  ghost predicate Memo(locs: map<U64, SourceLoc>, requests: seq<ResolvedTrace>,
                       answer: ResolvedTrace -> ResolvedTrace)
  {
    DistinctAddrs(requests) && locs == Replay(requests, answer)
  }

  /** The memo that storing the `source` of each answer, in order, builds. */
  ghost function Replay(requests: seq<ResolvedTrace>, answer: ResolvedTrace -> ResolvedTrace): map<U64, SourceLoc>
  {
    if requests == [] then map[]
    else
      var last := requests[|requests| - 1];
      Replay(requests[..|requests| - 1], answer)[last.addr := answer(last).source]
  }

  /** The replayed memo holds exactly the requested addresses... */
  lemma {:induction false} ReplayKeys(requests: seq<ResolvedTrace>, answer: ResolvedTrace -> ResolvedTrace)
    ensures Replay(requests, answer).Keys == Addrs(requests)
  {
    if requests != [] {
      var init := requests[..|requests| - 1];
      ReplayKeys(init, answer);
      assert forall i :: 0 <= i < |init| ==> init[i] == requests[i];
      assert Addrs(requests) == Addrs(init) + {requests[|requests| - 1].addr};
    }
  }

  /** ...and, when no address was asked twice, each one's answered `source`. */
  lemma {:induction false} ReplayEntries(requests: seq<ResolvedTrace>, answer: ResolvedTrace -> ResolvedTrace)
    requires DistinctAddrs(requests)
    ensures forall i :: 0 <= i < |requests| ==>
      requests[i].addr in Replay(requests, answer) &&
      Replay(requests, answer)[requests[i].addr] == answer(requests[i]).source
  {
    if requests != [] {
      var init := requests[..|requests| - 1];
      ReplayEntries(init, answer);
      assert forall i :: 0 <= i < |init| ==> init[i] == requests[i];
    }
  }

  /** A miss, answered and stored, keeps the memo in step with the history. */
  lemma MemoExtend(locs: map<U64, SourceLoc>, requests: seq<ResolvedTrace>,
                   answer: ResolvedTrace -> ResolvedTrace, t: ResolvedTrace)
    requires Memo(locs, requests, answer) && t.addr !in locs
    ensures Memo(locs[t.addr := answer(t).source], requests + [t], answer)
  {
    var r := requests + [t];
    assert r[..|requests|] == requests;
    ReplayKeys(requests, answer);
    assert forall i :: 0 <= i < |requests| ==> requests[i].addr in Addrs(requests);
  }

  /** One turn of the loop, as seen by the backend's log. */
  lemma MissesStep(known: set<U64>, addresses: seq<U64>, i: nat, done: seq<Event>)
    requires i < |addresses|
    ensures addresses[i] in known ==>
      done + Asks(Misses(known, addresses, i)) == done + Asks(Misses(known, addresses, i + 1))
    ensures addresses[i] !in known ==>
      done + Asks(Misses(known, addresses, i)) ==
      (done + [Ask(FromTrace(Trace(addresses[i], i)))]) + Asks(Misses(known + {addresses[i]}, addresses, i + 1))
  {
    if addresses[i] !in known {
      var m := [FromTrace(Trace(addresses[i], i))] + Misses(known + {addresses[i]}, addresses, i + 1);
      assert m[1..] == Misses(known + {addresses[i]}, addresses, i + 1);
    }
  }

  lemma SliceSnoc(s: seq<U64>, i: nat)
    requires i < |s|
    ensures s[..i + 1] == s[..i] + [s[i]]
  {
  }

  /** The memo, in front of its backend. */
  class Cache {
    var locs: map<U64, SourceLoc>
    const backend: StubBackend

    /**
     * Every cached address was asked of the backend exactly once, and its
     * entry is the `source` part of the backend's answer and nothing else.
     */
    ghost predicate Valid()
      reads this, backend
    {
      Memo(locs, Requests(backend.log), backend.answer)
    }

    constructor (b: StubBackend)
      requires Requests(b.log) == []
      ensures Valid() && locs == map[] && backend == b
    {
      locs := map[];
      backend := b;
    }

    /**
     * resolve: loads the whole batch, then answers each address from the
     * memo, asking the backend only on a miss.
     */
    method Resolve(addresses: seq<U64>) returns (ret: seq<SourceLoc>)
      requires Valid()
      modifies this, backend
      ensures Valid()
      ensures |ret| == |addresses|
      ensures forall i :: 0 <= i < |addresses| ==> addresses[i] in locs && ret[i] == locs[addresses[i]]
      ensures forall a :: a in old(locs) ==> a in locs && locs[a] == old(locs[a])
      ensures forall a :: a in locs <==> a in old(locs) || a in addresses
      ensures backend.log == old(backend.log) + [Load(addresses)] + Asks(Misses(old(locs).Keys, addresses, 0))
    {
      ghost var before := backend.log;
      backend.LoadAddresses(addresses);
      RequestsSnoc(before, Load(addresses));
      assert Requests(backend.log) == Requests(before);
      ret := AnswerAll(addresses);
    }

    /** The loop of resolve, after load_addresses. */
    method AnswerAll(addresses: seq<U64>) returns (ret: seq<SourceLoc>)
      requires Valid()
      modifies this, backend
      ensures Valid()
      ensures |ret| == |addresses|
      ensures forall i :: 0 <= i < |addresses| ==> addresses[i] in locs && ret[i] == locs[addresses[i]]
      ensures forall a :: a in old(locs) ==> a in locs && locs[a] == old(locs[a])
      ensures forall a :: a in locs <==> a in old(locs) || a in addresses
      ensures backend.log == old(backend.log) + Asks(Misses(old(locs).Keys, addresses, 0))
    {
      ret := [];
      ghost var goal := old(backend.log) + Asks(Misses(old(locs).Keys, addresses, 0));
      var i := 0;
      while i < |addresses|
        invariant i <= |addresses|
        invariant Valid()
        invariant |ret| == i
        invariant forall k :: 0 <= k < i ==> addresses[k] in locs && ret[k] == locs[addresses[k]]
        invariant forall a :: a in old(locs) ==> a in locs && locs[a] == old(locs[a])
        invariant forall a :: a in locs <==> a in old(locs) || a in addresses[..i]
        invariant backend.log + Asks(Misses(locs.Keys, addresses, i)) == goal
      {
        ghost var done, log0, keys0 := ret, backend.log, locs.Keys;
        SliceSnoc(addresses, i);
        var loc := Visit(addresses, i);
        assert backend.log + Asks(Misses(locs.Keys, addresses, i + 1)) == log0 + Asks(Misses(keys0, addresses, i)) == goal;
        ret := ret + [loc];
        assert forall k :: 0 <= k < i ==> ret[k] == done[k];
        i := i + 1;
      }
      assert addresses[..i] == addresses;
      assert Asks(Misses(locs.Keys, addresses, i)) == [];
      assert backend.log + [] == backend.log;
    }

    /** One turn of the loop: position i of the batch, as seen by the backend's log. */
    method Visit(addresses: seq<U64>, i: nat) returns (loc: SourceLoc)
      requires Valid() && i < |addresses|
      modifies this, backend
      ensures Valid()
      ensures addresses[i] in locs && loc == locs[addresses[i]]
      ensures forall a :: a in old(locs) ==> a in locs && locs[a] == old(locs[a])
      ensures forall a :: a in locs <==> a in old(locs) || a == addresses[i]
      ensures backend.log + Asks(Misses(locs.Keys, addresses, i + 1))
              == old(backend.log) + Asks(Misses(old(locs).Keys, addresses, i))
    {
      ghost var known, asked := locs.Keys, backend.log;
      MissesStep(known, addresses, i, asked);
      loc := Lookup(addresses[i], i);
      if addresses[i] !in known {
        assert locs.Keys == known + {addresses[i]};
      }
    }

    /**
     * One position of the batch: a hit answers from the memo; a miss asks
     * the backend about Trace(addr, i) and stores only the `source` part.
     */
    method Lookup(addr: U64, i: nat) returns (loc: SourceLoc)
      requires Valid()
      modifies this, backend
      ensures Valid()
      ensures addr in locs && loc == locs[addr]
      ensures old(addr in locs) ==> locs == old(locs) && backend.log == old(backend.log)
      ensures old(addr !in locs) ==>
        && locs == old(locs)[addr := backend.answer(FromTrace(Trace(addr, i))).source]
        && backend.log == old(backend.log) + [Ask(FromTrace(Trace(addr, i)))]
    {
      if addr !in locs {
        MemoExtend(locs, Requests(backend.log), backend.answer, FromTrace(Trace(addr, i)));
        RequestsSnoc(backend.log, Ask(FromTrace(Trace(addr, i))));
        var res := backend.Resolve(FromTrace(Trace(addr, i)));
        locs := locs[addr := res.source];
      }
      loc := locs[addr];
    }
  }

  /**
   * Resolving the same batch twice with a fresh cache: the second call
   * answers the same, loads the batch again and asks the backend nothing
   * more.
   */
  method ResolveTwice(answer: ResolvedTrace -> ResolvedTrace, addresses: seq<U64>)
    returns (first: seq<SourceLoc>, second: seq<SourceLoc>, log: seq<Event>)
    ensures first == second
    ensures log == [Load(addresses)] + Asks(Misses({}, addresses, 0)) + [Load(addresses)]
  {
    var b := new StubBackend(answer);
    var c := new Cache(b);
    assert c.locs.Keys == {};
    first := c.Resolve(addresses);
    second := ResolveCached(c, addresses);
    assert forall i :: 0 <= i < |addresses| ==> second[i] == first[i];
    log := b.log;
  }

  /** A batch whose addresses are all cached is answered from the memo alone. */
  method ResolveCached(c: Cache, addresses: seq<U64>) returns (ret: seq<SourceLoc>)
    requires c.Valid()
    requires forall k :: 0 <= k < |addresses| ==> addresses[k] in c.locs
    modifies c, c.backend
    ensures c.locs == old(c.locs) && c.backend.log == old(c.backend.log) + [Load(addresses)]
    ensures |ret| == |addresses|
    ensures forall i :: 0 <= i < |addresses| ==> ret[i] == c.locs[addresses[i]]
  {
    ghost var locs, log := c.locs, c.backend.log;
    MissesAllKnown(c.locs.Keys, addresses, 0);
    ret := c.Resolve(addresses);
    assert c.backend.log == log + [Load(addresses)] + [];
    assert c.locs.Keys == locs.Keys;
    assert c.locs == locs;
  }
}
