/**
 * The value index map that `runOnFunction` builds before the analysis runs:
 * the domain lists the function's arguments in declaration order and then
 * every instruction in program order, and a value's bit is its position in
 * that list.
 */
module Indexing {
  import opened IR

  function ArgValues(n: nat): (r: seq<Value>)
  {
    seq(n, (a: nat) => ArgVal(a))
  }

  function InstValues(ids: seq<InstId>): (r: seq<Value>)
  {
    seq(|ids|, k requires 0 <= k < |ids| => InstVal(ids[k]))
  }

  /** The domain of `f`: every argument, then every instruction, each once. */
  function DomainOf(f: Function): (r: seq<Value>)
  {
    ArgValues(f.numArgs) + InstValues(ProgramOrder(f))
  }

  /** `m` sends each value of `d` to its position and knows no other value. */
  ghost predicate IndexesDomain(m: map<Value, int>, d: seq<Value>)
  {
    && (forall v :: v in m <==> v in d)
    && (forall k :: 0 <= k < |d| ==> d[k] in m && m[d[k]] == k)
  }

  /** Appending a new value to the domain and giving it the next index keeps the map exact. */
  lemma IndexesDomainSnoc(m: map<Value, int>, d: seq<Value>, v: Value)
    requires IndexesDomain(m, d) && v !in d
    ensures IndexesDomain(m[v := |d|], d + [v])
  {
    var m', d' := m[v := |d|], d + [v];
    forall k | 0 <= k < |d'| ensures d'[k] in m' && m'[d'[k]] == k {
      if k < |d| {
        assert d'[k] == d[k];
      }
    }
  }

  /**
   * While the instructions are numbered in program order, the next one is
   * not yet in the domain, and appending it extends the numbered prefix.
   */
  lemma NextInstFresh(numArgs: nat, order: seq<InstId>, k: nat)
    requires Distinct(order) && k < |order|
    ensures InstVal(order[k]) !in ArgValues(numArgs) + InstValues(order[..k])
    ensures ArgValues(numArgs) + InstValues(order[..k + 1]) ==
            ArgValues(numArgs) + InstValues(order[..k]) + [InstVal(order[k])]
  {
    var d := ArgValues(numArgs) + InstValues(order[..k]);
    forall x | 0 <= x < |d| ensures d[x] != InstVal(order[k]) {
      if x >= numArgs {
        assert d[x] == InstVal(order[x - numArgs]);
      }
    }
    assert InstValues(order[..k + 1]) == InstValues(order[..k]) + [InstVal(order[k])];
  }

  /** Every argument and instruction of `f` has a bit below `n` in `idx`. */
  ghost predicate Covers(f: Function, idx: map<Value, int>, n: nat)
  {
    && WellFormed(f)
    && (forall v :: ValueOk(f, v) ==> v in idx && 0 <= idx[v] < n)
  }

  /** Arguments come first, at their declaration positions; then the instructions. */
  lemma DomainLayout(f: Function)
    ensures |DomainOf(f)| == f.numArgs + |ProgramOrder(f)|
    ensures forall a :: 0 <= a < f.numArgs ==> DomainOf(f)[a] == ArgVal(a)
    ensures forall k :: 0 <= k < |ProgramOrder(f)| ==> DomainOf(f)[f.numArgs + k] == InstVal(ProgramOrder(f)[k])
  {
  }

  /** No value receives two positions in the domain of a well-formed function. */
  lemma DomainDistinct(f: Function)
    requires WellFormed(f)
    ensures Distinct(DomainOf(f))
  {
    var d, order := DomainOf(f), ProgramOrder(f);
    forall i, j | 0 <= i < j < |d| ensures d[i] != d[j] {
      if f.numArgs <= i {
        assert d[i] == InstVal(order[i - f.numArgs]) && d[j] == InstVal(order[j - f.numArgs]);
      }
    }
  }

  /** A map that indexes a list gives its values distinct positions. */
  lemma IndexesDomainDistinct(m: map<Value, int>, d: seq<Value>)
    requires IndexesDomain(m, d)
    ensures Distinct(d)
  {
    forall i, j | 0 <= i < j < |d| ensures d[i] != d[j] {
      assert m[d[i]] == i && m[d[j]] == j;
    }
  }

  /** The index map is injective. */
  lemma IndexInjective(m: map<Value, int>, d: seq<Value>, u: Value, v: Value)
    requires IndexesDomain(m, d)
    requires u in m && v in m && m[u] == m[v]
    ensures u == v
  {
    assert u in d && v in d;
    var i :| 0 <= i < |d| && d[i] == u;
    var j :| 0 <= j < |d| && d[j] == v;
    assert m[d[i]] == i && m[d[j]] == j;
  }

  /** Reading the domain at a value's index gives the value back. */
  lemma IndexRoundTrip(m: map<Value, int>, d: seq<Value>, v: Value)
    requires IndexesDomain(m, d) && v in m
    ensures 0 <= m[v] < |d| && d[m[v]] == v
  {
    assert v in d;
    var k :| 0 <= k < |d| && d[k] == v;
    assert m[d[k]] == k;
  }

  /** Argument `a` gets bit `a`; the `k`-th instruction in program order gets bit `numArgs + k`. */
  lemma IndexLayout(f: Function, m: map<Value, int>)
    requires IndexesDomain(m, DomainOf(f))
    ensures forall a :: 0 <= a < f.numArgs ==> ArgVal(a) in m && m[ArgVal(a)] == a
    ensures forall k :: 0 <= k < |ProgramOrder(f)| ==>
      InstVal(ProgramOrder(f)[k]) in m && m[InstVal(ProgramOrder(f)[k])] == f.numArgs + k
  {
    var d := DomainOf(f);
    DomainLayout(f);
    forall a | 0 <= a < f.numArgs ensures ArgVal(a) in m && m[ArgVal(a)] == a {
      assert d[a] == ArgVal(a);
    }
    forall k | 0 <= k < |ProgramOrder(f)|
      ensures InstVal(ProgramOrder(f)[k]) in m && m[InstVal(ProgramOrder(f)[k])] == f.numArgs + k
    {
      assert d[f.numArgs + k] == InstVal(ProgramOrder(f)[k]);
    }
  }

  /**
   * The map is total over exactly the arguments and instructions of the
   * function, and every index it hands out is a valid bit position.
   */
  lemma DomainCovers(f: Function, m: map<Value, int>)
    requires WellFormed(f) && IndexesDomain(m, DomainOf(f))
    ensures forall v :: v in m <==> ValueOk(f, v)
    ensures Covers(f, m, |DomainOf(f)|)
  {
    var d := DomainOf(f);
    IndexLayout(f, m);
    forall v ensures v in m <==> ValueOk(f, v) {
      match v
      case ArgVal(a) =>
        if v in m {
          var k :| 0 <= k < |d| && d[k] == v;
          assert k < f.numArgs;
        }
      case InstVal(id) =>
        InFunctionInOrder(f, id);
        if v in m {
          var k :| 0 <= k < |d| && d[k] == v;
          assert d[k] == InstVal(ProgramOrder(f)[k - f.numArgs]);
        }
        if ValueOk(f, v) {
          var k :| 0 <= k < |ProgramOrder(f)| && ProgramOrder(f)[k] == id;
        }
    }
    forall v | ValueOk(f, v) ensures v in m && 0 <= m[v] < |d| {
      IndexRoundTrip(m, d, v);
    }
  }
}
