/** Shared vocabulary: optional values, the u32 arithmetic of the governor, and
    sums over sequences and over finite sets of names. */
module Common {

  /** Host, pool and route names are only ever compared for equality and order,
      so a name is its rank in the lexicographic order. */
  type Name = int

  /** A count per name. */
  type Table = map<Name, int>

  function Elements(s: seq<Name>): set<Name> { set k | k in s }

  datatype Option<+T> = None | Some(value: T)

  datatype Result<+T, +E> = Ok(value: T) | Err(error: E)

  function Min(a: int, b: int): int { if a <= b then a else b }

  function Max(a: int, b: int): int { if a <= b then b else a }

  const U32_MAX: nat := 0xFFFF_FFFF

  type U32 = x: int | 0 <= x <= U32_MAX

  /** `u32::saturating_add` and `u32::saturating_sub`. */
  function SatAdd(a: nat, b: nat): nat { if a + b <= U32_MAX then a + b else U32_MAX }

  function SatSub(a: nat, b: nat): nat { if a <= b then 0 else a - b }

  // ---- sums over sequences ----

  function SumSeq(xs: seq<nat>): nat {
    if xs == [] then 0 else SumSeq(xs[..|xs| - 1]) + xs[|xs| - 1]
  }

  /** A left fold with `u32::saturating_add`. */
  function SatSum(xs: seq<nat>): nat {
    if xs == [] then 0 else SatAdd(SatSum(xs[..|xs| - 1]), xs[|xs| - 1])
  }

  /** Saturating at every term and at every addition only caps the exact sum. */
  lemma {:induction false} SatSumIsCappedSum(capped: seq<nat>, exact: seq<nat>)
    requires |capped| == |exact|
    requires forall i :: 0 <= i < |exact| ==> capped[i] == Min(exact[i], U32_MAX)
    ensures SatSum(capped) == Min(SumSeq(exact), U32_MAX)
  {
    if exact != [] {
      SatSumIsCappedSum(capped[..|capped| - 1], exact[..|exact| - 1]);
    }
  }

  lemma SumSeqSnoc(xs: seq<nat>, x: nat)
    ensures SumSeq(xs + [x]) == SumSeq(xs) + x
  {
    assert (xs + [x])[..|xs|] == xs;
  }

  lemma {:induction false} SumSeqMonotone(xs: seq<nat>, ys: seq<nat>)
    requires |xs| == |ys| && forall i :: 0 <= i < |xs| ==> xs[i] <= ys[i]
    ensures SumSeq(xs) <= SumSeq(ys)
  {
    if xs != [] {
      SumSeqMonotone(xs[..|xs| - 1], ys[..|ys| - 1]);
    }
  }

  lemma SignOfProduct(a: int, b: int)
    requires 0 < a
    ensures a * b < 0 <==> b < 0
    ensures 0 < a * b <==> 0 < b
  {
  }

  lemma ProductOfSum(a: int, x: int, y: int)
    ensures a * (x + y) == a * x + a * y
  {
  }

  lemma ProductNonNegative(a: int, b: int)
    requires 0 <= a && 0 <= b
    ensures 0 <= a * b
  {
  }

  predicate IsDivMod(a: int, total: int, q: int, r: int) {
    a == total * q + r && 0 <= r < total
  }

  lemma DivMod(a: int, total: int)
    requires 0 < total
    ensures IsDivMod(a, total, a / total, a % total)
  {
  }

  // ---- sums over finite sets of names ----

  lemma Inhabited(s: set<Name>)
    ensures s == {} || exists k :: k in s
  {
    if forall k :: k !in s {
      assert s == {};
    }
  }

  lemma {:induction false} LeastExists(s: set<Name>)
    requires s != {}
    ensures exists k :: k in s && forall j :: j in s ==> k <= j
  {
    Inhabited(s);
    var k :| k in s;
    var below := set j | j in s && j < k;
    Inhabited(below);
    if below == {} {
      assert forall j :: j in s ==> j in below || k <= j;
    } else {
      assert k !in below;
      LeastExists(below);
      var m :| m in below && forall j :: j in below ==> m <= j;
      assert forall j :: j in s ==> j in below || k <= j;
    }
  }

  function Least(s: set<Name>): (k: Name)
    requires s != {}
    ensures k in s && forall j :: j in s ==> k <= j
  {
    LeastExists(s);
    var k :| k in s && forall j :: j in s ==> k <= j;
    k
  }

  function Sum(f: map<Name, int>, s: set<Name>): int
    requires s <= f.Keys
  {
    if s == {} then 0 else var k := Least(s); f[k] + Sum(f, s - {k})
  }

  lemma {:induction false} SumPick(f: map<Name, int>, s: set<Name>, k: Name)
    requires s <= f.Keys && k in s
    ensures Sum(f, s) == f[k] + Sum(f, s - {k})
  {
    var m := Least(s);
    if m != k {
      SumPick(f, s - {m}, k);
      SumPick(f, s - {k}, m);
      assert s - {m} - {k} == s - {k} - {m};
    }
  }

  lemma {:induction false} SumUnion(f: map<Name, int>, s: set<Name>, t: set<Name>)
    requires s + t <= f.Keys && s !! t
    ensures Sum(f, s + t) == Sum(f, s) + Sum(f, t)
  {
    if s == {} {
      assert s + t == t;
    } else {
      var k := Least(s);
      SumPick(f, s + t, k);
      assert s + t - {k} == (s - {k}) + t;
      SumUnion(f, s - {k}, t);
    }
  }

  lemma SumSplit(f: map<Name, int>, s: set<Name>, part: set<Name>)
    requires part <= s <= f.Keys
    ensures Sum(f, s) == Sum(f, part) + Sum(f, s - part)
  {
    assert part + (s - part) == s;
    SumUnion(f, part, s - part);
  }

  /** A linear inequality that holds of every term holds of the sums. */
  lemma {:induction false} SumLinear(a: int, f: map<Name, int>, b: int, g: map<Name, int>, s: set<Name>)
    requires s <= f.Keys && s <= g.Keys
    requires forall k :: k in s ==> a * f[k] <= b * g[k]
    ensures a * Sum(f, s) <= b * Sum(g, s)
  {
    if s != {} {
      var k := Least(s);
      SumLinear(a, f, b, g, s - {k});
      ProductOfSum(a, f[k], Sum(f, s - {k}));
      ProductOfSum(b, g[k], Sum(g, s - {k}));
    }
  }

  lemma SumLe(f: map<Name, int>, g: map<Name, int>, s: set<Name>)
    requires s <= f.Keys && s <= g.Keys
    requires forall k :: k in s ==> f[k] <= g[k]
    ensures Sum(f, s) <= Sum(g, s)
  {
    SumLinear(1, f, 1, g, s);
  }

  lemma SumAgree(f: map<Name, int>, g: map<Name, int>, s: set<Name>)
    requires s <= f.Keys && s <= g.Keys
    requires forall k :: k in s ==> f[k] == g[k]
    ensures Sum(f, s) == Sum(g, s)
  {
    SumLe(f, g, s);
    SumLe(g, f, s);
  }

  lemma SameTable(f: map<Name, int>, g: map<Name, int>)
    requires f.Keys == g.Keys && forall k :: k in f ==> f[k] == g[k]
    ensures f == g
  {
    assert f.Keys == g.Keys;
    assert forall k :: k in g ==> f[k] == g[k];
  }

  lemma SumUpdate(f: map<Name, int>, s: set<Name>, k: Name, x: int)
    requires s <= f.Keys && k in s
    ensures Sum(f[k := x], s) == Sum(f, s) - f[k] + x
  {
    SumPick(f, s, k);
    SumPick(f[k := x], s, k);
    SumAgree(f, f[k := x], s - {k});
  }

  lemma {:induction false} SumConstant(f: map<Name, int>, s: set<Name>, c: int)
    requires s <= f.Keys && forall k :: k in s ==> f[k] == c
    ensures Sum(f, s) == c * |s|
  {
    if s != {} {
      var k := Least(s);
      SumConstant(f, s - {k}, c);
    }
  }

  lemma SumNonNegative(f: map<Name, int>, s: set<Name>)
    requires s <= f.Keys && forall k :: k in s ==> 0 <= f[k]
    ensures 0 <= Sum(f, s)
    ensures forall k :: k in s ==> f[k] <= Sum(f, s)
  {
    SumLinear(0, f, 1, f, s);
    forall k | k in s ensures f[k] <= Sum(f, s) {
      SumPick(f, s, k);
      SumLinear(0, f, 1, f, s - {k});
    }
  }
}
