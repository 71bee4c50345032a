/** The key combinations `get_sdmx_data` asks the SDMX service for: every
    dimension of the filter is paired with each of its values, and the
    cartesian product of those lists is taken in `itertools.product` order,
    the first dimension varying slowest and the last one fastest. */
module SdmxFilter {
  import opened PyDict

  /** A dimension and one of its values. */
  type Pair = (string, string)

  /** One combination of the product: a pair per dimension. */
  type Combination = seq<Pair>

  /** The filter dict, in insertion order: each dimension with its values. */
  type Filter = seq<(string, seq<string>)>

  /** A dict has each key once. */
  predicate DistinctDims(pars: Filter)
  {
    forall i, j :: 0 <= i < j < |pars| ==> pars[i].0 != pars[j].0
  }

  /** `tuple(zip((d,) * len(vals), vals))`: both arguments of `zip` have the
      same length, so every value is kept, paired with its dimension. */
  function Pairs(d: string, vals: seq<string>): (r: seq<Pair>)
    ensures |r| == |vals|
    ensures forall j :: 0 <= j < |r| ==> r[j].0 == d && r[j].1 == vals[j]
  {
    if |vals| == 0 then [] else [(d, vals[0])] + Pairs(d, vals[1..])
  }

  /** `filter_lists`: one tuple of pairs per dimension, in the dict's order. */
  function FilterLists(pars: Filter): (r: seq<seq<Pair>>)
    ensures |r| == |pars|
    ensures forall j :: 0 <= j < |r| ==> r[j] == Pairs(pars[j].0, pars[j].1)
  {
    if |pars| == 0 then [] else [Pairs(pars[0].0, pars[0].1)] + FilterLists(pars[1..])
  }

  /** Each element of `xs` put in front of each of `tails`, the element of
      `xs` changing slowest. */
  function PrependEach(xs: seq<Pair>, tails: seq<Combination>): (r: seq<Combination>)
    ensures |r| == |xs| * |tails|
  {
    if |xs| == 0 then []
    else
      var first := seq(|tails|, b requires 0 <= b < |tails| => [xs[0]] + tails[b]);
      first + PrependEach(xs[1..], tails)
  }

  /** `itertools.product(*lists)`. */
  function Product(lists: seq<seq<Pair>>): (r: seq<Combination>)
    ensures r == [] <==> exists j :: 0 <= j < |lists| && lists[j] == []
  {
    if |lists| == 0 then [[]]
    else
      var tails := Product(lists[1..]);
      assert (exists j :: 0 <= j < |lists| && lists[j] == []) <==>
        lists[0] == [] || exists j :: 0 <= j < |lists[1..]| && lists[1..][j] == [] by {
        forall j | 0 < j < |lists| ensures lists[j] == lists[1..][j - 1] { }
      }
      PrependEach(lists[0], tails)
  }

  /** `cart`: the list of combinations the data is requested for. */
  function Expand(pars: Filter): (r: seq<Combination>)
    ensures r == [] <==> exists j :: 0 <= j < |pars| && pars[j].1 == []
  {
    var lists := FilterLists(pars);
    assert forall j :: 0 <= j < |pars| ==> (lists[j] == [] <==> pars[j].1 == []);
    Product(lists)
  }

  /** The product of the lengths of the lists. */
  function Size(lists: seq<seq<Pair>>): nat
  {
    if |lists| == 0 then 1 else |lists[0]| * Size(lists[1..])
  }

  /** The product of the numbers of values of the dimensions. */
  function ValueCount(pars: Filter): nat
  {
    if |pars| == 0 then 1 else |pars[0].1| * ValueCount(pars[1..])
  }

  /** One index into each list. */
  predicate ValidChoice(lists: seq<seq<Pair>>, ix: seq<nat>)
  {
    |ix| == |lists| && forall j :: 0 <= j < |ix| ==> ix[j] < |lists[j]|
  }

  /** The combination that takes element `ix[j]` of list `j`. */
  function Choose(lists: seq<seq<Pair>>, ix: seq<nat>): (c: Combination)
    requires ValidChoice(lists, ix)
    ensures |c| == |lists|
  {
    seq(|lists|, j requires 0 <= j < |lists| => lists[j][ix[j]])
  }

  /** Position of a choice in mixed radix, the last index the lowest digit. */
  function Rank(lists: seq<seq<Pair>>, ix: seq<nat>): nat
    requires ValidChoice(lists, ix)
  {
    if |lists| == 0 then 0 else ix[0] * Size(lists[1..]) + Rank(lists[1..], ix[1..])
  }

  /* ---------- Arithmetic helpers ---------- */

  lemma MulStep(a: nat, t: nat)
    ensures (a + 1) * t == a * t + t
  {
  }

  lemma MulMono(a: nat, b: nat, t: nat)
    requires a <= b
    ensures a * t <= b * t
  {
  }

  /* ---------- Properties ---------- */

  /** Element `a * |tails| + b` of `PrependEach` is `xs[a]` before `tails[b]`. */
  lemma {:induction false} PrependEachAt(xs: seq<Pair>, tails: seq<Combination>, a: nat, b: nat)
    requires a < |xs| && b < |tails|
    ensures a * |tails| + b < |PrependEach(xs, tails)|
    ensures PrependEach(xs, tails)[a * |tails| + b] == [xs[a]] + tails[b]
  {
    MulStep(a, |tails|);
    MulMono(a + 1, |xs|, |tails|);
    if a > 0 {
      PrependEachAt(xs[1..], tails, a - 1, b);
      MulStep(a - 1, |tails|);
    }
  }

  /** Every element of `PrependEach` is some `xs[a]` before some `tails[b]`. */
  lemma {:induction false} PrependEachElement(xs: seq<Pair>, tails: seq<Combination>, k: nat)
    returns (a: nat, b: nat)
    requires k < |PrependEach(xs, tails)|
    ensures a < |xs| && b < |tails| && k == a * |tails| + b
    ensures PrependEach(xs, tails)[k] == [xs[a]] + tails[b]
  {
    if k < |tails| {
      a, b := 0, k;
    } else {
      var a';
      a', b := PrependEachElement(xs[1..], tails, k - |tails|);
      a := a' + 1;
      MulStep(a', |tails|);
    }
  }

  /** The product has one combination per choice of an element in each
      list: its length is the product of the lengths. */
  lemma {:induction false} ProductLength(lists: seq<seq<Pair>>)
    ensures |Product(lists)| == Size(lists)
  {
    if |lists| > 0 {
      ProductLength(lists[1..]);
    }
  }

  /** Every combination in the product takes one element of each list, in
      the lists' order. */
  lemma {:induction false} ProductSound(lists: seq<seq<Pair>>, k: nat)
    requires k < |Product(lists)|
    ensures |Product(lists)[k]| == |lists|
    ensures forall j :: 0 <= j < |lists| ==> Product(lists)[k][j] in lists[j]
  {
    if |lists| > 0 {
      var rest := Product(lists[1..]);
      var a, b := PrependEachElement(lists[0], rest, k);
      ProductSound(lists[1..], b);
      var c := Product(lists)[k];
      assert c == [lists[0][a]] + rest[b];
      forall j | 0 <= j < |lists|
        ensures c[j] in lists[j]
      {
        if j > 0 {
          assert c[j] == rest[b][j - 1];
        }
      }
    }
  }

  /** Every choice of one element per list appears, at the position its
      indices give in mixed radix: the last list varies fastest, the first
      slowest, as `itertools.product` promises. */
  lemma {:induction false} ProductAt(lists: seq<seq<Pair>>, ix: seq<nat>)
    requires ValidChoice(lists, ix)
    ensures Rank(lists, ix) < |Product(lists)|
    ensures Product(lists)[Rank(lists, ix)] == Choose(lists, ix)
  {
    if |lists| > 0 {
      var rest, ix' := lists[1..], ix[1..];
      assert ValidChoice(rest, ix') by {
        forall j | 0 <= j < |ix'|
          ensures ix'[j] < |rest[j]|
        {
          assert ix'[j] == ix[j + 1];
        }
      }
      ProductAt(rest, ix');
      var tails := Product(rest);
      PrependEachAt(lists[0], tails, ix[0], Rank(rest, ix'));
      ProductLength(rest);
      var c := Choose(lists, ix);
      assert c == [lists[0][ix[0]]] + Choose(rest, ix');
    }
  }

  /** The number of combinations requested is the product of the numbers of
      values of the dimensions. */
  lemma ExpandLength(pars: Filter)
    ensures |Expand(pars)| == ValueCount(pars)
  {
    ProductLength(FilterLists(pars));
    SizeOfFilterLists(pars);
  }

  lemma {:induction false} SizeOfFilterLists(pars: Filter)
    ensures Size(FilterLists(pars)) == ValueCount(pars)
  {
    if |pars| > 0 {
      assert FilterLists(pars)[1..] == FilterLists(pars[1..]);
      SizeOfFilterLists(pars[1..]);
    }
  }

  /** Every combination pairs each dimension, in the filter's order, with one
      of its own values. */
  lemma ExpandSound(pars: Filter, k: nat)
    requires k < |Expand(pars)|
    ensures |Expand(pars)[k]| == |pars|
    ensures forall j :: 0 <= j < |pars| ==>
      Expand(pars)[k][j].0 == pars[j].0 && Expand(pars)[k][j].1 in pars[j].1
  {
    var lists := FilterLists(pars);
    ProductSound(lists, k);
    var c := Expand(pars)[k];
    forall j | 0 <= j < |pars|
      ensures c[j].0 == pars[j].0 && c[j].1 in pars[j].1
    {
      var p := Pairs(pars[j].0, pars[j].1);
      assert c[j] in p;
      var m :| 0 <= m < |p| && p[m] == c[j];
    }
  }

  /** Every choice of one value per dimension is requested, at the position
      its value indices give in mixed radix. */
  lemma ExpandAt(pars: Filter, ix: seq<nat>)
    requires |ix| == |pars| && forall j :: 0 <= j < |pars| ==> ix[j] < |pars[j].1|
    ensures Rank(FilterLists(pars), ix) < |Expand(pars)|
    ensures |Expand(pars)[Rank(FilterLists(pars), ix)]| == |pars|
    ensures forall j :: 0 <= j < |pars| ==>
      Expand(pars)[Rank(FilterLists(pars), ix)][j] == (pars[j].0, pars[j].1[ix[j]])
  {
    ProductAt(FilterLists(pars), ix);
  }

  /** `dict(c)`, the key of a request, maps every dimension to one of its
      values and has no other entries. */
  lemma KeyDict(pars: Filter, k: nat)
    requires DistinctDims(pars) && k < |Expand(pars)|
    ensures forall j :: 0 <= j < |pars| ==> pars[j].0 in DictOf(Expand(pars)[k])
    ensures forall j :: 0 <= j < |pars| ==> DictOf(Expand(pars)[k])[pars[j].0] in pars[j].1
    ensures forall d :: d in DictOf(Expand(pars)[k]) ==> exists j :: 0 <= j < |pars| && pars[j].0 == d
  {
    var c := Expand(pars)[k];
    ExpandSound(pars, k);
    DictOfDistinct(c);
  }
}
