/** Assembly of the prompt context from tiered items under a token budget
    (crates/impetus-core/src/context_optimizer.rs). */
module ContextAssembly {
  import opened Text

  datatype Tier = Hot | Warm | Cold

  datatype Payload = Inline(text: string) | Ref(id: string)

  datatype Item = Item(tier: Tier, id: string, kind: string, tokens: nat, payload: Payload)

  //
  // The order on ids, by code point as Rust compares strings.
  //

  predicate IdLeq(a: string, b: string) {
    if a == "" then true
    else if b == "" then false
    else if a[0] == b[0] then IdLeq(a[1..], b[1..])
    else a[0] < b[0]
  }

  /** The order is the lexicographic one: `a` is a prefix of `b`, or the first character in which they differ is
      smaller in `a`. */
  lemma {:induction false} IdExact(a: string, b: string)
    ensures IdLeq(a, b) <==> a <= b || exists k :: FirstSmaller(a, b, k)
  {
    if a != "" && b != "" {
      var x, y := a[1..], b[1..];
      IdExact(x, y);
      assert a == [a[0]] + x && b == [b[0]] + y;
      if a[0] == b[0] {
        if k :| FirstSmaller(x, y, k) {
          assert FirstSmaller(a, b, k + 1);
        }
        if k :| FirstSmaller(a, b, k) {
          assert FirstSmaller(x, y, k - 1);
        }
      } else if IdLeq(a, b) {
        assert FirstSmaller(a, b, 0);
      }
    }
  }

  /** The two agree up to `k`, and there `a` has the smaller character. */
  predicate FirstSmaller(a: string, b: string, k: int) {
    0 <= k < |a| && k < |b| && (forall i | 0 <= i < k :: a[i] == b[i]) && a[k] < b[k]
  }

  lemma {:induction false} IdTotal(a: string, b: string)
    ensures IdLeq(a, b) || IdLeq(b, a)
  {
    if a != "" && b != "" {
      IdTotal(a[1..], b[1..]);
    }
  }

  lemma {:induction false} IdAntisymmetric(a: string, b: string)
    requires IdLeq(a, b) && IdLeq(b, a)
    ensures a == b
  {
    if a != "" && b != "" {
      IdAntisymmetric(a[1..], b[1..]);
      assert a == [a[0]] + a[1..] && b == [b[0]] + b[1..];
    }
  }

  lemma {:induction false} IdTransitive(a: string, b: string, c: string)
    requires IdLeq(a, b) && IdLeq(b, c)
    ensures IdLeq(a, c)
  {
    if a != "" && b != "" && c != "" && a[0] == b[0] == c[0] {
      IdTransitive(a[1..], b[1..], c[1..]);
    }
  }

  //
  // Stable sorting.
  //

  ghost predicate Sorted(s: seq<Item>) {
    forall i, j | 0 <= i < j < |s| :: IdLeq(s[i].id, s[j].id)
  }

  /** The items with one id, in the order they come. */
  function WithId(s: seq<Item>, id: string): seq<Item> {
    if s == [] then []
    else if s[0].id == id then [s[0]] + WithId(s[1..], id)
    else WithId(s[1..], id)
  }

  /** The two hold the same items of every id, in the same order. */
  ghost predicate SameById(s: seq<Item>, t: seq<Item>) {
    forall id :: WithId(s, id) == WithId(t, id)
  }

  /** Puts an item before the first that is not smaller. */
  function Insert(x: Item, s: seq<Item>): seq<Item> {
    if s == [] || IdLeq(x.id, s[0].id) then [x] + s else [s[0]] + Insert(x, s[1..])
  }

  function StableSort(s: seq<Item>): seq<Item> {
    if s == [] then [] else Insert(s[0], StableSort(s[1..]))
  }

  lemma {:induction false} InsertWithId(x: Item, s: seq<Item>, id: string)
    ensures WithId(Insert(x, s), id) == (if x.id == id then [x] else []) + WithId(s, id)
  {
    var r := Insert(x, s);
    if s == [] || IdLeq(x.id, s[0].id) {
      assert r[1..] == s;
    } else {
      InsertWithId(x, s[1..], id);
      assert r[1..] == Insert(x, s[1..]);
      IdTotal(x.id, s[0].id);
    }
  }

  lemma {:induction false} WithIdMember(s: seq<Item>, x: Item)
    ensures x in s <==> x in WithId(s, x.id)
  {
    if s != [] {
      WithIdMember(s[1..], x);
      assert s == [s[0]] + s[1..];
    }
  }

  /** Inserting adds one item and loses none. */
  lemma {:induction false} InsertMembers(x: Item, s: seq<Item>, y: Item)
    ensures y in Insert(x, s) <==> y == x || y in s
  {
    if s != [] && !IdLeq(x.id, s[0].id) {
      InsertMembers(x, s[1..], y);
      assert s == [s[0]] + s[1..];
    }
  }

  lemma SortedCons(x: Item, s: seq<Item>)
    requires Sorted(s) && forall y | y in s :: IdLeq(x.id, y.id)
    ensures Sorted([x] + s)
  {
    var r := [x] + s;
    forall i, j | 0 <= i < j < |r|
      ensures IdLeq(r[i].id, r[j].id)
    {
      assert r[j] == s[j - 1] && (i > 0 ==> r[i] == s[i - 1]);
      assert s[j - 1] in s;
    }
  }

  lemma SortedHead(s: seq<Item>)
    requires Sorted(s) && s != []
    ensures Sorted(s[1..])
    ensures forall y | y in s :: IdLeq(s[0].id, y.id)
  {
    IdTotal(s[0].id, s[0].id);
  }

  lemma {:induction false} InsertSorted(x: Item, s: seq<Item>)
    requires Sorted(s)
    ensures Sorted(Insert(x, s))
  {
    if s == [] {
    } else if IdLeq(x.id, s[0].id) {
      SortedHead(s);
      forall y | y in s
        ensures IdLeq(x.id, y.id)
      {
        IdTransitive(x.id, s[0].id, y.id);
      }
      SortedCons(x, s);
    } else {
      SortedHead(s);
      InsertSorted(x, s[1..]);
      IdTotal(x.id, s[0].id);
      forall y | y in Insert(x, s[1..])
        ensures IdLeq(s[0].id, y.id)
      {
        InsertMembers(x, s[1..], y);
      }
      SortedCons(s[0], Insert(x, s[1..]));
    }
  }

  /** The sort orders by id and keeps the items of each id in their order. */
  lemma {:induction false} SortIsStable(s: seq<Item>)
    ensures Sorted(StableSort(s)) && SameById(StableSort(s), s)
  {
    if s != [] {
      SortIsStable(s[1..]);
      InsertSorted(s[0], StableSort(s[1..]));
      forall id
        ensures WithId(StableSort(s), id) == WithId(s, id)
      {
        InsertWithId(s[0], StableSort(s[1..]), id);
      }
    }
  }

  /** A sorted list is fixed by its items of each id. */
  lemma {:induction false} SortedUnique(a: seq<Item>, b: seq<Item>)
    requires Sorted(a) && Sorted(b) && SameById(a, b)
    ensures a == b
  {
    NonEmptyTogether(a, b);
    NonEmptyTogether(b, a);
    if a != [] {
      SortedHead(a);
      SortedHead(b);
      HeadLeq(a, b);
      HeadLeq(b, a);
      IdAntisymmetric(a[0].id, b[0].id);
      assert WithId(a, a[0].id) == WithId(b, a[0].id);
      assert a[0] == WithId(a, a[0].id)[0] == b[0];
      forall id
        ensures WithId(a[1..], id) == WithId(b[1..], id)
      {
        assert WithId(a, id) == WithId(b, id);
        assert id == a[0].id ==> WithId(a, id)[1..] == WithId(a[1..], id) && WithId(b, id)[1..] == WithId(b[1..], id);
      }
      SortedUnique(a[1..], b[1..]);
      assert a == [a[0]] + a[1..] && b == [b[0]] + b[1..];
    }
  }

  lemma NonEmptyTogether(a: seq<Item>, b: seq<Item>)
    requires SameById(a, b)
    ensures a != [] ==> b != []
  {
    if a != [] {
      assert WithId(a, a[0].id) == WithId(b, a[0].id);
    }
  }

  lemma HeadLeq(a: seq<Item>, b: seq<Item>)
    requires Sorted(a) && a != [] && b != [] && SameById(a, b)
    ensures IdLeq(a[0].id, b[0].id)
  {
    WithIdMember(b, b[0]);
    assert WithId(a, b[0].id) == WithId(b, b[0].id);
    WithIdMember(a, b[0]);
    SortedHead(a);
  }

  //
  // Selection under the budget.
  //

  function SatAdd(a: nat, b: nat): nat {
    if a + b <= USIZE_MAX then a + b else USIZE_MAX
  }

  function Total(s: seq<Item>): nat {
    if s == [] then 0 else s[0].tokens + Total(s[1..])
  }

  /** Which candidates the greedy pass keeps, given what is already used. */
  function Picks(s: seq<Item>, used: nat, budget: nat): (mask: seq<bool>)
    ensures |mask| == |s|
  {
    if s == [] then []
    else if SatAdd(used, s[0].tokens) > budget then [false] + Picks(s[1..], used, budget)
    else [true] + Picks(s[1..], SatAdd(used, s[0].tokens), budget)
  }

  function Select(s: seq<Item>, mask: seq<bool>): (r: seq<Item>)
    requires |mask| == |s|
    ensures forall x | x in r :: x in s
  {
    if s == [] then []
    else if mask[0] then [s[0]] + Select(s[1..], mask[1..])
    else Select(s[1..], mask[1..])
  }

  lemma {:induction false} TotalConcat(s: seq<Item>, t: seq<Item>)
    ensures Total(s + t) == Total(s) + Total(t)
  {
    if s == [] {
      assert s + t == t;
    } else {
      assert (s + t)[1..] == s[1..] + t;
      TotalConcat(s[1..], t);
    }
  }

  /** What the running total is after a pass. */
  function UsedAfter(s: seq<Item>, used: nat, budget: nat): nat {
    if s == [] then used
    else if SatAdd(used, s[0].tokens) > budget then UsedAfter(s[1..], used, budget)
    else UsedAfter(s[1..], SatAdd(used, s[0].tokens), budget)
  }

  function Kept(s: seq<Item>, used: nat, budget: nat): seq<Item> {
    Select(s, Picks(s, used, budget))
  }

  /** Two passes one after the other are one pass. */
  lemma {:induction false} PassesJoin(s: seq<Item>, t: seq<Item>, used: nat, budget: nat)
    ensures Kept(s + t, used, budget) == Kept(s, used, budget) + Kept(t, UsedAfter(s, used, budget), budget)
  {
    if s == [] {
      assert s + t == t;
    } else {
      assert (s + t)[1..] == s[1..] + t;
      var used' := if SatAdd(used, s[0].tokens) > budget then used else SatAdd(used, s[0].tokens);
      PassesJoin(s[1..], t, used', budget);
    }
  }

  /** Below the largest budget the running total is the true one. */
  lemma {:induction false} UsedIsTotal(s: seq<Item>, used: nat, budget: nat)
    requires budget < USIZE_MAX
    ensures UsedAfter(s, used, budget) == used + Total(Kept(s, used, budget))
    ensures used + Total(Kept(s, used, budget)) <= (if used <= budget then budget else used)
  {
    if s != [] {
      var used' := if SatAdd(used, s[0].tokens) > budget then used else SatAdd(used, s[0].tokens);
      UsedIsTotal(s[1..], used', budget);
    }
  }

  /** Nothing left out would still fit. */
  lemma {:induction false} LeftOutDoNotFit(s: seq<Item>, used: nat, budget: nat, k: nat)
    requires budget < USIZE_MAX && k < |s| && !Picks(s, used, budget)[k]
    ensures used + Total(Kept(s, used, budget)) + s[k].tokens > budget
  {
    var used' := if SatAdd(used, s[0].tokens) > budget then used else SatAdd(used, s[0].tokens);
    if k > 0 {
      LeftOutDoNotFit(s[1..], used', budget, k - 1);
    }
  }

  /** At the largest budget everything is kept, whatever it costs: the saturated total never exceeds it. */
  lemma {:induction false} LargestBudgetKeepsAll(s: seq<Item>, used: nat, budget: nat)
    requires used <= USIZE_MAX <= budget
    ensures Kept(s, used, budget) == s
  {
    if s != [] {
      LargestBudgetKeepsAll(s[1..], SatAdd(used, s[0].tokens), budget);
      assert s == [s[0]] + s[1..];
    }
  }

  /** Comparing two choices by the first candidate they disagree on. */
  ghost predicate AtLeast(m: seq<bool>, n: seq<bool>)
    requires |m| == |n|
  {
    m == [] || (if m[0] == n[0] then AtLeast(m[1..], n[1..]) else m[0])
  }

  /** A choice stays within the budget. */
  ghost predicate Fits(s: seq<Item>, used: nat, budget: nat, mask: seq<bool>)
    requires |mask| == |s|
  {
    Select(s, mask) == [] || used + Total(Select(s, mask)) <= budget
  }

  /** The greedy choice fits, and it is the only one no choice that fits prefers an earlier candidate to. */
  lemma {:induction false} GreedyIsBest(s: seq<Item>, used: nat, budget: nat, mask: seq<bool>)
    requires budget < USIZE_MAX && |mask| == |s| && Fits(s, used, budget, mask)
    ensures Fits(s, used, budget, Picks(s, used, budget))
    ensures AtLeast(Picks(s, used, budget), mask)
    ensures AtLeast(mask, Picks(s, used, budget)) ==> mask == Picks(s, used, budget)
  {
    UsedIsTotal(s, used, budget);
    GreedyAtLeast(s, used, budget, mask);
    if AtLeast(mask, Picks(s, used, budget)) {
      BestIsUnique(mask, Picks(s, used, budget));
    }
    if used > budget {
      OverBudgetKeepsNone(s, used, budget);
    }
  }

  lemma {:induction false} OverBudgetKeepsNone(s: seq<Item>, used: nat, budget: nat)
    requires budget < used <= USIZE_MAX || (budget < USIZE_MAX && budget < used)
    ensures Kept(s, used, budget) == []
  {
    if s != [] {
      OverBudgetKeepsNone(s[1..], used, budget);
    }
  }

  lemma {:induction false} GreedyAtLeast(s: seq<Item>, used: nat, budget: nat, mask: seq<bool>)
    requires budget < USIZE_MAX && |mask| == |s| && Fits(s, used, budget, mask)
    ensures AtLeast(Picks(s, used, budget), mask)
  {
    if s != [] {
      var picks := Picks(s, used, budget);
      if picks[0] == mask[0] {
        var used' := if picks[0] then SatAdd(used, s[0].tokens) else used;
        assert picks[1..] == Picks(s[1..], used', budget);
        GreedyAtLeast(s[1..], used', budget, mask[1..]);
      }
    }
  }

  /** The comparison is an order, so the best choice is the only one. */
  lemma {:induction false} BestIsUnique(m: seq<bool>, n: seq<bool>)
    requires |m| == |n| && AtLeast(m, n) && AtLeast(n, m)
    ensures m == n
  {
    if m != [] {
      BestIsUnique(m[1..], n[1..]);
      assert m == [m[0]] + m[1..] && n == [n[0]] + n[1..];
    }
  }

  lemma {:induction false} SelectSorted(s: seq<Item>, mask: seq<bool>)
    requires Sorted(s) && |mask| == |s|
    ensures Sorted(Select(s, mask))
  {
    if s != [] {
      SortedHead(s);
      SelectSorted(s[1..], mask[1..]);
      if mask[0] {
        SortedCons(s[0], Select(s[1..], mask[1..]));
      }
    }
  }

  //
  // Assembly.
  //

  function OfTier(items: seq<Item>, tier: Tier): seq<Item> {
    if items == [] then []
    else if items[|items| - 1].tier == tier then OfTier(items[..|items| - 1], tier) + [items[|items| - 1]]
    else OfTier(items[..|items| - 1], tier)
  }

  /** A cold item travels as a reference of cost one. */
  function Demoted(item: Item): Item {
    if item.tier.Cold? then Item(Cold, item.id, item.kind, 1, Ref(item.id)) else item
  }

  function DemotedAll(items: seq<Item>): (r: seq<Item>)
    ensures |r| == |items| && forall k | 0 <= k < |r| :: r[k] == Demoted(items[k])
  {
    if items == [] then [] else DemotedAll(items[..|items| - 1]) + [Demoted(items[|items| - 1])]
  }

  /** The items of a tier as they enter the selection. */
  function Tiered(items: seq<Item>, tier: Tier): seq<Item> {
    StableSort(DemotedAll(OfTier(items, tier)))
  }

  /** The hot items, then the candidates that greedy selection keeps when `used` is taken already. */
  function AssembledFrom(items: seq<Item>, used: nat, budget: nat): seq<Item> {
    Tiered(items, Hot) + Kept(Tiered(items, Warm) + Tiered(items, Cold), used, budget)
  }

  function Assembled(items: seq<Item>, budget: nat): seq<Item> {
    AssembledFrom(items, Total(Tiered(items, Hot)), budget)
  }

  /** One pass over sorted candidates, adding those that fit. */
  method Fill(candidates: seq<Item>, used: nat, out: seq<Item>, budget: nat) returns (used': nat, out': seq<Item>)
    ensures used' == UsedAfter(candidates, used, budget)
    ensures out' == out + Kept(candidates, used, budget)
  {
    used', out' := used, out;
    var rest := candidates;
    while rest != []
      invariant UsedAfter(rest, used', budget) == UsedAfter(candidates, used, budget)
      invariant out' + Kept(rest, used', budget) == out + Kept(candidates, used, budget)
    {
      var item := rest[0];
      rest := rest[1..];
      if SatAdd(used', item.tokens) > budget {
        continue;
      }
      used' := SatAdd(used', item.tokens);
      Assoc(out', [item], Kept(rest, used', budget));
      out' := out' + [item];
    }
  }

  /** Sorts the items into the three tiers, cold ones as references. */
  method Partition(items: seq<Item>) returns (hot: seq<Item>, warm: seq<Item>, cold: seq<Item>)
    ensures hot == DemotedAll(OfTier(items, Hot))
    ensures warm == DemotedAll(OfTier(items, Warm))
    ensures cold == DemotedAll(OfTier(items, Cold))
  {
    hot, warm, cold := [], [], [];
    for k := 0 to |items|
      invariant hot == DemotedAll(OfTier(items[..k], Hot))
      invariant warm == DemotedAll(OfTier(items[..k], Warm))
      invariant cold == DemotedAll(OfTier(items[..k], Cold))
    {
      TierStep(items, k, Hot);
      TierStep(items, k, Warm);
      TierStep(items, k, Cold);
      var item := items[k];
      match item.tier {
        case Hot => hot := hot + [item];
        case Warm => warm := warm + [item];
        case Cold => cold := cold + [Item(Cold, item.id, item.kind, 1, Ref(item.id))];
      }
    }
    assert items[..|items|] == items;
  }

  /** A number in a machine word, wrapped around as an optimised build does. */
  function Wrapped(n: nat): (r: nat)
    ensures r <= USIZE_MAX && (n <= USIZE_MAX ==> r == n)
  {
    n % (USIZE_MAX + 1)
  }

  lemma WrapStep(a: nat, b: nat)
    ensures Wrapped(Wrapped(a) + b) == Wrapped(a + b)
  {
    var q := a / (USIZE_MAX + 1);
    assert Wrapped(a) + b == a + b - q * (USIZE_MAX + 1);
  }

  method SumTokens(s: seq<Item>) returns (sum: nat)
    ensures sum == Wrapped(Total(s))
  {
    sum := 0;
    for k := 0 to |s|
      invariant Wrapped(sum + Total(s[k..])) == Wrapped(Total(s)) && sum <= USIZE_MAX
    {
      assert s[k..][1..] == s[k + 1..];
      WrapStep(sum + s[k].tokens, Total(s[k + 1..]));
      sum := Wrapped(sum + s[k].tokens);
    }
  }

  /** The two passes over what is sorted. */
  method FillBoth(hot: seq<Item>, warm: seq<Item>, cold: seq<Item>, used: nat, budget: nat) returns (out: seq<Item>)
    ensures out == hot + Kept(warm + cold, used, budget)
  {
    PassesJoin(warm, cold, used, budget);
    Assoc(hot, Kept(warm, used, budget), Kept(cold, UsedAfter(warm, used, budget), budget));
    var used';
    used', out := Fill(warm, used, hot, budget);
    used', out := Fill(cold, used', out, budget);
  }

  /** Partitions, sorts and fills. The hot items' total may wrap around; while it fits a word it is the true one. */
  method Assemble(items: seq<Item>, budget: nat) returns (out: seq<Item>)
    ensures out == AssembledFrom(items, Wrapped(Total(Tiered(items, Hot))), budget)
    ensures Total(Tiered(items, Hot)) <= USIZE_MAX ==> out == Assembled(items, budget)
  {
    var hot, warm, cold := Partition(items);
    hot, warm, cold := StableSort(hot), StableSort(warm), StableSort(cold);
    var used := SumTokens(hot);
    out := FillBoth(hot, warm, cold, used, budget);
  }

  lemma TierStep(items: seq<Item>, k: nat, t: Tier)
    requires k < |items|
    ensures DemotedAll(OfTier(items[..k + 1], t)) ==
            DemotedAll(OfTier(items[..k], t)) + (if items[k].tier == t then [Demoted(items[k])] else [])
  {
    assert items[..k + 1][..k] == items[..k];
    var front := OfTier(items[..k], t);
    assert (front + [items[k]])[..|front|] == front;
  }

  //
  // What is assembled.
  //

  lemma {:induction false} SortMembers(s: seq<Item>, y: Item)
    ensures y in StableSort(s) <==> y in s
  {
    if s != [] {
      SortMembers(s[1..], y);
      InsertMembers(s[0], StableSort(s[1..]), y);
      assert s == [s[0]] + s[1..];
    }
  }

  lemma {:induction false} OfTierElements(items: seq<Item>, t: Tier)
    ensures forall x | x in OfTier(items, t) :: x in items && x.tier == t
  {
    if items != [] {
      OfTierElements(items[..|items| - 1], t);
    }
  }

  lemma TieredSorted(items: seq<Item>, t: Tier)
    ensures Sorted(Tiered(items, t)) && AllOf(Tiered(items, t), t)
  {
    var s := OfTier(items, t);
    OfTierElements(items, t);
    SortIsStable(DemotedAll(s));
    forall y | y in Tiered(items, t)
      ensures y.tier == t && y == Demoted(y)
    {
      SortMembers(DemotedAll(s), y);
      var k :| 0 <= k < |s| && DemotedAll(s)[k] == y;
      assert s[k] in s;
    }
  }

  /** Items of one tier, cold ones as references. */
  ghost predicate AllOf(s: seq<Item>, t: Tier) {
    forall y | y in s :: y.tier == t && y == Demoted(y)
  }

  /** Hot items come whole and first; only then what fits. The total stays within the budget, or is that of the
      hot items alone, and a candidate that was not picked does not fit beside what was assembled. */
  lemma AssembledWithinBudget(items: seq<Item>, budget: nat)
    requires budget < USIZE_MAX
    ensures var hot, rest, out := Tiered(items, Hot), Tiered(items, Warm) + Tiered(items, Cold),
            Assembled(items, budget);
            && SameById(hot, OfTier(items, Hot)) && hot <= out
            && Total(out) <= (if Total(hot) <= budget then budget else Total(hot))
            && forall k | 0 <= k < |rest| && !Picks(rest, Total(hot), budget)[k] :: Total(out) + rest[k].tokens > budget
  {
    var hot, rest, out := Tiered(items, Hot), Tiered(items, Warm) + Tiered(items, Cold), Assembled(items, budget);
    SortIsStable(DemotedAll(OfTier(items, Hot)));
    OfTierElements(items, Hot);
    assert DemotedAll(OfTier(items, Hot)) == OfTier(items, Hot);
    TotalConcat(hot, Kept(rest, Total(hot), budget));
    UsedIsTotal(rest, Total(hot), budget);
    forall k | 0 <= k < |rest| && !Picks(rest, Total(hot), budget)[k]
      ensures Total(out) + rest[k].tokens > budget
    {
      LeftOutDoNotFit(rest, Total(hot), budget, k);
    }
  }

  function Rank(t: Tier): nat {
    match t
    case Hot => 0
    case Warm => 1
    case Cold => 2
  }

  /** Ordered by tier and then by id. */
  ghost predicate TierOrdered(s: seq<Item>) {
    forall i, j | 0 <= i < j < |s| ::
      Rank(s[i].tier) < Rank(s[j].tier) || (s[i].tier == s[j].tier && IdLeq(s[i].id, s[j].id))
  }

  lemma OrderedConcat(s: seq<Item>, r: seq<Item>)
    requires TierOrdered(s) && TierOrdered(r)
    requires forall x, y | x in s && y in r :: Rank(x.tier) < Rank(y.tier)
    ensures TierOrdered(s + r)
  {
    var c := s + r;
    forall i, j | 0 <= i < j < |c|
      ensures Rank(c[i].tier) < Rank(c[j].tier) || (c[i].tier == c[j].tier && IdLeq(c[i].id, c[j].id))
    {
      if i < |s| <= j {
        assert c[i] == s[i] && c[j] == r[j - |s|];
        assert s[i] in s && r[j - |s|] in r;
      } else if |s| <= i {
        assert c[i] == r[i - |s|] && c[j] == r[j - |s|];
      }
    }
  }

  lemma SameTierOrdered(s: seq<Item>, t: Tier)
    requires Sorted(s) && AllOf(s, t)
    ensures TierOrdered(s)
  {
    forall i, j | 0 <= i < j < |s|
      ensures s[i].tier == s[j].tier
    {
      assert s[i] in s && s[j] in s;
    }
  }

  lemma KeptOrdered(s: seq<Item>, used: nat, budget: nat, t: Tier)
    requires Sorted(s) && AllOf(s, t)
    ensures TierOrdered(Kept(s, used, budget)) && AllOf(Kept(s, used, budget), t)
  {
    SelectSorted(s, Picks(s, used, budget));
    SameTierOrdered(Kept(s, used, budget), t);
  }

  lemma PartsInOrder(hot: seq<Item>, warm: seq<Item>, cold: seq<Item>)
    requires TierOrdered(hot) && TierOrdered(warm) && TierOrdered(cold)
    requires AllOf(hot, Hot) && AllOf(warm, Warm) && AllOf(cold, Cold)
    ensures TierOrdered(hot + (warm + cold))
    ensures forall x | x in hot + (warm + cold) :: x == Demoted(x)
  {
    OrderedConcat(warm, cold);
    OrderedConcat(hot, warm + cold);
  }

  /** The result is ordered by tier and id, and a cold item is only ever a reference of cost one. */
  lemma AssembledInOrder(items: seq<Item>, budget: nat)
    ensures TierOrdered(Assembled(items, budget))
    ensures forall x | x in Assembled(items, budget) && x.tier.Cold? :: x.tokens == 1 && x.payload == Ref(x.id)
  {
    var hot, warm, cold := Tiered(items, Hot), Tiered(items, Warm), Tiered(items, Cold);
    TieredSorted(items, Hot);
    TieredSorted(items, Warm);
    TieredSorted(items, Cold);
    var used := Total(hot);
    var used' := UsedAfter(warm, used, budget);
    PassesJoin(warm, cold, used, budget);
    SameTierOrdered(hot, Hot);
    KeptOrdered(warm, used, budget, Warm);
    KeptOrdered(cold, used', budget, Cold);
    PartsInOrder(hot, Kept(warm, used, budget), Kept(cold, used', budget));
  }

  //
  // The order of the input.
  //

  lemma {:induction false} OfTierConcat(s: seq<Item>, r: seq<Item>, t: Tier)
    ensures OfTier(s + r, t) == OfTier(s, t) + OfTier(r, t)
  {
    if r == [] {
      assert s + r == s;
    } else {
      assert (s + r)[..|s + r| - 1] == s + r[..|r| - 1];
      OfTierConcat(s, r[..|r| - 1], t);
    }
  }

  lemma {:induction false} OfTierOne(s: seq<Item>, t: Tier, u: Tier)
    requires forall k | 0 <= k < |s| :: s[k].tier == u
    ensures OfTier(s, t) == if t == u then s else []
  {
    if s != [] {
      var init, last := s[..|s| - 1], s[|s| - 1];
      assert s == init + [last] && last.tier == u;
      OfTierOne(init, t, u);
      assert OfTier(s, t) == if u == t then OfTier(init, t) + [last] else OfTier(init, t);
    }
  }

  lemma OfTierAll(s: seq<Item>, t: Tier, u: Tier)
    requires AllOf(s, u)
    ensures OfTier(s, t) == if t == u then s else []
  {
    forall k | 0 <= k < |s|
      ensures s[k].tier == u
    {
      assert s[k] in s;
    }
    OfTierOne(s, t, u);
  }

  /** With room for everything, each tier can be read off the result. */
  lemma TierReadOff(items: seq<Item>, t: Tier)
    requires Total(Tiered(items, Hot)) <= USIZE_MAX
    ensures OfTier(Assembled(items, USIZE_MAX), t) == Tiered(items, t)
  {
    var hot, warm, cold := Tiered(items, Hot), Tiered(items, Warm), Tiered(items, Cold);
    TieredSorted(items, Hot);
    TieredSorted(items, Warm);
    TieredSorted(items, Cold);
    LargestBudgetKeepsAll(warm + cold, Total(hot), USIZE_MAX);
    OfTierConcat(hot, warm + cold, t);
    OfTierConcat(warm, cold, t);
    OfTierAll(hot, t, Hot);
    OfTierAll(warm, t, Warm);
    OfTierAll(cold, t, Cold);
  }

  ghost predicate SameTier(a: seq<Item>, b: seq<Item>, t: Tier) {
    SameById(DemotedAll(OfTier(a, t)), DemotedAll(OfTier(b, t)))
  }

  lemma TieredSame(a: seq<Item>, b: seq<Item>, t: Tier)
    ensures Tiered(a, t) == Tiered(b, t) <==> SameTier(a, b, t)
  {
    var s, r := DemotedAll(OfTier(a, t)), DemotedAll(OfTier(b, t));
    SortIsStable(s);
    SortIsStable(r);
    if SameTier(a, b, t) {
      forall id
        ensures WithId(StableSort(s), id) == WithId(StableSort(r), id)
      {
        assert WithId(s, id) == WithId(r, id);
      }
      SortedUnique(StableSort(s), StableSort(r));
    } else {
      var id :| WithId(s, id) != WithId(r, id);
      assert WithId(StableSort(s), id) != WithId(StableSort(r), id);
    }
  }

  /** Two inputs assemble alike under every budget exactly when, within each tier, the items that share an id
      come in the same order: nothing else about the order of the input matters. */
  lemma OrderMattersOnlyWithinAnId(a: seq<Item>, b: seq<Item>)
    requires Total(Tiered(a, Hot)) <= USIZE_MAX && Total(Tiered(b, Hot)) <= USIZE_MAX
    ensures (forall budget: nat :: Assembled(a, budget) == Assembled(b, budget)) <==> forall t :: SameTier(a, b, t)
  {
    forall t
      ensures Tiered(a, t) == Tiered(b, t) <==> SameTier(a, b, t)
    {
      TieredSame(a, b, t);
    }
    if forall t :: SameTier(a, b, t) {
      assert SameTier(a, b, Hot) && SameTier(a, b, Warm) && SameTier(a, b, Cold);
    } else {
      var t :| !SameTier(a, b, t);
      TierReadOff(a, t);
      TierReadOff(b, t);
      assert Assembled(a, USIZE_MAX) != Assembled(b, USIZE_MAX);
    }
  }

  //
  // Distinct ids.
  //

  /** No id occurs twice within a tier. */
  ghost predicate NoTwins(items: multiset<Item>) {
    forall x, y | x in items && y in items && x.tier == y.tier && x.id == y.id :: x == y && items[x] == 1
  }

  lemma {:induction false} OfTierPart(items: seq<Item>, t: Tier)
    ensures multiset(OfTier(items, t)) <= multiset(items)
    ensures forall x | x in items && x.tier == t :: x in OfTier(items, t)
  {
    if items != [] {
      OfTierPart(items[..|items| - 1], t);
      assert items == items[..|items| - 1] + [items[|items| - 1]];
    }
  }

  lemma {:induction false} WithIdPart(s: seq<Item>, id: string)
    ensures multiset(WithId(s, id)) <= multiset(s)
  {
    if s != [] {
      WithIdPart(s[1..], id);
      assert s == [s[0]] + s[1..];
    }
  }

  lemma AtMostOne(items: seq<Item>, t: Tier, id: string)
    requires NoTwins(multiset(items))
    ensures |WithId(OfTier(items, t), id)| <= 1
  {
    var w := WithId(OfTier(items, t), id);
    OfTierPart(items, t);
    OfTierElements(items, t);
    WithIdPart(OfTier(items, t), id);
    WithIdElements(OfTier(items, t), id);
    if |w| >= 2 {
      TwoAlike(w);
      assert false;
    }
  }

  lemma TwoAlike(w: seq<Item>)
    requires |w| >= 2
    ensures w[0] in w && w[1] in w && (w[0] == w[1] ==> multiset(w)[w[0]] >= 2)
  {
    assert w == [w[0], w[1]] + w[2..];
  }

  lemma FoundInBoth(a: seq<Item>, b: seq<Item>, t: Tier, x: Item)
    requires multiset(a) == multiset(b) && x in OfTier(a, t)
    ensures x in WithId(OfTier(b, t), x.id)
  {
    OfTierElements(a, t);
    assert x in multiset(a);
    assert x in multiset(b);
    OfTierPart(b, t);
    WithIdMember(OfTier(b, t), x);
  }

  lemma {:induction false} WithIdElements(s: seq<Item>, id: string)
    ensures forall x | x in WithId(s, id) :: x.id == id && x in s
  {
    if s != [] {
      WithIdElements(s[1..], id);
      assert s == [s[0]] + s[1..];
    }
  }

  lemma OnlyOneItem(a: seq<Item>, b: seq<Item>, t: Tier, id: string)
    requires multiset(a) == multiset(b)
    requires |WithId(OfTier(a, t), id)| == 1 && |WithId(OfTier(b, t), id)| <= 1
    ensures WithId(OfTier(a, t), id) == WithId(OfTier(b, t), id)
  {
    var w := WithId(OfTier(a, t), id);
    WithIdElements(OfTier(a, t), id);
    assert w[0] in w;
    FoundInBoth(a, b, t, w[0]);
    SameSingle(w, WithId(OfTier(b, t), id), w[0]);
  }

  lemma SameSingle(w: seq<Item>, v: seq<Item>, x: Item)
    requires |w| == 1 && |v| <= 1 && x in w && x in v
    ensures w == v
  {
  }

  lemma DemotedCons(x: Item, s: seq<Item>)
    ensures DemotedAll([x] + s) == [Demoted(x)] + DemotedAll(s)
  {
  }

  lemma {:induction false} DemotedWithId(s: seq<Item>, id: string)
    ensures WithId(DemotedAll(s), id) == DemotedAll(WithId(s, id))
  {
    if s != [] {
      DemotedWithId(s[1..], id);
      assert s == [s[0]] + s[1..];
      DemotedCons(s[0], s[1..]);
      assert DemotedAll(s)[1..] == DemotedAll(s[1..]);
      DemotedCons(s[0], WithId(s[1..], id));
    }
  }

  /** With distinct ids in each tier, the order of the input does not matter at all. */
  lemma PermutedInputSameResult(a: seq<Item>, b: seq<Item>, budget: nat)
    requires multiset(a) == multiset(b) && NoTwins(multiset(a))
    ensures Assembled(a, budget) == Assembled(b, budget)
  {
    forall t
      ensures Tiered(a, t) == Tiered(b, t)
    {
      forall id
        ensures WithId(DemotedAll(OfTier(a, t)), id) == WithId(DemotedAll(OfTier(b, t)), id)
      {
        AtMostOne(a, t, id);
        AtMostOne(b, t, id);
        if WithId(OfTier(a, t), id) != [] {
          OnlyOneItem(a, b, t, id);
        } else if WithId(OfTier(b, t), id) != [] {
          OnlyOneItem(b, a, t, id);
        }
        DemotedWithId(OfTier(a, t), id);
        DemotedWithId(OfTier(b, t), id);
      }
      TieredSame(a, b, t);
    }
    assert Tiered(a, Hot) == Tiered(b, Hot) && Tiered(a, Warm) == Tiered(b, Warm) && Tiered(a, Cold) == Tiered(b, Cold);
  }
}
