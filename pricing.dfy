/** calculateOrderAmount: a fixed price table folded over the selected test codes. */
module Pricing {

  /** The price table; a code that is not in it costs nothing (`testPrices[test] || 0`). */
  function TestPrice(code: string): (price: nat)
    ensures price > 0 <==> IsKnownCode(code)
    ensures 30 <= price <= 150 || price == 0
  {
    match code
    case "cbc" => 50
    case "lipid" => 100
    case "liver" => 120
    case "kidney" => 120
    case "urinalysis" => 40
    case "glucose" => 30
    case "thyroid" => 150
    case _ => 0
  }

  predicate IsKnownCode(code: string) {
    code in {"cbc", "lipid", "liver", "kidney", "urinalysis", "glucose", "thyroid"}
  }

  /**
   * `tests.reduce((total, test) => total + price(test), 0)`: a left fold over the list as given,
   * so a code listed twice is charged twice. The total is never negative.
   */
  function OrderAmount(tests: seq<string>): (total: int)
    ensures total >= 0
    decreases |tests|
  {
    if tests == [] then 0
    else OrderAmount(tests[..|tests| - 1]) + TestPrice(tests[|tests| - 1])
  }

  /** The same sum written as a right fold: an independent definition of "the sum of the prices". */
  function SumOfPrices(tests: seq<string>): nat
    decreases |tests|
  {
    if tests == [] then 0 else TestPrice(tests[0]) + SumOfPrices(tests[1..])
  }

  /** The amount of a concatenation is the sum of the amounts of its parts. */
  lemma {:induction false} OrderAmountAppend(a: seq<string>, b: seq<string>)
    ensures OrderAmount(a + b) == OrderAmount(a) + OrderAmount(b)
    decreases |b|
  {
    if b == [] {
      assert a + b == a;
    } else {
      assert (a + b)[..|a + b| - 1] == a + b[..|b| - 1];
      OrderAmountAppend(a, b[..|b| - 1]);
    }
  }

  /** The fold of the source and the plain sum agree on every list. */
  lemma {:induction false} OrderAmountIsSumOfPrices(tests: seq<string>)
    ensures OrderAmount(tests) == SumOfPrices(tests)
    decreases |tests|
  {
    if tests != [] {
      assert tests == [tests[0]] + tests[1..];
      OrderAmountAppend([tests[0]], tests[1..]);
      assert [tests[0]][..0] == [];
      OrderAmountIsSumOfPrices(tests[1..]);
    }
  }

  /** The selection order does not change the amount. */
  lemma OrderAmountSwap(a: seq<string>, b: seq<string>)
    ensures OrderAmount(a + b) == OrderAmount(b + a)
  {
    OrderAmountAppend(a, b);
    OrderAmountAppend(b, a);
  }

  /** Worked values: nothing selected costs 0, CBC with lipid costs 150, a repeated code is charged each time, an unknown code adds 0. */
  lemma OrderAmountExamples()
    ensures OrderAmount([]) == 0
    ensures OrderAmount(["cbc", "lipid"]) == 150
    ensures OrderAmount(["cbc", "cbc"]) == 100
    ensures OrderAmount(["cbc", "mri"]) == 50
  {
    assert ["cbc", "lipid"][..1] == ["cbc"];
    assert ["cbc", "cbc"][..1] == ["cbc"];
    assert ["cbc", "mri"][..1] == ["cbc"];
    assert ["cbc"][..0] == [];
  }
}
