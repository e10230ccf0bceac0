/** Products of dimensions. */
module Products {

  function Product(dims: seq<nat>): nat {
    if dims == [] then 1 else dims[0] * Product(dims[1..])
  }

  lemma MulAssociates(a: nat, b: nat, c: nat)
    ensures a * (b * c) == a * b * c
  {
  }

  lemma {:induction false} ProductConcat(a: seq<nat>, b: seq<nat>)
    ensures Product(a + b) == Product(a) * Product(b)
  {
    if a == [] {
      assert a + b == b;
    } else {
      ProductConcat(a[1..], b);
      assert (a + b)[1..] == a[1..] + b;
      MulAssociates(a[0], Product(a[1..]), Product(b));
    }
  }

  lemma SingleProduct(x: nat)
    ensures Product([x]) == x
  {
  }

  lemma ProductSnoc(dims: seq<nat>, i: nat)
    requires i < |dims|
    ensures Product(dims[..i + 1]) == Product(dims[..i]) * dims[i]
  {
    hide Product;
    assert dims[..i + 1] == dims[..i] + [dims[i]];
    ProductConcat(dims[..i], [dims[i]]);
    SingleProduct(dims[i]);
  }
}
