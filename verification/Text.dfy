/** Decimal rendering and `StrCat`-style names, as far as the name arithmetic of the
    function compiler needs them. */
module Text {

  predicate IsDigit(c: char) {
    '0' <= c <= '9'
  }

  predicate IsLower(c: char) {
    'a' <= c <= 'z'
  }

  predicate IsUpper(c: char) {
    'A' <= c <= 'Z'
  }

  predicate IsAlpha(c: char) {
    IsLower(c) || IsUpper(c)
  }

  predicate IsAlnum(c: char) {
    IsAlpha(c) || IsDigit(c)
  }

  /** The regular expression `[a-z][a-z0-9_]*` demanded of ArgDef names. */
  predicate IsArgName(s: string) {
    s != "" && IsLower(s[0]) && forall i :: 0 <= i < |s| ==> IsLower(s[i]) || IsDigit(s[i]) || s[i] == '_'
  }

  /** The decimal rendering `strings::StrCat` gives a non-negative integer. */
  function Decimal(n: nat): (r: string)
    ensures r != "" && forall i :: 0 <= i < |r| ==> IsDigit(r[i])
  {
    var last := ['0' + (n % 10) as char];
    if n < 10 then last else Decimal(n / 10) + last
  }

  /** The number that a string of digits stands for. */
  ghost function ValueOf(digits: string): int {
    if digits == "" then 0 else 10 * ValueOf(digits[..|digits| - 1]) + (digits[|digits| - 1] as int - '0' as int)
  }

  /** The rendering of a number stands for it and has no leading zero. */
  lemma {:induction false} DecimalExactly(n: nat)
    ensures ValueOf(Decimal(n)) == n && (Decimal(n)[0] == '0' <==> n == 0)
  {
    var r := Decimal(n);
    assert r[|r| - 1] == '0' + (n % 10) as char;
    if n >= 10 {
      DecimalExactly(n / 10);
      assert r[..|r| - 1] == Decimal(n / 10);
    } else {
      assert r[..0] == "";
    }
  }

  /** Different numbers have different renderings. */
  lemma DecimalInjective(m: nat, n: nat)
    requires Decimal(m) == Decimal(n)
    ensures m == n
  {
    DecimalExactly(m);
    DecimalExactly(n);
  }

  /** Cutting at the last colon is unambiguous. */
  lemma SplitAtLastColon(a: string, b: string, c: string, d: string)
    requires a + ":" + b == c + ":" + d
    requires ':' !in b && ':' !in d
    ensures a == c && b == d
  {
    var s := a + ":" + b;
    assert s[|a|] == ':' && s[|c|] == ':';
    assert s[|a| + 1..] == b && s[|c| + 1..] == d;
    assert forall k :: |a| < k < |s| ==> s[k] in b;
    assert forall k :: |c| < k < |s| ==> s[k] in d;
    assert s[..|a|] == a && s[..|c|] == c;
  }

  /** So is cutting at the first colon. */
  lemma SplitAtFirstColon(a: string, x: string, b: string, y: string)
    requires a + x == b + y && ':' !in a && ':' !in b
    requires (x == "" || x[0] == ':') && (y == "" || y[0] == ':')
    ensures a == b && x == y
  {
    var s := a + x;
    assert forall k :: 0 <= k < |a| ==> s[k] == a[k];
    assert forall k :: 0 <= k < |b| ==> s[k] == b[k];
    assert (x != "" ==> s[|a|] == ':') && (y != "" ==> s[|b|] == ':');
    assert |a| == |b|;
    assert a == (a + x)[..|a|] && b == (b + y)[..|b|];
    assert x == (a + x)[|a|..] && y == (b + y)[|b|..];
  }

  /** `name:index`, the flat name of an output tensor. */
  function FlatName(name: string, index: nat): string {
    name + ":" + Decimal(index)
  }

  /** Flat names determine the node name and the index, whatever characters the name uses. */
  lemma FlatNameInjective(a: string, i: nat, b: string, j: nat)
    requires FlatName(a, i) == FlatName(b, j)
    ensures a == b && i == j
  {
    SplitAtLastColon(a, Decimal(i), b, Decimal(j));
    DecimalInjective(i, j);
  }

  /** `node:out:index`, the name a FunctionDef uses for an output of a body node. */
  function NestedName(node: string, out: string, index: nat): string {
    FlatName(node + ":" + out, index)
  }
}
