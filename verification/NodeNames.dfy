/** The node name mapping of the graph-to-function compiler: names are normalised and
    made unique while it remembers what every graph node was renamed to. */
module NodeNames {
  import opened Text

  /** `name_i`, the i-th name tried when `name` is taken. */
  function Candidate(name: string, i: nat): string {
    name + "_" + Decimal(i)
  }

  lemma CandidateInjective(name: string, i: nat, j: nat)
    requires Candidate(name, i) == Candidate(name, j)
    ensures i == j
  {
    assert Candidate(name, i)[|name| + 1..] == Decimal(i);
    assert Candidate(name, j)[|name| + 1..] == Decimal(j);
    DecimalInjective(i, j);
  }

  /** `r` is `name` itself if that is free, and otherwise the free candidate with the
      smallest suffix, found in at most |used| tries. */
  ghost predicate IsFirstFree(used: set<string>, name: string, r: string) {
    && r !in used
    && (name !in used ==> r == name)
    && (name in used ==>
          exists i: nat ::
            i < |used| && r == Candidate(name, i) && forall j: nat :: j < i ==> Candidate(name, j) in used)
  }

  function Lowered(c: char): char {
    if IsUpper(c) then c - 'A' + 'a' else if IsAlnum(c) then c else '_'
  }

  /** In ASCII codes: capital letters move by 32, small letters and digits stay, and
      everything else becomes '_'. */
  lemma LoweredExactly(c: char)
    ensures 65 <= c as int <= 90 ==> Lowered(c) as int == c as int + 32
    ensures 97 <= c as int <= 122 || 48 <= c as int <= 57 ==> Lowered(c) == c
    ensures !(65 <= c as int <= 90 || 97 <= c as int <= 122 || 48 <= c as int <= 57) ==> Lowered(c) == '_'
  {
  }

  /** What `Normalize` promises: lower-case, '_' for everything that is not alphanumeric,
      starting at the first letter, and "unknown" when there is no letter. */
  ghost predicate IsNormalized(name: string, r: string) {
    if exists i :: IsFirstLetter(name, i) then
      exists i :: IsFirstLetter(name, i) && r == LoweredAll(name[i..])
    else r == "unknown" && forall i :: 0 <= i < |name| ==> !IsAlpha(name[i])
  }

  ghost predicate IsFirstLetter(name: string, i: int) {
    0 <= i < |name| && IsAlpha(name[i]) && forall j :: 0 <= j < i ==> !IsAlpha(name[j])
  }

  function LoweredAll(s: string): (r: string)
    ensures |r| == |s| && forall k :: 0 <= k < |s| ==> r[k] == Lowered(s[k])
  {
    seq(|s|, k requires 0 <= k < |s| => Lowered(s[k]))
  }

  lemma LoweredKeepsLetters(c: char)
    ensures IsAlpha(Lowered(c)) == IsAlpha(c)
    ensures IsLower(Lowered(c)) || IsDigit(Lowered(c)) || Lowered(c) == '_'
  {
  }

  method Normalize(original: string) returns (r: string)
    ensures IsNormalized(original, r)
    ensures IsArgName(r)
  {
    if original == "" {
      return "unknown";
    }
    var name, n, i := original, |original|, 0;
    while i < n
      invariant 0 <= i <= n == |name|
      invariant forall k :: 0 <= k < i ==> name[k] == Lowered(original[k])
      invariant forall k :: i <= k < n ==> name[k] == original[k]
    {
      name := name[i := Lowered(name[i])];
      i := i + 1;
    }
    i := 0;
    while i < n && !IsAlpha(name[i])
      invariant 0 <= i <= n
      invariant forall j :: 0 <= j < i ==> !IsAlpha(original[j])
    {
      LoweredKeepsLetters(original[i]);
      i := i + 1;
    }
    if i == n {
      r := "unknown";
    } else {
      r := name[i..];
      NormalizedFrom(original, i, r);
    }
  }

  lemma NormalizedFrom(name: string, i: nat, r: string)
    requires i < |name| && forall j :: 0 <= j < i ==> !IsAlpha(name[j])
    requires |r| == |name| - i && forall k :: i <= k < |name| ==> r[k - i] == Lowered(name[k])
    requires IsAlpha(r[0])
    ensures IsNormalized(name, r) && IsArgName(r)
  {
    assert r[0] == Lowered(name[i]);
    LoweredKeepsLetters(name[i]);
    assert IsFirstLetter(name, i);
    assert r == LoweredAll(name[i..]);
    forall k | 0 <= k < |r| ensures IsLower(r[k]) || IsDigit(r[k]) || r[k] == '_' {
      assert r[k] == r[(i + k) - i] == Lowered(name[i + k]);
      LoweredKeepsLetters(name[i + k]);
    }
  }

  /** A suffix keeps the shape demanded of argument names. */
  lemma CandidateIsArgName(name: string, i: nat)
    requires IsArgName(name)
    ensures IsArgName(Candidate(name, i))
  {
  }

  class NodeNameMapping {
    var used: set<string>
    var mapping: map<string, string>

    /** The mapping is one-to-one and every value in it is a used name. */
    ghost predicate Valid()
      reads this
    {
      && (forall n :: n in mapping ==> mapping[n] in used)
      && (forall m, n :: m in mapping && n in mapping && mapping[m] == mapping[n] ==> m == n)
    }

    constructor ()
      ensures Valid() && used == {} && mapping == map[]
    {
      used := {};
      mapping := map[];
    }

    method UniquifyHelper(name: string) returns (r: string)
      ensures IsFirstFree(used, name, r)
      ensures IsArgName(name) ==> IsArgName(r)
      ensures ':' !in name ==> ':' !in r
    {
      if name !in used {
        return name;
      }
      var i := 0;
      ghost var tried := {name};
      while Candidate(name, i) in used
        invariant name in tried && tried <= used && |tried| == i + 1
        invariant forall j: nat :: j < i ==> Candidate(name, j) in used
        invariant forall s :: s in tried ==> s == name || exists j: nat :: j < i && s == Candidate(name, j)
        decreases |used| - i
      {
        assert Candidate(name, i) !in tried by {
          forall j: nat | j < i && Candidate(name, j) == Candidate(name, i) ensures false {
            CandidateInjective(name, j, i);
          }
        }
        tried := tried + {Candidate(name, i)};
        Smaller(tried, used);
        i := i + 1;
      }
      Smaller(tried, used);
      r := Candidate(name, i);
      if IsArgName(name) {
        CandidateIsArgName(name, i);
      }
    }

    /** Normalises an input name, makes it unique and remembers it for the node. */
    method GetInputName(name: string) returns (r: string)
      requires Valid()
      modifies this
      ensures Valid() && IsArgName(r) && r !in old(used)
      ensures exists n :: IsNormalized(name, n) && IsFirstFree(old(used), n, r)
      ensures used == old(used) + {r} && mapping == old(mapping)[name := r]
    {
      r := GetOutputName(name);
      mapping := mapping[name := r];
    }

    /** The same without remembering it: output names are not node names. */
    method GetOutputName(name: string) returns (r: string)
      requires Valid()
      modifies this`used
      ensures Valid() && IsArgName(r) && r !in old(used)
      ensures exists n :: IsNormalized(name, n) && IsFirstFree(old(used), n, r)
      ensures used == old(used) + {r}
    {
      var n := Normalize(name);
      r := UniquifyHelper(n);
      used := used + {r};
    }

    method Uniquify(name: string) returns (r: string)
      requires Valid()
      modifies this
      ensures Valid() && IsFirstFree(old(used), name, r) && r !in old(used)
      ensures (name != "" ==> r != "") && (':' !in name ==> ':' !in r)
      ensures used == old(used) + {r} && mapping == old(mapping)[name := r]
    {
      r := UniquifyHelper(name);
      mapping := mapping[name := r];
      used := used + {r};
    }

    /** Claims `name` as it is; a name already claimed is an error and changes nothing. */
    method UseOutputName(name: string) returns (ok: bool)
      requires Valid()
      modifies this`used
      ensures Valid()
      ensures ok == (name !in old(used))
      ensures used == old(used) + {name}
    {
      ok := name !in used;
      if ok {
        used := used + {name};
      }
    }

    /** The empty string stands for a node that was never seen. */
    function Lookup(name: string): (r: string)
      reads this
    {
      if name in mapping then mapping[name] else ""
    }
  }

  lemma Smaller(a: set<string>, b: set<string>)
    requires a <= b
    ensures |a| <= |b|
  {
    if a != {} {
      var x :| x in a;
      Smaller(a - {x}, b - {x});
    }
  }
}
