/**
 * The unique group name of `create_via_group`: the timestamped name is used as it is when no
 * group carries it, and otherwise `_1`, `_2`, ... is appended until a free name is found.
 */
module GroupNames {

  function DigitChar(d: nat): char
    requires d < 10
  {
    "0123456789"[d]
  }

  /** `str(k)`: the decimal digits of `k`, most significant first. */
  function NatToString(k: nat): string
  {
    if k < 10 then [DigitChar(k)] else NatToString(k / 10) + [DigitChar(k % 10)]
  }

  lemma {:induction false} NatToStringLength(k: nat)
    ensures |NatToString(k)| >= 1
    ensures |NatToString(k)| == 1 <==> k < 10
  {
    if k >= 10 {
      NatToStringLength(k / 10);
    }
  }

  /** Different numbers print differently. */
  lemma {:induction false} NatToStringInjective(a: nat, b: nat)
    requires NatToString(a) == NatToString(b)
    ensures a == b
  {
    NatToStringLength(a);
    NatToStringLength(b);
    if a >= 10 && b >= 10 {
      var sa, sb := NatToString(a), NatToString(b);
      assert DigitChar(a % 10) == sa[|sa| - 1] == sb[|sb| - 1] == DigitChar(b % 10);
      assert sa[..|sa| - 1] == NatToString(a / 10);
      assert sb[..|sb| - 1] == NatToString(b / 10);
      NatToStringInjective(a / 10, b / 10);
    }
  }

  /** `f"{name}_{k}"`. */
  function Suffixed(name: string, k: nat): string
  {
    name + "_" + NatToString(k)
  }

  lemma {:induction false} SuffixedInjective(name: string, a: nat, b: nat)
    requires Suffixed(name, a) == Suffixed(name, b)
    ensures a == b
  {
    var prefix := name + "_";
    assert Suffixed(name, a)[|prefix|..] == NatToString(a);
    assert Suffixed(name, b)[|prefix|..] == NatToString(b);
    NatToStringInjective(a, b);
  }

  lemma {:induction false} SubsetCardinality<T>(a: set<T>, b: set<T>)
    requires a <= b
    ensures |a| <= |b|
  {
    assert b == a + (b - a);
  }

  /**
   * The name chosen for the new group: `name` when it is free, otherwise `name_k` for the
   * least `k >= 1` whose name is free; the result is never an existing name.
   */
  method UniqueGroupName(name: string, existing: set<string>) returns (unique: string)
    ensures unique !in existing
    ensures name !in existing ==> unique == name
    ensures name in existing ==>
              exists k :: k >= 1 && unique == Suffixed(name, k) &&
                          forall j :: 1 <= j < k ==> Suffixed(name, j) in existing
  {
    unique := name;
    if name in existing {
      var counter := 1;
      ghost var seen: set<string> := {};
      while Suffixed(name, counter) in existing
        invariant counter >= 1
        invariant seen <= existing && |seen| == counter - 1
        invariant forall j :: 1 <= j < counter ==> Suffixed(name, j) in existing
        invariant forall s :: s in seen ==> exists j :: 1 <= j < counter && s == Suffixed(name, j)
        decreases |existing| - |seen|
      {
        if Suffixed(name, counter) in seen {
          var j :| 1 <= j < counter && Suffixed(name, counter) == Suffixed(name, j);
          SuffixedInjective(name, counter, j);
          assert false;
        }
        seen := seen + {Suffixed(name, counter)};
        SubsetCardinality(seen, existing);
        counter := counter + 1;
      }
      unique := Suffixed(name, counter);
    }
  }
}
