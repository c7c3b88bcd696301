/** The two permutation generators of split detection, and what "every ordering once" means. */
module Permutations {
  import opened Common

  function RemoveAt<T>(s: seq<T>, i: nat): (r: seq<T>)
    requires i < |s|
    ensures |r| == |s| - 1
  {
    s[..i] + s[i + 1..]
  }

  /** `front` put before every element of `ss`. */
  function After<T>(front: seq<T>, ss: seq<seq<T>>): seq<seq<T>> {
    seq(|ss|, i requires 0 <= i < |ss| => front + ss[i])
  }

  /** The orderings of `s`: each element first in turn, the rest permuted behind it. */
  function Perms<T>(s: seq<T>): seq<seq<T>>
    decreases |s|, |s| + 1
  {
    if s == [] then [[]] else PermsFrom(s, 0)
  }

  /** Those that start with `s[i]` or a later element. */
  function PermsFrom<T>(s: seq<T>, i: nat): seq<seq<T>>
    requires i <= |s|
    decreases |s|, |s| - i
  {
    if i == |s| then [] else After([s[i]], Perms(RemoveAt(s, i))) + PermsFrom(s, i + 1)
  }

  function Factorial(n: nat): nat { if n == 0 then 1 else n * Factorial(n - 1) }

  lemma {:induction false} PermCount<T>(s: seq<T>)
    ensures |Perms(s)| == Factorial(|s|)
    decreases |s|, |s| + 1
  {
    if s != [] {
      PermCountFrom(s, 0);
    }
  }

  lemma {:induction false} PermCountFrom<T>(s: seq<T>, i: nat)
    requires s != [] && i <= |s|
    ensures |PermsFrom(s, i)| == (|s| - i) * Factorial(|s| - 1)
    decreases |s|, |s| - i
  {
    if i < |s| {
      PermCount(RemoveAt(s, i));
      PermCountFrom(s, i + 1);
      assert (|s| - i) * Factorial(|s| - 1) == Factorial(|s| - 1) + (|s| - (i + 1)) * Factorial(|s| - 1);
    }
  }

  /** The first ordering listed leaves everything where it is. */
  lemma {:induction false} FirstIsIdentity<T>(s: seq<T>)
    ensures Perms(s) != [] && Perms(s)[0] == s
    decreases |s|
  {
    if s != [] {
      FirstIsIdentity(RemoveAt(s, 0));
      assert Perms(s) == After([s[0]], Perms(RemoveAt(s, 0))) + PermsFrom(s, 1);
      assert [s[0]] + RemoveAt(s, 0) == s;
    }
  }

  lemma AfterMember<T>(x: T, ss: seq<seq<T>>, p: seq<T>)
    ensures p in After([x], ss) <==> p != [] && p[0] == x && p[1..] in ss
  {
    if p != [] && p[0] == x && p[1..] in ss {
      var i :| 0 <= i < |ss| && ss[i] == p[1..];
      assert After([x], ss)[i] == p;
    }
    if p in After([x], ss) {
      var i :| 0 <= i < |ss| && After([x], ss)[i] == p;
      assert p[1..] == ss[i];
    }
  }

  /** An ordering is listed exactly when it has the same elements, as often. */
  lemma {:induction false} PermsExact<T>(s: seq<T>, p: seq<T>)
    ensures p in Perms(s) <==> multiset(p) == multiset(s)
    decreases |s|, |s| + 1
  {
    if s == [] {
      if multiset(p) == multiset(s) {
        assert |p| == |multiset(p)| == 0;
      }
    } else {
      PermsFromExact(s, 0, p);
      if multiset(p) == multiset(s) {
        assert s[0] in multiset(p);
        assert p[0] in multiset(p) && p[0] in multiset(s);
        var j :| 0 <= j < |s| && s[j] == p[0];
        SameWithout(s, j, p);
        assert StartsWith(s, j, p);
      }
      if p in PermsFrom(s, 0) {
        var j :| 0 <= j < |s| && StartsWith(s, j, p);
        SameWithout(s, j, p);
      }
    }
  }

  lemma SameWithout<T>(s: seq<T>, j: nat, p: seq<T>)
    requires j < |s| && p != [] && p[0] == s[j]
    ensures multiset(p) == multiset(s) <==> multiset(p[1..]) == multiset(RemoveAt(s, j))
  {
    MultisetRemove(s, j);
    MultisetHead(p);
  }

  /** `p` is `s[j]` followed by an ordering of the rest. */
  ghost predicate StartsWith<T>(s: seq<T>, j: nat, p: seq<T>)
    requires j < |s|
  {
    p != [] && p[0] == s[j] && multiset(p[1..]) == multiset(RemoveAt(s, j))
  }

  lemma {:induction false} PermsFromExact<T>(s: seq<T>, i: nat, p: seq<T>)
    requires s != [] && i <= |s|
    ensures p in PermsFrom(s, i)
       <==> exists j :: i <= j < |s| && StartsWith(s, j, p)
    decreases |s|, |s| - i
  {
    if i < |s| {
      PermsFromExact(s, i + 1, p);
      StartsHere(s, i, p);
      PermsFromStep(s, i);
      hide StartsWith, After, RemoveAt, Perms, PermsFrom;
      assert p in PermsFrom(s, i) <==> StartsWith(s, i, p) || p in PermsFrom(s, i + 1);
    }
  }

  lemma StartsHere<T>(s: seq<T>, i: nat, p: seq<T>)
    requires i < |s|
    ensures p in After([s[i]], Perms(RemoveAt(s, i))) <==> StartsWith(s, i, p)
    decreases |s|, 0
  {
    hide Perms, After;
    AfterMember(s[i], Perms(RemoveAt(s, i)), p);
    if p != [] {
      PermsExact(RemoveAt(s, i), p[1..]);
    }
  }

  ghost predicate AllDifferent<T>(s: seq<T>) {
    forall i, j :: 0 <= i < j < |s| ==> s[i] != s[j]
  }

  /** Distinct elements: no ordering is listed twice. */
  lemma {:induction false} PermsDistinct<T>(s: seq<T>)
    requires AllDifferent(s)
    ensures AllDifferent(Perms(s))
    decreases |s|, |s| + 1
  {
    if s != [] {
      PermsFromDistinct(s, 0);
    }
  }

  lemma {:induction false} PermsFromDistinct<T>(s: seq<T>, i: nat)
    requires AllDifferent(s) && s != [] && i <= |s|
    ensures AllDifferent(PermsFrom(s, i))
    decreases |s|, |s| - i
  {
    if i < |s| {
      var here, later := After([s[i]], Perms(RemoveAt(s, i))), PermsFrom(s, i + 1);
      PermsDistinct(RemoveAt(s, i));
      PermsFromDistinct(s, i + 1);
      var all := here + later;
      forall a: nat, b: nat | a < b < |all| ensures all[a] != all[b] {
        if b < |here| {
          assert here[a][1..] == Perms(RemoveAt(s, i))[a] && here[b][1..] == Perms(RemoveAt(s, i))[b];
        } else if a < |here| {
          assert here[a][0] == s[i];
          assert later[b - |here|] in later;
          PermsFromExact(s, i + 1, later[b - |here|]);
        }
      }
    }
  }

  /** `index_permutations`: the recursive generator. */
  method IndexPermutations(indices: seq<nat>) returns (result: seq<seq<nat>>)
    ensures result == Perms(indices)
    decreases |indices|
  {
    if |indices| <= 1 {
      SmallPerms(indices);
      return [indices];
    }
    result := [];
    var i := 0;
    while i < |indices|
      invariant 0 <= i <= |indices|
      invariant result + PermsFrom(indices, i) == PermsFrom(indices, 0)
    {
      var item := indices[i];
      var rest := RemoveAt(indices, i);
      var sub := IndexPermutations(rest);
      PermsFromStep(indices, i);
      hide Perms, PermsFrom, RemoveAt;
      ghost var before := result;
      var front := InsertFront(item, sub);
      result := result + front;
      assert result + PermsFrom(indices, i + 1) == before + (After([item], sub) + PermsFrom(indices, i + 1));
      i := i + 1;
    }
  }

  lemma PermsFromStep<T>(s: seq<T>, i: nat)
    requires i < |s|
    ensures PermsFrom(s, i) == After([s[i]], Perms(RemoveAt(s, i))) + PermsFrom(s, i + 1)
  {
  }

  /** `item` inserted at the front of every ordering in turn. */
  method InsertFront(item: nat, sub: seq<seq<nat>>) returns (r: seq<seq<nat>>)
    ensures r == After([item], sub)
  {
    r := [];
    for j := 0 to |sub|
      invariant r == After([item], sub)[..j]
    {
      r := r + [[item] + sub[j]];
    }
  }

  lemma SmallPerms<T>(s: seq<T>)
    requires |s| <= 1
    ensures Perms(s) == [s]
  {
    if |s| == 1 {
      assert RemoveAt(s, 0) == [];
      assert PermsFrom(s, 1) == [];
      assert [s[0]] + [] == s;
      assert After([s[0]], [[]]) == [s];
    }
  }

  /**
   `permute`: the backtracking generator. It appends every way of finishing `current` with
   `remaining` and hands both back unchanged.
   */
  method Permute(currentIn: seq<nat>, remainingIn: seq<nat>, outIn: seq<seq<nat>>)
    returns (current: seq<nat>, remaining: seq<nat>, out: seq<seq<nat>>)
    ensures current == currentIn && remaining == remainingIn
    ensures out == outIn + After(currentIn, Perms(remainingIn))
    decreases |remainingIn|
  {
    current, remaining, out := currentIn, remainingIn, outIn;
    if remaining == [] {
      assert current + [] == current;
      assert After(current, [[]]) == [current];
      out := out + [current];
      return;
    }
    var i := 0;
    while i < |remaining|
      invariant 0 <= i <= |remaining|
      invariant current == currentIn && remaining == remainingIn
      invariant out + After(currentIn, PermsFrom(remainingIn, i)) == outIn + After(currentIn, PermsFrom(remainingIn, 0))
    {
      ghost var before := out;
      var val := remaining[i];
      AfterStep(currentIn, remainingIn, i);
      PutBack(remainingIn, i);
      hide Perms, PermsFrom, After, RemoveAt;
      remaining := RemoveAt(remaining, i);
      current := current + [val];
      current, remaining, out := Permute(current, remaining, out);
      current := current[..|current| - 1];
      remaining := remaining[..i] + [val] + remaining[i..];
      assert before + (After(currentIn + [val], Perms(RemoveAt(remainingIn, i))) + After(currentIn, PermsFrom(remainingIn, i + 1)))
          == out + After(currentIn, PermsFrom(remainingIn, i + 1));
      i := i + 1;
    }
    assert After(currentIn, PermsFrom(remainingIn, i)) == [];
  }

  /** `remaining.insert(i, val)` undoes `remaining.remove(i)`. */
  lemma PutBack<T>(s: seq<T>, i: nat)
    requires i < |s|
    ensures RemoveAt(s, i)[..i] + [s[i]] + RemoveAt(s, i)[i..] == s
  {
  }

  lemma AfterStep<T>(front: seq<T>, s: seq<T>, i: nat)
    requires i < |s|
    ensures After(front, PermsFrom(s, i))
         == After(front + [s[i]], Perms(RemoveAt(s, i))) + After(front, PermsFrom(s, i + 1))
  {
    var here := Perms(RemoveAt(s, i));
    var left := After(front, PermsFrom(s, i));
    var right := After(front + [s[i]], here) + After(front, PermsFrom(s, i + 1));
    forall j: nat | j < |left| ensures left[j] == right[j] {
      if j < |here| {
        assert front + ([s[i]] + here[j]) == front + [s[i]] + here[j];
      }
    }
  }

  function UpTo(n: nat): (r: seq<nat>)
    ensures |r| == n && forall i :: 0 <= i < n ==> r[i] == i
  {
    seq(n, i => i)
  }

  /** `all_permutations`: every ordering of `0..n`, each once, `n!` of them. */
  method AllPermutations(n: nat) returns (out: seq<seq<nat>>)
    ensures out == Perms(UpTo(n))
    ensures |out| == Factorial(n) && AllDifferent(out)
    ensures forall p: seq<nat> :: p in out <==> multiset(p) == multiset(UpTo(n))
  {
    var current, remaining;
    current, remaining, out := Permute([], UpTo(n), []);
    var all := Perms(UpTo(n));
    forall i | 0 <= i < |all| ensures [] + all[i] == all[i] {}
    assert out == all;
    PermCount(UpTo(n));
    PermsDistinct(UpTo(n));
    forall p: seq<nat> ensures p in out <==> multiset(p) == multiset(UpTo(n)) {
      PermsExact(UpTo(n), p);
    }
  }
}
